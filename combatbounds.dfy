/** The result of `doRound` is made of probabilities: every component is at
    least zero and, together, they never exceed one. */
module CombatBounds {
  import opened Forces
  import opened Casualties
  import opened HitTable
  import opened HitBounds
  import opened Combat
  import opened Shares

  /** Every component is at least zero and the three add up to at most `m`. */
  ghost predicate Within(o: Outcome, m: real) {
    0.0 <= o.win && 0.0 <= o.lose && 0.0 <= o.tie && o.win + o.lose + o.tie <= m
  }

  /** `pa[0] + ... + pa[n - 1]`. */
  ghost function PMass(pa: map<int, real>, n: int): real
    requires forall h :: 0 <= h < n ==> h in pa
    decreases n
  {
    if n <= 0 then 0.0 else PMass(pa, n - 1) + pa[n - 1]
  }

  /** The entries of `t` for `0 .. n` exist and none is negative. */
  ghost predicate NonNegTable(t: map<int, real>, n: int) {
    forall h :: 0 <= h <= n ==> h in t && t[h] >= 0.0
  }

  /** No entry of either table is negative. */
  ghost predicate Weights(u: Units, pa: map<int, real>, pd: map<int, real>) {
    NonNegTable(pa, Sum(u.att)) && NonNegTable(pd, Sum(u.def))
  }

  /** The probability of the pairs the loops have visited before `(a, d)`:
      the weights `pa[i] * pd[j]` that lines 185-188 multiply in, in loop
      order, `(0, 0)` left out. */
  ghost function Spent(u: Units, pa: map<int, real>, pd: map<int, real>, a: int, d: int): real
    requires Ready(u, pa, pd)
    requires 0 <= a <= Sum(u.att) + 1 && 0 <= d <= Sum(u.def) + 1 && (a <= Sum(u.att) || d == 0)
    decreases a, d
  {
    if d > 0 then Spent(u, pa, pd, a, d - 1) + Weight(pa, pd, a, d - 1)
    else if a > 0 then Spent(u, pa, pd, a - 1, Sum(u.def) + 1)
    else 0.0
  }

  /** The weight line 185 gives the pair `(a, d)`; the skipped pair `(0, 0)`
      weighs nothing. */
  ghost function Weight(pa: map<int, real>, pd: map<int, real>, a: int, d: int): real
    requires a in pa && d in pd
  {
    if a == 0 && d == 0 then 0.0 else pa[a] * pd[d]
  }

  /** Full rows `i < a` weigh `pa[i]` times the defender's whole mass; row `a`
      so far weighs `pa[a]` times the defender's mass below `d`. */
  ghost function Cap(u: Units, pa: map<int, real>, pd: map<int, real>, a: int, d: int): real
    requires Ready(u, pa, pd)
    requires 0 <= a <= Sum(u.att) + 1 && 0 <= d <= Sum(u.def) + 1 && (a <= Sum(u.att) || d == 0)
  {
    PMass(pa, a) * PMass(pd, Sum(u.def) + 1) + (if a <= Sum(u.att) then pa[a] * PMass(pd, d) else 0.0)
  }

  /** Adding an outcome that is itself within one, weighted by `w >= 0`,
      raises the bound by `w`. */
  lemma AccumulateWithin(acc: Outcome, r: Outcome, w: real, m: real)
    requires Within(acc, m) && Within(r, 1.0) && w >= 0.0
    ensures Within(Accumulate(acc, r, w), m + w)
  {
    var s := r.win + r.lose + r.tie;
    assert r.win * w >= 0.0 && r.lose * w >= 0.0 && r.tie * w >= 0.0;
    assert r.win * w + r.lose * w + r.tie * w == s * w;
    assert (1.0 - s) * w >= 0.0;
  }

  lemma TimesAdd(x: real, y: real, z: real)
    ensures Times(x, y + z) == Times(x, y) + Times(x, z)
    ensures Times(y + z, x) == Times(y, x) + Times(z, x)
  {
  }

  lemma TimesAtMostOne(x: real, y: real)
    requires 0.0 <= x <= 1.0 && 0.0 <= y <= 1.0
    ensures Times(x, y) <= 1.0
  {
    ScaleAtMost(x, y);
    assert Times(x, y) == x * y <= x;
  }

  lemma {:induction false} PMassNonNeg(pa: map<int, real>, n: int)
    requires forall h :: 0 <= h < n ==> h in pa && pa[h] >= 0.0
    ensures PMass(pa, n) >= 0.0
    decreases n
  {
    if n > 0 {
      PMassNonNeg(pa, n - 1);
    }
  }

  /** The running totals at `(a, d)` are within the probability of the
      pairs visited so far. */
  lemma {:induction false} BeforeWithin(u: Units, pa: map<int, real>, pd: map<int, real>, a: int, d: int)
    requires Ready(u, pa, pd) && Weights(u, pa, pd)
    requires 0 <= a <= Sum(u.att) + 1 && 0 <= d <= Sum(u.def) + 1 && (a <= Sum(u.att) || d == 0)
    ensures Within(Before(u, pa, pd, a, d), Spent(u, pa, pd, a, d))
    decreases Total(u), 0, a, d
  {
    if d > 0 {
      BeforeWithin(u, pa, pd, a, d - 1);
      if a != 0 || d != 1 {
        StepWithin(u, pa, pd, a, d - 1);
      }
    } else if a > 0 {
      BeforeWithin(u, pa, pd, a - 1, Sum(u.def) + 1);
    }
  }

  /** One pass of the inner loop adds at most the pair's weight. */
  lemma StepWithin(u: Units, pa: map<int, real>, pd: map<int, real>, a: int, d: int)
    requires Ready(u, pa, pd) && Weights(u, pa, pd)
    requires 0 <= a <= Sum(u.att) && 0 <= d <= Sum(u.def) && (a != 0 || d != 0)
    requires Within(Before(u, pa, pd, a, d), Spent(u, pa, pd, a, d))
    ensures Within(Before(u, pa, pd, a, d + 1), Spent(u, pa, pd, a, d + 1))
    decreases Total(u), 0, a, d
  {
    TotalDecreases(a, d, u);
    BeforeStep(u, pa, pd, a, d);
    ResolveWithin(Apply(a, d, u));
    WeightNonNeg(u, pa, pd, a, d);
    AccumulateWithin(Before(u, pa, pd, a, d), Resolve(Apply(a, d, u)), pa[a] * pd[d], Spent(u, pa, pd, a, d));
    assert Spent(u, pa, pd, a, d + 1) == Spent(u, pa, pd, a, d) + Weight(pa, pd, a, d);
  }

  lemma WeightNonNeg(u: Units, pa: map<int, real>, pd: map<int, real>, a: int, d: int)
    requires Weights(u, pa, pd) && 0 <= a <= Sum(u.att) && 0 <= d <= Sum(u.def) && (a != 0 || d != 0)
    ensures a in pa && d in pd && Weight(pa, pd, a, d) == pa[a] * pd[d] >= 0.0
  {
    assert pa[a] >= 0.0 && pd[d] >= 0.0;
  }

  /** The visited pairs weigh no more than the products of the tables'
      masses. */
  lemma {:induction false} SpentAtMost(u: Units, pa: map<int, real>, pd: map<int, real>, a: int, d: int)
    requires Ready(u, pa, pd) && Weights(u, pa, pd)
    requires 0 <= a <= Sum(u.att) + 1 && 0 <= d <= Sum(u.def) + 1 && (a <= Sum(u.att) || d == 0)
    ensures Spent(u, pa, pd, a, d) <= Cap(u, pa, pd, a, d)
    decreases a, d
  {
    if d > 0 {
      SpentAtMost(u, pa, pd, a, d - 1);
      CapInner(u, pa, pd, a, d);
    } else if a > 0 {
      SpentAtMost(u, pa, pd, a - 1, Sum(u.def) + 1);
      CapOuter(u, pa, pd, a);
    }
  }

  /** One more defender total adds at most its pair's weight to the bound. */
  lemma CapInner(u: Units, pa: map<int, real>, pd: map<int, real>, a: int, d: int)
    requires Ready(u, pa, pd) && Weights(u, pa, pd)
    requires 0 <= a <= Sum(u.att) && 0 < d <= Sum(u.def) + 1
    ensures Cap(u, pa, pd, a, d) >= Cap(u, pa, pd, a, d - 1) + Weight(pa, pd, a, d - 1)
  {
    var x, m, y := pa[a], PMass(pd, d - 1), pd[d - 1];
    TimesAdd(x, m, y);
    assert Times(x, m + y) == x * (m + y) && Times(x, m) == x * m;
    assert Times(x, y) == x * y >= 0.0;
  }

  /** Moving on to the next attacker total leaves the bound where it was. */
  lemma CapOuter(u: Units, pa: map<int, real>, pd: map<int, real>, a: int)
    requires Ready(u, pa, pd) && 0 < a <= Sum(u.att) + 1
    ensures Cap(u, pa, pd, a, 0) == Cap(u, pa, pd, a - 1, Sum(u.def) + 1)
  {
    var m, p, y := PMass(pd, Sum(u.def) + 1), PMass(pa, a - 1), pa[a - 1];
    TimesAdd(m, p, y);
    assert (p + y) * m == p * m + y * m by {
      assert Times(p + y, m) == (p + y) * m && Times(p, m) == p * m && Times(y, m) == y * m;
    }
    assert Cap(u, pa, pd, a - 1, Sum(u.def) + 1) == p * m + y * m;
    assert PMass(pa, a) == p + y;
    if a <= Sum(u.att) {
      assert PMass(pd, 0) == 0.0;
      assert Cap(u, pa, pd, a, 0) == (p + y) * m + pa[a] * 0.0;
    } else {
      assert Cap(u, pa, pd, a, 0) == (p + y) * m + 0.0;
    }
  }

  /** `doRound` returns probabilities: each of the three is at least zero,
      and they add up to at most one. */
  lemma {:induction false} ResolveWithin(u: Units)
    requires Valid(u)
    ensures Within(Resolve(u), 1.0)
    decreases Total(u), 1
  {
    if AnyAlive(u.att) && AnyAlive(u.def) {
      AliveIffPositive(u.att);
      AliveIffPositive(u.def);
      TablesReady(u);
      FoldWithin(u, TableOf(Binomials(Att, u.att), u.att), TableOf(Binomials(Def, u.def), u.def));
    }
  }

  /** The fold of lines 178-190 over two tables whose entries are at least
      zero and add up to at most one yields probabilities. */
  lemma FoldWithin(u: Units, pa: map<int, real>, pd: map<int, real>)
    requires Ready(u, pa, pd) && Weights(u, pa, pd)
    requires PMass(pa, Sum(u.att) + 1) <= 1.0 && PMass(pd, Sum(u.def) + 1) <= 1.0
    ensures Within(Before(u, pa, pd, Sum(u.att) + 1, 0), 1.0)
    decreases Total(u), 0, Sum(u.att) + 2, 0
  {
    BeforeWithin(u, pa, pd, Sum(u.att) + 1, 0);
    SpentAtMost(u, pa, pd, Sum(u.att) + 1, 0);
    PMassNonNeg(pa, Sum(u.att) + 1);
    PMassNonNeg(pd, Sum(u.def) + 1);
    TimesAtMostOne(PMass(pa, Sum(u.att) + 1), PMass(pd, Sum(u.def) + 1));
  }

  /** Both sides' tables, as lines 162-176 build them, are ready for the fold. */
  lemma TablesReady(u: Units)
    requires Valid(u) && Sum(u.att) > 0 && Sum(u.def) > 0
    ensures var pa := TableOf(Binomials(Att, u.att), u.att);
      var pd := TableOf(Binomials(Def, u.def), u.def);
      Ready(u, pa, pd) && Weights(u, pa, pd) &&
      PMass(pa, Sum(u.att) + 1) <= 1.0 && PMass(pd, Sum(u.def) + 1) <= 1.0
  {
    SideTable(Att, u.att);
    SideTable(Def, u.def);
  }

  /** A side's table has no negative entry and carries a probability mass
      between zero and one. */
  lemma SideTable(side: Side, counts: seq<int>)
    requires |counts| == UnitKinds && NonNeg(counts)
    ensures NonNegTable(TableOf(Binomials(side, counts), counts), Sum(counts))
    ensures 0.0 <= PMass(TableOf(Binomials(side, counts), counts), Sum(counts) + 1) <= 1.0
  {
    BinomialsNonNeg(side, counts);
    BinomialsDistribution(side, counts);
    TableWeights(Binomials(side, counts), counts);
    TableMass(Binomials(side, counts), counts);
  }

  lemma TableWeights(chance: (int, int) -> real, counts: seq<int>)
    requires |counts| == UnitKinds && NonNeg(counts)
    requires forall j, k :: chance(j, k) >= 0.0
    ensures NonNegTable(TableOf(chance, counts), Sum(counts))
  {
    forall h | 0 <= h <= Sum(counts)
      ensures TableOf(chance, counts)[h] >= 0.0
    {
      HitProbNonNeg(chance, counts, h);
    }
  }

  /** The entries of a table add up to at most one. */
  lemma TableMass(chance: (int, int) -> real, counts: seq<int>)
    requires |counts| == UnitKinds && NonNeg(counts) && IsDistribution(chance, counts)
    ensures 0.0 <= PMass(TableOf(chance, counts), Sum(counts) + 1) <= 1.0
  {
    HitMassAtMostOne(chance, counts);
    MassOfTable(chance, counts, Sum(counts) + 1);
  }

  lemma {:induction false} MassOfTable(chance: (int, int) -> real, counts: seq<int>, n: int)
    requires n <= Sum(counts) + 1
    ensures PMass(TableOf(chance, counts), n) == HitMass(chance, counts, n)
    decreases n
  {
    if n > 0 {
      MassOfTable(chance, counts, n - 1);
    }
  }

  /** `prob_win + prob_lose + prob_tie`. */
  function OutcomeMass(o: Outcome): real {
    o.win + o.lose + o.tie
  }

  /** The three results of `doRound` never add up to zero: a terminal state
      is certain, and otherwise the pair "the attacker scores one hit, the
      defender none" has positive weight and leads to a state whose results,
      by induction, do not add up to zero either. */
  lemma {:induction false} ResolvePositive(u: Units)
    requires Valid(u)
    ensures OutcomeMass(Resolve(u)) > 0.0
    decreases Total(u)
  {
    if AnyAlive(u.att) && AnyAlive(u.def) {
      AliveIffPositive(u.att);
      AliveIffPositive(u.def);
      TotalDecreases(1, 0, u);
      ResolvePositive(Apply(1, 0, u));
      var pa := TableOf(Binomials(Att, u.att), u.att);
      var pd := TableOf(Binomials(Def, u.def), u.def);
      TablesReady(u);
      BinomialsPositive(Att, u.att);
      BinomialsPositive(Def, u.def);
      HitProbPositive(Binomials(Att, u.att), u.att, 1);
      HitProbPositive(Binomials(Def, u.def), u.def, 0);
      WeightPositive(pa[1], pd[0]);
      FoldPositive(u, pa, pd, Sum(u.att) + 1, 0, 1, 0);
    }
  }

  /** Once the loops are past a pair `(a0, d0)` of positive weight whose
      follow-up state has a positive outcome, the running totals add up to
      more than zero. */
  lemma {:induction false} FoldPositive(u: Units, pa: map<int, real>, pd: map<int, real>, a: int, d: int, a0: int, d0: int)
    requires Ready(u, pa, pd) && Weights(u, pa, pd)
    requires 0 <= a <= Sum(u.att) + 1 && 0 <= d <= Sum(u.def) + 1 && (a <= Sum(u.att) || d == 0)
    requires 0 <= a0 <= Sum(u.att) && 0 <= d0 <= Sum(u.def) && (a0 != 0 || d0 != 0)
    requires a > a0 || (a == a0 && d > d0)
    requires pa[a0] * pd[d0] > 0.0
    requires Valid(Apply(a0, d0, u)) && OutcomeMass(Resolve(Apply(a0, d0, u))) > 0.0
    ensures OutcomeMass(Before(u, pa, pd, a, d)) > 0.0
    decreases a, d
  {
    if d == 0 {
      FoldPositive(u, pa, pd, a - 1, Sum(u.def) + 1, a0, d0);
    } else if a == a0 && d == d0 + 1 {
      BeforeStep(u, pa, pd, a0, d0);
      BeforeWithin(u, pa, pd, a0, d0);
      HitPositive(Before(u, pa, pd, a0, d0), Resolve(Apply(a0, d0, u)), pa[a0] * pd[d0]);
    } else {
      FoldPositive(u, pa, pd, a, d - 1, a0, d0);
      StepPositive(u, pa, pd, a, d - 1);
    }
  }

  /** A pass whose pair has positive weight and leads to a state with a
      positive outcome makes the running total positive. */
  lemma HitPositive(acc: Outcome, r: Outcome, w: real)
    requires Within(acc, OutcomeMass(acc)) && OutcomeMass(r) > 0.0 && w > 0.0
    ensures OutcomeMass(Accumulate(acc, r, w)) > 0.0
  {
    AccumulateMass(acc, r, w);
    TimesPositive(OutcomeMass(r), w);
  }

  /** Any other pass keeps a positive running total positive. */
  lemma StepPositive(u: Units, pa: map<int, real>, pd: map<int, real>, a: int, d: int)
    requires Ready(u, pa, pd) && Weights(u, pa, pd)
    requires 0 <= a <= Sum(u.att) && 0 <= d <= Sum(u.def) && (a != 0 || d != 0)
    requires OutcomeMass(Before(u, pa, pd, a, d)) > 0.0
    ensures OutcomeMass(Before(u, pa, pd, a, d + 1)) > 0.0
  {
    BeforeWithin(u, pa, pd, a, d);
    BeforeStep(u, pa, pd, a, d);
    ResolveWithin(Apply(a, d, u));
    WeightNonNeg(u, pa, pd, a, d);
    AccumulateGrows(Before(u, pa, pd, a, d), Resolve(Apply(a, d, u)), pa[a] * pd[d]);
  }

  /** Adding a non-negative outcome with a non-negative weight never lowers
      the running total. */
  lemma AccumulateGrows(acc: Outcome, r: Outcome, w: real)
    requires Within(r, 1.0) && w >= 0.0
    ensures OutcomeMass(Accumulate(acc, r, w)) >= OutcomeMass(acc)
  {
    assert r.win * w >= 0.0 && r.lose * w >= 0.0 && r.tie * w >= 0.0;
  }

  /** The running total grows by the outcome's total times the weight. */
  lemma AccumulateMass(acc: Outcome, r: Outcome, w: real)
    ensures OutcomeMass(Accumulate(acc, r, w)) == OutcomeMass(acc) + Times(OutcomeMass(r), w)
  {
    assert r.win * w + r.lose * w + r.tie * w == OutcomeMass(r) * w;
  }

  lemma TimesPositive(x: real, y: real)
    requires x > 0.0 && y > 0.0
    ensures Times(x, y) > 0.0
  {
  }

  lemma WeightPositive(x: real, y: real)
    requires x > 0.0 && y > 0.0
    ensures x * y > 0.0
  {
  }

  /** The percentages `main` prints and the tests compute never divide by
      zero: `normalize` of the three results succeeds and gives 100 in all. */
  lemma ResolvePercentages(u: Units)
    requires Valid(u)
    ensures var o := Resolve(u);
      Normalize([o.win, o.lose, o.tie]).Some? && RealSum(Normalize([o.win, o.lose, o.tie]).value) == 100.0
  {
    var o := Resolve(u);
    var arr := [o.win, o.lose, o.tie];
    ResolvePositive(u);
    assert arr[1..] == [o.lose, o.tie] && arr[1..][1..] == [o.tie] && arr[1..][1..][1..] == [];
    assert RealSum([o.tie]) == o.tie;
    assert RealSum([o.lose, o.tie]) == o.lose + o.tie;
    assert RealSum(arr) == OutcomeMass(o);
    NormalizeSumsTo100(arr);
  }
}
