/** The per-side table from a hit total to a probability, built by five nested
    loops over the hits scored by each unit type (aacalc.py:162-176). The table
    entry for a total is ASSIGNED, not accumulated: each new tuple with the same
    total overwrites the previous one, so the entry that survives belongs to the
    last such tuple in loop order. That tuple is the greedy split of the total. */
module HitTable {
  import opened Forces
  import opened Binomial
  import opened Casualties

  /** `x` lists per-type hit counts for the types `j, j + 1, ...`, each between
      zero and that type's count. */
  predicate Fits(x: seq<int>, counts: seq<int>, j: nat) {
    j + |x| <= |counts| && forall i :: 0 <= i < |x| ==> 0 <= x[i] <= counts[j + i]
  }

  /** The factors of line 171 for one side: `chance(j, k)` is
      `binPDF(odds[type j][side] / 6, count of type j, k)`, the probability
      that the units of type `j` score `k` hits, one die per unit. The loops
      never ask for a hit count outside `0 .. count`; those get zero. */
  function Binomials(side: Side, counts: seq<int>): (int, int) -> real {
    (j, k) => if 0 <= j < UnitKinds && j < |counts| && 0 <= k <= counts[j]
              then BinPDF(HitChance(side, j), counts[j], k) else 0.0
  }

  /** The right-hand side of line 171 for a five-type hit tuple: the product
      of the per-type chances. */
  function TupleProb(chance: (int, int) -> real): seq<int> -> real {
    x => if |x| == UnitKinds
         then chance(0, x[0]) * chance(1, x[1]) * chance(2, x[2]) * chance(3, x[3]) * chance(4, x[4])
         else 0.0
  }

  /** The split of a hit total into per-type hits that takes as many as
      possible from the first type, then from the next, and so on. */
  function GreedySplit(hits: int, counts: seq<int>): (x: seq<int>)
    ensures |x| == |counts|
    decreases counts
  {
    if counts == [] then []
    else
      var taken := Min(hits, counts[0]);
      [taken] + GreedySplit(hits - taken, counts[1..])
  }

  lemma {:induction false} GreedyFits(hits: int, counts: seq<int>)
    requires hits >= 0 && NonNeg(counts)
    ensures Fits(GreedySplit(hits, counts), counts, 0)
    decreases counts
  {
    if counts != [] {
      var taken := Min(hits, counts[0]);
      var x := GreedySplit(hits, counts);
      GreedyFits(hits - taken, counts[1..]);
      assert x[1..] == GreedySplit(hits - taken, counts[1..]);
      forall i | 0 <= i < |x|
        ensures 0 <= x[i] <= counts[i]
      {
        if i > 0 {
          assert x[i] == x[1..][i - 1];
        }
      }
    }
  }

  /** Tuples for a suffix of the types, read at that suffix or at its offset. */
  lemma FitsShift(x: seq<int>, counts: seq<int>, j: nat)
    requires j <= |counts|
    ensures Fits(x, counts[j..], 0) <==> Fits(x, counts, j)
  {
    if Fits(x, counts[j..], 0) {
      forall i | 0 <= i < |x|
        ensures 0 <= x[i] <= counts[j + i]
      {
        assert counts[j..][i] == counts[j + i];
      }
    }
  }

  /** The value line 171 leaves at hit total `h`: the probability of its greedy split. */
  function HitProb(chance: (int, int) -> real, counts: seq<int>, h: int): real {
    TupleProb(chance)(GreedySplit(h, counts))
  }

  /** The whole table `hits_prob[side]` the loops of lines 165-176 leave:
      a key for every total from zero to the side's unit count. */
  function TableOf(chance: (int, int) -> real, counts: seq<int>): map<int, real> {
    map h | 0 <= h <= Sum(counts) :: HitProb(chance, counts, h)
  }

  /** `prefix` completed greedily with `s` more hits on the types after it. */
  function GreedyTuple(counts: seq<int>, prefix: seq<int>, s: int): seq<int>
    requires |prefix| <= |counts|
  {
    prefix + GreedySplit(s, counts[|prefix|..])
  }

  /** `prefix` completed with at most `cap` of `s` hits on the next type and
      the rest greedily on the types after it. */
  function CappedTuple(counts: seq<int>, prefix: seq<int>, cap: int, s: int): seq<int>
    requires |prefix| < |counts|
  {
    var taken := Min(s, cap);
    prefix + [taken] + GreedySplit(s - taken, counts[|prefix| + 1..])
  }

  /** One assignment of line 171: the entry for the tuple's total becomes its weight. */
  function Store(w: seq<int> -> real, table: map<int, real>, x: seq<int>): map<int, real> {
    table[Sum(x) := w(x)]
  }

  /** The table after the loops over the types after `prefix` have run in full,
      with the outer loop variables fixed at `prefix`. */
  function Fill(w: seq<int> -> real, counts: seq<int>, table: map<int, real>, prefix: seq<int>): map<int, real>
    requires |prefix| <= |counts|
    decreases |counts| - |prefix|, 1, 0
  {
    if |prefix| == |counts| then Store(w, table, prefix)
    else FillUpTo(w, counts, table, prefix, counts[|prefix|] + 1)
  }

  /** The table after the loop at position `|prefix|` has run for the values
      `0 .. n - 1`. */
  function FillUpTo(w: seq<int> -> real, counts: seq<int>, table: map<int, real>, prefix: seq<int>, n: int): map<int, real>
    requires |prefix| < |counts|
    decreases |counts| - |prefix|, 0, n
  {
    if n <= 0 then table
    else Fill(w, counts, FillUpTo(w, counts, table, prefix, n - 1), prefix + [n - 1])
  }

  /** `f` is `t` with every total in `lo..hi` added or overwritten and every
      other entry of `t` left alone. */
  ghost predicate Keeps(f: map<int, real>, t: map<int, real>, lo: int, hi: int) {
    (forall h :: h in f <==> h in t || lo <= h <= hi) &&
    (forall h :: h in t && !(lo <= h <= hi) ==> h in f && f[h] == t[h])
  }

  /** Every total in `lo..hi` is in `f` and holds the weight of `prefix`
      completed greedily with the hits above `lo`. */
  ghost predicate GreedyFrom(w: seq<int> -> real, counts: seq<int>, f: map<int, real>, prefix: seq<int>, lo: int, hi: int) {
    |prefix| <= |counts| &&
    forall h :: lo <= h <= hi ==> h in f && f[h] == w(GreedyTuple(counts, prefix, h - lo))
  }

  /** Every total in `from..to` is in `f` and holds the weight of `prefix`
      completed with at most `cap` hits on the next type, out of the hits
      above `base`. */
  ghost predicate CappedFrom(w: seq<int> -> real, counts: seq<int>, f: map<int, real>, prefix: seq<int>, cap: int,
                             base: int, from: int, to: int) {
    |prefix| < |counts| &&
    forall h :: from <= h <= to ==> h in f && f[h] == w(CappedTuple(counts, prefix, cap, h - base))
  }

  lemma NonNegSuffix(counts: seq<int>, j: nat)
    requires NonNeg(counts) && j <= |counts|
    ensures NonNeg(counts[j..])
  {
    forall i | 0 <= i < |counts[j..]|
      ensures counts[j..][i] >= 0
    {
      assert counts[j..][i] == counts[j + i];
    }
  }

  lemma SumSuffix(counts: seq<int>, j: nat)
    requires j < |counts|
    ensures Sum(counts[j..]) == counts[j] + Sum(counts[j + 1..])
  {
    assert counts[j..][1..] == counts[j + 1..];
  }

  /** Completing greedily is taking as much as possible from the next type first. */
  lemma GreedyIsCapped(counts: seq<int>, prefix: seq<int>, s: int)
    requires |prefix| < |counts|
    ensures GreedyTuple(counts, prefix, s) == CappedTuple(counts, prefix, counts[|prefix|], s)
  {
    var j := |prefix|;
    assert counts[j..][1..] == counts[j + 1..];
    var taken := Min(s, counts[j]);
    assert GreedySplit(s, counts[j..]) == [taken] + GreedySplit(s - taken, counts[j + 1..]);
    assert prefix + GreedySplit(s, counts[j..]) == prefix + [taken] + GreedySplit(s - taken, counts[j + 1..]);
  }

  /** A total that reaches the cap takes the cap and completes the rest greedily. */
  lemma CappedTop(counts: seq<int>, prefix: seq<int>, cap: int, s: int)
    requires |prefix| < |counts| && s >= cap
    ensures CappedTuple(counts, prefix, cap, s) == GreedyTuple(counts, prefix + [cap], s - cap)
  {
  }

  /** A total below the cap does not see the cap. */
  lemma CappedBelow(counts: seq<int>, prefix: seq<int>, cap: int, s: int)
    requires |prefix| < |counts| && s < cap
    ensures CappedTuple(counts, prefix, cap, s) == CappedTuple(counts, prefix, cap - 1, s)
  {
  }

  /** What the loops over the types after `prefix` leave in the table: every
      total reachable from `prefix` is present, holding the weight of `prefix`
      completed greedily, and nothing else changes. */
  lemma {:induction false} FillSpec(w: seq<int> -> real, counts: seq<int>, table: map<int, real>, prefix: seq<int>)
    requires |counts| == UnitKinds && NonNeg(counts) && |prefix| <= UnitKinds
    ensures Keeps(Fill(w, counts, table, prefix), table, Sum(prefix), Sum(prefix) + Sum(counts[|prefix|..]))
    ensures GreedyFrom(w, counts, Fill(w, counts, table, prefix), prefix, Sum(prefix), Sum(prefix) + Sum(counts[|prefix|..]))
    decreases UnitKinds - |prefix|, 1, 0, 0
  {
    var j, lo := |prefix|, Sum(prefix);
    if j == UnitKinds {
      assert counts[j..] == [];
      assert prefix + GreedySplit(0, counts[j..]) == prefix;
    } else {
      var n := counts[j] + 1;
      FillUpToSpec(w, counts, table, prefix, n);
      SumSuffix(counts, j);
      CappedIsGreedy(w, counts, Fill(w, counts, table, prefix), prefix, lo, lo + Sum(counts[j..]));
    }
  }

  lemma CappedIsGreedy(w: seq<int> -> real, counts: seq<int>, f: map<int, real>, prefix: seq<int>, lo: int, hi: int)
    requires |prefix| < |counts|
    requires CappedFrom(w, counts, f, prefix, counts[|prefix|], lo, lo, hi)
    ensures GreedyFrom(w, counts, f, prefix, lo, hi)
  {
    forall h | lo <= h <= hi
      ensures h in f && f[h] == w(GreedyTuple(counts, prefix, h - lo))
    {
      GreedyIsCapped(counts, prefix, h - lo);
    }
  }

  /** What the loop at position `|prefix|` leaves after the values `0 .. n - 1`:
      the totals reachable with at most `n - 1` hits on that type, each holding
      the weight of the tuple that takes as many of them as it can there. */
  lemma {:induction false} FillUpToSpec(w: seq<int> -> real, counts: seq<int>, table: map<int, real>, prefix: seq<int>, n: nat)
    requires |counts| == UnitKinds && NonNeg(counts)
    requires |prefix| < UnitKinds && 1 <= n <= counts[|prefix|] + 1
    ensures Keeps(FillUpTo(w, counts, table, prefix, n), table,
                  Sum(prefix), Sum(prefix) + (n - 1) + Sum(counts[|prefix| + 1..]))
    ensures CappedFrom(w, counts, FillUpTo(w, counts, table, prefix, n), prefix, n - 1,
                       Sum(prefix), Sum(prefix), Sum(prefix) + (n - 1) + Sum(counts[|prefix| + 1..]))
    decreases UnitKinds - |prefix|, 0, n, 1
  {
    if n == 1 {
      FirstRound(w, counts, table, prefix);
    } else {
      LaterRound(w, counts, table, prefix, n);
    }
  }

  /** The first round of the loop at position `|prefix|` (no hits on that type). */
  lemma {:induction false} FirstRound(w: seq<int> -> real, counts: seq<int>, table: map<int, real>, prefix: seq<int>)
    requires |counts| == UnitKinds && NonNeg(counts) && |prefix| < UnitKinds
    ensures Keeps(FillUpTo(w, counts, table, prefix, 1), table,
                  Sum(prefix), Sum(prefix) + (1 - 1) + Sum(counts[|prefix| + 1..]))
    ensures CappedFrom(w, counts, FillUpTo(w, counts, table, prefix, 1), prefix, 1 - 1,
                       Sum(prefix), Sum(prefix), Sum(prefix) + (1 - 1) + Sum(counts[|prefix| + 1..]))
    decreases UnitKinds - |prefix|, 0, 1, 0
  {
    var q := prefix + [0];
    var lo, hi := Sum(prefix), Sum(prefix) + Sum(counts[|prefix| + 1..]);
    assert Sum(q) == lo by {
      SumAppend(prefix, [0]);
    }
    assert |q| == |prefix| + 1;
    var f := Fill(w, counts, table, q);
    assert FillUpTo(w, counts, table, prefix, 1) == f;
    FillSpec(w, counts, table, q);
    TopValues(w, counts, prefix, 0, f, lo, hi);
  }

  /** A later round `n - 1` of the loop at position `|prefix|`: its inner loops
      overwrite the totals from `lo + n - 1` on, and the entries below that
      already agree with the larger cap. */
  lemma {:induction false} LaterRound(w: seq<int> -> real, counts: seq<int>, table: map<int, real>, prefix: seq<int>, n: nat)
    requires |counts| == UnitKinds && NonNeg(counts)
    requires |prefix| < UnitKinds && 2 <= n <= counts[|prefix|] + 1
    ensures Keeps(FillUpTo(w, counts, table, prefix, n), table,
                  Sum(prefix), Sum(prefix) + (n - 1) + Sum(counts[|prefix| + 1..]))
    ensures CappedFrom(w, counts, FillUpTo(w, counts, table, prefix, n), prefix, n - 1,
                       Sum(prefix), Sum(prefix), Sum(prefix) + (n - 1) + Sum(counts[|prefix| + 1..]))
    decreases UnitKinds - |prefix|, 0, n, 0
  {
    var j, lo := |prefix|, Sum(prefix);
    var rest := Sum(counts[j + 1..]);
    NonNegSuffix(counts, j + 1);
    SumNonNeg(counts[j + 1..]);
    var cap := n - 1;
    var m := lo + cap;
    var hi := m + rest;
    var g := FillUpTo(w, counts, table, prefix, cap);
    var q := prefix + [cap];
    assert Sum(q) == m by {
      SumAppend(prefix, [cap]);
      assert Sum([cap]) == cap;
    }
    assert Sum(q) + Sum(counts[|q|..]) == hi;
    var f := Fill(w, counts, g, q);
    assert FillUpTo(w, counts, table, prefix, n) == f;
    FillUpToSpec(w, counts, table, prefix, cap);
    FillSpec(w, counts, g, q);
    CombineRounds(w, counts, prefix, cap, table, g, f, lo, rest);
  }

  /** The table after rounds `0 .. cap - 1` and the overwrites of round `cap`
      together give the table after rounds `0 .. cap`. */
  lemma CombineRounds(w: seq<int> -> real, counts: seq<int>, prefix: seq<int>, cap: int,
                      table: map<int, real>, g: map<int, real>, f: map<int, real>, lo: int, rest: int)
    requires |prefix| < |counts| && 1 <= cap && rest >= 0
    requires Keeps(g, table, lo, lo + (cap - 1) + rest)
    requires CappedFrom(w, counts, g, prefix, cap - 1, lo, lo, lo + (cap - 1) + rest)
    requires Keeps(f, g, lo + cap, lo + cap + rest)
    requires GreedyFrom(w, counts, f, prefix + [cap], lo + cap, lo + cap + rest)
    ensures Keeps(f, table, lo, lo + cap + rest)
    ensures CappedFrom(w, counts, f, prefix, cap, lo, lo, lo + cap + rest)
  {
    var m, gh, hi := lo + cap, lo + (cap - 1) + rest, lo + cap + rest;
    TopValues(w, counts, prefix, cap, f, lo, hi);
    LowValues(w, counts, prefix, cap, f, g, lo, gh, hi);
    JoinValues(w, counts, f, prefix, cap, lo, m, hi);
    KeepsCompose(f, g, table, lo, m, gh, hi);
  }

  /** The totals the last round wrote hold the capped completion. */
  lemma TopValues(w: seq<int> -> real, counts: seq<int>, prefix: seq<int>, cap: int, f: map<int, real>, lo: int, hi: int)
    requires |prefix| < |counts|
    requires GreedyFrom(w, counts, f, prefix + [cap], lo + cap, hi)
    ensures CappedFrom(w, counts, f, prefix, cap, lo, lo + cap, hi)
  {
    forall h | lo + cap <= h <= hi
      ensures h in f && f[h] == w(CappedTuple(counts, prefix, cap, h - lo))
    {
      CappedTop(counts, prefix, cap, h - lo);
    }
  }

  /** The totals below the last round's range keep the earlier rounds' values,
      which the larger cap does not change. */
  lemma LowValues(w: seq<int> -> real, counts: seq<int>, prefix: seq<int>, cap: int, f: map<int, real>, g: map<int, real>,
                  lo: int, gh: int, hi: int)
    requires |prefix| < |counts| && lo + cap - 1 <= gh
    requires CappedFrom(w, counts, g, prefix, cap - 1, lo, lo, gh)
    requires Keeps(f, g, lo + cap, hi)
    ensures CappedFrom(w, counts, f, prefix, cap, lo, lo, lo + cap - 1)
  {
    forall h | lo <= h <= lo + cap - 1
      ensures h in f && f[h] == w(CappedTuple(counts, prefix, cap, h - lo))
    {
      CappedBelow(counts, prefix, cap, h - lo);
    }
  }

  lemma JoinValues(w: seq<int> -> real, counts: seq<int>, f: map<int, real>, prefix: seq<int>, cap: int, lo: int, m: int, hi: int)
    requires CappedFrom(w, counts, f, prefix, cap, lo, lo, m - 1)
    requires CappedFrom(w, counts, f, prefix, cap, lo, m, hi)
    ensures CappedFrom(w, counts, f, prefix, cap, lo, lo, hi)
  {
  }

  /** Overwriting `lo..m-1` and then `m..hi` overwrites `lo..hi`. */
  lemma KeepsCompose(f: map<int, real>, g: map<int, real>, t: map<int, real>, lo: int, m: int, gh: int, hi: int)
    requires lo <= m <= hi && m - 1 <= gh <= hi
    requires Keeps(g, t, lo, gh) && Keeps(f, g, m, hi)
    ensures Keeps(f, t, lo, hi)
  {
  }

  lemma SumFive(x: seq<int>)
    requires |x| == 5
    ensures Sum(x) == x[0] + x[1] + x[2] + x[3] + x[4]
  {
    SumStep(x, 0);
    SumStep(x, 1);
    SumStep(x, 2);
    SumStep(x, 3);
    SumStep(x, 4);
    assert x[5..] == [];
  }

  lemma SumStep(x: seq<int>, j: nat)
    requires j < |x|
    ensures Sum(x[j..]) == x[j] + Sum(x[j + 1..])
  {
    assert x[j..][1..] == x[j + 1..];
  }

  /** One assignment of line 171, written as the source writes it: the entry
      for `i0 + ... + i4` becomes the product of the five per-type chances. */
  lemma StoreStep(chance: (int, int) -> real, table: map<int, real>, x: seq<int>,
                  i0: int, i1: int, i2: int, i3: int, i4: int)
    requires x == [] + [i0] + [i1] + [i2] + [i3] + [i4]
    ensures Store(TupleProb(chance), table, x)
         == table[i0 + i1 + i2 + i3 + i4 := chance(0, i0) * chance(1, i1) * chance(2, i2) * chance(3, i3) * chance(4, i4)]
  {
    assert x == [i0, i1, i2, i3, i4];
    assert |x| == UnitKinds && x[0] == i0 && x[1] == i1 && x[2] == i2 && x[3] == i3 && x[4] == i4;
    SumFive(x);
    assert Sum(x) == i0 + i1 + i2 + i3 + i4;
    assert TupleProb(chance)(x) == chance(0, i0) * chance(1, i1) * chance(2, i2) * chance(3, i3) * chance(4, i4);
  }

  /** The five nested loops of lines 165-176 for one side, whose units of
      type `j` score `k` hits with probability `chance(j, k)`. The table holds
      an entry for every total from zero to the side's unit count and no
      other, and the entry for a total is the probability of its greedy split. */
  method Tabulate(chance: (int, int) -> real, counts: seq<int>) returns (table: map<int, real>)
    requires |counts| == UnitKinds && NonNeg(counts)
    ensures forall h :: h in table <==> 0 <= h <= Sum(counts)
    ensures forall h :: 0 <= h <= Sum(counts) ==> table[h] == HitProb(chance, counts, h)
  {
    ghost var w := TupleProb(chance);
    ghost var p0: seq<int> := [];
    table := map[];
    for i0 := 0 to counts[0] + 1
      invariant table == FillUpTo(w, counts, map[], p0, i0)
    {
      ghost var t1, p1 := table, p0 + [i0];
      for i1 := 0 to counts[1] + 1
        invariant table == FillUpTo(w, counts, t1, p1, i1)
      {
        ghost var t2, p2 := table, p1 + [i1];
        for i2 := 0 to counts[2] + 1
          invariant table == FillUpTo(w, counts, t2, p2, i2)
        {
          ghost var t3, p3 := table, p2 + [i2];
          for i3 := 0 to counts[3] + 1
            invariant table == FillUpTo(w, counts, t3, p3, i3)
          {
            ghost var t4, p4 := table, p3 + [i3];
            for i4 := 0 to counts[4] + 1
              invariant table == FillUpTo(w, counts, t4, p4, i4)
            {
              StoreStep(chance, table, p4 + [i4], i0, i1, i2, i3, i4);
              table := table[i0 + i1 + i2 + i3 + i4 := chance(0, i0) * chance(1, i1) * chance(2, i2) * chance(3, i3) * chance(4, i4)];
            }
          }
        }
      }
    }
    TableSpec(w, counts, table);
  }

  /** A table with those keys and values is the table `TableOf` describes. */
  lemma TableIsTableOf(chance: (int, int) -> real, counts: seq<int>, table: map<int, real>)
    requires forall h :: h in table <==> 0 <= h <= Sum(counts)
    requires forall h :: 0 <= h <= Sum(counts) ==> table[h] == HitProb(chance, counts, h)
    ensures table == TableOf(chance, counts)
  {
  }

  /** The table the loops build, read at each total. */
  lemma TableSpec(w: seq<int> -> real, counts: seq<int>, table: map<int, real>)
    requires |counts| == UnitKinds && NonNeg(counts)
    requires table == FillUpTo(w, counts, map[], [], counts[0] + 1)
    ensures forall h :: h in table <==> 0 <= h <= Sum(counts)
    ensures forall h :: 0 <= h <= Sum(counts) ==> table[h] == w(GreedySplit(h, counts))
  {
    var empty: seq<int> := [];
    assert table == Fill(w, counts, map[], empty);
    FillSpec(w, counts, map[], empty);
    assert Sum(empty) == 0 && counts[|empty|..] == counts;
    TableKeys(table, Sum(counts));
    TableValues(w, counts, table);
  }

  lemma TableKeys(table: map<int, real>, hi: int)
    requires Keeps(table, map[], 0, hi)
    ensures forall h :: h in table <==> 0 <= h <= hi
  {
  }

  lemma TableValues(w: seq<int> -> real, counts: seq<int>, table: map<int, real>)
    requires GreedyFrom(w, counts, table, [], 0, Sum(counts))
    ensures forall h :: 0 <= h <= Sum(counts) ==> h in table && table[h] == w(GreedySplit(h, counts))
  {
    forall h | 0 <= h <= Sum(counts)
      ensures h in table && table[h] == w(GreedySplit(h, counts))
    {
      assert counts[0..] == counts;
      assert GreedyTuple(counts, [], h - 0) == GreedySplit(h, counts);
    }
  }

  /** The greedy split uses up the whole total when the side has that many
      units, and every unit otherwise. */
  lemma {:induction false} GreedySum(hits: int, counts: seq<int>)
    requires hits >= 0 && NonNeg(counts)
    ensures Sum(GreedySplit(hits, counts)) == Min(hits, Sum(counts))
    decreases counts
  {
    if counts != [] {
      var taken := Min(hits, counts[0]);
      var x := GreedySplit(hits, counts);
      NonNegSuffix(counts, 1);
      SumNonNeg(counts[1..]);
      GreedySum(hits - taken, counts[1..]);
      assert x[1..] == GreedySplit(hits - taken, counts[1..]);
    }
  }

  /** The hits a side scores at total `hits` are, type by type, exactly the
      units that the same number of hits would remove from it (`casualties`). */
  lemma {:induction false} GreedyIsLoss(hits: int, counts: seq<int>)
    ensures forall i :: 0 <= i < |counts| ==> GreedySplit(hits, counts)[i] == counts[i] - Reduce(hits, counts)[i]
    decreases counts
  {
    if counts != [] {
      var taken := Min(hits, counts[0]);
      var x, r := GreedySplit(hits, counts), Reduce(hits, counts);
      GreedyIsLoss(hits - taken, counts[1..]);
      assert x[1..] == GreedySplit(hits - taken, counts[1..]);
      assert r[1..] == Reduce(hits - taken, counts[1..]);
      forall i | 0 <= i < |counts|
        ensures x[i] == counts[i] - r[i]
      {
        if i > 0 {
          assert x[i] == x[1..][i - 1] && r[i] == r[1..][i - 1];
        }
      }
    }
  }

  /** `a` comes no later than `b` in the order the nested loops visit tuples:
      the first position where they differ is smaller in `a`. */
  predicate LexAtMost(a: seq<int>, b: seq<int>)
    decreases a
  {
    a == [] || b == [] || a[0] < b[0] || (a[0] == b[0] && LexAtMost(a[1..], b[1..]))
  }

  lemma FitsNonNeg(x: seq<int>, counts: seq<int>)
    requires Fits(x, counts, 0)
    ensures NonNeg(x)
  {
  }

  /** Among the tuples within the side's counts that add up to `hits`, the
      greedy split is the last one the nested loops visit, which is why the
      value it writes is the one that survives. */
  lemma {:induction false} GreedyIsLast(hits: int, counts: seq<int>, y: seq<int>)
    requires |y| == |counts| && Fits(y, counts, 0) && Sum(y) == hits
    ensures LexAtMost(y, GreedySplit(hits, counts))
    decreases counts
  {
    if counts != [] {
      var x := GreedySplit(hits, counts);
      var taken := Min(hits, counts[0]);
      FitsNonNeg(y[1..], counts[1..]) by {
        FitsShift(y[1..], counts, 1);
        assert Fits(y[1..], counts, 1) by {
          forall i | 0 <= i < |y[1..]|
            ensures 0 <= y[1..][i] <= counts[1 + i]
          {
            assert y[1..][i] == y[i + 1];
          }
        }
      }
      SumNonNeg(y[1..]);
      assert y[0] <= taken;
      if y[0] == taken {
        GreedyIsLast(hits - taken, counts[1..], y[1..]);
        assert x[1..] == GreedySplit(hits - taken, counts[1..]);
      }
    }
  }

  /** A total's entry is a probability product of non-negative chances. */
  lemma HitProbNonNeg(chance: (int, int) -> real, counts: seq<int>, h: int)
    requires |counts| == UnitKinds && NonNeg(counts) && h >= 0
    requires forall j, k :: 0 <= j < UnitKinds && 0 <= k <= counts[j] ==> chance(j, k) >= 0.0
    ensures HitProb(chance, counts, h) >= 0.0
  {
    var x := GreedySplit(h, counts);
    GreedyFits(h, counts);
    assert 0 <= x[0] <= counts[0] && 0 <= x[1] <= counts[1] && 0 <= x[2] <= counts[2];
    assert 0 <= x[3] <= counts[3] && 0 <= x[4] <= counts[4];
    ProductNonNeg(chance(0, x[0]), chance(1, x[1]), chance(2, x[2]), chance(3, x[3]), chance(4, x[4]));
  }

  /** With every chance positive, so is every entry of the table: no hit
      total up to the side's unit count is impossible. */
  lemma HitProbPositive(chance: (int, int) -> real, counts: seq<int>, h: int)
    requires |counts| == UnitKinds && NonNeg(counts) && h >= 0
    requires forall j, k :: 0 <= j < UnitKinds && 0 <= k <= counts[j] ==> chance(j, k) > 0.0
    ensures HitProb(chance, counts, h) > 0.0
  {
    var x := GreedySplit(h, counts);
    GreedyFits(h, counts);
    assert 0 <= x[0] <= counts[0] && 0 <= x[1] <= counts[1] && 0 <= x[2] <= counts[2];
    assert 0 <= x[3] <= counts[3] && 0 <= x[4] <= counts[4];
    ProductPositive(chance(0, x[0]), chance(1, x[1]), chance(2, x[2]), chance(3, x[3]), chance(4, x[4]));
  }

  lemma ProductPositive(a: real, b: real, c: real, d: real, e: real)
    requires a > 0.0 && b > 0.0 && c > 0.0 && d > 0.0 && e > 0.0
    ensures a * b * c * d * e > 0.0
  {
    assert a * b > 0.0;
    assert a * b * c > 0.0;
    assert a * b * c * d > 0.0;
  }

  lemma ProductNonNeg(a: real, b: real, c: real, d: real, e: real)
    requires a >= 0.0 && b >= 0.0 && c >= 0.0 && d >= 0.0 && e >= 0.0
    ensures a * b * c * d * e >= 0.0
  {
    assert a * b >= 0.0;
    assert a * b * c >= 0.0;
    assert a * b * c * d >= 0.0;
  }

  /** Every binomial factor of a side is a probability: at least zero. */
  lemma BinomialsNonNeg(side: Side, counts: seq<int>)
    ensures forall j, k :: Binomials(side, counts)(j, k) >= 0.0
  {
    forall j, k
      ensures Binomials(side, counts)(j, k) >= 0.0
    {
      if 0 <= j < UnitKinds && j < |counts| && 0 <= k <= counts[j] {
        BinPDFNonNeg(HitChance(side, j), counts[j], k);
      }
    }
  }

  /** Every hit count a unit type can score has a positive binomial factor,
      since every hit chance lies strictly between zero and one. */
  lemma BinomialsPositive(side: Side, counts: seq<int>)
    requires |counts| == UnitKinds
    ensures forall j, k :: 0 <= j < UnitKinds && 0 <= k <= counts[j] ==> Binomials(side, counts)(j, k) > 0.0
  {
    forall j, k | 0 <= j < UnitKinds && 0 <= k <= counts[j]
      ensures Binomials(side, counts)(j, k) > 0.0
    {
      BinPDFPositive(HitChance(side, j), counts[j], k);
    }
  }
}
