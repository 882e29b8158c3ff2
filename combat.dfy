/** `doRound` (aacalc.py:131-190): the outcome of a battle from a state, as
    the recursive result the source computes, and the methods that compute it
    with the source's loops. */
module Combat {
  import opened Forces
  import opened Casualties
  import opened HitTable

  /** `(prob_win, prob_lose, prob_tie)`. */
  datatype Outcome = Outcome(win: real, lose: real, tie: real)

  /** Lines 186-188: the outcome of a follow-up state, weighted and added on. */
  function Accumulate(acc: Outcome, r: Outcome, odds: real): Outcome {
    Outcome(acc.win + r.win * odds, acc.lose + r.lose * odds, acc.tie + r.tie * odds)
  }

  /** Both sides still have units, and `pa` and `pd` hold an entry for every
      hit total of the attacker and of the defender. */
  ghost predicate Ready(u: Units, pa: map<int, real>, pd: map<int, real>) {
    Valid(u) && Sum(u.att) > 0 && Sum(u.def) > 0 &&
    (forall h :: 0 <= h <= Sum(u.att) ==> h in pa) &&
    (forall h :: 0 <= h <= Sum(u.def) ==> h in pd)
  }

  /** The result of `doRound` on a state: the three terminal cases (lines
      146-160), and otherwise the sum over all hit pairs of lines 178-190,
      weighted by the two sides' hit tables. */
  function Resolve(u: Units): Outcome
    requires Valid(u)
    decreases Total(u), 1
  {
    if !AnyAlive(u.att) && !AnyAlive(u.def) then Outcome(0.0, 0.0, 1.0)
    else if !AnyAlive(u.att) then Outcome(0.0, 1.0, 0.0)
    else if !AnyAlive(u.def) then Outcome(1.0, 0.0, 0.0)
    else
      AliveIffPositive(u.att);
      AliveIffPositive(u.def);
      Before(u, TableOf(Binomials(Att, u.att), u.att), TableOf(Binomials(Def, u.def), u.def), Sum(u.att) + 1, 0)
  }

  /** The running totals of lines 178-188 when the loops reach the pair
      `(a, d)`: every earlier pair in loop order has been added. */
  function Before(u: Units, pa: map<int, real>, pd: map<int, real>, a: int, d: int): Outcome
    requires Ready(u, pa, pd)
    requires 0 <= a <= Sum(u.att) + 1 && 0 <= d <= Sum(u.def) + 1 && (a <= Sum(u.att) || d == 0)
    decreases Total(u), 0, a, d
  {
    if d > 0 then Visit(Before(u, pa, pd, a, d - 1), u, pa, pd, a, d - 1)
    else if a > 0 then Before(u, pa, pd, a - 1, Sum(u.def) + 1)
    else Outcome(0.0, 0.0, 0.0)
  }

  /** One pass of the inner loop: the pair `(0, 0)` is skipped (line 181),
      every other pair recurses on the state after casualties (line 183). */
  function Visit(acc: Outcome, u: Units, pa: map<int, real>, pd: map<int, real>, a: int, d: int): Outcome
    requires Ready(u, pa, pd)
    requires 0 <= a <= Sum(u.att) && 0 <= d <= Sum(u.def)
    decreases Total(u), 0, a, d
  {
    if a == 0 && d == 0 then acc
    else
      TotalDecreases(a, d, u);
      Accumulate(acc, Resolve(Apply(a, d, u)), pa[a] * pd[d])
  }

  /** One pass of the inner loop adds the pair's weighted outcome. */
  lemma BeforeStep(u: Units, pa: map<int, real>, pd: map<int, real>, a: int, d: int)
    requires Ready(u, pa, pd)
    requires 0 <= a <= Sum(u.att) && 0 <= d <= Sum(u.def) && (a != 0 || d != 0)
    ensures Valid(Apply(a, d, u))
    ensures Before(u, pa, pd, a, d + 1) == Accumulate(Before(u, pa, pd, a, d), Resolve(Apply(a, d, u)), pa[a] * pd[d])
  {
    TotalDecreases(a, d, u);
    assert Before(u, pa, pd, a, d + 1) == Visit(Before(u, pa, pd, a, d), u, pa, pd, a, d);
  }

  /** The integers `short_units` makes of the state after casualties are a
      valid input for the recursive call, and describe a smaller battle. */
  lemma NextState(u: Units, a: int, d: int)
    requires Valid(u) && Sum(u.att) > 0 && Sum(u.def) > 0
    requires 0 <= a && 0 <= d && (a != 0 || d != 0)
    ensures Valid(Apply(a, d, u))
    ensures var next := ShortUnits(Apply(a, d, u));
      |next| == 2 * UnitKinds && Split(next) == Apply(a, d, u) &&
      (forall i :: 0 <= i < |next| && i < 2 * UnitKinds ==> next[i] >= 0) &&
      0 <= Sum(next[..2 * UnitKinds]) < Total(u)
  {
    var after := Apply(a, d, u);
    TotalDecreases(a, d, u);
    RoundTripUnits(after);
    SumShortUnits(after);
    var next := ShortUnits(after);
    assert next[..2 * UnitKinds] == next;
    forall i | 0 <= i < |next| && i < 2 * UnitKinds
      ensures next[i] >= 0
    {
      if i >= UnitKinds {
        assert next[i] == after.def[i - UnitKinds];
      }
    }
  }

  /** `doRound(in_units)`. Fewer than ten integers make `long_units` fail,
      which is `None`; otherwise the result is the outcome of the state the
      first ten integers describe. */
  method DoRound(inUnits: seq<int>) returns (r: Option<Outcome>)
    requires forall i :: 0 <= i < |inUnits| && i < 2 * UnitKinds ==> inUnits[i] >= 0
    ensures r.None? <==> |inUnits| < 2 * UnitKinds
    ensures r.Some? ==> r.value == Resolve(Split(inUnits))
    decreases if |inUnits| < 2 * UnitKinds then 0 else Sum(inUnits[..2 * UnitKinds]), 1
  {
    var units := LongUnits(inUnits);
    if units.None? {
      return None;
    }
    var u := units.value;
    assert u.att == inUnits[..UnitKinds] && u.def == inUnits[UnitKinds..2 * UnitKinds];
    var attackingUnitsAlive := AnyAlive(u.att);
    var defendingUnitsAlive := AnyAlive(u.def);
    if !attackingUnitsAlive && !defendingUnitsAlive {
      return Some(Outcome(0.0, 0.0, 1.0));
    } else if !attackingUnitsAlive {
      return Some(Outcome(0.0, 1.0, 0.0));
    } else if !defendingUnitsAlive {
      return Some(Outcome(1.0, 0.0, 0.0));
    }
    AliveIffPositive(u.att);
    AliveIffPositive(u.def);
    SumSplit(inUnits);
    var attProb := Tabulate(Binomials(Att, u.att), u.att);
    var defProb := Tabulate(Binomials(Def, u.def), u.def);
    TableIsTableOf(Binomials(Att, u.att), u.att, attProb);
    TableIsTableOf(Binomials(Def, u.def), u.def, defProb);
    var probWin, probLose, probTie := Fight(u, attProb, defProb);
    return Some(Outcome(probWin, probLose, probTie));
  }

  /** Lines 178-190: every pair of hit totals but `(0, 0)`, the state after
      the casualties it inflicts resolved by a recursive `doRound`, weighted
      by the pair's probability from the two tables. */
  method Fight(u: Units, attProb: map<int, real>, defProb: map<int, real>)
      returns (probWin: real, probLose: real, probTie: real)
    requires Ready(u, attProb, defProb)
    ensures Outcome(probWin, probLose, probTie) == Before(u, attProb, defProb, Sum(u.att) + 1, 0)
    decreases Total(u), 0
  {
    var maxAtt, maxDef := Sum(u.att), Sum(u.def);
    probWin, probLose, probTie := 0.0, 0.0, 0.0;
    for ahp := 0 to maxAtt + 1
      invariant Outcome(probWin, probLose, probTie) == Before(u, attProb, defProb, ahp, 0)
    {
      for dhp := 0 to maxDef + 1
        invariant Outcome(probWin, probLose, probTie) == Before(u, attProb, defProb, ahp, dhp)
      {
        if ahp == 0 && dhp == 0 {
          continue;
        }
        var after := Casualties.Casualties(ahp, dhp, u);
        NextState(u, ahp, dhp);
        var returned := DoRound(ShortUnits(after));
        var myodds := attProb[ahp] * defProb[dhp];
        ghost var next := Accumulate(Outcome(probWin, probLose, probTie), returned.value, myodds);
        probWin := probWin + returned.value.win * myodds;
        probLose := probLose + returned.value.lose * myodds;
        probTie := probTie + returned.value.tie * myodds;
        assert Outcome(probWin, probLose, probTie) == next;
        BeforeStep(u, attProb, defProb, ahp, dhp);
      }
    }
  }
}
