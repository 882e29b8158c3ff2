/** Concrete battles: the terminal states and one infantry against one
    infantry, worked through the recursive definition, and the percentages the
    command line prints for them. The counts are parameters fixed by a
    precondition so that the verifier unfolds the recursive definitions only
    as far as each proof asks. */
module CombatExamples {
  import opened Forces
  import opened Casualties
  import opened Binomial
  import opened HitTable
  import opened Combat
  import opened Shares

  /** A side with a single infantry unit, and an empty side. */
  predicate OneInfantry(c: seq<int>) {
    c == [1, 0, 0, 0, 0]
  }

  predicate Nobody(c: seq<int>) {
    c == [0, 0, 0, 0, 0]
  }

  /** A side with units left against an empty side wins outright, the other
      way round it loses outright, and two empty sides tie. */
  lemma TerminalStates(one: seq<int>, none: seq<int>)
    requires OneInfantry(one) && Nobody(none)
    ensures Resolve(Units(one, none)) == Outcome(1.0, 0.0, 0.0)
    ensures Resolve(Units(none, one)) == Outcome(0.0, 1.0, 0.0)
    ensures Resolve(Units(none, none)) == Outcome(0.0, 0.0, 1.0)
  {
    assert one[0] != 0;
    assert !AnyAlive(none);
  }

  /** A single infantry unit is one unit. */
  lemma OneInfantrySum(one: seq<int>)
    requires OneInfantry(one)
    ensures Sum(one) == 1
  {
    assert Sum(one[4..]) == 0;
    assert Sum(one[3..]) == 0;
    assert Sum(one[2..]) == 0;
    assert Sum(one[1..]) == 0;
  }

  /** One hit takes the single unit; no hit leaves it. */
  lemma OneInfantryLoss(one: seq<int>, none: seq<int>)
    requires OneInfantry(one) && Nobody(none)
    ensures Reduce(0, one) == one && Reduce(1, one) == none
  {
    ReduceNoHits(one);
    ReduceNoHits(one[1..]);
  }

  /** The greedy split of no hit and of one hit over a single infantry unit. */
  lemma OneInfantrySplit(one: seq<int>, none: seq<int>)
    requires OneInfantry(one) && Nobody(none)
    ensures GreedySplit(0, one) == none && GreedySplit(1, one) == one
  {
    OneInfantryLoss(one, none);
    GreedyIsLoss(0, one);
    GreedyIsLoss(1, one);
  }

  /** The per-type chances of a side with a single infantry unit: that unit
      misses or hits with its die, the empty types score no hits for sure. */
  lemma OneInfantryChances(side: Side, one: seq<int>)
    requires OneInfantry(one)
    ensures Binomials(side, one)(0, 0) == 1.0 - HitChance(side, 0)
    ensures Binomials(side, one)(0, 1) == HitChance(side, 0)
    ensures Binomials(side, one)(1, 0) == 1.0 && Binomials(side, one)(2, 0) == 1.0
    ensures Binomials(side, one)(3, 0) == 1.0 && Binomials(side, one)(4, 0) == 1.0
  {
    var p := HitChance(side, 0);
    assert Pow(1.0 - p, 1) == 1.0 - p;
    assert Pow(p, 1) == p;
    assert Coefficient(1, 1) == 1.0;
    assert BinPDF(p, 1, 1) == 1.0 * Pow(p, 1) * Pow(1.0 - p, 0);
  }

  /** The table of a side with one unit of the first type, for any chances. */
  lemma SingleUnitTable(c: (int, int) -> real, one: seq<int>, none: seq<int>)
    requires OneInfantry(one) && Nobody(none)
    ensures 0 in TableOf(c, one) && 1 in TableOf(c, one)
    ensures TableOf(c, one)[0] == c(0, 0) * c(1, 0) * c(2, 0) * c(3, 0) * c(4, 0)
    ensures TableOf(c, one)[1] == c(0, 1) * c(1, 0) * c(2, 0) * c(3, 0) * c(4, 0)
  {
    OneInfantrySum(one);
    OneInfantrySplit(one, none);
  }

  /** The hit table of a single infantry unit: no hit with the chance of a
      miss, one hit with the chance of a hit. */
  lemma OneInfantryTable(side: Side, one: seq<int>, none: seq<int>)
    requires OneInfantry(one) && Nobody(none)
    ensures 0 in TableOf(Binomials(side, one), one)
    ensures 1 in TableOf(Binomials(side, one), one)
    ensures TableOf(Binomials(side, one), one)[0] == 1.0 - HitChance(side, 0)
    ensures TableOf(Binomials(side, one), one)[1] == HitChance(side, 0)
  {
    OneInfantryChances(side, one);
    SingleUnitTable(Binomials(side, one), one, none);
  }

  /** The fold of lines 178-190 for a battle of one unit against one, given
      the two tables and the outcomes of the three follow-up states. */
  lemma OneOnOneFold(u: Units, pa: map<int, real>, pd: map<int, real>)
    requires Ready(u, pa, pd) && Sum(u.att) == 1 && Sum(u.def) == 1
    requires pa[0] == 5.0 / 6.0 && pa[1] == 1.0 / 6.0 && pd[0] == 4.0 / 6.0 && pd[1] == 2.0 / 6.0
    requires Valid(Apply(0, 1, u)) && Resolve(Apply(0, 1, u)) == Outcome(0.0, 1.0, 0.0)
    requires Valid(Apply(1, 0, u)) && Resolve(Apply(1, 0, u)) == Outcome(1.0, 0.0, 0.0)
    requires Valid(Apply(1, 1, u)) && Resolve(Apply(1, 1, u)) == Outcome(0.0, 0.0, 1.0)
    ensures Before(u, pa, pd, 2, 0) == Outcome(1.0 / 9.0, 5.0 / 18.0, 1.0 / 18.0)
  {
    assert Before(u, pa, pd, 0, 1) == Outcome(0.0, 0.0, 0.0);
    BeforeStep(u, pa, pd, 0, 1);
    assert Before(u, pa, pd, 1, 0) == Outcome(0.0, 5.0 / 18.0, 0.0);
    BeforeStep(u, pa, pd, 1, 0);
    BeforeStep(u, pa, pd, 1, 1);
  }

  /** The three states a round of one unit against one can leave. */
  lemma OneOnOneAfter(one: seq<int>, none: seq<int>)
    requires OneInfantry(one) && Nobody(none)
    ensures Valid(Apply(0, 1, Units(one, one))) && Resolve(Apply(0, 1, Units(one, one))) == Outcome(0.0, 1.0, 0.0)
    ensures Valid(Apply(1, 0, Units(one, one))) && Resolve(Apply(1, 0, Units(one, one))) == Outcome(1.0, 0.0, 0.0)
    ensures Valid(Apply(1, 1, Units(one, one))) && Resolve(Apply(1, 1, Units(one, one))) == Outcome(0.0, 0.0, 1.0)
  {
    OneInfantryLoss(one, none);
    TerminalStates(one, none);
  }

  /** One infantry against one infantry: the attacker wins when only it hits
      (1/6 * 4/6), loses when only the defender hits (5/6 * 2/6), and both
      die when both hit (1/6 * 2/6); the pair where neither hits is skipped,
      so the three do not add up to one. */
  lemma OneOnOne(one: seq<int>, none: seq<int>)
    requires OneInfantry(one) && Nobody(none)
    ensures Resolve(Units(one, one)) == Outcome(1.0 / 9.0, 5.0 / 18.0, 1.0 / 18.0)
  {
    var u := Units(one, one);
    var pa := TableOf(Binomials(Att, one), one);
    var pd := TableOf(Binomials(Def, one), one);
    OneInfantryTable(Att, one, none);
    OneInfantryTable(Def, one, none);
    OneOnOneStart(one);
    OneOnOneAfter(one, none);
    OneOnOneFold(u, pa, pd);
  }

  /** Both sides are alive, so the battle is the fold over the hit tables. */
  lemma OneOnOneStart(one: seq<int>)
    requires OneInfantry(one)
    ensures Ready(Units(one, one), TableOf(Binomials(Att, one), one), TableOf(Binomials(Def, one), one))
    ensures Sum(one) == 1
    ensures Resolve(Units(one, one)) ==
      Before(Units(one, one), TableOf(Binomials(Att, one), one), TableOf(Binomials(Def, one), one), 2, 0)
  {
    OneInfantrySum(one);
    assert AnyAlive(one) by { assert one[0] != 0; }
  }

  /** The percentages the command line prints for one infantry against one:
      25% win, 62.5% lose, 12.5% tie. */
  lemma OneOnOnePercent()
    ensures Normalize([1.0 / 9.0, 5.0 / 18.0, 1.0 / 18.0]) == Some([25.0, 62.5, 12.5])
  {
    var arr := [1.0 / 9.0, 5.0 / 18.0, 1.0 / 18.0];
    assert RealSum(arr) == 4.0 / 9.0;
    assert Divided(arr, 4.0 / 900.0) == [25.0, 62.5, 12.5];
  }
}
