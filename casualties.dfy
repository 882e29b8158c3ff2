/** Casualty assignment: hits taken by one side remove its units greedily, the
    first unit type in the tuple order first; hits beyond the side's size are lost. */
module Casualties {
  import opened Forces

  function Min(a: int, b: int): int {
    if a <= b then a else b
  }

  /** The counts a side keeps after `hits` are taken, unit type by unit type:
      each type loses `min(remaining hits, count)`, and that many hits are used up. */
  function Reduce(hits: int, counts: seq<int>): (r: seq<int>)
    ensures |r| == |counts|
    decreases counts
  {
    if counts == [] then []
    else
      var removed := Min(hits, counts[0]);
      [counts[0] - removed] + Reduce(hits - removed, counts[1..])
  }

  /** A side never gains units, and no count drops below zero. */
  lemma {:induction false} ReduceBounds(hits: int, counts: seq<int>)
    requires hits >= 0 && NonNeg(counts)
    ensures forall i :: 0 <= i < |counts| ==> 0 <= Reduce(hits, counts)[i] <= counts[i]
  {
    if counts != [] {
      var removed := Min(hits, counts[0]);
      ReduceBounds(hits - removed, counts[1..]);
      assert Reduce(hits, counts)[1..] == Reduce(hits - removed, counts[1..]);
    }
  }

  /** The state after casualties. The first argument is the number of hits the
      defender takes, the second the number the attacker takes. */
  function Apply(defHits: int, attHits: int, u: Units): Units {
    Units(Reduce(attHits, u.att), Reduce(defHits, u.def))
  }

  /** The hits that remain once the unit types of `counts` have, in order,
      absorbed what they can. */
  function Leftover(hits: int, counts: seq<int>): int
    decreases counts
  {
    if counts == [] then hits else Leftover(hits - Min(hits, counts[0]), counts[1..])
  }

  /** Hits beyond the side's unit count are what is left over; a side with
      enough units uses up every hit. */
  lemma {:induction false} LeftoverUnused(hits: int, counts: seq<int>)
    requires hits >= 0 && NonNeg(counts)
    ensures Leftover(hits, counts) == hits - Min(hits, Sum(counts))
    decreases counts
  {
    if counts != [] {
      assert NonNeg(counts[1..]);
      SumNonNeg(counts[1..]);
      LeftoverUnused(hits - Min(hits, counts[0]), counts[1..]);
    }
  }

  /** The inner loop of `casualties`: unit type by unit type, the side
      loses as many units as it has hits left, and those hits are used up.
      The dictionary changes at that side's entry only. */
  method TakeHits(hits: map<Side, int>, side: Side, orig: seq<int>)
      returns (kept: seq<int>, left: map<Side, int>)
    requires side in hits && |orig| == UnitKinds
    ensures kept == Reduce(hits[side], orig)
    ensures side in left && left == hits[side := left[side]]
    ensures left[side] == Leftover(hits[side], orig)
  {
    left := hits;
    kept := [];
    for unit := 0 to UnitKinds
      invariant side in left && left == hits[side := left[side]]
      invariant kept + Reduce(left[side], orig[unit..]) == Reduce(hits[side], orig)
      invariant Leftover(left[side], orig[unit..]) == Leftover(hits[side], orig)
    {
      assert orig[unit..][1..] == orig[unit + 1..];
      var reducedUnits := Min(left[side], orig[unit]);
      ReduceAt(left[side], orig, unit, kept, hits[side]);
      kept := kept + [orig[unit] - reducedUnits];
      left := left[side := left[side] - reducedUnits];
      assert kept + Reduce(left[side], orig[unit + 1..]) == Reduce(hits[side], orig);
    }
    assert orig[UnitKinds..] == [];
    assert kept + Reduce(left[side], orig[UnitKinds..]) == kept;
  }

  /** One unit type of the greedy removal: if `kept` followed by the removal
      from position `i` on is the whole removal, so is `kept` extended by
      position `i` followed by the removal from position `i + 1` on. */
  lemma ReduceAt(hits: int, counts: seq<int>, i: int, kept: seq<int>, start: int)
    requires 0 <= i < |counts|
    requires kept + Reduce(hits, counts[i..]) == Reduce(start, counts)
    ensures (kept + [counts[i] - Min(hits, counts[i])]) + Reduce(hits - Min(hits, counts[i]), counts[i + 1..])
      == Reduce(start, counts)
  {
    assert counts[i..][1..] == counts[i + 1..];
    var rest := Reduce(hits - Min(hits, counts[i]), counts[i + 1..]);
    assert Reduce(hits, counts[i..]) == [counts[i] - Min(hits, counts[i])] + rest;
    assert (kept + [counts[i] - Min(hits, counts[i])]) + rest == kept + ([counts[i] - Min(hits, counts[i])] + rest);
  }

  /** `casualties`: works on a copy of the state, side by side, using up
      that side's entry of the hit dictionary. */
  method Casualties(defHits: int, attHits: int, myunits: Units) returns (r: Units)
    requires Shaped(myunits)
    ensures r == Apply(defHits, attHits, myunits)
  {
    var hits := map[Def := defHits, Att := attHits];
    var casualtyUnits: map<Side, seq<int>> := map[Att := [], Def := []];
    var sides := [Att, Def];
    for s := 0 to 2
      invariant Att in hits && Def in hits && Att in casualtyUnits && Def in casualtyUnits
      invariant s == 0 ==> hits[Att] == attHits
      invariant s <= 1 ==> hits[Def] == defHits
      invariant s >= 1 ==> casualtyUnits[Att] == Reduce(attHits, myunits.att)
      invariant s >= 2 ==> casualtyUnits[Def] == Reduce(defHits, myunits.def)
    {
      var side := sides[s];
      var kept;
      kept, hits := TakeHits(hits, side, myunits.Of(side));
      casualtyUnits := casualtyUnits[side := kept];
    }
    r := Units(casualtyUnits[Att], casualtyUnits[Def]);
  }

  /** What a side loses is the whole hit count, capped at the side's size:
      excess hits are discarded. */
  lemma {:induction false} ReduceRemoved(hits: int, counts: seq<int>)
    requires hits >= 0 && NonNeg(counts)
    ensures Sum(counts) - Sum(Reduce(hits, counts)) == Min(hits, Sum(counts))
  {
    if counts != [] {
      var removed := Min(hits, counts[0]);
      ReduceRemoved(hits - removed, counts[1..]);
      SumNonNeg(counts[1..]);
    }
  }

  /** Removal order: a unit type loses units only when every earlier type is gone. */
  lemma {:induction false} ReduceOrder(hits: int, counts: seq<int>)
    requires hits >= 0 && NonNeg(counts)
    ensures forall i, j :: 0 <= i < j < |counts| && Reduce(hits, counts)[j] < counts[j] ==> Reduce(hits, counts)[i] == 0
  {
    if counts != [] {
      var removed := Min(hits, counts[0]);
      var r := Reduce(hits, counts);
      ReduceOrder(hits - removed, counts[1..]);
      ReduceKeeps(hits - removed, counts[1..]);
      assert r[1..] == Reduce(hits - removed, counts[1..]);
      forall i, j | 0 <= i < j < |counts| && r[j] < counts[j]
        ensures r[i] == 0
      {
        assert r[1..][j - 1] < counts[1..][j - 1];
        if i > 0 {
          assert r[1..][i - 1] == r[i];
        }
      }
    }
  }

  /** With no hits left, a side keeps every unit. */
  lemma {:induction false} ReduceKeeps(hits: int, counts: seq<int>)
    requires NonNeg(counts)
    ensures hits <= 0 ==> forall j :: 0 <= j < |counts| ==> Reduce(hits, counts)[j] >= counts[j]
    decreases counts
  {
    if counts != [] {
      ReduceKeeps(hits - Min(hits, counts[0]), counts[1..]);
    }
  }

  /** Zero hits leave a side unchanged. */
  lemma {:induction false} ReduceNoHits(counts: seq<int>)
    requires NonNeg(counts)
    ensures Reduce(0, counts) == counts
  {
    if counts != [] {
      ReduceNoHits(counts[1..]);
    }
  }

  /** The removal policy determines the result: any counts that lie between zero
      and the old counts, remove `min(hits, total)` units in all, and take from a
      type only once all earlier types are gone, are the greedy result. */
  lemma {:induction false} ReduceUnique(hits: int, counts: seq<int>, s: seq<int>)
    requires hits >= 0 && NonNeg(counts)
    requires |s| == |counts| && forall i :: 0 <= i < |s| ==> 0 <= s[i] <= counts[i]
    requires forall i, j :: 0 <= i < j < |s| && s[j] < counts[j] ==> s[i] == 0
    requires Sum(counts) - Sum(s) == Min(hits, Sum(counts))
    ensures s == Reduce(hits, counts)
  {
    if counts != [] {
      var removed := Min(hits, counts[0]);
      HeadStep(hits, counts, s);
      OrderTail(s, counts);
      ReduceUnique(hits - removed, counts[1..], s[1..]);
      assert s == [s[0]] + s[1..];
    }
  }

  /** What the removal policy says of the first type, and what it leaves for
      the types after it. */
  lemma HeadStep(hits: int, counts: seq<int>, s: seq<int>)
    requires hits >= 0 && NonNeg(counts) && counts != []
    requires |s| == |counts| && forall i :: 0 <= i < |s| ==> 0 <= s[i] <= counts[i]
    requires forall i, j :: 0 <= i < j < |s| && s[j] < counts[j] ==> s[i] == 0
    requires Sum(counts) - Sum(s) == Min(hits, Sum(counts))
    ensures s[0] == counts[0] - Min(hits, counts[0])
    ensures hits - Min(hits, counts[0]) >= 0 && NonNeg(counts[1..])
    ensures forall i :: 0 <= i < |s| - 1 ==> 0 <= s[1..][i] <= counts[1..][i]
    ensures Sum(counts[1..]) - Sum(s[1..]) == Min(hits - Min(hits, counts[0]), Sum(counts[1..]))
  {
    var c0, s0 := counts[0], s[0];
    var rest, srest := counts[1..], s[1..];
    SumBelow(srest, rest);
    SumNonNeg(rest);
    OrderHead(s, counts);
  }

  /** The removal order holds of the types after the first. */
  lemma OrderTail(s: seq<int>, counts: seq<int>)
    requires |s| == |counts| > 0
    requires forall i, j :: 0 <= i < j < |s| && s[j] < counts[j] ==> s[i] == 0
    ensures forall i, j :: 0 <= i < j < |s| - 1 && s[1..][j] < counts[1..][j] ==> s[1..][i] == 0
  {
    forall i, j | 0 <= i < j < |s| - 1 && s[1..][j] < counts[1..][j]
      ensures s[1..][i] == 0
    {
      assert s[j + 1] < counts[j + 1];
    }
  }

  /** Under the removal order, a side whose later types lost units has no units of its first type. */
  lemma OrderHead(s: seq<int>, counts: seq<int>)
    requires |s| == |counts| > 0 && forall i :: 0 <= i < |s| ==> 0 <= s[i] <= counts[i]
    requires forall i, j :: 0 <= i < j < |s| && s[j] < counts[j] ==> s[i] == 0
    ensures s[1..] != counts[1..] ==> s[0] == 0
  {
    if s[1..] != counts[1..] {
      var j := SomeBelow(s[1..], counts[1..]);
      assert s[j + 1] < counts[j + 1];
    }
  }

  /** Pointwise smaller counts have a smaller sum, strictly unless equal. */
  lemma {:induction false} SumBelow(s: seq<int>, c: seq<int>)
    requires |s| == |c| && forall i :: 0 <= i < |s| ==> s[i] <= c[i]
    ensures Sum(s) <= Sum(c)
    ensures Sum(s) == Sum(c) ==> s == c
  {
    if s != [] {
      SumBelow(s[1..], c[1..]);
      if Sum(s) == Sum(c) {
        assert s == [s[0]] + s[1..] && c == [c[0]] + c[1..];
      }
    }
  }

  lemma SomeBelow(s: seq<int>, c: seq<int>) returns (j: nat)
    requires |s| == |c| && forall i :: 0 <= i < |s| ==> s[i] <= c[i]
    requires s != c
    ensures j < |s| && s[j] < c[j]
  {
    j :| j < |s| && s[j] != c[j];
  }

  /** Hits for the defender leave the attacker alone, and the other way round. */
  lemma ApplySeparates(defHits: int, attHits: int, u: Units)
    requires Valid(u)
    ensures Apply(defHits, 0, u).att == u.att
    ensures Apply(0, attHits, u).def == u.def
  {
    ReduceNoHits(u.att);
    ReduceNoHits(u.def);
  }

  /** After casualties the state is still valid, and unless neither side scored,
      a round between two living sides removes at least one unit. */
  lemma TotalDecreases(defHits: int, attHits: int, u: Units)
    requires Valid(u) && defHits >= 0 && attHits >= 0
    requires Sum(u.att) > 0 && Sum(u.def) > 0
    requires defHits > 0 || attHits > 0
    ensures Valid(Apply(defHits, attHits, u))
    ensures 0 <= Total(Apply(defHits, attHits, u)) < Total(u)
  {
    ReduceRemoved(attHits, u.att);
    ReduceRemoved(defHits, u.def);
    ReduceBounds(attHits, u.att);
    ReduceBounds(defHits, u.def);
    SumNonNeg(Apply(defHits, attHits, u).att);
    SumNonNeg(Apply(defHits, attHits, u).def);
  }
}

/** Worked examples of casualty assignment. */
module CasualtiesExamples {
  import opened Forces
  import opened Casualties

  /** The example `casualties(5, 5, [10,5,3,2,1, 8,3,2,1,0])`: five hits take
      five infantry from each side. The counts are parameters so that the
      verifier unfolds `Reduce` only as far as the proof asks. */
  lemma CasualtiesExample(att: seq<int>, def: seq<int>)
    requires att == [10, 5, 3, 2, 1] && def == [8, 3, 2, 1, 0]
    ensures Apply(5, 5, Units(att, def)) == Units([5, 5, 3, 2, 1], [3, 3, 2, 1, 0])
  {
    FiveHits(att, 5);
    FiveHits(def, 3);
  }

  /** The argument order of `casualties`: its first count of hits lands on the
      defender. From ten infantry and three tanks a side, one hit on the
      defender and three on the attacker leave 9 and 7 infantry. */
  lemma DefenderHitFirst(c: seq<int>)
    requires c == [10, 0, 3, 0, 0]
    ensures Apply(1, 3, Units(c, c)) == Units([7, 0, 3, 0, 0], [9, 0, 3, 0, 0])
  {
    assert NonNeg(c[1..]);
    ReduceNoHits(c[1..]);
  }

  /** Hits beyond a unit type's count carry over to the next type: eleven hits
      on ten infantry and three tanks leave two tanks. */
  lemma HitsCarryOver(c: seq<int>)
    requires c == [10, 0, 3, 0, 0]
    ensures Apply(11, 1, Units(c, c)) == Units([9, 0, 3, 0, 0], [0, 0, 2, 0, 0])
  {
    assert NonNeg(c[1..]) && NonNeg(c[3..]);
    ReduceNoHits(c[1..]);
    ReduceNoHits(c[3..]);
    assert Reduce(1, c[2..]) == [2] + c[3..];
    assert Reduce(1, c[1..]) == [0] + Reduce(1, c[2..]);
  }

  lemma FiveHits(c: seq<int>, left: int)
    requires c == [10, 5, 3, 2, 1] || c == [8, 3, 2, 1, 0]
    requires left == c[0] - 5
    ensures Reduce(5, c) == [left] + c[1..]
  {
    assert NonNeg(c[1..]);
    ReduceNoHits(c[1..]);
  }
}
