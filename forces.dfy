/** Unit types, the odds table and the two representations of a battle state:
    the per-side dictionary and the flat ten-integer tuple used as memo key. */
module Forces {

  datatype Option<T> = None | Some(value: T)

  /** A side of the battle; win and lose are always from the attacker's view. */
  datatype Side = Att | Def

  /** Unit types are positions 0..4, in the order Infantry, Artillary, Tanks,
      Fighters, Bombers. That order is both the tuple layout and the order in
      which casualties are taken. */
  const UnitKinds: nat := 5
  const Infantry: nat := 0
  const Artillary: nat := 1

  /** Number of die faces (out of six) that score a hit for unit type `i`. */
  function Strength(side: Side, i: nat): nat
    requires i < UnitKinds
  {
    match side
    case Att => [1, 2, 3, 3, 4][i]
    case Def => [2, 2, 2, 4, 1][i]
  }

  /** The per-die hit probability `odds[unit][side] / 6`. */
  function HitChance(side: Side, i: nat): (p: real)
    requires i < UnitKinds
    ensures 0.0 < p < 1.0
  {
    Strength(side, i) as real / 6.0
  }

  /** The dictionary `{'Att': {...}, 'Def': {...}}`; entry `i` of a side is the
      count of unit type `i`. */
  datatype Units = Units(att: seq<int>, def: seq<int>)
  {
    function Of(side: Side): seq<int> {
      match side
      case Att => att
      case Def => def
    }
  }

  predicate NonNeg(s: seq<int>) {
    forall i :: 0 <= i < |s| ==> s[i] >= 0
  }

  /** Both sides list all five unit types. */
  predicate Shaped(u: Units) {
    |u.att| == UnitKinds && |u.def| == UnitKinds
  }

  /** A state the engine can resolve: five non-negative counts per side. */
  predicate Valid(u: Units) {
    Shaped(u) && NonNeg(u.att) && NonNeg(u.def)
  }

  function Sum(s: seq<int>): int {
    if s == [] then 0 else s[0] + Sum(s[1..])
  }

  /** `x * y`, as a function symbol of its own, so that equal arguments give
      equal products without arithmetic. */
  ghost function Times(x: real, y: real): real {
    x * y
  }

  /** Units alive on both sides together. */
  function Total(u: Units): int {
    Sum(u.att) + Sum(u.def)
  }

  /** `any(count for each unit type)`: some count is non-zero. */
  predicate AnyAlive(s: seq<int>) {
    exists i :: 0 <= i < |s| && s[i] != 0
  }

  lemma {:induction false} SumAppend(a: seq<int>, b: seq<int>)
    ensures Sum(a + b) == Sum(a) + Sum(b)
  {
    if a == [] {
      assert a + b == b;
    } else {
      assert (a + b)[1..] == a[1..] + b;
      SumAppend(a[1..], b);
    }
  }

  lemma {:induction false} SumNonNeg(s: seq<int>)
    requires NonNeg(s)
    ensures Sum(s) >= 0
  {
    if s != [] {
      SumNonNeg(s[1..]);
    }
  }

  /** For non-negative counts, `any` is the same as a positive total. */
  lemma {:induction false} AliveIffPositive(s: seq<int>)
    requires NonNeg(s)
    ensures AnyAlive(s) <==> Sum(s) > 0
  {
    if s != [] {
      AliveIffPositive(s[1..]);
      SumNonNeg(s[1..]);
      if AnyAlive(s[1..]) {
        var i :| 0 <= i < |s[1..]| && s[1..][i] != 0;
        assert s[i + 1] != 0;
      }
      if AnyAlive(s) && s[0] == 0 {
        var i :| 0 <= i < |s| && s[i] != 0;
        assert s[1..][i - 1] != 0;
      }
    }
  }

  /** `short_units`: the attacker's values followed by the defender's. */
  function ShortUnits(u: Units): seq<int> {
    u.att + u.def
  }

  /** The dictionary that `long_units` builds from the first ten integers. */
  function Split(xs: seq<int>): Units
    requires |xs| >= 2 * UnitKinds
  {
    Units(xs[..UnitKinds], xs[UnitKinds..2 * UnitKinds])
  }

  /** `long_units`: fills the dictionary side by side, unit type by unit type,
      taking the head of the input and re-slicing it each time. Fewer than ten
      inputs make the source index past the end; that failure is `None`, and
      inputs after the tenth are ignored. */
  method LongUnits(input: seq<int>) returns (r: Option<Units>)
    ensures r.None? <==> |input| < 2 * UnitKinds
    ensures r.Some? ==> Shaped(r.value)
    ensures r.Some? ==> forall i :: 0 <= i < UnitKinds ==>
              r.value.att[i] == input[i] && r.value.def[i] == input[UnitKinds + i]
  {
    var rest := input;
    var sides: seq<seq<int>> := [];
    for s := 0 to 2
      invariant |sides| == s
      invariant forall j :: 0 <= j < s ==> |sides[j]| == UnitKinds
      invariant s * UnitKinds <= |input| && rest == input[s * UnitKinds..]
      invariant forall j, i :: 0 <= j < s && 0 <= i < UnitKinds ==> sides[j][i] == input[j * UnitKinds + i]
    {
      var counts: seq<int> := [];
      for unit := 0 to UnitKinds
        invariant |counts| == unit
        invariant s * UnitKinds + unit <= |input| && rest == input[s * UnitKinds + unit..]
        invariant forall i :: 0 <= i < unit ==> counts[i] == input[s * UnitKinds + i]
      {
        if rest == [] {
          return None;
        }
        counts := counts + [rest[0]];
        rest := rest[1..];
      }
      sides := sides + [counts];
    }
    r := Some(Units(sides[0], sides[1]));
  }

  /** Reading the dictionary back gives the tuple it was built from. */
  lemma RoundTripTuple(xs: seq<int>)
    requires |xs| == 2 * UnitKinds
    ensures ShortUnits(Split(xs)) == xs
  {
    assert xs[..UnitKinds] + xs[UnitKinds..] == xs;
  }

  /** Building the dictionary from a state's tuple gives the state back. */
  lemma RoundTripUnits(u: Units)
    requires Shaped(u)
    ensures |ShortUnits(u)| == 2 * UnitKinds && Split(ShortUnits(u)) == u
  {
    var t := ShortUnits(u);
    assert t[..UnitKinds] == u.att;
    assert t[UnitKinds..2 * UnitKinds] == u.def;
  }

  /** The tuple holds exactly the units of the state. */
  lemma SumShortUnits(u: Units)
    ensures Sum(ShortUnits(u)) == Total(u)
  {
    SumAppend(u.att, u.def);
  }

  /** The first ten integers of the input hold exactly the units of the state
      built from them. */
  lemma SumSplit(xs: seq<int>)
    requires |xs| >= 2 * UnitKinds
    ensures Sum(xs[..2 * UnitKinds]) == Total(Split(xs))
  {
    assert xs[..2 * UnitKinds] == xs[..UnitKinds] + xs[UnitKinds..2 * UnitKinds];
    SumAppend(xs[..UnitKinds], xs[UnitKinds..2 * UnitKinds]);
  }

  /** The "promotion" before the first round (aacalc.py:230-232): infantry that
      can pair with artillery is counted as artillery. */
  function Promote(u: Units): (r: Units)
    requires Shaped(u)
    ensures Shaped(r) && r.def == u.def
    ensures Sum(r.att) == Sum(u.att)
    ensures forall i :: Artillary < i < UnitKinds ==> r.att[i] == u.att[i]
    ensures r.att[Infantry] + r.att[Artillary] == u.att[Infantry] + u.att[Artillary]
    ensures NonNeg(u.att) ==> NonNeg(r.att) && (r.att[Infantry] == 0 || r.att[Artillary] == 2 * u.att[Artillary])
    ensures NonNeg(u.att) ==> r.att[Artillary] <= 2 * u.att[Artillary]
  {
    var promotions := if u.att[Infantry] <= u.att[Artillary] then u.att[Infantry] else u.att[Artillary];
    var fewer := u.att[Infantry := u.att[Infantry] - promotions];
    var att := fewer[Artillary := u.att[Artillary] + promotions];
    SumUpdate(u.att, Infantry, u.att[Infantry] - promotions);
    SumUpdate(fewer, Artillary, u.att[Artillary] + promotions);
    Units(att, u.def)
  }

  lemma {:induction false} SumUpdate(s: seq<int>, i: nat, v: int)
    requires i < |s|
    ensures Sum(s[i := v]) == Sum(s) - s[i] + v
  {
    if i > 0 {
      assert s[i := v][1..] == s[1..][i - 1 := v];
      SumUpdate(s[1..], i - 1, v);
    }
  }
}
