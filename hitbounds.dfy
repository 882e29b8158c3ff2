/** How much probability a side's hit table carries. Because line 171 overwrites
    instead of adding, the entries of the table need not add up to one; they
    never add up to more. */
module HitBounds {
  import opened Forces
  import opened Casualties
  import opened Binomial
  import opened HitTable

  /** `chance(j, 0) + ... + chance(j, m - 1)`. */
  function ChanceSum(chance: (int, int) -> real, j: int, m: int): real
    decreases m
  {
    if m <= 0 then 0.0 else ChanceSum(chance, j, m - 1) + chance(j, m - 1)
  }

  /** For each unit type `j`, `chance(j, .)` is a probability distribution
      over the hit counts `0 .. counts[j]`. */
  ghost predicate IsDistribution(chance: (int, int) -> real, counts: seq<int>) {
    (forall j, k :: 0 <= j < |counts| && 0 <= k <= counts[j] ==> chance(j, k) >= 0.0) &&
    (forall j :: 0 <= j < |counts| ==> ChanceSum(chance, j, counts[j] + 1) == 1.0)
  }

  /** The probability of the greedy split of `s` hits over the types `j ..`. */
  function TailProb(chance: (int, int) -> real, counts: seq<int>, s: int, j: nat): real
    decreases |counts| - j
  {
    if j >= |counts| then 1.0
    else
      var taken := Min(s, counts[j]);
      chance(j, taken) * TailProb(chance, counts, s - taken, j + 1)
  }

  /** `TailProb(s, j)` summed over `lo <= s < hi`. */
  function TailMass(chance: (int, int) -> real, counts: seq<int>, j: nat, lo: int, hi: int): real
    decreases hi - lo
  {
    if hi <= lo then 0.0 else TailMass(chance, counts, j, lo, hi - 1) + TailProb(chance, counts, hi - 1, j)
  }

  /** The sum of a side's table entries for the totals `0 .. n - 1`. */
  function HitMass(chance: (int, int) -> real, counts: seq<int>, n: int): real
    decreases n
  {
    if n <= 0 then 0.0 else HitMass(chance, counts, n - 1) + HitProb(chance, counts, n - 1)
  }

  lemma {:induction false} TailNonNeg(chance: (int, int) -> real, counts: seq<int>, s: int, j: nat)
    requires NonNeg(counts) && IsDistribution(chance, counts) && s >= 0
    ensures TailProb(chance, counts, s, j) >= 0.0
    decreases |counts| - j
  {
    if j < |counts| {
      var taken := Min(s, counts[j]);
      TailNonNeg(chance, counts, s - taken, j + 1);
      assert chance(j, taken) >= 0.0;
      AtLeastZero(chance(j, taken), TailProb(chance, counts, s - taken, j + 1));
    }
  }

  lemma AtLeastZero(a: real, b: real)
    requires a >= 0.0 && b >= 0.0
    ensures a * b >= 0.0
  {
  }

  lemma {:induction false} TailMassNonNeg(chance: (int, int) -> real, counts: seq<int>, j: nat, lo: int, hi: int)
    requires NonNeg(counts) && IsDistribution(chance, counts) && lo >= 0
    ensures TailMass(chance, counts, j, lo, hi) >= 0.0
    decreases hi - lo
  {
    if lo < hi {
      TailMassNonNeg(chance, counts, j, lo, hi - 1);
      TailNonNeg(chance, counts, hi - 1, j);
    }
  }

  lemma {:induction false} TailMassSplit(chance: (int, int) -> real, counts: seq<int>, j: nat, lo: int, mid: int, hi: int)
    requires lo <= mid <= hi
    ensures TailMass(chance, counts, j, lo, hi) == TailMass(chance, counts, j, lo, mid) + TailMass(chance, counts, j, mid, hi)
    decreases hi - mid
  {
    if mid < hi {
      TailMassSplit(chance, counts, j, lo, mid, hi - 1);
    }
  }

  /** Totals below the count of type `j` are all taken by type `j`. */
  lemma {:induction false} LowTotals(chance: (int, int) -> real, counts: seq<int>, j: nat, m: int)
    requires j < |counts| && 0 <= m <= counts[j]
    ensures TailMass(chance, counts, j, 0, m) == TailProb(chance, counts, 0, j + 1) * ChanceSum(chance, j, m)
    decreases m
  {
    if m > 0 {
      LowTotals(chance, counts, j, m - 1);
      assert TailProb(chance, counts, m - 1, j) == chance(j, m - 1) * TailProb(chance, counts, 0, j + 1);
    }
  }

  /** Totals from the count of type `j` on take all of type `j` and pass the
      rest to the types after it. */
  lemma {:induction false} HighTotals(chance: (int, int) -> real, counts: seq<int>, j: nat, m: int)
    requires j < |counts| && 0 <= counts[j] && 0 <= m
    ensures TailMass(chance, counts, j, counts[j], counts[j] + m)
         == chance(j, counts[j]) * TailMass(chance, counts, j + 1, 0, m)
    decreases m
  {
    if m > 0 {
      HighTotals(chance, counts, j, m - 1);
      var c := counts[j];
      assert Min(c + m - 1, c) == c && c + m - 1 - c == m - 1;
      assert TailProb(chance, counts, c + m - 1, j) == chance(j, c) * TailProb(chance, counts, m - 1, j + 1);
    }
  }

  lemma ScaleAtMost(a: real, b: real)
    requires a >= 0.0 && b <= 1.0
    ensures a * b <= a && b * a <= a
  {
    assert a * (1.0 - b) >= 0.0;
  }

  /** The totals below the count of type `j` weigh at most the chances of
      type `j` taking that many hits. */
  lemma LowAtMost(chance: (int, int) -> real, counts: seq<int>, j: nat)
    requires j < |counts| && 0 <= counts[j]
    requires 0.0 <= TailProb(chance, counts, 0, j + 1) <= 1.0 && ChanceSum(chance, j, counts[j]) >= 0.0
    ensures TailMass(chance, counts, j, 0, counts[j]) <= ChanceSum(chance, j, counts[j])
  {
    LowTotals(chance, counts, j, counts[j]);
    ScaleAtMost(ChanceSum(chance, j, counts[j]), TailProb(chance, counts, 0, j + 1));
  }

  /** The totals from the count of type `j` on weigh at most the chance of
      type `j` being wiped out. */
  lemma HighAtMost(chance: (int, int) -> real, counts: seq<int>, j: nat, m: int)
    requires j < |counts| && 0 <= counts[j] && 0 <= m
    requires chance(j, counts[j]) >= 0.0 && TailMass(chance, counts, j + 1, 0, m) <= 1.0
    ensures TailMass(chance, counts, j, counts[j], counts[j] + m) <= chance(j, counts[j])
  {
    HighTotals(chance, counts, j, m);
    var a, b := chance(j, counts[j]), TailMass(chance, counts, j + 1, 0, m);
    ScaleAtMost(a, b);
    assert TailMass(chance, counts, j, counts[j], counts[j] + m) == a * b <= a;
  }

  /** The greedy splits over the types `j ..` carry at most probability one. */
  lemma {:induction false} TailMassAtMostOne(chance: (int, int) -> real, counts: seq<int>, j: nat)
    requires NonNeg(counts) && IsDistribution(chance, counts) && j <= |counts|
    ensures TailMass(chance, counts, j, 0, Sum(counts[j..]) + 1) <= 1.0
    decreases |counts| - j
  {
    if j == |counts| {
      assert counts[j..] == [];
      assert TailMass(chance, counts, j, 0, 1) == TailMass(chance, counts, j, 0, 0) + TailProb(chance, counts, 0, j);
    } else {
      var rest := Sum(counts[j + 1..]);
      NonNegSuffix(counts, j + 1);
      SumNonNeg(counts[j + 1..]);
      SumSuffix(counts, j);
      assert Sum(counts[j..]) + 1 == counts[j] + (rest + 1);
      TailMassAtMostOne(chance, counts, j + 1);
      FirstAtMostOne(chance, counts, j + 1, rest);
      TailNonNeg(chance, counts, 0, j + 1);
      ChanceSumNonNeg(chance, counts, j, counts[j]);
      assert ChanceSum(chance, j, counts[j] + 1) == ChanceSum(chance, j, counts[j]) + chance(j, counts[j]);
      TailMassSplit(chance, counts, j, 0, counts[j], counts[j] + (rest + 1));
      LowAtMost(chance, counts, j);
      HighAtMost(chance, counts, j, rest + 1);
    }
  }

  /** The greedy split of no hits over the types `j ..` is one of the terms of their mass. */
  lemma FirstAtMostOne(chance: (int, int) -> real, counts: seq<int>, j: nat, rest: int)
    requires NonNeg(counts) && IsDistribution(chance, counts) && rest >= 0
    requires TailMass(chance, counts, j, 0, rest + 1) <= 1.0
    ensures TailProb(chance, counts, 0, j) <= 1.0
  {
    TailMassSplit(chance, counts, j, 0, 1, rest + 1);
    TailMassNonNeg(chance, counts, j, 1, rest + 1);
    assert TailMass(chance, counts, j, 0, 1) == TailMass(chance, counts, j, 0, 0) + TailProb(chance, counts, 0, j);
  }

  lemma {:induction false} ChanceSumNonNeg(chance: (int, int) -> real, counts: seq<int>, j: nat, m: int)
    requires IsDistribution(chance, counts) && j < |counts| && m <= counts[j] + 1
    ensures ChanceSum(chance, j, m) >= 0.0
    decreases m
  {
    if m > 0 {
      ChanceSumNonNeg(chance, counts, j, m - 1);
    }
  }

  /** The product of `chance(j + i, x[i])` over the entries of `x`, taken from
      the right: the same product as line 171's, grouped the way `TailProb`
      groups it. */
  ghost function SplitProb(chance: (int, int) -> real, x: seq<int>, j: int): real
    decreases |x|
  {
    if x == [] then 1.0 else chance(j, x[0]) * SplitProb(chance, x[1..], j + 1)
  }

  lemma {:induction false} TailIsSplit(chance: (int, int) -> real, counts: seq<int>, s: int, j: nat)
    requires j <= |counts|
    ensures TailProb(chance, counts, s, j) == SplitProb(chance, GreedySplit(s, counts[j..]), j)
    decreases |counts| - j
  {
    if j < |counts| {
      var taken := Min(s, counts[j]);
      TailIsSplit(chance, counts, s - taken, j + 1);
      assert counts[j..][1..] == counts[j + 1..];
      var x := GreedySplit(s, counts[j..]);
      assert x[0] == taken && x[1..] == GreedySplit(s - taken, counts[j + 1..]);
    }
  }

  lemma TupleIsSplit(chance: (int, int) -> real, x: seq<int>)
    requires |x| == UnitKinds
    ensures TupleProb(chance)(x) == SplitProb(chance, x, 0)
  {
    var x1 := x[1..];
    var x2 := x1[1..];
    var x3 := x2[1..];
    var x4 := x3[1..];
    assert x1[0] == x[1] && x2[0] == x[2] && x3[0] == x[3] && x4[0] == x[4] && x4[1..] == [];
    assert SplitProb(chance, x4, 4) == chance(4, x[4]) * 1.0;
    assert SplitProb(chance, x3, 3) == chance(3, x[3]) * SplitProb(chance, x4, 4);
    assert SplitProb(chance, x2, 2) == chance(2, x[2]) * SplitProb(chance, x3, 3);
    assert SplitProb(chance, x1, 1) == chance(1, x[1]) * SplitProb(chance, x2, 2);
    assert SplitProb(chance, x, 0) == chance(0, x[0]) * SplitProb(chance, x1, 1);
    Regroup(chance(0, x[0]), chance(1, x[1]), chance(2, x[2]), chance(3, x[3]), chance(4, x[4]),
            SplitProb(chance, x, 0), SplitProb(chance, x1, 1), SplitProb(chance, x2, 2),
            SplitProb(chance, x3, 3), SplitProb(chance, x4, 4));
  }

  /** Multiplication regrouped from the right to the left. */
  lemma Regroup(a: real, b: real, c: real, d: real, e: real, s0: real, s1: real, s2: real, s3: real, s4: real)
    requires s4 == e * 1.0 && s3 == d * s4 && s2 == c * s3 && s1 == b * s2 && s0 == a * s1
    ensures s0 == a * b * c * d * e
  {
  }

  /** The table entry of line 171 at total `h` is the greedy split's chance,
      as `TailProb` computes it. */
  lemma HitProbIsTail(chance: (int, int) -> real, counts: seq<int>, h: int)
    requires |counts| == UnitKinds
    ensures HitProb(chance, counts, h) == TailProb(chance, counts, h, 0)
  {
    TailIsSplit(chance, counts, h, 0);
    assert counts[0..] == counts;
    TupleIsSplit(chance, GreedySplit(h, counts));
  }

  lemma {:induction false} HitMassIsTail(chance: (int, int) -> real, counts: seq<int>, n: int)
    requires |counts| == UnitKinds
    ensures HitMass(chance, counts, n) == TailMass(chance, counts, 0, 0, n)
    decreases n
  {
    if n > 0 {
      HitMassIsTail(chance, counts, n - 1);
      HitProbIsTail(chance, counts, n - 1);
    }
  }

  /** The entries of a side's table for the totals `0 .. Sum(counts)` add up
      to at most one, and none is negative: the overwriting in line 171 can
      only lose probability, never create it. */
  lemma HitMassAtMostOne(chance: (int, int) -> real, counts: seq<int>)
    requires |counts| == UnitKinds && NonNeg(counts) && IsDistribution(chance, counts)
    ensures 0.0 <= HitMass(chance, counts, Sum(counts) + 1) <= 1.0
  {
    HitMassIsTail(chance, counts, Sum(counts) + 1);
    TailMassAtMostOne(chance, counts, 0);
    assert counts[0..] == counts;
    TailMassNonNeg(chance, counts, 0, 0, Sum(counts) + 1);
  }

  /** A side's binomial factors form, type by type, a distribution over the
      hit counts `0 .. count`. */
  lemma BinomialsDistribution(side: Side, counts: seq<int>)
    requires |counts| == UnitKinds && NonNeg(counts)
    ensures IsDistribution(Binomials(side, counts), counts)
  {
    BinomialsNonNeg(side, counts);
    forall j | 0 <= j < |counts|
      ensures ChanceSum(Binomials(side, counts), j, counts[j] + 1) == 1.0
    {
      ChanceSumIsMass(side, counts, j, counts[j] + 1);
      BinPDFSumsToOne(HitChance(side, j), counts[j]);
    }
  }

  lemma {:induction false} ChanceSumIsMass(side: Side, counts: seq<int>, j: int, m: nat)
    requires |counts| == UnitKinds && NonNeg(counts) && 0 <= j < UnitKinds && m <= counts[j] + 1
    ensures ChanceSum(Binomials(side, counts), j, m) == Mass(HitChance(side, j), counts[j], m)
  {
    if m > 0 {
      ChanceSumIsMass(side, counts, j, m - 1);
    }
  }
}
