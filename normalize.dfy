/** `normalize` (aacalc.py:124-129): rescales a list of numbers to percentages
    of their sum. */
module Shares {
  import opened Forces

  function RealSum(arr: seq<real>): real {
    if arr == [] then 0.0 else arr[0] + RealSum(arr[1..])
  }

  /** Every element divided by `total`, in order: the comprehension
      `[x / total for x in arr]`. */
  function Divided(arr: seq<real>, total: real): (r: seq<real>)
    requires total != 0.0
    ensures |r| == |arr|
  {
    seq(|arr|, k requires 0 <= k < |arr| => arr[k] / total)
  }

  /** `total = sum(arr)/100`, then every element divided by `total`. The
      empty list gives the empty list without any division; a non-empty list
      summing to zero raises `ZeroDivisionError`, which is `None`. */
  function Normalize(arr: seq<real>): (r: Option<seq<real>>)
    ensures r.None? <==> arr != [] && RealSum(arr) == 0.0
    ensures r.Some? ==> |r.value| == |arr|
  {
    var total := RealSum(arr) / 100.0;
    if arr == [] then Some([])
    else if total == 0.0 then None
    else Some(Divided(arr, total))
  }

  /** Each element of the result is its input's share of the sum, in percent. */
  lemma NormalizeShare(arr: seq<real>, i: int)
    requires Normalize(arr).Some? && 0 <= i < |arr|
    ensures Normalize(arr).value[i] * RealSum(arr) == 100.0 * arr[i]
  {
    ShareAt(arr, i);
  }

  lemma ShareAt(arr: seq<real>, i: int)
    requires Normalize(arr).Some? && 0 <= i < |arr|
    ensures Times(Normalize(arr).value[i], RealSum(arr)) == 100.0 * arr[i]
  {
    NormalizeAt(arr, i);
    Percent(Normalize(arr).value[i], RealSum(arr), arr[i]);
  }

  lemma NormalizeAt(arr: seq<real>, i: int)
    requires Normalize(arr).Some? && 0 <= i < |arr|
    ensures RealSum(arr) != 0.0
    ensures Normalize(arr).value[i] == arr[i] / (RealSum(arr) / 100.0)
  {
    var total := RealSum(arr) / 100.0;
    assert total != 0.0;
    assert Normalize(arr) == Some(Divided(arr, total));
    assert Divided(arr, total)[i] == arr[i] / total;
  }

  lemma Percent(q: real, sum: real, x: real)
    requires sum != 0.0 && q == x / (sum / 100.0)
    ensures Times(q, sum) == 100.0 * x
  {
    assert q * (sum / 100.0) == x;
  }

  lemma {:induction false} DividedSum(arr: seq<real>, total: real)
    requires total != 0.0
    ensures RealSum(Divided(arr, total)) * total == RealSum(arr)
  {
    if arr != [] {
      DividedSum(arr[1..], total);
      var rest := RealSum(Divided(arr[1..], total));
      var q := arr[0] / total;
      assert q * total == arr[0];
      assert Divided(arr, total)[1..] == Divided(arr[1..], total);
      assert RealSum(Divided(arr, total)) == q + rest;
      assert (q + rest) * total == q * total + rest * total;
    }
  }

  /** A non-empty result adds up to one hundred. */
  lemma NormalizeSumsTo100(arr: seq<real>)
    requires Normalize(arr).Some? && arr != []
    ensures RealSum(Normalize(arr).value) == 100.0
  {
    var total := RealSum(arr) / 100.0;
    assert Normalize(arr).value == Divided(arr, total);
    DividedSum(arr, total);
    Cancel(RealSum(Divided(arr, total)), total, RealSum(arr));
  }

  lemma Cancel(s: real, total: real, sum: real)
    requires total != 0.0 && s * total == sum && total == sum / 100.0
    ensures s == 100.0
  {
    assert (s - 100.0) * total == 0.0;
  }

  /** Normalising twice is normalising once. */
  lemma NormalizeIdempotent(arr: seq<real>)
    requires Normalize(arr).Some?
    ensures Normalize(Normalize(arr).value) == Normalize(arr)
  {
    if arr != [] {
      NormalizeSumsTo100(arr);
      var r := Normalize(arr).value;
      assert Divided(r, 1.0) == r;
    }
  }
}
