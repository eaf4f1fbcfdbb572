/** Reductions over a column of present (non-missing) numbers: sum, mean,
    maximum and minimum, as pandas' skip-NaN reductions compute them. */
module Stats {
  import opened Options

  function Sum(s: seq<real>): real
  {
    if s == [] then 0.0 else s[0] + Sum(s[1..])
  }

  /** The arithmetic mean; `None` (pandas' NaN) for an empty column. */
  function Mean(s: seq<real>): Option<real>
  {
    if |s| == 0 then None else Some(Sum(s) / (|s| as real))
  }

  /** The largest value of a non-empty column. */
  function MaxOf(s: seq<real>): (m: real)
    requires |s| > 0
    ensures m in s
    ensures forall i :: 0 <= i < |s| ==> s[i] <= m
  {
    if |s| == 1 then s[0]
    else
      var rest := MaxOf(s[1..]);
      assert forall i :: 1 <= i < |s| ==> s[i] == s[1..][i - 1];
      if s[0] >= rest then s[0] else rest
  }

  /** The smallest value of a non-empty column. */
  function MinOf(s: seq<real>): (m: real)
    requires |s| > 0
    ensures m in s
    ensures forall i :: 0 <= i < |s| ==> m <= s[i]
  {
    if |s| == 1 then s[0]
    else
      var rest := MinOf(s[1..]);
      assert forall i :: 1 <= i < |s| ==> s[i] == s[1..][i - 1];
      if s[0] <= rest then s[0] else rest
  }

  lemma {:induction false} SumWithin(s: seq<real>, lo: real, hi: real)
    requires forall i :: 0 <= i < |s| ==> lo <= s[i] <= hi
    ensures (|s| as real) * lo <= Sum(s) <= (|s| as real) * hi
  {
    if s != [] {
      assert forall i :: 0 <= i < |s[1..]| ==> s[1..][i] == s[i + 1];
      SumWithin(s[1..], lo, hi);
    }
  }

  lemma {:induction false} SumAbove(s: seq<real>, lo: real)
    requires |s| > 0
    requires forall i :: 0 <= i < |s| ==> lo < s[i]
    ensures (|s| as real) * lo < Sum(s)
  {
    if |s| > 1 {
      assert forall i :: 0 <= i < |s[1..]| ==> s[1..][i] == s[i + 1];
      SumAbove(s[1..], lo);
    }
  }

  /** A mean never leaves an interval that holds every value it averages. */
  lemma MeanWithin(s: seq<real>, lo: real, hi: real)
    requires |s| > 0
    requires forall i :: 0 <= i < |s| ==> lo <= s[i] <= hi
    ensures Mean(s).Some? && lo <= Mean(s).value <= hi
  {
    SumWithin(s, lo, hi);
    var n := |s| as real;
    assert Sum(s) / n >= lo by { assert Sum(s) >= n * lo; }
    assert Sum(s) / n <= hi by { assert Sum(s) <= n * hi; }
  }

  /** A strict lower bound on every value is a strict lower bound on the mean. */
  lemma MeanAbove(s: seq<real>, lo: real)
    requires |s| > 0
    requires forall i :: 0 <= i < |s| ==> lo < s[i]
    ensures Mean(s).Some? && lo < Mean(s).value
  {
    SumAbove(s, lo);
    var n := |s| as real;
    assert Sum(s) / n > lo by { assert Sum(s) > n * lo; }
  }

  /** The mean of a non-empty column lies between its minimum and maximum,
      and it is missing exactly for the empty column. */
  lemma MeanBounds(s: seq<real>)
    ensures Mean(s).Some? <==> |s| > 0
    ensures |s| > 0 ==> MinOf(s) <= Mean(s).value <= MaxOf(s)
  {
    if |s| > 0 {
      MeanWithin(s, MinOf(s), MaxOf(s));
    }
  }
}
