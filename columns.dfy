/** Whole-column operations of the data frame: forward fill (ffill) and the
    running sum (cumsum), each with a loop that computes it column by column. */
module Columns {
  import opened Wrappers

  /** Series.ffill(): a missing cell takes the value of the nearest filled cell above it. */
  function FillForward<T>(s: seq<Option<T>>): (r: seq<Option<T>>)
    ensures |r| == |s|
  {
    if s == [] then []
    else
      var above := FillForward(s[..|s| - 1]);
      var last := s[|s| - 1];
      above + [if last.Some? || above == [] then last else above[|above| - 1]]
  }

  /** The value of the latest cell at or before position i that holds one. */
  function LastKnown<T>(s: seq<Option<T>>, i: int): Option<T>
    requires -1 <= i < |s|
    decreases i + 1
  {
    if i < 0 then None else if s[i].Some? then s[i] else LastKnown(s, i - 1)
  }

  /** Forward fill gives every position the latest known value at or before it. */
  lemma {:induction false} FillForwardIsLastKnown<T>(s: seq<Option<T>>, i: nat)
    requires i < |s|
    ensures FillForward(s)[i] == LastKnown(s, i)
    decreases |s|
  {
    var init := s[..|s| - 1];
    assert forall k :: -1 <= k < |init| ==> LastKnown(init, k) == LastKnown(s, k) by {
      forall k | -1 <= k < |init| ensures LastKnown(init, k) == LastKnown(s, k) {
        LastKnownOfPrefix(s, init, k);
      }
    }
    if i < |s| - 1 {
      FillForwardIsLastKnown(init, i);
    } else if |init| > 0 {
      FillForwardIsLastKnown(init, |init| - 1);
    }
  }

  lemma {:induction false} LastKnownOfPrefix<T>(s: seq<Option<T>>, p: seq<Option<T>>, k: int)
    requires |p| <= |s| && p == s[..|p|] && -1 <= k < |p|
    ensures LastKnown(p, k) == LastKnown(s, k)
    decreases k + 1
  {
    if k >= 0 && s[k].None? {
      LastKnownOfPrefix(s, p, k - 1);
    }
  }

  /** A cell that holds a value keeps it. */
  lemma FillForwardKeepsKnown<T>(s: seq<Option<T>>, i: nat)
    requires i < |s| && s[i].Some?
    ensures FillForward(s)[i] == s[i]
  {
    FillForwardIsLastKnown(s, i);
  }

  /** A missing cell takes the value of the latest earlier cell j that holds one. */
  lemma FillForwardTakesLatest<T>(s: seq<Option<T>>, j: nat, i: nat)
    requires j <= i < |s| && s[j].Some?
    requires forall k :: j < k <= i ==> s[k].None?
    ensures FillForward(s)[i] == s[j]
  {
    FillForwardIsLastKnown(s, i);
    LastKnownFrom(s, j, i);
  }

  lemma {:induction false} LastKnownFrom<T>(s: seq<Option<T>>, j: nat, i: nat)
    requires j <= i < |s| && s[j].Some?
    requires forall k :: j < k <= i ==> s[k].None?
    ensures LastKnown(s, i) == s[j]
    decreases i - j
  {
    if i > j {
      LastKnownFrom(s, j, i - 1);
    }
  }

  /** A missing cell takes the value the fill gave the cell above it. */
  lemma FillForwardCarries<T>(s: seq<Option<T>>, i: nat)
    requires 0 < i < |s| && s[i].None?
    ensures FillForward(s)[i] == FillForward(s)[i - 1]
  {
    FillForwardIsLastKnown(s, i);
    FillForwardIsLastKnown(s, i - 1);
  }

  /** Only the cells above the first known value stay missing. */
  lemma {:induction false} FillForwardLeavesLeadingGap<T>(s: seq<Option<T>>, i: nat)
    requires i < |s|
    ensures FillForward(s)[i].None? <==> forall k :: 0 <= k <= i ==> s[k].None?
  {
    FillForwardIsLastKnown(s, i);
    LastKnownNone(s, i);
  }

  lemma {:induction false} LastKnownNone<T>(s: seq<Option<T>>, i: int)
    requires -1 <= i < |s|
    ensures LastKnown(s, i).None? <==> forall k :: 0 <= k <= i ==> s[k].None?
    decreases i + 1
  {
    if i >= 0 {
      LastKnownNone(s, i - 1);
    }
  }

  /** The forward fill, as the loop that walks down the column. */
  method ForwardFill<T>(s: seq<Option<T>>) returns (r: seq<Option<T>>)
    ensures r == FillForward(s)
  {
    r := [];
    var carry: Option<T> := None;
    var i := 0;
    while i < |s|
      invariant 0 <= i <= |s|
      invariant r == FillForward(s[..i])
      invariant carry == if i == 0 then None else r[i - 1]
    {
      assert s[..i + 1][..i] == s[..i];
      if s[i].Some? {
        carry := s[i];
      }
      r := r + [carry];
      i := i + 1;
    }
    assert s[..i] == s;
  }

  /** The sum of a column. */
  function Sum(xs: seq<real>): real {
    if xs == [] then 0.0 else Sum(xs[..|xs| - 1]) + xs[|xs| - 1]
  }

  /** Series.cumsum(): each cell adds its own value to the total above it. */
  function RunningSum(xs: seq<real>): (r: seq<real>)
    ensures |r| == |xs|
  {
    if xs == [] then []
    else
      var above := RunningSum(xs[..|xs| - 1]);
      above + [(if above == [] then 0.0 else above[|above| - 1]) + xs[|xs| - 1]]
  }

  /** The running sum at position i is the sum of positions 0 to i. */
  lemma {:induction false} RunningSumIsPrefixSum(xs: seq<real>, i: nat)
    requires i < |xs|
    ensures RunningSum(xs)[i] == Sum(xs[..i + 1])
    decreases |xs|
  {
    var init := xs[..|xs| - 1];
    if i < |xs| - 1 {
      RunningSumIsPrefixSum(init, i);
      assert init[..i + 1] == xs[..i + 1];
    } else {
      assert xs[..i + 1] == xs && xs[..i + 1][..i] == init;
      if i > 0 {
        RunningSumIsPrefixSum(init, i - 1);
        assert init[..i] == init;
      }
    }
  }

  /** Consecutive running sums differ by the value of the later position. */
  lemma {:induction false} RunningSumStep(xs: seq<real>, i: nat)
    requires i < |xs|
    ensures i == 0 ==> RunningSum(xs)[0] == xs[0]
    ensures i > 0 ==> RunningSum(xs)[i] - RunningSum(xs)[i - 1] == xs[i]
  {
    RunningSumIsPrefixSum(xs, i);
    var p := xs[..i + 1];
    assert p[..|p| - 1] == xs[..i] && p[|p| - 1] == xs[i];
    assert Sum(p) == Sum(xs[..i]) + xs[i];
    if i > 0 {
      RunningSumIsPrefixSum(xs, i - 1);
    } else {
      assert xs[..i] == [];
    }
  }

  /** A column of zeros sums to zeros. */
  lemma {:induction false} RunningSumOfZeros(xs: seq<real>)
    requires forall i :: 0 <= i < |xs| ==> xs[i] == 0.0
    ensures forall i :: 0 <= i < |xs| ==> RunningSum(xs)[i] == 0.0
  {
    if xs != [] {
      RunningSumOfZeros(xs[..|xs| - 1]);
    }
  }

  /** The running sum, as the loop that carries the total down the column. */
  method CumulativeSum(xs: seq<real>) returns (r: seq<real>)
    ensures r == RunningSum(xs)
  {
    r := [];
    var total := 0.0;
    var i := 0;
    while i < |xs|
      invariant 0 <= i <= |xs|
      invariant r == RunningSum(xs[..i])
      invariant total == if i == 0 then 0.0 else r[i - 1]
    {
      assert xs[..i + 1][..i] == xs[..i];
      total := total + xs[i];
      r := r + [total];
      i := i + 1;
    }
    assert xs[..i] == xs;
  }
}
