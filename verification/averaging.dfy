/**
 * Channel-wise integer average of the colours selected from a box. The
 * channel values are small integers, so Python 2's `/` on them is floor
 * division.
 */
module Averaging {
  import opened Pixels
  import opened Arith

  /** Sum of one channel over a list of colours. */
  function Sum(s: seq<Color>, ch: Chan): (t: nat)
    ensures t <= MaxChannel * |s|
  {
    if |s| == 0 then 0 else Sum(s[..|s| - 1], ch) + Get(s[|s| - 1], ch)
  }

  /** A channel sum lies between `|s|` times the smallest and largest value. */
  lemma {:induction false} SumBetween(s: seq<Color>, ch: Chan, lo: Channel, hi: Channel)
    requires forall i :: 0 <= i < |s| ==> lo <= Get(s[i], ch) <= hi
    ensures lo * |s| <= Sum(s, ch) <= hi * |s|
  {
    if |s| > 0 {
      var n := |s| - 1;
      var init := s[..n];
      assert forall i :: 0 <= i < n ==> init[i] == s[i];
      SumBetween(init, ch, lo, hi);
      MulSucc(lo, n);
      MulSucc(hi, n);
    }
  }

  /** Floor of the mean of one channel. */
  function Mean(s: seq<Color>, ch: Chan): (m: Channel)
    requires |s| > 0
    ensures m * |s| <= Sum(s, ch) < (m + 1) * |s|
  {
    DivFloor(Sum(s, ch), |s|);
    DivBelow(Sum(s, ch), |s|, MaxChannel + 1);
    Sum(s, ch) / |s|
  }

  /** The colour whose channels are the truncated means of the given colours. */
  function Average(s: seq<Color>): (a: Color)
    requires |s| > 0
    ensures forall ch: Chan :: Get(a, ch) * |s| <= Sum(s, ch) < (Get(a, ch) + 1) * |s|
  {
    RGB(Mean(s, Red), Mean(s, Green), Mean(s, Blue))
  }

  /** Each averaged channel lies between the least and greatest value averaged. */
  lemma AverageBetween(s: seq<Color>, ch: Chan, lo: Channel, hi: Channel)
    requires |s| > 0
    requires forall i :: 0 <= i < |s| ==> lo <= Get(s[i], ch) <= hi
    ensures lo <= Get(Average(s), ch) <= hi
  {
    SumBetween(s, ch, lo, hi);
    assert Get(Average(s), ch) == Sum(s, ch) / |s|;
    DivAtLeast(Sum(s, ch), |s|, lo);
    assert hi * |s| < (hi + 1) * |s|;
    DivBelow(Sum(s, ch), |s|, hi + 1);
  }

  /** Averaging copies of one colour gives that colour back. */
  lemma AverageUniform(s: seq<Color>, c: Color)
    requires |s| > 0
    requires forall i :: 0 <= i < |s| ==> s[i] == c
    ensures Average(s) == c
  {
    AverageBetween(s, Red, c.r, c.r);
    AverageBetween(s, Green, c.g, c.g);
    AverageBetween(s, Blue, c.b, c.b);
  }
}
