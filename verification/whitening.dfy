/**
 * Uniform whitening of the full-resolution photo against the background
 * field: a channel at or above its background becomes 255, a darker one is
 * scaled by 255 / background and truncated on storage into the 8-bit image.
 */
module Whitening {
  import opened Pixels
  import opened Grid
  import opened Arith

  /** One channel whitened against its background value. */
  function WhitenChannel(v: Channel, bg: Channel): (w: Channel)
    ensures w == MaxChannel <==> v >= bg
    ensures v < bg ==> w * bg <= v * MaxChannel < (w + 1) * bg
  {
    if v < bg then
      var q := v * MaxChannel / bg;
      DivFloor(v * MaxChannel, bg);
      assert v * MaxChannel < MaxChannel * bg;
      DivBelow(v * MaxChannel, bg, MaxChannel);
      assert q < MaxChannel;
      q
    else
      MaxChannel
  }

  /** Whitening never darkens a channel. */
  lemma WhitenNeverDarkens(v: Channel, bg: Channel)
    ensures WhitenChannel(v, bg) >= v
  {
    if v < bg {
      MulMonotone(bg, MaxChannel, v);
      DivAtLeast(v * MaxChannel, bg, v);
    }
  }

  /** Whitening keeps the order of channel values under one background. */
  lemma WhitenMonotone(v1: Channel, v2: Channel, bg: Channel)
    requires v1 <= v2
    ensures WhitenChannel(v1, bg) <= WhitenChannel(v2, bg)
  {
    if v2 < bg {
      DivMonotone(v1 * MaxChannel, v2 * MaxChannel, bg);
    }
  }

  /** A brighter background estimate never gives a brighter result. */
  lemma WhitenBrighterBackground(v: Channel, bg1: Channel, bg2: Channel)
    requires bg1 <= bg2
    ensures WhitenChannel(v, bg2) <= WhitenChannel(v, bg1)
  {
    if v < bg1 {
      DivAntitone(v * MaxChannel, bg1, bg2);
    }
  }

  /** Full black stays black, except against a zero background where it turns white. */
  lemma WhitenBlack(bg: Channel)
    ensures WhitenChannel(0, bg) == 0 <==> bg > 0
    ensures bg == 0 ==> WhitenChannel(0, bg) == MaxChannel
  {
  }

  /** One pixel whitened, each channel against its own background channel. */
  function WhitenPixel(p: Color, bg: Color): (w: Color)
    ensures forall ch: Chan :: Get(w, ch) == WhitenChannel(Get(p, ch), Get(bg, ch))
    ensures w == White <==> forall ch: Chan :: Get(p, ch) >= Get(bg, ch)
  {
    var w := RGB(WhitenChannel(p.r, bg.r), WhitenChannel(p.g, bg.g), WhitenChannel(p.b, bg.b));
    assert Get(w, Red) == w.r && Get(w, Green) == w.g && Get(w, Blue) == w.b;
    w
  }

  /** The background field reaches every pixel of the photo. */
  predicate Covers(bg: Image, photo: Image)
  {
    && Rectangular(photo) && Rectangular(bg)
    && Height(bg) >= Height(photo) && Width(bg) >= Width(photo)
  }

  /**
   * The whitening loop: pixels row by row, and within a pixel the red, green
   * and blue channels one after the other, each assignment reading only its
   * own channel.
   */
  method WhitenImage(photo: Image, bg: Image) returns (out: Image)
    requires Covers(bg, photo)
    ensures |out| == |photo|
    ensures forall i :: 0 <= i < |out| ==> |out[i]| == |photo[i]|
    ensures forall i, j :: 0 <= i < |out| && 0 <= j < |out[i]| ==>
      out[i][j] == WhitenPixel(photo[i][j], bg[i][j])
  {
    out := photo;
    var row := 0;
    while row < Height(photo)
      invariant 0 <= row <= |photo| && |out| == |photo|
      invariant forall i :: 0 <= i < |out| ==> |out[i]| == |photo[i]|
      invariant forall i, j :: 0 <= i < row && 0 <= j < |out[i]| ==>
        out[i][j] == WhitenPixel(photo[i][j], bg[i][j])
      invariant forall i :: row <= i < |out| ==> out[i] == photo[i]
    {
      var col := 0;
      while col < Width(photo)
        invariant 0 <= col <= Width(photo) && |out| == |photo|
        invariant forall i :: 0 <= i < |out| ==> |out[i]| == |photo[i]|
        invariant forall i, j :: 0 <= i < row && 0 <= j < |out[i]| ==>
          out[i][j] == WhitenPixel(photo[i][j], bg[i][j])
        invariant forall j :: 0 <= j < col ==> out[row][j] == WhitenPixel(photo[row][j], bg[row][j])
        invariant forall j :: col <= j < |out[row]| ==> out[row][j] == photo[row][j]
        invariant forall i :: row < i < |out| ==> out[i] == photo[i]
      {
        var p := out[row][col];
        var q := bg[row][col];
        p := p.(r := WhitenChannel(p.r, q.r));
        p := p.(g := WhitenChannel(p.g, q.g));
        p := p.(b := WhitenChannel(p.b, q.b));
        out := out[row := out[row][col := p]];
        col := col + 1;
      }
      row := row + 1;
    }
  }
}
