/**
 * Size of the reduced proxy image on which the background is estimated.
 *
 * The longer side of the photo becomes 150 pixels and the shorter side is
 * scaled in proportion and truncated. Sizes are in PIL order, (width, height).
 */
module Proxy {
  import opened Wrappers
  import opened Arith

  const MaxProxyDim: nat := 150

  datatype Size = Size(w: nat, h: nat)

  /**
   * The shorter side scaled so that the longer side becomes 150, truncated
   * towards zero.
   */
  function ScaleSide(long: nat, short: nat): (s: nat)
    requires short <= long && long > 0
    ensures s * long <= MaxProxyDim * short < (s + 1) * long
    ensures s <= MaxProxyDim
    ensures s == 0 <==> MaxProxyDim * short < long
  {
    var q := MaxProxyDim * short / long;
    DivFloor(MaxProxyDim * short, long);
    DivZero(MaxProxyDim * short, long);
    q
  }

  /**
   * The proxy size for a photo of the given dimensions. The only failure is
   * the division by a zero height when both dimensions are zero.
   */
  function ProxySize(width: nat, height: nat): (r: Option<Size>)
    ensures r.None? <==> width == 0 && height == 0
    ensures r.Some? && width > height ==>
      && r.value.w == MaxProxyDim
      && r.value.h * width <= MaxProxyDim * height < (r.value.h + 1) * width
    ensures r.Some? && width <= height ==>
      && r.value.h == MaxProxyDim
      && r.value.w * height <= MaxProxyDim * width < (r.value.w + 1) * height
    ensures r.Some? ==> r.value.w <= MaxProxyDim && r.value.h <= MaxProxyDim
  {
    if width > height then
      Some(Size(MaxProxyDim, ScaleSide(width, height)))
    else if height == 0 then
      None
    else
      Some(Size(ScaleSide(height, width), MaxProxyDim))
  }

  /**
   * The shorter proxy side truncates to zero exactly when the photo is more
   * than 150 times longer than it is wide (or the other way round).
   */
  lemma {:induction false} ProxyDegenerate(width: nat, height: nat)
    requires width > 0 || height > 0
    ensures ProxySize(width, height).value.h == 0 <==> MaxProxyDim * height < width
    ensures ProxySize(width, height).value.w == 0 <==> MaxProxyDim * width < height
  {
    if width > height {
      assert !(MaxProxyDim * width < height);
    } else {
      assert !(MaxProxyDim * height < width);
    }
  }

  /** A square photo gives a square 150 x 150 proxy. */
  lemma ProxySquare(side: nat)
    requires side > 0
    ensures ProxySize(side, side) == Some(Size(MaxProxyDim, MaxProxyDim))
  {
  }
}
