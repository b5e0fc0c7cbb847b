/**
 * The estimation front end: proxy size, resize, and the box samples.
 *
 * Resizing is a collaborator this model does not see; it is a parameter
 * assumed to return an image array of the requested (width, height).
 */
module Pipeline {
  import opened Wrappers
  import opened Grid
  import opened Proxy
  import opened Sampler
  import opened Arith

  /** What the resize collaborator delivers: an image array of the requested size. */
  ghost predicate ResizesTo(resize: (Image, Size) -> Image)
  {
    forall img: Image, s: Size :: Rectangular(resize(img, s)) && Height(resize(img, s)) == s.h
      && (s.h > 0 ==> Width(resize(img, s)) == s.w)
  }

  /**
   * Samples of the background estimated from a photo. Fails where the script
   * would index the first row of an image with no rows: the photo itself, or
   * a proxy whose height truncated to zero.
   */
  method EstimateSamples(photo: Image, resize: (Image, Size) -> Image) returns (r: Option<seq<SamplePoint>>)
    requires Rectangular(photo)
    requires ResizesTo(resize)
    ensures r.None? <==> Height(photo) == 0 || MaxProxyDim * Height(photo) < Width(photo)
    ensures r.Some? ==> |r.value| <= (MaxProxyDim / BoxHeight) * (MaxProxyDim / BoxWidth)
    ensures r.Some? ==>
      var smaller := resize(photo, ProxySize(Width(photo), Height(photo)).value);
      && |r.value| == GridRows(smaller) * GridCols(smaller)
      && forall rb, cb :: 0 <= rb < GridRows(smaller) && 0 <= cb < GridCols(smaller) ==>
        ListIndex(rb, cb, GridCols(smaller)) < |r.value|
        && r.value[ListIndex(rb, cb, GridCols(smaller))] == CellSample(smaller, rb, cb)
  {
    if Height(photo) == 0 {
      return None;
    }
    var size := ProxySize(Width(photo), Height(photo));
    ProxyDegenerate(Width(photo), Height(photo));
    var smaller := resize(photo, size.value);
    if Height(smaller) == 0 {
      return None;
    }
    var pts := SamplePoints(smaller);
    DivMonotone(Height(smaller), MaxProxyDim, BoxHeight);
    DivMonotone(Width(smaller), MaxProxyDim, BoxWidth);
    MulMonotone(GridRows(smaller), MaxProxyDim / BoxHeight, GridCols(smaller));
    MulMonotone(GridCols(smaller), MaxProxyDim / BoxWidth, MaxProxyDim / BoxHeight);
    r := Some(pts);
  }
}
