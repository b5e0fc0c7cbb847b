/**
 * The box grid laid over the proxy image.
 *
 * The proxy is cut into 10 x 10 boxes, `height / 10` rows of them and
 * `width / 10` columns. Rows and columns left over at the bottom and right
 * edge belong to no box and are never read.
 */
module Grid {
  import opened Pixels

  const BoxWidth: nat := 10
  const BoxHeight: nat := 10

  /** An image as a list of rows of pixels. */
  type Image = seq<seq<Color>>

  function Height(img: Image): nat
  {
    |img|
  }

  /** Width as the script reads it, from the first row. */
  function Width(img: Image): nat
  {
    if |img| == 0 then 0 else |img[0]|
  }

  /** Every row has the same length, as in an image array. */
  predicate Rectangular(img: Image)
  {
    forall i :: 0 <= i < |img| ==> |img[i]| == Width(img)
  }

  function GridRows(img: Image): nat
  {
    Height(img) / BoxHeight
  }

  function GridCols(img: Image): nat
  {
    Width(img) / BoxWidth
  }

  /** Pixel (r, c) lies inside box (rb, cb). */
  predicate InCell(rb: nat, cb: nat, r: nat, c: nat)
  {
    rb * BoxHeight <= r < (rb + 1) * BoxHeight && cb * BoxWidth <= c < (cb + 1) * BoxWidth
  }

  /** Row of the k-th pixel of box row `rb`, the box being read row by row. */
  function BoxRow(rb: nat, k: nat): nat
  {
    rb * BoxHeight + k / BoxWidth
  }

  /** Column of the k-th pixel of box column `cb`. */
  function BoxCol(cb: nat, k: nat): nat
  {
    cb * BoxWidth + k % BoxWidth
  }

  /** Reading position of pixel (r, c) within its box. */
  function CellIndex(rb: nat, cb: nat, r: nat, c: nat): nat
    requires InCell(rb, cb, r, c)
  {
    (r - rb * BoxHeight) * BoxWidth + (c - cb * BoxWidth)
  }

  /**
   * Reading positions 0 .. 99 of a box visit exactly the pixels inside it,
   * each once.
   */
  lemma BoxReadsItsCell(rb: nat, cb: nat)
    ensures forall k :: 0 <= k < BoxWidth * BoxHeight ==> InCell(rb, cb, BoxRow(rb, k), BoxCol(cb, k))
    ensures forall r, c :: InCell(rb, cb, r, c) ==>
      && CellIndex(rb, cb, r, c) < BoxWidth * BoxHeight
      && BoxRow(rb, CellIndex(rb, cb, r, c)) == r
      && BoxCol(cb, CellIndex(rb, cb, r, c)) == c
  {
  }

  /** Every pixel belongs to the box found by dividing its coordinates by 10. */
  lemma CellOfPixel(rb: nat, cb: nat, r: nat, c: nat)
    ensures InCell(rb, cb, r, c) <==> rb == r / BoxHeight && cb == c / BoxWidth
  {
  }

  /**
   * A box of the grid lies within the covered part of the image, which lies
   * within the image.
   */
  lemma BoxWithinGrid(img: Image, rb: nat, cb: nat, r: nat, c: nat)
    requires rb < GridRows(img) && cb < GridCols(img)
    requires InCell(rb, cb, r, c)
    ensures r < GridRows(img) * BoxHeight <= Height(img)
    ensures c < GridCols(img) * BoxWidth <= Width(img)
  {
  }

  /** The pixels of box (rb, cb), in the order they are pushed onto the heap. */
  function BoxPixels(img: Image, rb: nat, cb: nat): (box: seq<Color>)
    requires Rectangular(img)
    requires rb < GridRows(img) && cb < GridCols(img)
    ensures |box| == BoxWidth * BoxHeight
    ensures forall r: nat, c: nat :: InCell(rb, cb, r, c) ==>
      r < Height(img) && c < |img[r]| && box[CellIndex(rb, cb, r, c)] == img[r][c]
  {
    BoxReadsItsCell(rb, cb);
    seq(BoxWidth * BoxHeight, k requires 0 <= k < BoxWidth * BoxHeight =>
      BoxWithinGrid(img, rb, cb, BoxRow(rb, k), BoxCol(cb, k));
      img[BoxRow(rb, k)][BoxCol(cb, k)])
  }
}
