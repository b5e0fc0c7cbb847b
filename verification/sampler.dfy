/**
 * Background estimation on the proxy image: one sample point per box.
 *
 * For each box, the brightest quarter of its pixels (25 of 100) is taken
 * from the heap, their channels are averaged, and a sample is emitted at
 * the box centre carrying the luminance of the averaged colour.
 */
module Sampler {
  import opened Pixels
  import opened Selection
  import opened Averaging
  import opened Grid
  import opened Arith

  /** Size of the top quarter of `area` pixels, `int(area * 0.25)`. */
  function QuantileCount(area: nat): (n: nat)
    ensures 4 * n <= area < 4 * n + 4
  {
    area / 4
  }

  /** Number of pixels popped per box: 25 of the 100. */
  const TopCount: nat := QuantileCount(BoxWidth * BoxHeight)

  /** The averages divide by a positive count no larger than the box. */
  lemma TopCountPositive()
    ensures 0 < TopCount <= BoxWidth * BoxHeight
  {
  }

  /**
   * A point for the surface fit: the box centre in proxy coordinates and
   * 10000 times the estimated background luminance there.
   */
  datatype SamplePoint = SamplePoint(x: nat, y: nat, lum: nat)

  /** The estimated background colour of box (rb, cb). */
  function CellColour(img: Image, rb: nat, cb: nat): (c: Color)
    requires Rectangular(img)
    requires rb < GridRows(img) && cb < GridCols(img)
    ensures exists top, rest ::
      && |top| == TopCount
      && IsSelection(multiset(BoxPixels(img, rb, cb)), top, rest)
      && c == Average(top)
  {
    var r := PopN(BoxPixels(img, rb, cb), TopCount);
    Average(r.0)
  }

  /**
   * The sample of box (rb, cb). Its centre is ((cb + 0.5) * 10, (rb + 0.5) * 10),
   * written doubled so that it stays an integer.
   */
  function CellSample(img: Image, rb: nat, cb: nat): (p: SamplePoint)
    requires Rectangular(img)
    requires rb < GridRows(img) && cb < GridCols(img)
    ensures 2 * p.x == (2 * cb + 1) * BoxWidth && 2 * p.y == (2 * rb + 1) * BoxHeight
    ensures InCell(rb, cb, p.y, p.x)
    ensures p.lum == Lum(CellColour(img, rb, cb)) && p.lum <= MaxLum
  {
    SamplePoint(cb * BoxWidth + BoxWidth / 2, rb * BoxHeight + BoxHeight / 2, Lum(CellColour(img, rb, cb)))
  }

  /** Distinct boxes have distinct sample centres. */
  lemma CentresDistinct(img: Image, rb1: nat, cb1: nat, rb2: nat, cb2: nat)
    requires Rectangular(img)
    requires rb1 < GridRows(img) && cb1 < GridCols(img)
    requires rb2 < GridRows(img) && cb2 < GridCols(img)
    ensures (rb1, cb1) != (rb2, cb2) ==>
      (CellSample(img, rb1, cb1).x, CellSample(img, rb1, cb1).y) != (CellSample(img, rb2, cb2).x, CellSample(img, rb2, cb2).y)
  {
    var p1, p2 := CellSample(img, rb1, cb1), CellSample(img, rb2, cb2);
    assert p1.x == p2.x ==> cb1 == cb2;
    assert p1.y == p2.y ==> rb1 == rb2;
  }

  /** A multiplicity never exceeds the length; reaching it means every element is that value. */
  lemma {:induction false} CountAll(s: seq<Color>, x: Color)
    ensures multiset(s)[x] <= |s|
    ensures multiset(s)[x] == |s| ==> forall i :: 0 <= i < |s| ==> s[i] == x
  {
    if |s| > 0 {
      var n := |s| - 1;
      assert s == s[..n] + [s[n]];
      assert multiset(s) == multiset(s[..n]) + multiset{s[n]};
      CountAll(s[..n], x);
      if multiset(s)[x] == |s| {
        assert s[n] == x;
        assert forall i :: 0 <= i < n ==> s[..n][i] == s[i];
      }
    }
  }

  /**
   * A box in which one colour fills at least a quarter and every other pixel
   * is darker is estimated as that colour: darker ink cannot pull the
   * estimate down.
   */
  lemma CellColourIgnoresInk(img: Image, rb: nat, cb: nat, c: Color)
    requires Rectangular(img)
    requires rb < GridRows(img) && cb < GridCols(img)
    requires multiset(BoxPixels(img, rb, cb))[c] >= TopCount
    requires forall k :: 0 <= k < |BoxPixels(img, rb, cb)| ==>
      BoxPixels(img, rb, cb)[k] == c || Lum(BoxPixels(img, rb, cb)[k]) < Lum(c)
    ensures CellColour(img, rb, cb) == c
    ensures CellSample(img, rb, cb).lum == Lum(c)
  {
    var box := BoxPixels(img, rb, cb);
    var r := PopN(box, TopCount);
    var top, rest := r.0, r.1;
    forall i | 0 <= i < |top|
      ensures top[i] == c
    {
      if c in rest {
        var j :| 0 <= j < |rest| && rest[j] == c;
        assert PopsFirst(top[i], rest[j]);
        assert top[i] in multiset(box);
        PopsFirstByLuminance(top[i], c);
      } else {
        assert multiset(rest)[c] == 0;
        CountAll(top, c);
      }
    }
    AverageUniform(top, c);
  }

  /** A box of one colour is estimated as that colour. */
  lemma CellColourUniform(img: Image, rb: nat, cb: nat, c: Color)
    requires Rectangular(img)
    requires rb < GridRows(img) && cb < GridCols(img)
    requires forall r: nat, col: nat :: InCell(rb, cb, r, col) ==> img[r][col] == c
    ensures CellColour(img, rb, cb) == c
    ensures CellSample(img, rb, cb).lum == Lum(c)
  {
    var box := BoxPixels(img, rb, cb);
    BoxReadsItsCell(rb, cb);
    assert forall k :: 0 <= k < |box| ==> box[k] == c;
    assert multiset(box)[c] == |box| by {
      CountAllOf(box, c);
    }
    CellColourIgnoresInk(img, rb, cb, c);
  }

  /** A sequence holding one value throughout has that value |s| times. */
  lemma {:induction false} CountAllOf(s: seq<Color>, x: Color)
    requires forall i :: 0 <= i < |s| ==> s[i] == x
    ensures multiset(s)[x] == |s|
  {
    if |s| > 0 {
      var n := |s| - 1;
      assert s == s[..n] + [s[n]];
      CountAllOf(s[..n], x);
    }
  }

  /**
   * Pixels outside the covered part of the proxy (the remainder rows and
   * columns) have no influence on any sample.
   */
  lemma SamplesIgnoreRemainder(a: Image, b: Image, rb: nat, cb: nat)
    requires Rectangular(a) && Rectangular(b)
    requires GridRows(a) == GridRows(b) && GridCols(a) == GridCols(b)
    requires rb < GridRows(a) && cb < GridCols(a)
    requires forall r, c ::
      (&& 0 <= r < |a| && 0 <= r < |b| && 0 <= c < |a[r]| && 0 <= c < |b[r]|
       && r < GridRows(a) * BoxHeight && c < GridCols(a) * BoxWidth) ==> a[r][c] == b[r][c]
    ensures CellSample(a, rb, cb) == CellSample(b, rb, cb)
  {
    BoxReadsItsCell(rb, cb);
    forall k | 0 <= k < BoxWidth * BoxHeight
      ensures BoxPixels(a, rb, cb)[k] == BoxPixels(b, rb, cb)[k]
    {
      BoxWithinGrid(a, rb, cb, BoxRow(rb, k), BoxCol(cb, k));
      BoxWithinGrid(b, rb, cb, BoxRow(rb, k), BoxCol(cb, k));
    }
    assert BoxPixels(a, rb, cb) == BoxPixels(b, rb, cb);
  }

  /** Position of box (rb, cb) when boxes are listed row by row, `cols` to a row. */
  function ListIndex(rb: nat, cb: nat, cols: nat): nat
  {
    rb * cols + cb
  }

  /** Box row of the box listed at position k. */
  function ListedRow(k: nat, cols: nat): nat
    requires cols > 0
  {
    k / cols
  }

  /** Box column of the box listed at position k. */
  function ListedCol(k: nat, cols: nat): nat
    requires cols > 0
  {
    k % cols
  }

  /** Row-major listing puts each box of a rows x cols grid at its own position. */
  lemma RowMajor(rb: nat, cb: nat, rows: nat, cols: nat)
    requires rb < rows && cb < cols
    ensures ListIndex(rb, cb, cols) < rows * cols
    ensures ListedRow(ListIndex(rb, cb, cols), cols) == rb
    ensures ListedCol(ListIndex(rb, cb, cols), cols) == cb
  {
    var k := rb * cols + cb;
    assert ListIndex(rb, cb, cols) == k;
    MulSucc(cols, rb);
    MulMonotone(rb + 1, rows, cols);
    DivModUnique(rb, cb, cols);
    assert ListedRow(k, cols) == k / cols;
    assert ListedCol(k, cols) == k % cols;
  }

  /** The position after a full row is the start of the next row. */
  lemma RowMajorNextRow(rb: nat, cols: nat)
    ensures ListIndex(rb, cols, cols) == ListIndex(rb + 1, 0, cols)
    ensures ListIndex(rb, 0, cols) == rb * cols
  {
    MulSucc(cols, rb);
  }

  /** Position k of the row-major listing names a box of the grid. */
  predicate ListsBox(img: Image, k: nat)
  {
    GridCols(img) > 0 && ListedRow(k, GridCols(img)) < GridRows(img)
  }

  /** A row-major listing of samples, looked up by box. */
  lemma ListingByBox(img: Image, pts: seq<SamplePoint>)
    requires Rectangular(img)
    requires |pts| == GridRows(img) * GridCols(img)
    requires forall k :: 0 <= k < |pts| ==>
      ListsBox(img, k) && pts[k] == CellSample(img, ListedRow(k, GridCols(img)), ListedCol(k, GridCols(img)))
    ensures forall rb, cb :: 0 <= rb < GridRows(img) && 0 <= cb < GridCols(img) ==>
      ListIndex(rb, cb, GridCols(img)) < |pts| && pts[ListIndex(rb, cb, GridCols(img))] == CellSample(img, rb, cb)
  {
    forall rb, cb | 0 <= rb < GridRows(img) && 0 <= cb < GridCols(img)
      ensures ListIndex(rb, cb, GridCols(img)) < |pts|
      ensures pts[ListIndex(rb, cb, GridCols(img))] == CellSample(img, rb, cb)
    {
      RowMajor(rb, cb, GridRows(img), GridCols(img));
    }
  }

  /**
   * The box loop: boxes are visited row by row and each appends one sample,
   * so the sample of box (rb, cb) sits at position rb * cols + cb.
   */
  method SamplePoints(img: Image) returns (pts: seq<SamplePoint>)
    requires Rectangular(img)
    ensures |pts| == GridRows(img) * GridCols(img)
    ensures forall rb, cb :: 0 <= rb < GridRows(img) && 0 <= cb < GridCols(img) ==>
      ListIndex(rb, cb, GridCols(img)) < |pts| && pts[ListIndex(rb, cb, GridCols(img))] == CellSample(img, rb, cb)
  {
    var rows, cols := GridRows(img), GridCols(img);
    pts := [];
    var rb := 0;
    while rb < rows
      invariant 0 <= rb <= rows
      invariant |pts| == ListIndex(rb, 0, cols)
      invariant forall k :: 0 <= k < |pts| ==>
        ListsBox(img, k) && pts[k] == CellSample(img, ListedRow(k, cols), ListedCol(k, cols))
    {
      var cb := 0;
      while cb < cols
        invariant 0 <= cb <= cols
        invariant |pts| == ListIndex(rb, cb, cols)
        invariant forall k :: 0 <= k < |pts| ==>
          ListsBox(img, k) && pts[k] == CellSample(img, ListedRow(k, cols), ListedCol(k, cols))
      {
        RowMajor(rb, cb, rows, cols);
        pts := pts + [CellSample(img, rb, cb)];
        cb := cb + 1;
      }
      RowMajorNextRow(rb, cols);
      rb := rb + 1;
    }
    RowMajorNextRow(rows, cols);
    ListingByBox(img, pts);
  }
}
