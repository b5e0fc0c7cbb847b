/**
 * Top-quantile selection within one box.
 *
 * Every pixel of a box is pushed onto a binary min-heap as the entry
 * (255 - lum, (R, G, B)); popping then yields the brightest colour first,
 * with ties of luminance broken by the smaller colour tuple. The heap is
 * modelled by its contents: a pop removes a least entry. Because entries
 * that compare equal carry the same colour, the popped sequence does not
 * depend on how the heap is laid out (see SelectionUnique).
 */
module Selection {
  import opened Pixels

  /** First component of a heap entry: 10000 * (255 - lum). */
  function HeapKey(c: Color): int
  {
    MaxLum - Lum(c)
  }

  /** Lexicographic order on (R, G, B) tuples. */
  predicate ColourLess(a: Color, b: Color)
  {
    a.r < b.r || (a.r == b.r && (a.g < b.g || (a.g == b.g && a.b < b.b)))
  }

  /** The heap entry of `a` is strictly smaller than that of `b`. */
  predicate EntryLess(a: Color, b: Color)
  {
    HeapKey(a) < HeapKey(b) || (HeapKey(a) == HeapKey(b) && ColourLess(a, b))
  }

  /** `a` is popped no later than `b`. */
  predicate PopsFirst(a: Color, b: Color)
  {
    a == b || EntryLess(a, b)
  }

  /** Popping order is a total order on colours. */
  lemma PopsFirstTotalOrder(a: Color, b: Color, c: Color)
    ensures PopsFirst(a, b) || PopsFirst(b, a)
    ensures PopsFirst(a, b) && PopsFirst(b, a) ==> a == b
    ensures PopsFirst(a, b) && PopsFirst(b, c) ==> PopsFirst(a, c)
  {
  }

  /** Popping order agrees with luminance: brighter first, ties by colour. */
  lemma PopsFirstByLuminance(a: Color, b: Color)
    ensures PopsFirst(a, b) ==> Lum(a) >= Lum(b)
    ensures Lum(a) > Lum(b) ==> PopsFirst(a, b) && a != b
    ensures Lum(a) == Lum(b) ==> (PopsFirst(a, b) <==> a == b || ColourLess(a, b))
  {
  }

  /** Every pair of a sequence appears in popping order. */
  ghost predicate InPopOrder(s: seq<Color>)
  {
    forall i, j :: 0 <= i < j < |s| ==> PopsFirst(s[i], s[j])
  }

  /** Every colour of `top` is popped no later than every colour of `rest`. */
  ghost predicate Dominates(top: seq<Color>, rest: seq<Color>)
  {
    forall i, j :: 0 <= i < |top| && 0 <= j < |rest| ==> PopsFirst(top[i], rest[j])
  }

  /**
   * `top` is a valid outcome of popping |top| entries from a heap holding
   * `pool`, leaving `rest` behind.
   */
  ghost predicate IsSelection(pool: multiset<Color>, top: seq<Color>, rest: seq<Color>)
  {
    && multiset(top) + multiset(rest) == pool
    && InPopOrder(top)
    && Dominates(top, rest)
  }

  /** Position of a least heap entry (the one `heappop` returns). */
  function BestIndex(heap: seq<Color>): (i: nat)
    requires |heap| > 0
    ensures i < |heap|
    ensures forall j :: 0 <= j < |heap| ==> PopsFirst(heap[i], heap[j])
  {
    if |heap| == 1 then 0
    else
      var k := 1 + BestIndex(heap[1..]);
      assert forall j :: 1 <= j < |heap| ==> heap[j] == heap[1..][j - 1];
      if PopsFirst(heap[0], heap[k]) then 0 else k
  }

  /** One `heappop`: the least entry, and the heap contents left behind. */
  function Pop(heap: seq<Color>): (r: (Color, seq<Color>))
    requires |heap| > 0
    ensures |r.1| == |heap| - 1
    ensures multiset{r.0} + multiset(r.1) == multiset(heap)
    ensures forall x :: x in r.1 ==> PopsFirst(r.0, x)
  {
    var i := BestIndex(heap);
    var rest := heap[..i] + heap[i + 1..];
    assert heap == heap[..i] + [heap[i]] + heap[i + 1..];
    assert forall j :: 0 <= j < |rest| ==> rest[j] == heap[if j < i then j else j + 1];
    (heap[i], rest)
  }

  /** `n` successive pops: the popped colours in order, and what is left. */
  function PopN(heap: seq<Color>, n: nat): (r: (seq<Color>, seq<Color>))
    requires n <= |heap|
    ensures |r.0| == n && |r.1| == |heap| - n
    ensures IsSelection(multiset(heap), r.0, r.1)
    decreases n
  {
    if n == 0 then ([], heap)
    else
      var (c, left) := Pop(heap);
      var (top, rest) := PopN(left, n - 1);
      ConsSelection(multiset(heap), c, left, top, rest);
      ([c] + top, rest)
  }

  /** Putting a least entry in front of a selection from the rest of the heap. */
  lemma ConsSelection(pool: multiset<Color>, c: Color, left: seq<Color>, top: seq<Color>, rest: seq<Color>)
    requires multiset{c} + multiset(left) == pool
    requires forall x :: x in left ==> PopsFirst(c, x)
    requires IsSelection(multiset(left), top, rest)
    ensures IsSelection(pool, [c] + top, rest)
  {
    assert forall x :: x in top ==> x in multiset(left);
    assert forall x :: x in rest ==> x in multiset(left);
    ConsInPopOrder(c, top);
    ConsDominates(c, top, rest);
    assert multiset([c] + top) == multiset{c} + multiset(top);
  }

  lemma ConsInPopOrder(c: Color, top: seq<Color>)
    requires InPopOrder(top)
    requires forall x :: x in top ==> PopsFirst(c, x)
    ensures InPopOrder([c] + top)
  {
    var t := [c] + top;
    forall i, j | 0 <= i < j < |t|
      ensures PopsFirst(t[i], t[j])
    {
      assert t[j] == top[j - 1];
      if i > 0 {
        assert t[i] == top[i - 1];
      }
    }
  }

  lemma ConsDominates(c: Color, top: seq<Color>, rest: seq<Color>)
    requires Dominates(top, rest)
    requires forall x :: x in rest ==> PopsFirst(c, x)
    ensures Dominates([c] + top, rest)
  {
    var t := [c] + top;
    forall i, j | 0 <= i < |t| && 0 <= j < |rest|
      ensures PopsFirst(t[i], rest[j])
    {
      if i > 0 {
        assert t[i] == top[i - 1];
      }
    }
  }

  /** The first popped colour precedes everything that was in the heap. */
  lemma HeadIsLeast(pool: multiset<Color>, top: seq<Color>, rest: seq<Color>, x: Color)
    requires IsSelection(pool, top, rest) && |top| > 0
    requires x in pool
    ensures PopsFirst(top[0], x)
  {
    assert x in multiset(top) || x in multiset(rest);
    if x in top {
      var i :| 0 <= i < |top| && top[i] == x;
      assert i == 0 || PopsFirst(top[0], top[i]);
    } else {
      var j :| 0 <= j < |rest| && rest[j] == x;
      assert PopsFirst(top[0], rest[j]);
    }
  }

  /** Dropping the first popped colour leaves a selection from the smaller heap. */
  lemma TailSelection(pool: multiset<Color>, top: seq<Color>, rest: seq<Color>)
    requires IsSelection(pool, top, rest) && |top| > 0
    ensures IsSelection(pool - multiset{top[0]}, top[1..], rest)
  {
    assert top == [top[0]] + top[1..];
    assert multiset(top) == multiset{top[0]} + multiset(top[1..]);
    var t := top[1..];
    assert forall i :: 0 <= i < |t| ==> t[i] == top[i + 1];
  }

  /**
   * Whatever the heap layout, popping the same number of entries from the
   * same contents yields the same colours in the same order, and leaves the
   * same contents behind.
   */
  lemma {:induction false} SelectionUnique(pool: multiset<Color>, t1: seq<Color>, r1: seq<Color>, t2: seq<Color>, r2: seq<Color>)
    requires IsSelection(pool, t1, r1) && IsSelection(pool, t2, r2)
    requires |t1| == |t2|
    ensures t1 == t2
    ensures multiset(r1) == multiset(r2)
    decreases |t1|
  {
    if |t1| > 0 {
      assert t1[0] in multiset(t1) && t2[0] in multiset(t2);
      HeadIsLeast(pool, t1, r1, t2[0]);
      HeadIsLeast(pool, t2, r2, t1[0]);
      PopsFirstTotalOrder(t1[0], t2[0], t2[0]);
      TailSelection(pool, t1, r1);
      TailSelection(pool, t2, r2);
      SelectionUnique(pool - multiset{t1[0]}, t1[1..], r1, t2[1..], r2);
      assert t1 == [t1[0]] + t1[1..] && t2 == [t2[0]] + t2[1..];
    } else {
      assert t1 == [] && t2 == [];
      assert multiset(r1) == multiset(t1) + multiset(r1) == pool;
      assert multiset(r2) == multiset(t2) + multiset(r2) == pool;
    }
  }

  /**
   * Popped colours come out in non-increasing luminance, equal luminances in
   * ascending colour order, and none is darker than a colour left behind.
   */
  lemma SelectionIsBrightest(pool: multiset<Color>, top: seq<Color>, rest: seq<Color>)
    requires IsSelection(pool, top, rest)
    ensures forall i, j :: 0 <= i < j < |top| ==> Lum(top[i]) >= Lum(top[j])
    ensures forall i, j :: 0 <= i < j < |top| && Lum(top[i]) == Lum(top[j]) ==>
      top[i] == top[j] || ColourLess(top[i], top[j])
    ensures forall i, j :: 0 <= i < |top| && 0 <= j < |rest| ==> Lum(top[i]) >= Lum(rest[j])
  {
  }

  /** One `heappop`, by a linear scan for a least entry. */
  method PopLeast(heap: seq<Color>) returns (c: Color, left: seq<Color>)
    requires |heap| > 0
    ensures |left| == |heap| - 1
    ensures multiset{c} + multiset(left) == multiset(heap)
    ensures forall x :: x in left ==> PopsFirst(c, x)
  {
    var best := 0;
    var k := 1;
    while k < |heap|
      invariant 0 <= best < |heap| && 1 <= k <= |heap|
      invariant forall j :: 0 <= j < k ==> PopsFirst(heap[best], heap[j])
    {
      if EntryLess(heap[k], heap[best]) {
        best := k;
      }
      k := k + 1;
    }
    c := heap[best];
    left := heap[..best] + heap[best + 1..];
    assert heap == heap[..best] + [heap[best]] + heap[best + 1..];
    assert forall j :: 0 <= j < |left| ==> left[j] == heap[if j < best then j else j + 1];
  }

  /** Pops `n` colours from a heap holding `box`, as the list comprehension does. */
  method PopTop(box: seq<Color>, n: nat) returns (top: seq<Color>)
    requires n <= |box|
    ensures top == PopN(box, n).0
  {
    top := [];
    var heap := box;
    var i := 0;
    while i < n
      invariant 0 <= i <= n && |top| == i && |heap| == |box| - i
      invariant IsSelection(multiset(box), top, heap)
    {
      var c, left := PopLeast(heap);
      AppendSelection(multiset(box), top, heap, c, left);
      top := top + [c];
      heap := left;
      i := i + 1;
    }
    var r := PopN(box, n);
    SelectionUnique(multiset(box), top, heap, r.0, r.1);
  }

  /** Appending the next least entry of the remaining heap extends a selection. */
  lemma AppendSelection(pool: multiset<Color>, top: seq<Color>, heap: seq<Color>, c: Color, left: seq<Color>)
    requires IsSelection(pool, top, heap)
    requires multiset{c} + multiset(left) == multiset(heap)
    requires forall x :: x in left ==> PopsFirst(c, x)
    ensures IsSelection(pool, top + [c], left)
  {
    var t := top + [c];
    assert multiset(t) == multiset(top) + multiset{c};
    assert c in multiset(heap);
    assert forall x :: x in left ==> x in multiset(heap);
    forall i, j | 0 <= i < j < |t|
      ensures PopsFirst(t[i], t[j])
    {
      if j == |top| {
        assert c in heap;
      }
    }
    forall i, j | 0 <= i < |t| && 0 <= j < |left|
      ensures PopsFirst(t[i], left[j])
    {
      assert left[j] in left;
      if i < |top| {
        assert left[j] in heap;
      }
    }
  }
}
