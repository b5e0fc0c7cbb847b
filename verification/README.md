# Whiteboard cleaner: background estimation and whitening, in Dafny

This project models the integer and combinatorial core of `cleaner.py`, a
script that removes the uneven paper or whiteboard background from a photo
of a document. The script works in stages:

1. It shrinks the photo to a proxy whose longer side is 150 pixels.
2. It cuts the proxy into 10 x 10 boxes. In each box it pushes every pixel
   onto a min-heap keyed on `(255 - luminance, colour)` and pops the 25
   brightest. It averages their channels with integer division and emits one
   sample point at the box centre. The sample carries the luminance of that
   averaged colour.
3. It fits a surface through the samples. The fitted surface becomes the
   background field.
4. It whitens every photo channel against the background field.

Stage 3 and the final tone curve are outside this model (see "Left out").

Modules, one per concern:

- `Pixels`: colours with 8-bit channels, luminance and the `below255` clamp.
  The script defines `below255` but never calls it; it is modelled for
  completeness and plays no part in the pipeline.
  Luminance is kept as the exact integer `2126 R + 7152 G + 722 B`, which is
  10000 times the BT.709 weighted sum. Ordering by this integer is the
  source's float ordering, except possibly at float-rounding ties.
- `Proxy`: the proxy size in PIL `(width, height)` order.
- `Grid`: the box grid over the proxy, and which pixels each box reads.
- `Selection`: the heap pops. Each pop removes a least heap entry.
  `SelectionUnique` shows that the popped sequence does not depend on the
  heap's layout. `PopTop` is a loop implementation of it, proved equal to
  the functional `PopN`.
- `Averaging`: channel sums and truncated means.
- `Sampler`: the estimated colour per box, the sample point, and the box
  loop.
- `Whitening`: the per-channel whitening rule and the whitening loop.
- `Pipeline`: the proxy size, the resize and the sampling, composed. The
  resize is a function parameter.
- `Arith` and `Wrappers` are helpers: facts about floor division, and
  `Option`.

Two details follow the code rather than the algorithm as it is usually
described:

- The shorter proxy side is truncated by `int(...)`, not rounded.
- Whitening needs no epsilon guard. The division happens only when
  `background > value >= 0`, so the divisor is at least 1. A background of
  0 gives white.

## Model

| member | source | states |
|---|---|---|
| Pixels.Lum | cleaner.py:31-33 | luminance of an 8-bit colour lies in [0, 255·10000]; it is 0 exactly for black and maximal exactly for white |
| Pixels.LumGray | cleaner.py:31-33 | a grey (v, v, v) has luminance v, because the weights sum to 1 |
| Pixels.LumMonotone | cleaner.py:31-33 | brightening channels never lowers luminance; luminance stays equal only if the colour is unchanged |
| Pixels.Below255 | cleaner.py:35-36 | the clamp never exceeds 255, and it returns its argument whenever that is at most 255 (the script never calls it) |
| Pixels.Below255Idempotent | cleaner.py:35-36 | clamping is idempotent and keeps order |
| Proxy.ScaleSide | cleaner.py:63 | the scaled shorter side is the floor of 150·short/long, at most 150, and 0 exactly when 150·short < long |
| Proxy.ProxySize | cleaner.py:62-65 | a wider photo gives width 150 and height ⌊150·h/w⌋; otherwise height 150 and width ⌊150·w/h⌋; both sides are at most 150; the only failure is division by zero when both sides are 0 |
| Proxy.ProxyDegenerate | cleaner.py:62-65 | a proxy side truncates to 0 exactly when the photo is more than 150 times longer in the other direction |
| Proxy.ProxySquare | cleaner.py:64-65 | a square photo gives a 150 x 150 proxy |
| Grid.BoxPixels | cleaner.py:88 | box (rb, cb) holds 100 pixels; every pixel of its 10 x 10 cell lies inside the image and appears at its row-major position within the cell |
| Grid.BoxReadsItsCell | cleaner.py:88 | the 100 reading positions of a box visit exactly the pixels inside its 10 x 10 cell, each once |
| Grid.CellOfPixel | cleaner.py:85-88 | a pixel lies in box (rb, cb) if and only if rb = r/10 and cb = c/10, so boxes do not overlap |
| Grid.BoxWithinGrid | cleaner.py:85-88 | every pixel a grid box reads has r < (h/10)·10 ≤ h and c < (w/10)·10 ≤ w |
| Selection.PopsFirstTotalOrder | cleaner.py:96 | heap entries (255 - lum, colour) order colours totally: total, antisymmetric, transitive |
| Selection.PopsFirstByLuminance | cleaner.py:96 | popping order is brightest first, and equal luminances come out in ascending colour-tuple order |
| Selection.BestIndex | cleaner.py:99 | the index found holds an entry that pops no later than any other entry in the heap |
| Selection.Pop | cleaner.py:99 | one pop returns a heap colour, leaves the other colours behind, and returns nothing later than what is left |
| Selection.PopN | cleaner.py:98-99 | n pops return n colours in popping order; together with the remaining heap they form the original multiset; each popped colour precedes every colour left |
| Selection.SelectionUnique | cleaner.py:93-99 | any two valid outcomes of popping n entries from the same heap contents are equal, whatever the heap layout |
| Selection.SelectionIsBrightest | cleaner.py:93-99 | popped colours have non-increasing luminance, break ties by ascending colour, and are at least as bright as every colour left in the heap |
| Selection.PopLeast | cleaner.py:99 | the scanning pop removes one colour that precedes everything left |
| Selection.PopTop | cleaner.py:98-99 | the pop loop returns exactly the colours of PopN |
| Averaging.Sum | cleaner.py:102-104 | a channel sum over k colours is at most 255·k |
| Averaging.SumBetween | cleaner.py:102-104 | a channel sum lies between k times the least and k times the greatest value |
| Averaging.Mean | cleaner.py:102-104 | the channel mean m satisfies m·k ≤ sum < (m+1)·k, so it is the truncated quotient and fits in a channel |
| Averaging.Average | cleaner.py:102-106 | each channel of the averaged colour is the floor of that channel's mean |
| Averaging.AverageBetween | cleaner.py:102-104 | each averaged channel lies between the least and greatest value averaged, hence in [0, 255] |
| Averaging.AverageUniform | cleaner.py:102-106 | averaging copies of one colour gives that colour |
| Sampler.QuantileCount | cleaner.py:98 | the count is the floor of a quarter of the area |
| Sampler.TopCountPositive | cleaner.py:98 | 25 colours are popped from a box of 100, so the averages never divide by zero |
| Sampler.CellColour | cleaner.py:88-106 | the box estimate is the average of some valid outcome of popping 25 entries from a heap holding the box's pixels |
| Sampler.CellColourIgnoresInk | cleaner.py:93-106 | if one colour fills at least a quarter of a box and every other pixel is darker, the estimate is that colour; the ink is ignored |
| Sampler.CellColourUniform | cleaner.py:93-107 | a box of one colour is estimated as that colour, and its sample carries that colour's luminance |
| Sampler.CellSample | cleaner.py:107 | the sample centre is ((cb + 0.5)·10, (rb + 0.5)·10) and lies in its own box; the value is the luminance of the averaged colour, not an average of luminances |
| Sampler.CentresDistinct | cleaner.py:107 | distinct boxes have distinct sample centres |
| Sampler.SamplesIgnoreRemainder | cleaner.py:85-88 | two proxies that agree on the covered rows and columns give the same samples, so remainder rows and columns are never read |
| Sampler.SamplePoints | cleaner.py:85-107 | the box loop emits exactly (h/10)·(w/10) samples in row-major order, the sample of box (rb, cb) at position rb·(w/10) + cb |
| Whitening.WhitenChannel | cleaner.py:152-154 | the output is 255 if and only if value ≥ background; otherwise it is the floor of value·255/background, below 255 |
| Whitening.WhitenNeverDarkens | cleaner.py:152 | whitening never lowers a channel |
| Whitening.WhitenMonotone | cleaner.py:152 | under one background, a brighter input never gives a darker output |
| Whitening.WhitenBrighterBackground | cleaner.py:152 | a brighter background estimate never gives a brighter output |
| Whitening.WhitenBlack | cleaner.py:152 | black stays black against any positive background, and becomes white against a zero background |
| Whitening.WhitenPixel | cleaner.py:152-154 | each channel is whitened against its own background channel alone; a pixel becomes white if and only if every channel is at least its background |
| Whitening.WhitenImage | cleaner.py:150-154 | the whitening loop keeps the photo's shape and sets every pixel to its whitened value; each assignment leaves other channels and pixels untouched |
| Pipeline.EstimateSamples | cleaner.py:55-107 | estimation fails exactly for an empty photo or a proxy whose height truncates to 0; otherwise it yields the row-major CellSamples of the resized proxy, (h/10)·(w/10) of them and at most 15·15 |

## Left out

- Image loading, RGB conversion, `Image.fromarray` and resampling (lines 48-49, 67, 129) are PIL I/O. The resize is a function parameter of `Pipeline.EstimateSamples`. It is assumed to return an image array of the requested size.
- The surface fit `fitting.fit` and its evaluation over the proxy (lines 118-127) are left out. That module is not part of this model, and the evaluation is floating point stored into 8-bit cells. The whitening therefore takes the background field as an input.
- The pen-saturation tone curve (line 164) is left out. It is floating-point `cos` and `**`.
- The `Timer` class, `time.time`, the profiling counters, `sys.argv`, the default path, the `print` calls and the pylab display calls are left out. They are timing, CLI and display concerns.
- Writing each box colour back into `wb_im` (lines 109-112) is left out. Line 125 overwrites every such pixel before it is read.
- The unused `pen_im` (line 149) and the unimplemented outlier-cell filtering (lines 141-144) are left out.
- Proxy.ScaleSide: models `int(1.0 * 150 / width * height)` as the exact floor of 150·height/width. The float quotient may round to just below an integer and then truncate one lower.
- Whitening.WhitenChannel: models the float `value * 1.0 / background * 255`, truncated on storage into the 8-bit image, as the exact floor of value·255/background. The two can differ by one where the exact quotient is an integer.
- Pixels.Lum: scaled integer luminance orders colours as the float luminance does, except possibly where float rounding makes unequal sums tie or equal sums differ.
- Sampler.CellSample: stores 10000 times the float luminance of the averaged colour. The centre ((cb + 0.5)·10, (rb + 0.5)·10) is an integer because the box size is even.
- The heap is modelled by its contents, with a pop removing a least entry. The binary-heap layout of `heapq` is not modelled. `Selection.SelectionUnique` shows that the layout cannot change which colours are popped or their order.
