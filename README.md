# A verified model of BoofCV's linear-time contour labeller

This project models the binary-image labeller `LinearContourLabelChang2004` from BoofCV,
together with the contract its unit test `TestContourTracer` places on the contour tracer
it uses. The labeller follows Chang, Chen and Lu, "A linear-time component-labeling
algorithm using contour tracing technique" (2004).

`process` scans a binary image in raster order. Each foreground pixel (value 1) falls
into exactly one of three cases, tried in this order:

- **Step 1**: start a new external contour. The region gets the next label and a new
  record, and its outer boundary is traced with start direction 7.
- **Step 2**: start a new internal contour. The pixel's own label is used, or its left
  neighbour's if it has none. A new hole list is added to that region's record and traced
  with start direction 3.
- **Step 3**: an interior pixel. It copies its left neighbour's label if it is unlabelled.

The label image is written in place. The region records, the shared point pool and the
hole lists live in recycled `FastQueue`s that every call resets first.

## Files

| file | module | what it holds |
|---|---|---|
| `images.dfy` | `Images` | `Grid` (a value view of an image's pixels) and the classes `ImageUInt8` and `ImageSInt32` |
| `fast_queue.dfy` | `Storage` | `FastQueue<T>`: a queue whose elements are kept for recycling by `reset`, and `Option` |
| `contour_tracer.dfy` | `Tracing` | `ContourTracer`, whose boundary walk is a parameter (`Walker`) |
| `chang2004.dfy` | `Chang2004` | the labeller class, a ghost log of visits that specifies it, and the lemmas about that log |
| `tracer_test.dfy` | `TracerTest` | `shiftContourCheck`, `addBorder`, `stringToImage` and the pattern tests |

**How the scan is specified.** Each foreground pixel the scan reaches adds one `Visit` to
a ghost log. A visit records where the pixel is, the labels read there (its own cell and,
when that is 0, the cell on its left), the case taken, the label it used and the walk
traced from it. The functions `Records`, `Pool`, `HoleLists` and `HolesOf` compute the
region records, point pool and hole lists that a log determines, and `LabelsAfter`
computes the label image it leaves, starting from zeros. `Explains` says that every visit
is the one `Classify` and the tracer dictate. `LabelsRead` says that every visit read
the labels the visits before it left: it is `ScanVisit` of those labels. `Consistent`
joins these. The scan methods keep the predicate `Books`: the queues and every cell of the
label image are exactly what the log builds. `ScanDetermined` shows that such a log is
fixed by the pixels it visits, so nothing in it is a free choice. The lemmas then prove
what every such log satisfies. Inside `Books` the account is held as `Sealed(1, ...)`,
which `Unseal` shows equal to `Consistent`. The only purpose is to let the methods that
pass the books along carry it as one fact.

**How the tracer is specified.** `ContourTracer`'s step rule (its Moore-neighbour search)
is not part of this model. A tracer is given its walk as a function `walker` from the
image, the start pixel and the start direction to the pixels visited, in order and with
revisits. The model makes two assumptions about that walk:
- it depends only on the binary image, the start pixel and the start direction, and not
  on the label image or on earlier traces (the type of `walker` fixes this);
- `WalkerSound`: it is not empty, it starts at the start pixel, and it visits only
  foreground pixels.

A third assumption is in `Trace`'s frame: a trace writes the label image and the point
pool and leaves the binary image as it is. This assumption is the model's own, and the
source points the other way (see "## Left out").

The tracer's coordinate convention is a parameter `border`. A walk pixel p is stamped at
(p.x - border, p.y - border) of the label image. The test traces a bordered copy of its
canvas at (x + 1, y + 1) and checks an unbordered label image, so its tracer has
`border == 1`. The labeller passes its own images unshifted, and the model leaves its
`border` open.

**Three readings the model takes from the code and its tests.**
- A contour's length counts revisits. `funky1` (TestContourTracer.java:84-91) expects 3
  foreground pixels to trace to 4 points, and `funky2` (TestContourTracer.java:96-103)
  expects 5 to trace to 8. The model counts every point of the walk, and
  `RevisitsWhenLonger` proves that those tests' walks repeat a pixel.
- A record can carry over from one `process` call to the next. `process` resets its
  queues (LinearContourLabelChang2004.java:47-49). `handleStep2` clears the hole list it
  recycles (LinearContourLabelChang2004.java:111-112). `handleStep1`
  (LinearContourLabelChang2004.java:96-99) uses the record `grow` recycles without
  clearing it (see Findings). The scan uses the corrected `HandleStep1`.
- Step 2 treats the row past the image as background that no trace has marked. Its test
  `y >= binary.height-1` (LinearContourLabelChang2004.java:69) sends every last-row
  pixel that Step 1 does not take to Step 2. So a region touching the bottom edge gets
  a hole list even when it has no hole: `LastRowHoleList` shows it for a column of two
  foreground pixels. The model keeps this test as written.

## Model

| member | source | states |
|---|---|---|
| Chang2004.LinearContourLabelChang2004.Process | main/ip/src/boofcv/alg/filter/binary/LinearContourLabelChang2004.java:45-86 | The queues are reset before the scan. Afterwards the records, the point pool, the hole lists and every cell of the label image are exactly those the scan's own log builds (`Consistent`, with `labeled.data[..] == LabelsAfter(log)`), and every visit of the log read the labels the visits before it left. If the scan completes, the log visits every foreground pixel once, in raster order. If it stops, it stopped at the first Step 2 pixel whose region label could not be found. |
| Chang2004.Classify | main/ip/src/boofcv/alg/filter/binary/LinearContourLabelChang2004.java:65-77 | An unlabelled pixel reaches Step 2 or 3 only under a foreground pixel, so never in the first row. An interior pixel has a row below it whose pixel is not background. A labelled pixel never starts a new region. |
| Chang2004.LinearContourLabelChang2004.ScanImage | main/ip/src/boofcv/alg/filter/binary/LinearContourLabelChang2004.java:52-84 | The row loop keeps the books agreeing with the log, and the log's positions are the foreground pixels of the rows scanned so far. |
| Chang2004.LinearContourLabelChang2004.ScanRow | main/ip/src/boofcv/alg/filter/binary/LinearContourLabelChang2004.java:52-83 | `y` is the row, and `indexIn` and `indexOut` start at the row's first cell. The pixel loop adds exactly the row's foreground pixels to the log, left to right, and keeps the books agreeing with it. |
| Chang2004.LinearContourLabelChang2004.ScanPixel | main/ip/src/boofcv/alg/filter/binary/LinearContourLabelChang2004.java:57-77 | A pixel whose value is not 1 is skipped: the log, the queues and the labels stay as they were. A foreground pixel adds to the log exactly the visit `ScanVisit` computes from the label image as it was before the step (the pixel's own label, and its left neighbour's when that is 0), the number of records so far and the pixel. The scan stops only where that visit is Step 2 with both labels 0. |
| Chang2004.LinearContourLabelChang2004.ScanStep | main/ip/src/boofcv/alg/filter/binary/LinearContourLabelChang2004.java:56-77 | `x`, `indexIn` and `indexOut` advance together after a pixel, so both indexes always name pixel (x, y), and the log then holds the foreground pixels up to x. |
| Chang2004.LinearContourLabelChang2004.VisitPixel | main/ip/src/boofcv/alg/filter/binary/LinearContourLabelChang2004.java:63-77 | A foreground pixel adds exactly one visit to the log: the one `ScanVisit` computes from the labels read at the pixel, so the case is the one `Classify` picks for the label actually read there. The rows above and below are read only when they exist. If Step 2 finds no region, nothing changes. |
| Chang2004.LinearContourLabelChang2004.VisitExternal | main/ip/src/boofcv/alg/filter/binary/LinearContourLabelChang2004.java:65-68 | The log grows by exactly the Step 1 visit `ScanVisit` computes from the labels before the step, and the books agree with the extended log. |
| Chang2004.LinearContourLabelChang2004.VisitInternal | main/ip/src/boofcv/alg/filter/binary/LinearContourLabelChang2004.java:69-72 | When the region exists, the log grows by exactly the Step 2 visit `ScanVisit` computes from the labels before the step, and the books agree with the extended log. Otherwise nothing changes, and the pixel and its left neighbour are both unlabelled. |
| Chang2004.LinearContourLabelChang2004.VisitInterior | main/ip/src/boofcv/alg/filter/binary/LinearContourLabelChang2004.java:73-77 | The log grows by exactly the Step 3 visit `ScanVisit` computes from the labels before the step, and the books agree with the extended log. |
| Chang2004.LinearContourLabelChang2004.HandleStep1 | main/ip/src/boofcv/alg/filter/binary/LinearContourLabelChang2004.java:96-99 | Exactly one record is added, holding the external walk traced with direction 7 and no holes. The pool grows by that walk, and its pixels are stamped with the new `contours.size()`. |
| Chang2004.LinearContourLabelChang2004.HandleStep2 | main/ip/src/boofcv/alg/filter/binary/LinearContourLabelChang2004.java:105-115 | The region is the pixel's label, or the left neighbour's if that is 0. It succeeds exactly when that region's record exists. Then that record alone gains one hole list, the walk traced with direction 3 into a cleared list. The pool and the hole lists grow by that walk, and its pixels take the region's label. On failure nothing changes. |
| Chang2004.LinearContourLabelChang2004.HandleStep3 | main/ip/src/boofcv/alg/filter/binary/LinearContourLabelChang2004.java:121-124 | An unlabelled pixel takes its left neighbour's label. A labelled one keeps its label, and no other cell changes. |
| Chang2004.LinearContourLabelChang2004.GetContours | main/ip/src/boofcv/alg/filter/binary/LinearContourLabelChang2004.java:88-90 | There is one record per Step 1. The record of label k, at index k - 1, holds the external walk traced for k. Its hole lists are exactly the internal walks traced with label k, in discovery order. |
| Chang2004.LinearContourLabelChang2004.HandleStep1AsWritten | main/ip/src/boofcv/alg/filter/binary/LinearContourLabelChang2004.java:96-99 | As written, the record `grow` recycles keeps its old contents: the new walk is appended to the old external list, and the old holes stay. |
| Chang2004.StaleRecordDiffers | main/ip/src/boofcv/alg/filter/binary/LinearContourLabelChang2004.java:96-99 | The recycled record reproduces the record a fresh scan builds if and only if it was empty. |
| Chang2004.RecordsCount | main/ip/src/boofcv/alg/filter/binary/LinearContourLabelChang2004.java:97 | The number of records equals the number of Step 1 visits. |
| Chang2004.LabelsInDiscoveryOrder | main/ip/src/boofcv/alg/filter/binary/LinearContourLabelChang2004.java:97-98 | The labels Step 1 allocates are 1, 2, 3, ... in discovery order. |
| Chang2004.RecordOfLabel | main/ip/src/boofcv/alg/filter/binary/LinearContourLabelChang2004.java:97-98 | The record of a label allocated by Step 1 sits at index label - 1 and holds the walk traced for it. |
| Chang2004.HolesOfRecord | main/ip/src/boofcv/alg/filter/binary/LinearContourLabelChang2004.java:110-113 | The hole lists of record k are exactly the internal walks traced with label k + 1, in order. So Step 2 changes only its own region's record. |
| Chang2004.HolesBeyondCount | main/ip/src/boofcv/alg/filter/binary/LinearContourLabelChang2004.java:110 | No hole is traced for a label Step 1 has not yet allocated. |
| Chang2004.RecordsOfLabels | main/ip/src/boofcv/alg/filter/binary/LinearContourLabelChang2004.java:97-113 | Every record holds its label's external walk and exactly that label's holes. |
| Chang2004.TracedAreForeground | main/ip/src/boofcv/alg/filter/binary/LinearContourLabelChang2004.java:98 | Every pixel any trace of the scan visited is a foreground pixel. |
| Chang2004.BackgroundOnlyStamped | main/ip/src/boofcv/alg/filter/binary/LinearContourLabelChang2004.java:59-61 | Only a tracer stamp can write the label cell of a background pixel. The scan's own Step 3 write never can. |
| Chang2004.LabelledBackgroundWasTraced | main/ip/src/boofcv/alg/filter/binary/LinearContourLabelChang2004.java:59-61 | For the label image a log leaves, a labelled background pixel was reached by some trace, through the tracer's coordinate shift. With no shift, background stays 0. |
| Chang2004.LabelsAllocated | main/ip/src/boofcv/alg/filter/binary/LinearContourLabelChang2004.java:96-124 | Every label a log leaves is 0 or a label Step 1 allocated, and a cell holding a non-zero label was written by some visit of the log. |
| Chang2004.BooksLabels | main/ip/src/boofcv/alg/filter/binary/LinearContourLabelChang2004.java:105-110 | Every label in the books lies between 0 and the number of records, so Step 2 fails only on label 0. |
| Chang2004.ScanDetermined | main/ip/src/boofcv/alg/filter/binary/LinearContourLabelChang2004.java:63-77 | Two logs whose every visit is the one the scan makes on the labels left before it, and which visit the same pixels in the same order, are equal: what each step reads and does is fixed by the image and the tracer's walk. |
| Chang2004.ForcedHoleLists | main/ip/src/boofcv/alg/filter/binary/LinearContourLabelChang2004.java:65-71 | With the binary image left unmarked, a visited foreground pixel with foreground above and 0 or the image's edge below goes to Step 2 whatever its label. A scan visiting n such pixels hands out at least n hole lists, whatever the walk. |
| Chang2004.RingHoleLists | main/ip/src/boofcv/alg/filter/binary/LinearContourLabelChang2004.java:65-71 | A completed scan of a 3 x 3 ring in a 5 x 5 image of zeros hands out at least two hole lists for the ring's one hole. |
| Chang2004.LastRowHoleList | main/ip/src/boofcv/alg/filter/binary/LinearContourLabelChang2004.java:69-71 | A completed scan of a column of two foreground pixels, which has no hole, hands out a hole list: the last row's pixel goes to Step 2. |
| Chang2004.NeighbourCells | main/ip/src/boofcv/alg/filter/binary/LinearContourLabelChang2004.java:65-69 | When a row above (below) exists, the cell one stride before (after) the pixel is that row's pixel, inside the array. |
| Chang2004.PixelCell | main/ip/src/boofcv/alg/filter/binary/LinearContourLabelChang2004.java:57-69 | `data[indexIn]` and its neighbours one stride away hold the image's pixels (x, y), (x, y - 1) and (x, y + 1). |
| Chang2004.LeftCellInBounds | main/ip/src/boofcv/alg/filter/binary/LinearContourLabelChang2004.java:106-108 | Below the first row, the cell before the pixel is in the array. |
| Chang2004.ScanAdvance | main/ip/src/boofcv/alg/filter/binary/LinearContourLabelChang2004.java:56-61 | Moving one pixel right adds the pixel to the raster-order foreground list exactly when it is 1. |
| Chang2004.ScanNextRow | main/ip/src/boofcv/alg/filter/binary/LinearContourLabelChang2004.java:52-56 | Finishing a row's foreground pixels finishes that row of the raster-order list. |
| Images.ForegroundVisitedOnce | main/ip/src/boofcv/alg/filter/binary/LinearContourLabelChang2004.java:52-61 | The raster-order list of the first n rows holds every foreground pixel of those rows and nothing else, and strictly in raster order, so each foreground pixel is visited exactly once. |
| Chang2004.ExternalStep | main/ip/src/boofcv/alg/filter/binary/LinearContourLabelChang2004.java:96-99 | After the Step 1 visit the scan reads at a pixel, a new record, the walk added to the pool, and its cells stamped with the new label keep the books consistent with the extended log. |
| Chang2004.InternalStep | main/ip/src/boofcv/alg/filter/binary/LinearContourLabelChang2004.java:105-115 | After the Step 2 visit the scan reads at a pixel, for an existing region: one more hole in the region's record, and the walk added to the pool and to the hole lists, keep the books consistent with the extended log. |
| Chang2004.InteriorStep | main/ip/src/boofcv/alg/filter/binary/LinearContourLabelChang2004.java:121-124 | After the Step 3 visit the scan reads at a pixel, writing the target label into the pixel's own cell keeps the books consistent. |
| Chang2004.PositionsSnoc | main/ip/src/boofcv/alg/filter/binary/LinearContourLabelChang2004.java:56 | One more visit adds exactly its pixel to the log's positions. |
| Chang2004.PositionsLength | main/ip/src/boofcv/alg/filter/binary/LinearContourLabelChang2004.java:56 | A log visits as many pixels as it has visits. |
| Storage.FastQueue.Reset | main/ip/src/boofcv/alg/filter/binary/LinearContourLabelChang2004.java:47-49 | The queue is empty afterwards, and its elements are kept for recycling. |
| Storage.FastQueue.Grow | main/ip/src/boofcv/alg/filter/binary/LinearContourLabelChang2004.java:97 | The queue grows by one element, which is returned. It is the recycled element at that position, unchanged, or a new blank one. |
| Storage.FastQueue.Get | main/ip/src/boofcv/alg/filter/binary/LinearContourLabelChang2004.java:110 | An element is returned if and only if the index is in use; otherwise the index is refused. |
| Tracing.ContourTracer.SetInputs | main/ip/src/boofcv/alg/filter/binary/LinearContourLabelChang2004.java:50 | The tracer holds the binary image, the label image and the pool it is handed. |
| Tracing.ContourTracer.Trace | main/ip/test/boofcv/alg/filter/binary/TestContourTracer.java:185-190 | The walk is appended to the caller's list and to the pool, so both grow by the same count. Every walk pixel is stamped with the target label, and no other label changes. The binary image is outside its frame, which is the model's assumption (see "## Left out"). |
| Tracing.ContourTracer.Record | main/ip/test/boofcv/alg/filter/binary/TestContourTracer.java:186-190 | Each walk point is stamped and added, one by one, to the list and to the pool. |
| Tracing.SoundWalk | main/ip/test/boofcv/alg/filter/binary/TestContourTracer.java:186 | A trace from a foreground pixel starts there and stays on the foreground. |
| Images.ImageUInt8.Set | main/ip/test/boofcv/alg/filter/binary/TestContourTracer.java:223 | Only pixel (x, y) changes. |
| Images.ImageUInt8.Fill | main/ip/test/boofcv/alg/filter/binary/TestContourTracer.java:53 | Every pixel takes the value. |
| Images.ImageUInt8.Paste | main/ip/test/boofcv/alg/filter/binary/TestContourTracer.java:176-177 | The pattern is copied at offset (x0, y0), and every other pixel is unchanged. |
| Images.ImageUInt8.FillBorder | main/ip/test/boofcv/alg/filter/binary/TestContourTracer.java:212 | The pixels within `radius` of an edge take the value, and the others are unchanged. |
| Images.ImageSInt32.Fill | main/ip/test/boofcv/alg/filter/binary/TestContourTracer.java:180 | Every label takes the value. |
| TracerTest.StringToImage | main/ip/test/boofcv/alg/filter/binary/TestContourTracer.java:216-228 | There is an image exactly when the text has a line break and every pixel character is a digit. The column count is the index of the first line break, the row count is length / (columns + 1), and pixel (x, y) is the digit at y * (columns + 1) + x. |
| TracerTest.AddBorder | main/ip/test/boofcv/alg/filter/binary/TestContourTracer.java:209-214 | The new image is two pixels larger each way, with the original at (1, 1) and a border of 0. |
| TracerTest.FilledPattern | main/ip/test/boofcv/alg/filter/binary/TestContourTracer.java:52-53 | The pattern is a fresh compact image of the given size whose every pixel is 1, as `new ImageUInt8` followed by `fill(pattern, 1)` builds it for `single`, `two_horizontal`, `two_vertical` and `square` (also lines 60-61, 68-69 and 76-77). |
| TracerTest.BorderedForeground | main/ip/test/boofcv/alg/filter/binary/TestContourTracer.java:209-214 | The bordered image's foreground is the original's, moved by (1, 1), in both directions: every bordered foreground pixel comes from an original one, and every original one appears. |
| TracerTest.PastePattern | main/ip/test/boofcv/alg/filter/binary/TestContourTracer.java:175-177 | The canvas is blank except for the pattern pasted at (x, y). |
| TracerTest.PrepareCanvas | main/ip/test/boofcv/alg/filter/binary/TestContourTracer.java:175-185 | The tracer gets the bordered canvas with the pattern at (x, y), a label image of zeros and an empty pool. |
| TracerTest.TracePlaced | main/ip/test/boofcv/alg/filter/binary/TestContourTracer.java:175-186 | The list found is the walk from the pattern's top-left pixel, and the pool holds as many points. Label 2 is exactly on the walk's pixels, and every other label is 0. |
| TracerTest.CheckLabels | main/ip/test/boofcv/alg/filter/binary/TestContourTracer.java:193-203 | The label loops pass if and only if label 2 is on exactly the pasted pattern's foreground and every other label is 0. |
| TracerTest.StampedLabels | main/ip/test/boofcv/alg/filter/binary/TestContourTracer.java:180-186 | After one trace into cleared labels, a label is 2 exactly where the walk passed, moved by the border. |
| TracerTest.LabelsMatch | main/ip/test/boofcv/alg/filter/binary/TestContourTracer.java:193-203 | The labels agree with the pattern if and only if the walk covers exactly the pattern's foreground pixels. |
| TracerTest.CanvasForeground | main/ip/test/boofcv/alg/filter/binary/TestContourTracer.java:175-186 | The bordered canvas's foreground is the pasted pattern's foreground moved by (1, 1), in both directions, and the trace starts on a foreground pixel. |
| TracerTest.TryPlacement | main/ip/test/boofcv/alg/filter/binary/TestContourTracer.java:174-204 | One placement passes if and only if the walk has the expected size and covers exactly the pattern's pixels. |
| TracerTest.TryRow | main/ip/test/boofcv/alg/filter/binary/TestContourTracer.java:173-205 | A row of placements passes if and only if every placement in that row passes. |
| TracerTest.ShiftContourCheck | main/ip/test/boofcv/alg/filter/binary/TestContourTracer.java:166-207 | The check passes if and only if every placement of the pattern in the 4 x 5 canvas passes. So the contour length is the same at every placement, and the labels match the pattern at each. |
| TracerTest.Single | main/ip/test/boofcv/alg/filter/binary/TestContourTracer.java:50-56 | Passes if and only if a lone pixel traces to 1 point at every placement. |
| TracerTest.TwoHorizontal | main/ip/test/boofcv/alg/filter/binary/TestContourTracer.java:58-64 | Passes if and only if two pixels side by side trace to 2 points at every placement. |
| TracerTest.TwoVertical | main/ip/test/boofcv/alg/filter/binary/TestContourTracer.java:66-72 | Passes if and only if two stacked pixels trace to 2 points at every placement. |
| TracerTest.Square | main/ip/test/boofcv/alg/filter/binary/TestContourTracer.java:74-80 | Passes if and only if a 2 x 2 block traces to 4 points at every placement. |
| TracerTest.Funky1 | main/ip/test/boofcv/alg/filter/binary/TestContourTracer.java:82-92 | Passes if and only if the pattern "10/01/10" traces to 4 points at every placement. |
| TracerTest.Funky2 | main/ip/test/boofcv/alg/filter/binary/TestContourTracer.java:94-104 | Passes if and only if the pattern "1000/0110/1001" traces to 8 points at every placement. |
| TracerTest.Funky3 | main/ip/test/boofcv/alg/filter/binary/TestContourTracer.java:106-124 | Passes if and only if the external trace of "0100/0110/1101" from (1, 0), with direction 7, has 7 points. |
| TracerTest.Interior1 | main/ip/test/boofcv/alg/filter/binary/TestContourTracer.java:126-144 | Passes if and only if the internal trace of "01110/01101/11110" from (3, 0), with direction 3, has 4 points. |
| TracerTest.TraceOnce | main/ip/test/boofcv/alg/filter/binary/TestContourTracer.java:113-123 | Passes if and only if the pool and the caller's list both receive the expected number of points from one trace of the bordered input. |
| TracerTest.Funky1Reads | main/ip/test/boofcv/alg/filter/binary/TestContourTracer.java:84-89 | The text of `funky1` parses to its 2 x 3 pattern. |
| TracerTest.Funky2Reads | main/ip/test/boofcv/alg/filter/binary/TestContourTracer.java:96-101 | The text of `funky2` parses to its 4 x 3 pattern. |
| TracerTest.Funky3Reads | main/ip/test/boofcv/alg/filter/binary/TestContourTracer.java:108-113 | The text of `funky3` parses to its 4 x 3 pattern. |
| TracerTest.Interior1Reads | main/ip/test/boofcv/alg/filter/binary/TestContourTracer.java:128-133 | The text of `interior1` parses to its 5 x 3 pattern. |
| TracerTest.SpellReadsBack | main/ip/test/boofcv/alg/filter/binary/TestContourTracer.java:216-228 | Writing a grid of digits out row by row, each row ending in a line break, and parsing it back gives the same grid (a round trip). |
| TracerTest.ReadsAs | main/ip/test/boofcv/alg/filter/binary/TestContourTracer.java:216-228 | Text with the grid's dimensions, whose every cell parses to the grid's pixel, parses to that grid. |
| TracerTest.ReadableAs | main/ip/test/boofcv/alg/filter/binary/TestContourTracer.java:217-223 | Text whose every pixel character is a digit can be parsed. |
| TracerTest.Funky1Spelled | main/ip/test/boofcv/alg/filter/binary/TestContourTracer.java:84-87 | The `funky1` text is its pattern written out. |
| TracerTest.Funky2Spelled | main/ip/test/boofcv/alg/filter/binary/TestContourTracer.java:96-99 | The `funky2` text is its pattern written out. |
| TracerTest.Funky3Spelled | main/ip/test/boofcv/alg/filter/binary/TestContourTracer.java:108-111 | The `funky3` text is its pattern written out. |
| TracerTest.Interior1Spelled | main/ip/test/boofcv/alg/filter/binary/TestContourTracer.java:128-131 | The `interior1` text is its pattern written out. |
| TracerTest.Funky1Count | main/ip/test/boofcv/alg/filter/binary/TestContourTracer.java:84-87 | `funky1` has 3 foreground pixels. |
| TracerTest.Funky2Count | main/ip/test/boofcv/alg/filter/binary/TestContourTracer.java:96-99 | `funky2` has 5 foreground pixels. |
| TracerTest.Funky3Count | main/ip/test/boofcv/alg/filter/binary/TestContourTracer.java:108-111 | `funky3` has 6 foreground pixels. |
| TracerTest.Pigeonhole | main/ip/test/boofcv/alg/filter/binary/TestContourTracer.java:91 | A sequence longer than a list holding all of its elements repeats one. |
| TracerTest.RevisitsWhenLonger | main/ip/test/boofcv/alg/filter/binary/TestContourTracer.java:189-190 | A walk on a pattern's foreground with more points than the pattern has pixels visits some pixel twice. So the contour length counts revisits. |
| TracerTest.PlacedWalkForeground | main/ip/test/boofcv/alg/filter/binary/TestContourTracer.java:185-186 | The walk of a placement stays on the pattern's foreground, moved by (x + 1, y + 1). |
| TracerTest.ShiftRevisits | main/ip/test/boofcv/alg/filter/binary/TestContourTracer.java:166-207 | When the shifted check passes with more points than the pattern has pixels, every placement's walk revisits a pixel. |
| TracerTest.Funky1Revisits | main/ip/test/boofcv/alg/filter/binary/TestContourTracer.java:82-92 | If `funky1` passes, each of its 4-point walks over 3 pixels revisits a pixel. |
| TracerTest.Funky2Revisits | main/ip/test/boofcv/alg/filter/binary/TestContourTracer.java:94-104 | If `funky2` passes, each of its 8-point walks over 5 pixels revisits a pixel. |
| TracerTest.Funky3Revisits | main/ip/test/boofcv/alg/filter/binary/TestContourTracer.java:106-124 | If `funky3` passes, its 7-point walk over 6 pixels revisits a pixel. |

## Left out

- `ContourTracer` is not part of this model. Its neighbour search and termination rule are
  replaced by the `walker` parameter. The walk is assumed to depend only on the binary
  image, the start pixel and the start direction, and to satisfy `WalkerSound`.
- Tracing.ContourTracer.Trace: the model assumes a trace never writes the binary image.
  This assumption is the model's own, and the source suggests the opposite, that the
  tracer marks the white pixels around a contour in the binary image:
  - the Step 2 comment (LinearContourLabelChang2004.java:100-104) asks for a pixel below
    that is "unmarked and white";
  - the two tests differ: above, anything but 1 is background (:65); below, only 0 is (:69);
  - a debug print of the binary image follows every step (:78-79);
  - the stub test `checkMarkWhite` (TestContourTracer.java:146-150) is meant to check that
    the tracer marks the white pixels around a contour.

  The marking itself is in the tracer's code, which is not part of this model. Without
  marks, every foreground pixel that Step 1 does not take and that has 0 below goes to
  Step 2, so one hole can get several hole lists. `ForcedHoleLists` states this for any
  image. `RingHoleLists` shows that a 3 x 3 ring in a 5 x 5 image of zeros gets at least
  two hole lists for its one hole, whatever the walk, where the algorithm of Chang, Chen
  and Lu traces each hole once.
- The stub tests `checkMarkWhite` and `checkContourOrdering` (TestContourTracer.java:146-160)
  only fail, so no property is taken from them.
- `FastQueue`, `ImageUInt8`, `ImageSInt32`, `ImageMiscOps` and `Contour` are not part of
  this model. They are modelled only as far as the labeller and the test use them.
- Aliasing is not modelled. In the source the hole list added to a record is the same
  object as the recycled list in `storageLists`, and pool points are recycled
  `Point2D_I32` objects. The model stores values, so a later reuse of the same storage
  cannot change a record already built.
- Labels are unbounded integers: `contours.size()` overflowing 32 bits is not modelled.
- Chang2004.LinearContourLabelChang2004.Process: requires a label image of zeros. The
  source does not clear the label image itself and leaves that to its callers.
- Chang2004.LinearContourLabelChang2004.Process: requires that the tracer's coordinate
  convention maps every foreground pixel into the label image (`Registered`). This is the
  model's stand-in for the tracer's unseen bounds handling.
- Chang2004.LinearContourLabelChang2004.Process: the claim that a Step 2 pixel always
  finds a labelled left neighbour (comment at LinearContourLabelChang2004.java:106) is not
  proved. Where the region label would be 0, the source's `contours.get(-1)` fails, and
  the model stops the scan with `Aborted` at that pixel instead.
- Chang2004.LinearContourLabelChang2004.Process: the model does not state which regions
  the labels form (connected components). That depends on the tracer's walk, which is a
  parameter here.
- Images.ImageUInt8.Fill, Images.ImageUInt8.Paste, Images.ImageUInt8.FillBorder and
  Images.ImageSInt32.Fill are modelled on compact images only (start index 0, stride =
  width), which is all the test creates. Sub-images are not modelled.
- TracerTest.StringToImage reads digits as ASCII '0' to '9' only. `Integer.parseInt`
  accepts other Unicode digits, which the test never uses. A text without a line break
  or with a non-digit pixel gives no image, where the source throws.
- TracerTest.ShiftContourCheck: requires the pattern's top-left pixel to be foreground,
  since the test always starts the trace there. It holds for every pattern the test uses.
- TracerTest.TraceOnce, TracerTest.ShiftContourCheck: the shared `queue` and `found` are
  fresh in each test, as the `@Before` reset (TestContourTracer.java:43-47) makes them.

## Findings

| source | as written | input that shows it | evidently intended | confidence | as-written member | corrected member |
|---|---|---|---|---|---|---|
| main/ip/src/boofcv/alg/filter/binary/LinearContourLabelChang2004.java:96-99 | `contours.grow()` hands back the recycled `Contour` of an earlier call unchanged, and the trace appends to its `external` list, which still holds the earlier call's points (and its `internal` list still holds the earlier holes) | `process` run twice on a 1 x 1 image holding 1: after the second call, record 1 holds 2 external points instead of 1 | every call's records hold only that call's contours: the recycled record is cleared before reuse | not executed | Chang2004.LinearContourLabelChang2004.HandleStep1AsWritten, Chang2004.StaleRecordDiffers | Chang2004.LinearContourLabelChang2004.HandleStep1 |
