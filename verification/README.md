# ColorScan analysis core in Dafny

ColorScan measures the colour of repeated zones in a photograph, such as the
pads of a test strip. A threshold mask separates the zones from the
background. OpenCV traces the zones as contours. The user clicks one zone as
the reference, and the program finds the zones of similar size and shape.
The user may adjust that set with shift-clicks, and may replace every zone by
one fixed shape moved by one common displacement. The program then numbers
the zones in reading order and measures each one: masked mean and standard
deviation in RGB, Gray, HSV and Lab, area, and optionally a per-channel
histogram. The results are written as CSV tables into a fresh
`<image>_analysis[_n]` directory.

This project models the decision logic of that pipeline, all of it in
`ColorScan.py`, as pure Dafny functions over integer grids, index sets, exact
rationals and strings. OpenCV results are inputs to the model: contour areas,
image moments, shape-match scores and rasterised 0/255 masks.

Modules, in pipeline order:

- `Basics`: bytes, `Option`/`Result`, the error kinds, and the arithmetic
  helpers. `Trunc` is Python's `int()` on a float (toward zero). `Clip` and
  `ClipReal` are `np.clip`. `Sum` and `SumNat` are sums.
- `Mask`: the HSV threshold mask of `cvMask`, the dilate/erode code string of
  `setDileroMode`, and the counters of `cvDilateErode`.
- `Ordering`: a stable argsort of index lists by a two-part key. It stands for
  both `np.argsort` of the areas and `np.lexsort` of the centers.
- `Contours`: the area filter and area order of `cvContour`.
- `Selection`:
  - the size and shape filters of `getSimilarContours`;
  - the selection lists of `selectContour` and `appendContour`;
  - `findCenters`.
- `Refine`:
  - the common displacement of `refineZones`;
  - the per-zone sampling window of `analyzeContours`;
  - the reading-order relabelling.
- `Stats`: the masked mean and population variance of `getAvColor`.
- `Color`:
  - per-zone colour records;
  - the BGR to RGB reversal;
  - the Gray column and its spread;
  - the HSV and Lab unit conversions of `saveColors`;
  - the masked area.
- `Histogram`: `imageChannelHistogram` and the column order of
  `saveHistogram`.
- `Text`: comma splitting and joining, and `str()` of a natural number.
- `Output`:
  - the header and rows of the colour table;
  - the histogram header;
  - the fresh directory name chosen in `analyzeContours`.

Standard deviations are carried as variances, so `sqrt` stays outside the
model. A cell that prints a standard deviation is `RootOf(variance)`.

Error paths are values, not preconditions:

- `findCenters` fails with `IndexOutOfRange` or `ZeroDivision`. The error is
  the one for the first zone, in loop order, that faults.
- `refineZones` fails with `MissingKey` (Python's KeyError) when the
  reference contour is not one of the current zones, because `indDict` has
  no entry for it.
- `analyzeContours` fails with `EmptyArgmax` (numpy's ValueError) when there
  are no zones, because `np.argmax` of an empty size list has no answer. By
  then the output directory has already been created.
- The reordering in `analyzeContours` fails with `IndexOutOfRange` when
  there are refined masks, but fewer of them than zones.
- `saveColors` fails with `UnboundRgb` when RGB output is off. In that case
  the source reads `rgb` before it is ever assigned.
- A zone whose mask includes no pixel has no statistics (`None`).

## Model

| member | source | states |
|---|---|---|
| Mask.Threshold | ColorScan.py:867-872 | A slider reading in 0..256 becomes its integer part. Anything below 1 becomes 0 and anything from 255 up becomes 255. |
| Mask.ThresholdMask | ColorScan.py:864-887 | Mode 0 (AND) gives 255 exactly where S >= smin and V >= vmin. Mode 1 (OR) gives 255 exactly where S >= smin or V >= vmin. Every output pixel is 0 or 255 and the grid keeps its shape. Any other mode leaves the previous buffer untouched. |
| Mask.HueIrrelevant | ColorScan.py:874-887 | Two pixels that differ only in hue get the same mask value in both modes. |
| Mask.SetDileroMode | ColorScan.py:318-331 | Dilate (1) appends exactly one 'd' and Erode (-1) exactly one 'e', keeping the earlier code as a prefix. Reset (0) gives the empty code. Other modes keep the code. |
| Mask.MorphOps | ColorScan.py:894-905 | The replayed operations are one dilation per 'd' and one erosion per 'e' of the code, and nothing else. |
| Mask.ButtonsReplayInOrder | ColorScan.py:894-905 | A Dilate press adds one dilation at the end of the replay, an Erode press adds one erosion at the end, and a reset leaves nothing to replay. So the replay follows the presses since the last reset, in order. |
| Mask.MorphOpsAppend | ColorScan.py:894-905 | The replay of a code is the replay of its first part followed by the replay of the rest. |
| Mask.DileroCounters | ColorScan.py:894-905 | Both counters restart at zero. They end equal to the number of 'd' and of 'e' letters, and together they count the operations replayed. |
| Ordering.Insert | ColorScan.py:951 | Inserting an index into a sorted index list keeps it sorted by (key, index) and adds exactly that index. |
| Ordering.Argsort | ColorScan.py:951 | The result is a permutation of the input indices (same multiset), in non-decreasing key order, with equal keys in index order. |
| Ordering.SortedUnique | ColorScan.py:1313 | Two sorted arrangements of the same indices are identical, so any stable sort by these keys gives this order. |
| Ordering.SortedMeaning | ColorScan.py:1313 | Along a sorted list the keys never decrease, and entries with equal keys keep their original relative order. |
| Contours.LargeIndices | ColorScan.py:954 | An index is listed exactly when its area is strictly above 5. The list is increasing. |
| Contours.AreaOrder | ColorScan.py:951-954 | `bysize` holds every index whose area is above 5, and only those, each once, in non-decreasing area order. |
| Contours.ExtractContours | ColorScan.py:917-956 | A non-grayscale buffer regenerates nothing. Otherwise the kept contours are exactly those of area above 5, each once, in non-decreasing area order, and each keeps its own area. |
| Contours.BoundaryAreaDropped | ColorScan.py:954 | An area of exactly 5 is discarded and an area of 5.5 is kept. |
| Selection.SizeMatches | ColorScan.py:1139-1146 | After clipping the tolerance s to 0..100, index i passes exactly when abs(a_i - a_ref) <= 1e-8 + s/100 * abs(a_ref), relative to the reference only. The reference always passes. |
| Selection.ShapeMatches | ColorScan.py:1152-1155 | A size survivor stays exactly when its score is strictly below the shape tolerance clipped to 0..2. |
| Selection.SizeMatchesMonotone | ColorScan.py:1139-1146 | Raising the size tolerance never loses a match. |
| Selection.SizeToleranceZero | ColorScan.py:1146 | At tolerance 0 the survivors are the areas within numpy's absolute tolerance 1e-8 of the reference. |
| Selection.SizeMatchNotSymmetric | ColorScan.py:1146 | At 10% tolerance, 90.5 matches a reference of 100, but 100 does not match a reference of 90.5. |
| Selection.ShapeToleranceZeroKeepsNothing | ColorScan.py:1142-1154 | With non-negative scores, a shape tolerance of 0 or less keeps nothing. |
| Selection.SelectContour | ColorScan.py:1016-1027 | A click inside a contour makes it the reference and empties all three lists. A click outside every contour (-1) changes nothing. |
| Selection.FindSimilar | ColorScan.py:1114-1160 | The matches are exactly the indices that pass both filters. The added list is kept and the removed list is cleared, so the effective set is the matches plus the added contours. |
| Selection.ReferenceMatchesItself | ColorScan.py:1146-1155 | With a score of 0 for itself and a positive shape tolerance, the reference is among the matches. |
| Selection.Toggle | ColorScan.py:1074-1088 | When every removal is of a matched contour, one shift-click on x flips x's membership in the effective set and keeps that condition. No other index changes. |
| Selection.ToggleTwice | ColorScan.py:1074-1084 | A second shift-click on the same index restores both lists. |
| Selection.AppendContour | ColorScan.py:1066-1088 | Before any matches exist, a shift-click is a plain click. After that it flips exactly the clicked index, including -1. |
| Selection.AppendOutsideAddsPhantom | ColorScan.py:1066-1088 | A shift-click outside every contour puts the index -1 into the effective set. |
| Selection.AppendContourGuarded | ColorScan.py:1066-1088 | With the guard of `selectContour`, a click outside every contour changes nothing. Any other click acts as in the source. |
| Selection.GuardedKeepsIndicesValid | ColorScan.py:1074-1088 | With the guard, every matched or added index stays a real contour index. |
| Selection.CentroidWithinOnePixel | ColorScan.py:1198 | Each centroid coordinate is within one pixel of the exact moment ratio, truncated toward zero. |
| Selection.Fault | ColorScan.py:1186-1198 | A position faults exactly when its index is not addressable, even counting from the end, or its contour has m00 = 0. |
| Selection.FirstFault | ColorScan.py:1185-1198 | No fault is reported exactly when no position from k on faults. A reported fault belongs to a position with no fault before it. |
| Selection.FindCenters | ColorScan.py:1174-1201 | Failure happens exactly when some zone faults, and the error is that of the first faulting zone. On success, zone i gets the truncated centroid and the m00 of contour plus[i], read Python-style. `indDict` is the exact inverse of the list. |
| Selection.Positions | ColorScan.py:1189 | The dictionary's keys are the listed indices, and each maps to its position. |
| Selection.PyIndex | ColorScan.py:1186-1187 | A non-negative index reads that entry. A negative index i reads entry n + i, counting from the end. |
| Selection.SortedElements | ColorScan.py:1087-1088 | The result of `union1d`/`setdiff1d` holds exactly the set's elements, strictly increasing. |
| Selection.PhantomZoneDuplicates | ColorScan.py:1074-1088 | With one matched contour, a shift-click outside every contour gives the effective list [-1, 0]. Both entries read the same contour, so one pad becomes two zones with the same center. |
| Refine.SizeData | ColorScan.py:2144-2149 | The size list the shape data ends with is [r] for circles and polygons and [w, h] for rectangles. |
| Refine.RefineCenters | ColorScan.py:1256-1258 | Every refined center is its centroid moved by (dx, -dy). |
| Refine.UniformDisplacement | ColorScan.py:1256-1258 | All zones move by the same vector. |
| Refine.RefineUndo | ColorScan.py:1258 | The opposite displacement restores the centroids. |
| Refine.SamplingWindow | ColorScan.py:1346-1351 | The window is 2a+1 wide and 2b+1 high, for the first size entry a and the last entry b, and it is centered on the zone center. For circles and polygons it is the square of side 2r+1. |
| Refine.DiscInWindow | ColorScan.py:1346-1351 | Every pixel within r of the center along both axes lies in the window. |
| Refine.RectangleInWindow | ColorScan.py:1346-1351 | Both truncated corners that `drawShape` gives a w x h rectangle lie in the window. |
| Refine.ReadingOrder | ColorScan.py:1313 | The lexsort is a permutation of all zones, in non-decreasing (y, x) order. Zones with equal centers keep their detection order. |
| Refine.Relabel | ColorScan.py:1313-1322 | The reordering fails with an index error exactly when there are refined masks but fewer of them than zones. Otherwise one permutation is applied to the indices, the centers and, when present, the refined masks and centers, and the centers end in reading order. Refined masks beyond the zone count are dropped. |
| Refine.RefineZones | ColorScan.py:1223-1265 | Refining fails with a KeyError exactly when the reference contour is not a current zone. Otherwise it makes one mask per current zone and displaces every centroid, so the refined arrays belong to the zones. |
| Refine.RemovedReferenceCannotRefine | ColorScan.py:1232 | A reference that is no longer among the zones stops the refinement with the KeyError. |
| Refine.ArgMax | ColorScan.py:1308 | `np.argmax` fails exactly on an empty list. Otherwise it gives a position holding the largest value, with every earlier value strictly smaller. |
| Refine.LargestZone | ColorScan.py:1308 | The contour that sets the label size: failure exactly when there are no zones, otherwise a zone whose size is the largest. |
| Refine.EmptySelectionStopsAnalysis | ColorScan.py:1174-1201 | An empty selection passes `findCenters` with no sizes, and the analysis then fails at `np.argmax`. |
| Refine.Rezone | ColorScan.py:1174-1201 | Running `findCenters` again replaces the indices and centers and leaves the refined arrays as they were. |
| Refine.RezoneClearing | ColorScan.py:919 | The corrected re-run discards the refinement, as `cvContour` does, so the arrays are paired for every displacement. |
| Refine.PairedRelabels | ColorScan.py:1313-1322 | When the refined arrays belong to the zones, the reordering never fails, and every refined mask and center stays with its own zone. |
| Refine.StaleRefinementMisPairs | ColorScan.py:1313-1347 | Three zones are refined, then a tighter size tolerance leaves contours 0 and 2. The analysis runs without error, but the zone of contour 2 is measured with contour 1's refined mask and center. |
| Refine.StaleRefinementIndexError | ColorScan.py:1313-1322 | Two zones are refined, then a looser tolerance finds a third. The reordering indexes past the two refined masks. |
| Refine.ReadingOrderIs | ColorScan.py:1313 | Any duplicate-free, sorted listing of all zones is the lexsort result. |
| Refine.ReadingOrderExample | ColorScan.py:1313 | Centers (50,10), (10,10), (30,5) are numbered in the order (30,5), (10,10), (50,10). |
| Refine.ReadingOrderIgnoresDisplacement | ColorScan.py:1313 | Sorting the displaced centers gives the same order as sorting the centroids. |
| Stats.IncludedCount | ColorScan.py:1209-1210 | The count is 0 exactly when no pixel is 255, and the full length exactly when every pixel is 255. |
| Stats.IncludedPositions | ColorScan.py:89 | The positions are exactly the included pixels, strictly increasing, one per included pixel. |
| Stats.Compressed | ColorScan.py:89 | Kept value j is the value at the j-th included position. So `compressed()` keeps the included values in pixel order, each as often as it occurs, and nothing else. |
| Stats.CompressedFrom | ColorScan.py:89 | Every kept value is the value of an included pixel. |
| Stats.MaskedStats | ColorScan.py:1207-1217 | There is no result exactly when no pixel is included. Otherwise the mean times the kept count is the sum of the kept values, and the variance times the kept count is the sum of their squared deviations from that mean (numpy's population variance). The variance is never negative, and the mean of 0..255 values lies in 0..255. |
| Stats.UniformMaskedZone | ColorScan.py:1209-1212 | When every included pixel has value v, the masked statistics are mean v and variance 0. |
| Stats.SinglePixelZone | ColorScan.py:1209-1212 | A mask that includes one pixel gives that pixel's value and variance 0. |
| Stats.OutsideIgnored | ColorScan.py:1209-1212 | Two zones that agree on the included pixels have the same statistics. |
| Stats.NoMaskIsFullMask | ColorScan.py:1207-1215 | Without a mask the statistics are those of an all-255 mask. |
| Stats.UniformZone | ColorScan.py:1211-1212 | A zone of one colour has that colour as its mean and variance 0. |
| Color.AvColor | ColorScan.py:1207-1217 | Each channel gets its masked mean and variance under the same mask. There is no result exactly when no pixel is included. Variances are non-negative. |
| Color.Reverse | ColorScan.py:1357-1358 | `[::-1]` swaps channels 0 and 2 and keeps channel 1. |
| Color.ReverseInvolution | ColorScan.py:1357-1358 | Reversing twice restores the channel order. |
| Color.Gray | ColorScan.py:1466 | A neutral colour keeps its value, and colours in 0..255 give gray in 0..255. |
| Color.GrayVariance | ColorScan.py:1467 | The spread is non-negative and at most any common bound of the three channel spreads. |
| Color.GrayFromStd | ColorScan.py:1467 | The std Gray column squared is the weighted sum of the squared RGB deviations with squared weights. |
| Color.GrayOfMean | ColorScan.py:1466 | The Gray of the mean colour is the mean of the pixels' Gray values. |
| Color.HsvUnits | ColorScan.py:1475-1482 | H is doubled to degrees, and S and V are divided by 255. Hue 0..179 gives 0..358, and S and V land in 0..1. |
| Color.HsvScalesStd | ColorScan.py:1480-1481 | Applied to variances, the conversion is the square of the source's conversion of deviations. |
| Color.HsvRoundTrip | ColorScan.py:1477-1481 | Converting back recovers OpenCV's HSV statistics exactly. |
| Color.LabUnits | ColorScan.py:1488-1494 | L is rescaled from 0..255 to 0..100, and the means of a and b are shifted by -128 into -128..127. The spreads of a and b are unchanged. |
| Color.LabScalesStd | ColorScan.py:1493 | The L variance is the square of the converted L deviation. |
| Color.LabRoundTrip | ColorScan.py:1490-1493 | Converting back recovers OpenCV's Lab statistics exactly. |
| Color.MaskArea | ColorScan.py:1373 | For 8-bit masks the area lies between 0 and the window's pixel count. |
| Color.BinaryMaskArea | ColorScan.py:1373 | For a 0/255 mask, the sum over 255 is the number of included pixels. |
| Color.AnalyzeZone | ColorScan.py:1356-1373 | There is no record exactly when no pixel is included. The RGB statistics are the BGR ones reversed, and R is the masked mean of channel 2. The HSV and Lab records are the masked means and variances of those images, channel by channel. The area is the mask's sum over 255, which is the included-pixel count for a 0/255 mask. |
| Histogram.Bin | ColorScan.py:92 | Values 0..255 go to their own bin, 256 goes to bin 255, and anything else goes to no bin. |
| Histogram.CountBinBounds | ColorScan.py:92 | Bin k never holds more values than are binned at all. It holds none when no value falls in it, and all of them when every value does. |
| Histogram.CountsTotal | ColorScan.py:92 | The counts add up to the number of values in 0..256. |
| Histogram.ChannelHistogram | ColorScan.py:87-93 | There are 256 counts and 257 edges 0..256. Count k is the number of kept values in bin k, and the counts sum to the number binned. |
| Histogram.Tabulate | ColorScan.py:92 | Counting one value at a time ends with count k equal to the number of values in bin k, and the counts summing to the number binned. |
| Histogram.BlankHistogram | ColorScan.py:1643 | The placeholder value -1 lands in no bin, so every count is 0. |
| Histogram.BytesAllBinned | ColorScan.py:87-93 | Every 8-bit value is counted. |
| Histogram.Plane | ColorScan.py:1537-1539 | Plane k holds channel k of every pixel of the crop. |
| Histogram.HistogramTable | ColorScan.py:1534-1548 | There are 256 rows. Row k is bin k, and its red, green and blue counts are the bin-k counts of channels 2, 1 and 0 under the same mask. |
| Histogram.RedColumnTotal | ColorScan.py:1537-1548 | For an 8-bit crop the red column sums to the number of included pixels. |
| Text.SplitJoin | ColorScan.py:1506 | Splitting comma-joined, comma-free fields gives the fields back. |
| Text.NatToStringRoundTrip | ColorScan.py:1302 | The decimal text of n reads back as n. |
| Text.NatToStringInjective | ColorScan.py:1302 | Different numbers have different decimal texts. |
| Output.ColumnNames | ColorScan.py:1453-1503 | The column count is 5 plus 7 per chosen group. The first name is `id`, the last is `Area [pixels]`, and no name holds a comma. |
| Output.ColumnFacts | ColorScan.py:1456-1497 | With RGB on, R is column 1 and Gray and std Gray are columns 8 and 9. The H column is present exactly when HSV is on, and the L column exactly when Lab is on. |
| Output.SourceHeaderIsJoin | ColorScan.py:1453-1503 | The header built piece by piece is the column names joined by commas. |
| Output.RowCells | ColorScan.py:1443-1501 | Row i starts with label i+1 and ends with the area. With RGB on, columns 1-7 are the RGB means, standard deviations and spacer, and 8-10 the Gray cells. The HSV block follows the Gray cells when its toggle is on, in display units, and the Lab block follows that. |
| Output.RowAligned | ColorScan.py:1446-1501 | Every row has one cell per column, and the spacer cells sit exactly under the empty names. |
| Output.SaveColors | ColorScan.py:1440-1506 | With RGB off, the result is the unbound-variable failure. Otherwise the header splits into exactly the column names, which the rows line up with. Gray and std Gray sit at 8 and 9, H and L appear exactly when their toggles are on, and row i is exactly the row of zone i, with label i+1 and its zone's Gray. |
| Output.HistogramHeaderFields | ColorScan.py:1551 | The histogram header splits into four fields: bin and the red, green and blue channels, each channel name keeping its leading space. |
| Output.CandidateInjective | ColorScan.py:1297-1302 | Different attempts try different directory names. |
| Output.FreshDirName | ColorScan.py:1297-1302 | The loop ends. The chosen name is the candidate for the final number, it does not exist yet, and every earlier candidate exists. |

## Left out

- The Tk user interface: widgets, event binding, sliders as widgets, display
  scaling and `convertCoords`. Slider readings and the index under the
  pointer are inputs.
- OpenCV calls:
  - `findContours`, `contourArea`, `moments`, `matchShapes` and
    `boundingRect`;
  - `dilate`/`erode` and `blur`;
  - `drawShape`, `drawContours` and the rasterisers under them.
  Their results are inputs: areas, moments, scores and 0/255 masks.
- Floating point:
  - `sqrt` (standard deviations are kept as variances);
  - `np.round` of the tolerances and of the unit conversions (treated as
    exact);
  - the trigonometry of polygon outlines.
- The decimal text of the table's numbers (`astype(str)`). Cells keep their
  values.
- File I/O: `savetxt`, `makedirs`, `imwrite`, `os.path.exists` and
  `os.path.splitext`. The set of existing paths and the stem are inputs.
- Font scaling and label placement (`getTextSize`, `putText`): they depend on
  font metrics.
- The crop windows of zones that were not refined come from `boundingRect`,
  which is not modelled. numpy's clamping and negative wrap-around when a
  window crosses the image edge is not modelled either. Crops are given as
  the pixel lists of the window.
- The in-place conversion of `avcolorsHSV`/`avcolorsLAB` through aliases is
  modelled as a pure function. `saveColors` runs once per analysis, so this
  is the same.
- A fully masked numpy result (every pixel masked out) is modelled as "no
  value" instead of numpy's masked constant.
- The histogram bins follow numpy: the last bin is closed, so 256 counts in
  bin 255. It is not the half-open range [0,256).
- Contours.ExtractContours: `np.argsort` does not fix the order of equal
  areas. The model breaks such ties by index, so its order is one of the
  orders the source may produce.
- Refine.DiscInWindow: stated for the square around the center that a
  filled circle or polygon of radius r is drawn within. The rasterised pixels
  themselves come from OpenCV.
- Selection.FindSimilar: requires a valid reference index, because the
  button that runs it is only enabled after a reference has been clicked.
- Selection.SizeMatches: the size tolerance is rounded to one decimal before
  use; the model uses the clipped value unrounded.
- `analyzeContours` reorders `closeIndsPlus` and the centers but not
  `closeSizes` or `indDict` (ColorScan.py:1316-1322). After one analysis,
  `argmax(closeSizes)` (line 1308) and `indDict` (line 1232) read positions
  of the unsorted lists against the sorted ones. The first only picks the
  contour that sets the font size. The second only picks the crop center of
  the refiner dialog. The model takes the sizes as given and checks the
  reference only against the current zones, so it does not track these
  stale positions.
- `cvContour` does not clear the selection lists when it regenerates the
  contours. The model keeps extraction and selection separate and does not
  track stale indices across a regeneration.

## Findings

| source | as written | input that shows it | evidently intended | confidence | as-written member | corrected member |
|---|---|---|---|---|---|---|
| ColorScan.py:1066-1088 | `appendContour` toggles `inContour` even when it is -1 (the pointer is in no contour). `selectContour` guards against this at line 1020. | One matched contour (closeInds = {0}), then a shift-click outside every contour. The effective list becomes [-1, 0], and `findCenters` reads contour -1, which is the last contour, as a second zone. | A shift-click outside every contour is ignored, as a plain click is. | not executed | Selection.AppendContour, Selection.PhantomZoneDuplicates | Selection.AppendContourGuarded, Selection.GuardedKeepsIndicesValid |
| ColorScan.py:1313-1322 | `analyzeContours` reorders the refined masks and centers with the permutation of the current zones. Only `cvContour` discards them (line 919). A tolerance slider, Find Similar or a shift-click after refining re-runs `findCenters` and changes the zone count. | Refine three zones, then tighten the size tolerance so two remain, then analyse: contour 2 is measured with contour 1's mask. With a looser tolerance that finds a third zone after two were refined, line 1321 raises an IndexError. | A new zone set discards the refinement, as `cvContour` does, so every refined mask belongs to its zone. | not executed | Refine.Rezone, Refine.StaleRefinementMisPairs, Refine.StaleRefinementIndexError | Refine.RezoneClearing, Refine.PairedRelabels |
