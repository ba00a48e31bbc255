# hello_kitti core, modelled in Dafny

This project models the record-loading and value-copying core of the
hello_kitti repository:

- the comma log loader (`comma::LogLoader`). It reads a log file and
  decompresses it when the path names a bzip2 file. It then cuts the buffer
  into framed messages, one after the other, and turns each into one
  record. Encode-index messages get a second record, the presentation
  ("frame") copy. After a clean walk the records are sorted by
  `(mono_time, which)`.
- the route and segment name parsers (`parseRouteName`,
  `parseSegmentName`), and `startsWith`/`endsWith`;
- the OpenCV helpers over matrices: `median`, `createMat`, `toVector`,
  `copy` and `iterate`. A matrix is a sequence of rows.
- `composeRigidTransformationMatrix`, KITTI's `parseMatrix`, and three
  lidar operations: `makeHomogeneous`, the in-image filter at the end of
  `project`, and `depthMapFromProjectedPoints`;
- `print_shape`, which joins tensor dimensions with `x`.

The modules follow the source files:

| module | source |
|---|---|
| `Results` | Option and Result wrappers |
| `Strings` | `string.hpp` and the `find`/`rfind` semantics of `std::string` |
| `Numerals` | decimal printing (`operator<<`) and `std::stoul` |
| `RouteNames` | `comma/src/utils.cpp` |
| `Events` | `Event` of `comma.hpp` |
| `LogLoading` | `comma.cpp` and `LogLoader` of `comma.hpp` |
| `OpenCvUtils` | `opencv_utils.hpp`, with row-major flattening, `hconcat`/`vconcat` |
| `Projection` | `projection.cpp` |
| `KittiUtils` | `kitti_utils.cpp` |
| `Lidar` | `lidar.cpp` |
| `ShapeFormat` | `src/main.cpp` |

### How the loader is modelled

- Reading the file, bzip2 decompression and Cap'n Proto decoding are
  parameters of `Load`. They are the file's bytes, a decompression
  function and a `Decoder`.
- The decoder maps a range of 8-byte words to a `Frame`: kind, log time,
  start-of-frame and end-of-frame stamps, whether the encode index in the
  message's first pointer can be read, and length in words. It can also
  fail, which stands for the `kj::Exception`. It is only assumed to
  consume at least one word and no more than it was given (`Advances`).
- For an encode-index kind the presentation copy reads the encode index
  after the plain record is already appended. When that read raises, the
  walk ends there, failed, with the plain record kept and no copy.
- The walk over the buffer is specified by the function `WalkFrom`.
  `AppendRecords` is the `while` loop of `parse()` and is proved to
  append exactly `ExpandAll` of that walk.
- `LogLoader` is a class with the fields `loaded`, `contents` and
  `events`. Its `Valid()` invariant ties `loaded` to "non-empty buffer and
  at least one record".

### Where the code is followed over the prose description

- `parse()` asserts that the buffer is a whole number of words. Under
  `NDEBUG` it then uses the `size / 8` whole words, so the model drops the
  trailing bytes and does not require the length to be a multiple of 8.
- The record list is appended to, not cleared. A retried load after a
  failure starts from no records only because a failed load keeps none. In
  the model this is the `Valid()` invariant.
- `std::stoul` accepts trailing characters and a leading sign. A `-`
  negates modulo 2^64. A segment tail such as `"7abc"` therefore parses as
  7, which the model keeps.

## Model

| member | source | states |
|---|---|---|
| Strings.StartsWith | modules/common/include/common/string.hpp:5-11 | true iff the prefix is no longer than the input and equals the input's first characters |
| Strings.EndsWith | modules/common/include/common/string.hpp:13-19 | true iff the suffix is no longer than the input and equals the input's last characters |
| Strings.EmptyIsPrefixAndSuffix | modules/common/include/common/string.hpp:5-19 | the empty string is both a prefix and a suffix of every input |
| Strings.LongerIsNeitherPrefixNorSuffix | modules/common/include/common/string.hpp:9-10 | an affix longer than the input is neither a prefix nor a suffix |
| Strings.ConcatenationHasItsParts | modules/common/include/common/string.hpp:5-19 | p is a prefix of p + t and a suffix of t + p, for all t |
| Strings.Find | modules/comma/src/utils.cpp:52 | `find`: the first occurrence of the pattern, or none exactly when it occurs nowhere |
| Strings.RFind | modules/comma/src/utils.cpp:60 | `rfind`: the last occurrence of the pattern, or none exactly when it occurs nowhere |
| RouteNames.ParseRouteName | modules/comma/src/utils.cpp:51-57 | fails iff there is no vertical bar, and then returns ("", "", false); on success the input is dongle, bar, route, and the dongle has no bar |
| RouteNames.RouteNameRoundTrip | modules/comma/src/utils.cpp:51-57 | parsing d, a vertical bar, then r gives (d, r, true) for every d without a bar and every r |
| RouteNames.ParseSegmentName | modules/comma/src/utils.cpp:59-65 | no "--" gives ("", 0, false); on success the route is the text before the last "--" and the index is stoul of the text after it; an stoul error is returned as Failure |
| RouteNames.SegmentNameRoundTrip | modules/comma/src/utils.cpp:59-65 | route + "--" + decimal(n) parses to (route, n, true) for every route, including routes that contain "--" |
| RouteNames.SegmentNameExample | modules/comma/src/utils.cpp:60-64 | "07-27--13-01--2" splits at the last "--" into route "07-27--13-01" and index 2 |
| RouteNames.RouteNameExample | modules/comma/src/utils.cpp:52-56 | "d1", a vertical bar, "07--13" splits into dongle "d1" and route "07--13", the "--" staying in the route |
| RouteNames.SegmentNameErrorExample | modules/comma/src/utils.cpp:64 | "07-27--x" has a "--" but no number after it, so stoul's invalid_argument comes back as the error |
| Numerals.DecimalRoundTrip | modules/comma/src/utils.cpp:64 | the digits written for n read back as n |
| Numerals.StoulReadsDecimal | modules/comma/src/utils.cpp:64 | stoul reads the decimal form of any n < 2^64 back as n, whatever non-digit text follows |
| Numerals.StoulRejectsNonNumeric | modules/comma/src/utils.cpp:64 | a tail that starts with no digit, space or sign makes stoul fail with invalid_argument |
| Numerals.Stoul | modules/comma/src/utils.cpp:64 | `std::stoul`: every value it returns fits in unsigned long, below 2^64; the lemmas beside it state what it reads |
| Numerals.ReadMagnitude | modules/comma/src/utils.cpp:64 | the digit run at the front as an unsigned long: every value it returns is below 2^64 |
| Numerals.ReadsDigitRun | modules/comma/src/utils.cpp:64 | a digit run followed by no further digit reads as its value, or throws out_of_range when that is 2^64 or more |
| Numerals.StoulFromDigit | modules/comma/src/utils.cpp:64 | a text that starts with a digit is read from its first character |
| Numerals.StoulMinus | modules/comma/src/utils.cpp:64 | a text that starts with '-' fails as the magnitude after the sign fails, and otherwise reads as that magnitude negated modulo 2^64 |
| Numerals.MinusOneIsULongMax | modules/comma/src/utils.cpp:64 | "-1" reads as ULONG_MAX, 2^64 - 1 |
| Numerals.StoulOutOfRange | modules/comma/src/utils.cpp:64 | digits worth 2^64 or more, followed by no further digit, throw out_of_range |
| Numerals.StoulSkipsSpace | modules/comma/src/utils.cpp:64 | leading white space is skipped |
| Numerals.StoulNegates | modules/comma/src/utils.cpp:64 | a '-' before a digit run worth m, with 0 < m < 2^64, reads as 2^64 - m |
| Numerals.SignedDecimal | src/main.cpp:20-21 | `operator<<` of a signed integer: one or more characters, each a digit or '-', starting with '-' iff the number is negative |
| Numerals.SignedDecimalInjective | src/main.cpp:20-21 | different integers print differently |
| Events.PresentationTime | modules/comma/src/comma.cpp:81-91 | start of frame if it is set, else end of frame if it is set, else the log time |
| Events.MakeEvent | modules/comma/src/comma.cpp:73-92 | a record has the message's kind and word range; a plain record takes the log time, a presentation copy takes the presentation time |
| Events.PresentationTimeChoice | modules/comma/src/comma.cpp:76-91 | the presentation time is one of the three stamps, is 0 only when all three are 0, and a record made without `frame` is plain |
| Events.LessThanIsStrictWeakOrder | modules/comma/include/comma/comma.hpp:14-18 | LessThan is irreflexive, asymmetric and transitive; incomparability is exactly equal (mono_time, which) and is transitive |
| Events.LessThan | modules/comma/include/comma/comma.hpp:14-18 | an earlier mono_time is less, a later one is not, and at equal mono_time the smaller kind is less |
| LogLoading.IsBz2Path | modules/comma/src/comma.cpp:31-33 | decompression happens iff ".bz2" occurs anywhere in the path |
| LogLoading.Bz2AnywhereInPath | modules/comma/src/comma.cpp:31 | ".bz2" in the middle of a path also triggers decompression |
| LogLoading.WalkStep | modules/comma/src/comma.cpp:43-53 | a message the decoder accepts ends strictly after the cursor and within the buffer; if its presentation copy raises the walk ends there, failed, otherwise the walk from its end follows |
| LogLoading.WalkHead | modules/comma/src/comma.cpp:43-53 | a walk with messages starts with the decoder's reading at the cursor; after it come the messages from its end, or none if its copy raised |
| LogLoading.WalkFrameAt | modules/comma/src/comma.cpp:43-53 | message k starts where message k - 1 ended, is what the decoder reads there, ends within the buffer, and is one whose copy raised only if it is the last |
| LogLoading.WalkIsContiguous | modules/comma/src/comma.cpp:43-53 | the walk consumes the buffer front to back: first message at the cursor, each next one at the previous one's end, each the decoder's reading at its offset, and only the last can be one whose copy raised |
| LogLoading.WalkStops | modules/comma/src/comma.cpp:43-58 | the walk stops cleanly exactly at the end of the buffer; flagged failed, it stops after a message whose copy raised or exactly at a message the decoder rejects |
| LogLoading.WalkAt | modules/comma/src/comma.cpp:43-53 | after k messages the cursor is at the next message of the walk (its last if that message's copy raises), or at its clean end, or at the rejected message |
| LogLoading.ExpandAllSnoc | modules/comma/src/comma.cpp:44-50 | the records of k + 1 messages are those of the first k followed by those of message k |
| LogLoading.RecordCount | modules/comma/src/comma.cpp:44-50 | the count law: records == messages + messages whose presentation copy was made |
| LogLoading.PlainRecordPerFrame | modules/comma/src/comma.cpp:44 | every message yields its plain record |
| LogLoading.PresentationCopies | modules/comma/src/comma.cpp:45-50 | a presentation copy is appended for every encode-index message whose encode index could be read, and for no other kind |
| LogLoading.InsertionPoint | modules/comma/src/comma.cpp:61 | the first position whose record the new one is less than |
| LogLoading.Insert | modules/comma/src/comma.cpp:61 | inserting into an ordered list keeps it ordered and adds exactly that record |
| LogLoading.SortByKey | modules/comma/src/comma.cpp:60-62 | std::sort by LessThan: the result is non-decreasing and a permutation of the input |
| LogLoading.StepRejected | modules/comma/src/comma.cpp:43-58 | a loop turn that meets a message the decoder rejects: the walk is over, failed, and every record of it is already appended |
| LogLoading.StepAccepted | modules/comma/src/comma.cpp:43-53 | a loop turn that meets an accepted message: it is the walk's next message, its end is the next cursor, and it is the walk's last, failed, if its copy raises |
| LogLoading.AppendNext | modules/comma/src/comma.cpp:44-50 | the records of message k come right after those of the messages before it |
| LogLoading.WalkEnded | modules/comma/src/comma.cpp:43 | a loop that runs out of words after messages that all completed has appended the whole walk, which did not fail |
| LogLoading.AppendMessage | modules/comma/src/comma.cpp:44-50 | the plain record, then for an encode-index kind the copy; it raises exactly for an encode-index kind whose encode index cannot be read, and then only the plain record is appended |
| LogLoading.AppendRecords | modules/comma/src/comma.cpp:41-58 | the decode loop appends exactly the records of the walk from word 0 (the plain record of a message whose copy raised included), and reports failure exactly when the walk hits a rejected message or a raising copy |
| LogLoading.LogLoader.constructor | modules/comma/src/comma.cpp:10-11 | a new loader is not loaded and holds no bytes and no records |
| LogLoading.LogLoader.Load | modules/comma/src/comma.cpp:17-26 | once loaded, load changes nothing; otherwise it reads, parses, and is loaded iff the buffer is non-empty and records were produced |
| LogLoading.LogLoader.Read | modules/comma/src/comma.cpp:28-34 | the buffer is the file's bytes, decompressed iff the path contains ".bz2" |
| LogLoading.LogLoader.Parse | modules/comma/src/comma.cpp:36-63 | after a clean walk: the old records plus the decoded ones, sorted and permuted; after a decode error or a raising copy: the same in decode order, unsorted |
| LogLoading.LogLoader.IsLoaded | modules/comma/src/comma.cpp:13-15 | true iff the loader holds a non-empty buffer and at least one record |
| LogLoading.LogLoader.Size | modules/comma/src/comma.cpp:69-71 | the number of records held, which is 0 while the loader is not loaded |
| LogLoading.LoadTwice | test/comma/comma.test.cpp:10-17 | a new loader is not loaded; after one load it holds as many records as the walk of the file's buffer produced, and is loaded iff the buffer is non-empty and that count is positive; a second load keeps it loaded with the same count |
| LogLoading.CursorReferenceValid | modules/comma/src/comma.cpp:44-53 | as written: the reference to the plain record is still valid at line 53 iff the message is not of an encode-index kind or the second emplace_back does not reallocate |
| LogLoading.CursorDanglesWhenFull | modules/comma/src/comma.cpp:44-53 | for an encode-index kind the reference dangles exactly when the plain record filled the vector |
| LogLoading.FirstEncodeIndexDangles | modules/comma/src/comma.cpp:44-53 | an encode-index message appended first to an empty vector leaves the reference dangling |
| OpenCvUtils.RowStartIsProduct | modules/common/include/common/opencv_utils.hpp:29-35 | row r of a matrix with `cols` columns starts at flat index r * cols |
| OpenCvUtils.FlattenLength | modules/common/include/common/opencv_utils.hpp:29-35 | the row-major flattening has rows * cols entries |
| OpenCvUtils.FlattenAt | modules/common/include/common/opencv_utils.hpp:29-35 | entry (r, c) is at flat index r * cols + c |
| OpenCvUtils.Reshape | modules/common/include/common/opencv_utils.hpp:26 | `reshape` gives a rows x cols matrix whose row-major flattening is the input |
| OpenCvUtils.ReshapeFlatten | modules/common/include/common/opencv_utils.hpp:26-33 | reshaping a matrix's flattening to its own shape gives the matrix back |
| OpenCvUtils.CreateMat | modules/common/include/common/opencv_utils.hpp:22-27 | requires height * width values; gives a height x width matrix whose toVector is the values |
| OpenCvUtils.ToVector | modules/common/include/common/opencv_utils.hpp:29-35 | rows * cols entries, which reshape back into the matrix |
| OpenCvUtils.ToVectorAt | modules/common/include/common/opencv_utils.hpp:29-35 | entry r * cols + c of toVector is m[r][c] |
| OpenCvUtils.Copy | modules/common/include/common/opencv_utils.hpp:37-41 | the vector ends up holding exactly the row-major entries, rows * cols of them, which reshape back into the matrix; assign replaces, so nothing it held before is a parameter |
| OpenCvUtils.Iterate | modules/common/include/common/opencv_utils.hpp:43-59 | the callback receives (m[r][c], r, c) for every cell, row by row, each cell once |
| OpenCvUtils.IterateOrder | modules/common/include/common/opencv_utils.hpp:43-59 | call number r * cols + c is for cell (r, c), and there are rows * cols calls |
| OpenCvUtils.VisitedValues | modules/common/include/common/opencv_utils.hpp:43-59 | the values the callback receives are the matrix's row-major flattening |
| OpenCvUtils.HConcat | modules/common/src/projection.cpp:18 | `hconcat`: each row is the row of a followed by the row of b |
| OpenCvUtils.VConcat | modules/common/src/projection.cpp:20 | `vconcat`: the rows of a followed by the rows of b |
| OpenCvUtils.CountIfAppend | modules/common/include/common/opencv_utils.hpp:14-16 | counting over a concatenation adds the counts |
| OpenCvUtils.CountIfPermutation | modules/common/include/common/opencv_utils.hpp:17 | a reordering (as nth_element does) keeps every count |
| OpenCvUtils.CountIfBounds | modules/common/include/common/opencv_utils.hpp:17-18 | a count is at most the length, all when every entry qualifies, none when none does |
| OpenCvUtils.CountMonotone | modules/common/include/common/opencv_utils.hpp:17-18 | for x < y, the entries at most x are no more than the entries below y |
| OpenCvUtils.OrderStatisticUnique | modules/common/include/common/opencv_utils.hpp:17-18 | the k-th smallest value is unique |
| OpenCvUtils.PartitionedIsOrderStatistic | modules/common/include/common/opencv_utils.hpp:17-18 | after nth_element's partition, entry k is the k-th smallest value |
| OpenCvUtils.SortedIsOrderStatistic | modules/common/include/common/opencv_utils.hpp:17-18 | in a sorted sequence, entry k is the k-th smallest value |
| OpenCvUtils.SwapInMinimum | modules/common/include/common/opencv_utils.hpp:17 | swapping the minimum of the rest into place i extends the selected prefix by one |
| OpenCvUtils.NthElement | modules/common/include/common/opencv_utils.hpp:17 | `nth_element`: a permutation of the input in which nothing before k is greater, and nothing after k is smaller, than entry k |
| OpenCvUtils.Median | modules/common/include/common/opencv_utils.hpp:10-19 | for a non-empty matrix: an entry of the input that is its n/2-th smallest value (fewer than n/2 + 1 entries are smaller, at least n/2 + 1 are at most it) |
| OpenCvUtils.MedianIsSortedMiddle | modules/common/include/common/opencv_utils.hpp:17-18 | the median is entry n/2 of the sorted flattening |
| OpenCvUtils.MedianOfFixture | test/common/opencv_utils.test.cpp:9-12 | the median of 5 6 1 2 3 4 6 777 8 is 5 |
| Projection.ComposeRigidTransformationMatrix | modules/common/src/projection.cpp:13-23 | requires a 3x3 rotation and a 3x1 translation; the result is 4x4, its top-left 3x3 block is the rotation, column 3 of rows 0-2 is the translation, row 3 is 0 0 0 1 |
| Projection.DefaultTranslationColumn | modules/common/include/common/projection.hpp:14-15 | with the default zero translation the last column is 0 0 0 1 and the rotation is kept |
| KittiUtils.DivModUnique | modules/kitti/src/kitti_utils.cpp:9 | linear index r * cols + c is in row r, column c |
| KittiUtils.LinearCell | modules/kitti/src/kitti_utils.cpp:8-9 | a linear index below rows * cols names a cell of the matrix |
| KittiUtils.ParseMatrix | modules/kitti/src/kitti_utils.cpp:4-12 | requires rows * cols entries; gives a new rows x cols matrix with entry i at row i / cols, column i % cols; every cell is the row-major layout of the input |
| KittiUtils.LinearIndices | modules/kitti/src/kitti_utils.cpp:8-10 | if each cell (r, c) holds entry r * cols + c, then each entry i is in cell (i / cols, i % cols) |
| KittiUtils.CellsFromLinear | modules/kitti/src/kitti_utils.cpp:8-10 | entry i in cell (i / cols, i % cols) for every i means the matrix is createMat of the input |
| Lidar.MakeHomogeneous | modules/lidar/src/lidar.cpp:7-25 | requires 3 columns; keeps the row count, gives 4 columns, columns 0-2 are the input rows and column 3 is 1 |
| Lidar.ProjectFilter | modules/lidar/src/lidar.cpp:42-61 | for a positive image size, the points with 0 <= u <= width and 0 <= v <= height, in order; otherwise every point |
| Lidar.KeepWithinSound | modules/lidar/src/lidar.cpp:51-55 | every kept point is inside the bounds |
| Lidar.KeepWithinComplete | modules/lidar/src/lidar.cpp:51-55 | every point inside the bounds is kept |
| Lidar.KeepWithinAppend | modules/lidar/src/lidar.cpp:44-56 | filtering keeps the order: the points kept from a + b are those kept from a followed by those from b |
| Lidar.LastHitMiss | modules/lidar/src/lidar.cpp:68 | a pixel no point falls on stays 0 |
| Lidar.LastHitIsLast | modules/lidar/src/lidar.cpp:69-80 | a pixel holds the z of the last point that falls on it |
| Lidar.DepthMapFromProjectedPoints | modules/lidar/src/lidar.cpp:64-82 | requires 0 <= u < width and 0 <= v < height for every point; gives a new height x width map whose pixel (v, u) is the z of the last point there, or 0 |
| Lidar.FilterKeepsFarEdge | modules/lidar/src/lidar.cpp:51 | a point with u == width passes the filter of `project` yet breaks the u < width requirement of the depth map |
| Lidar.StrictFilterFitsDepthMap | modules/lidar/src/lidar.cpp:77-78 | with the far edges excluded, every kept point is a valid depth-map input |
| Lidar.DepthMapOfImage | apps/kitti_lidar_depth/src/main.cpp:170-171 | project then depth map, with the strict filter: a new height x width map whose every pixel is the z of the last kept point there, or 0; all zeros when no point falls inside the image |
| Lidar.ProjectedShape | modules/lidar/src/lidar.cpp:42-61 | as written: without a positive image size, 3 rows of doubles and a column per point; with one and at least one kept point, 3 rows of doubles and a column per kept point |
| Lidar.EmptyProjectionRejected | modules/lidar/src/lidar.cpp:42-66 | project's result fails the depth map's check for 3 rows of doubles iff the image has a positive size and no point falls inside it |
| Lidar.PointLeftOfImageRejected | modules/lidar/src/lidar.cpp:43-66 | one point at u = -1 in a 10 x 10 image: project returns the empty 0 x 0 matrix, which the depth map rejects |
| ShapeFormat.PrintShape | src/main.cpp:18-23 | for a non-empty shape: the decimal forms of the dimensions joined by "x" |
| ShapeFormat.SeparatorCount | src/main.cpp:20 | the text has exactly one separator fewer than there are dimensions |
| ShapeFormat.SplitShape | src/main.cpp:18-23 | splitting the text at "x" gives back the decimal form of each dimension |
| ShapeFormat.ShapeInjective | src/main.cpp:18-23 | different shapes print differently |
| ShapeFormat.SingleDimension | src/main.cpp:20-21 | a single dimension prints as just its number |
| ShapeFormat.ExampleShape | src/main.cpp:18-23 | [1, 3, 640, 640] prints as "1x3x640x640" |

## Left out

- File reading (`common::readFile`) and bzip2 decompression (`decompressBZ2`) are parameters of `Load`: the file's bytes and a function on bytes.
- Cap'n Proto message reading and the cereal schema (`FlatArrayMessageReader`, `getRoot`, `getPointerSection`) are an abstract `Decoder`. The numeric values of the three encode-index kinds come from that schema and are stand-in constants.
- The error message that `parse()` writes to standard error is not modelled.
- `Event`'s borrowed `reader`/`event` views are represented by the message's word offset and length.
- The debug-only `assert(size % 8 == 0)` of `parse()`: the model follows the release build, which uses the whole words only.
- The loader's `events()` accessor is the `events` field; `size()` is `Size`.
- LogLoading.SortByKey: specified by std::sort's contract, ordered and a permutation; the particular order of records with equal keys (std::sort is not stable) is not modelled.
- OpenCvUtils.NthElement: specified by nth_element's contract; the particular arrangement std::nth_element leaves is not modelled.
- OpenCvUtils.CreateMat: only the single-channel case; no caller passes another channel count.
- OpenCvUtils.Median: only for `int` entries; the `float` and `double` instances are not modelled, and the overload with a filter that `lidar::getDepth` calls is not part of this model.
- `common::print` (formatted output through `iterate`) is not modelled.
- OpenCvUtils.Iterate: the callback is represented by the sequence of its calls; what a callback does to the matrix it receives by reference is not modelled.
- Floating point: entries are `real`, so rounding, NaN and the `convertTo` of `makeHomogeneous` to double are not modelled.
- Lidar.ProjectFilter and Lidar.DepthMapFromProjectedPoints: pixel coordinates are integers. The source compares doubles and truncates them when it indexes the map. The matrix product and the division by z that produce them are not modelled.
- `lidar::getDepth`, stereo depth, the ML modules, the replay `Player`, visualisation and the applications' plumbing are not part of this model.
- ShapeFormat.PrintShape: dimensions are unbounded integers, so the 64-bit range of `std::int64_t` is not modelled. The empty shape, where `v.size() - 1` wraps around, is excluded by the precondition.

## Findings

| source | as written | input that shows it | evidently intended | confidence | as-written member | corrected member |
|---|---|---|---|---|---|---|
| modules/lidar/src/lidar.cpp:51 | `project` keeps points with `u <= width` and `v <= height`, but `depthMapFromProjectedPoints` asserts `u < width` and `v < height` (lines 77-78), and apps/kitti_lidar_depth/src/main.cpp:170-171 feeds the first into the second | a projected point at u == width, 0 <= v <= height | the filter excludes the far edges: `u >= size.width` and `v >= size.height` are skipped | not executed | Lidar.FilterKeepsFarEdge | Lidar.StrictFilterFitsDepthMap |
| modules/comma/src/comma.cpp:44 | `auto &event = events_.emplace_back(allWords)` keeps a reference into the vector; for an encode-index kind line 49 appends again, which reallocates when the vector is full, and line 53 then reads `event.reader.getEnd()` through the dangling reference (undefined behaviour) | the first message of a log, of an encode-index kind: the empty vector grows to capacity 1, and the copy forces a reallocation | advance the cursor by the end of the message just decoded, read before the second append or by index | not executed | LogLoading.FirstEncodeIndexDangles | LogLoading.AppendRecords |
| modules/lidar/src/lidar.cpp:43 | for a positive image size `project` pushes the kept columns into a default-constructed `cv::Mat` and returns its transpose; when no point is kept that is the empty 0 x 0 matrix of 8-bit elements, which fails `depthMapFromProjectedPoints`' `rows == 3` and `CV_64F` assertions (lines 65-66) | one projected point at u = -1 in a 10 x 10 image | an image no point falls inside gets an all-zero depth map of its size | not executed | Lidar.PointLeftOfImageRejected | Lidar.DepthMapOfImage |
