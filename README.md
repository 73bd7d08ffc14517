# FCN segmentation demo: the decode-and-label path, in Dafny

The demo (source/main.cpp) reads video frames, runs a Caffe FCN-8s network
through OpenCV's DNN module, and shows each frame with a colored
segmentation mask and a text overlay. Everything around the network is
library plumbing. The logic this project models is:

- **Label file loading** (`getLabelsFromFile`): the file's text is read with
  `std::getline` until end-of-file, and every piece between newlines becomes
  one `Label { name, color }` through a `std::stringstream`. The name is the
  first word. Each color component is an `unsigned char`, so each one takes a
  single non-whitespace character. The caller treats an empty table as fatal.
- **Argmax decode**: a channel-major triple loop over the `[chns][rows][cols]`
  score volume. It keeps a running maximum `maxVal` and a winner `maxCl` per
  pixel, and updates them only on a strictly greater score. Both buffers start
  uninitialised.
- **Color lookup**: every pixel's winner selects `labels[winner].color`, and the
  winners are collected in a `std::set`.
- **Overlay name**: the set is walked in ascending order. The names of
  qualifying labels (not index 0, inside the table, non-empty) are joined with
  `" & "`, and the trailing separator is erased.
- **Path prefix and resolution string**: `current_path() + '/'` with
  backslashes replaced by `'/'`, and `"<width>x<height>"`.

Modules, one per concern: `Wrappers` (Option, `Byte`, the `uchar` cast),
`Decimal` (`std::to_string` and decimal values), `LineStream` (string-stream
extraction), `LabelLine` (one line and its `Label`), `LabelFile` (the loader),
`ScoreDecode` (argmax), `Colorize` (lookup), `Overlay` (name join, resolution),
`Paths`, and `Frame` (lines 141-188 in order). The loader and the per-frame
passes are methods with loops, like the source. The per-line extraction and
the path replacement are functions.

Where the code and the format's description disagree, the model follows the
code:
- Color components are single characters, not decimal numbers (see Findings).
- No line is skipped. A blank line, and the empty piece after a trailing
  newline, each add an entry with an empty name and zero color. A malformed
  line adds its first word as the name. Its components are the next three
  non-whitespace characters, with zero for any that are missing: "cat" gives
  ("cat", 0, 0, 0), and "1 2 3" gives ("1", 50, 51, 0).
- The "empty table" check fails only when the file cannot be opened (and the
  vector was empty), because an opened file always adds at least one entry.
- A zero-channel volume raises no error: the buffers keep their initial contents.

## Model

| member | source | states |
|---|---|---|
| `Wrappers.UChar` | source/main.cpp:155 | the `uchar` cast agrees with the value on 0..255 and otherwise reduces modulo 256 |
| `Decimal.ToDecimal` | source/main.cpp:200 | `std::to_string` of a non-negative integer is a non-empty string of digits with no leading zero unless the number is 0 |
| `Decimal.ValueOfToDecimal` | source/main.cpp:200 | reading back the decimal text of n gives n |
| `Decimal.ToDecimalValueOf` | source/main.cpp:200 | writing the value of a canonical numeral gives the numeral back (the two are inverse bijections) |
| `LineStream.ExtractWord` | source/main.cpp:35 | `>> std::string` yields the first whitespace-delimited word of the rest, or fails and keeps the target when only whitespace is left; the stream stays good only when text follows the word; a failed stream is left unchanged |
| `LineStream.ExtractChar` | source/main.cpp:36-38 | `>> unsigned char` yields the next non-whitespace character as a byte and consumes it; with none left it fails and keeps the target; a failed stream is left unchanged |
| `LineStream.SkipSpace` | source/main.cpp:35-38 | the sentry stops at the first non-whitespace position at or after the start |
| `LineStream.WordEnd` | source/main.cpp:35 | a word runs up to the first whitespace or the end of the line |
| `LabelLine.ParseLineSpec` | source/main.cpp:34-38 | a line's label has the line's first word as its name, and its three components are the first three non-whitespace characters after that word, zero where the line has fewer |
| `LabelLine.NameIsWord` | source/main.cpp:35 | a parsed name holds no whitespace and is empty exactly when the line is blank |
| `LabelLine.ParseLineReadsCharacters` | source/main.cpp:36-38 | the line "<name> 128 0 0" yields the color (49, 50, 56), the character codes of '1', '2' and '8' |
| `LabelLine.ParseLineDecimalRoundTrip` | source/main.cpp:36-38 | with decimal components, reading the line "name r g b" written for a label with a one-word name gives the label back |
| `LabelFile.JoinLinesOfLines` | source/main.cpp:29-31 | the pieces that successive `getline` calls return, joined with newlines, are the whole file |
| `LabelFile.LinesShape` | source/main.cpp:29-31 | a text with k newlines gives k + 1 pieces, none holding a newline |
| `LabelFile.LinesOfJoinLines` | source/main.cpp:29-31 | newline-free pieces joined and split again are the same pieces |
| `LabelFile.GetLine` | source/main.cpp:31 | `getline` returns the first remaining piece and moves past its newline, or sets eof when no newline is left |
| `LabelFile.ParseAll` | source/main.cpp:34-39 | one label per line, label k parsed from line k |
| `LabelFile.GetLabelsFromFile` | source/main.cpp:24-43 | an unopenable file leaves `labels` as it was; otherwise the result is `labels` followed by one parsed label per piece of the file, nothing skipped |
| `LabelFile.LoadedEntries` | source/main.cpp:29-39 | after loading, the old entries are in front, the count grows by the number of newlines plus one, and entry k is line k parsed |
| `LabelFile.LoadLabelTable` | source/main.cpp:90-95 | start-up fails exactly when the label file cannot be opened; an opened file gives a table of at least one entry |
| `ScoreDecode.ScanSpec` | source/main.cpp:147-159 | the final `maxVal` is at least the initial one and every score; if no score exceeds the initial `maxVal`, both buffers keep their initial values; otherwise the winner is the first channel reaching the maximum, every earlier channel scoring strictly less |
| `ScoreDecode.WinnerIsChannel` | source/main.cpp:155 | with at most 256 channels, a winner written by the scan is a channel index whose score is the maximum |
| `ScoreDecode.ScanChannel` | source/main.cpp:148-158 | after the row and column loops for channel c, a pixel whose channel-c score strictly exceeds its running maximum holds that score and winner c cast to `uchar`; every other pixel keeps both buffers |
| `ScoreDecode.DecodeScores` | source/main.cpp:141-159 | after the triple loop, each pixel's `maxVal` and `maxCl` are the scan of its column from that pixel's initial buffer contents |
| `ScoreDecode.StaleWinnerSurvives` | source/main.cpp:144-145 | two scores of 0.5 against a stale maximum of 1.0 leave the stale winner 200 in place; zero-filled buffers make a pixel scoring -2.0 and -1.0 keep winner 0 instead of channel 1, its true maximum |
| `ScoreDecode.SeededScanIsFirstArgmax` | source/main.cpp:147-159 | seeding the scan with channel 0 makes the winner the first channel that attains the maximum |
| `ScoreDecode.SeedFromFirstChannel` | source/main.cpp:144-145 | the seeded buffers hold channel 0's scores and winner 0 at every pixel |
| `ScoreDecode.DecodeFromFirstChannel` | source/main.cpp:141-159 | with seeded buffers and 1 to 256 channels, every pixel's winner is the first channel attaining its maximum, and `maxVal` is that channel's score |
| `Colorize.LookUpColors` | source/main.cpp:161-172 | every pixel of the result has the color of its winner's label, and `indexes` is exactly the set of distinct winners |
| `Overlay.AscendingLength` | source/main.cpp:178 | the range-for over the set visits one index per element |
| `Overlay.AscendingMembers` | source/main.cpp:178 | the indexes visited are exactly the elements of the set |
| `Overlay.AscendingSorted` | source/main.cpp:178 | the indexes are visited in strictly increasing order |
| `Overlay.Qualifying` | source/main.cpp:179-180 | every index that is kept is non-zero, inside the table and has a non-empty name |
| `Overlay.QualifyingMembers` | source/main.cpp:179-180 | the filter keeps exactly the qualifying indexes |
| `Overlay.QualifyingAscending` | source/main.cpp:178-180 | the filter keeps ascending order |
| `Overlay.EraseTrailingSeparator` | source/main.cpp:181-186 | the accumulated string is empty exactly when no name was appended; otherwise erasing its last three characters leaves the names joined by " & " with no trailing separator |
| `Overlay.OverlayNameSpec` | source/main.cpp:177-184 | the overlay joins, with " & ", the names of exactly the qualifying indexes of the set, in strictly ascending index order |
| `Overlay.OverlayNameEmpty` | source/main.cpp:185-188 | the overlay is empty, and so not drawn, exactly when no index of the set qualifies |
| `Overlay.BuildName` | source/main.cpp:177-188 | the loop with its final erase yields the overlay name of the table and the set |
| `Overlay.ResolutionRoundTrip` | source/main.cpp:200 | `"<w>x<h>"` has its only non-digit, the 'x', right after the width's numeral; the numerals on either side read back as w and h |
| `Paths.ReplaceBackslashes` | source/main.cpp:83 | replacement keeps the length, leaves no backslash, turns each backslash into '/' and keeps every other character in place |
| `Paths.NormalisePath` | source/main.cpp:82-83 | the prefix is one longer than the current path and ends in '/'; it has no backslash; every other character is unchanged and in place; a path without backslashes just gains the '/' |
| `Frame.ProcessFrame` | source/main.cpp:141-188 | given that every pixel's scan ends on an index of the table, each pixel's `maxVal` and `maxCl` are its scan's maximum and winner, its result is that label's color, and the name is the overlay name of the frame's winners |

## Left out

- Command-line parsing with Boost (source/main.cpp:50-68): library plumbing.
- Video capture and writing, `imshow`, `waitKey`, and the ESC-key loop (source/main.cpp:70-80, 85-88, 98, 109-117, 203-211): I/O and UI. The frame loop is not modelled. The model covers the work done on one frame.
- CUDA detection and backend choice (source/main.cpp:100-107, 127-131): foreign calls.
- Loading and running the network, `readNetFromCaffe`, `blobFromImage` and `forward` (source/main.cpp:119-136): external library. The score volume is an input.
- `resize` and the `addWeighted` blend with weights 0.3 and 1.8 (source/main.cpp:117, 174-175): floating-point image arithmetic inside OpenCV.
- The run-time string from tick counts, `std::to_string(double)` with three characters trimmed (source/main.cpp:133-139): a clock and floating point.
- `putText` positions, fonts and the debug/release and GPU/CPU captions (source/main.cpp:187-201): UI. The resolution string is modelled; drawing it is not.
- Opening the file and reading the working directory: the file is its text (`None` when it cannot be opened), and the current path is an input.
- `LabelFile.GetLabelsFromFile` does not model a read that fails after a successful open, for example a label path that names a directory. `getline` then sets the fail bit but never the end-of-file bit, so the loop at source/main.cpp:29 keeps pushing empty labels without end. The model's file is its text, and reading text always reaches end-of-file.
- Scores are reals. Float32 NaN, whose comparisons are all false, and the floats an uninitialised `maxVal` may hold are not modelled.
- `std::set<size_t>` is a Dafny `set<nat>`, and its ordered traversal is the ascending sequence of its elements. Tree balancing and iterator behaviour are not modelled.
- The score volume is a read-only value, not a `cv::Mat`. Row pointers are array indexing, and no aliasing between the volume and the buffers is possible.
- Characters are Unicode code points. A byte of the label file is a `char` value, reduced to `uchar` modulo 256. Locale-dependent `isspace` is not modelled: the "C" locale is used.
- `Frame.ProcessFrame` models lines 141-188 as written, with uninitialised buffers. It requires that every final winner indexes the table, because line 170 has no bounds check. `ScoreDecode.DecodeFromFirstChannel` is the corrected first step. With it and a table of at least as many labels as channels, that requirement always holds.

## Findings

| source | as written | input that shows it | evidently intended | confidence | as-written member | corrected member |
|---|---|---|---|---|---|---|
| source/main.cpp:144-145 | `maxVal` and `maxCl` are allocated without initialisation, so the strict-greater scan starts from whatever the buffers hold | a pixel whose two channels both score 0.5, with a stale `maxVal` of 1.0 and a stale `maxCl` of 200: the winner stays 200, and `labels[200]` at line 170 is outside any shorter table; with zero-filled buffers, scores -2.0 and -1.0 keep the winner 0 with `maxVal` 0.0, not channel 1 with its maximum -1.0 | buffers seeded so that channel 0 (or the lowest float with winner 0) starts the scan; every winner is then the first channel attaining the maximum | not executed; depends on the memory the allocator returns | `ScoreDecode.StaleWinnerSurvives` | `ScoreDecode.DecodeFromFirstChannel` |
| source/main.cpp:36-38 | each `color[i]` is an `unsigned char`, so `>>` takes one non-whitespace character | the line "cat 128 0 0" gives the color (49, 50, 56) | each component read as a decimal number 0..255, giving (128, 0, 0) | not executed | `LabelLine.ParseLineReadsCharacters` | `LabelLine.ParseLineDecimalRoundTrip` |
