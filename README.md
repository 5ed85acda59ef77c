# Timelapse assembler and After Effects timecode, in Dafny

This project models the logic of the time-lapse tools: a Python script that turns a directory of stills into a video, and an After Effects text expression.

- **Frame enumeration.** The script keeps the directory entries whose names end in `png`, `jpg`, `jpeg` or `JPG`. The check is case-sensitive and needs no dot. It joins each kept name to the directory as POSIX `os.path.join` does, then sorts the paths as Python sorts strings.
- **Elapsed-time label.** Frame index times seconds per frame is split by three `divmod`s into days, hours, minutes and seconds. The label is rendered as `"{days:02d}d {hours:02d}m {minutes:02d}s"`. The field labelled "m" holds the hours and the field labelled "s" holds the minutes. The seconds are never shown.
- **Collector loop.** The loop walks the sorted files with their enumeration index. A file whose image cannot be opened, or whose font cannot be loaded, is skipped. Three calls are outside any `try`: `ImageDraw.Draw` (line 36), `draw.text` (line 59) and `np.array` (line 62). A failure in any of them raises out of `create_timelapse`, and no video is written. Every file that gets past all four steps is annotated with the label of its own index and appended. When the loop finishes, the video encoder is called with whatever was collected.
- **After Effects expression.** The frame number times 30 seconds is split into unbounded hours, minutes and seconds. It is rendered as `HHh:MMm`, where `padNumber` puts a zero in front of values below 10.

Modules:

- `Decimal` (decimal.dfy) renders integers as Python's `str` and `format(x, "02d")` do. It also holds a reader, used only to prove that the renderings lose nothing.
- `Timecode` (timecode.dfy) is the Python label.
- `FrameEnumerator` (frame_enumerator.dfy) is the filter, POSIX `os.path.join`, string order and `sorted`.
- `Assembler` (assembler.dfy) is the collector loop and `create_timelapse` as methods.
- `AfterEffects` (ae_timecode.dfy) is the expression.
- `Wrappers` (wrappers.dfy) holds `Option`.

External effects become inputs to the model:

- `os.path.isdir` becomes a boolean.
- `os.listdir` becomes a boolean saying whether it returns and the sequence of names it returns. It is not inside a `try`, so a directory that exists but cannot be listed (for example, without read permission) ends the run with the exception, as the outcome `ListingRaised`.
- The image library becomes a `Library` of four success predicates:
  - `Image.open` becomes `opens: string -> bool`, indexed by path.
  - `ImageDraw.Draw` becomes `drawOpens: string -> bool`. It is indexed by path, because it loads the lazily opened pixels.
  - The font load in iteration `idx` becomes `fontLoads: nat -> bool`.
  - `draw.text` with the configured colour, followed by `np.array`, becomes `renders: string -> bool`.
- An exception out of the loop becomes the outcome `FrameRaised`.
- `timeToFrames()` becomes a `nat` parameter.
- A collected frame records its source, font, colour, position and timecode. The timecode is kept as the index and seconds per frame it is computed from, and `Stamp.Text()` is the label string drawn (line 43).
- The encoder call becomes the outcome `Encoded(frames, fps, outputFile, "libx264")`.

Two details of the code that the model keeps:

- The field labelled "s" shows the minutes, not the seconds (line 43). `Timecode.Label` renders the minutes there.
- There is no emptiness check after the loop. The encoder is therefore reached even when every frame was skipped (`Assembler.AllSkippedCollectsNothing`, `Assembler.CreateTimelapse`).

Seconds per frame is an arbitrary `int` in the model. Python's `divmod` with a positive divisor agrees with Dafny's Euclidean `/` and `%` for negative totals too. `:02d` of a negative day count is `"-"` followed by its digits, because the sign already fills the width. Both are modelled exactly, so no precondition is needed.

## Model

| member | source | states |
|---|---|---|
| Decimal.NatToString | timelapse_assembler.py:43 | the decimal form of a non-negative integer is a non-empty string of digits that starts with '0' only for 0 |
| Decimal.ParseNatToString | timelapse_assembler.py:43 | reading the decimal form back gives the number, so distinct values render differently |
| Decimal.NatToStringLength | timelapse_assembler.py:43 | a value in [10^(k-1), 10^k) has exactly k digits, so `:02d` fields widen naturally beyond 99 |
| Decimal.FormatInt | timelapse_assembler.py:43 | `format(x, "0<width>d")`: at least `width` characters, starting with "-" exactly when x is negative. FormatWidth2 gives the three cases of `:02d`, and ParseFormatInt reads the value back. |
| Decimal.FormatWidth2 | timelapse_assembler.py:43 | `:02d` gives "0" plus the digit for 0..9, the plain decimal form for values of 10 or more, and "-" plus the digits for negatives |
| Decimal.ParseFormatInt | timelapse_assembler.py:43 | a zero-padded integer followed by a non-digit reads back as the same integer and the same remaining text |
| Timecode.Decompose | timelapse_assembler.py:39-42 | days*86400 + hours*3600 + minutes*60 + seconds equals the total; hours are in [0,24), minutes and seconds in [0,60); days are non-negative exactly when the total is |
| Timecode.DecomposeUnique | timelapse_assembler.py:40-42 | any breakdown with that sum and those bounds is the one the three divmods compute |
| Timecode.DecomposeByMinute | timelapse_assembler.py:40-42 | the days, hours and minutes depend on the total only through its whole minutes (total div 60) |
| Timecode.TotalLabel | timelapse_assembler.py:39-43 | the label of a total number of seconds. ParseTotalLabel reads (days, hours, minutes) back out of it, TotalLabelSameIffSameMinute says when two totals share a label, and LabelShape gives its exact form and length. |
| Timecode.Label | timelapse_assembler.py:39-43 | the label of frame index idx is that of the total idx*spf. LabelSameIffSameMinute says when two indices share a label; FirstFrameLabel, OneDayLabel and TwoHoursLabel give concrete values. |
| Timecode.ParseTotalLabel | timelapse_assembler.py:43 | the label reads back as exactly (days, hours, minutes): hours sit in the "m" field, minutes in the "s" field, seconds are absent |
| Timecode.TotalLabelSameIffSameMinute | timelapse_assembler.py:39-43 | two totals give the same label if and only if they fall in the same minute |
| Timecode.LabelSameIffSameMinute | timelapse_assembler.py:39-43 | two frame indices give the same label if and only if idx*spf div 60 agrees |
| Timecode.LabelShape | timelapse_assembler.py:43 | for a non-negative total, hours and minutes are always two digits; the label has 11 characters below 100 days and 12 from 100 to 999 days |
| Timecode.FirstFrameLabel | timelapse_assembler.py:39-43 | index 0 is labelled "00d 00m 00s" for every seconds-per-frame value |
| Timecode.OneDayLabel | timelapse_assembler.py:39-43 | index 1 at 86400 seconds per frame is labelled "01d 00m 00s" |
| Timecode.TwoHoursLabel | timelapse_assembler.py:39-43 | index 2 at 3600 seconds per frame is labelled "00d 02m 00s": two hours shown in the "m" field |
| FrameEnumerator.IsImageName | timelapse_assembler.py:21 | `str.endswith` with the suffix tuple. IsImageNameCases, SuffixesAccepted and UpperCaseRejected give the exact set of accepted names. |
| FrameEnumerator.KeepImages | timelapse_assembler.py:21 | each name is kept as often as it is listed if it ends with an image suffix, and never otherwise; every kept name ends with one |
| FrameEnumerator.IsImageNameCases | timelapse_assembler.py:21 | a name is an image name if and only if it ends with "png", "jpg", "jpeg" or "JPG" |
| FrameEnumerator.SuffixesAccepted | timelapse_assembler.py:21 | any text followed by one of the four suffixes is accepted, with or without a dot (e.g. "xpng") |
| FrameEnumerator.UpperCaseRejected | timelapse_assembler.py:21 | any text followed by "PNG" or "JPEG" is rejected |
| FrameEnumerator.KeptIff | timelapse_assembler.py:21 | a name is in the kept list if and only if it is listed and is an image name |
| FrameEnumerator.Join | timelapse_assembler.py:21 | the joined path ends with the name and, for a name not starting with "/", begins with the directory |
| FrameEnumerator.JoinAll | timelapse_assembler.py:21 | joining keeps the length and joins each name at its own position |
| FrameEnumerator.LexLe | timelapse_assembler.py:21 | Python's `<=` on str. LexLeReflexive, LexLeTotal, LexLeAntisymmetric and LexLeTransitive make it a total order, and LexLePrefix puts a prefix first. |
| FrameEnumerator.LexLePrefix | timelapse_assembler.py:21 | a string is at most every string it is a prefix of |
| FrameEnumerator.LexLeReflexive | timelapse_assembler.py:21 | Python's string order is reflexive |
| FrameEnumerator.LexLeTotal | timelapse_assembler.py:21 | any two strings are comparable |
| FrameEnumerator.LexLeAntisymmetric | timelapse_assembler.py:21 | strings ordered both ways are equal |
| FrameEnumerator.LexLeTransitive | timelapse_assembler.py:21 | the order is transitive |
| FrameEnumerator.LexLeCommonPrefix | timelapse_assembler.py:21 | a common prefix does not change how two strings compare |
| FrameEnumerator.Insert | timelapse_assembler.py:21 | insertion adds exactly one occurrence of the element |
| FrameEnumerator.InsertSorted | timelapse_assembler.py:21 | inserting into a sorted list keeps it sorted |
| FrameEnumerator.SortStrings | timelapse_assembler.py:21 | `sorted` returns a non-decreasing permutation of its input |
| FrameEnumerator.SortedHeadLeast | timelapse_assembler.py:21 | the first path of a sorted list is at most every path in it |
| FrameEnumerator.SortedUnique | timelapse_assembler.py:21 | two sorted permutations of the same list are equal, so the order does not depend on the sorting algorithm |
| FrameEnumerator.ImageFiles | timelapse_assembler.py:21 | the frame list is sorted and is a permutation of the joined image names |
| FrameEnumerator.JoinAllInsert | timelapse_assembler.py:21 | for names none of which starts with "/", joining commutes with the insertion step of the sort |
| FrameEnumerator.JoinAllSort | timelapse_assembler.py:21 | for names none of which starts with "/", joining then sorting equals sorting then joining |
| FrameEnumerator.ImageFilesFollowNameOrder | timelapse_assembler.py:21 | the frame list is the kept names sorted and then joined, so the directory does not affect the order |
| FrameEnumerator.ImageFilesEmptyIff | timelapse_assembler.py:21-25 | the frame list is empty if and only if no entry is an image name |
| Assembler.FontFor | timelapse_assembler.py:46-53 | a non-empty font path selects the TrueType font and None or "" selects the built-in one, always at size 150 |
| Assembler.StepAt | timelapse_assembler.py:30-62 | an iteration appends its frame exactly when its open, draw set-up, font load and rendering all succeed |
| Assembler.Survivors | timelapse_assembler.py:28-62 | the surviving indices are strictly increasing. Each one passed its open, draw set-up, font load and rendering, and each is at least its position. |
| Assembler.SurvivorsComplete | timelapse_assembler.py:28-62 | an index is among the survivors of the first n iterations if and only if it is below n and its iteration appends a frame |
| Assembler.Collected | timelapse_assembler.py:28-62 | the list after n iterations has at most n frames. CollectedAreSurvivors says which frames they are. |
| Assembler.CollectedAreSurvivors | timelapse_assembler.py:28-62 | the k-th collected frame is the file at the k-th surviving index. The text drawn on it is that index's label, not the label of k. |
| Assembler.CollectedFramesOpened | timelapse_assembler.py:30-62 | every collected frame's source opened, got a drawing context and rendered |
| Assembler.AllSkippedCollectsNothing | timelapse_assembler.py:28-62 | when every frame fails its open or its font load (without raising first), nothing raises and the collected list is empty |
| Assembler.AllIndicesSurvive | timelapse_assembler.py:28-62 | when nothing fails, the surviving indices are exactly 0, 1, ..., n-1 |
| Assembler.NothingSkippedCollectsAll | timelapse_assembler.py:28-62 | when nothing fails, nothing raises and frame i is file i labelled with index i |
| Assembler.CollectFrames | timelapse_assembler.py:28-62 | the loop raises exactly when some file opens but then fails `ImageDraw.Draw`, or loads its font but then fails `draw.text` or `np.array`. When it does not raise, its list equals the specification of the collected frames and is no longer than the file list. |
| Assembler.CreateTimelapse | timelapse_assembler.py:11-67 | returns early exactly when the directory is missing, or when it is listed and no entry is an image name. It ends with an exception exactly when the directory exists and `os.listdir` fails, or when it is listed, some entry is an image and some frame raises. Otherwise the encoder gets the collected frames, the fps, the output path and libx264, even when nothing was collected. |
| AfterEffects.PadNumber | 30spf.30fps.BrownLab.timecode_template.js:5-11 | `padNumber`. PadNumberCases gives its two branches, PadNumberIsFormat02 equates it with `:02d`, and ParsePadNumber reads the value back. |
| AfterEffects.PadNumberIsFormat02 | 30spf.30fps.BrownLab.timecode_template.js:5-11 | `padNumber` on a non-negative value agrees with Python's `:02d` |
| AfterEffects.PadNumberCases | 30spf.30fps.BrownLab.timecode_template.js:5-11 | below 10 the result is "0" plus the digit; from 10 on it is the decimal form, at least two characters and without a leading zero |
| AfterEffects.ParsePadNumber | 30spf.30fps.BrownLab.timecode_template.js:5-11 | reading the padded text back gives the value |
| AfterEffects.ClockOf | 30spf.30fps.BrownLab.timecode_template.js:13-15 | hours*3600 + minutes*60 + seconds equals frame*30, with minutes and seconds below 60 and hours unbounded |
| AfterEffects.ClockFields | 30spf.30fps.BrownLab.timecode_template.js:1-15 | seconds = (frame*30) mod 60, which is 0 or 30; minutes = ((frame*30) div 60) mod 60; hours = (frame*30) div 3600 = frame div 120 |
| AfterEffects.ClockUnique | 30spf.30fps.BrownLab.timecode_template.js:13-15 | any breakdown with that sum and minutes and seconds below 60 is the one the expression computes |
| AfterEffects.FrameLabel | 30spf.30fps.BrownLab.timecode_template.js:17 | the text shown on the layer. ParseFrameLabelRoundTrip reads (hours, minutes) back out of it, and FrameLabelSameIffSameMinute says when two frames share it. |
| AfterEffects.ParseFrameLabelRoundTrip | 30spf.30fps.BrownLab.timecode_template.js:13-17 | the label reads back as exactly (hours, minutes); the seconds are not shown |
| AfterEffects.FrameLabelSameIffSameMinute | 30spf.30fps.BrownLab.timecode_template.js:13-17 | two frames give the same label if and only if they are in the same minute (frame div 2 agrees) |
| AfterEffects.AgreesWithAssembler | 30spf.30fps.BrownLab.timecode_template.js:13-15 | at 30 seconds per frame, the expression's hours are the assembler's days*24 + hours, and its minutes are the value the assembler shows in its "s" field |

## Left out

- Image decoding, drawing and font rasterisation (`Image.open`, `ImageDraw.Draw`, `ImageFont.truetype`, `load_default().font_variant`, `draw.text`) and the `np.array` conversion are calls into PIL and numpy. They appear only as success or failure, through the four predicates of `Library`, and through the `Frame` record of what was drawn where. Which exception is raised, and a failure that depends on more than the path (or, for the font, the iteration), are not modelled.
- The moviepy `ImageSequenceClip` / `write_videofile` calls are external. The model stops at "encoder invoked with these frames, this fps, this path and libx264"; whatever moviepy does with an empty list is not modelled.
- `os.path.isdir` and `os.listdir` are filesystem I/O. They appear only through the inputs above: whether the directory exists, whether the listing succeeds, and the names listed. Which exception `os.listdir` raises is not modelled. The order of the listing does not matter, because the result is sorted.
- FrameEnumerator.Join: only POSIX `os.path.join` (`posixpath.join`) is modelled. On Windows, `os.path.join` is `ntpath.join`, which uses `\` as the separator and has drive-letter rules. There, the paths in `Frame.source` (and the paths `opens` is asked about) would differ, though the frame order would not.
- File names that are not valid Unicode are not modelled. On POSIX, `os.listdir` turns undecodable bytes into lone surrogates (surrogateescape), and a Dafny `string` holds only Unicode scalar values, so it cannot hold such a name.
- Logging, its configuration and the tqdm progress bar are side output only.
- The `__main__` argument handling (usage message and exit status 1 for fewer than four arguments, `int()` parsing, the defaults "white" and (10, 10)) is command-line plumbing around library parsing.
- A seconds-per-frame value that is not an integer (a float passed by another Python caller) is not modelled. The command line always passes an `int`.
- AfterEffects.ClockOf: JavaScript doubles are replaced by exact integers. This agrees for frame*30 below 2^53. The exponent notation JavaScript uses for numbers of 10^21 and above is not modelled.
- AfterEffects.ClockOf: negative frame numbers are not modelled. The frame is a `nat`, and `padNumber` would render negatives as "0-5".
- FrameEnumerator.ImageFilesFollowNameOrder assumes that no entry starts with "/". This always holds for names returned by `os.listdir`. For such a name, `os.path.join` would discard the directory.
