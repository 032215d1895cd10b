# vclip — a verified model of its time-range logic

`vclip.py` cuts ranges out of a video with ffmpeg and joins them into one file.
The user supplies a list of time ranges. Each range is `start-end` or `start`
alone, and each time is `[H:][M]M:SS` (a bare number of seconds is accepted too).
The program then:

1. parses every range;
2. sorts the ranges by start time;
3. refuses neighbouring ranges that collide;
4. extracts one temporary clip per range;
5. merges the clips, or moves the only clip to the output path.

This project models that logic in Dafny, with every process and filesystem effect
replaced by values:

- `errors.dfy` (`Errors`): the error kinds, carried in a `Result`. The source
  raises an exception whose constructor prints and exits.
- `text.dfy` (`Text`): the Python string operations the source relies on:
  - `split` and `join`;
  - `int()` on a digit string;
  - `"{:02d}"`;
  - `lower()` (ASCII only);
  - `replace`, including its behaviour on an empty pattern.
- `time_point.dfy` (`TimePoints`): `TimePoint` parsing and section checks,
  `convert_to_seconds`, the five comparisons, and `__repr__`.
- `time_interval.dfy` (`TimeIntervals`): `TimeInterval` parsing, `__len__` and
  `__repr__`.
- `interval_order.dfy` (`IntervalOrder`): the stable sort by start second, and
  `validate_intervals` as a method with a loop.
- `ffmpeg.dfy` (`Ffmpeg`): the argument lists of `ffmpeg_extract_clip` and
  `ffmpeg_merge_clips`, and `generate_filter_param`. `ExtractArgs` is a function,
  since `ffmpeg_extract_clip` has no loop. `MergeCommand` and `GenerateFilterParam`
  are methods with loops, as `ffmpeg_merge_clips` and `generate_filter_param` are.
- `output_path.dfy` (`OutputPaths`): `Path.name`, `Path.suffix`, and the file-name
  expression of `get_output_path`. It also holds the corrected definitions listed
  under "Findings".
- `clip_video.dfy` (`ClipPlan`): `clip_video` as a method that returns the steps it
  would carry out:
  - one `Extract` per range, writing to `tmp<i><suffix>`;
  - then one `Move` when there is a single clip, or one `Merge` of all clips.

`TimePoint` and `TimeInterval` are datatypes. Their constructors only assign
fields once, and no method changes a field afterwards.

The model keeps these behaviours of the code, which its usage text (vclip.py:168-174)
and its comments do not mention:

- A time may be a bare number of seconds such as `45`. Only more than three
  sections are refused, although the message asks for at least minutes and seconds.

- There is no `end` keyword. A range runs to the end of the source only when the
  end part is missing or empty (`"1:00-"`).
- A range without an end never collides with the range after it.
- An end before the start is accepted, and the length is then negative.
- A string with two or more dashes fails while being unpacked into start and end.
  The failure is Python's `ValueError`, not the program's interval error. It is
  modelled as `TooManyValuesToUnpack`.
- Any time with more than three sections fails with `InvalidTimeInterval`.
- An end of exactly second 0 is passed to the extractor as "no end": the source
  tests the number for truth.

## Model

| member | source | states |
|---|---|---|
| Text.Split | vclip.py:51 | `str.split` with a one-character separator, also used at vclip.py:99: at least one piece, one piece exactly when the separator is absent; `JoinSplit` and `SplitJoin` prove it inverse to `Join` |
| Text.Join | vclip.py:46 | `" ".join`; `SplitJoin` and `JoinSplit` prove it inverse to `Split`, and `JoinAppend` how it composes |
| Text.Lower | vclip.py:188 | `str.lower` on ASCII letters; `NormalizeAvoids` proves no upper-case letter survives it |
| Text.Replace | vclip.py:188 | `str.replace`; `ReplaceEmpty` gives the empty-pattern case, `ReplaceAbsent` the no-match case, and `ReplaceAfterPlain` the skipping of text where no match starts |
| Text.Decimal | vclip.py:149 | the decimal text of a number is a digit string that denotes that number and has no leading zero |
| Text.Pad2 | vclip.py:93 | `{:02d}` of a value below 100 is two digits denoting that value |
| TimePoints.ParseSection | vclip.py:67-75 | a section is accepted exactly when it is a digit string whose value lies in 0..60; the result is that value; a non-number fails as not a number, and every refusal is an `InvalidTimeDuration` |
| TimePoints.ParseTimePoint | vclip.py:50-62 | success exactly when there are at most three `:`-sections and each is a valid section; more than three fails with `InvalidTimeInterval`; other failures are `InvalidTimeDuration`; seconds come from the last section, minutes from the one before it (else 0), hours from the first of three (else 0); every field is at most 60 |
| TimePoints.TimePoint.ToSeconds | vclip.py:64-65 | `convert_to_seconds`; it has no contract of its own, and `ParsedSecondsAreSexagesimal` proves it reads the sections in base 60 |
| TimePoints.ParsedSecondsAreSexagesimal | vclip.py:64-65 | the total seconds of a parsed point equal its sections read as a base-60 number |
| TimePoints.TimePoint.Lt | vclip.py:77-78 | `__lt__` on total seconds; `ComparisonIsTotalPreorder` relates it to `<=` |
| TimePoints.TimePoint.Gt | vclip.py:80-81 | `__gt__` on total seconds; `ComparisonIsTotalPreorder` relates it to `<=` |
| TimePoints.TimePoint.Le | vclip.py:83-84 | `__le__` on total seconds; `ComparisonIsTotalPreorder` proves it reflexive, transitive and total |
| TimePoints.TimePoint.Ge | vclip.py:86-87 | `__ge__` on total seconds; `ComparisonIsTotalPreorder` relates it to `<=` |
| TimePoints.TimePoint.Eq | vclip.py:89-90 | `__eq__` on total seconds; `ComparisonIsTotalPreorder`, `DistinctSpellingsCompareEqual` and `CanonicalEqIsIdentity` say when it holds |
| TimePoints.ComparisonIsTotalPreorder | vclip.py:77-90 | `<=` is reflexive, transitive and total, and `==`, `<`, `>`, `>=` are each determined by `<=` on the total seconds |
| TimePoints.ParseMinutesSeconds | vclip.py:50-62 | two valid sections joined by `:` parse to zero hours, the first as minutes and the second as seconds |
| TimePoints.DistinctSpellingsCompareEqual | vclip.py:89-90 | `m1:s1` and `m2:s2` with one minute more and 60 seconds fewer (as `1:00` and `0:60`) parse to different fields that compare equal |
| TimePoints.CanonicalEqIsIdentity | vclip.py:89-90 | for points whose minutes and seconds are below 60, comparing equal means having equal fields |
| TimePoints.TimePoint.Render | vclip.py:92-93 | `__repr__`; `RenderAlphabet` and `RenderParseRoundTrip` give its alphabet and its inverse |
| TimePoints.RenderAlphabet | vclip.py:92-93 | the rendered `HH:MM:SS` holds only digits and colons |
| TimePoints.RenderParseRoundTrip | vclip.py:50-93 | parsing the rendering of any parsed point gives the same hours, minutes and seconds back |
| TimeIntervals.ParseTimeInterval | vclip.py:97-105 | with a dash, the text must split into exactly two parts, else the unpacking fails; the start is parsed from the first part; the end is absent exactly when there is no dash or the second part is empty, and otherwise is parsed from the second part; success exactly when those parses succeed |
| TimeIntervals.TimeInterval.Length | vclip.py:107-110 | `__len__`; `EndNotCheckedAgainstStart` proves it is end minus start, and `ExtractDurationIsLength` that it is the duration asked for |
| TimeIntervals.TimeInterval.Render | vclip.py:112-115 | `__repr__`; `TimeIntervals.RenderParseRoundTrip` proves parsing inverts it |
| TimeIntervals.TrailingDashMeansNoEnd | vclip.py:98-105 | `s + "-"` parses exactly as `s`, without an end |
| TimeIntervals.RenderParseRoundTrip | vclip.py:112-115 | parsing the rendering of any parsed interval gives the same interval |
| TimeIntervals.WordEndRefused | vclip.py:97-105 | an end part that is a word is refused as not a number, so there is no end keyword |
| TimeIntervals.EndNotCheckedAgainstStart | vclip.py:97-110 | `a-b` with two valid dash-free times parses to the range from `a` to `b` whatever their order, and its length is `b` minus `a` in seconds, negative when `b` comes first |
| IntervalOrder.SortByStart | vclip.py:141 | the sort keeps the length; `SortByStartSorted`, `SortByStartCount` and `SortByStartStable` prove it sorted, a permutation and stable |
| IntervalOrder.SortByStartSorted | vclip.py:141 | the sorted list is ordered by start second |
| IntervalOrder.SortByStartCount | vclip.py:141 | the sorted list holds exactly the ranges given, each as many times |
| IntervalOrder.SortByStartStable | vclip.py:141 | the ranges sharing a start come out in the order they were given |
| IntervalOrder.SortByStartSpec | vclip.py:141 | the sort yields a permutation of its input, ordered by start second, in which the ranges sharing a start keep their order |
| IntervalOrder.SortsPair | vclip.py:141 | two ranges with different starts come out earliest first in either input order |
| IntervalOrder.ValidateIntervals | vclip.py:119-127 | passes exactly when no range has an end at or after the start of the next one, so lists of zero or one range always pass; a failure is the interval error; the list is a value and is left unchanged |
| IntervalOrder.Overlaps | vclip.py:125 | the overlap test: the first range has an end at or after the next start; `OpenEndNeverOverlaps` and `ValidateIntervals` use it |
| IntervalOrder.OpenEndNeverOverlaps | vclip.py:125 | a range without an end never collides with its successor |
| IntervalOrder.SortedValidIsSeparated | vclip.py:119-127 | in a sorted list that passes the check, every range with an end finishes before every later range starts |
| IntervalOrder.OverlappingRangesRefused | vclip.py:141-143 | `00:20-00:40` and `00:10-00:30` are put in order and then refused |
| IntervalOrder.SeparateRangesAccepted | vclip.py:141-143 | `00:20-00:40` and `00:00-00:10` are put in order and then accepted |
| Ffmpeg.Fixed2 | vclip.py:17-19 | the two-decimal rendering of a whole number ends in `.00`, and the rest is its digits, after a minus sign when it is negative |
| Ffmpeg.ExtractArgs | vclip.py:16-20 | `ffmpeg_extract_clip`'s argument list; `ExtractArgsShape` and `ZeroEndIsOpenEnd` state its layout |
| Ffmpeg.ExtractArgsShape | vclip.py:16-20 | the extract command seeks to the start; it carries `-t` with end minus start exactly when the end is present and non-zero; the output is its last argument |
| Ffmpeg.ZeroEndIsOpenEnd | vclip.py:18 | an end of 0 gives the same command as no end |
| Ffmpeg.FilterParam | vclip.py:41-46 | `generate_filter_param`; `FilterParamWords` gives its words |
| Ffmpeg.FilterParamWords | vclip.py:41-46 | split on spaces, the filter for n >= 1 inputs lists the video and audio label of each input in order, then `concat=n=<n>:v=1:a=1`, `[v]` and `[a]` |
| Ffmpeg.GenerateFilterParam | vclip.py:41-46 | the loop builds the filter text, whose words are those above |
| Ffmpeg.MergeCommand | vclip.py:25-34 | the merge command is the tool, then `-i` and the clip for each clip in order, then the filter for that many clips, the two stream maps and the output |
| Ffmpeg.MergeCommandUnique | vclip.py:25-34 | that description fixes the merge command completely |
| Ffmpeg.MergeCommandOfParts | vclip.py:25-34 | the tool, the input pairs, the filter option and the maps, concatenated, meet that description |
| OutputPaths.BaseName | vclip.py:185-188 | the name is the end of the path after its last `/`: it holds no `/`, and it is the whole path or follows a `/` |
| OutputPaths.Suffix | vclip.py:187 | the suffix is empty or a dot followed by at least one character and no other dot; it ends the name and is shorter than the name |
| OutputPaths.SuffixPresence | vclip.py:187 | the suffix is non-empty exactly when the name's last dot is neither its first nor its last character; with the contract of `Suffix` it is then the text from that dot on |
| OutputPaths.OutputFileName | vclip.py:188 | the file-name expression; its results are given by `OutputFileNameSingleDot`, `OutputFileNameMixedCaseSuffix` and `OutputFileNameNoSuffix` |
| OutputPaths.OutputFileNameSingleDot | vclip.py:184-188 | for a name with a single inner dot and a lower-case, space-free suffix, the output name is the normalised stem, `_clip`, and the suffix |
| OutputPaths.OutputFileNameMixedCaseSuffix | vclip.py:187-188 | a suffix with an upper-case letter never matches the lower-cased name, so the output name is just the normalised name |
| OutputPaths.OutputFileNameNoSuffix | vclip.py:187-188 | for a name without a suffix, the output is the normalised name with `_clip` before every character and at the end (`Interleaved`), 6n + 5 characters for a name of n |
| OutputPaths.OutputFileNameOfLetters | vclip.py:187-188 | a name of lower-case letters only, such as `movie`, becomes that name with `_clip` before every letter and at the end |
| OutputPaths.OutputPath | vclip.py:189 | `get_output_path` before `absolute()`; `OutputPathUsesLastComponent` gives its pieces |
| OutputPaths.OutputPathUsesLastComponent | vclip.py:189 | only the last component of the output directory is kept; a directory with no name puts the file directly after the root `/` |
| OutputPaths.ClipFileName | vclip.py:188 | the intended name is as long as the input name plus five and ends with `_clip` and the normalised suffix, whatever the suffix |
| OutputPaths.ClipFileNameAgrees | vclip.py:188 | on names with a single inner dot and a lower-case, space-free suffix, the intended name equals the source's |
| OutputPaths.IntendedOutputPathKeepsDirectory | vclip.py:189 | split on `/`, the intended path is the root (an empty first piece) when the directory is absolute, then every output-directory component, then the file name; an absolute directory gives a path starting with `/` |
| ClipPlan.ClipName | vclip.py:149 | the temporary name `tmp<i><suffix>` in the temporary directory; `ClipNamesDistinct` proves distinct clips get distinct names |
| ClipPlan.ClipNames | vclip.py:148-150 | clip `i` is written to `tmp<i><suffix>` in the temporary directory, one name per range |
| ClipPlan.ClipNamesDistinct | vclip.py:149 | different clips get different file names |
| ClipPlan.EndSeconds | vclip.py:154-155 | the end handed to the extraction is present exactly when the range has an end, and is its total seconds |
| ClipPlan.ExtractDurationIsLength | vclip.py:151-155 | the duration asked for is the range's length when the end is present and non-zero; otherwise the command is the open-ended one |
| ClipPlan.ExtractStep | vclip.py:151-156 | one extraction: the input, clip `i`, the start and end seconds; `ExtractDurationIsLength` gives its duration |
| ClipPlan.Extracts | vclip.py:148-155 | the first `n` steps extract sorted range `i` into clip `i`, in order |
| ClipPlan.IsPlan | vclip.py:148-164 | the plan: one extraction per sorted range in order, then a move of the only clip or a merge of all clips; `ClipVideo` ensures it |
| ClipPlan.PlanOfParts | vclip.py:148-165 | the extractions followed by the move of the only clip, or by a merge of all clips, make up the plan |
| ClipPlan.ClipVideo | vclip.py:140-165 | the plan goes ahead exactly when the sorted ranges pass the overlap check, and otherwise fails with the interval error before any step; on success it is `IsPlan`: one step per range plus one, step `i` extracts sorted range `i` into clip `i`, and the last step moves clip 0 to the output when there is one range and otherwise merges all clips in order |
| ClipPlan.PlannedClipsAreSeparated | vclip.py:141-143 | when the plan goes ahead, each extracted range with an end finishes before every later one starts |

## Left out

- Running ffmpeg (`subprocess.Popen`) and draining its output (`read_proc_stdout`) are left out; the model yields the argument lists as `Extract` and `Merge` steps.
- `tempfile.TemporaryDirectory` is a `tmpdir` parameter; `shutil.move` is a `Move` step.
- `Path.absolute()` is left out; the clips and the output path are kept as built. For the clips this is the identity, since the temporary directory's name is absolute.
- `Path.exists()`, `os.getcwd()`, the `FFMPEG_PATH` environment variable (a `ffmpeg` parameter here) and the missing-binary check are left out. They read the environment.
- Argument parsing (`argparse`, `run`, `process_arguments`) and the usage text are left out as command-line glue. `process_arguments` calls `clip_video` only with a non-empty list, which is `ClipPlan.ClipVideo`'s precondition.
- The printing and `sys.exit` in the exception constructors are left out; a failure is a `Failure` value carrying the error kind.
- Ffmpeg.Fixed2: `"{:0.2f}"` is modelled for whole numbers only, since only whole seconds reach it; floats are not modelled.
- TimePoints.ParseSection: `int()` also accepts surrounding whitespace, a sign, `_` separators and non-ASCII digits. Here a section is a non-empty string of ASCII digits, and anything else is not a number.
- OutputPaths.Normalize: `lower()` is modelled for ASCII letters only.
- OutputPaths.BaseName: `Path.name` is modelled on a normalised path, as the last `/`-separated piece. The output directory is given as its components, without the root and without `.`, as pathlib splits it; the corrected path also takes whether the directory is absolute.
- TimeIntervals.TimeInterval.Length: this is `__len__` as the method returns it. Python's `len()` would reject a negative result, but the program never calls `len()` on an interval.
- The progress and result messages printed by `clip_video` are left out.

## Findings

| source | as written | input that shows it | evidently intended | confidence | as-written member | corrected member |
|---|---|---|---|---|---|---|
| vclip.py:187-188 | the suffix, possibly empty, is replaced everywhere in the lower-cased name | `movie` (no suffix) becomes `_clipm_clipo_clipv_clipi_clipe_clip` | `movie_clip` | high, not executed | OutputPaths.OutputFileNameNoSuffix | OutputPaths.ClipFileName |
| vclip.py:187-188 | the suffix is matched in its original case against the lower-cased name | `Movie.MP4` becomes `movie.mp4`, with no `_clip` | `movie_clip.mp4` | high, not executed | OutputPaths.OutputFileNameMixedCaseSuffix | OutputPaths.ClipFileName |
| vclip.py:189 | only the name of the output directory is kept, before the path is made absolute | `-o .` gives `/movie_clip.mp4` at the filesystem root; `-o /data/out` gives `out/movie_clip.mp4`, relative to the working directory | the file inside the given output directory | high, not executed | OutputPaths.OutputPathUsesLastComponent | OutputPaths.IntendedOutputPathKeepsDirectory |
