/** The plan `clip_video` carries out: sort and check the intervals, extract one
    temporary clip per interval, then merge the clips or move the only one. */
module ClipPlan {
  import opened Errors
  import opened Text
  import opened TimePoints
  import opened TimeIntervals
  import opened IntervalOrder
  import opened Ffmpeg
  import opened OutputPaths

  /** One external action: running the media tool with an argument list, or moving a file. */
  datatype Step =
    | Extract(args: seq<string>)
    | Merge(args: seq<string>)
    | Move(source: string, target: string)

  /** The temporary file of clip `i`: `tmp<i>` and the input's suffix, in the temporary directory. */
  function ClipName(tmpdir: string, i: nat, suffix: string): string {
    tmpdir + "/tmp" + Decimal(i) + suffix
  }

  /** The temporary files of the first `n` clips, in order. */
  function ClipNames(tmpdir: string, n: nat, suffix: string): (names: seq<string>)
    ensures |names| == n
    ensures forall i :: 0 <= i < n ==> names[i] == ClipName(tmpdir, i, suffix)
  {
    seq(n, i requires 0 <= i < n => ClipName(tmpdir, i, suffix))
  }

  lemma ClipNamesSnoc(tmpdir: string, n: nat, suffix: string)
    ensures ClipNames(tmpdir, n + 1, suffix) == ClipNames(tmpdir, n, suffix) + [ClipName(tmpdir, n, suffix)]
  {
  }

  /** Different clips are written to different files, so no extraction overwrites another. */
  lemma ClipNamesDistinct(tmpdir: string, suffix: string, i: nat, j: nat)
    requires i != j
    ensures ClipName(tmpdir, i, suffix) != ClipName(tmpdir, j, suffix)
  {
    var a, b := Decimal(i), Decimal(j);
    var prefix := tmpdir + "/tmp";
    var x, y := ClipName(tmpdir, i, suffix), ClipName(tmpdir, j, suffix);
    if |a| == |b| {
      assert a != b;
      assert x[|prefix|..|prefix| + |a|] == a;
      assert y[|prefix|..|prefix| + |b|] == b;
    } else {
      assert |x| != |y|;
    }
  }

  /** The end handed to the extraction: the end in seconds, or nothing without an end. */
  function EndSeconds(iv: TimeInterval): (e: Option<nat>)
    ensures e.Some? <==> iv.end.Some?
    ensures e.Some? ==> e.value == iv.end.value.ToSeconds()
  {
    if iv.end.Some? then Some(iv.end.value.ToSeconds()) else None
  }

  /** The extraction of the `i`-th interval into clip `i`. */
  function ExtractStep(ffmpeg: string, inputPath: string, tmpdir: string, suffix: string, i: nat, iv: TimeInterval): Step {
    Extract(ExtractArgs(ffmpeg, inputPath, ClipName(tmpdir, i, suffix), StartKey(iv), EndSeconds(iv)))
  }

  /** The extractions of the first `n` ranges of `sorted`, in order. */
  function Extracts(ffmpeg: string, inputPath: string, tmpdir: string, suffix: string, sorted: seq<TimeInterval>, n: nat): (steps: seq<Step>)
    requires n <= |sorted|
    ensures |steps| == n
    ensures forall i :: 0 <= i < n ==> steps[i] == ExtractStep(ffmpeg, inputPath, tmpdir, suffix, i, sorted[i])
  {
    seq(n, i requires 0 <= i < n => ExtractStep(ffmpeg, inputPath, tmpdir, suffix, i, sorted[i]))
  }

  lemma ExtractsSnoc(ffmpeg: string, inputPath: string, tmpdir: string, suffix: string, sorted: seq<TimeInterval>, n: nat)
    requires n < |sorted|
    ensures Extracts(ffmpeg, inputPath, tmpdir, suffix, sorted, n + 1)
      == Extracts(ffmpeg, inputPath, tmpdir, suffix, sorted, n) + [ExtractStep(ffmpeg, inputPath, tmpdir, suffix, n, sorted[n])]
  {
  }

  /** The extraction of an interval asks for a duration equal to the interval's length,
      unless its end is missing or falls at second 0. */
  lemma ExtractDurationIsLength(ffmpeg: string, input: string, output: string, iv: TimeInterval)
    ensures var args := ExtractArgs(ffmpeg, input, output, StartKey(iv), EndSeconds(iv));
      && (iv.end.Some? && iv.end.value.ToSeconds() != 0 ==> args[6..8] == ["-t", Fixed2(iv.Length())])
      && (iv.end.None? || iv.end.value.ToSeconds() == 0 ==> args == ExtractArgs(ffmpeg, input, output, StartKey(iv), None))
  {
  }

  /** What the plan for ranges already in order is: one extraction per range, in order,
      into clips `tmp0`, `tmp1`, ..., then a move of the only clip to the output, or a
      merge of all the clips in order into the output. */
  predicate IsPlan(steps: seq<Step>, ffmpeg: string, inputPath: string, tmpdir: string, sorted: seq<TimeInterval>, outputPath: string) {
    var n := |sorted|;
    var suffix := Suffix(BaseName(inputPath));
    && |steps| == n + 1
    && (forall i :: 0 <= i < n ==> steps[i] == ExtractStep(ffmpeg, inputPath, tmpdir, suffix, i, sorted[i]))
    && (n == 1 ==> steps[n] == Move(ClipName(tmpdir, 0, suffix), outputPath))
    && (n > 1 ==> steps[n].Merge? && IsMergeCommand(steps[n].args, ffmpeg, ClipNames(tmpdir, n, suffix), outputPath))
  }

  /** The extractions followed by the right final step make up the plan. */
  lemma PlanOfParts(extracts: seq<Step>, last: Step, ffmpeg: string, inputPath: string, tmpdir: string, sorted: seq<TimeInterval>, outputPath: string)
    requires |extracts| == |sorted|
    requires forall i :: 0 <= i < |sorted| ==>
      extracts[i] == ExtractStep(ffmpeg, inputPath, tmpdir, Suffix(BaseName(inputPath)), i, sorted[i])
    requires |sorted| == 1 ==> last == Move(ClipName(tmpdir, 0, Suffix(BaseName(inputPath))), outputPath)
    requires |sorted| > 1 ==> last.Merge? && IsMergeCommand(last.args, ffmpeg, ClipNames(tmpdir, |sorted|, Suffix(BaseName(inputPath))), outputPath)
    ensures IsPlan(extracts + [last], ffmpeg, inputPath, tmpdir, sorted, outputPath)
  {
    var steps := extracts + [last];
    assert forall i :: 0 <= i < |sorted| ==> steps[i] == extracts[i];
  }

  /** `clip_video` for ranges given in any order: the steps it takes, or the error that
      stops it before any step. `tmpdir` stands for the temporary directory's name. */
  method ClipVideo(ffmpeg: string, inputPath: string, tmpdir: string, intervals: seq<TimeInterval>, outputPath: string)
    returns (r: Result<seq<Step>>)
    requires |intervals| > 0
    ensures r.Success? <==> NoAdjacentOverlap(SortByStart(intervals))
    ensures r.Failure? ==> r.error == InvalidTimeInterval(Overlap)
    ensures r.Success? ==> IsPlan(r.value, ffmpeg, inputPath, tmpdir, SortByStart(intervals), outputPath)
  {
    var sorted := SortByStart(intervals);
    var outcome := ValidateIntervals(sorted);
    if outcome.Fail? {
      return Failure(outcome.error);
    }
    var suffix := Suffix(BaseName(inputPath));
    var clips: seq<string> := [];
    var steps: seq<Step> := [];
    for i := 0 to |sorted|
      invariant clips == ClipNames(tmpdir, i, suffix)
      invariant steps == Extracts(ffmpeg, inputPath, tmpdir, suffix, sorted, i)
    {
      var interval := sorted[i];
      var clipName := ClipName(tmpdir, i, suffix);
      ClipNamesSnoc(tmpdir, i, suffix);
      ExtractsSnoc(ffmpeg, inputPath, tmpdir, suffix, sorted, i);
      clips := clips + [clipName];
      steps := steps + [Extract(ExtractArgs(ffmpeg, inputPath, clipName, StartKey(interval), EndSeconds(interval)))];
    }
    var last;
    if |clips| > 1 {
      var mergeCmd := MergeCommand(ffmpeg, clips, outputPath);
      last := Merge(mergeCmd);
    } else {
      last := Move(clips[0], outputPath);
    }
    PlanOfParts(steps, last, ffmpeg, inputPath, tmpdir, sorted, outputPath);
    return Success(steps + [last]);
  }

  /** When the plan goes ahead, the extracted ranges follow one another in time: each clip
      with an end finishes before every later clip starts. */
  lemma PlannedClipsAreSeparated(intervals: seq<TimeInterval>, i: nat, j: nat)
    requires NoAdjacentOverlap(SortByStart(intervals))
    requires i < j < |intervals| && SortByStart(intervals)[i].end.Some?
    ensures SortByStart(intervals)[i].end.value.ToSeconds() < StartKey(SortByStart(intervals)[j])
  {
    SortByStartSpec(intervals);
    SortedValidIsSeparated(SortByStart(intervals), i, j);
  }
}
