/** The argument lists handed to the external media tool: one to extract a clip,
    one to concatenate clips, and the filter description the second one carries. */
module Ffmpeg {
  import opened Errors
  import opened Text

  /** `"{:0.2f}".format(x)` for an integer `x`: its decimal digits, a sign when negative, and `.00`. */
  function Fixed2(x: int): (s: string)
    ensures |s| >= 4 && s[|s| - 3..] == ".00"
    ensures x >= 0 ==> IsDigits(s[..|s| - 3]) && DigitsValue(s[..|s| - 3]) == x
    ensures x < 0 ==> s[0] == '-' && IsDigits(s[1..|s| - 3]) && DigitsValue(s[1..|s| - 3]) == -x
  {
    (if x < 0 then "-" + Decimal(-x) else Decimal(x)) + ".00"
  }

  /** `ffmpeg_extract_clip`: seek to `start` seconds in `input` and write to `output`; a
      duration of `end - start` seconds is added only when `end` is present and not 0,
      because the source tests the end value for truth. */
  function ExtractArgs(ffmpeg: string, input: string, output: string, start: nat, end: Option<nat>): seq<string> {
    [ffmpeg, "-i", input, "-y", "-ss", Fixed2(start)]
    + (if end.Some? && end.value != 0 then ["-t", Fixed2(end.value - start)] else [])
    + ["-async", "1", "-strict", "-2", output]
  }

  /** The duration flag appears exactly when the end is present and non-zero; it then sits
      right after the seek position, and the output is always the last argument. */
  lemma ExtractArgsShape(ffmpeg: string, input: string, output: string, start: nat, end: Option<nat>)
    ensures var args := ExtractArgs(ffmpeg, input, output, start, end);
      && (|args| == 13 <==> end.Some? && end.value != 0)
      && (|args| == 11 <==> !(end.Some? && end.value != 0))
      && args[4..6] == ["-ss", Fixed2(start)]
      && (|args| == 13 ==> args[6..8] == ["-t", Fixed2(end.value - start)])
      && args[|args| - 1] == output
  {
  }

  /** An end of 0 seconds is taken as no end at all: the clip runs to the end of the source. */
  lemma ZeroEndIsOpenEnd(ffmpeg: string, input: string, output: string, start: nat)
    ensures ExtractArgs(ffmpeg, input, output, start, Some(0)) == ExtractArgs(ffmpeg, input, output, start, None)
  {
  }

  /** The filter's label for the video stream of input `k`. */
  function VideoLabel(k: nat): string {
    "[" + Decimal(k) + ":v:0]"
  }

  /** The filter's label for the audio stream of input `k`. */
  function AudioLabel(k: nat): string {
    "[" + Decimal(k) + ":a:0]"
  }

  /** `template1` filled in for input `k`. */
  function StreamPair(k: nat): string {
    "[" + Decimal(k) + ":v:0] [" + Decimal(k) + ":a:0]"
  }

  /** The `n` stream pairs, input 0 first. */
  function Segments(n: nat): seq<string> {
    if n == 0 then [] else Segments(n - 1) + [StreamPair(n - 1)]
  }

  /** `template2` filled in for `n` inputs. */
  function ConcatDirective(n: nat): string {
    "concat=n=" + Decimal(n) + ":v=1:a=1 [v] [a]"
  }

  /** `generate_filter_param(n)`: the stream pairs joined by spaces, a space, and the concat directive. */
  function FilterParam(n: nat): string {
    Join(Segments(n), ' ') + " " + ConcatDirective(n)
  }

  /** The stream labels of `n` inputs in order: video of 0, audio of 0, video of 1, ... */
  function Labels(n: nat): seq<string> {
    if n == 0 then [] else Labels(n - 1) + [VideoLabel(n - 1), AudioLabel(n - 1)]
  }

  /** The space-separated words the filter description must consist of for `n` inputs. */
  function FilterWords(n: nat): seq<string> {
    Labels(n) + ["concat=n=" + Decimal(n) + ":v=1:a=1", "[v]", "[a]"]
  }

  lemma {:induction false} LabelsLength(n: nat)
    ensures |Labels(n)| == 2 * n
  {
    if n > 0 {
      LabelsLength(n - 1);
    }
  }

  /** Input `k` contributes its video and then its audio label at positions `2k` and `2k + 1`. */
  lemma {:induction false} LabelPair(n: nat, k: nat)
    requires k < n
    ensures |Labels(n)| == 2 * n
    ensures Labels(n)[2 * k..2 * k + 2] == [VideoLabel(k), AudioLabel(k)]
  {
    LabelsLength(n);
    LabelsLength(n - 1);
    var prev := Labels(n - 1);
    if k < n - 1 {
      LabelPair(n - 1, k);
      SliceOfPrefix(prev, [VideoLabel(n - 1), AudioLabel(n - 1)], 2 * k, 2 * k + 2);
    } else {
      assert Labels(n)[2 * k..2 * k + 2] == Labels(n)[|prev|..];
    }
  }

  lemma LabelsAt(n: nat)
    ensures |Labels(n)| == 2 * n
    ensures forall k :: 0 <= k < n ==> Labels(n)[2 * k..2 * k + 2] == [VideoLabel(k), AudioLabel(k)]
  {
    LabelsLength(n);
    forall k | 0 <= k < n
      ensures Labels(n)[2 * k..2 * k + 2] == [VideoLabel(k), AudioLabel(k)]
    {
      LabelPair(n, k);
    }
  }

  lemma {:induction false} SegmentsAreLabels(n: nat)
    requires n >= 1
    ensures Join(Segments(n), ' ') == Join(Labels(n), ' ')
  {
    var pair := [VideoLabel(n - 1), AudioLabel(n - 1)];
    assert StreamPair(n - 1) == Join(pair, ' ');
    if n == 1 {
      assert Segments(1) == [StreamPair(0)];
      assert Labels(1) == pair;
    } else {
      SegmentsAreLabels(n - 1);
      JoinAppend(Segments(n - 1), [StreamPair(n - 1)], ' ');
      JoinAppend(Labels(n - 1), pair, ' ');
    }
  }

  lemma {:induction false} LabelsHaveNoSpace(n: nat)
    ensures forall i :: 0 <= i < |Labels(n)| ==> ' ' !in Labels(n)[i]
  {
    if n > 0 {
      LabelsHaveNoSpace(n - 1);
      assert !IsDigit(' ');
      var prev := Labels(n - 1);
      forall i | 0 <= i < |Labels(n)|
        ensures ' ' !in Labels(n)[i]
      {
        if i < |prev| {
          assert Labels(n)[i] == prev[i];
        }
      }
    }
  }

  /** The filter description is its words joined by single spaces. */
  lemma FilterParamIsJoin(n: nat)
    requires n >= 1
    ensures FilterParam(n) == Join(FilterWords(n), ' ')
  {
    var tail := ["concat=n=" + Decimal(n) + ":v=1:a=1", "[v]", "[a]"];
    SegmentsAreLabels(n);
    LabelsAt(n);
    assert Join(tail[2..], ' ') == "[a]";
    assert Join(tail[1..], ' ') == "[v]" + " " + "[a]";
    assert ConcatDirective(n) == Join(tail, ' ');
    JoinAppend(Labels(n), tail, ' ');
  }

  lemma FilterWordsHaveNoSpace(n: nat)
    ensures forall i :: 0 <= i < |FilterWords(n)| ==> ' ' !in FilterWords(n)[i]
  {
    LabelsHaveNoSpace(n);
    assert !IsDigit(' ');
    var words := FilterWords(n);
    forall i | 0 <= i < |words|
      ensures ' ' !in words[i]
    {
      if i < |Labels(n)| {
        assert words[i] == Labels(n)[i];
      }
    }
  }

  /** The words of the filter: two labels per input, in input order, then the directive. */
  lemma FilterWordsLayout(n: nat)
    ensures |FilterWords(n)| == 2 * n + 3
    ensures forall k :: 0 <= k < n ==> FilterWords(n)[2 * k..2 * k + 2] == [VideoLabel(k), AudioLabel(k)]
    ensures FilterWords(n)[2 * n..] == ["concat=n=" + Decimal(n) + ":v=1:a=1", "[v]", "[a]"]
  {
    LabelsLength(n);
    var words := FilterWords(n);
    assert words == Labels(n) + words[2 * n..];
    forall k | 0 <= k < n
      ensures words[2 * k..2 * k + 2] == [VideoLabel(k), AudioLabel(k)]
    {
      LabelPair(n, k);
      SliceOfPrefix(Labels(n), FilterWords(n)[2 * n..], 2 * k, 2 * k + 2);
    }
  }

  /** Split on spaces, the filter description for `n >= 1` inputs lists the video and audio
      stream of every input `k` at positions `2k` and `2k + 1`, then declares exactly `n`
      segments of one video and one audio stream each, mapped to `[v]` and `[a]`. */
  lemma FilterParamWords(n: nat)
    requires n >= 1
    ensures Split(FilterParam(n), ' ') == FilterWords(n)
    ensures |FilterWords(n)| == 2 * n + 3
    ensures forall k :: 0 <= k < n ==> FilterWords(n)[2 * k..2 * k + 2] == [VideoLabel(k), AudioLabel(k)]
    ensures FilterWords(n)[2 * n..] == ["concat=n=" + Decimal(n) + ":v=1:a=1", "[v]", "[a]"]
  {
    FilterParamIsJoin(n);
    FilterWordsHaveNoSpace(n);
    FilterWordsLayout(n);
    SplitJoin(FilterWords(n), ' ');
  }

  /** `generate_filter_param`, appending one stream pair per input before joining. */
  method GenerateFilterParam(n: nat) returns (p: string)
    ensures p == FilterParam(n)
    ensures n >= 1 ==> Split(p, ' ') == FilterWords(n)
  {
    var parameter: seq<string> := [];
    for k := 0 to n
      invariant parameter == Segments(k)
    {
      parameter := parameter + [StreamPair(k)];
    }
    p := Join(parameter, ' ') + " " + ConcatDirective(n);
    if n >= 1 {
      FilterParamWords(n);
    }
  }

  /** What a merge command for `clips` is: the tool, an `-i` flag before each clip in
      order, then the concat filter for exactly that many clips, the two stream maps
      and the output. */
  predicate IsMergeCommand(cmd: seq<string>, ffmpeg: string, clips: seq<string>, output: string) {
    && |cmd| == 2 * |clips| + 9
    && cmd[0] == ffmpeg
    && (forall k :: 0 <= k < |clips| ==> cmd[2 * k + 1..2 * k + 3] == ["-i", clips[k]])
    && cmd[2 * |clips| + 1..] == ["-y", "-filter_complex", FilterParam(|clips|), "-map", "[v]", "-map", "[a]", output]
  }

  /** The description above leaves no freedom: it fixes the command completely. */
  lemma MergeCommandUnique(c1: seq<string>, c2: seq<string>, ffmpeg: string, clips: seq<string>, output: string)
    requires IsMergeCommand(c1, ffmpeg, clips, output) && IsMergeCommand(c2, ffmpeg, clips, output)
    ensures c1 == c2
  {
    var n := |clips|;
    forall i | 0 <= i < |c1|
      ensures c1[i] == c2[i]
    {
      if 1 <= i <= 2 * n {
        var k := (i - 1) / 2;
        assert 2 * k <= i - 1 <= 2 * k + 1;
        assert c1[2 * k + 1..2 * k + 3] == ["-i", clips[k]] == c2[2 * k + 1..2 * k + 3];
        assert c1[i] == c1[2 * k + 1..2 * k + 3][i - 2 * k - 1];
        assert c2[i] == c2[2 * k + 1..2 * k + 3][i - 2 * k - 1];
      } else if i > 2 * n {
        assert c1[i] == c1[2 * n + 1..][i - 2 * n - 1];
        assert c2[i] == c2[2 * n + 1..][i - 2 * n - 1];
      }
    }
  }

  /** The tool, the input flags, and the fixed tail around the filter form the merge command. */
  lemma MergeCommandOfParts(ffmpeg: string, inputParams: seq<string>, clips: seq<string>, output: string)
    requires |inputParams| == 2 * |clips|
    requires forall k :: 0 <= k < |clips| ==> inputParams[2 * k..2 * k + 2] == ["-i", clips[k]]
    ensures IsMergeCommand([ffmpeg] + inputParams + ["-y", "-filter_complex", FilterParam(|clips|), "-map", "[v]", "-map", "[a]", output],
      ffmpeg, clips, output)
  {
    var tail := ["-y", "-filter_complex", FilterParam(|clips|), "-map", "[v]", "-map", "[a]", output];
    var cmd := [ffmpeg] + inputParams + tail;
    forall k | 0 <= k < |clips|
      ensures cmd[2 * k + 1..2 * k + 3] == ["-i", clips[k]]
    {
      assert cmd[2 * k + 1..2 * k + 3] == inputParams[2 * k..2 * k + 2];
    }
    assert cmd[2 * |clips| + 1..] == tail;
  }

  /** `ffmpeg_merge_clips`: collects the input flags clip by clip, then appends the filter,
      the stream maps and the output. */
  method MergeCommand(ffmpeg: string, clips: seq<string>, output: string) returns (cmd: seq<string>)
    ensures IsMergeCommand(cmd, ffmpeg, clips, output)
  {
    var inputParams: seq<string> := [];
    for i := 0 to |clips|
      invariant |inputParams| == 2 * i
      invariant forall k :: 0 <= k < i ==> inputParams[2 * k..2 * k + 2] == ["-i", clips[k]]
    {
      var before := inputParams;
      inputParams := inputParams + ["-i"];
      inputParams := inputParams + [clips[i]];
      assert inputParams == before + ["-i", clips[i]];
      forall k | 0 <= k < i + 1
        ensures inputParams[2 * k..2 * k + 2] == ["-i", clips[k]]
      {
        if k < i {
          SliceOfPrefix(before, ["-i", clips[i]], 2 * k, 2 * k + 2);
        }
      }
    }
    var filterParam := GenerateFilterParam(|clips|);
    cmd := [ffmpeg] + inputParams + ["-y", "-filter_complex", filterParam, "-map", "[v]", "-map", "[a]", output];
    MergeCommandOfParts(ffmpeg, inputParams, clips, output);
  }
}
