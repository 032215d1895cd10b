/** A range of the source video, written `start-end` or `start` alone. */
module TimeIntervals {
  import opened Errors
  import opened Text
  import opened TimePoints

  /** A start and an optional end; without an end the range runs to the end of the source. */
  datatype TimeInterval = TimeInterval(start: TimePoint, end: Option<TimePoint>) {

    predicate Valid() {
      start.Valid() && (end.Some? ==> end.value.Valid())
    }

    /** `__len__`: the span in seconds (negative when the end precedes the start), 0 without an end. */
    function Length(): int {
      if end.Some? then end.value.ToSeconds() - start.ToSeconds() else 0
    }

    /** `__repr__`: the start alone, or the start and the end joined by a dash. */
    function Render(): string
      requires Valid()
    {
      if end.None? then start.Render() else start.Render() + "-" + end.value.Render()
    }
  }

  /** The constructor of an interval. A string holding a dash is split on it and must
      give exactly two parts; an empty second part, like a string without a dash,
      leaves the interval without an end. The start is parsed before the end. */
  function ParseTimeInterval(s: string): (r: Result<TimeInterval>)
    ensures var parts := Split(s, '-');
      && (|parts| > 2 ==> r == Failure(TooManyValuesToUnpack(|parts|)))
      && (|parts| <= 2 ==>
            (r.Success? <==>
               ParseTimePoint(parts[0]).Success?
               && (|parts| == 1 || parts[1] == "" || ParseTimePoint(parts[1]).Success?)))
    ensures r.Success? ==>
      var parts := Split(s, '-');
      && r.value.Valid()
      && ParseTimePoint(parts[0]) == Success(r.value.start)
      && (r.value.end.None? <==> |parts| == 1 || parts[1] == "")
      && (r.value.end.Some? ==> |parts| == 2 && ParseTimePoint(parts[1]) == Success(r.value.end.value))
  {
    if '-' in s then
      var parts := Split(s, '-');
      if |parts| != 2 then Failure(TooManyValuesToUnpack(|parts|))
      else
        var start :- ParseTimePoint(parts[0]);
        if parts[1] == "" then Success(TimeInterval(start, None))
        else
          var end :- ParseTimePoint(parts[1]);
          Success(TimeInterval(start, Some(end)))
    else
      var start :- ParseTimePoint(s);
      Success(TimeInterval(start, None))
  }

  /** A trailing dash changes nothing: `"1:00-"` is the same interval as `"1:00"`. */
  lemma {:induction false} TrailingDashMeansNoEnd(s: string)
    requires '-' !in s
    ensures ParseTimeInterval(s + "-") == ParseTimeInterval(s)
    ensures ParseTimeInterval(s).Success? ==> ParseTimeInterval(s).value.end.None?
  {
    SplitAfterPiece(s, "", '-');
    assert s + "-" == s + ['-'] + "";
  }

  /** Rendering an interval and parsing the text gives the same interval back. */
  lemma {:induction false} RenderParseRoundTrip(iv: TimeInterval)
    requires iv.Valid()
    ensures ParseTimeInterval(iv.Render()) == Success(iv)
  {
    var a := iv.start.Render();
    RenderAlphabet(iv.start, '-');
    TimePoints.RenderParseRoundTrip(iv.start);
    if iv.end.Some? {
      var b := iv.end.value.Render();
      RenderAlphabet(iv.end.value, '-');
      TimePoints.RenderParseRoundTrip(iv.end.value);
      SplitAfterPiece(a, b, '-');
      assert iv.Render() == a + ['-'] + b;
      assert b != "" by {
        assert |Pad2(iv.end.value.hours)| == 2;
      }
    }
  }

  /** An end part that is a word, not a number, is refused as not a number; in
      particular there is no `end` keyword for "to the end of the source". */
  lemma {:induction false} WordEndRefused(a: string, w: string)
    requires '-' !in a && ParseTimePoint(a).Success?
    requires '-' !in w && ':' !in w && w != "" && !IsDigits(w)
    ensures ParseTimeInterval(a + "-" + w) == Failure(InvalidTimeDuration(NotANumber(w)))
  {
    SplitAfterPiece(a, w, '-');
    assert a + "-" + w == a + ['-'] + w;
  }

  /** Start and end are never checked against each other: `a-b` is accepted whenever both
      parts are, and its length is then the end minus the start, negative when the end
      comes first (as in `"30-10"`). */
  lemma {:induction false} EndNotCheckedAgainstStart(a: string, b: string)
    requires '-' !in a && '-' !in b
    requires ParseTimePoint(a).Success? && ParseTimePoint(b).Success?
    ensures var iv := ParseTimeInterval(a + "-" + b);
      && iv == Success(TimeInterval(ParseTimePoint(a).value, Some(ParseTimePoint(b).value)))
      && iv.value.Length() == ParseTimePoint(b).value.ToSeconds() - ParseTimePoint(a).value.ToSeconds()
  {
    SplitAfterPiece(a, b, '-');
    assert a + "-" + b == a + ['-'] + b;
  }
}
