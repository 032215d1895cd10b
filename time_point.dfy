/** A point in the source video, written `[H:][M]M:SS`, and its arithmetic. */
module TimePoints {
  import opened Errors
  import opened Text

  /** The largest value any section may hold: `max_` of the section parser. */
  const MAX_SECTION: nat := 60

  /** Hours, minutes and seconds as parsed; a minute may hold 60 seconds and an hour 60 minutes. */
  datatype TimePoint = TimePoint(hours: nat, minutes: nat, seconds: nat) {

    /** Every parsed time point has each field within the section bound. */
    predicate Valid() {
      hours <= MAX_SECTION && minutes <= MAX_SECTION && seconds <= MAX_SECTION
    }

    /** `convert_to_seconds`. */
    function ToSeconds(): nat {
      seconds + minutes * 60 + hours * 3600
    }

    // The five comparison operators, each on the total number of seconds.
    predicate Lt(other: TimePoint) { ToSeconds() < other.ToSeconds() }
    predicate Gt(other: TimePoint) { ToSeconds() > other.ToSeconds() }
    predicate Le(other: TimePoint) { ToSeconds() <= other.ToSeconds() }
    predicate Ge(other: TimePoint) { ToSeconds() >= other.ToSeconds() }
    predicate Eq(other: TimePoint) { ToSeconds() == other.ToSeconds() }

    /** `__repr__`: `HH:MM:SS`, each field zero-padded to two digits. */
    function Render(): string
      requires Valid()
    {
      Pad2(hours) + ":" + Pad2(minutes) + ":" + Pad2(seconds)
    }
  }

  /** A section the parser accepts: an integer between 0 and the bound. */
  predicate IsSection(t: string) {
    IsDigits(t) && DigitsValue(t) <= MAX_SECTION
  }

  /** `parse_time_section`: the integer a section denotes, or why it is refused. */
  function ParseSection(t: string): (r: Result<nat>)
    ensures r.Success? <==> IsSection(t)
    ensures r.Success? ==> IsSection(t) && r.value == DigitsValue(t)
    ensures r.Failure? ==> r.error.InvalidTimeDuration?
    ensures !IsDigits(t) ==> r == Failure(InvalidTimeDuration(NotANumber(t)))
  {
    if !IsDigits(t) then Failure(InvalidTimeDuration(NotANumber(t)))
    else
      var v := DigitsValue(t);
      if v > MAX_SECTION then Failure(InvalidTimeDuration(OutOfRange(v, MAX_SECTION)))
      else Success(v)
  }

  /** The constructor of a time point: split on `:`; seconds come from the last
      section, minutes from the one before it, hours from the first of three.
      Sections are parsed seconds first, then minutes, then hours, so the first
      bad section in that order names the failure. `split` never yields fewer
      than one section, so only "more than three" is checked. */
  function ParseTimePoint(s: string): (r: Result<TimePoint>)
    ensures var sections := Split(s, ':');
      && (r.Success? <==> |sections| <= 3 && forall i :: 0 <= i < |sections| ==> IsSection(sections[i]))
      && (|sections| > 3 ==> r == Failure(InvalidTimeInterval(TooManySections(|sections|))))
      && (|sections| <= 3 && r.Failure? ==> r.error.InvalidTimeDuration?)
    ensures r.Success? ==>
      var sections := Split(s, ':');
      var n := |sections|;
      && r.value.Valid()
      && IsSection(sections[n - 1]) && r.value.seconds == DigitsValue(sections[n - 1])
      && r.value.minutes == (if n >= 2 then DigitsValue(sections[n - 2]) else 0)
      && r.value.hours == (if n == 3 then DigitsValue(sections[0]) else 0)
  {
    var sections := Split(s, ':');
    var n := |sections|;
    if n > 3 then Failure(InvalidTimeInterval(TooManySections(n)))
    else
      var seconds :- ParseSection(sections[n - 1]);
      var minutes :- if n >= 2 then ParseSection(sections[n - 2]) else Success(0);
      var hours :- if n == 3 then ParseSection(sections[0]) else Success(0);
      Success(TimePoint(hours, minutes, seconds))
  }

  /** The value of a list of digit strings read as a number in base 60, most significant first. */
  function Sexagesimal(digits: seq<string>): nat
    requires forall i :: 0 <= i < |digits| ==> IsDigits(digits[i])
    decreases |digits|
  {
    if digits == [] then 0
    else
      var init := digits[..|digits| - 1];
      assert forall i :: 0 <= i < |init| ==> init[i] == digits[i];
      assert IsDigits(digits[|digits| - 1]);
      60 * Sexagesimal(init) + DigitsValue(digits[|digits| - 1])
  }

  /** Taking one more digit string multiplies the value so far by 60 and adds the new digit. */
  lemma SexagesimalPrefix(digits: seq<string>, k: nat)
    requires forall i :: 0 <= i < |digits| ==> IsDigits(digits[i])
    requires 1 <= k <= |digits|
    ensures Sexagesimal(digits[..k]) == 60 * Sexagesimal(digits[..k - 1]) + DigitsValue(digits[k - 1])
  {
    assert digits[..k][..k - 1] == digits[..k - 1];
  }

  /** Fields taken from one to three digit sections, last section first, add up to the
      sections read in base 60. */
  lemma FieldsAreSexagesimal(sections: seq<string>, p: TimePoint)
    requires 1 <= |sections| <= 3
    requires forall i :: 0 <= i < |sections| ==> IsDigits(sections[i])
    requires IsDigits(sections[0]) && IsDigits(sections[|sections| - 1])
    requires |sections| >= 2 ==> IsDigits(sections[|sections| - 2])
    requires p.seconds == DigitsValue(sections[|sections| - 1])
    requires p.minutes == (if |sections| >= 2 then DigitsValue(sections[|sections| - 2]) else 0)
    requires p.hours == (if |sections| == 3 then DigitsValue(sections[0]) else 0)
    ensures p.ToSeconds() == Sexagesimal(sections)
  {
    var n := |sections|;
    assert sections[..0] == [];
    SexagesimalPrefix(sections, 1);
    if n == 1 {
      assert sections[..1] == sections;
    } else {
      SexagesimalPrefix(sections, 2);
      if n == 2 {
        assert sections[..2] == sections;
      } else {
        SexagesimalPrefix(sections, 3);
        assert sections[..3] == sections;
      }
    }
  }

  /** The seconds of a parsed time point are its sections read as a base-60 number. */
  lemma ParsedSecondsAreSexagesimal(s: string)
    requires ParseTimePoint(s).Success?
    ensures var sections := Split(s, ':');
      (forall i :: 0 <= i < |sections| ==> IsDigits(sections[i]))
      && ParseTimePoint(s).value.ToSeconds() == Sexagesimal(sections)
  {
    var sections := Split(s, ':');
    assert forall i :: 0 <= i < |sections| ==> IsSection(sections[i]);
    FieldsAreSexagesimal(sections, ParseTimePoint(s).value);
  }

  /** The comparisons are a total preorder on time points, and each one is
      determined by `Le` alone. */
  lemma ComparisonIsTotalPreorder(a: TimePoint, b: TimePoint, c: TimePoint)
    ensures a.Le(a)
    ensures a.Le(b) && b.Le(c) ==> a.Le(c)
    ensures a.Le(b) || b.Le(a)
    ensures a.Eq(b) <==> a.Le(b) && b.Le(a)
    ensures a.Lt(b) <==> !b.Le(a)
    ensures a.Gt(b) <==> b.Lt(a)
    ensures a.Ge(b) <==> b.Le(a)
  {
  }

  /** `M:SS` with two valid sections parses to those minutes and seconds and no hours. */
  lemma ParseMinutesSeconds(m: string, sec: string)
    requires IsSection(m) && IsSection(sec)
    ensures ParseTimePoint(m + ":" + sec) == Success(TimePoint(0, DigitsValue(m), DigitsValue(sec)))
  {
    assert !IsDigit(':');
    SplitAfterPiece(m, sec, ':');
    assert m + ":" + sec == m + [':'] + sec;
  }

  /** Two different spellings of one instant compare equal, as `"1:00"` and `"0:60"` do:
      a minute more and 60 seconds fewer gives other fields but the same total. */
  lemma DistinctSpellingsCompareEqual(m1: string, s1: string, m2: string, s2: string)
    requires IsSection(m1) && IsSection(s1) && IsSection(m2) && IsSection(s2)
    requires DigitsValue(m1) == DigitsValue(m2) + 1 && DigitsValue(s2) == DigitsValue(s1) + 60
    ensures var p, q := ParseTimePoint(m1 + ":" + s1), ParseTimePoint(m2 + ":" + s2);
      && p == Success(TimePoint(0, DigitsValue(m1), 0))
      && q == Success(TimePoint(0, DigitsValue(m2), 60))
      && p.value.Eq(q.value) && p.value != q.value
  {
    ParseMinutesSeconds(m1, s1);
    ParseMinutesSeconds(m2, s2);
    assert DigitsValue(s1) == 0 && DigitsValue(s2) == 60;
    var p, q := TimePoint(0, DigitsValue(m1), 0), TimePoint(0, DigitsValue(m2), 60);
    assert p.ToSeconds() == 60 * DigitsValue(m2) + 60 == q.ToSeconds();
  }

  /** A number written with one base-60 digit and a rest is written so in only one way. */
  lemma Base60Unique(x1: nat, y1: nat, x2: nat, y2: nat)
    requires x1 < 60 && x2 < 60 && x1 + 60 * y1 == x2 + 60 * y2
    ensures x1 == x2 && y1 == y2
  {
  }

  /** For canonical points (fewer than 60 minutes and seconds), equal totals mean equal fields. */
  lemma CanonicalEqIsIdentity(a: TimePoint, b: TimePoint)
    requires a.minutes < 60 && a.seconds < 60 && b.minutes < 60 && b.seconds < 60
    requires a.Eq(b)
    ensures a == b
  {
    Base60Unique(a.seconds, a.minutes + 60 * a.hours, b.seconds, b.minutes + 60 * b.hours);
    Base60Unique(a.minutes, a.hours, b.minutes, b.hours);
  }

  /** The rendered form holds only digits and colons. */
  lemma RenderAlphabet(p: TimePoint, x: char)
    requires p.Valid()
    requires x != ':' && !IsDigit(x)
    ensures x !in p.Render()
  {
  }

  /** Rendering a time point and parsing the text gives back the same hours, minutes and seconds. */
  lemma {:induction false} RenderParseRoundTrip(p: TimePoint)
    requires p.Valid()
    ensures ParseTimePoint(p.Render()) == Success(p)
  {
    var h, m, s := Pad2(p.hours), Pad2(p.minutes), Pad2(p.seconds);
    assert p.Render() == h + [':'] + (m + [':'] + s);
    assert ':' !in h && ':' !in m && ':' !in s by {
      assert !IsDigit(':');
    }
    SplitAfterPiece(h, m + [':'] + s, ':');
    SplitAfterPiece(m, s, ':');
    assert Split(p.Render(), ':') == [h, m, s];
  }
}
