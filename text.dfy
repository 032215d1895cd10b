/** The string operations the clipper relies on: `str.split` and `str.join`
    with a one-character separator, decimal digits, two-digit zero padding,
    ASCII lower-casing and `str.replace`. */
module Text {

  /** `s.split(c)`: the pieces of `s` between occurrences of `c`. */
  function Split(s: string, c: char): (parts: seq<string>)
    ensures |parts| >= 1
    ensures |parts| == 1 <==> c !in s
    ensures |parts| == 1 ==> parts[0] == s
    decreases |s|
  {
    if s == [] then [""]
    else
      var rest := Split(s[1..], c);
      if s[0] == c then [""] + rest else [[s[0]] + rest[0]] + rest[1..]
  }

  /** A slice within the first operand of a concatenation is a slice of that operand. */
  lemma SliceOfPrefix<T>(a: seq<T>, b: seq<T>, i: nat, j: nat)
    requires i <= j <= |a|
    ensures (a + b)[i..j] == a[i..j]
  {
  }

  /** A slice within the second operand of a concatenation is a slice of that operand. */
  lemma SliceOfSuffix<T>(a: seq<T>, b: seq<T>, i: nat, j: nat)
    requires |a| <= i <= j <= |a| + |b|
    ensures (a + b)[i..j] == b[i - |a|..j - |a|]
  {
  }

  /** `c.join(parts)`. */
  function Join(parts: seq<string>, c: char): string
  {
    if |parts| == 0 then ""
    else if |parts| == 1 then parts[0]
    else parts[0] + [c] + Join(parts[1..], c)
  }

  /** No piece of a split holds the separator. */
  lemma {:induction false} SplitPiecesAvoid(s: string, c: char)
    ensures forall i :: 0 <= i < |Split(s, c)| ==> c !in Split(s, c)[i]
    decreases |s|
  {
    if s != [] {
      SplitPiecesAvoid(s[1..], c);
      var rest := Split(s[1..], c);
      var parts := Split(s, c);
      forall i | 0 <= i < |parts|
        ensures c !in parts[i]
      {
        if s[0] == c {
          if i > 0 {
            assert parts[i] == rest[i - 1];
          }
        } else if i > 0 {
          assert parts[i] == rest[i];
        }
      }
    }
  }

  /** Joining the pieces of a split gives back the string, and no piece holds the separator. */
  lemma {:induction false} JoinSplit(s: string, c: char)
    ensures Join(Split(s, c), c) == s
    ensures forall i :: 0 <= i < |Split(s, c)| ==> c !in Split(s, c)[i]
    decreases |s|
  {
    SplitPiecesAvoid(s, c);
    if s != [] {
      JoinSplit(s[1..], c);
      var rest := Split(s[1..], c);
      assert s == [s[0]] + s[1..];
      if s[0] == c {
        assert Split(s, c) == [""] + rest;
        assert ([""] + rest)[1..] == rest;
      } else {
        var parts := [[s[0]] + rest[0]] + rest[1..];
        assert Split(s, c) == parts;
        assert parts[1..] == rest[1..];
        if |rest| > 1 {
          assert Join(rest, c) == rest[0] + [c] + Join(rest[1..], c);
        }
      }
    }
  }

  /** Splitting a string that starts with a separator-free piece and a separator. */
  lemma {:induction false} SplitAfterPiece(p: string, t: string, c: char)
    requires c !in p
    ensures Split(p + [c] + t, c) == [p] + Split(t, c)
    decreases |p|
  {
    var s := p + [c] + t;
    if p == [] {
      assert s == [c] + t && s[1..] == t;
    } else {
      assert s[1..] == p[1..] + [c] + t;
      SplitAfterPiece(p[1..], t, c);
      assert [p[0]] + p[1..] == p;
    }
  }

  /** Splitting a join of separator-free pieces gives the pieces back. */
  lemma {:induction false} SplitJoin(parts: seq<string>, c: char)
    requires |parts| >= 1
    requires forall i :: 0 <= i < |parts| ==> c !in parts[i]
    ensures Split(Join(parts, c), c) == parts
    decreases |parts|
  {
    if |parts| > 1 {
      SplitJoin(parts[1..], c);
      SplitAfterPiece(parts[0], Join(parts[1..], c), c);
      assert [parts[0]] + parts[1..] == parts;
    }
  }

  /** Joining two non-empty lists of pieces is joining each and putting a separator between. */
  lemma {:induction false} JoinAppend(a: seq<string>, b: seq<string>, c: char)
    requires |a| >= 1 && |b| >= 1
    ensures Join(a + b, c) == Join(a, c) + [c] + Join(b, c)
    decreases |a|
  {
    if |a| > 1 {
      JoinAppend(a[1..], b, c);
      assert (a + b)[1..] == a[1..] + b;
    } else {
      assert (a + b)[1..] == b;
    }
  }

  /** A character not occurring in any piece (nor equal to the separator) does not occur in the join. */
  lemma {:induction false} JoinAvoids(parts: seq<string>, c: char, x: char)
    requires x != c
    requires forall i :: 0 <= i < |parts| ==> x !in parts[i]
    ensures x !in Join(parts, c)
    decreases |parts|
  {
    if |parts| > 1 {
      JoinAvoids(parts[1..], c, x);
    }
  }

  predicate IsDigit(ch: char) {
    '0' as int <= ch as int <= '9' as int
  }

  /** A non-empty string of ASCII decimal digits. */
  predicate IsDigits(s: string) {
    |s| > 0 && forall i :: 0 <= i < |s| ==> IsDigit(s[i])
  }

  function DigitChar(d: nat): (ch: char)
    requires d < 10
    ensures IsDigit(ch)
  {
    ('0' as int + d) as char
  }

  function DigitValue(ch: char): nat
    requires IsDigit(ch)
  {
    ch as int - '0' as int
  }

  /** The number a string of decimal digits denotes; leading zeros are allowed, as `int()` allows them. */
  function DigitsValue(s: string): nat
    requires forall i :: 0 <= i < |s| ==> IsDigit(s[i])
    decreases |s|
  {
    if s == [] then 0 else 10 * DigitsValue(s[..|s| - 1]) + DigitValue(s[|s| - 1])
  }

  /** The decimal rendering of `n` (`str(n)`): digits only, no leading zero, and it reads back as `n`. */
  function Decimal(n: nat): (s: string)
    ensures IsDigits(s) && DigitsValue(s) == n
    ensures s[0] == '0' ==> s == "0"
    decreases n
  {
    if n < 10 then [DigitChar(n)]
    else
      var init := Decimal(n / 10);
      var s := init + [DigitChar(n % 10)];
      assert s[..|s| - 1] == init;
      s
  }

  /** `"{:02d}".format(n)` for `n` below 100: always two digits, reading back as `n`. */
  function Pad2(n: nat): (s: string)
    requires n < 100
    ensures |s| == 2 && IsDigits(s) && DigitsValue(s) == n
  {
    var s := [DigitChar(n / 10), DigitChar(n % 10)];
    assert s[..1] == [DigitChar(n / 10)];
    assert [DigitChar(n / 10)][..0] == [];
    assert DigitsValue(s[..1]) == n / 10;
    s
  }

  function LowerChar(ch: char): char {
    if 'A' <= ch <= 'Z' then (ch as int + 32) as char else ch
  }

  /** `s.lower()` restricted to ASCII letters. */
  function Lower(s: string): string {
    seq(|s|, i requires 0 <= i < |s| => LowerChar(s[i]))
  }

  /** `s.replace(pat, rep)`: every non-overlapping occurrence of `pat`, scanned from the
      left, replaced by `rep`; an empty `pat` matches before every character and at the end. */
  function Replace(s: string, pat: string, rep: string): string
    decreases |s|
  {
    if pat == [] then
      if s == [] then rep else rep + [s[0]] + Replace(s[1..], pat, rep)
    else if |s| < |pat| then s
    else if s[..|pat|] == pat then rep + Replace(s[|pat|..], pat, rep)
    else [s[0]] + Replace(s[1..], pat, rep)
  }

  /** The strings of `parts` one after another. */
  function Concat(parts: seq<string>): string
    decreases |parts|
  {
    if parts == [] then [] else parts[0] + Concat(parts[1..])
  }

  /** `rep` before every character of `s` and once more at the end. */
  function Interleaved(s: string, rep: string): string {
    Concat(seq(|s|, i requires 0 <= i < |s| => rep + [s[i]])) + rep
  }

  /** A pattern holding a character that the string lacks is never replaced. */
  lemma {:induction false} ReplaceAbsent(s: string, pat: string, rep: string, x: char)
    requires x in pat && x !in s
    ensures Replace(s, pat, rep) == s
    decreases |s|
  {
    if |s| >= |pat| {
      var k :| 0 <= k < |pat| && pat[k] == x;
      assert s[..|pat|][k] == s[k];
      assert s[..|pat|] != pat;
      assert x !in s[1..];
      ReplaceAbsent(s[1..], pat, rep, x);
      assert [s[0]] + s[1..] == s;
    }
  }

  /** Replacing a one-character pattern works piece by piece. */
  lemma {:induction false} ReplaceCharAppend(a: string, b: string, pat: string, rep: string)
    requires |pat| == 1
    ensures Replace(a + b, pat, rep) == Replace(a, pat, rep) + Replace(b, pat, rep)
    decreases |a|
  {
    if a != [] {
      var s := a + b;
      assert s[..1] == a[..1] && s[1..] == a[1..] + b;
      assert s[|pat|..] == a[|pat|..] + b;
      ReplaceCharAppend(a[1..], b, pat, rep);
      if a[..1] == pat {
        assert Replace(a, pat, rep) == rep + Replace(a[1..], pat, rep);
      } else {
        assert Replace(a, pat, rep) == [a[0]] + Replace(a[1..], pat, rep);
      }
    } else {
      assert a + b == b;
    }
  }

  /** `pat` occurs in `s` starting at position `p`. */
  predicate MatchAt(s: string, pat: string, p: nat) {
    p + |pat| <= |s| && s[p..p + |pat|] == pat
  }

  /** Without a match at its head, replacing keeps the first character and moves on. */
  lemma ReplaceSkip(s: string, pat: string, rep: string)
    requires pat != [] && s != [] && !MatchAt(s, pat, 0)
    ensures Replace(s, pat, rep) == [s[0]] + Replace(s[1..], pat, rep)
  {
    if |s| >= |pat| {
      assert s[..|pat|] == s[0..|pat|];
    }
  }

  /** A match in the tail of a string is a match one position further in the string. */
  lemma MatchInTail(s: string, pat: string, p: nat)
    requires s != [] && MatchAt(s[1..], pat, p)
    ensures MatchAt(s, pat, p + 1)
  {
    assert s[1..][p..p + |pat|] == s[p + 1..p + 1 + |pat|];
  }

  /** Replacing in `x + y` when no occurrence of `pat` starts inside `x`. */
  lemma NoMatchInTail(x: string, y: string, pat: string)
    requires x != []
    requires forall p :: 0 <= p < |x| ==> !MatchAt(x + y, pat, p)
    ensures forall p :: 0 <= p < |x| - 1 ==> !MatchAt(x[1..] + y, pat, p)
  {
    var s := x + y;
    assert s[1..] == x[1..] + y;
    forall p | 0 <= p < |x| - 1
      ensures !MatchAt(x[1..] + y, pat, p)
    {
      if MatchAt(x[1..] + y, pat, p) {
        MatchInTail(s, pat, p);
      }
    }
  }

  /** One step of the induction below: a plain first character is kept as it is. */
  lemma ReplaceAfterPlainStep(x: string, y: string, pat: string, rep: string)
    requires pat != [] && x != [] && !MatchAt(x + y, pat, 0)
    requires Replace(x[1..] + y, pat, rep) == x[1..] + Replace(y, pat, rep)
    ensures Replace(x + y, pat, rep) == x + Replace(y, pat, rep)
  {
    var s := x + y;
    var r := Replace(y, pat, rep);
    ReplaceSkip(s, pat, rep);
    assert s[0] == x[0] && s[1..] == x[1..] + y;
    assert Replace(s, pat, rep) == [x[0]] + (x[1..] + r);
    assert [x[0]] + (x[1..] + r) == ([x[0]] + x[1..]) + r;
    assert [x[0]] + x[1..] == x;
  }

  lemma {:induction false} ReplaceAfterPlain(x: string, y: string, pat: string, rep: string)
    requires pat != []
    requires forall p :: 0 <= p < |x| ==> !MatchAt(x + y, pat, p)
    ensures Replace(x + y, pat, rep) == x + Replace(y, pat, rep)
    decreases |x|
  {
    if x == [] {
      assert x + y == y;
      assert x + Replace(y, pat, rep) == Replace(y, pat, rep);
    } else {
      NoMatchInTail(x, y, pat);
      ReplaceAfterPlain(x[1..], y, pat, rep);
      ReplaceAfterPlainStep(x, y, pat, rep);
    }
  }



  /** A non-empty pattern standing alone is replaced once. */
  lemma ReplaceWhole(pat: string, rep: string)
    requires pat != []
    ensures Replace(pat, pat, rep) == rep
  {
    assert pat[..|pat|] == pat;
    assert pat[|pat|..] == [];
  }
}
