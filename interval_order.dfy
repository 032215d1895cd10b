/** Ordering a list of intervals by start time and rejecting overlapping neighbours. */
module IntervalOrder {
  import opened Errors
  import opened TimePoints
  import opened TimeIntervals

  /** The sort key: the start of the interval in seconds. */
  function StartKey(iv: TimeInterval): nat {
    iv.start.ToSeconds()
  }

  predicate SortedByStart(xs: seq<TimeInterval>) {
    forall i, j :: 0 <= i < j < |xs| ==> StartKey(xs[i]) <= StartKey(xs[j])
  }

  /** The intervals of `xs` whose start is `k` seconds, in their order in `xs`. */
  function WithStart(xs: seq<TimeInterval>, k: nat): seq<TimeInterval>
    decreases |xs|
  {
    if xs == [] then []
    else (if StartKey(xs[0]) == k then [xs[0]] else []) + WithStart(xs[1..], k)
  }

  /** Puts `x` in front of the first element that does not start earlier. */
  function InsertByStart(x: TimeInterval, s: seq<TimeInterval>): (r: seq<TimeInterval>)
    ensures |r| == |s| + 1
    decreases |s|
  {
    if s == [] then [x]
    else if StartKey(x) <= StartKey(s[0]) then [x] + s
    else [s[0]] + InsertByStart(x, s[1..])
  }

  /** `sorted(intervals, key=start seconds)`: Python's sort is stable, so equal starts keep their order. */
  function SortByStart(xs: seq<TimeInterval>): (sorted: seq<TimeInterval>)
    ensures |sorted| == |xs|
    decreases |xs|
  {
    if xs == [] then [] else InsertByStart(xs[0], SortByStart(xs[1..]))
  }

  lemma {:induction false} InsertByStartCount(x: TimeInterval, s: seq<TimeInterval>)
    ensures multiset(InsertByStart(x, s)) == multiset(s) + multiset{x}
    decreases |s|
  {
    if s != [] && StartKey(x) > StartKey(s[0]) {
      InsertByStartCount(x, s[1..]);
      assert s == [s[0]] + s[1..];
    }
  }

  predicate StartsAtLeast(s: seq<TimeInterval>, bound: nat) {
    forall i :: 0 <= i < |s| ==> bound <= StartKey(s[i])
  }

  /** A head that starts no later than a sorted rest gives a sorted list. */
  lemma SortedCons(h: TimeInterval, t: seq<TimeInterval>)
    requires StartsAtLeast(t, StartKey(h)) && SortedByStart(t)
    ensures SortedByStart([h] + t)
  {
    var r := [h] + t;
    forall i, j | 0 <= i < j < |r|
      ensures StartKey(r[i]) <= StartKey(r[j])
    {
      SortedConsAt(h, t, i, j);
    }
  }

  lemma SortedConsAt(h: TimeInterval, t: seq<TimeInterval>, i: nat, j: nat)
    requires StartsAtLeast(t, StartKey(h)) && SortedByStart(t)
    requires i < j < |t| + 1
    ensures StartKey(([h] + t)[i]) <= StartKey(([h] + t)[j])
  {
    if i > 0 {
      assert StartKey(t[i - 1]) <= StartKey(t[j - 1]);
    }
  }

  /** The rest of a sorted list is sorted and starts no earlier than its head. */
  lemma SortedTail(s: seq<TimeInterval>)
    requires SortedByStart(s) && s != []
    ensures StartsAtLeast(s[1..], StartKey(s[0])) && SortedByStart(s[1..])
  {
    var t := s[1..];
    forall i | 0 <= i < |t|
      ensures StartKey(s[0]) <= StartKey(t[i])
    {
      assert t[i] == s[i + 1];
    }
    forall i, j | 0 <= i < j < |t|
      ensures StartKey(t[i]) <= StartKey(t[j])
    {
      assert t[i] == s[i + 1] && t[j] == s[j + 1];
    }
  }

  lemma {:induction false} InsertByStartBound(x: TimeInterval, s: seq<TimeInterval>, bound: nat)
    requires StartsAtLeast(s, bound) && bound <= StartKey(x)
    ensures StartsAtLeast(InsertByStart(x, s), bound)
    decreases |s|
  {
    if s != [] && StartKey(x) > StartKey(s[0]) {
      InsertByStartBound(x, s[1..], bound);
      var r := [s[0]] + InsertByStart(x, s[1..]);
      assert forall i :: 1 <= i < |r| ==> r[i] == InsertByStart(x, s[1..])[i - 1];
    } else if s != [] {
      var r := [x] + s;
      assert forall i :: 1 <= i < |r| ==> r[i] == s[i - 1];
    }
  }

  lemma {:induction false} InsertByStartSorted(x: TimeInterval, s: seq<TimeInterval>)
    requires SortedByStart(s)
    ensures SortedByStart(InsertByStart(x, s))
    decreases |s|
  {
    if s != [] {
      SortedTail(s);
      if StartKey(x) > StartKey(s[0]) {
        InsertByStartSorted(x, s[1..]);
        InsertByStartBound(x, s[1..], StartKey(s[0]));
        SortedCons(s[0], InsertByStart(x, s[1..]));
      } else {
        forall i | 0 <= i < |s|
          ensures StartKey(x) <= StartKey(s[i])
        {
          assert StartKey(s[0]) <= StartKey(s[i]);
        }
        SortedCons(x, s);
      }
    }
  }

  lemma {:induction false} InsertByStartStable(x: TimeInterval, s: seq<TimeInterval>, k: nat)
    ensures WithStart(InsertByStart(x, s), k) == (if StartKey(x) == k then [x] else []) + WithStart(s, k)
    decreases |s|
  {
    if s != [] && StartKey(x) > StartKey(s[0]) {
      var rest := InsertByStart(x, s[1..]);
      InsertByStartStable(x, s[1..], k);
      var r := [s[0]] + rest;
      assert r[1..] == rest;
      assert WithStart(r, k) == (if StartKey(s[0]) == k then [s[0]] else []) + WithStart(rest, k);
    } else if s != [] {
      var r := [x] + s;
      assert r[1..] == s;
    } else {
      assert [x][1..] == [];
    }
  }

  lemma {:induction false} SortByStartSorted(xs: seq<TimeInterval>)
    ensures SortedByStart(SortByStart(xs))
    decreases |xs|
  {
    if xs != [] {
      SortByStartSorted(xs[1..]);
      InsertByStartSorted(xs[0], SortByStart(xs[1..]));
    }
  }

  lemma {:induction false} SortByStartCount(xs: seq<TimeInterval>)
    ensures multiset(SortByStart(xs)) == multiset(xs)
    decreases |xs|
  {
    if xs != [] {
      SortByStartCount(xs[1..]);
      InsertByStartCount(xs[0], SortByStart(xs[1..]));
      assert xs == [xs[0]] + xs[1..];
    }
  }

  lemma {:induction false} SortByStartStable(xs: seq<TimeInterval>, k: nat)
    ensures WithStart(SortByStart(xs), k) == WithStart(xs, k)
    decreases |xs|
  {
    if xs != [] {
      SortByStartStable(xs[1..], k);
      InsertByStartStable(xs[0], SortByStart(xs[1..]), k);
    }
  }

  /** The sort yields an ordering by start that is a permutation of its input and keeps
      the relative order of intervals with the same start (stability). */
  lemma SortByStartSpec(xs: seq<TimeInterval>)
    ensures SortedByStart(SortByStart(xs))
    ensures multiset(SortByStart(xs)) == multiset(xs)
    ensures forall k :: WithStart(SortByStart(xs), k) == WithStart(xs, k)
  {
    SortByStartSorted(xs);
    SortByStartCount(xs);
    forall k
      ensures WithStart(SortByStart(xs), k) == WithStart(xs, k)
    {
      SortByStartStable(xs, k);
    }
  }

  /** An interval `a` collides with the interval `b` that follows it: `a` has an end
      and that end is not before the start of `b`. Without an end there is no collision. */
  predicate Overlaps(a: TimeInterval, b: TimeInterval) {
    a.end.Some? && a.end.value.Ge(b.start)
  }

  predicate NoAdjacentOverlap(xs: seq<TimeInterval>) {
    forall i :: 0 <= i < |xs| - 1 ==> !Overlaps(xs[i], xs[i + 1])
  }

  /** `validate_intervals`: walks the neighbouring pairs and fails at the first collision.
      The list itself is a value and is left as it is. */
  method ValidateIntervals(intervals: seq<TimeInterval>) returns (r: Outcome)
    ensures r.Pass? <==> NoAdjacentOverlap(intervals)
    ensures r.Fail? ==> r.error == InvalidTimeInterval(Overlap)
  {
    if |intervals| > 0 {
      var i := 0;
      while i < |intervals| - 1
        invariant 0 <= i <= |intervals| - 1
        invariant forall j :: 0 <= j < i ==> !Overlaps(intervals[j], intervals[j + 1])
      {
        var currentEnd := intervals[i].end;
        var nextStart := intervals[i + 1].start;
        if currentEnd.Some? && currentEnd.value.Ge(nextStart) {
          return Fail(InvalidTimeInterval(Overlap));
        }
        i := i + 1;
      }
    }
    return Pass;
  }

  /** In a sorted list without colliding neighbours, every interval with an end finishes
      before every later interval starts. */
  lemma {:induction false} SortedValidIsSeparated(xs: seq<TimeInterval>, i: nat, j: nat)
    requires SortedByStart(xs) && NoAdjacentOverlap(xs)
    requires i < j < |xs| && xs[i].end.Some?
    ensures xs[i].end.value.ToSeconds() < StartKey(xs[j])
  {
    assert !Overlaps(xs[i], xs[i + 1]);
    assert StartKey(xs[i + 1]) <= StartKey(xs[j]);
  }

  /** An interval without an end never collides with the interval after it, even though it
      runs to the end of the source: a list holding one before a later interval passes. */
  lemma OpenEndNeverOverlaps(a: TimeInterval, b: TimeInterval)
    requires a.end.None?
    ensures NoAdjacentOverlap([a, b])
  {
  }

  /** Two intervals with different starts come out earliest first, whatever their given order. */
  lemma SortsPair(a: TimeInterval, b: TimeInterval)
    requires StartKey(a) < StartKey(b)
    ensures SortByStart([b, a]) == [a, b]
    ensures SortByStart([a, b]) == [a, b]
  {
    assert [b, a][1..] == [a] && [a, b][1..] == [b];
    assert [a][1..] == [] && [b][1..] == [];
    assert SortByStart([a]) == [a];
    assert SortByStart([b]) == [b];
    assert InsertByStart(b, [a]) == [a] + InsertByStart(b, []);
  }

  /** Two overlapping ranges, given in either order, are refused once sorted:
      `00:10-00:30` and `00:20-00:40`. */
  lemma OverlappingRangesRefused(a: TimeInterval, b: TimeInterval)
    requires a == TimeInterval(TimePoint(0, 0, 10), Some(TimePoint(0, 0, 30)))
    requires b == TimeInterval(TimePoint(0, 0, 20), Some(TimePoint(0, 0, 40)))
    ensures SortByStart([b, a]) == [a, b] && !NoAdjacentOverlap(SortByStart([b, a]))
  {
    SortsPair(a, b);
    assert Overlaps([a, b][0], [a, b][1]);
  }

  /** Two separate ranges given latest first are put in order and accepted:
      `00:20-00:40` and `00:00-00:10`. */
  lemma SeparateRangesAccepted(a: TimeInterval, b: TimeInterval)
    requires a == TimeInterval(TimePoint(0, 0, 0), Some(TimePoint(0, 0, 10)))
    requires b == TimeInterval(TimePoint(0, 0, 20), Some(TimePoint(0, 0, 40)))
    ensures SortByStart([b, a]) == [a, b] && NoAdjacentOverlap(SortByStart([b, a]))
  {
    SortsPair(a, b);
    assert !Overlaps([a, b][0], [a, b][1]);
  }
}
