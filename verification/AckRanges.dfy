/** Acknowledgement ranges: built from the completed list at the destination, expanded and counted
    at the source. */
module AckRanges {
  import opened Prelude
  import opened ListText

  datatype AckRange = AckRange(lower: int, upper: int)

  predicate Within(r: AckRange, n: int) { r.lower <= n <= r.upper }

  ghost predicate Covers(ranges: seq<AckRange>, n: int) {
    exists i :: 0 <= i < |ranges| && Within(ranges[i], n)
  }

  /** Non-empty ranges of positive numbers, increasing, and never adjacent. */
  ghost predicate Canonical(ranges: seq<AckRange>) {
    && (forall i :: 0 <= i < |ranges| ==> 1 <= ranges[i].lower <= ranges[i].upper)
    && (forall i, j :: 0 <= i < j < |ranges| ==> ranges[i].upper + 1 < ranges[j].lower)
  }

  /** The ranges an acknowledgement of this completed list carries. */
  ghost predicate AckOf(ranges: seq<AckRange>, completed: seq<int>) {
    && Canonical(ranges)
    && (forall n :: Covers(ranges, n) <==> n in completed && 1 <= n)
  }

  // ---- building ranges --------------------------------------------------------------------

  /** sandesha2_utils_sort: find the largest entry, then keep every number up to it that occurs. */
  method SortNumbers(list: seq<int>) returns (sorted: seq<int>)
    ensures StrictlyIncreasing(sorted)
    ensures forall n :: n in sorted <==> n in list && 1 <= n
  {
    var max := 0;
    for i := 0 to |list|
      invariant 0 <= max
      invariant forall k :: 0 <= k < i ==> list[k] <= max
    {
      if list[i] > max { max := list[i]; }
    }
    sorted := [];
    var j := 1;
    while j <= max
      invariant 1 <= j <= max + 1
      invariant StrictlyIncreasing(sorted)
      invariant forall n :: n in sorted <==> n in list && 1 <= n < j
    {
      var contains := false;
      var i := 0;
      while i < |list| && !contains
        invariant 0 <= i <= |list|
        invariant contains ==> j in list
        invariant !contains ==> j !in list[..i]
        decreases |list| - i, !contains
      {
        if list[i] == j { contains := true; }
        i := i + 1;
      }
      assert list[..|list|] == list;
      assert forall k :: 0 <= k < |sorted| ==> sorted[k] in sorted;
      if contains { sorted := sorted + [j]; }
      j := j + 1;
    }
  }

  /** The loop state of the range builder: closed ranges plus the open range lower..upper. */
  ghost predicate Grouped(sorted: seq<int>, closed: seq<AckRange>, lower: int, upper: int) {
    if lower == 0 then sorted == [] && closed == []
    else
      && Canonical(closed + [AckRange(lower, upper)])
      && sorted != [] && sorted[|sorted| - 1] == upper
      && (forall n :: Covers(closed + [AckRange(lower, upper)], n) <==> n in sorted)
  }

  lemma CoversAppend(ranges: seq<AckRange>, r: AckRange, n: int)
    ensures Covers(ranges + [r], n) <==> Covers(ranges, n) || Within(r, n)
  {
    var all := ranges + [r];
    if Within(r, n) { assert all[|ranges|] == r; }
    if Covers(ranges, n) {
      var i :| 0 <= i < |ranges| && Within(ranges[i], n);
      assert all[i] == ranges[i];
    }
  }

  lemma ExtendGroup(sorted: seq<int>, closed: seq<AckRange>, lower: int, upper: int)
    requires lower != 0 && Grouped(sorted, closed, lower, upper)
    ensures Grouped(sorted + [upper + 1], closed, lower, upper + 1)
  {
    var before, after := closed + [AckRange(lower, upper)], closed + [AckRange(lower, upper + 1)];
    forall n
      ensures Covers(after, n) <==> n in sorted + [upper + 1]
    {
      CoversAppend(closed, AckRange(lower, upper), n);
      CoversAppend(closed, AckRange(lower, upper + 1), n);
      assert before[|closed|] == AckRange(lower, upper);
    }
    assert forall i :: 0 <= i < |closed| ==> after[i] == before[i];
    assert before[|closed|] == AckRange(lower, upper) && after[|closed|] == AckRange(lower, upper + 1);
  }

  lemma NewGroup(sorted: seq<int>, closed: seq<AckRange>, lower: int, upper: int, next: int)
    requires 1 <= next
    requires Grouped(sorted, closed, lower, upper)
    requires lower != 0 ==> upper + 1 < next
    ensures lower == 0 ==> Grouped([next], [], next, next)
    ensures lower != 0 ==> Grouped(sorted + [next], closed + [AckRange(lower, upper)], next, next)
  {
    var done := if lower == 0 then [] else closed + [AckRange(lower, upper)];
    var after := done + [AckRange(next, next)];
    forall n
      ensures Covers(after, n) <==> n in sorted + [next]
    {
      CoversAppend(done, AckRange(next, next), n);
    }
    assert forall i :: 0 <= i < |done| ==> after[i] == done[i];
    assert after[|done|] == AckRange(next, next);
    if lower != 0 { assert done[|closed|] == AckRange(lower, upper); }
  }

  /** sandesha2_utils_get_ack_range_list: sort the listed numbers and group neighbours. */
  method GetAckRangeList(text: string) returns (ranges: seq<AckRange>)
    ensures AckOf(ranges, Numbers(text))
  {
    ranges := [];
    var sorted := SortNumbers(Numbers(text));
    var lower, upper, completed := 0, 0, true;
    for i := 0 to |sorted|
      invariant completed <==> lower == 0
      invariant Grouped(sorted[..i], ranges, lower, upper)
    {
      var n := sorted[i];
      assert n in sorted;
      assert sorted[..i + 1] == sorted[..i] + [n];
      if lower == 0 {
        NewGroup(sorted[..i], ranges, lower, upper, n);
        lower, upper := n, n;
      } else if n == upper + 1 {
        ExtendGroup(sorted[..i], ranges, lower, upper);
        upper := n;
      } else {
        assert upper == sorted[i - 1];
        NewGroup(sorted[..i], ranges, lower, upper, n);
        ranges := ranges + [AckRange(lower, upper)];
        lower, upper := n, n;
      }
      completed := false;
    }
    assert sorted[..|sorted|] == sorted;
    if !completed { ranges := ranges + [AckRange(lower, upper)]; }
  }

  // ---- every list has its ranges ------------------------------------------------------------

  function Bound(list: seq<int>): (m: nat)
    ensures forall n :: n in list ==> n <= m
  {
    if list == [] then 0
    else
      var m := Bound(list[1..]);
      assert forall n :: n in list ==> n == list[0] || n in list[1..];
      if list[0] > m then list[0] else m
  }

  ghost predicate SortedUpTo(sorted: seq<int>, list: seq<int>, m: int) {
    StrictlyIncreasing(sorted) && forall n :: n in sorted <==> n in list && 1 <= n <= m
  }

  lemma {:induction false} SortedExists(list: seq<int>, m: nat) returns (sorted: seq<int>)
    ensures SortedUpTo(sorted, list, m)
  {
    if m == 0 {
      sorted := [];
    } else {
      var front := SortedExists(list, m - 1);
      assert forall i :: 0 <= i < |front| ==> front[i] in front;
      sorted := if m in list then front + [m] else front;
    }
  }

  lemma {:induction false} GroupExists(sorted: seq<int>) returns (closed: seq<AckRange>, lower: int, upper: int)
    requires StrictlyIncreasing(sorted) && forall n :: n in sorted ==> 1 <= n
    ensures Grouped(sorted, closed, lower, upper)
  {
    if sorted == [] {
      closed, lower, upper := [], 0, 0;
    } else {
      var k := |sorted| - 1;
      var front, n := sorted[..k], sorted[k];
      assert sorted == front + [n];
      assert forall x :: x in front ==> x in sorted;
      assert n in sorted && forall i :: 0 <= i < k ==> front[i] < n;
      closed, lower, upper := GroupExists(front);
      closed, lower, upper := GroupOneMore(front, closed, lower, upper, n);
    }
  }

  lemma GroupOneMore(front: seq<int>, before: seq<AckRange>, low: int, up: int, n: int)
    returns (closed: seq<AckRange>, lower: int, upper: int)
    requires 1 <= n && Grouped(front, before, low, up) && forall i :: 0 <= i < |front| ==> front[i] < n
    ensures Grouped(front + [n], closed, lower, upper)
  {
    if low != 0 && n == up + 1 {
      ExtendGroup(front, before, low, up);
      closed, lower, upper := before, low, n;
    } else {
      NewGroup(front, before, low, up, n);
      closed, lower, upper := if low == 0 then [] else before + [AckRange(low, up)], n, n;
      assert low == 0 ==> front + [n] == [n];
    }
  }

  /** Every completed list can be acknowledged. */
  lemma AckExists(completed: seq<int>)
    ensures exists ranges :: AckOf(ranges, completed)
  {
    var sorted := SortedExists(completed, Bound(completed));
    var closed, lower, upper := GroupExists(sorted);
    var ranges := if lower == 0 then [] else closed + [AckRange(lower, upper)];
    assert AckOf(ranges, completed);
  }

  // ---- canonical ranges are determined by what they cover -----------------------------------

  lemma CoversTail(ranges: seq<AckRange>, n: int)
    requires ranges != []
    ensures Covers(ranges, n) <==> Within(ranges[0], n) || Covers(ranges[1..], n)
  {
    var rest := ranges[1..];
    if Covers(rest, n) {
      var i :| 0 <= i < |rest| && Within(rest[i], n);
      assert ranges[i + 1] == rest[i];
    }
    if Covers(ranges, n) {
      var i :| 0 <= i < |ranges| && Within(ranges[i], n);
      if i != 0 { assert rest[i - 1] == ranges[i]; }
    }
  }

  lemma CanonicalTail(ranges: seq<AckRange>)
    requires Canonical(ranges) && ranges != []
    ensures Canonical(ranges[1..])
    ensures forall n :: Covers(ranges[1..], n) ==> ranges[0].upper + 1 < n
    ensures Covers(ranges, ranges[0].lower) && Covers(ranges, ranges[0].upper)
    ensures !Covers(ranges, ranges[0].upper + 1)
    ensures forall n :: Covers(ranges, n) ==> ranges[0].lower <= n
  {
    var rest := ranges[1..];
    assert forall i :: 0 <= i < |rest| ==> rest[i] == ranges[i + 1];
  }

  lemma HeadFrom(a: seq<AckRange>, b: seq<AckRange>)
    requires Canonical(a) && Canonical(b) && a != [] && b != []
    requires forall n :: Covers(a, n) <==> Covers(b, n)
    ensures a[0].lower == b[0].lower && a[0].upper <= b[0].upper
  {
    CanonicalTail(a);
    CanonicalTail(b);
    assert Covers(b, a[0].lower) && Covers(a, b[0].lower);
    var next := b[0].upper + 1;
    assert !Covers(a, next);
    assert !Within(a[0], next);
  }

  /** The ranges depend on the set of completed numbers alone. */
  lemma {:induction false} CanonicalUnique(a: seq<AckRange>, b: seq<AckRange>)
    requires Canonical(a) && Canonical(b)
    requires forall n :: Covers(a, n) <==> Covers(b, n)
    ensures a == b
  {
    if a != [] { CanonicalTail(a); }
    if b != [] { CanonicalTail(b); }
    assert a == [] || Covers(b, a[0].lower);
    assert b == [] || Covers(a, b[0].lower);
    if a != [] && b != [] {
      HeadFrom(a, b);
      HeadFrom(b, a);
      forall n
        ensures Covers(a[1..], n) <==> Covers(b[1..], n)
      {
        CoversTail(a, n);
        CoversTail(b, n);
      }
      CanonicalUnique(a[1..], b[1..]);
      assert a == [a[0]] + a[1..] && b == [b[0]] + b[1..];
    }
  }

  // ---- expanding and counting ---------------------------------------------------------------

  function Interval(lower: int, upper: int): seq<int>
    decreases upper - lower
  {
    if lower > upper then [] else [lower] + Interval(lower + 1, upper)
  }

  /** The acked list: every number from lower to upper, range by range. */
  function Expand(ranges: seq<AckRange>): seq<int> {
    if ranges == [] then [] else Interval(ranges[0].lower, ranges[0].upper) + Expand(ranges[1..])
  }

  lemma {:induction false} IntervalIs(lower: int, upper: int)
    ensures forall n :: n in Interval(lower, upper) <==> lower <= n <= upper
    ensures StrictlyIncreasing(Interval(lower, upper))
    ensures |Interval(lower, upper)| == if lower > upper then 0 else upper - lower + 1
    decreases upper - lower
  {
    if lower <= upper {
      IntervalIs(lower + 1, upper);
      var rest := Interval(lower + 1, upper);
      assert forall i :: 0 <= i < |rest| ==> rest[i] in rest;
    }
  }

  lemma IntervalSnoc(lower: int, n: int)
    requires lower <= n
    ensures Interval(lower, n) == Interval(lower, n - 1) + [n]
    decreases n - lower
  {
    if lower < n { IntervalSnoc(lower + 1, n); }
  }

  lemma {:induction false} ExpandSnoc(ranges: seq<AckRange>, r: AckRange)
    ensures Expand(ranges + [r]) == Expand(ranges) + Interval(r.lower, r.upper)
  {
    if ranges == [] {
      assert (ranges + [r])[1..] == [];
    } else {
      assert (ranges + [r])[1..] == ranges[1..] + [r];
      ExpandSnoc(ranges[1..], r);
    }
  }

  lemma {:induction false} ExpandCovers(ranges: seq<AckRange>, n: int)
    ensures n in Expand(ranges) <==> Covers(ranges, n)
  {
    if ranges != [] {
      IntervalIs(ranges[0].lower, ranges[0].upper);
      ExpandCovers(ranges[1..], n);
      CoversTail(ranges, n);
    }
  }

  lemma {:induction false} ExpandIncreasing(ranges: seq<AckRange>)
    requires Canonical(ranges)
    ensures StrictlyIncreasing(Expand(ranges))
  {
    if ranges != [] {
      var head, rest := Interval(ranges[0].lower, ranges[0].upper), Expand(ranges[1..]);
      IntervalIs(ranges[0].lower, ranges[0].upper);
      CanonicalTail(ranges);
      ExpandIncreasing(ranges[1..]);
      forall i, j | 0 <= i < |head| && 0 <= j < |rest|
        ensures head[i] < rest[j]
      {
        assert head[i] in head && rest[j] in rest;
        ExpandCovers(ranges[1..], rest[j]);
      }
    }
  }

  /** Compression then expansion gives the sorted list of the numbers listed, without repeats. */
  lemma CompressExpandRoundTrip(ranges: seq<AckRange>, completed: seq<int>, sorted: seq<int>)
    requires AckOf(ranges, completed)
    requires StrictlyIncreasing(sorted) && forall n :: n in sorted <==> n in completed && 1 <= n
    ensures Expand(ranges) == sorted
  {
    ExpandIncreasing(ranges);
    forall n
      ensures n in Expand(ranges) <==> n in sorted
    {
      ExpandCovers(ranges, n);
    }
    IncreasingUnique(Expand(ranges), sorted);
  }

  /** Expansion then compression gives canonical ranges back. */
  lemma ExpandCompressRoundTrip(ranges: seq<AckRange>, again: seq<AckRange>)
    requires Canonical(ranges) && AckOf(again, Expand(ranges))
    ensures again == ranges
  {
    forall n
      ensures Covers(again, n) <==> Covers(ranges, n)
    {
      ExpandCovers(ranges, n);
    }
    CanonicalUnique(again, ranges);
  }

  /** get_no_of_msgs_acked: the closed form adds up the lengths of the non-empty ranges; it is the
      length of the acked list. */
  method CountAcked(ranges: seq<AckRange>) returns (count: int)
    ensures count == |Expand(ranges)|
  {
    count := 0;
    for i := 0 to |ranges|
      invariant count == |Expand(ranges[..i])|
    {
      var diff := ranges[i].upper - ranges[i].lower + 1;
      if diff > 0 { count := count + diff; }
      IntervalIs(ranges[i].lower, ranges[i].upper);
      ExpandSnoc(ranges[..i], ranges[i]);
      assert ranges[..i + 1] == ranges[..i] + [ranges[i]];
    }
    assert ranges[..|ranges|] == ranges;
  }

  /** The lengths of the non-empty ranges, added up. */
  function Lengths(ranges: seq<AckRange>): nat {
    if ranges == [] then 0
    else
      var r := ranges[0];
      (if r.lower <= r.upper then r.upper - r.lower + 1 else 0) + Lengths(ranges[1..])
  }

  lemma {:induction false} LengthsCount(ranges: seq<AckRange>)
    ensures |Expand(ranges)| == Lengths(ranges)
  {
    if ranges != [] {
      IntervalIs(ranges[0].lower, ranges[0].upper);
      LengthsCount(ranges[1..]);
    }
  }

  /** No number lies in two of the ranges. */
  ghost predicate Disjoint(ranges: seq<AckRange>) {
    forall i, j, n :: 0 <= i < j < |ranges| && Within(ranges[i], n)
      ==> !Within(ranges[j], n)
  }

  lemma DisjointTail(r: AckRange, rest: seq<AckRange>)
    ensures Disjoint([r] + rest) <==> Disjoint(rest) && forall n :: Within(r, n) ==> !Covers(rest, n)
  {
    var ranges := [r] + rest;
    assert forall i :: 0 <= i < |rest| ==> rest[i] == ranges[i + 1];
    if Disjoint(ranges) {
      forall n | Within(r, n)
        ensures !Covers(rest, n)
      {
        assert Within(ranges[0], n);
      }
    }
    if Disjoint(rest) && forall n :: Within(r, n) ==> !Covers(rest, n) {
      forall i, j, n | 0 <= i < j < |ranges| && Within(ranges[i], n)
        ensures !Within(ranges[j], n)
      {
        assert ranges[j] == rest[j - 1];
        if i > 0 { assert ranges[i] == rest[i - 1]; }
      }
    }
  }

  lemma NoRepeatsAppend(a: seq<int>, b: seq<int>)
    requires NoDuplicates(a)
    ensures NoDuplicates(a + b) <==> NoDuplicates(b) && forall n :: n in a ==> n !in b
  {
    if NoDuplicates(b) && forall n :: n in a ==> n !in b {
      forall i, j | 0 <= i < j < |a + b|
        ensures (a + b)[i] != (a + b)[j]
      {
        if i < |a| <= j { assert a[i] in a && b[j - |a|] in b; }
      }
    }
    if NoDuplicates(a + b) {
      forall i, j | 0 <= i < j < |b|
        ensures b[i] != b[j]
      {
        assert (a + b)[|a| + i] == b[i] && (a + b)[|a| + j] == b[j];
      }
      forall i, j | 0 <= i < |a| && 0 <= j < |b|
        ensures a[i] != b[j]
      {
        assert (a + b)[i] == a[i] && (a + b)[|a| + j] == b[j];
      }
    }
  }

  lemma {:induction false} DisjointIffNoRepeats(ranges: seq<AckRange>)
    ensures Disjoint(ranges) <==> NoDuplicates(Expand(ranges))
  {
    if ranges != [] {
      var r, rest := ranges[0], ranges[1..];
      assert ranges == [r] + rest;
      DisjointIffNoRepeats(rest);
      DisjointTail(r, rest);
      IntervalIs(r.lower, r.upper);
      NoRepeatsAppend(Interval(r.lower, r.upper), Expand(rest));
      forall n
        ensures Within(r, n) <==> n in Interval(r.lower, r.upper)
        ensures Covers(rest, n) <==> n in Expand(rest)
      {
        ExpandCovers(rest, n);
      }
    }
  }

  /** The stored count is the number of distinct messages acknowledged exactly when the ranges of the
      acknowledgement are disjoint; overlapping ranges are counted more than once. */
  lemma CountIsUnionSize(ranges: seq<AckRange>)
    ensures |Expand(ranges)| >= |Elements(Expand(ranges))|
    ensures |Expand(ranges)| == |Elements(Expand(ranges))| <==> Disjoint(ranges)
    ensures Canonical(ranges) ==> Disjoint(ranges)
  {
    DistinctCount(Expand(ranges));
    DisjointIffNoRepeats(ranges);
  }
}
