/** Fresh-ingredient ranges (aoc2025/src/dec5.rs): counting the ids that
    some range covers, and the total length of the union of the ranges. */
module Dec5 {

  /** A range given by both its ends. */
  datatype InclusiveRange = InclusiveRange(start: int, end: int)

  /** A range that stops just before `end`. */
  datatype ExclusiveRange = ExclusiveRange(start: int, end: int)

  predicate InContains(r: InclusiveRange, id: int) {
    r.start <= id <= r.end
  }

  predicate ExContains(r: ExclusiveRange, id: int) {
    r.start <= id < r.end
  }

  /** The `From` conversion: the exclusive end is one past the inclusive end. */
  function ToExclusive(r: InclusiveRange): (e: ExclusiveRange)
    ensures forall id :: InContains(r, id) <==> ExContains(e, id)
  {
    ExclusiveRange(r.start, r.end + 1)
  }

  /** Some range of `ranges` contains id. */
  predicate Covered(ranges: seq<InclusiveRange>, id: int) {
    exists k :: 0 <= k < |ranges| && InContains(ranges[k], id)
  }

  /** The number of entries of `ids` (with repetitions) that some range covers. */
  ghost function CountCovered(ranges: seq<InclusiveRange>, ids: seq<int>): (n: nat)
    ensures n <= |ids|
  {
    if |ids| == 0 then 0
    else CountCovered(ranges, ids[..|ids| - 1]) + (if Covered(ranges, ids[|ids| - 1]) then 1 else 0)
  }

  /** `solve_task`: for each id, scans the ranges until one contains it. */
  method SolveTask(ranges: seq<InclusiveRange>, ids: seq<int>) returns (result: nat)
    ensures result == CountCovered(ranges, ids)
    ensures result <= |ids|
  {
    result := 0;
    var i := 0;
    while i < |ids|
      invariant 0 <= i <= |ids|
      invariant result == CountCovered(ranges, ids[..i])
    {
      var id := ids[i];
      var found := false;
      var j := 0;
      while j < |ranges| && !found
        invariant 0 <= j <= |ranges|
        invariant found <==> exists k :: 0 <= k < j && InContains(ranges[k], id)
      {
        if InContains(ranges[j], id) {
          found := true;
        }
        j := j + 1;
      }
      assert found <==> Covered(ranges, id);
      assert ids[..i + 1][..i] == ids[..i];
      if found {
        result := result + 1;
      }
      i := i + 1;
    }
    assert ids[..|ids|] == ids;
  }

  /** The integers a, a+1, ..., b-1. */
  ghost function Interval(a: int, b: int): (s: set<int>)
    ensures forall x :: x in s <==> a <= x < b
    decreases b - a
  {
    if b <= a then {} else Interval(a, b - 1) + {b - 1}
  }

  lemma {:induction false} IntervalSize(a: int, b: int)
    ensures |Interval(a, b)| == if a <= b then b - a else 0
    decreases b - a
  {
    if a < b {
      IntervalSize(a, b - 1);
      assert b - 1 !in Interval(a, b - 1);
    }
  }

  /** The integers covered by some range of `ranges`. */
  ghost function Union(ranges: seq<ExclusiveRange>): (u: set<int>)
  {
    if |ranges| == 0 then {}
    else Union(ranges[..|ranges| - 1]) + Interval(ranges[|ranges| - 1].start, ranges[|ranges| - 1].end)
  }

  /** Union is the set of points some range contains. */
  lemma {:induction false} UnionMembers(ranges: seq<ExclusiveRange>, x: int)
    ensures x in Union(ranges) <==> exists k :: 0 <= k < |ranges| && ExContains(ranges[k], x)
  {
    if |ranges| > 0 {
      var front := ranges[..|ranges| - 1];
      UnionMembers(front, x);
      if x in Union(front) {
        var k :| 0 <= k < |front| && ExContains(front[k], x);
        assert ExContains(ranges[k], x);
      }
      if exists k :: 0 <= k < |ranges| && ExContains(ranges[k], x) {
        var k :| 0 <= k < |ranges| && ExContains(ranges[k], x);
        if k < |front| {
          assert ExContains(front[k], x);
        }
      }
    }
  }

  /** Reordering the ranges does not change their union. */
  lemma UnionOfPermutation(a: seq<ExclusiveRange>, b: seq<ExclusiveRange>)
    requires multiset(a) == multiset(b)
    ensures Union(a) == Union(b)
  {
    forall x ensures x in Union(a) <==> x in Union(b) {
      UnionMembers(a, x);
      UnionMembers(b, x);
      if exists k :: 0 <= k < |a| && ExContains(a[k], x) {
        var k :| 0 <= k < |a| && ExContains(a[k], x);
        assert a[k] in multiset(b);
        var l :| 0 <= l < |b| && b[l] == a[k];
        assert ExContains(b[l], x);
      }
      if exists k :: 0 <= k < |b| && ExContains(b[k], x) {
        var k :| 0 <= k < |b| && ExContains(b[k], x);
        assert b[k] in multiset(a);
        var l :| 0 <= l < |a| && a[l] == b[k];
        assert ExContains(a[l], x);
      }
    }
  }

  /** The sort key of `solve_task2`: by start, then by end. */
  predicate KeyLe(a: ExclusiveRange, b: ExclusiveRange) {
    a.start < b.start || (a.start == b.start && a.end <= b.end)
  }

  predicate SortedByKey(s: seq<ExclusiveRange>) {
    forall i, j :: 0 <= i < j < |s| ==> KeyLe(s[i], s[j])
  }

  /** Inserts r into a sorted sequence, after every element not greater. */
  function Insert(r: ExclusiveRange, s: seq<ExclusiveRange>): (t: seq<ExclusiveRange>)
    requires SortedByKey(s)
    ensures SortedByKey(t) && multiset(t) == multiset(s) + multiset{r}
  {
    if |s| == 0 then [r]
    else if KeyLe(r, s[0]) then
      assert SortedByKey([r] + s) by { InsertFront(r, s); }
      [r] + s
    else
      var t := Insert(r, s[1..]);
      assert s == [s[0]] + s[1..];
      assert SortedByKey([s[0]] + t) by { InsertBehind(r, s, t); }
      [s[0]] + t
  }

  lemma InsertFront(r: ExclusiveRange, s: seq<ExclusiveRange>)
    requires SortedByKey(s) && |s| > 0 && KeyLe(r, s[0])
    ensures SortedByKey([r] + s)
  {
    forall i, j | 0 <= i < j < |[r] + s| ensures KeyLe(([r] + s)[i], ([r] + s)[j]) {
      if i == 0 {
        assert KeyLe(s[0], s[j - 1]) || j == 1;
      }
    }
  }

  lemma InsertBehind(r: ExclusiveRange, s: seq<ExclusiveRange>, t: seq<ExclusiveRange>)
    requires SortedByKey(s) && |s| > 0 && !KeyLe(r, s[0])
    requires SortedByKey(t) && multiset(t) == multiset(s[1..]) + multiset{r}
    ensures SortedByKey([s[0]] + t)
  {
    forall i, j | 0 <= i < j < |[s[0]] + t| ensures KeyLe(([s[0]] + t)[i], ([s[0]] + t)[j]) {
      if i == 0 {
        var y := t[j - 1];
        assert y in multiset(t);
        if y != r {
          assert y in multiset(s[1..]);
          var m :| 0 <= m < |s[1..]| && s[1..][m] == y;
          assert s[m + 1] == y;
        }
      }
    }
  }

  /** The sort of `solve_task2` (the source calls a library sort by the key
      (start, end)); insertion sort stands for it here. */
  function SortByKey(s: seq<ExclusiveRange>): (t: seq<ExclusiveRange>)
    ensures SortedByKey(t) && multiset(t) == multiset(s)
  {
    if |s| == 0 then []
    else
      assert s == [s[0]] + s[1..];
      Insert(s[0], SortByKey(s[1..]))
  }

  /** Every point of u lies below b. */
  ghost predicate AllBelow(u: set<int>, b: int) {
    forall x :: x in u ==> x < b
  }

  /** `solve_task2`: the number of integers that at least one range
      contains. After sorting, one sweep keeps `curPos`, the point up to
      which everything seen is counted, and adds the part of each range that
      lies beyond it. */
  method SolveTask2(ranges: seq<ExclusiveRange>) returns (result: int)
    ensures result == |Union(ranges)|
    ensures |ranges| == 0 ==> result == 0
  {
    if |ranges| == 0 {
      return 0;
    }
    var sorted := SortByKey(ranges);
    result := 0;
    var curPos := sorted[0].start;
    var curIdx := 0;
    ghost var lastStart := sorted[0].start;
    while curIdx < |sorted|
      invariant 0 <= curIdx <= |sorted|
      invariant result == |Union(sorted[..curIdx])|
      invariant AllBelow(Union(sorted[..curIdx]), curPos)
      invariant lastStart <= curPos && Interval(lastStart, curPos) <= Union(sorted[..curIdx])
      invariant curIdx < |sorted| ==> lastStart <= sorted[curIdx].start
      invariant sorted[0].start <= curPos
    {
      var range := sorted[curIdx];
      var prevPos := curPos;
      curPos := if curPos < range.start then range.start else curPos;
      ghost var u := Union(sorted[..curIdx]);
      UnionAppend(sorted, curIdx);
      SweepCount(u, prevPos, range.start, range.end, curPos);
      SweepBounds(u, lastStart, prevPos, range.start, range.end, curPos);
      if range.end > curPos {
        result := result + (range.end - curPos);
        curPos := range.end;
      }
      // `cur_pos` never moves back: the sweep only ever advances.
      assert prevPos <= curPos && range.start <= curPos && range.end <= curPos;
      lastStart := range.start;
      curIdx := curIdx + 1;
      if curIdx < |sorted| {
        assert KeyLe(sorted[curIdx - 1], sorted[curIdx]);
      }
    }
    assert sorted[..|sorted|] == sorted;
    UnionOfPermutation(sorted, ranges);
  }

  lemma UnionAppend(s: seq<ExclusiveRange>, k: int)
    requires 0 <= k < |s|
    ensures Union(s[..k + 1]) == Union(s[..k]) + Interval(s[k].start, s[k].end)
  {
    assert s[..k + 1][..k] == s[..k];
  }

  /** The sweep counts a new range [a, b) from pos = max(prevPos, a) on:
      when everything seen lies below prevPos, that part is exactly what the
      range adds to the union. */
  lemma SweepCount(u: set<int>, prevPos: int, a: int, b: int, pos: int)
    requires AllBelow(u, prevPos)
    requires pos == if prevPos < a then a else prevPos
    requires Interval(a, pos) <= u
    ensures |u + Interval(a, b)| == |u| + (if b > pos then b - pos else 0)
  {
    var added := Interval(pos, b);
    assert u + Interval(a, b) == u + added;
    assert u !! added;
    IntervalSize(pos, b);
  }

  /** After the step, everything seen lies below the new position, and
      everything from the new range's start up to it is covered. */
  lemma SweepBounds(u: set<int>, lastStart: int, prevPos: int, a: int, b: int, pos: int)
    requires AllBelow(u, prevPos)
    requires lastStart <= prevPos && Interval(lastStart, prevPos) <= u && lastStart <= a
    requires pos == if prevPos < a then a else prevPos
    ensures Interval(a, pos) <= u
    ensures var pos' := if b > pos then b else pos;
      AllBelow(u + Interval(a, b), pos') && a <= pos' && Interval(a, pos') <= u + Interval(a, b)
  {
  }
}
