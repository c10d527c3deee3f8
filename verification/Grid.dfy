/** The window queries of utils/grid.py: binary searches over ranges and events kept in order. */
module Grid {
  import opened Sequences

  datatype Range = Range(start: int, end: int)

  // What sorting by start leaves, of ranges that end no earlier than they start.
  ghost predicate Sorted(rs: seq<Range>) {
    && (forall i :: 0 <= i < |rs| ==> rs[i].start <= rs[i].end)
    && (forall i, j :: 0 <= i < j < |rs| ==> rs[i].start <= rs[j].start)
  }

  // No range ends before an earlier one: ranges may overlap, but none lies inside another.
  ghost predicate Ordered(rs: seq<Range>) {
    Sorted(rs) && forall i, j :: 0 <= i < j < |rs| ==> rs[i].end <= rs[j].end
  }

  predicate Contains(r: Range, key: int) { r.start <= key <= r.end }

  predicate Overlaps(r: Range, start: int, end: int) { r.end >= start && r.start <= end }

  // A Python slice with lower bound at most the length.
  function Slice<T>(s: seq<T>, lo: nat, hi: int): seq<T>
    requires lo <= |s|
  {
    var h := if hi > |s| then |s| else hi;
    if lo <= h then s[lo..h] else []
  }

  // Which of the positions a..b a search that halves l..u comes to first.
  function FirstProbed(l: nat, u: int, a: nat, b: nat): (r: nat)
    requires l <= a <= b <= u
    ensures a <= r <= b
    decreases u - l
  {
    var i := (l + u) / 2;
    if b < i then FirstProbed(l, i - 1, a, b)
    else if i < a then FirstProbed(i + 1, u, a, b)
    else i
  }

  // ---- ranges ----

  ghost predicate Missing(rs: seq<Range>, key: int) {
    forall i :: 0 <= i < |rs| ==> !Contains(rs[i], key)
  }

  // Exactly the ranges a..b contain key.
  ghost predicate Holders(rs: seq<Range>, key: int, a: nat, b: nat) {
    a <= b < |rs| && forall i :: 0 <= i < |rs| ==> (Contains(rs[i], key) <==> a <= i <= b)
  }

  // The search between l and u: the first probed range that contains key.
  function Probe(rs: seq<Range>, key: int, l: nat, u: int): (r: int)
    requires l <= u + 1 <= |rs|
    ensures r == -1 || (l <= r <= u && Contains(rs[r], key))
    decreases u - l
  {
    var i := (l + u) / 2;
    if l > u then -1
    else if Contains(rs[i], key) then i
    else if key < rs[i].start then Probe(rs, key, l, i - 1)
    else Probe(rs, key, i + 1, u)
  }

  function Found(rs: seq<Range>, key: int): (r: int)
    ensures r == -1 || (0 <= r < |rs| && Contains(rs[r], key))
  {
    Probe(rs, key, 0, |rs| - 1)
  }

  // In a list in order, the outcome of the search: -1 exactly when no range contains key, and otherwise, of those that
  // do, the one the halving of the whole list comes to first.
  ghost predicate Hit(rs: seq<Range>, key: int, r: int) {
    if Missing(rs, key) then r == -1
    else exists a: nat, b: nat :: Holders(rs, key, a, b) && r == FirstProbed(0, |rs| - 1, a, b)
  }

  lemma HoldersExist(rs: seq<Range>, key: int)
    requires Ordered(rs) && !Missing(rs, key)
    ensures exists a: nat, b: nat :: Holders(rs, key, a, b)
  {
    var i :| 0 <= i < |rs| && Contains(rs[i], key);
    var a, b := i, i;
    while a > 0 && Contains(rs[a - 1], key)
      invariant 0 <= a <= i && forall k :: a <= k <= i ==> Contains(rs[k], key)
    {
      a := a - 1;
    }
    while b + 1 < |rs| && Contains(rs[b + 1], key)
      invariant i <= b < |rs| && forall k :: i <= k <= b ==> Contains(rs[k], key)
    {
      b := b + 1;
    }
    forall k | 0 <= k < |rs| ensures Contains(rs[k], key) <==> a <= k <= b {
      if k < a {
        assert rs[k].end <= rs[a - 1].end && rs[a - 1].start <= rs[a].start;
      }
      if k > b {
        assert rs[b + 1].start <= rs[k].start && rs[b].end <= rs[b + 1].end;
      }
    }
    assert Holders(rs, key, a, b);
  }

  // Positions l..u are still to be searched.
  ghost predicate Searching(rs: seq<Range>, key: int, l: int, u: int) {
    && 0 <= l <= u + 1 <= |rs|
    && (forall i :: 0 <= i < l ==> rs[i].end < key)
    && (forall i :: u < i < |rs| ==> key < rs[i].start)
    && (forall a: nat, b: nat :: Holders(rs, key, a, b) ==> SameProbe(|rs|, l, u, a, b))
  }

  ghost predicate SameProbe(n: nat, l: int, u: int, a: nat, b: nat) {
    0 <= l <= a <= b <= u < n && FirstProbed(0, n - 1, a, b) == FirstProbed(l, u, a, b)
  }

  lemma SearchStart(rs: seq<Range>, key: int)
    ensures Searching(rs, key, 0, |rs| - 1)
  {
  }

  lemma SearchStep(rs: seq<Range>, key: int, l: nat, u: nat, i: nat)
    requires Ordered(rs) && Searching(rs, key, l, u) && l <= u && i == (l + u) / 2 && !Contains(rs[i], key)
    ensures if key < rs[i].start then Searching(rs, key, l, i - 1) else Searching(rs, key, i + 1, u)
  {
    forall a: nat, b: nat | Holders(rs, key, a, b)
      ensures if key < rs[i].start then SameProbe(|rs|, l, i - 1, a, b) else SameProbe(|rs|, i + 1, u, a, b)
    {
      assert Contains(rs[a], key) && Contains(rs[b], key);
    }
  }

  lemma SearchHit(rs: seq<Range>, key: int, l: nat, u: nat, i: nat)
    requires Ordered(rs) && Searching(rs, key, l, u) && l <= u && i == (l + u) / 2 && Contains(rs[i], key)
    ensures Hit(rs, key, i)
  {
    HoldersExist(rs, key);
    var a: nat, b: nat :| Holders(rs, key, a, b);
    assert SameProbe(|rs|, l, u, a, b);
  }

  lemma {:induction false} ProbeHit(rs: seq<Range>, key: int, l: nat, u: int)
    requires Ordered(rs) && l <= u + 1 <= |rs| && Searching(rs, key, l, u)
    ensures Hit(rs, key, Probe(rs, key, l, u))
    decreases u - l
  {
    hide Ordered, Searching, Hit, Contains;
    var i := (l + u) / 2;
    if l > u {
      SearchMiss(rs, key, l, u);
    } else if Contains(rs[i], key) {
      SearchHit(rs, key, l, u, i);
    } else {
      SearchStep(rs, key, l, u, i);
      if key < rs[i].start {
        ProbeHit(rs, key, l, i - 1);
      } else {
        ProbeHit(rs, key, i + 1, u);
      }
    }
  }

  // In a list in order the search finds every key that some range contains.
  lemma FoundHit(rs: seq<Range>, key: int)
    requires Ordered(rs)
    ensures Hit(rs, key, Found(rs, key))
    ensures Found(rs, key) == -1 <==> Missing(rs, key)
  {
    hide Ordered, Searching;
    SearchStart(rs, key);
    ProbeHit(rs, key, 0, |rs| - 1);
  }

  lemma SearchMiss(rs: seq<Range>, key: int, l: nat, u: int)
    requires Searching(rs, key, l, u) && l > u
    ensures Hit(rs, key, -1)
  {
  }

  // ---- lists that are only sorted by start ----

  // The positions that halving l..u probes on its way to the gap before position b.
  function Trail(l: nat, u: int, b: int): set<int>
    requires l <= u + 1
    decreases u - l
  {
    var i := (l + u) / 2;
    if l > u then {} else {i} + if b <= i then Trail(l, i - 1, b) else Trail(i + 1, u, b)
  }

  // b ranges start no later than key.
  ghost predicate StartedBy(rs: seq<Range>, key: int, b: nat) {
    b <= |rs| && forall i :: 0 <= i < |rs| ==> (rs[i].start <= key <==> i < b)
  }

  // The search finds none exactly when each of these that it probes on the way to the gap behind
  // them ends before key; the others are never looked at.
  lemma NotFoundIff(rs: seq<Range>, key: int, b: nat)
    requires Sorted(rs) && StartedBy(rs, key, b)
    ensures Found(rs, key) == -1 <==> forall j :: j in Trail(0, |rs| - 1, b) && 0 <= j < b ==> rs[j].end < key
  {
    TrailRange(0, |rs| - 1, b);
    TrailProbe(rs, key, b, 0, |rs| - 1);
  }

  ghost predicate AllEnd(rs: seq<Range>, key: int, b: nat, trail: set<int>) {
    forall j :: j in trail && 0 <= j < b <= |rs| ==> rs[j].end < key
  }

  lemma {:induction false} TrailRange(l: nat, u: int, b: int)
    requires l <= u + 1
    ensures forall j :: j in Trail(l, u, b) ==> l <= j <= u
    decreases u - l
  {
    if l <= u {
      var i := (l + u) / 2;
      if b <= i {
        TrailRange(l, i - 1, b);
      } else {
        TrailRange(i + 1, u, b);
      }
    }
  }

  lemma {:induction false} TrailProbe(rs: seq<Range>, key: int, b: nat, l: nat, u: int)
    requires Sorted(rs) && StartedBy(rs, key, b) && l <= u + 1 <= |rs|
    ensures Probe(rs, key, l, u) == -1 <==> AllEnd(rs, key, b, Trail(l, u, b))
    decreases u - l
  {
    hide AllEnd, Probe, Trail, Sorted, StartedBy, Contains;
    if l > u {
      TrailEnd(rs, key, b, l, u);
    } else {
      var i := (l + u) / 2;
      ProbeStep(rs, key, l, u, i);
      TrailStep(l, u, b, i);
      SideOf(rs, key, b, i);
      if b <= i {
        TrailProbe(rs, key, b, l, i - 1);
        AllEndAdd(rs, key, b, Trail(l, i - 1, b), i);
      } else {
        TrailProbe(rs, key, b, i + 1, u);
        AllEndAdd(rs, key, b, Trail(i + 1, u, b), i);
      }
    }
  }

  lemma TrailEnd(rs: seq<Range>, key: int, b: nat, l: nat, u: int)
    requires u + 1 == l <= |rs|
    ensures Probe(rs, key, l, u) == -1 && AllEnd(rs, key, b, Trail(l, u, b))
  {
  }

  lemma SideOf(rs: seq<Range>, key: int, b: nat, i: nat)
    requires Sorted(rs) && StartedBy(rs, key, b) && i < |rs|
    ensures b <= |rs|
    ensures if b <= i then !Contains(rs[i], key) && key < rs[i].start
            else rs[i].start <= key && (Contains(rs[i], key) <==> rs[i].end >= key)
  {
  }

  lemma ProbeStep(rs: seq<Range>, key: int, l: nat, u: nat, i: nat)
    requires l <= u < |rs| && i == (l + u) / 2
    ensures Probe(rs, key, l, u) ==
            if Contains(rs[i], key) then i
            else if key < rs[i].start then Probe(rs, key, l, i - 1)
            else Probe(rs, key, i + 1, u)
  {
  }

  lemma TrailStep(l: nat, u: nat, b: int, i: nat)
    requires l <= u && i == (l + u) / 2
    ensures Trail(l, u, b) == {i} + if b <= i then Trail(l, i - 1, b) else Trail(i + 1, u, b)
  {
  }

  lemma AllEndAdd(rs: seq<Range>, key: int, b: nat, trail: set<int>, i: nat)
    requires i < |rs| && b <= |rs|
    ensures AllEnd(rs, key, b, {i} + trail) <==> AllEnd(rs, key, b, trail) && (i < b ==> rs[i].end < key)
  {
    assert i in {i} + trail;
  }

  // It happens when a range lies inside another: 50 is in the first range, but is not found.
  lemma NestedExample()
    ensures var rs := [Range(0, 100), Range(1, 2), Range(3, 4)];
            Sorted(rs) && Contains(rs[0], 50) && Found(rs, 50) == -1
  {
    var rs := [Range(0, 100), Range(1, 2), Range(3, 4)];
    assert Probe(rs, 50, 3, 2) == -1;
    assert Probe(rs, 50, 2, 2) == -1;
  }

  class TimelineDataRange {
    var ranges: seq<Range>

    constructor () ensures ranges == [] { ranges := []; }

    method AddRange(range: Range)
      modifies this
      ensures ranges == old(ranges) + [range]
    {
      ranges := ranges + [range];
    }

    // The loop is the search; what it finds is a range that contains key.
    method Search(key: int) returns (r: int)
      ensures r == Found(ranges, key)
      ensures r == -1 || (0 <= r < |ranges| && Contains(ranges[r], key))
    {
      var l, u := 0, |ranges| - 1;
      while l <= u
        invariant 0 <= l <= u + 1 <= |ranges| && Probe(ranges, key, l, u) == Found(ranges, key)
        decreases u - l
      {
        var i := (l + u) / 2;
        if key >= ranges[i].start && key <= ranges[i].end {
          return i;
        } else if key < ranges[i].start {
          u := i - 1;
        } else {
          l := i + 1;
        }
      }
      return -1;
    }

    method GetRangesBounds(start: int, end: int) returns (lo: int, hi: int)
      ensures Bounds(ranges, start, end, lo, hi)
    {
      var s := Search(start);
      var e := Search(end);
      if s == -1 && e == -1 {
        lo, hi := 0, 0;
      } else if s == -1 {
        lo, hi := 0, e + 1;
      } else if e == -1 {
        lo, hi := s, |ranges|;
      } else {
        lo, hi := s, e + 1;
      }
    }

    // The ranges from lo up to hi; and exactly the overlapping ones, in order and each once, where
    // the bounds are right.
    method GetRanges(start: int, end: int) returns (r: seq<Range>)
      ensures exists lo: nat, hi: int ::
                && Bounds(ranges, start, end, lo, hi) && lo <= |ranges| && hi <= |ranges|
                && |r| == (if lo < hi then hi - lo else 0)
                && forall k :: 0 <= k < |r| ==> r[k] == ranges[lo + k]
      ensures Ordered(ranges) && start <= end && RightEnds(ranges, start, end) ==>
                exists f: seq<nat> ::
                  && Chosen(f, set i: nat | i < |ranges| && ranges[i].end >= start && ranges[i].start <= end)
                  && |r| == |f|
                  && forall k :: 0 <= k < |f| ==> f[k] < |ranges| && r[k] == ranges[f[k]]
    {
      hide Found, Ordered, RightEnds, Bounds;
      var s := Search(start);
      var e := Search(end);
      ghost var lo: nat, hi: int := BoundsFrom(ranges, start, end);
      if s == -1 && e == -1 {
        r := [];
      } else if s == -1 {
        r := Slice(ranges, 0, e + 1);
      } else if e == -1 {
        r := Slice(ranges, s, |ranges|);
      } else {
        r := Slice(ranges, s, e + 1);
      }
      if Ordered(ranges) && start <= end && RightEnds(ranges, start, end) {
        ExactIff(ranges, start, end, lo, hi);
        var f := ListExact(ranges, start, end, lo, hi, r);
      }
    }
  }

  lemma BoundsFrom(rs: seq<Range>, start: int, end: int) returns (lo: nat, hi: int)
    ensures Bounds(rs, start, end, lo, hi) && lo <= |rs| && hi <= |rs|
    ensures if Found(rs, start) == -1 && Found(rs, end) == -1 then lo == 0 && hi == 0
            else
              && lo == (if Found(rs, start) == -1 then 0 else Found(rs, start))
              && hi == if Found(rs, end) == -1 then |rs| else Found(rs, end) + 1
  {
    var s, e := Found(rs, start), Found(rs, end);
    lo := if s == -1 then 0 else s;
    hi := if s == -1 && e == -1 then 0 else if e == -1 then |rs| else e + 1;
  }

  // The slice runs from the range found for start to the range found for end; where none is found
  // the end of the list stands in, and when neither is found the slice is empty.
  ghost predicate Bounds(rs: seq<Range>, start: int, end: int, lo: int, hi: int) {
    if Found(rs, start) == -1 && Found(rs, end) == -1 then lo == 0 && hi == 0
    else
      && lo == (if Found(rs, start) == -1 then 0 else Found(rs, start))
      && hi == if Found(rs, end) == -1 then |rs| else Found(rs, end) + 1
  }

  // In a list in order: one end of the window in no range means none was found, and otherwise the
  // halving of the whole list decides.
  lemma BoundsInOrder(rs: seq<Range>, start: int, end: int, lo: int, hi: int)
    requires Ordered(rs) && Bounds(rs, start, end, lo, hi)
    ensures if Missing(rs, start) && Missing(rs, end) then lo == 0 && hi == 0
            else
              && (if Missing(rs, start) then lo == 0 else Hit(rs, start, lo))
              && (if Missing(rs, end) then hi == |rs| else Hit(rs, end, hi - 1))
  {
    hide Missing, Hit, Found, Ordered;
    FoundHit(rs, start);
    FoundHit(rs, end);
  }

  ghost predicate Exact(rs: seq<Range>, start: int, end: int, lo: int, hi: int) {
    forall i :: 0 <= i < |rs| ==> (lo <= i < hi <==> Overlaps(rs[i], start, end))
  }

  // A start outside all ranges lies before the first; one shared by several hits the first of them.
  ghost predicate StartOk(rs: seq<Range>, start: int) {
    if Missing(rs, start) then |rs| > 0 && start < rs[0].start
    else forall a: nat, b: nat :: Holders(rs, start, a, b) ==> FirstProbed(0, |rs| - 1, a, b) == a
  }

  // An end outside all ranges lies after the last; one shared by several hits the last of them.
  ghost predicate EndOk(rs: seq<Range>, end: int) {
    if Missing(rs, end) then |rs| > 0 && rs[|rs| - 1].end < end
    else forall a: nat, b: nat :: Holders(rs, end, a, b) ==> FirstProbed(0, |rs| - 1, a, b) == b
  }

  lemma HoldersUnique(rs: seq<Range>, key: int, a: nat, b: nat, c: nat, d: nat)
    requires Holders(rs, key, a, b) && Holders(rs, key, c, d)
    ensures a == c && b == d
  {
    assert Contains(rs[a], key) && Contains(rs[b], key) && Contains(rs[c], key) && Contains(rs[d], key);
  }

  // Which ranges reach up to start, and which reach down to end.
  lemma Reach(rs: seq<Range>, key: int, a: nat, b: nat, i: nat)
    requires Ordered(rs) && Holders(rs, key, a, b) && i < |rs|
    ensures rs[i].end >= key <==> i >= a
    ensures rs[i].start <= key <==> i <= b
  {
    assert Contains(rs[a], key) && Contains(rs[b], key);
    assert !(a <= i <= b) ==> !Contains(rs[i], key);
  }

  // Both ends of the window are as above, or neither is in a range and no range lies between them.
  ghost predicate RightEnds(rs: seq<Range>, start: int, end: int) {
    if Missing(rs, start) && Missing(rs, end) then forall i :: 0 <= i < |rs| ==> !(start < rs[i].start <= end)
    else StartOk(rs, start) && EndOk(rs, end)
  }

  // A list of the ranges of exact bounds lists the overlapping ranges.
  lemma ListExact(rs: seq<Range>, start: int, end: int, lo: nat, hi: int, r: seq<Range>) returns (f: seq<nat>)
    requires Exact(rs, start, end, lo, hi) && lo <= |rs| && hi <= |rs|
    requires |r| == (if lo < hi then hi - lo else 0) && forall k :: 0 <= k < |r| ==> r[k] == rs[lo + k]
    ensures Chosen(f, set i: nat | i < |rs| && rs[i].end >= start && rs[i].start <= end) && |r| == |f|
    ensures forall k :: 0 <= k < |f| ==> f[k] < |rs| && r[k] == rs[f[k]]
  {
    f := Interval(lo, |r|);
    forall i: nat ensures i in f <==> i < |rs| && rs[i].end >= start && rs[i].start <= end {
      assert i < |rs| ==> (lo <= i < hi <==> Overlaps(rs[i], start, end));
    }
  }

  // n numbers from lo on.
  ghost function Interval(lo: nat, n: nat): (f: seq<nat>)
    ensures |f| == n && forall k :: 0 <= k < n ==> f[k] == lo + k
    ensures forall i: nat :: i in f <==> lo <= i < lo + n
  {
    var f := seq(n, k requires 0 <= k < n => lo + k);
    assert forall i: nat :: i in f <==> lo <= i < lo + n by {
      forall i: nat | lo <= i < lo + n ensures i in f {
        assert f[i - lo] == i;
      }
    }
    f
  }

  // The slice is exactly the overlapping ranges if and only if the ends are right.
  lemma ExactIff(rs: seq<Range>, start: int, end: int, lo: int, hi: int)
    requires Ordered(rs) && start <= end && Bounds(rs, start, end, lo, hi)
    ensures Exact(rs, start, end, lo, hi) <==> RightEnds(rs, start, end)
  {
    BoundsInOrder(rs, start, end, lo, hi);
    if Missing(rs, start) && Missing(rs, end) {
      forall i | 0 <= i < |rs| ensures Overlaps(rs[i], start, end) <==> start < rs[i].start <= end {
        assert !Contains(rs[i], start) && !Contains(rs[i], end);
      }
    } else if Missing(rs, start) {
      MissingStart(rs, start, end, hi);
    } else if Missing(rs, end) {
      MissingEnd(rs, start, end, lo);
    } else {
      BothFound(rs, start, end, lo, hi);
    }
  }

  lemma MissingStart(rs: seq<Range>, start: int, end: int, hi: int)
    requires Ordered(rs) && start <= end && Missing(rs, start) && !Missing(rs, end) && Hit(rs, end, hi - 1)
    ensures Exact(rs, start, end, 0, hi) <==> StartOk(rs, start) && EndOk(rs, end)
  {
    var a: nat, b: nat :| Holders(rs, end, a, b) && hi - 1 == FirstProbed(0, |rs| - 1, a, b);
    EndOkIs(rs, end, a, b);
    forall i: nat | i < |rs| ensures Overlaps(rs[i], start, end) <==> rs[i].end >= start && i <= b {
      Reach(rs, end, a, b, i);
    }
    assert !Contains(rs[0], start) && Contains(rs[b], end);
    assert Overlaps(rs[b], start, end);
    if StartOk(rs, start) {
      assert forall i :: 0 <= i < |rs| ==> rs[0].end <= rs[i].end;
    }
    if Exact(rs, start, end, 0, hi) {
      assert 0 <= 0 < hi && Overlaps(rs[0], start, end);
    }
  }

  lemma MissingEnd(rs: seq<Range>, start: int, end: int, lo: int)
    requires Ordered(rs) && start <= end && !Missing(rs, start) && Missing(rs, end) && Hit(rs, start, lo)
    ensures Exact(rs, start, end, lo, |rs|) <==> StartOk(rs, start) && EndOk(rs, end)
  {
    var n := |rs|;
    var a: nat, b: nat :| Holders(rs, start, a, b) && lo == FirstProbed(0, n - 1, a, b);
    StartOkIs(rs, start, a, b);
    forall i: nat | i < n ensures Overlaps(rs[i], start, end) <==> i >= a && rs[i].start <= end {
      Reach(rs, start, a, b, i);
    }
    assert !Contains(rs[n - 1], end) && Contains(rs[a], start);
    assert Overlaps(rs[a], start, end);
    if EndOk(rs, end) {
      assert forall i :: 0 <= i < n ==> rs[i].start <= rs[n - 1].start;
    }
    if Exact(rs, start, end, lo, n) {
      assert lo <= n - 1 < n && Overlaps(rs[n - 1], start, end);
    }
  }

  lemma BothFound(rs: seq<Range>, start: int, end: int, lo: int, hi: int)
    requires Ordered(rs) && start <= end && !Missing(rs, start) && !Missing(rs, end)
    requires Hit(rs, start, lo) && Hit(rs, end, hi - 1)
    ensures Exact(rs, start, end, lo, hi) <==> StartOk(rs, start) && EndOk(rs, end)
  {
    var a: nat, b: nat :| Holders(rs, start, a, b) && lo == FirstProbed(0, |rs| - 1, a, b);
    var c: nat, d: nat :| Holders(rs, end, c, d) && hi - 1 == FirstProbed(0, |rs| - 1, c, d);
    StartOkIs(rs, start, a, b);
    EndOkIs(rs, end, c, d);
    forall i: nat | i < |rs| ensures Overlaps(rs[i], start, end) <==> a <= i <= d {
      Reach(rs, start, a, b, i);
      Reach(rs, end, c, d, i);
    }
    assert Contains(rs[a], start) && Contains(rs[d], end);
    assert Overlaps(rs[a], start, end) && Overlaps(rs[d], start, end);
  }

  lemma StartOkIs(rs: seq<Range>, start: int, a: nat, b: nat)
    requires Holders(rs, start, a, b)
    ensures !Missing(rs, start) && (StartOk(rs, start) <==> FirstProbed(0, |rs| - 1, a, b) == a)
  {
    assert Contains(rs[a], start);
    forall c: nat, d: nat | Holders(rs, start, c, d) ensures c == a && d == b {
      HoldersUnique(rs, start, a, b, c, d);
    }
  }

  lemma EndOkIs(rs: seq<Range>, end: int, a: nat, b: nat)
    requires Holders(rs, end, a, b)
    ensures !Missing(rs, end) && (EndOk(rs, end) <==> FirstProbed(0, |rs| - 1, a, b) == b)
  {
    assert Contains(rs[a], end);
    forall c: nat, d: nat | Holders(rs, end, c, d) ensures c == a && d == b {
      HoldersUnique(rs, end, a, b, c, d);
    }
  }

  // The slice contains every overlapping range, whatever else it contains.
  ghost predicate Covers(rs: seq<Range>, start: int, end: int, lo: int, hi: int) {
    forall i :: 0 <= i < |rs| && Overlaps(rs[i], start, end) ==> lo <= i < hi
  }

  // No overlapping range is lost if and only if an end of the window that several ranges share
  // hits the outermost of them, or, when neither end is in a range, no range lies between them.
  lemma NoneLostIff(rs: seq<Range>, start: int, end: int, lo: int, hi: int)
    requires Ordered(rs) && start <= end && Bounds(rs, start, end, lo, hi)
    ensures Covers(rs, start, end, lo, hi) <==>
              if Missing(rs, start) && Missing(rs, end) then forall i :: 0 <= i < |rs| ==> !(start < rs[i].start <= end)
              else (!Missing(rs, start) ==> StartOk(rs, start)) && (!Missing(rs, end) ==> EndOk(rs, end))
  {
    BoundsInOrder(rs, start, end, lo, hi);
    if Missing(rs, start) && Missing(rs, end) {
      forall i | 0 <= i < |rs| ensures Overlaps(rs[i], start, end) <==> start < rs[i].start <= end {
        assert !Contains(rs[i], start) && !Contains(rs[i], end);
      }
    } else {
      LostAtStart(rs, start, end, lo);
      LostAtEnd(rs, start, end, hi);
      CoversSplit(rs, start, end, lo, hi);
    }
  }

  lemma CoversSplit(rs: seq<Range>, start: int, end: int, lo: int, hi: int)
    ensures Covers(rs, start, end, lo, hi) <==>
            && (forall i :: 0 <= i < |rs| && Overlaps(rs[i], start, end) ==> lo <= i)
            && (forall i :: 0 <= i < |rs| && Overlaps(rs[i], start, end) ==> i < hi)
  {
  }

  lemma LostAtStart(rs: seq<Range>, start: int, end: int, lo: int)
    requires Ordered(rs) && start <= end && if Missing(rs, start) then lo == 0 else Hit(rs, start, lo)
    ensures (forall i :: 0 <= i < |rs| && Overlaps(rs[i], start, end) ==> lo <= i) <==>
            (!Missing(rs, start) ==> StartOk(rs, start))
  {
    if !Missing(rs, start) {
      var a: nat, b: nat :| Holders(rs, start, a, b) && lo == FirstProbed(0, |rs| - 1, a, b);
      StartOkIs(rs, start, a, b);
      forall i: nat | i < |rs| && Overlaps(rs[i], start, end) ensures a <= i {
        Reach(rs, start, a, b, i);
      }
      assert Contains(rs[a], start) && Overlaps(rs[a], start, end);
    }
  }

  lemma LostAtEnd(rs: seq<Range>, start: int, end: int, hi: int)
    requires Ordered(rs) && start <= end && if Missing(rs, end) then hi == |rs| else Hit(rs, end, hi - 1)
    ensures (forall i :: 0 <= i < |rs| && Overlaps(rs[i], start, end) ==> i < hi) <==>
            (!Missing(rs, end) ==> EndOk(rs, end))
  {
    if !Missing(rs, end) {
      var a: nat, b: nat :| Holders(rs, end, a, b) && hi - 1 == FirstProbed(0, |rs| - 1, a, b);
      EndOkIs(rs, end, a, b);
      forall i: nat | i < |rs| && Overlaps(rs[i], start, end) ensures i <= b {
        Reach(rs, end, a, b, i);
      }
      assert Contains(rs[b], end) && Overlaps(rs[b], start, end);
    }
  }

  // For ranges that do not even share end points, a window with both ends in ranges is exact.
  lemma DisjointExact(rs: seq<Range>, start: int, end: int, lo: int, hi: int)
    requires forall i :: 0 <= i < |rs| ==> rs[i].start <= rs[i].end
    requires forall i, j :: 0 <= i < j < |rs| ==> rs[i].end < rs[j].start
    requires start <= end && Bounds(rs, start, end, lo, hi) && !Missing(rs, start) && !Missing(rs, end)
    ensures Exact(rs, start, end, lo, hi)
  {
    ExactIff(rs, start, end, lo, hi);
    forall key: int, a: nat, b: nat | Holders(rs, key, a, b) ensures a == b {
      assert Contains(rs[a], key) && Contains(rs[b], key);
    }
  }

  // Both ends outside all ranges: a range inside the window is lost.
  lemma GapExample()
    ensures var rs := [Range(1, 2)];
            Ordered(rs) && Bounds(rs, 0, 3, 0, 0) && Overlaps(rs[0], 0, 3) && !Exact(rs, 0, 3, 0, 0)
  {
    var rs := [Range(1, 2)];
    assert Found(rs, 0) == -1 && Found(rs, 3) == -1;
  }

  // The start between two ranges: one before the window is returned.
  lemma TooManyExample()
    ensures var rs := [Range(0, 1), Range(4, 5)];
            Ordered(rs) && Bounds(rs, 2, 4, 0, 2) && !Overlaps(rs[0], 2, 4) && !Exact(rs, 2, 4, 0, 2)
  {
    var rs := [Range(0, 1), Range(4, 5)];
    assert Found(rs, 2) == -1 && Found(rs, 4) == 1;
  }

  // The end shared by two ranges: the search stops at the first, and the second is lost.
  lemma SharedEndExample()
    ensures var rs := [Range(0, 10), Range(10, 20)];
            Ordered(rs) && Bounds(rs, 5, 10, 0, 1) && Overlaps(rs[1], 5, 10) && !Exact(rs, 5, 10, 0, 1)
  {
    var rs := [Range(0, 10), Range(10, 20)];
    assert Found(rs, 5) == 0 && Found(rs, 10) == 0;
  }

  // ---- events ----

  // In order of time; events may fall on the same time.
  ghost predicate NonDecreasing(at: seq<int>) { forall i, j :: 0 <= i < j < |at| ==> at[i] <= at[j] }

  // Exactly the events a..b are at time key.
  ghost predicate At(at: seq<int>, key: int, a: nat, b: nat) {
    a <= b < |at| && forall i :: 0 <= i < |at| ==> (at[i] == key <==> a <= i <= b)
  }

  // The outcome of the search: where key would be inserted when no event is at that time, and
  // otherwise, of those that are, the one the halving of the whole list comes to first.
  ghost predicate EventHit(at: seq<int>, key: int, l: int) {
    if key !in at then 0 <= l <= |at| && forall i :: 0 <= i < |at| ==> (i < l <==> at[i] < key)
    else exists a: nat, b: nat :: At(at, key, a, b) && l == FirstProbed(0, |at| - 1, a, b)
  }

  lemma AtExists(at: seq<int>, key: int)
    requires NonDecreasing(at) && key in at
    ensures exists a: nat, b: nat :: At(at, key, a, b)
  {
    var i :| 0 <= i < |at| && at[i] == key;
    var a, b := i, i;
    while a > 0 && at[a - 1] == key
      invariant 0 <= a <= i && forall k :: a <= k <= i ==> at[k] == key
    {
      a := a - 1;
    }
    while b + 1 < |at| && at[b + 1] == key
      invariant i <= b < |at| && forall k :: i <= k <= b ==> at[k] == key
    {
      b := b + 1;
    }
    assert At(at, key, a, b);
  }

  ghost predicate EventSearching(at: seq<int>, key: int, l: int, u: int) {
    && 0 <= l <= u + 1 <= |at|
    && (forall i :: 0 <= i < l ==> at[i] < key)
    && (forall i :: u < i < |at| ==> key < at[i])
    && (forall a: nat, b: nat :: At(at, key, a, b) ==> SameProbe(|at|, l, u, a, b))
  }

  lemma EventSearchStart(at: seq<int>, key: int)
    ensures EventSearching(at, key, 0, |at| - 1)
  {
  }

  lemma EventSearchStep(at: seq<int>, key: int, l: nat, u: nat, i: nat)
    requires NonDecreasing(at) && EventSearching(at, key, l, u) && l <= u && i == (l + u) / 2 && at[i] != key
    ensures if key < at[i] then EventSearching(at, key, l, i - 1) else EventSearching(at, key, i + 1, u)
  {
    forall a: nat, b: nat | At(at, key, a, b)
      ensures if key < at[i] then SameProbe(|at|, l, i - 1, a, b) else SameProbe(|at|, i + 1, u, a, b)
    {
      assert at[a] == key && at[b] == key;
    }
  }

  lemma EventSearchHit(at: seq<int>, key: int, l: nat, u: nat, i: nat)
    requires NonDecreasing(at) && EventSearching(at, key, l, u) && l <= u && i == (l + u) / 2 && at[i] == key
    ensures EventHit(at, key, i)
  {
    AtExists(at, key);
    var a: nat, b: nat :| At(at, key, a, b);
    assert SameProbe(|at|, l, u, a, b);
  }

  lemma EventSearchMiss(at: seq<int>, key: int, l: nat, u: int)
    requires EventSearching(at, key, l, u) && l > u
    ensures EventHit(at, key, l)
  {
  }

  class TimelineEvent {
    var at: seq<int>

    constructor () ensures at == [] { at := []; }

    method Search(key: int) returns (l: int)
      requires NonDecreasing(at)
      ensures 0 <= l <= |at| && EventHit(at, key, l)
    {
      hide EventSearching, EventHit, NonDecreasing;
      l := 0;
      var u := |at| - 1;
      EventSearchStart(at, key);
      while l <= u
        invariant 0 <= l <= u + 1 <= |at| && EventSearching(at, key, l, u)
        decreases u - l
      {
        var i := (l + u) / 2;
        if key == at[i] {
          EventSearchHit(at, key, l, u, i);
          return i;
        }
        EventSearchStep(at, key, l, u, i);
        if key < at[i] {
          u := i - 1;
        } else {
          l := i + 1;
        }
      }
      EventSearchMiss(at, key, l, u);
    }

    // The events from s up to and including e; and those of the window, in order and each once, then
    // perhaps the next one, where none is missed.
    method GetEvents(start: int, end: int) returns (r: seq<int>)
      requires NonDecreasing(at)
      ensures exists s: nat, e: nat ::
                && s <= |at| && e <= |at| && EventHit(at, start, s) && EventHit(at, end, e)
                && |r| == (if e < |at| && s <= e then e + 1 - s else if e == |at| then |at| - s else 0)
                && forall k :: 0 <= k < |r| ==> r[k] == at[s + k]
      ensures start <= end && NoneMissed(at, start, end) ==>
                exists f: seq<nat> ::
                  && Chosen(f, set i: nat | i < |at| && start <= at[i] <= end)
                  && |r| == |f| + (if end !in at && at != [] && at[|at| - 1] > end then 1 else 0)
                  && (forall k :: 0 <= k < |f| ==> f[k] < |at| && r[k] == at[f[k]])
                  && forall k :: |f| <= k < |r| ==> r[k] > end
    {
      hide EventHit, NonDecreasing, NoneMissed, FirstProbed;
      var s := Search(start);
      var e := Search(end);
      r := Slice(at, s, e + 1);
      assert |r| == if e < |at| && s <= e then e + 1 - s else if e == |at| then |at| - s else 0;
      if start <= end && NoneMissed(at, start, end) {
        NoneMissedIff(at, start, end, s, e);
        var f := ListWindow(at, start, end, s, e, r);
      }
    }
  }

  // A start that several events share hits the first of them, and a shared end the last.
  ghost predicate NoneMissed(at: seq<int>, start: int, end: int) {
    && (forall a: nat, b: nat :: At(at, start, a, b) ==> FirstProbed(0, |at| - 1, a, b) == a)
    && (forall a: nat, b: nat :: At(at, end, a, b) ==> FirstProbed(0, |at| - 1, a, b) == b)
  }

  lemma ListWindow(at: seq<int>, start: int, end: int, s: nat, e: nat, r: seq<int>) returns (f: seq<nat>)
    requires NonDecreasing(at) && start <= end && EventHit(at, start, s) && EventHit(at, end, e)
    requires forall i :: 0 <= i < |at| && InWindow(at[i], start, end) ==> s <= i < e + 1
    requires s <= |at| && e <= |at|
    requires |r| == if e < |at| && s <= e then e + 1 - s else if e == |at| then |at| - s else 0
    requires forall k :: 0 <= k < |r| ==> r[k] == at[s + k]
    ensures Chosen(f, set i: nat | i < |at| && start <= at[i] <= end)
    ensures |r| == |f| + if end !in at && at != [] && at[|at| - 1] > end then 1 else 0
    ensures forall k :: |f| <= k < |r| ==> r[k] > end
    ensures forall k :: 0 <= k < |f| ==> f[k] < |at| && r[k] == at[f[k]]
  {
    OneExtraIff(at, start, end, s, e);
    var extra := if end !in at && e < |at| then 1 else 0;
    WindowIs(at, start, end, s, e);
    hide NonDecreasing, EventHit;
    f := Interval(s, |r| - extra);
    forall i: nat ensures i in f <==> i < |at| && start <= at[i] <= end {
      assert i < |at| ==> (s <= i < s + (|r| - extra) <==> InWindow(at[i], start, end));
    }
  }

  // The events of the window are those from s up to e, or up to and including e.
  lemma WindowIs(at: seq<int>, start: int, end: int, s: nat, e: nat)
    requires NonDecreasing(at) && start <= end && EventHit(at, start, s) && EventHit(at, end, e)
    requires forall i :: 0 <= i < |at| && InWindow(at[i], start, end) ==> s <= i < e + 1
    ensures s <= e <= |at| && (end in at ==> e < |at|)
    ensures end !in at ==> (e < |at| <==> at != [] && at[|at| - 1] > end)
    ensures forall i :: 0 <= i < |at| ==>
              (InWindow(at[i], start, end) <==> s <= i < e + if end in at then 1 else 0)
    ensures end !in at && e < |at| ==> at[e] > end
  {
    StartBeforeEnd(at, start, end, s, e);
    OneExtraIff(at, start, end, s, e);
    HitOrder(at, end, e);
  }

  // The position found for the end is not before that found for the start when none is missed, and
  // an event behind the window is there exactly when the last one is.
  lemma StartBeforeEnd(at: seq<int>, start: int, end: int, s: nat, e: nat)
    requires NonDecreasing(at) && start <= end && EventHit(at, start, s) && EventHit(at, end, e)
    requires forall i :: 0 <= i < |at| && InWindow(at[i], start, end) ==> s <= i < e + 1
    ensures s <= e
    ensures end !in at ==> (e < |at| <==> at != [] && at[|at| - 1] > end)
  {
    HitOrder(at, start, s);
    HitOrder(at, end, e);
    if start in at {
      assert InWindow(at[s], start, end);
    }
    if e < |at| {
      assert at[e] >= end;
    }
  }

  predicate InWindow(at: int, start: int, end: int) { start <= at <= end }

  // No event of the window is left out if and only if the search for a start shared by several
  // events stops at the first of them, and that for an end shared by several at the last.
  lemma NoneMissedIff(at: seq<int>, start: int, end: int, s: nat, e: nat)
    requires NonDecreasing(at) && start <= end && EventHit(at, start, s) && EventHit(at, end, e)
    ensures (forall i :: 0 <= i < |at| && InWindow(at[i], start, end) ==> s <= i < e + 1) <==>
            NoneMissed(at, start, end)
  {
    forall a: nat, b: nat | At(at, start, a, b)
      ensures a <= s == FirstProbed(0, |at| - 1, a, b) && InWindow(at[a], start, end)
    {
      AtHit(at, start, a, b, s);
    }
    forall a: nat, b: nat | At(at, end, a, b)
      ensures b >= e == FirstProbed(0, |at| - 1, a, b) && InWindow(at[b], start, end)
    {
      AtHit(at, end, a, b, e);
    }
    if start in at {
      AtExists(at, start);
    }
    if end in at {
      AtExists(at, end);
    }
  }

  lemma AtHit(at: seq<int>, key: int, a: nat, b: nat, l: nat)
    requires At(at, key, a, b) && EventHit(at, key, l)
    ensures l == FirstProbed(0, |at| - 1, a, b) && at[a] == key && at[b] == key
  {
    hide FirstProbed;
    assert at[a] == key && key in at;
    var c: nat, d: nat :| At(at, key, c, d) && l == FirstProbed(0, |at| - 1, c, d);
    AtUnique(at, key, a, b, c, d);
  }

  lemma AtUnique(at: seq<int>, key: int, a: nat, b: nat, c: nat, d: nat)
    requires At(at, key, a, b) && At(at, key, c, d)
    ensures a == c && b == d
  {
    assert at[a] == key && at[b] == key && at[c] == key && at[d] == key;
  }

  // At most one other event is returned, the next after the window: exactly when no event falls on
  // the end of the window and some event follows.
  lemma OneExtraIff(at: seq<int>, start: int, end: int, s: nat, e: nat)
    requires NonDecreasing(at) && start <= end && EventHit(at, start, s) && EventHit(at, end, e)
    ensures forall i :: s <= i < e + 1 && i < |at| && !InWindow(at[i], start, end) ==> i == e && at[i] > end
    ensures (exists i :: s <= i < e + 1 && i < |at| && !InWindow(at[i], start, end)) <==> end !in at && e < |at|
  {
    HitOrder(at, start, s);
    HitOrder(at, end, e);
    if end !in at && e < |at| {
      assert at[e] > end && !InWindow(at[e], start, end);
    }
  }

  lemma HitOrder(at: seq<int>, key: int, l: nat)
    requires NonDecreasing(at) && EventHit(at, key, l)
    ensures l <= |at| && (key in at ==> l < |at| && at[l] == key)
    ensures forall i :: 0 <= i < l ==> at[i] <= key
    ensures forall i :: l <= i < |at| ==> at[i] >= key
  {
  }

  // Two events at the one time asked for: only the first is returned.
  lemma SameTimeExample()
    ensures NonDecreasing([5, 5]) && EventHit([5, 5], 5, 0) && Slice([5, 5], 0, 0 + 1) == [5]
  {
    assert At([5, 5], 5, 0, 1) && FirstProbed(0, 1, 0, 1) == 0;
  }
}
