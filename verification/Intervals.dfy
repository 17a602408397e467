/** Line intervals in 32-bit arithmetic: stable sorting by start, and the gap sweep. */
module Intervals {

  const U32_MAX := 0xFFFF_FFFF

  type u32 = x: int | 0 <= x <= U32_MAX

  /** Unsigned 32-bit wrap-around. */
  function Wrap(x: int): u32 {
    x % 0x1_0000_0000
  }

  datatype Interval = Interval(start: u32, end: u32)

  // ---- sorting ----

  /** Insert after every element that does not start later. */
  function Insert(s: seq<Interval>, x: Interval): seq<Interval> {
    if s == [] || s[|s| - 1].start <= x.start then s + [x]
    else Insert(s[..|s| - 1], x) + [s[|s| - 1]]
  }

  function SortByStart(s: seq<Interval>): seq<Interval> {
    if s == [] then [] else Insert(SortByStart(s[..|s| - 1]), s[|s| - 1])
  }

  ghost predicate Sorted(s: seq<Interval>) {
    forall i, j :: 0 <= i < j < |s| ==> s[i].start <= s[j].start
  }

  lemma {:induction false} InsertContents(s: seq<Interval>, x: Interval)
    ensures multiset(Insert(s, x)) == multiset(s) + multiset{x}
  {
    if s != [] {
      var n := |s| - 1;
      InsertContents(s[..n], x);
      assert s == s[..n] + [s[n]];
    }
  }

  lemma {:induction false} InsertSorted(s: seq<Interval>, x: Interval)
    requires Sorted(s)
    ensures Sorted(Insert(s, x))
    ensures |Insert(s, x)| == |s| + 1
    ensures Insert(s, x)[|s|] == if s == [] || s[|s| - 1].start <= x.start then x else s[|s| - 1]
  {
    if s != [] && s[|s| - 1].start > x.start {
      var n := |s| - 1;
      InsertSorted(s[..n], x);
    }
  }

  lemma SortStep(t: seq<Interval>, r: seq<Interval>, x: Interval)
    requires Sorted(t) && multiset(t) == multiset(r) && |t| == |r|
    ensures Sorted(Insert(t, x)) && multiset(Insert(t, x)) == multiset(r + [x])
    ensures |Insert(t, x)| == |r| + 1
  {
    InsertSorted(t, x);
    InsertContents(t, x);
  }

  /** The two-array insertion sort loses, duplicates and unpairs nothing. */
  lemma {:induction false} SortIsSortedPermutation(s: seq<Interval>)
    ensures Sorted(SortByStart(s)) && multiset(SortByStart(s)) == multiset(s)
    ensures |SortByStart(s)| == |s|
  {
    if s != [] {
      var r, x := s[..|s| - 1], s[|s| - 1];
      var t := SortByStart(r);
      assert SortByStart(s) == Insert(t, x) && s == r + [x];
      hide *;
      SortIsSortedPermutation(r);
      SortStep(t, r, x);
    }
  }

  /** Elements that start later than `x` stay behind it. */
  lemma {:induction false} InsertBefore(s: seq<Interval>, k: nat, x: Interval)
    requires k <= |s| && forall i :: k <= i < |s| ==> s[i].start > x.start
    ensures Insert(s, x) == Insert(s[..k], x) + s[k..]
    decreases |s|
  {
    if k < |s| {
      var n := |s| - 1;
      InsertBefore(s[..n], k, x);
      assert s[..n][..k] == s[..k];
      assert s[k..] == s[..n][k..] + [s[n]];
    } else {
      assert s[..k] == s;
    }
  }

  /** The place insertion finds: after the last element that does not start later. */
  lemma InsertAt(s: seq<Interval>, k: nat, x: Interval)
    requires k <= |s| && forall i :: k <= i < |s| ==> s[i].start > x.start
    requires k > 0 ==> s[k - 1].start <= x.start
    ensures Insert(s, x) == s[..k] + [x] + s[k..]
  {
    InsertBefore(s, k, x);
    assert Insert(s[..k], x) == s[..k] + [x];
  }

  // ---- sweeping ----

  /** Extend the covered line as far as the intervals reach; false at a gap. */
  predicate Sweep(covered: u32, s: seq<Interval>, re: u32)
    decreases |s|
  {
    if s == [] then covered >= re
    else if s[0].start > Wrap(covered + 1) then false
    else Sweep(if s[0].end > covered then s[0].end else covered, s[1..], re)
  }

  ghost predicate Covers(s: seq<Interval>, line: int) {
    exists i :: 0 <= i < |s| && s[i].start <= line <= s[i].end
  }

  /** No line after `covered` and up to `re` is left out. */
  ghost predicate CoversAfter(covered: int, re: int, s: seq<Interval>) {
    forall line :: covered < line <= re ==> Covers(s, line)
  }

  /** The last possible line number ends an interval that is not the final one. */
  ghost predicate MaxBeforeEnd(s: seq<Interval>) {
    exists i :: 0 <= i < |s| - 1 && s[i].end == U32_MAX
  }

  ghost predicate Within(s: seq<Interval>, rs: int, re: int) {
    forall i :: 0 <= i < |s| ==> rs <= s[i].start <= re && s[i].start <= s[i].end
  }

  lemma CoversTail(s: seq<Interval>, line: int)
    requires s != []
    ensures Covers(s, line) <==> s[0].start <= line <= s[0].end || Covers(s[1..], line)
  {
    if i :| 0 <= i < |s| && s[i].start <= line <= s[i].end {
      assert i > 0 ==> s[1..][i - 1] == s[i];
    }
    if i :| 0 <= i < |s[1..]| && s[1..][i].start <= line <= s[1..][i].end { assert s[i + 1] == s[1..][i]; }
  }

  /** What the sweep decides: full coverage, except that line number 2^32 - 1 wraps the
      next expected line around to zero and stops the sweep early. */
  lemma {:induction false} SweepIsCover(covered: u32, s: seq<Interval>, re: u32)
    requires Sorted(s) && Within(s, 1, re)
    ensures Sweep(covered, s, re) <==>
              CoversAfter(covered, re, s) && !MaxBeforeEnd(s) && (covered == U32_MAX ==> s == [])
    decreases |s|
  {
    if s == [] {
      if covered < re { assert !Covers(s, covered + 1); }
    } else if covered < U32_MAX {
      var x, t := s[0], s[1..];
      var next := if x.end > covered then x.end else covered;
      forall line ensures Covers(s, line) <==> x.start <= line <= x.end || Covers(t, line) { CoversTail(s, line); }
      if x.start > covered + 1 {
        assert !Covers(s, covered + 1);
      } else {
        SweepIsCover(next, t, re);
        MaxBeforeEndTail(s);
      }
    }
  }

  lemma MaxBeforeEndTail(s: seq<Interval>)
    requires s != []
    ensures MaxBeforeEnd(s) <==> (s[0].end == U32_MAX && s[1..] != []) || MaxBeforeEnd(s[1..])
  {
    if i :| 0 <= i < |s| - 1 && s[i].end == U32_MAX { assert i > 0 ==> s[1..][i - 1] == s[i]; }
    if i :| 0 <= i < |s[1..]| - 1 && s[1..][i].end == U32_MAX { assert s[i + 1] == s[1..][i]; }
  }

  /** Starting at line zero the wrapped sweep only accepts intervals that start at zero. */
  lemma {:induction false} SweepWrapped(s: seq<Interval>, re: u32)
    ensures Sweep(U32_MAX, s, re) <==> forall i :: 0 <= i < |s| ==> s[i].start == 0
    decreases |s|
  {
    if s != [] {
      SweepWrapped(s[1..], re);
      assert forall i :: 0 < i < |s| ==> s[i] == s[1..][i - 1];
    }
  }

  // ---- back to the unsorted list ----

  /** An interval reaching the last line number is followed, in start order, by another. */
  ghost predicate MaxIsFollowed(s: seq<Interval>) {
    exists i, j :: FollowedMax(s, i, j)
  }

  ghost predicate FollowedMax(s: seq<Interval>, i: int, j: int) {
    && 0 <= i < |s| && 0 <= j < |s| && s[i].end == U32_MAX
    && (s[i].start < s[j].start || (s[i].start == s[j].start && i < j))
  }

  lemma SameElements(a: seq<Interval>, b: seq<Interval>, x: Interval)
    requires multiset(a) == multiset(b)
    ensures x in a <==> x in b
  {
    assert x in a <==> x in multiset(a);
    assert x in b <==> x in multiset(b);
  }

  lemma CoversPermutation(s: seq<Interval>, line: int)
    ensures Covers(SortByStart(s), line) <==> Covers(s, line)
  {
    var t := SortByStart(s);
    SortIsSortedPermutation(s);
    if i :| 0 <= i < |s| && s[i].start <= line <= s[i].end {
      SameElements(s, t, s[i]);
      assert s[i] in t;
    }
    if i :| 0 <= i < |t| && t[i].start <= line <= t[i].end {
      SameElements(s, t, t[i]);
      assert t[i] in s;
    }
  }

  lemma {:induction false} MaxBeforeEndSorted(s: seq<Interval>)
    ensures MaxBeforeEnd(SortByStart(s)) <==> MaxIsFollowed(s)
  {
    if s == [] {
      NothingFollowed();
    } else {
      var r, x := s[..|s| - 1], s[|s| - 1];
      var t := SortByStart(r);
      assert SortByStart(s) == Insert(t, x) && s == r + [x];
      hide *;
      MaxBeforeEndSorted(r);
      SortIsSortedPermutation(r);
      MaxBeforeEndStep(t, r, x);
    }
  }

  lemma MaxBeforeEndStep(t: seq<Interval>, r: seq<Interval>, x: Interval)
    requires Sorted(t) && multiset(t) == multiset(r) && |t| == |r|
    requires MaxBeforeEnd(t) <==> MaxIsFollowed(r)
    ensures MaxBeforeEnd(Insert(t, x)) <==> MaxIsFollowed(r + [x])
  {
    hide Insert, MaxBeforeEnd;
    MaxBeforeEndInsert(t, x);
    MaxIsFollowedGrow(r, x);
    forall y ensures y in t <==> y in r { SameElements(t, r, y); }
    if r == [] {
      NothingFollowed();
    } else {
      LastIsLatest(t);
      var last := t[|t| - 1];
      var j :| 0 <= j < |r| && r[j] == last;
      if i, k :| FollowedMax(r, i, k) { assert r[i] in r; }
      if y :| y in r && y.end == U32_MAX && y.start < last.start {
        var i :| 0 <= i < |r| && r[i] == y;
        assert FollowedMax(r, i, j);
      }
    }
  }

  lemma NothingFollowed()
    ensures !MaxBeforeEnd(SortByStart([])) && !MaxIsFollowed([])
  {}

  lemma LastIsLatest(t: seq<Interval>)
    requires Sorted(t) && t != []
    ensures t[|t| - 1] in t && forall y :: y in t ==> y.start <= t[|t| - 1].start
  {}

  lemma MaxBeforeEndInsert(t: seq<Interval>, x: Interval)
    requires Sorted(t)
    ensures MaxBeforeEnd(Insert(t, x)) <==>
              if t == [] || t[|t| - 1].start <= x.start then exists y :: y in t && y.end == U32_MAX
              else MaxBeforeEnd(t) || x.end == U32_MAX
  {
    if t == [] || t[|t| - 1].start <= x.start {
      EndsBefore(t, x);
    } else {
      var n := |t| - 1;
      var v := Insert(t[..n], x);
      EndsBefore(v, t[n]);
      EndsBefore(t[..n], t[n]);
      assert t == t[..n] + [t[n]];
      InsertContents(t[..n], x);
      forall y ensures y in v <==> y in t[..n] || y == x {
        assert y in v <==> y in multiset(v);
        assert y in t[..n] <==> y in multiset(t[..n]);
      }
    }
  }

  lemma EndsBefore(v: seq<Interval>, z: Interval)
    ensures MaxBeforeEnd(v + [z]) <==> exists y :: y in v && y.end == U32_MAX
  {
    var u := v + [z];
    if y :| y in v && y.end == U32_MAX {
      var i :| 0 <= i < |v| && v[i] == y;
      assert u[i].end == U32_MAX;
    }
    if i :| 0 <= i < |u| - 1 && u[i].end == U32_MAX { assert v[i] in v; }
  }

  lemma MaxIsFollowedGrow(r: seq<Interval>, x: Interval)
    ensures MaxIsFollowed(r + [x]) <==>
              || MaxIsFollowed(r)
              || (exists y :: y in r && y.end == U32_MAX && y.start <= x.start)
              || (x.end == U32_MAX && exists y :: y in r && x.start < y.start)
  {
    var s, n := r + [x], |r|;
    if i, j :| FollowedMax(s, i, j) {
      if i < n && j < n { assert FollowedMax(r, i, j); }
      else if i < n { assert r[i] in r; }
      else { assert j < n && r[j] in r; }
    }
    if i, j :| FollowedMax(r, i, j) { assert FollowedMax(s, i, j); }
    if y :| y in r && y.end == U32_MAX && y.start <= x.start {
      var i :| 0 <= i < n && r[i] == y;
      assert FollowedMax(s, i, n);
    }
    if x.end == U32_MAX {
      if y :| y in r && x.start < y.start {
        var j :| 0 <= j < n && r[j] == y;
        assert FollowedMax(s, n, j);
      }
    }
  }
}
