/** The parse-coverage pipeline of `internal/cbm/cbm.c`: top-most error regions of a syntax
    tree, minus those recovered as definitions, minus benign macro calls, printed as ranges. */
module Coverage {
  import opened Intervals
  import opened Sequences
  import opened Wrappers

  // ---- syntax trees ----

  /** What the walkers read of a tree-sitter node. */
  datatype Node = Node(isMissing: bool, isError: bool, hasError: bool, startRow: u32, endRow: u32,
                       startByte: u32, endByte: u32, children: seq<Node>)

  /** `cbm_is_eof_terminator_miss`: a zero-width missing node at the end of the source. */
  predicate IsEofTerminatorMiss(n: Node, sourceLen: int) {
    n.isMissing && sourceLen >= 0 && n.startByte == n.endByte == Wrap(sourceLen)
  }

  predicate IsRegion(n: Node, sourceLen: int) {
    (n.isMissing || n.isError) && !IsEofTerminatorMiss(n, sourceLen)
  }

  /** One-based line range of a node. */
  function Lines(n: Node): Interval {
    Interval(Wrap(n.startRow + 1), Wrap(n.endRow + 1))
  }

  /** The top-most error nodes below `cs`, in preorder, following only error-flagged paths. */
  function TopMost(cs: seq<Node>, sourceLen: int): seq<Node> {
    if cs == [] then []
    else
      var c := cs[0];
      (if c.isMissing || c.isError then (if IsEofTerminatorMiss(c, sourceLen) then [] else [c])
       else if c.hasError then TopMost(c.children, sourceLen)
       else []) + TopMost(cs[1..], sourceLen)
  }

  function LinesOf(ns: seq<Node>): seq<Interval> {
    seq(|ns|, i requires 0 <= i < |ns| => Lines(ns[i]))
  }

  /** `CBM_MAX_ERROR_REGIONS`. */
  const MAX_ERROR_REGIONS: nat := 64

  /** `cbm_error_regions_t`. */
  class Regions {
    const starts: array<u32>
    const ends: array<u32>
    var count: nat

    constructor ()
      ensures Valid() && View() == []
      ensures fresh(starts) && fresh(ends)
    {
      starts := new u32[MAX_ERROR_REGIONS];
      ends := new u32[MAX_ERROR_REGIONS];
      count := 0;
    }

    ghost predicate Valid()
      reads this
    {
      starts.Length == ends.Length == MAX_ERROR_REGIONS && starts != ends && count <= MAX_ERROR_REGIONS
    }

    ghost function View(): (v: seq<Interval>)
      requires Valid()
      reads this, starts, ends
    {
      seq(count, i requires 0 <= i < count && Valid() reads this, starts, ends => Interval(starts[i], ends[i]))
    }

    /** `cbm_error_regions_push`. */
    method Push(n: Node)
      requires Valid()
      modifies this`count, starts, ends
      ensures Valid() && View() == Take(old(View()) + [Lines(n)], MAX_ERROR_REGIONS)
    {
      if count >= MAX_ERROR_REGIONS { return; }
      ghost var before := View();
      starts[count] := Wrap(n.startRow + 1);
      ends[count] := Wrap(n.endRow + 1);
      count := count + 1;
      assert View() == before + [Lines(n)];
    }
  }

  /** `cbm_collect_error_regions`: the accumulator keeps the first 64 regions of preorder. */
  method CollectErrorRegions(n: Node, acc: Regions, sourceLen: int)
    requires acc.Valid()
    modifies acc`count, acc.starts, acc.ends
    ensures acc.Valid()
    ensures acc.View() == Take(old(acc.View()) + LinesOf(TopMost(n.children, sourceLen)), MAX_ERROR_REGIONS)
    decreases n
  {
    hide Take, LinesOf;
    ghost var before, cs := acc.View(), n.children;
    ghost var done: seq<Interval> := [];
    var i := 0;
    TakeFull(before, [], MAX_ERROR_REGIONS);
    assert before + done == before && cs[0..] == cs;
    while i < |n.children| && acc.count < MAX_ERROR_REGIONS
      invariant 0 <= i <= |cs| && acc.Valid()
      invariant acc.View() == Take(before + done, MAX_ERROR_REGIONS)
      invariant done + LinesOf(TopMost(cs[i..], sourceLen)) == LinesOf(TopMost(cs, sourceLen))
    {
      var c := n.children[i];
      ghost var piece := LinesOf(Piece(c, sourceLen));
      CollectStep(cs, i, sourceLen, before, done);
      if c.isMissing || c.isError {
        if !IsEofTerminatorMiss(c, sourceLen) {
          acc.Push(c);
        }
      } else if c.hasError {
        CollectErrorRegions(c, acc, sourceLen);
      }
      done := done + piece;
      i := i + 1;
    }
    CollectDone(cs, i, sourceLen, before, done);
  }

  /** What one child contributes. */
  function Piece(c: Node, sourceLen: int): seq<Node> {
    if c.isMissing || c.isError then (if IsEofTerminatorMiss(c, sourceLen) then [] else [c])
    else if c.hasError then TopMost(c.children, sourceLen)
    else []
  }

  lemma CollectStep(cs: seq<Node>, i: nat, sourceLen: int, before: seq<Interval>, done: seq<Interval>)
    requires i < |cs|
    ensures var piece := LinesOf(Piece(cs[i], sourceLen));
            && done + LinesOf(TopMost(cs[i..], sourceLen)) == (done + piece) + LinesOf(TopMost(cs[i + 1..], sourceLen))
            && Take(Take(before + done, MAX_ERROR_REGIONS) + piece, MAX_ERROR_REGIONS)
               == Take(before + (done + piece), MAX_ERROR_REGIONS)
            && LinesOf([]) == [] && LinesOf([cs[i]]) == [Lines(cs[i])]
            && Take(Take(before + done, MAX_ERROR_REGIONS), MAX_ERROR_REGIONS) == Take(before + done, MAX_ERROR_REGIONS)
            && done + [] == done
  {
    var piece := LinesOf(Piece(cs[i], sourceLen));
    assert cs[i..][1..] == cs[i + 1..];
    assert TopMost(cs[i..], sourceLen) == Piece(cs[i], sourceLen) + TopMost(cs[i + 1..], sourceLen);
    assert (before + done) + piece == before + (done + piece);
    TakeTwice(before + done, piece, MAX_ERROR_REGIONS);
  }

  lemma CollectDone(cs: seq<Node>, i: nat, sourceLen: int, before: seq<Interval>, done: seq<Interval>)
    requires i <= |cs| && (i == |cs| || |Take(before + done, MAX_ERROR_REGIONS)| >= MAX_ERROR_REGIONS)
    requires done + LinesOf(TopMost(cs[i..], sourceLen)) == LinesOf(TopMost(cs, sourceLen))
    ensures Take(before + done, MAX_ERROR_REGIONS) == Take(before + LinesOf(TopMost(cs, sourceLen)), MAX_ERROR_REGIONS)
  {
    var rest := LinesOf(TopMost(cs[i..], sourceLen));
    assert (before + done) + rest == before + (done + rest);
    TakeFull(before + done, rest, MAX_ERROR_REGIONS);
  }

  // ---- pruning loses nothing ----

  /** The parser's error flag: set exactly on nodes that are, or contain, an error. */
  ghost predicate FlagsExact(n: Node) {
    && (n.hasError <==> n.isMissing || n.isError || exists i :: 0 <= i < |n.children| && n.children[i].hasError)
    && forall i :: 0 <= i < |n.children| ==> FlagsExact(n.children[i])
  }

  /** `d` is `a` itself or lies below it. */
  ghost predicate InSubtree(d: Node, a: Node)
    decreases a
  {
    d == a || exists i :: 0 <= i < |a.children| && InSubtree(d, a.children[i])
  }

  lemma {:induction false} ErrorBelowIsFlagged(d: Node, a: Node)
    requires FlagsExact(a) && InSubtree(d, a) && (d.isMissing || d.isError)
    ensures a.hasError
    decreases a
  {
    if d != a {
      var i :| 0 <= i < |a.children| && InSubtree(d, a.children[i]);
      ErrorBelowIsFlagged(d, a.children[i]);
    }
  }

  /** `d` is a node of one of the trees `cs`. */
  ghost predicate InForest(d: Node, cs: seq<Node>) {
    exists k :: 0 <= k < |cs| && InSubtree(d, cs[k])
  }

  lemma ForestOfTail(d: Node, cs: seq<Node>)
    requires cs != [] && InForest(d, cs[1..])
    ensures InForest(d, cs)
  {
    var k :| 0 <= k < |cs[1..]| && InSubtree(d, cs[1..][k]);
    assert InSubtree(d, cs[k + 1]);
  }

  lemma ForestOfChildren(d: Node, cs: seq<Node>)
    requires cs != [] && InForest(d, cs[0].children)
    ensures InForest(d, cs)
  {
    assert InSubtree(d, cs[0]);
  }

  /** A node of the trees `cs` that is a collected region, or a missing end-of-file terminator. */
  ghost predicate Accountable(a: Node, cs: seq<Node>, sourceLen: int) {
    InForest(a, cs) && (a in TopMost(cs, sourceLen) || IsEofTerminatorMiss(a, sourceLen))
  }

  /** Some such node accounts for `d`, by containing it. */
  ghost predicate Accounted(d: Node, cs: seq<Node>, sourceLen: int) {
    exists a :: InSubtree(d, a) && Accountable(a, cs, sourceLen)
  }

  /** Every error node of the trees lies inside a collected region, unless it lies inside a missing
      end-of-file terminator of the same trees. */
  lemma {:induction false} TopMostComplete(cs: seq<Node>, sourceLen: int, k: nat, d: Node)
    requires forall i :: 0 <= i < |cs| ==> FlagsExact(cs[i])
    requires k < |cs| && InSubtree(d, cs[k]) && (d.isMissing || d.isError)
    ensures Accounted(d, cs, sourceLen)
    decreases cs
  {
    var c := cs[0];
    if k > 0 {
      TopMostComplete(cs[1..], sourceLen, k - 1, d);
      var a :| InSubtree(d, a) && Accountable(a, cs[1..], sourceLen);
      ForestOfTail(a, cs);
      assert Accountable(a, cs, sourceLen);
    } else if c.isMissing || c.isError {
      assert InSubtree(c, cs[0]);
      assert Accountable(c, cs, sourceLen);
    } else {
      ErrorBelowIsFlagged(d, c);
      var i :| 0 <= i < |c.children| && InSubtree(d, c.children[i]);
      TopMostComplete(c.children, sourceLen, i, d);
      var a :| InSubtree(d, a) && Accountable(a, c.children, sourceLen);
      ForestOfChildren(a, cs);
      assert Accountable(a, cs, sourceLen);
    }
  }

  /** A tree with at most 64 regions loses none of them: every error node's region is among the line
      ranges collected. */
  lemma CollectedComplete(cs: seq<Node>, sourceLen: int, k: nat, d: Node)
    requires forall i :: 0 <= i < |cs| ==> FlagsExact(cs[i])
    requires k < |cs| && InSubtree(d, cs[k]) && (d.isMissing || d.isError)
    requires |TopMost(cs, sourceLen)| <= MAX_ERROR_REGIONS
    ensures exists a :: InSubtree(d, a) && Collected(a, cs, sourceLen)
  {
    TopMostComplete(cs, sourceLen, k, d);
    var a :| InSubtree(d, a) && Accountable(a, cs, sourceLen);
    var regions := TopMost(cs, sourceLen);
    hide TopMost, InForest;
    if a in regions {
      var i :| 0 <= i < |regions| && regions[i] == a;
      assert LinesOf(regions)[i] == Lines(a);
    }
    assert Collected(a, cs, sourceLen);
  }

  /** A node of the trees whose line range is collected, or a missing end-of-file terminator. */
  ghost predicate Collected(a: Node, cs: seq<Node>, sourceLen: int) {
    && InForest(a, cs)
    && (Lines(a) in Take(LinesOf(TopMost(cs, sourceLen)), MAX_ERROR_REGIONS) || IsEofTerminatorMiss(a, sourceLen))
  }

  /** Only genuine regions of the trees are collected. */
  lemma {:induction false} TopMostSound(cs: seq<Node>, sourceLen: int, r: Node)
    requires r in TopMost(cs, sourceLen)
    ensures IsRegion(r, sourceLen) && InForest(r, cs)
    decreases cs
  {
    var c := cs[0];
    if r in TopMost(cs[1..], sourceLen) {
      TopMostSound(cs[1..], sourceLen, r);
      ForestOfTail(r, cs);
    } else if c.isMissing || c.isError {
      assert InSubtree(r, cs[0]);
    } else {
      TopMostSound(c.children, sourceLen, r);
      ForestOfChildren(r, cs);
    }
  }

  // ---- where the regions are ----

  /** The way to a node of the trees `cs`: which tree, which child, which child of that, and so on. */
  type Path = seq<nat>

  predicate IsPath(cs: seq<Node>, p: Path) {
    p != [] && p[0] < |cs| && (|p| == 1 || IsPath(cs[p[0]].children, p[1..]))
  }

  function NodeAt(cs: seq<Node>, p: Path): Node
    requires IsPath(cs, p)
  {
    if |p| == 1 then cs[p[0]] else NodeAt(cs[p[0]].children, p[1..])
  }

  /** The node at `p` is an error or missing, and not just the missing end of the last line. */
  predicate IsFailure(cs: seq<Node>, p: Path, sourceLen: int) {
    && IsPath(cs, p) && (NodeAt(cs, p).isMissing || NodeAt(cs, p).isError)
    && !(NodeAt(cs, p).isMissing && NodeAt(cs, p).startByte == NodeAt(cs, p).endByte
         && sourceLen >= 0 && NodeAt(cs, p).endByte == sourceLen % 0x1_0000_0000)
  }

  /** The node at `p` is neither, but the parser says that one lies below it. */
  predicate IsPassage(cs: seq<Node>, p: Path) {
    IsPath(cs, p) && !NodeAt(cs, p).isMissing && !NodeAt(cs, p).isError && NodeAt(cs, p).hasError
  }

  /** A top-most region: a failure with nothing but passages above it. */
  ghost predicate RegionAt(cs: seq<Node>, p: Path, sourceLen: int) {
    IsFailure(cs, p, sourceLen) && forall n :: 0 < n < |p| ==> IsPassage(cs, p[..n])
  }

  /** Preorder. */
  predicate Before(p: Path, q: Path) {
    p != [] && q != [] && (p[0] < q[0] || (p[0] == q[0] && Before(p[1..], q[1..])))
  }

  /** `ns` are the nodes at the paths `ps`, which are those of the top-most regions, in preorder. */
  ghost predicate RegionsAt(cs: seq<Node>, sourceLen: int, ps: seq<Path>, ns: seq<Node>) {
    && |ps| == |ns|
    && (forall k :: 0 <= k < |ps| ==> IsPath(cs, ps[k]) && NodeAt(cs, ps[k]) == ns[k])
    && (forall p :: p in ps <==> RegionAt(cs, p, sourceLen))
    && (forall i, j :: 0 <= i < j < |ps| ==> Before(ps[i], ps[j]))
  }

  lemma RegionBelow(cs: seq<Node>, i: nat, q: Path, sourceLen: int)
    requires i < |cs| && q != []
    ensures var p := [i] + q;
            && (IsPath(cs, p) <==> IsPath(cs[i].children, q))
            && (IsPath(cs, p) ==> NodeAt(cs, p) == NodeAt(cs[i].children, q))
            && (RegionAt(cs, p, sourceLen) <==> IsPassage(cs, [i]) && RegionAt(cs[i].children, q, sourceLen))
  {
    var p := [i] + q;
    assert p[1..] == q;
    assert p[..1] == [i];
    forall n | 0 < n < |q| ensures IsPassage(cs, p[..n + 1]) <==> IsPassage(cs[i].children, q[..n]) {
      assert p[..n + 1][1..] == q[..n];
    }
    if RegionAt(cs, p, sourceLen) {
      assert IsPassage(cs, p[..1]);
      forall n | 0 < n < |q| ensures IsPassage(cs[i].children, q[..n]) { assert IsPassage(cs, p[..n + 1]); }
    }
    if IsPassage(cs, [i]) && RegionAt(cs[i].children, q, sourceLen) {
      forall n | 0 < n < |p| ensures IsPassage(cs, p[..n]) {
        if n > 1 { assert IsPassage(cs[i].children, q[..n - 1]); }
      }
    }
  }

  lemma RegionAside(cs: seq<Node>, p: Path, sourceLen: int)
    requires cs != [] && p != []
    ensures var q := Shift(p);
            && (IsPath(cs, q) <==> IsPath(cs[1..], p))
            && (IsPath(cs, q) ==> NodeAt(cs, q) == NodeAt(cs[1..], p))
            && (RegionAt(cs, q, sourceLen) <==> RegionAt(cs[1..], p, sourceLen))
  {
    if p[0] < |cs| - 1 {
      if |p| > 1 {
        RegionBelow(cs, p[0] + 1, p[1..], sourceLen);
        RegionBelow(cs[1..], p[0], p[1..], sourceLen);
        assert [p[0]] + p[1..] == p;
      } else {
        assert Shift(p) == [p[0] + 1] && p == [p[0]];
      }
    }
  }

  /** The same for the paths through some of the trees only. */
  ghost predicate RegionsOf(cs: seq<Node>, sourceLen: int, through: nat -> bool, ps: seq<Path>, ns: seq<Node>) {
    && |ps| == |ns|
    && (forall k :: 0 <= k < |ps| ==> IsPath(cs, ps[k]) && NodeAt(cs, ps[k]) == ns[k])
    && (forall p :: p in ps <==> p != [] && through(p[0]) && RegionAt(cs, p, sourceLen))
    && (forall i, j :: 0 <= i < j < |ps| ==> Before(ps[i], ps[j]))
  }

  const First: nat -> bool := i => i == 0
  const Later: nat -> bool := i => i > 0

  function Under(ps: seq<Path>): (r: seq<Path>)
    ensures |r| == |ps| && forall k :: 0 <= k < |ps| ==> r[k] == [0] + ps[k]
  {
    seq(|ps|, k requires 0 <= k < |ps| => [0] + ps[k])
  }

  function Shift(p: Path): Path {
    if p == [] then [] else [p[0] + 1] + p[1..]
  }

  function Shifted(ps: seq<Path>): (r: seq<Path>)
    ensures |r| == |ps| && forall k :: 0 <= k < |ps| ==> r[k] == Shift(ps[k])
  {
    seq(|ps|, k requires 0 <= k < |ps| => Shift(ps[k]))
  }

  lemma FirstLeaf(cs: seq<Node>, sourceLen: int)
    requires cs != [] && (cs[0].isMissing || cs[0].isError || !cs[0].hasError)
    ensures var failure := IsRegion(cs[0], sourceLen);
            RegionsOf(cs, sourceLen, First, if failure then [[0]] else [], if failure then [cs[0]] else [])
  {
    forall p: Path | p != [] && p[0] == 0 && RegionAt(cs, p, sourceLen) ensures p == [0] {
      if |p| > 1 { PassageFirst(cs, p, sourceLen); }
    }
    assert IsPath(cs, [0]) && NodeAt(cs, [0]) == cs[0];
  }

  lemma PassageFirst(cs: seq<Node>, p: Path, sourceLen: int)
    requires RegionAt(cs, p, sourceLen) && |p| > 1
    ensures IsPassage(cs, [p[0]])
  {
    assert IsPassage(cs, p[..1]);
    assert p[..1] == [p[0]];
  }

  lemma ShiftOrder(p: Path, q: Path)
    requires p != [] && q != []
    ensures Before(Shift(p), Shift(q)) <==> Before(p, q)
  {
    assert Shift(p)[1..] == p[1..] && Shift(q)[1..] == q[1..];
  }

  lemma FirstBelow(cs: seq<Node>, sourceLen: int, below: seq<Path>, ns: seq<Node>)
    requires cs != [] && !cs[0].isMissing && !cs[0].isError && cs[0].hasError
    requires RegionsAt(cs[0].children, sourceLen, below, ns)
    ensures RegionsOf(cs, sourceLen, First, Under(below), ns)
  {
    var here := Under(below);
    assert IsPassage(cs, [0]);
    forall k | 0 <= k < |below| ensures below[k] != [] { assert below[k] in below; }
    forall k | 0 <= k < |here| ensures IsPath(cs, here[k]) && NodeAt(cs, here[k]) == ns[k] {
      RegionBelow(cs, 0, below[k], sourceLen);
    }
    forall p: Path ensures p in here <==> p != [] && First(p[0]) && RegionAt(cs, p, sourceLen) {
      if p in here {
        var k :| 0 <= k < |here| && here[k] == p;
        assert below[k] in below;
        RegionBelow(cs, 0, below[k], sourceLen);
      }
      if p != [] && p[0] == 0 && RegionAt(cs, p, sourceLen) {
        assert |p| > 1;
        assert p == [0] + p[1..];
        RegionBelow(cs, 0, p[1..], sourceLen);
        var k :| 0 <= k < |below| && below[k] == p[1..];
        assert here[k] == p;
      }
    }
    forall i, j | 0 <= i < j < |here| ensures Before(here[i], here[j]) {
      assert here[i][1..] == below[i] && here[j][1..] == below[j];
    }
  }

  lemma LaterAside(cs: seq<Node>, sourceLen: int, aside: seq<Path>, ns: seq<Node>)
    requires cs != [] && RegionsAt(cs[1..], sourceLen, aside, ns)
    ensures RegionsOf(cs, sourceLen, Later, Shifted(aside), ns)
  {
    var after := Shifted(aside);
    hide RegionAt, NodeAt, Before, IsPath;
    forall k | 0 <= k < |aside| ensures aside[k] != [] {
      assert aside[k] in aside;
      RegionIsPath(cs[1..], aside[k], sourceLen);
    }
    forall k | 0 <= k < |after| ensures IsPath(cs, after[k]) && NodeAt(cs, after[k]) == ns[k] {
      RegionAside(cs, aside[k], sourceLen);
    }
    LaterExactly(cs, sourceLen, aside);
    forall i, j | 0 <= i < j < |after| ensures Before(after[i], after[j]) { ShiftOrder(aside[i], aside[j]); }
  }

  lemma LaterExactly(cs: seq<Node>, sourceLen: int, aside: seq<Path>)
    requires cs != [] && forall p :: p in aside <==> RegionAt(cs[1..], p, sourceLen)
    ensures forall p :: p in Shifted(aside) <==> p != [] && Later(p[0]) && RegionAt(cs, p, sourceLen)
  {
    var after := Shifted(aside);
    hide RegionAt;
    forall p: Path | p in after ensures p != [] && Later(p[0]) && RegionAt(cs, p, sourceLen) {
      var k :| 0 <= k < |after| && after[k] == p;
      assert aside[k] in aside;
      RegionIsPath(cs[1..], aside[k], sourceLen);
      RegionAside(cs, aside[k], sourceLen);
    }
    forall p: Path | p != [] && p[0] > 0 && RegionAt(cs, p, sourceLen) ensures p in after {
      var q := [p[0] - 1] + p[1..];
      assert Shift(q) == p;
      RegionAside(cs, q, sourceLen);
      var k :| 0 <= k < |aside| && aside[k] == q;
      assert after[k] == p;
    }
  }

  lemma FirstThenLater(cs: seq<Node>, sourceLen: int, here: seq<Path>, ns: seq<Node>, after: seq<Path>, ms: seq<Node>)
    requires RegionsOf(cs, sourceLen, First, here, ns) && RegionsOf(cs, sourceLen, Later, after, ms)
    ensures RegionsAt(cs, sourceLen, here + after, ns + ms)
  {
    FirstBeforeLater(here, after);
    FirstOrLater(cs, sourceLen, here, after);
    hide RegionAt, IsPath, NodeAt, Before;
    var ps := here + after;
    forall k | 0 <= k < |ps| ensures IsPath(cs, ps[k]) && NodeAt(cs, ps[k]) == (ns + ms)[k] {
      if k < |here| { assert ps[k] == here[k]; } else { assert ps[k] == after[k - |here|]; }
    }
  }

  lemma FirstOrLater(cs: seq<Node>, sourceLen: int, here: seq<Path>, after: seq<Path>)
    requires forall p :: p in here <==> p != [] && First(p[0]) && RegionAt(cs, p, sourceLen)
    requires forall p :: p in after <==> p != [] && Later(p[0]) && RegionAt(cs, p, sourceLen)
    ensures forall p :: p in here + after <==> RegionAt(cs, p, sourceLen)
  {
    forall p: Path ensures p in here + after <==> RegionAt(cs, p, sourceLen) { RegionIsPath(cs, p, sourceLen); }
    hide RegionAt;
  }

  lemma FirstBeforeLater(here: seq<Path>, after: seq<Path>)
    requires forall p :: p in here ==> p != [] && p[0] == 0
    requires forall p :: p in after ==> p != [] && p[0] > 0
    requires forall i, j :: 0 <= i < j < |here| ==> Before(here[i], here[j])
    requires forall i, j :: 0 <= i < j < |after| ==> Before(after[i], after[j])
    ensures var ps := here + after; forall i, j :: 0 <= i < j < |ps| ==> Before(ps[i], ps[j])
  {
    var ps := here + after;
    forall i, j | 0 <= i < j < |ps| ensures Before(ps[i], ps[j]) {
      if i < |here| <= j {
        assert here[i] in here && after[j - |here|] in after;
        assert Before(ps[i], ps[j]);
      }
      hide Before;
    }
  }

  lemma RegionIsPath(cs: seq<Node>, p: Path, sourceLen: int)
    ensures RegionAt(cs, p, sourceLen) ==> p != []
  {}

  /** The list is exactly the top-most regions, each once, in preorder. */
  lemma {:induction false} TopMostExact(cs: seq<Node>, sourceLen: int) returns (ps: seq<Path>)
    ensures RegionsAt(cs, sourceLen, ps, TopMost(cs, sourceLen))
    decreases cs
  {
    if cs == [] {
      ps := [];
    } else {
      var c := cs[0];
      var here: seq<Path> := if IsRegion(c, sourceLen) then [[0]] else [];
      var aside := TopMostExact(cs[1..], sourceLen);
      LaterAside(cs, sourceLen, aside, TopMost(cs[1..], sourceLen));
      if !c.isMissing && !c.isError && c.hasError {
        var below := TopMostExact(c.children, sourceLen);
        here := Under(below);
        FirstBelow(cs, sourceLen, below, TopMost(c.children, sourceLen));
      } else {
        FirstLeaf(cs, sourceLen);
      }
      ps := here + Shifted(aside);
      FirstThenLater(cs, sourceLen, here, Piece(c, sourceLen), Shifted(aside), TopMost(cs[1..], sourceLen));
    }
  }

  // ---- recovery ----

  /** The fields of an extracted definition that coverage looks at. */
  datatype Span = Span(category: Option<string>, startLine: u32, endLine: u32)

  /** Recovery evidence: a labelled, non-container definition that starts inside the region. */
  predicate Qualifies(d: Span, rs: u32, re: u32) {
    d.category != None && d.category != Some("Module") && d.category != Some("Package") && rs <= d.startLine <= re
  }

  /** Its lines; an end before the start counts as the start. */
  function Extent(d: Span): Interval {
    Interval(d.startLine, if d.endLine < d.startLine then d.startLine else d.endLine)
  }

  function Evidence(defs: seq<Span>, rs: u32, re: u32): seq<Interval> {
    if defs == [] then []
    else
      var d := defs[|defs| - 1];
      Evidence(defs[..|defs| - 1], rs, re) + if Qualifies(d, rs, re) then [Extent(d)] else []
  }

  /** `MAX_COVER_DEFS`. */
  const MAX_COVER_DEFS: nat := 256

  /** What recovery decides for a region that starts at line one or later: there is evidence,
      it covers every line, and none of it reaches line 2^32 - 1 ahead of another piece. */
  ghost predicate Recovered(rs: u32, re: u32, evidence: seq<Interval>) {
    && evidence != []
    && (forall line :: rs <= line <= re ==> Covers(evidence, line))
    && !MaxIsFollowed(evidence)
  }

  /** The verdict on a region: line zero, which no region has unless its row number wrapped,
      is the one start for which coverage is not what is tested. */
  ghost predicate IsRecovered(r: Interval, defs: seq<Span>) {
    var evidence := Take(Evidence(defs, r.start, r.end), MAX_COVER_DEFS);
    if r.start >= 1 then Recovered(r.start, r.end, evidence)
    else evidence != [] && forall i :: 0 <= i < |evidence| ==> evidence[i].start == 0
  }

  /** `line` lies in a definition with a label, other than a module or a package, that starts inside
      region `r`. */
  ghost predicate LineInEvidence(defs: seq<Span>, r: Interval, line: int) {
    exists d :: d in defs
                && d.category != None && d.category.value != "Module" && d.category.value != "Package"
                && r.start <= d.startLine <= r.end
                && d.startLine <= line <= (if d.endLine < d.startLine then d.startLine else d.endLine)
  }

  /** The plain reading of recovery: some definition is evidence, and every line lies in evidence. */
  ghost predicate CoveredByDefinitions(r: Interval, defs: seq<Span>) {
    && (exists line :: LineInEvidence(defs, r, line))
    && forall line :: r.start <= line <= r.end ==> LineInEvidence(defs, r, line)
  }

  /** Lines a file can have: a source is shorter than 2^31 bytes. */
  predicate LinesOfAFile(defs: seq<Span>) {
    forall d :: d in defs ==> d.startLine < U32_MAX && d.endLine < U32_MAX
  }

  /** A recovered region has every line inside a qualifying definition; with at most 256 of
      those and none reaching line 2^32 - 1, full coverage is also enough. */
  lemma RecoveredMeansCovered(r: Interval, defs: seq<Span>)
    requires r.start >= 1
    ensures IsRecovered(r, defs) ==> CoveredByDefinitions(r, defs)
    ensures (|Evidence(defs, r.start, r.end)| <= MAX_COVER_DEFS
             && !MaxIsFollowed(Evidence(defs, r.start, r.end))
             && CoveredByDefinitions(r, defs))
            ==> IsRecovered(r, defs)
  {
    var all := Evidence(defs, r.start, r.end);
    var evidence := Take(all, MAX_COVER_DEFS);
    forall line ensures LineInEvidence(defs, r, line) <==> Covers(all, line) { EvidenceLines(defs, r, line); }
    hide Evidence, LineInEvidence;
    if IsRecovered(r, defs) {
      EvidenceWithin(defs, r.start, r.end);
      CoversAt(all, 0);
      assert LineInEvidence(defs, r, all[0].start);
      forall line | r.start <= line <= r.end ensures Covers(all, line) {
        assert Covers(evidence, line);
        var i :| 0 <= i < |evidence| && evidence[i].start <= line <= evidence[i].end;
        assert evidence[i] == all[i];
      }
    }
    if CoveredByDefinitions(r, defs) {
      var line :| LineInEvidence(defs, r, line);
      assert Covers(all, line);
      forall line | r.start <= line <= r.end ensures Covers(all, line) { assert LineInEvidence(defs, r, line); }
    }
  }

  lemma CoversAt(s: seq<Interval>, i: nat)
    requires i < |s| && s[i].start <= s[i].end
    ensures Covers(s, s[i].start)
  {}

  /** A line lies in evidence exactly when the list of evidence covers it. */
  lemma EvidenceLines(defs: seq<Span>, r: Interval, line: int)
    ensures LineInEvidence(defs, r, line) <==> Covers(Evidence(defs, r.start, r.end), line)
  {
    var all := Evidence(defs, r.start, r.end);
    if LineInEvidence(defs, r, line) {
      var d :| d in defs && Qualifies(d, r.start, r.end) && Extent(d).start <= line <= Extent(d).end;
      EvidenceHolds(defs, r.start, r.end, d);
      var i :| 0 <= i < |all| && all[i] == Extent(d);
      assert all[i].start <= line <= all[i].end;
    }
    if Covers(all, line) {
      var i :| 0 <= i < |all| && all[i].start <= line <= all[i].end;
      EvidenceSource(defs, r.start, r.end, all[i]);
    }
  }

  /** Evidence is gathered in the order of the definitions: each one that counts adds its lines behind
      those of the definitions before it. */
  lemma EvidenceInOrder(defs: seq<Span>, rs: u32, re: u32, k: nat)
    requires k < |defs|
    ensures var before, all, d := Evidence(defs[..k], rs, re), Evidence(defs, rs, re), defs[k];
            Evidence(defs[..k + 1], rs, re) <= all && Evidence(defs[..k + 1], rs, re) ==
            if d.category != None && d.category.value != "Module" && d.category.value != "Package"
               && rs <= d.startLine <= re
            then before + [Interval(d.startLine, if d.endLine < d.startLine then d.startLine else d.endLine)]
            else before
  {
    assert defs[..k + 1][..k] == defs[..k];
    EvidenceExtends(defs, k + 1, rs, re);
  }

  /** The first 256 pieces of evidence lie on every line of the region, and there is one. */
  ghost predicate CoveredByFirst(r: Interval, defs: seq<Span>) {
    var evidence := Take(Evidence(defs, r.start, r.end), MAX_COVER_DEFS);
    evidence != [] && forall line :: r.start <= line <= r.end ==> Covers(evidence, line)
  }

  /** For every file, however many definitions it has: a region is recovered if and only if the first
      256 pieces of evidence cover every line of it. */
  lemma RecoveredIffFirstCover(r: Interval, defs: seq<Span>)
    requires r.start >= 1 && LinesOfAFile(defs)
    ensures IsRecovered(r, defs) <==> CoveredByFirst(r, defs)
  {
    var evidence := Take(Evidence(defs, r.start, r.end), MAX_COVER_DEFS);
    NoMaxInAFile(defs, r);
    hide Evidence, Covers;
    forall i, j ensures !FollowedMax(evidence, i, j) {}
  }

  lemma NoMaxInAFile(defs: seq<Span>, r: Interval)
    requires LinesOfAFile(defs)
    ensures forall i :: 0 <= i < |Evidence(defs, r.start, r.end)| ==> Evidence(defs, r.start, r.end)[i].end < U32_MAX
  {
    var all := Evidence(defs, r.start, r.end);
    forall i | 0 <= i < |all| ensures all[i].end < U32_MAX { EvidenceSource(defs, r.start, r.end, all[i]); }
  }

  /** For every file: a region with at most 256 pieces of evidence is recovered if and only if
      definitions that start inside it cover every line of it. */
  lemma RecoveredIffCovered(r: Interval, defs: seq<Span>)
    requires r.start >= 1 && LinesOfAFile(defs) && |Evidence(defs, r.start, r.end)| <= MAX_COVER_DEFS
    ensures IsRecovered(r, defs) <==> CoveredByDefinitions(r, defs)
  {
    var all := Evidence(defs, r.start, r.end);
    NoMaxInAFile(defs, r);
    assert !MaxIsFollowed(all) by {
      forall i, j ensures !FollowedMax(all, i, j) {}
    }
    RecoveredMeansCovered(r, defs);
  }

  /** With more than 256 the bound matters: the definition on the second line comes too late, and the
      region stays flagged although both of its lines are covered. */
  lemma LateEvidenceLeavesFlagged(r: Interval, first: Span, late: Span, defs: seq<Span>)
    requires r == Interval(1, 2)
    requires first == Span(Some("Function"), 1, 1) && late == Span(Some("Function"), 2, 2)
    requires defs == Repeated(first, MAX_COVER_DEFS) + [late]
    ensures LinesOfAFile(defs) && CoveredByDefinitions(r, defs) && !IsRecovered(r, defs)
  {
    var many := Repeated(first, MAX_COVER_DEFS);
    EvidenceRepeated(first, MAX_COVER_DEFS, 1, 2);
    assert many[0] in defs && late in defs;
    assert Qualifies(first, 1, 2) && Qualifies(late, 1, 2);
    assert defs[..MAX_COVER_DEFS] == many && defs[MAX_COVER_DEFS] == late;
    var evidence := Take(Evidence(defs, 1, 2), MAX_COVER_DEFS);
    assert evidence == Evidence(many, 1, 2);
    hide Evidence;
    assert !Covers(evidence, 2);
    forall line | 1 <= line <= 2 ensures LineInEvidence(defs, r, line) {
      var d := if line == 1 then first else late;
      assert d in defs && d.startLine <= line <= d.endLine;
    }
    assert LineInEvidence(defs, r, 1);
  }

  function Repeated(d: Span, n: nat): (s: seq<Span>)
    ensures |s| == n && forall i :: 0 <= i < n ==> s[i] == d
  {
    seq(n, _ => d)
  }

  lemma {:induction false} EvidenceRepeated(d: Span, n: nat, rs: u32, re: u32)
    requires Qualifies(d, rs, re)
    ensures var all := Evidence(Repeated(d, n), rs, re);
            |all| == n && forall i :: 0 <= i < n ==> all[i] == Extent(d)
  {
    if n > 0 {
      EvidenceRepeated(d, n - 1, rs, re);
      assert Repeated(d, n)[..n - 1] == Repeated(d, n - 1);
    }
  }

  /** What the 32-bit sweep would do with a last line no file has: two definitions cover the region,
      the first reaching the largest line number, and the region stays flagged. */
  lemma WrapLeavesFlagged(r: Interval, defs: seq<Span>)
    requires r == Interval(1, 2)
    requires defs == [Span(Some("Function"), 1, U32_MAX), Span(Some("Function"), 2, 2)]
    ensures CoveredByDefinitions(r, defs) && !IsRecovered(r, defs)
  {
    var first, second := defs[0], defs[1];
    assert defs[..1] == [first] && [first][..0] == [];
    var all := Evidence(defs, 1, 2);
    assert Evidence([first], 1, 2) == [Interval(1, U32_MAX)];
    assert all == [Interval(1, U32_MAX), Interval(2, 2)];
    assert FollowedMax(all, 0, 1);
    assert first in defs && Qualifies(first, 1, 2);
    forall line | 1 <= line <= 2 ensures LineInEvidence(defs, r, line) {
      assert first in defs && first.startLine <= line <= first.endLine;
    }
    assert LineInEvidence(defs, r, 1);
  }

  lemma {:induction false} EvidenceHolds(defs: seq<Span>, rs: u32, re: u32, d: Span)
    requires d in defs && Qualifies(d, rs, re)
    ensures Extent(d) in Evidence(defs, rs, re)
  {
    var n := |defs| - 1;
    if d != defs[n] {
      assert d in defs[..n];
      EvidenceHolds(defs[..n], rs, re, d);
    }
  }

  lemma {:induction false} EvidenceSource(defs: seq<Span>, rs: u32, re: u32, x: Interval)
    requires x in Evidence(defs, rs, re)
    ensures exists d :: d in defs && Qualifies(d, rs, re) && Extent(d) == x
  {
    var n := |defs| - 1;
    if x in Evidence(defs[..n], rs, re) {
      EvidenceSource(defs[..n], rs, re, x);
    } else {
      assert defs[n] in defs;
    }
  }

  ghost function Pairs(starts: array<u32>, ends: array<u32>, n: nat): seq<Interval>
    requires n <= starts.Length && n <= ends.Length
    reads starts, ends
  {
    seq(n, i requires 0 <= i < n <= starts.Length && n <= ends.Length reads starts, ends =>
      Interval(starts[i], ends[i]))
  }

  /** Shift the later-starting pairs of the sorted prefix up by one; `j` is the free slot. */
  method ShiftUp(starts: array<u32>, ends: array<u32>, i: nat, s: u32) returns (j: nat)
    requires starts != ends && i < starts.Length == ends.Length
    modifies starts, ends
    ensures j <= i && (j > 0 ==> starts[j - 1] <= s)
    ensures forall k :: 0 <= k < j || i < k < starts.Length ==> starts[k] == old(starts[k]) && ends[k] == old(ends[k])
    ensures forall k :: j <= k < i ==>
              old(starts[k]) > s && starts[k + 1] == old(starts[k]) && ends[k + 1] == old(ends[k])
  {
    j := i;
    while j > 0 && starts[j - 1] > s
      invariant j <= i
      invariant forall k :: 0 <= k < j || i < k < starts.Length ==>
                  starts[k] == old(starts[k]) && ends[k] == old(ends[k])
      invariant forall k :: j <= k < i ==>
                  old(starts[k]) > s && starts[k + 1] == old(starts[k]) && ends[k + 1] == old(ends[k])
    {
      starts[j] := starts[j - 1];
      ends[j] := ends[j - 1];
      j := j - 1;
    }
  }

  /** Move pair `i` down to its place in the sorted prefix. */
  method InsertInto(starts: array<u32>, ends: array<u32>, i: nat)
    requires starts != ends && i < starts.Length == ends.Length
    modifies starts, ends
    ensures Pairs(starts, ends, i + 1) == Insert(old(Pairs(starts, ends, i)), old(Interval(starts[i], ends[i])))
    ensures forall k :: i < k < starts.Length ==> starts[k] == old(starts[k]) && ends[k] == old(ends[k])
  {
    hide Insert;
    ghost var sorted := Pairs(starts, ends, i);
    var s, e := starts[i], ends[i];
    var j := ShiftUp(starts, ends, i, s);
    starts[j] := s;
    ends[j] := e;
    ghost var x := Interval(s, e);
    InsertAt(sorted, j, x);
    ghost var target := sorted[..j] + [x] + sorted[j..];
    forall k | 0 <= k <= i ensures Interval(starts[k], ends[k]) == target[k] {}
  }

  /** `cbm_region_is_recovered`. */
  method RegionIsRecovered(rs: u32, re: u32, defs: seq<Span>) returns (recovered: bool)
    ensures recovered <==> IsRecovered(Interval(rs, re), defs)
  {
    var starts, ends := new u32[MAX_COVER_DEFS], new u32[MAX_COVER_DEFS];
    var n := GatherEvidence(starts, ends, rs, re, defs);
    ghost var evidence := Pairs(starts, ends, n);
    if n == 0 { return false; }
    SortPairs(starts, ends, n);
    var covered: u32 := Wrap(rs - 1);
    var i := 0;
    ghost var sorted := Pairs(starts, ends, n);
    while i < n
      invariant 0 <= i <= n && Sweep(covered, sorted[i..], re) == Sweep(Wrap(rs - 1), sorted, re)
    {
      if starts[i] > Wrap(covered + 1) {
        SweepDecides(rs, re, defs, evidence);
        return false;
      }
      if ends[i] > covered { covered := ends[i]; }
      i := i + 1;
    }
    SweepDecides(rs, re, defs, evidence);
    return covered >= re;
  }

  method GatherEvidence(starts: array<u32>, ends: array<u32>, rs: u32, re: u32, defs: seq<Span>) returns (n: nat)
    requires starts != ends && starts.Length == ends.Length == MAX_COVER_DEFS
    modifies starts, ends
    ensures n <= MAX_COVER_DEFS && Pairs(starts, ends, n) == Take(Evidence(defs, rs, re), MAX_COVER_DEFS)
  {
    n := 0;
    var i := 0;
    while i < |defs| && n < MAX_COVER_DEFS
      invariant 0 <= i <= |defs| && n <= MAX_COVER_DEFS
      invariant Pairs(starts, ends, n) == Evidence(defs[..i], rs, re)
    {
      var d := defs[i];
      assert defs[..i + 1][..i] == defs[..i];
      if Qualifies(d, rs, re) {
        ghost var before := Pairs(starts, ends, n);
        starts[n] := d.startLine;
        ends[n] := if d.endLine < d.startLine then d.startLine else d.endLine;
        n := n + 1;
        assert Pairs(starts, ends, n) == before + [Extent(d)];
      }
      i := i + 1;
    }
    EvidenceExtends(defs, i, rs, re);
    assert i == |defs| ==> defs[..i] == defs;
  }

  lemma {:induction false} EvidenceExtends(defs: seq<Span>, i: nat, rs: u32, re: u32)
    requires i <= |defs|
    ensures Evidence(defs[..i], rs, re) <= Evidence(defs, rs, re)
  {
    if i < |defs| {
      var n := |defs| - 1;
      EvidenceExtends(defs[..n], i, rs, re);
      assert defs[..n][..i] == defs[..i];
    } else {
      assert defs[..i] == defs;
    }
  }

  method SortPairs(starts: array<u32>, ends: array<u32>, n: nat)
    requires starts != ends && n <= starts.Length == ends.Length
    modifies starts, ends
    ensures Pairs(starts, ends, n) == SortByStart(old(Pairs(starts, ends, n)))
  {
    ghost var all := Pairs(starts, ends, n);
    SortNext([], all);
    hide SortByStart, Insert;
    var i := 1;
    while i < n
      invariant n == 0 || 1 <= i <= n
      invariant n > 0 ==> Pairs(starts, ends, i) == SortByStart(all[..i])
      invariant forall k :: i <= k < n ==> Interval(starts[k], ends[k]) == all[k]
    {
      InsertInto(starts, ends, i);
      SortNext(all[..i], all);
      i := i + 1;
    }
    if n > 0 { assert all[..n] == all; }
  }

  lemma SortNext(done: seq<Interval>, all: seq<Interval>)
    requires done <= all
    ensures done < all ==> SortByStart(all[..|done| + 1]) == Insert(SortByStart(done), all[|done|])
    ensures all == [] ==> SortByStart(all) == []
    ensures done == [] && all != [] ==> SortByStart(all[..1]) == all[..1]
  {
    if done < all { assert all[..|done| + 1][..|done|] == done; }
  }

  lemma WrapPredecessor(rs: u32)
    ensures Wrap(rs - 1) == if rs == 0 then U32_MAX else rs - 1
  {}

  lemma {:induction false} EvidenceWithin(defs: seq<Span>, rs: u32, re: u32)
    ensures Within(Evidence(defs, rs, re), rs, re)
    ensures Within(Take(Evidence(defs, rs, re), MAX_COVER_DEFS), rs, re)
  {
    if defs != [] { EvidenceWithin(defs[..|defs| - 1], rs, re); }
  }

  /** The sweep over the sorted evidence answers the question about the evidence itself. */
  lemma SweepDecides(rs: u32, re: u32, defs: seq<Span>, evidence: seq<Interval>)
    requires evidence == Take(Evidence(defs, rs, re), MAX_COVER_DEFS) && evidence != []
    ensures rs >= 1 ==> (Sweep(Wrap(rs - 1), SortByStart(evidence), re) <==> Recovered(rs, re, evidence))
    ensures rs == 0 ==>
              (Sweep(Wrap(rs - 1), SortByStart(evidence), re) <==>
               forall i :: 0 <= i < |evidence| ==> evidence[i].start == 0)
  {
    hide *;
    EvidenceWithin(defs, rs, re);
    WrapPredecessor(rs);
    if rs >= 1 { SweepFromOne(rs, re, evidence); } else { SweepFromZero(re, evidence); }
  }

  lemma SweepFromOne(rs: u32, re: u32, evidence: seq<Interval>)
    requires rs >= 1 && evidence != [] && Within(evidence, rs, re)
    ensures Sweep(rs - 1, SortByStart(evidence), re) <==> Recovered(rs, re, evidence)
  {
    hide Sweep, SortByStart, MaxBeforeEnd, MaxIsFollowed, Covers;
    var sorted := SortByStart(evidence);
    SortIsSortedPermutation(evidence);
    SameWithin(sorted, evidence, rs, re);
    SweepIsCover(rs - 1, sorted, re);
    MaxBeforeEndSorted(evidence);
    forall line ensures Covers(sorted, line) <==> Covers(evidence, line) { CoversPermutation(evidence, line); }
  }

  lemma SameWithin(a: seq<Interval>, b: seq<Interval>, rs: int, re: int)
    requires multiset(a) == multiset(b) && Within(b, rs, re)
    ensures Within(a, rs, re)
  {
    forall i | 0 <= i < |a| ensures a[i] in b { SameElements(a, b, a[i]); }
  }

  lemma SweepFromZero(re: u32, evidence: seq<Interval>)
    ensures Sweep(U32_MAX, SortByStart(evidence), re) <==>
              forall i :: 0 <= i < |evidence| ==> evidence[i].start == 0
  {
    hide Sweep, SortByStart;
    var sorted := SortByStart(evidence);
    SortIsSortedPermutation(evidence);
    SweepWrapped(sorted, re);
    forall i | 0 <= i < |sorted| ensures sorted[i] in evidence { SameElements(sorted, evidence, sorted[i]); }
    forall i | 0 <= i < |evidence| ensures evidence[i] in sorted { SameElements(sorted, evidence, evidence[i]); }
  }

  // ---- subtraction ----

  /** Copy region `i` to slot `kept`, which is at or before it. */
  method Keep(regs: Regions, kept: nat, i: nat)
    requires regs.Valid() && kept <= i < regs.count
    modifies regs.starts, regs.ends
    ensures Pairs(regs.starts, regs.ends, kept + 1) ==
              old(Pairs(regs.starts, regs.ends, kept)) + [old(Interval(regs.starts[i], regs.ends[i]))]
    ensures forall k :: i < k < regs.starts.Length ==>
              regs.starts[k] == old(regs.starts[k]) && regs.ends[k] == old(regs.ends[k])
  {
    regs.starts[kept], regs.ends[kept] := regs.starts[i], regs.ends[i];
  }

  /** `cbm_subtract_recovered_regions`: an in-place, order-preserving filter. */
  method SubtractRecovered(regs: Regions, defs: seq<Span>)
    requires regs.Valid()
    modifies regs`count, regs.starts, regs.ends
    ensures regs.Valid() && regs.View() == Remaining(old(regs.View()), defs)
  {
    hide IsRecovered;
    var kept := 0;
    ghost var all, keep := regs.View(), NotRecovered(defs);
    var i := 0;
    while i < regs.count
      invariant 0 <= kept <= i <= regs.count == |all| && regs.Valid()
      invariant Pairs(regs.starts, regs.ends, kept) == Filter(all[..i], keep)
      invariant forall k :: i <= k < |all| ==> Interval(regs.starts[k], regs.ends[k]) == all[k]
    {
      var recovered := RegionIsRecovered(regs.starts[i], regs.ends[i], defs);
      assert all[..i + 1][..i] == all[..i];
      if !recovered {
        Keep(regs, kept, i);
        kept := kept + 1;
      }
      i := i + 1;
    }
    assert all[..i] == all;
    regs.count := kept;
    assert regs.View() == Pairs(regs.starts, regs.ends, kept);
  }

  ghost function NotRecovered(defs: seq<Span>): Interval -> bool {
    r => !IsRecovered(r, defs)
  }

  /** The regions that are not recovered, in order. */
  ghost function Remaining(s: seq<Interval>, defs: seq<Span>): seq<Interval> {
    Filter(s, NotRecovered(defs))
  }

  lemma RemainingContents(s: seq<Interval>, defs: seq<Span>)
    ensures forall r :: r in Remaining(s, defs) <==> r in s && !IsRecovered(r, defs)
  {
    FilterContents(s, NotRecovered(defs));
  }

  /** Inside a Function, Method, Constructor or Destructor that spans several lines. */
  predicate Encloses(d: Span, r: Interval) {
    && d.category in {Some("Function"), Some("Method"), Some("Constructor"), Some("Destructor")}
    && d.startLine <= r.start && d.endLine >= r.end && d.endLine > d.startLine
  }

  predicate InsideCallable(r: Interval, defs: seq<Span>) {
    exists d :: d in defs && Encloses(d, r)
  }

  function NotBenign(defs: seq<Span>, isMacroCall: Interval -> bool): Interval -> bool {
    r => !(isMacroCall(r) && InsideCallable(r, defs))
  }

  /** `cbm_subtract_macro_invocation_regions`. Whether a span holds a call of a macro defined
      in the file is a lexical test, given as `isMacroCall`. */
  method SubtractMacroInvocations(regs: Regions, defs: seq<Span>, isMacroCall: Interval -> bool)
    requires regs.Valid()
    modifies regs`count, regs.starts, regs.ends
    ensures regs.Valid()
    ensures regs.View() == Filter(old(regs.View()), NotBenign(defs, isMacroCall))
  {
    hide InsideCallable;
    ghost var keep := NotBenign(defs, isMacroCall);
    var kept := 0;
    ghost var all := regs.View();
    var i := 0;
    while i < regs.count
      invariant 0 <= kept <= i <= regs.count == |all| && regs.Valid()
      invariant Pairs(regs.starts, regs.ends, kept) == Filter(all[..i], keep)
      invariant forall k :: i <= k < |all| ==> Interval(regs.starts[k], regs.ends[k]) == all[k]
    {
      var r := Interval(regs.starts[i], regs.ends[i]);
      var benign := isMacroCall(r) && InsideCallable(r, defs);
      assert all[..i + 1][..i] == all[..i];
      if !benign {
        Keep(regs, kept, i);
        kept := kept + 1;
      }
      i := i + 1;
    }
    assert all[..i] == all;
    regs.count := kept;
    assert regs.View() == Pairs(regs.starts, regs.ends, kept);
  }
}
