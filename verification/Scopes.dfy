/** Top-level brace blocks of masked C, and the block a call belongs to, as in
    `scripts/security-network-source-audit.py`. What makes the text before a brace a function header
    is a parameter: for each position, the name found there, if any. */
module Scopes {
  import opened Brackets
  import opened Wrappers

  datatype FunctionRange = FunctionRange(name: string, bodyStart: nat, bodyEnd: nat)

  type Header = nat -> Option<string>

  function BraceWeights(masked: string): (w: Weights)
    ensures |w| == |masked| && Unit(w)
  {
    seq(|masked|, i requires 0 <= i < |masked| => if masked[i] == '{' then 1 else if masked[i] == '}' then -1 else 0)
  }

  /** From an opening brace to the brace that closes it. */
  ghost predicate Block(w: Weights, a: nat, b: nat) {
    && a < b <= |w| && w[a] == 1 && Balance(w, a, b) == 0
    && forall q :: a < q < b ==> Balance(w, a, q) > 0
  }

  /** No brace opened before `a` is still open there. */
  ghost predicate TopLevel(w: Weights, a: nat) {
    a <= |w| && forall p :: 0 <= p <= a ==> Balance(w, p, a) <= 0
  }

  /** A top-level block with a function header before it. */
  ghost predicate IsFunction(w: Weights, header: Header, r: FunctionRange) {
    Block(w, r.bodyStart, r.bodyEnd) && TopLevel(w, r.bodyStart) && header(r.bodyStart) == Some(r.name)
  }

  predicate InOrder(ranges: seq<FunctionRange>) {
    forall i, j :: 0 <= i < j < |ranges| ==> ranges[i].bodyEnd <= ranges[j].bodyStart
  }

  /** Everything closed by position `i` is listed, and nothing else. */
  ghost predicate Listed(w: Weights, header: Header, ranges: seq<FunctionRange>, i: nat) {
    && (forall r :: r in ranges ==> IsFunction(w, header, r) && r.bodyEnd <= i)
    && (forall r :: IsFunction(w, header, r) && r.bodyEnd <= i ==> r in ranges)
    && InOrder(ranges)
  }

  /** Position `i` is inside a top-level block that opened at `a` and has not closed. */
  ghost predicate Inside(w: Weights, a: nat, i: nat) {
    && a < i <= |w| && w[a] == 1 && TopLevel(w, a)
    && forall q :: a < q <= i ==> Balance(w, a, q) > 0
  }

  lemma TopLevelIffZero(w: Weights, a: nat)
    requires a <= |w|
    ensures TopLevel(w, a) <==> Depth(w, a) == 0
  {
    DepthIsLargestBalance(w, a);
  }

  lemma OpenInBlock(w: Weights, b: nat, c: nat, q: nat)
    requires Block(w, b, c) && b < q < c
    ensures Balance(w, b, q) > 0
  {
    hide Balance;
  }

  lemma OpenInside(w: Weights, a: nat, i: nat, q: nat)
    requires Inside(w, a, i) && a < q <= i
    ensures !TopLevel(w, q)
  {
    hide Balance;
    assert Balance(w, a, q) > 0;
  }

  /** Inside an open block, only that block can be the top-level one that closes next. */
  lemma OnlyOpenBlockCloses(w: Weights, a: nat, i: nat, b: nat)
    requires Unit(w) && Inside(w, a, i) && i < |w|
    requires Block(w, b, i + 1) && TopLevel(w, b)
    ensures b == a
  {
    var end: nat := i + 1;
    if b < a { OpenInBlock(w, b, end, a); }
    if a < b { OpenInside(w, a, i, b); }
  }

  /** Only a closing brace closes a block. */
  lemma OnlyBraceCloses(w: Weights, i: nat, b: nat)
    requires i < |w| && w[i] >= 0
    ensures !Block(w, b, i + 1)
  {
    var end: nat := i + 1;
    if b <= i { assert Balance(w, b, end) == Balance(w, b, i) + w[i]; }
    if Block(w, b, end) && b < i { OpenInBlock(w, b, end, i); }
  }

  /** Outside every block, a stray closing brace closes nothing. */
  lemma StrayBrace(w: Weights, i: nat, b: nat)
    requires i < |w| && w[i] == -1 && Depth(w, i) == 0
    ensures !Block(w, b, i + 1)
  {
    DepthIsLargestBalance(w, i);
    var end: nat := i + 1;
    if Block(w, b, end) && b < i { OpenInBlock(w, b, end, i); }
  }

  lemma ListedStep(w: Weights, header: Header, ranges: seq<FunctionRange>, i: nat)
    requires Listed(w, header, ranges, i)
    requires forall b :: Block(w, b, i + 1) ==> !TopLevel(w, b)
    ensures Listed(w, header, ranges, i + 1)
  {
    hide Block, TopLevel;
  }

  /** The open block closes: it is the one function that ends here, if it has a header. */
  lemma ListedClose(w: Weights, header: Header, ranges: seq<FunctionRange>, a: nat, i: nat)
    requires Unit(w) && i < |w| && Inside(w, a, i) && Balance(w, a, i) == 1 && w[i] == -1
    requires Listed(w, header, ranges, i) && Listed(w, header, ranges, a)
    ensures header(a).None? ==> Listed(w, header, ranges, i + 1)
    ensures header(a).Some? ==> Listed(w, header, ranges + [FunctionRange(header(a).value, a, i + 1)], i + 1)
  {
    assert Block(w, a, i + 1);
    forall r | IsFunction(w, header, r) && r.bodyEnd == i + 1 ensures r.bodyStart == a {
      OnlyOpenBlockCloses(w, a, i, r.bodyStart);
    }
    hide Block, TopLevel;
    if header(a).Some? {
      var all := ranges + [FunctionRange(header(a).value, a, i + 1)];
      forall r | IsFunction(w, header, r) && r.bodyEnd <= i + 1 ensures r in all {
        if r.bodyEnd == i + 1 { assert r == all[|ranges|]; }
      }
    }
  }

  /** One character inside an open block: it stays open, or closes here. */
  lemma InsideStep(w: Weights, a: nat, i: nat)
    requires Unit(w) && i < |w| && Inside(w, a, i) && Balance(w, a, i) + w[i] > 0
    ensures Inside(w, a, i + 1)
    ensures forall b :: Block(w, b, i + 1) ==> !TopLevel(w, b)
  {
    assert Balance(w, a, i + 1) == Balance(w, a, i) + w[i];
    forall b | Block(w, b, i + 1) ensures !TopLevel(w, b) {
      if TopLevel(w, b) { OnlyOpenBlockCloses(w, a, i, b); }
    }
  }

  method FunctionRanges(masked: string, header: Header) returns (ranges: seq<FunctionRange>)
    ensures Listed(BraceWeights(masked), header, ranges, |masked|)
  {
    ghost var w := BraceWeights(masked);
    ranges := [];
    var depth: nat, opening, name := 0, -1, None;
    for index := 0 to |masked|
      invariant depth == Depth(w, index) && Listed(w, header, ranges, index)
      invariant depth == 0 ==> name == None
      invariant depth > 0 ==> 0 <= opening && Inside(w, opening, index) && Balance(w, opening, index) == depth
      invariant depth > 0 ==> name == header(opening) && Listed(w, header, ranges, opening)
    {
      var character := masked[index];
      ghost var start := opening;
      CharacterStep(w, header, ranges, depth, start, index);
      hide Listed, Inside;
      if character == '{' {
        if depth == 0 {
          opening := index;
          name := header(index);
        }
        depth := depth + 1;
      } else if character == '}' && depth > 0 {
        depth := depth - 1;
        if depth == 0 && name.Some? {
          ranges := ranges + [FunctionRange(name.value, opening, index + 1)];
          opening := -1;
          name := None;
        }
      }
    }
  }

  /** What one character does to the invariant of the loop. */
  lemma CharacterStep(w: Weights, header: Header, ranges: seq<FunctionRange>, depth: nat, a: int, i: nat)
    requires Unit(w) && i < |w| && depth == Depth(w, i) && Listed(w, header, ranges, i)
    requires depth > 0 ==> 0 <= a && Inside(w, a, i) && Balance(w, a, i) == depth && Listed(w, header, ranges, a)
    ensures depth == 0 && w[i] == 1 ==> Inside(w, i, i + 1) && Balance(w, i, i + 1) == 1
    ensures depth > 0 && depth + w[i] > 0 ==> Inside(w, a, i + 1) && Balance(w, a, i + 1) == depth + w[i]
    ensures depth == 0 || depth + w[i] > 0 ==> Listed(w, header, ranges, i + 1)
    ensures depth > 0 && depth + w[i] == 0 ==>
              && (header(a).None? ==> Listed(w, header, ranges, i + 1))
              && (header(a).Some? ==> Listed(w, header, ranges + [FunctionRange(header(a).value, a, i + 1)], i + 1))
  {
    TopLevelIffZero(w, i);
    if depth == 0 {
      if w[i] == 1 {
        assert Balance(w, i, i) == 0 && Balance(w, i, i + 1) == 1;
      }
      var next := i + 1;
      forall b ensures !Block(w, b, next) {
        if w[i] >= 0 { OnlyBraceCloses(w, i, b); } else { StrayBrace(w, i, b); }
      }
      ListedStep(w, header, ranges, i);
    } else if depth + w[i] > 0 {
      InsideStep(w, a, i);
      hide Block, TopLevel;
      ListedStep(w, header, ranges, i);
    } else {
      ListedClose(w, header, ranges, a, i);
    }
  }

  // ---- the scope of a call ----

  predicate Contains(r: FunctionRange, at: nat) {
    r.bodyStart < at < r.bodyEnd
  }

  /** `_scope_for`: the first range around a position; there is no other. */
  method ScopeFor(at: nat, ranges: seq<FunctionRange>) returns (scope: Option<FunctionRange>)
    requires InOrder(ranges)
    ensures scope.None? ==> forall r :: r in ranges ==> !Contains(r, at)
    ensures scope.Some? ==> scope.value in ranges && forall r :: r in ranges ==> (Contains(r, at) <==> r == scope.value)
  {
    for k := 0 to |ranges|
      invariant forall i :: 0 <= i < k ==> !Contains(ranges[i], at)
    {
      if Contains(ranges[k], at) {
        forall r | r in ranges && Contains(r, at) ensures r == ranges[k] {
          var i :| 0 <= i < |ranges| && ranges[i] == r;
        }
        return Some(ranges[k]);
      }
    }
    return None;
  }

  /** So the scope of a position is the function, in the sense above, it lies in. */
  lemma ScopeIsTheFunction(masked: string, header: Header, ranges: seq<FunctionRange>, r: FunctionRange,
                           q: FunctionRange, at: nat)
    requires Listed(BraceWeights(masked), header, ranges, |masked|)
    requires IsFunction(BraceWeights(masked), header, r) && IsFunction(BraceWeights(masked), header, q)
    requires Contains(r, at) && Contains(q, at)
    ensures r == q && r in ranges
  {
    hide BraceWeights;
    assert r in ranges && q in ranges by { hide IsFunction; }
  }
}
