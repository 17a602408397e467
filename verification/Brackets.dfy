/** Depth counters that never go below zero. `internal/cbm/cbm.c` keeps one over brackets to turn
    away sources nested too deeply; the network audit script keeps one over braces. */
module Brackets {

  /** What each character adds to the depth: 1, -1 or 0. */
  type Weights = seq<int>

  predicate Unit(w: Weights) {
    forall i :: 0 <= i < |w| ==> -1 <= w[i] <= 1
  }

  /** Openers minus closers between two positions. */
  function Balance(w: Weights, p: nat, q: nat): int
    requires p <= q <= |w|
    decreases q
  {
    if p == q then 0 else Balance(w, p, q - 1) + w[q - 1]
  }

  /** The counter after the first `i` characters. */
  function Depth(w: Weights, i: nat): nat
    requires i <= |w|
  {
    if i == 0 then 0 else if Depth(w, i - 1) + w[i - 1] < 0 then 0 else Depth(w, i - 1) + w[i - 1]
  }

  /** The clamped counter is the largest balance of any stretch that ends here. */
  lemma {:induction false} DepthIsLargestBalance(w: Weights, i: nat)
    requires i <= |w|
    ensures forall p :: 0 <= p <= i ==> Balance(w, p, i) <= Depth(w, i)
    ensures exists p :: 0 <= p <= i && Balance(w, p, i) == Depth(w, i)
  {
    if i == 0 {
      assert Balance(w, 0, 0) == Depth(w, 0);
    } else {
      DepthIsLargestBalance(w, i - 1);
      var p :| 0 <= p <= i - 1 && Balance(w, p, i - 1) == Depth(w, i - 1);
      assert Balance(w, p, i) == Depth(w, i - 1) + w[i - 1];
      assert Balance(w, i, i) == 0;
      forall p | 0 <= p <= i ensures Balance(w, p, i) <= Depth(w, i) {
        if p < i { assert Balance(w, p, i) == Balance(w, p, i - 1) + w[i - 1]; }
      }
    }
  }

  // ---- the nesting guard ----

  predicate Opens(c: char) {
    c == '(' || c == '[' || c == '{'
  }

  predicate Closes(c: char) {
    c == ')' || c == ']' || c == '}'
  }

  function BracketWeights(source: seq<char>): (w: Weights)
    ensures |w| == |source| && Unit(w)
    ensures forall i :: 0 <= i < |w| ==>
              && (w[i] == 1 <==> source[i] == '(' || source[i] == '[' || source[i] == '{')
              && (w[i] == -1 <==> source[i] == ')' || source[i] == ']' || source[i] == '}')
  {
    seq(|source|, i requires 0 <= i < |source| =>
      if Opens(source[i]) then 1 else if Closes(source[i]) then -1 else 0)
  }

  /** Some stretch of the first `len` characters, ending in an opener, has more than `cap` more
      openers than closers. */
  ghost predicate TooDeep(source: seq<char>, len: int, cap: int) {
    exists p, q :: 0 <= p < q <= len && q <= |source| && Opens(source[q - 1])
                   && Balance(BracketWeights(source), p, q) > cap
  }

  /** For the caps in use the stretch may end anywhere. */
  lemma TooDeepAnywhere(source: seq<char>, len: int, cap: nat)
    requires len <= |source|
    ensures TooDeep(source, len, cap) <==>
            exists p, q :: 0 <= p <= q <= len && Balance(BracketWeights(source), p, q) > cap
  {
    var w := BracketWeights(source);
    if p, q :| 0 <= p <= q <= len && Balance(w, p, q) > cap {
      LastOpener(source, len, cap, p, q);
    }
  }

  lemma {:induction false} LastOpener(source: seq<char>, len: int, cap: nat, p: nat, q: nat)
    requires p <= q <= len <= |source| && Balance(BracketWeights(source), p, q) > cap
    ensures TooDeep(source, len, cap)
    decreases q
  {
    if Opens(source[q - 1]) {
      assert p < q;
    } else {
      LastOpener(source, len, cap, p, q - 1);
    }
  }

  method NestingExceeds(source: seq<char>, len: int, cap: int) returns (exceeds: bool)
    requires len <= |source|
    ensures exceeds == TooDeep(source, len, cap)
  {
    ghost var w := BracketWeights(source);
    var depth: nat := 0;
    var i: nat := 0;
    while i < len
      invariant i <= |source| && (i <= len || i == 0) && depth == Depth(w, i)
      invariant !TooDeep(source, i, cap)
    {
      var c := source[i];
      DepthIsLargestBalance(w, i + 1);
      if Opens(c) {
        depth := depth + 1;
        if depth > cap {
          ghost var p :| 0 <= p <= i + 1 && Balance(w, p, i + 1) == Depth(w, i + 1);
          return true;
        }
      } else if Closes(c) && depth > 0 {
        depth := depth - 1;
      }
      i := i + 1;
    }
    return false;
  }
}
