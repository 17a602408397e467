/** Mapped patterns as words, the trie they span, and the longest-suffix function
    that an Aho-Corasick automaton tabulates. */
module PatternWords {

  type Word = seq<nat>

  predicate IsSuffix(u: Word, w: Word) {
    |u| <= |w| && w[|w| - |u|..] == u
  }

  /** `w` is the word of a trie node: the root, or a prefix of some pattern. */
  predicate InTrie(pats: seq<Word>, w: Word) {
    w == [] || exists p :: 0 <= p < |pats| && w <= pats[p]
  }

  /** The longest suffix of `w` that is a trie word. */
  function LongestSuffix(pats: seq<Word>, w: Word): Word {
    if InTrie(pats, w) then w else LongestSuffix(pats, w[1..])
  }

  /** The failure word of a non-root node: its longest proper suffix in the trie. */
  function FailWord(pats: seq<Word>, w: Word): Word
    requires w != []
  {
    LongestSuffix(pats, w[1..])
  }

  lemma SuffixOfTail(u: Word, w: Word)
    requires IsSuffix(u, w) && u != w
    ensures w != [] && IsSuffix(u, w[1..])
  {
    assert w[0..] == w;
    assert |u| < |w|;
    assert w[1..][|w| - 1 - |u|..] == w[|w| - |u|..];
  }

  lemma SuffixGrows(u: Word, w: Word)
    requires w != [] && IsSuffix(u, w[1..])
    ensures IsSuffix(u, w)
  {
    assert w[1..][|w| - 1 - |u|..] == w[|w| - |u|..];
  }

  lemma SuffixTransitive(u: Word, v: Word, w: Word)
    requires IsSuffix(u, v) && IsSuffix(v, w)
    ensures IsSuffix(u, w)
  {
    assert w[|w| - |u|..] == w[|w| - |v|..][|v| - |u|..];
  }

  /** The result is a suffix in the trie, and every other such suffix is a suffix of it. */
  lemma {:induction false} LongestSuffixIsLongest(pats: seq<Word>, w: Word)
    ensures InTrie(pats, LongestSuffix(pats, w)) && IsSuffix(LongestSuffix(pats, w), w)
    ensures forall u :: IsSuffix(u, w) && InTrie(pats, u) ==> IsSuffix(u, LongestSuffix(pats, w))
  {
    if InTrie(pats, w) {
      assert w[0..] == w;
    } else {
      LongestSuffixIsLongest(pats, w[1..]);
      SuffixGrows(LongestSuffix(pats, w[1..]), w);
      forall u | IsSuffix(u, w) && InTrie(pats, u) ensures IsSuffix(u, LongestSuffix(pats, w)) {
        SuffixOfTail(u, w);
      }
    }
  }

  lemma LongestSuffixLength(pats: seq<Word>, w: Word)
    ensures |LongestSuffix(pats, w)| <= |w|
    ensures w != [] ==> |FailWord(pats, w)| < |w|
  {
    LongestSuffixIsLongest(pats, w);
    if w != [] { LongestSuffixIsLongest(pats, w[1..]); }
  }

  lemma TriePrefixClosed(pats: seq<Word>, w: Word, c: nat)
    requires InTrie(pats, w + [c])
    ensures InTrie(pats, w)
  {
    var p :| 0 <= p < |pats| && w + [c] <= pats[p];
    assert w <= pats[p];
  }

  /** Reading one more symbol only needs the longest suffix seen so far: this is why the
      scanner may keep a state instead of the text. */
  lemma {:induction false} LongestSuffixStep(pats: seq<Word>, w: Word, c: nat)
    ensures LongestSuffix(pats, w + [c]) == LongestSuffix(pats, LongestSuffix(pats, w) + [c])
    decreases |w|
  {
    if !InTrie(pats, w) {
      if InTrie(pats, w + [c]) { TriePrefixClosed(pats, w, c); }
      assert (w + [c])[1..] == w[1..] + [c];
      LongestSuffixStep(pats, w[1..], c);
    }
  }

  /** The two right-hand sides the failure pass uses: a missing edge copies the entry of the
      failure state, and the failure word of a child is that same entry. */
  lemma FailStep(pats: seq<Word>, w: Word, c: nat)
    requires w != []
    ensures FailWord(pats, w + [c]) == LongestSuffix(pats, FailWord(pats, w) + [c])
    ensures !InTrie(pats, w + [c]) ==>
              LongestSuffix(pats, w + [c]) == LongestSuffix(pats, FailWord(pats, w) + [c])
  {
    assert (w + [c])[1..] == w[1..] + [c];
    LongestSuffixStep(pats, w[1..], c);
  }

  lemma SingleSymbol(pats: seq<Word>, c: nat)
    ensures LongestSuffix(pats, [c]) == if InTrie(pats, [c]) then [c] else []
    ensures FailWord(pats, [c]) == []
  {
    assert [c][1..] == [];
  }

  // ---- outputs ----

  /** The ids the bitmask can hold (`CBM_AC_MAX_BITMASK`). */
  const MAX_BITMASK: nat := 64

  /** Reading a word that ends like this reports pattern `p`. A non-empty pattern is reported
      wherever it ends; an empty one only where the last symbol starts no pattern, because
      depth-one states never inherit the root's mask. */
  predicate Reports(pats: seq<Word>, w: Word, p: nat)
    requires p < |pats|
  {
    && IsSuffix(pats[p], w)
    && (pats[p] == [] && w != [] ==> !InTrie(pats, [w[|w| - 1]]))
  }

  function Outputs(pats: seq<Word>, w: Word): set<nat> {
    set p: nat | p < |pats| && p < MAX_BITMASK && Reports(pats, w, p)
  }

  /** The ids placed on a node while the trie is built. */
  function OwnIds(pats: seq<Word>, w: Word): set<nat> {
    set p: nat | p < |pats| && p < MAX_BITMASK && pats[p] == w
  }

  /** What `output_list` ends up holding: the last pattern equal to `w`, or -1. */
  function LastId(pats: seq<Word>, w: Word): (p: int)
    ensures -1 <= p < |pats|
    ensures p >= 0 ==> pats[p] == w
    ensures forall i :: p < i < |pats| ==> pats[i] != w
  {
    if pats == [] then -1
    else if pats[|pats| - 1] == w then |pats| - 1
    else LastId(pats[..|pats| - 1], w)
  }

  lemma OutputsRoot(pats: seq<Word>)
    ensures Outputs(pats, []) == OwnIds(pats, [])
  {
    forall p: nat | p < |pats| ensures Reports(pats, [], p) <==> pats[p] == [] {}
  }

  lemma OutputsDepthOne(pats: seq<Word>, w: Word)
    requires |w| == 1 && InTrie(pats, w)
    ensures Outputs(pats, w) == OwnIds(pats, w)
  {
    hide InTrie, Reports;
    forall p: nat | p < |pats| ensures Reports(pats, w, p) <==> pats[p] == w {
      ReportsDepthOne(pats, w, p);
    }
  }

  lemma ReportsDepthOne(pats: seq<Word>, w: Word, p: nat)
    requires |w| == 1 && InTrie(pats, w) && p < |pats|
    ensures Reports(pats, w, p) <==> pats[p] == w
  {
    hide InTrie;
    assert [w[0]] == w && w[0..] == w;
  }

  /** Below depth one, a node reports its own ids and those of its failure node. */
  lemma OutputsDeep(pats: seq<Word>, w: Word)
    requires |w| >= 2 && InTrie(pats, w)
    ensures Outputs(pats, w) == OwnIds(pats, w) + Outputs(pats, FailWord(pats, w))
  {
    hide InTrie, Reports, FailWord;
    forall p: nat | p < |pats|
      ensures Reports(pats, w, p) <==> pats[p] == w || Reports(pats, FailWord(pats, w), p)
    {
      ReportsDeep(pats, w, p);
    }
  }

  lemma ReportsDeep(pats: seq<Word>, w: Word, p: nat)
    requires |w| >= 2 && InTrie(pats, w) && p < |pats|
    ensures Reports(pats, w, p) <==> pats[p] == w || Reports(pats, FailWord(pats, w), p)
  {
    var f := FailWord(pats, w);
    FailKeepsLast(pats, w);
    LongestSuffixIsLongest(pats, w[1..]);
    assert w[0..] == w;
    if IsSuffix(pats[p], w) && pats[p] != w {
      SuffixOfTail(pats[p], w);
      assert InTrie(pats, pats[p]);
    }
    if IsSuffix(pats[p], f) { SuffixTransitive(pats[p], f, w); }
  }

  /** A failure word is a suffix that is empty only when the last symbol starts no pattern. */
  lemma FailKeepsLast(pats: seq<Word>, w: Word)
    requires |w| >= 2
    ensures var f := FailWord(pats, w);
            IsSuffix(f, w) && |f| < |w| &&
            (if f == [] then !InTrie(pats, [w[|w| - 1]]) else f[|f| - 1] == w[|w| - 1])
  {
    var f := FailWord(pats, w);
    LongestSuffixIsLongest(pats, w[1..]);
    SuffixGrows(f, w);
    hide LongestSuffix, InTrie;
    var last := [w[|w| - 1]];
    assert IsSuffix(last, w[1..]);
    assert InTrie(pats, last) ==> IsSuffix(last, f);
  }

  // ---- growing a pattern list ----

  lemma OwnGrow(pats: seq<Word>, x: Word, w: Word)
    ensures OwnIds(pats + [x], w) ==
              if w == x && |pats| < MAX_BITMASK then OwnIds(pats, w) + {|pats|} else OwnIds(pats, w)
    ensures LastId(pats + [x], w) == if w == x then |pats| else LastId(pats, w)
  {
    assert (pats + [x])[..|pats|] == pats;
  }

  lemma InTrieGrow(pats: seq<Word>, x: Word, c: nat, w: Word)
    ensures InTrie(pats + [x + [c]], w) <==> InTrie(pats + [x], w) || w == x + [c]
  {
    var a, b := pats + [x], pats + [x + [c]];
    if w != [] && InTrie(a, w) {
      var p :| 0 <= p < |a| && w <= a[p];
      assert w <= b[p];
    }
    if w == x + [c] { assert w <= b[|pats|]; }
    if w != [] && InTrie(b, w) && w != x + [c] {
      var p :| 0 <= p < |b| && w <= b[p];
      assert w <= a[p] by {
        if p == |pats| { assert |w| <= |x|; assert (x + [c])[..|w|] == x[..|w|]; }
      }
    }
  }

  lemma InTrieEmptyPattern(pats: seq<Word>, w: Word)
    ensures InTrie(pats + [[]], w) <==> InTrie(pats, w)
  {
    var b := pats + [[]];
    if w != [] && InTrie(pats, w) {
      var p :| 0 <= p < |pats| && w <= pats[p];
      assert w <= b[p];
    }
  }

  // ---- occurrence ----

  /** Naive substring search: `u` is a contiguous infix of `t`. */
  ghost predicate Occurs(u: Word, t: Word) {
    exists i :: OccursAt(u, t, i)
  }

  predicate OccursAt(u: Word, t: Word, i: int) {
    0 <= i <= |t| - |u| && t[i..i + |u|] == u
  }

  /** Reporting by the state after each prefix is the same as reporting by the prefix. */
  lemma ReportsOfState(pats: seq<Word>, u: Word, p: nat)
    requires p < |pats| && u != []
    ensures Reports(pats, LongestSuffix(pats, u), p) <==> Reports(pats, u, p)
  {
    var r := LongestSuffix(pats, u);
    LongestSuffixIsLongest(pats, u);
    var last := u[|u| - 1];
    assert InTrie(pats, pats[p]);
    assert r != [] ==> r[|r| - 1] == last;
    if IsSuffix(pats[p], r) { SuffixTransitive(pats[p], r, u); }
    if InTrie(pats, [last]) {
      assert IsSuffix([last], u);
      assert r != [];
    }
  }

  lemma SuffixesAreOccurrences(u: Word, t: Word)
    requires u != []
    ensures Occurs(u, t) <==> exists k :: 0 < k <= |t| && IsSuffix(u, t[..k])
  {
    if Occurs(u, t) {
      var i :| OccursAt(u, t, i);
      assert t[..i + |u|][i..] == t[i..i + |u|];
      assert IsSuffix(u, t[..i + |u|]);
    }
    if k :| 0 < k <= |t| && IsSuffix(u, t[..k]) {
      assert t[..k][k - |u|..] == t[k - |u|..k];
      assert OccursAt(u, t, k - |u|);
    }
  }
}
