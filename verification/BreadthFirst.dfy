/** The trie as numbered states, and the order in which the failure pass visits them. */
module BreadthFirst {
  import opened PatternWords
  import opened Sequences

  /** `CBM_AC_NO_STATE`. */
  const NO_STATE := -1

  /** State `s` spells `words[s]`, one symbol longer than its parent's word. */
  datatype Trie = Trie(words: seq<Word>, parents: seq<nat>, syms: seq<nat>)

  /** States are in bijection with the trie words of `pats`; parents are older than children. */
  ghost predicate Shape(t: Trie, pats: seq<Word>, alpha: nat) {
    && |t.words| == |t.parents| == |t.syms| >= 1
    && t.words[0] == []
    && (forall s {:trigger t.parents[s]} :: 1 <= s < |t.words| ==>
          t.parents[s] < s && t.syms[s] < alpha && t.words[s] == t.words[t.parents[s]] + [t.syms[s]])
    && (forall i, j :: 0 <= i < |t.words| && 0 <= j < |t.words| && t.words[i] == t.words[j] ==> i == j)
    && (forall w :: InTrie(pats, w) <==> w in t.words)
  }

  ghost function Depth(t: Trie, s: int): nat
    requires 0 <= s < |t.words|
  {
    |t.words[s]|
  }

  /** Table entry (s, c) is final once `q[..h]` and the first `k` symbols of `q[h]` are done. */
  ghost predicate Filled(q: seq<int>, h: nat, k: nat, s: int, c: nat)
    requires h <= |q|
  {
    s == 0 || s in q[..h] || (h < |q| && s == q[h] && c < k)
  }

  ghost predicate QueueOk(t: Trie, q: seq<int>, h: nat, k: nat) {
    && |t.words| == |t.parents| == |t.syms| && h <= |q|
    && (forall i :: 0 <= i < |q| ==> 1 <= q[i] < |t.words|)
    && (forall i, j :: 0 <= i < j < |q| ==> q[i] != q[j])
    && (forall s :: 1 <= s < |t.words| ==> (s in q <==> Filled(q, h, k, t.parents[s], t.syms[s])))
    && (forall i, j :: 0 <= i < j < |q| ==> Depth(t, q[i]) <= Depth(t, q[j]))
    && (h < |q| ==> forall i :: 0 <= i < |q| ==> Depth(t, q[i]) <= Depth(t, q[h]) + 1)
  }

  /** The trie before any pattern: just the root. */
  const ROOT := Trie([[]], [0], [0])

  lemma RootShape(alpha: nat)
    ensures Shape(ROOT, [] + [[]], alpha)
  {
    forall w ensures InTrie([] + [[]], w) <==> w in ROOT.words { InTrieEmptyPattern([], w); }
  }

  // ---- states ----

  /** A child word is a state whose parent and symbol are the expected ones. */
  lemma ChildState(t: Trie, pats: seq<Word>, alpha: nat, r: nat, c: nat, s: nat)
    requires Shape(t, pats, alpha) && r < |t.words| && s < |t.words|
    requires t.words[s] == t.words[r] + [c]
    ensures s >= 1 && t.parents[s] == r && t.syms[s] == c
  {
    assert s != 0;
    assert t.words[s][..|t.words[s]| - 1] == t.words[r];
    assert t.words[s][..|t.words[s]| - 1] == t.words[t.parents[s]];
  }

  /** Adding the missing child of `r` keeps the bijection. */
  lemma ShapeGrow(t: Trie, pats: seq<Word>, x: Word, alpha: nat, r: nat, c: nat)
    requires Shape(t, pats + [x], alpha) && c < alpha
    requires r < |t.words| && t.words[r] == x && x + [c] !in t.words
    ensures Shape(Trie(t.words + [x + [c]], t.parents + [r], t.syms + [c]), pats + [x + [c]], alpha)
  {
    WordsGrow(t.words, pats, x, c);
    hide InTrie;
    var u := Trie(t.words + [x + [c]], t.parents + [r], t.syms + [c]);
    forall i, j | 0 <= i < |u.words| && 0 <= j < |u.words| && u.words[i] == u.words[j] ensures i == j {
      assert i < |t.words| ==> u.words[i] in t.words;
      assert j < |t.words| ==> u.words[j] in t.words;
    }
    forall s | 1 <= s < |u.words|
      ensures u.parents[s] < s && u.syms[s] < alpha && u.words[s] == u.words[u.parents[s]] + [u.syms[s]]
    {
      if s < |t.words| { assert u.parents[s] == t.parents[s] < s; }
    }
    assert forall w :: InTrie(pats + [x + [c]], w) <==> w in u.words;
  }

  lemma WordsGrow(words: seq<Word>, pats: seq<Word>, x: Word, c: nat)
    requires forall w :: InTrie(pats + [x], w) <==> w in words
    ensures forall w :: InTrie(pats + [x + [c]], w) <==> w in words + [x + [c]]
  {
    hide InTrie;
    forall w ensures InTrie(pats + [x + [c]], w) <==> w in words + [x + [c]] {
      InTrieGrow(pats, x, c, w);
      assert w in words + [x + [c]] <==> w in words || w == x + [c];
    }
  }

  lemma ShapeKeep(t: Trie, pats: seq<Word>, x: Word, alpha: nat, c: nat)
    requires Shape(t, pats + [x], alpha) && x + [c] in t.words
    ensures Shape(t, pats + [x + [c]], alpha)
  {
    hide InTrie;
    forall w ensures InTrie(pats + [x + [c]], w) <==> w in t.words {
      InTrieGrow(pats, x, c, w);
    }
  }

  lemma ShapeStartPattern(t: Trie, pats: seq<Word>, alpha: nat)
    requires Shape(t, pats, alpha)
    ensures Shape(t, pats + [[]], alpha)
  {
    hide InTrie;
    forall w ensures InTrie(pats + [[]], w) <==> w in t.words {
      InTrieEmptyPattern(pats, w);
    }
  }

  lemma ShapeNoPattern(t: Trie, pats: seq<Word>, alpha: nat)
    requires Shape(t, pats + [[]], alpha)
    ensures Shape(t, pats, alpha)
  {
    hide InTrie;
    forall w ensures InTrie(pats, w) <==> w in t.words {
      InTrieEmptyPattern(pats, w);
    }
  }

  /** A goto entry as the trie leaves it: the child's state, or nothing. */
  ghost predicate RawEdge(t: Trie, s: nat, c: nat, v: int)
    requires s < |t.words|
  {
    if t.words[s] + [c] in t.words
    then 0 < v < |t.words| && t.words[v] == t.words[s] + [c]
    else v == NO_STATE
  }

  /** A goto entry as the scanners need it: the longest trie suffix after one more symbol. */
  ghost predicate FullEdge(t: Trie, pats: seq<Word>, s: nat, c: nat, v: int)
    requires s < |t.words|
  {
    0 <= v < |t.words| && t.words[v] == LongestSuffix(pats, t.words[s] + [c])
  }

  lemma FullInRange(t: Trie, pats: seq<Word>, s: nat, c: nat, v: int)
    requires s < |t.words| && FullEdge(t, pats, s, c, v)
    ensures 0 <= v < |t.words|
  {}

  /** An edge out of the root is full as soon as missing edges loop back to the root. */
  lemma RootEdge(t: Trie, pats: seq<Word>, alpha: nat, c: nat, v: int)
    requires Shape(t, pats, alpha) && RawEdge(t, 0, c, v)
    ensures FullEdge(t, pats, 0, c, if v == NO_STATE then 0 else v)
  {
    hide Shape, InTrie, LongestSuffix;
    RootWord(t, pats, alpha, c);
    SingleSymbol(pats, c);
  }

  lemma RootWord(t: Trie, pats: seq<Word>, alpha: nat, c: nat)
    requires Shape(t, pats, alpha)
    ensures t.words != [] && t.words[0] == [] && t.words[0] + [c] == [c]
    ensures InTrie(pats, [c]) <==> [c] in t.words
  {
    hide InTrie;
  }

  // ---- the queue ----

  /** Every state shallower than the one at the head has been processed. */
  lemma {:induction false} ShallowDone(t: Trie, pats: seq<Word>, alpha: nat, q: seq<int>, h: nat, k: nat, s: nat)
    requires Shape(t, pats, alpha) && QueueOk(t, q, h, k) && h < |q|
    requires s < |t.words| && Depth(t, s) < Depth(t, q[h])
    ensures s == 0 || s in q[..h]
    decreases s
  {
    if s > 0 {
      ShallowDone(t, pats, alpha, q, h, k, t.parents[s]);
      assert s in q;
      var i :| 0 <= i < |q| && q[i] == s;
      assert i < h;
      assert q[..h][i] == s;
    }
  }

  /** States no deeper than the head have been queued, so their masks are final. */
  lemma ShallowQueued(t: Trie, pats: seq<Word>, alpha: nat, q: seq<int>, h: nat, k: nat, s: nat)
    requires Shape(t, pats, alpha) && QueueOk(t, q, h, k) && h < |q|
    requires s < |t.words| && Depth(t, s) <= Depth(t, q[h])
    ensures s == 0 || s in q
  {
    if s > 0 { ShallowDone(t, pats, alpha, q, h, k, t.parents[s]); }
  }

  /** When the queue runs empty every state has been visited. */
  lemma {:induction false} AllVisited(t: Trie, pats: seq<Word>, alpha: nat, q: seq<int>, k: nat, s: nat)
    requires Shape(t, pats, alpha) && QueueOk(t, q, |q|, k) && s < |t.words|
    ensures s == 0 || s in q
    decreases s
  {
    if s > 0 {
      AllVisited(t, pats, alpha, q, k, t.parents[s]);
      assert q[..|q|] == q;
    }
  }

  /** Finding child `s` under the current entry puts it at the tail. */
  lemma QueuePush(t: Trie, pats: seq<Word>, alpha: nat, q: seq<int>, h: nat, k: nat, s: nat)
    requires Shape(t, pats, alpha) && QueueOk(t, q, h, k) && h < |q| && k < alpha
    requires 1 <= s < |t.words| && t.parents[s] == q[h] && t.syms[s] == k
    ensures s !in q && QueueOk(t, q + [s], h, k + 1)
  {
    var q' := q + [s];
    NotYetDone(q, h);
    assert q'[..h] == q[..h];
    forall x | 1 <= x < |t.words|
      ensures x in q' <==> Filled(q', h, k + 1, t.parents[x], t.syms[x])
    {
      if t.parents[x] == q[h] && t.syms[x] == k { assert t.words[x] == t.words[s]; }
    }
  }

  lemma NotYetDone(q: seq<int>, h: nat)
    requires h < |q| && forall i, j :: 0 <= i < j < |q| ==> q[i] != q[j]
    ensures q[h] !in q[..h]
  {}

  /** An entry with no child changes nothing in the queue. */
  lemma QueueSkip(t: Trie, pats: seq<Word>, alpha: nat, q: seq<int>, h: nat, k: nat)
    requires Shape(t, pats, alpha) && QueueOk(t, q, h, k) && h < |q| && k < alpha
    requires t.words[q[h]] + [k] !in t.words
    ensures QueueOk(t, q, h, k + 1)
  {
    forall x | 1 <= x < |t.words|
      ensures x in q <==> Filled(q, h, k + 1, t.parents[x], t.syms[x])
    {
      assert t.words[x] == t.words[t.parents[x]] + [t.syms[x]];
    }
  }

  lemma QueueRange(t: Trie, pats: seq<Word>, alpha: nat, q: seq<int>, h: nat, k: nat)
    requires Shape(t, pats, alpha) && QueueOk(t, q, h, k)
    ensures h <= |q| && forall s :: s in q ==> 1 <= s < |t.words|
  {}

  /** Doing one more entry fills that entry and no other. */
  lemma FilledStep(q: seq<int>, q': seq<int>, h: nat, k: nat)
    requires h < |q| && q <= q'
    ensures forall s, c: nat :: Filled(q', h, k + 1, s, c) <==> Filled(q, h, k, s, c) || (s == q[h] && c == k)
  {
    assert q'[..h] == q[..h] && q'[h] == q[h];
    forall s, c: nat
      ensures Filled(q', h, k + 1, s, c) <==> Filled(q, h, k, s, c) || (s == q[h] && c == k)
    {}
  }

  /** Finishing a row moves the head on. */
  lemma QueueAdvance(t: Trie, pats: seq<Word>, alpha: nat, q: seq<int>, h: nat)
    requires Shape(t, pats, alpha) && QueueOk(t, q, h, alpha) && h < |q|
    ensures QueueOk(t, q, h + 1, 0)
    ensures forall s, c: nat :: c < alpha ==> (Filled(q, h + 1, 0, s, c) <==> Filled(q, h, alpha, s, c))
  {
    assert q[..h + 1] == q[..h] + [q[h]];
  }

  lemma AllFilled(t: Trie, pats: seq<Word>, alpha: nat, q: seq<int>)
    requires Shape(t, pats, alpha) && QueueOk(t, q, |q|, 0)
    ensures forall s: nat :: s < |t.words| ==> s == 0 || s in q
    ensures forall s: nat, c: nat :: s < |t.words| ==> Filled(q, |q|, 0, s, c)
  {
    assert q[..|q|] == q;
    forall s: nat | s < |t.words| ensures s == 0 || s in q { AllVisited(t, pats, alpha, q, 0, s); }
  }

  /** Distinct entries below `n` cannot overrun a queue of capacity `n`. */
  lemma QueueFits(t: Trie, q: seq<int>, h: nat, k: nat)
    requires t.words != [] && QueueOk(t, q, h, k)
    ensures |q| < |t.words|
  {
    Distinct(q);
    SubsetSize((set s | s in q), Range(|t.words|) - {0});
  }

  // ---- starting the queue ----

  /** The root's children over symbols below `c` have been queued. */
  ghost predicate Started(t: Trie, q: seq<int>, c: nat) {
    && |t.words| == |t.parents| == |t.syms|
    && (forall i, j :: 0 <= i < j < |q| ==> q[i] != q[j])
    && (forall i :: 0 <= i < |q| ==> 1 <= q[i] < |t.words|)
    && (forall s :: 1 <= s < |t.words| ==> (s in q <==> t.parents[s] == 0 && t.syms[s] < c))
  }

  lemma StartEmpty(t: Trie, pats: seq<Word>, alpha: nat)
    requires Shape(t, pats, alpha)
    ensures Started(t, [], 0) && t.words != [] && t.words[0] == []
  {}

  lemma StartStep(t: Trie, pats: seq<Word>, alpha: nat, q: seq<int>, c: nat, v: int)
    requires Shape(t, pats, alpha) && Started(t, q, c) && FullEdge(t, pats, 0, c, v)
    ensures v == 0 ==> Started(t, q, c + 1)
    ensures v != 0 ==> 0 < v < |t.words| && FailLink(t, pats, v, 0)
    ensures v != 0 ==> Started(t, q + [v], c + 1) && |q| + 1 < |t.words|
  {
    RootChild(t, pats, alpha, c, v);
    if v == 0 { StartSkip(t, pats, alpha, q, c); } else { StartPush(t, pats, alpha, q, c, v); }
  }

  lemma RootChild(t: Trie, pats: seq<Word>, alpha: nat, c: nat, v: int)
    requires Shape(t, pats, alpha) && FullEdge(t, pats, 0, c, v)
    ensures v == 0 <==> [c] !in t.words
    ensures v != 0 ==> 0 < v < |t.words| && FailLink(t, pats, v, 0) && t.parents[v] == 0 && t.syms[v] == c
  {
    hide InTrie, LongestSuffix, FailWord;
    SingleSymbol(pats, c);
    assert t.words[0] + [c] == [c];
    assert InTrie(pats, [c]) <==> [c] in t.words;
    if v != 0 { ChildState(t, pats, alpha, 0, c, v); }
  }

  lemma StartSkip(t: Trie, pats: seq<Word>, alpha: nat, q: seq<int>, c: nat)
    requires Shape(t, pats, alpha) && Started(t, q, c) && [c] !in t.words
    ensures Started(t, q, c + 1)
  {
    forall s | 1 <= s < |t.words| ensures !(t.parents[s] == 0 && t.syms[s] == c) {
      assert [] + [c] == [c];
    }
  }

  lemma StartPush(t: Trie, pats: seq<Word>, alpha: nat, q: seq<int>, c: nat, v: int)
    requires Shape(t, pats, alpha) && Started(t, q, c)
    requires 1 <= v < |t.words| && t.parents[v] == 0 && t.syms[v] == c
    ensures Started(t, q + [v], c + 1) && |q| + 1 < |t.words|
  {
    var q' := q + [v];
    forall s | 1 <= s < |t.words| ensures s in q' <==> t.parents[s] == 0 && t.syms[s] < c + 1 {
      if t.parents[s] == 0 && t.syms[s] == c { assert t.words[s] == t.words[v]; }
    }
    Distinct(q');
    SubsetSize((set s | s in q'), Range(|t.words|) - {0});
  }

  lemma StartQueue(t: Trie, pats: seq<Word>, alpha: nat, q: seq<int>)
    requires Shape(t, pats, alpha) && Started(t, q, alpha)
    ensures QueueOk(t, q, 0, 0)
    ensures forall s :: s in q ==> 0 < s < |t.words| && |t.words[s]| == 1
  {
    forall i | 0 <= i < |q| ensures Depth(t, q[i]) == 1 {
      assert q[i] in q;
      assert t.parents[q[i]] == 0;
    }
    assert q[..0] == [];
  }

  // ---- failure links and output masks ----

  /** `f` is the failure state of `s`. */
  ghost predicate FailLink(t: Trie, pats: seq<Word>, s: int, f: int) {
    && 0 < s < |t.words| && 0 <= f < |t.words|
    && t.words[s] != [] && t.words[f] == FailWord(pats, t.words[s])
  }

  /** The chain link of a state: its failure state, when that state itself ends a pattern. */
  ghost predicate NextLink(t: Trie, pats: seq<Word>, s: nat, next: int)
    requires s < |t.words|
  {
    var w := t.words[s];
    if |w| >= 2 && LastId(pats, FailWord(pats, w)) != NO_STATE
    then 0 <= next < |t.words| && t.words[next] == FailWord(pats, w)
    else next == NO_STATE
  }

  /** Mask and chain link of a state the pass has reached. */
  ghost predicate FinalMask(t: Trie, pats: seq<Word>, s: nat, mask: set<nat>, next: int)
    requires s < |t.words|
  {
    mask == Outputs(pats, t.words[s]) && NextLink(t, pats, s, next)
  }

  /** Mask and chain link of a state the pass has not reached. */
  ghost predicate OwnMask(t: Trie, pats: seq<Word>, s: nat, mask: set<nat>, next: int)
    requires s < |t.words|
  {
    mask == OwnIds(pats, t.words[s]) && next == NO_STATE
  }

  /** The failure state of the head is shallower, so its row is already full. */
  lemma FailRowFilled(t: Trie, pats: seq<Word>, alpha: nat, q: seq<int>, h: nat, k: nat, f: int)
    requires Shape(t, pats, alpha) && QueueOk(t, q, h, k) && h < |q| && FailLink(t, pats, q[h], f)
    ensures 0 <= f < |t.words| && Filled(q, h, k, f, k) && f != q[h]
    ensures 0 < q[h] < |t.words| && !Filled(q, h, k, q[h], k)
  {
    NotYetDone(q, h);
    LongestSuffixLength(pats, t.words[q[h]]);
    ShallowDone(t, pats, alpha, q, h, k, f);
  }

  /** The entry copied from the failure row is the right one, whether it becomes the failure
      state of child `s` or the missing entry itself. */
  lemma EdgeStep(t: Trie, pats: seq<Word>, alpha: nat, q: seq<int>, h: nat, k: nat, f: nat, v: int, e: int)
    requires Shape(t, pats, alpha) && QueueOk(t, q, h, k) && h < |q| && k < alpha
    requires FailLink(t, pats, q[h], f) && FullEdge(t, pats, f, k, v) && RawEdge(t, q[h], k, e)
    ensures e == NO_STATE ==> FullEdge(t, pats, q[h], k, v) && QueueOk(t, q, h, k + 1)
    ensures e != NO_STATE ==> FullEdge(t, pats, q[h], k, e) && FailLink(t, pats, e, v) && (v == 0 || v in q)
    ensures e != NO_STATE ==>
              0 < e < |t.words| && e !in q && e != v && QueueOk(t, q + [e], h, k + 1) && |t.words[e]| >= 2
  {
    var r := q[h];
    FailStep(pats, t.words[r], k);
    assert InTrie(pats, t.words[r] + [k]) <==> t.words[r] + [k] in t.words;
    if e == NO_STATE {
      QueueSkip(t, pats, alpha, q, h, k);
    } else {
      ChildState(t, pats, alpha, r, k, e);
      QueuePush(t, pats, alpha, q, h, k, e);
      LongestSuffixLength(pats, t.words[f] + [k]);
      LongestSuffixLength(pats, t.words[r]);
      ShallowQueued(t, pats, alpha, q, h, k, v);
    }
  }

  /** Merging the failure state's mask into the child's own completes it. */
  lemma MaskStep(t: Trie, pats: seq<Word>, alpha: nat, s: nat, v: nat, own: set<nat>, next: int, mask: set<nat>,
                 link: int)
    requires Shape(t, pats, alpha) && FailLink(t, pats, s, v) && |t.words[s]| >= 2
    requires OwnMask(t, pats, s, own, next) && FinalMask(t, pats, v, mask, link)
    ensures next == NO_STATE
    ensures FinalMask(t, pats, s, own + mask, if LastId(pats, t.words[v]) != NO_STATE then v else next)
  {
    assert InTrie(pats, t.words[s]);
    OutputsDeep(pats, t.words[s]);
  }

  /** The root and its children have nothing to inherit. */
  lemma MaskTop(t: Trie, pats: seq<Word>, alpha: nat, s: nat, own: set<nat>, next: int)
    requires Shape(t, pats, alpha) && s < |t.words| && |t.words[s]| <= 1
    requires OwnMask(t, pats, s, own, next)
    ensures FinalMask(t, pats, s, own, next)
  {
    assert InTrie(pats, t.words[s]);
    if |t.words[s]| == 1 { OutputsDepthOne(pats, t.words[s]); } else { OutputsRoot(pats); }
  }

  // ---- the number of states ----

  /** The distinct prefixes of the patterns, with the empty one. */
  ghost function Prefixes(pats: seq<Word>): set<Word> {
    {[]} + set p, k | 0 <= p < |pats| && 0 <= k <= |pats[p]| :: pats[p][..k]
  }

  lemma StateCount(t: Trie, pats: seq<Word>, alpha: nat)
    requires Shape(t, pats, alpha)
    ensures |t.words| == |Prefixes(pats)|
  {
    Distinct(t.words);
    forall w ensures w in Prefixes(pats) <==> w in t.words {
      assert InTrie(pats, w) <==> w in t.words;
      if p :| 0 <= p < |pats| && w <= pats[p] { assert pats[p][..|w|] == w; }
    }
    assert (set w | w in t.words) == Prefixes(pats);
  }

  /** Following a full entry reads one more symbol of a text. */
  lemma ScanStep(t: Trie, pats: seq<Word>, s: nat, c: nat, v: int, text: Word, i: nat)
    requires s < |t.words| && FullEdge(t, pats, s, c, v)
    requires i < |text| && text[i] == c && t.words[s] == LongestSuffix(pats, text[..i])
    ensures 0 <= v < |t.words| && t.words[v] == LongestSuffix(pats, text[..i + 1])
  {
    hide LongestSuffix;
    LongestSuffixStep(pats, text[..i], c);
    assert text[..i + 1] == text[..i] + [c];
  }
}
