/** What the scanners promise, stated over mapped texts. */
module Matching {
  import opened PatternWords
  import opened Sequences

  // ---- one text ----

  /** No pattern starts with some symbol of `t`. */
  predicate HasIdleSymbol(pats: seq<Word>, t: Word) {
    exists i :: 0 <= i < |t| && !InTrie(pats, [t[i]])
  }

  /** Pattern `p` is reported for text `t`: naive substring search for a non-empty pattern. */
  ghost predicate Matches(pats: seq<Word>, t: Word, p: nat)
    requires p < |pats|
  {
    if pats[p] == [] then HasIdleSymbol(pats, t) else Occurs(pats[p], t)
  }

  /** The ids met by running the automaton over `t`. */
  ghost function Seen(pats: seq<Word>, t: Word): set<nat> {
    if t == [] then {} else Seen(pats, t[..|t| - 1]) + Outputs(pats, LongestSuffix(pats, t))
  }

  /** Pattern `p` is reported by the state after `k` symbols. */
  ghost predicate ReportedAfter(pats: seq<Word>, t: Word, p: nat, k: int)
    requires p < |pats|
  {
    0 < k <= |t| && Reports(pats, t[..k], p)
  }

  lemma {:induction false} SeenAtPrefix(pats: seq<Word>, t: Word, p: nat)
    requires p < |pats|
    ensures p in Seen(pats, t) <==> p < MAX_BITMASK && exists k :: ReportedAfter(pats, t, p, k)
  {
    hide Reports;
    if t != [] {
      var n := |t| - 1;
      SeenAtPrefix(pats, t[..n], p);
      ReportsOfState(pats, t, p);
      assert t[..|t|] == t;
      forall k | 0 < k <= n ensures ReportedAfter(pats, t[..n], p, k) <==> ReportedAfter(pats, t, p, k) {
        assert t[..n][..k] == t[..k];
      }
      if k :| ReportedAfter(pats, t, p, k) {
        assert k == |t| || ReportedAfter(pats, t[..n], p, k);
      }
      if k :| ReportedAfter(pats, t[..n], p, k) {
        assert ReportedAfter(pats, t, p, k);
      }
      assert Reports(pats, t, p) ==> ReportedAfter(pats, t, p, |t|);
    }
  }

  lemma {:induction false} SeenBound(pats: seq<Word>, t: Word)
    ensures forall p :: p in Seen(pats, t) ==> p < |pats| && p < MAX_BITMASK
  {
    if t != [] { SeenBound(pats, t[..|t| - 1]); }
  }

  /** Running the automaton finds exactly what naive search finds, for every id the mask holds. */
  lemma SeenIsSearch(pats: seq<Word>, t: Word, p: nat)
    requires p < |pats|
    ensures p in Seen(pats, t) <==> p < MAX_BITMASK && Matches(pats, t, p)
  {
    SeenAtPrefix(pats, t, p);
    if pats[p] == [] {
      if k :| ReportedAfter(pats, t, p, k) {
        assert t[..k][k - 1] == t[k - 1];
      }
      if i :| 0 <= i < |t| && !InTrie(pats, [t[i]]) {
        assert t[..i + 1][i] == t[i];
        assert ReportedAfter(pats, t, p, i + 1);
      }
    } else {
      SuffixesAreOccurrences(pats[p], t);
      if k :| 0 < k <= |t| && IsSuffix(pats[p], t[..k]) {
        assert ReportedAfter(pats, t, p, k);
      }
    }
  }

  lemma SeenIsSearchSet(pats: seq<Word>, t: Word)
    ensures forall p: nat :: p in Seen(pats, t) <==> p < |pats| && p < MAX_BITMASK && Matches(pats, t, p)
  {
    hide Matches, Seen;
    SeenBound(pats, t);
    forall p: nat | p < |pats|
      ensures p in Seen(pats, t) <==> p < MAX_BITMASK && Matches(pats, t, p)
    {
      SeenIsSearch(pats, t, p);
    }
  }

  lemma SeenStep(pats: seq<Word>, t: Word, i: nat)
    requires i < |t|
    ensures Seen(pats, t[..i + 1]) == Seen(pats, t[..i]) + Outputs(pats, LongestSuffix(pats, t[..i + 1]))
  {
    assert t[..i + 1][..i] == t[..i];
  }

  /** Exactly when the scan agrees with naive search on pattern `p`: always for a non-empty one,
      and for an empty one only if some symbol of the text starts no pattern. */
  lemma AgreesWithNaiveSearch(pats: seq<Word>, t: Word, p: nat)
    requires p < |pats| && p < MAX_BITMASK
    ensures (p in Seen(pats, t) <==> Occurs(pats[p], t)) <==> pats[p] != [] || HasIdleSymbol(pats, t)
  {
    SeenIsSearch(pats, t, p);
    if pats[p] == [] { assert OccursAt([], t, 0); }
  }

  /** The empty text, and every text of one symbol that starts some pattern, miss an empty pattern
      that naive search finds. */
  lemma EmptyPatternMissed(pats: seq<Word>, t: Word, p: nat)
    requires p < |pats| && pats[p] == []
    requires t == [] || (|t| == 1 && exists q :: 0 <= q < |pats| && t <= pats[q])
    ensures p !in Seen(pats, t) && Occurs(pats[p], t)
  {
    hide Seen;
    assert OccursAt([], t, 0);
    SeenIsSearch(pats, t, p);
    assert t != [] ==> t == [t[0]];
  }

  // ---- many names ----

  /** The batch scanner does not look at the root's own mask. */
  ghost function BatchOutputs(pats: seq<Word>, w: Word): set<nat> {
    if w == [] then {} else Outputs(pats, w)
  }

  ghost function BatchSeen(pats: seq<Word>, t: Word): set<nat> {
    if t == [] then {} else BatchSeen(pats, t[..|t| - 1]) + BatchOutputs(pats, LongestSuffix(pats, t))
  }

  /** On non-empty patterns the batch scanner agrees with the single-text scanner. */
  lemma {:induction false} BatchSeenAgrees(pats: seq<Word>, t: Word)
    ensures BatchSeen(pats, t) <= Seen(pats, t)
    ensures forall p :: p in Seen(pats, t) && p < |pats| && pats[p] != [] ==> p in BatchSeen(pats, t)
  {
    if t != [] { BatchSeenAgrees(pats, t[..|t| - 1]); }
  }

  ghost function Least(s: set<nat>): (m: nat)
    requires s != {}
    ensures m in s && forall x :: x in s ==> m <= x
  {
    var y :| y in s;
    LeastExists(s, y);
    var m :| m in s && forall x :: x in s ==> m <= x;
    m
  }

  lemma {:induction false} LeastExists(s: set<nat>, y: nat)
    requires y in s
    ensures exists m :: m in s && forall x :: x in s ==> m <= x
    decreases y
  {
    if x :| x in s && x < y { LeastExists(s, x); }
  }

  /** The pairs of one name, in the order a mask is drained: ascending ids. */
  ghost function Drain(n: nat, s: set<nat>): seq<(nat, nat)>
    decreases |s|
  {
    if s == {} then [] else [(n, Least(s))] + Drain(n, s - {Least(s)})
  }

  /** All pairs of name `n` with text `t`, each id where it is first met. */
  ghost function Emitted(pats: seq<Word>, n: nat, t: Word): seq<(nat, nat)> {
    if t == [] then []
    else
      var before := t[..|t| - 1];
      Emitted(pats, n, before) +
      Drain(n, BatchOutputs(pats, LongestSuffix(pats, t)) - BatchSeen(pats, before))
  }

  /** The unbounded output of the batch scanner. */
  ghost function Batch(pats: seq<Word>, texts: seq<Word>): seq<(nat, nat)> {
    if texts == [] then []
    else
      var n := |texts| - 1;
      Batch(pats, texts[..n]) + Emitted(pats, n, texts[n])
  }

  lemma {:induction false} DrainContents(n: nat, s: set<nat>)
    ensures forall x :: x in Drain(n, s) <==> x.0 == n && x.1 in s
    ensures NoRepeats(Drain(n, s))
    decreases |s|
  {
    if s != {} {
      DrainContents(n, s - {Least(s)});
    }
  }

  lemma {:induction false} EmittedContents(pats: seq<Word>, n: nat, t: Word)
    ensures forall x :: x in Emitted(pats, n, t) <==> x.0 == n && x.1 in BatchSeen(pats, t)
    ensures NoRepeats(Emitted(pats, n, t))
  {
    if t != [] {
      var before := t[..|t| - 1];
      var more := BatchOutputs(pats, LongestSuffix(pats, t)) - BatchSeen(pats, before);
      EmittedContents(pats, n, before);
      DrainContents(n, more);
      NoRepeatsConcat(Emitted(pats, n, before), Drain(n, more));
    }
  }

  /** The state after `k` symbols is the first to report `p`. */
  ghost predicate FirstMetAt(pats: seq<Word>, t: Word, p: nat, k: nat) {
    0 < k <= |t| && p in BatchSeen(pats, t[..k]) && p !in BatchSeen(pats, t[..k - 1])
  }

  lemma {:induction false} FirstMet(pats: seq<Word>, t: Word, p: nat) returns (k: nat)
    requires p in BatchSeen(pats, t)
    ensures FirstMetAt(pats, t, p, k)
  {
    var n := |t| - 1;
    if p in BatchSeen(pats, t[..n]) {
      k := FirstMet(pats, t[..n], p);
      FirstMetLater(pats, t, p, n, k);
    } else {
      k := |t|;
      assert t[..k] == t;
    }
  }

  lemma FirstMetLater(pats: seq<Word>, t: Word, p: nat, n: nat, k: nat)
    requires n <= |t| && FirstMetAt(pats, t[..n], p, k)
    ensures FirstMetAt(pats, t, p, k)
  {
    assert t[..n][..k] == t[..k] && t[..n][..k - 1] == t[..k - 1];
  }

  lemma {:induction false} DrainAscends(n: nat, s: set<nat>)
    ensures forall i, j :: 0 <= i < j < |Drain(n, s)| ==> Drain(n, s)[i].1 < Drain(n, s)[j].1
    decreases |s|
  {
    if s != {} {
      var rest := Drain(n, s - {Least(s)});
      DrainAscends(n, s - {Least(s)});
      DrainContents(n, s - {Least(s)});
      forall j | 0 <= j < |rest| ensures Least(s) < rest[j].1 { assert rest[j] in rest; }
    }
  }

  /** One id is met before another, or with it and is the smaller. */
  ghost predicate MetBefore(pats: seq<Word>, t: Word, p: nat, q: nat) {
    exists k, l :: FirstMetAt(pats, t, p, k) && FirstMetAt(pats, t, q, l) && (k < l || (k == l && p < q))
  }

  /** The ids of a name are listed in the order in which they are first met, and in increasing order
      where they are met together. */
  lemma {:induction false} EmittedInOrder(pats: seq<Word>, n: nat, t: Word, i: nat, j: nat)
    requires i < j < |Emitted(pats, n, t)|
    ensures MetBefore(pats, t, Emitted(pats, n, t)[i].1, Emitted(pats, n, t)[j].1)
  {
    var m := |t| - 1;
    var before, all := Emitted(pats, n, t[..m]), Emitted(pats, n, t);
    var added := BatchOutputs(pats, LongestSuffix(pats, t)) - BatchSeen(pats, t[..m]);
    var p, q := all[i].1, all[j].1;
    DrainContents(n, added);
    EmittedContents(pats, n, t[..m]);
    assert t[..|t|] == t;
    hide Emitted, LongestSuffix, BatchOutputs;
    if j < |before| {
      EmittedInOrder(pats, n, t[..m], i, j);
      var k, l :| FirstMetAt(pats, t[..m], p, k) && FirstMetAt(pats, t[..m], q, l) && (k < l || (k == l && p < q));
      FirstMetLater(pats, t, p, m, k);
      FirstMetLater(pats, t, q, m, l);
    } else {
      assert all[j] == Drain(n, added)[j - |before|] && all[j] in Drain(n, added);
      assert FirstMetAt(pats, t, q, |t|);
      if i < |before| {
        assert all[i] in before;
        var k := FirstMet(pats, t[..m], p);
        FirstMetLater(pats, t, p, m, k);
      } else {
        assert all[i] == Drain(n, added)[i - |before|] && all[i] in Drain(n, added);
        DrainAscends(n, added);
        assert FirstMetAt(pats, t, p, |t|);
      }
    }
  }

  /** The batch lists every (name, id) match once, names in non-decreasing order. */
  lemma {:induction false} BatchContents(pats: seq<Word>, texts: seq<Word>)
    ensures forall x :: x in Batch(pats, texts) <==> x.0 < |texts| && x.1 in BatchSeen(pats, texts[x.0])
    ensures NoRepeats(Batch(pats, texts))
    ensures forall i, j :: 0 <= i < j < |Batch(pats, texts)| ==> Batch(pats, texts)[i].0 <= Batch(pats, texts)[j].0
  {
    if texts != [] {
      var n := |texts| - 1;
      var a, b := Batch(pats, texts[..n]), Emitted(pats, n, texts[n]);
      BatchContents(pats, texts[..n]);
      EmittedContents(pats, n, texts[n]);
      NoRepeatsConcat(a, b);
      var ab: seq<(nat, nat)> := a + b;
      forall i, j | 0 <= i < j < |ab| ensures ab[i].0 <= ab[j].0 {
        if j >= |a| {
          assert b[j - |a|] in b;
          if i < |a| { assert a[i] in a; } else { assert b[i - |a|] in b; }
        }
      }
    }
  }

  /** A state other than the root reports the empty patterns after `k` symbols. */
  ghost predicate IdleInside(pats: seq<Word>, t: Word, k: int) {
    0 < k <= |t| && LongestSuffix(pats, t[..k]) != [] && !InTrie(pats, [t[k - 1]])
  }

  lemma {:induction false} BatchSeenEmpty(pats: seq<Word>, t: Word, p: nat)
    requires p < |pats| && p < MAX_BITMASK && pats[p] == []
    ensures p in BatchSeen(pats, t) <==> exists k :: IdleInside(pats, t, k)
  {
    if t != [] {
      var n := |t| - 1;
      BatchSeenEmpty(pats, t[..n], p);
      ReportsOfState(pats, t, p);
      assert t[..|t|] == t;
      forall k | 0 < k <= n ensures IdleInside(pats, t[..n], k) <==> IdleInside(pats, t, k) {
        assert t[..n][..k] == t[..k];
      }
      if k :| IdleInside(pats, t, k) { assert k == |t| || IdleInside(pats, t[..n], k); }
      if k :| IdleInside(pats, t[..n], k) { assert IdleInside(pats, t, k); }
      if p in BatchOutputs(pats, LongestSuffix(pats, t)) { assert IdleInside(pats, t, |t|); }
      if IdleInside(pats, t, |t|) { assert p in BatchOutputs(pats, LongestSuffix(pats, t)); }
    }
  }

  /** Which pairs the batch reports: for non-empty patterns, exactly the true occurrences. */
  lemma BatchIsSearch(pats: seq<Word>, texts: seq<Word>, n: nat, p: nat)
    requires n < |texts| && p < |pats|
    ensures pats[p] != [] ==> ((n, p) in Batch(pats, texts) <==> p < MAX_BITMASK && Occurs(pats[p], texts[n]))
    ensures pats[p] == [] && p < MAX_BITMASK ==>
              ((n, p) in Batch(pats, texts) <==> exists k :: IdleInside(pats, texts[n], k))
  {
    BatchContents(pats, texts);
    BatchSeenAgrees(pats, texts[n]);
    SeenIsSearch(pats, texts[n], p);
    if pats[p] == [] && p < MAX_BITMASK { BatchSeenEmpty(pats, texts[n], p); }
  }
}
