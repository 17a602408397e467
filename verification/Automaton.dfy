/** The automaton of `internal/cbm/ac.c`: flat tables filled in place by the trie builder
    and the breadth-first failure pass, then read by the scanners. */
module Automata {
  import opened Bits
  import opened BreadthFirst
  import opened Matching
  import opened PatternWords
  import opened Wrappers

  type byte = b: int | 0 <= b < 256

  /** The word a byte string spells under an alphabet map. */
  function MapWord(alphaMap: seq<nat>, text: seq<byte>): (w: Word)
    requires |alphaMap| == 256
    ensures |w| == |text| && forall i :: 0 <= i < |text| ==> w[i] == alphaMap[text[i]]
  {
    seq(|text|, i requires 0 <= i < |text| => alphaMap[text[i]])
  }

  function MapPatterns(alphaMap: seq<nat>, patterns: seq<seq<byte>>): (ws: seq<Word>)
    requires |alphaMap| == 256
    ensures |ws| == |patterns| && forall p :: 0 <= p < |patterns| ==> ws[p] == MapWord(alphaMap, patterns[p])
  {
    seq(|patterns|, p requires 0 <= p < |patterns| => MapWord(alphaMap, patterns[p]))
  }

  /** The byte-to-symbol map in force: the caller's, or the identity. */
  function AlphaMap(alphaMap: Option<seq<byte>>): (m: seq<nat>)
    ensures alphaMap == None ==> |m| == 256 && forall b :: 0 <= b < 256 ==> m[b] == b
  {
    match alphaMap
    case Some(m) => m
    case None => seq(256, i => i)
  }

  function AlphaSize(alphaSize: int): nat {
    if alphaSize <= 0 then 256 else alphaSize
  }

  /** One root plus every pattern symbol: the table rows reserved before building. */
  function MaxStates(pats: seq<Word>): (n: nat)
    ensures n >= 1
  {
    if pats == [] then 1 else MaxStates(pats[..|pats| - 1]) + |pats[|pats| - 1]|
  }

  lemma MaxStatesGrow(pats: seq<Word>, p: nat)
    requires p < |pats|
    ensures MaxStates(pats[..p + 1]) == MaxStates(pats[..p]) + |pats[p]|
    ensures MaxStates(pats[..p + 1]) <= MaxStates(pats)
    decreases |pats|
  {
    assert pats[..p + 1][..p] == pats[..p];
    if p + 1 < |pats| {
      var q := pats[..|pats| - 1];
      MaxStatesGrow(q, p);
      assert q[..p + 1] == pats[..p + 1];
    } else {
      assert pats[..p + 1] == pats;
    }
  }

  /** The flat work queue of the failure pass. */
  class Queue {
    const data: array<int>
    var head: nat
    var tail: nat

    constructor (cap: nat)
      ensures fresh(data) && data.Length == cap && head == tail == 0
    {
      data := new int[cap];
      head, tail := 0, 0;
    }

    ghost predicate Valid()
      reads this
    {
      head <= tail <= data.Length
    }

    ghost function Pushed(): seq<int>
      requires Valid()
      reads this, data
    {
      data[..tail]
    }

    method Push(v: int)
      requires Valid() && tail < data.Length
      modifies this`tail, data
      ensures Valid() && Pushed() == old(Pushed()) + [v]
    {
      data[tail] := v;
      tail := tail + 1;
    }

    method Pop() returns (v: int)
      requires Valid() && head < tail
      modifies this`head
      ensures Valid() && v == Pushed()[old(head)] && head == old(head) + 1
    {
      v := data[head];
      head := head + 1;
    }
  }

  class Automaton {
    var numStates: nat
    const numPatterns: nat
    const alphaSize: nat
    const alphaMap: seq<nat>
    var goTable: array<int>
    var output: array<bv64>
    var outputList: array<int>
    var outputNext: array<int>

    ghost const pats: seq<Word>
    ghost var trie: Trie
    ghost var rows: nat

    // ---- the flat goto table ----

    function Cell(s: nat, c: nat): nat {
      s * alphaSize + c
    }

    function Size(n: nat): nat {
      n * alphaSize
    }

    lemma CellBound(s: nat, c: nat, n: nat)
      requires s < n && c < alphaSize
      ensures Cell(s, c) < Size(n)
    {
      assert (s + 1) * alphaSize <= n * alphaSize;
    }

    lemma CellOther(s: nat, c: nat, t: nat, d: nat)
      requires c < alphaSize && d < alphaSize && (s != t || c != d)
      ensures Cell(s, c) != Cell(t, d)
    {
      if s < t {
        assert (s + 1) * alphaSize <= t * alphaSize;
      } else if t < s {
        assert (t + 1) * alphaSize <= s * alphaSize;
      }
    }

    lemma SizeMonotone(n: nat, m: nat)
      requires n <= m
      ensures Size(n) == n * alphaSize && Size(n) <= Size(m)
    {}

    ghost predicate Layout()
      reads `trie, `rows, `goTable, `output, `outputList, `outputNext
    {
      && alphaSize >= 1
      && |alphaMap| == 256
      && (forall b :: 0 <= b < 256 ==> alphaMap[b] < alphaSize)
      && goTable.Length == Size(rows)
      && output.Length >= |trie.words| && outputList.Length >= |trie.words|
      && outputNext.Length >= |trie.words| && rows >= |trie.words|
      && goTable != outputList && goTable != outputNext && outputList != outputNext
      && (output as object) !in {goTable as object, outputList, outputNext}
    }

    ghost function Entry(s: nat, c: nat): int
      requires Layout() && s < rows && c < alphaSize
      reads `trie, `rows, `goTable, `output, `outputList, `outputNext, goTable
    {
      CellBound(s, c, rows);
      goTable[Cell(s, c)]
    }

    method GetEntry(s: nat, c: nat) returns (v: int)
      requires Layout() && s < rows && c < alphaSize
      ensures v == Entry(s, c)
    {
      CellBound(s, c, rows);
      v := goTable[s * alphaSize + c];
    }

    method SetEntry(s: nat, c: nat, v: int)
      requires Layout() && s < rows && c < alphaSize
      modifies goTable
      ensures Entry(s, c) == v
      ensures forall t: nat, d: nat :: t < rows && d < alphaSize && (t != s || d != c) ==>
                Entry(t, d) == old(Entry(t, d))
    {
      CellBound(s, c, rows);
      goTable[s * alphaSize + c] := v;
      forall t: nat, d: nat | t < rows && d < alphaSize && (t != s || d != c)
        ensures Entry(t, d) == old(Entry(t, d))
      {
        CellBound(t, d, rows);
        CellOther(s, c, t, d);
      }
    }

    // ---- phase 1: the trie ----

    /** Every edge of the trie and nothing else is in the goto table. */
    ghost predicate Edges()
      requires Layout()
      reads this, goTable
    {
      && (forall s: nat, c: nat :: s < |trie.words| && c < alphaSize ==> RawEdge(trie, s, c, Entry(s, c)))
      && (forall s: nat, c: nat :: |trie.words| <= s < rows && c < alphaSize ==> Entry(s, c) == NO_STATE)
    }

    /** Each node carries the ids of the patterns it spells; unused rows are blank. */
    ghost predicate OwnMasks(done: seq<Word>)
      requires Layout()
      reads this, output, outputList, outputNext
    {
      && output.Length == outputList.Length == outputNext.Length == rows
      && (forall s :: 0 <= s < |trie.words| ==>
            Members(output[s]) == OwnIds(done, trie.words[s]) && outputList[s] == LastId(done, trie.words[s]))
      && (forall s :: |trie.words| <= s < rows ==> output[s] == 0 && outputList[s] == NO_STATE)
      && (forall s :: 0 <= s < rows ==> outputNext[s] == NO_STATE)
    }

    /** Patterns `done` and the prefix `cur` of the next one have been inserted. */
    ghost predicate TrieTables(done: seq<Word>, cur: Word)
      reads this, goTable, output, outputList, outputNext
    {
      Layout() && Shape(trie, done + [cur], alphaSize) && Edges() && OwnMasks(done)
    }

    constructor Alloc(patterns: seq<seq<byte>>, alphaMap: seq<nat>, alphaSize: nat)
      requires alphaSize >= 1 && |alphaMap| == 256 && forall b :: 0 <= b < 256 ==> alphaMap[b] < alphaSize
      ensures this.alphaMap == alphaMap && this.alphaSize == alphaSize
      ensures numPatterns == |patterns| && pats == MapPatterns(alphaMap, patterns)
      ensures rows == MaxStates(pats) && TrieTables([], [])
      ensures fresh(goTable) && fresh(output) && fresh(outputList) && fresh(outputNext)
      ensures |trie.words| == 1
    {
      var ws := MapPatterns(alphaMap, patterns);
      var maxStates := MaxStates(ws);
      this.alphaMap, this.alphaSize := alphaMap, alphaSize;
      numPatterns := |patterns|;
      numStates := 0;
      goTable := new int[maxStates * alphaSize](_ => NO_STATE);
      output := new bv64[maxStates](_ => 0);
      outputList := new int[maxStates](_ => NO_STATE);
      outputNext := new int[maxStates](_ => NO_STATE);
      pats := ws;
      rows := maxStates;
      trie := ROOT;
      new;
      BlankTables();
    }

    /** Tables filled with the blank value describe the trie of no pattern. */
    lemma BlankTables()
      requires Layout() && trie == ROOT && output.Length == outputList.Length == outputNext.Length == rows
      requires forall i :: 0 <= i < goTable.Length ==> goTable[i] == NO_STATE
      requires forall s :: 0 <= s < rows ==> output[s] == 0 && outputList[s] == outputNext[s] == NO_STATE
      ensures TrieTables([], [])
    {
      hide Cell, Size, Shape, Members;
      RootShape(alphaSize);
      LowMember(0);
      forall s: nat, c: nat | s < rows && c < alphaSize ensures Entry(s, c) == NO_STATE {
        CellBound(s, c, rows);
      }
    }

    /** Create the missing child of `state` as state `n`. */
    method AddChild(state: nat, c: nat, ghost done: seq<Word>, ghost cur: Word, n: nat)
      requires TrieTables(done, cur) && n == |trie.words| < rows
      requires state < n && trie.words[state] == cur && c < alphaSize && cur + [c] !in trie.words
      modifies this`trie, goTable
      ensures TrieTables(done, cur + [c]) && trie.words == old(trie.words) + [cur + [c]]
      ensures Entry(state, c) == n
    {
      hide Cell, Size;
      FreshWord(done, cur, c);
      ShapeGrow(trie, done, cur, alphaSize, state, c);
      ghost var before := trie;
      trie := Trie(trie.words + [cur + [c]], trie.parents + [state], trie.syms + [c]);
      assert forall s: nat, d: nat :: s < rows && d < alphaSize ==> Entry(s, d) == old(Entry(s, d));
      SetEntry(state, c, n);
      assert Edges() by {
        forall s: nat, d: nat | s <= n && d < alphaSize ensures RawEdge(trie, s, d, Entry(s, d)) {
          GrowEdge(before, done, cur, state, c, s, d);
          if s < n { assert old(RawEdge(trie, s, d, Entry(s, d))); }
        }
      }
      assert OwnMasks(done) by {
        LowMember(0);
        assert trie.words[n] == cur + [c];
        forall s | 0 <= s < n ensures trie.words[s] == before.words[s] {}
      }
    }

    /** Follow or create the edge for one pattern symbol. */
    method InsertSymbol(state: nat, c: nat, ghost done: seq<Word>, ghost cur: Word, n: nat)
      returns (next: nat, m: nat)
      requires TrieTables(done, cur) && n == |trie.words| < rows
      requires state < n && trie.words[state] == cur && c < alphaSize
      modifies this`trie, goTable
      ensures TrieTables(done, cur + [c]) && m == |trie.words| <= n + 1
      ensures next < m && trie.words[next] == cur + [c]
    {
      hide Cell, Size;
      m := n;
      next := 0;
      var v := GetEntry(state, c);
      assert RawEdge(trie, state, c, Entry(state, c));
      if v == NO_STATE {
        AddChild(state, c, done, cur, n);
        next := m;
        m := m + 1;
      } else {
        ShapeKeep(trie, done, cur, alphaSize, c);
        next := v;
      }
    }

    /** Which edges exist after `cur + [c]` is added. */
    lemma GrowEdge(t: Trie, done: seq<Word>, cur: Word, state: nat, c: nat, s: nat, d: nat)
      requires Shape(t, done + [cur], alphaSize) && state < |t.words| && t.words[state] == cur
      requires cur + [c] !in t.words && s <= |t.words|
      ensures s == |t.words| ==> (cur + [c]) + [d] !in t.words + [cur + [c]]
      ensures s < |t.words| ==>
                (t.words[s] + [d] in t.words + [cur + [c]] <==> t.words[s] + [d] in t.words || (s == state && d == c))
    {
      if s == |t.words| {
        if (cur + [c]) + [d] in t.words {
          assert InTrie(done + [cur], (cur + [c]) + [d]);
          TriePrefixClosed(done + [cur], cur + [c], d);
        }
      } else if t.words[s] + [d] == cur + [c] {
        assert (t.words[s] + [d])[..|cur|] == (cur + [c])[..|cur|];
        assert t.words[s] == cur;
      }
    }

    /** A word that is not yet a node carries no ids. */
    lemma FreshWord(done: seq<Word>, cur: Word, c: nat)
      requires TrieTables(done, cur) && cur + [c] !in trie.words
      ensures OwnIds(done, cur + [c]) == {} && LastId(done, cur + [c]) == NO_STATE
    {
      var ps := done + [cur];
      forall p | 0 <= p < |done| ensures done[p] != cur + [c] {
        assert InTrie(ps, ps[p]);
        assert ps[p] in trie.words;
      }
    }

    /** `ac_build_trie`, without the root loops. */
    method InsertPatterns(patterns: seq<seq<byte>>) returns (n: nat)
      requires TrieTables([], []) && |trie.words| == 1
      requires pats == MapPatterns(alphaMap, patterns) && rows == MaxStates(pats)
      modifies this`trie, goTable, output, outputList
      ensures TrieTables(pats, []) && n == |trie.words|
    {
      hide Cell, Size, Shape, Edges, OwnMasks;
      n := 1;
      var p := 0;
      assert pats[..0] == [];
      while p < |patterns|
        invariant 0 <= p <= |patterns|
        invariant TrieTables(pats[..p], []) && n == |trie.words| <= MaxStates(pats[..p])
      {
        MaxStatesGrow(pats, p);
        var state: nat;
        state, n := InsertPattern(patterns[p], pats[..p], pats[p], n);
        MarkPattern(state, p, pats[..p], pats[p]);
        assert pats[..p + 1] == pats[..p] + [pats[p]];
        p := p + 1;
      }
      assert pats[..p] == pats;
    }

    method InsertPattern(pattern: seq<byte>, ghost done: seq<Word>, ghost x: Word, n0: nat)
      returns (state: nat, n: nat)
      requires TrieTables(done, []) && n0 == |trie.words|
      requires |alphaMap| == 256 && x == MapWord(alphaMap, pattern) && n0 + |x| <= rows
      modifies this`trie, goTable
      ensures TrieTables(done, x) && n == |trie.words| <= n0 + |x|
      ensures state < n && trie.words[state] == x
    {
      hide Cell, Size, Edges, OwnMasks;
      state, n := 0, n0;
      var j := 0;
      assert x[..0] == [];
      while j < |pattern|
        invariant 0 <= j <= |pattern|
        invariant TrieTables(done, x[..j]) && n == |trie.words| <= n0 + j
        invariant state < n && trie.words[state] == x[..j]
      {
        assert x[..j + 1] == x[..j] + [x[j]];
        state, n := InsertSymbol(state, alphaMap[pattern[j]], done, x[..j], n);
        j := j + 1;
      }
      assert x[..j] == x;
    }

    /** The end of a pattern: set its bit if it has one, and make it the head of the list. */
    method MarkPattern(state: nat, p: nat, ghost done: seq<Word>, ghost x: Word)
      requires TrieTables(done, x) && p == |done|
      requires state < |trie.words| && trie.words[state] == x
      modifies output, outputList
      ensures TrieTables(done + [x], [])
    {
      hide Cell, Size, OwnIds, LastId, Members, Has;
      if p < MAX_BITMASK {
        var mask := AddBit(output[state], p);
        output[state] := mask;
      }
      outputList[state] := p;
      ShapeStartPattern(trie, done + [x], alphaSize);
      forall w ensures OwnIds(done + [x], w) ==
              (if w == x && |done| < MAX_BITMASK then OwnIds(done, w) + {|done|} else OwnIds(done, w))
          && LastId(done + [x], w) == (if w == x then |done| else LastId(done, w))
      { OwnGrow(done, x, w); }
    }

    // ---- phase 2: failure links and the full goto table ----

    /** The table halfway through the pass: filled entries are full, the others still raw. */
    ghost predicate GoTable(q: seq<int>, h: nat, k: nat)
      requires Layout() && h <= |q|
      reads this, goTable
    {
      forall s: nat, c: nat :: s < |trie.words| && c < alphaSize ==>
        if Filled(q, h, k, s, c) then FullEdge(trie, pats, s, c, Entry(s, c)) else RawEdge(trie, s, c, Entry(s, c))
    }

    ghost predicate Masks(q: seq<int>)
      requires Layout()
      reads this, output, outputNext, outputList
    {
      && (forall s: nat :: s < |trie.words| ==> outputList[s] == LastId(pats, trie.words[s]))
      && (forall s: nat :: s < |trie.words| ==>
            if s == 0 || s in q then FinalMask(trie, pats, s, Members(output[s]), outputNext[s])
            else OwnMask(trie, pats, s, Members(output[s]), outputNext[s]))
    }

    ghost predicate FailLinks(fail: array<int>, q: seq<int>)
      requires fail.Length == |trie.words|
      reads this, fail
    {
      forall s :: s in q && 0 < s < |trie.words| ==> FailLink(trie, pats, s, fail[s])
    }

    ghost predicate Separate(fail: array<int>, queue: Queue)
      reads this
    {
      && fail.Length == |trie.words| == queue.data.Length
      && fail != queue.data
      && {fail as object, queue.data} !! {goTable as object, output, outputList, outputNext}
    }

    /** The loop invariant of the failure pass at entry `k` of the `h`-th queued state. */
    ghost predicate Pass(fail: array<int>, queue: Queue, h: nat, k: nat)
      reads this, goTable, output, outputList, outputNext, fail, queue, queue.data
    {
      && Layout() && Shape(trie, pats, alphaSize) && Separate(fail, queue) && queue.Valid()
      && QueueOk(trie, queue.Pushed(), h, k)
      && GoTable(queue.Pushed(), h, k)
      && Masks(queue.Pushed())
      && FailLinks(fail, queue.Pushed())
    }

    /** The root self-loops that close phase one. */
    method CloseRoot(n: nat)
      requires TrieTables(pats, []) && n == |trie.words|
      modifies goTable
      ensures Layout() && Shape(trie, pats, alphaSize) && OwnMasks(pats)
      ensures forall c: nat :: c < alphaSize ==> FullEdge(trie, pats, 0, c, Entry(0, c))
      ensures forall s: nat, c: nat :: 1 <= s < |trie.words| && c < alphaSize ==> RawEdge(trie, s, c, Entry(s, c))
    {
      assert |trie.words| >= 1;
      hide Cell, Size, OwnMasks, Shape, RawEdge, FullEdge, Entry;
      ShapeNoPattern(trie, pats, alphaSize);
      var c := 0;
      while c < alphaSize
        invariant c <= alphaSize && Layout() && OwnMasks(pats)
        invariant forall d: nat :: d < c ==> FullEdge(trie, pats, 0, d, Entry(0, d))
        invariant forall s: nat, d: nat :: s < |trie.words| && d < alphaSize && (s > 0 || d >= c) ==>
                    RawEdge(trie, s, d, Entry(s, d))
      {
        var v := GetEntry(0, c);
        RootEdge(trie, pats, alphaSize, c, v);
        if v == NO_STATE {
          SetEntry(0, c, 0);
        }
        c := c + 1;
      }
    }

    /** Link child `s` to its failure state `v` and merge that state's mask into its own. */
    method LinkChild(fail: array<int>, s: nat, v: nat)
      requires Layout() && fail.Length == |trie.words| && s < |trie.words| && v < |trie.words|
      requires {fail as object} !! {goTable as object, output, outputList, outputNext}
      modifies output, outputNext, fail
      ensures fail[s] == v && forall x :: 0 <= x < fail.Length && x != s ==> fail[x] == old(fail[x])
      ensures Members(output[s]) == old(Members(output[s])) + old(Members(output[v]))
      ensures forall x :: 0 <= x < output.Length && x != s ==> output[x] == old(output[x])
      ensures outputNext[s] ==
                if old(outputNext[s]) == NO_STATE && outputList[v] != NO_STATE then v else old(outputNext[s])
      ensures forall x :: 0 <= x < outputNext.Length && x != s ==> outputNext[x] == old(outputNext[x])
    {
      hide Cell, Size, Members, Has;
      fail[s] := v;
      var mask := Merge(output[s], output[v]);
      output[s] := mask;
      if outputNext[s] == NO_STATE && outputList[v] != NO_STATE {
        outputNext[s] := v;
      }
    }

    /** The entry has child `s`: link it and put it at the tail of the queue. */
    method VisitChild(fail: array<int>, queue: Queue, s: nat, v: nat, ghost h: nat, ghost c: nat)
      requires Pass(fail, queue, h, c) && h < |queue.Pushed()| && c < alphaSize && s < |trie.words|
      requires s == Entry(queue.Pushed()[h], c) && s > 0 && s !in queue.Pushed() && v != s
      requires FullEdge(trie, pats, queue.Pushed()[h], c, s) && FailLink(trie, pats, s, v)
      requires v < |trie.words| && (v == 0 || v in queue.Pushed()) && |trie.words[s]| >= 2
      requires QueueOk(trie, queue.Pushed() + [s], h, c + 1)
      modifies output, outputNext, fail, queue`tail, queue.data
      ensures Pass(fail, queue, h, c + 1)
      ensures queue.Pushed() == old(queue.Pushed()) + [s]
    {
      hide Cell, Size, Shape, QueueOk, RawEdge, FullEdge, FailLink, FinalMask, OwnMask, LastId, Members, Filled;
      ghost var q := queue.Pushed();
      FilledStep(q, q + [s], h, c);
      QueueFits(trie, q + [s], h, c + 1);
      MaskStep(trie, pats, alphaSize, s, v, Members(output[s]), outputNext[s], Members(output[v]), outputNext[v]);
      queue.Push(s);
      LinkChild(fail, s, v);
    }

    /** The entry is missing: copy the one of the failure row. */
    method CopyEntry(fail: array<int>, queue: Queue, r: nat, c: nat, v: nat, ghost h: nat)
      requires Pass(fail, queue, h, c) && h < |queue.Pushed()| && r == queue.Pushed()[h] < |trie.words|
      requires c < alphaSize && FullEdge(trie, pats, r, c, v) && QueueOk(trie, queue.Pushed(), h, c + 1)
      modifies goTable
      ensures Pass(fail, queue, h, c + 1)
    {
      hide Cell, Size, Shape, QueueOk, RawEdge, FullEdge, FailLink, FinalMask, OwnMask, LastId, Members, Filled;
      FilledStep(queue.Pushed(), queue.Pushed(), h, c);
      SetEntry(r, c, v);
    }

    /** What the row of `r`, the state just popped, and its failure row say about symbol `c`. */
    method Inspect(fail: array<int>, queue: Queue, r: nat, c: nat) returns (s: int, v: nat)
      requires queue.Valid() && 1 <= queue.head && Pass(fail, queue, queue.head - 1, c)
      requires r == queue.Pushed()[queue.head - 1] && c < alphaSize
      ensures v < |trie.words| && r < |trie.words| && s == Entry(r, c)
      ensures var q, h := queue.Pushed(), queue.head - 1;
              && (s == NO_STATE ==> FullEdge(trie, pats, r, c, v) && QueueOk(trie, q, h, c + 1))
              && (s != NO_STATE ==>
                    && 0 < s < |trie.words| && s !in q && s != v && (v == 0 || v in q) && |trie.words[s]| >= 2
                    && FullEdge(trie, pats, r, c, s) && FailLink(trie, pats, s, v) && QueueOk(trie, q + [s], h, c + 1))
    {
      hide Cell, Size, Shape, QueueOk, RawEdge, FullEdge, FailLink, FinalMask, OwnMask, LastId, Members, Filled;
      ghost var q, h := queue.Pushed(), queue.head - 1;
      QueueRange(trie, pats, alphaSize, q, h, c);
      assert r in q;
      s := GetEntry(r, c);
      var f := fail[r];
      FailRowFilled(trie, pats, alphaSize, q, h, c, f);
      var e := GetEntry(f, c);
      EdgeStep(trie, pats, alphaSize, q, h, c, f, e, s);
      FullInRange(trie, pats, f, c, e);
      v := e;
    }

    /** One entry of the row of `r`, the state just popped. */
    method Expand(fail: array<int>, queue: Queue, r: nat, c: nat)
      requires queue.Valid() && 1 <= queue.head && Pass(fail, queue, queue.head - 1, c)
      requires r == queue.Pushed()[queue.head - 1] && c < alphaSize
      modifies goTable, output, outputNext, fail, queue`tail, queue.data
      ensures Pass(fail, queue, queue.head - 1, c + 1)
      ensures old(queue.Pushed()) <= queue.Pushed()
    {
      hide Cell, Size, Shape, QueueOk, RawEdge, FullEdge, FailLink, FinalMask, OwnMask, LastId, Members, Filled;
      var s, v := Inspect(fail, queue, r, c);
      if s != NO_STATE {
        VisitChild(fail, queue, s, v, queue.head - 1, c);
      } else {
        CopyEntry(fail, queue, r, c, v, queue.head - 1);
      }
    }

    /** Queue the root's children. */
    method StartPass(fail: array<int>, queue: Queue)
      requires Layout() && Shape(trie, pats, alphaSize) && OwnMasks(pats)
      requires Separate(fail, queue) && queue.Valid() && queue.head == queue.tail == 0
      requires forall c: nat :: c < alphaSize ==> FullEdge(trie, pats, 0, c, Entry(0, c))
      requires forall s: nat, c: nat :: 1 <= s < |trie.words| && c < alphaSize ==> RawEdge(trie, s, c, Entry(s, c))
      modifies fail, queue`tail, queue.data
      ensures Pass(fail, queue, 0, 0) && queue.Valid() && queue.head == 0
    {
      hide Cell, Size, Shape, QueueOk, RawEdge, FullEdge, FailLink,
           Started, FinalMask, OwnIds, LastId, Members, Outputs;
      StartEmpty(trie, pats, alphaSize);
      var c := 0;
      while c < alphaSize
        invariant c <= alphaSize && queue.Valid() && queue.head == 0
        invariant Started(trie, queue.Pushed(), c)
        invariant FailLinks(fail, queue.Pushed())
      {
        var s := GetEntry(0, c);
        StartStep(trie, pats, alphaSize, queue.Pushed(), c, s);
        if s != 0 {
          fail[s] := 0;
          queue.Push(s);
        }
        c := c + 1;
      }
      ghost var q := queue.Pushed();
      StartQueue(trie, pats, alphaSize, q);
      assert Masks(q) by {
        StartEmpty(trie, pats, alphaSize);
        forall s: nat | s < |trie.words| && (s == 0 || s in q)
          ensures FinalMask(trie, pats, s, Members(output[s]), outputNext[s])
        {
          MaskTop(trie, pats, alphaSize, s, Members(output[s]), outputNext[s]);
        }
      }
    }

    /** Every table entry is final. */
    ghost predicate Complete()
      reads `trie, `rows, `goTable, `output, `outputList, `outputNext, goTable, output, outputList, outputNext
    {
      && Layout() && Shape(trie, pats, alphaSize)
      && (forall s: nat, c: nat :: s < |trie.words| && c < alphaSize ==> FullEdge(trie, pats, s, c, Entry(s, c)))
      && (forall s: nat :: s < |trie.words| ==>
            && FinalMask(trie, pats, s, Members(output[s]), outputNext[s])
            && outputList[s] == LastId(pats, trie.words[s]))
    }

    /** `ac_build_failure`. */
    method BuildFailure(n: nat)
      requires Layout() && Shape(trie, pats, alphaSize) && OwnMasks(pats) && n == |trie.words|
      requires forall c: nat :: c < alphaSize ==> FullEdge(trie, pats, 0, c, Entry(0, c))
      requires forall s: nat, c: nat :: 1 <= s < |trie.words| && c < alphaSize ==> RawEdge(trie, s, c, Entry(s, c))
      modifies goTable, output, outputNext
      ensures Complete()
    {
      hide Cell, Size, Shape, RawEdge, FullEdge, FinalMask, OwnMasks, Members, LastId, Filled, Pass;
      var fail := new int[n](_ => 0);
      var queue := new Queue(n);
      StartPass(fail, queue);
      while queue.head < queue.tail
        invariant queue.Valid() && Pass(fail, queue, queue.head, 0)
        decreases n - queue.head
      {
        ExpandRow(fail, queue, n);
      }
      PassDone(fail, queue);
    }

    /** Pop one state and fill its row. */
    method ExpandRow(fail: array<int>, queue: Queue, ghost n: nat)
      requires queue.Valid() && Pass(fail, queue, queue.head, 0) && queue.head < queue.tail && n == |trie.words|
      modifies goTable, output, outputNext, fail, queue, queue.data
      ensures queue.Valid() && Pass(fail, queue, queue.head, 0)
      ensures queue.head == old(queue.head) + 1 <= n
    {
      hide Cell, Size, Shape, QueueOk, GoTable, Masks, FailLinks, Filled;
      var r := queue.Pop();
      ghost var h := queue.head - 1;
      QueueRange(trie, pats, alphaSize, queue.Pushed(), h, 0);
      assert r in queue.Pushed();
      assert Pass(fail, queue, h, 0);
      var c := 0;
      while c < alphaSize
        invariant c <= alphaSize && queue.Valid() && queue.head == h + 1
        invariant Pass(fail, queue, h, c) && h < |queue.Pushed()| && r == queue.Pushed()[h]
      {
        Expand(fail, queue, r, c);
        c := c + 1;
      }
      RowDone(fail, queue, h);
    }

    lemma RowDone(fail: array<int>, queue: Queue, h: nat)
      requires Pass(fail, queue, h, alphaSize) && h < |queue.Pushed()|
      ensures Pass(fail, queue, h + 1, 0)
    {
      hide Cell, Size, Shape, QueueOk, RawEdge, FullEdge, FailLink, FinalMask, OwnMask, LastId, Members, Filled;
      QueueAdvance(trie, pats, alphaSize, queue.Pushed(), h);
    }

    lemma PassDone(fail: array<int>, queue: Queue)
      requires queue.Valid() && Pass(fail, queue, queue.tail, 0)
      ensures Complete()
    {
      hide Cell, Size, Shape, QueueOk, RawEdge, FullEdge, FailLink, FinalMask, OwnMask, LastId, Members, Filled;
      assert |queue.Pushed()| == queue.tail;
      AllFilled(trie, pats, alphaSize, queue.Pushed());
    }

    // ---- building ----

    ghost predicate Valid()
      reads this, goTable, output, outputList, outputNext
    {
      Complete() && numStates == |trie.words|
    }

    /** `realloc` to `n` elements, which leaves the block alone when it fails. */
    static method Resize<T(0)>(a: array<T>, n: nat, ok: bool) returns (b: array<T>)
      requires n <= a.Length
      ensures if ok then fresh(b) && b.Length == n else b == a
      ensures forall i :: 0 <= i < n ==> b[i] == a[i]
    {
      b := a;
      if ok {
        b := new T[n];
        for i := 0 to n
          invariant forall j :: 0 <= j < i ==> b[j] == a[j]
        {
          b[i] := a[i];
        }
      }
    }

    /** `ac_shrink_tables`: each table is reallocated to the exact state count if that works. */
    method Shrink(n: nat, maxStates: nat, okGo: bool, okOut: bool, okList: bool, okNext: bool)
      requires Valid() && n == numStates && maxStates == rows
      requires output.Length == outputList.Length == outputNext.Length == rows
      modifies this
      ensures Valid() && trie == old(trie) && numStates == old(numStates)
      ensures goTable == old(goTable) || fresh(goTable)
      ensures output == old(output) || fresh(output)
      ensures outputList == old(outputList) || fresh(outputList)
      ensures outputNext == old(outputNext) || fresh(outputNext)
      ensures okGo && okOut && okList && okNext ==>
                goTable.Length == n * alphaSize && output.Length == outputList.Length == outputNext.Length == n
    {
      assert n <= rows && goTable.Length == rows * alphaSize;
      hide Valid, Complete;
      if n < maxStates {
        if okGo { ShrinkGo(n); }
        if okOut { ShrinkOutput(n); }
        if okList { ShrinkList(n); }
        if okNext { ShrinkNext(n); }
      }
    }

    method ShrinkGo(n: nat)
      requires Valid() && n == numStates
      modifies this`goTable, this`rows
      ensures Valid() && goTable.Length == n * alphaSize && fresh(goTable)
    {
      hide Cell, Size, Shape, FullEdge, FinalMask, LastId, Members;
      SizeMonotone(n, rows);
      var table := Resize(goTable, n * alphaSize, true);
      forall s: nat, c: nat | s < n && c < alphaSize
        ensures Cell(s, c) < table.Length && FullEdge(trie, pats, s, c, table[Cell(s, c)])
      {
        CellBound(s, c, n);
        assert FullEdge(trie, pats, s, c, Entry(s, c));
      }
      goTable, rows := table, n;
    }

    method ShrinkOutput(n: nat)
      requires Valid() && n == numStates
      modifies this`output
      ensures Valid() && fresh(output) && output.Length == n
    {
      hide Cell, Size, Shape, FullEdge, FinalMask, LastId, Members, Outputs, OwnIds;
      output := Resize(output, n, true);
      forall s: nat, c: nat | s < n && c < alphaSize ensures FullEdge(trie, pats, s, c, Entry(s, c)) {
        assert Entry(s, c) == old(Entry(s, c));
      }
    }

    method ShrinkList(n: nat)
      requires Valid() && n == numStates
      modifies this`outputList
      ensures Valid() && fresh(outputList) && outputList.Length == n
    {
      hide Cell, Size, Shape, FullEdge, FinalMask, LastId, Members, Outputs, OwnIds;
      outputList := Resize(outputList, n, true);
      forall s: nat, c: nat | s < n && c < alphaSize ensures FullEdge(trie, pats, s, c, Entry(s, c)) {
        assert Entry(s, c) == old(Entry(s, c));
      }
    }

    method ShrinkNext(n: nat)
      requires Valid() && n == numStates
      modifies this`outputNext
      ensures Valid() && fresh(outputNext) && outputNext.Length == n
    {
      hide Cell, Size, Shape, FullEdge, FinalMask, LastId, Members, Outputs, OwnIds;
      outputNext := Resize(outputNext, n, true);
      forall s: nat, c: nat | s < n && c < alphaSize ensures FullEdge(trie, pats, s, c, Entry(s, c)) {
        assert Entry(s, c) == old(Entry(s, c));
      }
    }

    /** `cbm_ac_build`. The four flags say whether each shrinking `realloc` succeeds. */
    static method Build(patterns: seq<seq<byte>>, alphaMap: Option<seq<byte>>, alphaSize: int,
                        okGo: bool, okOut: bool, okList: bool, okNext: bool) returns (ac: Automaton?)
      requires alphaMap != None ==> |alphaMap.value| == 256
      requires alphaSize > 0 && alphaMap == None ==> alphaSize >= 256
      requires alphaSize > 0 && alphaMap != None ==> forall b :: 0 <= b < 256 ==> alphaMap.value[b] < alphaSize
      ensures ac == null <==> patterns == []
      ensures ac != null ==>
                && fresh(ac) && ac.Valid()
                && fresh(ac.goTable) && fresh(ac.output) && fresh(ac.outputList) && fresh(ac.outputNext)
                && ac.numPatterns == |patterns|
                && ac.numStates == |Prefixes(ac.pats)|
      // the map in force is the caller's, or the identity, and the patterns are read through it
      ensures ac != null ==>
                && |ac.alphaMap| == 256 && ac.alphaSize == (if alphaSize <= 0 then 256 else alphaSize)
                && (alphaMap != None ==> ac.alphaMap == alphaMap.value)
                && (alphaMap == None ==> forall b :: 0 <= b < 256 ==> ac.alphaMap[b] == b)
                && ac.pats == MapPatterns(ac.alphaMap, patterns)
    {
      if patterns == [] { return null; }
      assert alphaMap != None ==> AlphaMap(alphaMap) == alphaMap.value;
      ac := new Automaton.Alloc(patterns, AlphaMap(alphaMap), AlphaSize(alphaSize));
      ac.Fill(patterns, MaxStates(MapPatterns(AlphaMap(alphaMap), patterns)), okGo, okOut, okList, okNext);
      StateCount(ac.trie, ac.pats, ac.alphaSize);
    }

    /** The three phases of building, on freshly allocated tables. */
    method Fill(patterns: seq<seq<byte>>, maxStates: nat, okGo: bool, okOut: bool, okList: bool, okNext: bool)
      requires TrieTables([], []) && |trie.words| == 1
      requires pats == MapPatterns(alphaMap, patterns) && rows == MaxStates(pats) == maxStates
      modifies this, goTable, output, outputList, outputNext
      ensures Valid()
      ensures goTable == old(goTable) || fresh(goTable)
      ensures output == old(output) || fresh(output)
      ensures outputList == old(outputList) || fresh(outputList)
      ensures outputNext == old(outputNext) || fresh(outputNext)
    {
      hide Cell, Size, Shape, Edges, OwnIds, LastId, Members, FullEdge, RawEdge, FinalMask, Complete;
      var n := InsertPatterns(patterns);
      CloseRoot(n);
      BuildFailure(n);
      SetNumStates(n);
      Shrink(n, maxStates, okGo, okOut, okList, okNext);
    }

    method SetNumStates(n: nat)
      requires Complete() && n == |trie.words|
      modifies this`numStates
      ensures Valid()
    {
      hide Cell, Size, Shape, FullEdge, FinalMask, LastId, Members;
      numStates := n;
    }

    // ---- scanning ----

    /** `cbm_ac_scan_bitmask`: one table lookup per byte. */
    method ScanBitmask(text: seq<byte>) returns (result: bv64)
      requires Valid()
      ensures Members(result) == Seen(pats, MapWord(alphaMap, text))
      ensures forall p: nat :: p in Members(result) <==>
                p < |pats| && p < MAX_BITMASK && Matches(pats, MapWord(alphaMap, text), p)
    {
      assert |alphaMap| == 256;
      hide Valid, Members, LongestSuffix, Outputs, Matches;
      ghost var t := MapWord(alphaMap, text);
      result := 0;
      var state := 0;
      var i := 0;
      LowMember(0);
      RootState();
      assert Seen(pats, []) == {};
      hide Seen;
      assert t[..0] == [];
      while i < |text|
        invariant 0 <= i <= |text| && 0 <= state < numStates
        invariant trie.words[state] == LongestSuffix(pats, t[..i])
        invariant Members(result) == Seen(pats, t[..i])
      {
        state := Step(state, text[i], t, i);
        var mask := GetOutput(state);
        SeenStep(pats, t, i);
        result := Merge(result, mask);
        i := i + 1;
      }
      assert t[..i] == t;
      SeenIsSearchSet(pats, t);
    }

    /** One scanner step keeps the longest-suffix invariant. */
    method Step(state: nat, b: byte, ghost t: Word, ghost i: nat) returns (next: nat)
      requires Valid() && state < numStates
      requires i < |t| && t[i] == alphaMap[b] && trie.words[state] == LongestSuffix(pats, t[..i])
      ensures next < numStates == |trie.words| && trie.words[next] == LongestSuffix(pats, t[..i + 1])
    {
      hide Cell, Size, Shape, FullEdge, FinalMask, LastId, Members, LongestSuffix;
      var v := GetEntry(state, alphaMap[b]);
      ScanStep(trie, pats, state, alphaMap[b], v, t, i);
      next := v;
    }

    method GetOutput(s: nat) returns (mask: bv64)
      requires Valid() && s < numStates
      ensures mask == output[s] && Members(mask) == Outputs(pats, trie.words[s])
    {
      hide Cell, Size, FullEdge, LastId, Members, NextLink;
      mask := output[s];
    }

    lemma RootState()
      requires Valid()
      ensures numStates == |trie.words| > 0 && trie.words[0] == LongestSuffix(pats, []) == []
    {
      hide Cell, Size, FinalMask, FullEdge, LastId, Members;
    }

    /** A chain link goes to a shallower state whose ids the current state already reports. */
    method GetNext(s: nat) returns (next: int)
      requires Valid() && s < numStates
      ensures next != NO_STATE ==>
                && 0 <= next < numStates == |trie.words|
                && |trie.words[next]| < |trie.words[s]|
                && Outputs(pats, trie.words[next]) <= Outputs(pats, trie.words[s])
    {
      hide Cell, Size, FullEdge, LastId, Members, Outputs;
      next := outputNext[s];
      if next != NO_STATE {
        assert NextLink(trie, pats, s, outputNext[s]);
        assert InTrie(pats, trie.words[s]);
        OutputsDeep(pats, trie.words[s]);
        LongestSuffixLength(pats, trie.words[s]);
      }
    }

    lemma OnlyRootIsEmpty(s: nat)
      requires Valid() && s < numStates
      ensures numStates == |trie.words| && (trie.words[s] == [] <==> s == 0)
    {
      hide Cell, Size, FullEdge, FinalMask, LastId, Members;
    }
  }
}
