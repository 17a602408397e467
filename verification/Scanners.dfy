/** The scanners that run one automaton over many inputs. */
module Scanners {
  import opened Automata
  import opened Bits
  import opened BreadthFirst
  import opened Matching
  import opened PatternWords
  import opened Sequences
  import opened Wrappers

  /** A `CBMMatchResult`: name index and pattern id. */
  type MatchResult = (nat, nat)

  // ---- names ----

  /** The bytes of name `n`; a length of zero or less is an empty name. */
  function NameText(namesBuf: seq<byte>, offset: int, length: int): seq<byte>
    requires length > 0 ==> 0 <= offset && offset + length <= |namesBuf|
  {
    if length <= 0 then [] else namesBuf[offset..offset + length]
  }

  predicate NamesOk(namesBuf: seq<byte>, offsets: seq<int>, lengths: seq<int>) {
    && |offsets| == |lengths|
    && forall n :: 0 <= n < |lengths| && lengths[n] > 0 ==> 0 <= offsets[n] && offsets[n] + lengths[n] <= |namesBuf|
  }

  function NameWords(alphaMap: seq<nat>, namesBuf: seq<byte>, offsets: seq<int>, lengths: seq<int>): seq<Word>
    requires |alphaMap| == 256 && NamesOk(namesBuf, offsets, lengths)
  {
    seq(|offsets|, n requires 0 <= n < |offsets| =>
      MapWord(alphaMap, NameText(namesBuf, offsets[n], lengths[n])))
  }

  /** Emit the ids of a mask in ascending order until it is empty or the buffer is full. */
  method DrainMask(n: nat, mask: bv64, seen0: bv64, out: array<MatchResult>, start: nat, cap: nat)
    returns (total: nat, seen: bv64)
    requires start <= cap <= out.Length && (forall p :: p in Members(mask) ==> p < 64)
    modifies out
    ensures start <= total <= cap
    ensures out[..total] == Take(old(out[..start]) + Drain(n, Members(mask)), cap)
    ensures total < cap ==> Members(seen) == Members(seen0) + Members(mask)
  {
    hide Members, Has, Take;
    total, seen := start, seen0;
    var bits := mask;
    ghost var full := out[..start] + Drain(n, Members(mask));
    while bits != 0 && total < cap
      invariant start <= total <= cap && Members(bits) <= Members(mask)
      invariant full == out[..total] + Drain(n, Members(bits))
      invariant Members(seen) + Members(bits) == Members(seen0) + Members(mask)
      decreases Members(bits)
    {
      ghost var before, rest := out[..total], Members(bits);
      var pid;
      pid, bits := PopLowest(bits);
      DrainStep(n, rest, pid);
      out[total] := (n, pid);
      total := total + 1;
      assert out[..total] == before + [(n, pid)];
      seen := AddBit(seen, pid);
    }
    TakeFull(out[..total], Drain(n, Members(bits)), cap);
    if bits == 0 {
      LowMember(bits);
      assert full == out[..total];
    }
  }

  lemma DrainStep(n: nat, s: set<nat>, m: nat)
    requires m in s && forall x :: x in s ==> m <= x
    ensures Drain(n, s) == [(n, m)] + Drain(n, s - {m})
  {
    assert Least(s) == m;
  }

  /** `out` shares no storage with the automaton. */
  ghost predicate Apart(ac: Automaton, out: array<MatchResult>)
    reads ac
  {
    (out as object) !in {ac.goTable as object, ac.output, ac.outputList, ac.outputNext}
  }

  /** The ids of the current state that were not seen before. */
  method NewIds(ac: Automaton, s: nat, seen: bv64) returns (bits: bv64)
    requires ac.Valid() && s < ac.numStates == |ac.trie.words|
    ensures Members(bits) == Outputs(ac.pats, ac.trie.words[s]) - Members(seen)
  {
    var mask := ac.GetOutput(s);
    bits := Remove(mask, seen);
  }

  /** The walk over `output_next` from one state. Only its first stop can find anything new. */
  method WalkChain(ac: Automaton, n: nat, state: nat, seen0: bv64, out: array<MatchResult>, start: nat, cap: nat)
    returns (total: nat, seen: bv64)
    requires ac.Valid() && Apart(ac, out) && state < ac.numStates == |ac.trie.words|
    requires start <= cap <= out.Length
    modifies out
    ensures start <= total <= cap
    ensures var found := BatchOutputs(ac.pats, ac.trie.words[state]);
            && out[..total] == Take(old(out[..start]) + Drain(n, found - Members(seen0)), cap)
            && (total < cap ==> Members(seen) == Members(seen0) + found)
  {
    hide ac.Valid, Members, Outputs, Drain, Take;
    total, seen := start, seen0;
    var s: nat := state;
    ac.OnlyRootIsEmpty(state);
    ghost var found := BatchOutputs(ac.pats, ac.trie.words[state]);
    ghost var full := out[..start] + Drain(n, found - Members(seen0));
    TakeFull(out[..start], Drain(n, found - Members(seen0)), cap);
    if state == 0 {
      assert found - Members(seen0) == {};
      TakeNothing(n, out[..start], cap);
    }
    ghost var first := true;
    while s > 0 && total < cap
      invariant ac.Valid() && start <= total <= cap && s < ac.numStates == |ac.trie.words|
      invariant first ==> s == state && total == start && seen == seen0 && out[..start] == old(out[..start])
      invariant !first ==> out[..total] == Take(full, cap)
      invariant !first && total < cap ==> Members(seen) == Members(seen0) + found
      invariant !first ==> Outputs(ac.pats, ac.trie.words[s]) <= found
      decreases |ac.trie.words[s]|
    {
      var bits := NewIds(ac, s, seen);
      IdsBelow64(ac.pats, ac.trie.words[s]);
      if !first {
        assert Members(bits) == {};
        TakeNothing(n, out[..total], cap);
      }
      total, seen := DrainMask(n, bits, seen, out, total, cap);
      first := false;
      var next := ac.GetNext(s);
      if next == NO_STATE || next == s { break; }
      s := next;
    }
  }

  lemma TakeNothing(n: nat, a: seq<MatchResult>, cap: nat)
    requires |a| <= cap
    ensures Take(a + Drain(n, {}), cap) == a
  {
    assert a + Drain(n, {}) == a;
  }

  lemma IdsBelow64(pats: seq<Word>, w: Word)
    ensures forall p :: p in Outputs(pats, w) ==> p < 64
  {}

  /** One name: its pairs in order of first meeting, as far as the buffer reaches. */
  method ScanName(ac: Automaton, n: nat, text: seq<byte>, out: array<MatchResult>, start: nat, cap: nat)
    returns (total: nat)
    requires ac.Valid() && Apart(ac, out) && start <= cap <= out.Length
    requires |ac.alphaMap| == 256
    modifies out
    ensures start <= total <= cap
    ensures out[..total] == Take(old(out[..start]) + Emitted(ac.pats, n, MapWord(ac.alphaMap, text)), cap)
  {
    hide ac.Valid, Members, Drain, Take, LongestSuffix, BatchOutputs, Emitted, BatchSeen;
    ghost var t := MapWord(ac.alphaMap, text);
    ghost var before := out[..start];
    total := start;
    var state: nat := 0;
    var seen: bv64 := 0;
    ac.RootState();
    LowMember(0);
    EmittedStart(ac.pats, n, t);
    TakeFull(before, [], cap);
    assert before + [] == before;
    var i := 0;
    while i < |text|
      invariant 0 <= i <= |text| && ac.Valid() && state < ac.numStates == |ac.trie.words|
      invariant ac.trie.words[state] == LongestSuffix(ac.pats, t[..i])
      invariant start <= total <= cap
      invariant out[..total] == Take(before + Emitted(ac.pats, n, t[..i]), cap)
      invariant total < cap ==> Members(seen) == BatchSeen(ac.pats, t[..i])
    {
      state := ac.Step(state, text[i], t, i);
      EmittedStep(ac.pats, n, t, i, before, cap);
      total, seen := WalkChain(ac, n, state, seen, out, total, cap);
      i := i + 1;
    }
    assert t[..i] == t;
  }

  lemma EmittedStart(pats: seq<Word>, n: nat, t: Word)
    ensures Emitted(pats, n, t[..0]) == [] && BatchSeen(pats, t[..0]) == {}
  {}

  /** One more symbol adds its new ids, unless the buffer is already full. */
  lemma EmittedStep(pats: seq<Word>, n: nat, t: Word, i: nat, before: seq<MatchResult>, cap: nat)
    requires i < |t|
    ensures var found := BatchOutputs(pats, LongestSuffix(pats, t[..i + 1]));
            var have, next := before + Emitted(pats, n, t[..i]), before + Emitted(pats, n, t[..i + 1]);
            && BatchSeen(pats, t[..i + 1]) == BatchSeen(pats, t[..i]) + found
            && (|Take(have, cap)| < cap ==>
                  Take(Take(have, cap) + Drain(n, found - BatchSeen(pats, t[..i])), cap) == Take(next, cap))
            && (|Take(have, cap)| >= cap ==> forall more ::
                  Take(Take(have, cap) + more, cap) == Take(have, cap) == Take(next, cap))
  {
    var found := BatchOutputs(pats, LongestSuffix(pats, t[..i + 1]));
    var added := Drain(n, found - BatchSeen(pats, t[..i]));
    var have, next := before + Emitted(pats, n, t[..i]), before + Emitted(pats, n, t[..i + 1]);
    assert t[..i + 1][..i] == t[..i];
    assert next == have + added;
    TakeFull(have, added, cap);
    forall more ensures |have| >= cap ==> Take(Take(have, cap) + more, cap) == Take(have, cap) {
      if |have| >= cap { TakeFull(Take(have, cap), more, cap); }
    }
  }

  /** `cbm_ac_scan_batch`. */
  method ScanBatch(ac: Automaton, namesBuf: seq<byte>, offsets: seq<int>, lengths: seq<int>,
                   out: array<MatchResult>, maxMatches: int) returns (total: nat)
    requires ac.Valid() && Apart(ac, out) && NamesOk(namesBuf, offsets, lengths)
    requires maxMatches <= out.Length && |ac.alphaMap| == 256
    modifies out
    ensures total <= out.Length
    ensures out[..total] ==
              Take(Batch(ac.pats, NameWords(ac.alphaMap, namesBuf, offsets, lengths)),
                    if maxMatches < 0 then 0 else maxMatches)
  {
    hide ac.Valid, Take, Emitted;
    var cap: nat := if maxMatches < 0 then 0 else maxMatches;
    ghost var texts := NameWords(ac.alphaMap, namesBuf, offsets, lengths);
    total := 0;
    var n := 0;
    assert texts[..0] == [];
    TakeFull<MatchResult>([], [], cap);
    while n < |offsets| && total < maxMatches
      invariant 0 <= n <= |offsets| && total <= cap && ac.Valid()
      invariant out[..total] == Take(Batch(ac.pats, texts[..n]), cap)
    {
      assert texts[..n + 1][..n] == texts[..n];
      TakeFull(Batch(ac.pats, texts[..n]), [], cap);
      total := ScanName(ac, n, NameText(namesBuf, offsets[n], lengths[n]), out, total, cap);
      n := n + 1;
    }
    ghost var done, all := Batch(ac.pats, texts[..n]), Batch(ac.pats, texts);
    BatchExtends(ac.pats, texts, n);
    assert all == done + all[|done|..];
    TakeFull(done, all[|done|..], cap);
    assert texts[..|texts|] == texts;
  }

  lemma PrefixOfConcat<T>(a: seq<T>, b: seq<T>, c: seq<T>)
    requires a <= b
    ensures a <= b + c
  {}

  lemma {:induction false} BatchExtends(pats: seq<Word>, texts: seq<Word>, n: nat)
    requires n <= |texts|
    ensures Batch(pats, texts[..n]) <= Batch(pats, texts)
  {
    hide Emitted;
    if n < |texts| {
      var m := |texts| - 1;
      BatchExtends(pats, texts[..m], n);
      assert texts[..m][..n] == texts[..n];
      PrefixOfConcat(Batch(pats, texts[..n]), Batch(pats, texts[..m]), Emitted(pats, m, texts[m]));
    } else {
      assert texts[..n] == texts;
    }
  }

  // ---- compressed files ----

  datatype Lz4Entry = Lz4Entry(data: Option<seq<byte>>, compressedLen: int, originalLen: int)

  /** Decompression is foreign code: any function from input and sizes to bytes or failure. */
  type Decompressor = (seq<byte>, int, int) -> Option<seq<byte>>

  function Decompressed(dec: Decompressor, e: Lz4Entry): Option<seq<byte>> {
    if e.data == None || e.compressedLen <= 0 || e.originalLen <= 0 then None
    else dec(e.data.value, e.compressedLen, e.originalLen)
  }

  /** The ids of one file: those of its contents, none when there are no contents. */
  ghost function FileIds(pats: seq<Word>, alphaMap: seq<nat>, dec: Decompressor, e: Lz4Entry): set<nat>
    requires |alphaMap| == 256
  {
    match Decompressed(dec, e)
    case Some(text) => Seen(pats, MapWord(alphaMap, text))
    case None => {}
  }

  /** `cbm_ac_scan_lz4_bitmask`. */
  method ScanLz4Bitmask(ac: Automaton?, dec: Decompressor, e: Lz4Entry) returns (result: bv64)
    requires ac != null ==> ac.Valid() && |ac.alphaMap| == 256
    ensures ac == null ==> result == 0
    ensures ac != null ==> Members(result) == FileIds(ac.pats, ac.alphaMap, dec, e)
  {
    result := 0;
    LowMember(0);
    if ac == null || e.data == None || e.compressedLen <= 0 || e.originalLen <= 0 { return; }
    match dec(e.data.value, e.compressedLen, e.originalLen)
    case None => return;
    case Some(text) => result := ac.ScanBitmask(text);
  }

  /** One round of the batch loop. Unlike the single-file scanner it skips empty contents, which
      makes no difference. */
  method ScanEntry(ac: Automaton, dec: Decompressor, e: Lz4Entry) returns (result: bv64)
    requires ac.Valid()
    ensures Members(result) == FileIds(ac.pats, ac.alphaMap, dec, e)
  {
    result := 0;
    LowMember(0);
    if e.data == None || e.compressedLen <= 0 || e.originalLen <= 0 { return; }
    var text := dec(e.data.value, e.compressedLen, e.originalLen);
    if text == None || text.value == [] { return; }
    result := ac.ScanBitmask(text.value);
  }

  /** The files with matches, in order, with what each single-file scan finds. */
  ghost function FileMatches(pats: seq<Word>, alphaMap: seq<nat>, dec: Decompressor,
                             entries: seq<Lz4Entry>): seq<(nat, set<nat>)>
    requires |alphaMap| == 256
  {
    if entries == [] then []
    else
      var n := |entries| - 1;
      var ids := FileIds(pats, alphaMap, dec, entries[n]);
      FileMatches(pats, alphaMap, dec, entries[..n]) + if ids == {} then [] else [(n, ids)]
  }

  /** A file is listed once, with what its scan finds, if that is anything; files come in order. */
  lemma {:induction false} FileMatchesContents(pats: seq<Word>, alphaMap: seq<nat>, dec: Decompressor,
                                               entries: seq<Lz4Entry>)
    requires |alphaMap| == 256
    ensures var all := FileMatches(pats, alphaMap, dec, entries);
            && (forall k :: 0 <= k < |all| ==>
                  all[k].0 < |entries| && all[k].1 == FileIds(pats, alphaMap, dec, entries[all[k].0]) != {})
            && (forall f :: 0 <= f < |entries| && FileIds(pats, alphaMap, dec, entries[f]) != {} ==>
                  (f, FileIds(pats, alphaMap, dec, entries[f])) in all)
            && (forall k, l :: 0 <= k < l < |all| ==> all[k].0 < all[l].0)
  {
    hide FileIds;
    if entries != [] {
      var n := |entries| - 1;
      FileMatchesContents(pats, alphaMap, dec, entries[..n]);
      assert forall f :: 0 <= f < n ==> entries[..n][f] == entries[f];
    }
  }

  /** The records of a result buffer, masks read as sets. */
  ghost function Records(s: seq<(nat, bv64)>): seq<(nat, set<nat>)> {
    seq(|s|, i requires 0 <= i < |s| => (s[i].0, Members(s[i].1)))
  }

  /** `cbm_ac_scan_lz4_batch`: the first `maxMatches` non-empty single-file scans. */
  method ScanLz4Batch(ac: Automaton?, dec: Decompressor, entries: seq<Lz4Entry>, out: array<(nat, bv64)>,
                      maxMatches: int)
    returns (total: nat)
    requires ac != null ==> ac.Valid() && |ac.alphaMap| == 256
    requires ac != null ==> (out as object) !in {ac.goTable as object, ac.output, ac.outputList, ac.outputNext}
    requires maxMatches <= out.Length
    modifies out
    ensures total <= out.Length
    ensures ac == null ==> total == 0
    ensures ac != null ==>
              Records(out[..total]) ==
                Take(FileMatches(ac.pats, ac.alphaMap, dec, entries), if maxMatches < 0 then 0 else maxMatches)
  {
    total := 0;
    if ac != null {
      total := ScanFiles(ac, dec, entries, out, maxMatches);
    }
  }

  method ScanFiles(ac: Automaton, dec: Decompressor, entries: seq<Lz4Entry>, out: array<(nat, bv64)>, maxMatches: int)
    returns (total: nat)
    requires ac.Valid() && |ac.alphaMap| == 256
    requires (out as object) !in {ac.goTable as object, ac.output, ac.outputList, ac.outputNext}
    requires maxMatches <= out.Length
    modifies out
    ensures total <= out.Length
    ensures Records(out[..total]) ==
              Take(FileMatches(ac.pats, ac.alphaMap, dec, entries), if maxMatches < 0 then 0 else maxMatches)
  {
    hide ac.Valid, Members, Take, FileIds, FileMatches, Records;
    total := 0;
    var cap: nat := if maxMatches < 0 then 0 else maxMatches;
    ghost var pats, alphaMap := ac.pats, ac.alphaMap;
    var i := 0;
    FilesStart(pats, alphaMap, dec, entries, cap);
    assert out[..0] == [];
    while i < |entries| && total < maxMatches
      invariant 0 <= i <= |entries| && total <= cap && ac.Valid()
      invariant Records(out[..total]) == Take(FileMatches(pats, alphaMap, dec, entries[..i]), cap)
    {
      ghost var before := out[..total];
      var result := ScanEntry(ac, dec, entries[i]);
      LowMember(result);
      FilesStep(pats, alphaMap, dec, entries, i, before, result, cap);
      if result != 0 {
        out[total] := (i, result);
        total := total + 1;
        assert out[..total] == before + [(i, result)];
      }
      i := i + 1;
    }
    FilesDone(pats, alphaMap, dec, entries, i, out[..total], cap);
  }

  lemma FilesStart(pats: seq<Word>, alphaMap: seq<nat>, dec: Decompressor, entries: seq<Lz4Entry>, cap: nat)
    requires |alphaMap| == 256
    ensures Records([]) == Take(FileMatches(pats, alphaMap, dec, entries[..0]), cap) == []
  {}

  lemma FilesStep(pats: seq<Word>, alphaMap: seq<nat>, dec: Decompressor, entries: seq<Lz4Entry>, i: nat,
                  before: seq<(nat, bv64)>, result: bv64, cap: nat)
    requires |alphaMap| == 256 && i < |entries| && |before| < cap
    requires Records(before) == Take(FileMatches(pats, alphaMap, dec, entries[..i]), cap)
    requires Members(result) == FileIds(pats, alphaMap, dec, entries[i]) && (result == 0 <==> Members(result) == {})
    ensures Records(if result != 0 then before + [(i, result)] else before) ==
              Take(FileMatches(pats, alphaMap, dec, entries[..i + 1]), cap)
  {
    hide Members, FileIds;
    assert entries[..i + 1][..i] == entries[..i];
    assert Records(before + [(i, result)]) == Records(before) + [(i, Members(result))];
  }

  lemma FilesDone(pats: seq<Word>, alphaMap: seq<nat>, dec: Decompressor, entries: seq<Lz4Entry>, i: nat,
                  recs: seq<(nat, bv64)>, cap: nat)
    requires |alphaMap| == 256 && i <= |entries| && (i == |entries| || |recs| >= cap)
    requires Records(recs) == Take(FileMatches(pats, alphaMap, dec, entries[..i]), cap)
    ensures Records(recs) == Take(FileMatches(pats, alphaMap, dec, entries), cap)
  {
    hide Members, FileIds;
    var done, all := FileMatches(pats, alphaMap, dec, entries[..i]), FileMatches(pats, alphaMap, dec, entries);
    FileMatchesExtend(pats, alphaMap, dec, entries, i);
    assert all == done + all[|done|..];
    TakeFull(done, all[|done|..], cap);
    assert entries[..|entries|] == entries;
  }

  lemma {:induction false} FileMatchesExtend(pats: seq<Word>, alphaMap: seq<nat>, dec: Decompressor,
                                             entries: seq<Lz4Entry>, n: nat)
    requires |alphaMap| == 256 && n <= |entries|
    ensures FileMatches(pats, alphaMap, dec, entries[..n]) <= FileMatches(pats, alphaMap, dec, entries)
  {
    hide FileIds;
    if n < |entries| {
      var m := |entries| - 1;
      FileMatchesExtend(pats, alphaMap, dec, entries[..m], n);
      assert entries[..m][..n] == entries[..n];
    } else {
      assert entries[..n] == entries;
    }
  }
}
