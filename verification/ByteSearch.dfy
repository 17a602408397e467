/** What building and scanning find, in the bytes of the caller: plain substring search, with bytes
    compared through the caller's alphabet map if there is one. */
module ByteSearch {
  import opened Automata
  import opened Bits
  import opened Matching
  import opened PatternWords
  import opened Scanners
  import opened Sequences
  import opened Wrappers

  /** The pattern stands at position `i` of the text, byte by byte. */
  predicate StandsAt(alphaMap: Option<seq<byte>>, pattern: seq<byte>, text: seq<byte>, i: nat)
    requires alphaMap != None ==> |alphaMap.value| == 256
  {
    && i + |pattern| <= |text|
    && match alphaMap
       case None => text[i..i + |pattern|] == pattern
       case Some(m) => forall j :: 0 <= j < |pattern| ==> m[text[i + j]] == m[pattern[j]]
  }

  ghost predicate Stands(alphaMap: Option<seq<byte>>, pattern: seq<byte>, text: seq<byte>)
    requires alphaMap != None ==> |alphaMap.value| == 256
  {
    exists i: nat :: StandsAt(alphaMap, pattern, text, i)
  }

  /** Position `i` of the text begins like no pattern. */
  predicate IdleAt(alphaMap: Option<seq<byte>>, patterns: seq<seq<byte>>, text: seq<byte>, i: nat)
    requires alphaMap != None ==> |alphaMap.value| == 256
  {
    && i < |text|
    && forall p :: 0 <= p < |patterns| && patterns[p] != [] ==>
         match alphaMap
         case None => text[i] != patterns[p][0]
         case Some(m) => m[text[i]] != m[patterns[p][0]]
  }

  /** `m` is the map in force. */
  predicate InForce(alphaMap: Option<seq<byte>>, m: seq<nat>) {
    && |m| == 256
    && match alphaMap
       case None => forall b :: 0 <= b < 256 ==> m[b] == b
       case Some(given) => m == given
  }

  lemma StandsIsOccurs(alphaMap: Option<seq<byte>>, m: seq<nat>, pattern: seq<byte>, text: seq<byte>)
    requires InForce(alphaMap, m)
    ensures Occurs(MapWord(m, pattern), MapWord(m, text)) <==> Stands(alphaMap, pattern, text)
  {
    var u, t := MapWord(m, pattern), MapWord(m, text);
    forall i: nat | i + |pattern| <= |text| ensures OccursAt(u, t, i) <==> StandsAt(alphaMap, pattern, text, i) {
      if OccursAt(u, t, i) {
        forall j | 0 <= j < |pattern| ensures m[text[i + j]] == m[pattern[j]] {
          assert t[i..i + |u|][j] == u[j];
        }
        if alphaMap == None {
          assert text[i..i + |pattern|] == pattern;
        }
      } else {
        assert t[i..i + |u|] != u;
        var j :| 0 <= j < |u| && t[i..i + |u|][j] != u[j];
        assert text[i..i + |pattern|][j] == text[i + j];
      }
    }
    if Occurs(u, t) {
      var i :| OccursAt(u, t, i);
      assert StandsAt(alphaMap, pattern, text, i);
    }
    if i: nat :| StandsAt(alphaMap, pattern, text, i) { assert OccursAt(u, t, i); }
  }

  lemma IdleIsIdle(alphaMap: Option<seq<byte>>, m: seq<nat>, patterns: seq<seq<byte>>, text: seq<byte>)
    requires InForce(alphaMap, m)
    ensures HasIdleSymbol(MapPatterns(m, patterns), MapWord(m, text)) <==>
              exists i: nat :: IdleAt(alphaMap, patterns, text, i)
  {
    var pats, t := MapPatterns(m, patterns), MapWord(m, text);
    forall i: nat | i < |text| ensures InTrie(pats, [t[i]]) <==> !IdleAt(alphaMap, patterns, text, i) {
      if p :| 0 <= p < |pats| && [t[i]] <= pats[p] {
        assert pats[p][0] == m[patterns[p][0]];
      }
      forall p | 0 <= p < |pats| && pats[p] != [] && pats[p][0] == t[i] ensures [t[i]] <= pats[p] {}
      forall p | 0 <= p < |pats| && pats[p] != [] ensures patterns[p] != [] && pats[p][0] == m[patterns[p][0]] {}
    }
    if i :| 0 <= i < |t| && !InTrie(pats, [t[i]]) { assert IdleAt(alphaMap, patterns, text, i); }
  }

  /** `cbm_ac_build` and `cbm_ac_scan_bitmask`. */
  method FindPatterns(patterns: seq<seq<byte>>, alphaMap: Option<seq<byte>>, alphaSize: int,
                      okGo: bool, okOut: bool, okList: bool, okNext: bool, text: seq<byte>) returns (mask: bv64)
    requires patterns != [] && (alphaMap != None ==> |alphaMap.value| == 256)
    requires alphaSize > 0 && alphaMap == None ==> alphaSize >= 256
    requires alphaSize > 0 && alphaMap != None ==> forall b :: 0 <= b < 256 ==> alphaMap.value[b] < alphaSize
    ensures forall p: nat :: p < |patterns| && p < 64 && patterns[p] != [] ==>
              (IsSet(mask, p) <==> Stands(alphaMap, patterns[p], text))
    ensures forall p: nat :: p < |patterns| && p < 64 && patterns[p] == [] ==>
              (IsSet(mask, p) <==> exists i: nat :: IdleAt(alphaMap, patterns, text, i))
    ensures forall p: nat :: |patterns| <= p < 64 ==> !IsSet(mask, p)
  {
    var ac := Automaton.Build(patterns, alphaMap, alphaSize, okGo, okOut, okList, okNext);
    mask := ac.ScanBitmask(text);
    ghost var m := ac.alphaMap;
    hide IsSet, Has;
    forall p: nat | p < 64 ensures IsSet(mask, p) <==> p in Members(mask) { HasIsSet(mask, p); }
    hide Members;
    IdleIsIdle(alphaMap, m, patterns, text);
    forall p: nat | p < |patterns|
      ensures Occurs(ac.pats[p], MapWord(m, text)) <==> Stands(alphaMap, patterns[p], text)
    {
      StandsIsOccurs(alphaMap, m, patterns[p], text);
    }
    hide Occurs, HasIdleSymbol, Stands, IdleAt;
  }

  // ---- many names ----

  /** Non-empty pattern `p` stands in name `n`. */
  ghost predicate InName(alphaMap: Option<seq<byte>>, patterns: seq<seq<byte>>, namesBuf: seq<byte>,
                         offsets: seq<int>, lengths: seq<int>, n: int, p: int)
    requires NamesOk(namesBuf, offsets, lengths) && (alphaMap != None ==> |alphaMap.value| == 256)
  {
    && 0 <= n < |offsets| && 0 <= p < |patterns| && patterns[p] != [] && lengths[n] > 0
    && Stands(alphaMap, patterns[p], namesBuf[offsets[n]..offsets[n] + lengths[n]])
  }

  /** `cbm_ac_build` and `cbm_ac_scan_batch`: the pairs listed are matches, none is listed twice,
      names come in order, and if the buffer is not full every match is there. */
  method FindInNames(patterns: seq<seq<byte>>, alphaMap: Option<seq<byte>>, alphaSize: int,
                     okGo: bool, okOut: bool, okList: bool, okNext: bool,
                     namesBuf: seq<byte>, offsets: seq<int>, lengths: seq<int>,
                     out: array<MatchResult>, maxMatches: int) returns (total: nat)
    requires patterns != [] && (alphaMap != None ==> |alphaMap.value| == 256)
    requires alphaSize > 0 && alphaMap == None ==> alphaSize >= 256
    requires alphaSize > 0 && alphaMap != None ==> forall b :: 0 <= b < 256 ==> alphaMap.value[b] < alphaSize
    requires NamesOk(namesBuf, offsets, lengths) && maxMatches <= out.Length
    modifies out
    ensures total <= out.Length && (total > 0 ==> total <= maxMatches)
    ensures forall k :: 0 <= k < total ==> IsMatch(alphaMap, patterns, namesBuf, offsets, lengths, out[k])
    ensures forall k, l :: 0 <= k < l < total ==> out[k] != out[l] && out[k].0 <= out[l].0
    ensures total < maxMatches ==>
              forall n, p :: p < 64 && InName(alphaMap, patterns, namesBuf, offsets, lengths, n, p) ==>
                (n, p) in out[..total]
  {
    var ac := Automaton.Build(patterns, alphaMap, alphaSize, okGo, okOut, okList, okNext);
    total := ScanBatch(ac, namesBuf, offsets, lengths, out, maxMatches);
    var cap: nat := if maxMatches < 0 then 0 else maxMatches;
    PairsInBytes(alphaMap, ac.alphaMap, patterns, namesBuf, offsets, lengths, cap);
    hide *;
    hide Take;
    assert forall k :: 0 <= k < total ==> out[..total][k] == out[k];
  }

  /** What the specified output of the batch scanner, cut at any length, says about the bytes. */
  lemma PairsInBytes(alphaMap: Option<seq<byte>>, m: seq<nat>, patterns: seq<seq<byte>>, namesBuf: seq<byte>,
                     offsets: seq<int>, lengths: seq<int>, cap: nat)
    requires InForce(alphaMap, m) && NamesOk(namesBuf, offsets, lengths)
    ensures var pairs := Take(Batch(MapPatterns(m, patterns), NameWords(m, namesBuf, offsets, lengths)), cap);
            && |pairs| <= cap
            && (forall k :: 0 <= k < |pairs| ==>
                  IsMatch(alphaMap, patterns, namesBuf, offsets, lengths, pairs[k]))
            && (forall k, l :: 0 <= k < l < |pairs| ==> pairs[k] != pairs[l] && pairs[k].0 <= pairs[l].0)
            && (|pairs| < cap ==>
                  forall n, p :: p < 64 && InName(alphaMap, patterns, namesBuf, offsets, lengths, n, p) ==>
                    (n, p) in pairs)
  {
    var pats, texts := MapPatterns(m, patterns), NameWords(m, namesBuf, offsets, lengths);
    var all := Batch(pats, texts);
    BatchContents(pats, texts);
    forall x | x in all ensures IsMatch(alphaMap, patterns, namesBuf, offsets, lengths, x) {
      PairInBytes(alphaMap, m, patterns, namesBuf, offsets, lengths, x);
    }
    forall n, p | p < 64 && InName(alphaMap, patterns, namesBuf, offsets, lengths, n, p) ensures (n, p) in all {
      PairInBytes(alphaMap, m, patterns, namesBuf, offsets, lengths, (n, p));
    }
    hide *;
    hide Batch;
    assert forall k :: 0 <= k < |all| ==> all[k] in all;
  }

  lemma PairInBytes(alphaMap: Option<seq<byte>>, m: seq<nat>, patterns: seq<seq<byte>>, namesBuf: seq<byte>,
                    offsets: seq<int>, lengths: seq<int>, x: (nat, nat))
    requires InForce(alphaMap, m) && NamesOk(namesBuf, offsets, lengths)
    ensures var listed := x in Batch(MapPatterns(m, patterns), NameWords(m, namesBuf, offsets, lengths));
            && (listed ==> IsMatch(alphaMap, patterns, namesBuf, offsets, lengths, x))
            && (x.1 < 64 && InName(alphaMap, patterns, namesBuf, offsets, lengths, x.0, x.1) ==> listed)
  {
    var pats, texts := MapPatterns(m, patterns), NameWords(m, namesBuf, offsets, lengths);
    var n, p := x.0, x.1;
    hide Batch, Occurs, BatchSeen, Seen, InName;
    BatchContents(pats, texts);
    if n < |offsets| {
      BatchSeenAgrees(pats, texts[n]);
      SeenBound(pats, texts[n]);
      if p < |patterns| && patterns[p] != [] {
        BatchIsSearch(pats, texts, n, p);
        NameIsSearched(alphaMap, m, patterns, namesBuf, offsets, lengths, n, p);
      }
    }
    InNameInRange(alphaMap, patterns, namesBuf, offsets, lengths, n, p);
  }

  lemma InNameInRange(alphaMap: Option<seq<byte>>, patterns: seq<seq<byte>>, namesBuf: seq<byte>,
                      offsets: seq<int>, lengths: seq<int>, n: nat, p: nat)
    requires NamesOk(namesBuf, offsets, lengths) && (alphaMap != None ==> |alphaMap.value| == 256)
    ensures InName(alphaMap, patterns, namesBuf, offsets, lengths, n, p) ==>
              n < |offsets| && p < |patterns| && patterns[p] != []
  {}

  /** A pair in range, and a match unless its pattern is empty. */
  ghost predicate IsMatch(alphaMap: Option<seq<byte>>, patterns: seq<seq<byte>>, namesBuf: seq<byte>,
                          offsets: seq<int>, lengths: seq<int>, x: (nat, nat))
    requires NamesOk(namesBuf, offsets, lengths) && (alphaMap != None ==> |alphaMap.value| == 256)
  {
    && x.0 < |offsets| && x.1 < |patterns| && x.1 < 64
    && (patterns[x.1] != [] ==> InName(alphaMap, patterns, namesBuf, offsets, lengths, x.0, x.1))
  }

  lemma NameIsSearched(alphaMap: Option<seq<byte>>, m: seq<nat>, patterns: seq<seq<byte>>, namesBuf: seq<byte>,
                       offsets: seq<int>, lengths: seq<int>, n: nat, p: nat)
    requires InForce(alphaMap, m) && NamesOk(namesBuf, offsets, lengths)
    requires n < |offsets| && p < |patterns| && patterns[p] != []
    ensures Occurs(MapPatterns(m, patterns)[p], NameWords(m, namesBuf, offsets, lengths)[n]) <==>
              InName(alphaMap, patterns, namesBuf, offsets, lengths, n, p)
  {
    var text := NameText(namesBuf, offsets[n], lengths[n]);
    StandsIsOccurs(alphaMap, m, patterns[p], text);
  }

  // ---- compressed files ----

  /** Non-empty pattern `p` stands in what the file decompresses to. */
  ghost predicate InFile(alphaMap: Option<seq<byte>>, patterns: seq<seq<byte>>, dec: Decompressor, e: Lz4Entry, p: nat)
    requires alphaMap != None ==> |alphaMap.value| == 256
  {
    && p < |patterns| && patterns[p] != []
    && e.data != None && e.compressedLen > 0 && e.originalLen > 0
    && var text := dec(e.data.value, e.compressedLen, e.originalLen);
       text != None && Stands(alphaMap, patterns[p], text.value)
  }

  lemma FileIsSearched(alphaMap: Option<seq<byte>>, m: seq<nat>, patterns: seq<seq<byte>>, dec: Decompressor,
                       e: Lz4Entry, p: nat)
    requires InForce(alphaMap, m) && p < |patterns| && patterns[p] != []
    ensures p in FileIds(MapPatterns(m, patterns), m, dec, e) <==>
              p < 64 && InFile(alphaMap, patterns, dec, e, p)
  {
    if e.data != None {
      var contents := dec(e.data.value, e.compressedLen, e.originalLen);
      if contents != None {
        SeenIsSearch(MapPatterns(m, patterns), MapWord(m, contents.value), p);
        StandsIsOccurs(alphaMap, m, patterns[p], contents.value);
      }
    }
  }

  /** `cbm_ac_build` and `cbm_ac_scan_lz4_bitmask`. */
  method FindInFile(patterns: seq<seq<byte>>, alphaMap: Option<seq<byte>>, alphaSize: int,
                    okGo: bool, okOut: bool, okList: bool, okNext: bool, dec: Decompressor, e: Lz4Entry)
    returns (mask: bv64)
    requires patterns != [] && (alphaMap != None ==> |alphaMap.value| == 256)
    requires alphaSize > 0 && alphaMap == None ==> alphaSize >= 256
    requires alphaSize > 0 && alphaMap != None ==> forall b :: 0 <= b < 256 ==> alphaMap.value[b] < alphaSize
    ensures forall p: nat :: p < |patterns| && p < 64 && patterns[p] != [] ==>
              (IsSet(mask, p) <==> InFile(alphaMap, patterns, dec, e, p))
  {
    var ac := Automaton.Build(patterns, alphaMap, alphaSize, okGo, okOut, okList, okNext);
    mask := ScanLz4Bitmask(ac, dec, e);
    ghost var m := ac.alphaMap;
    hide *;
    hide IsSet, Members, InFile;
    forall p: nat | p < |patterns| && p < 64 && patterns[p] != []
      ensures IsSet(mask, p) <==> InFile(alphaMap, patterns, dec, e, p)
    {
      SetIsMember(mask, p);
      InForceIs(alphaMap, m);
      FileIsSearched(alphaMap, m, patterns, dec, e, p);
    }
  }

  lemma SetIsMember(mask: bv64, p: nat)
    requires p < 64
    ensures IsSet(mask, p) <==> p in Members(mask)
  {
    HasIsSet(mask, p);
  }

  lemma InForceIs(alphaMap: Option<seq<byte>>, m: seq<nat>)
    requires |m| == 256 && (alphaMap != None ==> m == alphaMap.value)
    requires alphaMap == None ==> forall b :: 0 <= b < 256 ==> m[b] == b
    ensures InForce(alphaMap, m)
  {}

  /** The record of a file holds exactly the patterns that stand in it, but for empty ones. */
  ghost predicate IsRecord(alphaMap: Option<seq<byte>>, patterns: seq<seq<byte>>, dec: Decompressor,
                           entries: seq<Lz4Entry>, r: (nat, bv64))
    requires alphaMap != None ==> |alphaMap.value| == 256
  {
    && r.0 < |entries|
    && forall p: nat :: p < |patterns| && p < 64 && patterns[p] != [] ==>
         (IsSet(r.1, p) <==> InFile(alphaMap, patterns, dec, entries[r.0], p))
  }

  /** `cbm_ac_build` and `cbm_ac_scan_lz4_batch`: each record is right, files come in order, and if the
      buffer is not full every file with a match has its record. */
  method FindInFiles(patterns: seq<seq<byte>>, alphaMap: Option<seq<byte>>, alphaSize: int,
                     okGo: bool, okOut: bool, okList: bool, okNext: bool, dec: Decompressor,
                     entries: seq<Lz4Entry>, out: array<(nat, bv64)>, maxMatches: int) returns (total: nat)
    requires patterns != [] && (alphaMap != None ==> |alphaMap.value| == 256)
    requires alphaSize > 0 && alphaMap == None ==> alphaSize >= 256
    requires alphaSize > 0 && alphaMap != None ==> forall b :: 0 <= b < 256 ==> alphaMap.value[b] < alphaSize
    requires maxMatches <= out.Length
    modifies out
    ensures total <= out.Length && (total > 0 ==> total <= maxMatches)
    ensures forall k :: 0 <= k < total ==> IsRecord(alphaMap, patterns, dec, entries, out[k])
    ensures forall k, l :: 0 <= k < l < total ==> out[k].0 < out[l].0
    ensures total < maxMatches ==>
              forall f: nat, p: nat :: f < |entries| && p < 64 && InFile(alphaMap, patterns, dec, entries[f], p) ==>
                exists k :: 0 <= k < total && out[k].0 == f
  {
    var ac := Automaton.Build(patterns, alphaMap, alphaSize, okGo, okOut, okList, okNext);
    total := ScanLz4Batch(ac, dec, entries, out, maxMatches);
    var cap: nat := if maxMatches < 0 then 0 else maxMatches;
    InForceIs(alphaMap, ac.alphaMap);
    RecordsInBytes(alphaMap, ac.alphaMap, patterns, dec, entries, out[..total], cap);
    hide *;
    assert forall k :: 0 <= k < total ==> out[..total][k] == out[k];
  }

  lemma {:induction false} RecordsInBytes(alphaMap: Option<seq<byte>>, m: seq<nat>, patterns: seq<seq<byte>>,
                                          dec: Decompressor, entries: seq<Lz4Entry>, recs: seq<(nat, bv64)>, cap: nat)
    requires InForce(alphaMap, m)
    requires Records(recs) == Take(FileMatches(MapPatterns(m, patterns), m, dec, entries), cap)
    ensures |recs| <= cap
    ensures forall k :: 0 <= k < |recs| ==> IsRecord(alphaMap, patterns, dec, entries, recs[k])
    ensures forall k, l :: 0 <= k < l < |recs| ==> recs[k].0 < recs[l].0
    ensures |recs| < cap ==>
              forall f: nat, p: nat :: f < |entries| && p < 64 && InFile(alphaMap, patterns, dec, entries[f], p) ==>
                exists k :: 0 <= k < |recs| && recs[k].0 == f
  {
    var pats := MapPatterns(m, patterns);
    var all := FileMatches(pats, m, dec, entries);
    FileMatchesContents(pats, m, dec, entries);
    hide FileMatches, FileIds, Members, InFile, IsRecord;
    RecordsAre(recs, all, cap);
    forall k | 0 <= k < |recs| ensures IsRecord(alphaMap, patterns, dec, entries, recs[k]) {
      RecordIsRight(alphaMap, m, patterns, dec, entries, recs[k]);
    }
    if |recs| < cap {
      forall f: nat, p: nat | f < |entries| && p < 64 && InFile(alphaMap, patterns, dec, entries[f], p)
        ensures exists k :: 0 <= k < |recs| && recs[k].0 == f
      {
        FileHasIds(alphaMap, m, patterns, dec, entries[f], p);
        var k :| 0 <= k < |all| && all[k] == (f, FileIds(pats, m, dec, entries[f]));
        assert recs[k].0 == f;
      }
    }
  }

  lemma RecordsAre(recs: seq<(nat, bv64)>, all: seq<(nat, set<nat>)>, cap: nat)
    requires Records(recs) == Take(all, cap)
    ensures |recs| <= cap && |recs| <= |all| && (|recs| < cap ==> |recs| == |all|)
    ensures forall k :: 0 <= k < |recs| ==> recs[k].0 == all[k].0 && Members(recs[k].1) == all[k].1
  {
    hide Members;
    forall k | 0 <= k < |recs| ensures recs[k].0 == all[k].0 && Members(recs[k].1) == all[k].1 {
      assert Records(recs)[k] == all[k];
    }
  }

  lemma RecordIsRight(alphaMap: Option<seq<byte>>, m: seq<nat>, patterns: seq<seq<byte>>, dec: Decompressor,
                      entries: seq<Lz4Entry>, r: (nat, bv64))
    requires InForce(alphaMap, m) && r.0 < |entries|
    requires Members(r.1) == FileIds(MapPatterns(m, patterns), m, dec, entries[r.0])
    ensures IsRecord(alphaMap, patterns, dec, entries, r)
  {
    hide FileIds, Members, IsSet, InFile;
    forall p: nat | p < |patterns| && p < 64 && patterns[p] != []
      ensures IsSet(r.1, p) <==> InFile(alphaMap, patterns, dec, entries[r.0], p)
    {
      SetIsMember(r.1, p);
      FileIsSearched(alphaMap, m, patterns, dec, entries[r.0], p);
    }
  }

  lemma FileHasIds(alphaMap: Option<seq<byte>>, m: seq<nat>, patterns: seq<seq<byte>>, dec: Decompressor,
                   e: Lz4Entry, p: nat)
    requires InForce(alphaMap, m) && p < 64 && InFile(alphaMap, patterns, dec, e, p)
    ensures FileIds(MapPatterns(m, patterns), m, dec, e) != {}
  {
    FileIsSearched(alphaMap, m, patterns, dec, e, p);
    hide FileIds;
  }
}
