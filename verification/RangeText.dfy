/** `cbm_error_ranges_str`: regions printed as "start-end,start-end,..." into a fixed-stride buffer. */
module RangeText {
  import opened Coverage
  import opened Intervals
  import opened Sequences
  import opened Wrappers

  // ---- decimal numbers ----

  function Digit(d: nat): char
    requires d < 10
  {
    "0123456789"[d]
  }

  predicate IsDigit(c: char) {
    '0' <= c <= '9'
  }

  /** `%u`. */
  function Decimal(n: nat): string {
    if n < 10 then [Digit(n)] else Decimal(n / 10) + [Digit(n % 10)]
  }

  function DigitValue(c: char): nat
    requires IsDigit(c)
  {
    c as nat - '0' as nat
  }

  function Value(ds: string): nat
    requires forall i :: 0 <= i < |ds| ==> IsDigit(ds[i])
  {
    if ds == [] then 0 else 10 * Value(ds[..|ds| - 1]) + DigitValue(ds[|ds| - 1])
  }

  function Pow10(k: nat): nat {
    if k == 0 then 1 else 10 * Pow10(k - 1)
  }

  lemma DigitIsDigit(d: nat)
    requires d < 10
    ensures IsDigit(Digit(d)) && DigitValue(Digit(d)) == d
  {}

  lemma DigitsAppend(ds: string, d: nat)
    requires d < 10 && forall i :: 0 <= i < |ds| ==> IsDigit(ds[i])
    ensures var more := ds + [Digit(d)];
            (forall i :: 0 <= i < |more| ==> IsDigit(more[i])) && Value(more) == 10 * Value(ds) + d
  {
    DigitIsDigit(d);
    assert (ds + [Digit(d)])[..|ds|] == ds;
    hide IsDigit, Digit;
  }

  lemma DecimalStep(n: nat)
    ensures n >= 10 ==> Decimal(n) == Decimal(n / 10) + [Digit(n % 10)] && n == 10 * (n / 10) + n % 10
    ensures n < 10 ==> Decimal(n) == [] + [Digit(n)] && Value([]) == 0
  {}

  lemma {:induction false} DecimalValue(n: nat)
    ensures |Decimal(n)| >= 1
    ensures forall i :: 0 <= i < |Decimal(n)| ==> IsDigit(Decimal(n)[i])
    ensures Value(Decimal(n)) == n
  {
    hide Decimal, Value, Digit, IsDigit;
    DecimalStep(n);
    if n >= 10 {
      var m, d := n / 10, n % 10;
      DecimalValue(m);
      DigitsAppend(Decimal(m), d);
    } else {
      DigitsAppend([], n);
    }
  }

  lemma {:induction false} DecimalLength(n: nat, k: nat)
    requires n < Pow10(k) && k >= 1
    ensures |Decimal(n)| <= k
  {
    if n >= 10 {
      assert k >= 2;
      DecimalLength(n / 10, k - 1);
    }
  }

  lemma U32Length(n: u32)
    ensures |Decimal(n)| <= 10
  {
    assert Pow10(5) == 100_000;
    assert Pow10(10) == 10_000_000_000;
    DecimalLength(n, 10);
  }

  // ---- the printed list ----

  function PrintRange(r: Interval): string {
    Decimal(r.start) + "-" + Decimal(r.end)
  }

  /** The text of a region as the loop writes it: a comma first, except for the first region. */
  function Chunk(rs: seq<Interval>, i: nat): string
    requires i < |rs|
  {
    (if i > 0 then "," else "") + PrintRange(rs[i])
  }

  function Print(rs: seq<Interval>): string {
    if rs == [] then "" else Print(rs[..|rs| - 1]) + Chunk(rs, |rs| - 1)
  }

  // ---- reading it back ----

  function DigitRun(s: string): (k: nat)
    ensures k <= |s| && forall i :: 0 <= i < k ==> IsDigit(s[i])
  {
    if s == [] || !IsDigit(s[0]) then 0 else 1 + DigitRun(s[1..])
  }

  /** A decimal number, a dash, a decimal number; and what follows. */
  function ReadPair(s: string): (r: Option<((nat, nat), string)>)
    ensures r.Some? ==> |r.value.1| < |s|
  {
    var k := DigitRun(s);
    if k == 0 || k == |s| || s[k] != '-' then None
    else
      var rest := s[k + 1..];
      var m := DigitRun(rest);
      if m == 0 then None else Some(((Value(s[..k]), Value(rest[..m])), rest[m..]))
  }

  /** Comma-separated pairs. */
  function Parse(s: string): Option<seq<(nat, nat)>>
    decreases |s|
  {
    match ReadPair(s)
    case None => None
    case Some((pair, tail)) =>
      if tail == [] then Some([pair])
      else if tail[0] != ',' then None
      else
        match Parse(tail[1..])
        case None => None
        case Some(pairs) => Some([pair] + pairs)
  }

  function PairsOf(rs: seq<Interval>): (ps: seq<(nat, nat)>)
    ensures |ps| == |rs| && forall i :: 0 <= i < |rs| ==> ps[i].0 == rs[i].start && ps[i].1 == rs[i].end
  {
    seq(|rs|, i requires 0 <= i < |rs| => (rs[i].start, rs[i].end))
  }

  lemma {:induction false} DigitRunOf(ds: string, tail: string)
    requires forall i :: 0 <= i < |ds| ==> IsDigit(ds[i])
    requires tail != [] ==> !IsDigit(tail[0])
    ensures DigitRun(ds + tail) == |ds|
  {
    if ds == [] {
      assert ds + tail == tail;
    } else {
      DigitRunOf(ds[1..], tail);
      assert (ds + tail)[1..] == ds[1..] + tail;
    }
  }

  lemma Regroup(a: string, b: string, c: string, d: string)
    ensures (a + (b + c)) + d == a + (b + (c + d))
  {}

  lemma PrintStep(rs: seq<Interval>, i: nat)
    requires i < |rs|
    ensures Print(rs[..i + 1]) == Print(rs[..i]) + Chunk(rs, i)
  {
    assert rs[..i + 1][..i] == rs[..i];
  }

  /** The first region is printed first. */
  lemma {:induction false} PrintFirst(rs: seq<Interval>, n: nat)
    requires 1 <= n <= |rs|
    ensures n == 1 ==> Print(rs[..n]) == PrintRange(rs[0])
    ensures n > 1 ==> Print(rs[..n]) == PrintRange(rs[0]) + ("," + Print(rs[1..n]))
    decreases n
  {
    hide Print, PrintRange;
    PrintStep(rs, n - 1);
    if n == 1 {
      PrintEmpty(rs);
    } else {
      PrintFirst(rs, n - 1);
      PrintSuffixStep(rs, n);
      Regroup(PrintRange(rs[0]), ",", Print(rs[1..n - 1]), "," + PrintRange(rs[n - 1]));
    }
  }

  lemma PrintEmpty(rs: seq<Interval>)
    ensures Print(rs[..0]) == "" && Print([]) == ""
  {}

  /** Printing from the second region on, one region at a time. */
  lemma PrintSuffixStep(rs: seq<Interval>, n: nat)
    requires 2 <= n <= |rs|
    ensures n == 2 ==> Print(rs[1..n]) == PrintRange(rs[1])
    ensures n > 2 ==> Print(rs[1..n]) == Print(rs[1..n - 1]) + ("," + PrintRange(rs[n - 1]))
  {
    hide PrintRange;
    var t := rs[1..n];
    assert t[..n - 2] == rs[1..n - 1] && t[n - 2] == rs[n - 1];
    if n == 2 { PrintEmpty(t); }
  }

  ghost predicate Digits(ds: string) {
    ds != [] && forall i :: 0 <= i < |ds| ==> IsDigit(ds[i])
  }

  lemma NotDigit()
    ensures !IsDigit('-') && !IsDigit(',')
  {}

  lemma ReadPairOf(a: string, b: string, tail: string)
    requires Digits(a) && Digits(b) && (tail != [] ==> tail[0] == ',')
    ensures ReadPair((a + "-") + (b + tail)) == Some(((Value(a), Value(b)), tail))
  {
    hide Value, IsDigit, DigitRun;
    var rest := b + tail;
    var s := (a + "-") + rest;
    NotDigit();
    assert s == a + ("-" + rest);
    DigitRunOf(a, "-" + rest);
    DigitRunOf(b, tail);
    assert s[..|a|] == a && s[|a|] == '-' && s[|a| + 1..] == rest;
    assert rest[..|b|] == b && rest[|b|..] == tail;
  }

  lemma PairsFirst(rs: seq<Interval>)
    requires rs != []
    ensures PairsOf(rs) == [(rs[0].start as nat, rs[0].end as nat)] + PairsOf(rs[1..])
  {}

  /** What follows the first region in the printed text. */
  function Tail(rs: seq<Interval>): string
    requires rs != []
  {
    if |rs| == 1 then "" else "," + Print(rs[1..])
  }

  lemma PrintHead(rs: seq<Interval>)
    requires rs != []
    ensures Print(rs) == (Decimal(rs[0].start) + "-") + (Decimal(rs[0].end) + Tail(rs))
  {
    hide Print, Decimal;
    PrintFirst(rs, |rs|);
    assert rs[..|rs|] == rs && rs[1..|rs|] == rs[1..];
    var a, b, t := Decimal(rs[0].start), Decimal(rs[0].end), Tail(rs);
    assert Print(rs) == PrintRange(rs[0]) + t;
    hide PrintRange, Tail;
    Associate(a + "-", b, t);
  }

  lemma ParseOf(s: string, pair: (nat, nat), tail: string)
    requires ReadPair(s) == Some((pair, tail)) && (tail != [] ==> tail[0] == ',')
    ensures tail == [] ==> Parse(s) == Some([pair])
    ensures tail != [] && Parse(tail[1..]).Some? ==> Parse(s) == Some([pair] + Parse(tail[1..]).value)
  {}

  /** Printing loses nothing: the text parses back to the same ranges. */
  lemma {:induction false} ParsePrint(rs: seq<Interval>)
    requires rs != []
    ensures Parse(Print(rs)) == Some(PairsOf(rs))
    decreases |rs|
  {
    hide Print, Parse, Value, Decimal, PairsOf, ReadPair;
    DecimalValue(rs[0].start);
    DecimalValue(rs[0].end);
    PrintHead(rs);
    ReadPairOf(Decimal(rs[0].start), Decimal(rs[0].end), Tail(rs));
    ParseOf(Print(rs), (rs[0].start, rs[0].end), Tail(rs));
    PairsFirst(rs);
    if |rs| > 1 {
      ParsePrint(rs[1..]);
      assert Tail(rs)[1..] == Print(rs[1..]);
    } else {
      assert rs[1..] == [];
      NoPairs();
      assert PairsOf(rs) == [(rs[0].start as nat, rs[0].end as nat)];
    }
  }

  /** What the text looks like. */
  lemma PrintExample()
    ensures Print([Interval(2, 9), Interval(14, 203)]) == "2-9,14-203"
  {
    var a, b := Interval(2, 9), Interval(14, 203);
    PrintTwo(a, b);
    assert Decimal(2) == "2" && Decimal(9) == "9" && Decimal(14) == "14";
    assert Decimal(20) == "20";
    assert Decimal(203) == Decimal(20) + "3";
    hide Decimal, Print;
    assert "2" + "-" + "9" + "," + "14" + "-" + "203" == "2-9,14-203";
  }

  lemma PrintTwo(a: Interval, b: Interval)
    ensures Print([a, b]) ==
              Decimal(a.start) + "-" + Decimal(a.end) + "," + Decimal(b.start) + "-" + Decimal(b.end)
  {
    hide Decimal;
    assert [a, b][..1] == [a] && [a][..0] == [];
    assert Print([a]) == PrintRange(a);
  }

  lemma NoPairs()
    ensures PairsOf([]) == []
  {}

  // ---- the buffer ----

  /** `RANGE_MAX`: the bytes reserved for each region. */
  const RANGE_MAX: nat := 24

  /** `snprintf` at `off` with room for `room` bytes: what fits, a terminator, the full length. */
  method Snprintf(buf: array<char>, off: nat, room: nat, text: string) returns (len: nat)
    requires room >= 1
    requires off + (if |text| < room then |text| else room - 1) < buf.Length
    modifies buf
    ensures len == |text|
    ensures var put := if |text| < room then |text| else room - 1;
            && buf[off..off + put] == text[..put] && buf[off + put] == '\0'
            && buf[..off] == old(buf[..off])
  {
    var put := if |text| < room then |text| else room - 1;
    for i := 0 to put
      invariant buf[off..off + i] == text[..i] && buf[..off] == old(buf[..off])
    {
      buf[off + i] := text[i];
    }
    buf[off + put] := '\0';
    len := |text|;
  }

  lemma {:induction false} PrintLength(rs: seq<Interval>)
    ensures |Print(rs)| <= 22 * |rs|
  {
    if rs != [] {
      PrintLength(rs[..|rs| - 1]);
      ChunkLength(rs, |rs| - 1);
    }
  }

  lemma ChunkLength(rs: seq<Interval>, i: nat)
    requires i < |rs|
    ensures |Chunk(rs, i)| <= 22
  {
    U32Length(rs[i].start);
    U32Length(rs[i].end);
  }

  /** The serialized list; null when there is nothing to report. Every write, terminator
      included, stays inside the buffer, and nothing is truncated. */
  method ErrorRangesStr(regs: Regions) returns (buf: array?<char>)
    requires regs.Valid()
    ensures buf == null <==> regs.View() == []
    ensures buf != null ==>
              var text := Print(regs.View());
              && fresh(buf) && |text| < buf.Length == regs.count * RANGE_MAX
              && buf[..|text|] == text && buf[|text|] == '\0'
  {
    hide Decimal, Print;
    if regs.count == 0 { return null; }
    ghost var rs := regs.View();
    var b := new char[regs.count * RANGE_MAX];
    var off := 0;
    var i := 0;
    PrintEmpty(rs);
    while i < regs.count
      invariant 0 <= i <= regs.count == |rs| && regs.Valid() && rs == regs.View()
      invariant off == |Print(rs[..i])| <= 22 * i
      invariant b[..off] == Print(rs[..i]) && (i > 0 ==> b[off] == '\0')
    {
      PrintStep(rs, i);
      ChunkLength(rs, i);
      var text := (if i > 0 then "," else "") + (Decimal(regs.starts[i]) + "-" + Decimal(regs.ends[i]));
      assert text == Chunk(rs, i);
      ghost var before := b[..off];
      var len := Snprintf(b, off, RANGE_MAX, text);
      assert b[..off] == before && b[off..off + len] == text;
      assert b[..off + len] == before + text;
      hide Chunk;
      off := off + len;
      i := i + 1;
    }
    assert rs[..i] == rs;
    buf := b;
  }

  // ---- the whole pipeline ----

  /** The error regions of a file: the root itself, or the first 64 top-most ones below it. */
  function Collected(root: Node, sourceLen: int): seq<Interval> {
    if !root.hasError then []
    else if root.isError then [Lines(root)]
    else Take(LinesOf(TopMost(root.children, sourceLen)), MAX_ERROR_REGIONS)
  }

  /** What is left after recovery and benign macro calls are taken out. */
  ghost function Reported(root: Node, sourceLen: int, defs: seq<Span>, isMacroCall: Interval -> bool): seq<Interval> {
    Filter(Remaining(Collected(root, sourceLen), defs), NotBenign(defs, isMacroCall))
  }

  /** The parse-coverage signal of one file: the count and the printed ranges. */
  method ParseCoverage(root: Node, sourceLen: int, defs: seq<Span>, isMacroCall: Interval -> bool)
    returns (count: nat, ranges: array?<char>)
    ensures var reported := Reported(root, sourceLen, defs, isMacroCall);
            && count == |reported| && (ranges == null <==> reported == [])
            && (ranges != null ==>
                  && |Print(reported)| < ranges.Length
                  && ranges[..|Print(reported)|] == Print(reported) && ranges[|Print(reported)|] == '\0')
  {
    hide Print, TopMost, LinesOf, InsideCallable;
    count, ranges := 0, null;
    if root.hasError {
      var regs := new Regions();
      if root.isError {
        regs.Push(root);
      } else {
        CollectErrorRegions(root, regs, sourceLen);
        assert [] + LinesOf(TopMost(root.children, sourceLen)) == LinesOf(TopMost(root.children, sourceLen));
      }
      assert regs.View() == Collected(root, sourceLen);
      SubtractRecovered(regs, defs);
      SubtractMacroInvocations(regs, defs, isMacroCall);
      assert regs.View() == Reported(root, sourceLen, defs, isMacroCall);
      count := regs.count;
      ranges := ErrorRangesStr(regs);
    }
  }

  /** Inside a function, method, constructor or destructor of more than one line. */
  ghost predicate InsideBody(r: Interval, defs: seq<Span>) {
    exists d :: d in defs
                && (d.category == Some("Function") || d.category == Some("Method")
                    || d.category == Some("Constructor") || d.category == Some("Destructor"))
                && d.startLine <= r.start && r.end <= d.endLine && d.startLine < d.endLine
  }

  /** The region of a node is reported: it is not recovered, and not a macro call inside a body. */
  ghost predicate Stays(r: Interval, defs: seq<Span>, isMacroCall: Interval -> bool) {
    !IsRecovered(r, defs) && !(isMacroCall(r) && InsideBody(r, defs))
  }

  /** The one-based lines of a node, in 32 bits. */
  ghost predicate LinesAre(r: Interval, n: Node) {
    r.start == (n.startRow + 1) % 0x1_0000_0000 && r.end == (n.endRow + 1) % 0x1_0000_0000
  }

  ghost predicate RegionHasLines(cs: seq<Node>, ps: seq<Path>, k: nat, r: Interval) {
    k < |ps| && IsPath(cs, ps[k]) && LinesAre(r, NodeAt(cs, ps[k]))
  }

  lemma ReportedIs(root: Node, sourceLen: int, defs: seq<Span>, isMacroCall: Interval -> bool)
    ensures Reported(root, sourceLen, defs, isMacroCall) ==
              Filter(Collected(root, sourceLen), StaysFor(defs, isMacroCall))
  {
    hide Collected, IsRecovered;
    FilterTwice(Collected(root, sourceLen), NotRecovered(defs), NotBenign(defs, isMacroCall),
                StaysFor(defs, isMacroCall));
  }

  ghost function StaysFor(defs: seq<Span>, isMacroCall: Interval -> bool): Interval -> bool {
    r => Stays(r, defs, isMacroCall)
  }

  /** A file whose tree has no error reports nothing, and one that is all error at most its root. */
  lemma ReportedRoot(root: Node, sourceLen: int, defs: seq<Span>, isMacroCall: Interval -> bool)
    ensures !root.hasError ==> Reported(root, sourceLen, defs, isMacroCall) == []
    ensures root.hasError && root.isError ==>
              exists r :: LinesAre(r, root) &&
                Reported(root, sourceLen, defs, isMacroCall) == if Stays(r, defs, isMacroCall) then [r] else []
  {
    ReportedIs(root, sourceLen, defs, isMacroCall);
    hide Reported, IsRecovered, InsideBody;
    assert LinesAre(Lines(root), root);
    assert [Lines(root)][..0] == [];
  }

  /** Of any other file: `ps` are the paths of its top-most regions in preorder, and what is reported
      are the lines of those among the first 64 that stay, in that order. */
  lemma ReportedExact(root: Node, sourceLen: int, defs: seq<Span>, isMacroCall: Interval -> bool)
    returns (ps: seq<Path>, ks: seq<nat>)
    requires root.hasError && !root.isError
    ensures forall p :: p in ps <==> RegionAt(root.children, p, sourceLen)
    ensures forall i, j :: 0 <= i < j < |ps| ==> Before(ps[i], ps[j])
    ensures var reported := Reported(root, sourceLen, defs, isMacroCall);
            && |ks| == |reported| && Increasing(ks)
            && (forall j :: 0 <= j < |ks| ==>
                  && ks[j] < 64 && RegionHasLines(root.children, ps, ks[j], reported[j])
                  && Stays(reported[j], defs, isMacroCall))
    ensures forall k, r :: RegionHasLines(root.children, ps, k, r) && k < 64 && Stays(r, defs, isMacroCall) ==> k in ks
  {
    var cs := root.children;
    ps := TopMostExact(cs, sourceLen);
    ReportedIs(root, sourceLen, defs, isMacroCall);
    var all := Collected(root, sourceLen);
    ks := FilterSelects(all, StaysFor(defs, isMacroCall));
    hide Reported, IsRecovered, InsideBody, TopMost, RegionAt, Before, Filter;
    assert forall k :: 0 <= k < |all| ==> k < 64 && k < |ps| && all[k] == Lines(NodeAt(cs, ps[k]));
  }

  /** Every reported range is one of the collected regions and was not recovered. */
  lemma ReportedSound(root: Node, sourceLen: int, defs: seq<Span>, isMacroCall: Interval -> bool)
    ensures forall r :: r in Reported(root, sourceLen, defs, isMacroCall) <==>
              && r in Collected(root, sourceLen) && !IsRecovered(r, defs)
              && !(isMacroCall(r) && InsideCallable(r, defs))
  {
    hide Collected, IsRecovered, InsideCallable;
    RemainingContents(Collected(root, sourceLen), defs);
    FilterContents(Remaining(Collected(root, sourceLen), defs), NotBenign(defs, isMacroCall));
  }
}
