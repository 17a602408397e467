/** Call attribution in `cbm_extract_file_ex` of `internal/cbm/cbm.c`: every call counts for the
    innermost function or method around its line, and marks it. */
module Attribution {
  import opened Wrappers

  const LINE_LIMIT: nat := 0x8000_0000

  type Line = n: nat | n < LINE_LIMIT

  datatype Definition = Definition(name: Option<string>, kind: Option<string>, start: Line, end: Line,
                                   receiver: Option<string>)

  datatype Call = Call(callee: Option<string>, line: int, loopDepth: int, branchDepth: int)

  /** The metrics of one definition. */
  datatype Marks = Marks(isRecursive: bool, recursionInLoop: bool, linearScans: nat, allocs: nat, unguarded: bool)

  /** What the name tables say: the identifier in a receiver's text, and which names scan or allocate. */
  datatype Words = Words(receiverName: string -> Option<string>, linearScan: string -> bool, alloc: string -> bool)

  // ---- names ----

  /** The position of the last dot, or -1. */
  function LastDot(s: string): (d: int)
    ensures -1 <= d < |s| && (d >= 0 ==> s[d] == '.')
    ensures forall i :: d < i < |s| ==> s[i] != '.'
  {
    if s == [] then -1 else if s[|s| - 1] == '.' then |s| - 1 else LastDot(s[..|s| - 1])
  }

  function ShortName(s: string): string {
    s[LastDot(s) + 1..]
  }

  /** The call goes to the same object as the definition's own: no receiver at all, one of the
      conventional ones, or the definition's own receiver variable, as the whole chain. */
  predicate SelfReceiver(w: Words, callee: string, receiver: Option<string>) {
    callee != "" &&
    (LastDot(callee) < 0 ||
     var chain := callee[..LastDot(callee)];
     || chain in {"self", "this", "cls", "@self"}
     || (receiver.Some? && chain != "" && w.receiverName(receiver.value) == Some(chain)))
  }

  /** A callee is read as chain, dot, short name, where only the short name is free of dots: a call
      through a field of the same object is not a self-call. */
  lemma CalleeSplits(w: Words, chain: string, short: string, d: Definition)
    requires '.' !in short
    ensures ShortName(chain + "." + short) == short && ShortName(short) == short
    ensures SelfCall(w, d, chain + "." + short) <==>
              && d.name == Some(short)
              && (|| chain == "self" || chain == "this" || chain == "cls" || chain == "@self"
                  || (d.receiver != None && chain != "" && w.receiverName(d.receiver.value) == Some(chain)))
    ensures SelfCall(w, d, short) <==> d.name == Some(short) && short != ""
  {
    var callee := chain + "." + short;
    assert callee[|chain|] == '.';
    forall i | |chain| < i < |callee| ensures callee[i] != '.' {
      assert callee[i] == short[i - |chain| - 1] && callee[i] in short;
    }
    assert LastDot(callee) == |chain| && callee[..|chain|] == chain && callee[|chain| + 1..] == short;
    assert forall i :: 0 <= i < |short| ==> short[i] in short;
    assert LastDot(short) == -1;
  }

  predicate SelfCall(w: Words, d: Definition, callee: string) {
    d.name == Some(ShortName(callee)) && SelfReceiver(w, callee, d.receiver)
  }

  // ---- the innermost definition ----

  predicate Eligible(d: Definition) {
    d.name.Some? && (d.kind == Some("Function") || d.kind == Some("Method"))
  }

  predicate Around(d: Definition, line: int) {
    Eligible(d) && d.start <= line <= d.end
  }

  function Span(d: Definition): int {
    d.end - d.start
  }

  /** The first of the smallest definitions around a line. */
  ghost predicate Innermost(defs: seq<Definition>, line: int, b: int) {
    && 0 <= b < |defs| && Around(defs[b], line)
    && forall j :: 0 <= j < |defs| && Around(defs[j], line) ==>
         Span(defs[b]) < Span(defs[j]) || (Span(defs[b]) == Span(defs[j]) && b <= j)
  }

  method FindInnermost(defs: seq<Definition>, line: int) returns (best: int)
    ensures best < 0 ==> forall b :: !Innermost(defs, line, b)
    ensures best >= 0 ==> forall b :: Innermost(defs, line, b) <==> b == best
    // none is around, or this one is, and none that is around is smaller, or as small and earlier
    ensures best < |defs|
    ensures best >= 0 ==>
              && defs[best].name != None && (defs[best].kind == Some("Function") || defs[best].kind == Some("Method"))
              && defs[best].start <= line <= defs[best].end
    ensures forall j :: 0 <= j < |defs|
                        && defs[j].name != None && (defs[j].kind == Some("Function") || defs[j].kind == Some("Method"))
                        && defs[j].start <= line <= defs[j].end ==>
              && best >= 0
              && defs[best].end - defs[best].start <= defs[j].end - defs[j].start
              && (defs[best].end - defs[best].start == defs[j].end - defs[j].start ==> best <= j)
  {
    best := -1;
    var bestSpan := -1;
    for i := 0 to |defs|
      invariant best == -1 ==> forall j :: 0 <= j < i ==> !Around(defs[j], line)
      invariant best != -1 ==> 0 <= best < i && Around(defs[best], line) && bestSpan == Span(defs[best])
      invariant best != -1 ==> forall j :: 0 <= j < i && Around(defs[j], line) ==>
                  bestSpan < Span(defs[j]) || (bestSpan == Span(defs[j]) && best <= j)
    {
      var d := defs[i];
      if d.name.None? || d.kind.None? || (d.kind != Some("Function") && d.kind != Some("Method")) { continue; }
      if d.start <= line <= d.end {
        var span := d.end - d.start;
        if best < 0 || span < bestSpan {
          bestSpan := span;
          best := i;
        }
      }
    }
    if best >= 0 { assert Innermost(defs, line, best); }
  }

  predicate Within(d: Definition, e: Definition) {
    e.start <= d.start && d.end <= e.end
  }

  /** Definitions nest or keep apart. */
  predicate Laminar(defs: seq<Definition>) {
    forall i, j :: 0 <= i < |defs| && 0 <= j < |defs| ==>
      || Within(defs[i], defs[j]) || Within(defs[j], defs[i])
      || defs[i].end < defs[j].start || defs[j].end < defs[i].start
  }

  /** Where definitions nest, the innermost one lies within every other one around the line. */
  lemma InnermostIsNested(defs: seq<Definition>, line: int, b: int, j: int)
    requires Laminar(defs) && Innermost(defs, line, b)
    requires 0 <= j < |defs| && Around(defs[j], line)
    ensures Within(defs[b], defs[j])
  {
    assert Around(defs[b], line);
    if Within(defs[j], defs[b]) {
      assert Span(defs[b]) <= Span(defs[j]);
    }
  }

  // ---- what the calls of a file add up to ----

  /** The self-calls seen so far, whether one was in a loop or under a branch, and the counters. */
  datatype Tally = Tally(self: bool, selfInLoop: bool, guarded: bool, scans: nat, allocs: nat)

  const NOTHING := Tally(false, false, false, 0, 0)

  /** A call counts for a definition: it names a callee, has a line, and this is the innermost one. */
  ghost predicate Attributed(defs: seq<Definition>, c: Call, di: int) {
    c.callee.Some? && c.line > 0 && Innermost(defs, c.line, di)
  }

  ghost predicate IsSelf(w: Words, defs: seq<Definition>, c: Call, di: nat) {
    Attributed(defs, c, di) && di < |defs| && SelfCall(w, defs[di], c.callee.value)
  }

  ghost predicate Scans(w: Words, defs: seq<Definition>, c: Call, di: nat) {
    Attributed(defs, c, di) && c.loopDepth > 0 && w.linearScan(ShortName(c.callee.value))
  }

  ghost predicate Allocates(w: Words, defs: seq<Definition>, c: Call, di: nat) {
    Attributed(defs, c, di) && c.loopDepth > 0 && w.alloc(ShortName(c.callee.value))
  }

  ghost function Add(w: Words, defs: seq<Definition>, t: Tally, c: Call, di: nat): Tally {
    Tally(t.self || IsSelf(w, defs, c, di),
          t.selfInLoop || (IsSelf(w, defs, c, di) && c.loopDepth > 0),
          t.guarded || (IsSelf(w, defs, c, di) && c.branchDepth > 0),
          t.scans + if Scans(w, defs, c, di) then 1 else 0,
          t.allocs + if Allocates(w, defs, c, di) then 1 else 0)
  }

  ghost function Total(w: Words, defs: seq<Definition>, calls: seq<Call>, di: nat): Tally {
    if calls == [] then NOTHING else Add(w, defs, Total(w, defs, calls[..|calls| - 1], di), calls[|calls| - 1], di)
  }

  /** How many calls of a list meet a condition. */
  ghost function CountIf(calls: seq<Call>, f: Call -> bool): nat {
    |set k: nat | k < |calls| && f(calls[k])|
  }

  lemma CountSnoc(calls: seq<Call>, c: Call, f: Call -> bool)
    ensures CountIf(calls + [c], f) == CountIf(calls, f) + if f(c) then 1 else 0
  {
    var n := |calls|;
    var s := set k: nat | k < n && f(calls[k]);
    var t := set k: nat | k < n + 1 && f((calls + [c])[k]);
    assert t == if f(c) then s + {n} else s;
  }

  ghost predicate Exists(calls: seq<Call>, f: Call -> bool) {
    exists c :: c in calls && f(c)
  }

  lemma ExistsSnoc(calls: seq<Call>, c: Call, f: Call -> bool)
    ensures Exists(calls + [c], f) <==> Exists(calls, f) || f(c)
  {
    forall x ensures x in calls + [c] <==> x in calls || x == c {}
  }

  ghost function SelfCalls(w: Words, defs: seq<Definition>, di: nat): Call -> bool {
    c => IsSelf(w, defs, c, di)
  }

  ghost function LoopedSelfCalls(w: Words, defs: seq<Definition>, di: nat): Call -> bool {
    c => IsSelf(w, defs, c, di) && c.loopDepth > 0
  }

  ghost function GuardedSelfCalls(w: Words, defs: seq<Definition>, di: nat): Call -> bool {
    c => IsSelf(w, defs, c, di) && c.branchDepth > 0
  }

  /** The calls inside a loop, of the innermost definition around their line, to one of the names. */
  ghost function LoopedCalls(defs: seq<Definition>, di: nat, names: string -> bool): Call -> bool {
    (c: Call) => c.callee != None && c.line > 0 && c.loopDepth > 0 && Innermost(defs, c.line, di)
         && names(ShortName(c.callee.value))
  }

  lemma LoopedCallsAre(w: Words, defs: seq<Definition>, c: Call, di: nat)
    ensures LoopedCalls(defs, di, w.linearScan)(c) <==> Scans(w, defs, c, di)
    ensures LoopedCalls(defs, di, w.alloc)(c) <==> Allocates(w, defs, c, di)
  {
    hide Innermost, ShortName;
  }

  /** The tally says which calls there are, and the counters how many of them. */
  lemma {:induction false} TotalMeans(w: Words, defs: seq<Definition>, calls: seq<Call>, di: nat)
    ensures var t := Total(w, defs, calls, di);
            && (t.self <==> Exists(calls, SelfCalls(w, defs, di)))
            && (t.selfInLoop <==> Exists(calls, LoopedSelfCalls(w, defs, di)))
            && (t.guarded <==> Exists(calls, GuardedSelfCalls(w, defs, di)))
            && t.scans == CountIf(calls, LoopedCalls(defs, di, w.linearScan))
            && t.allocs == CountIf(calls, LoopedCalls(defs, di, w.alloc))
  {
    if calls == [] {
      assert CountIf([], LoopedCalls(defs, di, w.linearScan)) == CountIf([], LoopedCalls(defs, di, w.alloc)) == 0;
    } else {
      var n := |calls| - 1;
      var before, c := calls[..n], calls[n];
      TotalMeans(w, defs, before, di);
      assert calls == before + [c];
      hide Exists, CountIf, IsSelf, Scans, Allocates, LoopedCalls;
      ExistsSnoc(before, c, SelfCalls(w, defs, di));
      ExistsSnoc(before, c, LoopedSelfCalls(w, defs, di));
      ExistsSnoc(before, c, GuardedSelfCalls(w, defs, di));
      CountSnoc(before, c, LoopedCalls(defs, di, w.linearScan));
      CountSnoc(before, c, LoopedCalls(defs, di, w.alloc));
      LoopedCallsAre(w, defs, c, di);
    }
  }

  lemma TotalSnoc(w: Words, defs: seq<Definition>, calls: seq<Call>, c: Call, di: nat)
    ensures Total(w, defs, calls + [c], di) == Add(w, defs, Total(w, defs, calls, di), c, di)
  {
    assert (calls + [c])[..|calls|] == calls;
    hide Add;
  }

  lemma AddCommutes(w: Words, defs: seq<Definition>, t: Tally, c: Call, d: Call, di: nat)
    ensures Add(w, defs, Add(w, defs, t, c, di), d, di) == Add(w, defs, Add(w, defs, t, d, di), c, di)
  {
    hide IsSelf, Scans, Allocates;
  }

  lemma {:induction false} TotalMoves(w: Words, defs: seq<Definition>, before: seq<Call>, c: Call, after: seq<Call>,
                                      di: nat)
    ensures Total(w, defs, before + [c] + after, di) == Add(w, defs, Total(w, defs, before + after, di), c, di)
  {
    hide Total, Add;
    if after == [] {
      assert before + [c] + after == before + [c] && before + after == before;
      TotalSnoc(w, defs, before, c, di);
    } else {
      var n := |after| - 1;
      var rest, d := after[..n], after[n];
      TotalMoves(w, defs, before, c, rest, di);
      assert before + [c] + after == before + [c] + rest + [d];
      assert before + after == before + rest + [d];
      TotalSnoc(w, defs, before + [c] + rest, d, di);
      TotalSnoc(w, defs, before + rest, d, di);
      AddCommutes(w, defs, Total(w, defs, before + rest, di), c, d, di);
    }
  }

  /** The order of the calls does not matter. */
  lemma {:induction false} TotalIgnoresOrder(w: Words, defs: seq<Definition>, calls: seq<Call>, others: seq<Call>,
                                             di: nat)
    requires multiset(calls) == multiset(others)
    ensures Total(w, defs, calls, di) == Total(w, defs, others, di)
  {
    hide Add;
    if calls == [] {
      assert |multiset(others)| == 0;
    } else {
      var n := |calls| - 1;
      var c := calls[n];
      assert calls == calls[..n] + [c];
      assert c in multiset(others);
      var k :| 0 <= k < |others| && others[k] == c;
      assert others == others[..k] + [c] + others[k + 1..];
      assert multiset(others) == multiset(others[..k] + others[k + 1..]) + multiset{c};
      assert multiset(calls) == multiset(calls[..n]) + multiset{c};
      assert multiset(calls[..n]) == multiset(calls) - multiset{c};
      assert multiset(others[..k] + others[k + 1..]) == multiset(others) - multiset{c};
      TotalIgnoresOrder(w, defs, calls[..n], others[..k] + others[k + 1..], di);
      TotalMoves(w, defs, others[..k], c, others[k + 1..], di);
    }
  }

  // ---- the loop over calls ----

  /** The marks during the loop, and after it. */
  function Marked(m: Marks, t: Tally): Marks {
    m.(isRecursive := m.isRecursive || t.self, recursionInLoop := m.recursionInLoop || t.selfInLoop,
       linearScans := m.linearScans + t.scans, allocs := m.allocs + t.allocs)
  }

  /** A definition that calls itself is unguarded when no self-call sits under a branch. Either bit
      is lost when its table could not be allocated. */
  function Flagged(m: Marks, self: bool, guarded: bool, selfKept: bool, guardKept: bool): Marks {
    m.(unguarded := m.unguarded || (selfKept && self && !(guardKept && guarded)))
  }

  function Finished(m: Marks, t: Tally, selfKept: bool, guardKept: bool): Marks {
    Flagged(Marked(m, t), t.self, t.guarded, selfKept, guardKept)
  }

  /** What a call adds to the definition it belongs to. */
  function Contribution(w: Words, d: Definition, c: Call): Tally
    requires c.callee.Some?
  {
    var mine := SelfCall(w, d, c.callee.value);
    var short := ShortName(c.callee.value);
    var loop := c.loopDepth > 0;
    Tally(mine, mine && loop, mine && c.branchDepth > 0,
          if loop && w.linearScan(short) then 1 else 0, if loop && w.alloc(short) then 1 else 0)
  }

  method MarkCall(w: Words, d: Definition, c: Call, m: Marks, self: bool, guarded: bool)
    returns (m': Marks, self': bool, guarded': bool)
    requires c.callee.Some?
    ensures m' == Marked(m, Contribution(w, d, c))
    ensures self' == (self || Contribution(w, d, c).self) && guarded' == (guarded || Contribution(w, d, c).guarded)
  {
    hide SelfReceiver, LastDot;
    m', self', guarded' := m, self, guarded;
    var name := c.callee.value;
    var dot := LastDot(name);
    var short := if dot >= 0 then name[dot + 1..] else name;
    assert short == ShortName(name);
    var mine := Some(short) == d.name && SelfReceiver(w, name, d.receiver);
    assert mine == SelfCall(w, d, name);
    hide ShortName, SelfCall;
    var inLoop := c.loopDepth > 0;
    if mine {
      m' := m'.(isRecursive := true);
      self' := true;
      if inLoop { m' := m'.(recursionInLoop := true); }
      if c.branchDepth > 0 { guarded' := true; }
    }
    if inLoop && w.linearScan(short) { m' := m'.(linearScans := m'.linearScans + 1); }
    if inLoop && w.alloc(short) { m' := m'.(allocs := m'.allocs + 1); }
  }

  /** The marks and tables agree with the tally of the first calls, for every definition. */
  ghost predicate Agrees(w: Words, defs: seq<Definition>, seen: seq<Call>, before: seq<Marks>,
                         marks: seq<Marks>, self: seq<bool>, guarded: seq<bool>) {
    && |before| == |marks| == |self| == |guarded| == |defs|
    && forall di :: 0 <= di < |defs| ==>
         var t := Total(w, defs, seen, di);
         marks[di] == Marked(before[di], t) && self[di] == t.self && guarded[di] == t.guarded
  }

  lemma AgreesStep(w: Words, defs: seq<Definition>, seen: seq<Call>, c: Call, before: seq<Marks>, marks: seq<Marks>,
                   self: seq<bool>, guarded: seq<bool>, marks': seq<Marks>, self': seq<bool>, guarded': seq<bool>)
    requires Agrees(w, defs, seen, before, marks, self, guarded)
    requires |marks'| == |self'| == |guarded'| == |defs|
    requires forall di :: 0 <= di < |defs| ==>
               var t := Add(w, defs, NOTHING, c, di);
               marks'[di] == Marked(marks[di], t)
               && self'[di] == (self[di] || t.self) && guarded'[di] == (guarded[di] || t.guarded)
    ensures Agrees(w, defs, seen + [c], before, marks', self', guarded')
  {
    assert (seen + [c])[..|seen|] == seen;
    hide IsSelf, Scans, Allocates;
    forall di | 0 <= di < |defs|
      ensures marks'[di] == Marked(before[di], Total(w, defs, seen + [c], di))
      ensures self'[di] == Total(w, defs, seen + [c], di).self && guarded'[di] == Total(w, defs, seen + [c], di).guarded
    {
      assert Total(w, defs, seen + [c], di) == Add(w, defs, Total(w, defs, seen, di), c, di);
      assert Total(w, defs, [c], di) == Add(w, defs, NOTHING, c, di);
    }
  }

  /** A call adds to the definition it belongs to, and to no other. */
  lemma AddAttributed(w: Words, defs: seq<Definition>, c: Call, best: int, di: nat)
    requires di < |defs|
    requires forall b :: Attributed(defs, c, b) <==> b == best && best >= 0
    ensures di != best ==> Add(w, defs, NOTHING, c, di) == NOTHING
    ensures di == best ==> c.callee.Some? && Add(w, defs, NOTHING, c, di) == Contribution(w, defs[di], c)
  {
    assert Attributed(defs, c, di) <==> di == best;
    assert Attributed(defs, c, di) ==> c.callee.Some?;
    hide SelfCall, Attributed;
  }

  /** One round of the loop: what a call adds is added, definition by definition. */
  method AttributeCall(w: Words, defs: seq<Definition>, c: Call, marks: array<Marks>, hasSelf: array<bool>,
                       hasGuarded: array<bool>)
    requires marks.Length == hasSelf.Length == hasGuarded.Length == |defs| && hasSelf != hasGuarded
    modifies marks, hasSelf, hasGuarded
    ensures forall di :: 0 <= di < |defs| ==>
              var t := Add(w, defs, NOTHING, c, di);
              && marks[di] == Marked(old(marks[di]), t)
              && hasSelf[di] == (old(hasSelf[di]) || t.self) && hasGuarded[di] == (old(hasGuarded[di]) || t.guarded)
  {
    var best := -1;
    if c.callee.Some? && c.line > 0 {
      best := FindInnermost(defs, c.line);
      if best >= 0 {
        assert Innermost(defs, c.line, best);
        hide Innermost, Marked, Contribution;
        marks[best], hasSelf[best], hasGuarded[best] :=
          MarkCall(w, defs[best], c, marks[best], hasSelf[best], hasGuarded[best]);
      }
    }
    assert forall b :: Attributed(defs, c, b) <==> b == best && best >= 0;
    hide *;
    forall di | 0 <= di < |defs|
      ensures var t := Add(w, defs, NOTHING, c, di);
              && marks[di] == Marked(old(marks[di]), t)
              && hasSelf[di] == (old(hasSelf[di]) || t.self) && hasGuarded[di] == (old(hasGuarded[di]) || t.guarded)
    {
      AddAttributed(w, defs, c, best, di);
      if di != best { MarkedNothing(old(marks[di])); }
    }
  }

  lemma MarkedNothing(m: Marks)
    ensures Marked(m, NOTHING) == m
  {
  }

  method Attribute(w: Words, defs: seq<Definition>, calls: seq<Call>, count: nat, marks: array<Marks>,
                   selfKept: bool, guardKept: bool)
    requires count <= |calls| && marks.Length == |defs|
    modifies marks
    ensures forall di :: 0 <= di < |defs| ==>
              marks[di] == Finished(old(marks[di]), Total(w, defs, calls[..count], di), selfKept, guardKept)
  {
    var hasSelf := new bool[|defs|](_ => false);
    var hasGuarded := new bool[|defs|](_ => false);
    ghost var before := marks[..];
    for ci := 0 to count
      invariant Agrees(w, defs, calls[..ci], before, marks[..], hasSelf[..], hasGuarded[..])
    {
      ghost var m, s, g := marks[..], hasSelf[..], hasGuarded[..];
      hide *;
      AttributeCall(w, defs, calls[ci], marks, hasSelf, hasGuarded);
      AgreesStep(w, defs, calls[..ci], calls[ci], before, m, s, g, marks[..], hasSelf[..], hasGuarded[..]);
      assert calls[..ci + 1] == calls[..ci] + [calls[ci]];
    }
    ghost var mid := marks[..];
    FlagUnguarded(marks, hasSelf, hasGuarded, selfKept, guardKept);
    AgreesFinished(w, defs, calls[..count], before, mid, hasSelf[..], hasGuarded[..], marks[..], selfKept, guardKept);
  }

  /** What a definition carries in the end, in terms of the calls attributed to it. */
  lemma FinishedMeans(w: Words, defs: seq<Definition>, calls: seq<Call>, di: nat, m: Marks,
                      selfKept: bool, guardKept: bool)
    ensures var f := Finished(m, Total(w, defs, calls, di), selfKept, guardKept);
            var recursive := Exists(calls, SelfCalls(w, defs, di));
            var guarded := Exists(calls, GuardedSelfCalls(w, defs, di));
            && (f.isRecursive <==> m.isRecursive || recursive)
            && (f.recursionInLoop <==> m.recursionInLoop || Exists(calls, LoopedSelfCalls(w, defs, di)))
            && f.linearScans == m.linearScans + CountIf(calls, LoopedCalls(defs, di, w.linearScan))
            && f.allocs == m.allocs + CountIf(calls, LoopedCalls(defs, di, w.alloc))
            && (f.unguarded <==> m.unguarded || (selfKept && recursive && !(guardKept && guarded)))
  {
    hide Exists, CountIf, Total;
    TotalMeans(w, defs, calls, di);
  }

  lemma AgreesFinished(w: Words, defs: seq<Definition>, seen: seq<Call>, before: seq<Marks>, mid: seq<Marks>,
                       self: seq<bool>, guarded: seq<bool>, marks: seq<Marks>, selfKept: bool, guardKept: bool)
    requires Agrees(w, defs, seen, before, mid, self, guarded) && |marks| == |defs|
    requires forall di :: 0 <= di < |defs| ==> marks[di] == Flagged(mid[di], self[di], guarded[di], selfKept, guardKept)
    ensures forall di :: 0 <= di < |defs| ==>
              marks[di] == Finished(before[di], Total(w, defs, seen, di), selfKept, guardKept)
  {
    hide Total, Flagged, Marked;
  }

  /** The last loop. */
  method FlagUnguarded(marks: array<Marks>, hasSelf: array<bool>, hasGuarded: array<bool>, selfKept: bool,
                       guardKept: bool)
    requires marks.Length == hasSelf.Length == hasGuarded.Length
    modifies marks
    ensures forall di :: 0 <= di < marks.Length ==>
              marks[di] == Flagged(old(marks[di]), hasSelf[di], hasGuarded[di], selfKept, guardKept)
  {
    for di := 0 to marks.Length
      invariant forall k :: 0 <= k < marks.Length ==>
                  marks[k] == if k < di then Flagged(old(marks[k]), hasSelf[k], hasGuarded[k], selfKept, guardKept)
                              else old(marks[k])
    {
      if selfKept && hasSelf[di] && !(guardKept && hasGuarded[di]) {
        marks[di] := marks[di].(unguarded := true);
      }
    }
  }
}
