/** The crash-quarantine set of `internal/cbm/cbm.c`: a file parsed into a table, loaded at most
    once by whichever of many racing callers wins a compare-and-swap. */
module Quarantine {
  import opened Wrappers

  // ---- parsing the file ----

  /** The line without trailing newline and carriage-return characters. */
  function Strip(line: string): string {
    if line != [] && line[|line| - 1] in {'\n', '\r'} then Strip(line[..|line| - 1]) else line
  }

  /** The position of the first tab, or the length. */
  function TabIndex(s: string): (k: nat)
    ensures k <= |s| && (k < |s| ==> s[k] == '\t') && forall i :: 0 <= i < k ==> s[i] != '\t'
  {
    if s == [] || s[0] == '\t' then 0 else 1 + TabIndex(s[1..])
  }

  /** A line "path" or "path<tab>phase"; a missing or empty phase is "crash", an empty path nothing. */
  function Entry(line: string): Option<(string, string)> {
    var s := Strip(line);
    var k := TabIndex(s);
    if k == 0 then None
    else Some((s[..k], if k + 1 < |s| then s[k + 1..] else "crash"))
  }

  predicate LineEnds(s: string) {
    forall i :: 0 <= i < |s| ==> s[i] in {'\n', '\r'}
  }

  predicate EndsLine(s: string) {
    s != [] && s[|s| - 1] in {'\n', '\r'}
  }

  lemma {:induction false} StripEnds(s: string, ends: string)
    requires !EndsLine(s) && LineEnds(ends)
    ensures Strip(s + ends) == s
  {
    if ends == [] {
      assert s + ends == s;
    } else {
      var n := |ends| - 1;
      assert (s + ends)[..|s + ends| - 1] == s + ends[..n];
      StripEnds(s, ends[..n]);
    }
  }

  lemma TabAfter(s: string, rest: string)
    requires '\t' !in s && (rest == [] || rest[0] == '\t')
    ensures TabIndex(s + rest) == |s|
  {
    var k := TabIndex(s + rest);
    assert forall i :: 0 <= i < |s| ==> (s + rest)[i] in s;
    assert rest != [] ==> (s + rest)[|s|] == '\t';
  }

  /** The line format: a path up to a tab, and the phase behind it; a bare path, or an empty phase,
      means "crash". Whatever line ends follow do not matter. */
  lemma EntryReads(path: string, phase: string, ends: string)
    requires path != "" && '\t' !in path && !EndsLine(phase) && LineEnds(ends)
    ensures Entry(path + "\t" + phase + ends) == Some((path, if phase != "" then phase else "crash"))
    ensures !EndsLine(path) ==> Entry(path + ends) == Some((path, "crash"))
  {
    var s := path + ("\t" + phase);
    assert path + "\t" + phase == s;
    StripEnds(s, ends);
    TabAfter(path, "\t" + phase);
    assert s[..|path|] == path && s[|path| + 1..] == phase;
    if !EndsLine(path) {
      StripEnds(path, ends);
      TabAfter(path, []);
      assert path + [] == path;
    }
  }

  /** An empty line, and a line with an empty path, name nothing. */
  lemma EntrySkips(phase: string, ends: string)
    requires !EndsLine(phase) && LineEnds(ends)
    ensures Entry(ends) == None && Entry("\t" + phase + ends) == None
  {
    StripEnds("", ends);
    assert "" + ends == ends;
    StripEnds("\t" + phase, ends);
  }

  type Table = map<string, string>

  /** The table a file denotes, line by line; a later line for a path displaces an earlier one. */
  function TableOf(lines: seq<string>): Table {
    if lines == [] then map[]
    else
      var before := TableOf(lines[..|lines| - 1]);
      match Entry(lines[|lines| - 1])
      case Some((path, phase)) => before[path := phase]
      case None => before
  }

  /** `cbm_quarantine_load` on the lines of an existing file. */
  method LoadTable(lines: seq<string>) returns (table: Table)
    ensures table == TableOf(lines)
  {
    table := map[];
    for n := 0 to |lines|
      invariant table == TableOf(lines[..n])
    {
      assert lines[..n + 1][..n] == lines[..n];
      match Entry(lines[n])
      case Some((path, phase)) => table := table[path := phase];
      case None =>
    }
    assert lines[..|lines|] == lines;
  }

  predicate Names(line: string, path: string) {
    Entry(line) != None && Entry(line).value.0 == path
  }

  /** Line `i` is the last one that names `path`. */
  ghost predicate LastNaming(lines: seq<string>, path: string, i: int) {
    && 0 <= i < |lines| && Names(lines[i], path)
    && forall j :: i < j < |lines| ==> !Names(lines[j], path)
  }

  /** A path is quarantined exactly when some line names it, with the phase of the last such line. */
  lemma {:induction false} TableOfLines(lines: seq<string>, path: string)
    ensures path in TableOf(lines) <==> exists i :: LastNaming(lines, path, i)
    ensures forall i :: LastNaming(lines, path, i) ==> Entry(lines[i]) == Some((path, TableOf(lines)[path]))
    ensures path in TableOf(lines) || forall i :: 0 <= i < |lines| ==> !Names(lines[i], path)
  {
    hide Entry;
    if lines != [] {
      var n := |lines| - 1;
      var before := lines[..n];
      TableOfLines(before, path);
      if Names(lines[n], path) {
        assert LastNaming(lines, path, n);
      } else {
        forall i ensures LastNaming(lines, path, i) <==> LastNaming(before, path, i) {
          assert 0 <= i < n ==> before[i] == lines[i];
          if LastNaming(before, path, i) {
            forall j | i < j < |lines| ensures !Names(lines[j], path) { assert j < n ==> before[j] == lines[j]; }
          }
          if LastNaming(lines, path, i) {
            forall j | i < j < n ensures !Names(before[j], path) { assert before[j] == lines[j]; }
          }
        }
        if path !in TableOf(before) {
          forall i | 0 <= i < |lines| ensures !Names(lines[i], path) { assert i < n ==> before[i] == lines[i]; }
        }
      }
    }
  }

  // ---- the once-initialisation protocol ----

  datatype Phase = Uninit | Initing | Inited

  /** Where one call of `cbm_index_is_quarantined` stands. */
  datatype Pc = Start | Swap | Loading | Publish | Spin | Lookup | Done(result: bool)

  datatype Call = Call(path: string, pc: Pc)

  /** Shared memory, the calls in progress, and how often the file was loaded. */
  datatype State = State(phase: Phase, table: Option<Table>, calls: seq<Call>, loads: nat)

  predicate Member(table: Option<Table>, path: string) {
    table != None && path in table.value
  }

  /** What a load finds: the lines of the quarantine file, if there is one to read. */
  type File = Option<seq<string>>

  /** One atomic step of call `i`; `file` is what a load would find at this moment. */
  function Step(s: State, i: nat, file: File): State
    requires i < |s.calls|
  {
    var c := s.calls[i];
    match c.pc
    case Start =>
      if c.path == "" then Move(s, i, Done(false))
      else if s.phase == Inited then Move(s, i, Lookup)
      else Move(s, i, Swap)
    case Swap =>
      if s.phase == Uninit then Move(s, i, Loading).(phase := Initing) else Move(s, i, Spin)
    case Loading => Move(s, i, Publish).(table := Load(file), loads := s.loads + 1)
    case Publish => Move(s, i, Lookup).(phase := Inited)
    case Spin => if s.phase == Inited then Move(s, i, Lookup) else s
    case Lookup => Move(s, i, Done(Member(s.table, c.path)))
    case Done(_) => s
  }

  function Load(file: File): Option<Table> {
    match file
    case Some(lines) => Some(TableOf(lines))
    case None => None
  }

  function Move(s: State, i: nat, pc: Pc): State
    requires i < |s.calls|
  {
    s.(calls := s.calls[i := s.calls[i].(pc := pc)])
  }

  ghost predicate Init(s: State) {
    && s.phase == Uninit && s.table == None && s.loads == 0
    && forall i :: 0 <= i < |s.calls| ==> s.calls[i].pc == Start
  }

  /** Which call takes a step, and what a load would find then. */
  datatype Turn = Turn(call: nat, file: File)

  ghost predicate Next(s: State, t: Turn, s': State) {
    t.call < |s.calls| && s' == Step(s, t.call, t.file)
  }

  /** Any number of calls, any schedule, any file. */
  ghost predicate Run(run: seq<State>, turns: seq<Turn>) {
    && |run| == |turns| + 1 && Init(run[0])
    && forall k :: 0 <= k < |turns| ==> Next(run[k], turns[k], run[k + 1])
  }

  predicate IsLoader(pc: Pc) {
    pc == Loading || pc == Publish
  }

  /** One loader while initialising, none otherwise; the load happens between taking and publishing. */
  ghost predicate OneLoader(s: State) {
    && (s.phase == Initing <==> exists i :: 0 <= i < |s.calls| && IsLoader(s.calls[i].pc))
    && (forall i, j :: 0 <= i < j < |s.calls| ==> !(IsLoader(s.calls[i].pc) && IsLoader(s.calls[j].pc)))
    && (forall i :: 0 <= i < |s.calls| && s.calls[i].pc == Loading ==> s.loads == 0)
    && (forall i :: 0 <= i < |s.calls| && s.calls[i].pc == Publish ==> s.loads == 1)
    && (s.phase == Uninit ==> s.loads == 0)
    && (s.phase == Inited ==> s.loads == 1)
    && (s.loads == 0 ==> s.table == None)
  }

  /** Nobody looks, or has looked, before publication; answers come from the one table. */
  ghost predicate Answered(s: State) {
    forall i :: 0 <= i < |s.calls| ==>
      match s.calls[i].pc
      case Start => true
      case Lookup => s.phase == Inited && s.calls[i].path != ""
      case Done(result) =>
        if s.calls[i].path == "" then !result
        else s.phase == Inited && result == Member(s.table, s.calls[i].path)
      case _ => s.calls[i].path != ""
  }

  ghost predicate Inv(s: State) {
    OneLoader(s) && Answered(s)
  }

  lemma InvStep(s: State, i: nat, file: File)
    requires Inv(s) && i < |s.calls|
    ensures Inv(Step(s, i, file))
  {
    OneLoaderStep(s, i, file);
    AnsweredStep(s, i, file);
    hide Step, OneLoader, Answered;
  }

  lemma OneLoaderStep(s: State, i: nat, file: File)
    requires Inv(s) && i < |s.calls|
    ensures OneLoader(Step(s, i, file))
  {
    hide Answered;
    var s' := Step(s, i, file);
    assert forall j :: 0 <= j < |s.calls| && j != i ==> s'.calls[j] == s.calls[j];
    assert |s'.calls| == |s.calls|;
    if s.phase == Initing && s'.phase == Initing {
      var k :| 0 <= k < |s.calls| && IsLoader(s.calls[k].pc);
      assert IsLoader(s'.calls[k].pc);
    }
    if s.phase == Uninit && s'.phase == Initing { assert IsLoader(s'.calls[i].pc); }
  }

  lemma AnsweredStep(s: State, i: nat, file: File)
    requires Inv(s) && i < |s.calls|
    ensures Answered(Step(s, i, file))
  {}

  lemma PublishedStep(s: State, i: nat, file: File)
    requires Inv(s) && i < |s.calls| && s.phase == Inited
    ensures Step(s, i, file).phase == Inited && Step(s, i, file).table == s.table
  {}

  lemma {:induction false} InvRun(run: seq<State>, turns: seq<Turn>, k: nat)
    requires Run(run, turns) && k < |run|
    ensures Inv(run[k]) && |run[k].calls| == |run[0].calls|
  {
    if k > 0 {
      InvRun(run, turns, k - 1);
      hide Inv;
      assert Next(run[k - 1], turns[k - 1], run[k]);
      InvStep(run[k - 1], turns[k - 1].call, turns[k - 1].file);
    }
  }

  /** Once published, the table never changes again. */
  lemma {:induction false} PublishedIsFinal(run: seq<State>, turns: seq<Turn>, k: nat, l: nat)
    requires Run(run, turns) && k <= l < |run| && run[k].phase == Inited
    ensures run[l].phase == Inited && run[l].table == run[k].table
  {
    if k < l {
      hide Inv, Step;
      PublishedIsFinal(run, turns, k, l - 1);
      InvRun(run, turns, l - 1);
      assert Next(run[l - 1], turns[l - 1], run[l]);
      PublishedStep(run[l - 1], turns[l - 1].call, turns[l - 1].file);
    }
  }

  /** In every run the file is loaded at most once and nobody consults the table before that. */
  lemma LoadedOnce(run: seq<State>, turns: seq<Turn>, k: nat)
    requires Run(run, turns) && k < |run|
    ensures run[k].loads <= 1
    ensures forall i :: 0 <= i < |run[k].calls| && run[k].calls[i].pc == Lookup ==>
              run[k].phase == Inited && run[k].loads == 1
  {
    InvRun(run, turns, k);
    var s := run[k];
    if s.phase == Initing {
      var i :| 0 <= i < |s.calls| && IsLoader(s.calls[i].pc);
    }
  }

  /** Every answer ever given in a run, by any call at any time, is membership in the table the
      run ends with: the one that was loaded. */
  lemma AnswersAgree(run: seq<State>, turns: seq<Turn>, k: nat, i: nat)
    requires Run(run, turns) && k < |run| && i < |run[k].calls|
    requires run[k].calls[i].pc.Done? && run[k].calls[i].path != ""
    ensures run[k].calls[i].pc.result == Member(run[|run| - 1].table, run[k].calls[i].path)
  {
    InvRun(run, turns, k);
    PublishedIsFinal(run, turns, k, |run| - 1);
  }

  /** The turn at which the file is read. */
  ghost predicate ReadsAt(run: seq<State>, turns: seq<Turn>, j: nat) {
    && j < |turns| < |run| && turns[j].call < |run[j].calls|
    && run[j].calls[turns[j].call].pc == Loading
  }

  /** Only a load changes the table and the count of loads. */
  lemma OnlyLoadsLoad(s: State, i: nat, file: File)
    requires i < |s.calls|
    ensures var s' := Step(s, i, file);
            if s.calls[i].pc == Loading then s'.loads == s.loads + 1 && s'.table == Load(file)
            else s'.loads == s.loads && s'.table == s.table
  {}

  lemma {:induction false} NotLoadedBefore(run: seq<State>, turns: seq<Turn>, k: nat, j: nat)
    requires Run(run, turns) && k <= j && ReadsAt(run, turns, j)
    ensures run[k].loads == 0
    decreases j - k
  {
    if k == j {
      InvRun(run, turns, k);
    } else {
      NotLoadedBefore(run, turns, k + 1, j);
      assert Next(run[k], turns[k], run[k + 1]);
      OnlyLoadsLoad(run[k], turns[k].call, turns[k].file);
    }
  }

  lemma {:induction false} LoadedAfter(run: seq<State>, turns: seq<Turn>, k: nat, j: nat)
    requires Run(run, turns) && j < k < |run| && ReadsAt(run, turns, j)
    ensures run[k].loads == 1 && run[k].table == Load(turns[j].file)
  {
    var t := turns[k - 1];
    assert Next(run[k - 1], t, run[k]);
    OnlyLoadsLoad(run[k - 1], t.call, t.file);
    hide Step;
    if k - 1 == j {
      NotLoadedBefore(run, turns, j, j);
    } else {
      LoadedAfter(run, turns, k - 1, j);
      InvRun(run, turns, k - 1);
    }
  }

  lemma {:induction false} SomeoneRead(run: seq<State>, turns: seq<Turn>, k: nat) returns (j: nat)
    requires Run(run, turns) && k < |run| && run[k].loads > 0
    ensures j < k && ReadsAt(run, turns, j)
  {
    var t := turns[k - 1];
    assert Next(run[k - 1], t, run[k]);
    OnlyLoadsLoad(run[k - 1], t.call, t.file);
    hide Step;
    if run[k - 1].loads > 0 { j := SomeoneRead(run, turns, k - 1); } else { j := k - 1; }
  }

  /** The file has a line for the path. */
  ghost predicate FileNames(file: File, path: string) {
    file != None && exists l :: 0 <= l < |file.value| && Names(file.value[l], path)
  }

  /** Every answer to a call with a path is what the file said at the one moment when it was read: yes
      if and only if some line of it names the path. Without a path the answer is no. */
  lemma AnswersAreTheFile(run: seq<State>, turns: seq<Turn>, k: nat, i: nat)
    requires Run(run, turns) && k < |run| && i < |run[k].calls| && run[k].calls[i].pc.Done?
    ensures run[k].calls[i].path == "" ==> !run[k].calls[i].pc.result
    ensures run[k].calls[i].path != "" ==> exists j :: 0 <= j < k && ReadsAt(run, turns, j)
    ensures run[k].calls[i].path != "" ==>
              forall j: nat :: ReadsAt(run, turns, j) ==>
                j < k && (run[k].calls[i].pc.result <==> FileNames(turns[j].file, run[k].calls[i].path))
  {
    InvRun(run, turns, k);
    if run[k].calls[i].path != "" {
      var found := SomeoneRead(run, turns, k);
      forall j: nat | ReadsAt(run, turns, j)
        ensures j < k && (run[k].calls[i].pc.result <==> FileNames(turns[j].file, run[k].calls[i].path))
      {
        ReadBefore(run, turns, k, j);
        LoadedAfter(run, turns, k, j);
        if turns[j].file != None { TableHas(turns[j].file.value, run[k].calls[i].path); }
      }
    }
  }

  lemma ReadBefore(run: seq<State>, turns: seq<Turn>, k: nat, j: nat)
    requires Run(run, turns) && k < |run| && run[k].loads > 0 && ReadsAt(run, turns, j)
    ensures j < k
  {
    if k <= j { NotLoadedBefore(run, turns, k, j); }
  }

  lemma TableHas(lines: seq<string>, path: string)
    ensures path in TableOf(lines) <==> exists l :: 0 <= l < |lines| && Names(lines[l], path)
  {
    TableOfLines(lines, path);
    if path in TableOf(lines) {
      var i :| LastNaming(lines, path, i);
    }
  }

  // ---- progress ----

  /** Steps a call still has to take. */
  function Remaining(pc: Pc): nat {
    match pc
    case Start => 6
    case Swap => 5
    case Loading => 4
    case Publish => 3
    case Spin => 2
    case Lookup => 1
    case Done(_) => 0
  }

  function Work(calls: seq<Call>): nat {
    if calls == [] then 0 else Work(calls[..|calls| - 1]) + Remaining(calls[|calls| - 1].pc)
  }

  lemma {:induction false} WorkUpdate(calls: seq<Call>, i: nat, c: Call)
    requires i < |calls|
    ensures Work(calls[i := c]) == Work(calls) - Remaining(calls[i].pc) + Remaining(c.pc)
  {
    var n := |calls| - 1;
    if i == n {
      assert calls[i := c][..n] == calls[..n];
    } else {
      WorkUpdate(calls[..n], i, c);
      assert calls[i := c][..n] == calls[..n][i := c];
    }
  }

  /** Every step either finishes part of the work or is a spin that changes nothing. */
  lemma StepWorks(s: State, i: nat, file: File)
    requires i < |s.calls|
    ensures Step(s, i, file) == s || Work(Step(s, i, file).calls) < Work(s.calls)
  {
    var s' := Step(s, i, file);
    if s'.calls != s.calls { WorkUpdate(s.calls, i, s'.calls[i]); }
  }

  /** Call `j` gets something done, whatever the file holds. */
  ghost predicate CanWork(s: State, j: int) {
    0 <= j < |s.calls| && forall file :: Work(Step(s, j, file).calls) < Work(s.calls)
  }

  /** Whenever some call is unfinished, some call can take a working step: no run is stuck. */
  lemma NeverStuck(run: seq<State>, turns: seq<Turn>, k: nat, i: nat)
    requires Run(run, turns) && k < |run| && i < |run[k].calls| && !run[k].calls[i].pc.Done?
    ensures exists j :: CanWork(run[k], j)
  {
    InvRun(run, turns, k);
    var s := run[k];
    var j := i;
    if s.calls[i].pc == Spin && s.phase != Inited {
      SpinnersFollow(run, turns, k, i);
      var l :| 0 <= l < |s.calls| && IsLoader(s.calls[l].pc);
      j := l;
    }
    forall file ensures Work(Step(s, j, file).calls) < Work(s.calls) {
      StepWorks(s, j, file);
      assert Step(s, j, file).calls[j].pc != s.calls[j].pc;
    }
    assert CanWork(s, j);
  }

  /** A call only spins after another has taken the initialisation. */
  lemma {:induction false} SpinnersFollow(run: seq<State>, turns: seq<Turn>, k: nat, i: nat)
    requires Run(run, turns) && k < |run| && i < |run[k].calls| && run[k].calls[i].pc == Spin
    ensures run[k].phase != Uninit
  {
    if k > 0 {
      InvRun(run, turns, k - 1);
      hide Inv;
      assert Next(run[k - 1], turns[k - 1], run[k]);
      if run[k - 1].calls[i].pc == Spin { SpinnersFollow(run, turns, k - 1, i); }
    }
  }
}
