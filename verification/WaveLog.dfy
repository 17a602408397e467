/** The calls the scheduler of `scripts/run-test-wave.py` makes to the outside world, and what a log
    of them says about suites, processes and result lines. */
module WaveLogs {
  import opened Sequences
  import opened Wrappers

  // ---- the outside world ----

  /** How an attempt to record a result goes wrong, if it does. */
  datatype Trouble = Fine | BeforeWrite | AfterWrite

  /** One reply of the outside world; each external call reads the fields that concern it. A call
      that is not `ok` raises an exception; `foreign` ones are neither OSError nor RuntimeError, such
      as an interrupt from the keyboard. */
  datatype Reply = Reply(elapsed: nat, ok: bool, foreign: bool, spawned: bool, exitCode: Option<int>, hasSummary: bool,
                         trouble: Trouble)

  /** `POLL_SECONDS`, in milliseconds. */
  const POLL_MS: nat := 50

  /** The calls the scheduler makes: start a suite, poll its process, terminate its process tree,
      write its result line, sleep. */
  datatype Query = Start(suite: string) | Check(suite: string) | Terminate(suite: string) | Record(suite: string) | Nap

  /** A call that was made, what came back, and when. */
  datatype Exchange = Exchange(query: Query, reply: Reply, time: nat)

  /** The call raised nothing. */
  predicate Smooth(e: Exchange) {
    if e.query.Record? then e.reply.trouble == Fine else e.reply.ok
  }

  ghost predicate AllSmooth(log: seq<Exchange>) {
    forall k :: 0 <= k < |log| ==> Smooth(log[k])
  }

  /** Clock and processes: the replies are arbitrary, the clock never runs backwards. */
  class World {
    const replies: nat -> Reply
    var calls: nat
    var now: nat
    ghost var log: seq<Exchange>

    constructor (replies: nat -> Reply)
      ensures this.replies == replies && Valid() && calls == 0 && log == []
    {
      this.replies := replies;
      calls, now, log := 0, 0, [];
    }

    /** The log is what was asked and answered. */
    ghost predicate Valid()
      reads this
    {
      && |log| == calls
      && (forall k :: 0 <= k < |log| ==> log[k].reply == replies(k) && log[k].time <= now)
      && (forall k, l :: 0 <= k < l < |log| ==> log[k].time + log[l].reply.elapsed <= log[l].time)
    }

    method Ask(q: Query) returns (r: Reply)
      requires Valid()
      modifies this
      ensures Valid() && r == replies(old(calls)) && now == old(now) + r.elapsed && calls == old(calls) + 1
      ensures log == old(log) + [Exchange(q, r, now)]
    {
      r := replies(calls);
      calls := calls + 1;
      now := now + r.elapsed;
      log := log + [Exchange(q, r, now)];
    }

    method Sleep() returns (r: Reply)
      requires Valid()
      modifies this
      ensures Valid() && now >= old(now) + POLL_MS && log == old(log) + [Exchange(Nap, r, now - POLL_MS)]
    {
      r := Ask(Nap);
      now := now + POLL_MS;
    }
  }

  // ---- suites and results ----

  datatype ActiveSuite = ActiveSuite(name: string, started: nat, timeoutMs: nat)

  /** Why a suite got its result line; all but a clean exit also leave a message in the log. */
  datatype Cause = Exited(code: int, hasSummary: bool) | Hung | NotStarted

  /** A line of the results file. */
  datatype Line = Line(name: string, rc: int, cause: Cause)

  function ReturnCode(cause: Cause): int {
    match cause
    case Exited(code, hasSummary) => if code == 0 && !hasSummary then 97 else code
    case Hung => 124
    case NotStarted => 98
  }

  const SLOW_SUITES: set<string> := {"incremental", "store_arch", "daemon_runtime"}

  datatype Config = Config(jobs: nat, timeoutMs: nat, slowTimeoutMs: nat)

  function TimeoutOf(suite: string, config: Config): (t: nat)
    ensures suite == "incremental" || suite == "store_arch" || suite == "daemon_runtime" ==> t == config.slowTimeoutMs
    ensures suite != "incremental" && suite != "store_arch" && suite != "daemon_runtime" ==> t == config.timeoutMs
  {
    if suite in SLOW_SUITES then config.slowTimeoutMs else config.timeoutMs
  }

  // ---- what the log of calls says ----

  predicate Spawned(e: Exchange, suite: string) {
    e.query == Start(suite) && e.reply.ok && e.reply.spawned
  }

  /** The suite's process has exited, or its process tree was terminated. */
  predicate SeenOver(e: Exchange, suite: string) {
    e.reply.ok && ((e.query == Check(suite) && e.reply.exitCode != None) || e.query == Terminate(suite))
  }

  /** The suites started, in order. */
  function Starts(log: seq<Exchange>): seq<string> {
    if log == [] then []
    else
      var e := log[|log| - 1];
      Starts(log[..|log| - 1]) + if e.query.Start? then [e.query.suite] else []
  }

  /** The suites whose process was started and has not been seen to be over. */
  function Live(log: seq<Exchange>): set<string> {
    if log == [] then {}
    else
      var before, e := Live(log[..|log| - 1]), log[|log| - 1];
      match e.query
      case Start(suite) => if Spawned(e, suite) then before + {suite} else before
      case Check(suite) => if SeenOver(e, suite) then before - {suite} else before
      case Terminate(suite) => if SeenOver(e, suite) then before - {suite} else before
      case _ => before
  }

  /** At no moment were more than `jobs` processes live. */
  ghost predicate Bounded(log: seq<Exchange>, jobs: nat) {
    forall k :: 0 <= k <= |log| ==> |Live(log[..k])| <= jobs
  }

  ghost predicate StartedAt(log: seq<Exchange>, a: ActiveSuite, h: int) {
    0 <= h < |log| && Spawned(log[h], a.name) && log[h].time == a.started
  }

  /** A suite in the active table was started when it says, with the time it says. */
  ghost predicate Started(log: seq<Exchange>, a: ActiveSuite, config: Config) {
    a.timeoutMs == TimeoutOf(a.name, config) && exists h :: StartedAt(log, a, h)
  }

  ghost predicate RefusedAt(log: seq<Exchange>, name: string, h: int) {
    0 <= h < |log| && log[h].query == Start(name) && log[h].reply.ok && !log[h].reply.spawned
  }

  /** The process was started, then polled with that exit code, then its log read. */
  ghost predicate ExitedAt(log: seq<Exchange>, name: string, code: int, summary: bool, h: int, i: int, j: int) {
    && 0 <= h < i < j < |log| && Spawned(log[h], name)
    && log[i].query == Check(name) && log[i].reply.ok && log[i].reply.exitCode == Some(code)
    && log[j].query == Record(name) && log[j].reply.hasSummary == summary
  }

  /** The process was started, was still running when its time was over, and was terminated. */
  ghost predicate HungAt(log: seq<Exchange>, name: string, timeoutMs: nat, h: int, i: int, j: int) {
    && 0 <= h < i < j < |log| && Spawned(log[h], name)
    && log[i].query == Check(name) && log[i].reply.ok && log[i].reply.exitCode == None
    && log[i].time >= log[h].time + timeoutMs
    && log[j].query == Terminate(name) && log[j].reply.ok
  }

  /** A result line says what happened. */
  ghost predicate Backed(log: seq<Exchange>, l: Line, config: Config) {
    match l.cause
    case NotStarted => l.rc == 98 && exists h :: RefusedAt(log, l.name, h)
    case Exited(code, summary) =>
      && l.rc == (if code == 0 && !summary then 97 else code)
      && exists h, i, j :: ExitedAt(log, l.name, code, summary, h, i, j)
    case Hung => l.rc == 124 && exists h, i, j :: HungAt(log, l.name, TimeoutOf(l.name, config), h, i, j)
  }

  /** The scheduler's tables are a true account of the calls made. */
  ghost predicate Told(log: seq<Exchange>, suites: seq<string>, pending: seq<string>, active: seq<ActiveSuite>,
                       results: seq<Line>, config: Config) {
    && Starts(log) + pending == suites
    && (forall k :: 0 <= k < |active| ==> Started(log, active[k], config))
    && (forall k :: 0 <= k < |results| ==> Backed(log, results[k], config))
    && Live(log) <= NameSet(active)
    && Bounded(log, config.jobs)
  }

  function NameSet(active: seq<ActiveSuite>): set<string> {
    set k | 0 <= k < |active| :: active[k].name
  }

  lemma {:induction false} NameSetSize(active: seq<ActiveSuite>)
    ensures |NameSet(active)| <= |active|
  {
    if active != [] {
      var n := |active| - 1;
      NameSetSize(active[..n]);
      assert NameSet(active) == NameSet(active[..n]) + {active[n].name};
    }
  }

  lemma NameSetGrows(active: seq<ActiveSuite>, a: ActiveSuite)
    ensures NameSet(active + [a]) == NameSet(active) + {a.name}
  {
    var all := active + [a];
    assert all[|active|] == a;
    forall n | n in NameSet(active) ensures n in NameSet(all) {
      var k :| 0 <= k < |active| && active[k].name == n;
      assert all[k].name == n;
    }
  }

  /** At moment `h` a process of the suite was started, and it has not been seen to be over since. */
  ghost predicate LiveSince(log: seq<Exchange>, suite: string, h: nat) {
    && h < |log| && log[h].query == Start(suite) && log[h].reply.ok && log[h].reply.spawned
    && forall k :: h < k < |log| ==> !SeenOver(log[k], suite)
  }

  lemma {:induction false} LiveMeans(log: seq<Exchange>, suite: string)
    ensures suite in Live(log) <==> exists h :: LiveSince(log, suite, h)
  {
    if log != [] {
      var n := |log| - 1;
      var e := log[n];
      LiveMeans(log[..n], suite);
      assert suite in Live(log) <==>
        Spawned(e, suite) || (suite in Live(log[..n]) && !SeenOver(e, suite));
      hide Live;
      if suite in Live(log[..n]) && !SeenOver(e, suite) {
        var h: nat :| LiveSince(log[..n], suite, h);
        assert LiveSince(log, suite, h);
      }
      if Spawned(e, suite) { assert LiveSince(log, suite, n); }
      if h: nat :| LiveSince(log, suite, h) && h < n {
        assert LiveSince(log[..n], suite, h);
        assert !SeenOver(log[n], suite);
      }
    }
  }

  /** A start is listed; it makes its suite live if a process came of it. */
  lemma LogStart(log: seq<Exchange>, e: Exchange, suite: string)
    requires e.query == Start(suite)
    ensures Starts(log + [e]) == Starts(log) + [suite]
    ensures Live(log + [e]) == if Spawned(e, suite) then Live(log) + {suite} else Live(log)
  {
    assert (log + [e])[..|log|] == log;
  }

  lemma BackedLater(log: seq<Exchange>, e: Exchange, l: Line, config: Config)
    requires Backed(log, l, config)
    ensures Backed(log + [e], l, config)
  {
    var all := log + [e];
    match l.cause
    case NotStarted =>
      var h :| RefusedAt(log, l.name, h);
      assert RefusedAt(all, l.name, h);
    case Exited(code, summary) =>
      var h, i, j :| ExitedAt(log, l.name, code, summary, h, i, j);
      assert ExitedAt(all, l.name, code, summary, h, i, j);
    case Hung =>
      var h, i, j :| HungAt(log, l.name, TimeoutOf(l.name, config), h, i, j);
      assert HungAt(all, l.name, TimeoutOf(l.name, config), h, i, j);
  }

  lemma ActiveStarted(log: seq<Exchange>, suites: seq<string>, pending: seq<string>, active: seq<ActiveSuite>,
                      results: seq<Line>, config: Config, k: nat)
    requires Told(log, suites, pending, active, results, config) && k < |active|
    ensures Started(log, active[k], config)
  {
  }

  lemma StartedLater(log: seq<Exchange>, e: Exchange, a: ActiveSuite, config: Config)
    requires Started(log, a, config)
    ensures Started(log + [e], a, config)
  {
    var h :| StartedAt(log, a, h);
    assert StartedAt(log + [e], a, h);
  }

  lemma BoundedLater(log: seq<Exchange>, e: Exchange, jobs: nat)
    requires Bounded(log, jobs) && |Live(log + [e])| <= jobs
    ensures Bounded(log + [e], jobs)
  {
    hide Live;
    var all := log + [e];
    forall k | 0 <= k <= |all| ensures |Live(all[..k])| <= jobs {
      if k <= |log| { assert all[..k] == log[..k]; } else { assert all[..k] == all; }
    }
  }

  lemma StartedNow(log: seq<Exchange>, e: Exchange, a: ActiveSuite, config: Config)
    requires Spawned(e, a.name) && e.time == a.started && a.timeoutMs == TimeoutOf(a.name, config)
    ensures Started(log + [e], a, config)
  {
    assert StartedAt(log + [e], a, |log|);
  }

  /** Any call but a start leaves the account true. */
  lemma ToldQuiet(log: seq<Exchange>, e: Exchange, suites: seq<string>, pending: seq<string>, active: seq<ActiveSuite>,
                  results: seq<Line>, config: Config)
    requires Told(log, suites, pending, active, results, config) && !e.query.Start?
    ensures Told(log + [e], suites, pending, active, results, config)
    ensures Live(log + [e]) <= Live(log)
  {
    assert (log + [e])[..|log|] == log;
    assert log[..|log|] == log;
    assert Live(log + [e]) <= Live(log);
    assert Starts(log + [e]) == Starts(log);
    SubsetSize(Live(log + [e]), Live(log));
    hide Live, Starts, Backed, Started;
    BoundedLater(log, e, config.jobs);
    forall k | 0 <= k < |active| ensures Started(log + [e], active[k], config) {
      StartedLater(log, e, active[k], config);
    }
    forall k | 0 <= k < |results| ensures Backed(log + [e], results[k], config) {
      BackedLater(log, e, results[k], config);
    }
  }

  /** A start, with a slot free: the suite is active from now on, or it is not running. */
  lemma ToldStart(log: seq<Exchange>, e: Exchange, suite: string, suites: seq<string>, rest: seq<string>,
                  active: seq<ActiveSuite>, results: seq<Line>, config: Config)
    requires Told(log, suites, [suite] + rest, active, results, config) && |active| < config.jobs
    requires e.query == Start(suite)
    ensures !Spawned(e, suite) ==> Told(log + [e], suites, rest, active, results, config)
    ensures Spawned(e, suite) ==>
              var a := ActiveSuite(suite, e.time, TimeoutOf(suite, config));
              Told(log + [e], suites, rest, active + [a], results, config)
  {
    var all, a := log + [e], ActiveSuite(suite, e.time, TimeoutOf(suite, config));
    hide Live, Starts, Backed, NameSet, Spawned, Bounded;
    LogStart(log, e, suite);
    assert Starts(all) + rest == Starts(log) + ([suite] + rest);
    NameSetGrows(active, a);
    NameSetSize(active + [a]);
    SubsetSize(Live(all), NameSet(active + [a]));
    BoundedLater(log, e, config.jobs);
    forall k | 0 <= k < |active| ensures Started(all, active[k], config) { StartedLater(log, e, active[k], config); }
    forall k | 0 <= k < |results| ensures Backed(all, results[k], config) { BackedLater(log, e, results[k], config); }
    if Spawned(e, suite) { StartedNow(log, e, a, config); }
  }

  /** A true line may be added, and a suite that is over taken from the table. */
  lemma ToldLine(log: seq<Exchange>, suites: seq<string>, pending: seq<string>, active: seq<ActiveSuite>,
                 results: seq<Line>, l: Line, config: Config)
    requires Told(log, suites, pending, active, results, config) && Backed(log, l, config)
    ensures Told(log, suites, pending, active, results + [l], config)
  {
    hide Live, Starts, Backed, Bounded, Started;
  }

  lemma ToldDrop(log: seq<Exchange>, suites: seq<string>, pending: seq<string>, kept: seq<ActiveSuite>, x: ActiveSuite,
                 rest: seq<ActiveSuite>, results: seq<Line>, config: Config)
    requires Told(log, suites, pending, kept + [x] + rest, results, config) && x.name !in Live(log)
    ensures Told(log, suites, pending, kept + rest, results, config)
  {
    hide Live, Starts, Backed, Bounded, Started;
    var all := kept + [x] + rest;
    forall k | 0 <= k < |kept + rest| ensures Started(log, (kept + rest)[k], config) {
      assert (kept + rest)[k] == all[if k < |kept| then k else k + 1];
    }
    forall n | n in NameSet(all) && n != x.name ensures n in NameSet(kept + rest) {
      var k :| 0 <= k < |all| && all[k].name == n;
      assert (kept + rest)[if k < |kept| then k else k - 1].name == n;
    }
  }

  /** A suite that no poll finds exited is never reported as passed, nor with any code of its own. */
  lemma HungNeverPasses(log: seq<Exchange>, suites: seq<string>, pending: seq<string>, active: seq<ActiveSuite>,
                        results: seq<Line>, config: Config, name: string)
    requires Told(log, suites, pending, active, results, config)
    requires forall k :: 0 <= k < |log| && log[k].query == Check(name) ==> log[k].reply.exitCode == None
    ensures forall k :: 0 <= k < |results| && results[k].name == name ==> results[k].rc == 124 || results[k].rc == 98
  {
    forall k | 0 <= k < |results| && results[k].name == name ensures results[k].rc == 124 || results[k].rc == 98 {
      var l := results[k];
      assert Backed(log, l, config);
      NotExited(log, l, config);
    }
  }

  lemma NotExited(log: seq<Exchange>, l: Line, config: Config)
    requires Backed(log, l, config)
    requires forall k :: 0 <= k < |log| && log[k].query == Check(l.name) ==> log[k].reply.exitCode == None
    ensures !l.cause.Exited?
  {
  }

  /** A suite reported as passed was seen to exit cleanly, and its log held a summary afterwards. */
  lemma PassedMeansClean(log: seq<Exchange>, l: Line, config: Config)
    requires Backed(log, l, config) && l.rc == 0
    ensures exists i, j :: 0 <= i < j < |log|
              && log[i].query == Check(l.name) && log[i].reply.exitCode == Some(0)
              && log[j].query == Record(l.name) && log[j].reply.hasSummary
  {
    assert l.cause == Exited(0, true);
    var h, i, j :| ExitedAt(log, l.name, 0, true, h, i, j);
  }

  lemma SmoothStep(log: seq<Exchange>, e: Exchange)
    ensures AllSmooth(log + [e]) <==> AllSmooth(log) && Smooth(e)
  {
    var all := log + [e];
    assert all[|log|] == e && forall k :: 0 <= k < |log| ==> all[k] == log[k];
  }

  lemma SmoothPrefix(log: seq<Exchange>, all: seq<Exchange>)
    requires log <= all && AllSmooth(all)
    ensures AllSmooth(log)
  {
    assert forall k :: 0 <= k < |log| ==> log[k] == all[k];
  }

  lemma OverIsDead(log: seq<Exchange>, e: Exchange, suite: string)
    requires SeenOver(e, suite)
    ensures suite !in Live(log + [e])
  {
    assert (log + [e])[..|log|] == log;
  }

  /** Only a start brings a suite to life. */
  lemma DeadStays(log: seq<Exchange>, e: Exchange, suite: string)
    requires !e.query.Start? && suite !in Live(log)
    ensures suite !in Live(log + [e])
  {
    assert (log + [e])[..|log|] == log;
  }

  lemma RefusedNow(log: seq<Exchange>, e: Exchange, suite: string, config: Config)
    requires e.query == Start(suite) && e.reply.ok && !e.reply.spawned
    ensures Backed(log + [e], Line(suite, ReturnCode(NotStarted), NotStarted), config)
  {
    assert RefusedAt(log + [e], suite, |log|);
  }

  lemma ExitedNow(log: seq<Exchange>, check: Exchange, record: Exchange, a: ActiveSuite, code: int, config: Config)
    requires Started(log, a, config)
    requires check.query == Check(a.name) && check.reply.ok && check.reply.exitCode == Some(code)
    requires record.query == Record(a.name)
    ensures var cause := Exited(code, record.reply.hasSummary);
            Backed(log + [check] + [record], Line(a.name, ReturnCode(cause), cause), config)
  {
    var all := log + [check] + [record];
    var h :| StartedAt(log, a, h);
    assert all[h] == log[h] && all[|log|] == check && all[|log| + 1] == record;
    assert ExitedAt(all, a.name, code, record.reply.hasSummary, h, |log|, |log| + 1);
  }

  lemma HungNow(log: seq<Exchange>, check: Exchange, end: Exchange, a: ActiveSuite, config: Config)
    requires Started(log, a, config)
    requires check.query == Check(a.name) && check.reply.ok && check.reply.exitCode == None
    requires check.time >= a.started + a.timeoutMs
    requires end.query == Terminate(a.name) && end.reply.ok
    ensures Backed(log + [check] + [end], Line(a.name, ReturnCode(Hung), Hung), config)
  {
    var all := log + [check] + [end];
    var h :| StartedAt(log, a, h);
    assert all[h] == log[h] && all[|log|] == check && all[|log| + 1] == end;
    assert HungAt(all, a.name, TimeoutOf(a.name, config), h, |log|, |log| + 1);
  }

  /** The last calls of a log are attempts to terminate these suites, in this order. */
  ghost predicate Attempted(log: seq<Exchange>, from: nat, names: seq<string>) {
    && |log| == from + |names|
    && forall k :: 0 <= k < |names| ==> log[from + k].query == Terminate(names[k])
  }

  lemma AttemptedStep(log: seq<Exchange>, from: nat, names: seq<string>, e: Exchange, name: string)
    requires Attempted(log, from, names) && e.query == Terminate(name)
    ensures Attempted(log + [e], from, names + [name])
  {
    var all, more := log + [e], names + [name];
    forall k | 0 <= k < |more| ensures all[from + k].query == Terminate(more[k]) {
      if k < |names| { assert all[from + k] == log[from + k]; }
    }
  }

  /** An exception that the cleanup loop does not catch. */
  predicate Uncaught(r: Reply) {
    !r.ok && r.foreign
  }

  /** Cleanup after the calls `before` has tried to terminate the first `n` suites, all with success
      or not. */
  ghost predicate Cleaning(before: seq<Exchange>, log: seq<Exchange>, names: seq<string>, n: nat, success: bool) {
    && before <= log && n <= |names| && Attempted(log, |before|, names[..n])
    && (success <==> forall k :: |before| <= k < |log| ==> log[k].reply.ok)
  }

  ghost predicate AllCaught(before: seq<Exchange>, log: seq<Exchange>) {
    forall k :: |before| <= k < |log| ==> !Uncaught(log[k].reply)
  }

  lemma CleaningStarts(before: seq<Exchange>, names: seq<string>)
    ensures Cleaning(before, before, names, 0, true) && AllCaught(before, before)
  {
  }

  lemma CleaningStep(before: seq<Exchange>, log: seq<Exchange>, names: seq<string>, n: nat, success: bool, e: Exchange)
    requires Cleaning(before, log, names, n, success) && n < |names| && e.query == Terminate(names[n])
    requires AllCaught(before, log)
    ensures Cleaning(before, log + [e], names, n + 1, success && e.reply.ok)
    ensures AllCaught(before, log + [e]) <==> !Uncaught(e.reply)
  {
    var all := log + [e];
    assert names[..n + 1] == names[..n] + [names[n]];
    AttemptedStep(log, |before|, names[..n], e, names[n]);
    assert all[|log|] == e && forall k :: 0 <= k < |log| ==> all[k] == log[k];
    hide Attempted;
  }

  /** At the end of any run: termination was tried for every suite in the table, or for the first
      few, the last of which ended in an exception that is not caught. */
  ghost predicate Tidied(log: seq<Exchange>, tried: seq<string>, names: seq<string>) {
    && |tried| <= |log| && Attempted(log, |log| - |tried|, tried) && tried <= names
    && (tried == names || (tried != [] && Uncaught(log[|log| - 1].reply)))
  }

  lemma CleaningEnds(before: seq<Exchange>, log: seq<Exchange>, names: seq<string>, n: nat, success: bool)
    requires Cleaning(before, log, names, n, success)
    requires n == |names| || (n > 0 && Uncaught(log[|log| - 1].reply))
    ensures Tidied(log, names[..n], names)
    ensures names == [] ==> log == before && success
    ensures AllSmooth(log) ==> AllSmooth(before)
  {
    if n == |names| { assert names[..n] == names; }
    if AllSmooth(log) { SmoothPrefix(before, log); }
  }

  /** A normal end: every suite was started, and no process is left. */
  lemma ToldAll(log: seq<Exchange>, suites: seq<string>, results: seq<Line>, config: Config)
    requires Told(log, suites, [], [], results, config)
    ensures Starts(log) == suites && Live(log) == {}
  {
    hide Starts, Live;
    assert Starts(log) + [] == Starts(log);
  }

  lemma ToldNothing(suites: seq<string>, config: Config)
    ensures Told([], suites, suites, [], [], config) && AllSmooth([])
  {
    assert Starts([]) + suites == suites;
  }
}
