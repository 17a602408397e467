/** The bounded parallel scheduler of `scripts/run-test-wave.py`. */
module Waves {
  import opened Sequences
  import opened WaveLogs
  import opened Wrappers

  // ---- the suite list ----

  /** The whole line consists of lower-case letters, digits and underscores. */
  predicate IsSuiteName(s: string) {
    s != [] && forall i :: 0 <= i < |s| ==> 'a' <= s[i] <= 'z' || '0' <= s[i] <= '9' || s[i] == '_'
  }

  lemma SuiteNameExamples()
    ensures IsSuiteName("store_arch2")
    ensures !IsSuiteName("") && !IsSuiteName("Store") && !IsSuiteName("a-b") && !IsSuiteName("a\n")
  {
    assert "Store"[0] == 'S' && "a-b"[1] == '-' && "a\n"[1] == '\n';
  }

  /** `read_suites`: every line a suite name, and no name twice. */
  predicate SuiteListOk(lines: seq<string>) {
    (forall i :: 0 <= i < |lines| ==> IsSuiteName(lines[i])) && NoRepeats(lines)
  }

  // ---- the scheduler's data ----

  datatype Outcome = Completed | Raised

  /** A polled suite is over when its process has exited, or hung until its deadline; its result
      line says which. */
  ghost predicate Judged(running: ActiveSuite, now: nat, poll: Reply, log: Reply, recorded: bool,
                         before: seq<Line>, after: seq<Line>) {
    && (recorded <==> poll.exitCode != None || now >= running.started + running.timeoutMs)
    && var cause := if poll.exitCode == None then Hung else Exited(poll.exitCode.value, log.hasSummary);
       after == if recorded then before + [Line(running.name, ReturnCode(cause), cause)] else before
  }

  function ActiveNames(active: seq<ActiveSuite>): seq<string> {
    seq(|active|, i requires 0 <= i < |active| => active[i].name)
  }

  function LineNames(lines: seq<Line>): seq<string> {
    seq(|lines|, i requires 0 <= i < |lines| => lines[i].name)
  }

  /** Python's `active[name] = started`: a present key keeps its place and loses its value. */
  function Put(active: seq<ActiveSuite>, a: ActiveSuite): seq<ActiveSuite> {
    if active == [] then [a]
    else if active[0].name == a.name then [a] + active[1..]
    else [active[0]] + Put(active[1..], a)
  }

  /** A new name is appended. */
  lemma {:induction false} PutNew(active: seq<ActiveSuite>, a: ActiveSuite)
    requires a.name !in ActiveNames(active)
    ensures Put(active, a) == active + [a]
  {
    if active != [] {
      assert ActiveNames(active) == [active[0].name] + ActiveNames(active[1..]);
      PutNew(active[1..], a);
    }
  }

  /** Why names must be unique: a running suite of the same name would be forgotten. */
  lemma {:induction false} PutDuplicateForgets(active: seq<ActiveSuite>, i: nat, a: ActiveSuite)
    requires i < |active| && active[i].name == a.name && NoRepeats(ActiveNames(active))
    ensures Put(active, a) == active[i := a]
  {
    var names := ActiveNames(active);
    if i > 0 {
      assert names[0] != names[i];
      assert ActiveNames(active[1..]) == names[1..];
      PutDuplicateForgets(active[1..], i - 1, a);
    }
  }

  /** Python's `del active[name]`. */
  function Without(active: seq<ActiveSuite>, name: string): seq<ActiveSuite> {
    if active == [] then []
    else if active[0].name == name then active[1..]
    else [active[0]] + Without(active[1..], name)
  }

  lemma {:induction false} WithoutMiddle(kept: seq<ActiveSuite>, x: ActiveSuite, rest: seq<ActiveSuite>)
    requires x.name !in ActiveNames(kept)
    ensures Without(kept + [x] + rest, x.name) == kept + rest
  {
    if kept == [] {
      assert kept + [x] + rest == [x] + rest;
      assert kept + rest == rest;
    } else {
      assert ActiveNames(kept) == [kept[0].name] + ActiveNames(kept[1..]);
      WithoutMiddle(kept[1..], x, rest);
      assert (kept + [x] + rest)[1..] == kept[1..] + [x] + rest;
    }
  }

  class Wave {
    const suites: seq<string>
    const config: Config
    const world: World
    var pending: seq<string>
    var active: seq<ActiveSuite>
    var results: seq<Line>
    var cleanedUp: seq<string>
    ghost var deadline: nat

    constructor (suites: seq<string>, config: Config, world: World)
      ensures this.suites == suites && this.config == config && this.world == world
      ensures pending == suites && active == [] && results == [] && cleanedUp == []
    {
      this.suites, this.config, this.world := suites, config, world;
      pending, active, results, cleanedUp := suites, [], [], [];
      deadline := 0;
    }

    /** Pending, active and recorded suites are the suite list, each in one place only; `aside`
        are suites between two places. */
    ghost predicate Accounted(aside: multiset<string>)
      reads this
    {
      multiset(pending) + multiset(ActiveNames(active)) + multiset(LineNames(results)) + aside == multiset(suites)
    }

    ghost predicate Sound()
      reads this
    {
      && NoRepeats(suites)
      && |active| <= config.jobs
      && (forall i :: 0 <= i < |active| ==> active[i].started + active[i].timeoutMs <= deadline)
      && (forall i :: 0 <= i < |results| ==> results[i].rc == ReturnCode(results[i].cause))
    }

    /** The tables are a true account of the calls made to the outside world. */
    ghost predicate Honest()
      reads this, world
    {
      world.Valid() && Told(world.log, suites, pending, active, results, config)
    }

    /** What no exception, wherever it strikes, can break: a suite has at most one result line. */
    ghost predicate Intact()
      reads this
    {
      Sound() && NoRepeats(LineNames(results)) && forall i :: 0 <= i < |results| ==> results[i].name in suites
    }

    /** Between two steps, as long as no call has raised anything. */
    ghost predicate Ready()
      reads this, world
    {
      Intact() && Accounted(multiset{}) && Honest() && AllSmooth(world.log)
    }

    /** After an exception. */
    ghost predicate Broken()
      reads this, world
    {
      Intact() && Honest() && !AllSmooth(world.log)
    }

    lemma Begin()
      requires NoRepeats(suites) && pending == suites && active == [] && results == []
      requires world.Valid() && world.log == []
      ensures Ready()
    {
      assert ActiveNames([]) == [] && LineNames([]) == [];
      ToldNothing(suites, config);
    }

    /** A suite list without repetition has no repetition in any of its places. */
    lemma Places(aside: multiset<string>)
      requires Sound() && Accounted(aside)
      ensures NoRepeats(pending) && NoRepeats(ActiveNames(active)) && NoRepeats(LineNames(results))
      ensures forall n :: n in aside ==> n !in pending && n !in ActiveNames(active) && n !in LineNames(results)
      ensures forall n :: n in ActiveNames(active) ==> n !in pending && n !in LineNames(results)
      ensures forall n :: n in pending ==> n !in LineNames(results)
      ensures Intact()
    {
      hide ActiveNames, LineNames;
      CountsAtMostOne(suites);
      ApartPlaces(pending, ActiveNames(active), LineNames(results), aside, suites);
      LineNamesIn(results, suites);
    }

    // ---- steps ----

    /** Append one result line. */
    method WriteLine(name: string, cause: Cause)
      requires Sound() && NoRepeats(LineNames(results))
      requires name in suites && name !in LineNames(results)
      requires forall i :: 0 <= i < |results| ==> results[i].name in suites
      modifies this`results
      ensures results == old(results) + [Line(name, ReturnCode(cause), cause)]
      ensures LineNames(results) == old(LineNames(results)) + [name] && Intact()
    {
      results := results + [Line(name, ReturnCode(cause), cause)];
      assert LineNames(results) == old(LineNames(results)) + [name];
      NoRepeatsConcat(old(LineNames(results)), [name]);
    }

    /** The suite just taken from the pending list starts to run. */
    method Activate(a: ActiveSuite)
      requires Sound() && Accounted(multiset{a.name}) && |active| < config.jobs
      modifies this`active, this`deadline
      ensures Sound() && Accounted(multiset{}) && active == old(active) + [a] && Intact()
    {
      Places(multiset{a.name});
      PutNew(active, a);
      ghost var before := active;
      active := Put(active, a);
      assert ActiveNames(active) == ActiveNames(before) + [a.name];
      deadline := if a.started + a.timeoutMs > deadline then a.started + a.timeoutMs else deadline;
      Places(multiset{});
    }

    /** The suite just taken from the pending list could not be started: `record_start_failure`. */
    method RecordStartFailure(suite: string, trouble: Trouble) returns (o: Outcome)
      requires Sound() && Accounted(multiset{suite})
      modifies this`results
      ensures Intact() && (o == Completed ==> Accounted(multiset{}))
      ensures o == Completed <==> trouble == Fine
      ensures results == old(results) + if trouble == BeforeWrite then [] else [Line(suite, 98, NotStarted)]
    {
      o := Raised;
      Places(multiset{suite});
      InSuites(suite, pending, ActiveNames(active), LineNames(results), multiset{suite}, suites);
      if trouble == BeforeWrite { return; }
      WriteLine(suite, NotStarted);
      if trouble == AfterWrite { return; }
      o := Completed;
    }

    /** Any call but a start. */
    method Note(q: Query) returns (r: Reply)
      requires Honest() && !q.Start?
      modifies world
      ensures Honest() && world.log == old(world.log) + [Exchange(q, r, world.now)]
      ensures r == world.replies(old(world.calls)) && world.calls == old(world.calls) + 1
      ensures world.now == old(world.now) + r.elapsed
      ensures AllSmooth(world.log) <==> AllSmooth(old(world.log)) && Smooth(Exchange(q, r, world.now))
    {
      hide Told, AllSmooth;
      ghost var log := world.log;
      r := world.Ask(q);
      ToldQuiet(log, Exchange(q, r, world.now), suites, pending, active, results, config);
      SmoothStep(log, Exchange(q, r, world.now));
    }

    /** Take the next pending suite and start it, or record that it did not start. */
    method StartNext() returns (o: Outcome)
      requires Ready() && pending != [] && |active| < config.jobs
      modifies this, world
      ensures if o == Completed then Ready() else Broken()
      ensures cleanedUp == old(cleanedUp) && world.now >= old(world.now)
      ensures o == Completed ==> pending == old(pending)[1..]
      ensures var r := world.replies(old(world.calls));
              r.ok && r.spawned ==> o == Completed && world.calls == old(world.calls) + 1
      ensures o == Completed ==>
                var suite, r := old(pending[0]), world.replies(old(world.calls));
                if r.spawned then
                  && results == old(results)
                  && active == old(active) + [ActiveSuite(suite, world.now, TimeoutOf(suite, config))]
                else active == old(active) && results == old(results) + [Line(suite, 98, NotStarted)]
    {
      hide ActiveNames, LineNames, Told, Backed, AllSmooth, NoRepeats;
      o := Raised;
      ghost var log := world.log;
      var suite, r := Launch();
      if !r.ok { return; }
      if r.spawned {
        Activate(ActiveSuite(suite, world.now, TimeoutOf(suite, config)));
        o := Completed;
      } else {
        RefusedNow(log, Exchange(Start(suite), r, world.now), suite, config);
        o := Refuse(suite);
      }
    }

    /** Take the next pending suite and ask for its process. */
    method Launch() returns (suite: string, r: Reply)
      requires Ready() && pending != [] && |active| < config.jobs
      modifies this`pending, world
      ensures suite == old(pending)[0] && pending == old(pending)[1..]
      ensures Intact() && Accounted(multiset{suite}) && world.Valid()
      ensures r == world.replies(old(world.calls)) && world.calls == old(world.calls) + 1
      ensures world.log == old(world.log) + [Exchange(Start(suite), r, world.now)] && world.now >= old(world.now)
      ensures AllSmooth(world.log) <==> r.ok
      ensures if r.ok && r.spawned
              then Told(world.log, suites, pending, active + [ActiveSuite(suite, world.now, TimeoutOf(suite, config))],
                        results, config)
              else Honest()
    {
      hide ActiveNames, LineNames, Told, Backed, AllSmooth, NoRepeats;
      suite := pending[0];
      TakeFirst(pending);
      pending := pending[1..];
      assert old(pending) == [suite] + pending;
      Places(multiset{suite});
      ghost var log := world.log;
      r := world.Ask(Start(suite));
      ghost var e := Exchange(Start(suite), r, world.now);
      ToldStart(log, e, suite, suites, pending, active, results, config);
      SmoothStep(log, e);
    }

    /** The line of a suite that did not start. */
    method Refuse(suite: string) returns (o: Outcome)
      requires Sound() && Accounted(multiset{suite}) && Honest() && AllSmooth(world.log)
      requires Backed(world.log, Line(suite, 98, NotStarted), config)
      modifies this`results, world
      ensures if o == Completed then Ready() else Broken()
      ensures world.now >= old(world.now)
      ensures o == Completed ==> results == old(results) + [Line(suite, 98, NotStarted)]
    {
      hide ActiveNames, LineNames, Told, Backed, AllSmooth;
      ghost var log := world.log;
      var q := Note(Record(suite));
      BackedLater(log, Exchange(Record(suite), q, world.now), Line(suite, 98, NotStarted), config);
      ToldLine(world.log, suites, pending, active, results, Line(suite, 98, NotStarted), config);
      o := RecordStartFailure(suite, q.trouble);
      assert old(results) + [] == old(results);
    }

    /** `record_result` and the removal from the active table. */
    method RecordResult(running: ActiveSuite, cause: Cause, trouble: Trouble,
                        ghost kept: seq<ActiveSuite>, ghost rest: seq<ActiveSuite>)
      returns (o: Outcome)
      requires Sound() && Accounted(multiset{}) && active == kept + [running] + rest
      modifies this`results, this`active
      ensures Intact() && (o == Completed ==> Accounted(multiset{}))
      ensures o == Completed <==> trouble == Fine
      ensures active == if o == Completed then kept + rest else old(active)
      ensures results == old(results) +
                if trouble == BeforeWrite then [] else [Line(running.name, ReturnCode(cause), cause)]
    {
      hide NoRepeats;
      o := Raised;
      Places(multiset{});
      ActiveMiddle(kept, running, rest);
      assert running.name in ActiveNames(active);
      InSuites(running.name, pending, ActiveNames(active), LineNames(results), multiset{}, suites);
      if trouble == BeforeWrite { return; }
      WriteLine(running.name, cause);
      if trouble == AfterWrite { return; }
      Retire(running, kept, rest);
      o := Completed;
    }

    method Retire(running: ActiveSuite, ghost kept: seq<ActiveSuite>, ghost rest: seq<ActiveSuite>)
      requires Sound() && active == kept + [running] + rest && running.name !in ActiveNames(kept)
      modifies this`active
      ensures Sound() && active == kept + rest
    {
      hide ActiveNames, NoRepeats;
      WithoutMiddle(kept, running, rest);
      active := Without(active, running.name);
      forall i | 0 <= i < |active| ensures active[i] in kept + [running] + rest {}
    }

    /** Record a suite that is over. */
    method Finish(running: ActiveSuite, cause: Cause, q: Reply, ghost log: seq<Exchange>,
                  ghost kept: seq<ActiveSuite>, ghost rest: seq<ActiveSuite>)
      returns (o: Outcome)
      requires Sound() && Accounted(multiset{}) && active == kept + [running] + rest
      requires Honest() && AllSmooth(log) && world.log == log + [Exchange(Record(running.name), q, world.now)]
      requires running.name !in Live(world.log)
      requires Backed(world.log, Line(running.name, ReturnCode(cause), cause), config)
      modifies this`results, this`active
      ensures if o == Completed then Ready() else Broken()
      ensures o == Completed ==> active == kept + rest
      ensures o == Completed ==> results == old(results) + [Line(running.name, ReturnCode(cause), cause)]
    {
      hide ActiveNames, LineNames, Told, Backed, AllSmooth, Live;
      ghost var l := Line(running.name, ReturnCode(cause), cause);
      SmoothStep(log, Exchange(Record(running.name), q, world.now));
      ToldLine(world.log, suites, pending, active, results, l, config);
      ToldDrop(world.log, suites, pending, kept, running, rest, results + [l], config);
      o := RecordResult(running, cause, q.trouble, kept, rest);
      assert old(results) + [] == old(results);
    }

    /** Poll one active suite; terminate it if it hangs; record it if it is over. */
    method Handle(running: ActiveSuite, now: nat, ghost kept: seq<ActiveSuite>, ghost rest: seq<ActiveSuite>)
      returns (o: Outcome, recorded: bool)
      requires Ready() && active == kept + [running] + rest && now <= world.now
      modifies this, world
      ensures if o == Completed then Ready() else Broken()
      ensures cleanedUp == old(cleanedUp) && pending == old(pending) && deadline == old(deadline)
      ensures world.now >= old(world.now)
      ensures o == Completed && recorded ==> active == kept + rest
      ensures o == Completed && !recorded ==> active == old(active) && now < deadline
      ensures world.calls > old(world.calls)
      ensures o == Completed ==>
                Judged(running, now, world.replies(old(world.calls)), world.replies(world.calls - 1),
                       recorded, old(results), results)
    {
      hide ActiveNames, LineNames, Told, AllSmooth, Started, NoRepeats, Accounted;
      o, recorded := Raised, false;
      assert active[|kept|] == running;
      ghost var log := world.log;
      ActiveStarted(log, suites, pending, active, results, config, |kept|);
      var r := Note(Check(running.name));
      if !r.ok { return; }
      var timedOut := r.exitCode == None && now - running.started >= running.timeoutMs;
      if r.exitCode == None && !timedOut {
        o := Completed;
        return;
      }
      recorded := true;
      ghost var e := Exchange(Check(running.name), r, world.now);
      if timedOut {
        o := EndHung(running, log, e, kept, rest);
      } else {
        o := EndExited(running, r.exitCode.value, log, e, kept, rest);
      }
    }

    /** Terminate a suite that has outlived its time, and record it. */
    method EndHung(running: ActiveSuite, ghost log: seq<Exchange>, ghost check: Exchange,
                   ghost kept: seq<ActiveSuite>, ghost rest: seq<ActiveSuite>)
      returns (o: Outcome)
      requires Ready() && active == kept + [running] + rest && world.log == log + [check]
      requires Started(log, running, config) && check.query == Check(running.name)
      requires check.reply.ok && check.reply.exitCode == None && check.time >= running.started + running.timeoutMs
      modifies this`results, this`active, world
      ensures if o == Completed then Ready() else Broken()
      ensures world.now >= old(world.now) && world.calls >= old(world.calls)
      ensures o == Completed ==> active == kept + rest && results == old(results) + [Line(running.name, 124, Hung)]
    {
      hide ActiveNames, LineNames, Told, Backed, AllSmooth, Live, Started, NoRepeats, Accounted;
      o := Raised;
      ghost var polled, l := world.log, Line(running.name, ReturnCode(Hung), Hung);
      var t := Note(Terminate(running.name));
      if !t.ok { return; }
      ghost var e := Exchange(Terminate(running.name), t, world.now);
      HungNow(log, check, e, running, config);
      OverIsDead(polled, e, running.name);
      ghost var ended := world.log;
      var q := Note(Record(running.name));
      DeadStays(ended, Exchange(Record(running.name), q, world.now), running.name);
      BackedLater(ended, Exchange(Record(running.name), q, world.now), l, config);
      o := Finish(running, Hung, q, ended, kept, rest);
    }

    /** Record a suite whose process has exited. */
    method EndExited(running: ActiveSuite, code: int, ghost log: seq<Exchange>, ghost check: Exchange,
                     ghost kept: seq<ActiveSuite>, ghost rest: seq<ActiveSuite>)
      returns (o: Outcome)
      requires Ready() && active == kept + [running] + rest && world.log == log + [check]
      requires Started(log, running, config) && check.query == Check(running.name)
      requires check.reply.ok && check.reply.exitCode == Some(code)
      modifies this`results, this`active, world
      ensures if o == Completed then Ready() else Broken()
      ensures world.now >= old(world.now) && world.calls == old(world.calls) + 1
      ensures o == Completed ==> active == kept + rest
      ensures o == Completed ==>
                var cause := Exited(code, world.replies(old(world.calls)).hasSummary);
                results == old(results) + [Line(running.name, ReturnCode(cause), cause)]
    {
      hide ActiveNames, LineNames, Told, Backed, AllSmooth, Live, Started, NoRepeats, Accounted;
      ghost var polled := world.log;
      OverIsDead(log, check, running.name);
      var q := Note(Record(running.name));
      ghost var e := Exchange(Record(running.name), q, world.now);
      DeadStays(polled, e, running.name);
      ExitedNow(log, check, e, running, code, config);
      o := Finish(running, Exited(code, q.hasSummary), q, polled, kept, rest);
    }

    /** Start suites until the pending list is empty or all slots are taken. */
    method FillSlots() returns (o: Outcome)
      requires Ready()
      modifies this, world
      ensures if o == Completed then Ready() else Broken()
      ensures cleanedUp == old(cleanedUp) && world.now >= old(world.now)
      ensures o == Completed ==> |pending| <= |old(pending)|
      ensures o == Completed && |pending| == |old(pending)| ==> active == old(active) && deadline == old(deadline)
      ensures o == Completed ==> pending == [] || |active| >= config.jobs
    {
      hide Ready, Broken;
      o := Completed;
      while pending != [] && |active| < config.jobs
        invariant Ready() && o == Completed && cleanedUp == old(cleanedUp) && world.now >= old(world.now)
        invariant |pending| <= |old(pending)|
        invariant |pending| == |old(pending)| ==> active == old(active) && deadline == old(deadline)
        decreases |pending|
      {
        o := StartNext();
        if o == Raised { return; }
      }
    }

    /** One pass over a snapshot of the active table. */
    method Poll() returns (o: Outcome, progress: bool)
      requires Ready()
      modifies this, world
      ensures if o == Completed then Ready() else Broken()
      ensures cleanedUp == old(cleanedUp) && pending == old(pending) && deadline == old(deadline)
      ensures world.now >= old(world.now)
      ensures o == Completed ==> |active| <= |old(active)|
      ensures o == Completed && progress ==> |active| < |old(active)|
      ensures o == Completed && !progress ==> active == old(active)
      ensures o == Completed && !progress && active != [] ==> old(world.now) < deadline
    {
      ScanStarts(active);
      hide *;
      o, progress := Completed, false;
      var now := world.now;
      var snapshot := active;
      ghost var kept: seq<ActiveSuite>, rest := [], snapshot;
      var k := 0;
      while k < |snapshot|
        invariant 0 <= k <= |snapshot| && Ready() && o == Completed
        invariant cleanedUp == old(cleanedUp) && pending == old(pending) && deadline == old(deadline)
        invariant world.now >= now && Scanned(active, kept, rest, snapshot, k, progress)
        invariant !progress && k > 0 ==> now < deadline
      {
        var recorded;
        ScanStep(active, kept, rest, snapshot, k, progress);
        o, recorded := Handle(snapshot[k], now, kept, rest[1..]);
        if o == Raised { return; }
        if recorded {
          progress := true;
        } else {
          kept := kept + [snapshot[k]];
        }
        rest := rest[1..];
        k := k + 1;
      }
      ScanEnds(active, kept, rest, snapshot, progress);
    }

    /** The scheduling loop. It ends: each round takes a pending suite, or retires an active one, or
        sleeps towards the last deadline. */
    method Loop() returns (o: Outcome)
      requires Ready() && config.jobs >= 1
      modifies this, world
      ensures if o == Completed then Ready() else Broken()
      ensures cleanedUp == old(cleanedUp)
      ensures o == Completed ==> pending == [] && active == []
    {
      hide Ready, Broken;
      o := Completed;
      while pending != [] || active != []
        invariant Ready() && o == Completed && cleanedUp == old(cleanedUp)
        decreases |pending|, |active|, deadline - world.now
      {
        o := FillSlots();
        if o == Raised { return; }
        var progress;
        o, progress := Poll();
        if o == Raised { return; }
        if active != [] && !progress {
          o := Doze();
          if o == Raised { return; }
        }
      }
    }

    method Doze() returns (o: Outcome)
      requires Ready()
      modifies world
      ensures if o == Completed then Ready() else Broken()
      ensures world.now > old(world.now)
    {
      hide Told, AllSmooth;
      ghost var log := world.log;
      var r := world.Sleep();
      ToldQuiet(log, Exchange(Nap, r, world.now - POLL_MS), suites, pending, active, results, config);
      SmoothStep(log, Exchange(Nap, r, world.now - POLL_MS));
      o := if r.ok then Completed else Raised;
    }

    /** One attempt to end a suite's process tree. */
    method TryTerminate(suite: string) returns (t: Reply)
      requires Honest()
      modifies this`cleanedUp, world
      ensures Honest() && world.log == old(world.log) + [Exchange(Terminate(suite), t, world.now)]
      ensures t == world.replies(old(world.calls)) && world.calls == old(world.calls) + 1
      ensures cleanedUp == old(cleanedUp) + [suite]
    {
      hide Told, AllSmooth;
      t := Note(Terminate(suite));
      cleanedUp := cleanedUp + [suite];
    }

    /** The `finally` block: try to terminate every suite still active. A failure does not keep the
        others from their turn, unless it is of a kind that is not caught: then the suites behind it
        are missed. So all are tried if and only if no attempt before the last one ends that way. */
    method CleanUp() returns (o: Outcome)
      requires Intact() && Honest() && cleanedUp == []
      modifies this`cleanedUp, world
      ensures Honest() && Tidied(world.log, cleanedUp, ActiveNames(active))
      ensures cleanedUp == ActiveNames(active) <==>
                forall k :: old(world.calls) <= k < old(world.calls) + |active| - 1 ==> !Uncaught(world.replies(k))
      ensures active == [] ==> world.log == old(world.log) && o == Completed
      ensures AllSmooth(world.log) ==> AllSmooth(old(world.log))
      ensures o == Completed <==> forall k :: |old(world.log)| <= k < |world.log| ==> world.log[k].reply.ok
    {
      hide Told, Tidied, Attempted, AllSmooth, AllCaught;
      o := Completed;
      ghost var before, names, from := world.log, ActiveNames(active), world.calls;
      CleaningStarts(before, names);
      var n := 0;
      while n < |active|
        invariant 0 <= n <= |active| == |names| && Honest() && names == ActiveNames(active)
        invariant cleanedUp == names[..n] && Cleaning(before, world.log, names, n, o == Completed)
        invariant world.calls == from + n && AllCaught(before, world.log)
        invariant forall k :: from <= k < from + n ==> !Uncaught(world.replies(k))
      {
        ghost var log := world.log;
        var t := TryTerminate(active[n].name);
        CleaningStep(before, log, names, n, o == Completed, Exchange(Terminate(active[n].name), t, world.now));
        n := n + 1;
        if !t.ok {
          o := Raised;
          if t.foreign {
            assert cleanedUp == names[..n];
            CleaningEnds(before, world.log, names, n, false);
            return;
          }
        }
      }
      CleaningEnds(before, world.log, names, n, o == Completed);
      assert names[..n] == names;
    }

    /** The loop and its `finally` block. */
    method Run() returns (o: Outcome)
      requires Ready() && config.jobs >= 1 && cleanedUp == []
      modifies this, world
      ensures Intact() && Honest() && Tidied(world.log, cleanedUp, ActiveNames(active))
      ensures o == Completed <==> AllSmooth(world.log)
      ensures o == Completed ==> Emptied()
    {
      hide Told, AllSmooth, Tidied, Starts, Live, NoRepeats, ActiveNames, LineNames;
      var body := Loop();
      ghost var looped := world.log;
      assert Accounted(multiset{}) || body == Raised;
      var cleaned := CleanUp();
      o := if body == Completed && cleaned == Completed then Completed else Raised;
      if body == Completed { AllDone(); }
    }

    /** One line for every suite, every suite started, and nothing running. */
    ghost predicate Emptied()
      reads this, world
    {
      && multiset(LineNames(results)) == multiset(suites) && Starts(world.log) == suites
      && active == [] && pending == [] && Live(world.log) == {}
    }

    lemma AllDone()
      requires Honest() && Accounted(multiset{}) && pending == [] && active == []
      ensures Emptied()
    {
      ToldAll(world.log, suites, results, config);
    }
  }

  /** `run_wave`. */
  method RunWave(lines: seq<string>, config: Config, world: World) returns (o: Outcome, wave: Wave?)
    requires config.jobs >= 1 && world.Valid() && world.log == []
    modifies world
    // a bad suite list runs nothing
    ensures wave != null <==>
              && (forall i :: 0 <= i < |lines| ==> IsSuiteName(lines[i]))
              && (forall i, j :: 0 <= i < j < |lines| ==> lines[i] != lines[j])
    ensures wave == null ==> o == Raised && world.log == []
    // suites are started in list order, never more than `jobs` live at a time, and every result line
    // says what the process did; a suite has at most one
    ensures wave != null ==> fresh(wave) && wave.suites == lines && wave.config == config && wave.world == world
    ensures wave != null ==> wave.Intact() && wave.Honest()
    // the run ends normally if and only if no call raised anything, and then with one line for every
    // suite and nothing running
    ensures wave != null ==> (o == Completed <==> AllSmooth(world.log))
    ensures wave != null && o == Completed ==> wave.Emptied()
    // at the end of any run, termination was attempted for every suite still active, unless such an
    // attempt itself ended in an exception that is not caught
    ensures wave != null ==> Tidied(world.log, wave.cleanedUp, ActiveNames(wave.active))
  {
    wave, o := null, Raised;
    if !SuiteListOk(lines) { return; }
    wave := new Wave(lines, config, world);
    wave.Begin();
    o := wave.Run();
  }

  /** Two suites run; then an interrupt strikes the run, and another one its cleanup. The second
      suite is left running. */
  method MissedByCleanUp(a: string, b: string) returns (wave: Wave)
    requires a != b
    ensures wave.Intact() && wave.Honest()
    ensures ActiveNames(wave.active) == [a, b] && wave.cleanedUp == [a]
  {
    hide Told, Tidied, AllSmooth, ActiveNames, LineNames;
    var started := Reply(0, true, false, true, None, false, Fine);
    var interrupted := Reply(0, false, true, false, None, false, Fine);
    var world := new World(k => if k < 2 then started else interrupted);
    wave := new Wave([a, b], Config(2, 1000, 1000), world);
    wave.Begin();
    StartTwo(wave);
    InterruptCleanUp(wave, a, b);
  }

  method StartTwo(wave: Wave)
    requires wave.Ready() && |wave.pending| == 2 && wave.active == [] && wave.config.jobs >= 2 && wave.cleanedUp == []
    requires wave.world.calls == 0 &&
             forall k :: 0 <= k < 2 ==> wave.world.replies(k).ok && wave.world.replies(k).spawned
    modifies wave, wave.world
    ensures wave.Intact() && wave.Honest() && wave.cleanedUp == [] && wave.world.calls == 2
    ensures ActiveNames(wave.active) == old(wave.pending)
  {
    hide Told, AllSmooth, NoRepeats, LineNames;
    var _ := wave.StartNext();
    var _ := wave.StartNext();
  }

  method InterruptCleanUp(wave: Wave, a: string, b: string)
    requires wave.Intact() && wave.Honest() && ActiveNames(wave.active) == [a, b] && wave.cleanedUp == []
    requires Uncaught(wave.world.replies(wave.world.calls))
    modifies wave`cleanedUp, wave.world
    ensures wave.Intact() && wave.Honest() && wave.cleanedUp == [a]
  {
    hide Told, Tidied, AllSmooth, NoRepeats, LineNames;
    ghost var from := wave.world.calls;
    var _ := wave.CleanUp();
    assert Uncaught(wave.world.replies(from));
    MissesSecond(wave.world.log, wave.cleanedUp, [a, b]);
  }

  lemma MissesSecond(log: seq<Exchange>, tried: seq<string>, names: seq<string>)
    requires Tidied(log, tried, names) && |names| == 2 && tried != names
    ensures tried == [names[0]]
  {
    assert |tried| != 2 ==> tried == names[..|tried|];
    assert |tried| == 2 ==> tried == names;
  }

  lemma TakeFirst(s: seq<string>)
    requires s != []
    ensures multiset(s) == multiset{s[0]} + multiset(s[1..])
  {
    assert s == [s[0]] + s[1..];
  }

  lemma InSuites(n: string, a: seq<string>, b: seq<string>, c: seq<string>, aside: multiset<string>, all: seq<string>)
    requires multiset(a) + multiset(b) + multiset(c) + aside == multiset(all) && (n in b || n in aside)
    ensures n in all
  {
    assert n in b ==> n in multiset(b);
    assert n in multiset(all);
  }

  /** Where a pass over a snapshot of the active table stands. */
  ghost predicate Scanned(active: seq<ActiveSuite>, kept: seq<ActiveSuite>, rest: seq<ActiveSuite>,
                          all: seq<ActiveSuite>, k: nat, progress: bool) {
    && k <= |all| && active == kept + rest && rest == all[k..] && |kept| <= k
    && if progress then |kept| < k else kept == all[..k]
  }

  lemma ScanStarts(all: seq<ActiveSuite>)
    ensures Scanned(all, [], all, all, 0, false)
  {
  }

  lemma ScanStep(active: seq<ActiveSuite>, kept: seq<ActiveSuite>, rest: seq<ActiveSuite>, all: seq<ActiveSuite>,
                 k: nat, progress: bool)
    requires Scanned(active, kept, rest, all, k, progress) && k < |all|
    ensures rest != [] && active == kept + [all[k]] + rest[1..]
    ensures Scanned(kept + rest[1..], kept, rest[1..], all, k + 1, true)
    ensures Scanned(active, kept + [all[k]], rest[1..], all, k + 1, progress)
  {
    assert rest == [all[k]] + rest[1..];
    assert kept + rest == (kept + [all[k]]) + rest[1..];
  }

  lemma ScanEnds(active: seq<ActiveSuite>, kept: seq<ActiveSuite>, rest: seq<ActiveSuite>, all: seq<ActiveSuite>,
                 progress: bool)
    requires Scanned(active, kept, rest, all, |all|, progress)
    ensures if progress then |active| < |all| else active == all
  {
  }

  lemma ActiveMiddle(kept: seq<ActiveSuite>, x: ActiveSuite, rest: seq<ActiveSuite>)
    ensures ActiveNames(kept + [x] + rest) == ActiveNames(kept) + [x.name] + ActiveNames(rest)
    ensures multiset(ActiveNames(kept + [x] + rest)) == multiset(ActiveNames(kept + rest)) + multiset{x.name}
    ensures NoRepeats(ActiveNames(kept + [x] + rest)) ==> x.name !in ActiveNames(kept)
  {
    assert ActiveNames(kept + [x] + rest) == ActiveNames(kept) + [x.name] + ActiveNames(rest);
    assert ActiveNames(kept + rest) == ActiveNames(kept) + ActiveNames(rest);
    var all := ActiveNames(kept + [x] + rest);
    assert all[|kept|] == x.name && forall i :: 0 <= i < |kept| ==> all[i] == ActiveNames(kept)[i];
  }

  lemma LineNamesIn(lines: seq<Line>, all: seq<string>)
    requires forall n :: n in LineNames(lines) ==> n in all
    ensures forall i :: 0 <= i < |lines| ==> lines[i].name in all
  {
    forall i | 0 <= i < |lines| ensures lines[i].name in all { assert LineNames(lines)[i] in LineNames(lines); }
  }

  lemma ApartPlaces(a: seq<string>, b: seq<string>, c: seq<string>, aside: multiset<string>, all: seq<string>)
    requires multiset(a) + multiset(b) + multiset(c) + aside == multiset(all)
    requires forall n :: multiset(all)[n] <= 1
    ensures NoRepeats(a) && NoRepeats(b) && NoRepeats(c)
    ensures forall n :: n in aside ==> n !in a && n !in b && n !in c
    ensures forall n :: n in b ==> n !in a && n !in c
    ensures forall n :: n in a ==> n !in c
    ensures forall n :: n in c ==> n in all
  {
    var m := multiset(all);
    forall n ensures multiset(a)[n] + multiset(b)[n] + multiset(c)[n] + aside[n] == m[n] <= 1 {}
    AtMostOnce(a, m);
    AtMostOnce(b, m);
    AtMostOnce(c, m);
    forall n
      ensures n in a <==> multiset(a)[n] > 0
      ensures n in b <==> multiset(b)[n] > 0
      ensures n in c <==> multiset(c)[n] > 0
    {
      assert n in a <==> n in multiset(a);
      assert n in b <==> n in multiset(b);
      assert n in c <==> n in multiset(c);
    }
    forall n | n in c ensures n in all { assert n in m; }
  }

  lemma {:induction false} CountsAtMostOne(s: seq<string>)
    requires NoRepeats(s)
    ensures forall n :: multiset(s)[n] <= 1
  {
    if s != [] {
      var k := |s| - 1;
      CountsAtMostOne(s[..k]);
      assert s == s[..k] + [s[k]];
      assert s[k] !in s[..k];
    }
  }

  lemma {:induction false} AtMostOnce(s: seq<string>, all: multiset<string>)
    requires multiset(s) <= all && forall n :: all[n] <= 1
    ensures NoRepeats(s)
  {
    forall i, j | 0 <= i < j < |s| ensures s[i] != s[j] {
      if s[i] == s[j] { CountedTwice(s, i, j); }
    }
  }

  lemma CountedTwice(s: seq<string>, i: nat, j: nat)
    requires i < j < |s| && s[i] == s[j]
    ensures multiset(s)[s[i]] >= 2
  {
    assert s == s[..j] + [s[j]] + s[j + 1..];
    assert s[i] in s[..j];
  }
}
