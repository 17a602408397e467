/** The coordination tokens of a one-shot CLI command or an index worker in `src/main.c`: how they
    are taken, what has to hold before the command runs, and in which order they are given back.
    The outside world is a script of replies; a log holds every call made and what came back. */
module Coordination {

  datatype Token = Endpoint | ProjectLocks | CohortManager | CohortLease | Context | Monitor | Transition

  /** The LOCAL_CLI and WORKER branches. */
  datatype Role = LocalCli | Worker

  /** The calls a branch makes. `Open` makes an object or fails to, `TryClose` asks for a token back,
      `Init` and `Drop` cannot fail. `Identify` is the executable path and the build identity,
      `Contain` a worker's process group and watchdog, `HandOver` its answer to the supervisor. */
  datatype Query =
    | Open(token: Token)
    | Identify
    | Admit
    | Init
    | TryTransition
    | Seal
    | Presence
    | BeginWork
    | Contain
    | Command
    | HandOver
    | StopObserver
    | TryClose(token: Token)
    | Drop(token: Token)

  /** A reply: the time it took, whether the call did what it was for (or, for `Admit` and
      `TryTransition`, left a handle behind), and a status code. For `Command` the status is its
      result, and the flag says that a worker has an answer to hand over. */
  datatype Reply = Reply(elapsed: nat, flag: bool, status: int)

  /** A call that was made, what came back, and when. */
  datatype Exchange = Exchange(query: Query, reply: Reply, time: nat)

  const EXIT_FAILURE := 1
  const CBM_NOT_FOUND := -1
  const STARTUP_TIMEOUT_MS: nat := 10000
  const CLEANUP_MS: nat := 500

  /** `CBM_VERSION_COHORT_OK`, and the two acceptable answers about a running daemon. */
  const COHORT_OK := 0
  const DAEMON_ABSENT := 0
  const DAEMON_COORDINATED := 1

  // ---- what a log of calls says ----

  /** What a call does to the tokens held. An admission may leave a lease to release even when it
      fails; a busy transition (status 0) leaves no handle. */
  function After(held: set<Token>, e: Exchange): set<Token> {
    match e.query
    case Open(t) => if e.reply.flag then held + {t} else held
    case Init => held + {Context}
    case Admit => if e.reply.flag || e.reply.status == COHORT_OK then held + {CohortLease} else held
    case TryTransition => if e.reply.flag && e.reply.status != 0 then held + {Transition} else held
    case StopObserver => if e.reply.flag then held - {Monitor} else held
    case TryClose(t) => if e.reply.flag then held - {t} else held
    case Drop(t) => held - {t}
    case _ => held
  }

  /** The tokens held after the calls of a log. */
  function Held(log: seq<Exchange>): set<Token> {
    if log == [] then {} else After(Held(log[..|log| - 1]), log[|log| - 1])
  }

  predicate SealsWell(e: Exchange) {
    e.query == Seal && e.reply.status == 1
  }

  predicate FindsNoDaemon(e: Exchange) {
    e.query == Presence && (e.reply.status == DAEMON_ABSENT || e.reply.status == DAEMON_COORDINATED)
  }

  predicate Begins(e: Exchange) {
    e.query == BeginWork && e.reply.flag
  }

  predicate Contains(e: Exchange) {
    e.query == Contain && e.reply.flag
  }

  ghost predicate HasIdentified(log: seq<Exchange>) {
    exists e :: e in log && e.query == Identify && e.reply.flag
  }

  ghost predicate HasSealed(log: seq<Exchange>) {
    exists e :: e in log && SealsWell(e)
  }

  ghost predicate NoDaemonInTheWay(log: seq<Exchange>) {
    exists e :: e in log && FindsNoDaemon(e)
  }

  ghost predicate HasBegun(log: seq<Exchange>) {
    exists e :: e in log && Begins(e)
  }

  ghost predicate HasContained(log: seq<Exchange>) {
    exists e :: e in log && Contains(e)
  }

  ghost predicate HasRun(log: seq<Exchange>) {
    exists e :: e in log && e.query == Command
  }

  /** The call hands out the token. */
  predicate Grants(e: Exchange, t: Token) {
    || (e.query == Open(t) && e.reply.flag)
    || (e.query == Init && t == Context)
    || (e.query == Admit && t == CohortLease && (e.reply.flag || e.reply.status == 0))
    || (e.query == TryTransition && t == Transition && e.reply.flag && e.reply.status != 0)
  }

  /** The call takes it back. */
  predicate TakesBack(e: Exchange, t: Token) {
    || (e.query == TryClose(t) && e.reply.flag)
    || (e.query == StopObserver && t == Monitor && e.reply.flag)
    || e.query == Drop(t)
  }

  /** Call `h` handed out the token, and none since has taken it back. */
  ghost predicate HeldSince(log: seq<Exchange>, t: Token, h: nat) {
    h < |log| && Grants(log[h], t) && forall k :: h < k < |log| ==> !TakesBack(log[k], t)
  }

  lemma AfterMeans(held: set<Token>, e: Exchange, t: Token)
    ensures t in After(held, e) <==> Grants(e, t) || (t in held && !TakesBack(e, t))
  {}

  lemma {:induction false} HeldMeans(log: seq<Exchange>, t: Token)
    ensures t in Held(log) <==> exists h :: HeldSince(log, t, h)
  {
    if log != [] {
      var n := |log| - 1;
      HeldMeans(log[..n], t);
      AfterMeans(Held(log[..n]), log[n], t);
      assert Held(log) == After(Held(log[..n]), log[n]);
      hide Held, Grants, TakesBack, After;
      if t in Held(log[..n]) && !TakesBack(log[n], t) {
        var h: nat :| HeldSince(log[..n], t, h);
        assert HeldSince(log, t, h);
      }
      if Grants(log[n], t) { assert HeldSince(log, t, n); }
      if h: nat :| HeldSince(log, t, h) && h < n {
        assert HeldSince(log[..n], t, h);
        assert !TakesBack(log[n], t);
      }
    }
  }

  // ---- the discipline ----

  ghost predicate MayAcquire(held: set<Token>, t: Token) {
    && t !in held
    && (t == ProjectLocks || t == CohortManager ==> Endpoint in held)
    && (t == CohortLease ==> CohortManager in held)
    && (t == Monitor ==> {Context, CohortLease} <= held)
    && (t == Transition ==> {CohortLease, Monitor} <= held)
  }

  /** The observer stops before its context goes, and the lifetime lease goes back only when nothing
      but its manager and the endpoint is left. */
  ghost predicate MayRelease(held: set<Token>, t: Token) {
    && t in held
    && (t == Context ==> Monitor !in held)
    && (t == CohortLease ==> held <= {CohortLease, CohortManager, Endpoint})
    && (t == CohortManager ==> held <= {CohortManager, Endpoint})
    && (t == Endpoint ==> held == {Endpoint})
  }

  /** What has to hold before a call may be made. */
  ghost predicate Allowed(role: Role, log: seq<Exchange>, q: Query) {
    var held := Held(log);
    match q
    case Open(t) => MayAcquire(held, t)
    case Identify => true
    case Admit => MayAcquire(held, CohortLease) && (role == LocalCli ==> HasIdentified(log))
    case Init => MayAcquire(held, Context)
    case TryTransition => MayAcquire(held, Transition)
    case Seal => Transition in held
    case Presence => Transition in held && HasSealed(log)
    case BeginWork => Transition in held && NoDaemonInTheWay(log)
    case Contain => HasBegun(log)
    case Command =>
      && {ProjectLocks, CohortLease, Context, Monitor, Transition} <= held
      && HasBegun(log) && (role == Worker ==> HasContained(log)) && !HasRun(log)
    case HandOver => role == Worker && HasRun(log)
    case StopObserver => MayRelease(held, Monitor)
    case TryClose(t) => MayRelease(held, t)
    case Drop(t) => MayRelease(held, t)
  }

  /** Call `k` was allowed when it was made. */
  ghost predicate WasAllowed(role: Role, log: seq<Exchange>, k: int)
    requires 0 <= k < |log|
  {
    Allowed(role, log[..k], log[k].query)
  }

  ghost predicate Disciplined(role: Role, log: seq<Exchange>) {
    forall k :: 0 <= k < |log| ==> WasAllowed(role, log, k)
  }

  lemma DisciplinedStep(role: Role, log: seq<Exchange>, e: Exchange)
    requires Disciplined(role, log) && Allowed(role, log, e.query)
    ensures Disciplined(role, log + [e])
    ensures Held(log + [e]) == After(Held(log), e)
  {
    hide Allowed;
    var all := log + [e];
    assert all[..|log|] == log;
    forall k | 0 <= k < |all| ensures WasAllowed(role, all, k) {
      if k < |log| {
        assert all[..k] == log[..k];
        assert WasAllowed(role, log, k);
      }
    }
  }

  /** The observer thread and a worker's watchdog may end the process at any moment. What was done
      by then is a first part of some run, so nothing the discipline promises is lost. */
  lemma EndedEarly(role: Role, log: seq<Exchange>, n: nat)
    requires Disciplined(role, log) && n <= |log|
    ensures Disciplined(role, log[..n])
  {
    hide Allowed;
    forall k | 0 <= k < n ensures WasAllowed(role, log[..n], k) {
      assert log[..n][..k] == log[..k];
      assert WasAllowed(role, log, k);
    }
  }

  /** No local transition without the cohort lease, no observer without the context it cancels
      through, no lease without its manager. */
  ghost predicate Layered(held: set<Token>) {
    && (Transition in held ==> CohortLease in held)
    && (Monitor in held ==> Context in held && CohortLease in held)
    && (CohortLease in held ==> CohortManager in held)
    && (held != {} ==> held == {Context} || Endpoint in held)
  }

  lemma LayeredStep(role: Role, log: seq<Exchange>, e: Exchange)
    requires Layered(Held(log)) && Allowed(role, log, e.query)
    ensures Layered(After(Held(log), e))
  {
    hide Held, HasSealed, HasBegun, HasContained, HasIdentified, NoDaemonInTheWay, HasRun;
  }

  /** At every moment of a disciplined run the tokens held are in layers. */
  lemma {:induction false} TransitionImpliesLease(role: Role, log: seq<Exchange>, k: nat)
    requires Disciplined(role, log) && k <= |log|
    ensures Layered(Held(log[..k]))
  {
    if k > 0 {
      TransitionImpliesLease(role, log, k - 1);
      assert log[..k][..k - 1] == log[..k - 1];
      assert WasAllowed(role, log, k - 1);
      LayeredStep(role, log[..k - 1], log[k - 1]);
      hide Layered, Allowed, Disciplined;
    }
  }

  /** A call that gives back what has to outlast `t`. */
  predicate MakesLast(q: Query, t: Token) {
    (q == TryClose(CohortLease) && t != CohortLease && t != CohortManager)
    || (q == TryClose(CohortManager) && t != CohortManager)
    || q == Drop(Endpoint)
  }

  /** When the lifetime lease is asked back, every project lock, transition, observer and context handed
      out before has been taken back; when its manager is, the lease too; and when the endpoint goes,
      everything else. */
  lemma LeaseGoesLast(role: Role, log: seq<Exchange>, k: nat, i: nat, t: Token)
    requires Disciplined(role, log) && i < k < |log| && Grants(log[i], t)
    requires t != Endpoint && MakesLast(log[k].query, t)
    ensures exists j :: i < j < k && TakesBack(log[j], t)
  {
    assert WasAllowed(role, log, k);
    HeldMeans(log[..k], t);
    assert !HeldSince(log[..k], t, i);
    hide Held, Grants, TakesBack, Disciplined;
    var j :| i < j < k && TakesBack(log[..k][j], t);
    assert log[..k][j] == log[j];
  }

  /** A one-shot command is only admitted after its executable and build have been identified. */
  lemma AdmittedByIdentity(log: seq<Exchange>, k: nat)
    requires Disciplined(LocalCli, log) && k < |log| && log[k].query == Admit
    ensures exists i :: 0 <= i < k && log[i].query == Identify && log[i].reply.flag
  {
    assert WasAllowed(LocalCli, log, k);
    hide Held, Disciplined;
    var e :| e in log[..k] && e.query == Identify && e.reply.flag;
    var i :| 0 <= i < k && log[i] == e;
  }

  /** The observer is stopped before the context it cancels through goes. */
  lemma ContextOutlivesObserver(role: Role, log: seq<Exchange>, k: nat, i: nat)
    requires Disciplined(role, log) && i < k < |log| && log[k].query == Drop(Context)
    requires log[i].query == Open(Monitor) && log[i].reply.flag
    ensures exists j :: i < j < k && TakesBack(log[j], Monitor)
  {
    assert WasAllowed(role, log, k);
    HeldMeans(log[..k], Monitor);
    assert !HeldSince(log[..k], Monitor, i);
    hide Held, TakesBack, Disciplined;
    var j :| i < j < k && TakesBack(log[..k][j], Monitor);
    assert log[..k][j] == log[j];
  }

  /** The outside world's good answers, in order; a worker is contained at `d`. */
  ghost predicate Admitted(role: Role, log: seq<Exchange>, a: nat, b: nat, c: nat, d: nat, k: nat) {
    && a < b < c < d <= k < |log|
    && log[a].query == Seal && log[a].reply.status == 1
    && log[b].query == Presence && (log[b].reply.status == 0 || log[b].reply.status == 1)
    && log[c].query == BeginWork && log[c].reply.flag
    && (role == Worker ==> d < k && log[d].query == Contain && log[d].reply.flag)
  }

  /** When the command runs, the outside world has answered every question asked under the
      transition well, in order. */
  lemma CommandRunsAdmitted(role: Role, log: seq<Exchange>, k: nat)
    requires Disciplined(role, log) && k < |log| && log[k].query == Command
    ensures {ProjectLocks, CohortLease, Context, Monitor, Transition} <= Held(log[..k])
    ensures exists a, b, c, d :: Admitted(role, log, a, b, c, d, k)
  {
    hide Held;
    assert WasAllowed(role, log, k);
    hide HasBegun;
    var d := k;
    if role == Worker { d := Containment(role, log, k); }
    var a, b, c := Admissions(role, log, d);
    assert Admitted(role, log, a, b, c, d, k);
  }

  lemma Containment(role: Role, log: seq<Exchange>, k: nat) returns (d: nat)
    requires Disciplined(role, log) && k <= |log| && HasContained(log[..k])
    ensures d < k && Contains(log[d]) && HasBegun(log[..d])
  {
    hide Held, HasBegun;
    var e :| e in log[..k] && Contains(e);
    d :| d < k && log[d] == e;
    assert WasAllowed(role, log, d);
  }

  /** Before a point where work has begun lie the answers that let it begin. */
  lemma Admissions(role: Role, log: seq<Exchange>, k: nat) returns (a: nat, b: nat, c: nat)
    requires Disciplined(role, log) && k <= |log| && HasBegun(log[..k])
    ensures a < b < c < k && SealsWell(log[a]) && FindsNoDaemon(log[b]) && Begins(log[c])
  {
    hide Held;
    var e :| e in log[..k] && Begins(e);
    c :| c < k && log[c] == e;
    assert WasAllowed(role, log, c);
    var f :| f in log[..c] && FindsNoDaemon(f);
    b :| b < c && log[b] == f;
    assert WasAllowed(role, log, b);
    var g :| g in log[..b] && SealsWell(g);
    a :| a < b && log[a] == g;
  }

  /** It runs once. */
  lemma CommandRunsOnce(role: Role, log: seq<Exchange>, k: nat)
    requires Disciplined(role, log) && k < |log| && log[k].query == Command
    ensures forall j: nat :: j < |log| && log[j].query == Command ==> j == k
  {
    hide Disciplined;
    forall j: nat | j < |log| && log[j].query == Command ensures j == k {
      if j < k { NotAgain(role, log, j, k); }
      if k < j { NotAgain(role, log, k, j); }
    }
  }

  lemma NotAgain(role: Role, log: seq<Exchange>, i: nat, j: nat)
    requires Disciplined(role, log) && i < j < |log| && log[i].query == Command
    ensures log[j].query != Command
  {
    hide Held;
    assert log[..j][i] in log[..j];
    assert HasRun(log[..j]);
    assert WasAllowed(role, log, j);
  }

  // ---- when the command runs, and what the process reports ----

  /** A call that is repeated until its deadline: the transition is busy, or a token is not given
      up. */
  predicate Waits(e: Exchange) {
    (e.query == TryTransition && e.reply.status == 0) || (e.query.TryClose? && !e.reply.flag)
  }

  /** When the wait at the end of a log began: at the end of the last call that settled something. */
  function Since(log: seq<Exchange>): nat {
    if log == [] then 0
    else if Waits(log[|log| - 1]) then Since(log[..|log| - 1])
    else log[|log| - 1].time
  }

  /** An answer that ends the way to the command. */
  ghost predicate Refuses(log: seq<Exchange>, e: Exchange) {
    match e.query
    case Open(_) => !e.reply.flag
    case Identify => !e.reply.flag
    case Admit => e.reply.status != 0
    case TryTransition => if e.reply.status == 0 then e.time >= Since(log) + 10000
                            else e.reply.status != 1 || !e.reply.flag
    case Seal => e.reply.status != 1
    case Presence => e.reply.status != 0 && e.reply.status != 1
    case BeginWork => !e.reply.flag
    case Contain => !e.reply.flag
    case _ => false
  }

  ghost predicate Clear(log: seq<Exchange>) {
    forall k :: 0 <= k < |log| ==> !Refuses(log[..k], log[k])
  }

  /** The command's own result, or not-found if it never ran. */
  ghost function ResultOf(log: seq<Exchange>): int {
    if log == [] then CBM_NOT_FOUND
    else if log[|log| - 1].query == Command then log[|log| - 1].reply.status
    else ResultOf(log[..|log| - 1])
  }

  /** A release call that reported an error, whether or not it gave up the token. A failed release of
      the transition is retried without counting as a failure. */
  predicate Complains(e: Exchange) {
    e.query.TryClose? && e.query.token != Transition && e.reply.status != 0
  }

  ghost predicate Complained(log: seq<Exchange>) {
    exists e :: e in log && Complains(e)
  }

  ghost function ExitCode(log: seq<Exchange>): int {
    if Complained(log) || ResultOf(log) < 0 then EXIT_FAILURE else ResultOf(log)
  }

  /** A process that fails to stop its observer, to give back a token in time or to contain its
      children exits at once, leaving what it holds to the operating system. So does a worker whose
      command produced an answer, once it has handed that over. */
  datatype Outcome = Returned(code: int) | ProcessExit(code: int)

  ghost predicate Fatal(log: seq<Exchange>, e: Exchange) {
    match e.query
    case HandOver => true
    case Contain => !e.reply.flag
    case StopObserver => !e.reply.flag
    case TryClose(_) => !e.reply.flag && e.time >= Since(log) + CLEANUP_MS
    case _ => false
  }

  /** What the process reports after these calls. */
  ghost function Report(log: seq<Exchange>): Outcome {
    if log != [] && Fatal(log[..|log| - 1], log[|log| - 1]) then
      var e := log[|log| - 1];
      ProcessExit(if e.query == HandOver && e.reply.flag then 0 else EXIT_FAILURE)
    else Returned(ExitCode(log))
  }

  /** A call to give back something other than the transition reported an error. */
  ghost predicate ComplaintAt(log: seq<Exchange>, k: nat) {
    k < |log| && log[k].query.TryClose? && log[k].query.token != Transition && log[k].reply.status != 0
  }

  lemma {:induction false} ResultMeans(log: seq<Exchange>)
    ensures (forall k :: 0 <= k < |log| ==> log[k].query != Command) ==> ResultOf(log) < 0
    ensures ResultOf(log) >= 0 ==>
              exists k :: 0 <= k < |log| && log[k].query == Command && log[k].reply.status == ResultOf(log)
    ensures forall k :: 0 <= k < |log| && log[k].query == Command ==>
              (forall j :: k < j < |log| ==> log[j].query != Command) ==> ResultOf(log) == log[k].reply.status
  {
    if log != [] {
      var n := |log| - 1;
      ResultMeans(log[..n]);
      assert forall k :: 0 <= k < n ==> log[..n][k] == log[k];
    }
  }

  /** What an ordinary return says: the status of the command, if there is one to report and no call to
      give something back complained, and failure otherwise. */
  lemma ReturnMeans(role: Role, log: seq<Exchange>, code: int)
    requires Disciplined(role, log) && Report(log) == Returned(code)
    ensures forall k :: ComplaintAt(log, k) ==> code == 1
    ensures (forall k :: 0 <= k < |log| ==> log[k].query != Command) ==> code == 1
    ensures (forall k :: !ComplaintAt(log, k)) ==>
              forall k :: 0 <= k < |log| && log[k].query == Command ==>
                code == if log[k].reply.status < 0 then 1 else log[k].reply.status
  {
    ResultMeans(log);
    forall k | 0 <= k < |log| && log[k].query == Command ensures ResultOf(log) == log[k].reply.status {
      CommandRunsOnce(role, log, k);
    }
    if k: nat :| ComplaintAt(log, k) { assert log[k] in log; }
    if Complained(log) {
      var e :| e in log && Complains(e);
      var k :| 0 <= k < |log| && log[k] == e;
      assert ComplaintAt(log, k);
    }
    hide ResultOf, Disciplined;
  }

  /** What an exit on the spot says: success if a worker handed over its answer, failure if it could
      not, or if containing, stopping the observer or giving something back in time failed. */
  lemma ExitMeans(log: seq<Exchange>, code: int)
    requires Report(log) == ProcessExit(code)
    ensures log != [] && (code == 0 || code == 1)
    ensures var e := log[|log| - 1];
            && (code == 0 <==> e.query == HandOver && e.reply.flag)
            && (e.query == HandOver
                || ((e.query == Contain || e.query == StopObserver) && !e.reply.flag)
                || (e.query.TryClose? && !e.reply.flag && e.time >= Since(log[..|log| - 1]) + 500))
  {
  }

  /** All that matters to the report, but for the complaints. */
  ghost predicate SameCourse(log: seq<Exchange>, later: seq<Exchange>) {
    && (HasRun(later) <==> HasRun(log)) && (HasBegun(later) <==> HasBegun(log))
    && (Clear(later) <==> Clear(log)) && ResultOf(later) == ResultOf(log)
  }

  /** What one more call changes. */
  lemma CourseStep(log: seq<Exchange>, e: Exchange)
    ensures ResultOf(log + [e]) == if e.query == Command then e.reply.status else ResultOf(log)
    ensures Complained(log + [e]) <==> Complained(log) || Complains(e)
    ensures HasRun(log + [e]) <==> HasRun(log) || e.query == Command
    ensures HasBegun(log + [e]) <==> HasBegun(log) || Begins(e)
    ensures HasContained(log + [e]) <==> HasContained(log) || Contains(e)
    ensures Since(log + [e]) == if Waits(e) then Since(log) else e.time
    ensures Report(log + [e]).ProcessExit? <==> Fatal(log, e)
    ensures Fatal(log, e) ==>
              Report(log + [e]).code == if e.query == HandOver && e.reply.flag then 0 else EXIT_FAILURE
  {
    hide Fatal, Waits, ExitCode, Contains, Complains, Begins;
    var all := log + [e];
    assert all[..|log|] == log;
    assert forall x :: x in all <==> x in log || x == e;
  }

  lemma ClearStep(log: seq<Exchange>, e: Exchange)
    ensures Clear(log + [e]) <==> Clear(log) && !Refuses(log, e)
  {
    hide Refuses;
    var all := log + [e];
    assert all[..|log|] == log && all[|log|] == e;
    forall k | 0 <= k < |log| ensures all[..k] == log[..k] && all[k] == log[k] {}
  }

  lemma WhatIsLeft(held: set<Token>, gone: set<Token>)
    requires gone == {ProjectLocks, Context, Monitor, Transition}
    ensures held - gone <= {CohortLease, CohortManager, Endpoint}
  {
    forall t | t in held - gone ensures t in {CohortLease, CohortManager, Endpoint} {
      assert t.Endpoint? || t.ProjectLocks? || t.CohortManager? || t.CohortLease? || t in gone;
    }
  }

  // ---- the branch itself ----

  class Branch {
    const role: Role
    const replies: nat -> Reply
    var calls: nat
    var now: nat
    var held: set<Token>
    ghost var log: seq<Exchange>

    constructor (role: Role, replies: nat -> Reply)
      ensures this.role == role && this.replies == replies && Consistent() && held == {} && log == [] && now == 0
    {
      this.role, this.replies := role, replies;
      calls, now, held, log := 0, 0, {}, [];
    }

    /** The log is what was asked and answered, the tokens held are what it says, and every call in it
        was allowed. */
    ghost predicate Consistent()
      reads this`calls, this`held, this`log
    {
      && |log| == calls && (forall k :: 0 <= k < |log| ==> log[k].reply == replies(k))
      && held == Held(log) && Disciplined(role, log)
    }

    /** Nothing is being waited for. */
    ghost predicate Settled()
      reads this
    {
      Since(log) == now
    }

    method Ask(q: Query) returns (r: Reply)
      requires Consistent() && Allowed(role, log, q)
      modifies this
      ensures Consistent() && now == old(now) + r.elapsed && r == replies(old(calls))
      ensures log == old(log) + [Exchange(q, r, now)] && held == After(old(held), Exchange(q, r, now))
      ensures ResultOf(log) == if q == Command then r.status else ResultOf(old(log))
      ensures Complained(log) <==> Complained(old(log)) || Complains(Exchange(q, r, now))
      ensures HasRun(log) <==> HasRun(old(log)) || q == Command
      ensures HasBegun(log) <==> HasBegun(old(log)) || Begins(Exchange(q, r, now))
      ensures HasContained(log) <==> HasContained(old(log)) || Contains(Exchange(q, r, now))
      ensures Clear(log) <==> Clear(old(log)) && !Refuses(old(log), Exchange(q, r, now))
      ensures Since(log) == if Waits(Exchange(q, r, now)) then Since(old(log)) else now
      ensures Report(log).ProcessExit? <==> Fatal(old(log), Exchange(q, r, now))
      ensures Report(log).ProcessExit? ==> Report(log).code == if q == HandOver && r.flag then 0 else EXIT_FAILURE
    {
      hide Held, Disciplined, Allowed, After, Clear, Refuses, ResultOf, Complained, Complains, HasRun;
      hide HasBegun, Begins, HasContained, Contains, Since, Waits, Report, Fatal;
      r := replies(calls);
      calls := calls + 1;
      now := now + r.elapsed;
      var e := Exchange(q, r, now);
      DisciplinedStep(role, log, e);
      CourseStep(log, e);
      ClearStep(log, e);
      log := log + [e];
      held := After(held, e);
    }

    /** A call that cannot fail to give a token back. */
    method Give(t: Token)
      requires Consistent() && (t in held ==> MayRelease(held, t)) && Settled() && Report(log).Returned?
      modifies this
      ensures Consistent() && held == old(held) - {t} && SameCourse(old(log), log) && Settled()
      ensures Report(log).Returned? && Complained(log) == Complained(old(log))
    {
      hide Held, Disciplined, ResultOf, Complained, HasRun, HasBegun, Clear, Since, Report;
      if t in held { var _ := Ask(Drop(t)); }
    }

    /** One attempt to give a token back. */
    method AskBack(t: Token) returns (r: Reply)
      requires Consistent() && MayRelease(held, t)
      modifies this
      ensures Consistent() && held == (if r.flag then old(held) - {t} else old(held)) && SameCourse(old(log), log)
      ensures Complained(log) <==> Complained(old(log)) || (r.status != 0 && t != Transition)
      ensures Since(log) == (if r.flag then now else Since(old(log))) && now >= old(now)
      ensures if !r.flag && now >= Since(log) + CLEANUP_MS then Report(log) == ProcessExit(EXIT_FAILURE)
              else Report(log).Returned?
    {
      hide Held, Disciplined, ResultOf, Complained, HasRun, HasBegun, Clear, Since, Report, MayRelease;
      r := Ask(TryClose(t));
    }

    /** The release loops: call until the token is gone, and give up the process at the deadline. */
    method Close(t: Token) returns (ok: bool, stopped: bool)
      requires Consistent() && (t in held ==> MayRelease(held, t)) && Settled() && Report(log).Returned?
      modifies this
      ensures Consistent() && held == (if stopped then old(held) else old(held) - {t})
      ensures SameCourse(old(log), log)
      ensures stopped ==> t in held && now >= old(now) + CLEANUP_MS && Report(log) == ProcessExit(EXIT_FAILURE)
      ensures !stopped ==> Settled() && Report(log).Returned?
      ensures !stopped ==> Complained(log) == (Complained(old(log)) || (!ok && t != Transition))
    {
      hide Consistent, MayRelease, ResultOf, Complained, HasRun, HasBegun, Clear, Since, Report;
      ok, stopped := true, false;
      var deadline := now + CLEANUP_MS;
      while t in held
        invariant Consistent() && held == (if t in held then old(held) else old(held) - {t})
        invariant t in held ==> MayRelease(held, t)
        invariant Since(log) == if t in held then old(now) else now
        invariant Report(log).Returned? && SameCourse(old(log), log)
        invariant Complained(log) == (Complained(old(log)) || (!ok && t != Transition))
        decreases t in held, deadline - now
      {
        var r := AskBack(t);
        if r.status != 0 { ok := false; }
        if !r.flag {
          if now >= deadline { return false, true; }
          now := now + 1;
        }
      }
    }

    /** `main_local_transition_acquire`: retry while the transition is busy (status 0, which leaves
        no handle), until the deadline. */
    method AcquireTransition() returns (status: int, made: bool)
      requires Consistent() && MayAcquire(held, Transition) && Settled() && Report(log).Returned?
      modifies this
      ensures status != 0 || (now >= old(now) + STARTUP_TIMEOUT_MS && !made)
      ensures Consistent() && held == if made then old(held) + {Transition} else old(held)
      ensures HasRun(log) == HasRun(old(log)) && HasBegun(log) == HasBegun(old(log))
      ensures HasContained(log) == HasContained(old(log))
      ensures ResultOf(log) == ResultOf(old(log)) && Complained(log) == Complained(old(log))
      ensures Clear(log) <==> Clear(old(log)) && status == 1 && made
      ensures Report(log).Returned?
    {
      hide Held, Disciplined, ResultOf, Complained, HasRun, HasBegun, HasContained, Clear, Since, Report;
      var deadline := now + STARTUP_TIMEOUT_MS;
      var r := Ask(TryTransition);
      while r.status == 0 && now < deadline
        invariant Consistent() && r.status == 0 ==> held == old(held) && Since(log) == old(now)
        invariant Consistent() && held == if r.flag && r.status != 0 then old(held) + {Transition} else old(held)
        invariant HasRun(log) == HasRun(old(log)) && HasBegun(log) == HasBegun(old(log))
        invariant HasContained(log) == HasContained(old(log))
        invariant ResultOf(log) == ResultOf(old(log)) && Complained(log) == Complained(old(log))
        invariant Report(log).Returned?
        invariant Clear(log) ==> Clear(old(log)) && if r.status == 0 then now < deadline else r.status == 1 && r.flag
        invariant Clear(log) <== Clear(old(log)) && if r.status == 0 then now < deadline else r.status == 1 && r.flag
        decreases deadline - now
      {
        now := now + 10;
        r := Ask(TryTransition);
      }
      status, made := r.status, r.flag && r.status != 0;
    }

    /** Nothing has been refused so far, and nothing has happened under the transition. */
    ghost predicate OnTheWay()
      reads this
    {
      && !HasRun(log) && !HasBegun(log) && !HasContained(log) && !Complained(log)
      && ResultOf(log) == CBM_NOT_FOUND && Settled() && Report(log).Returned?
    }

    /** A step of the way to the cohort lease. */
    method Step(q: Query) returns (good: bool)
      requires Consistent() && OnTheWay() && Allowed(role, log, q) && (q.Open? || q == Identify || q == Init)
      modifies this
      ensures Consistent() && OnTheWay() && held == (if q == Init then old(held) + {Context} else
                                     if q.Open? && good then old(held) + {q.token} else old(held))
      ensures q == Identify && good ==> HasIdentified(log)
      ensures Clear(log) <==> Clear(old(log)) && (good || q == Init)
    {
      hide Held, Disciplined, Allowed, ResultOf, Complained, HasRun, HasBegun, HasContained, Clear, Since, Report;
      var r := Ask(q);
      good := r.flag;
      assert log[|log| - 1] in log;
    }

    /** The endpoint and what hangs on it, up to the cohort lease. */
    method Connect() returns (admitted: bool)
      requires Consistent() && OnTheWay() && held == {} && Clear(log)
      modifies this
      ensures Consistent() && OnTheWay() && held <= {Endpoint, ProjectLocks, CohortManager, CohortLease}
      ensures held != {} ==> Endpoint in held
      ensures admitted ==> held == {Endpoint, ProjectLocks, CohortManager, CohortLease}
      ensures admitted <==> Clear(log)
    {
      hide OnTheWay, Clear, HasIdentified, MayRelease;
      var endpoint := Step(Open(Endpoint));
      if !endpoint { return false; }
      var locks := Step(Open(ProjectLocks));
      var manager := Step(Open(CohortManager));
      if !locks || !manager { return false; }
      if role == LocalCli {
        var identified := Step(Identify);
        if !identified { return false; }
      }
      admitted := Join();
    }

    /** Admission to the version cohort. */
    method Join() returns (admitted: bool)
      requires Consistent() && OnTheWay() && Allowed(role, log, Admit) && Clear(log)
      modifies this
      ensures Consistent() && OnTheWay() && (admitted <==> Clear(log))
      ensures held == old(held) || held == old(held) + {CohortLease}
      ensures admitted ==> CohortLease in held
    {
      hide Held, Disciplined, Allowed, ResultOf, Complained, HasRun, HasBegun, HasContained, Clear, Since, Report;
      var r := Ask(Admit);
      admitted := r.status == COHORT_OK;
    }

    /** The questions put under the local transition, each asked only after the one before it was
        answered well. */
    method Check() returns (entered: bool)
      requires Consistent() && Transition in held && !HasBegun(log) && !HasContained(log) && Clear(log)
      requires !HasRun(log) && !Complained(log)
      modifies this
      ensures Consistent() && held == old(held) && !HasRun(log) && !HasContained(log) && !Complained(log)
      ensures ResultOf(log) == ResultOf(old(log))
      ensures entered == HasBegun(log) && entered == Clear(log)
      ensures Settled() && Report(log).Returned?
    {
      hide Held, Disciplined, ResultOf, Complained, MayAcquire, MayRelease;
      hide HasRun, HasBegun, HasContained, Clear, Since, Report;
      var s := Ask(Seal);
      if s.status != 1 { return false; }
      SealedNow();
      var p := Ask(Presence);
      if p.status != DAEMON_ABSENT && p.status != DAEMON_COORDINATED { return false; }
      ClearedNow();
      var b := Ask(BeginWork);
      return b.flag;
    }

    lemma SealedNow()
      requires log != [] && SealsWell(log[|log| - 1])
      ensures HasSealed(log)
    {
      assert log[|log| - 1] in log;
    }

    lemma ClearedNow()
      requires log != [] && FindsNoDaemon(log[|log| - 1])
      ensures NoDaemonInTheWay(log)
    {
      assert log[|log| - 1] in log;
    }

    /** From admission to the command itself, which runs if and only if no answer refuses it. */
    method Work() returns (result: int, stopped: bool, code: int)
      requires Consistent() && OnTheWay() && Clear(log)
      requires held == {Endpoint, ProjectLocks, CohortManager, CohortLease}
      modifies this
      ensures Consistent() && !Complained(log) && result == ResultOf(log)
      ensures Endpoint in held && (Monitor in held ==> Context in held) && (Monitor in held || Settled())
      ensures HasRun(log) <==> Clear(log)
      ensures if stopped then Report(log) == ProcessExit(code) && held != {} else Report(log).Returned?
    {
      hide Held, Disciplined, ResultOf, Complained, MayRelease, HasRun, HasBegun, HasContained, Clear, Since, Report;
      result, stopped, code := CBM_NOT_FOUND, false, EXIT_FAILURE;
      var _ := Step(Init);
      var watched := Step(Open(Monitor));
      if !watched { return; }
      var status, made := AcquireTransition();
      if status != 1 || !made { return; }
      var entered := Check();
      if !entered { return; }
      if role == Worker {
        var contained := Ask(Contain);
        if !contained.flag {
          stopped := true;
          return;
        }
      }
      result, stopped, code := Execute();
    }

    /** The command, after which a worker hands over its answer and skips the teardown. */
    method Execute() returns (result: int, stopped: bool, code: int)
      requires Consistent() && !Complained(log) && Allowed(role, log, Command)
      modifies this
      ensures Consistent() && !Complained(log) && result == ResultOf(log) && held == old(held)
      ensures HasRun(log) && Clear(log) == Clear(old(log))
      ensures if stopped then Report(log) == ProcessExit(code) else Report(log).Returned?
    {
      hide Held, Disciplined, ResultOf, Complained, MayAcquire, MayRelease;
      hide HasRun, HasBegun, HasContained, Clear, Since, Report;
      var r := Ask(Command);
      result, stopped, code := r.status, false, EXIT_FAILURE;
      if role == Worker && r.flag {
        var response := Ask(HandOver);
        stopped := true;
        if response.flag { code := 0; }
      }
    }

    /** Stop the observer, then let go of the context it borrows. */
    method Finish() returns (stopped: bool)
      requires Consistent() && (Monitor in held ==> Context in held) && (Monitor in held || Settled())
      requires Report(log).Returned?
      modifies this
      ensures Consistent() && SameCourse(old(log), log) && Complained(log) == Complained(old(log))
      ensures stopped ==> Monitor in held && Report(log) == ProcessExit(EXIT_FAILURE)
      ensures !stopped ==> held == old(held) - {Monitor, Context} && Settled() && Report(log).Returned?
    {
      hide Held, Disciplined, ResultOf, Complained, HasRun, HasBegun, Clear, Since, Report;
      if Monitor in held {
        var r := Ask(StopObserver);
        if !r.flag { return true; }
      }
      Give(Context);
      return false;
    }

    /** The common cleanup label. */
    method CleanUp() returns (clean: bool, stopped: bool)
      requires Consistent() && (Monitor in held ==> Context in held) && (Monitor in held || Settled())
      requires (held != {} ==> Endpoint in held) && !Complained(log) && Report(log).Returned?
      modifies this
      ensures Consistent() && SameCourse(old(log), log)
      ensures stopped ==> held != {} && Report(log) == ProcessExit(EXIT_FAILURE)
      ensures !stopped ==> held == {} && clean == !Complained(log) && Report(log).Returned?
    {
      hide Held, Disciplined, Allowed, ResultOf, Complained, HasRun, HasBegun, Clear, Since, Report;
      clean, stopped := false, true;
      var unwatched := Finish();
      if unwatched { return; }
      var locks, locksStuck := Close(ProjectLocks);
      if locksStuck { return; }
      var _, transitionStuck := Close(Transition);
      if transitionStuck { return; }
      WhatIsLeft(old(held), {ProjectLocks, Context, Monitor, Transition});
      assert held == old(held) - {ProjectLocks, Context, Monitor, Transition};
      var lease, leaseStuck := Close(CohortLease);
      if leaseStuck { return; }
      var manager, managerStuck := Close(CohortManager);
      if managerStuck { return; }
      Give(Endpoint);
      return locks && lease && manager, false;
    }

    lemma StartOfRun()
      requires log == [] && now == 0
      ensures OnTheWay() && Clear(log)
    {
    }

    /** The LOCAL_CLI and WORKER branches. Whatever the outside world answers: every call is made
        under the discipline; the command runs if and only if no answer refuses it; an ordinary
        return has given back everything, an exit on the spot has not; and what is reported is
        determined by the answers. */
    method Run() returns (outcome: Outcome)
      requires Consistent() && held == {} && log == [] && now == 0
      modifies this
      ensures Consistent()
      ensures HasRun(log) <==> Clear(log)
      ensures outcome == Report(log)
      ensures outcome.Returned? <==> Held(log) == {}
    {
      hide Held, Disciplined, ResultOf, Complained, HasRun, HasBegun, HasContained, Clear, Since, Report, MayRelease;
      StartOfRun();
      var admitted := Connect();
      var result, stopped, code := CBM_NOT_FOUND, false, EXIT_FAILURE;
      if admitted { result, stopped, code := Work(); }
      if stopped { return ProcessExit(code); }
      var clean;
      clean, stopped := CleanUp();
      if stopped { return ProcessExit(EXIT_FAILURE); }
      ReturnedCode(log);
      return Returned(if !clean || result < 0 then EXIT_FAILURE else result);
    }
  }

  lemma ReturnedCode(log: seq<Exchange>)
    requires Report(log).Returned?
    ensures Report(log) == Returned(ExitCode(log))
  {
  }
}
