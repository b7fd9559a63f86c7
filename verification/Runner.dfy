/**
  The run records of one automation and the scheduler tick that keeps them
  (src/automation/runner.rs, with src/automation/schema.rs and src/automation/store.rs).
*/
module Runner {
  import opened Common
  import opened Scheduler

  datatype RunStatus = Pending | Running | Done | Failed | Archived

  datatype RunOutcome = Findings | Empty | Unknown

  datatype Run = Run(
    startedAt: int, finishedAt: Option<int>, status: RunStatus, outcome: Option<RunOutcome>, session: Option<string>,
    unread: bool)

  type Runs = map<nat, Run>

  datatype AgentState = AgentDone | AgentError | AgentOther

  /** What a tick sees of the world: live sessions, the daemon's view of sessions, and classified pane captures. */
  datatype World = World(live: set<string>, daemon: map<string, AgentState>, pane: map<string, RunOutcome>)

  const STALE_RUN_TIMEOUT := 7200
  const RECONCILE_WINDOW := 30
  const BUSY_WINDOW := 5

  predicate InProgress(run: Run) { run.status == Running || run.status == Pending }

  predicate Terminal(run: Run) { run.status == Done || run.status == Failed || run.status == Archived }

  // ---------------------------------------------------------------- one run

  method CompleteRunSuccess(run0: Run, now: int) returns (run: Run)
    ensures run == run0.(status := Done, finishedAt := Some(now), outcome := run0.outcome.Or(Some(Findings)),
                        unread := run0.outcome != Some(Empty))
  {
    run := run0.(status := Done, finishedAt := Some(now));
    if run.outcome.None? {
      run := run.(outcome := Some(Findings));
    }
    run := run.(unread := run.outcome != Some(Empty));
  }

  method ApplyOutcome(run0: Run, outcome: RunOutcome) returns (run: Run)
    ensures run == run0.(
                     outcome := Some(outcome), unread := outcome != Empty,
                     status := if outcome == Empty then Archived else run0.status)
  {
    run := run0.(outcome := Some(outcome));
    match outcome
    case Empty => run := run.(status := Archived, unread := false);
    case _ => run := run.(unread := true);
  }

  datatype Verdict = Keep | Fail | Succeed

  /**
    A run in progress fails when it is stale, when its agent reports an error, or when its window is gone; it succeeds
    when its agent is done.
  */
  function Judge(run: Run, now: int, w: World): Verdict {
    if !InProgress(run) then Keep
    else if now - run.startedAt > STALE_RUN_TIMEOUT then Fail
    else if run.session.None? then Keep
    else
      var s := run.session.value;
      if s in w.daemon && w.daemon[s] == AgentDone then Succeed
      else if s in w.daemon && w.daemon[s] == AgentError then Fail
      else if run.status == Running && s !in w.live then Fail
      else Keep
  }

  function Reconciled(run: Run, now: int, w: World): Run {
    match Judge(run, now, w)
    case Keep => run
    case Fail => run.(status := Failed, finishedAt := Some(now), outcome := Some(Unknown), unread := true)
    case Succeed =>
      var captured :=
        if run.session.Some? && run.session.value in w.pane then Some(w.pane[run.session.value]) else None;
      var outcome := captured.Or(run.outcome).Or(Some(Findings));
      run.(status := if captured == Some(Empty) then Archived else Done, finishedAt := Some(now), outcome := outcome,
           unread := outcome != Some(Empty))
  }

  /**
    How a run in progress ends, from what the world shows. It fails when it is stale, or its agent reports an error, or
    it runs in no live window and its agent is not done; it succeeds when its agent is done; else it stays as it is.
  */
  lemma ReconcilingMeans(run: Run, now: int, w: World)
    requires InProgress(run)
    ensures var r := Reconciled(run, now, w);
            var stale := now - run.startedAt > 7200;
            var agent := if run.session.Some? then Lookup(w.daemon, run.session.value) else None;
            var pane := if run.session.Some? then Lookup(w.pane, run.session.value) else None;
            var gone := run.session.Some? && run.session.value !in w.live && run.status == Running;
      && (r.status == Failed <==> stale || agent == Some(AgentError) || (gone && agent != Some(AgentDone)))
      && (r.status == Done <==> !stale && agent == Some(AgentDone) && pane != Some(Empty))
      && (r.status == Archived <==> !stale && agent == Some(AgentDone) && pane == Some(Empty))
      && (InProgress(r) <==> r == run)
      && (r.status == Failed ==> r.outcome == Some(Unknown) && r.unread && r.finishedAt == Some(now))
      && (r.status == Done || r.status == Archived ==>
            && r.outcome == pane.Or(run.outcome).Or(Some(Findings)) && r.finishedAt == Some(now)
            && (r.unread <==> r.outcome != Some(Empty)))
      && r.startedAt == run.startedAt && r.session == run.session
  {
  }

  function Lookup<T>(m: map<string, T>, key: string): Option<T> {
    if key in m then Some(m[key]) else None
  }

  method ReconcileRun(run0: Run, now: int, w: World) returns (run: Run)
    ensures run == Reconciled(run0, now, w)
  {
    run := run0;
    if run.status != Running && run.status != Pending {
      return;
    }
    var changed := false;
    var failed := run.(status := Failed, finishedAt := Some(now), outcome := Some(Unknown), unread := true);
    if now - run.startedAt > STALE_RUN_TIMEOUT {
      run, changed := failed, true;
    } else if run.session.Some? {
      var ssn := run.session.value;
      if ssn !in w.live && run.status == Running {
        if ssn in w.daemon {
          match w.daemon[ssn]
          case AgentDone => run := CompleteRunSuccess(run, now); changed := true;
          case _ => run, changed := failed, true;
        } else {
          run, changed := failed, true;
        }
      } else if ssn in w.daemon {
        match w.daemon[ssn]
        case AgentDone => run := CompleteRunSuccess(run, now); changed := true;
        case AgentError => run, changed := failed, true;
        case AgentOther =>
      }
    }
    if changed && run.status == Done && run.session.Some? && run.session.value in w.pane {
      run := ApplyOutcome(run, w.pane[run.session.value]);
    }
  }

  // ---------------------------------------------------------------- the run directory

  /** Different runs, newest first. */
  ghost predicate Ordered(runs: Runs, ids: seq<nat>) {
    && (forall i :: 0 <= i < |ids| ==> ids[i] in runs)
    && (forall i, j :: 0 <= i < j < |ids| ==> ids[i] != ids[j] && runs[ids[i]].startedAt >= runs[ids[j]].startedAt)
  }

  /** `ids` are the `limit` newest runs, newest first. */
  ghost predicate Newest(runs: Runs, limit: nat, ids: seq<nat>) {
    && |ids| <= limit && Ordered(runs, ids)
    && (forall id :: id in runs && id !in ids ==>
          |ids| == limit && forall i :: 0 <= i < |ids| ==> runs[ids[i]].startedAt >= runs[id].startedAt)
  }

  method InsertByStart(runs: Runs, ids0: seq<nat>, id: nat) returns (ids: seq<nat>)
    requires Ordered(runs, ids0) && id in runs && id !in ids0
    ensures Ordered(runs, ids) && forall x :: x in ids <==> x in ids0 || x == id
  {
    var k := 0;
    while k < |ids0| && runs[ids0[k]].startedAt >= runs[id].startedAt
      invariant k <= |ids0| && forall i :: 0 <= i < k ==> runs[ids0[i]].startedAt >= runs[id].startedAt
    {
      k := k + 1;
    }
    SpliceOrdered(runs, ids0, k, id);
    SpliceMembers(ids0, k, id);
    ids := ids0[..k] + [id] + ids0[k..];
  }

  lemma SpliceOrdered(runs: Runs, ids: seq<nat>, k: nat, id: nat)
    requires Ordered(runs, ids) && id in runs && id !in ids && k <= |ids|
    requires forall i :: 0 <= i < k ==> runs[ids[i]].startedAt >= runs[id].startedAt
    requires k < |ids| ==> runs[ids[k]].startedAt < runs[id].startedAt
    ensures Ordered(runs, ids[..k] + [id] + ids[k..])
  {
    var all := ids[..k] + [id] + ids[k..];
    forall i, j | 0 <= i < j < |all|
      ensures all[i] != all[j] && all[i] in runs && all[j] in runs
      ensures runs[all[i]].startedAt >= runs[all[j]].startedAt
    {
      if i < k {
        assert all[i] == ids[i];
      } else if i > k {
        assert all[i] == ids[i - 1];
      }
      if j < k {
        assert all[j] == ids[j];
      } else if j > k {
        assert all[j] == ids[j - 1];
      }
    }
    assert |all| == 1 ==> all[0] == id;
  }

  lemma SpliceMembers(ids: seq<nat>, k: nat, id: nat)
    requires k <= |ids|
    ensures forall x :: x in ids[..k] + [id] + ids[k..] <==> x in ids || x == id
  {
    assert ids == ids[..k] + ids[k..];
  }

  /** Directory order is arbitrary; the listing is sorted newest first and truncated. */
  method ListRuns(runs: Runs, limit: nat) returns (ids: seq<nat>)
    ensures Newest(runs, limit, ids)
  {
    ids := [];
    var todo := runs.Keys;
    while todo != {}
      invariant todo <= runs.Keys && Ordered(runs, ids)
      invariant forall id :: id in ids <==> id in runs && id !in todo
      decreases todo
    {
      var id :| id in todo;
      todo := todo - {id};
      ids := InsertByStart(runs, ids, id);
    }
    if |ids| > limit {
      TruncatedIsNewest(runs, ids, limit);
      ids := ids[..limit];
    }
  }

  lemma TruncatedIsNewest(runs: Runs, ids: seq<nat>, limit: nat)
    requires Ordered(runs, ids) && limit < |ids| && forall id :: id in runs ==> id in ids
    ensures Newest(runs, limit, ids[..limit])
  {
    forall k | 0 <= k < limit ensures ids[k] in ids[..limit] {
      assert ids[..limit][k] == ids[k];
    }
    forall id | id in runs && id !in ids[..limit]
      ensures forall i :: 0 <= i < limit ==> runs[ids[..limit][i]].startedAt >= runs[id].startedAt
    {
      var j :| 0 <= j < |ids| && ids[j] == id;
    }
  }

  function ReconciledAll(runs: Runs, ids: seq<nat>, now: int, w: World): Runs {
    map id | id in runs :: if id in ids then Reconciled(runs[id], now, w) else runs[id]
  }

  // ---------------------------------------------------------------- a tick

  datatype Launch =
    | Refused
    | LaunchFails
    | Launches(session: string)
    | CrashesPending
    | CrashesRunning(session: string)

  /** One tick: its clock readings, the id of a run it may start, and what happens around it. */
  datatype Tick = Tick(
    now: int, reconciledAt: int, startedAt: int, firedAt: int, id: nat, reached: bool, launch: Launch, world: World)

  /** The run files, the last recorded fire, and, as history, every recorded fire. */
  datatype State = State(runs: Runs, lastFiredAt: Option<int>, fires: seq<int>)

  function NewRun(t: Tick): Run { Run(t.startedAt, None, Pending, None, None, true) }

  function Fired(s: State, t: Tick): State {
    match t.launch
    case Refused => s
    case LaunchFails =>
      var failed := NewRun(t).(status := Failed, finishedAt := Some(t.firedAt), outcome := Some(Unknown));
      s.(runs := s.runs[t.id := failed])
    case CrashesPending => s.(runs := s.runs[t.id := NewRun(t)])
    case CrashesRunning(session) => s.(runs := s.runs[t.id := NewRun(t).(status := Running, session := Some(session))])
    case Launches(session) =>
      var running := NewRun(t).(status := Running, session := Some(session));
      State(s.runs[t.id := running], Some(t.firedAt), s.fires + [t.firedAt])
  }

  predicate IsBusy(runs: Runs, ids: seq<nat>) {
    exists i :: 0 <= i < |ids| && ids[i] in runs && runs[ids[i]].status == Running
  }

  /** The state after a tick, given the two listings it worked from. */
  function Ticked(a: Automation, jitter: Jitter, s: State, t: Tick, window: seq<nat>, recent: seq<nat>): State {
    var s1 := s.(runs := ReconciledAll(s.runs, window, t.reconciledAt, t.world));
    if t.reached && a.active && !IsBusy(s1.runs, recent) && IsDue(a, s.lastFiredAt, t.now, jitter) == Ok(true)
    then Fired(s1, t) else s1
  }

  ghost predicate TickStep(a: Automation, jitter: Jitter, s: State, t: Tick, s': State) {
    exists window, recent ::
      && Newest(s.runs, RECONCILE_WINDOW, window)
      && Newest(ReconciledAll(s.runs, window, t.reconciledAt, t.world), BUSY_WINDOW, recent)
      && s' == Ticked(a, jitter, s, t, window, recent)
  }

  class Store {
    var runs: Runs
    var lastFiredAt: Option<int>
    ghost var fires: seq<int>

    ghost function Contents(): State
      reads this
    {
      State(runs, lastFiredAt, fires)
    }

    method ReconcileRunningRuns(now: int, w: World) returns (ghost window: seq<nat>)
      modifies this`runs
      ensures Newest(old(runs), RECONCILE_WINDOW, window)
      ensures runs == ReconciledAll(old(runs), window, now, w)
    {
      var listed := ListRuns(runs, RECONCILE_WINDOW);
      window := listed;
      for i := 0 to |listed|
        invariant runs.Keys == old(runs).Keys
        invariant forall id :: id in runs ==>
            runs[id] == if id in listed[..i] then Reconciled(old(runs)[id], now, w) else old(runs)[id]
      {
        var id := listed[i];
        assert id !in listed[..i];
        assert listed[..i + 1] == listed[..i] + [id];
        var run := ReconcileRun(runs[id], now, w);
        runs := runs[id := run];
      }
      assert listed[..|listed|] == listed;
    }

    method FireAutomation(t: Tick)
      modifies this
      ensures Contents() == Fired(old(Contents()), t)
    {
      if t.launch.Refused? {
        return;
      }
      var run := NewRun(t);
      runs := runs[t.id := run];
      if t.launch.CrashesPending? {
        return;
      }
      if t.launch.LaunchFails? {
        run := run.(status := Failed, finishedAt := Some(t.firedAt), outcome := Some(Unknown), unread := true);
        runs := runs[t.id := run];
        return;
      }
      run := run.(session := Some(t.launch.session), status := Running);
      runs := runs[t.id := run];
      if t.launch.CrashesRunning? {
        return;
      }
      lastFiredAt := Some(t.firedAt);
      fires := fires + [t.firedAt];
    }

    method TickScheduler(a: Automation, jitter: Jitter, t: Tick)
      modifies this
      ensures TickStep(a, jitter, old(Contents()), t, Contents())
    {
      ghost var s := Contents();
      ghost var window := ReconcileRunningRuns(t.reconciledAt, t.world);
      var recent := ListRuns(runs, BUSY_WINDOW);
      ghost var s' := Ticked(a, jitter, s, t, window, recent);
      assert TickStep(a, jitter, s, t, s');
      if !t.reached || !a.active {
        return;
      }
      if exists i | 0 <= i < |recent| :: runs[recent[i]].status == Running {
        return;
      }
      var due := IsDue(a, lastFiredAt, t.now, jitter);
      if due != Ok(true) {
        return;
      }
      FireAutomation(t);
    }
  }

  // ---------------------------------------------------------------- what every tick keeps

  ghost predicate RunOk(run: Run) {
    && (Terminal(run) ==> run.finishedAt.Some? && run.outcome.Some?)
    && (run.status == Archived ==> run.outcome == Some(Empty) && !run.unread)
    && (InProgress(run) ==> run.outcome.None?)
  }

  /** At most one run is running, it is the newest, and every record is complete for its status. */
  ghost predicate StoreOk(runs: Runs) {
    && (forall id :: id in runs ==> RunOk(runs[id]))
    && (forall id, other :: id in runs && other in runs && id != other ==> runs[id].startedAt != runs[other].startedAt)
    && (forall id, other :: id in runs && other in runs && id != other && runs[id].status == Running ==>
          runs[other].startedAt < runs[id].startedAt)
  }

  /** The clock readings of a tick do not go back, and a new run gets a new id and the latest start time. */
  ghost predicate TickFits(s: State, t: Tick) {
    && t.now <= t.reconciledAt <= t.startedAt <= t.firedAt
    && t.id !in s.runs
    && forall id :: id in s.runs ==> s.runs[id].startedAt < t.startedAt
  }

  lemma NewestIsListed(runs: Runs, limit: nat, ids: seq<nat>, id: nat)
    requires Newest(runs, limit, ids) && limit > 0 && id in runs
    requires forall other :: other in runs && other != id ==> runs[other].startedAt < runs[id].startedAt
    ensures id in ids
  {
    assert ids == [] || ids[0] in runs;
  }

  lemma ReconcileKeepsStoreOk(runs: Runs, window: seq<nat>, now: int, w: World)
    requires StoreOk(runs)
    ensures StoreOk(ReconciledAll(runs, window, now, w))
  {
    hide Reconciled, RunOk;
    forall id | id in runs
      ensures var run := ReconciledAll(runs, window, now, w)[id];
        RunOk(run) && run.startedAt == runs[id].startedAt && (run.status == Running ==> runs[id].status == Running)
    {
      ReconcileOnlyEnds(runs, window, now, w, id);
      ReconciledIsOk(runs[id], now, w);
    }
  }

  lemma ReconciledIsOk(run: Run, now: int, w: World)
    requires RunOk(run)
    ensures RunOk(Reconciled(run, now, w))
  {
  }

  lemma AddRunKeepsStoreOk(runs: Runs, id: nat, run: Run)
    requires StoreOk(runs) && RunOk(run) && id !in runs
    requires forall other :: other in runs ==> runs[other].startedAt < run.startedAt && runs[other].status != Running
    ensures StoreOk(runs[id := run])
  {
  }

  /** Reconciling starts no run and keeps its start time. */
  lemma ReconcileOnlyEnds(runs: Runs, window: seq<nat>, now: int, w: World, id: nat)
    requires id in runs
    ensures var run := ReconciledAll(runs, window, now, w)[id];
      run.startedAt == runs[id].startedAt && (run.status == Running ==> runs[id].status == Running)
  {
  }

  /** With no run busy, a fire adds at most one running run, and it is the newest. */
  lemma FireKeepsStoreOk(s: State, t: Tick)
    requires StoreOk(s.runs) && TickFits(s, t)
    requires forall id :: id in s.runs ==> s.runs[id].status != Running
    ensures StoreOk(Fired(s, t).runs)
    ensures forall id :: id in s.runs ==> id in Fired(s, t).runs && Fired(s, t).runs[id] == s.runs[id]
  {
    hide StoreOk;
    if !t.launch.Refused? {
      AddRunKeepsStoreOk(s.runs, t.id, Fired(s, t).runs[t.id]);
    }
  }

  lemma RunningIsSeen(s: State, t: Tick, window: seq<nat>, recent: seq<nat>, id: nat)
    requires StoreOk(s.runs) && Newest(s.runs, RECONCILE_WINDOW, window)
    requires Newest(ReconciledAll(s.runs, window, t.reconciledAt, t.world), BUSY_WINDOW, recent)
    requires id in s.runs && ReconciledAll(s.runs, window, t.reconciledAt, t.world)[id].status == Running
    ensures t.reconciledAt - s.runs[id].startedAt <= STALE_RUN_TIMEOUT
    ensures IsBusy(ReconciledAll(s.runs, window, t.reconciledAt, t.world), recent)
  {
    var runs1 := ReconciledAll(s.runs, window, t.reconciledAt, t.world);
    assert s.runs[id].status == Running;
    NewestIsListed(s.runs, RECONCILE_WINDOW, window, id);
    NewestIsListed(runs1, BUSY_WINDOW, recent, id);
    var i :| 0 <= i < |recent| && recent[i] == id;
    assert runs1[recent[i]].status == Running;
  }

  /** Every tick keeps the store in order, leaves finished runs alone, and lets no run go on for more than two hours. */
  lemma TickKeepsStoreOk(a: Automation, jitter: Jitter, s: State, t: Tick, s': State)
    requires StoreOk(s.runs) && TickFits(s, t) && TickStep(a, jitter, s, t, s')
    ensures StoreOk(s'.runs)
    ensures forall id :: id in s.runs ==> id in s'.runs && (Terminal(s.runs[id]) ==> s'.runs[id] == s.runs[id])
    ensures forall id :: id in s.runs && s'.runs[id].status == Running ==>
        s.runs[id].status == Running && t.reconciledAt - s.runs[id].startedAt <= STALE_RUN_TIMEOUT
    ensures forall id :: id in s.runs ==> s'.runs[id].startedAt == s.runs[id].startedAt
  {
    hide StoreOk, Newest, Fired, IsDue, IsBusy;
    var window, recent :|
      && Newest(s.runs, RECONCILE_WINDOW, window)
      && Newest(ReconciledAll(s.runs, window, t.reconciledAt, t.world), BUSY_WINDOW, recent)
      && s' == Ticked(a, jitter, s, t, window, recent);
    var s1 := s.(runs := ReconciledAll(s.runs, window, t.reconciledAt, t.world));
    ReconcileKeepsStoreOk(s.runs, window, t.reconciledAt, t.world);
    forall id | id in s.runs
      ensures s1.runs[id].startedAt == s.runs[id].startedAt
      ensures s1.runs[id].status == Running ==> s.runs[id].status == Running
    {
      ReconcileOnlyEnds(s.runs, window, t.reconciledAt, t.world, id);
    }
    forall id | id in s.runs && s1.runs[id].status == Running
      ensures t.reconciledAt - s.runs[id].startedAt <= STALE_RUN_TIMEOUT && IsBusy(s1.runs, recent)
    {
      RunningIsSeen(s, t, window, recent, id);
    }
    if !IsBusy(s1.runs, recent) {
      FireKeepsStoreOk(s1, t);
    }
  }

  /** The record a launch leaves, whichever way it ends. */
  ghost predicate Records(t: Tick, run: Run) {
    && run.startedAt == t.startedAt && run.unread
    && match t.launch
       case Refused => false
       case LaunchFails =>
         && run.status == Failed && run.finishedAt == Some(t.firedAt) && run.outcome == Some(Unknown)
         && run.session == None
       case CrashesPending =>
         run.status == Pending && run.finishedAt == None && run.outcome == None && run.session == None
       case CrashesRunning(session) =>
         run.status == Running && run.finishedAt == None && run.outcome == None && run.session == Some(session)
       case Launches(session) =>
         run.status == Running && run.finishedAt == None && run.outcome == None && run.session == Some(session)
  }

  /**
    Exactly when a tick adds a record: it comes to this automation, which is active, due, not refused, and has no run
    left running by the reconciliation. It adds no other record. A successful launch, and nothing else, is recorded as a
    fire.
  */
  lemma TickStartsExactly(a: Automation, jitter: Jitter, s: State, t: Tick, s': State)
    requires StoreOk(s.runs) && TickFits(s, t) && TickStep(a, jitter, s, t, s')
    ensures forall id :: id in s.runs ==> id in s'.runs
    ensures t.id in s'.runs <==>
        && t.reached && a.active && !t.launch.Refused? && IsDue(a, s.lastFiredAt, t.now, jitter) == Ok(true)
        && forall id :: id in s.runs ==> s'.runs[id].status != Running
    ensures forall id :: id in s'.runs ==> id in s.runs || id == t.id
    ensures t.id in s'.runs ==> Records(t, s'.runs[t.id])
    ensures if t.id in s'.runs && t.launch.Launches?
      then s'.lastFiredAt == Some(t.firedAt) && s'.fires == s.fires + [t.firedAt]
      else s'.lastFiredAt == s.lastFiredAt && s'.fires == s.fires
  {
    hide StoreOk, Newest, IsDue, IsBusy, Reconciled, Fired, Records;
    var window, recent :|
      && Newest(s.runs, RECONCILE_WINDOW, window)
      && Newest(ReconciledAll(s.runs, window, t.reconciledAt, t.world), BUSY_WINDOW, recent)
      && s' == Ticked(a, jitter, s, t, window, recent);
    BusyMeansRunning(s, t, window, recent);
    FiredMeans(s.(runs := ReconciledAll(s.runs, window, t.reconciledAt, t.world)), t);
  }

  lemma FiredMeans(s: State, t: Tick)
    requires t.id !in s.runs
    ensures var s' := Fired(s, t);
      && (t.id in s'.runs <==> !t.launch.Refused?)
      && s'.runs.Keys == s.runs.Keys + (if t.launch.Refused? then {} else {t.id})
      && (forall id :: id in s.runs ==> s'.runs[id] == s.runs[id])
      && (t.id in s'.runs ==> Records(t, s'.runs[t.id]))
      && if t.launch.Launches? then s'.lastFiredAt == Some(t.firedAt) && s'.fires == s.fires + [t.firedAt]
         else s'.lastFiredAt == s.lastFiredAt && s'.fires == s.fires
  {
  }

  lemma BusyMeansRunning(s: State, t: Tick, window: seq<nat>, recent: seq<nat>)
    requires StoreOk(s.runs) && Newest(s.runs, RECONCILE_WINDOW, window)
    requires Newest(ReconciledAll(s.runs, window, t.reconciledAt, t.world), BUSY_WINDOW, recent)
    ensures var runs1 := ReconciledAll(s.runs, window, t.reconciledAt, t.world);
      IsBusy(runs1, recent) <==> exists id :: id in runs1 && runs1[id].status == Running
  {
    hide StoreOk, Newest, Reconciled;
    var runs1 := ReconciledAll(s.runs, window, t.reconciledAt, t.world);
    forall id | id in runs1 && runs1[id].status == Running ensures IsBusy(runs1, recent) {
      RunningIsSeen(s, t, window, recent, id);
    }
  }

  /** The gap the schedule demands between two recorded fires. */
  ghost predicate Spaced(a: Automation, jitter: Jitter, fire: int, next: int) {
    match a.kind
    case Heartbeat(minutes) => fire + Period(minutes) + jitter <= next
    case Cron(rule) =>
      var o := Schedule.NextOccurrence(rule, fire);
      o.Some? && fire < o.value && o.value + jitter <= next
  }

  ghost predicate FiresSpaced(a: Automation, jitter: Jitter, s: State) {
    && (s.lastFiredAt == if s.fires == [] then None else Some(s.fires[|s.fires| - 1]))
    && forall i :: 0 <= i < |s.fires| - 1 ==> Spaced(a, jitter, s.fires[i], s.fires[i + 1])
  }

  lemma TickKeepsFiresSpaced(a: Automation, jitter: Jitter, s: State, t: Tick, s': State)
    requires FiresSpaced(a, jitter, s) && TickFits(s, t) && TickStep(a, jitter, s, t, s')
    ensures FiresSpaced(a, jitter, s')
  {
    hide Newest, ReconciledAll, Schedule.NextOccurrence;
    if s'.fires != s.fires && s.fires != [] {
      var last := s.fires[|s.fires| - 1];
      if a.kind.Cron? {
        Schedule.NextIsLeastAccepted(a.kind.rule, last);
      }
      assert Spaced(a, jitter, last, t.firedAt);
    }
  }

  // ---------------------------------------------------------------- whole runs of the scheduler

  ghost predicate IsRun(a: Automation, jitter: Jitter, run: seq<State>, ticks: seq<Tick>) {
    && |run| == |ticks| + 1 && run[0] == State(map[], None, [])
    && forall i :: 0 <= i < |ticks| ==> TickFits(run[i], ticks[i]) && TickStep(a, jitter, run[i], ticks[i], run[i + 1])
  }

  /** Over any number of ticks, crashes and failed launches included. */
  lemma {:induction false} RunsKeepStoreOkAndFiresSpaced(
      a: Automation, jitter: Jitter, run: seq<State>, ticks: seq<Tick>, i: nat)
    requires IsRun(a, jitter, run, ticks) && i <= |ticks|
    ensures StoreOk(run[i].runs) && FiresSpaced(a, jitter, run[i])
  {
    hide StoreOk, FiresSpaced, TickStep, TickFits;
    if i == 0 {
      EmptyStoreOk(a, jitter);
    } else {
      RunsKeepStoreOkAndFiresSpaced(a, jitter, run, ticks, i - 1);
      TickKeepsStoreOk(a, jitter, run[i - 1], ticks[i - 1], run[i]);
      TickKeepsFiresSpaced(a, jitter, run[i - 1], ticks[i - 1], run[i]);
    }
  }

  /** From any moment of a run on, no record disappears or changes its start time, and a finished one stays as it is. */
  lemma {:induction false} FinishedRunsStay(
      a: Automation, jitter: Jitter, run: seq<State>, ticks: seq<Tick>, i: nat, j: nat, id: nat)
    requires IsRun(a, jitter, run, ticks) && i <= j <= |ticks| && id in run[i].runs
    ensures id in run[j].runs && run[j].runs[id].startedAt == run[i].runs[id].startedAt
    ensures Terminal(run[i].runs[id]) ==> run[j].runs[id] == run[i].runs[id]
    decreases j
  {
    hide StoreOk, FiresSpaced, TickStep, TickFits;
    if i < j {
      FinishedRunsStay(a, jitter, run, ticks, i, j - 1, id);
      RunsKeepStoreOkAndFiresSpaced(a, jitter, run, ticks, j - 1);
      TickKeepsStoreOk(a, jitter, run[j - 1], ticks[j - 1], run[j]);
    }
  }

  /** A run recorded before a tick and still running at any moment after it was at most two hours old at that tick. */
  lemma {:induction false} NoRunOutlivesTwoHours(
      a: Automation, jitter: Jitter, run: seq<State>, ticks: seq<Tick>, k: nat, j: nat, id: nat)
    requires IsRun(a, jitter, run, ticks) && k < j <= |ticks|
    requires id in run[k].runs && id in run[j].runs && run[j].runs[id].status == Running
    ensures ticks[k].reconciledAt - run[j].runs[id].startedAt <= STALE_RUN_TIMEOUT
    decreases j
  {
    hide StoreOk, FiresSpaced, TickStep, TickFits;
    FinishedRunsStay(a, jitter, run, ticks, k, j - 1, id);
    RunsKeepStoreOkAndFiresSpaced(a, jitter, run, ticks, j - 1);
    TickKeepsStoreOk(a, jitter, run[j - 1], ticks[j - 1], run[j]);
    if k < j - 1 {
      NoRunOutlivesTwoHours(a, jitter, run, ticks, k, j - 1, id);
    }
  }

  lemma EmptyStoreOk(a: Automation, jitter: Jitter)
    ensures StoreOk(map[]) && FiresSpaced(a, jitter, State(map[], None, []))
  {
  }

  /** When the launches succeeded whose records the first `n` ticks added to the run files. */
  ghost function LaunchTimes(run: seq<State>, ticks: seq<Tick>, n: nat): seq<int>
    requires n <= |ticks| < |run|
  {
    if n == 0 then []
    else
      var t := ticks[n - 1];
      LaunchTimes(run, ticks, n - 1) + if t.id in run[n].runs && t.launch.Launches? then [t.firedAt] else []
  }

  /**
    The recorded fires are exactly the successful launches, and the last fire the scheduler goes by is the last of them.
  */
  lemma {:induction false} FiresAreLaunches(
      a: Automation, jitter: Jitter, run: seq<State>, ticks: seq<Tick>, n: nat)
    requires IsRun(a, jitter, run, ticks) && n <= |ticks|
    ensures var launches := LaunchTimes(run, ticks, n);
      && run[n].fires == launches
      && run[n].lastFiredAt == if launches == [] then None else Some(launches[|launches| - 1])
  {
    if n > 0 {
      hide StoreOk, FiresSpaced, TickStep, TickFits;
      FiresAreLaunches(a, jitter, run, ticks, n - 1);
      RunsKeepStoreOkAndFiresSpaced(a, jitter, run, ticks, n - 1);
      TickStartsExactly(a, jitter, run[n - 1], ticks[n - 1], run[n]);
    }
  }

  /**
    Catching up fires once, not once a missed occurrence: between any two successful launches of a rule, however late,
    lies an occurrence of its own, jitter included; so n launches take n - 1 different occurrences.
  */
  lemma CatchUpFiresOnce(a: Automation, jitter: Jitter, run: seq<State>, ticks: seq<Tick>)
    returns (occurrences: seq<int>)
    requires IsRun(a, jitter, run, ticks) && a.kind.Cron?
    ensures |run| == |ticks| + 1
    ensures var fires := LaunchTimes(run, ticks, |ticks|);
      && |occurrences| == (if fires == [] then 0 else |fires| - 1)
      && (forall i :: 0 <= i < |occurrences| ==>
            Schedule.Accepts(a.kind.rule, fires[i], occurrences[i]) && fires[i] < occurrences[i]
                && occurrences[i] + jitter <= fires[i + 1])
      && (forall i, j :: 0 <= i < j < |occurrences| ==> occurrences[i] < occurrences[j])
  {
    hide StoreOk, Schedule.Accepts, Schedule.NextOccurrence;
    FiresAreLaunches(a, jitter, run, ticks, |ticks|);
    var fires := run[|ticks|].fires;
    RunsKeepStoreOkAndFiresSpaced(a, jitter, run, ticks, |ticks|);
    var n := if fires == [] then 0 else |fires| - 1;
    forall i | 0 <= i < n ensures Spaced(a, jitter, fires[i], fires[i + 1]) {
    }
    occurrences := seq(n, i requires 0 <= i < n => Schedule.Default(Schedule.NextOccurrence(a.kind.rule, fires[i]), 0));
    forall i | 0 <= i < n
      ensures Schedule.Accepts(a.kind.rule, fires[i], occurrences[i])
      ensures fires[i] < occurrences[i] && occurrences[i] + jitter <= fires[i + 1]
    {
      assert Spaced(a, jitter, fires[i], fires[i + 1]);
      assert Schedule.IsLeastAccepted(a.kind.rule, fires[i], occurrences[i]) by {
        Schedule.NextIsLeastAccepted(a.kind.rule, fires[i]);
      }
    }
    OccurrencesIncrease(a, jitter, fires, occurrences, n);
  }

  lemma {:induction false} OccurrencesIncrease(
      a: Automation, jitter: Jitter, fires: seq<int>, occurrences: seq<int>, n: nat)
    requires n <= |occurrences| < |fires| || n == 0 == |occurrences|
    requires forall i :: 0 <= i < |occurrences| ==> fires[i] < occurrences[i] <= fires[i + 1]
    ensures forall i, j :: 0 <= i < j < n ==> occurrences[i] < occurrences[j]
  {
    if n > 1 {
      OccurrencesIncrease(a, jitter, fires, occurrences, n - 1);
      assert occurrences[n - 2] <= fires[n - 1] < occurrences[n - 1];
    }
  }

  /** A heartbeat whose period and jitter exceed two minutes never starts: no run of the scheduler ever fires it. */
  lemma {:induction false} SlowHeartbeatNeverStarts(
      a: Automation, jitter: Jitter, run: seq<State>, ticks: seq<Tick>, i: nat)
    requires IsRun(a, jitter, run, ticks) && i <= |ticks|
    requires a.kind.Heartbeat? && Period(a.kind.intervalMinutes) + jitter > RECENT
    ensures run[i] == State(map[], None, [])
  {
    if i > 0 {
      SlowHeartbeatNeverStarts(a, jitter, run, ticks, i - 1);
      assert TickStep(a, jitter, run[i - 1], ticks[i - 1], run[i]);
    }
  }

  /** Nor does a rule without an hour, on the hour: daily, weekly or monthly. */
  lemma {:induction false} HourlessRuleNeverStarts(
      a: Automation, jitter: Jitter, run: seq<State>, ticks: seq<Tick>, i: nat)
    requires IsRun(a, jitter, run, ticks) && i <= |ticks| && a.kind.Cron?
    requires var rule := a.kind.rule;
      rule.freq != Schedule.Hourly && rule.byHour.None? && Schedule.SecondOfHour(rule) == 0
    ensures run[i] == State(map[], None, [])
  {
    hide IsDue;
    if i > 0 {
      HourlessRuleNeverStarts(a, jitter, run, ticks, i - 1);
      var t := ticks[i - 1];
      assert TickStep(a, jitter, run[i - 1], t, run[i]);
      if a.active && IsDue(a, None, t.now, jitter) == Ok(true) {
        DueWithoutHour(a.kind.rule, t.now, jitter);
      }
    }
  }
}
