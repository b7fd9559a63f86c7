/**
  Enqueues and flushes of the manifest queue (src/daemon/manifest_sync.rs) interleaved.

  A flush reads the generation, snapshots, writes, re-reads the generation and
  clears, each a step of its own; an enqueue merges its patch and then bumps the
  generation, holding the lock for both.
*/
module ManifestInterleaving {
  import opened Common
  import opened ManifestSync

  datatype Enqueued = Enqueued(ssn: string, patch: Patch)

  /** Where a flush is, the generation it read, and how many enqueues its reads had seen. */
  datatype Phase =
    | Reading(generation: nat, bumped: nat)
    | Snapped(generation: nat, bumped: nat, snapshot: Pending, upTo: nat)
    | Persisted(generation: nat, bumped: nat, snapshot: Pending, upTo: nat)
    | Clearing(snapshot: Pending, upTo: nat)

  /**
    The queue, the manifest and the flushes under way; then history: all enqueues, all writes merged, the log index of
    the last clear.
  */
  datatype State = State(
    manifest: Manifest, patches: Pending, dirty: bool, generation: nat, locked: bool, flushers: map<nat, Phase>,
    log: seq<Enqueued>, written: Pending, cleared: nat)

  datatype Action =
    | MergePatch(ssn: string, patch: Patch)
    | BumpGeneration
    | ReadGeneration(f: nat)
    | TakeSnapshot(f: nat)
    | Persist(f: nat)
    | PersistFails(f: nat)
    | Recheck(f: nat)
    | Clear(f: nat)

  function Start(m: Manifest): State {
    State(m, map[], false, 0, false, map[], [], map[], 0)
  }

  /** Enqueues whose generation bump has happened. */
  function Bumped(s: State): nat {
    if s.locked && s.log != [] then |s.log| - 1 else |s.log|
  }

  /** Merge, snapshot and clear need the lock; reading the generation does not. */
  predicate Enabled(s: State, a: Action) {
    match a
    case MergePatch(_, patch) => !s.locked && patch != NoPatch
    case BumpGeneration => s.locked
    case ReadGeneration(f) => f !in s.flushers
    case TakeSnapshot(f) => !s.locked && f in s.flushers && s.flushers[f].Reading?
    case Persist(f) => f in s.flushers && s.flushers[f].Snapped?
    case PersistFails(f) => f in s.flushers && s.flushers[f].Snapped?
    case Recheck(f) => f in s.flushers && s.flushers[f].Persisted?
    case Clear(f) => !s.locked && f in s.flushers && s.flushers[f].Clearing?
  }

  function Next(pr: Probe, s: State, a: Action): State
    requires Enabled(s, a)
  {
    match a
    case MergePatch(ssn, patch) =>
      s.(patches := Queued(s.patches, ssn, patch), dirty := true, locked := true, log := s.log + [Enqueued(ssn, patch)])
    case BumpGeneration =>
      s.(generation := (s.generation + 1) % GENERATIONS, locked := false)
    case ReadGeneration(f) =>
      s.(flushers := s.flushers[f := Reading(s.generation, Bumped(s))])
    case TakeSnapshot(f) =>
      var p := s.flushers[f];
      s.(flushers := if s.patches == map[] then s.flushers - {f}
                     else s.flushers[f := Snapped(p.generation, p.bumped, s.patches, |s.log|)])
    case Persist(f) =>
      var p := s.flushers[f];
      s.(manifest := ApplyAll(pr, s.manifest, p.snapshot),
         flushers := s.flushers[f := Persisted(p.generation, p.bumped, p.snapshot, p.upTo)],
         written := MergeAll(s.written, p.snapshot))
    case PersistFails(f) =>
      s.(flushers := s.flushers - {f})
    case Recheck(f) =>
      var p := s.flushers[f];
      if s.generation == p.generation then s.(flushers := s.flushers[f := Clearing(p.snapshot, p.upTo)])
      else s.(flushers := s.flushers - {f})
    case Clear(f) =>
      s.(patches := map[], dirty := false, flushers := s.flushers - {f}, cleared := |s.log|)
  }

  /**
    One flush at a time; no enqueue under way from a successful re-check until its clear; and no re-check that succeeds
    only because enqueues during the write brought the generation round to the value it had.
  */
  predicate Disciplined(s: State, a: Action) {
    match a
    case ReadGeneration(_) => s.flushers == map[]
    case MergePatch(_, _) => forall f | f in s.flushers :: !s.flushers[f].Clearing?
    case Recheck(f) =>
      Enabled(s, a) && s.generation == s.flushers[f].generation ==>
        !s.locked && Bumped(s) - s.flushers[f].bumped < GENERATIONS
    case _ => true
  }

  ghost predicate IsRun(pr: Probe, run: seq<State>, acts: seq<Action>) {
    && |run| == |acts| + 1
    && forall i :: 0 <= i < |acts| ==> Enabled(run[i], acts[i]) && run[i + 1] == Next(pr, run[i], acts[i])
  }

  ghost predicate IsDisciplined(run: seq<State>, acts: seq<Action>)
    requires |run| == |acts| + 1
  {
    forall i :: 0 <= i < |acts| ==> Disciplined(run[i], acts[i])
  }

  // ---------------------------------------------------------------- merging whole maps

  function MergeAll(a: Pending, b: Pending): Pending {
    map ssn | ssn in a.Keys + b.Keys :: Merge(PatchFor(a, ssn), PatchFor(b, ssn))
  }

  /** All of `log` coalesced into one patch a session. */
  function MergeLog(log: seq<Enqueued>): Pending {
    if log == [] then map[] else
      var last := log[|log| - 1];
      Queued(MergeLog(log[..|log| - 1]), last.ssn, last.patch)
  }

  /** The patches of `log` applied one by one, in order, with no queue between. */
  function Replay(pr: Probe, m: Manifest, log: seq<Enqueued>): Manifest {
    if log == [] then m else
      var last := log[|log| - 1];
      ApplyAll(pr, Replay(pr, m, log[..|log| - 1]), map[last.ssn := last.patch])
  }

  /** Any earlier and later patch for the same session coalesce on every entry. */
  ghost predicate Harmonious(pr: Probe, log: seq<Enqueued>) {
    forall i, j :: 0 <= i < j < |log| && log[i].ssn == log[j].ssn ==> Absorbs(pr, log[i].patch, log[j].patch)
  }

  lemma MergeAllAssociates(a: Pending, b: Pending, c: Pending)
    ensures MergeAll(MergeAll(a, b), c) == MergeAll(a, MergeAll(b, c))
  {
    var l, r := MergeAll(MergeAll(a, b), c), MergeAll(a, MergeAll(b, c));
    assert l.Keys == r.Keys;
    forall ssn | ssn in l ensures l[ssn] == r[ssn] {
      MergeLaws(PatchFor(a, ssn), PatchFor(b, ssn), PatchFor(c, ssn));
    }
  }

  lemma MergeAllUnits(a: Pending)
    ensures MergeAll(a, map[]) == a == MergeAll(map[], a) && MergeAll(a, a) == a
  {
  }

  lemma QueuedMergesOnTheRight(a: Pending, b: Pending, ssn: string, p: Patch)
    ensures MergeAll(a, Queued(b, ssn, p)) == Queued(MergeAll(a, b), ssn, p)
  {
  }

  lemma MergeLogSnoc(log: seq<Enqueued>, from: nat, e: Enqueued)
    requires from <= |log|
    ensures MergeLog((log + [e])[from..]) == Queued(MergeLog(log[from..]), e.ssn, e.patch)
  {
    assert (log + [e])[from..][..|log| - from] == log[from..];
  }

  lemma {:induction false} MergedLogAbsorbs(pr: Probe, log: seq<Enqueued>, e: Enqueued)
    requires forall i :: 0 <= i < |log| && log[i].ssn == e.ssn ==> Absorbs(pr, log[i].patch, e.patch)
    ensures Absorbs(pr, PatchFor(MergeLog(log), e.ssn), e.patch)
    decreases |log|
  {
    if log == [] {
      AbsorbsLaws(pr, e.patch, e.patch, e.patch);
    } else {
      var rest, last := log[..|log| - 1], log[|log| - 1];
      MergedLogAbsorbs(pr, rest, e);
      AbsorbsLaws(pr, PatchFor(MergeLog(rest), e.ssn), last.patch, e.patch);
    }
  }

  // ---------------------------------------------------------------- what every disciplined step keeps

  ghost predicate PhaseOk(s: State, p: Phase) {
    match p
    case Reading(g, bumped) =>
      s.cleared <= bumped <= Bumped(s) && g == bumped % GENERATIONS
    case Snapped(g, bumped, snapshot, upTo) =>
      && s.cleared <= bumped <= Bumped(s) && g == bumped % GENERATIONS && bumped <= upTo <= |s.log|
      && snapshot == MergeLog(s.log[s.cleared..upTo]) && MergeAll(snapshot, s.patches) == s.patches
    case Persisted(g, bumped, snapshot, upTo) =>
      && s.cleared <= bumped <= Bumped(s) && g == bumped % GENERATIONS && bumped <= upTo <= |s.log|
      && snapshot == MergeLog(s.log[s.cleared..upTo]) && MergeAll(snapshot, s.patches) == s.patches
      && MergeAll(s.written, snapshot) == s.written
    case Clearing(snapshot, upTo) =>
      && snapshot == s.patches && !s.locked && MergeAll(s.written, snapshot) == s.written
  }

  ghost predicate Books(s: State) {
    && s.cleared <= |s.log| && (s.locked ==> s.cleared < |s.log|)
    && s.patches == MergeLog(s.log[s.cleared..]) && (s.dirty <==> s.patches != map[])
    && s.generation == Bumped(s) % GENERATIONS
    && MergeAll(s.written, s.patches) == MergeLog(s.log)
    && (forall f, g :: f in s.flushers && g in s.flushers ==> f == g)
    && (forall f :: f in s.flushers ==> PhaseOk(s, s.flushers[f]))
  }

  lemma MergeKeepsBooks(pr: Probe, s: State, ssn: string, patch: Patch)
    requires Books(s) && Enabled(s, MergePatch(ssn, patch)) && Disciplined(s, MergePatch(ssn, patch))
    ensures Books(Next(pr, s, MergePatch(ssn, patch)))
  {
    hide MergeAll, MergeLog, Queued;
    var e := Enqueued(ssn, patch);
    var s' := Next(pr, s, MergePatch(ssn, patch));
    MergeLogSnoc(s.log, s.cleared, e);
    MergeLogSnoc(s.log, 0, e);
    assert s.log[0..] == s.log && s'.log[0..] == s'.log;
    QueuedMergesOnTheRight(s.written, s.patches, ssn, patch);
    assert ssn in s'.patches by { QueuedHasKey(s.patches, ssn, patch); }
    forall f | f in s'.flushers ensures PhaseOk(s', s'.flushers[f]) {
      assert PhaseOk(s, s.flushers[f]);
      if !s.flushers[f].Reading? {
        var p := s.flushers[f];
        QueuedMergesOnTheRight(p.snapshot, s.patches, ssn, patch);
        assert s'.log[s.cleared..p.upTo] == s.log[s.cleared..p.upTo];
      }
    }
  }

  lemma QueuedHasKey(ps: Pending, ssn: string, p: Patch)
    ensures ssn in Queued(ps, ssn, p)
  {
  }

  lemma FlushKeepsBooks(pr: Probe, s: State, a: Action)
    requires Books(s) && Enabled(s, a) && Disciplined(s, a) && !a.MergePatch?
    ensures Books(Next(pr, s, a))
  {
    hide MergeAll, MergeLog, Queued, ApplyAll;
    var s' := Next(pr, s, a);
    match a
    case BumpGeneration =>
      BumpKeepsBooks(pr, s);
    case ReadGeneration(f) =>
    case TakeSnapshot(f) =>
      assert PhaseOk(s, s.flushers[f]);
      MergeAllUnits(s.patches);
      assert s.log[s.cleared..|s.log|] == s.log[s.cleared..];
    case Persist(f) =>
      assert PhaseOk(s, s.flushers[f]);
      var snapshot := s.flushers[f].snapshot;
      MergeAllAssociates(s.written, snapshot, s.patches);
      MergeAllAssociates(s.written, snapshot, snapshot);
      MergeAllUnits(snapshot);
    case PersistFails(f) =>
    case Recheck(f) =>
      assert PhaseOk(s, s.flushers[f]);
      var p := s.flushers[f];
      if s.generation == p.generation {
        SameGeneration(p.bumped, Bumped(s));
        assert s.log[s.cleared..|s.log|] == s.log[s.cleared..];
      }
    case Clear(f) =>
      assert PhaseOk(s, s.flushers[f]);
      assert s.log[|s.log|..] == [];
      assert MergeLog([]) == map[] by { EmptyLog(); }
      MergeAllUnits(s.written);
  }

  lemma BumpKeepsBooks(pr: Probe, s: State)
    requires Books(s) && s.locked
    ensures Books(Next(pr, s, BumpGeneration))
  {
    hide MergeAll, MergeLog;
    var s' := Next(pr, s, BumpGeneration);
    forall f | f in s'.flushers ensures PhaseOk(s', s'.flushers[f]) {
      assert PhaseOk(s, s.flushers[f]);
    }
  }

  lemma EmptyLog()
    ensures MergeLog([]) == map[]
  {
  }

  lemma SameGeneration(a: nat, b: nat)
    requires a <= b < a + GENERATIONS && a % GENERATIONS == b % GENERATIONS
    ensures a == b
  {
  }

  // ---------------------------------------------------------------- the manifest

  /** The manifest overlaid with the queue is what replaying every enqueue would have made. */
  ghost predicate Current(pr: Probe, m: Manifest, s: State) {
    ApplyAll(pr, s.manifest, s.patches) == Replay(pr, m, s.log)
  }

  /** What a flush has written is in the manifest until it ends. */
  ghost predicate Settled(pr: Probe, s: State) {
    forall f :: f in s.flushers && (s.flushers[f].Persisted? || s.flushers[f].Clearing?) ==>
      ApplyAll(pr, s.manifest, s.flushers[f].snapshot) == s.manifest
  }

  /**
    The exact price of coalescing, checkable before the step: an enqueued patch coalesces with the one queued for its
    session, given the entry on file; and a written snapshot coalesces with what has been queued on top of it.
  */
  ghost predicate StepCoalesces(pr: Probe, s: State, a: Action) {
    match a
    case MergePatch(ssn, patch) =>
      ssn in s.manifest ==> Coalesces(pr, s.manifest[ssn], PatchFor(s.patches, ssn), patch)
    case Persist(f) =>
      f in s.flushers && s.flushers[f].Snapped? ==>
        forall ssn :: ssn in s.manifest ==>
          Coalesces(pr, s.manifest[ssn], PatchFor(s.flushers[f].snapshot, ssn), PatchFor(s.patches, ssn))
    case _ => true
  }

  lemma ApplyNothing(pr: Probe, m: Manifest)
    ensures ApplyAll(pr, m, map[]) == m
  {
  }

  lemma ApplyTwice(pr: Probe, m: Manifest, ps: Pending)
    ensures ApplyAll(pr, ApplyAll(pr, m, ps), ps) == ApplyAll(pr, m, ps)
  {
    forall ssn | ssn in m
      ensures Apply(pr, Apply(pr, m[ssn], PatchFor(ps, ssn)), PatchFor(ps, ssn)) == Apply(pr, m[ssn], PatchFor(ps, ssn))
    {
      AbsorbsLaws(pr, PatchFor(ps, ssn), NoPatch, NoPatch);
      AbsorbedPatchesCoalesce(pr, m[ssn], PatchFor(ps, ssn), PatchFor(ps, ssn));
    }
  }

  lemma QueuedExactly(pr: Probe, m: Manifest, ps: Pending, ssn: string, p: Patch)
    ensures ApplyAll(pr, m, Queued(ps, ssn, p)) == ApplyAll(pr, ApplyAll(pr, m, ps), map[ssn := p])
        <==> (ssn in m ==> Coalesces(pr, m[ssn], PatchFor(ps, ssn), p))
  {
    hide Apply, Coalesces, Merge;
    var l, r := ApplyAll(pr, m, Queued(ps, ssn, p)), ApplyAll(pr, ApplyAll(pr, m, ps), map[ssn := p]);
    forall k | k in m && k != ssn ensures l[k] == r[k] {
      ApplyNoPatch(pr, Apply(pr, m[k], PatchFor(ps, k)));
    }
    if ssn in m {
      CoalescingIsFaithfulExactly(pr, m[ssn], PatchFor(ps, ssn), p);
      assert l[ssn] == r[ssn] <==> Coalesces(pr, m[ssn], PatchFor(ps, ssn), p);
    }
    assert l.Keys == r.Keys;
  }

  lemma ApplyNoPatch(pr: Probe, e: Entry)
    ensures Apply(pr, e, NoPatch) == e
  {
  }

  lemma WriteExactly(pr: Probe, m: Manifest, snapshot: Pending, ps: Pending)
    requires MergeAll(snapshot, ps) == ps
    ensures ApplyAll(pr, ApplyAll(pr, m, snapshot), ps) == ApplyAll(pr, m, ps)
        <==> forall ssn :: ssn in m ==> Coalesces(pr, m[ssn], PatchFor(snapshot, ssn), PatchFor(ps, ssn))
  {
    hide Apply, Coalesces, Merge;
    var l, r := ApplyAll(pr, ApplyAll(pr, m, snapshot), ps), ApplyAll(pr, m, ps);
    assert l.Keys == m.Keys == r.Keys;
    forall ssn | ssn in m
      ensures l[ssn] == r[ssn] <==> Coalesces(pr, m[ssn], PatchFor(snapshot, ssn), PatchFor(ps, ssn))
    {
      CoalescingIsFaithfulExactly(pr, m[ssn], PatchFor(snapshot, ssn), PatchFor(ps, ssn));
      MergedPatch(snapshot, ps, ssn);
    }
  }

  lemma MergedPatch(a: Pending, b: Pending, ssn: string)
    ensures PatchFor(MergeAll(a, b), ssn) == Merge(PatchFor(a, ssn), PatchFor(b, ssn))
  {
  }

  lemma StepKeepsSettled(pr: Probe, s: State, a: Action)
    requires Books(s) && Settled(pr, s) && Enabled(s, a) && Disciplined(s, a)
    ensures Settled(pr, Next(pr, s, a))
  {
    hide ApplyAll, MergeAll, MergeLog, Queued, PhaseOk;
    if a.Persist? {
      ApplyTwice(pr, s.manifest, s.flushers[a.f].snapshot);
    }
  }

  /** From a current state, a step keeps the manifest current if and only if what it coalesces coalesces. */
  lemma StepKeepsManifestCurrent(pr: Probe, m: Manifest, s: State, a: Action)
    requires Books(s) && Settled(pr, s) && Current(pr, m, s) && Enabled(s, a) && Disciplined(s, a)
    ensures Current(pr, m, Next(pr, s, a)) <==> StepCoalesces(pr, s, a)
  {
    hide MergeAll, MergeLog, ApplyAll, Queued, Coalesces;
    match a
    case MergePatch(ssn, patch) =>
      assert Next(pr, s, a).log[..|s.log|] == s.log;
      QueuedExactly(pr, s.manifest, s.patches, ssn, patch);
    case Persist(f) =>
      assert PhaseOk(s, s.flushers[f]);
      WriteExactly(pr, s.manifest, s.flushers[f].snapshot, s.patches);
    case Clear(f) =>
      assert PhaseOk(s, s.flushers[f]);
      ApplyNothing(pr, s.manifest);
    case _ =>
  }

  // ---------------------------------------------------------------- exactly when nothing is lost, in any run

  /** What was written, overlaid with what is queued, is all that was enqueued. */
  ghost predicate Kept(s: State) {
    MergeAll(s.written, s.patches) == MergeLog(s.log)
  }

  /**
    The exact price of a step, checkable before it: a clear finds only what was written, and a write leaves what is
    written, overlaid with the queue, as it was.
  */
  ghost predicate StepKeeps(s: State, a: Action) {
    match a
    case Persist(f) =>
      f in s.flushers && s.flushers[f].Snapped? ==>
        MergeAll(MergeAll(s.written, s.flushers[f].snapshot), s.patches) == MergeAll(s.written, s.patches)
    case Clear(_) => MergeAll(s.written, s.patches) == s.written
    case _ => true
  }

  lemma StepKeepsExactly(pr: Probe, s: State, a: Action)
    requires Kept(s) && Enabled(s, a)
    ensures Kept(Next(pr, s, a)) <==> StepKeeps(s, a)
  {
    hide MergeAll, MergeLog, Queued, ApplyAll;
    match a
    case MergePatch(ssn, patch) =>
      QueuedMergesOnTheRight(s.written, s.patches, ssn, patch);
      MergeLogSnoc(s.log, 0, Enqueued(ssn, patch));
      assert s.log[0..] == s.log && Next(pr, s, a).log[0..] == Next(pr, s, a).log;
    case Clear(_) =>
      MergeAllUnits(s.written);
    case _ =>
  }

  /**
    In every run, however many flushes overlap and wherever enqueues fall: nothing was lost at any moment so far if and
    only if every step so far kept its price.
  */
  lemma {:induction false} NothingIsLostExactly(pr: Probe, m: Manifest, run: seq<State>, acts: seq<Action>, i: nat)
    requires IsRun(pr, run, acts) && run[0] == Start(m) && i <= |acts|
    ensures (forall j :: 0 <= j <= i ==> Kept(run[j])) <==> forall j :: 0 <= j < i ==> StepKeeps(run[j], acts[j])
  {
    hide Kept, StepKeeps;
    if i == 0 {
      StartIsKept(m);
    } else {
      NothingIsLostExactly(pr, m, run, acts, i - 1);
      assert Enabled(run[i - 1], acts[i - 1]) && run[i] == Next(pr, run[i - 1], acts[i - 1]);
      if Kept(run[i - 1]) {
        StepKeepsExactly(pr, run[i - 1], acts[i - 1]);
      }
    }
  }

  lemma StartIsKept(m: Manifest)
    ensures Kept(Start(m))
  {
    MergeAllUnits(map[]);
  }

  ghost predicate OneFlushAtATime(run: seq<State>, acts: seq<Action>)
    requires |run| == |acts| + 1
  {
    forall i :: 0 <= i < |acts| && acts[i].ReadGeneration? ==> run[i].flushers == map[]
  }

  /** At most one flush, whose snapshot is part of the queue. */
  ghost predicate Lone(s: State) {
    && (forall f, g :: f in s.flushers && g in s.flushers ==> f == g)
    && (forall f :: f in s.flushers && s.flushers[f].Snapped? ==>
        MergeAll(s.flushers[f].snapshot, s.patches) == s.patches)
  }

  lemma StepKeepsLone(pr: Probe, s: State, a: Action)
    requires Lone(s) && Enabled(s, a) && (a.ReadGeneration? ==> s.flushers == map[])
    ensures Lone(Next(pr, s, a))
  {
    hide MergeAll, Queued, ApplyAll;
    match a
    case MergePatch(ssn, patch) =>
      forall f | f in s.flushers && s.flushers[f].Snapped?
        ensures MergeAll(s.flushers[f].snapshot, Queued(s.patches, ssn, patch)) == Queued(s.patches, ssn, patch)
      {
        QueuedMergesOnTheRight(s.flushers[f].snapshot, s.patches, ssn, patch);
      }
    case TakeSnapshot(f) =>
      MergeAllUnits(s.patches);
    case _ =>
  }

  /** With one flush at a time, writes are free: nothing is lost exactly when each clear finds only what was written. */
  lemma {:induction false} OnlyClearsCanLose(pr: Probe, m: Manifest, run: seq<State>, acts: seq<Action>, i: nat)
    requires IsRun(pr, run, acts) && run[0] == Start(m) && OneFlushAtATime(run, acts) && i <= |acts|
    ensures (forall j :: 0 <= j <= i ==> Kept(run[j])) <==>
        forall j :: 0 <= j < i && acts[j].Clear? ==> MergeAll(run[j].written, run[j].patches) == run[j].written
  {
    NothingIsLostExactly(pr, m, run, acts, i);
    forall j | 0 <= j < i
      ensures StepKeeps(run[j], acts[j]) <==>
          (acts[j].Clear? ==> MergeAll(run[j].written, run[j].patches) == run[j].written)
    {
      LoneThroughout(pr, m, run, acts, j);
      hide MergeAll, Lone, Kept, Next;
      if acts[j].Persist? {
        LoneWriteIsFree(run[j], acts[j]);
      }
    }
  }

  lemma {:induction false} LoneThroughout(pr: Probe, m: Manifest, run: seq<State>, acts: seq<Action>, i: nat)
    requires IsRun(pr, run, acts) && run[0] == Start(m) && OneFlushAtATime(run, acts) && i <= |acts|
    ensures Lone(run[i])
  {
    if i > 0 {
      hide Lone, Next;
      LoneThroughout(pr, m, run, acts, i - 1);
      assert Enabled(run[i - 1], acts[i - 1]) && run[i] == Next(pr, run[i - 1], acts[i - 1]);
      StepKeepsLone(pr, run[i - 1], acts[i - 1]);
    }
  }

  lemma LoneWriteIsFree(s: State, a: Action)
    requires Lone(s) && a.Persist?
    ensures StepKeeps(s, a)
  {
    hide MergeAll;
    if a.f in s.flushers && s.flushers[a.f].Snapped? {
      MergeAllAssociates(s.written, s.flushers[a.f].snapshot, s.patches);
    }
  }

  /** The same for the manifest itself: what each step must leave as it is, in any run. */
  ghost predicate StepKeepsOverlay(pr: Probe, s: State, a: Action) {
    match a
    case MergePatch(ssn, patch) =>
      ssn in s.manifest ==> Coalesces(pr, s.manifest[ssn], PatchFor(s.patches, ssn), patch)
    case Persist(f) =>
      f in s.flushers && s.flushers[f].Snapped? ==>
        ApplyAll(pr, ApplyAll(pr, s.manifest, s.flushers[f].snapshot), s.patches) == ApplyAll(pr, s.manifest, s.patches)
    case Clear(_) => ApplyAll(pr, s.manifest, s.patches) == s.manifest
    case _ => true
  }

  lemma StepKeepsOverlayExactly(pr: Probe, m: Manifest, s: State, a: Action)
    requires Current(pr, m, s) && Enabled(s, a)
    ensures Current(pr, m, Next(pr, s, a)) <==> StepKeepsOverlay(pr, s, a)
  {
    hide MergeAll, MergeLog, ApplyAll, Queued, Coalesces;
    match a
    case MergePatch(ssn, patch) =>
      assert Next(pr, s, a).log[..|s.log|] == s.log;
      QueuedExactly(pr, s.manifest, s.patches, ssn, patch);
    case Clear(_) =>
      ApplyNothing(pr, s.manifest);
    case _ =>
  }

  /**
    In every run, the manifest was current at every moment so far if and only if every step so far kept the overlay.
  */
  lemma {:induction false} ManifestIsCurrentInAnyRun(
      pr: Probe, m: Manifest, run: seq<State>, acts: seq<Action>, i: nat)
    requires IsRun(pr, run, acts) && run[0] == Start(m) && i <= |acts|
    ensures (forall j :: 0 <= j <= i ==> Current(pr, m, run[j])) <==>
        forall j :: 0 <= j < i ==> StepKeepsOverlay(pr, run[j], acts[j])
  {
    hide Current, StepKeepsOverlay;
    if i == 0 {
      StartIsCurrent(pr, m);
    } else {
      ManifestIsCurrentInAnyRun(pr, m, run, acts, i - 1);
      assert Enabled(run[i - 1], acts[i - 1]) && run[i] == Next(pr, run[i - 1], acts[i - 1]);
      if Current(pr, m, run[i - 1]) {
        StepKeepsOverlayExactly(pr, m, run[i - 1], acts[i - 1]);
      }
    }
  }

  // ---------------------------------------------------------------- whole disciplined runs

  /**
    In every disciplined run of any number of enqueues and flushes, what has been written, overlaid with what is
    queued, is all that was ever enqueued.
  */
  lemma {:induction false} NoPatchIsLost(pr: Probe, m: Manifest, run: seq<State>, acts: seq<Action>, i: nat)
    requires IsRun(pr, run, acts) && run[0] == Start(m) && IsDisciplined(run, acts) && i <= |acts|
    ensures var s := run[i];
      && Books(s) && Settled(pr, s)
      && MergeAll(s.written, s.patches) == MergeLog(s.log)
      && (s.dirty <==> s.patches != map[])
  {
    hide MergeAll, MergeLog, ApplyAll, Queued, PhaseOk;
    if i == 0 {
      EmptyLog();
      MergeAllUnits(map[]);
      assert run[0].log[0..] == [];
    } else {
      var s, a := run[i - 1], acts[i - 1];
      NoPatchIsLost(pr, m, run, acts, i - 1);
      assert Enabled(s, a) && run[i] == Next(pr, s, a);
      StepKeepsSettled(pr, s, a);
      if a.MergePatch? {
        MergeKeepsBooks(pr, s, a.ssn, a.patch);
      } else {
        FlushKeepsBooks(pr, s, a);
      }
    }
  }

  /**
    In every disciplined run, the manifest overlaid with the queue has been, at every moment so far, the manifest with
    every enqueued patch applied in order, if and only if every step so far coalesced; and then a clean queue means a
    manifest with every patch applied in order.
  */
  lemma {:induction false} ManifestIsCurrentExactly(pr: Probe, m: Manifest, run: seq<State>, acts: seq<Action>, i: nat)
    requires IsRun(pr, run, acts) && run[0] == Start(m) && IsDisciplined(run, acts) && i <= |acts|
    ensures (forall j :: 0 <= j <= i ==> Current(pr, m, run[j])) <==>
        forall j :: 0 <= j < i ==> StepCoalesces(pr, run[j], acts[j])
    ensures Current(pr, m, run[i]) && !run[i].dirty ==> run[i].manifest == Replay(pr, m, run[i].log)
  {
    hide Books, Settled, Current, StepCoalesces, Replay, Next, Enabled, Disciplined, ApplyAll;
    NoPatchIsLost(pr, m, run, acts, i);
    if Current(pr, m, run[i]) && !run[i].dirty {
      CleanIsReplayed(pr, m, run[i]);
    }
    if i == 0 {
      StartIsCurrent(pr, m);
    } else {
      ManifestIsCurrentExactly(pr, m, run, acts, i - 1);
      NoPatchIsLost(pr, m, run, acts, i - 1);
      if Current(pr, m, run[i - 1]) {
        StepKeepsManifestCurrent(pr, m, run[i - 1], acts[i - 1]);
      }
    }
  }

  lemma CleanIsReplayed(pr: Probe, m: Manifest, s: State)
    requires Books(s) && Current(pr, m, s) && !s.dirty
    ensures s.manifest == Replay(pr, m, s.log)
  {
    hide PhaseOk, MergeAll, MergeLog, ApplyAll;
    ApplyNothing(pr, s.manifest);
  }

  lemma StartIsCurrent(pr: Probe, m: Manifest)
    ensures Current(pr, m, Start(m))
  {
    ApplyNothing(pr, m);
  }

  // ---------------------------------------------------------------- patches that coalesce on every entry

  lemma SnapshotAbsorbs(pr: Probe, log: seq<Enqueued>, upTo: nat, ssn: string)
    requires upTo <= |log| && Harmonious(pr, log)
    ensures Absorbs(pr, PatchFor(MergeLog(log[..upTo]), ssn), PatchFor(MergeLog(log), ssn))
    decreases |log|
  {
    hide Absorbs;
    var snapshot := PatchFor(MergeLog(log[..upTo]), ssn);
    AbsorbsLaws(pr, snapshot, snapshot, snapshot);
    if upTo == |log| {
      assert log[..upTo] == log;
    } else {
      var rest, last := log[..|log| - 1], log[|log| - 1];
      assert log[..upTo] == rest[..upTo];
      SnapshotAbsorbs(pr, rest, upTo, ssn);
      if last.ssn == ssn {
        MergedLogAbsorbs(pr, log[..upTo], last);
        AbsorbsLaws(pr, snapshot, PatchFor(MergeLog(rest), ssn), last.patch);
      }
    }
  }

  /** The enqueues since the last clear. */
  ghost function SinceClear(s: State): seq<Enqueued> {
    if s.cleared <= |s.log| then s.log[s.cleared..] else []
  }

  /** When the patches enqueued since the last clear absorb one another, the step coalesces. */
  lemma HarmonyCoalesces(pr: Probe, s: State, a: Action)
    requires Books(s) && Enabled(s, a)
    requires Harmonious(pr, SinceClear(s))
    requires a.MergePatch? ==> Harmonious(pr, SinceClear(s) + [Enqueued(a.ssn, a.patch)])
    ensures StepCoalesces(pr, s, a)
  {
    hide MergeLog, Absorbs, Coalesces, MergeAll;
    var queued := SinceClear(s);
    match a
    case MergePatch(ssn, patch) =>
      var longer := queued + [Enqueued(ssn, patch)];
      forall i | 0 <= i < |queued| && queued[i].ssn == ssn ensures Absorbs(pr, queued[i].patch, patch) {
        assert longer[i] == queued[i] && longer[|queued|] == Enqueued(ssn, patch);
      }
      MergedLogAbsorbs(pr, queued, Enqueued(ssn, patch));
      AbsorbersCoalesce(pr, s.manifest, PatchFor(s.patches, ssn), patch);
    case Persist(f) =>
      var p := s.flushers[f];
      assert PhaseOk(s, p);
      assert s.log[s.cleared..p.upTo] == queued[..p.upTo - s.cleared];
      forall ssn | ssn in s.manifest
        ensures Coalesces(pr, s.manifest[ssn], PatchFor(p.snapshot, ssn), PatchFor(s.patches, ssn))
      {
        SnapshotAbsorbs(pr, queued, p.upTo - s.cleared, ssn);
        AbsorbersCoalesce(pr, s.manifest, PatchFor(p.snapshot, ssn), PatchFor(s.patches, ssn));
      }
    case _ =>
  }

  lemma AbsorbersCoalesce(pr: Probe, m: Manifest, p: Patch, q: Patch)
    requires Absorbs(pr, p, q)
    ensures forall ssn :: ssn in m ==> Coalesces(pr, m[ssn], p, q)
  {
    forall ssn | ssn in m ensures Coalesces(pr, m[ssn], p, q) {
      AbsorbedPatchesCoalesce(pr, m[ssn], p, q);
      CoalescingIsFaithfulExactly(pr, m[ssn], p, q);
    }
  }

  lemma EnqueueSinceClear(pr: Probe, s: State, a: Action)
    requires Books(s) && a.MergePatch? && Enabled(s, a)
    ensures SinceClear(Next(pr, s, a)) == SinceClear(s) + [Enqueued(a.ssn, a.patch)]
  {
    hide PhaseOk, MergeAll, MergeLog, Queued;
  }

  /**
    A condition on the patches alone: if, at every moment so far, those enqueued since the last clear absorb one
    another, whatever was enqueued before it, the manifest is current.
  */
  lemma {:induction false} HarmonyKeepsManifestCurrent(
      pr: Probe, m: Manifest, run: seq<State>, acts: seq<Action>, i: nat)
    requires IsRun(pr, run, acts) && run[0] == Start(m) && IsDisciplined(run, acts) && i <= |acts|
    requires forall j :: 0 <= j <= i ==> Harmonious(pr, SinceClear(run[j]))
    ensures Current(pr, m, run[i])
    ensures !run[i].dirty ==> run[i].manifest == Replay(pr, m, run[i].log)
  {
    hide Harmonious, Books, Settled, StepCoalesces, Replay, ApplyAll;
    forall j | 0 <= j < i ensures StepCoalesces(pr, run[j], acts[j]) {
      var s, a := run[j], acts[j];
      NoPatchIsLost(pr, m, run, acts, j);
      assert Enabled(s, a) && run[j + 1] == Next(pr, s, a);
      if a.MergePatch? {
        EnqueueSinceClear(pr, s, a);
      }
      HarmonyCoalesces(pr, s, a);
    }
    ManifestIsCurrentExactly(pr, m, run, acts, i);
  }

  // ---------------------------------------------------------------- why the discipline is needed

  /** The queue has been cleared and the manifest is not what the enqueues asked for. */
  ghost predicate LostAPatch(pr: Probe, m: Manifest, s: State) {
    s.flushers == map[] && !s.dirty && Harmonious(pr, s.log) && s.manifest != Replay(pr, m, s.log)
  }

  function Stamped(time: Option<int>): Manifest { map["ssn" := Entry(None, "", None, time)] }

  function At(time: int): Patch { NoPatch.(messagedAt := Some(time)) }

  function Queue(time: int): Pending { map["ssn" := At(time)] }

  const First := MergePatch("ssn", At(1))
  const Second := MergePatch("ssn", At(2))
  const Log := [Enqueued("ssn", At(1)), Enqueued("ssn", At(2))]

  lemma TwoStamps(pr: Probe)
    ensures Harmonious(pr, Log) && Replay(pr, Stamped(None), Log) == Stamped(Some(2)) != Stamped(Some(1))
    ensures Queued(map[], "ssn", At(1)) == Queue(1) && Queued(Queue(1), "ssn", At(2)) == Queue(2)
    ensures forall t, time :: ApplyAll(pr, Stamped(t), Queue(time)) == Stamped(Some(time))
  {
    assert Log[..1][..0] == [];
    assert Replay(pr, Stamped(None), Log[..1]) == Stamped(Some(1));
    assert Stamped(Some(1))["ssn"] != Stamped(Some(2))["ssn"];
  }

  /** A run from `Start(m)` each of whose steps keeps the discipline, except steps `bad`. */
  ghost predicate IsRunExcept(pr: Probe, m: Manifest, run: seq<State>, acts: seq<Action>, bad: Action) {
    && IsRun(pr, run, acts) && run[0] == Start(m)
    && forall i :: 0 <= i < |acts| ==> Disciplined(run[i], acts[i]) || acts[i] == bad
  }

  ghost predicate Steps(pr: Probe, s: State, a: Action, s': State) {
    Enabled(s, a) && s' == Next(pr, s, a)
  }

  lemma Extend(pr: Probe, m: Manifest, run: seq<State>, acts: seq<Action>, bad: Action, a: Action, s: State)
    returns (run': seq<State>, acts': seq<Action>)
    requires |run| == |acts| + 1 && IsRunExcept(pr, m, run, acts, bad)
    requires Steps(pr, run[|acts|], a, s) && (Disciplined(run[|acts|], a) || a == bad)
    ensures |run'| == |acts'| + 1 && IsRunExcept(pr, m, run', acts', bad) && run'[|acts'|] == s
  {
    run', acts' := run + [s], acts + [a];
  }

  /** The first flush has taken its snapshot of the first patch. */
  function SlowSnapshot(): State {
    Start(Stamped(None)).(
      patches := Queue(1), dirty := true, generation := 1, log := Log[..1],
          flushers := map[0 := Snapped(1, 1, Queue(1), 1)])
  }

  lemma ReachSlowSnapshot(pr: Probe, bad: Action) returns (run: seq<State>, acts: seq<Action>)
    ensures |run| == |acts| + 1 && IsRunExcept(pr, Stamped(None), run, acts, bad) && run[|acts|] == SlowSnapshot()
  {
    hide Queued, ApplyAll, Replay, Harmonious, Queue, Stamped, MergeAll, IsRunExcept;
    TwoStamps(pr);
    assert Queue(1) != map[] by { QueuedHasKey(map[], "ssn", At(1)); }
    var m := Stamped(None);
    var s0 := Start(m);
    run, acts := [s0], [];
    assert IsRunExcept(pr, m, run, acts, bad) by { StartRun(pr, m, bad); }
    var s1 := s0.(patches := Queue(1), dirty := true, locked := true, log := Log[..1]);
    run, acts := Extend(pr, m, run, acts, bad, First, s1);
    var s2 := s1.(generation := 1, locked := false);
    run, acts := Extend(pr, m, run, acts, bad, BumpGeneration, s2);
    var s3 := s2.(flushers := map[0 := Reading(1, 1)]);
    run, acts := Extend(pr, m, run, acts, bad, ReadGeneration(0), s3);
    run, acts := Extend(pr, m, run, acts, bad, TakeSnapshot(0), SlowSnapshot());
  }

  lemma StartRun(pr: Probe, m: Manifest, bad: Action)
    ensures IsRunExcept(pr, m, [Start(m)], [], bad)
  {
  }

  /** An enqueue between the re-check and the clear is wiped unwritten. */
  lemma EnqueueBeforeClearIsLost(pr: Probe)
    ensures exists run, acts ::
      |run| == |acts| + 1 && IsRunExcept(pr, Stamped(None), run, acts, Second)
          && LostAPatch(pr, Stamped(None), run[|acts|])
  {
    hide Queued, ApplyAll, Replay, Harmonious, Queue, Stamped, MergeAll, IsRunExcept;
    TwoStamps(pr);
    var m, bad := Stamped(None), Second;
    var run, acts := ReachSlowSnapshot(pr, bad);
    var s5 := SlowSnapshot().(flushers := map[0 := Persisted(1, 1, Queue(1), 1)], manifest := Stamped(Some(1)),
        written := MergeAll(map[], Queue(1)));
    run, acts := Extend(pr, m, run, acts, bad, Persist(0), s5);
    var s6 := s5.(flushers := map[0 := Clearing(Queue(1), 1)]);
    run, acts := Extend(pr, m, run, acts, bad, Recheck(0), s6);
    var s7 := s6.(patches := Queue(2), locked := true, log := Log);
    run, acts := Extend(pr, m, run, acts, bad, Second, s7);
    var s8 := s7.(generation := 2, locked := false);
    run, acts := Extend(pr, m, run, acts, bad, BumpGeneration, s8);
    var s9 := s8.(patches := map[], dirty := false, flushers := map[], cleared := 2);
    run, acts := Extend(pr, m, run, acts, bad, Clear(0), s9);
  }

  /** A second flush has taken its snapshot of both patches. */
  function BothSnapshots(): State {
    SlowSnapshot().(patches := Queue(2), generation := 2, log := Log,
                    flushers := map[0 := Snapped(1, 1, Queue(1), 1), 1 := Snapped(2, 2, Queue(2), 2)])
  }

  lemma ReachBothSnapshots(pr: Probe) returns (run: seq<State>, acts: seq<Action>)
    ensures |run| == |acts| + 1 && IsRunExcept(pr, Stamped(None), run, acts, ReadGeneration(1))
        && run[|acts|] == BothSnapshots()
  {
    hide Queued, ApplyAll, Replay, Harmonious, Queue, Stamped, MergeAll, IsRunExcept;
    TwoStamps(pr);
    assert Queue(2) != map[] by { QueuedHasKey(Queue(1), "ssn", At(2)); }
    var m, bad := Stamped(None), ReadGeneration(1);
    run, acts := ReachSlowSnapshot(pr, bad);
    var s5 := SlowSnapshot().(patches := Queue(2), locked := true, log := Log);
    run, acts := Extend(pr, m, run, acts, bad, Second, s5);
    var s6 := s5.(generation := 2, locked := false);
    run, acts := Extend(pr, m, run, acts, bad, BumpGeneration, s6);
    var s7 := s6.(flushers := map[0 := Snapped(1, 1, Queue(1), 1), 1 := Reading(2, 2)]);
    run, acts := Extend(pr, m, run, acts, bad, ReadGeneration(1), s7);
    run, acts := Extend(pr, m, run, acts, bad, TakeSnapshot(1), BothSnapshots());
  }

  /** The slower flush has written its older snapshot over the newer one. */
  ghost function Overwritten(pr: Probe): State {
    BothSnapshots().(
      flushers := map[0 := Persisted(1, 1, Queue(1), 1), 1 := Persisted(2, 2, Queue(2), 2)],
      manifest := Stamped(Some(1)),
      written := MergeAll(MergeAll(map[], Queue(2)), Queue(1)))
  }

  lemma ReachOverwritten(pr: Probe) returns (run: seq<State>, acts: seq<Action>)
    ensures |run| == |acts| + 1 && IsRunExcept(pr, Stamped(None), run, acts, ReadGeneration(1))
    ensures run[|acts|] == Overwritten(pr)
  {
    hide Queued, ApplyAll, Replay, Harmonious, Queue, Stamped, MergeAll, IsRunExcept;
    TwoStamps(pr);
    var m, bad := Stamped(None), ReadGeneration(1);
    run, acts := ReachBothSnapshots(pr);
    var s9 := BothSnapshots().(
      flushers := map[0 := Snapped(1, 1, Queue(1), 1), 1 := Persisted(2, 2, Queue(2), 2)], manifest := Stamped(Some(2)),
      written := MergeAll(map[], Queue(2)));
    run, acts := Extend(pr, m, run, acts, bad, Persist(1), s9);
    run, acts := Extend(pr, m, run, acts, bad, Persist(0), Overwritten(pr));
  }

  /** With two flushes at once, the slower one writes an older snapshot over what the faster one is about to clear. */
  lemma SecondFlushLosesAPatch(pr: Probe)
    ensures exists run, acts ::
      |run| == |acts| + 1 && IsRunExcept(pr, Stamped(None), run, acts, ReadGeneration(1))
          && LostAPatch(pr, Stamped(None), run[|acts|])
  {
    hide Queued, ApplyAll, Replay, Harmonious, Queue, Stamped, MergeAll, IsRunExcept;
    TwoStamps(pr);
    var m, bad := Stamped(None), ReadGeneration(1);
    var run, acts := ReachOverwritten(pr);
    var s10, fast := Overwritten(pr), Persisted(2, 2, Queue(2), 2);
    var s11 := s10.(flushers := map[1 := fast]);
    run, acts := Extend(pr, m, run, acts, bad, Recheck(0), s11);
    var s12 := s11.(flushers := map[1 := Clearing(Queue(2), 2)]);
    run, acts := Extend(pr, m, run, acts, bad, Recheck(1), s12);
    var s13 := s12.(patches := map[], dirty := false, flushers := map[], cleared := 2);
    run, acts := Extend(pr, m, run, acts, bad, Clear(1), s13);
  }
}
