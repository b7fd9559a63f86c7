/**
  The timing of `manifest_persist_loop` (src/daemon/server.rs): sleeps take time, everything else is instantaneous.
  Enqueues, and flushes by others, may happen at any moment.
*/
module ManifestDebounce {
  import opened ManifestSync

  const DEBOUNCE_MS := 500
  const POLL_MS := 50

  /** While debouncing, the loop remembers the generation it read, that of the first `stable` enqueues. */
  datatype Loop =
    | Polling(wake: nat)
    | Debouncing(stable: nat, wake: nat)

  /**
    The clock, the queue as the loop sees it, the times of the last enqueue and of the loop's last flush, and the loop's
    sleep. The generation is the number of enqueues, in 64 bits.
  */
  datatype State = State(now: nat, dirty: bool, enqueues: nat, lastEnqueue: nat, lastFlush: nat, loop: Loop)

  datatype Action =
    | Enqueue
    | FlushedByOther
    | Elapse(ms: nat)
    | Wake(flushSucceeds: bool)

  const Start := State(0, false, 0, 0, 0, Polling(0))

  predicate Enabled(s: State, a: Action) {
    match a
    case Elapse(ms) => s.now + ms <= s.loop.wake
    case Wake(_) => s.now == s.loop.wake
    case _ => true
  }

  predicate Flushes(s: State, a: Action) {
    a.Wake? && s.loop.Debouncing? && s.dirty && SameGeneration(s.loop.stable, s.enqueues)
  }

  predicate SameGeneration(a: nat, b: nat) {
    a % GENERATIONS == b % GENERATIONS
  }

  function Next(s: State, a: Action): State {
    match a
    case Enqueue => s.(dirty := true, enqueues := s.enqueues + 1, lastEnqueue := s.now)
    case FlushedByOther => s.(dirty := false)
    case Elapse(ms) => s.(now := s.now + ms)
    case Wake(flushSucceeds) =>
      if Flushes(s, a) then
        s.(dirty := !flushSucceeds, lastFlush := s.now, loop := Polling(s.now))
      else if s.dirty then
        s.(loop := Debouncing(s.enqueues, s.now + DEBOUNCE_MS))
      else
        s.(loop := Polling(if s.loop.Polling? then s.now + POLL_MS else s.now))
  }

  ghost predicate IsRun(run: seq<State>, acts: seq<Action>) {
    && |run| == |acts| + 1 && run[0] == Start
    && forall i :: 0 <= i < |acts| ==> Enabled(run[i], acts[i]) && run[i + 1] == Next(run[i], acts[i])
  }

  /** The counter does not come round within one sleep. */
  ghost predicate NoWrap(s: State) {
    s.loop.Debouncing? ==> s.enqueues - s.loop.stable < GENERATIONS
  }

  lemma SameGenerationMeans(a: nat, b: nat)
    requires a <= b < a + GENERATIONS
    ensures SameGeneration(a, b) <==> a == b
  {
  }

  function Latest(s: State): nat { if s.lastEnqueue < s.lastFlush then s.lastFlush else s.lastEnqueue }

  ghost predicate Timely(s: State) {
    && Latest(s) <= s.now <= s.loop.wake
    && match s.loop
       case Polling(wake) =>
         wake <= s.now + POLL_MS && (s.dirty ==> wake <= Latest(s) + POLL_MS)
       case Debouncing(stable, wake) =>
         && DEBOUNCE_MS <= wake <= s.now + DEBOUNCE_MS && stable <= s.enqueues
         && (stable == s.enqueues ==> s.lastEnqueue + DEBOUNCE_MS <= wake)
         && (stable < s.enqueues ==> wake <= s.lastEnqueue + DEBOUNCE_MS)
         && (s.dirty ==> wake <= Latest(s) + 2 * DEBOUNCE_MS)
  }

  /**
    Whenever the loop flushes, half a second has passed with no enqueue; and as long as the queue is dirty, the last
    enqueue or flush attempt is at most a second ago, so a flush, or a retry of a failed one, always comes in time.
  */
  lemma {:induction false} FlushesAreDebouncedAndPrompt(run: seq<State>, acts: seq<Action>, i: nat)
    requires IsRun(run, acts) && i <= |acts| && forall j :: 0 <= j <= i ==> NoWrap(run[j])
    ensures Timely(run[i])
    ensures i < |acts| && Flushes(run[i], acts[i]) ==> run[i].lastEnqueue + DEBOUNCE_MS <= run[i].now
    ensures run[i].dirty ==> run[i].now <= Latest(run[i]) + 2 * DEBOUNCE_MS
  {
    hide Timely, Next, Enabled, Flushes, NoWrap;
    if i == 0 {
      StartIsTimely();
    } else {
      FlushesAreDebouncedAndPrompt(run, acts, i - 1);
      assert Enabled(run[i - 1], acts[i - 1]) && run[i] == Next(run[i - 1], acts[i - 1]);
      StepIsTimely(run[i - 1], acts[i - 1]);
    }
    TimelyMeans(run[i]);
    if i < |acts| {
      assert Enabled(run[i], acts[i]);
      if Flushes(run[i], acts[i]) {
        FlushIsDebounced(run[i], acts[i]);
      }
    }
  }

  lemma StartIsTimely()
    ensures Timely(Start)
  {
  }

  lemma StepIsTimely(s: State, a: Action)
    requires Timely(s) && NoWrap(s) && Enabled(s, a)
    ensures Timely(Next(s, a))
  {
    hide SameGeneration;
    if s.loop.Debouncing? {
      SameGenerationMeans(s.loop.stable, s.enqueues);
    }
  }

  lemma TimelyMeans(s: State)
    requires Timely(s)
    ensures s.dirty ==> s.now <= Latest(s) + 2 * DEBOUNCE_MS
  {
  }

  lemma FlushIsDebounced(s: State, a: Action)
    requires Timely(s) && NoWrap(s) && Enabled(s, a) && Flushes(s, a)
    ensures s.lastEnqueue + DEBOUNCE_MS <= s.now
  {
    hide SameGeneration;
    SameGenerationMeans(s.loop.stable, s.enqueues);
  }
}
