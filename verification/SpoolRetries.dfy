/**
  Failed removals of spool files (src/daemon/spool.rs): the runs in which reading succeeds and files are named in order,
  but a file may survive its message's handling, and which handlers make them harmless.
*/
module SpoolRetries {
  import opened Common
  import opened Order
  import opened Spool

  /** An orderly step, or a removal that fails. */
  ghost predicate TidyStep<M(!new)>(s: State<M>, t: State<M>) {
    OrderlyStep(s, t) || Acks(s, t, true)
  }

  ghost predicate TidyRun<M(!new)>(run: seq<State<M>>) {
    run != [] && Initial(run[0]) && forall i :: 0 < i < |run| ==> TidyStep(run[i - 1], run[i])
  }

  ghost predicate TidyReachable<M(!new)>(s: State<M>) {
    exists run: seq<State<M>> :: TidyRun(run) && run[|run| - 1] == s
  }

  ghost predicate HarmlessWhenTidy<S(!new), M(!new)>(handle: (S, M) -> S, s0: S) {
    forall s: State<M> :: TidyReachable(s) && Quiet(s) ==> Fold(handle, s0, s.applied) == Fold(handle, s0, s.written)
  }

  /** A message handled before, at any time, changes nothing. */
  ghost predicate IgnoresOld<S(!new), M(!new)>(handle: (S, M) -> S, s0: S) {
    forall list: seq<Entry<M>>, e :: e in list ==> handle(Fold(handle, s0, list), e.msg) == Fold(handle, s0, list)
  }

  lemma OldIsIgnored<S(!new), M(!new)>(handle: (S, M) -> S, s0: S, list: seq<Entry<M>>, e: Entry<M>)
    requires IgnoresOld(handle, s0) && e in list
    ensures handle(Fold(handle, s0, list), e.msg) == Fold(handle, s0, list)
  {
  }

  lemma TidyIsStep<M(!new)>(s: State<M>, t: State<M>)
    requires TidyStep(s, t)
    ensures Step(s, t)
  {
    hide OrderlyStep;
    if OrderlyStep(s, t) {
      OrderlyIsStep(s, t);
    }
  }

  lemma TidyReachStep<M(!new)>(s: State<M>, t: State<M>)
    requires TidyReachable(s) && TidyStep(s, t)
    ensures TidyReachable(t)
  {
    hide TidyStep, Initial;
    var run: seq<State<M>> :| TidyRun(run) && run[|run| - 1] == s;
    var longer := run + [t];
    forall i | 0 < i < |longer| ensures TidyStep(longer[i - 1], longer[i]) {
      if i < |run| {
        assert TidyStep(run[i - 1], run[i]);
      }
    }
    assert TidyRun(longer);
    assert (run + [t])[|run + [t]| - 1] == t;
  }

  // ---------------------------------------------------------------- what tidy runs keep

  /** Old messages, among the first `k` written, and then the `n` next ones. */
  ghost predicate OldThenNew<M>(list: seq<Entry<M>>, written: seq<Entry<M>>, k: nat, n: nat) {
    && k + n <= |written| && n <= |list| && list[|list| - n..] == written[k..k + n]
    && forall e :: e in list[..|list| - n] ==> e in written[..k]
  }

  ghost predicate Numbered<M>(written: seq<Entry<M>>) {
    forall j :: 0 <= j < |written| ==> written[j].serial == j
  }

  /** What the daemon has drained and not yet applied. */
  ghost function ToApply<M>(s: State<M>): seq<Entry<M>> {
    var done := s.next + if s.acking then 1 else 0;
    if done <= |s.drained| then s.drained[done..] else []
  }

  /** The first `k` messages have been applied; on disk are some of them, and all later ones, in name order. */
  ghost predicate OnDisk<M(!new)>(s: State<M>, k: nat, disk: seq<Entry<M>>) {
    && k <= |s.written| && Numbered(s.written)
    && Drains(s.files, {}, disk) && OldThenNew(disk, s.written, k, |s.written| - k)
  }

  ghost predicate InHand<M(!new)>(s: State<M>, k: nat) {
    && k <= |s.written| && (s.acking ==> s.next < |s.drained| && s.drained[s.next] in s.written[..k])
    && exists n: nat :: OldThenNew(ToApply(s), s.written, k, n)
  }

  /** Applying the next message either repeats an old one or takes the first new one. */
  lemma NextToApply<M>(list: seq<Entry<M>>, written: seq<Entry<M>>, k: nat, n: nat)
    requires list != [] && OldThenNew(list, written, k, n)
    ensures list[0] in written[..k] ==> n < |list| ==> OldThenNew(list[1..], written, k, n)
    ensures n == |list| ==> k < |written| && list[0] == written[k] && OldThenNew(list[1..], written, k + 1, n - 1)
    ensures n < |list| ==> list[0] in written[..k]
  {
    if n < |list| {
      assert list[0] in list[..|list| - n];
      assert list[1..][..|list| - 1 - n] == list[..|list| - n][1..];
      assert list[1..][|list| - 1 - n..] == list[|list| - n..];
    } else {
      assert list == written[k..k + n];
      assert list[1..] == written[k + 1..k + n];
      assert list[1..][|list| - 1 - (n - 1)..] == list[1..];
    }
  }

  /** What is new counts as old once it is applied. */
  lemma NewBecomesOld<M>(list: seq<Entry<M>>, written: seq<Entry<M>>, k: nat, n: nat)
    requires n > 0 && OldThenNew(list, written, k, n)
    ensures OldThenNew(list, written, k + 1, n - 1)
  {
    var m := |list| - n;
    assert list[m] == list[m..][0] == written[k];
    assert list[m + 1..] == list[m..][1..];
    assert list[..m + 1] == list[..m] + [list[m]];
    assert written[..k + 1] == written[..k] + [written[k]];
  }

  lemma MoreWritten<M>(list: seq<Entry<M>>, written: seq<Entry<M>>, e: Entry<M>, k: nat, n: nat)
    requires OldThenNew(list, written, k, n)
    ensures OldThenNew(list, written + [e], k, n)
    ensures k + n == |written| ==> OldThenNew(list + [e], written + [e], k, n + 1)
  {
    var all := written + [e];
    assert all[..k] == written[..k] && all[k..k + n] == written[k..k + n];
    if k + n == |written| {
      var more := list + [e];
      assert more[..|more| - (n + 1)] == list[..|list| - n];
      assert more[|more| - (n + 1)..] == list[|list| - n..] + [e];
      assert all[k..k + n + 1] == written[k..] + [e];
    }
  }

  lemma RemovedAt<M(!new)>(files: Disk<M>, list: seq<Entry<M>>, i: nat)
    requires Drains(files, {}, list) && i < |list|
    ensures Drains(files - {list[i].name}, {}, list[..i] + list[i + 1..])
  {
    var rest := list[..i] + list[i + 1..];
    assert list[i] in list;
    assert list == list[..i] + [list[i]] + list[i + 1..];
    forall d ensures d in rest <==> Readable(files - {list[i].name}, {}, d) {
      assert d in list <==> Readable(files, {}, d);
      RestMembers(list, i, d);
    }
    assert NamesIncrease(rest) by {
      forall p, q | 0 <= p < q < |rest| ensures LexLeq(rest[p].name, rest[q].name) && rest[p].name != rest[q].name {
        assert rest[p] == list[if p < i then p else p + 1] && rest[q] == list[if q < i then q else q + 1];
      }
    }
  }

  lemma RestMembers<M>(list: seq<Entry<M>>, i: nat, d: Entry<M>)
    requires i < |list| && NamesIncrease(list)
    ensures d in list[..i] + list[i + 1..] <==> d in list && d.name != list[i].name
  {
    var rest := list[..i] + list[i + 1..];
    if d in rest {
      var p :| 0 <= p < |rest| && rest[p] == d;
      assert d == list[if p < i then p else p + 1];
    }
    if d in list && d.name != list[i].name {
      var p :| 0 <= p < |list| && list[p] == d;
      assert rest[if p < i then p else p - 1] == d;
    }
  }

  /** Removing the file of an old message leaves old ones and all the new. */
  lemma OldRemoved<M(!new)>(s: State<M>, k: nat, disk: seq<Entry<M>>, e: Entry<M>) returns (disk': seq<Entry<M>>)
    requires OnDisk(s, k, disk) && e in s.written[..k] && Readable(s.files, {}, e)
    ensures OnDisk(s.(files := s.files - {e.name}), k, disk')
  {
    var n := |s.written| - k;
    var m := |disk| - n;
    assert e in disk;
    var i :| 0 <= i < |disk| && disk[i] == e;
    OldIsNotNew(s.written, k, e);
    forall j | m <= j < |disk| ensures disk[j] in s.written[k..] {
      assert disk[j] == disk[m..][j - m];
    }
    disk' := disk[..i] + disk[i + 1..];
    hide Drains;
    RemovedAt(s.files, disk, i);
    assert disk'[..m - 1] == disk[..i] + disk[i + 1..m];
    assert disk'[m - 1..] == disk[m..];
    forall x | x in disk'[..m - 1] ensures x in s.written[..k] {
      assert x in disk[..m];
    }
  }

  lemma OldIsNotNew<M>(written: seq<Entry<M>>, k: nat, e: Entry<M>)
    requires Numbered(written) && k <= |written| && e in written[..k]
    ensures e !in written[k..]
  {
  }

  /** The state is that of the first `k` messages, each handled once, and the rest wait in order. */
  ghost predicate TidyOk<S(!new), M(!new)>(handle: (S, M) -> S, s0: S, s: State<M>, k: nat) {
    && InHand(s, k) && Fold(handle, s0, s.applied) == Fold(handle, s0, s.written[..k])
    && exists disk :: OnDisk(s, k, disk)
  }

  lemma {:induction false} TidyProgress<S(!new), M(!new)>(handle: (S, M) -> S, s0: S, run: seq<State<M>>, i: nat)
      returns (k: nat)
    requires IgnoresOld(handle, s0) && TidyRun(run) && i < |run|
    ensures TidyOk(handle, s0, run[i], k)
    ensures AtLeastOnce(run[i]) && AppliedInNameOrder(run[i]) && PendingOnDisk(run[i])
    decreases i
  {
    hide TidyOk, IgnoresOld, TidyStep, Initial, AtLeastOnce, AppliedInNameOrder, PendingOnDisk, Step;
    if i == 0 {
      k := 0;
      StartIsTidy(handle, s0, run[0]);
      StartDelivers(run[0]);
    } else {
      var before := TidyProgress(handle, s0, run, i - 1);
      k := StepKeepsTidy(handle, s0, run[i - 1], run[i], before);
      TidyIsStep(run[i - 1], run[i]);
      StepDelivers(run[i - 1], run[i]);
    }
  }

  lemma StartIsTidy<S(!new), M(!new)>(handle: (S, M) -> S, s0: S, s: State<M>)
    requires Initial(s)
    ensures TidyOk(handle, s0, s, 0)
  {
    NothingOld(s.written, 0);
    hide OldThenNew, Fold;
    assert OnDisk(s, 0, []);
    assert ToApply(s) == [] && s.written[..0] == [];
    assert OldThenNew(ToApply(s), s.written, 0, 0);
  }

  lemma NothingOld<M>(written: seq<Entry<M>>, k: nat)
    requires k <= |written|
    ensures OldThenNew([], written, k, 0)
  {
  }

  lemma StepKeepsTidy<S(!new), M(!new)>(handle: (S, M) -> S, s0: S, s: State<M>, t: State<M>, k: nat) returns (k': nat)
    requires IgnoresOld(handle, s0) && TidyOk(handle, s0, s, k) && TidyStep(s, t) && PendingOnDisk(s)
    ensures TidyOk(handle, s0, t, k')
  {
    hide Fold, IgnoresOld, InHand, OnDisk, PendingOnDisk, NamedLast, Reads, Applies, Acks, SetsAside, Crashes;
    var disk :| OnDisk(s, k, disk);
    k' := k;
    if name, msg :| t == Written(s, name, msg) && NamedLast(s.files, name) {
      TidyWrite(s, name, msg, k, disk);
      WrittenPrefix(s, name, msg, k);
    } else if Applies(s, t) {
      k' := TidyApply(handle, s0, s, t, k, disk);
    } else if Acks(s, t, false) || Acks(s, t, true) {
      var _ := TidyAck(s, t, k, disk);
    } else if Reads(s, t, {}) {
      TidyRead(s, t, k, disk);
    } else if Crashes(s, t) {
      TidyCrash(s, t, k, disk);
    } else {
      TidyOther(s, t, k, disk);
    }
  }

  lemma WrittenPrefix<M(!new)>(s: State<M>, name: Name, msg: M, k: nat)
    requires InHand(s, k)
    ensures k <= |s.written| && Written(s, name, msg).written[..k] == s.written[..k]
    ensures Written(s, name, msg).applied == s.applied
  {
  }

  lemma TidyWrite<M(!new)>(s: State<M>, name: Name, msg: M, k: nat, disk: seq<Entry<M>>)
    requires InHand(s, k) && OnDisk(s, k, disk) && NamedLast(s.files, name)
    ensures var t := Written(s, name, msg); var e := Entry(|s.written|, name, msg);
      InHand(t, k) && OnDisk(t, k, disk + [e])
  {
    hide InHand, OnDisk;
    WriteKeepsHand(s, name, msg, k);
    WriteKeepsDisk(s, name, msg, k, disk);
  }

  lemma PrefixKept<M>(written: seq<Entry<M>>, e: Entry<M>, k: nat)
    requires k <= |written|
    ensures (written + [e])[..k] == written[..k]
  {
  }

  lemma WriteKeepsHand<M(!new)>(s: State<M>, name: Name, msg: M, k: nat)
    requires InHand(s, k)
    ensures InHand(Written(s, name, msg), k)
  {
    hide OldThenNew, ToApply;
    var t, e := Written(s, name, msg), Entry(|s.written|, name, msg);
    SameInHand(s, name, msg);
    PrefixKept(s.written, e, k);
    var n: nat :| OldThenNew(ToApply(s), s.written, k, n);
    MoreWritten(ToApply(s), s.written, e, k, n);
    assert OldThenNew(ToApply(t), t.written, k, n);
  }

  lemma SameInHand<M>(s: State<M>, name: Name, msg: M)
    ensures ToApply(Written(s, name, msg)) == ToApply(s)
  {
  }

  lemma WriteKeepsDisk<M(!new)>(s: State<M>, name: Name, msg: M, k: nat, disk: seq<Entry<M>>)
    requires OnDisk(s, k, disk) && NamedLast(s.files, name)
    ensures OnDisk(Written(s, name, msg), k, disk + [Entry(|s.written|, name, msg)])
  {
    hide Drains, NamedLast, OldThenNew, Numbered;
    var e := Entry(|s.written|, name, msg);
    MoreWritten(disk, s.written, e, k, |s.written| - k);
    WaitingOneMore(s.files, disk, e);
    NumberedOneMore(s.written, e);
  }

  lemma NumberedOneMore<M>(written: seq<Entry<M>>, e: Entry<M>)
    requires Numbered(written) && e.serial == |written|
    ensures Numbered(written + [e])
  {
  }

  lemma TidyRead<M(!new)>(s: State<M>, t: State<M>, k: nat, disk: seq<Entry<M>>)
    requires InHand(s, k) && OnDisk(s, k, disk) && Reads(s, t, {})
    ensures InHand(t, k) && OnDisk(t, k, disk) && t.written == s.written && t.applied == s.applied
  {
    hide Drains;
    DrainsSame(s.files, t.drained, disk);
    assert ToApply(t) == disk;
    assert OldThenNew(ToApply(t), t.written, k, |t.written| - k);
  }

  lemma TidyOther<M(!new)>(s: State<M>, t: State<M>, k: nat, disk: seq<Entry<M>>)
    requires InHand(s, k) && OnDisk(s, k, disk)
    requires (exists name :: name !in s.files && t == s.(files := s.files[name := Invalid])) || SetsAside(s, t)
    ensures InHand(t, k) && OnDisk(t, k, disk) && t.written == s.written && t.applied == s.applied
  {
    assert t == s.(files := t.files);
    DrainsIgnoresInvalid(s.files, t.files, disk);
    hide Drains, OldThenNew;
    assert ToApply(t) == ToApply(s);
  }

  lemma TidyCrash<M(!new)>(s: State<M>, t: State<M>, k: nat, disk: seq<Entry<M>>)
    requires InHand(s, k) && OnDisk(s, k, disk) && Crashes(s, t)
    ensures InHand(t, k) && OnDisk(t, k, disk) && t.written == s.written && t.applied == s.applied
  {
    hide Drains, OldThenNew;
    NothingOld(t.written, k);
    assert OldThenNew(ToApply(t), t.written, k, 0);
  }

  lemma TidyAck<M(!new)>(s: State<M>, t: State<M>, k: nat, disk: seq<Entry<M>>) returns (disk': seq<Entry<M>>)
    requires InHand(s, k) && OnDisk(s, k, disk) && PendingOnDisk(s) && (Acks(s, t, false) || Acks(s, t, true))
    ensures InHand(t, k) && OnDisk(t, k, disk') && t.written == s.written && t.applied == s.applied
  {
    hide Drains, OldThenNew, ToApply, Numbered, Readable;
    AckKeepsHand(s, t);
    HeadIsPending(s);
    disk' := disk;
    if Acks(s, t, false) {
      disk' := OldRemoved(s, k, disk, s.drained[s.next]);
    }
  }

  lemma AckKeepsHand<M>(s: State<M>, t: State<M>)
    requires s.acking && s.next < |s.drained| && !t.acking && t.next == s.next + 1 && t.drained == s.drained
    ensures ToApply(t) == ToApply(s)
  {
  }

  lemma HeadIsPending<M(!new)>(s: State<M>)
    requires PendingOnDisk(s) && s.acking
    ensures s.next < |s.drained| && Readable(s.files, {}, s.drained[s.next])
  {
  }

  lemma TidyApply<S(!new), M(!new)>(
      handle: (S, M) -> S, s0: S, s: State<M>, t: State<M>, k: nat, disk: seq<Entry<M>>)
    returns (k': nat)
    requires IgnoresOld(handle, s0) && InHand(s, k) && OnDisk(s, k, disk) && Applies(s, t)
    requires Fold(handle, s0, s.applied) == Fold(handle, s0, s.written[..k])
    ensures InHand(t, k') && OnDisk(t, k', disk)
    ensures Fold(handle, s0, t.applied) == Fold(handle, s0, t.written[..k'])
  {
    hide Fold, IgnoresOld, Drains, OldThenNew, Numbered;
    var e, list := s.drained[s.next], ToApply(s);
    var n: nat :| OldThenNew(list, s.written, k, n);
    assert list[0] == e && ToApply(t) == list[1..];
    NextToApply(list, s.written, k, n);
    FoldOneMore(handle, s0, s.applied, e);
    if n < |list| {
      k' := k;
      OldIsIgnored(handle, s0, s.written[..k], e);
    } else {
      k' := k + 1;
      NewIsTaken(list, s.written, k, n);
      NewBecomesOld(disk, s.written, k, |s.written| - k);
      FoldOneMore(handle, s0, s.written[..k], e);
    }
  }

  lemma NewIsTaken<M>(list: seq<Entry<M>>, written: seq<Entry<M>>, k: nat, n: nat)
    requires list != [] && OldThenNew(list, written, k, n) && n >= |list|
    ensures n == |list| && k < |written| && list[0] == written[k] && written[..k + 1] == written[..k] + [list[0]]
    ensures list[0] in written[..k + 1]
    ensures OldThenNew(list[1..], written, k + 1, n - 1)
  {
    NextToApply(list, written, k, n);
    hide OldThenNew;
    assert written[..k + 1] == written[..k] + [written[k]];
  }

  lemma TidyStateIsHarmless<S(!new), M(!new)>(handle: (S, M) -> S, s0: S, s: State<M>)
    requires IgnoresOld(handle, s0) && TidyReachable(s) && Quiet(s)
    ensures Fold(handle, s0, s.applied) == Fold(handle, s0, s.written)
  {
    hide Fold, IgnoresOld, TidyStep, Initial, TidyOk, Quiet, AtLeastOnce, AppliedInNameOrder, PendingOnDisk;
    var run: seq<State<M>> :| TidyRun(run) && run[|run| - 1] == s;
    var k := TidyProgress(handle, s0, run, |run| - 1);
    AllTaken(handle, s0, s, k);
  }

  lemma AllTaken<S(!new), M(!new)>(handle: (S, M) -> S, s0: S, s: State<M>, k: nat)
    requires TidyOk(handle, s0, s, k) && Quiet(s)
    ensures Fold(handle, s0, s.applied) == Fold(handle, s0, s.written)
  {
    hide Fold, InHand, Drains, Numbered;
    var disk :| OnDisk(s, k, disk);
    SomethingWaits(s.files, disk);
    assert s.written[..k] == s.written;
  }

  // ---------------------------------------------------------------- a run for every old message

  /** The `n`th name of a writer that counts in letters. */
  function Tally(n: nat): Name {
    seq(n, i requires 0 <= i < n => 'a')
  }

  lemma TallyOrder(m: nat, n: nat)
    requires m < n
    ensures LexLeq(Tally(m), Tally(n)) && Tally(m) != Tally(n)
  {
    var more := seq(n - m, i requires 0 <= i < n - m => 'a');
    assert Tally(n) == Tally(m) + more && Tally(m) == Tally(m) + "";
    LexAfterPrefix(Tally(m), "", more);
  }

  ghost predicate Batch<M(!new)>(s: State<M>) {
    && s.applied == [] && s.drained == [] && s.next == 0 && !s.acking && Drains(s.files, {}, s.written)
    && (forall j :: 0 <= j < |s.written| ==> s.written[j].name == Tally(j))
    && forall n :: n in s.files ==> s.files[n].Valid? && s.files[n].entry.name == n
  }

  lemma {:induction false} WriteBatch<M(!new)>(list: seq<Entry<M>>) returns (s: State<M>)
    ensures TidyReachable(s) && Batch(s) && SameMessages(s.written, list)
  {
    if list == [] {
      s := State(map[], [], [], [], 0, false);
      assert TidyRun([s]) && [s][|[s]| - 1] == s;
    } else {
      var n := |list| - 1;
      var before := WriteBatch(list[..n]);
      hide TidyReachable, Tally;
      s := BatchOneMore(before, list[n].msg);
    }
  }

  lemma BatchOneMore<M(!new)>(before: State<M>, msg: M) returns (s: State<M>)
    requires TidyReachable(before) && Batch(before)
    ensures TidyReachable(s) && Batch(s)
    ensures s.written == before.written + [Entry(|before.written|, Tally(|before.written|), msg)]
  {
    hide TidyReachable, Tally;
    var n := |before.written|;
    var e := Entry(n, Tally(n), msg);
    forall x | x in before.files ensures LexLeq(x, Tally(n)) && x != Tally(n) {
      assert Readable(before.files, {}, before.files[x].entry);
      var j :| 0 <= j < n && before.written[j] == before.files[x].entry;
      TallyOrder(j, n);
    }
    assert NamedLast(before.files, Tally(n));
    WaitingOneMore(before.files, before.written, e);
    hide Drains;
    s := Written(before, Tally(n), msg);
    assert OrderlyStep(before, s);
    TidyReachStep(before, s);
  }

  /** After the first `j` deliveries of a batch, of which that of `i` could not remove its file. */
  ghost function Left<M>(written: seq<Entry<M>>, i: nat, j: nat): seq<Entry<M>>
    requires i < |written| && j <= |written|
  {
    if j <= i then written[j..] else [written[i]] + written[j..]
  }

  ghost predicate Delivering<M(!new)>(s: State<M>, i: nat, j: nat) {
    && i < |s.written| && j <= |s.written| && s.drained == s.written && s.next == j && !s.acking
    && s.applied == s.written[..j] && Drains(s.files, {}, Left(s.written, i, j))
    && forall n :: n in s.files ==> s.files[n].Valid? && s.files[n].entry.name == n
  }

  lemma DeliverNext<M(!new)>(s: State<M>, i: nat, j: nat) returns (t: State<M>)
    requires TidyReachable(s) && Delivering(s, i, j) && j < |s.written|
    ensures TidyReachable(t) && Delivering(t, i, j + 1) && t.written == s.written
  {
    hide TidyReachable, Drains;
    var u := AppliedOne(s);
    t := Acked(u, j == i);
    assert Applies(s, u) && Acks(u, t, j == i);
    TidyReachStep(s, u);
    TidyReachStep(u, t);
    assert s.written[..j + 1] == s.written[..j] + [s.written[j]];
    LeftAfter(s.files, s.written, i, j);
  }

  lemma LeftAfter<M(!new)>(files: Disk<M>, written: seq<Entry<M>>, i: nat, j: nat)
    requires i < |written| && j < |written| && Drains(files, {}, Left(written, i, j))
    ensures j == i ==> Drains(files, {}, Left(written, i, j + 1))
    ensures j != i ==> Drains(files - {written[j].name}, {}, Left(written, i, j + 1))
  {
    var list := Left(written, i, j);
    assert written[j..] == [written[j]] + written[j + 1..];
    if j < i {
      RemovedAt(files, list, 0);
      assert list[..0] + list[1..] == written[j + 1..];
    } else if j > i {
      RemovedAt(files, list, 1);
      assert list[..1] + list[2..] == [written[i]] + written[j + 1..];
    }
  }

  lemma {:induction false} DeliverRest<M(!new)>(s: State<M>, i: nat, j: nat) returns (t: State<M>)
    requires TidyReachable(s) && Delivering(s, i, j)
    ensures TidyReachable(t) && Delivering(t, i, |s.written|) && t.written == s.written
    decreases |s.written| - j
  {
    hide TidyReachable, Drains;
    if j == |s.written| {
      t := s;
    } else {
      var next := DeliverNext(s, i, j);
      t := DeliverRest(next, i, j + 1);
    }
  }

  lemma TidyDrain<M(!new)>(s: State<M>, list: seq<Entry<M>>)
    requires TidyReachable(s) && s.next == |s.drained| && Drains(s.files, {}, list)
    ensures TidyReachable(s.(drained := list, next := 0))
  {
    hide TidyReachable;
    assert Reads(s, s.(drained := list, next := 0), {});
    TidyReachStep(s, s.(drained := list, next := 0));
  }

  /** A batch is handled, one of its messages cannot be removed, and it is handled again at the end. */
  lemma OldIsRepeated<M(!new)>(list: seq<Entry<M>>, i: nat) returns (t: State<M>)
    requires i < |list|
    ensures TidyReachable(t) && Quiet(t) && SameMessages(t.written, list) && t.applied == t.written + [t.written[i]]
  {
    var batch := WriteBatch(list);
    hide TidyReachable;
    TidyDrain(batch, batch.written);
    var s := batch.(drained := batch.written, next := 0);
    assert s.written[..0] == [] && s.written[0..] == s.written;
    hide Drains;
    s := DeliverRest(s, i, 0);
    var e, m := s.written[i], |s.written|;
    assert Left(s.written, i, m) == [e] && s.written[..m] == s.written;
    TidyDrain(s, [e]);
    var u := s.(drained := [e], next := 0);
    var v := AppliedOne(u);
    t := Acked(v, false);
    assert Applies(u, v) && Acks(v, t, false);
    TidyReachStep(u, v);
    TidyReachStep(v, t);
    RemovedAt(s.files, [e], 0);
    assert [e][..0] + [e][1..] == [];
    EmptyIsQuiet(t);
  }

  lemma EmptyIsQuiet<M(!new)>(t: State<M>)
    requires Drains(t.files, {}, []) && forall n :: n in t.files ==> t.files[n].Valid? && t.files[n].entry.name == n
    ensures Quiet(t)
  {
    forall n ensures n !in t.files {
      if n in t.files {
        assert Readable(t.files, {}, t.files[n].entry);
      }
    }
  }

  lemma OldMustBeIgnored<S(!new), M(!new)>(handle: (S, M) -> S, s0: S, list: seq<Entry<M>>, e: Entry<M>)
    requires HarmlessWhenTidy(handle, s0) && e in list
    ensures handle(Fold(handle, s0, list), e.msg) == Fold(handle, s0, list)
  {
    hide Fold, Quiet, TidyReachable;
    var i :| 0 <= i < |list| && list[i] == e;
    var t := OldIsRepeated(list, i);
    FoldOneMore(handle, s0, t.written, t.written[i]);
    FoldOfSame(handle, s0, t.written, list);
  }

  /**
    Runs in which only removals fail are harmless exactly for the handlers that a message handled before, at any time,
    leaves unchanged. Handling twice in a row being handling once is not enough.
  */
  lemma FailedRemovalsAreHarmlessExactly<S(!new), M(!new)>(handle: (S, M) -> S, s0: S)
    ensures HarmlessWhenTidy(handle, s0) <==> IgnoresOld(handle, s0)
  {
    hide Fold, Quiet, TidyReachable;
    if IgnoresOld(handle, s0) {
      forall s: State<M> | TidyReachable(s) && Quiet(s)
        ensures Fold(handle, s0, s.applied) == Fold(handle, s0, s.written)
      {
        TidyStateIsHarmless(handle, s0, s);
      }
    }
    if HarmlessWhenTidy(handle, s0) {
      forall list: seq<Entry<M>>, e | e in list
        ensures handle(Fold(handle, s0, list), e.msg) == Fold(handle, s0, list)
      {
        OldMustBeIgnored(handle, s0, list, e);
      }
    }
  }
}
