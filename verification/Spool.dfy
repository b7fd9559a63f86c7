/** The notification spool: files of messages, drained, applied, then removed (src/daemon/spool.rs). */
module Spool {
  import opened Common
  import opened Order

  type Name = string

  /** A message as one writer spooled it; `serial` tells apart equal messages. */
  datatype Entry<M> = Entry(serial: nat, name: Name, msg: M)

  datatype File<M> = Valid(entry: Entry<M>) | Invalid

  type Disk<M> = map<Name, File<M>>

  ghost predicate NamesIncrease<M>(list: seq<Entry<M>>) {
    forall i, j :: 0 <= i < j < |list| ==> LexLeq(list[i].name, list[j].name) && list[i].name != list[j].name
  }

  ghost predicate Readable<M>(files: Disk<M>, unreadable: set<Name>, e: Entry<M>) {
    e.name in files && e.name !in unreadable && files[e.name] == Valid(e)
  }

  /** `list` holds the readable valid messages, in name order. */
  ghost predicate Drains<M(!new)>(files: Disk<M>, unreadable: set<Name>, list: seq<Entry<M>>) {
    NamesIncrease(list) && forall e :: e in list <==> Readable(files, unreadable, e)
  }

  function Fold<S, M>(handle: (S, M) -> S, s: S, list: seq<Entry<M>>): S {
    if list == [] then s else handle(Fold(handle, s, list[..|list| - 1]), list[|list| - 1].msg)
  }

  /** Which file operations fail. */
  datatype Faults = Faults(unreadable: set<Name>, stuck: set<Name>)

  /** The drain has dealt with the names in `done`. */
  ghost predicate Drained<M(!new)>(
      files0: Disk<M>, files: Disk<M>, done: seq<Name>, faults: Faults, messages: seq<Entry<M>>)
  {
    && NamesIncrease(messages)
    && (forall e :: e in messages <==> e.name in done && Readable(files0, faults.unreadable, e))
    && (forall n :: n in files <==>
          n in files0 && (n in done ==> files0[n].Valid? || n in faults.unreadable || n in faults.stuck))
    && forall n :: n in files ==> files[n] == files0[n]
  }

  lemma NothingDrained<M(!new)>(files: Disk<M>, faults: Faults)
    ensures Drained(files, files, [], faults, [])
  {
  }

  lemma AllDrained<M(!new)>(
      files0: Disk<M>, files: Disk<M>, entries: seq<Name>, faults: Faults, messages: seq<Entry<M>>)
    requires Drained(files0, files, entries, faults, messages) && forall n :: n in entries <==> n in files0
    ensures Drains(files0, faults.unreadable, messages)
    ensures forall n :: n in files <==>
        n in files0 && (files0[n].Valid? || n in faults.unreadable || n in faults.stuck)
    ensures forall n :: n in files ==> files[n] == files0[n]
  {
    hide NamesIncrease;
  }

  /** What dealing with one more name comes to, by what its file holds. */
  lemma DrainOneMore<M(!new)>(
      files0: Disk<M>, files: Disk<M>, entries: seq<Name>, k: nat, faults: Faults, messages: seq<Entry<M>>)
    requires k < |entries| && NoDuplicates(entries) && Sorted(LexLeq, entries) && entries[k] in files0
    requires Drained(files0, files, entries[..k], faults, messages)
    requires forall n :: n in files && files[n].Valid? ==> files[n].entry.name == n
    ensures var name := entries[k];
      && name in files
      && (name in faults.unreadable ==> Drained(files0, files, entries[..k + 1], faults, messages))
      && (name !in faults.unreadable && files[name].Valid? ==>
            Drained(files0, files, entries[..k + 1], faults, messages + [files[name].entry]))
      && (name !in faults.unreadable && files[name].Invalid? ==>
            Drained(files0, if name in faults.stuck then files else files - {name}, entries[..k + 1], faults, messages))
  {
    var name := entries[k];
    assert name !in entries[..k];
    assert forall n :: n in entries[..k + 1] <==> n in entries[..k] || n == name;
    if files0[name].Valid? {
      NamesOneMore(messages, entries, k, files0[name].entry);
    }
    hide NamesIncrease, Sorted, NoDuplicates;
  }

  class SpoolDir<M(!new)> {
    var files: Disk<M>
    var quarantined: set<Name>

    ghost predicate Valid()
      reads this
    {
      forall n :: n in files && files[n].Valid? ==> files[n].entry.name == n
    }

    constructor ()
      ensures Valid() && files == map[] && quarantined == {}
    {
      files, quarantined := map[], {};
    }

    /** An invalid file is set aside, or dropped when one of its name was set aside before. */
    method Quarantine(name: Name, fails: bool)
      requires name in files
      modifies this
      ensures files == if fails then old(files) else old(files) - {name}
      ensures quarantined == if fails then old(quarantined) else old(quarantined) + {name}
    {
      if fails {
        return;
      }
      files := files - {name};
      if name !in quarantined {
        quarantined := quarantined + {name};
      }
    }

    /** The names in whatever order the directory yields them. */
    method Listing() returns (names: seq<Name>)
      ensures forall n :: n in names <==> n in files
      ensures NoDuplicates(names)
    {
      names := [];
      var rest := files.Keys;
      while rest != {}
        invariant rest <= files.Keys && NoDuplicates(names) && forall n :: n in names <==> n in files && n !in rest
        decreases |rest|
      {
        var n :| n in rest;
        NoDuplicatesConcat(names, [n]);
        names, rest := names + [n], rest - {n};
      }
    }

    /** Draining reads the valid messages in name order, removes none of them, and sets the invalid files aside. */
    method DrainSpool(faults: Faults) returns (messages: seq<Entry<M>>)
      requires Valid()
      modifies this
      ensures Valid() && Drains(old(files), faults.unreadable, messages)
      ensures forall n :: n in files <==>
          n in old(files) && (old(files)[n].Valid? || n in faults.unreadable || n in faults.stuck)
      ensures forall n :: n in files ==> files[n] == old(files)[n]
    {
      hide Sort, Sorted, NamesIncrease, Drained, NoDuplicates;
      var listing := Listing();
      var entries := Sort(LexLeq, listing);
      ghost var files0 := files;
      SortedNamesIncrease(listing);
      messages := [];
      NothingDrained(files0, faults);
      assert entries[..0] == [];
      for k := 0 to |entries|
        invariant Valid() && Drained(files0, files, entries[..k], faults, messages)
      {
        var name := entries[k];
        DrainOneMore(files0, files, entries, k, faults, messages);
        if name in faults.unreadable {
          continue;
        }
        match files[name]
        case Valid(e) =>
          messages := messages + [e];
        case Invalid =>
          Quarantine(name, name in faults.stuck);
      }
      assert entries[..|entries|] == entries;
      AllDrained(files0, files, entries, faults, messages);
    }

    /** Removing the file of an applied message; a failure leaves it for the next drain. */
    method Ack(e: Entry<M>, fails: bool)
      modifies this
      ensures files == if fails then old(files) else old(files) - {e.name}
      ensures quarantined == old(quarantined)
    {
      if !fails {
        files := files - {e.name};
      }
    }

    /** One undisturbed drain: the messages are applied in name order and gone unless their removal failed. */
    method DrainIntoState<S>(handle: (S, M) -> S, state: S, faults: Faults)
      returns (after: S, ghost messages: seq<Entry<M>>)
      requires Valid()
      modifies this
      ensures Valid() && Drains(old(files), faults.unreadable, messages) && after == Fold(handle, state, messages)
      ensures forall n :: n in files <==> n in old(files) && (n in faults.unreadable || n in faults.stuck)
    {
      var drained := DrainSpool(faults);
      after, messages := state, drained;
      ghost var files0 := files;
      for k := 0 to |drained|
        invariant Valid() && after == Fold(handle, state, drained[..k])
        invariant forall n :: n in files ==> n in files0 && files[n] == files0[n]
        invariant forall n :: n in files0 ==> n in files || (n !in faults.stuck && n !in faults.unreadable)
        invariant forall n :: n in files ==> n in faults.stuck || forall i :: 0 <= i < k ==> drained[i].name != n
      {
        assert drained[..k + 1][..k] == drained[..k];
        after := handle(after, drained[k].msg);
        assert drained[k] in drained;
        Ack(drained[k], drained[k].name in faults.stuck);
      }
      assert drained[..|drained|] == drained;
      forall n | n in files && n !in faults.unreadable ensures n in faults.stuck {
        if old(files)[n].Valid? {
          assert old(files)[n].entry in drained;
        }
      }
    }
  }

  lemma NoNames<M>()
    ensures NamesIncrease<M>([])
  {
  }

  lemma SortedNamesIncrease(listing: seq<Name>)
    requires NoDuplicates(listing)
    ensures var entries := Sort(LexLeq, listing);
      NoDuplicates(entries) && Sorted(LexLeq, entries) && forall n :: n in entries <==> n in listing
  {
    LexIsTotalOrder();
    SortSorts(LexLeq, listing);
    SortKeepsNoDuplicates(LexLeq, listing);
  }

  lemma NamesOneMore<M>(messages: seq<Entry<M>>, entries: seq<Name>, k: nat, e: Entry<M>)
    requires NoDuplicates(entries) && Sorted(LexLeq, entries) && k < |entries| && e.name == entries[k]
    requires NamesIncrease(messages) && forall m :: m in messages ==> m.name in entries[..k]
    ensures NamesIncrease(messages + [e])
  {
    forall i | 0 <= i < |messages| ensures LexLeq(messages[i].name, e.name) && messages[i].name != e.name {
      assert messages[i] in messages;
      var j :| 0 <= j < k && entries[j] == messages[i].name;
    }
  }

  // ---------------------------------------------------------------- runs with crashes

  /**
    Between steps: the spool directory, everything ever written to it and applied from it, and the daemon's progress
    through the messages it last drained: those before `next` are done, and `acking` says that the one at `next` was
    applied and its file not yet removed.
  */
  datatype State<M> = State(
    files: Disk<M>, written: seq<Entry<M>>, applied: seq<Entry<M>>, drained: seq<Entry<M>>, next: nat, acking: bool)

  ghost predicate Initial<M>(s: State<M>) {
    s == State(map[], [], [], [], 0, false)
  }

  function Written<M>(s: State<M>, name: Name, msg: M): State<M> {
    var e := Entry(|s.written|, name, msg);
    s.(files := s.files[name := Valid(e)], written := s.written + [e])
  }

  function Acked<M>(s: State<M>, fails: bool): State<M>
    requires s.next < |s.drained|
  {
    s.(files := if fails then s.files else s.files - {s.drained[s.next].name}, next := s.next + 1, acking := false)
  }

  /** A file is created with a name no other file has. */
  ghost predicate Writes<M(!new)>(s: State<M>, t: State<M>) {
    || (exists name, msg :: name !in s.files && t == Written(s, name, msg))
    || (exists name :: name !in s.files && t == s.(files := s.files[name := Invalid]))
  }

  ghost predicate SetsAside<M>(s: State<M>, t: State<M>) {
    exists name :: name in s.files && s.files[name].Invalid? && t == s.(files := s.files - {name})
  }

  ghost predicate Reads<M(!new)>(s: State<M>, t: State<M>, unreadable: set<Name>) {
    s.next == |s.drained| && Drains(s.files, unreadable, t.drained) && t == s.(drained := t.drained, next := 0)
  }

  ghost predicate Applies<M>(s: State<M>, t: State<M>) {
    s.next < |s.drained| && !s.acking && t == s.(applied := s.applied + [s.drained[s.next]], acking := true)
  }

  ghost predicate Acks<M>(s: State<M>, t: State<M>, fails: bool) {
    s.next < |s.drained| && s.acking && t == Acked(s, fails)
  }

  /** The daemon dies and is started again. */
  ghost predicate Crashes<M>(s: State<M>, t: State<M>) {
    t == s.(drained := [], next := 0, acking := false)
  }

  ghost predicate Step<M(!new)>(s: State<M>, t: State<M>) {
    || Writes(s, t) || SetsAside(s, t) || (exists unreadable :: Reads(s, t, unreadable)) || Applies(s, t)
    || Acks(s, t, false) || Acks(s, t, true) || Crashes(s, t)
  }

  ghost predicate Run<M(!new)>(run: seq<State<M>>) {
    run != [] && Initial(run[0]) && forall i :: 0 < i < |run| ==> Step(run[i - 1], run[i])
  }

  /** Every message written is still on disk or was applied, and nothing else was. */
  ghost predicate AtLeastOnce<M(!new)>(s: State<M>) {
    && (forall e :: e in s.written ==> Readable(s.files, {}, e) || e in s.applied)
    && (forall e :: e in s.applied ==> e in s.written)
    && (forall n :: n in s.files && s.files[n].Valid? ==> s.files[n].entry in s.written && s.files[n].entry.name == n)
  }

  /** What was applied since the last drain is what it read, in name order, as far as it got. */
  ghost predicate AppliedInNameOrder<M(!new)>(s: State<M>) {
    var done := s.next + if s.acking then 1 else 0;
    NamesIncrease(s.drained) && done <= |s.drained| && EndsWith(s.applied, s.drained[..done])
  }

  ghost predicate EndsWith<T>(s: seq<T>, t: seq<T>) {
    |t| <= |s| && s[|s| - |t|..] == t
  }

  lemma EndsWithOneMore<T>(s: seq<T>, t: seq<T>, n: nat)
    requires n < |t| && EndsWith(s, t[..n])
    ensures EndsWith(s + [t[n]], t[..n + 1])
  {
    assert t[..n + 1] == t[..n] + [t[n]];
    assert (s + [t[n]])[|s| - n..] == s[|s| - n..] + [t[n]];
  }

  lemma EndsWithNothing<T>(s: seq<T>, t: seq<T>)
    ensures EndsWith(s, t[..0])
  {
  }

  lemma EndsWithMember<T>(s: seq<T>, t: seq<T>, n: nat)
    requires n < |t| && EndsWith(s, t[..n + 1])
    ensures t[n] in s
  {
    assert s[|s| - 1] == t[..n + 1][n];
  }

  /** What is drained and not yet applied is on disk. */
  ghost predicate PendingOnDisk<M(!new)>(s: State<M>) {
    && (s.acking ==> s.next < |s.drained|)
    && forall j :: s.next <= j < |s.drained| ==> Readable(s.files, {}, s.drained[j])
  }

  /** In every run, whatever crashes and whichever file operations fail, at every moment. */
  lemma {:induction false} DeliveredAtLeastOnce<M(!new)>(run: seq<State<M>>, i: nat)
    requires Run(run) && i < |run|
    ensures AtLeastOnce(run[i]) && AppliedInNameOrder(run[i]) && PendingOnDisk(run[i])
    decreases i
  {
    hide AtLeastOnce, AppliedInNameOrder, PendingOnDisk, Step, Initial;
    if i == 0 {
      StartDelivers(run[0]);
    } else {
      DeliveredAtLeastOnce(run, i - 1);
      StepDelivers(run[i - 1], run[i]);
    }
  }

  lemma StartDelivers<M(!new)>(s: State<M>)
    requires Initial(s)
    ensures AtLeastOnce(s) && AppliedInNameOrder(s) && PendingOnDisk(s)
  {
  }

  lemma StepDelivers<M(!new)>(s: State<M>, t: State<M>)
    requires AtLeastOnce(s) && AppliedInNameOrder(s) && PendingOnDisk(s) && Step(s, t)
    ensures AtLeastOnce(t) && AppliedInNameOrder(t) && PendingOnDisk(t)
  {
    StepKeepsMessages(s, t);
    StepKeepsOrder(s, t);
    StepKeepsPending(s, t);
  }

  lemma StepKeepsMessages<M(!new)>(s: State<M>, t: State<M>)
    requires AtLeastOnce(s) && AppliedInNameOrder(s) && PendingOnDisk(s) && Step(s, t)
    ensures AtLeastOnce(t)
  {
    if Writes(s, t) {
    } else if Applies(s, t) {
      assert Readable(s.files, {}, s.drained[s.next]);
    } else if Acks(s, t, false) {
      EndsWithMember(s.applied, s.drained, s.next);
    }
  }

  lemma StepKeepsOrder<M(!new)>(s: State<M>, t: State<M>)
    requires AppliedInNameOrder(s) && Step(s, t)
    ensures AppliedInNameOrder(t)
  {
    hide EndsWith, NamesIncrease;
    if Applies(s, t) {
      EndsWithOneMore(s.applied, s.drained, s.next);
    } else if t.next == 0 && !t.acking {
      EndsWithNothing(t.applied, t.drained);
      NoNames<M>();
    }
  }

  lemma StepKeepsPending<M(!new)>(s: State<M>, t: State<M>)
    requires AppliedInNameOrder(s) && PendingOnDisk(s) && Step(s, t)
    ensures PendingOnDisk(t)
  {
    if Acks(s, t, false) {
      forall j | t.next <= j < |t.drained| ensures Readable(t.files, {}, t.drained[j]) {
        assert Readable(s.files, {}, s.drained[j]) && s.drained[j].name != s.drained[s.next].name;
      }
    } else if exists unreadable :: Reads(s, t, unreadable) {
      forall j | 0 <= j < |t.drained| ensures Readable(t.files, {}, t.drained[j]) {
        assert t.drained[j] in t.drained;
      }
    }
  }

  // ---------------------------------------------------------------- replay and the handler

  ghost predicate Idempotent<S(!new), M(!new)>(handle: (S, M) -> S) {
    forall s, m :: handle(handle(s, m), m) == handle(s, m)
  }

  /** Handling a message twice is handling it once, in every state that messages can lead to from `s0`. */
  ghost predicate IgnoresRepeats<S(!new), M(!new)>(handle: (S, M) -> S, s0: S) {
    forall list: seq<Entry<M>>, m :: var s := Fold(handle, s0, list);
      handle(handle(s, m), m) == handle(s, m)
  }

  /** And the order of two messages does not matter there. */
  ghost predicate IgnoresOrder<S(!new), M(!new)>(handle: (S, M) -> S, s0: S) {
    forall list: seq<Entry<M>>, m, k :: var s := Fold(handle, s0, list);
      handle(handle(s, m), k) == handle(handle(s, k), m)
  }

  lemma Twice<S(!new), M(!new)>(handle: (S, M) -> S, s0: S, list: seq<Entry<M>>, m: M)
    requires IgnoresRepeats(handle, s0)
    ensures var s := Fold(handle, s0, list);
      handle(handle(s, m), m) == handle(s, m)
  {
  }

  lemma Swap<S(!new), M(!new)>(handle: (S, M) -> S, s0: S, list: seq<Entry<M>>, m: M, k: M)
    requires IgnoresOrder(handle, s0)
    ensures var s := Fold(handle, s0, list);
      handle(handle(s, m), k) == handle(handle(s, k), m)
  {
  }

  lemma FoldOneMore<S, M>(handle: (S, M) -> S, s: S, list: seq<Entry<M>>, e: Entry<M>)
    ensures Fold(handle, s, list + [e]) == handle(Fold(handle, s, list), e.msg)
  {
    assert (list + [e])[..|list|] == list;
  }

  lemma SplitLast<M>(list: seq<Entry<M>>)
    requires list != []
    ensures list == list[..|list| - 1] + [list[|list| - 1]]
  {
  }

  lemma AppendAssociates<M>(a: seq<Entry<M>>, b: seq<Entry<M>>, c: seq<Entry<M>>)
    ensures a + (b + c) == a + b + c
  {
  }

  lemma {:induction false} HandledIsAbsorbed<S(!new), M(!new)>(
      handle: (S, M) -> S, s0: S, a: seq<Entry<M>>, e: Entry<M>)
    requires IgnoresRepeats(handle, s0) && IgnoresOrder(handle, s0) && e in a
    ensures handle(Fold(handle, s0, a), e.msg) == Fold(handle, s0, a)
  {
    hide Fold, IgnoresRepeats, IgnoresOrder;
    var init, last := a[..|a| - 1], a[|a| - 1];
    SplitLast(a);
    FoldOneMore(handle, s0, init, last);
    if last == e {
      Twice(handle, s0, init, e.msg);
    } else {
      HandledIsAbsorbed(handle, s0, init, e);
      Swap(handle, s0, init, last.msg, e.msg);
    }
  }

  lemma {:induction false} HandledAreAbsorbed<S(!new), M(!new)>(
      handle: (S, M) -> S, s0: S, a: seq<Entry<M>>, b: seq<Entry<M>>)
    requires IgnoresRepeats(handle, s0) && IgnoresOrder(handle, s0) && forall e :: e in b ==> e in a
    ensures Fold(handle, s0, a + b) == Fold(handle, s0, a)
  {
    hide Fold, IgnoresRepeats, IgnoresOrder;
    if b == [] {
      assert a + b == a;
    } else {
      var init, last := b[..|b| - 1], b[|b| - 1];
      SplitLast(b);
      HandledAreAbsorbed(handle, s0, a, init);
      AppendAssociates(a, init, [last]);
      FoldOneMore(handle, s0, a + init, last);
      HandledIsAbsorbed(handle, s0, a, last);
    }
  }

  lemma {:induction false} HandledLater<S(!new), M(!new)>(
      handle: (S, M) -> S, s0: S, before: seq<Entry<M>>, e: Entry<M>, after: seq<Entry<M>>)
    requires IgnoresOrder(handle, s0)
    ensures Fold(handle, s0, before + [e] + after) == Fold(handle, s0, before + after + [e])
    decreases |after|
  {
    hide Fold, IgnoresOrder;
    if after == [] {
      assert before + [e] + after == before + after + [e];
    } else {
      var init, last := after[..|after| - 1], after[|after| - 1];
      SplitLast(after);
      HandledLater(handle, s0, before, e, init);
      AppendAssociates(before + [e], init, [last]);
      AppendAssociates(before, init, [last]);
      FoldOneMore(handle, s0, before + [e] + init, last);
      FoldOneMore(handle, s0, before + init, e);
      FoldOneMore(handle, s0, before + init, last);
      FoldOneMore(handle, s0, before + init + [last], e);
      Swap(handle, s0, before + init, e.msg, last.msg);
    }
  }

  lemma {:induction false} FoldsCommute<S(!new), M(!new)>(
      handle: (S, M) -> S, s0: S, a: seq<Entry<M>>, b: seq<Entry<M>>)
    requires IgnoresOrder(handle, s0)
    ensures Fold(handle, s0, a + b) == Fold(handle, s0, b + a)
    decreases |b|
  {
    hide Fold, IgnoresOrder;
    if b == [] {
      assert a + b == b + a;
    } else {
      var init, last := b[..|b| - 1], b[|b| - 1];
      SplitLast(b);
      FoldsCommute(handle, s0, a, init);
      AppendAssociates(a, init, [last]);
      FoldOneMore(handle, s0, a + init, last);
      FoldOneMore(handle, s0, init + a, last);
      HandledLater(handle, s0, init, last, a);
    }
  }

  /** Only invalid files are left. */
  ghost predicate Quiet<M>(s: State<M>) {
    forall n :: n in s.files ==> s.files[n].Invalid?
  }

  /**
    With a handler that ignores repeats and order, once no message waits on disk the state is as if each had been
    delivered once, in the order written: in every run.
  */
  lemma ReplayIsHarmless<S(!new), M(!new)>(handle: (S, M) -> S, s0: S, run: seq<State<M>>, i: nat)
    requires IgnoresRepeats(handle, s0) && IgnoresOrder(handle, s0) && Run(run) && i < |run| && Quiet(run[i])
    ensures Fold(handle, s0, run[i].applied) == Fold(handle, s0, run[i].written)
  {
    DeliveredAtLeastOnce(run, i);
    var a, b := run[i].applied, run[i].written;
    assert forall e :: e in b ==> e in a;
    hide Run, Fold;
    HandledAreAbsorbed(handle, s0, a, b);
    HandledAreAbsorbed(handle, s0, b, a);
    FoldsCommute(handle, s0, a, b);
  }

  /** Nothing fails, and each file is named after those still waiting. */
  ghost predicate OrderlyStep<M(!new)>(s: State<M>, t: State<M>) {
    || (exists name, msg :: t == Written(s, name, msg) && NamedLast(s.files, name))
    || (exists name :: name !in s.files && t == s.(files := s.files[name := Invalid]))
    || SetsAside(s, t) || Reads(s, t, {}) || Applies(s, t) || Acks(s, t, false) || Crashes(s, t)
  }

  ghost predicate NamedLast<M>(files: Disk<M>, name: Name) {
    name !in files && forall n :: n in files && files[n].Valid? ==> LexLeq(n, name)
  }

  ghost predicate OrderlyRun<M(!new)>(run: seq<State<M>>) {
    run != [] && Initial(run[0]) && forall i :: 0 < i < |run| ==> OrderlyStep(run[i - 1], run[i])
  }

  /** The messages waiting on disk are those written from index `k` on, in name order, the drained ones first. */
  ghost predicate Waiting<M(!new)>(s: State<M>, k: nat) {
    && k <= |s.written| && s.next <= |s.drained| && |s.drained| - s.next <= |s.written| - k
    && s.drained[s.next..] == s.written[k..k + (|s.drained| - s.next)]
    && Drains(s.files, {}, s.written[k..])
    && (forall n :: n in s.files && s.files[n].Valid? ==> s.files[n].entry.name == n)
    && (s.acking ==> s.next < |s.drained|)
  }

  /** The state is that of the first `k` messages, or of one more, applied and not yet removed. */
  ghost predicate Handled<S(!new), M(!new)>(handle: (S, M) -> S, s0: S, s: State<M>, k: nat) {
    && k <= |s.written|
    && (
      || (!s.acking && Fold(handle, s0, s.applied) == Fold(handle, s0, s.written[..k]))
      || (k < |s.written| && Fold(handle, s0, s.applied) == Fold(handle, s0, s.written[..k + 1])))
  }

  /** A drain has one outcome. */
  lemma {:induction false} IncreasingIsUnique<M(!new)>(a: seq<Entry<M>>, b: seq<Entry<M>>)
    requires NamesIncrease(a) && NamesIncrease(b) && forall e :: e in a <==> e in b
    ensures a == b
  {
    HasMember(a);
    HasMember(b);
    if a != [] {
      assert a[0] in b && b != [];
      assert b[0] in a;
      LexIsTotalOrder();
      assert a[0].name == b[0].name;
      assert a[0] == b[0];
      TailMembers(a);
      TailMembers(b);
      IncreasingIsUnique(a[1..], b[1..]);
    }
  }

  lemma HasMember<M(!new)>(a: seq<Entry<M>>)
    ensures a != [] ==> exists e :: e in a
  {
    if a != [] {
      assert a[0] in a;
    }
  }

  lemma TailMembers<M(!new)>(a: seq<Entry<M>>)
    requires NamesIncrease(a) && a != []
    ensures NamesIncrease(a[1..]) && forall e :: e in a[1..] <==> e in a && e != a[0]
  {
    assert a == [a[0]] + a[1..];
  }

  lemma WaitingOneMore<M(!new)>(files: Disk<M>, list: seq<Entry<M>>, e: Entry<M>)
    requires Drains(files, {}, list) && NamedLast(files, e.name)
    ensures Drains(files[e.name := Valid(e)], {}, list + [e])
  {
    forall i | 0 <= i < |list| ensures LexLeq(list[i].name, e.name) && list[i].name != e.name {
      assert list[i] in list;
    }
    forall d ensures d in list + [e] <==> Readable(files[e.name := Valid(e)], {}, d) {
      assert d in list <==> Readable(files, {}, d);
    }
  }

  lemma WaitingOneLess<M(!new)>(files: Disk<M>, list: seq<Entry<M>>)
    requires Drains(files, {}, list) && list != []
    ensures Drains(files - {list[0].name}, {}, list[1..])
  {
    TailMembers(list);
    assert list[0] in list;
    forall d ensures d in list[1..] <==> Readable(files - {list[0].name}, {}, d) {
      assert d in list <==> Readable(files, {}, d);
    }
  }

  lemma DrainsIgnoresInvalid<M(!new)>(files: Disk<M>, more: Disk<M>, list: seq<Entry<M>>)
    requires Drains(files, {}, list)
    requires forall n, e :: n in files && files[n] == Valid(e) <==> n in more && more[n] == Valid(e)
    ensures Drains(more, {}, list)
  {
    forall d ensures d in list <==> Readable(more, {}, d) {
      assert d in list <==> Readable(files, {}, d);
    }
  }

  lemma OrderlyStepWaits<M(!new)>(s: State<M>, t: State<M>, k: nat) returns (k': nat)
    requires Waiting(s, k) && OrderlyStep(s, t)
    ensures Waiting(t, k') && k' == k + if Acks(s, t, false) then 1 else 0
  {
    hide Waiting, Drains, Reads, Acks, SetsAside, Applies, Crashes, NamedLast;
    k' := k;
    if name, msg :| t == Written(s, name, msg) && NamedLast(s.files, name) {
      WriteWaits(s, name, msg, k);
      WriteIsNoAck(s, name, msg);
    } else if Acks(s, t, false) {
      AckIs(s, t);
      AckWaits(s, k);
      k' := k + 1;
    } else if Reads(s, t, {}) {
      ReadWaits(s, t, k);
    } else {
      OthersWait(s, t, k);
    }
  }

  lemma WriteIsNoAck<M(!new)>(s: State<M>, name: Name, msg: M)
    ensures !Acks(s, Written(s, name, msg), false)
  {
  }

  lemma AckIs<M(!new)>(s: State<M>, t: State<M>)
    requires Acks(s, t, false)
    ensures s.acking && s.next < |s.drained| && t == Acked(s, false)
  {
  }

  lemma ReadWaits<M(!new)>(s: State<M>, t: State<M>, k: nat)
    requires Waiting(s, k) && Reads(s, t, {})
    ensures Waiting(t, k)
  {
    hide Drains;
    DrainsSame(s.files, t.drained, s.written[k..]);
  }

  lemma OthersWait<M(!new)>(s: State<M>, t: State<M>, k: nat)
    requires Waiting(s, k)
    requires || (exists name :: name !in s.files && t == s.(files := s.files[name := Invalid]))
             || SetsAside(s, t) || Applies(s, t) || Crashes(s, t)
    ensures Waiting(t, k)
  {
    hide Drains;
    DrainsIgnoresInvalid(s.files, t.files, s.written[k..]);
  }

  lemma WriteWaits<M(!new)>(s: State<M>, name: Name, msg: M, k: nat)
    requires Waiting(s, k) && NamedLast(s.files, name)
    ensures Waiting(Written(s, name, msg), k)
  {
    hide Drains;
    var e := Entry(|s.written|, name, msg);
    WaitingOneMore(s.files, s.written[k..], e);
    assert (s.written + [e])[k..] == s.written[k..] + [e];
  }

  lemma AckWaits<M(!new)>(s: State<M>, k: nat)
    requires Waiting(s, k) && s.acking
    ensures Waiting(Acked(s, false), k + 1)
  {
    hide Drains;
    assert s.drained[s.next..][0] == s.written[k];
    assert s.written[k..][1..] == s.written[k + 1..];
    WaitingOneLess(s.files, s.written[k..]);
    assert s.drained[s.next + 1..] == s.drained[s.next..][1..];
  }

  lemma DrainsSame<M(!new)>(files: Disk<M>, a: seq<Entry<M>>, b: seq<Entry<M>>)
    requires Drains(files, {}, a) && Drains(files, {}, b)
    ensures a == b
  {
    forall e ensures e in a <==> e in b {
      assert e in a <==> Readable(files, {}, e);
      assert e in b <==> Readable(files, {}, e);
    }
    IncreasingIsUnique(a, b);
  }

  lemma OrderlyStepHandles<S(!new), M(!new)>(handle: (S, M) -> S, s0: S, s: State<M>, t: State<M>, k: nat)
    requires IgnoresRepeats(handle, s0) && Waiting(s, k) && Handled(handle, s0, s, k) && OrderlyStep(s, t)
    ensures Handled(handle, s0, t, k + if Acks(s, t, false) then 1 else 0)
  {
    hide Drains, IgnoresRepeats, Fold, Handled, Waiting, NamedLast, Applies;
    if name, msg :| t == Written(s, name, msg) && NamedLast(s.files, name) {
      WriteHandles(handle, s0, s, name, msg, k);
      WriteIsNoAck(s, name, msg);
    } else if Applies(s, t) {
      ApplyHandles(handle, s0, s, t, k);
    } else if Acks(s, t, false) {
      AckHandles(handle, s0, s, k);
    } else {
      OthersHandle(handle, s0, s, t, k);
    }
  }

  lemma WriteHandles<S(!new), M(!new)>(handle: (S, M) -> S, s0: S, s: State<M>, name: Name, msg: M, k: nat)
    requires Handled(handle, s0, s, k)
    ensures Handled(handle, s0, Written(s, name, msg), k)
  {
    hide Fold;
    var t := Written(s, name, msg);
    assert t.written[..k] == s.written[..k];
    assert k < |s.written| ==> t.written[..k + 1] == s.written[..k + 1];
  }

  lemma ApplyHandles<S(!new), M(!new)>(handle: (S, M) -> S, s0: S, s: State<M>, t: State<M>, k: nat)
    requires IgnoresRepeats(handle, s0) && Waiting(s, k) && Handled(handle, s0, s, k) && Applies(s, t)
    ensures Handled(handle, s0, t, k) && !Acks(s, t, false)
  {
    hide Drains, IgnoresRepeats;
    var e := s.drained[s.next];
    assert e == s.drained[s.next..][0] == s.written[k];
    FoldOneMore(handle, s0, s.applied, e);
    FoldOneMore(handle, s0, s.written[..k], e);
    assert s.written[..k + 1] == s.written[..k] + [e];
    hide Fold;
    Twice(handle, s0, s.written[..k], e.msg);
  }

  lemma AckHandles<S(!new), M(!new)>(handle: (S, M) -> S, s0: S, s: State<M>, k: nat)
    requires s.acking && s.next < |s.drained| && Handled(handle, s0, s, k)
    ensures Handled(handle, s0, Acked(s, false), k + 1)
  {
    hide Fold;
  }

  lemma OthersHandle<S(!new), M(!new)>(handle: (S, M) -> S, s0: S, s: State<M>, t: State<M>, k: nat)
    requires Handled(handle, s0, s, k) && s.written == t.written && s.applied == t.applied && (t.acking ==> s.acking)
    ensures Handled(handle, s0, t, k)
  {
    hide Fold;
  }

  lemma {:induction false} OrderlyProgress<S(!new), M(!new)>(handle: (S, M) -> S, s0: S, run: seq<State<M>>, i: nat)
      returns (k: nat)
    requires IgnoresRepeats(handle, s0) && OrderlyRun(run) && i < |run|
    ensures Waiting(run[i], k) && Handled(handle, s0, run[i], k)
    decreases i
  {
    hide Waiting, Handled, IgnoresRepeats, OrderlyStep, Initial;
    if i == 0 {
      k := 0;
      OrderlyStart(handle, s0, run[0]);
    } else {
      var before := OrderlyProgress(handle, s0, run, i - 1);
      OrderlyStepHandles(handle, s0, run[i - 1], run[i], before);
      k := OrderlyStepWaits(run[i - 1], run[i], before);
    }
  }

  lemma OrderlyStart<S(!new), M(!new)>(handle: (S, M) -> S, s0: S, s: State<M>)
    requires Initial(s)
    ensures Waiting(s, 0) && Handled(handle, s0, s, 0)
  {
    assert s.written[0..] == [] && s.written[..0] == [];
  }

  /**
    With a handler that only ignores repeats: in runs with crashes anywhere, but where reading and removing succeed and
    files are named in order, the state is as if each message had been delivered once, in the order written.
  */
  lemma ReplayIsHarmlessWhenOrderly<S(!new), M(!new)>(handle: (S, M) -> S, s0: S, run: seq<State<M>>, i: nat)
    requires IgnoresRepeats(handle, s0) && OrderlyRun(run) && i < |run| && Quiet(run[i])
    ensures Fold(handle, s0, run[i].applied) == Fold(handle, s0, run[i].written)
  {
    var s := run[i];
    var k := OrderlyProgress(handle, s0, run, i);
    SomethingWaits(s.files, s.written[k..]);
    assert s.written[..k] == s.written;
  }

  lemma SomethingWaits<M(!new)>(files: Disk<M>, list: seq<Entry<M>>)
    requires Drains(files, {}, list)
    ensures list != [] ==> exists n :: n in files && files[n].Valid?
  {
    if list != [] {
      assert list[0] in list;
    }
  }

  // ---------------------------------------------------------------- which handlers are safe

  ghost predicate Reachable<M(!new)>(s: State<M>) {
    exists run: seq<State<M>> :: Run(run) && run[|run| - 1] == s
  }

  ghost predicate OrderlyReachable<M(!new)>(s: State<M>) {
    exists run: seq<State<M>> :: OrderlyRun(run) && run[|run| - 1] == s
  }

  /** Whatever happened, once nothing waits the state is that of one delivery each. */
  ghost predicate Harmless<S(!new), M(!new)>(handle: (S, M) -> S, s0: S) {
    forall s: State<M> :: Reachable(s) && Quiet(s) ==> Fold(handle, s0, s.applied) == Fold(handle, s0, s.written)
  }

  ghost predicate HarmlessWhenOrderly<S(!new), M(!new)>(handle: (S, M) -> S, s0: S) {
    forall s: State<M> :: OrderlyReachable(s) && Quiet(s) ==> Fold(handle, s0, s.applied) == Fold(handle, s0, s.written)
  }

  lemma ReachStep<M(!new)>(s: State<M>, t: State<M>)
    requires Reachable(s) && Step(s, t)
    ensures Reachable(t)
  {
    hide Step, Initial;
    var run: seq<State<M>> :| Run(run) && run[|run| - 1] == s;
    var longer := run + [t];
    forall i | 0 < i < |longer| ensures Step(longer[i - 1], longer[i]) {
      if i < |run| {
        assert Step(run[i - 1], run[i]);
      }
    }
    assert Run(longer);
    assert (run + [t])[|run + [t]| - 1] == t;
  }

  lemma OrderlyReachStep<M(!new)>(s: State<M>, t: State<M>)
    requires OrderlyReachable(s) && OrderlyStep(s, t)
    ensures OrderlyReachable(t)
  {
    hide OrderlyStep, Initial;
    var run: seq<State<M>> :| OrderlyRun(run) && run[|run| - 1] == s;
    var longer := run + [t];
    forall i | 0 < i < |longer| ensures OrderlyStep(longer[i - 1], longer[i]) {
      if i < |run| {
        assert OrderlyStep(run[i - 1], run[i]);
      }
    }
    assert OrderlyRun(longer);
    assert (run + [t])[|run + [t]| - 1] == t;
  }

  lemma OrderlyIsReachable<M(!new)>(s: State<M>)
    requires OrderlyReachable(s)
    ensures Reachable(s)
  {
    hide OrderlyStep, Step, Initial;
    var run: seq<State<M>> :| OrderlyRun(run) && run[|run| - 1] == s;
    forall i | 0 < i < |run| ensures Step(run[i - 1], run[i]) {
      OrderlyIsStep(run[i - 1], run[i]);
    }
    assert Run(run);
  }

  lemma OrderlyIsStep<M(!new)>(s: State<M>, t: State<M>)
    requires OrderlyStep(s, t)
    ensures Step(s, t)
  {
    hide SetsAside, Reads, Applies, Acks, Crashes;
  }

  lemma ReachDrain<M(!new)>(s: State<M>, list: seq<Entry<M>>, unreadable: set<Name>)
    requires Reachable(s) && s.next == |s.drained| && Drains(s.files, unreadable, list)
    ensures Reachable(s.(drained := list, next := 0))
  {
    hide Reachable;
    var t := s.(drained := list, next := 0);
    assert Reads(s, t, unreadable);
    ReachStep(s, t);
  }

  /** One drained message is applied and its file removed, or not. */
  ghost function Delivered<M>(s: State<M>, fails: bool): State<M>
    requires s.next < |s.drained|
  {
    Acked(s.(applied := s.applied + [s.drained[s.next]], acking := true), fails)
  }

  lemma ReachDelivery<M(!new)>(s: State<M>, fails: bool)
    requires Reachable(s) && s.next < |s.drained| && !s.acking
    ensures Reachable(Delivered(s, fails))
  {
    hide Reachable;
    var t := s.(applied := s.applied + [s.drained[s.next]], acking := true);
    assert Applies(s, t) && Acks(t, Delivered(s, fails), fails);
    ReachStep(s, t);
    ReachStep(t, Delivered(s, fails));
  }

  lemma ReachWrite<M(!new)>(s: State<M>, name: Name, msg: M)
    requires Reachable(s) && name !in s.files
    ensures Reachable(Written(s, name, msg))
  {
    hide Reachable;
    assert Writes(s, Written(s, name, msg));
    ReachStep(s, Written(s, name, msg));
  }

  /** Nothing is on disk and nothing under way. */
  ghost predicate Idle<M>(s: State<M>) {
    s.files == map[] && s.next == |s.drained| && !s.acking
  }

  ghost predicate SameMessages<M>(a: seq<Entry<M>>, b: seq<Entry<M>>) {
    |a| == |b| && forall i :: 0 <= i < |a| ==> a[i].msg == b[i].msg
  }

  lemma {:induction false} FoldOfSame<S, M>(handle: (S, M) -> S, s0: S, a: seq<Entry<M>>, b: seq<Entry<M>>)
    requires SameMessages(a, b)
    ensures Fold(handle, s0, a) == Fold(handle, s0, b)
  {
    if a != [] {
      FoldOfSame(handle, s0, a[..|a| - 1], b[..|b| - 1]);
    }
  }

  /** The state in which one more message is written to an empty disk and drained. */
  ghost function OneDrained<M>(s: State<M>, msg: M): State<M> {
    var t := Written(s, "a", msg);
    t.(drained := [Entry(|s.written|, "a", msg)], next := 0)
  }

  lemma ReachOneDrained<M(!new)>(s: State<M>, msg: M)
    requires OrderlyReachable(s) && Idle(s)
    ensures OrderlyReachable(OneDrained(s, msg))
  {
    hide OrderlyReachable;
    var t := Written(s, "a", msg);
    assert NamedLast(s.files, "a");
    assert OrderlyStep(s, t);
    OrderlyReachStep(s, t);
    ReachAgain(t, Entry(|s.written|, "a", msg));
  }

  lemma ReachAgain<M(!new)>(t: State<M>, e: Entry<M>)
    requires OrderlyReachable(t) && t.files == map[e.name := Valid(e)] && t.next == |t.drained|
    ensures OrderlyReachable(t.(drained := [e], next := 0))
  {
    hide OrderlyReachable;
    assert Drains(t.files, {}, [e]);
    assert Reads(t, t.(drained := [e], next := 0), {});
    OrderlyReachStep(t, t.(drained := [e], next := 0));
  }

  ghost function AppliedOne<M>(s: State<M>): State<M>
    requires s.next < |s.drained|
  {
    s.(applied := s.applied + [s.drained[s.next]], acking := true)
  }

  lemma ReachApplied<M(!new)>(s: State<M>)
    requires OrderlyReachable(s) && s.next < |s.drained| && !s.acking
    ensures OrderlyReachable(AppliedOne(s)) && OrderlyReachable(Acked(AppliedOne(s), false))
  {
    hide OrderlyReachable;
    assert Applies(s, AppliedOne(s)) && Acks(AppliedOne(s), Acked(AppliedOne(s), false), false);
    OrderlyReachStep(s, AppliedOne(s));
    OrderlyReachStep(AppliedOne(s), Acked(AppliedOne(s), false));
  }

  lemma {:induction false} DeliverInTurn<M(!new)>(list: seq<Entry<M>>) returns (s: State<M>)
    ensures OrderlyReachable(s) && Idle(s) && SameMessages(s.applied, list) && SameMessages(s.written, list)
  {
    if list == [] {
      s := State(map[], [], [], [], 0, false);
      assert OrderlyRun([s]) && [s][|[s]| - 1] == s;
    } else {
      var msg := list[|list| - 1].msg;
      var before := DeliverInTurn(list[..|list| - 1]);
      ReachOneDrained(before, msg);
      ReachApplied(OneDrained(before, msg));
      hide OrderlyReachable;
      s := Acked(AppliedOne(OneDrained(before, msg)), false);
      assert s.files == map[];
    }
  }

  /** A message whose removal a crash prevented is handled twice in a row. */
  lemma CrashRepeats<M(!new)>(s: State<M>, msg: M) returns (t: State<M>)
    requires OrderlyReachable(s) && Idle(s)
    ensures OrderlyReachable(t) && Quiet(t)
    ensures var e := Entry(|s.written|, "a", msg);
      t.applied == s.applied + [e] + [e] && t.written == s.written + [e]
  {
    hide OrderlyReachable;
    var e := Entry(|s.written|, "a", msg);
    ReachOneDrained(s, msg);
    ReachApplied(OneDrained(s, msg));
    var u := AppliedOne(OneDrained(s, msg));
    var v := u.(drained := [], next := 0, acking := false);
    assert Crashes(u, v);
    OrderlyReachStep(u, v);
    ReachAgain(v, e);
    var w := v.(drained := [e], next := 0);
    ReachApplied(w);
    t := Acked(AppliedOne(w), false);
  }

  /** Orderly runs are harmless exactly for the handlers that ignore repeats in the states messages lead to. */
  lemma OrderlyRunsAreHarmlessExactly<S(!new), M(!new)>(handle: (S, M) -> S, s0: S)
    ensures HarmlessWhenOrderly(handle, s0) <==> IgnoresRepeats(handle, s0)
  {
    hide Fold, Quiet, OrderlyReachable;
    if IgnoresRepeats(handle, s0) {
      forall s: State<M> | OrderlyReachable(s) && Quiet(s)
        ensures Fold(handle, s0, s.applied) == Fold(handle, s0, s.written)
      {
        OrderlyStateIsHarmless(handle, s0, s);
      }
    }
    if HarmlessWhenOrderly(handle, s0) {
      forall list: seq<Entry<M>>, m
        ensures var s := Fold(handle, s0, list);
          handle(handle(s, m), m) == handle(s, m)
      {
        RepeatIsHarmless(handle, s0, list, m);
      }
    }
  }

  lemma OrderlyStateIsHarmless<S(!new), M(!new)>(handle: (S, M) -> S, s0: S, s: State<M>)
    requires IgnoresRepeats(handle, s0) && OrderlyReachable(s) && Quiet(s)
    ensures Fold(handle, s0, s.applied) == Fold(handle, s0, s.written)
  {
    hide Fold, Quiet, IgnoresRepeats, OrderlyStep, Initial;
    var run: seq<State<M>> :| OrderlyRun(run) && run[|run| - 1] == s;
    ReplayIsHarmlessWhenOrderly(handle, s0, run, |run| - 1);
  }

  lemma RepeatIsHarmless<S(!new), M(!new)>(handle: (S, M) -> S, s0: S, list: seq<Entry<M>>, m: M)
    requires HarmlessWhenOrderly(handle, s0)
    ensures var s := Fold(handle, s0, list);
      handle(handle(s, m), m) == handle(s, m)
  {
    hide Fold, Quiet, OrderlyReachable;
    var s := DeliverInTurn(list);
    var t := CrashRepeats(s, m);
    var e := Entry(|s.written|, "a", m);
    FoldOfSame(handle, s0, s.applied, list);
    FoldOfSame(handle, s0, s.written, list);
    FoldOneMore(handle, s0, s.applied, e);
    FoldOneMore(handle, s0, s.applied + [e], e);
    FoldOneMore(handle, s0, s.written, e);
  }

  /** A message named after a later one is handled after it. */
  lemma LaterNameIsHandledLater<M(!new)>(s: State<M>, m: M, k: M) returns (t: State<M>)
    requires Reachable(s) && Idle(s)
    ensures Reachable(t) && Quiet(t)
    ensures var a, b := Entry(|s.written|, "b", m), Entry(|s.written| + 1, "a", k);
      t.applied == s.applied + [b] + [a] && t.written == s.written + [a] + [b]
  {
    var a, b := Entry(|s.written|, "b", m), Entry(|s.written| + 1, "a", k);
    var u := Written(Written(s, "b", m), "a", k);
    assert Drains(u.files, {}, [b, a]);
    hide Reachable, Drains;
    ReachWrite(s, "b", m);
    ReachWrite(Written(s, "b", m), "a", k);
    ReachDrain(u, [b, a], {});
    var v := u.(drained := [b, a], next := 0);
    ReachDelivery(v, false);
    ReachDelivery(Delivered(v, false), false);
    t := Delivered(Delivered(v, false), false);
    assert t.files == map[];
  }

  /**
    Every run is harmless, whatever crashes and whichever file operations fail, exactly for the handlers that ignore
    repeats and order in the states messages lead to.
  */
  lemma EveryRunIsHarmlessExactly<S(!new), M(!new)>(handle: (S, M) -> S, s0: S)
    ensures Harmless(handle, s0) <==> IgnoresRepeats(handle, s0) && IgnoresOrder(handle, s0)
  {
    hide Fold, Quiet, Reachable, OrderlyReachable, IgnoresRepeats;
    if IgnoresRepeats(handle, s0) && IgnoresOrder(handle, s0) {
      forall s: State<M> | Reachable(s) && Quiet(s) ensures Fold(handle, s0, s.applied) == Fold(handle, s0, s.written) {
        StateIsHarmless(handle, s0, s);
      }
    }
    if Harmless(handle, s0) {
      forall s: State<M> | OrderlyReachable(s) ensures Reachable(s) {
        OrderlyIsReachable(s);
      }
      assert HarmlessWhenOrderly(handle, s0);
      OrderlyRunsAreHarmlessExactly(handle, s0);
      forall list: seq<Entry<M>>, m, k
        ensures var s := Fold(handle, s0, list);
          handle(handle(s, m), k) == handle(handle(s, k), m)
      {
        SwapIsHarmless(handle, s0, list, m, k);
      }
    }
  }

  lemma StateIsHarmless<S(!new), M(!new)>(handle: (S, M) -> S, s0: S, s: State<M>)
    requires IgnoresRepeats(handle, s0) && IgnoresOrder(handle, s0) && Reachable(s) && Quiet(s)
    ensures Fold(handle, s0, s.applied) == Fold(handle, s0, s.written)
  {
    hide Fold, Quiet, IgnoresRepeats, IgnoresOrder, Step, Initial;
    var run: seq<State<M>> :| Run(run) && run[|run| - 1] == s;
    ReplayIsHarmless(handle, s0, run, |run| - 1);
  }

  lemma SwapIsHarmless<S(!new), M(!new)>(handle: (S, M) -> S, s0: S, list: seq<Entry<M>>, m: M, k: M)
    requires Harmless(handle, s0)
    ensures var s := Fold(handle, s0, list);
      handle(handle(s, m), k) == handle(handle(s, k), m)
  {
    hide Fold, Quiet, Reachable, OrderlyReachable;
    var s := DeliverInTurn(list);
    OrderlyIsReachable(s);
    var t := LaterNameIsHandledLater(s, m, k);
    var a, b := Entry(|s.written|, "b", m), Entry(|s.written| + 1, "a", k);
    FoldOfSame(handle, s0, s.applied, list);
    FoldOfSame(handle, s0, s.written, list);
    FoldOneMore(handle, s0, s.applied, b);
    FoldOneMore(handle, s0, s.applied + [b], a);
    FoldOneMore(handle, s0, s.written, a);
    FoldOneMore(handle, s0, s.written + [a], b);
  }

  // ---------------------------------------------------------------- one handler that fails

  /** The latest message wins: idempotent, and not commutative. */
  const LastWins := (state: nat, msg: nat) => msg

  /** Nothing is left on disk, and the state is not that of delivering each message once. */
  ghost predicate EndsElsewhere(s: State<nat>) {
    s.files == map[] && Fold(LastWins, 0, s.applied) != Fold(LastWins, 0, s.written)
  }

  ghost function BothOnDisk(a: Entry<nat>, b: Entry<nat>): State<nat> {
    State(map[a.name := Valid(a), b.name := Valid(b)], [a, b], [], [], 0, false)
  }

  lemma ReachBoth(a: Entry<nat>, b: Entry<nat>)
    requires a.name != b.name && a.serial == 0 && b.serial == 1
    ensures Reachable(BothOnDisk(a, b))
  {
    var s0: State<nat> := State(map[], [], [], [], 0, false);
    var s1, s2 := State(map[a.name := Valid(a)], [a], [], [], 0, false), BothOnDisk(a, b);
    assert Run([s0]) && [s0][|[s0]| - 1] == s0;
    assert s1 == Written(s0, a.name, a.msg);
    assert s2.written == s1.written + [b] && s2.files == s1.files[b.name := Valid(b)];
    assert s2 == Written(s1, b.name, b.msg);
    assert Writes(s0, s1) && Writes(s1, s2);
    hide Run;
    ReachStep(s0, s1);
    ReachStep(s1, s2);
  }

  lemma DrainsOfTwo(a: Entry<nat>, b: Entry<nat>)
    requires LexLeq(a.name, b.name) && a.name != b.name
    ensures Drains(BothOnDisk(a, b).files, {}, [a, b])
    ensures Drains(BothOnDisk(b, a).files, {}, [a, b])
    ensures Drains(BothOnDisk(a, b).files, {a.name}, [b])
  {
  }

  /**
    Idempotence alone is not enough: when removing the first of two files fails once, the first message is handled
    again after the second.
  */
  lemma FailedAckReplaysAfterLaterMessages(one: Name, two: Name)
    requires LexLeq(one, two) && one != two
    ensures Idempotent(LastWins)
    ensures exists s: State<nat> :: Reachable(s) && EndsElsewhere(s)
  {
    var a, b := Entry(0, one, 1), Entry(1, two, 2);
    var s := BothOnDisk(a, b);
    ReachBoth(a, b);
    DrainsOfTwo(a, b);
    hide Reachable, Drains, LexLeq, Fold;
    ReachDrain(s, [a, b], {});
    var first := Delivered(s.(drained := [a, b], next := 0), true);
    ReachDelivery(s.(drained := [a, b], next := 0), true);
    ReachDelivery(first, false);
    var second := Delivered(first, false);
    assert second.files == map[one := Valid(a)];
    DeliverLast(a, second);
    LastWinsFolds(a, b);
    assert second.applied == [a, b] && second.applied + [a] == [a, b, a];
  }

  /** Nor is it when a file is named before one that waits. */
  lemma EarlierNameIsHandledFirst(one: Name, two: Name)
    requires LexLeq(one, two) && one != two
    ensures exists s: State<nat> :: Reachable(s) && EndsElsewhere(s)
  {
    var a, b := Entry(0, two, 1), Entry(1, one, 2);
    var s := BothOnDisk(a, b);
    ReachBoth(a, b);
    DrainsOfTwo(b, a);
    hide Reachable, Drains, LexLeq, Fold;
    ReachDrain(s, [b, a], {});
    var t := s.(drained := [b, a], next := 0);
    ReachDelivery(t, false);
    ReachDelivery(Delivered(t, false), false);
    var last := Delivered(Delivered(t, false), false);
    LastWinsFolds(b, a);
    LastWinsFolds(a, b);
    assert last.files == map[] && last.applied == [b, a] && last.written == [a, b];
  }

  /** Nor is it when reading a file fails once. */
  lemma FailedReadIsHandledLate(one: Name, two: Name)
    requires LexLeq(one, two) && one != two
    ensures exists s: State<nat> :: Reachable(s) && EndsElsewhere(s)
  {
    var a, b := Entry(0, one, 1), Entry(1, two, 2);
    var s := BothOnDisk(a, b);
    ReachBoth(a, b);
    DrainsOfTwo(a, b);
    hide Reachable, Drains, LexLeq, Fold;
    ReachDrain(s, [b], {one});
    var t := Delivered(s.(drained := [b], next := 0), false);
    ReachDelivery(s.(drained := [b], next := 0), false);
    assert t.files == map[one := Valid(a)];
    DeliverLast(a, t);
    LastWinsFolds(b, a);
    LastWinsFolds(a, b);
    assert t.applied == [b] && t.applied + [a] == [b, a];
  }

  lemma DeliverLast(a: Entry<nat>, s: State<nat>)
    requires Reachable(s) && s.next == |s.drained| && !s.acking && s.files == map[a.name := Valid(a)]
    ensures exists t: State<nat> ::
        Reachable(t) && t.files == map[] && t.applied == s.applied + [a] && t.written == s.written
  {
    assert Drains(s.files, {}, [a]);
    hide Reachable;
    ReachDrain(s, [a], {});
    var t := s.(drained := [a], next := 0);
    ReachDelivery(t, false);
    assert Delivered(t, false).files == map[];
  }

  lemma LastWinsFolds(a: Entry<nat>, b: Entry<nat>)
    ensures Fold(LastWins, 0, [a, b, a]) == a.msg && Fold(LastWins, 0, [a, b]) == b.msg
  {
  }

  // ---------------------------------------------------------------- file names

  function Digit(n: nat): char
    requires n < 10
  {
    '0' + n as char
  }

  function Digits(n: nat): nat {
    if n < 10 then 1 else 1 + Digits(n / 10)
  }

  function Pow10(w: nat): nat {
    if w == 0 then 1 else 10 * Pow10(w - 1)
  }

  /** The last `w` decimal digits of `n`. */
  function Fixed(n: nat, w: nat): string {
    if w == 0 then "" else Fixed(n / 10, w - 1) + [Digit(n % 10)]
  }

  function AfterTime(seqNo: nat, session: string): string {
    "-" + (Fixed(seqNo, if Digits(seqNo) < 4 then 4 else Digits(seqNo)) + ("-" + session + ".json"))
  }

  /** Time in milliseconds, the writer's sequence number padded to four digits, and the session. */
  function FileName(ts: nat, seqNo: nat, session: string): Name {
    Fixed(ts, Digits(ts)) + AfterTime(seqNo, session)
  }

  lemma {:induction false} DigitsSuffice(n: nat, w: nat)
    requires Digits(n) <= w
    ensures n < Pow10(w)
  {
    if n < 10 {
      assert Pow10(w) >= 10 by {
        PowPositive(w - 1);
      }
    } else {
      DigitsSuffice(n / 10, w - 1);
    }
  }

  lemma {:induction false} PowPositive(w: nat)
    ensures Pow10(w) >= 1
  {
    if w > 0 {
      PowPositive(w - 1);
    }
  }

  lemma {:induction false} LexAfterPrefix(p: string, x: string, y: string)
    ensures LexLeq(p + x, p + y) <==> LexLeq(x, y)
    ensures p + x == p + y <==> x == y
  {
    hide LexLeq;
    if p == "" {
      assert p + x == x && p + y == y;
    } else {
      LexAfterPrefix(p[1..], x, y);
      LexAfterChar(p[0], p[1..] + x, p[1..] + y);
      assert p + x == [p[0]] + (p[1..] + x) && p + y == [p[0]] + (p[1..] + y);
    }
  }

  lemma LexAfterChar(c: char, x: string, y: string)
    ensures LexLeq([c] + x, [c] + y) <==> LexLeq(x, y)
    ensures [c] + x == [c] + y <==> x == y
  {
    assert ([c] + x)[1..] == x && ([c] + y)[1..] == y;
  }

  lemma {:induction false} FixedOrder(a: nat, b: nat, w: nat, u: string, v: string)
    requires a < b < Pow10(w)
    ensures LexLeq(Fixed(a, w) + u, Fixed(b, w) + v) && Fixed(a, w) + u != Fixed(b, w) + v
  {
    var x, y := [Digit(a % 10)] + u, [Digit(b % 10)] + v;
    assert Fixed(a, w) + u == Fixed(a / 10, w - 1) + x && Fixed(b, w) + v == Fixed(b / 10, w - 1) + y;
    if a / 10 < b / 10 {
      FixedOrder(a / 10, b / 10, w - 1, x, y);
    } else {
      assert a / 10 == b / 10 && a % 10 < b % 10;
      LexAfterPrefix(Fixed(a / 10, w - 1), x, y);
    }
  }

  /** Names follow time, and within a millisecond one writer's sequence numbers up to 9999. */
  lemma NamesFollowArrival(t1: nat, n1: nat, s1: string, t2: nat, n2: nat, s2: string)
    requires Digits(t1) == Digits(t2) && (t1 < t2 || (t1 == t2 && n1 < n2 < 10000))
    ensures LexLeq(FileName(t1, n1, s1), FileName(t2, n2, s2)) && FileName(t1, n1, s1) != FileName(t2, n2, s2)
  {
    if t1 < t2 {
      NamesFollowTime(t1, AfterTime(n1, s1), t2, AfterTime(n2, s2));
    } else {
      SequenceOrder(n1, s1, n2, s2);
      hide Fixed, LexLeq, AfterTime, Digits;
      LexAfterPrefix(Fixed(t1, Digits(t1)), AfterTime(n1, s1), AfterTime(n2, s2));
    }
  }

  lemma NamesFollowTime(t1: nat, u: string, t2: nat, v: string)
    requires Digits(t1) == Digits(t2) && t1 < t2
    ensures var x, y := Fixed(t1, Digits(t1)) + u, Fixed(t2, Digits(t2)) + v;
      LexLeq(x, y) && x != y
  {
    DigitsSuffice(t2, Digits(t2));
    FixedOrder(t1, t2, Digits(t1), u, v);
  }

  lemma SequenceOrder(n1: nat, s1: string, n2: nat, s2: string)
    requires n1 < n2 < 10000
    ensures LexLeq(AfterTime(n1, s1), AfterTime(n2, s2)) && AfterTime(n1, s1) != AfterTime(n2, s2)
  {
    SmallDigits(n1);
    SmallDigits(n2);
    hide Fixed, LexLeq, Digits;
    var u, v := "-" + s1 + ".json", "-" + s2 + ".json";
    FixedOrder(n1, n2, 4, u, v);
    LexAfterPrefix("-", Fixed(n1, 4) + u, Fixed(n2, 4) + v);
  }

  lemma SmallDigits(n: nat)
    requires n < 10000
    ensures Digits(n) <= 4 && n < Pow10(4)
  {
    assert Digits(n / 1000) == 1;
    assert Digits(n / 100) <= 2;
    assert Digits(n / 10) <= 3;
  }

  /** When a message was spooled, and by whom. */
  datatype Stamp = Stamp(ts: nat, seqNo: nat, session: string)

  /**
    Later messages are spooled in later milliseconds, or in the same one by the same writer counting on; times have one
    number of digits.
  */
  ghost predicate InTurn(stamps: seq<Stamp>) {
    forall i, j :: 0 <= i < j < |stamps| ==>
      && Digits(stamps[i].ts) == Digits(stamps[j].ts)
      && (stamps[i].ts < stamps[j].ts || (stamps[i].ts == stamps[j].ts && stamps[i].seqNo < stamps[j].seqNo < 10000))
  }

  ghost predicate NamedBy<M>(written: seq<Entry<M>>, stamps: seq<Stamp>) {
    && |written| <= |stamps|
    && forall i :: 0 <= i < |written| ==>
         written[i].name == FileName(stamps[i].ts, stamps[i].seqNo, stamps[i].session)
  }

  /** Nothing fails; files are created under any name that is free. */
  ghost predicate CalmStep<M(!new)>(s: State<M>, t: State<M>) {
    || Writes(s, t) || SetsAside(s, t) || Reads(s, t, {}) || Applies(s, t) || Acks(s, t, false) || Crashes(s, t)
  }

  /** Writers that take turns make a calm run orderly: each file is named after all that wait. */
  lemma TurnsMakeOrder<M(!new)>(run: seq<State<M>>, stamps: seq<Stamp>)
    requires run != [] && Initial(run[0]) && forall i :: 0 < i < |run| ==> CalmStep(run[i - 1], run[i])
    requires InTurn(stamps) && forall i :: 0 <= i < |run| ==> NamedBy(run[i].written, stamps)
    ensures OrderlyRun(run)
  {
    hide Initial, CalmStep, NamedBy, InTurn, OrderlyStep, Step, AtLeastOnce, AppliedInNameOrder, PendingOnDisk;
    forall i | 0 < i < |run| ensures Step(run[i - 1], run[i]) {
      CalmIsStep(run[i - 1], run[i]);
    }
    forall i | 0 < i < |run| ensures OrderlyStep(run[i - 1], run[i]) {
      DeliveredAtLeastOnce(run, i - 1);
      CalmIsOrderly(run[i - 1], run[i], stamps);
    }
  }

  lemma CalmIsStep<M(!new)>(s: State<M>, t: State<M>)
    requires CalmStep(s, t)
    ensures Step(s, t)
  {
    hide Writes, SetsAside, Reads, Applies, Acks, Crashes;
  }

  lemma CalmIsOrderly<M(!new)>(s: State<M>, t: State<M>, stamps: seq<Stamp>)
    requires AtLeastOnce(s) && CalmStep(s, t) && InTurn(stamps) && NamedBy(t.written, stamps)
    ensures OrderlyStep(s, t)
  {
    hide FileName, LexLeq, Digits, SetsAside, Reads, Applies, Acks, Crashes;
    if name, msg :| name !in s.files && t == Written(s, name, msg) {
      var k := |s.written|;
      assert t.written[k].name == name;
      forall n | n in s.files && s.files[n].Valid? ensures LexLeq(n, name) {
        var j :| 0 <= j < k && s.written[j] == s.files[n].entry;
        assert t.written[j] == s.written[j];
        NamesFollowArrival(
          stamps[j].ts, stamps[j].seqNo, stamps[j].session, stamps[k].ts, stamps[k].seqNo, stamps[k].session);
      }
      assert NamedLast(s.files, name);
    }
  }

  /** Exactly how names sort: by time, then sequence number, then session, whoever wrote first. */
  lemma NamesSortExactly(t1: nat, n1: nat, s1: string, t2: nat, n2: nat, s2: string)
    requires Digits(t1) == Digits(t2) && n1 < 10000 && n2 < 10000
    ensures LexLeq(FileName(t1, n1, s1), FileName(t2, n2, s2)) <==>
        || t1 < t2
        || (t1 == t2 && (n1 < n2 || (n1 == n2 && LexLeq(s1 + ".json", s2 + ".json"))))
  {
    hide Digits, Fixed;
    LexIsTotalOrder();
    if t1 == t2 && n1 == n2 {
      SameWriterNumber(t1, n1, s1, s2);
    } else if t1 < t2 || (t1 == t2 && n1 < n2) {
      NamesFollowArrival(t1, n1, s1, t2, n2, s2);
    } else {
      hide FileName;
      NamesFollowArrival(t2, n2, s2, t1, n1, s1);
    }
  }

  lemma SameWriterNumber(t: nat, n: nat, s1: string, s2: string)
    ensures LexLeq(FileName(t, n, s1), FileName(t, n, s2)) <==> LexLeq(s1 + ".json", s2 + ".json")
  {
    hide LexLeq, Fixed, Digits;
    var number := Fixed(n, if Digits(n) < 4 then 4 else Digits(n));
    LexAfterPrefix(Fixed(t, Digits(t)), AfterTime(n, s1), AfterTime(n, s2));
    LexAfterPrefix("-", number + ("-" + s1 + ".json"), number + ("-" + s2 + ".json"));
    LexAfterPrefix(number, "-" + s1 + ".json", "-" + s2 + ".json");
    LexAfterPrefix("-", s1 + ".json", s2 + ".json");
    assert "-" + s1 + ".json" == "-" + (s1 + ".json") && "-" + s2 + ".json" == "-" + (s2 + ".json");
  }

  /** The ten-thousandth message of one writer in one millisecond would sort before its predecessor. */
  lemma TenThousandthSortsFirst(ts: nat, session: string)
    ensures LexLeq(FileName(ts, 10000, session), FileName(ts, 9999, session))
    ensures FileName(ts, 10000, session) != FileName(ts, 9999, session)
  {
    var u := "-" + session + ".json";
    assert Digits(10000) == 5 && Digits(9999) == 4;
    TenThousand();
    hide Fixed, Digits;
    LexAfterPrefix("-", "10000" + u, "9999" + u);
    LexAfterPrefix(Fixed(ts, Digits(ts)), AfterTime(10000, session), AfterTime(9999, session));
  }

  lemma TenThousand()
    ensures Fixed(10000, 5) == "10000" && Fixed(9999, 4) == "9999"
  {
    hide Fixed;
    NextDigit(1, 1, "");
    NextDigit(10, 2, "1");
    NextDigit(100, 3, "10");
    NextDigit(1000, 4, "100");
    NextDigit(10000, 5, "1000");
    NextDigit(9, 1, "");
    NextDigit(99, 2, "9");
    NextDigit(999, 3, "99");
    NextDigit(9999, 4, "999");
  }

  lemma NextDigit(n: nat, w: nat, prefix: string)
    requires w > 0 && (w > 1 ==> Fixed(n / 10, w - 1) == prefix) && (w == 1 ==> prefix == "")
    ensures Fixed(n, w) == prefix + [Digit(n % 10)]
  {
  }
}
