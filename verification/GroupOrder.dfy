/** The sidebar's directory groups: their saved order and the rows they show (src/session/group_order.rs). */
module GroupOrder {
  import opened Common
  import opened Order

  const MAX_THREADS_PER_GROUP := 6

  /** The session fields the sidebar orders by; times are in any unit. */
  datatype Session = Session(id: string, cwdLabel: string, tabIndex: nat, messagedAt: Option<int>, lastEventAt: int)

  // ---------------------------------------------------------------- comparing sessions

  datatype Ordering = Less | Equal | Greater {
    function Then(tie: Ordering): Ordering {
      if this == Equal then tie else this
    }

    function Reverse(): Ordering {
      match this
      case Less => Greater
      case Equal => Equal
      case Greater => Less
    }
  }

  function CmpInt(a: int, b: int): Ordering {
    if a < b then Less else if a == b then Equal else Greater
  }

  function CmpWithinGroupByTime(a: Option<int>, b: Option<int>, tie: Ordering): Ordering {
    match (a, b)
    case (Some(x), Some(y)) => CmpInt(y, x).Then(tie)
    case (Some(_), None) => Less
    case (None, Some(_)) => Greater
    case (None, None) => tie
  }

  function CmpWithinGroup(a: Session, b: Session): Ordering {
    CmpWithinGroupByTime(a.messagedAt, b.messagedAt, CmpInt(b.tabIndex, a.tabIndex))
  }

  const WithinGroup := (a: Session, b: Session) => CmpWithinGroup(a, b) != Greater

  /** `a` was messaged later, or at the same time in a later tab; a session never messaged comes last. */
  ghost predicate Fresher(a: Session, b: Session) {
    || (a.messagedAt.Some? && (b.messagedAt.None? || a.messagedAt.value > b.messagedAt.value))
    || (a.messagedAt == b.messagedAt && a.tabIndex > b.tabIndex)
  }

  /** The comparator is a total preorder, as sorting demands, and says who is fresher. */
  lemma CmpWithinGroupIsTotal()
    ensures TotalPreorder(WithinGroup)
    ensures forall a, b :: CmpWithinGroup(a, b) == CmpWithinGroup(b, a).Reverse()
    ensures forall a, b :: CmpWithinGroup(a, b) == Less <==> Fresher(a, b)
    ensures forall a, b :: CmpWithinGroup(a, b) == Equal <==> a.messagedAt == b.messagedAt && a.tabIndex == b.tabIndex
  {
  }

  // ---------------------------------------------------------------- labels

  function Labels(sessions: seq<Session>): (r: seq<string>)
    ensures |r| == |sessions| && forall i :: 0 <= i < |r| ==> r[i] == sessions[i].cwdLabel
  {
    seq(|sessions|, i requires 0 <= i < |sessions| => sessions[i].cwdLabel)
  }

  /** Adjacent repeats removed. */
  function Dedup(s: seq<string>): seq<string> {
    if |s| <= 1 then s
    else if s[0] == s[1] then Dedup(s[1..])
    else [s[0]] + Dedup(s[1..])
  }

  function UniqueLabels(sessions: seq<Session>): seq<string> {
    Dedup(Sort(LexLeq, Labels(sessions)))
  }

  lemma {:induction false} DedupOfSorted(s: seq<string>)
    requires Sorted(LexLeq, s)
    ensures Sorted(LexLeq, Dedup(s)) && NoDuplicates(Dedup(s)) && forall x :: x in Dedup(s) <==> x in s
    ensures s != [] ==> Dedup(s) != [] && Dedup(s)[0] == s[0]
  {
    if |s| > 1 {
      DedupOfSorted(s[1..]);
      assert s == [s[0]] + s[1..];
      if s[0] != s[1] {
        var rest := Dedup(s[1..]);
        LexIsTotalOrder();
        forall j | 0 <= j < |rest| ensures s[0] != rest[j] && LexLeq(s[0], rest[j]) {
          assert LexLeq(s[1], rest[j]);
        }
        SortedCons(LexLeq, s[0], rest);
      }
    }
  }

  /** The labels in use, once each, in order. */
  lemma UniqueLabelsAreTheLabels(sessions: seq<Session>)
    ensures var u := UniqueLabels(sessions);
      Sorted(LexLeq, u) && NoDuplicates(u) && forall x :: x in u <==> exists s :: s in sessions && s.cwdLabel == x
    ensures UniqueLabels(sessions) == [] <==> sessions == []
  {
    LexIsTotalOrder();
    SortSorts(LexLeq, Labels(sessions));
    DedupOfSorted(Sort(LexLeq, Labels(sessions)));
    LabelsMembers(sessions);
  }

  lemma LabelsMembers(sessions: seq<Session>)
    ensures forall x :: x in Labels(sessions) <==> exists s :: s in sessions && s.cwdLabel == x
  {
    forall x | exists s :: s in sessions && s.cwdLabel == x ensures x in Labels(sessions) {
      var s :| s in sessions && s.cwdLabel == x;
      var i :| 0 <= i < |sessions| && sessions[i] == s;
      assert Labels(sessions)[i] == x;
    }
    forall x | x in Labels(sessions) ensures exists s :: s in sessions && s.cwdLabel == x {
      var i :| 0 <= i < |sessions| && Labels(sessions)[i] == x;
      assert sessions[i] in sessions;
    }
  }

  // ---------------------------------------------------------------- sorting labels by saved position

  /** The index of the first `x`, or the length. */
  function Position(s: seq<string>, x: string): (i: nat)
    ensures i <= |s| && (i < |s| <==> x in s) && (i < |s| ==> s[i] == x)
    ensures forall k :: 0 <= k < i ==> s[k] != x
  {
    if s == [] then 0
    else if s[0] == x then 0
    else
      assert s == [s[0]] + s[1..];
      1 + Position(s[1..], x)
  }

  /** Saved labels by position, before the others by name. */
  predicate PositionLeq(saved: seq<string>, a: string, b: string) {
    var i, j := Position(saved, a), Position(saved, b);
    if i < |saved| && j < |saved| then i <= j
    else if i < |saved| then true
    else if j < |saved| then false
    else LexLeq(a, b)
  }

  function ByPosition(saved: seq<string>): (string, string) -> bool {
    (a, b) => PositionLeq(saved, a, b)
  }

  function OrderLabels(labels: seq<string>, saved: seq<string>): seq<string> {
    Sort(ByPosition(saved), labels)
  }

  function OtherThan(x: string): string -> bool {
    y => y != x
  }

  /** `s` without its later repeats. */
  function FirstOccurrences(s: seq<string>): seq<string> {
    if s == [] then [] else [s[0]] + Filter(OtherThan(s[0]), FirstOccurrences(s[1..]))
  }

  lemma {:induction false} FirstOccurrencesOnce(s: seq<string>)
    ensures NoDuplicates(FirstOccurrences(s)) && forall x :: x in FirstOccurrences(s) <==> x in s
  {
    if s != [] {
      var rest := FirstOccurrences(s[1..]);
      FirstOccurrencesOnce(s[1..]);
      FilterKeepsNoDuplicates(OtherThan(s[0]), rest);
      NoDuplicatesConcat([s[0]], Filter(OtherThan(s[0]), rest));
      assert s == [s[0]] + s[1..];
    }
  }

  lemma {:induction false} FirstOccurrencesOfDistinct(s: seq<string>)
    requires NoDuplicates(s)
    ensures FirstOccurrences(s) == s
  {
    if s != [] {
      FirstOccurrencesOfDistinct(s[1..]);
      FilterAll(OtherThan(s[0]), s[1..]);
    }
  }

  lemma {:induction false} FirstOccurrencesByPosition(s: seq<string>)
    ensures Sorted(ByPosition(s), FirstOccurrences(s))
  {
    if s != [] {
      var rest := FirstOccurrences(s[1..]);
      var tail := Filter(OtherThan(s[0]), rest);
      FirstOccurrencesOnce(s[1..]);
      FirstOccurrencesByPosition(s[1..]);
      FilterKeepsSorted(ByPosition(s[1..]), OtherThan(s[0]), rest);
      PositionShifts(s, tail);
      assert forall y :: y in tail ==> ByPosition(s)(s[0], y);
      SortedCons(ByPosition(s), s[0], tail);
    }
  }

  lemma PositionShifts(s: seq<string>, tail: seq<string>)
    requires s != [] && s[0] !in tail && Sorted(ByPosition(s[1..]), tail)
    ensures Sorted(ByPosition(s), tail)
  {
    forall i, j | 0 <= i < j < |tail| ensures ByPosition(s)(tail[i], tail[j]) {
      assert tail[i] in tail && tail[j] in tail;
      assert Position(s, tail[i]) == 1 + Position(s[1..], tail[i])
          && Position(s, tail[j]) == 1 + Position(s[1..], tail[j]);
      assert ByPosition(s[1..])(tail[i], tail[j]);
    }
  }

  lemma ByPositionIsTotalOrder(saved: seq<string>)
    ensures TotalOrder(ByPosition(saved))
  {
    LexIsTotalOrder();
  }

  /** The live labels as the sidebar lists them: the saved ones in saved order, then the new ones by name. */
  ghost function SavedThenNew(labels: seq<string>, saved: seq<string>): seq<string> {
    Filter(l => l in labels, FirstOccurrences(saved)) + Sort(LexLeq, Filter(l => l !in saved, labels))
  }

  /** Sorting by saved position is filtering the saved order and appending the rest by name. */
  lemma OrderLabelsFollowsSaved(labels: seq<string>, saved: seq<string>)
    requires NoDuplicates(labels)
    ensures OrderLabels(labels, saved) == SavedThenNew(labels, saved)
    ensures NoDuplicates(saved) && (forall l :: l in labels ==> l in saved) ==>
        OrderLabels(labels, saved) == Filter(l => l in labels, saved)
  {
    var leq := ByPosition(saved);
    ByPositionIsTotalOrder(saved);
    SortSorts(leq, labels);
    SavedThenNewIsPermutation(labels, saved);
    SavedThenNewIsSorted(labels, saved);
    SortKeepsNoDuplicates(leq, labels);
    SameSetSameMultiset(OrderLabels(labels, saved), SavedThenNew(labels, saved));
    SortedIsUnique(leq, OrderLabels(labels, saved), SavedThenNew(labels, saved));
    if NoDuplicates(saved) && forall l :: l in labels ==> l in saved {
      FirstOccurrencesOfDistinct(saved);
      FilterNone(l => l !in saved, labels);
    }
  }

  lemma SavedThenNewIsPermutation(labels: seq<string>, saved: seq<string>)
    requires NoDuplicates(labels)
    ensures NoDuplicates(SavedThenNew(labels, saved)) && forall x :: x in SavedThenNew(labels, saved) <==> x in labels
  {
    FirstOccurrencesOnce(saved);
    FilterKeepsNoDuplicates(l => l in labels, FirstOccurrences(saved));
    FilterKeepsNoDuplicates(l => l !in saved, labels);
    SortKeepsNoDuplicates(LexLeq, Filter(l => l !in saved, labels));
    NoDuplicatesConcat(
      Filter(l => l in labels, FirstOccurrences(saved)), Sort(LexLeq, Filter(l => l !in saved, labels)));
  }

  lemma SavedThenNewIsSorted(labels: seq<string>, saved: seq<string>)
    ensures Sorted(ByPosition(saved), SavedThenNew(labels, saved))
  {
    var kept, added := Filter(l => l in labels, FirstOccurrences(saved)), Filter(l => l !in saved, labels);
    FirstOccurrencesOnce(saved);
    FirstOccurrencesByPosition(saved);
    FilterKeepsSorted(ByPosition(saved), l => l in labels, FirstOccurrences(saved));
    LexIsTotalOrder();
    SortSorts(LexLeq, added);
    UnsavedByName(saved, Sort(LexLeq, added));
    assert forall x, y :: x in kept && y in added ==> ByPosition(saved)(x, y);
    SortedConcat(ByPosition(saved), kept, Sort(LexLeq, added));
  }

  lemma UnsavedByName(saved: seq<string>, s: seq<string>)
    requires Sorted(LexLeq, s) && forall x :: x in s ==> x !in saved
    ensures Sorted(ByPosition(saved), s)
  {
    forall i, j | 0 <= i < j < |s| ensures ByPosition(saved)(s[i], s[j]) {
      assert s[i] in s && s[j] in s;
    }
  }

  // ---------------------------------------------------------------- groups by recent activity

  function Stamp(s: Session): int {
    if s.messagedAt.Some? then s.messagedAt.value else s.lastEventAt
  }

  datatype Stamped = Stamped(group: string, stamp: int)

  /** Most recent first, then by name. */
  const MoreRecent := (a: Stamped, b: Stamped) => a.stamp > b.stamp || (a.stamp == b.stamp && LexLeq(a.group, b.group))

  /** The latest stamp among the sessions labelled `l`. */
  ghost function NewestStamp(sessions: seq<Session>, l: string): Option<int> {
    if sessions == [] then None
    else
      var last, before := sessions[|sessions| - 1], NewestStamp(sessions[..|sessions| - 1], l);
      if last.cwdLabel != l then before
      else if before.Some? && before.value >= Stamp(last) then before
      else Some(Stamp(last))
  }

  lemma {:induction false} NewestStampIsMaximum(sessions: seq<Session>, l: string)
    ensures NewestStamp(sessions, l).None? <==> forall s :: s in sessions ==> s.cwdLabel != l
    ensures NewestStamp(sessions, l).Some? ==>
        && (forall s :: s in sessions && s.cwdLabel == l ==> Stamp(s) <= NewestStamp(sessions, l).value)
        && exists s :: s in sessions && s.cwdLabel == l && Stamp(s) == NewestStamp(sessions, l).value
  {
    if sessions != [] {
      NewestStampIsMaximum(sessions[..|sessions| - 1], l);
      assert sessions == sessions[..|sessions| - 1] + [sessions[|sessions| - 1]];
    }
  }

  ghost function Ranked(sessions: seq<Session>, l: string): Stamped {
    Stamped(l, NewestStamp(sessions, l).Or(Some(0)).value)
  }

  /** `labels` are the labels in use, once each, most recently used first. */
  ghost predicate ByActivity(sessions: seq<Session>, labels: seq<string>) {
    && NoDuplicates(labels)
    && (forall l :: l in labels <==> NewestStamp(sessions, l).Some?)
    && forall i, j :: 0 <= i < j < |labels| ==> MoreRecent(Ranked(sessions, labels[i]), Ranked(sessions, labels[j]))
  }

  lemma MoreRecentIsTotalOrder()
    ensures TotalOrder(MoreRecent)
  {
    LexIsTotalOrder();
  }

  /** So the seeded order does not depend on how a hash map enumerates its keys. */
  lemma ByActivityIsUnique(sessions: seq<Session>, labels: seq<string>, others: seq<string>)
    requires ByActivity(sessions, labels) && ByActivity(sessions, others)
    ensures labels == others
  {
    MoreRecentIsTotalOrder();
    var leq := (a: string, b: string) => MoreRecent(Ranked(sessions, a), Ranked(sessions, b));
    forall a, b, c
      ensures leq(a, b) || leq(b, a)
      ensures leq(a, b) && leq(b, c) ==> leq(a, c)
      ensures leq(a, b) && leq(b, a) ==> a == b
    {
      var x, y, z := Ranked(sessions, a), Ranked(sessions, b), Ranked(sessions, c);
      assert (MoreRecent(x, y) || MoreRecent(y, x)) && (MoreRecent(x, y) && MoreRecent(y, z) ==> MoreRecent(x, z));
    }
    SameSetSameMultiset(labels, others);
    SortedIsUnique(leq, labels, others);
  }

  /** The keys of a hash map, in whatever order it yields them. */
  method Keys<V>(m: map<string, V>) returns (keys: seq<string>)
    ensures NoDuplicates(keys) && forall k :: k in keys <==> k in m
  {
    keys := [];
    var rest := m.Keys;
    while rest != {}
      invariant NoDuplicates(keys) && rest <= m.Keys && forall k :: k in keys <==> k in m && k !in rest
      decreases |rest|
    {
      var k :| k in rest;
      NoDuplicatesConcat(keys, [k]);
      keys, rest := keys + [k], rest - {k};
    }
  }

  /** Said of the sessions: each label stands for some, the later used first, and by name when used at one time. */
  lemma ByActivityMeans(sessions: seq<Session>, labels: seq<string>)
    requires ByActivity(sessions, labels)
    ensures forall l :: l in labels <==> exists s :: s in sessions && s.cwdLabel == l
    ensures forall i, j :: 0 <= i < j < |labels| ==>
        var a, b := NewestStamp(sessions, labels[i]), NewestStamp(sessions, labels[j]);
        a.Some? && b.Some? && (a.value > b.value || (a.value == b.value && LexLeq(labels[i], labels[j])))
  {
    hide NewestStamp, LexLeq;
    forall l ensures l in labels <==> exists s :: s in sessions && s.cwdLabel == l {
      NewestStampIsMaximum(sessions, l);
    }
    forall i, j | 0 <= i < j < |labels|
      ensures var a, b := NewestStamp(sessions, labels[i]), NewestStamp(sessions, labels[j]);
        a.Some? && b.Some? && (a.value > b.value || (a.value == b.value && LexLeq(labels[i], labels[j])))
    {
      assert labels[i] in labels && labels[j] in labels;
      assert MoreRecent(Ranked(sessions, labels[i]), Ranked(sessions, labels[j]));
    }
  }

  method LabelsByRecentActivity(sessions: seq<Session>) returns (labels: seq<string>)
    ensures ByActivity(sessions, labels)
  {
    var best: map<string, int> := map[];
    for n := 0 to |sessions|
      invariant forall l :: l in best <==> NewestStamp(sessions[..n], l).Some?
      invariant forall l :: l in best ==> NewestStamp(sessions[..n], l) == Some(best[l])
    {
      var s, stamp := sessions[n], Stamp(sessions[n]);
      assert sessions[..n + 1][..n] == sessions[..n];
      if s.cwdLabel !in best || stamp > best[s.cwdLabel] {
        best := best[s.cwdLabel := stamp];
      }
    }
    assert sessions[..|sessions|] == sessions;
    var keys := Keys(best);
    var pairs := seq(|keys|, i requires 0 <= i < |keys| => Stamped(keys[i], best[keys[i]]));
    assert forall i :: 0 <= i < |keys| ==> keys[i] in keys && pairs[i] == Ranked(sessions, keys[i]);
    var sorted := Sort(MoreRecent, pairs);
    labels := seq(|sorted|, i requires 0 <= i < |sorted| => sorted[i].group);
    RankingIsByActivity(sessions, keys, pairs, sorted, labels);
  }

  lemma RankingIsByActivity(
      sessions: seq<Session>, keys: seq<string>, pairs: seq<Stamped>, sorted: seq<Stamped>, labels: seq<string>)
    requires NoDuplicates(keys) && forall l :: l in keys <==> NewestStamp(sessions, l).Some?
    requires |pairs| == |keys| && forall i :: 0 <= i < |keys| ==> pairs[i] == Ranked(sessions, keys[i])
    requires sorted == Sort(MoreRecent, pairs)
    requires |labels| == |sorted| && forall i :: 0 <= i < |sorted| ==> labels[i] == sorted[i].group
    ensures ByActivity(sessions, labels)
  {
    hide Sort, NewestStamp;
    MoreRecentIsTotalOrder();
    SortSorts(MoreRecent, pairs);
    SortKeepsNoDuplicates(MoreRecent, pairs);
    forall i | 0 <= i < |sorted| ensures sorted[i] == Ranked(sessions, labels[i]) && labels[i] in keys {
      assert sorted[i] in sorted;
    }
    forall l | l in keys ensures l in labels {
      var i :| 0 <= i < |keys| && keys[i] == l;
      assert pairs[i] in sorted;
      var j :| 0 <= j < |sorted| && sorted[j] == pairs[i];
      assert labels[j] == l;
    }
  }

  // ---------------------------------------------------------------- editing the saved order

  ghost function Pruned(order: seq<string>, labels: seq<string>): seq<string> {
    Filter(l => l in labels, order)
  }

  ghost function Ensured(order: seq<string>, labels: seq<string>): seq<string> {
    order + Sort(LexLeq, Filter(l => l !in order, labels))
  }

  lemma EnsuredMeans(order: seq<string>, labels: seq<string>)
    ensures var r := Ensured(order, labels);
      && order <= r && Sorted(LexLeq, r[|order|..])
      && forall l :: l in r <==> l in order || l in labels
  {
    var missing := Filter(l => l !in order, labels);
    LexIsTotalOrder();
    SortSorts(LexLeq, missing);
    assert Ensured(order, labels)[|order|..] == Sort(LexLeq, missing);
  }

  /** What reconciling the saved order with the live sessions leaves. */
  ghost predicate Reconciles(order: seq<string>, sessions: seq<Session>, result: seq<string>) {
    var live := UniqueLabels(sessions);
    if sessions == [] then result == order
    else if Pruned(order, live) == [] then ByActivity(sessions, result)
    else result == Ensured(Pruned(order, live), live)
  }

  /** `Vec::remove`. */
  function RemoveAt(s: seq<string>, i: nat): (r: seq<string>)
    requires i < |s|
    ensures |r| == |s| - 1
    ensures forall k :: 0 <= k < i ==> r[k] == s[k]
    ensures forall k {:trigger r[k]} :: i <= k < |r| ==> r[k] == s[k + 1]
  {
    s[..i] + s[i + 1..]
  }

  /** `Vec::insert`. */
  function InsertAt(s: seq<string>, i: nat, x: string): (r: seq<string>)
    requires i <= |s|
    ensures |r| == |s| + 1
    ensures r[i] == x && forall k :: 0 <= k < i ==> r[k] == s[k]
    ensures forall k {:trigger r[k]} :: i < k < |r| ==> r[k] == s[k - 1]
  {
    s[..i] + [x] + s[i..]
  }

  lemma RemoveMultiset(s: seq<string>, i: nat)
    requires i < |s|
    ensures multiset(s) == multiset(RemoveAt(s, i)) + multiset{s[i]}
  {
    assert s == s[..i] + [s[i]] + s[i + 1..];
  }

  /** The order whose element `i` was moved to index `j`. */
  ghost function Moved(s: seq<string>, i: nat, j: nat): seq<string>
    requires i < |s| && j < |s|
  {
    seq(|s|, k requires 0 <= k < |s| =>
      if k == j then s[i] else if i <= k < j then s[k + 1] else if j < k <= i then s[k - 1] else s[k])
  }

  ghost function Reordered(order: seq<string>, from: string, to: string): seq<string> {
    if from == to || from !in order || to !in order then order
    else Moved(order, Position(order, from), Position(order, to))
  }

  class SidebarGroupOrder {
    var groups: seq<string>

    constructor (groups: seq<string>)
      ensures this.groups == groups
    {
      this.groups := groups;
    }

    method EnsureLabels(labels: seq<string>)
      modifies this
      ensures groups == Ensured(old(groups), labels)
      ensures old(groups) <= groups && Sorted(LexLeq, groups[|old(groups)|..])
      ensures forall l :: l in groups <==> l in old(groups) || l in labels
    {
      EnsuredMeans(groups, labels);
      hide Sorted, LexLeq;
      var saved := groups;
      var missing := Filter(l => l !in saved, labels);
      groups := groups + Sort(LexLeq, missing);
    }

    method PruneToLabels(labels: seq<string>)
      modifies this
      ensures groups == Pruned(old(groups), labels)
      ensures forall l :: l in groups <==> l in old(groups) && l in labels
    {
      groups := Filter(l => l in labels, groups);
    }

    /** The result says whether the file had to be written. */
    method ReconcileAndSave(sessions: seq<Session>) returns (changed: bool)
      modifies this
      ensures Reconciles(old(groups), sessions, groups) && changed == (groups != old(groups))
    {
      UniqueLabelsAreTheLabels(sessions);
      var live := UniqueLabels(sessions);
      if live == [] {
        return false;
      }
      var before := groups;
      PruneToLabels(live);
      if groups == [] {
        groups := LabelsByRecentActivity(sessions);
      } else {
        EnsureLabels(live);
      }
      changed := groups != before;
    }

    method Reorder(from: string, to: string)
      modifies this
      ensures groups == Reordered(old(groups), from, to)
    {
      hide Position, RemoveAt, InsertAt, Moved;
      if from == to {
        return;
      }
      var fromIdx, toIdx := Position(groups, from), Position(groups, to);
      if fromIdx == |groups| || toIdx == |groups| {
        return;
      }
      MovedByRemoving(groups, fromIdx, toIdx);
      PositionWithout(groups, fromIdx, to);
      groups := RemoveAt(groups, fromIdx);
      var at := Position(groups, to);
      var insertAt :=
        if fromIdx < toIdx then (if at < |groups| then at + 1 else |groups|)
        else if at < |groups| then at else 0;
      insertAt := if insertAt < |groups| then insertAt else |groups|;
      groups := InsertAt(groups, insertAt, from);
    }
  }

  lemma PositionIs(s: seq<string>, x: string, k: nat)
    requires k < |s| && s[k] == x && forall m :: 0 <= m < k ==> s[m] != x
    ensures Position(s, x) == k
  {
    var p := Position(s, x);
    assert p <= k;
  }

  lemma PositionWithout(s: seq<string>, i: nat, x: string)
    requires i < |s| && s[i] != x && x in s
    ensures Position(RemoveAt(s, i), x) == Position(s, x) - if i < Position(s, x) then 1 else 0
  {
    PositionAfterGap(s, i, RemoveAt(s, i), x);
  }

  lemma PositionAfterGap(s: seq<string>, i: nat, t: seq<string>, x: string)
    requires i < |s| && s[i] != x && x in s && |t| == |s| - 1
    requires forall k :: 0 <= k < i ==> t[k] == s[k]
    requires forall k {:trigger t[k]} :: i <= k < |t| ==> t[k] == s[k + 1]
    ensures Position(t, x) == Position(s, x) - if i < Position(s, x) then 1 else 0
  {
    hide Position;
    PositionFacts(s, x);
    var p := Position(s, x);
    var at := if i < p then p - 1 else p;
    PositionIs(t, x, at);
  }

  lemma PositionFacts(s: seq<string>, x: string)
    requires x in s
    ensures Position(s, x) < |s| && s[Position(s, x)] == x && forall k :: 0 <= k < Position(s, x) ==> s[k] != x
  {
  }

  lemma MovedByRemoving(s: seq<string>, i: nat, j: nat)
    requires i < |s| && j < |s|
    ensures InsertAt(RemoveAt(s, i), j, s[i]) == Moved(s, i, j)
    ensures RemoveAt(Moved(s, i, j), j) == RemoveAt(s, i)
  {
    var t, m := RemoveAt(s, i), Moved(s, i, j);
    assert forall k :: 0 <= k < |t| ==> t[k] == m[if k < j then k else k + 1];
    SameElements(InsertAt(t, j, s[i]), m);
    SameElements(RemoveAt(m, j), t);
  }

  lemma SameElements(s: seq<string>, t: seq<string>)
    requires |s| == |t| && forall k :: 0 <= k < |s| ==> s[k] == t[k]
    ensures s == t
  {
  }

  // ---------------------------------------------------------------- what editing keeps

  /** Reconciling with a live list yields exactly the live labels, the surviving saved ones first and in their order. */
  lemma ReconcilingConserves(order: seq<string>, sessions: seq<Session>, result: seq<string>)
    requires sessions != [] && Reconciles(order, sessions, result)
    ensures forall l :: l in result <==> exists s :: s in sessions && s.cwdLabel == l
    ensures Pruned(order, UniqueLabels(sessions)) <= result
    ensures NoDuplicates(result) <==> NoDuplicates(Pruned(order, UniqueLabels(sessions)))
    ensures NoDuplicates(order) ==> NoDuplicates(result)
  {
    hide NoDuplicates, UniqueLabels, NewestStamp;
    var live := UniqueLabels(sessions);
    var kept := Pruned(order, live);
    UniqueLabelsAreTheLabels(sessions);
    if NoDuplicates(order) {
      FilterKeepsNoDuplicates(l => l in live, order);
    }
    if kept == [] {
      NoDuplicatesInEmpty();
      forall l ensures l in result <==> exists s :: s in sessions && s.cwdLabel == l {
        NewestStampIsMaximum(sessions, l);
      }
    } else {
      EnsuringConserves(kept, live);
    }
  }

  lemma NoDuplicatesInEmpty()
    ensures NoDuplicates<string>([])
  {
  }

  lemma EnsuringConserves(kept: seq<string>, live: seq<string>)
    requires NoDuplicates(live) && forall l :: l in kept ==> l in live
    ensures forall l :: l in Ensured(kept, live) <==> l in live
    ensures kept <= Ensured(kept, live)
    ensures NoDuplicates(Ensured(kept, live)) <==> NoDuplicates(kept)
  {
    hide NoDuplicates;
    var missing := Filter(l => l !in kept, live);
    FilterKeepsNoDuplicates(l => l !in kept, live);
    SortKeepsNoDuplicates(LexLeq, missing);
    if NoDuplicates(kept) {
      NoDuplicatesConcat(kept, Sort(LexLeq, missing));
    }
    PrefixKeepsNoDuplicates(kept, Sort(LexLeq, missing));
  }

  lemma PrefixKeepsNoDuplicates(s: seq<string>, t: seq<string>)
    ensures NoDuplicates(s + t) ==> NoDuplicates(s)
  {
    if NoDuplicates(s + t) {
      forall i, j | 0 <= i < j < |s| ensures s[i] != s[j] {
        assert (s + t)[i] != (s + t)[j];
      }
    }
  }

  /** A second reconciliation with the same sessions changes nothing. */
  lemma ReconcilingIsIdempotent(order: seq<string>, sessions: seq<Session>, once: seq<string>, twice: seq<string>)
    requires Reconciles(order, sessions, once) && Reconciles(once, sessions, twice)
    ensures twice == once
  {
    if sessions != [] {
      var live := UniqueLabels(sessions);
      UniqueLabelsAreTheLabels(sessions);
      ReconcilingConserves(order, sessions, once);
      FilterAll(l => l in live, once);
      assert live[0] in live;
      assert live[0] in once;
      FilterNone(l => l !in once, live);
      assert Sort(LexLeq, []) == [];
    }
  }

  /** Reordering rearranges, puts `from` where `to` was, and leaves the others in their order. */
  lemma ReorderMoves(order: seq<string>, from: string, to: string)
    requires from in order && to in order && from != to
    ensures var r, i, j := Reordered(order, from, to), Position(order, from), Position(order, to);
      multiset(r) == multiset(order) && r[j] == from && RemoveAt(r, j) == RemoveAt(order, i)
  {
    hide Position, RemoveAt, InsertAt;
    var i, j := Position(order, from), Position(order, to);
    MovedByRemoving(order, i, j);
    RemoveMultiset(order, i);
    RemoveMultiset(Moved(order, i, j), j);
  }

  /** Dropping `from` on the label now at its old index undoes the move. */
  lemma ReorderUndone(order: seq<string>, from: string, to: string)
    requires NoDuplicates(order) && from in order && to in order && from != to
    ensures var r := Reordered(order, from, to);
      Reordered(r, from, r[Position(order, from)]) == order
  {
    hide Position, Moved, NoDuplicates, Reordered;
    PositionFacts(order, from);
    PositionFacts(order, to);
    var i, j := Position(order, from), Position(order, to);
    var r := Moved(order, i, j);
    MovedBack(order, i, j);
    ReorderedIsMoved(order, i, j);
    ReorderedIsMoved(r, j, i);
  }

  lemma ReorderedIsMoved(s: seq<string>, i: nat, j: nat)
    requires NoDuplicates(s) && i < |s| && j < |s| && s[i] != s[j]
    ensures Reordered(s, s[i], s[j]) == Moved(s, i, j)
  {
    hide Position, Moved, NoDuplicates;
    PositionOf(s, i);
    PositionOf(s, j);
  }

  lemma MovedBack(s: seq<string>, i: nat, j: nat)
    requires i < |s| && j < |s| && i != j && NoDuplicates(s)
    ensures var r := Moved(s, i, j);
      |r| == |s| && NoDuplicates(r) && r[j] == s[i] && r[i] != s[i] && Moved(r, j, i) == s
  {
  }

  lemma PositionOf(s: seq<string>, k: nat)
    requires NoDuplicates(s) && k < |s|
    ensures Position(s, s[k]) == k
  {
    assert s[k] in s;
  }

  // ---------------------------------------------------------------- the rows shown

  function VisibleSessionsInGroup(group: seq<Session>, expanded: bool): seq<Session> {
    if expanded || |group| <= MAX_THREADS_PER_GROUP then group else group[..MAX_THREADS_PER_GROUP]
  }

  function InGroup(l: string): Session -> bool {
    (s: Session) => s.cwdLabel == l
  }

  /** The rows of one group: its sessions, freshest first, cut to six unless expanded, none when folded. */
  ghost function Rows(sessions: seq<Session>, l: string, expanded: set<string>, folded: set<string>): seq<Session> {
    if l in folded then []
    else VisibleSessionsInGroup(Sort(WithinGroup, Filter(InGroup(l), sessions)), l in expanded)
  }

  ghost function AllRows(
      sessions: seq<Session>, labels: seq<string>, expanded: set<string>, folded: set<string>): seq<Session> {
    if labels == [] then []
    else
      var n := |labels| - 1;
      AllRows(sessions, labels[..n], expanded, folded) + Rows(sessions, labels[n], expanded, folded)
  }

  /** The sidebar: the groups in saved order, new ones by name, one after the other. */
  ghost function Sidebar(
      sessions: seq<Session>, expanded: set<string>, folded: set<string>, order: seq<string>): seq<Session> {
    AllRows(sessions, SavedThenNew(UniqueLabels(sessions), order), expanded, folded)
  }

  ghost predicate LabelsIn(sessions: seq<Session>, byDir: map<string, seq<Session>>) {
    forall l :: l in byDir <==> exists s :: s in sessions && s.cwdLabel == l
  }

  /** The sessions by label, each group in list order. */
  ghost predicate Grouped(sessions: seq<Session>, byDir: map<string, seq<Session>>) {
    LabelsIn(sessions, byDir) && forall l :: l in byDir ==> byDir[l] == Filter(InGroup(l), sessions)
  }

  lemma LabelsOneMore(sessions: seq<Session>, byDir: map<string, seq<Session>>, s: Session, group: seq<Session>)
    requires LabelsIn(sessions, byDir)
    ensures LabelsIn(sessions + [s], byDir[s.cwdLabel := group])
  {
    assert s in sessions + [s];
    forall x | x in sessions ensures x in sessions + [s] {
    }
  }

  lemma FilterOneMore(l: string, sessions: seq<Session>, s: Session)
    ensures Filter(InGroup(l), sessions + [s]) == Filter(InGroup(l), sessions) + if s.cwdLabel == l then [s] else []
  {
    hide Filter;
    FilterAppends(InGroup(l), sessions, [s]);
    assert [s][1..] == [];
    FilterFirst(InGroup(l), [s]);
    FilterEmpty(InGroup(l));
  }

  lemma GroupOneMore(sessions: seq<Session>, byDir: map<string, seq<Session>>, s: Session)
    requires Grouped(sessions, byDir)
    ensures var group := if s.cwdLabel in byDir then byDir[s.cwdLabel] else [];
      Grouped(sessions + [s], byDir[s.cwdLabel := group + [s]])
  {
    var group := if s.cwdLabel in byDir then byDir[s.cwdLabel] else [];
    LabelsOneMore(sessions, byDir, s, group + [s]);
    if s.cwdLabel !in byDir {
      FilterNone(InGroup(s.cwdLabel), sessions);
    }
    hide Filter, LabelsIn;
    forall l
      ensures Filter(InGroup(l), sessions + [s]) == Filter(InGroup(l), sessions) + if s.cwdLabel == l then [s] else []
    {
      FilterOneMore(l, sessions, s);
    }
  }

  /** A row labelled `a` may stand above one labelled `b`: saved labels by first position, then the others by name. */
  predicate MayPrecede(order: seq<string>, a: string, b: string) {
    if a in order && b in order then Position(order, a) <= Position(order, b)
    else if a !in order && b !in order then LexLeq(a, b)
    else a in order
  }

  /** Rows follow the saved order, rows of one label are adjacent and freshest first, and none is folded. */
  ghost predicate RowsInOrder(rows: seq<Session>, folded: set<string>, order: seq<string>) {
    && (forall i, j :: 0 <= i < j < |rows| ==> MayPrecede(order, rows[i].cwdLabel, rows[j].cwdLabel))
    && (forall i, j, k :: 0 <= i < j < k < |rows| && rows[i].cwdLabel == rows[k].cwdLabel ==>
          rows[j].cwdLabel == rows[i].cwdLabel)
    && (forall i, j :: 0 <= i < j < |rows| && rows[i].cwdLabel == rows[j].cwdLabel ==> !Fresher(rows[j], rows[i]))
    && forall i :: 0 <= i < |rows| ==> rows[i].cwdLabel !in folded
  }

  /** Of each open group all rows are shown, or six, and none left out is fresher than one shown. */
  ghost predicate RowsComplete(sessions: seq<Session>, rows: seq<Session>, expanded: set<string>, folded: set<string>) {
    && multiset(rows) <= multiset(sessions)
    && (forall l :: l !in folded ==>
          var all, shown := |Filter(InGroup(l), sessions)|, |Filter(InGroup(l), rows)|;
          shown == if l in expanded || all <= 6 then all else 6)
    && forall i, s :: 0 <= i < |rows| && s in sessions && s !in rows && s.cwdLabel == rows[i].cwdLabel ==>
         !Fresher(s, rows[i])
  }

  method OrderedVisibleSessions(
      sessions: seq<Session>, expanded: set<string>, folded: set<string>, order: seq<string>)
    returns (ordered: seq<Session>)
    ensures ordered == Sidebar(sessions, expanded, folded, order)
    ensures RowsInOrder(ordered, folded, order) && RowsComplete(sessions, ordered, expanded, folded)
  {
    hide Filter, Sort, UniqueLabels, SavedThenNew, Rows, RowsInOrder, RowsComplete;
    SidebarInOrder(sessions, expanded, folded, order);
    SidebarComplete(sessions, expanded, folded, order);
    UniqueLabelsAreTheLabels(sessions);
    if sessions == [] {
      SidebarOfNothing(expanded, folded, order);
      return [];
    }
    var byDir: map<string, seq<Session>> := map[];
    for n := 0 to |sessions|
      invariant Grouped(sessions[..n], byDir)
    {
      assert sessions[..n + 1] == sessions[..n] + [sessions[n]];
      GroupOneMore(sessions[..n], byDir, sessions[n]);
      var l := sessions[n].cwdLabel;
      var group := if l in byDir then byDir[l] else [];
      byDir := byDir[l := group + [sessions[n]]];
    }
    assert sessions[..|sessions|] == sessions;
    var effective := new SidebarGroupOrder(order);
    effective.EnsureLabels(UniqueLabels(sessions));
    var keys := Keys(byDir);
    var dirs := OrderLabels(keys, effective.groups);
    EffectiveOrder(UniqueLabels(sessions), order, keys);
    ordered := ShowGroups(sessions, byDir, dirs, expanded, folded);
  }

  // ---------------------------------------------------------------- what the rows mean

  lemma SidebarInOrder(sessions: seq<Session>, expanded: set<string>, folded: set<string>, order: seq<string>)
    ensures RowsInOrder(Sidebar(sessions, expanded, folded, order), folded, order)
  {
    hide UniqueLabels, SavedThenNew, Rows, AllRows;
    var labels := UniqueLabels(sessions);
    var dirs := SavedThenNew(labels, order);
    UniqueLabelsAreTheLabels(sessions);
    SavedThenNewIsPermutation(labels, order);
    SavedThenNewIsSorted(labels, order);
    AllRowsSorted(sessions, dirs, expanded, folded, order);
    var rows := AllRows(sessions, dirs, expanded, folded);
    ByPositionIsTotalOrder(order);
    forall i, j | 0 <= i < j < |rows| ensures ByPosition(order)(rows[i].cwdLabel, rows[j].cwdLabel) {
      assert LabelsBy(order)(rows[i], rows[j]);
    }
    forall i, j | 0 <= i < j < |rows| ensures MayPrecede(order, rows[i].cwdLabel, rows[j].cwdLabel) {
      PositionMeans(order, rows[i].cwdLabel, rows[j].cwdLabel);
    }
    forall i, j | 0 <= i < j < |rows| && rows[i].cwdLabel == rows[j].cwdLabel ensures !Fresher(rows[j], rows[i]) {
      assert FreshBy()(rows[i], rows[j]);
    }
    forall i | 0 <= i < |rows| ensures rows[i].cwdLabel !in folded {
      assert rows[i] in rows;
    }
  }

  lemma PositionMeans(order: seq<string>, a: string, b: string)
    ensures PositionLeq(order, a, b) ==> MayPrecede(order, a, b)
  {
  }

  function LabelsBy(order: seq<string>): (Session, Session) -> bool {
    (a: Session, b: Session) => PositionLeq(order, a.cwdLabel, b.cwdLabel)
  }

  ghost function FreshBy(): (Session, Session) -> bool {
    (a: Session, b: Session) => a.cwdLabel == b.cwdLabel ==> !Fresher(b, a)
  }

  lemma {:induction false} AllRowsSorted(
      sessions: seq<Session>, dirs: seq<string>, expanded: set<string>, folded: set<string>, order: seq<string>)
    requires NoDuplicates(dirs) && Sorted(ByPosition(order), dirs)
    ensures var rows := AllRows(sessions, dirs, expanded, folded);
      && Sorted(LabelsBy(order), rows) && Sorted(FreshBy(), rows)
      && forall s :: s in rows ==> s.cwdLabel in dirs && s.cwdLabel !in folded
  {
    hide Rows, PositionLeq, Fresher;
    if dirs != [] {
      var n := |dirs| - 1;
      var init, last := AllRows(sessions, dirs[..n], expanded, folded), Rows(sessions, dirs[n], expanded, folded);
      assert dirs == dirs[..n] + [dirs[n]];
      assert AllRows(sessions, dirs, expanded, folded) == init + last;
      hide AllRows;
      AllRowsSorted(sessions, dirs[..n], expanded, folded, order);
      RowsAreOfTheGroup(sessions, dirs[n], expanded, folded);
      RowsOfFolded(sessions, dirs[n], expanded, folded);
      OneGroupSorted(sessions, dirs[n], expanded, folded, order);
      forall x, y | x in init && y in last ensures LabelsBy(order)(x, y) && FreshBy()(x, y) {
        var i :| 0 <= i < n && dirs[i] == x.cwdLabel;
        assert ByPosition(order)(dirs[i], dirs[n]);
      }
      SortedConcat(LabelsBy(order), init, last);
      SortedConcat(FreshBy(), init, last);
    }
  }

  lemma RowsOfFolded(sessions: seq<Session>, l: string, expanded: set<string>, folded: set<string>)
    ensures l in folded ==> Rows(sessions, l, expanded, folded) == []
  {
  }

  lemma OneGroupSorted(
      sessions: seq<Session>, l: string, expanded: set<string>, folded: set<string>, order: seq<string>)
    ensures var rows := Rows(sessions, l, expanded, folded);
      Sorted(LabelsBy(order), rows) && Sorted(FreshBy(), rows)
  {
    var rows := Rows(sessions, l, expanded, folded);
    RowsAreOfTheGroup(sessions, l, expanded, folded);
    RowsOfFolded(sessions, l, expanded, folded);
    if l !in folded {
      ShownAreFreshest(sessions, l, expanded, folded);
    }
    hide Rows;
    ByPositionIsTotalOrder(order);
    forall i, j | 0 <= i < j < |rows| ensures LabelsBy(order)(rows[i], rows[j]) && FreshBy()(rows[i], rows[j]) {
      assert rows[i] in rows && rows[j] in rows;
      assert ByPosition(order)(l, l);
    }
  }

  lemma SidebarComplete(sessions: seq<Session>, expanded: set<string>, folded: set<string>, order: seq<string>)
    ensures RowsComplete(sessions, Sidebar(sessions, expanded, folded, order), expanded, folded)
  {
    hide UniqueLabels, SavedThenNew, Rows, AllRows, Filter;
    var labels := UniqueLabels(sessions);
    var dirs, rows := SavedThenNew(labels, order), Sidebar(sessions, expanded, folded, order);
    UniqueLabelsAreTheLabels(sessions);
    SavedThenNewIsPermutation(labels, order);
    SidebarConserves(sessions, expanded, folded, order);
    forall l | l !in folded
      ensures var all, shown := |Filter(InGroup(l), sessions)|, |Filter(InGroup(l), rows)|;
        shown == if l in expanded || all <= 6 then all else 6
    {
      RowsOfLabel(sessions, dirs, expanded, folded, l);
      ShownAreFreshest(sessions, l, expanded, folded);
      if l !in dirs {
        FilterNone(InGroup(l), sessions);
      }
    }
    forall i, s | 0 <= i < |rows| && s in sessions && s !in rows && s.cwdLabel == rows[i].cwdLabel
      ensures !Fresher(s, rows[i])
    {
      RowsOfLabel(sessions, dirs, expanded, folded, s.cwdLabel);
      SidebarInOrder(sessions, expanded, folded, order);
      LeftOutIsStaler(sessions, rows, s, rows[i], expanded, folded);
    }
  }

  lemma {:induction false} RowsOfLabel(
      sessions: seq<Session>, dirs: seq<string>, expanded: set<string>, folded: set<string>, l: string)
    requires NoDuplicates(dirs)
    ensures Filter(InGroup(l), AllRows(sessions, dirs, expanded, folded))
        == if l in dirs then Rows(sessions, l, expanded, folded) else []
  {
    hide Rows, Filter;
    if dirs == [] {
      FilterEmpty(InGroup(l));
    } else {
      var n := |dirs| - 1;
      var init, last := AllRows(sessions, dirs[..n], expanded, folded), Rows(sessions, dirs[n], expanded, folded);
      assert dirs == dirs[..n] + [dirs[n]] && dirs[n] !in dirs[..n];
      RowsOfLabel(sessions, dirs[..n], expanded, folded, l);
      FilterAppends(InGroup(l), init, last);
      RowsAreOfTheGroup(sessions, dirs[n], expanded, folded);
      if l == dirs[n] {
        FilterAll(InGroup(l), last);
      } else {
        FilterNone(InGroup(l), last);
      }
    }
  }

  lemma LeftOutIsStaler(
      sessions: seq<Session>, rows: seq<Session>, s: Session, r: Session, expanded: set<string>, folded: set<string>)
    requires s in sessions && s !in rows && r in rows && s.cwdLabel == r.cwdLabel && r.cwdLabel !in folded
    requires Filter(InGroup(s.cwdLabel), rows) == Rows(sessions, s.cwdLabel, expanded, folded)
    ensures !Fresher(s, r)
  {
    hide Filter, Rows, Fresher, InGroup;
    var l := s.cwdLabel;
    var shown, group := Rows(sessions, l, expanded, folded), Filter(InGroup(l), sessions);
    ShownAreFreshest(sessions, l, expanded, folded);
    GroupMembers(l, rows, r);
    GroupMembers(l, rows, s);
    GroupMembers(l, sessions, s);
    var hidden: seq<Session> :|
      && multiset(shown) + multiset(hidden) == multiset(group)
      && forall i, x :: 0 <= i < |shown| && x in hidden ==> !Fresher(x, shown[i]);
    ShownOrHidden(shown, hidden, group, s);
    var i :| 0 <= i < |shown| && shown[i] == r;
  }

  lemma ShownOrHidden(shown: seq<Session>, hidden: seq<Session>, group: seq<Session>, s: Session)
    requires multiset(shown) + multiset(hidden) == multiset(group) && s in group && s !in shown
    ensures s in hidden
  {
    assert s in multiset(group);
  }

  lemma GroupMembers(l: string, s: seq<Session>, x: Session)
    ensures x in Filter(InGroup(l), s) <==> x in s && x.cwdLabel == l
  {
  }

  method ShowGroups(
      ghost sessions: seq<Session>, groups: map<string, seq<Session>>, dirs: seq<string>, expanded: set<string>,
      folded: set<string>)
    returns (ordered: seq<Session>)
    requires NoDuplicates(dirs) && Grouped(sessions, groups) && forall l :: l in dirs ==> l in groups
    ensures ordered == AllRows(sessions, dirs, expanded, folded)
  {
    hide Filter, Sort, Rows, AllRows;
    var byDir := groups;
    ordered := [];
    AllRowsOfNone(sessions, expanded, folded);
    for n := 0 to |dirs|
      invariant ordered == AllRows(sessions, dirs[..n], expanded, folded)
      invariant forall k :: n <= k < |dirs| ==> dirs[k] in byDir && byDir[dirs[k]] == Filter(InGroup(dirs[k]), sessions)
    {
      var l := dirs[n];
      AllRowsOneMore(sessions, dirs, n, expanded, folded);
      if l in folded {
        continue;
      }
      var group := Sort(WithinGroup, byDir[l]);
      byDir := byDir - {l};
      ordered := ordered + VisibleSessionsInGroup(group, l in expanded);
    }
    assert dirs[..|dirs|] == dirs;
  }

  lemma AllRowsOfNone(sessions: seq<Session>, expanded: set<string>, folded: set<string>)
    ensures AllRows(sessions, [], expanded, folded) == []
  {
  }

  lemma AllRowsOneMore(sessions: seq<Session>, dirs: seq<string>, n: nat, expanded: set<string>, folded: set<string>)
    requires n < |dirs|
    ensures AllRows(sessions, dirs[..n + 1], expanded, folded) == AllRows(sessions, dirs[..n], expanded, folded)
        + if dirs[n] in folded then []
          else VisibleSessionsInGroup(Sort(WithinGroup, Filter(InGroup(dirs[n]), sessions)), dirs[n] in expanded)
  {
    hide Filter, Sort;
    assert dirs[..n + 1][..n] == dirs[..n];
  }

  lemma SidebarOfNothing(expanded: set<string>, folded: set<string>, order: seq<string>)
    ensures Sidebar([], expanded, folded, order) == []
  {
    var u := UniqueLabels([]);
    UniqueLabelsAreTheLabels([]);
    FilterNone(l => l in u, FirstOccurrences(order));
    assert SavedThenNew(u, order) == [];
  }

  lemma {:induction false} FirstOccurrencesAppend(s: seq<string>, t: seq<string>)
    requires NoDuplicates(t) && forall x :: x in s ==> x !in t
    ensures FirstOccurrences(s + t) == FirstOccurrences(s) + t
  {
    hide Filter, FirstOccurrences, NoDuplicates;
    if s == [] {
      FirstOccurrencesOfDistinct(t);
      FirstOccurrencesEmpty();
      assert s + t == t;
    } else {
      var rest := FirstOccurrences(s[1..]);
      assert s == [s[0]] + s[1..];
      assert (s + t)[0] == s[0] && (s + t)[1..] == s[1..] + t;
      FirstOccurrencesAppend(s[1..], t);
      FilterAppends(OtherThan(s[0]), rest, t);
      FilterAll(OtherThan(s[0]), t);
      FirstOccurrencesCons(s);
      FirstOccurrencesCons(s + t);
    }
  }

  lemma FirstOccurrencesEmpty()
    ensures FirstOccurrences([]) == []
  {
  }

  lemma FirstOccurrencesCons(s: seq<string>)
    requires s != []
    ensures FirstOccurrences(s) == [s[0]] + Filter(OtherThan(s[0]), FirstOccurrences(s[1..]))
  {
  }

  /** Completing the saved order and then sorting any enumeration of the labels by it gives the sidebar's order. */
  lemma EffectiveOrder(labels: seq<string>, order: seq<string>, keys: seq<string>)
    requires NoDuplicates(labels) && NoDuplicates(keys) && forall l :: l in keys <==> l in labels
    ensures OrderLabels(keys, Ensured(order, labels)) == SavedThenNew(labels, order)
    ensures NoDuplicates(SavedThenNew(labels, order)) && forall l :: l in SavedThenNew(labels, order) <==> l in labels
  {
    var added := Sort(LexLeq, Filter(l => l !in order, labels));
    var effective := Ensured(order, labels);
    FilterKeepsNoDuplicates(l => l !in order, labels);
    SortKeepsNoDuplicates(LexLeq, Filter(l => l !in order, labels));
    FirstOccurrencesAppend(order, added);
    OrderLabelsFollowsSaved(keys, effective);
    FilterNone(l => l !in effective, keys);
    FilterAppends(l => l in keys, FirstOccurrences(order), added);
    FilterAll(l => l in keys, added);
    FilterAgrees(l => l in keys, l => l in labels, FirstOccurrences(order));
    SavedThenNewIsPermutation(labels, order);
  }

  lemma {:induction false} RowsCount(
      sessions: seq<Session>, labels: seq<string>, expanded: set<string>, folded: set<string>, x: Session)
    requires NoDuplicates(labels)
    ensures multiset(AllRows(sessions, labels, expanded, folded))[x] ==
        if x.cwdLabel in labels then multiset(Rows(sessions, x.cwdLabel, expanded, folded))[x] else 0
  {
    hide Rows;
    if labels != [] {
      var n := |labels| - 1;
      RowsCount(sessions, labels[..n], expanded, folded, x);
      assert labels == labels[..n] + [labels[n]] && labels[n] !in labels[..n];
      RowsAreOfTheGroup(sessions, labels[n], expanded, folded);
      assert multiset(AllRows(sessions, labels, expanded, folded))
          == multiset(AllRows(sessions, labels[..n], expanded, folded))
              + multiset(Rows(sessions, labels[n], expanded, folded));
    }
  }

  lemma RowsAreOfTheGroup(sessions: seq<Session>, l: string, expanded: set<string>, folded: set<string>)
    ensures forall s :: s in Rows(sessions, l, expanded, folded) ==> s in sessions && s.cwdLabel == l
    ensures multiset(Rows(sessions, l, expanded, folded)) <= multiset(Filter(InGroup(l), sessions))
  {
    var all := Filter(InGroup(l), sessions);
    assert forall s :: s in all ==> s in sessions && s.cwdLabel == l;
    SortMultiset(WithinGroup, all);
    hide Filter, Sort;
    PrefixMembers(Sort(WithinGroup, all), MAX_THREADS_PER_GROUP);
  }

  lemma PrefixMembers(s: seq<Session>, n: nat)
    ensures |s| > n ==> multiset(s[..n]) <= multiset(s) && forall x :: x in s[..n] ==> x in s
  {
    if |s| > n {
      assert s == s[..n] + s[n..];
    }
  }

  lemma SortMultiset(leq: (Session, Session) -> bool, s: seq<Session>)
    ensures multiset(Sort(leq, s)) == multiset(s) && |Sort(leq, s)| == |s| && forall x :: x in Sort(leq, s) <==> x in s
  {
  }

  /** No session is shown twice, and with nothing folded or cut each is shown. */
  lemma SidebarConserves(sessions: seq<Session>, expanded: set<string>, folded: set<string>, order: seq<string>)
    ensures multiset(Sidebar(sessions, expanded, folded, order)) <= multiset(sessions)
    ensures NoDuplicates(sessions) ==> NoDuplicates(Sidebar(sessions, expanded, folded, order))
    ensures (forall s :: s in sessions ==> s.cwdLabel !in folded && s.cwdLabel in expanded) ==>
        multiset(Sidebar(sessions, expanded, folded, order)) == multiset(sessions)
  {
    hide Filter, Sort, UniqueLabels, Rows, AllRows, NoDuplicates;
    var labels := UniqueLabels(sessions);
    var rows := Sidebar(sessions, expanded, folded, order);
    UniqueLabelsAreTheLabels(sessions);
    SavedThenNewIsPermutation(labels, order);
    forall x
      ensures multiset(rows)[x] <= multiset(sessions)[x]
      ensures x in sessions && x.cwdLabel !in folded && x.cwdLabel in expanded ==>
          multiset(rows)[x] == multiset(sessions)[x]
    {
      SidebarCount(sessions, expanded, folded, order, x);
    }
    if NoDuplicates(sessions) {
      forall x ensures multiset(rows)[x] <= 1 {
        NoDuplicatesCount(sessions, x);
      }
      NoDuplicatesFromCount(rows);
    }
  }

  lemma SidebarCount(
      sessions: seq<Session>, expanded: set<string>, folded: set<string>, order: seq<string>, x: Session)
    ensures var rows := Sidebar(sessions, expanded, folded, order);
      && multiset(rows)[x] <= multiset(sessions)[x]
      && (x in sessions && x.cwdLabel !in folded && x.cwdLabel in expanded ==>
          multiset(rows)[x] == multiset(sessions)[x])
  {
    hide Filter, Sort, UniqueLabels, AllRows, NoDuplicates;
    var labels := UniqueLabels(sessions);
    UniqueLabelsAreTheLabels(sessions);
    SavedThenNewIsPermutation(labels, order);
    RowsCount(sessions, SavedThenNew(labels, order), expanded, folded, x);
    RowsAreOfTheGroup(sessions, x.cwdLabel, expanded, folded);
    FilterMultiplicity(InGroup(x.cwdLabel), sessions, x);
    var group := Filter(InGroup(x.cwdLabel), sessions);
    assert multiset(Rows(sessions, x.cwdLabel, expanded, folded))[x] <= multiset(group)[x];
    if x.cwdLabel !in folded && x.cwdLabel in expanded {
      SortMultiset(WithinGroup, Filter(InGroup(x.cwdLabel), sessions));
    }
  }

  /** An open group shows its freshest sessions in order: six when cut, and none left out is fresher than one shown. */
  lemma ShownAreFreshest(sessions: seq<Session>, l: string, expanded: set<string>, folded: set<string>)
    requires l !in folded
    ensures var rows, group := Rows(sessions, l, expanded, folded), Filter(InGroup(l), sessions);
      && |rows| == (if l in expanded || |group| <= MAX_THREADS_PER_GROUP then |group| else MAX_THREADS_PER_GROUP)
      && (forall i, j :: 0 <= i < j < |rows| ==> !Fresher(rows[j], rows[i]))
      && exists hidden: seq<Session> ::
          && multiset(rows) + multiset(hidden) == multiset(group)
          && forall i, s :: 0 <= i < |rows| && s in hidden ==> !Fresher(s, rows[i])
  {
    var rows, group := Rows(sessions, l, expanded, folded), Filter(InGroup(l), sessions);
    SortMultiset(WithinGroup, group);
    hide Filter, Sort;
    var all := Sort(WithinGroup, group);
    var hidden := all[|rows|..];
    CmpWithinGroupIsTotal();
    SortSorts(WithinGroup, group);
    assert all == rows + hidden;
    forall i, s | 0 <= i < |rows| && s in hidden ensures !Fresher(s, rows[i]) {
      var k :| 0 <= k < |hidden| && hidden[k] == s;
      assert WithinGroup(all[i], all[|rows| + k]);
    }
  }
}
