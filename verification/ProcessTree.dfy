/** Searching the process tree of a pane for its foreground command (src/process/mod.rs). */
module ProcessTree {
  import opened Common
  import opened Order

  type Pid = nat

  /** The children of every process; nothing forbids a cycle. */
  type Children = Pid -> seq<Pid>

  const DEPTH_LIMIT := 5

  datatype Candidate = Candidate(depth: nat, pid: Pid)

  /** The processes reached from `root` in at most `n` steps. */
  ghost function Within(children: Children, root: Pid, n: nat): set<Pid> {
    if n == 0 then {root}
    else Within(children, root, n - 1) + Born(children, Within(children, root, n - 1))
  }

  ghost function Born(children: Children, parents: set<Pid>): set<Pid> {
    set p, c | p in parents && c in children(p) :: c
  }

  ghost predicate IsPath(children: Children, path: seq<Pid>) {
    path != [] && forall i :: 0 < i < |path| ==> path[i] in children(path[i - 1])
  }

  /** A path of at most `n` steps from `root` to `pid`. */
  ghost predicate Reaches(children: Children, root: Pid, n: nat, pid: Pid, path: seq<Pid>) {
    IsPath(children, path) && path[0] == root && path[|path| - 1] == pid && |path| - 1 <= n
  }

  /** `Within` is reachability by paths of at most `n` steps. */
  lemma WithinIsReachable(children: Children, root: Pid, n: nat, pid: Pid)
    ensures pid in Within(children, root, n) <==> exists path :: Reaches(children, root, n, pid, path)
  {
    hide Within, Reaches;
    if pid in Within(children, root, n) {
      var path := PathWithin(children, root, n, pid);
    }
    forall path | Reaches(children, root, n, pid, path) ensures pid in Within(children, root, n) {
      PathStaysWithin(children, root, n, pid, path);
    }
  }

  lemma {:induction false} PathWithin(children: Children, root: Pid, n: nat, pid: Pid) returns (path: seq<Pid>)
    requires pid in Within(children, root, n)
    ensures Reaches(children, root, n, pid, path)
  {
    if n == 0 {
      path := [root];
    } else if pid in Within(children, root, n - 1) {
      path := PathWithin(children, root, n - 1, pid);
    } else {
      var p :| p in Within(children, root, n - 1) && pid in children(p);
      hide Within;
      path := PathWithin(children, root, n - 1, p);
      path := path + [pid];
    }
  }

  lemma {:induction false} PathStaysWithin(children: Children, root: Pid, n: nat, pid: Pid, path: seq<Pid>)
    requires Reaches(children, root, n, pid, path)
    ensures pid in Within(children, root, n)
    decreases |path|
  {
    if |path| == 1 {
      RootIsWithin(children, root, n);
    } else {
      var init := path[..|path| - 1];
      PathStaysWithin(children, root, n - 1, init[|init| - 1], init);
      assert pid in children(init[|init| - 1]);
    }
  }

  lemma {:induction false} RootIsWithin(children: Children, root: Pid, n: nat)
    ensures root in Within(children, root, n)
  {
    if n > 0 {
      RootIsWithin(children, root, n - 1);
    }
  }

  /** The processes seen before level `d` begins. */
  ghost function Before(children: Children, root: Pid, d: nat): set<Pid> {
    if d == 0 then {} else Within(children, root, d - 1)
  }

  /** Each process once, at its shortest distance, levels in order. */
  ghost predicate Levels(children: Children, root: Pid, out: seq<Candidate>) {
    && (forall i :: 0 <= i < |out| ==>
          out[i].pid in Within(children, root, out[i].depth) && out[i].pid !in Before(children, root, out[i].depth))
    && (forall i, j :: 0 <= i < j < |out| ==> out[i].pid != out[j].pid && out[i].depth <= out[j].depth)
  }

  ghost predicate Lists(out: seq<Candidate>, pids: set<Pid>) {
    && (forall i :: 0 <= i < |out| ==> out[i].pid in pids)
    && forall p :: p in pids ==> exists i :: 0 <= i < |out| && out[i].pid == p
  }

  // ---------------------------------------------------------------- the breadth-first listing

  /** `queue` without repeats and without what was seen. */
  function Fresh(queue: seq<Pid>, seen: set<Pid>): seq<Pid> {
    if queue == [] then []
    else if queue[0] in seen then Fresh(queue[1..], seen)
    else [queue[0]] + Fresh(queue[1..], seen + {queue[0]})
  }

  /** The children of all `parents`, in order. */
  function Kids(children: Children, parents: seq<Pid>): seq<Pid> {
    if parents == [] then [] else Kids(children, parents[..|parents| - 1]) + children(parents[|parents| - 1])
  }

  /** The processes at distance `d`, in the order of their parents. */
  ghost function Level(children: Children, root: Pid, d: nat): seq<Pid> {
    if d == 0 then [root] else Fresh(Kids(children, Level(children, root, d - 1)), Within(children, root, d - 1))
  }

  function Row(depth: nat, pids: seq<Pid>): (r: seq<Candidate>)
    ensures |r| == |pids| && forall i :: 0 <= i < |r| ==> r[i] == Candidate(depth, pids[i])
  {
    seq(|pids|, i requires 0 <= i < |pids| => Candidate(depth, pids[i]))
  }

  /** The first `n` levels. */
  ghost function Listing(children: Children, root: Pid, n: nat): seq<Candidate> {
    if n == 0 then [] else Listing(children, root, n - 1) + Row(n - 1, Level(children, root, n - 1))
  }

  function Set(s: seq<Pid>): set<Pid> {
    set p | p in s
  }

  lemma {:induction false} FreshMembers(queue: seq<Pid>, seen: set<Pid>)
    ensures Set(Fresh(queue, seen)) == Set(queue) - seen && NoDuplicates(Fresh(queue, seen))
  {
    hide NoDuplicates;
    if queue != [] {
      SetOfCons(queue[0], queue[1..]);
      assert queue == [queue[0]] + queue[1..];
      if queue[0] in seen {
        FreshMembers(queue[1..], seen);
      } else {
        var rest := Fresh(queue[1..], seen + {queue[0]});
        FreshMembers(queue[1..], seen + {queue[0]});
        SetOfCons(queue[0], rest);
        assert queue[0] !in Set(rest);
        OneIsDistinct(queue[0]);
        NoDuplicatesConcat([queue[0]], rest);
      }
    } else {
      NoneAreDistinct();
    }
  }

  lemma OneIsDistinct(p: Pid)
    ensures NoDuplicates([p])
  {
  }

  lemma NoneAreDistinct()
    ensures NoDuplicates<Pid>([])
  {
  }

  lemma SetOfCons(p: Pid, s: seq<Pid>)
    ensures Set([p] + s) == {p} + Set(s)
  {
  }

  lemma SetOfConcat(s: seq<Pid>, t: seq<Pid>)
    ensures Set(s + t) == Set(s) + Set(t)
  {
  }

  lemma {:induction false} KidsMembers(children: Children, parents: seq<Pid>)
    ensures Set(Kids(children, parents)) == Born(children, Set(parents))
  {
    if parents != [] {
      var n := |parents| - 1;
      assert parents == parents[..n] + [parents[n]];
      KidsMembers(children, parents[..n]);
      hide Born, Set;
      SetOfConcat(Kids(children, parents[..n]), children(parents[n]));
      SetOfConcat(parents[..n], [parents[n]]);
      BornOneMore(children, Set(parents[..n]), parents[n]);
    } else {
      assert Set(Kids(children, parents)) == {};
    }
  }

  lemma BornOneMore(children: Children, parents: set<Pid>, p: Pid)
    ensures Born(children, parents + Set([p])) == Born(children, parents) + Set(children(p))
  {
  }

  /** A level holds the processes at exactly that distance. */
  lemma {:induction false} LevelMembers(children: Children, root: Pid, d: nat)
    ensures Set(Level(children, root, d)) == Within(children, root, d) - Before(children, root, d)
    ensures NoDuplicates(Level(children, root, d))
  {
    if d == 0 {
      OneIsDistinct(root);
    } else {
      var above := Level(children, root, d - 1);
      LevelMembers(children, root, d - 1);
      KidsMembers(children, above);
      FreshMembers(Kids(children, above), Within(children, root, d - 1));
      BornOfLevel(children, root, d, Set(above));
      BeforeIsWithin(children, root, d);
      assert Level(children, root, d) == Fresh(Kids(children, above), Within(children, root, d - 1));
      hide Level, Within, Before, Set, Born, Fresh, NoDuplicates;
    }
  }

  lemma BornOfLevel(children: Children, root: Pid, d: nat, above: set<Pid>)
    requires d > 0 && above == Within(children, root, d - 1) - Before(children, root, d - 1)
    ensures Born(children, above) - Within(children, root, d - 1)
        == Within(children, root, d) - Within(children, root, d - 1)
  {
    var inner, before := Within(children, root, d - 1), Before(children, root, d - 1);
    assert forall c :: c in Born(children, before) ==> c in inner;
    assert forall c ::
        c in Born(children, inner) <==> c in Born(children, above) || c in Born(children, inner * before);
  }

  /** The listing holds each process within reach once, with its shortest distance, nearer ones first. */
  lemma {:induction false} ListingIsShortestFirst(children: Children, root: Pid, n: nat)
    ensures Levels(children, root, Listing(children, root, n))
    ensures Lists(Listing(children, root, n), Before(children, root, n))
    ensures forall i :: 0 <= i < |Listing(children, root, n)| ==> Listing(children, root, n)[i].depth < n
  {
    hide Levels, Lists, Within, Level, Set, NoDuplicates, Listing, Before;
    if n > 0 {
      ListingOneMore(children, root, n - 1);
      BeforeIsWithin(children, root, n);
      ListingIsShortestFirst(children, root, n - 1);
      LevelMembers(children, root, n - 1);
      OneLevelMore(children, root, n - 1, Listing(children, root, n - 1), Level(children, root, n - 1));
    } else {
      EmptyListing(children, root);
    }
  }

  lemma EmptyListing(children: Children, root: Pid)
    ensures Listing(children, root, 0) == [] && Levels(children, root, []) && Lists([], Before(children, root, 0))
  {
  }

  lemma ListingOneMore(children: Children, root: Pid, n: nat)
    ensures Listing(children, root, n + 1) == Listing(children, root, n) + Row(n, Level(children, root, n))
  {
  }

  lemma OneLevelMore(children: Children, root: Pid, d: nat, out: seq<Candidate>, level: seq<Pid>)
    requires Levels(children, root, out) && Lists(out, Before(children, root, d))
    requires forall i :: 0 <= i < |out| ==> out[i].depth < d
    requires Set(level) == Within(children, root, d) - Before(children, root, d) && NoDuplicates(level)
    ensures Levels(children, root, out + Row(d, level)) && Lists(out + Row(d, level), Within(children, root, d))
    ensures forall i :: 0 <= i < |out + Row(d, level)| ==> (out + Row(d, level))[i].depth < d + 1
  {
    BeforeGrows(children, root, d);
    hide Within, Before;
    assert forall i :: 0 <= i < |level| ==> level[i] in Set(level);
    RowLists(d, level);
    ListsConcat(out, Row(d, level), Before(children, root, d), Set(level));
    assert Before(children, root, d) + Set(level) == Within(children, root, d);
  }

  lemma BeforeGrows(children: Children, root: Pid, d: nat)
    ensures Before(children, root, d) <= Within(children, root, d)
  {
  }

  lemma RowLists(d: nat, pids: seq<Pid>)
    ensures Lists(Row(d, pids), Set(pids))
  {
    forall p | p in Set(pids) ensures exists i :: 0 <= i < |pids| && Row(d, pids)[i].pid == p {
      var i :| 0 <= i < |pids| && pids[i] == p;
      assert Row(d, pids)[i].pid == p;
    }
  }

  lemma ListsConcat(a: seq<Candidate>, b: seq<Candidate>, p: set<Pid>, q: set<Pid>)
    requires Lists(a, p) && Lists(b, q)
    ensures Lists(a + b, p + q)
  {
    forall x | x in p + q ensures exists i :: 0 <= i < |a + b| && (a + b)[i].pid == x {
      if x in p {
        var i :| 0 <= i < |a| && a[i].pid == x;
        assert (a + b)[i].pid == x;
      } else {
        var i :| 0 <= i < |b| && b[i].pid == x;
        assert (a + b)[|a| + i].pid == x;
      }
    }
  }

  // ---------------------------------------------------------------- the order within a level

  /** The first place of `x` among the children of `parents`: child `c` of parent `p`. */
  ghost predicate FirstChild(children: Children, parents: seq<Pid>, x: Pid, p: nat, c: nat) {
    && p < |parents| && c < |children(parents[p])| && children(parents[p])[c] == x
    && (forall e :: 0 <= e < c ==> children(parents[p])[e] != x)
    && forall q :: 0 <= q < p ==> x !in children(parents[q])
  }

  /** `a` is the index of the first `x`. */
  ghost predicate FirstIn(s: seq<Pid>, x: Pid, a: nat) {
    a < |s| && s[a] == x && forall i :: 0 <= i < a ==> s[i] != x
  }

  /** What is fresh keeps the order of first places. */
  lemma {:induction false} FreshInOrder(queue: seq<Pid>, seen: set<Pid>, i: nat, j: nat, a: nat, b: nat)
    requires i < j < |Fresh(queue, seen)|
    requires FirstIn(queue, Fresh(queue, seen)[i], a) && FirstIn(queue, Fresh(queue, seen)[j], b)
    ensures a < b
    decreases |queue|
  {
    var found := Fresh(queue, seen);
    FreshMembers(queue, seen);
    assert found[i] in found && found[j] in found && found[i] != found[j];
    assert found[i] in Set(found) && found[j] in Set(found);
    hide Fresh, NoDuplicates, Set;
    FreshTail(queue, seen);
    if queue[0] in seen || i > 0 {
      var skip := if queue[0] in seen then 0 else 1;
      assert queue[0] != found[i] && queue[0] != found[j] by {
        HeadIsElsewhere(queue, seen, i, j);
      }
      var seen' := if queue[0] in seen then seen else seen + {queue[0]};
      FreshInOrder(queue[1..], seen', i - skip, j - skip, a - 1, b - 1);
    }
  }

  lemma FreshTail(queue: seq<Pid>, seen: set<Pid>)
    requires queue != []
    ensures Fresh(queue, seen) ==
        if queue[0] in seen then Fresh(queue[1..], seen) else [queue[0]] + Fresh(queue[1..], seen + {queue[0]})
  {
  }

  lemma HeadIsElsewhere(queue: seq<Pid>, seen: set<Pid>, i: nat, j: nat)
    requires i < j < |Fresh(queue, seen)| && queue != [] && (queue[0] in seen || i > 0)
    ensures queue[0] != Fresh(queue, seen)[i] && queue[0] != Fresh(queue, seen)[j]
  {
    FreshMembers(queue, seen);
    FreshTail(queue, seen);
    var all := Fresh(queue, seen);
    hide Fresh;
    if queue[0] in seen {
      InSet(all, i);
      InSet(all, j);
    } else {
      assert all[0] == queue[0];
    }
  }

  lemma InSet(s: seq<Pid>, i: nat)
    requires i < |s|
    ensures s[i] in Set(s)
  {
  }

  /** Where the children of parent `p` begin among all children. */
  ghost function Offset(children: Children, parents: seq<Pid>, p: nat): nat
    requires p <= |parents|
  {
    |Kids(children, parents[..p])|
  }

  lemma {:induction false} KidsPrefix(children: Children, parents: seq<Pid>, p: nat)
    requires p <= |parents|
    ensures Kids(children, parents[..p]) <= Kids(children, parents)
    decreases |parents|
  {
    if p == |parents| {
      assert parents[..p] == parents;
    } else {
      var n := |parents| - 1;
      assert parents[..n][..p] == parents[..p];
      KidsPrefix(children, parents[..n], p);
    }
  }

  lemma KidsAt(children: Children, parents: seq<Pid>, p: nat)
    requires p < |parents|
    ensures Offset(children, parents, p + 1) == Offset(children, parents, p) + |children(parents[p])|
    ensures Offset(children, parents, p + 1) <= |Kids(children, parents)|
    ensures forall c :: 0 <= c < |children(parents[p])| ==>
        Kids(children, parents)[Offset(children, parents, p) + c] == children(parents[p])[c]
  {
    hide Kids;
    KidsOneMore(children, parents, p);
    KidsPrefix(children, parents, p + 1);
    Middle(Kids(children, parents[..p]), children(parents[p]), Kids(children, parents));
  }

  lemma Middle(a: seq<Pid>, b: seq<Pid>, all: seq<Pid>)
    requires a + b <= all
    ensures |a| + |b| <= |all| && forall c :: 0 <= c < |b| ==> all[|a| + c] == b[c]
  {
    forall c | 0 <= c < |b| ensures all[|a| + c] == b[c] {
      assert all[|a| + c] == (a + b)[|a| + c];
    }
  }

  lemma KidsOneMore(children: Children, parents: seq<Pid>, p: nat)
    requires p < |parents|
    ensures Kids(children, parents[..p + 1]) == Kids(children, parents[..p]) + children(parents[p])
  {
    assert parents[..p + 1][..p] == parents[..p];
  }

  lemma {:induction false} OffsetsGrow(children: Children, parents: seq<Pid>, p: nat, q: nat)
    requires p <= q <= |parents|
    ensures Offset(children, parents, p) <= Offset(children, parents, q)
    decreases q
  {
    if p < q {
      KidsAt(children, parents, q - 1);
      OffsetsGrow(children, parents, p, q - 1);
    }
  }

  lemma {:induction false} NotAmongEarlierKids(children: Children, parents: seq<Pid>, x: Pid, p: nat)
    requires p <= |parents| && forall q :: 0 <= q < p ==> x !in children(parents[q])
    ensures x !in Kids(children, parents[..p])
    decreases p
  {
    if p > 0 {
      assert parents[..p][..p - 1] == parents[..p - 1];
      NotAmongEarlierKids(children, parents, x, p - 1);
    }
  }

  lemma FirstChildIsFirst(children: Children, parents: seq<Pid>, x: Pid, p: nat, c: nat)
    requires FirstChild(children, parents, x, p, c)
    ensures FirstIn(Kids(children, parents), x, Offset(children, parents, p) + c)
  {
    hide Kids;
    var kids, before, off := Kids(children, parents), Kids(children, parents[..p]), Offset(children, parents, p);
    KidsAt(children, parents, p);
    KidsPrefix(children, parents, p);
    NotAmongEarlierKids(children, parents, x, p);
    forall i | 0 <= i < off + c ensures kids[i] != x {
      if i >= off {
        assert kids[off + (i - off)] == children(parents[p])[i - off];
      } else {
        assert kids[i] == before[i] && before[i] in before;
      }
    }
  }

  /**
    Within a level, processes stand in the order of their first parents, and siblings in the order of their listing.
  */
  lemma LevelsFollowParents(
      children: Children, root: Pid, d: nat, i: nat, j: nat, p: nat, c: nat, q: nat, e: nat)
    requires i < j < |Level(children, root, d + 1)|
    requires FirstChild(children, Level(children, root, d), Level(children, root, d + 1)[i], p, c)
    requires FirstChild(children, Level(children, root, d), Level(children, root, d + 1)[j], q, e)
    ensures p < q || (p == q && c < e)
  {
    var parents := Level(children, root, d);
    var kids, reach := Kids(children, parents), Within(children, root, d);
    assert Level(children, root, d + 1) == Fresh(kids, reach);
    hide Level, Within, Fresh;
    FirstChildIsFirst(children, parents, Fresh(kids, reach)[i], p, c);
    FirstChildIsFirst(children, parents, Fresh(kids, reach)[j], q, e);
    hide Kids, FirstIn, Offset;
    FreshInOrder(kids, reach, i, j, Offset(children, parents, p) + c, Offset(children, parents, q) + e);
    if q < p {
      KidsAt(children, parents, q);
      OffsetsGrow(children, parents, q + 1, p);
    }
  }

  // ---------------------------------------------------------------- the search

  function NotIn(seen: set<Pid>): Pid -> bool {
    c => c !in seen
  }

  function Unseen(kids: seq<Pid>, seen: set<Pid>): seq<Pid> {
    Filter(NotIn(seen), kids)
  }

  /** The children not yet seen are queued behind `queue`. */
  method QueueUnseen(kids: seq<Pid>, seen: set<Pid>, queue: seq<Pid>) returns (next: seq<Pid>)
    ensures next == queue + Unseen(kids, seen)
  {
    next := queue;
    for j := 0 to |kids|
      invariant next == queue + Unseen(kids[..j], seen)
    {
      UnseenOneMore(kids, j, seen);
      if kids[j] !in seen {
        next := next + [kids[j]];
      }
    }
    assert kids[..|kids|] == kids;
  }

  lemma UnseenOneMore(kids: seq<Pid>, j: nat, seen: set<Pid>)
    requires j < |kids|
    ensures Unseen(kids[..j + 1], seen) == Unseen(kids[..j], seen) + if kids[j] in seen then [] else [kids[j]]
  {
    assert kids[..j + 1] == kids[..j] + [kids[j]];
    FilterAppends(NotIn(seen), kids[..j], [kids[j]]);
    FilterFirst(NotIn(seen), [kids[j]]);
    FilterEmpty(NotIn(seen));
    assert [kids[j]][1..] == [];
  }

  /**
    The search lists exactly the processes at distance 0 to 4, each once, with its shortest distance, nearer ones
    first and otherwise in the order of their parents, whatever cycles there are.
  */
  method PaneProcessCandidates(children: Children, panePid: Pid) returns (out: seq<Candidate>)
    ensures out == Listing(children, panePid, DEPTH_LIMIT)
    ensures Levels(children, panePid, out) && Lists(out, Within(children, panePid, DEPTH_LIMIT - 1))
  {
    hide Levels, Lists, Fresh, Kids, Within, Before, Unseen, Set, Level;
    out := [];
    var seen: set<Pid> := {};
    var frontier := [panePid];
    var depth := 0;
    FirstLevel(children, panePid);
    while frontier != [] && depth < DEPTH_LIMIT
      invariant depth <= DEPTH_LIMIT && seen == Before(children, panePid, depth)
      invariant out == Listing(children, panePid, depth)
      invariant Fresh(frontier, seen) == Level(children, panePid, depth)
      decreases DEPTH_LIMIT - depth
    {
      var next: seq<Pid> := [];
      ghost var start, before, level := out, seen, Level(children, panePid, depth);
      ghost var reach, visited: seq<Pid> := before + Set(level), [];
      NothingVisited(children, reach, before);
      assert frontier[0..] == frontier;
      for k := 0 to |frontier|
        invariant visited + Fresh(frontier[k..], seen) == level
        invariant seen == before + Set(visited)
        invariant out == start + Row(depth, visited)
        invariant Fresh(next, reach) == Fresh(Kids(children, visited), reach)
      {
        var pid := frontier[k];
        FreshStep(frontier, k, seen);
        if pid in seen {
          continue;
        }
        var queue := next;
        VisitOne(children, level, visited, pid, Fresh(frontier[k + 1..], seen + {pid}), before);
        seen := seen + {pid};
        out := out + [Candidate(depth, pid)];
        assert Row(depth, visited + [pid]) == Row(depth, visited) + [Candidate(depth, pid)];
        next := QueueUnseen(children(pid), seen, queue);
        QueueMore(queue, Kids(children, visited), children(pid), seen, reach);
        visited := visited + [pid];
      }
      FreshOfNothing(frontier, seen);
      assert visited == level by {
        assert visited + [] == visited;
      }
      NextLevel(children, panePid, depth);
      frontier := next;
      depth := depth + 1;
    }
    if depth < DEPTH_LIMIT {
      FreshOfNothing(frontier, seen);
      ListingStops(children, panePid, depth, DEPTH_LIMIT);
    }
    ListingIsShortestFirst(children, panePid, DEPTH_LIMIT);
    BeforeIsWithin(children, panePid, DEPTH_LIMIT);
  }

  lemma BeforeIsWithin(children: Children, root: Pid, d: nat)
    requires d > 0
    ensures Before(children, root, d) == Within(children, root, d - 1)
  {
  }

  lemma FirstLevel(children: Children, root: Pid)
    ensures Before(children, root, 0) == {} && Fresh([root], {}) == Level(children, root, 0)
  {
  }

  lemma NothingVisited(children: Children, reach: set<Pid>, before: set<Pid>)
    ensures Fresh([], reach) == Fresh(Kids(children, []), reach) && before + Set([]) == before
  {
  }

  lemma FreshStep(queue: seq<Pid>, k: nat, seen: set<Pid>)
    requires k < |queue|
    ensures Fresh(queue[k..], seen) ==
        if queue[k] in seen then Fresh(queue[k + 1..], seen) else [queue[k]] + Fresh(queue[k + 1..], seen + {queue[k]})
  {
    assert queue[k..][0] == queue[k] && queue[k..][1..] == queue[k + 1..];
  }

  lemma FreshOfNothing(queue: seq<Pid>, seen: set<Pid>)
    ensures Fresh(queue[|queue|..], seen) == []
    ensures queue == [] ==> Fresh(queue, seen) == []
  {
  }

  lemma VisitOne(
      children: Children, level: seq<Pid>, visited: seq<Pid>, pid: Pid, rest: seq<Pid>, before: set<Pid>)
    requires visited + ([pid] + rest) == level
    ensures (visited + [pid]) + rest == level
    ensures before + Set(visited) + {pid} == before + Set(visited + [pid]) <= before + Set(level)
    ensures Kids(children, visited + [pid]) == Kids(children, visited) + children(pid)
  {
    assert (visited + [pid]) + rest == visited + ([pid] + rest);
    assert (visited + [pid])[..|visited|] == visited;
  }

  lemma {:induction false} FreshAppends(a: seq<Pid>, b: seq<Pid>, seen: set<Pid>)
    ensures Fresh(a + b, seen) == Fresh(a, seen) + Fresh(b, seen + Set(a))
  {
    hide Fresh;
    if a == [] {
      assert a + b == b && seen + Set(a) == seen;
      FreshOfNothing([], seen);
    } else {
      assert a == [a[0]] + a[1..] && a + b == [a[0]] + (a[1..] + b);
      FreshCons(a[0], a[1..], seen);
      FreshCons(a[0], a[1..] + b, seen);
      SetOfCons(a[0], a[1..]);
      var seen' := if a[0] in seen then seen else seen + {a[0]};
      assert seen' + Set(a[1..]) == seen + Set(a);
      FreshAppends(a[1..], b, seen');
    }
  }

  lemma FreshCons(p: Pid, s: seq<Pid>, seen: set<Pid>)
    ensures Fresh([p] + s, seen) == if p in seen then Fresh(s, seen) else [p] + Fresh(s, seen + {p})
  {
    assert ([p] + s)[1..] == s;
  }

  lemma {:induction false} FreshOfUnseen(kids: seq<Pid>, seen: set<Pid>, reach: set<Pid>)
    requires seen <= reach
    ensures Fresh(Unseen(kids, seen), reach) == Fresh(kids, reach)
  {
    if kids != [] {
      var rest := Unseen(kids[1..], seen);
      FilterFirst(NotIn(seen), kids);
      hide Fresh, Filter;
      assert kids == [kids[0]] + kids[1..] && [] + rest == rest;
      FreshCons(kids[0], kids[1..], reach);
      FreshCons(kids[0], rest, reach);
      FreshOfUnseen(kids[1..], seen, if kids[0] in reach then reach else reach + {kids[0]});
    }
  }

  /** Leaving out children already seen does not change what the next level will be. */
  lemma QueueMore(queue: seq<Pid>, all: seq<Pid>, kids: seq<Pid>, seen: set<Pid>, reach: set<Pid>)
    requires Fresh(queue, reach) == Fresh(all, reach) && seen <= reach
    ensures Fresh(queue + Unseen(kids, seen), reach) == Fresh(all + kids, reach)
  {
    hide Fresh, Unseen;
    FreshMembers(queue, reach);
    FreshMembers(all, reach);
    assert reach + Set(queue) == reach + (Set(queue) - reach) == reach + (Set(all) - reach) == reach + Set(all);
    FreshAppends(queue, Unseen(kids, seen), reach);
    FreshAppends(all, kids, reach);
    FreshOfUnseen(kids, seen, reach + Set(queue));
  }

  lemma NextLevel(children: Children, root: Pid, d: nat)
    ensures var level := Level(children, root, d);
      && Before(children, root, d) + Set(level) == Before(children, root, d + 1) == Within(children, root, d)
      && Level(children, root, d + 1) == Fresh(Kids(children, level), Within(children, root, d))
      && Listing(children, root, d + 1) == Listing(children, root, d) + Row(d, level)
  {
    LevelMembers(children, root, d);
    hide Fresh, Kids;
    assert Before(children, root, d) <= Within(children, root, d);
  }

  lemma {:induction false} ListingStops(children: Children, root: Pid, d: nat, n: nat)
    requires d <= n && Level(children, root, d) == []
    ensures Listing(children, root, n) == Listing(children, root, d)
    ensures n > d ==> Level(children, root, n - 1) == []
    decreases n
  {
    hide Level;
    if d < n {
      ListingStops(children, root, d, n - 1);
      if d < n - 1 {
        LevelStops(children, root, n - 2);
      }
      assert Row(n - 1, []) == [];
    }
  }

  lemma LevelStops(children: Children, root: Pid, d: nat)
    requires Level(children, root, d) == []
    ensures Level(children, root, d + 1) == []
  {
  }

  /** A candidate with its score, its depth and its command line. */
  datatype Scored = Scored(score: nat, depth: nat, command: string)

  ghost function Rated(command: Pid -> Option<string>, score: (Pid, string) -> nat, c: Candidate): Option<Scored> {
    match command(c.pid)
    case None => None
    case Some(line) =>
      if line == "" || score(c.pid, line) == 0 then None else Some(Scored(score(c.pid, line), c.depth, line))
  }

  /**
    `out[i]` is the first of the best rated candidates: none scores higher, none of the same score is nearer, none of
    the same score and depth has a longer command line, and none before it equals it in all three.
  */
  ghost predicate FirstBest(command: Pid -> Option<string>, score: (Pid, string) -> nat, out: seq<Candidate>, i: nat) {
    && i < |out| && Rated(command, score, out[i]).Some?
    && forall j :: 0 <= j < |out| && Rated(command, score, out[j]).Some? ==>
         var best, other := Rated(command, score, out[i]).value, Rated(command, score, out[j]).value;
         && other.score <= best.score
         && (other.score == best.score ==>
               && best.depth <= other.depth
               && (best.depth == other.depth ==>
                     |other.command| <= |best.command| && (j < i ==> |other.command| < |best.command|)))
  }

  /**
    The foreground command: none exactly when no process within four steps of the pane rates above zero, and
    otherwise that of the first optimum of the listing, by score, then nearness, then length of the command line.
  */
  method ResolveForegroundCommand(
      children: Children, panePid: Pid, command: Pid -> Option<string>, score: (Pid, string) -> nat)
    returns (best: Option<string>)
    ensures best.None? <==>
        forall d, p :: p in Within(children, panePid, DEPTH_LIMIT - 1) ==> Rated(command, score, Candidate(d, p)).None?
    ensures var out := Listing(children, panePid, DEPTH_LIMIT);
      best.Some? ==> exists i: nat :: FirstBest(command, score, out, i) && best == command(out[i].pid)
  {
    hide Levels, Lists, Within, Listing;
    var out := PaneProcessCandidates(children, panePid);
    var top: Option<Scored> := None;
    ghost var at := 0;
    for k := 0 to |out|
      invariant top.None? ==> forall j :: 0 <= j < k ==> Rated(command, score, out[j]).None?
      invariant top.Some? ==> FirstBest(command, score, out[..k], at) && top == Rated(command, score, out[at])
    {
      var line := command(out[k].pid);
      if line.None? || line.value == "" {
        continue;
      }
      var rank := score(out[k].pid, line.value);
      if rank == 0 {
        continue;
      }
      var better := match top
        case None => true
        case Some(best) =>
          if rank != best.score then rank > best.score
          else if out[k].depth != best.depth then out[k].depth < best.depth
          else |line.value| > |best.command|;
      if better {
        top := Some(Scored(rank, out[k].depth, line.value));
        at := k;
      }
    }
    assert out[..|out|] == out;
    NoneRated(command, score, out, Within(children, panePid, DEPTH_LIMIT - 1), top.None?);
    best := match top case None => None case Some(t) => Some(t.command);
  }

  lemma NoneRated(
      command: Pid -> Option<string>, score: (Pid, string) -> nat, out: seq<Candidate>, pids: set<Pid>, none: bool)
    requires Lists(out, pids)
    requires none <==> forall j :: 0 <= j < |out| ==> Rated(command, score, out[j]).None?
    ensures none <==> forall d, p :: p in pids ==> Rated(command, score, Candidate(d, p)).None?
  {
    if none {
      forall d, p | p in pids ensures Rated(command, score, Candidate(d, p)).None? {
        var j :| 0 <= j < |out| && out[j].pid == p;
        assert Rated(command, score, out[j]).None?;
      }
    } else {
      var j :| 0 <= j < |out| && !Rated(command, score, out[j]).None?;
      assert Rated(command, score, Candidate(out[j].depth, out[j].pid)).Some?;
    }
  }
}
