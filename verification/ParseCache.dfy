/**
  The cache of parsed agent logs (src/agents/parse_cache.rs): a map and an access order kept side by side.
  It refines a list of everything ever stored, in order of last use, of which it holds the newest 256.
*/
module ParseCache {
  import opened Common

  const MAX_CACHE_ENTRIES := 256

  datatype FileVersion = FileVersion(path: string, len: nat, mtimeMs: nat)

  ghost predicate Distinct<T>(s: seq<T>) {
    forall i, j :: 0 <= i < j < |s| ==> s[i] != s[j]
  }

  function RemoveFirst<T(==)>(s: seq<T>, x: T): seq<T> {
    if s == [] then [] else if s[0] == x then s[1..] else [s[0]] + RemoveFirst(s[1..], x)
  }

  function ToEnd<T(==)>(s: seq<T>, x: T): seq<T> { RemoveFirst(s, x) + [x] }

  function Newest<T>(s: seq<T>): seq<T> {
    if |s| <= MAX_CACHE_ENTRIES then s else s[|s| - MAX_CACHE_ENTRIES..]
  }

  /** Everything ever stored, least recently used first, and the value last stored for each. */
  datatype History<V> = History(recency: seq<FileVersion>, stored: map<FileVersion, V>)

  predicate Hits<V>(h: History<V>, version: FileVersion) { version in Newest(h.recency) }

  function LookedUp<V>(h: History<V>, version: FileVersion): History<V> {
    if Hits(h, version) then h.(recency := ToEnd(h.recency, version)) else h
  }

  function Stored<V>(h: History<V>, version: FileVersion, value: V): History<V> {
    History(ToEnd(h.recency, version), h.stored[version := value])
  }

  ghost predicate SameElements<T(!new)>(s: seq<T>, keys: set<T>) {
    forall x :: x in s <==> x in keys
  }

  /** The map and order of a cache hold the newest part of a history. */
  ghost predicate Represents<V>(h: History<V>, order: seq<FileVersion>, cached: map<FileVersion, V>) {
    && Distinct(h.recency) && SameElements(h.recency, h.stored.Keys)
    && order == Newest(h.recency) && SameElements(order, cached.Keys)
    && (forall k :: k in cached ==> k in h.stored && cached[k] == h.stored[k])
  }

  class ParseCache<V> {
    var cached: map<FileVersion, V>
    /** Index 0 is least recently used. */
    var order: seq<FileVersion>
    ghost var history: History<V>

    ghost predicate Valid()
      reads this
    {
      Represents(history, order, cached)
    }

    constructor ()
      ensures Valid() && history == History([], map[])
    {
      cached, order, history := map[], [], History([], map[]);
    }

    method Clear()
      modifies this
      ensures Valid() && history == History([], map[])
    {
      cached, order, history := map[], [], History([], map[]);
    }

    method Touch(version: FileVersion)
      modifies this`order
      ensures order == if version in old(order) then ToEnd(old(order), version) else old(order)
    {
      var pos := 0;
      while pos < |order| && order[pos] != version
        invariant pos <= |order| && order == old(order) && version !in order[..pos]
      {
        pos := pos + 1;
      }
      if pos < |order| {
        RemoveFirstAt(order, pos);
        var key := order[pos];
        order := order[..pos] + order[pos + 1..];
        order := order + [key];
      }
    }

    /** A lookup returns the value last stored for the version if it is among the newest, and makes it the newest. */
    method Get(version: FileVersion) returns (value: Option<V>)
      requires Valid()
      modifies this
      ensures Valid() && history == LookedUp(old(history), version)
      ensures value == if Hits(old(history), version) then Some(old(history).stored[version]) else None
    {
      hide Newest, RemoveFirst, Distinct;
      if version in cached {
        TouchRepresents(history, order, cached, version, cached[version]);
        Touch(version);
        history := LookedUp(history, version);
        value := Some(cached[version]);
      } else {
        value := None;
      }
    }

    /** Storing makes the version the newest; the map never outgrows its limit. */
    method Insert(version: FileVersion, value: V)
      requires Valid()
      modifies this
      ensures Valid() && history == Stored(old(history), version, value)
      ensures |cached| <= MAX_CACHE_ENTRIES
    {
      hide Represents, RemoveFirst;
      ghost var h, order0, cached0 := history, order, cached;
      if version in cached {
        TouchRepresents(h, order, cached, version, value);
        cached := cached[version := value];
        Touch(version);
        history := Stored(h, version, value);
        CachedCount(history, order, cached);
        return;
      }
      CachedCount(h, order, cached);
      while |cached| >= MAX_CACHE_ENTRIES
        invariant history == h && |cached| == |order|
        invariant |cached| <= MAX_CACHE_ENTRIES
        invariant |cached| == MAX_CACHE_ENTRIES ==> order == order0 && cached == cached0
        invariant |cached| < MAX_CACHE_ENTRIES ==> order == Room(order0) && cached == Kept(order0, cached0)
        decreases |cached|
      {
        EvictOne();
        EvictedOne(h, order0, cached0);
      }
      AppendRepresents(h, order0, cached0, version, value);
      order := order + [version];
      cached := cached[version := value];
      history := Stored(h, version, value);
      CachedCount(history, order, cached);
    }

    method EvictOne()
      modifies this`cached, this`order
      ensures order == (if old(order) == [] then [] else old(order)[1..])
      ensures cached == (if old(order) == [] then old(cached) else old(cached) - {old(order)[0]})
    {
      if order != [] {
        var oldest := order[0];
        order := order[1..];
        cached := cached - {oldest};
      }
    }
  }

  // ---------------------------------------------------------------- recency lists

  lemma {:induction false} RemoveFirstAt<T>(s: seq<T>, pos: nat)
    requires pos < |s| && s[pos] !in s[..pos]
    ensures RemoveFirst(s, s[pos]) == s[..pos] + s[pos + 1..]
    decreases pos
  {
    if pos > 0 {
      assert s[0] == s[..pos][0];
      assert s[1..][..pos - 1] == s[..pos][1..];
      RemoveFirstAt(s[1..], pos - 1);
    }
  }

  lemma {:induction false} RemoveFromConcat<T>(a: seq<T>, b: seq<T>, x: T)
    ensures RemoveFirst(a + b, x) == if x in a then RemoveFirst(a, x) + b else a + RemoveFirst(b, x)
    decreases a
  {
    if a == [] {
      assert a + b == b;
      assert a + RemoveFirst(b, x) == RemoveFirst(b, x);
    } else {
      var tail := a[1..];
      assert (a + b)[0] == a[0] && (a + b)[1..] == tail + b;
      if a[0] != x {
        RemoveFromConcat(tail, b, x);
        assert a == [a[0]] + tail;
        assert [a[0]] + (RemoveFirst(tail, x) + b) == ([a[0]] + RemoveFirst(tail, x)) + b;
        assert [a[0]] + (tail + RemoveFirst(b, x)) == a + RemoveFirst(b, x);
      }
    }
  }

  lemma {:induction false} RemoveAbsent<T>(s: seq<T>, x: T)
    requires x !in s
    ensures RemoveFirst(s, x) == s
  {
    if s != [] {
      RemoveAbsent(s[1..], x);
    }
  }

  lemma RemoveFirstMeans<T>(s: seq<T>, x: T)
    requires Distinct(s)
    ensures Distinct(RemoveFirst(s, x)) && x !in RemoveFirst(s, x)
    ensures forall y :: y in RemoveFirst(s, x) <==> y in s && y != x
    ensures |RemoveFirst(s, x)| == if x in s then |s| - 1 else |s|
    ensures x !in s ==> RemoveFirst(s, x) == s
  {
    hide RemoveFirst;
    if x in s {
      var pos :| 0 <= pos < |s| && s[pos] == x;
      RemoveFirstAt(s, pos);
      assert s == s[..pos] + [x] + s[pos + 1..];
    } else {
      RemoveAbsent(s, x);
    }
  }

  lemma NewestOfConcat<T>(a: seq<T>, b: seq<T>)
    requires |b| == MAX_CACHE_ENTRIES || (a == [] && |b| <= MAX_CACHE_ENTRIES)
    ensures Newest(a + b) == b
  {
  }

  lemma SplitNewest<T>(s: seq<T>) returns (older: seq<T>)
    ensures s == older + Newest(s) && (|Newest(s)| == MAX_CACHE_ENTRIES || older == [])
    ensures Distinct(s) ==> Distinct(older) && Distinct(Newest(s)) && forall x :: x in older ==> x !in Newest(s)
  {
    older := s[..|s| - |Newest(s)|];
  }

  /** Moving one of the newest to the end keeps the newest together. */
  lemma TouchedIsNewest<T>(s: seq<T>, x: T)
    requires Distinct(s) && x in Newest(s)
    ensures ToEnd(Newest(s), x) == Newest(ToEnd(s, x))
  {
    hide RemoveFirst, Newest;
    var older := SplitNewest(s);
    RemoveFromConcat(older, Newest(s), x);
    RemoveFirstMeans(Newest(s), x);
    assert ToEnd(s, x) == older + ToEnd(Newest(s), x);
    NewestIsShort(s);
    NewestOfConcat(older, ToEnd(Newest(s), x));
  }

  /** The newest with the oldest dropped, if another would be one too many. */
  function Room<T>(newest: seq<T>): seq<T> {
    if |newest| == MAX_CACHE_ENTRIES then newest[1..] else newest
  }

  /** Storing something not among the newest pushes out the oldest of them, once there are enough. */
  lemma AppendedIsNewest<T>(s: seq<T>, x: T)
    requires Distinct(s) && x !in Newest(s)
    ensures Room(Newest(s)) + [x] == Newest(ToEnd(s, x))
  {
    hide RemoveFirst, Newest;
    var older := SplitNewest(s);
    var newest := Newest(s);
    RemoveFromConcat(older, newest, x);
    RemoveFirstMeans(newest, x);
    RemoveFirstMeans(older, x);
    if |newest| == MAX_CACHE_ENTRIES {
      var rest := RemoveFirst(older, x) + [newest[0]];
      assert ToEnd(s, x) == rest + (newest[1..] + [x]);
      NewestOfConcat(rest, newest[1..] + [x]);
    } else {
      assert ToEnd(s, x) == [] + (newest + [x]);
      NewestIsShort(s);
      NewestOfConcat([], newest + [x]);
    }
  }

  lemma NewestIsShort<T>(s: seq<T>)
    ensures |Newest(s)| <= MAX_CACHE_ENTRIES
  {
  }

  lemma ToEndKeeps<T>(s: seq<T>, x: T)
    requires Distinct(s)
    ensures Distinct(ToEnd(s, x)) && forall y :: y in ToEnd(s, x) <==> y in s || y == x
  {
    RemoveFirstMeans(s, x);
  }

  // ---------------------------------------------------------------- the cache

  lemma TouchRepresents<V>(
      h: History<V>, order: seq<FileVersion>, cached: map<FileVersion, V>, version: FileVersion, value: V)
    requires Represents(h, order, cached) && version in cached
    ensures version in order
    ensures Represents(Stored(h, version, value), ToEnd(order, version), cached[version := value])
    ensures cached[version] == value ==>
        Stored(h, version, value) == LookedUp(h, version) && cached[version := value] == cached
  {
    hide RemoveFirst, Newest;
    assert version in order;
    SplitElements(h.recency);
    TouchedIsNewest(h.recency, version);
    ToEndKeeps(h.recency, version);
    ToEndKeeps(order, version);
  }

  lemma SplitElements<T>(s: seq<T>)
    requires Distinct(s)
    ensures Distinct(Newest(s)) && forall x :: x in Newest(s) ==> x in s
  {
    var older := SplitNewest(s);
  }

  lemma KeptElements<V>(order: seq<FileVersion>, cached: map<FileVersion, V>)
    requires Distinct(order) && SameElements(order, cached.Keys)
    ensures SameElements(Room(order), Kept(order, cached).Keys)
    ensures forall k :: k in Kept(order, cached) ==> k in cached && Kept(order, cached)[k] == cached[k]
  {
    assert order == (if |order| == MAX_CACHE_ENTRIES then [order[0]] else []) + Room(order);
  }

  lemma AppendRepresents<V>(
      h: History<V>, order: seq<FileVersion>, cached: map<FileVersion, V>, version: FileVersion, value: V)
    requires Represents(h, order, cached) && version !in cached
    ensures Represents(Stored(h, version, value), Room(order) + [version], Kept(order, cached)[version := value])
  {
    hide RemoveFirst, Newest, Distinct, Kept, Room;
    assert version !in order;
    SplitElements(h.recency);
    AppendedIsNewest(h.recency, version);
    ToEndKeeps(h.recency, version);
    KeptElements(order, cached);
  }

  function Kept<V>(order: seq<FileVersion>, cached: map<FileVersion, V>): map<FileVersion, V> {
    if |order| == MAX_CACHE_ENTRIES then cached - {order[0]} else cached
  }

  lemma EvictedOne<V>(h: History<V>, order: seq<FileVersion>, cached: map<FileVersion, V>)
    requires Represents(h, order, cached)
    ensures |order| == MAX_CACHE_ENTRIES ==> |Kept(order, cached)| == MAX_CACHE_ENTRIES - 1
  {
    if |order| == MAX_CACHE_ENTRIES {
      CachedCount(h, order, cached);
      assert order[0] in cached;
      assert Kept(order, cached).Keys == cached.Keys - {order[0]};
    }
  }

  lemma {:induction false} DistinctCount<T(!new)>(s: seq<T>, keys: set<T>)
    requires Distinct(s) && SameElements(s, keys)
    ensures |keys| == |s|
    decreases |s|
  {
    if s == [] {
      assert keys == {};
    } else {
      var rest, last := s[..|s| - 1], s[|s| - 1];
      assert s == rest + [last];
      DistinctCount(rest, keys - {last});
    }
  }

  lemma CachedCount<V>(h: History<V>, order: seq<FileVersion>, cached: map<FileVersion, V>)
    requires Represents(h, order, cached)
    ensures |cached| == |order| <= MAX_CACHE_ENTRIES
  {
    SplitElements(h.recency);
    DistinctCount(order, cached.Keys);
  }

  // ---------------------------------------------------------------- what the cache returns

  datatype Operation<V> = Lookup(version: FileVersion) | Store(version: FileVersion, value: V)

  function Replay<V>(ops: seq<Operation<V>>): History<V> {
    if ops == [] then History([], map[])
    else
      var h := Replay(ops[..|ops| - 1]);
      match ops[|ops| - 1]
      case Lookup(version) => LookedUp(h, version)
      case Store(version, value) => Stored(h, version, value)
  }

  function LastStored<V>(ops: seq<Operation<V>>, version: FileVersion): Option<V> {
    if ops == [] then None
    else
      var last := ops[|ops| - 1];
      if last.Store? && last.version == version then Some(last.value) else LastStored(ops[..|ops| - 1], version)
  }

  /** However lookups and stores are mixed, the value behind a version is the last one stored for it. */
  lemma {:induction false} ReplayedValuesAreLastStored<V>(ops: seq<Operation<V>>, version: FileVersion)
    ensures var h := Replay(ops);
      (if version in h.stored then Some(h.stored[version]) else None) == LastStored(ops, version)
  {
    if ops != [] {
      ReplayedValuesAreLastStored(ops[..|ops| - 1], version);
    }
  }

  /**
    A version stays cached while fewer than 256 other versions have been used since: uses of other versions move it one
    place at most.
  */
  lemma UseAgesByOne<V>(h: History<V>, version: FileVersion, other: FileVersion, value: V)
    requires Distinct(h.recency) && version in h.recency && other != version
    ensures Age(Stored(h, other, value).recency, version) <= Age(h.recency, version) + 1
    ensures Age(LookedUp(h, other).recency, version) <= Age(h.recency, version) + 1
    ensures Hits(h, version) <==> Age(h.recency, version) < MAX_CACHE_ENTRIES
    ensures Age(Stored(h, version, value).recency, version) == 0
  {
    AgeMeans(h.recency, version);
    AgeAfterUse(h.recency, version, other);
    AgeOfNewest(RemoveFirst(h.recency, version), version);
  }

  /** How many versions have been used since, in a list that is oldest first. */
  function Age<T(==)>(s: seq<T>, x: T): nat {
    if s == [] || s[|s| - 1] == x then 0 else 1 + Age(s[..|s| - 1], x)
  }

  lemma AgeOfNewest<T>(s: seq<T>, x: T)
    ensures Age(s + [x], x) == 0
  {
  }

  lemma {:induction false} AgeMeans<T>(s: seq<T>, x: T)
    requires Distinct(s) && x in s
    ensures Age(s, x) < |s| && s[|s| - 1 - Age(s, x)] == x
    ensures x in Newest(s) <==> Age(s, x) < MAX_CACHE_ENTRIES
  {
    AgeIsPlace(s, x);
    var place := |s| - 1 - Age(s, x);
    if Age(s, x) < MAX_CACHE_ENTRIES {
      assert Newest(s)[place - (|s| - |Newest(s)|)] == x;
    }
  }

  lemma {:induction false} AgeIsPlace<T>(s: seq<T>, x: T)
    requires x in s
    ensures Age(s, x) < |s| && s[|s| - 1 - Age(s, x)] == x
  {
    if s[|s| - 1] != x {
      assert s == s[..|s| - 1] + [s[|s| - 1]];
      AgeIsPlace(s[..|s| - 1], x);
    }
  }

  lemma AgeAfterUse<T>(s: seq<T>, x: T, other: T)
    requires Distinct(s) && x in s && other != x
    ensures Age(ToEnd(s, other), x) <= Age(s, x) + 1
  {
    assert ToEnd(s, other)[..|ToEnd(s, other)| - 1] == RemoveFirst(s, other);
    AgeAfterRemoval(s, x, other);
  }

  lemma {:induction false} AgeAfterRemoval<T>(s: seq<T>, x: T, other: T)
    requires Distinct(s) && x in s && other != x
    ensures Age(RemoveFirst(s, other), x) <= Age(s, x)
  {
    hide RemoveFirst;
    var init, last := s[..|s| - 1], s[|s| - 1];
    assert s == init + [last];
    RemoveFromConcat(init, [last], other);
    SingletonRemoval(last, other);
    if last == x {
      AgeOfNewest(RemoveFirst(init, other), x);
    } else {
      AgeAfterRemoval(init, x, other);
      if other in init {
        assert (RemoveFirst(init, other) + [last])[..|RemoveFirst(init, other)|] == RemoveFirst(init, other);
      } else {
        RemoveAbsent(init, other);
        assert init + [] == init;
      }
    }
  }

  lemma SingletonRemoval<T>(last: T, x: T)
    ensures RemoveFirst([last], x) == if last == x then [] else [last]
  {
  }

  /** Every cached value encodes what parsing its version yields. */
  ghost predicate Faithful<V, T>(h: History<V>, parse: FileVersion -> Option<T>, encode: T -> Option<V>) {
    forall k :: k in h.stored ==> parse(k).Some? && encode(parse(k).value) == Some(h.stored[k])
  }

  /** The value decoded from the cache, if the version is among the newest and its value decodes. */
  ghost function Replayed<V, T>(h: History<V>, version: Option<FileVersion>, decode: V -> Option<T>): Option<T> {
    if version.Some? && Hits(h, version.value) && version.value in h.stored then
      decode(h.stored[version.value])
    else None
  }

  /**
    The file may change between the lookup, the read and the store: `lookup` and `store` are its versions then, if any,
    and `read` is that of the content parsed. Without a replay the result is what parsing gives, or nothing when there
    is no version to store it under or it does not encode. The cache stays faithful exactly when what is stored is what
    parsing the version it is stored under would give, so always when the file did not change.
  */
  method CachedJsonlParse<V, T(!new)>(
      cache: ParseCache<V>, lookup: Option<FileVersion>, read: FileVersion, store: Option<FileVersion>,
      parse: FileVersion -> Option<T>, encode: T -> Option<V>, decode: V -> Option<T>)
    returns (result: Option<T>)
    requires cache.Valid() && Faithful(cache.history, parse, encode)
    requires forall t :: encode(t).Some? && decode(encode(t).value).Some? ==> decode(encode(t).value) == Some(t)
    modifies cache
    ensures cache.Valid()
    ensures var replayed := Replayed(old(cache.history), lookup, decode);
      result ==
        if replayed.Some? then parse(lookup.value)
        else if parse(read).None? || store.None? || encode(parse(read).value).None? then None
        else parse(read)
    ensures var h := if lookup.Some? then LookedUp(old(cache.history), lookup.value) else old(cache.history);
      cache.history ==
        if Replayed(old(cache.history), lookup, decode).Some? || result.None? then h
        else Stored(h, store.value, encode(result.value).value)
    ensures Faithful(cache.history, parse, encode) <==>
        || Replayed(old(cache.history), lookup, decode).Some? || result.None?
        || (parse(store.value).Some? && encode(parse(store.value).value) == encode(result.value))
  {
    hide Newest;
    ghost var h := cache.history;
    if lookup.Some? {
      HitsAreStored(h, lookup.value);
      var encoded := cache.Get(lookup.value);
      if encoded.Some? && decode(encoded.value).Some? {
        return decode(encoded.value);
      }
    }
    var parsed := parse(read);
    if parsed.None? || store.None? || encode(parsed.value).None? {
      return None;
    }
    ghost var before := cache.history;
    cache.Insert(store.value, encode(parsed.value).value);
    result := parsed;
    StoredIsFaithful(before, store.value, encode(parsed.value).value, parse, encode);
  }

  lemma HitsAreStored<V>(h: History<V>, version: FileVersion)
    requires Distinct(h.recency) && SameElements(h.recency, h.stored.Keys)
    ensures Hits(h, version) ==> version in h.stored
  {
    SplitElements(h.recency);
  }

  lemma StoredIsFaithful<V, T>(
      h: History<V>, version: FileVersion, value: V, parse: FileVersion -> Option<T>, encode: T -> Option<V>)
    requires Faithful(h, parse, encode)
    ensures Faithful(Stored(h, version, value), parse, encode) <==>
        parse(version).Some? && encode(parse(version).value) == Some(value)
  {
  }
}
