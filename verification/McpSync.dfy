/**
  Reconciling agent configurations with the MCP server inventory and the enablement matrix
  (src/mcp/sync.rs, inventory.rs, local.rs, types.rs and the adapters in src/mcp/adapters).
  The inventory is itself rebuilt from the configurations that a sync writes.
*/
module McpSync {
  import opened Common

  // ---------------------------------------------------------------- what a configuration file holds

  /** A field of a server table: missing, of an unusable type, a string, or an array of strings. */
  datatype Field = Absent | Junk | Text(s: string) | List(items: seq<string>)

  /** One value under the servers key. TOML also has inline tables, which its editor does not take for tables. */
  datatype Raw = Table(url: Field, command: Field, enabled: Option<bool>, inlined: bool) | NotATable

  datatype Adapter = Toml | Claude | OpenCode

  datatype File = Unreadable | Readable(servers: map<string, Raw>, writable: bool)

  datatype Agent = Agent(id: string, adapter: Adapter, file: File)

  /** A server entry as its adapter reads it. */
  datatype Entry = Entry(url: Option<string>, command: Option<string>, enabled: bool)

  predicate IsHttp(e: Entry) { e.url.Some? && e.url.value != "" }
  predicate IsStdio(e: Entry) { e.command.Some? && e.command.value != "" }

  function NonEmpty(f: Field): Option<string> {
    if f.Text? && f.s != "" then Some(f.s) else None
  }

  function CommandOf(adapter: Adapter, f: Field): Option<string> {
    if adapter == OpenCode && f.List? && f.items != [] then Some(f.items[0]) else NonEmpty(f)
  }

  function ReadEntry(adapter: Adapter, raw: Option<Raw>): Option<Entry> {
    if raw.None? || raw.value.NotATable? then None
    else
      var t := raw.value;
      Some(Entry(NonEmpty(t.url), CommandOf(adapter, t.command),
                 if adapter == Claude || t.enabled.None? then true else t.enabled.value))
  }

  // ---------------------------------------------------------------- inventory and matrix

  datatype Source = Gateway(connectUrl: string) | LocalOnly(command: string)

  type Inventory = map<string, Source>

  type Matrix = map<string, map<string, bool>>

  function EnabledOr(m: Matrix, key: string, agent: string, default: bool): bool {
    if key in m && agent in m[key] then m[key][agent] else default
  }

  function Get<T>(m: map<string, T>, key: string): Option<T> {
    if key in m then Some(m[key]) else None
  }

  function EntryFor(a: Agent, key: string): Option<Entry> {
    if a.file.Unreadable? then None else ReadEntry(a.adapter, Get(a.file.servers, key))
  }

  /** Stdio entries without a URL make a local server known. */
  function LocalCommand(a: Agent, key: string): Option<string> {
    var e := EntryFor(a, key);
    if e.Some? && IsStdio(e.value) && !IsHttp(e.value) then e.value.command else None
  }

  /** The first agent to hold a local server decides its command. */
  function FirstLocal(agents: seq<Agent>, key: string): Option<string> {
    if agents == [] then None else LocalCommand(agents[0], key).Or(FirstLocal(agents[1..], key))
  }

  function AllKeys(agents: seq<Agent>): set<string> {
    if agents == [] then {}
    else (if agents[0].file.Readable? then agents[0].file.servers.Keys else {}) + AllKeys(agents[1..])
  }

  /** Gateway servers win over local ones of the same key. */
  function ListInventory(agents: seq<Agent>, obot: map<string, string>): Inventory {
    map key | key in obot.Keys + AllKeys(agents) && (key in obot || FirstLocal(agents, key).Some?) ::
      if key in obot then Gateway(obot[key]) else LocalOnly(FirstLocal(agents, key).value)
  }

  /** The first agent, in order, with a stdio entry for the key decides. */
  lemma {:induction false} FirstLocalIsFirst(agents: seq<Agent>, key: string)
    ensures FirstLocal(agents, key).Some? ==> exists i :: DecidesLocal(agents, key, i)
    ensures FirstLocal(agents, key).None? ==> forall i :: 0 <= i < |agents| ==> LocalCommand(agents[i], key).None?
  {
    if agents != [] {
      hide LocalCommand;
      FirstLocalIsFirst(agents[1..], key);
      if LocalCommand(agents[0], key).Some? {
        assert DecidesLocal(agents, key, 0);
      } else if FirstLocal(agents[1..], key).Some? {
        var i: nat :| DecidesLocal(agents[1..], key, i);
        assert forall j :: 0 < j <= i ==> agents[j] == agents[1..][j - 1];
        assert DecidesLocal(agents, key, i + 1);
      }
      assert forall j :: 0 < j < |agents| ==> agents[j] == agents[1..][j - 1];
    }
  }

  ghost predicate DecidesLocal(agents: seq<Agent>, key: string, i: nat) {
    && i < |agents| && LocalCommand(agents[i], key).Some? && FirstLocal(agents, key) == LocalCommand(agents[i], key)
    && forall j :: 0 <= j < i ==> LocalCommand(agents[j], key).None?
  }

  method DiscoverLocalOnlyWith(agents: seq<Agent>) returns (byKey: map<string, string>)
    ensures forall key :: Get(byKey, key) == FirstLocal(agents, key)
  {
    byKey := map[];
    assert agents[..0] == [];
    for i := 0 to |agents|
      invariant forall key :: Get(byKey, key) == FirstLocal(agents[..i], key)
    {
      var a := agents[i];
      assert agents[..i + 1] == agents[..i] + [a];
      forall key ensures FirstLocal(agents[..i + 1], key) == FirstLocal(agents[..i], key).Or(LocalCommand(a, key)) {
        FirstLocalSnoc(agents[..i], a, key);
      }
      if a.file.Unreadable? {
        continue;
      }
      ghost var before := byKey;
      var todo := a.file.servers.Keys;
      while todo != {}
        invariant todo <= a.file.servers.Keys
        invariant forall key ::
            Get(byKey, key) == if key in todo then Get(before, key) else Get(before, key).Or(LocalCommand(a, key))
        decreases todo
      {
        var key :| key in todo;
        todo := todo - {key};
        var e := EntryFor(a, key);
        if e.Some? && IsStdio(e.value) && !IsHttp(e.value) && key !in byKey {
          byKey := byKey[key := e.value.command.value];
        }
      }
    }
    assert agents[..|agents|] == agents;
  }

  lemma {:induction false} FirstLocalSnoc(agents: seq<Agent>, a: Agent, key: string)
    ensures FirstLocal(agents + [a], key) == FirstLocal(agents, key).Or(LocalCommand(a, key))
  {
    if agents != [] {
      assert (agents + [a])[1..] == agents[1..] + [a];
      FirstLocalSnoc(agents[1..], a, key);
    }
  }

  lemma {:induction false} FirstLocalIsKnown(agents: seq<Agent>, key: string)
    ensures FirstLocal(agents, key).Some? ==> key in AllKeys(agents)
    ensures FirstLocal(agents, key).Some? <==> exists i :: 0 <= i < |agents| && LocalCommand(agents[i], key).Some?
    ensures FirstLocal(agents, key).Some? ==> FirstLocal(agents, key).value != ""
  {
    if agents != [] {
      FirstLocalIsKnown(agents[1..], key);
      assert forall i :: 0 < i < |agents| ==> agents[i] == agents[1..][i - 1];
    }
  }

  method ListInventoryWith(agents: seq<Agent>, obot: map<string, string>) returns (inventory: Inventory)
    ensures inventory == ListInventory(agents, obot)
    ensures forall key :: key in obot ==> Get(inventory, key) == Some(Gateway(obot[key]))
    ensures forall key :: key !in obot ==>
        Get(inventory, key) ==
          match FirstLocal(agents, key) case None => None case Some(command) => Some(LocalOnly(command))
  {
    var local := DiscoverLocalOnlyWith(agents);
    var gateways: Inventory := map key | key in obot :: Gateway(obot[key]);
    inventory := gateways;
    var todo := local.Keys;
    while todo != {}
      invariant todo <= local.Keys
      invariant forall key ::
          Get(inventory, key) == if key in obot then Some(Gateway(obot[key]))
                                 else if key in local && key !in todo then Some(LocalOnly(local[key])) else None
      decreases todo
    {
      var key :| key in todo;
      todo := todo - {key};
      if key !in inventory {
        inventory := inventory[key := LocalOnly(local[key])];
      }
    }
    forall key ensures Get(inventory, key) == Get(ListInventory(agents, obot), key) {
      assert Get(local, key) == FirstLocal(agents, key);
      FirstLocalIsKnown(agents, key);
    }
    SameMap(inventory, ListInventory(agents, obot));
  }

  lemma SameMap<T>(a: map<string, T>, b: map<string, T>)
    requires forall key :: Get(a, key) == Get(b, key)
    ensures a == b
  {
    forall key ensures key in a <==> key in b {
      assert Get(a, key) == Get(b, key);
    }
    forall key | key in a ensures a[key] == b[key] {
      assert Get(a, key) == Get(b, key);
    }
  }

  // ---------------------------------------------------------------- planning

  datatype SyncAction = Upsert | Remove | Skip

  function TrimSlashes(url: string): string {
    if url != "" && url[|url| - 1] == '/' then TrimSlashes(url[..|url| - 1]) else url
  }

  predicate SameUrl(a: string, b: string) { TrimSlashes(a) == TrimSlashes(b) }

  function PlanAction(source: Source, enabled: bool, current: Option<Entry>): SyncAction {
    match (enabled, current)
    case (false, None) => Skip
    case (false, Some(_)) => Remove
    case (true, None) => Upsert
    case (true, Some(e)) =>
      match source
      case Gateway(url) => if e.url.Some? && SameUrl(e.url.value, url) && e.enabled then Skip else Upsert
      case LocalOnly(_) => if IsStdio(e) && e.enabled then Skip else Upsert
  }

  function Enabled(a: Agent, m: Matrix, key: string): bool {
    EnabledOr(m, key, a.id, EntryFor(a, key).Some?)
  }

  function Plan(a: Agent, inventory: Inventory, m: Matrix, key: string): SyncAction
    requires key in inventory
  {
    PlanAction(inventory[key], Enabled(a, m, key), EntryFor(a, key))
  }

  // ---------------------------------------------------------------- merging into a configuration

  datatype Desired = Disabled | Http(url: string) | Stdio(command: string)

  function DesiredEntry(source: Source, enabled: bool): Desired {
    if !enabled then Disabled
    else match source
      case Gateway(url) => Http(url)
      case LocalOnly(command) => Stdio(command)
  }

  const FreshTable := Table(Absent, Absent, None, false)

  /** What `write_merge` makes of one server's value. */
  function Merged(adapter: Adapter, raw: Option<Raw>, d: Desired): Option<Raw> {
    if d.Disabled? then None
    else match adapter
      case Toml =>
        var t := if raw.Some? && raw.value.Table? && !raw.value.inlined then raw.value else FreshTable;
        (match d
         case Http(url) => Some(t.(url := Text(url), command := Absent, enabled := Some(true)))
         case Stdio(command) =>
           Some(t.(command := if t.command.Absent? then Text(command) else t.command, enabled := Some(true))))
      case Claude =>
        (match d
         case Http(url) => Some(FreshTable.(url := Text(url)))
         case Stdio(command) =>
           var t := if raw.Some? && raw.value.Table? then raw.value else FreshTable;
           Some(t.(command := if t.command.Absent? then Text(command) else t.command)))
      case OpenCode =>
        (match d
         case Http(url) => Some(FreshTable.(url := Text(url), enabled := Some(true)))
         case Stdio(command) =>
           if raw.Some? && raw.value.Table? then Some(raw.value.(enabled := Some(true)))
           else Some(FreshTable.(command := List([command]), enabled := Some(true))))
  }

  function Put(servers: map<string, Raw>, key: string, raw: Option<Raw>): map<string, Raw> {
    if raw.Some? then servers[key := raw.value] else servers - {key}
  }

  method WriteMerge(adapter: Adapter, servers0: map<string, Raw>, desired: map<string, Desired>)
    returns (servers: map<string, Raw>)
    ensures forall key ::
        Get(servers, key) ==
          if key in desired then Merged(adapter, Get(servers0, key), desired[key]) else Get(servers0, key)
  {
    servers := servers0;
    var todo := desired.Keys;
    while todo != {}
      invariant todo <= desired.Keys
      invariant forall key ::
          Get(servers, key) == if key in desired && key !in todo then Merged(adapter, Get(servers0, key), desired[key])
                               else Get(servers0, key)
      decreases todo
    {
      var key :| key in todo;
      todo := todo - {key};
      assert Get(servers, key) == Get(servers0, key);
      servers := Put(servers, key, Merged(adapter, Get(servers, key), desired[key]));
    }
  }

  // ---------------------------------------------------------------- a sync

  datatype Change = Change(agent: string, key: string, action: SyncAction)

  /** What a sync leaves under a key of a readable, writable configuration. */
  function NewRaw(a: Agent, inventory: Inventory, m: Matrix, key: string): Option<Raw>
    requires a.file.Readable?
  {
    var raw := Get(a.file.servers, key);
    if key in inventory && Plan(a, inventory, m, key) != Skip
    then Merged(a.adapter, raw, DesiredEntry(inventory[key], Enabled(a, m, key)))
    else raw
  }

  function Synced(a: Agent, inventory: Inventory, m: Matrix): Agent {
    if a.file.Unreadable? || !a.file.writable then a
    else
      var servers := map key | key in a.file.servers.Keys + inventory.Keys && NewRaw(a, inventory, m, key).Some? ::
        NewRaw(a, inventory, m, key).value;
      a.(file := Readable(servers, true))
  }

  function NeedsWrite(a: Agent, inventory: Inventory, m: Matrix): bool {
    exists key :: key in inventory && Plan(a, inventory, m, key) != Skip
  }

  /** The agents a sync reports an error for. */
  predicate Fails(a: Agent, inventory: Inventory, m: Matrix, dryRun: bool) {
    a.file.Unreadable? || (!dryRun && !a.file.writable && NeedsWrite(a, inventory, m))
  }

  /** What a sync reports for one agent: an action for every server of the inventory. */
  function ChangesOf(a: Agent, inventory: Inventory, m: Matrix): set<Change> {
    if a.file.Unreadable? then {} else set key | key in inventory :: Change(a.id, key, Plan(a, inventory, m, key))
  }

  function AllChanges(agents: seq<Agent>, inventory: Inventory, m: Matrix): set<Change> {
    if agents == [] then {}
    else AllChanges(agents[..|agents| - 1], inventory, m) + ChangesOf(agents[|agents| - 1], inventory, m)
  }

  function Failing(agents: seq<Agent>, inventory: Inventory, m: Matrix, dryRun: bool): seq<string> {
    if agents == [] then []
    else
      var last := agents[|agents| - 1];
      Failing(agents[..|agents| - 1], inventory, m, dryRun)
          + (if Fails(last, inventory, m, dryRun) then [last.id] else [])
  }

  lemma SyncedHas(a: Agent, inventory: Inventory, m: Matrix, key: string)
    requires a.file.Readable? && a.file.writable
    ensures Get(Synced(a, inventory, m).file.servers, key) == NewRaw(a, inventory, m, key)
  {
  }

  /** With nothing to write a sync changes nothing. */
  lemma NothingToWrite(a: Agent, inventory: Inventory, m: Matrix)
    requires !NeedsWrite(a, inventory, m)
    ensures Synced(a, inventory, m) == a
  {
    if a.file.Readable? && a.file.writable {
      forall key ensures Get(Synced(a, inventory, m).file.servers, key) == Get(a.file.servers, key) {
        SyncedHas(a, inventory, m, key);
      }
      SameMap(Synced(a, inventory, m).file.servers, a.file.servers);
    }
  }

  method SyncAgent(a: Agent, inventory: Inventory, m: Matrix, dryRun: bool)
    returns (a': Agent, changes: set<Change>, failed: bool)
    ensures a' == if dryRun then a else Synced(a, inventory, m)
    ensures failed == Fails(a, inventory, m, dryRun)
    ensures changes == ChangesOf(a, inventory, m)
  {
    a', changes := a, {};
    if a.file.Unreadable? {
      return a, {}, true;
    }
    var desired: map<string, Desired> := map[];
    var todo := inventory.Keys;
    while todo != {}
      invariant todo <= inventory.Keys
      invariant changes == set key | key in inventory && key !in todo :: Change(a.id, key, Plan(a, inventory, m, key))
      invariant forall key :: key in desired <==> key in inventory && key !in todo && Plan(a, inventory, m, key) != Skip
      invariant forall key :: key in desired ==> desired[key] == DesiredEntry(inventory[key], Enabled(a, m, key))
      decreases todo
    {
      var key :| key in todo;
      todo := todo - {key};
      var enabled := EnabledOr(m, key, a.id, EntryFor(a, key).Some?);
      var action := PlanAction(inventory[key], enabled, EntryFor(a, key));
      changes := changes + {Change(a.id, key, action)};
      if action != Skip {
        desired := desired[key := DesiredEntry(inventory[key], enabled)];
      }
    }
    var needsWrite := desired != map[];
    assert needsWrite == NeedsWrite(a, inventory, m) by {
      if needsWrite {
        var key :| key in desired;
      }
    }
    failed := false;
    if !needsWrite {
      NothingToWrite(a, inventory, m);
    }
    if needsWrite && !dryRun {
      if !a.file.writable {
        failed := true;
      } else {
        var servers := WriteMerge(a.adapter, a.file.servers, desired);
        a' := a.(file := Readable(servers, true));
        forall key ensures Get(servers, key) == Get(Synced(a, inventory, m).file.servers, key) {
          SyncedHas(a, inventory, m, key);
        }
        SameMap(servers, Synced(a, inventory, m).file.servers);
      }
    }
  }

  /**
    The planned actions do what they say to a configuration that can be written: Remove takes a server away that is on
    file and not wanted; Upsert leaves one there that is wanted, a gateway with exactly its URL, a new local server with
    its command; Skip changes nothing.
  */
  lemma ActionsDoWhatTheySay(a: Agent, inventory: Inventory, m: Matrix, key: string)
    requires key in inventory && a.file.Readable? && a.file.writable
    ensures var action, servers := Plan(a, inventory, m, key), Synced(a, inventory, m).file.servers;
            var before, after := EntryFor(a, key), EntryFor(Synced(a, inventory, m), key);
      && (action == Remove <==> before.Some? && !Enabled(a, m, key))
      && (action == Upsert ==> Enabled(a, m, key))
      && (action == Remove ==> key !in servers)
      && (action == Skip ==> Get(servers, key) == Get(a.file.servers, key))
      && (action == Upsert && inventory[key].Gateway? && inventory[key].connectUrl != "" ==>
            after == Some(Entry(Some(inventory[key].connectUrl), None, true)))
      && (action == Upsert && inventory[key].LocalOnly? && inventory[key].command != "" && key !in a.file.servers ==>
            after == Some(Entry(None, Some(inventory[key].command), true)))
      && (action == Upsert && inventory[key].LocalOnly? ==> key in servers && after.Some? && after.value.enabled)
  {
    hide TrimSlashes;
    SyncedHas(a, inventory, m, key);
  }

  /** Where the matrix says nothing, a server is wanted exactly where it is: it is neither removed nor added. */
  lemma UnmentionedStays(a: Agent, inventory: Inventory, m: Matrix, key: string)
    requires key in inventory && !(key in m && a.id in m[key])
    ensures Plan(a, inventory, m, key) != Remove
    ensures EntryFor(a, key).None? ==> Plan(a, inventory, m, key) == Skip
  {
  }

  class Home {
    var agents: seq<Agent>

    /** Each agent's plan is made from its own configuration, before that is written. */
    method ApplySyncWith(inventory: Inventory, m: Matrix, dryRun: bool)
      returns (changes: set<Change>, errors: seq<string>)
      modifies this
      ensures agents == if dryRun then old(agents) else SyncAll(old(agents), inventory, m)
      ensures changes == AllChanges(old(agents), inventory, m)
      ensures errors == Failing(old(agents), inventory, m, dryRun)
    {
      hide ChangesOf, Fails, Synced;
      changes, errors := {}, [];
      assert agents[..0] == [];
      for i := 0 to |agents|
        invariant |agents| == |old(agents)|
        invariant forall k :: i <= k < |agents| ==> agents[k] == old(agents)[k]
        invariant forall k :: 0 <= k < i ==>
            agents[k] == if dryRun then old(agents)[k] else Synced(old(agents)[k], inventory, m)
        invariant changes == AllChanges(old(agents)[..i], inventory, m)
        invariant errors == Failing(old(agents)[..i], inventory, m, dryRun)
      {
        assert old(agents)[..i + 1][..i] == old(agents)[..i];
        var a, planned, failed := SyncAgent(agents[i], inventory, m, dryRun);
        changes := changes + planned;
        if failed {
          errors := errors + [agents[i].id];
        }
        agents := agents[i := a];
      }
      assert old(agents)[..|agents|] == old(agents);
    }
  }

  function SyncAll(agents: seq<Agent>, inventory: Inventory, m: Matrix): seq<Agent> {
    seq(|agents|, i requires 0 <= i < |agents| => Synced(agents[i], inventory, m))
  }

  // ---------------------------------------------------------------- drift

  datatype DriftKind = Missing | DisabledButPresent | UrlMismatch | ShapeMismatch

  datatype DriftItem = DriftItem(agent: string, key: string, kind: DriftKind)

  function DriftOf(source: Source, enabled: bool, current: Option<Entry>): Option<DriftKind> {
    match (enabled, current)
    case (true, None) => Some(Missing)
    case (false, Some(_)) => Some(DisabledButPresent)
    case (false, None) => None
    case (true, Some(e)) =>
      match source
      case LocalOnly(_) => None
      case Gateway(url) =>
        if e.url.Some? then (if SameUrl(e.url.value, url) then None else Some(UrlMismatch))
        else if IsStdio(e) then Some(ShapeMismatch)
        else Some(Missing)
  }

  /** Drift takes an unreadable configuration for an empty one. */
  function Drift(a: Agent, inventory: Inventory, m: Matrix, key: string): Option<DriftKind>
    requires key in inventory
  {
    DriftOf(inventory[key], Enabled(a, m, key), EntryFor(a, key))
  }

  function DriftOfAgent(a: Agent, inventory: Inventory, m: Matrix): set<DriftItem> {
    set key | key in inventory && Drift(a, inventory, m, key).Some? ::
      DriftItem(a.id, key, Drift(a, inventory, m, key).value)
  }

  function AllDrift(agents: seq<Agent>, inventory: Inventory, m: Matrix): set<DriftItem> {
    if agents == [] then {}
    else AllDrift(agents[..|agents| - 1], inventory, m) + DriftOfAgent(agents[|agents| - 1], inventory, m)
  }

  /** What each kind of drift says of the planned action and the entry on file. */
  predicate DriftsAs(a: Agent, inventory: Inventory, m: Matrix, key: string, kind: DriftKind)
    requires key in inventory
  {
    var action, entry := Plan(a, inventory, m, key), EntryFor(a, key);
    match kind
    case DisabledButPresent => action == Remove
    case Missing =>
      action == Upsert && (entry.None? || (inventory[key].Gateway? && entry.value.url.None? && !IsStdio(entry.value)))
    case UrlMismatch =>
      && action == Upsert && entry.Some? && inventory[key].Gateway? && entry.value.url.Some?
      && !SameUrl(entry.value.url.value, inventory[key].connectUrl)
    case ShapeMismatch =>
      action == Upsert && entry.Some? && inventory[key].Gateway? && entry.value.url.None? && IsStdio(entry.value)
  }

  lemma DriftKindsMean(a: Agent, inventory: Inventory, m: Matrix, key: string, kind: DriftKind)
    requires key in inventory
    ensures Drift(a, inventory, m, key) == Some(kind) <==> DriftsAs(a, inventory, m, key, kind)
  {
    hide TrimSlashes;
  }

  ghost predicate SomeAgentDrifts(agents: seq<Agent>, inventory: Inventory, m: Matrix, item: DriftItem) {
    item.key in inventory &&
    exists i ::
      0 <= i < |agents| && agents[i].id == item.agent && DriftsAs(agents[i], inventory, m, item.key, item.kind)
  }

  lemma {:induction false} AllDriftMeans(agents: seq<Agent>, inventory: Inventory, m: Matrix, item: DriftItem)
    ensures item in AllDrift(agents, inventory, m) <==>
        SomeAgentDrifts(agents, inventory, m, item)
  {
    hide Drift, DriftsAs;
    if agents != [] {
      var n := |agents| - 1;
      AllDriftMeans(agents[..n], inventory, m, item);
      if item.key in inventory {
        DriftKindsMean(agents[n], inventory, m, item.key, item.kind);
      }
      assert item in DriftOfAgent(agents[n], inventory, m) <==>
          item.key in inventory && agents[n].id == item.agent && DriftsAs(agents[n], inventory, m, item.key, item.kind);
      forall i | 0 <= i < n ensures agents[i] == agents[..n][i] {
      }
    }
  }

  method DetectDriftWith(agents: seq<Agent>, inventory: Inventory, m: Matrix) returns (drift: set<DriftItem>)
    ensures drift == AllDrift(agents, inventory, m)
    ensures forall item :: item in drift <==>
        SomeAgentDrifts(agents, inventory, m, item)
  {
    forall item
      ensures item in AllDrift(agents, inventory, m) <==>
          SomeAgentDrifts(agents, inventory, m, item)
    {
      AllDriftMeans(agents, inventory, m, item);
    }
    hide SomeAgentDrifts;
    drift := {};
    assert agents[..0] == [];
    for i := 0 to |agents|
      invariant drift == AllDrift(agents[..i], inventory, m)
    {
      assert agents[..i + 1][..i] == agents[..i];
      var a, todo := agents[i], inventory.Keys;
      ghost var before := drift;
      while todo != {}
        invariant todo <= inventory.Keys
        invariant drift == before + set key | key in inventory && key !in todo && Drift(a, inventory, m, key).Some? ::
            DriftItem(a.id, key, Drift(a, inventory, m, key).value)
        decreases todo
      {
        var key :| key in todo;
        todo := todo - {key};
        var enabled := EnabledOr(m, key, a.id, EntryFor(a, key).Some?);
        match DriftOf(inventory[key], enabled, EntryFor(a, key))
        case None =>
        case Some(kind) => drift := drift + {DriftItem(a.id, key, kind)};
      }
      assert drift == before + DriftOfAgent(a, inventory, m);
    }
    assert agents[..|agents|] == agents;
  }

  /** Present but switched off, or, for a local server, of any other shape: sync acts, drift is silent. */
  predicate SilentlyRepaired(source: Source, e: Entry) {
    match source
    case Gateway(url) => e.url.Some? && SameUrl(e.url.value, url) && !e.enabled
    case LocalOnly(_) => !(IsStdio(e) && e.enabled)
  }

  /** Everything that drifts is acted on by the next sync, and exactly the silent repairs are acted on without drift. */
  lemma DriftIsActedOn(a: Agent, inventory: Inventory, m: Matrix, key: string)
    requires key in inventory
    ensures Plan(a, inventory, m, key) != Skip <==>
        || Drift(a, inventory, m, key).Some?
        || (Enabled(a, m, key) && EntryFor(a, key).Some? && SilentlyRepaired(inventory[key], EntryFor(a, key).value))
    ensures Drift(a, inventory, m, key).Some? ==> Plan(a, inventory, m, key) != Skip
  {
  }

  // ---------------------------------------------------------------- one round is enough, and when it is not

  /** Gateway without a URL, or a local server over a table whose command the adapter neither uses nor replaces. */
  predicate Stuck(adapter: Adapter, raw: Option<Raw>, source: Source) {
    match source
    case Gateway(url) => url == ""
    case LocalOnly(_) =>
      raw.Some? && raw.value.Table? &&
      (match adapter
       case Toml => !raw.value.inlined && !raw.value.command.Absent? && NonEmpty(raw.value.command).None?
       case Claude => !raw.value.command.Absent? && NonEmpty(raw.value.command).None?
       case OpenCode => CommandOf(OpenCode, raw.value.command).Or(Some("")).value == "")
  }

  lemma SameUrlIsReflexive(url: string)
    ensures SameUrl(url, url)
  {
  }

  predicate SameSource(a: Source, b: Source) {
    match (a, b)
    case (Gateway(u), Gateway(v)) => u == v
    case (LocalOnly(_), LocalOnly(_)) => true
    case _ => false
  }

  /**
    One server of one configuration: the plan after the write is quiet unless the write is stuck, and writing again
    changes nothing.
  */
  lemma OneServerSettles(a: Agent, a': Agent, inv: Inventory, inv': Inventory, m: Matrix, key: string)
    requires a.file.Readable? && a.file.writable && a' == Synced(a, inv, m)
    requires key in inv && key in inv' && SameSource(inv[key], inv'[key])
    requires inv[key].LocalOnly? ==> inv[key].command != ""
    ensures Plan(a', inv', m, key) == Skip <==>
        Plan(a, inv, m, key) == Skip || !Enabled(a, m, key) || !Stuck(a.adapter, Get(a.file.servers, key), inv[key])
    ensures NewRaw(a', inv', m, key) == Get(a'.file.servers, key)
  {
    hide TrimSlashes;
    SyncedHas(a, inv, m, key);
    if inv[key].Gateway? {
      SameUrlIsReflexive(inv[key].connectUrl);
    }
  }

  /** Rebuilding the inventory after a sync finds no new server, and none that changed from gateway to local or back. */
  lemma RebuiltInventory(agents: seq<Agent>, obot: map<string, string>, m: Matrix, key: string)
    requires var inv := ListInventory(agents, obot); key in ListInventory(SyncAll(agents, inv, m), obot)
    ensures var inv := ListInventory(agents, obot); var inv' := ListInventory(SyncAll(agents, inv, m), obot);
      key in inv && SameSource(inv[key], inv'[key]) && (inv[key].LocalOnly? ==> inv[key].command != "")
  {
    hide Synced;
    var inv := ListInventory(agents, obot);
    var agents' := SyncAll(agents, inv, m);
    FirstLocalIsKnown(agents, key);
    FirstLocalIsKnown(agents', key);
    if key !in obot && key !in inv {
      var i :| 0 <= i < |agents'| && LocalCommand(agents'[i], key).Some?;
      UnlistedIsUntouched(agents[i], inv, m, key);
      assert false;
    }
  }

  /** A key outside the inventory keeps its value. */
  lemma UnlistedIsUntouched(a: Agent, inventory: Inventory, m: Matrix, key: string)
    requires key !in inventory
    ensures EntryFor(Synced(a, inventory, m), key) == EntryFor(a, key)
    ensures a.file.Readable? ==>
        Synced(a, inventory, m).file.Readable?
            && Get(Synced(a, inventory, m).file.servers, key) == Get(a.file.servers, key)
  {
    if a.file.Readable? && a.file.writable {
      SyncedHas(a, inventory, m, key);
    }
  }

  /**
    One round settles every configuration, though the inventory is rebuilt from what the round wrote: a second round
    changes nothing, and plans something only where the first could not write or where the write was stuck.
  */
  lemma OneRoundSettles(agents: seq<Agent>, obot: map<string, string>, m: Matrix, i: nat)
    requires i < |agents|
    ensures var inv := ListInventory(agents, obot);
            var agents' := SyncAll(agents, inv, m);
            var inv' := ListInventory(agents', obot);
      && Synced(agents'[i], inv', m) == agents'[i]
      && (agents[i].file.Readable? ==> forall key :: key in inv' ==>
            key in inv &&
            (Plan(agents'[i], inv', m, key) == Skip <==>
              || Plan(agents[i], inv, m, key) == Skip
              || (agents[i].file.writable
                  && (!Enabled(agents[i], m, key)
                      || !Stuck(agents[i].adapter, Get(agents[i].file.servers, key), inv[key])))))
  {
    hide Plan, Stuck, ListInventory, NewRaw;
    var inv := ListInventory(agents, obot);
    var agents' := SyncAll(agents, inv, m);
    var inv' := ListInventory(agents', obot);
    var a, a' := agents[i], agents'[i];
    if a.file.Readable? {
      forall key | key in inv'
        ensures key in inv
        ensures Plan(a', inv', m, key) == Skip <==>
            Plan(a, inv, m, key) == Skip
                || (a.file.writable && (!Enabled(a, m, key) || !Stuck(a.adapter, Get(a.file.servers, key), inv[key])))
        ensures a.file.writable ==> NewRaw(a', inv', m, key) == Get(a'.file.servers, key)
      {
        RebuiltInventory(agents, obot, m, key);
        if a.file.writable {
          OneServerSettles(a, a', inv, inv', m, key);
        } else {
          SameSourceSamePlan(a, inv, inv', m, key);
        }
      }
      if a.file.writable {
        forall key ensures Get(Synced(a', inv', m).file.servers, key) == Get(a'.file.servers, key) {
          SyncedHas(a', inv', m, key);
          if key !in inv' { UnlistedIsUntouched(a', inv', m, key); }
        }
        SameMap(Synced(a', inv', m).file.servers, a'.file.servers);
      }
    }
  }

  lemma SameSourceSamePlan(a: Agent, inv: Inventory, inv': Inventory, m: Matrix, key: string)
    requires key in inv && key in inv' && SameSource(inv[key], inv'[key])
    ensures Plan(a, inv, m, key) == Plan(a, inv', m, key)
  {
  }

  /**
    After a round, a configuration that can be read and written drifts on a server of the rebuilt inventory exactly
    when that is an enabled gateway without a URL that was not already in order; any other drifts as it did.
  */
  lemma DriftAfterARoundExactly(agents: seq<Agent>, obot: map<string, string>, m: Matrix, i: nat, key: string)
    requires i < |agents|
    requires var inv := ListInventory(agents, obot);
      key in ListInventory(SyncAll(agents, inv, m), obot)
    ensures var inv := ListInventory(agents, obot);
            var agents' := SyncAll(agents, inv, m);
            var inv' := ListInventory(agents', obot);
      && key in inv
      && if agents[i].file.Readable? && agents[i].file.writable then
           Drift(agents'[i], inv', m, key) == None <==>
             Plan(agents[i], inv, m, key) == Skip || !Enabled(agents[i], m, key) || inv[key] != Gateway("")
         else Drift(agents'[i], inv', m, key) == Drift(agents[i], inv, m, key)
  {
    hide ListInventory, Drift, Plan, Enabled;
    var inv := ListInventory(agents, obot);
    var agents' := SyncAll(agents, inv, m);
    RebuiltInventory(agents, obot, m, key);
    if agents[i].file.Readable? && agents[i].file.writable {
      DriftAfterAWrite(agents[i], agents'[i], inv, ListInventory(agents', obot), m, key);
    } else {
      DriftWithoutWrite(agents[i], inv, ListInventory(agents', obot), m, key);
    }
  }

  lemma DriftWithoutWrite(a: Agent, inv: Inventory, inv': Inventory, m: Matrix, key: string)
    requires key in inv && key in inv' && SameSource(inv[key], inv'[key])
    ensures Drift(a, inv', m, key) == Drift(a, inv, m, key)
  {
  }

  lemma DriftAfterAWrite(a: Agent, a': Agent, inv: Inventory, inv': Inventory, m: Matrix, key: string)
    requires a.file.Readable? && a.file.writable && a' == Synced(a, inv, m)
    requires key in inv && key in inv' && SameSource(inv[key], inv'[key])
    requires inv[key].LocalOnly? ==> inv[key].command != ""
    ensures Drift(a', inv', m, key) == None <==>
        Plan(a, inv, m, key) == Skip || !Enabled(a, m, key) || inv[key] != Gateway("")
  {
    hide TrimSlashes;
    SyncedHas(a, inv, m, key);
    if inv[key].Gateway? {
      SameUrlIsReflexive(inv[key].connectUrl);
    }
  }

  const Grok := Agent("grok", Toml, Readable(map["gsc" := FreshTable.(command := Text("/bin/gsc"))], true))
  const Remote := Agent("opencode", OpenCode, Readable(map["gsc" := FreshTable.(url := Text("http://x"))], true))

  /**
    A local server found in one agent stays planned for ever in an OpenCode configuration that holds a remote server of
    the same key.
  */
  lemma OpenCodeRemoteIsStuck()
    ensures var inv := ListInventory([Grok, Remote], map[]);
            var agents' := SyncAll([Grok, Remote], inv, map[]);
            var inv' := ListInventory(agents', map[]);
      "gsc" in inv' && Plan(agents'[1], inv', map[], "gsc") == Upsert
  {
    hide Synced;
    var inv := ListInventory([Grok, Remote], map[]);
    assert LocalCommand(Grok, "gsc") == Some("/bin/gsc");
    assert "gsc" in inv && inv["gsc"].LocalOnly? by {
      assert [Grok, Remote][0] == Grok;
      FirstLocalIsKnown([Grok, Remote], "gsc");
    }
    var grok, remote := Synced(Grok, inv, map[]), Synced(Remote, inv, map[]);
    assert SyncAll([Grok, Remote], inv, map[]) == [grok, remote];
    assert LocalCommand(grok, "gsc").Some? by { GrokKeepsItsServer(inv); }
    assert "gsc" in ListInventory([grok, remote], map[]) by {
      assert [grok, remote][0] == grok;
      FirstLocalIsKnown([grok, remote], "gsc");
    }
    StuckStaysPlanned(inv, ListInventory([grok, remote], map[]));
  }

  lemma GrokKeepsItsServer(inv: Inventory)
    requires "gsc" in inv && inv["gsc"].LocalOnly?
    ensures LocalCommand(Synced(Grok, inv, map[]), "gsc") == Some("/bin/gsc")
  {
    SyncedHas(Grok, inv, map[], "gsc");
  }

  lemma StuckStaysPlanned(inv: Inventory, inv': Inventory)
    requires "gsc" in inv && inv["gsc"].LocalOnly? && "gsc" in inv' && inv'["gsc"].LocalOnly?
    ensures Plan(Synced(Remote, inv, map[]), inv', map[], "gsc") == Upsert
  {
    SyncedHas(Remote, inv, map[], "gsc");
  }
}
