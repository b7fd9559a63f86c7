/**
  The debounced queue of manifest patches (src/daemon/manifest_sync.rs) and the
  rule by which a patch reaches a manifest entry (src/session/manifest.rs).
*/
module ManifestSync {
  import opened Common

  /** `None` leaves a field alone, `Some` carries its new value. */
  datatype Patch = Patch(
    agentSessionId: Option<string>, agent: Option<string>, title: Option<string>, messagedAt: Option<int>)

  const NoPatch := Patch(None, None, None, None)

  /** The synchronised fields of a manifest entry. */
  datatype Entry = Entry(agentSessionId: Option<string>, agent: string, title: Option<string>, messagedAt: Option<int>)

  /** Judgements the apply rule takes from elsewhere: is this id a subagent's, is this title sticky, is it weak. */
  datatype Probe = Probe(subagent: string -> bool, sticky: string -> bool, weak: string -> bool)

  function Merge(p: Patch, q: Patch): Patch {
    Patch(
      q.agentSessionId.Or(p.agentSessionId), q.agent.Or(p.agent), q.title.Or(p.title), q.messagedAt.Or(p.messagedAt))
  }

  // ---------------------------------------------------------------- one patch, one entry

  predicate RealAgent(agent: string) { agent != "" && agent != "console" }

  predicate Placeholder(agent: string) { agent == "" || agent == "console" || agent == "session" }

  predicate KeepsTitle(pr: Probe, existing: Option<string>, title: string) {
    existing.Some? && pr.sticky(existing.value) && pr.weak(title)
  }

  function Apply(pr: Probe, e: Entry, p: Patch): Entry {
    Entry(
      if p.agentSessionId.Some? && !pr.subagent(p.agentSessionId.value) then p.agentSessionId else e.agentSessionId,
      if p.agent.Some? && RealAgent(p.agent.value) && Placeholder(e.agent) then p.agent.value else e.agent,
      if p.title.Some? && !KeepsTitle(pr, e.title, p.title.value) then p.title else e.title,
      p.messagedAt.Or(e.messagedAt))
  }

  /**
    What a patch can do to an entry: it binds any id but a subagent's, names the agent only where there is a placeholder
    and never with one but `session`, replaces any title except a sticky one by a weak one, and always the time.
  */
  lemma PatchMeans(pr: Probe, e: Entry, p: Patch)
    ensures var r := Apply(pr, e, p);
      && (r.agentSessionId == p.agentSessionId || r.agentSessionId == e.agentSessionId)
      && (r.agentSessionId != e.agentSessionId ==> r.agentSessionId.Some? && !pr.subagent(r.agentSessionId.value))
      && (p.agentSessionId.Some? && !pr.subagent(p.agentSessionId.value) ==> r.agentSessionId == p.agentSessionId)
      && (e.agent != "" && e.agent != "console" && e.agent != "session" ==> r.agent == e.agent)
      && (p.agent.None? || p.agent.value == "" || p.agent.value == "console" ==> r.agent == e.agent)
      && (e.agent in {"", "console", "session"} && p.agent.Some? && p.agent.value !in {"", "console"} ==>
            r.agent == p.agent.value)
      && (p.title.None? ==> r.title == e.title)
      && (p.title.Some? ==>
            (r.title == p.title <==>
               p.title == e.title || !(e.title.Some? && pr.sticky(e.title.value) && pr.weak(p.title.value))))
      && (r.title == p.title || r.title == e.title)
      && (p.messagedAt.Some? ==> r.messagedAt == p.messagedAt) && (p.messagedAt.None? ==> r.messagedAt == e.messagedAt)
  {
  }

  method ApplySyncPatchToEntry(pr: Probe, entry0: Entry, patch: Patch) returns (entry: Entry, changed: bool)
    ensures entry == Apply(pr, entry0, patch)
    ensures changed <==> entry != entry0
  {
    entry, changed := entry0, false;
    if patch.agentSessionId.Some? {
      if pr.subagent(patch.agentSessionId.value) {
      } else if entry.agentSessionId != patch.agentSessionId {
        entry := entry.(agentSessionId := patch.agentSessionId);
        changed := true;
      }
    }
    if patch.agent.Some? {
      var agent := patch.agent.value;
      if agent != "" && agent != "console" && Placeholder(entry.agent) && entry.agent != agent {
        entry := entry.(agent := agent);
        changed := true;
      }
    }
    if patch.title.Some? {
      if KeepsTitle(pr, entry.title, patch.title.value) {
      } else if entry.title != patch.title {
        entry := entry.(title := patch.title);
        changed := true;
      }
    }
    if patch.messagedAt.Some? && entry.messagedAt != patch.messagedAt {
      entry := entry.(messagedAt := patch.messagedAt);
      changed := true;
    }
  }

  /**
    Coalescing loses no subagent-guarded id: the later id is a parent's, or the earlier one would not have stuck, or was
    there already.
  */
  predicate IdCoalesces(pr: Probe, e: Entry, p: Patch, q: Patch) {
    p.agentSessionId.Some? && q.agentSessionId.Some? ==>
      !pr.subagent(q.agentSessionId.value) || pr.subagent(p.agentSessionId.value)
          || e.agentSessionId == p.agentSessionId
  }

  predicate AgentCoalesces(e: Entry, p: Patch, q: Patch) {
    p.agent.Some? && q.agent.Some? && RealAgent(p.agent.value) && Placeholder(e.agent) ==>
      if RealAgent(q.agent.value) then p.agent.value == "session" || p.agent == q.agent else p.agent.value == e.agent
  }

  predicate TitleCoalesces(pr: Probe, e: Entry, p: Patch, q: Patch) {
    p.title.Some? && q.title.Some? && pr.weak(q.title.value) ==>
      if e.title.Some? && pr.sticky(e.title.value)
      then pr.weak(p.title.value) || e.title == (if pr.sticky(p.title.value) then p.title else q.title)
      else pr.sticky(p.title.value) ==> p.title == q.title
  }

  predicate Coalesces(pr: Probe, e: Entry, p: Patch, q: Patch) {
    IdCoalesces(pr, e, p, q) && AgentCoalesces(e, p, q) && TitleCoalesces(pr, e, p, q)
  }

  /** Queueing two patches as one means what applying them in turn means, on exactly these entries. */
  lemma CoalescingIsFaithfulExactly(pr: Probe, e: Entry, p: Patch, q: Patch)
    ensures Apply(pr, Apply(pr, e, p), q) == Apply(pr, e, Merge(p, q)) <==> Coalesces(pr, e, p, q)
  {
    assert Apply(pr, Apply(pr, e, p), q).messagedAt == Apply(pr, e, Merge(p, q)).messagedAt;
  }

  /** Some patches do not coalesce: an agent already written is not replaced, but one still queued is. */
  lemma CoalescingCanLoseAnAgent(pr: Probe)
    ensures var e := Entry(None, "", None, None);
            var p, q := NoPatch.(agent := Some("grok")), NoPatch.(agent := Some("codex"));
      Apply(pr, Apply(pr, e, p), q).agent == "grok" && Apply(pr, e, Merge(p, q)).agent == "codex"
  {
  }

  /** `p` followed by `q` coalesce on every entry. */
  predicate Absorbs(pr: Probe, p: Patch, q: Patch) {
    && (p.agentSessionId.Some? && q.agentSessionId.Some? ==>
          !pr.subagent(q.agentSessionId.value) || pr.subagent(p.agentSessionId.value))
    && (p.agent.Some? && q.agent.Some? && RealAgent(p.agent.value) ==>
          RealAgent(q.agent.value) && (p.agent.value == "session" || p.agent == q.agent))
    && (p.title.Some? && q.title.Some? && pr.weak(q.title.value) ==>
          p.title == q.title || (pr.weak(p.title.value) && !pr.sticky(p.title.value)))
  }

  lemma AbsorbedPatchesCoalesce(pr: Probe, e: Entry, p: Patch, q: Patch)
    requires Absorbs(pr, p, q)
    ensures Apply(pr, Apply(pr, e, p), q) == Apply(pr, e, Merge(p, q))
  {
    CoalescingIsFaithfulExactly(pr, e, p, q);
  }

  lemma MergeLaws(p: Patch, q: Patch, r: Patch)
    ensures Merge(Merge(p, q), r) == Merge(p, Merge(q, r))
    ensures Merge(p, NoPatch) == p == Merge(NoPatch, p)
    ensures Merge(p, Merge(p, q)) == Merge(p, q)
    ensures Merge(p, q) == NoPatch <==> p == NoPatch && q == NoPatch
  {
  }

  lemma AbsorbsLaws(pr: Probe, p: Patch, q: Patch, r: Patch)
    ensures Absorbs(pr, p, p) && Absorbs(pr, p, NoPatch) && Absorbs(pr, NoPatch, p)
    ensures Absorbs(pr, p, r) && Absorbs(pr, q, r) ==> Absorbs(pr, Merge(p, q), r)
    ensures Absorbs(pr, p, q) && Absorbs(pr, p, r) ==> Absorbs(pr, p, Merge(q, r))
  {
  }

  // ---------------------------------------------------------------- the manifest file

  type Manifest = map<string, Entry>
  type Pending = map<string, Patch>

  function PatchFor(ps: Pending, ssn: string): Patch {
    if ssn in ps then ps[ssn] else NoPatch
  }

  /** A patch for a session the manifest does not hold is dropped. */
  function ApplyAll(pr: Probe, m: Manifest, ps: Pending): Manifest {
    map ssn | ssn in m :: Apply(pr, m[ssn], PatchFor(ps, ssn))
  }

  function IdPatches(updates: map<string, string>): Pending {
    map ssn | ssn in updates :: NoPatch.(agentSessionId := Some(updates[ssn]))
  }

  predicate IdOnly(p: Patch) { p.title.None? && p.messagedAt.None? && p.agent.None? }

  class ManifestFile {
    var entries: Manifest

    constructor (entries: Manifest)
      ensures this.entries == entries
    {
      this.entries := entries;
    }

    /** Patches reach their entries in whatever order the hash map yields them. */
    method ApplyManifestSyncPatches(pr: Probe, patches: Pending, loads: bool, saves: bool) returns (ok: bool)
      modifies this
      ensures ok <==> patches == map[] || (loads && (saves || ApplyAll(pr, old(entries), patches) == old(entries)))
      ensures entries == if ok then ApplyAll(pr, old(entries), patches) else old(entries)
    {
      if patches == map[] {
        assert ApplyAll(pr, entries, patches) == entries;
        return true;
      }
      if !loads {
        return false;
      }
      var manifest, changed, todo := entries, false, patches.Keys;
      while todo != {}
        invariant entries == old(entries) && todo <= patches.Keys
        invariant manifest.Keys == entries.Keys
        invariant forall ssn :: ssn in manifest ==>
            manifest[ssn] ==
              if ssn in patches && ssn !in todo then Apply(pr, entries[ssn], patches[ssn]) else entries[ssn]
        invariant !changed ==> manifest == entries
        invariant changed ==> exists ssn :: ssn in manifest && manifest[ssn] != entries[ssn]
        decreases todo
      {
        var ssn :| ssn in todo;
        todo := todo - {ssn};
        if ssn in manifest {
          var entry, entryChanged := ApplySyncPatchToEntry(pr, manifest[ssn], patches[ssn]);
          ghost var before := manifest;
          manifest := manifest[ssn := entry];
          if entryChanged {
            changed := true;
            assert manifest[ssn] != entries[ssn];
          } else {
            assert manifest == before;
          }
        }
      }
      assert manifest == ApplyAll(pr, entries, patches);
      assert changed <==> manifest != entries;
      if changed {
        if !saves {
          return false;
        }
        entries := manifest;
      }
      ok := true;
    }

    method UpdateManifestAgentSessionIds(pr: Probe, updates: map<string, string>, loads: bool, saves: bool)
      returns (ok: bool)
      modifies this
      ensures ok <==>
          updates == map[] || (loads && (saves || ApplyAll(pr, old(entries), IdPatches(updates)) == old(entries)))
      ensures entries == if ok then ApplyAll(pr, old(entries), IdPatches(updates)) else old(entries)
    {
      var patches := IdPatches(updates);
      assert patches.Keys == updates.Keys;
      ok := ApplyManifestSyncPatches(pr, patches, loads, saves);
    }

    /** The id-only fast path writes what the general path would. */
    method PersistPatches(pr: Probe, patches: Pending, loads: bool, saves: bool) returns (ok: bool)
      requires NoPatch !in patches.Values
      modifies this
      ensures ok <==> patches == map[] || (loads && (saves || ApplyAll(pr, old(entries), patches) == old(entries)))
      ensures entries == if ok then ApplyAll(pr, old(entries), patches) else old(entries)
    {
      if patches == map[] {
        assert ApplyAll(pr, entries, patches) == entries;
        return true;
      }
      if forall ssn | ssn in patches :: IdOnly(patches[ssn]) {
        var updates :=
          map ssn | ssn in patches && patches[ssn].agentSessionId.Some? :: patches[ssn].agentSessionId.value;
        forall ssn | ssn in patches ensures patches[ssn].agentSessionId.Some? {
          assert patches[ssn] in patches.Values;
        }
        assert updates.Keys == patches.Keys;
        assert IdPatches(updates) == patches;
        ok := UpdateManifestAgentSessionIds(pr, updates, loads, saves);
        return;
      }
      ok := ApplyManifestSyncPatches(pr, patches, loads, saves);
    }
  }

  // ---------------------------------------------------------------- the queue

  /** The generation counter is 64 bits wide and wraps. */
  const GENERATIONS := 0x1_0000_0000_0000_0000

  const MAX_ROUNDS := 64

  function Queued(ps: Pending, ssn: string, p: Patch): Pending {
    ps[ssn := Merge(PatchFor(ps, ssn), p)]
  }

  /** What a write of `ps` over `m` comes to, when loading or saving may fail. */
  predicate PersistSucceeds(pr: Probe, m: Manifest, ps: Pending, loads: bool, saves: bool) {
    ps == map[] || (loads && (saves || ApplyAll(pr, m, ps) == m))
  }

  class ManifestSyncQueue {
    var patches: Pending
    var dirty: bool
    var generation: nat

    ghost predicate Valid()
      reads this
    {
      (dirty <==> patches != map[]) && NoPatch !in patches.Values && generation < GENERATIONS
    }

    constructor ()
      ensures Valid() && patches == map[] && generation == 0
    {
      patches, dirty, generation := map[], false, 0;
    }

    method Enqueue(ssn: string, patch: Patch)
      requires Valid()
      modifies this
      ensures Valid()
      ensures patch == NoPatch ==> patches == old(patches) && dirty == old(dirty) && generation == old(generation)
      ensures patch != NoPatch ==>
          patches == Queued(old(patches), ssn, patch) && dirty && generation == (old(generation) + 1) % GENERATIONS
    {
      if patch == NoPatch {
        return;
      }
      if ssn in patches {
        patches := patches[ssn := Merge(patches[ssn], patch)];
      } else {
        patches := patches[ssn := patch];
      }
      dirty := true;
      generation := (generation + 1) % GENERATIONS;
    }

    method ClearPending()
      modifies this
      ensures patches == map[] && !dirty && generation == old(generation)
    {
      patches, dirty := map[], false;
    }

    /** With nobody else at work, a flush writes everything and clears the queue, or fails and keeps everything. */
    method Flush(pr: Probe, file: ManifestFile, loads: bool, saves: bool) returns (ok: bool)
      requires Valid()
      modifies this, file
      ensures Valid() && generation == old(generation)
      ensures ok == PersistSucceeds(pr, old(file.entries), old(patches), loads, saves)
      ensures file.entries == if ok then ApplyAll(pr, old(file.entries), old(patches)) else old(file.entries)
      ensures patches == if ok then map[] else old(patches)
    {
      var stableGeneration := generation;
      var snapshot := patches;
      if snapshot == map[] {
        assert ApplyAll(pr, file.entries, snapshot) == file.entries;
        return true;
      }
      ok := file.PersistPatches(pr, snapshot, loads, saves);
      if ok && generation == stableGeneration {
        ClearPending();
      }
    }

    method FlushAll(pr: Probe, file: ManifestFile, loads: bool, saves: bool) returns (ok: bool)
      requires Valid()
      modifies this, file
      ensures Valid()
      ensures ok == PersistSucceeds(pr, old(file.entries), old(patches), loads, saves)
      ensures file.entries == if ok then ApplyAll(pr, old(file.entries), old(patches)) else old(file.entries)
      ensures patches == if ok then map[] else old(patches)
    {
      assert old(patches) == map[] ==> ApplyAll(pr, old(file.entries), old(patches)) == old(file.entries);
      for round := 0 to MAX_ROUNDS
        invariant Valid()
        invariant round == 0 ==> file.entries == old(file.entries) && patches == old(patches)
        invariant round > 0 ==> patches == map[] && file.entries == ApplyAll(pr, old(file.entries), old(patches))
        invariant round > 0 ==> PersistSucceeds(pr, old(file.entries), old(patches), loads, saves)
      {
        if !dirty {
          return true;
        }
        ok := Flush(pr, file, loads, saves);
        if !ok {
          return false;
        }
      }
      ok := !dirty;
    }
  }
}
