/**
 The catalog set as it runs: entries updated in place, loops along the chains and over
 the undo buffer.
 */
module CatalogSet {
  import opened Catalog
  import opened CatalogProperties
  import opened CatalogOids

  class CatalogSet {
    var nextOID: nat
    var entries: map<string, Chain>
    /** The identity that the next version gets. */
    var nextVersion: nat

    constructor ()
      ensures nextOID == 0 && entries == map[] && nextVersion == 0
    {
      nextOID, entries, nextVersion := 0, map[], 0;
    }

    /** The set as one running transaction meets it. */
    function AsState(id: nat, startTS: nat): State
      reads this
    {
      State(true, entries, nextOID, nextVersion, id, startTS, map[id := Transaction(startTS, true, [])])
    }

    /** The set and the undo records are those of the outcome. */
    ghost predicate Became(o: Outcome, id: nat, records: seq<Record>)
      reads this
    {
      && entries == o.state.entries && nextOID == o.state.nextOID && nextVersion == o.state.nextVersion
      && id in o.state.active && o.state.active[id].records == records
    }

    static method TraverseVersionChains(c: Chain, id: nat, startTS: nat) returns (current: Option<Version>)
      ensures current == Visible(c, id, startTS)
    {
      var i := 0;
      while i < |c|
        invariant i <= |c| && Visible(c, id, startTS) == Visible(c[i..], id, startTS)
      {
        if c[i].timestamp == id {
          return Some(c[i]);
        }
        if c[i].timestamp <= startTS {
          return Some(c[i]);
        }
        assert c[i..][1..] == c[i + 1..];
        i := i + 1;
      }
      current := None;
    }

    method GetEntry(id: nat, startTS: nat, name: string) returns (entry: Option<Version>)
      ensures entry == Lookup(entries, id, startTS, name)
    {
      if name !in entries {
        return None;
      }
      entry := TraverseVersionChains(entries[name], id, startTS);
      if entry.Some? && entry.value.deleted {
        entry := None;
      }
    }

    method EmplaceNoLock(name: string, v: Version)
      modifies this
      ensures entries == old(entries)[name := [v] + (if name in old(entries) then old(entries)[name] else [])]
      ensures nextVersion == old(nextVersion) + 1 && nextOID == old(nextOID)
    {
      if name in entries {
        entries := entries[name := [v] + entries[name]];
      } else {
        entries := entries[name := [v] + []];
      }
      nextVersion := nextVersion + 1;
    }

    method CreateEntryNoLock(id: nat, startTS: nat, name: string, oid: nat, content: int) returns (error: Option<Error>)
      modifies this
      ensures var o := EmplaceNew(old(AsState(id, startTS)), id, name, oid, content);
              Became(o, id, []) && error == if o.Failed? then Some(o.error) else None
    {
      var entry := GetEntry(id, startTS, name);
      if entry.Some? {
        return Some(AlreadyExists);
      }
      if HasChain(entries, name) {
        var existing := entries[name][0];
        if Conflicts(id, startTS, existing) {
          return Some(WriteConflict);
        }
        if !existing.deleted {
          return Some(StillThere);
        }
      } else {
        var dummy := Version(nextVersion, oid, 0, true, 0);
        EmplaceNoLock(name, dummy);
        assert entries[name] == [dummy];
      }
      assert entries == WithChain(old(AsState(id, startTS)), name, oid).entries;
      EmplaceNoLock(name, Version(nextVersion, oid, id, false, content));
      error := None;
    }

    /** Creates an entry and returns its undo record. */
    method CreateEntry(id: nat, startTS: nat, name: string, content: int) returns (error: Option<Error>, records: seq<Record>)
      modifies this
      ensures var o := Create(old(AsState(id, startTS)), id, name, content);
              Became(o, id, records) && error == if o.Failed? then Some(o.error) else None
    {
      var oid := nextOID;
      nextOID := nextOID + 1;
      error := CreateEntryNoLock(id, startTS, name, oid, content);
      records := if error.Some? then [] else [Record(name, entries[name][1].id)];
    }

    method DropEntry(id: nat, startTS: nat, name: string, oid: nat) returns (error: Option<Error>, records: seq<Record>)
      modifies this
      ensures var o := Drop(old(AsState(id, startTS)), id, name, oid);
              Became(o, id, records) && error == if o.Failed? then Some(o.error) else None
    {
      var entry := GetEntry(id, startTS, name);
      if entry.None? {
        return Some(NotFound), [];
      }
      EmplaceNoLock(name, Version(nextVersion, oid, id, true, 0));
      error, records := None, [Record(name, entries[name][1].id)];
    }

    method AlterTableEntry(id: nat, startTS: nat, name: string, content: int) returns (error: Option<Error>, records: seq<Record>)
      modifies this
      ensures var o := Alter(old(AsState(id, startTS)), id, name, content);
              Became(o, id, records) && error == if o.Failed? then Some(o.error) else None
    {
      var entry := GetEntry(id, startTS, name);
      if entry.None? {
        return Some(NotFound), [];
      }
      EmplaceNoLock(name, entry.value.(id := nextVersion, timestamp := id, content := content));
      error, records := None, [Record(name, entry.value.id)];
    }

    method RenameTableEntry(id: nat, startTS: nat, name: string, newName: string) returns (error: Option<Error>, records: seq<Record>)
      modifies this
      ensures var o := Rename(old(AsState(id, startTS)), id, name, newName);
              Became(o, id, records) && error == if o.Failed? then Some(o.error) else None
    {
      var entry := GetEntry(id, startTS, name);
      if entry.None? {
        return Some(NotFound), [];
      }
      ghost var s := AsState(id, startTS);
      EmplaceNoLock(name, Version(nextVersion, entry.value.oid, id, true, 0));
      ghost var buried := Bury(s, id, name, entry.value.oid);
      SameOutcome(AsState(id, startTS), buried, id, newName, entry.value.oid, entry.value.content);
      error := CreateEntryNoLock(id, startTS, newName, entry.value.oid, entry.value.content);
      records := if error.Some? then [] else [Record(name, entry.value.id), Record(newName, entries[newName][1].id)];
    }

    /** Relabels the versions the undo records are about, in the order of the buffer. */
    method CommitUndo(records: seq<Record>, commitTS: nat)
      modifies this
      ensures entries == CommitRecords(old(entries), records, commitTS) && nextOID == old(nextOID) && nextVersion == old(nextVersion)
    {
      for i := 0 to |records|
        invariant entries == CommitRecords(old(entries), records[..i], commitTS)
        invariant nextOID == old(nextOID) && nextVersion == old(nextVersion)
      {
        var r := records[i];
        assert records[..i + 1][..i] == records[..i];
        if r.name in entries {
          entries := entries[r.name := CommitAbove(entries[r.name], r.entry, commitTS)];
        }
      }
      assert records[..|records|] == records;
    }

    /** Removes them, in the opposite order. */
    method RollbackUndo(records: seq<Record>)
      modifies this
      ensures entries == RollbackRecords(old(entries), records) && nextOID == old(nextOID) && nextVersion == old(nextVersion)
    {
      var i := |records|;
      assert records[..i] == records;
      while i > 0
        invariant 0 <= i <= |records| && RollbackRecords(entries, records[..i]) == RollbackRecords(old(entries), records)
        invariant nextOID == old(nextOID) && nextVersion == old(nextVersion)
      {
        i := i - 1;
        var r := records[i];
        assert records[..i + 1][..i] == records[..i];
        if r.name in entries {
          entries := entries[r.name := RemoveAbove(entries[r.name], r.entry)];
        }
      }
    }

    static method GetCommittedEntry(c: Chain) returns (entry: Option<Version>)
      ensures entry == Committed(c)
    {
      var i := 0;
      while i < |c|
        invariant i <= |c| && Committed(c) == Committed(c[i..])
      {
        if c[i].timestamp < START_TRANSACTION_ID {
          return Some(c[i]);
        }
        assert c[i..][1..] == c[i + 1..];
        i := i + 1;
      }
      entry := None;
    }

    /** Writes out the committed live entries, the chains being visited in the order of `names`. */
    method SerializeEntries(names: seq<string>) returns (saved: seq<Saved>)
      requires forall name | name in names :: name in entries
      ensures saved == Serialize(entries, names)
    {
      saved := [];
      for i := 0 to |names|
        invariant saved == Serialize(entries, names[..i])
      {
        assert names[..i + 1][..i] == names[..i];
        var committed := GetCommittedEntry(entries[names[i]]);
        if committed.Some? && !committed.value.deleted {
          saved := saved + [Saved(names[i], committed.value.oid, committed.value.content)];
        }
      }
      assert names[..|names|] == names;
    }

    constructor DeserializeEntries(savedOID: nat, saved: seq<Saved>)
      ensures nextOID == savedOID && entries == Deserialize(saved) && nextVersion == |saved|
    {
      nextOID, entries, nextVersion := savedOID, map[], 0;
      new;
      for i := 0 to |saved|
        invariant nextOID == savedOID && entries == Deserialize(saved[..i]) && nextVersion == i
      {
        assert saved[..i + 1][..i] == saved[..i];
        EmplaceNoLock(saved[i].name, Version(nextVersion, saved[i].oid, 0, false, saved[i].content));
      }
      assert saved[..|saved|] == saved;
    }

    /** The entry of an OID, the chains being visited in the order of `names`. */
    method GetEntryOfOID(id: nat, startTS: nat, oid: nat, names: seq<string>) returns (entry: Option<Version>)
      requires forall name | name in entries :: name in names
      ensures entry.Some? ==> exists name :: Found(AsState(id, startTS), id, oid, name) && entry == View(AsState(id, startTS), id, name)
      ensures entry.None? ==> forall name :: !Found(AsState(id, startTS), id, oid, name)
    {
      for i := 0 to |names|
        invariant forall j | 0 <= j < i :: !Found(AsState(id, startTS), id, oid, names[j])
      {
        var name := names[i];
        if HasChain(entries, name) && entries[name][0].oid == oid {
          entry := GetEntry(id, startTS, name);
          if entry.Some? {
            assert Found(AsState(id, startTS), id, oid, name);
            return;
          }
        }
      }
      entry := None;
    }
  }

  /** What can be created depends on the entries, not on the rest of the state. */
  lemma SameOutcome(s: State, t: State, id: nat, name: string, oid: nat, content: int)
    requires id in s.active && id in t.active && s.active[id].startTS == t.active[id].startTS
    requires s.entries == t.entries && s.nextVersion == t.nextVersion && s.nextOID == t.nextOID
    ensures var o, o' := EmplaceNew(s, id, name, oid, content), EmplaceNew(t, id, name, oid, content);
            && o.Done? == o'.Done? && (o.Failed? ==> o.error == o'.error)
            && o.state.entries == o'.state.entries && o.state.nextVersion == o'.state.nextVersion && o.state.nextOID == o'.state.nextOID
  {
    assert View(s, id, name) == View(t, id, name);
  }
}
