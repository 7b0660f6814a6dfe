/**
 Which writes keep the invariant: every create, and drops, alters and renames exactly when
 they meet none of the conflicts that they do not test for and renames end.
 */
module CatalogSteps {
  import opened Catalog
  import opened CatalogInvariant

  lemma OldsAppend(rs: seq<Record>, r: Record, name: string)
    ensures Olds(rs + [r], name) == Olds(rs, name) + (if r.name == name then [r.entry] else [])
  {
    assert (rs + [r])[..|rs|] == rs;
  }

  // ----- writing -----

  /** A version on top of a chain, as one write step leaves it. */
  function Written(s: State, id: nat, name: string, v: Version): State
    requires id in s.active && name in s.entries && s.entries[name] != []
  {
    AddRecord(Push(s, name, v), id, Record(name, s.entries[name][0].id))
  }

  lemma ChainPush(c: Chain, v: Version, nextVersion: nat, lastTimestamp: nat, writers: set<nat>)
    requires ChainValid(c, nextVersion, lastTimestamp, writers)
    requires v.id == nextVersion && v.timestamp >= START_TRANSACTION_ID && v.timestamp in writers
    ensures ChainValid([v] + c, nextVersion + 1, lastTimestamp, writers)
  {
    var c' := [v] + c;
    assert c'[|c'| - 1] == c[|c| - 1];
    assert forall i | 1 <= i < |c'| :: c'[i] == c[i - 1];
  }

  lemma ChainsPush(entries: map<string, Chain>, name: string, v: Version, nextVersion: nat, lastTimestamp: nat, writers: set<nat>)
    requires ChainsValid(entries, nextVersion, lastTimestamp, writers) && name in entries
    requires v.id == nextVersion && v.timestamp >= START_TRANSACTION_ID && v.timestamp in writers
    ensures ChainsValid(entries[name := [v] + entries[name]], nextVersion + 1, lastTimestamp, writers)
  {
    forall x | x in entries
      ensures ChainValid(entries[name := [v] + entries[name]][x], nextVersion + 1, lastTimestamp, writers)
    {
      assert ChainValid(entries[x], nextVersion, lastTimestamp, writers);
      if x == name {
        ChainPush(entries[x], v, nextVersion, lastTimestamp, writers);
      }
    }
  }

  lemma LinkedPush(c: Chain, olds: seq<nat>, v: Version, id: nat)
    requires OwnTop(c, id, olds) && v.timestamp == id
    ensures OwnTop([v] + c, id, olds + [c[0].id])
  {
    var c', olds' := [v] + c, olds + [c[0].id];
    forall m | 0 <= m < |olds'|
      ensures c'[|olds'| - m].id == olds'[m]
    {
      assert c'[|olds'| - m] == c[|olds| - m];
    }
    forall i | 1 <= i < |c'|
      ensures (c'[i].timestamp == id) == (i < |olds'|)
    {
      assert c'[i] == c[i - 1];
    }
  }

  lemma RecordsPush(entries: map<string, Chain>, id: nat, rs: seq<Record>, name: string, v: Version)
    requires RecordsValid(entries, id, rs) && HasChain(entries, name) && v.timestamp == id
    ensures RecordsValid(entries[name := [v] + entries[name]], id, rs + [Record(name, entries[name][0].id)])
  {
    var r := Record(name, entries[name][0].id);
    forall x | x in entries
      ensures OwnTop(entries[name := [v] + entries[name]][x], id, Olds(rs + [r], x))
    {
      OldsAppend(rs, r, x);
      assert OwnTop(entries[x], id, Olds(rs, x));
      if x == name {
        LinkedPush(entries[x], Olds(rs, x), v, id);
      }
    }
  }

  /** The versions of other transactions stay where they were. */
  lemma RecordsPushOther(entries: map<string, Chain>, other: nat, rs: seq<Record>, name: string, v: Version)
    requires RecordsValid(entries, other, rs) && HasChain(entries, name) && v.timestamp != other && entries[name][0].timestamp != other
    ensures RecordsValid(entries[name := [v] + entries[name]], other, rs)
  {
    forall x | x in entries
      ensures OwnTop(entries[name := [v] + entries[name]][x], other, Olds(rs, x))
    {
      var c := entries[x];
      assert OwnTop(c, other, Olds(rs, x));
      if x == name {
        assert forall i | 1 <= i < |c| + 1 :: ([v] + c)[i] == c[i - 1];
      }
    }
  }

  /** No other transaction has uncommitted versions in the chain. */
  predicate Uncontested(s: State, id: nat, name: string) {
    HasChain(s.entries, name) ==> s.entries[name][0].timestamp < START_TRANSACTION_ID || s.entries[name][0].timestamp == id
  }

  lemma WrittenRecords(s: State, id: nat, name: string, v: Version)
    requires Valid(s) && id in s.active && HasChain(s.entries, name) && v.timestamp == id && Uncontested(s, id, name)
    ensures AllRecordsValid(Written(s, id, name, v).entries, Written(s, id, name, v).active)
  {
    var s' := Written(s, id, name, v);
    hide ChainsValid, RecordsValid;
    forall other | other in s'.active
      ensures RecordsValid(s'.entries, other, s'.active[other].records)
    {
      assert RecordsValid(s.entries, other, s.active[other].records);
      if other == id {
        RecordsPush(s.entries, id, s.active[id].records, name, v);
      } else {
        assert TransactionValid(s, other, s.active[other]) && TransactionValid(s, id, s.active[id]);
        RecordsPushOther(s.entries, other, s.active[other].records, name, v);
      }
    }
  }

  lemma WrittenValid(s: State, id: nat, name: string, v: Version)
    requires Valid(s) && id in s.active && s.active[id].write && HasChain(s.entries, name) && v.id == s.nextVersion && v.timestamp == id
    requires Uncontested(s, id, name)
    ensures Valid(Written(s, id, name, v))
  {
    hide ChainsValid, AllRecordsValid;
    var s' := Written(s, id, name, v);
    WrittenRecords(s, id, name, v);
    assert Writers(s'.active) == Writers(s.active);
    assert TransactionValid(s, id, s.active[id]);
    ChainsPush(s.entries, name, v, s.nextVersion, s.lastTimestamp, Writers(s.active));
    forall other | other in s'.active
      ensures TransactionValid(s', other, s'.active[other])
    {
      assert TransactionValid(s, other, s.active[other]);
    }
  }

  lemma {:induction false} NoOlds(rs: seq<Record>, name: string)
    requires forall i | 0 <= i < |rs| :: rs[i].name != name
    ensures Olds(rs, name) == []
    decreases |rs|
  {
    if rs != [] {
      NoOlds(rs[..|rs| - 1], name);
    }
  }

  lemma RecordsNewChain(entries: map<string, Chain>, id: nat, rs: seq<Record>, name: string, v: Version)
    requires RecordsValid(entries, id, rs) && name !in entries && v.timestamp != id
    ensures RecordsValid(entries[name := [v]], id, rs)
  {
    NoOlds(rs, name);
    forall x | x in entries[name := [v]]
      ensures OwnTop(entries[name := [v]][x], id, Olds(rs, x))
    {
      assert x != name ==> OwnTop(entries[x], id, Olds(rs, x));
    }
  }

  lemma WithChainValid(s: State, name: string, oid: nat)
    requires Valid(s)
    ensures Valid(WithChain(s, name, oid)) && HasChain(WithChain(s, name, oid).entries, name)
  {
    hide RecordsValid;
    var s' := WithChain(s, name, oid);
    if name in s.entries {
      assert ChainValid(s.entries[name], s.nextVersion, s.lastTimestamp, Writers(s.active));
    } else {
      assert ChainsValid(s'.entries, s'.nextVersion, s'.lastTimestamp, Writers(s.active)) by {
        forall x | x in s.entries
          ensures ChainValid(s.entries[x], s'.nextVersion, s.lastTimestamp, Writers(s.active))
        {
          assert ChainValid(s.entries[x], s.nextVersion, s.lastTimestamp, Writers(s.active));
        }
      }
      forall id | id in s.active
        ensures RecordsValid(s'.entries, id, s.active[id].records) && TransactionValid(s', id, s.active[id])
      {
        assert TransactionValid(s, id, s.active[id]) && RecordsValid(s.entries, id, s.active[id].records);
        RecordsNewChain(s.entries, id, s.active[id].records, name, Version(s.nextVersion, oid, 0, true, 0));
      }
    }
  }

  /** An OID is only a number. */
  lemma NextOIDValid(s: State, oid: nat)
    requires Valid(s)
    ensures Valid(s.(nextOID := oid))
  {
    hide ChainsValid, AllRecordsValid;
    var s' := s.(nextOID := oid);
    forall id | id in s'.active
      ensures TransactionValid(s', id, s'.active[id])
    {
      assert TransactionValid(s, id, s.active[id]);
    }
  }

  /** A new entry goes on a chain whose top is no conflict. */
  lemma EmplaceIsWritten(s: State, id: nat, name: string, oid: nat, content: int)
    requires Valid(s) && id in s.active
    requires EmplaceNew(s, id, name, oid, content).Done?
    ensures var based := WithChain(s, name, oid);
            var s' := EmplaceNew(s, id, name, oid, content).state;
            && HasChain(based.entries, name) && !Conflicts(id, s.active[id].startTS, based.entries[name][0]) && based.entries[name][0].deleted
            && AddRecord(s', id, Record(name, s'.entries[name][1].id)) ==
               Written(based, id, name, Version(based.nextVersion, oid, id, false, content))
  {
    hide AllRecordsValid;
    if name in s.entries {
      assert ChainValid(s.entries[name], s.nextVersion, s.lastTimestamp, Writers(s.active));
    }
  }

  lemma CreateValid(s: State, id: nat, name: string, content: int)
    requires Valid(s) && id in s.active && s.active[id].write
    ensures Valid(Create(s, id, name, content).state)
  {
    hide Valid, EmplaceNew, Written;
    var s1 := s.(nextOID := s.nextOID + 1);
    NextOIDValid(s, s.nextOID + 1);
    if EmplaceNew(s1, id, name, s.nextOID, content).Done? {
      EmplaceIsWritten(s1, id, name, s.nextOID, content);
      WithChainValid(s1, name, s.nextOID);
      var based := WithChain(s1, name, s.nextOID);
      WrittenValid(based, id, name, Version(based.nextVersion, s.nextOID, id, false, content));
    }
  }

  /** Nothing in the way of a write to an existing name. */
  predicate Writable(s: State, id: nat, name: string)
    requires id in s.active
  {
    HasChain(s.entries, name) ==> !Conflicts(id, s.active[id].startTS, s.entries[name][0])
  }

  /** A version on top of another transaction's uncommitted one hides that from its records. */
  lemma ContestedInvalid(entries: map<string, Chain>, other: nat, rs: seq<Record>, name: string)
    requires name in entries && |entries[name]| > 1 && entries[name][0].timestamp != other && entries[name][1].timestamp == other
    ensures !RecordsValid(entries, other, rs)
  {
    assert !OwnTop(entries[name], other, Olds(rs, name));
  }

  /** A drop keeps the invariant exactly when there is nothing to drop or no other transaction has written the chain;
      a newer committed version is no obstacle. */
  lemma DropExact(s: State, id: nat, name: string, oid: nat)
    requires Valid(s) && id in s.active && s.active[id].write
    ensures Valid(Drop(s, id, name, oid).state) <==> View(s, id, name).None? || Uncontested(s, id, name)
  {
    if View(s, id, name).Some? {
      ChainOf(s, name);
      if Uncontested(s, id, name) {
        WrittenValid(s, id, name, Version(s.nextVersion, oid, id, true, 0));
      } else {
        hide ChainsValid, RecordsValid;
        var s', other := Drop(s, id, name, oid).state, s.entries[name][0].timestamp;
        assert other in s'.active;
        ContestedInvalid(s'.entries, other, s'.active[other].records, name);
        assert !RecordsValid(s'.entries, other, s'.active[other].records);
      }
    }
  }

  lemma ChainOf(s: State, name: string)
    requires Valid(s) && name in s.entries
    ensures ChainValid(s.entries[name], s.nextVersion, s.lastTimestamp, Writers(s.active))
  {
  }

  lemma AlterValid(s: State, id: nat, name: string, content: int)
    requires Valid(s) && id in s.active && s.active[id].write && Writable(s, id, name)
    ensures Valid(Alter(s, id, name, content).state)
  {
    var v := View(s, id, name);
    if v.Some? {
      TopVisible(s, id, name);
      WrittenValid(s, id, name, v.value.(id := s.nextVersion, timestamp := id, content := content));
    }
  }

  lemma {:induction false} VisibleIn(c: Chain, id: nat, startTS: nat)
    requires Visible(c, id, startTS).Some?
    ensures Visible(c, id, startTS).value in c && Sees(id, startTS, Visible(c, id, startTS).value)
    decreases |c|
  {
    if !Sees(id, startTS, c[0]) {
      VisibleIn(c[1..], id, startTS);
    }
  }

  /** Records of which one names another version than the one below the newest. */
  lemma MislinkedInvalid(entries: map<string, Chain>, id: nat, rs: seq<Record>, r: Record)
    requires r.name in entries && |entries[r.name]| > 1 && entries[r.name][1].id != r.entry
    ensures !RecordsValid(entries, id, rs + [r])
  {
    OldsAppend(rs, r, r.name);
    var c, olds := entries[r.name], Olds(rs + [r], r.name);
    assert olds[|olds| - 1] == r.entry;
    assert !Linked(c, olds) by {
      assert |olds| < |c| ==> c[|olds| - (|olds| - 1)].id != olds[|olds| - 1];
    }
    assert !OwnTop(c, id, olds);
  }

  /** An alter keeps the invariant exactly when there is nothing to alter or the top of the chain is no conflict. */
  lemma AlterExact(s: State, id: nat, name: string, content: int)
    requires Valid(s) && id in s.active && s.active[id].write
    ensures Valid(Alter(s, id, name, content).state) <==> View(s, id, name).None? || Writable(s, id, name)
  {
    if Writable(s, id, name) {
      AlterValid(s, id, name, content);
    } else if View(s, id, name).Some? {
      var c, v := s.entries[name], View(s, id, name).value;
      ChainOf(s, name);
      ConflictExact(s, id, c[0]);
      VisibleIn(c, id, s.active[id].startTS);
      assert v.id != c[0].id;
      hide ChainsValid, RecordsValid;
      var s' := Alter(s, id, name, content).state;
      assert s'.entries[name][1] == c[0];
      MislinkedInvalid(s'.entries, id, s.active[id].records, Record(name, v.id));
      assert s'.active[id].records == s.active[id].records + [Record(name, v.id)];
    }
  }

  /** What a transaction recorded has no influence on what it may create. */
  lemma EmplaceAddRecord(s: State, id: nat, r: Record, name: string, oid: nat, content: int)
    requires id in s.active
    ensures var o, o' := EmplaceNew(s, id, name, oid, content), EmplaceNew(AddRecord(s, id, r), id, name, oid, content);
            o'.Done? == o.Done? && o'.state == AddRecord(o.state, id, r)
  {
    var s' := AddRecord(s, id, r);
    assert View(s', id, name) == View(s, id, name);
    assert WithChain(s', name, oid) == AddRecord(WithChain(s, name, oid), id, r);
  }

  lemma WritableUncontested(s: State, id: nat, name: string)
    requires Valid(s) && id in s.active && Writable(s, id, name)
    ensures Uncontested(s, id, name)
  {
  }

  /** The drop that a rename begins with. */
  lemma RenameDrops(s: State, id: nat, name: string)
    requires Valid(s) && id in s.active && Writable(s, id, name) && View(s, id, name).Some?
    ensures var v := View(s, id, name).value;
            Drop(s, id, name, v.oid).state == AddRecord(Bury(s, id, name, v.oid), id, Record(name, v.id))
  {
    hide Valid;
    TopVisible(s, id, name);
  }

  lemma RenameIsWritten(s: State, id: nat, name: string, newName: string)
    requires Valid(s) && id in s.active && s.active[id].write && Writable(s, id, name) && View(s, id, name).Some?
    requires Rename(s, id, name, newName).Done?
    ensures var v := View(s, id, name).value;
            var dropped := Drop(s, id, name, v.oid).state;
            && Valid(dropped) && EmplaceNew(dropped, id, newName, v.oid, v.content).Done?
            && var s' := EmplaceNew(dropped, id, newName, v.oid, v.content).state;
            Rename(s, id, name, newName).state == AddRecord(s', id, Record(newName, s'.entries[newName][1].id))
  {
    hide Valid, EmplaceNew, Drop;
    var v := View(s, id, name).value;
    WritableUncontested(s, id, name);
    DropExact(s, id, name, v.oid);
    RenameDrops(s, id, name);
    EmplaceAddRecord(Bury(s, id, name, v.oid), id, Record(name, v.id), newName, v.oid, v.content);
  }

  lemma RenameValid(s: State, id: nat, name: string, newName: string)
    requires Valid(s) && id in s.active && s.active[id].write && Writable(s, id, name)
    requires View(s, id, name).None? || Rename(s, id, name, newName).Done?
    ensures Valid(Rename(s, id, name, newName).state)
  {
    var v := View(s, id, name);
    if v.Some? {
      RenameIsWritten(s, id, name, newName);
      var dropped := Drop(s, id, name, v.value.oid).state;
      EmplaceIsWritten(dropped, id, newName, v.value.oid, v.value.content);
      WithChainValid(dropped, newName, v.value.oid);
      var based := WithChain(dropped, newName, v.value.oid);
      WrittenValid(based, id, newName, Version(based.nextVersion, v.value.oid, id, false, v.value.content));
    }
  }

  /** There is nothing to rename, or both halves of the rename succeed. */
  predicate RenameEnds(s: State, id: nat, name: string, newName: string)
    requires id in s.active
  {
    View(s, id, name).None? || Rename(s, id, name, newName).Done?
  }

  lemma FailedRename(s: State, id: nat, name: string, newName: string)
    requires id in s.active && !RenameEnds(s, id, name, newName)
    ensures var v, s' := View(s, id, name).value, Rename(s, id, name, newName).state;
            && s'.active == s.active && name in s.entries && name in s'.entries
            && s'.entries[name] == [Version(s.nextVersion, v.oid, id, true, 0)] + s.entries[name]
  {
  }

  lemma UnrecordedVersion(entries: map<string, Chain>, entries': map<string, Chain>, id: nat, rs: seq<Record>, name: string, v: Version)
    requires RecordsValid(entries, id, rs) && name in entries && name in entries' && entries'[name] == [v] + entries[name]
    requires v.timestamp == id
    ensures !RecordsValid(entries', id, rs)
  {
    var c, olds := entries[name], Olds(rs, name);
    assert OwnTop(c, id, olds);
    assert Wrote(c, id, |olds|);
    assert ([v] + c)[|olds|] == if |olds| > 0 then c[|olds| - 1] else v;
    assert !Wrote(entries'[name], id, |olds|);
  }

  /** A rename over a conflict records a version that is not the one below its tombstone. */
  lemma RenameMislinks(s: State, id: nat, name: string, newName: string)
    requires id in s.active && HasChain(s.entries, name) && View(s, id, name).Some? && Rename(s, id, name, newName).Done?
    requires View(s, id, name).value.id != s.entries[name][0].id
    ensures var s' := Rename(s, id, name, newName).state;
            id in s'.active && !RecordsValid(s'.entries, id, s'.active[id].records)
  {
    var s', rs, v := Rename(s, id, name, newName).state, s.active[id].records, View(s, id, name).value;
    var r1 := Record(name, v.id);
    var r2 := Record(newName, s'.entries[newName][1].id);
    assert s'.active[id].records == rs + [r1] + [r2];
    OldsAppend(rs, r1, name);
    OldsAppend(rs + [r1], r2, name);
    var c', olds := s'.entries[name], Olds(rs + [r1] + [r2], name);
    var k := if newName == name then 2 else 1;
    assert c'[k] == s.entries[name][0] && olds[|olds| - k] == v.id;
    assert !Linked(c', olds) by {
      assert |olds| < |c'| ==> c'[|olds| - (|olds| - k)].id != olds[|olds| - k];
    }
    assert !OwnTop(c', id, olds);
  }

  /** A rename keeps the invariant exactly when there is nothing to rename, or the top of the chain is no conflict and
      both halves succeed. */
  lemma RenameExact(s: State, id: nat, name: string, newName: string)
    requires Valid(s) && id in s.active && s.active[id].write
    ensures Valid(Rename(s, id, name, newName).state) <==>
            View(s, id, name).None? || (Writable(s, id, name) && Rename(s, id, name, newName).Done?)
  {
    assert View(s, id, name).None? ==> Rename(s, id, name, newName).state == s;
    hide Rename, RecordsValid, ChainsValid;
    if View(s, id, name).Some? {
      var c := s.entries[name];
      ChainOf(s, name);
      if !RenameEnds(s, id, name, newName) {
        FailedRename(s, id, name, newName);
        assert RecordsValid(s.entries, id, s.active[id].records);
        UnrecordedVersion(s.entries, Rename(s, id, name, newName).state.entries, id, s.active[id].records, name,
                          Version(s.nextVersion, View(s, id, name).value.oid, id, true, 0));
      } else if Writable(s, id, name) {
        RenameValid(s, id, name, newName);
      } else {
        ConflictExact(s, id, c[0]);
        VisibleIn(c, id, s.active[id].startTS);
        RenameMislinks(s, id, name, newName);
      }
    }
  }
}
