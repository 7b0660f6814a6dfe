/**
 What transactions see of their own writes, renames and checkpoints, and what goes wrong
 where conflicts are not tested.
 */
module CatalogProperties {
  import opened Catalog
  import opened CatalogInvariant
  import opened CatalogSteps
  import opened CatalogTransactions
  import opened CatalogReachable
  import opened CatalogSnapshots

  // ----- own writes -----

  lemma PushSeen(s: State, name: string, v: Version, id: nat, x: string)
    requires id in s.active && name in s.entries && v.timestamp == id
    ensures View(Push(s, name, v), id, x) == if x != name then View(s, id, x) else if v.deleted then None else Some(v)
  {
  }

  /** A created entry is seen at once, under a new OID; nothing else changes. */
  lemma CreateSeen(s: State, id: nat, name: string, content: int, x: string)
    requires id in s.active && Create(s, id, name, content).Done?
    ensures var s' := Create(s, id, name, content).state;
            && s'.nextOID == s.nextOID + 1
            && if x != name then View(s', id, x) == View(s, id, x)
               else exists v :: View(s', id, x) == Some(v) && v.oid == s.nextOID && v.content == content
  {
    var s1 := s.(nextOID := s.nextOID + 1);
    var based := WithChain(s1, name, s.nextOID);
    var v := Version(based.nextVersion, s.nextOID, id, false, content);
    PushSeen(based, name, v, id, x);
    assert x != name ==> View(based, id, x) == View(s, id, x);
  }

  /** A dropped entry is gone at once; nothing else changes. */
  lemma DropSeen(s: State, id: nat, name: string, oid: nat, x: string)
    requires id in s.active && Drop(s, id, name, oid).Done?
    ensures View(Drop(s, id, name, oid).state, id, x) == if x == name then None else View(s, id, x)
  {
    PushSeen(s, name, Version(s.nextVersion, oid, id, true, 0), id, x);
  }

  /** An altered entry is seen at once, under the same OID; nothing else changes. */
  lemma AlterSeen(s: State, id: nat, name: string, content: int, x: string)
    requires id in s.active && Alter(s, id, name, content).Done?
    ensures var s' := Alter(s, id, name, content).state;
            if x != name then View(s', id, x) == View(s, id, x)
            else View(s', id, x).Some? && View(s', id, x).value.oid == View(s, id, name).value.oid && View(s', id, x).value.content == content
  {
    PushSeen(s, name, View(s, id, name).value.(id := s.nextVersion, timestamp := id, content := content), id, x);
  }

  /** After a rename, the entry is seen under its new name only. */
  lemma RenameSeen(s: State, id: nat, name: string, newName: string, x: string)
    requires id in s.active && Rename(s, id, name, newName).Done?
    ensures var v, s' := View(s, id, name).value, Rename(s, id, name, newName).state;
            if x == newName then View(s', id, x).Some? && View(s', id, x).value.oid == v.oid && View(s', id, x).value.content == v.content
            else View(s', id, x) == if x == name then None else View(s, id, x)
  {
    var v := View(s, id, name).value;
    var buried := Bury(s, id, name, v.oid);
    PushSeen(s, name, Version(s.nextVersion, v.oid, id, true, 0), id, x);
    var based := WithChain(buried, newName, v.oid);
    PushSeen(based, newName, Version(based.nextVersion, v.oid, id, false, v.content), id, x);
    assert x != newName ==> View(based, id, x) == View(buried, id, x);
  }

  /** Same entry, whatever version of it. */
  predicate SameEntry(a: Option<Version>, b: Option<Version>) {
    a.Some? == b.Some? && (a.Some? ==> a.value.oid == b.value.oid && a.value.content == b.value.content)
  }

  /** Where the invariant holds, a commit publishes what the writer saw of the names it wrote, to every transaction that
      begins later. */
  lemma ValidPublishes(s: State, id: nat, name: string, later: nat, startTS: nat)
    requires Valid(s) && id in s.active && s.active[id].write && name in s.entries && Olds(s.active[id].records, name) != []
    requires startTS > s.lastTimestamp
    ensures SameEntry(Lookup(Commit(s, id).entries, later, startTS, name), View(s, id, name))
  {
    CommitEntries(s, id);
    assert RecordsValid(s.entries, id, s.active[id].records) && OwnTop(s.entries[name], id, Olds(s.active[id].records, name));
    RelabelledAt(s.entries[name], id, s.lastTimestamp + 1);
  }

  // ----- rename -----

  /** A rename to a name without a chain: the renamer sees the new name only, the others the old name only. */
  lemma RenameAtomic(s: State, id: nat, name: string, newName: string, other: nat)
    requires Bounded(s) && id in s.active && s.active[id].write && other in s.active && other != id
    requires newName !in s.entries && name != newName && Rename(s, id, name, newName).Done?
    ensures var s' := Rename(s, id, name, newName).state;
            && View(s', id, name).None? && SameEntry(View(s', id, newName), View(s, id, name))
            && other in s'.active && View(s', other, name) == View(s, other, name) && View(s', other, newName).None?
  {
    hide Bounded;
    RenameSeen(s, id, name, newName, name);
    RenameSeen(s, id, name, newName, newName);
    RenameUnseen(s, id, name, newName, other, name);
    RenameUnseen(s, id, name, newName, other, newName);
  }

  // ----- checkpoint -----

  /** `getCommittedEntryNoLock`. */
  function Committed(c: Chain): Option<Version> {
    if c == [] then None else if c[0].timestamp < START_TRANSACTION_ID then Some(c[0]) else Committed(c[1..])
  }

  /** An entry as it is written out. */
  datatype Saved = Saved(name: string, oid: nat, content: int)

  predicate Saves(entries: map<string, Chain>, name: string) {
    name in entries && Committed(entries[name]).Some? && !Committed(entries[name]).value.deleted
  }

  /** The committed live entries, the chains being visited in the order of `names`. */
  function Serialize(entries: map<string, Chain>, names: seq<string>): seq<Saved> {
    if names == [] then []
    else
      var name := names[|names| - 1];
      Serialize(entries, names[..|names| - 1]) +
      (if Saves(entries, name) then [Saved(name, Committed(entries[name]).value.oid, Committed(entries[name]).value.content)] else [])
  }

  /** Each entry read back is a version with a timestamp of zero. */
  function Deserialize(saved: seq<Saved>): map<string, Chain> {
    if saved == [] then map[]
    else
      var rest, e := Deserialize(saved[..|saved| - 1]), saved[|saved| - 1];
      rest[e.name := [Version(|saved| - 1, e.oid, 0, false, e.content)] + (if e.name in rest then rest[e.name] else [])]
  }

  /** The names of the chains, each once, in any order. */
  ghost predicate Enumerates(names: seq<string>, entries: map<string, Chain>) {
    && (forall i, j | 0 <= i < j < |names| :: names[i] != names[j])
    && (forall name :: name in names <==> name in entries)
  }

  ghost predicate OneVersion(c: Chain, nextVersion: nat, v: Version) {
    |c| == 1 && c[0].id < nextVersion && c[0].timestamp == 0 && !c[0].deleted && c[0].oid == v.oid && c[0].content == v.content
  }

  /** What comes back for a name: the committed live entry, if there is one. */
  lemma {:induction false} RestoredAt(entries: map<string, Chain>, names: seq<string>, name: string)
    requires forall i, j | 0 <= i < j < |names| :: names[i] != names[j]
    ensures var saved := Serialize(entries, names);
            && (name in Deserialize(saved) <==> name in names && Saves(entries, name))
            && (name in Deserialize(saved) ==> OneVersion(Deserialize(saved)[name], |saved|, Committed(entries[name]).value))
    decreases |names|
  {
    if names != [] {
      var front, last := names[..|names| - 1], names[|names| - 1];
      assert names == front + [last];
      assert last !in front;
      RestoredAt(entries, front, name);
      RestoredAt(entries, front, last);
      if Saves(entries, last) {
        var saved := Serialize(entries, names);
        assert saved[..|saved| - 1] == Serialize(entries, front);
      } else {
        assert Serialize(entries, names) == Serialize(entries, front);
      }
    }
  }

  lemma {:induction false} CommittedIsVisible(c: Chain, id: nat, lastTimestamp: nat)
    requires lastTimestamp < START_TRANSACTION_ID
    requires forall i | 0 <= i < |c| ::
               if c[i].timestamp < START_TRANSACTION_ID then c[i].timestamp <= lastTimestamp else c[i].timestamp != id
    ensures Committed(c) == Visible(c, id, lastTimestamp)
    decreases |c|
  {
    if c != [] {
      CommittedIsVisible(c[1..], id, lastTimestamp);
    }
  }

  /** A checkpoint in any reachable state, whatever is uncommitted, gives every later transaction the view of one that
      began at that moment. */
  lemma CheckpointExact(s: State, names: seq<string>, later: nat, startTS: nat, name: string)
    requires Reachable(s) && Enumerates(names, s.entries)
    ensures var begun, now := Begin(s, false).value, s.lastTransactionID + 1;
            SameEntry(Lookup(Deserialize(Serialize(s.entries, names)), later, startTS, name), View(begun, now, name))
  {
    assert Bounded(s) by {
      ReachableBounded(s);
    }
    hide Reachable, Bounded, Serialize, Deserialize, Committed, Visible;
    RestoredLookup(s.entries, names, later, startTS, name);
    BegunView(s, name);
    if name in s.entries {
      CommittedNow(s, name);
    }
  }

  lemma BegunView(s: State, name: string)
    ensures View(Begin(s, false).value, s.lastTransactionID + 1, name) == Lookup(s.entries, s.lastTransactionID + 1, s.lastTimestamp, name)
  {
  }

  /** A restored entry is that of the committed version, for every transaction. */
  lemma RestoredLookup(entries: map<string, Chain>, names: seq<string>, later: nat, startTS: nat, name: string)
    requires Enumerates(names, entries)
    ensures var r := Lookup(Deserialize(Serialize(entries, names)), later, startTS, name);
            && (r.Some? <==> Saves(entries, name))
            && (r.Some? ==> r.value.oid == Committed(entries[name]).value.oid && r.value.content == Committed(entries[name]).value.content)
  {
    hide Serialize, Deserialize, Committed;
    RestoredAt(entries, names, name);
  }

  /** The committed version is what a transaction that begins now sees. */
  lemma CommittedNow(s: State, name: string)
    requires Bounded(s) && name in s.entries
    ensures Committed(s.entries[name]) == Visible(s.entries[name], s.lastTransactionID + 1, s.lastTimestamp)
  {
    var c := s.entries[name];
    assert ChainBounded(s, c);
    forall i | 0 <= i < |c|
      ensures if c[i].timestamp < START_TRANSACTION_ID then c[i].timestamp <= s.lastTimestamp else c[i].timestamp != s.lastTransactionID + 1
    {
      assert VersionBounded(s, c[i]);
    }
    CommittedIsVisible(c, s.lastTransactionID + 1, s.lastTimestamp);
  }

  lemma {:induction false} CommittedIn(c: Chain)
    ensures Committed(c).Some? ==> Committed(c).value in c
    decreases |c|
  {
    if c != [] {
      CommittedIn(c[1..]);
    }
  }

  /** The restored catalog is a valid start. */
  lemma RestoredStart(s: State, names: seq<string>, multiWrites: bool)
    requires Bounded(s) && Enumerates(names, s.entries)
    ensures var saved := Serialize(s.entries, names);
            Start(State(multiWrites, Deserialize(saved), s.nextOID, |saved|, START_TRANSACTION_ID, 1, map[]))
  {
    hide Serialize, Deserialize, Committed, Saves;
    var saved := Serialize(s.entries, names);
    forall name | name in Deserialize(saved)
      ensures var c := Deserialize(saved)[name]; |c| == 1 && c[0].timestamp == 0 && c[0].id < |saved| && c[0].oid < s.nextOID
    {
      RestoredAt(s.entries, names, name);
      SavedBelowNext(s, name);
    }
  }

  lemma SavedBelowNext(s: State, name: string)
    requires Bounded(s) && Saves(s.entries, name)
    ensures Committed(s.entries[name]).value.oid < s.nextOID
  {
    assert ChainBounded(s, s.entries[name]);
    CommittedIn(s.entries[name]);
    assert VersionBounded(s, Committed(s.entries[name]).value);
  }

  // ----- where it goes wrong -----

  lemma {:induction false} VisibleAt(c: Chain, id: nat, startTS: nat) returns (i: nat)
    requires Visible(c, id, startTS).Some?
    ensures i < |c| && c[i] == Visible(c, id, startTS).value && Sees(id, startTS, c[i]) && forall j | 0 <= j < i :: !Sees(id, startTS, c[j])
    decreases |c|
  {
    i := 0;
    if !Sees(id, startTS, c[0]) {
      var k := VisibleAt(c[1..], id, startTS);
      i := k + 1;
    }
  }

  /** The undo record of an alter is about the new version exactly when the top of the chain is no conflict, which alter
      does not check. */
  lemma AlterRecordExact(s: State, id: nat, name: string, content: int)
    requires Bounded(s) && id in s.active && View(s, id, name).Some?
    ensures var v, s' := View(s, id, name).value, Alter(s, id, name, content).state;
            && HasChain(s.entries, name)
            && (Position(s'.entries[name], v.id) == 1 <==> !Conflicts(id, s.active[id].startTS, s.entries[name][0]))
  {
    var c, v := s.entries[name], View(s, id, name).value;
    assert ChainBounded(s, c);
    TransactionBounds(s, id);
    var i := VisibleAt(c, id, s.active[id].startTS);
    assert forall k | 0 <= k < |c| :: VersionBounded(s, c[k]);
    hide Bounded;
    PushedPosition(c, v.(id := s.nextVersion, timestamp := id, content := content), i);
  }

  /** A new version on top moves the others down by one. */
  lemma PushedPosition(c: Chain, v: Version, i: nat)
    requires Distinct(c) && i < |c| && forall k | 0 <= k < |c| :: c[k].id != v.id
    ensures Position([v] + c, c[i].id) == i + 1
  {
    var c' := [v] + c;
    assert forall j | 1 <= j < |c'| :: c'[j] == c[j - 1];
    PositionIs(c', i + 1);
  }

  lemma AlterThenCommit(s: State, id: nat, name: string, content: int)
    requires id in s.active && s.active[id].write && s.active[id].records == [] && HasChain(s.entries, name)
    requires View(s, id, name).Some?
    ensures var v, s' := View(s, id, name).value, Commit(Alter(s, id, name, content).state, id);
            var c' := [v.(id := s.nextVersion, timestamp := id, content := content)] + s.entries[name];
            name in s'.entries && s'.entries[name] == CommitAbove(c', v.id, s.lastTimestamp + 1)
  {
    hide CommitAbove, View, CommitRecords;
    var altered := Alter(s, id, name, content).state;
    var r := Record(name, View(s, id, name).value.id);
    assert [] + [r] == [r];
    assert altered.active[id].records == [r];
    CommitOne(altered.entries, r, s.lastTimestamp + 1);
  }

  lemma CommitOne(entries: map<string, Chain>, r: Record, ts: nat)
    ensures CommitRecords(entries, [r], ts) == CommitRecord(entries, r, ts)
  {
    assert [r][..0] == [];
  }

  /** Where two transactions alter one entry, the commit of the second publishes the change of the first, keeps its own
      unpublished, and takes from the first what it wrote. */
  lemma LostUpdate(s: State, first: nat, second: nat, name: string, content: int)
    requires Bounded(s) && first in s.active && second in s.active && s.active[second].write && first != second
    requires s.active[second].records == [] && s.lastTimestamp + 1 < START_TRANSACTION_ID
    requires name in s.entries && |s.entries[name]| >= 2 && s.entries[name][0].timestamp == first
    requires View(s, second, name) == Some(s.entries[name][1])
    ensures var c, s' := s.entries[name], Commit(Alter(s, second, name, content).state, second);
            && name in s'.entries
            && s'.entries[name] == [c[1].(id := s.nextVersion, timestamp := second, content := content),
                                    c[0].(timestamp := s.lastTimestamp + 1)] + c[1..]
            && var found := Visible(s'.entries[name], first, s.active[first].startTS);
            found.Some? && found.value.id != c[0].id
  {
    hide Commit, Alter;
    var c, ts := s.entries[name], s.lastTimestamp + 1;
    var c1 := [c[1].(id := s.nextVersion, timestamp := second, content := content)] + c;
    AlterThenCommit(s, second, name, content);
    assert ChainBounded(s, c);
    assert forall k | 0 <= k < |c| :: VersionBounded(s, c[k]);
    TransactionBounds(s, first);
    hide Bounded;
    LostUpdateChain(c, c1, ts);
    LostUpdateHidden(CommitAbove(c1, c[1].id, ts), c[0].id, first, s.active[first].startTS);
  }

  lemma LostUpdateChain(c: Chain, c1: Chain, ts: nat)
    requires |c| >= 2 && Distinct(c) && |c1| == |c| + 1 && c1[1..] == c && c[0].timestamp > ts
    requires forall i | 0 <= i < |c| :: c1[0].id != c[i].id
    ensures CommitAbove(c1, c[1].id, ts) == [c1[0], c[0].(timestamp := ts)] + c[1..]
    ensures forall i | 0 <= i < |c1| :: CommitAbove(c1, c[1].id, ts)[i].id == c[0].id ==> CommitAbove(c1, c[1].id, ts)[i].timestamp == ts
  {
    assert forall j | 1 <= j < |c1| :: c1[j] == c[j - 1];
    PositionIs(c1, 2);
  }

  /** Another version is found where the one with this identity is not seen. */
  lemma LostUpdateHidden(c: Chain, entry: nat, id: nat, startTS: nat)
    requires c != [] && c[|c| - 1].timestamp == 0 && forall i | 0 <= i < |c| && c[i].id == entry :: !Sees(id, startTS, c[i])
    ensures var found := Visible(c, id, startTS); found.Some? && found.value.id != entry
  {
    VisibleExists(c, id, startTS);
    VisibleIn(c, id, startTS);
  }

  lemma {:induction false} RollbackUnder(v: Version, c: Chain, olds: seq<nat>)
    requires Distinct([v] + c) && Linked(c, olds)
    ensures RollbackChain([v] + c, olds) == [v] + c[|olds|..]
    decreases |olds|
  {
    if olds != [] {
      var front, d := olds[..|olds| - 1], [v] + c;
      assert forall j | 1 <= j < |d| :: d[j] == c[j - 1];
      assert d[2] == c[1] && c[1].id == olds[|olds| - 1];
      PositionIs(d, 2);
      var d' := [v] + c[1..];
      assert RemoveAbove(d, olds[|olds| - 1]) == d';
      assert forall j | 1 <= j < |d'| :: d'[j] == c[j];
      forall m | 0 <= m < |front|
        ensures c[1..][|front| - m].id == front[m]
      {
        assert c[1..][|front| - m] == c[|olds| - m];
      }
      RollbackUnder(v, c[1..], front);
    }
  }

  lemma RollbackLeaves(entries: map<string, Chain>, id: nat, rs: seq<Record>, name: string, v: Version)
    requires RecordsValid(entries, id, rs) && HasChain(entries, name) && Distinct([v] + entries[name])
    ensures var entries' := RollbackRecords(entries[name := [v] + entries[name]], rs);
            name in entries' && |Olds(rs, name)| < |entries[name]| && entries'[name] == [v] + entries[name][|Olds(rs, name)|..]
  {
    assert OwnTop(entries[name], id, Olds(rs, name));
    RollbackByChain(entries[name := [v] + entries[name]], rs, name);
    RollbackUnder(v, entries[name], Olds(rs, name));
  }

  /** A drop over a change that is not committed: when that change is rolled back, the undo record of the drop is about
      a version that is no longer there. */
  lemma DanglingRecord(s: State, first: nat, second: nat, name: string, oid: nat)
    requires Valid(s) && first in s.active && second in s.active && first != second
    requires HasChain(s.entries, name) && s.entries[name][0].timestamp == first && Drop(s, second, name, oid).Done?
    ensures var dropped := Drop(s, second, name, oid).state;
            var r, s' := Record(name, s.entries[name][0].id), Rollback(dropped, first);
            && dropped.active[second].records == s.active[second].records + [r]
            && name in s'.entries && Position(s'.entries[name], r.entry) == |s'.entries[name]|
  {
    hide RollbackRecords, ChainsValid, RecordsValid;
    var c, rs := s.entries[name], s.active[first].records;
    var v := Version(s.nextVersion, oid, second, true, 0);
    assert ChainValid(c, s.nextVersion, s.lastTimestamp, Writers(s.active)) by {
      ChainOf(s, name);
    }
    assert forall j | 1 <= j < |c| + 1 :: ([v] + c)[j] == c[j - 1];
    assert RecordsValid(s.entries, first, rs);
    RollbackLeaves(s.entries, first, rs, name, v);
    OwnTopNonEmpty(s.entries, first, rs, name);
  }

  lemma OwnTopNonEmpty(entries: map<string, Chain>, id: nat, rs: seq<Record>, name: string)
    requires RecordsValid(entries, id, rs) && HasChain(entries, name) && entries[name][0].timestamp == id
    ensures Olds(rs, name) != []
  {
    assert OwnTop(entries[name], id, Olds(rs, name));
  }

  /** The tombstone outlives the rollback, and bars the name for every other transaction. */
  lemma FailedRenameStays(s: State, id: nat, name: string, newName: string, other: nat, startTS: nat)
    requires Valid(s) && id in s.active && s.active[id].records == [] && other != id && startTS < START_TRANSACTION_ID
    requires !RenameEnds(s, id, name, newName)
    ensures var c := Rollback(Rename(s, id, name, newName).state, id).entries[name];
            && c[1..] == s.entries[name] && c[0].deleted && Conflicts(other, startTS, c[0])
  {
    assert TransactionValid(s, id, s.active[id]);
  }
}
