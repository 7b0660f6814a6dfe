/**
 What holds in every run of the catalog, whatever conflicts its steps meet: the end of
 each chain is visible to everyone, and every timestamp is a commit time that has passed
 or the ID of a transaction that has begun.
 */
module CatalogReachable {
  import opened Catalog
  import opened CatalogInvariant
  import opened CatalogSteps
  import opened CatalogTransactions

  // ----- steps -----

  datatype Action =
    | DoBegin(write: bool)
    | DoCreate(id: nat, name: string, content: int)
    | DoDrop(id: nat, name: string, oid: nat)
    | DoAlter(id: nat, name: string, content: int)
    | DoRename(id: nat, name: string, newName: string)
    | DoCommit(id: nat)
    | DoRollback(id: nat)

  predicate By(a: Action, id: nat) {
    !a.DoBegin? && a.id == id
  }

  /** Transactions act while they run, readers do not write, and commit times stay below transaction IDs. */
  predicate Enabled(s: State, a: Action) {
    match a
    case DoBegin(_) => true
    case DoCommit(id) => id in s.active && s.lastTimestamp + 1 < START_TRANSACTION_ID
    case DoRollback(id) => id in s.active
    case _ => a.id in s.active && s.active[a.id].write
  }

  /** A commit or rollback leaves a chain alone where an undo record has lost its version; the code asserts against it. */
  function Apply(s: State, a: Action): State
    requires Enabled(s, a)
  {
    match a
    case DoBegin(write) => var r := Begin(s, write); if r.Some? then r.value else s
    case DoCreate(id, name, content) => Create(s, id, name, content).state
    case DoDrop(id, name, oid) => Drop(s, id, name, oid).state
    case DoAlter(id, name, content) => Alter(s, id, name, content).state
    case DoRename(id, name, newName) => Rename(s, id, name, newName).state
    case DoCommit(id) => Commit(s, id)
    case DoRollback(id) => Rollback(s, id)
  }

  predicate RunEnabled(s: State, actions: seq<Action>)
    decreases |actions|
  {
    actions == [] || (Enabled(s, actions[0]) && RunEnabled(Apply(s, actions[0]), actions[1..]))
  }

  function Run(s: State, actions: seq<Action>): State
    requires RunEnabled(s, actions)
    decreases |actions|
  {
    if actions == [] then s else Run(Apply(s, actions[0]), actions[1..])
  }

  predicate BelowNext(s: State, v: Version) {
    v.id < s.nextVersion && (v.deleted || v.oid < s.nextOID)
  }

  /** A catalog as the database starts with it: empty, or just read in. */
  ghost predicate Start(s: State) {
    && s.active == map[] && s.lastTransactionID == START_TRANSACTION_ID && s.lastTimestamp == 1
    && forall name | name in s.entries :: |s.entries[name]| == 1 && s.entries[name][0].timestamp == 0 && BelowNext(s, s.entries[name][0])
  }

  function Initial(multiWrites: bool): (s: State)
    ensures Start(s) && s.entries == map[]
  {
    State(multiWrites, map[], 0, 0, START_TRANSACTION_ID, 1, map[])
  }

  // ----- bounds -----

  /** Written in the past, not by a reader, and with an OID that was given out unless it is a tombstone. */
  ghost predicate VersionBounded(s: State, v: Version) {
    && BelowNext(s, v) && (v.timestamp <= s.lastTimestamp || START_TRANSACTION_ID < v.timestamp <= s.lastTransactionID)
    && (v.timestamp in s.active ==> s.active[v.timestamp].write)
  }

  ghost predicate ChainBounded(s: State, c: Chain) {
    c != [] && c[|c| - 1].timestamp == 0 && Distinct(c) && forall i | 0 <= i < |c| :: VersionBounded(s, c[i])
  }

  ghost predicate TransactionsValid(s: State) {
    && s.lastTimestamp < START_TRANSACTION_ID <= s.lastTransactionID
    && forall id | id in s.active :: TransactionValid(s, id, s.active[id])
  }

  ghost predicate Bounded(s: State) {
    TransactionsValid(s) && forall name | name in s.entries :: ChainBounded(s, s.entries[name])
  }

  lemma TransactionBounds(s: State, id: nat)
    requires TransactionsValid(s) && id in s.active
    ensures s.lastTransactionID >= id > START_TRANSACTION_ID > s.lastTimestamp >= s.active[id].startTS
  {
    assert TransactionValid(s, id, s.active[id]);
  }

  // ----- writes -----

  /** What a write changes apart from the chains. */
  ghost predicate SameTransactions(s: State, s': State) {
    && s'.multiWrites == s.multiWrites && s'.lastTimestamp == s.lastTimestamp && s'.lastTransactionID == s.lastTransactionID
    && s'.active.Keys == s.active.Keys
    && forall id | id in s.active :: s'.active[id].(records := s.active[id].records) == s.active[id] && (!s.active[id].write ==> s'.active[id] == s.active[id])
  }

  lemma SameTransactionsValid(s: State, s': State)
    requires TransactionsValid(s) && SameTransactions(s, s')
    ensures TransactionsValid(s')
  {
    assert Writers(s'.active) == Writers(s.active);
    forall id | id in s'.active
      ensures TransactionValid(s', id, s'.active[id])
    {
      assert TransactionValid(s, id, s.active[id]);
    }
  }

  lemma ChainStaysBounded(s: State, s': State, c: Chain)
    requires ChainBounded(s, c) && SameTransactions(s, s') && s.nextVersion <= s'.nextVersion && s.nextOID <= s'.nextOID
    ensures ChainBounded(s', c)
  {
    forall i | 0 <= i < |c|
      ensures VersionBounded(s', c[i])
    {
      assert VersionBounded(s, c[i]);
    }
  }

  lemma ChainPushBounded(s: State, s': State, c: Chain, v: Version)
    requires TransactionsValid(s) && ChainBounded(s, c) && SameTransactions(s, s') && s'.nextVersion > v.id >= s.nextVersion && s.nextOID <= s'.nextOID
    requires v.timestamp in s.active && s.active[v.timestamp].write && (v.deleted || v.oid < s'.nextOID)
    ensures ChainBounded(s', [v] + c)
  {
    var c' := [v] + c;
    ChainStaysBounded(s, s', c);
    TransactionBounds(s, v.timestamp);
    assert c'[|c'| - 1] == c[|c| - 1];
    forall i | 0 <= i < |c'|
      ensures VersionBounded(s', c'[i])
    {
      assert i > 0 ==> c'[i] == c[i - 1];
    }
    forall i, j | 0 <= i < j < |c'|
      ensures c'[i].id != c'[j].id
    {
      assert VersionBounded(s, c[j - 1]);
    }
  }

  lemma PushBounded(s: State, name: string, v: Version)
    requires Bounded(s) && name in s.entries && v.id == s.nextVersion && v.timestamp in s.active && s.active[v.timestamp].write
    requires v.deleted || v.oid < s.nextOID
    ensures Bounded(Push(s, name, v))
  {
    hide ChainBounded, TransactionsValid;
    var s' := Push(s, name, v);
    SameTransactionsValid(s, s');
    forall x | x in s'.entries
      ensures ChainBounded(s', s'.entries[x])
    {
      if x == name {
        ChainPushBounded(s, s', s.entries[name], v);
      } else {
        ChainStaysBounded(s, s', s.entries[x]);
      }
    }
  }

  lemma WithChainBounded(s: State, name: string, oid: nat)
    requires Bounded(s)
    ensures Bounded(WithChain(s, name, oid)) && HasChain(WithChain(s, name, oid).entries, name)
  {
    var s' := WithChain(s, name, oid);
    SameTransactionsValid(s, s');
    if !HasChain(s.entries, name) {
      forall x | x in s'.entries
        ensures ChainBounded(s', s'.entries[x])
      {
        if x == name {
          assert s'.entries[x][0].timestamp == 0;
        } else {
          ChainStaysBounded(s, s', s.entries[x]);
        }
      }
    }
  }

  lemma AddRecordBounded(s: State, id: nat, r: Record)
    requires Bounded(s) && id in s.active && s.active[id].write
    ensures Bounded(AddRecord(s, id, r))
  {
    hide ChainBounded, TransactionsValid;
    var s' := AddRecord(s, id, r);
    SameTransactionsValid(s, s');
    forall x | x in s'.entries
      ensures ChainBounded(s', s'.entries[x])
    {
      ChainStaysBounded(s, s', s.entries[x]);
    }
  }

  lemma NextOIDBounded(s: State, oid: nat)
    requires Bounded(s) && oid >= s.nextOID
    ensures Bounded(s.(nextOID := oid))
  {
    hide ChainBounded, TransactionsValid;
    var s' := s.(nextOID := oid);
    SameTransactionsValid(s, s');
    forall x | x in s'.entries
      ensures ChainBounded(s', s'.entries[x])
    {
      ChainStaysBounded(s, s', s.entries[x]);
    }
  }

  lemma EmplaceBounded(s: State, id: nat, name: string, oid: nat, content: int)
    requires Bounded(s) && id in s.active && s.active[id].write && oid < s.nextOID
    ensures Bounded(EmplaceNew(s, id, name, oid, content).state)
  {
    hide Bounded;
    if EmplaceNew(s, id, name, oid, content).Done? {
      var based := WithChain(s, name, oid);
      WithChainBounded(s, name, oid);
      PushBounded(based, name, Version(based.nextVersion, oid, id, false, content));
    }
  }

  lemma ViewBelowNext(s: State, id: nat, name: string)
    requires Bounded(s) && id in s.active && View(s, id, name).Some?
    ensures View(s, id, name).value.oid < s.nextOID
  {
    assert ChainBounded(s, s.entries[name]);
    VisibleIn(s.entries[name], id, s.active[id].startTS);
    assert VersionBounded(s, View(s, id, name).value);
  }

  lemma WriteBounded(s: State, a: Action)
    requires Bounded(s) && Enabled(s, a) && !a.DoBegin? && !a.DoCommit? && !a.DoRollback?
    ensures Bounded(Apply(s, a))
  {
    hide Bounded, EmplaceNew, WithChain;
    match a
    case DoCreate(id, name, content) =>
      NextOIDBounded(s, s.nextOID + 1);
      var s1 := s.(nextOID := s.nextOID + 1);
      EmplaceBounded(s1, id, name, s.nextOID, content);
      var o := EmplaceNew(s1, id, name, s.nextOID, content);
      if o.Done? {
        AddRecordBounded(o.state, id, Record(name, o.state.entries[name][1].id));
      }
    case DoDrop(id, name, oid) =>
      if View(s, id, name).Some? {
        PushBounded(s, name, Version(s.nextVersion, oid, id, true, 0));
        AddRecordBounded(Bury(s, id, name, oid), id, Record(name, s.entries[name][0].id));
      }
    case DoAlter(id, name, content) =>
      var v := View(s, id, name);
      if v.Some? {
        ViewBelowNext(s, id, name);
        var v' := v.value.(id := s.nextVersion, timestamp := id, content := content);
        PushBounded(s, name, v');
        AddRecordBounded(Push(s, name, v'), id, Record(name, v.value.id));
      }
    case DoRename(id, name, newName) =>
      RenameBounded(s, id, name, newName);
  }

  lemma RenameBounded(s: State, id: nat, name: string, newName: string)
    requires Bounded(s) && id in s.active && s.active[id].write
    ensures Bounded(Rename(s, id, name, newName).state)
  {
    hide Bounded, EmplaceNew;
    var v := View(s, id, name);
    if v.Some? {
      ViewBelowNext(s, id, name);
      PushBounded(s, name, Version(s.nextVersion, v.value.oid, id, true, 0));
      var buried := Bury(s, id, name, v.value.oid);
      EmplaceBounded(buried, id, newName, v.value.oid, v.value.content);
      var o := EmplaceNew(buried, id, newName, v.value.oid, v.value.content);
      if o.Done? {
        var r := Record(name, v.value.id);
        AddRecordBounded(o.state, id, r);
        AddRecordBounded(AddRecord(o.state, id, r), id, Record(newName, o.state.entries[newName][1].id));
      }
    }
  }

  // ----- transactions -----

  lemma BeginBounded(s: State, write: bool)
    requires Bounded(s) && Begin(s, write).Some?
    ensures Bounded(Begin(s, write).value)
  {
    var s', id := Begin(s, write).value, s.lastTransactionID + 1;
    assert id !in s.active by {
      if id in s.active {
        TransactionBounds(s, id);
      }
    }
    assert Writers(s'.active) == if write then Writers(s.active) + {id} else Writers(s.active);
    forall other | other in s'.active
      ensures TransactionValid(s', other, s'.active[other])
    {
      if other != id {
        assert TransactionValid(s, other, s.active[other]);
        if s.active[other].write && !s.multiWrites {
          assert other in Writers(s.active) && HasActiveWriter(s);
        }
      } else if write && !s.multiWrites {
        assert Writers(s.active) == {};
      }
    }
    forall name | name in s'.entries
      ensures ChainBounded(s', s'.entries[name])
    {
      var c := s.entries[name];
      assert ChainBounded(s, c);
      forall i | 0 <= i < |c|
        ensures VersionBounded(s', c[i])
      {
        assert VersionBounded(s, c[i]);
      }
    }
  }

  /** Commits change timestamps above the end of the chain only. */
  lemma {:induction false} CommitChainAt(c: Chain, olds: seq<nat>, ts: nat)
    ensures var d := CommitChain(c, olds, ts);
            forall i | 0 <= i < |c| :: d[i] == c[i] || (i < |c| - 1 && d[i] == c[i].(timestamp := ts))
    decreases |olds|
  {
    if olds != [] {
      CommitChainAt(c, olds[..|olds| - 1], ts);
    }
  }

  /** A rollback takes versions out of a chain, and never its end. */
  ghost predicate Thinned(c: Chain, d: Chain) {
    && d != [] && c != [] && d[|d| - 1] == c[|c| - 1] && (forall i | 0 <= i < |d| :: d[i] in c)
    && (Distinct(c) ==> Distinct(d))
  }

  lemma RemoveAboveThinned(c: Chain, entry: nat)
    requires c != []
    ensures Thinned(c, RemoveAbove(c, entry))
  {
    var i, d := Position(c, entry), RemoveAbove(c, entry);
    if 0 < i < |c| {
      assert forall k | 0 <= k < |d| :: d[k] == if k < i - 1 then c[k] else c[k + 1];
    }
  }

  lemma ThinnedAgain(c: Chain, d: Chain, e: Chain)
    requires Thinned(c, d) && Thinned(d, e)
    ensures Thinned(c, e)
  {
    hide Distinct;
  }

  lemma {:induction false} RollbackChainThinned(c: Chain, olds: seq<nat>)
    requires c != []
    ensures Thinned(c, RollbackChain(c, olds))
    decreases |olds|
  {
    if olds != [] {
      var d := RemoveAbove(c, olds[|olds| - 1]);
      RemoveAboveThinned(c, olds[|olds| - 1]);
      assert d != [];
      hide Thinned, RemoveAbove;
      RollbackChainThinned(d, olds[..|olds| - 1]);
      ThinnedAgain(c, d, RollbackChain(d, olds[..|olds| - 1]));
    }
  }

  lemma EndTransactions(s: State, s': State, id: nat)
    requires TransactionsValid(s) && id in s.active && s'.active == s.active - {id} && s'.multiWrites == s.multiWrites
    requires s'.lastTransactionID == s.lastTransactionID && s.lastTimestamp <= s'.lastTimestamp < START_TRANSACTION_ID
    requires s'.lastTimestamp == s.lastTimestamp || s.active[id].write
    ensures TransactionsValid(s')
  {
    EndWriters(s, id);
    assert TransactionValid(s, id, s.active[id]);
    forall other | other in s'.active
      ensures TransactionValid(s', other, s'.active[other])
    {
      assert TransactionValid(s, other, s.active[other]);
      assert s.active[other].write ==> other in Writers(s.active);
      assert s.active[id].write ==> id in Writers(s.active);
    }
  }

  lemma CommitBounded(s: State, id: nat)
    requires Bounded(s) && id in s.active && s.lastTimestamp + 1 < START_TRANSACTION_ID
    ensures Bounded(Commit(s, id))
  {
    var s', t := Commit(s, id), s.active[id];
    EndTransactions(s, s', id);
    if t.write {
      CommitByChain(s.entries, t.records, s.lastTimestamp + 1, "");
    }
    forall name | name in s'.entries
      ensures ChainBounded(s', s'.entries[name])
    {
      var c := s.entries[name];
      assert ChainBounded(s, c);
      if t.write {
        CommitByChain(s.entries, t.records, s.lastTimestamp + 1, name);
        CommitChainAt(c, Olds(t.records, name), s.lastTimestamp + 1);
      }
      CommittedBounded(s, s', c, s'.entries[name], id);
    }
  }

  lemma CommittedBounded(s: State, s': State, c: Chain, d: Chain, id: nat)
    requires TransactionsValid(s) && TransactionsValid(s') && ChainBounded(s, c) && |d| == |c| && s'.nextVersion == s.nextVersion && s'.nextOID == s.nextOID
    requires s'.lastTransactionID == s.lastTransactionID && s'.lastTimestamp >= s.lastTimestamp && s'.active == s.active - {id}
    requires forall i | 0 <= i < |c| :: d[i] == c[i] || (i < |c| - 1 && d[i] == c[i].(timestamp := s'.lastTimestamp))
    ensures ChainBounded(s', d)
  {
    if s'.lastTimestamp in s'.active {
      TransactionBounds(s', s'.lastTimestamp);
    }
    forall i | 0 <= i < |d|
      ensures VersionBounded(s', d[i])
    {
      assert VersionBounded(s, c[i]);
    }
    assert forall i | 0 <= i < |d| :: d[i].id == c[i].id;
  }

  lemma RollbackBounded(s: State, id: nat)
    requires Bounded(s) && id in s.active
    ensures Bounded(Rollback(s, id))
  {
    var s', rs := Rollback(s, id), s.active[id].records;
    EndTransactions(s, s', id);
    RollbackByChain(s.entries, rs, "");
    forall name | name in s'.entries
      ensures ChainBounded(s', s'.entries[name])
    {
      var c, d := s.entries[name], s'.entries[name];
      assert ChainBounded(s, c);
      RollbackByChain(s.entries, rs, name);
      RollbackChainThinned(c, Olds(rs, name));
      forall i | 0 <= i < |d|
        ensures VersionBounded(s', d[i])
      {
        assert d[i] in c;
        assert VersionBounded(s, d[i]);
      }
    }
  }

  // ----- runs -----

  lemma StepBounded(s: State, a: Action)
    requires Bounded(s) && Enabled(s, a)
    ensures Bounded(Apply(s, a))
  {
    hide Bounded;
    match a
    case DoBegin(write) =>
      if Begin(s, write).Some? {
        BeginBounded(s, write);
      }
    case DoCommit(id) => CommitBounded(s, id);
    case DoRollback(id) => RollbackBounded(s, id);
    case _ => WriteBounded(s, a);
  }

  lemma {:induction false} RunBounded(s: State, actions: seq<Action>)
    requires Bounded(s) && RunEnabled(s, actions)
    ensures Bounded(Run(s, actions))
    decreases |actions|
  {
    hide Bounded;
    if actions != [] {
      StepBounded(s, actions[0]);
      RunBounded(Apply(s, actions[0]), actions[1..]);
    }
  }

  lemma StartValid(s: State)
    requires Start(s)
    ensures Valid(s) && Bounded(s)
  {
    assert Writers(s.active) == {};
  }

  /** A state that some run of the catalog reaches, conflicts and failed renames included. */
  ghost predicate Reachable(s: State) {
    exists start, actions :: Start(start) && RunEnabled(start, actions) && s == Run(start, actions)
  }

  lemma ReachableBounded(s: State)
    requires Reachable(s)
    ensures Bounded(s)
  {
    var start, actions :| Start(start) && RunEnabled(start, actions) && s == Run(start, actions);
    StartValid(start);
    RunBounded(start, actions);
  }

  /** In every reachable state, every chain has a version that every running transaction sees. */
  lemma ReachableVisible(s: State, id: nat, name: string)
    requires Reachable(s) && id in s.active && name in s.entries
    ensures Visible(s.entries[name], id, s.active[id].startTS).Some?
  {
    ReachableBounded(s);
    assert ChainBounded(s, s.entries[name]);
    VisibleExists(s.entries[name], id, s.active[id].startTS);
  }
}
