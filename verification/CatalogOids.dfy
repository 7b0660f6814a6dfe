/**
 OIDs: in every view an OID is that of one live entry at most, and when a lookup by OID,
 which tests the newest version of a chain, finds the entry that is visible.
 */
module CatalogOids {
  import opened Catalog
  import opened CatalogInvariant
  import opened CatalogSteps
  import opened CatalogTransactions
  import opened CatalogReachable
  import opened CatalogGuards
  import opened CatalogSnapshots
  import opened CatalogProperties

  /** The names under which `getEntryOfOID` may find an OID: it looks at the top of each chain. */
  predicate Found(s: State, id: nat, oid: nat, name: string)
    requires id in s.active
  {
    HasChain(s.entries, name) && s.entries[name][0].oid == oid && View(s, id, name).Some?
  }

  predicate Live(s: State, id: nat, oid: nat, name: string)
    requires id in s.active
  {
    View(s, id, name).Some? && View(s, id, name).value.oid == oid
  }

  // ----- one live entry per OID -----

  function Top(c: Chain): Option<Version> {
    if c == [] then None else Some(c[0])
  }

  /** Not two live entries with one OID. */
  predicate Apart(x: Option<Version>, y: Option<Version>) {
    x.Some? && y.Some? && !x.value.deleted && !y.value.deleted ==> x.value.oid != y.value.oid
  }

  /** One transaction has written both chains and not yet committed: it may have moved an entry between them. */
  predicate SameWriter(c: Chain, d: Chain) {
    c != [] && d != [] && c[0].timestamp == d[0].timestamp >= START_TRANSACTION_ID
  }

  /** The newest versions are apart, the committed ones are, and each newest one from the committed one of the other
      chain unless one transaction wrote both. */
  predicate ChainsApart(c: Chain, d: Chain) {
    && Apart(Top(c), Top(d)) && Apart(Committed(c), Committed(d))
    && (SameWriter(c, d) || (Apart(Top(c), Committed(d)) && Apart(Committed(c), Top(d))))
  }

  ghost predicate AllApart(entries: map<string, Chain>) {
    forall m, n | m in entries && n in entries && m != n :: ChainsApart(entries[m], entries[n])
  }

  ghost predicate ViewApart(s: State, id: nat)
    requires id in s.active
  {
    forall m, n | m != n :: Apart(View(s, id, m), View(s, id, n))
  }

  ghost predicate ViewsApart(s: State) {
    forall id | id in s.active :: ViewApart(s, id)
  }

  lemma ApartPush(c: Chain, d: Chain, v: Version)
    requires ChainsApart(c, d) && v.timestamp >= START_TRANSACTION_ID
    requires c != [] && (c[0].timestamp < START_TRANSACTION_ID || c[0].timestamp == v.timestamp)
    requires Apart(Some(v), Top(d)) && (SameWriter([v] + c, d) || Apart(Some(v), Committed(d)))
    ensures ChainsApart([v] + c, d) && ChainsApart(d, [v] + c)
  {
    assert ([v] + c)[1..] == c;
  }

  /** An entry with this OID may go on top of the chain of this name. */
  ghost predicate Placeable(entries: map<string, Chain>, id: nat, name: string, oid: nat) {
    forall n | n in entries && n != name ::
      var v := Some(Version(0, oid, id, false, 0));
      Apart(v, Top(entries[n])) && ((entries[n] != [] && entries[n][0].timestamp == id) || Apart(v, Committed(entries[n])))
  }

  lemma AllApartPush(s: State, name: string, v: Version)
    requires AllApart(s.entries) && HasChain(s.entries, name) && v.timestamp >= START_TRANSACTION_ID && Uncontested(s, v.timestamp, name)
    requires v.deleted || Placeable(s.entries, v.timestamp, name, v.oid)
    ensures AllApart(Push(s, name, v).entries)
  {
    hide ChainsApart;
    var entries' := Push(s, name, v).entries;
    forall n | n in s.entries && n != name
      ensures ChainsApart(entries'[name], entries'[n]) && ChainsApart(entries'[n], entries'[name])
    {
      ApartPush(s.entries[name], s.entries[n], v);
    }
  }

  lemma AllApartWithChain(s: State, name: string, oid: nat)
    requires AllApart(s.entries)
    ensures AllApart(WithChain(s, name, oid).entries)
  {
  }

  lemma PlaceableWithChain(s: State, id: nat, name: string, oid: nat)
    requires Placeable(s.entries, id, name, oid)
    ensures Placeable(WithChain(s, name, oid).entries, id, name, oid)
  {
    hide Apart;
  }

  /** The OID of the live newest version of a chain may stay there. */
  lemma TopPlaceable(entries: map<string, Chain>, id: nat, name: string)
    requires AllApart(entries) && HasChain(entries, name) && !entries[name][0].deleted && id >= START_TRANSACTION_ID
    requires entries[name][0].timestamp < START_TRANSACTION_ID || entries[name][0].timestamp == id
    ensures Placeable(entries, id, name, entries[name][0].oid)
  {
    forall n | n in entries && n != name
      ensures var v := Some(Version(0, entries[name][0].oid, id, false, 0));
              Apart(v, Top(entries[n])) && ((entries[n] != [] && entries[n][0].timestamp == id) || Apart(v, Committed(entries[n])))
    {
      assert ChainsApart(entries[name], entries[n]);
    }
  }

  /** A new OID may go anywhere. */
  lemma NewPlaceable(s: State, id: nat, name: string)
    requires Bounded(s)
    ensures Placeable(s.entries, id, name, s.nextOID)
  {
    forall n | n in s.entries && n != name
      ensures var v := Some(Version(0, s.nextOID, id, false, 0));
              Apart(v, Top(s.entries[n])) && Apart(v, Committed(s.entries[n]))
    {
      var c := s.entries[n];
      assert ChainBounded(s, c);
      CommittedIn(c);
      assert VersionBounded(s, c[0]);
      assert Committed(c).Some? ==> VersionBounded(s, Committed(c).value);
    }
  }

  lemma EmplaceApart(s: State, id: nat, name: string, oid: nat, content: int)
    requires AllApart(s.entries) && id in s.active && id >= START_TRANSACTION_ID && Placeable(s.entries, id, name, oid)
    requires EmplaceNew(s, id, name, oid, content).Done?
    ensures AllApart(EmplaceNew(s, id, name, oid, content).state.entries)
  {
    hide AllApart, Placeable;
    var based := WithChain(s, name, oid);
    AllApartWithChain(s, name, oid);
    PlaceableWithChain(s, id, name, oid);
    AllApartPush(based, name, Version(based.nextVersion, oid, id, false, content));
  }

  lemma TopLive(s: State, id: nat, name: string)
    requires Valid(s) && id in s.active && View(s, id, name).Some? && Writable(s, id, name)
    ensures HasChain(s.entries, name) && View(s, id, name).value == s.entries[name][0] && !s.entries[name][0].deleted
    ensures id > START_TRANSACTION_ID && Uncontested(s, id, name)
  {
    TopVisible(s, id, name);
    WritableUncontested(s, id, name);
    assert TransactionValid(s, id, s.active[id]);
  }

  /** What a rename takes from one chain may go on another one. */
  lemma RenamePlaceable(s: State, id: nat, name: string, newName: string)
    requires Valid(s) && AllApart(s.entries) && id in s.active && View(s, id, name).Some? && Writable(s, id, name)
    ensures Placeable(Bury(s, id, name, View(s, id, name).value.oid).entries, id, newName, View(s, id, name).value.oid)
  {
    var oid := View(s, id, name).value.oid;
    TopLive(s, id, name);
    TopPlaceable(s.entries, id, name);
    var buried := Bury(s, id, name, oid).entries;
    forall n | n in buried && n != newName
      ensures var v := Some(Version(0, oid, id, false, 0));
              Apart(v, Top(buried[n])) && ((buried[n] != [] && buried[n][0].timestamp == id) || Apart(v, Committed(buried[n])))
    {
      if n != name {
        assert buried[n] == s.entries[n];
      }
    }
  }

  lemma RenameApart(s: State, id: nat, name: string, newName: string)
    requires Valid(s) && AllApart(s.entries) && id in s.active && View(s, id, name).Some? && Writable(s, id, name)
    requires Rename(s, id, name, newName).Done?
    ensures AllApart(Rename(s, id, name, newName).state.entries)
  {
    var v := View(s, id, name).value;
    TopLive(s, id, name);
    RenamePlaceable(s, id, name, newName);
    hide Valid, AllApart, Placeable, EmplaceNew;
    AllApartPush(s, name, Version(s.nextVersion, v.oid, id, true, 0));
    EmplaceApart(Bury(s, id, name, v.oid), id, newName, v.oid, v.content);
  }

  lemma WriteApart(s: State, a: Action)
    requires Valid(s) && Bounded(s) && AllApart(s.entries) && Enabled(s, a) && Safe(s, a) && !a.DoBegin? && !a.DoCommit? && !a.DoRollback?
    ensures AllApart(Apply(s, a).entries)
  {
    hide AllApart, EmplaceNew, Placeable, Writable, Uncontested;
    assert a.id > START_TRANSACTION_ID by {
      WriterID(s, a.id);
    }
    hide Valid, Bounded;
    match a
    case DoCreate(id, name, content) =>
      var s1 := s.(nextOID := s.nextOID + 1);
      NewPlaceable(s, id, name);
      if EmplaceNew(s1, id, name, s.nextOID, content).Done? {
        EmplaceApart(s1, id, name, s.nextOID, content);
      }
    case DoDrop(id, name, oid) =>
      if View(s, id, name).Some? {
        ViewHasChain(s, id, name);
        AllApartPush(s, name, Version(s.nextVersion, oid, id, true, 0));
      }
    case DoAlter(id, name, content) =>
      if View(s, id, name).Some? {
        AlterApart(s, id, name, content);
      }
    case DoRename(id, name, newName) =>
      if View(s, id, name).Some? {
        RenameApart(s, id, name, newName);
      }
  }

  lemma ViewHasChain(s: State, id: nat, name: string)
    requires id in s.active && View(s, id, name).Some?
    ensures HasChain(s.entries, name)
  {
  }

  lemma AlterApart(s: State, id: nat, name: string, content: int)
    requires Valid(s) && AllApart(s.entries) && id in s.active && View(s, id, name).Some? && Writable(s, id, name)
    ensures AllApart(Alter(s, id, name, content).state.entries)
  {
    TopLive(s, id, name);
    TopPlaceable(s.entries, id, name);
    hide Valid, AllApart, Placeable;
    AllApartPush(s, name, s.entries[name][0].(id := s.nextVersion, timestamp := id, content := content));
  }

  // ----- commit and rollback -----

  /** The newest version of a chain is committed, or all that its writer wrote is on top of a committed one. */
  lemma BelowCommitted(s: State, id: nat, name: string)
    requires Valid(s) && id in s.active && name in s.entries
    ensures var c, k := s.entries[name], |Olds(s.active[id].records, name)|;
            && Wrote(c, id, k) && (k > 0 ==> c[k].timestamp < START_TRANSACTION_ID)
  {
    var c, k := s.entries[name], |Olds(s.active[id].records, name)|;
    assert RecordsValid(s.entries, id, s.active[id].records) && OwnTop(c, id, Olds(s.active[id].records, name));
    if k > 0 && c[k].timestamp >= START_TRANSACTION_ID {
      UncommittedOnTop(s, name, k);
    }
  }

  /** Uncommitted versions are those of one transaction, on top of the chain. */
  lemma UncommittedOnTop(s: State, name: string, i: nat)
    requires Valid(s) && name in s.entries && i < |s.entries[name]| && s.entries[name][i].timestamp >= START_TRANSACTION_ID
    ensures s.entries[name][0].timestamp == s.entries[name][i].timestamp
  {
    var c, other := s.entries[name], s.entries[name][i].timestamp;
    ChainOf(s, name);
    assert other in s.active;
    assert RecordsValid(s.entries, other, s.active[other].records) && OwnTop(c, other, Olds(s.active[other].records, name));
  }

  lemma {:induction false} CommittedBelow(c: Chain, k: nat)
    requires k <= |c| && forall i | 0 <= i < k :: c[i].timestamp >= START_TRANSACTION_ID
    ensures Committed(c[k..]) == Committed(c)
    decreases k
  {
    if k > 0 {
      CommittedBelow(c[1..], k - 1);
      assert c[1..][k - 1..] == c[k..];
    }
  }

  /** How the end of a transaction shows in one chain: not at all, or the newest version is now the committed one. */
  predicate Settled(c: Chain, d: Chain, id: nat, commit: bool) {
    if c != [] && c[0].timestamp == id then
      && d != [] && d[0].timestamp < START_TRANSACTION_ID
      && if commit then d[0].oid == c[0].oid && d[0].deleted == c[0].deleted else Some(d[0]) == Committed(c)
    else d == c
  }

  lemma SettledApart(c: Chain, d: Chain, c': Chain, d': Chain, id: nat, commit: bool)
    requires ChainsApart(c, d) && Settled(c, c', id, commit) && Settled(d, d', id, commit) && id >= START_TRANSACTION_ID
    ensures ChainsApart(c', d')
  {
  }

  lemma AllSettledApart(entries: map<string, Chain>, entries': map<string, Chain>, id: nat, commit: bool)
    requires AllApart(entries) && entries'.Keys == entries.Keys && id >= START_TRANSACTION_ID
    requires forall n | n in entries :: Settled(entries[n], entries'[n], id, commit)
    ensures AllApart(entries')
  {
    hide ChainsApart, Settled;
    forall m, n | m in entries' && n in entries' && m != n
      ensures ChainsApart(entries'[m], entries'[n])
    {
      SettledApart(entries[m], entries[n], entries'[m], entries'[n], id, commit);
    }
  }

  lemma CommitSettled(c: Chain, id: nat, ts: nat, k: nat)
    requires Wrote(c, id, k) && ts < START_TRANSACTION_ID
    ensures Settled(c, Relabelled(c, id, ts), id, true)
  {
    RelabelledAt(c, id, ts);
    if c[0].timestamp != id {
      assert Relabelled(c, id, ts) == c;
    }
  }

  lemma RollbackSettled(c: Chain, id: nat, k: nat)
    requires Wrote(c, id, k) && id >= START_TRANSACTION_ID && (k > 0 ==> c[k].timestamp < START_TRANSACTION_ID)
    ensures Settled(c, c[k..], id, false)
  {
    CommittedBelow(c, k);
  }

  lemma ChainSettled(s: State, id: nat, name: string, c: Chain)
    requires Valid(s) && id in s.active && name in s.entries && s.lastTimestamp + 1 < START_TRANSACTION_ID
    requires c == Relabelled(s.entries[name], id, s.lastTimestamp + 1)
    ensures Settled(s.entries[name], c, id, true)
  {
    hide Settled, Relabelled;
    BelowCommitted(s, id, name);
    hide Valid;
    CommitSettled(s.entries[name], id, s.lastTimestamp + 1, |Olds(s.active[id].records, name)|);
  }

  lemma CommitApart(s: State, id: nat)
    requires Valid(s) && AllApart(s.entries) && id in s.active && s.lastTimestamp + 1 < START_TRANSACTION_ID
    ensures AllApart(Commit(s, id).entries)
  {
    if s.active[id].write {
      hide Settled, AllApart, CommitRecords, Relabelled;
      var s' := Commit(s, id);
      CommitEntries(s, id);
      assert TransactionValid(s, id, s.active[id]);
      forall n | n in s.entries
        ensures Settled(s.entries[n], s'.entries[n], id, true)
      {
        ChainSettled(s, id, n, s'.entries[n]);
      }
      hide Valid, Commit;
      AllSettledApart(s.entries, s'.entries, id, true);
    }
  }

  lemma RollbackApart(s: State, id: nat)
    requires Valid(s) && AllApart(s.entries) && id in s.active
    ensures AllApart(Rollback(s, id).entries)
  {
    var s' := Rollback(s, id);
    RollbackEntries(s, id);
    assert TransactionValid(s, id, s.active[id]);
    forall n | n in s.entries
      ensures Settled(s.entries[n], s'.entries[n], id, false)
    {
      BelowCommitted(s, id, n);
      RollbackSettled(s.entries[n], id, |Olds(s.active[id].records, n)|);
    }
    hide Valid, AllApart, Rollback;
    AllSettledApart(s.entries, s'.entries, id, false);
  }

  // ----- views -----

  lemma OwnViewApart(s: State, a: Action)
    requires Bounded(s) && Enabled(s, a) && !a.DoBegin? && !a.DoCommit? && !a.DoRollback? && ViewApart(s, a.id)
    requires a.DoRename? ==> RenameEnds(s, a.id, a.name, a.newName)
    ensures a.id in Apply(s, a).active && ViewApart(Apply(s, a), a.id)
  {
    var s' := Apply(s, a);
    hide Bounded, Create, Drop, Alter, Rename, View;
    WriteActive(s, a);
    forall m, n | m != n
      ensures Apart(View(s', a.id, m), View(s', a.id, n))
    {
      assert Apart(View(s, a.id, m), View(s, a.id, n));
      OwnView(s, a, m);
      OwnView(s, a, n);
      if a.DoCreate? && (a.name == m || a.name == n) {
        var x := if a.name == m then n else m;
        if View(s, a.id, x).Some? {
          ViewBelowNext(s, a.id, x);
        }
      }
      if a.DoRename? && View(s, a.id, a.name).Some? && (a.newName == m || a.newName == n) {
        var x := if a.newName == m then n else m;
        assert x != a.name ==> Apart(View(s, a.id, a.name), View(s, a.id, x));
        ViewIsLive(s, a.id, a.name);
        ViewIsLive(s, a.id, x);
      }
      ViewIsLive(s, a.id, m);
      ViewIsLive(s, a.id, n);
    }
  }

  lemma WriteActive(s: State, a: Action)
    requires Enabled(s, a) && !a.DoBegin? && !a.DoCommit? && !a.DoRollback?
    ensures a.id in Apply(s, a).active
  {
  }

  lemma ViewIsLive(s: State, id: nat, name: string)
    requires id in s.active
    ensures View(s, id, name).Some? ==> !View(s, id, name).value.deleted
  {
  }

  /** The OID that a transaction sees under a name after its own step. */
  lemma OwnView(s: State, a: Action, x: string)
    requires Enabled(s, a) && !a.DoBegin? && !a.DoCommit? && !a.DoRollback? && a.id in Apply(s, a).active
    requires a.DoRename? ==> RenameEnds(s, a.id, a.name, a.newName)
    ensures var v := View(Apply(s, a), a.id, x);
            match a
            case DoCreate(id, name, _) => v == View(s, id, x) || (x == name && v.Some? && v.value.oid == s.nextOID)
            case DoDrop(id, name, _) => v == View(s, id, x) || v.None?
            case DoAlter(id, name, _) => v == View(s, id, x) || (x == name && v.Some? && View(s, id, x).Some? && v.value.oid == View(s, id, x).value.oid)
            case DoRename(id, name, newName) =>
              if View(s, id, name).None? then v == View(s, id, x)
              else if x == newName then v.Some? && v.value.oid == View(s, id, name).value.oid
              else v.None? || (x != name && v == View(s, id, x))
  {
    match a
    case DoCreate(id, name, content) =>
      if Create(s, id, name, content).Done? {
        CreateSeen(s, id, name, content, x);
      }
    case DoDrop(id, name, oid) =>
      if Drop(s, id, name, oid).Done? {
        DropSeen(s, id, name, oid, x);
      }
    case DoAlter(id, name, content) =>
      if Alter(s, id, name, content).Done? {
        AlterSeen(s, id, name, content, x);
      }
    case DoRename(id, name, newName) =>
      if Rename(s, id, name, newName).Done? {
        RenameSeen(s, id, name, newName, x);
      }
  }

  lemma BeginViewApart(s: State, write: bool)
    requires Bounded(s) && AllApart(s.entries) && Begin(s, write).Some?
    ensures ViewApart(Begin(s, write).value, s.lastTransactionID + 1)
  {
    var s', id := Begin(s, write).value, s.lastTransactionID + 1;
    forall m, n | m != n
      ensures Apart(View(s', id, m), View(s', id, n))
    {
      if m in s.entries && n in s.entries {
        CommittedNow(s, m);
        CommittedNow(s, n);
        assert ChainsApart(s.entries[m], s.entries[n]);
      }
    }
  }

  // ----- runs -----

  /** All that safe runs keep. */
  ghost predicate Kept(s: State) {
    Valid(s) && Guarded(s) && AllApart(s.entries) && ViewsApart(s)
  }

  lemma OthersViewApart(s: State, a: Action, id: nat)
    requires Guarded(s) && Enabled(s, a) && id in s.active && !By(a, id) && ViewApart(s, id)
    ensures id in Apply(s, a).active && ViewApart(Apply(s, a), id)
  {
    hide Guarded, Enabled, Apply, View;
    var s' := Apply(s, a);
    StepUnseen(s, a, id, "");
    forall m, n | m != n
      ensures Apart(View(s', id, m), View(s', id, n))
    {
      StepUnseen(s, a, id, m);
      StepUnseen(s, a, id, n);
      assert Apart(View(s, id, m), View(s, id, n));
    }
  }

  /** Who is active after a step, and was not before. */
  lemma StepActive(s: State, a: Action, id: nat)
    requires Enabled(s, a) && id in Apply(s, a).active
    ensures if id in s.active && !By(a, id) then true
            else if a.DoBegin? then Begin(s, a.write).Some? && id == s.lastTransactionID + 1
            else !a.DoCommit? && !a.DoRollback? && a.id == id
  {
  }

  lemma StepViewApart(s: State, a: Action, id: nat)
    requires Guarded(s) && Bounded(s) && AllApart(s.entries) && (id in s.active ==> ViewApart(s, id))
    requires Enabled(s, a) && Safe(s, a) && id in Apply(s, a).active
    ensures ViewApart(Apply(s, a), id)
  {
    hide Guarded, Bounded, AllApart, ViewApart, Apply, Enabled, Safe;
    StepActive(s, a, id);
    if id in s.active && !By(a, id) {
      OthersViewApart(s, a, id);
    } else if a.DoBegin? {
      BegunViewApart(s, a);
    } else {
      EnabledActive(s, a);
      SafeRenameEnds(s, a);
      OwnViewApart(s, a);
    }
  }

  lemma StepViewsApart(s: State, a: Action)
    requires Kept(s) && Enabled(s, a) && Safe(s, a)
    ensures ViewsApart(Apply(s, a))
  {
    assert Bounded(s);
    hide Valid, Guarded, Bounded, AllApart, ViewApart, Apply, Enabled, Safe;
    forall id | id in Apply(s, a).active
      ensures ViewApart(Apply(s, a), id)
    {
      StepViewApart(s, a, id);
    }
  }

  lemma BegunViewApart(s: State, a: Action)
    requires Bounded(s) && AllApart(s.entries) && a.DoBegin? && Begin(s, a.write).Some?
    ensures Enabled(s, a) && s.lastTransactionID + 1 in Apply(s, a).active && ViewApart(Apply(s, a), s.lastTransactionID + 1)
  {
    hide Bounded, AllApart, ViewApart;
    BeginViewApart(s, a.write);
  }

  lemma EnabledActive(s: State, a: Action)
    requires Enabled(s, a) && !a.DoBegin?
    ensures a.id in s.active
  {
  }

  lemma SafeRenameEnds(s: State, a: Action)
    requires Enabled(s, a) && Safe(s, a)
    ensures a.DoRename? ==> a.id in s.active && RenameEnds(s, a.id, a.name, a.newName)
  {
  }

  lemma StepKept(s: State, a: Action)
    requires Kept(s) && Enabled(s, a) && Safe(s, a)
    ensures Kept(Apply(s, a))
  {
    StepViewsApart(s, a);
    assert Bounded(s);
    hide Bounded, Valid, Guarded, AllApart, ViewsApart;
    StepExact(s, a);
    SafeHarmless(s, a);
    StepGuarded(s, a);
    StepApart(s, a);
  }

  lemma StepApart(s: State, a: Action)
    requires Valid(s) && Bounded(s) && AllApart(s.entries) && Enabled(s, a) && Safe(s, a)
    ensures AllApart(Apply(s, a).entries)
  {
    hide Valid, Bounded, AllApart;
    match a
    case DoBegin(write) =>
    case DoCommit(id) => CommitApart(s, id);
    case DoRollback(id) => RollbackApart(s, id);
    case _ => WriteApart(s, a);
  }

  lemma {:induction false} RunKept(s: State, actions: seq<Action>)
    requires Kept(s) && RunEnabled(s, actions) && RunSafe(s, actions)
    ensures Kept(Run(s, actions))
    decreases |actions|
  {
    hide Kept, Safe;
    if actions != [] {
      StepKept(s, actions[0]);
      RunKept(Apply(s, actions[0]), actions[1..]);
    }
  }

  /** A catalog to start with in which no two live entries have one OID. */
  ghost predicate StartApart(s: State) {
    Start(s) && AllApart(s.entries)
  }

  lemma StartKept(s: State)
    requires StartApart(s)
    ensures Kept(s)
  {
    StartValid(s);
    StartGuarded(s);
  }

  /** In every state that a safe run reaches, no transaction sees two live entries with one OID. */
  lemma LiveUnique(start: State, actions: seq<Action>, id: nat, oid: nat, m: string, n: string)
    requires StartApart(start) && RunEnabled(start, actions) && RunSafe(start, actions) && id in Run(start, actions).active
    requires Live(Run(start, actions), id, oid, m) && Live(Run(start, actions), id, oid, n)
    ensures m == n
  {
    var s := Run(start, actions);
    assert ViewApart(s, id) by {
      StartKept(start);
      RunKept(start, actions);
    }
    hide Run, RunEnabled, RunSafe, StartApart;
    if m != n {
      assert Apart(View(s, id, m), View(s, id, n));
      ViewIsLive(s, id, m);
      ViewIsLive(s, id, n);
    }
  }

  /** A catalog that was written out in such a state is such a start when it is read in. */
  lemma RestoredApart(s: State, names: seq<string>, multiWrites: bool)
    requires Kept(s) && Enumerates(names, s.entries)
    ensures var saved := Serialize(s.entries, names);
            StartApart(State(multiWrites, Deserialize(saved), s.nextOID, |saved|, START_TRANSACTION_ID, 1, map[]))
  {
    assert Bounded(s) && AllApart(s.entries);
    RestoredStart(s, names, multiWrites);
    hide Kept, Bounded, Serialize, Deserialize, Saves;
    var entries := Deserialize(Serialize(s.entries, names));
    forall m, n | m in entries && n in entries && m != n
      ensures ChainsApart(entries[m], entries[n])
    {
      RestoredAt(s.entries, names, m);
      RestoredAt(s.entries, names, n);
      assert ChainsApart(s.entries[m], s.entries[n]);
      assert Committed(entries[m]) == Top(entries[m]) && Committed(entries[n]) == Top(entries[n]);
    }
  }
}
