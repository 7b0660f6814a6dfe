/**
 What keeps snapshots stable and undo records usable although renames fail halfway: above
 the version that a record names there are only versions of its transaction and of
 transactions that have ended without publishing them.
 */
module CatalogGuards {
  import opened Catalog
  import opened CatalogInvariant
  import opened CatalogSteps
  import opened CatalogTransactions
  import opened CatalogReachable

  // ----- guarded records -----

  /** A version that no running transaction but `writer` can see. */
  predicate Spare(ts: nat, writer: nat, ids: set<nat>) {
    ts == writer || (ts >= START_TRANSACTION_ID && ts !in ids)
  }

  /** Later records name newer versions, and each version named has one above it. */
  ghost predicate Ordered(c: Chain, olds: seq<nat>) {
    && (forall m | 0 <= m < |olds| :: 0 < Position(c, olds[m]) < |c|)
    && (forall j, k | 0 <= j < k < |olds| :: Position(c, olds[j]) > Position(c, olds[k]))
  }

  ghost predicate GuardedChain(c: Chain, writer: nat, ids: set<nat>, olds: seq<nat>) {
    olds != [] ==>
      && c != [] && c[0].timestamp == writer && Ordered(c, olds)
      && forall i | 0 <= i < Position(c, olds[0]) :: Spare(c[i].timestamp, writer, ids)
  }

  ghost predicate RecordsGuarded(entries: map<string, Chain>, ids: set<nat>, writer: nat, rs: seq<Record>) {
    && (forall name | name in entries :: GuardedChain(entries[name], writer, ids, Olds(rs, name)))
    && (forall i | 0 <= i < |rs| :: rs[i].name in entries)
  }

  ghost predicate AllGuarded(s: State) {
    forall writer | writer in s.active :: RecordsGuarded(s.entries, s.active.Keys, writer, s.active[writer].records)
  }

  ghost predicate Guarded(s: State) {
    Bounded(s) && AllGuarded(s)
  }

  lemma StartGuarded(s: State)
    requires Start(s)
    ensures Guarded(s)
  {
    StartValid(s);
  }

  // ----- steps that keep the guards -----

  /** The newest version of the chain is not an uncommitted one of another transaction. */
  predicate Unclaimed(s: State, id: nat, name: string) {
    HasChain(s.entries, name) ==> s.entries[name][0].timestamp == id || s.entries[name][0].timestamp !in s.active
  }

  /** Between the top of the chain and the visible version there are only remains of transactions that ended. */
  predicate AboveDead(c: Chain, id: nat, startTS: nat, ids: set<nat>) {
    c == [] || Sees(id, startTS, c[0]) || (c[0].timestamp >= START_TRANSACTION_ID && c[0].timestamp !in ids && AboveDead(c[1..], id, startTS, ids))
  }

  predicate Clear(s: State, id: nat, name: string)
    requires id in s.active
  {
    name in s.entries ==> AboveDead(s.entries[name], id, s.active[id].startTS, s.active.Keys)
  }

  /** Drops do not go on top of what another transaction has not committed, and alters and renames have nothing but
      remains above the version they are about. Renames may fail halfway. */
  predicate Harmless(s: State, a: Action)
    requires Enabled(s, a)
  {
    match a
    case DoDrop(id, name, _) => View(s, id, name).None? || Unclaimed(s, id, name)
    case DoAlter(id, name, _) => View(s, id, name).None? || Clear(s, id, name)
    case DoRename(id, name, _) => View(s, id, name).None? || Clear(s, id, name)
    case _ => true
  }

  lemma {:induction false} SingleWriterAboveDead(s: State, c: Chain, id: nat)
    requires TransactionsValid(s) && !s.multiWrites && id in s.active && s.active[id].write
    requires forall i | 0 <= i < |c| :: VersionBounded(s, c[i])
    ensures AboveDead(c, id, s.active[id].startTS, s.active.Keys)
    decreases |c|
  {
    if c != [] {
      assert VersionBounded(s, c[0]);
      assert TransactionValid(s, id, s.active[id]);
      assert c[0].timestamp in s.active && s.active[c[0].timestamp].write ==> c[0].timestamp in Writers(s.active);
      SingleWriterAboveDead(s, c[1..], id);
    }
  }

  /** With one writer at a time, every step is harmless. */
  lemma SingleWriterHarmless(s: State, a: Action)
    requires Bounded(s) && !s.multiWrites && Enabled(s, a)
    ensures Harmless(s, a)
  {
    if (a.DoDrop? || a.DoAlter? || a.DoRename?) && a.name in s.entries {
      var c := s.entries[a.name];
      assert ChainBounded(s, c);
      SingleWriterAboveDead(s, c, a.id);
      assert VersionBounded(s, c[0]);
      if Sees(a.id, s.active[a.id].startTS, c[0]) && c[0].timestamp in s.active {
        TransactionBounds(s, c[0].timestamp);
        TransactionBounds(s, a.id);
      }
    }
  }

  // ----- one chain -----

  lemma PositionPush(c: Chain, v: Version, entry: nat)
    requires v.id != entry
    ensures Position([v] + c, entry) == Position(c, entry) + 1
  {
    assert ([v] + c)[1..] == c;
  }

  ghost predicate FreshIn(c: Chain, v: Version) {
    forall i | 0 <= i < |c| :: c[i].id != v.id
  }

  /** A version a new record may name: nothing above it belongs to others, and earlier records name older ones. */
  ghost predicate Target(c: Chain, writer: nat, ids: set<nat>, olds: seq<nat>, entry: nat) {
    var p := Position(c, entry);
    && p < |c| && (forall i | 0 <= i < p :: Spare(c[i].timestamp, writer, ids))
    && forall m | 0 <= m < |olds| :: Position(c, olds[m]) > p
  }

  lemma GuardPush(c: Chain, v: Version, writer: nat, ids: set<nat>, olds: seq<nat>)
    requires GuardedChain(c, writer, ids, olds) && v.timestamp == writer && FreshIn(c, v)
    ensures GuardedChain([v] + c, writer, ids, olds)
  {
    var c' := [v] + c;
    if olds != [] {
      forall m | 0 <= m < |olds|
        ensures Position(c', olds[m]) == Position(c, olds[m]) + 1
      {
        assert c[Position(c, olds[m])].id == olds[m];
        PositionPush(c, v, olds[m]);
      }
      assert forall i | 1 <= i < |c'| :: c'[i] == c[i - 1];
    }
  }

  lemma TargetPush(c: Chain, v: Version, writer: nat, ids: set<nat>, olds: seq<nat>, entry: nat)
    requires Target(c, writer, ids, olds, entry) && v.timestamp == writer && FreshIn(c, v)
    requires forall m | 0 <= m < |olds| :: Position(c, olds[m]) < |c|
    ensures Target([v] + c, writer, ids, olds, entry) && Position([v] + c, entry) > 0
  {
    var c' := [v] + c;
    PositionPush(c, v, entry);
    forall m | 0 <= m < |olds|
      ensures Position(c', olds[m]) == Position(c, olds[m]) + 1
    {
      assert c[Position(c, olds[m])].id == olds[m];
      PositionPush(c, v, olds[m]);
    }
    assert forall i | 1 <= i < |c'| :: c'[i] == c[i - 1];
  }

  lemma GuardedPositions(c: Chain, writer: nat, ids: set<nat>, olds: seq<nat>)
    requires GuardedChain(c, writer, ids, olds)
    ensures forall m | 0 <= m < |olds| :: Position(c, olds[m]) < |c|
  {
  }

  lemma GuardRecord(c: Chain, writer: nat, ids: set<nat>, olds: seq<nat>, entry: nat)
    requires GuardedChain(c, writer, ids, olds) && Target(c, writer, ids, olds, entry) && c[0].timestamp == writer && Position(c, entry) > 0
    ensures GuardedChain(c, writer, ids, olds + [entry])
  {
    var olds' := olds + [entry];
    OrderedAppend(c, olds, entry);
    assert olds'[0] == if olds == [] then entry else olds[0];
    hide Ordered, Spare;
  }

  lemma OrderedAppend(c: Chain, olds: seq<nat>, entry: nat)
    requires (olds != [] ==> Ordered(c, olds)) && 0 < Position(c, entry) < |c|
    requires forall m | 0 <= m < |olds| :: Position(c, olds[m]) > Position(c, entry)
    ensures Ordered(c, olds + [entry])
  {
    hide Position;
    var olds' := olds + [entry];
    forall m | 0 <= m < |olds'|
      ensures 0 < Position(c, olds'[m]) < |c|
    {
      assert olds'[m] == if m < |olds| then olds[m] else entry;
    }
    forall j, k | 0 <= j < k < |olds'|
      ensures Position(c, olds'[j]) > Position(c, olds'[k])
    {
      assert olds'[j] == olds[j] && olds'[k] == if k < |olds| then olds[k] else entry;
    }
  }

  lemma TopTarget(c: Chain, writer: nat, ids: set<nat>, olds: seq<nat>)
    requires GuardedChain(c, writer, ids, olds) && c != []
    ensures Target(c, writer, ids, olds, c[0].id)
  {
  }

  lemma {:induction false} AboveDeadAt(c: Chain, id: nat, startTS: nat, ids: set<nat>) returns (i: nat)
    requires Visible(c, id, startTS).Some? && AboveDead(c, id, startTS, ids)
    ensures i < |c| && c[i] == Visible(c, id, startTS).value && forall j | 0 <= j < i :: c[j].timestamp >= START_TRANSACTION_ID && c[j].timestamp !in ids
    decreases |c|
  {
    i := 0;
    if !Sees(id, startTS, c[0]) {
      var k := AboveDeadAt(c[1..], id, startTS, ids);
      i := k + 1;
    }
  }

  lemma VisibleTarget(c: Chain, writer: nat, startTS: nat, ids: set<nat>, olds: seq<nat>)
    requires GuardedChain(c, writer, ids, olds) && Visible(c, writer, startTS).Some? && AboveDead(c, writer, startTS, ids) && Distinct(c)
    ensures Target(c, writer, ids, olds, Visible(c, writer, startTS).value.id)
  {
    var i := AboveDeadAt(c, writer, startTS, ids);
    PositionIs(c, i);
  }

  // ----- writes -----

  lemma OldsGuarded(s: State, writer: nat, name: string)
    requires AllGuarded(s) && writer in s.active && name in s.entries
    ensures GuardedChain(s.entries[name], writer, s.active.Keys, Olds(s.active[writer].records, name))
  {
    assert RecordsGuarded(s.entries, s.active.Keys, writer, s.active[writer].records);
  }

  lemma FreshVersion(s: State, name: string, v: Version)
    requires Bounded(s) && name in s.entries && v.id >= s.nextVersion
    ensures FreshIn(s.entries[name], v)
  {
    assert ChainBounded(s, s.entries[name]);
    forall i | 0 <= i < |s.entries[name]|
      ensures s.entries[name][i].id != v.id
    {
      assert VersionBounded(s, s.entries[name][i]);
    }
  }

  lemma RecordsGuardedUpdate(entries: map<string, Chain>, name: string, c: Chain, ids: set<nat>, writer: nat, rs: seq<Record>)
    requires RecordsGuarded(entries, ids, writer, rs) && GuardedChain(c, writer, ids, Olds(rs, name))
    ensures RecordsGuarded(entries[name := c], ids, writer, rs)
  {
    hide GuardedChain, Olds;
  }

  lemma PushGuarded(s: State, name: string, v: Version)
    requires Guarded(s) && HasChain(s.entries, name) && v.id == s.nextVersion && v.timestamp in s.active && s.active[v.timestamp].write
    requires Unclaimed(s, v.timestamp, name) && (v.deleted || v.oid < s.nextOID)
    ensures Guarded(Push(s, name, v))
  {
    var s', id := Push(s, name, v), v.timestamp;
    PushBounded(s, name, v);
    FreshVersion(s, name, v);
    hide Bounded, GuardedChain, RecordsGuarded;
    forall writer | writer in s'.active
      ensures RecordsGuarded(s'.entries, s'.active.Keys, writer, s'.active[writer].records)
    {
      var rs := s.active[writer].records;
      OldsGuarded(s, writer, name);
      if writer == id {
        GuardPush(s.entries[name], v, id, s.active.Keys, Olds(rs, name));
      } else {
        NoneElsewhere(s.entries[name], s'.entries[name], writer, s.active.Keys, Olds(rs, name));
      }
      RecordsGuardedUpdate(s.entries, name, s'.entries[name], s.active.Keys, writer, rs);
    }
  }

  /** Records are about chains whose newest version their transaction wrote. */
  lemma NoneElsewhere(c: Chain, c': Chain, writer: nat, ids: set<nat>, olds: seq<nat>)
    requires GuardedChain(c, writer, ids, olds) && c != [] && c[0].timestamp != writer
    ensures olds == [] && GuardedChain(c', writer, ids, olds)
  {
  }

  lemma WithChainGuarded(s: State, name: string, oid: nat)
    requires Guarded(s)
    ensures Guarded(WithChain(s, name, oid)) && HasChain(WithChain(s, name, oid).entries, name)
  {
    var s' := WithChain(s, name, oid);
    WithChainBounded(s, name, oid);
    if !HasChain(s.entries, name) {
      assert name !in s.entries by {
        assert name in s.entries ==> ChainBounded(s, s.entries[name]);
      }
      hide Bounded;
      forall writer | writer in s'.active
        ensures RecordsGuarded(s'.entries, s'.active.Keys, writer, s'.active[writer].records)
      {
        var rs := s.active[writer].records;
        assert RecordsGuarded(s.entries, s.active.Keys, writer, rs);
        NoOlds(rs, name);
        assert GuardedChain(s'.entries[name], writer, s.active.Keys, Olds(rs, name));
        hide GuardedChain, RecordsGuarded;
        RecordsGuardedUpdate(s.entries, name, s'.entries[name], s.active.Keys, writer, rs);
      }
    }
  }

  lemma RecordsGuardedAppend(entries: map<string, Chain>, ids: set<nat>, id: nat, rs: seq<Record>, r: Record)
    requires RecordsGuarded(entries, ids, id, rs) && HasChain(entries, r.name) && Target(entries[r.name], id, ids, Olds(rs, r.name), r.entry)
    requires entries[r.name][0].timestamp == id && Position(entries[r.name], r.entry) > 0
    ensures RecordsGuarded(entries, ids, id, rs + [r])
  {
    hide GuardedChain, Target;
    forall name | name in entries
      ensures GuardedChain(entries[name], id, ids, Olds(rs + [r], name))
    {
      OldsAppend(rs, r, name);
      if name == r.name {
        GuardRecord(entries[name], id, ids, Olds(rs, name), r.entry);
      } else {
        assert Olds(rs + [r], name) == Olds(rs, name);
      }
    }
  }

  lemma AddRecordGuarded(s: State, id: nat, r: Record)
    requires Guarded(s) && id in s.active && s.active[id].write && HasChain(s.entries, r.name)
    requires Target(s.entries[r.name], id, s.active.Keys, Olds(s.active[id].records, r.name), r.entry)
    requires s.entries[r.name][0].timestamp == id && Position(s.entries[r.name], r.entry) > 0
    ensures Guarded(AddRecord(s, id, r))
  {
    var s', rs := AddRecord(s, id, r), s.active[id].records;
    AddRecordBounded(s, id, r);
    hide Bounded, RecordsGuarded, Target;
    assert s'.active.Keys == s.active.Keys;
    forall writer | writer in s'.active
      ensures RecordsGuarded(s'.entries, s'.active.Keys, writer, s'.active[writer].records)
    {
      assert RecordsGuarded(s.entries, s.active.Keys, writer, s.active[writer].records);
      if writer == id {
        RecordsGuardedAppend(s.entries, s.active.Keys, id, rs, r);
      }
    }
  }

  lemma NextOIDGuarded(s: State, oid: nat)
    requires Guarded(s) && oid >= s.nextOID
    ensures Guarded(s.(nextOID := oid))
  {
    NextOIDBounded(s, oid);
    hide Bounded;
    var s' := s.(nextOID := oid);
    forall writer | writer in s'.active
      ensures RecordsGuarded(s'.entries, s'.active.Keys, writer, s'.active[writer].records)
    {
      assert RecordsGuarded(s.entries, s.active.Keys, writer, s.active[writer].records);
    }
  }

  /** A version pushed with a record for one that was a target. */
  lemma WrittenGuarded(s: State, id: nat, name: string, v: Version, entry: nat)
    requires Guarded(s) && id in s.active && s.active[id].write && HasChain(s.entries, name) && v.id == s.nextVersion && v.timestamp == id
    requires Unclaimed(s, id, name) && Target(s.entries[name], id, s.active.Keys, Olds(s.active[id].records, name), entry)
    requires v.deleted || v.oid < s.nextOID
    ensures Guarded(AddRecord(Push(s, name, v), id, Record(name, entry)))
  {
    PushGuarded(s, name, v);
    FreshVersion(s, name, v);
    OldsGuarded(s, id, name);
    GuardedPositions(s.entries[name], id, s.active.Keys, Olds(s.active[id].records, name));
    hide Guarded, GuardedChain, Target, FreshIn;
    TargetPush(s.entries[name], v, id, s.active.Keys, Olds(s.active[id].records, name), entry);
    AddRecordGuarded(Push(s, name, v), id, Record(name, entry));
  }

  lemma ClearUnclaimed(s: State, id: nat, name: string)
    requires TransactionsValid(s) && id in s.active && name in s.entries && Clear(s, id, name)
    ensures Unclaimed(s, id, name)
  {
    if HasChain(s.entries, name) && s.entries[name][0].timestamp in s.active {
      TransactionBounds(s, s.entries[name][0].timestamp);
      TransactionBounds(s, id);
    }
  }

  lemma NoConflictUnclaimed(s: State, id: nat, name: string)
    requires TransactionsValid(s) && id in s.active && HasChain(s.entries, name) && !Conflicts(id, s.active[id].startTS, s.entries[name][0])
    ensures Unclaimed(s, id, name)
  {
    if s.entries[name][0].timestamp in s.active {
      TransactionBounds(s, s.entries[name][0].timestamp);
    }
  }

  /** A new entry and its record. */
  lemma EmplaceGuarded(s: State, id: nat, name: string, oid: nat, content: int)
    requires Guarded(s) && id in s.active && s.active[id].write && oid < s.nextOID && EmplaceNew(s, id, name, oid, content).Done?
    ensures var s' := EmplaceNew(s, id, name, oid, content).state;
            Guarded(AddRecord(s', id, Record(name, s'.entries[name][1].id)))
  {
    var based, s' := WithChain(s, name, oid), EmplaceNew(s, id, name, oid, content).state;
    WithChainGuarded(s, name, oid);
    var v := Version(based.nextVersion, oid, id, false, content);
    assert s' == Push(based, name, v) && s'.entries[name][1] == based.entries[name][0];
    if HasChain(s.entries, name) {
      NoConflictUnclaimed(s, id, name);
    } else {
      assert based.entries[name][0].timestamp == 0;
      NoConflictUnclaimed(based, id, name);
    }
    OldsGuarded(based, id, name);
    TopTarget(based.entries[name], id, based.active.Keys, Olds(based.active[id].records, name));
    hide Guarded;
    WrittenGuarded(based, id, name, v, based.entries[name][0].id);
  }

  lemma DropGuarded(s: State, id: nat, name: string, oid: nat)
    requires Guarded(s) && id in s.active && s.active[id].write && (View(s, id, name).None? || Unclaimed(s, id, name))
    ensures Guarded(Drop(s, id, name, oid).state)
  {
    if View(s, id, name).Some? {
      OldsGuarded(s, id, name);
      TopTarget(s.entries[name], id, s.active.Keys, Olds(s.active[id].records, name));
      hide Guarded;
      WrittenGuarded(s, id, name, Version(s.nextVersion, oid, id, true, 0), s.entries[name][0].id);
    }
  }

  lemma ViewTarget(s: State, id: nat, name: string)
    requires Guarded(s) && id in s.active && View(s, id, name).Some? && Clear(s, id, name)
    ensures HasChain(s.entries, name) && Unclaimed(s, id, name) && View(s, id, name).value.oid < s.nextOID
    ensures Target(s.entries[name], id, s.active.Keys, Olds(s.active[id].records, name), View(s, id, name).value.id)
  {
    ClearUnclaimed(s, id, name);
    ViewBelowNext(s, id, name);
    OldsGuarded(s, id, name);
    assert ChainBounded(s, s.entries[name]);
    VisibleTarget(s.entries[name], id, s.active[id].startTS, s.active.Keys, Olds(s.active[id].records, name));
  }

  lemma AlterGuarded(s: State, id: nat, name: string, content: int)
    requires Guarded(s) && id in s.active && s.active[id].write && (View(s, id, name).None? || Clear(s, id, name))
    ensures Guarded(Alter(s, id, name, content).state)
  {
    hide Guarded, Target, Clear;
    var v := View(s, id, name);
    if v.Some? {
      ViewTarget(s, id, name);
      WrittenGuarded(s, id, name, v.value.(id := s.nextVersion, timestamp := id, content := content), v.value.id);
    }
  }

  /** The first half of a rename, with its record. */
  lemma BuryGuarded(s: State, id: nat, name: string)
    requires Guarded(s) && id in s.active && s.active[id].write && View(s, id, name).Some? && Clear(s, id, name)
    ensures var v := View(s, id, name).value;
            Guarded(Bury(s, id, name, v.oid)) && Guarded(AddRecord(Bury(s, id, name, v.oid), id, Record(name, v.id)))
  {
    hide Guarded, Target, Clear;
    var v := View(s, id, name).value;
    var tombstone := Version(s.nextVersion, v.oid, id, true, 0);
    ViewTarget(s, id, name);
    PushGuarded(s, name, tombstone);
    WrittenGuarded(s, id, name, tombstone, v.id);
  }

  /** Renames keep the guards, whether they end or fail halfway. */
  lemma RenameGuarded(s: State, id: nat, name: string, newName: string)
    requires Guarded(s) && id in s.active && s.active[id].write && (View(s, id, name).None? || Clear(s, id, name))
    ensures Guarded(Rename(s, id, name, newName).state)
  {
    hide Guarded, EmplaceNew, Clear;
    if View(s, id, name).Some? {
      var v := View(s, id, name).value;
      ViewTarget(s, id, name);
      BuryGuarded(s, id, name);
      var buried, r := Bury(s, id, name, v.oid), Record(name, v.id);
      EmplaceAddRecord(buried, id, r, newName, v.oid, v.content);
      if EmplaceNew(buried, id, newName, v.oid, v.content).Done? {
        EmplaceGuarded(AddRecord(buried, id, r), id, newName, v.oid, v.content);
      }
    }
  }

  // ----- transactions -----

  lemma SpareFewer(c: Chain, writer: nat, ids: set<nat>, ids': set<nat>, olds: seq<nat>)
    requires GuardedChain(c, writer, ids, olds) && forall i | 0 <= i < |c| && c[i].timestamp in ids' :: c[i].timestamp in ids
    ensures GuardedChain(c, writer, ids', olds)
  {
  }

  lemma BeginGuarded(s: State, write: bool)
    requires Guarded(s) && Begin(s, write).Some?
    ensures Guarded(Begin(s, write).value)
  {
    var s', id := Begin(s, write).value, s.lastTransactionID + 1;
    BeginBounded(s, write);
    assert id !in s.active by {
      assert id in s.active ==> TransactionValid(s, id, s.active[id]);
    }
    forall writer | writer in s'.active
      ensures RecordsGuarded(s'.entries, s'.active.Keys, writer, s'.active[writer].records)
    {
      if writer != id {
        var rs := s.active[writer].records;
        assert RecordsGuarded(s.entries, s.active.Keys, writer, rs);
        forall name | name in s.entries
          ensures GuardedChain(s.entries[name], writer, s'.active.Keys, Olds(rs, name))
        {
          var c := s.entries[name];
          OldsGuarded(s, writer, name);
          assert ChainBounded(s, c);
          forall i | 0 <= i < |c| && c[i].timestamp in s'.active.Keys
            ensures c[i].timestamp in s.active.Keys
          {
            assert VersionBounded(s, c[i]);
          }
          SpareFewer(c, writer, s.active.Keys, s'.active.Keys, Olds(rs, name));
        }
      }
    }
  }

  /** The end of a transaction that changes no chain without one of its records. */
  lemma EndGuarded(s: State, s': State, id: nat)
    requires Guarded(s) && Bounded(s') && id in s.active && s'.active == s.active - {id} && s'.entries.Keys == s.entries.Keys
    requires forall name | name in s.entries && Olds(s.active[id].records, name) == [] :: s'.entries[name] == s.entries[name]
    ensures Guarded(s')
  {
    hide Bounded, GuardedChain, Olds;
    forall writer | writer in s'.active
      ensures RecordsGuarded(s'.entries, s'.active.Keys, writer, s'.active[writer].records)
    {
      var rs := s.active[writer].records;
      assert RecordsGuarded(s.entries, s.active.Keys, writer, rs);
      forall name | name in s.entries
        ensures GuardedChain(s'.entries[name], writer, s'.active.Keys, Olds(rs, name))
      {
        OldsGuarded(s, writer, name);
        OldsGuarded(s, id, name);
        EndGuardedChain(s.entries[name], s'.entries[name], writer, id, s.active.Keys, s'.active.Keys, Olds(rs, name), Olds(s.active[id].records, name));
      }
    }
  }

  lemma EndGuardedChain(c: Chain, c': Chain, writer: nat, id: nat, ids: set<nat>, ids': set<nat>, olds: seq<nat>, ended: seq<nat>)
    requires GuardedChain(c, writer, ids, olds) && GuardedChain(c, id, ids, ended) && writer != id && (ended == [] ==> c' == c) && ids' <= ids
    ensures GuardedChain(c', writer, ids', olds)
  {
    if ended != [] {
      NoneElsewhere(c, c', writer, ids, olds);
    } else {
      SpareFewer(c, writer, ids, ids', olds);
    }
  }

  lemma CommitGuarded(s: State, id: nat)
    requires Guarded(s) && id in s.active && s.lastTimestamp + 1 < START_TRANSACTION_ID
    ensures Guarded(Commit(s, id))
  {
    hide Bounded, AllGuarded, Olds;
    CommitBounded(s, id);
    var rs := s.active[id].records;
    CommitByChain(s.entries, rs, s.lastTimestamp + 1, "");
    forall name | name in s.entries && Olds(rs, name) == []
      ensures Commit(s, id).entries[name] == s.entries[name]
    {
      CommitByChain(s.entries, rs, s.lastTimestamp + 1, name);
    }
    EndGuarded(s, Commit(s, id), id);
  }

  lemma RollbackGuarded(s: State, id: nat)
    requires Guarded(s) && id in s.active
    ensures Guarded(Rollback(s, id))
  {
    hide Bounded, AllGuarded, Olds;
    RollbackBounded(s, id);
    var rs := s.active[id].records;
    RollbackByChain(s.entries, rs, "");
    forall name | name in s.entries && Olds(rs, name) == []
      ensures Rollback(s, id).entries[name] == s.entries[name]
    {
      RollbackByChain(s.entries, rs, name);
    }
    EndGuarded(s, Rollback(s, id), id);
  }

  lemma StepGuarded(s: State, a: Action)
    requires Guarded(s) && Enabled(s, a) && Harmless(s, a)
    ensures Guarded(Apply(s, a))
  {
    hide Guarded, EmplaceNew, Clear;
    match a
    case DoBegin(write) =>
      if Begin(s, write).Some? {
        BeginGuarded(s, write);
      }
    case DoCreate(id, name, content) =>
      var s1 := s.(nextOID := s.nextOID + 1);
      NextOIDGuarded(s, s.nextOID + 1);
      if EmplaceNew(s1, id, name, s.nextOID, content).Done? {
        EmplaceGuarded(s1, id, name, s.nextOID, content);
      }
    case DoDrop(id, name, oid) => DropGuarded(s, id, name, oid);
    case DoAlter(id, name, content) => AlterGuarded(s, id, name, content);
    case DoRename(id, name, newName) => RenameGuarded(s, id, name, newName);
    case DoCommit(id) => CommitGuarded(s, id);
    case DoRollback(id) => RollbackGuarded(s, id);
  }
}
