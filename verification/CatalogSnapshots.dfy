/**
 Runs of the catalog: when the invariant holds throughout, that no transaction sees what
 another one does, and that undo records find their versions.
 */
module CatalogSnapshots {
  import opened Catalog
  import opened CatalogInvariant
  import opened CatalogSteps
  import opened CatalogTransactions
  import opened CatalogReachable
  import opened CatalogGuards

  // ----- the invariant -----

  /** Drops do not go on top of another transaction's uncommitted version, alters and renames meet no conflict, and a
      rename that begins also ends. */
  predicate Safe(s: State, a: Action)
    requires Enabled(s, a)
  {
    match a
    case DoDrop(id, name, _) => View(s, id, name).None? || Uncontested(s, id, name)
    case DoAlter(id, name, _) => View(s, id, name).None? || Writable(s, id, name)
    case DoRename(id, name, newName) => View(s, id, name).None? || (Writable(s, id, name) && Rename(s, id, name, newName).Done?)
    case _ => true
  }

  /** Safe steps, and no others, keep the invariant. */
  lemma StepExact(s: State, a: Action)
    requires Valid(s) && Enabled(s, a)
    ensures Valid(Apply(s, a)) <==> Safe(s, a)
  {
    hide Valid, Writable, Uncontested;
    match a
    case DoBegin(write) =>
      if Begin(s, write).Some? {
        BeginValid(s, write);
      }
    case DoCreate(id, name, content) => CreateValid(s, id, name, content);
    case DoDrop(id, name, oid) => DropExact(s, id, name, oid);
    case DoAlter(id, name, content) => AlterExact(s, id, name, content);
    case DoRename(id, name, newName) => RenameExact(s, id, name, newName);
    case DoCommit(id) => CommitValid(s, id);
    case DoRollback(id) => RollbackValid(s, id);
  }

  /** With one writer at a time, only a rename to a name that is taken is not safe. */
  lemma SingleWriterSafe(s: State, a: Action)
    requires Valid(s) && !s.multiWrites && Enabled(s, a)
    ensures Safe(s, a) <==> (a.DoRename? ==> RenameEnds(s, a.id, a.name, a.newName))
  {
    hide Valid;
    if (a.DoDrop? || a.DoAlter? || a.DoRename?) && HasChain(s.entries, a.name) {
      SingleWriterNoConflict(s, a.id, a.name);
      WritableUncontested(s, a.id, a.name);
    }
  }

  /** Where the invariant holds, safe steps are harmless. */
  lemma SafeHarmless(s: State, a: Action)
    requires Valid(s) && Enabled(s, a) && Safe(s, a)
    ensures Harmless(s, a)
  {
    if (a.DoDrop? || a.DoAlter? || a.DoRename?) && View(s, a.id, a.name).Some? {
      var top := s.entries[a.name][0];
      assert TransactionValid(s, a.id, s.active[a.id]);
      assert top.timestamp in s.active ==> TransactionValid(s, top.timestamp, s.active[top.timestamp]);
      ConflictExact(s, a.id, top);
    }
  }

  predicate RunSafe(s: State, actions: seq<Action>)
    requires RunEnabled(s, actions)
    decreases |actions|
  {
    actions == [] || (Safe(s, actions[0]) && RunSafe(Apply(s, actions[0]), actions[1..]))
  }

  lemma {:induction false} RunValid(s: State, actions: seq<Action>)
    requires Valid(s) && RunEnabled(s, actions) && RunSafe(s, actions)
    ensures Valid(Run(s, actions))
    decreases |actions|
  {
    hide Valid;
    if actions != [] {
      StepExact(s, actions[0]);
      RunValid(Apply(s, actions[0]), actions[1..]);
    }
  }

  // ----- what others see of writes -----

  /** A version of another transaction is not seen. */
  lemma PushUnseen(s: State, name: string, v: Version, id: nat, x: string)
    requires Bounded(s) && id in s.active && name in s.entries && v.timestamp != id && v.timestamp > START_TRANSACTION_ID
    ensures View(Push(s, name, v), id, x) == View(s, id, x)
  {
    TransactionBounds(s, id);
    assert ([v] + s.entries[name])[1..] == s.entries[name];
  }

  lemma WithChainUnseen(s: State, name: string, oid: nat, id: nat, x: string)
    requires Bounded(s) && id in s.active
    ensures View(WithChain(s, name, oid), id, x) == View(s, id, x)
  {
    assert name in s.entries ==> ChainBounded(s, s.entries[name]);
  }

  lemma EmplaceUnseen(s: State, writer: nat, name: string, oid: nat, content: int, id: nat, x: string)
    requires Bounded(s) && id in s.active && writer in s.active && id != writer
    ensures View(EmplaceNew(s, writer, name, oid, content).state, id, x) == View(s, id, x)
  {
    TransactionBounds(s, writer);
    if EmplaceNew(s, writer, name, oid, content).Done? {
      WithChainBounded(s, name, oid);
      var based := WithChain(s, name, oid);
      WithChainUnseen(s, name, oid, id, x);
      PushUnseen(based, name, Version(based.nextVersion, oid, writer, false, content), id, x);
    }
  }

  lemma RenameUnseen(s: State, writer: nat, name: string, newName: string, id: nat, x: string)
    requires Bounded(s) && id in s.active && writer in s.active && s.active[writer].write && id != writer
    ensures var s' := Rename(s, writer, name, newName).state;
            id in s'.active && s'.active[id] == s.active[id] && View(s', id, x) == View(s, id, x)
  {
    hide Bounded, EmplaceNew;
    var v := View(s, writer, name);
    if v.Some? {
      assert writer > START_TRANSACTION_ID by {
        WriterID(s, writer);
      }
      var buried, tombstone := Bury(s, writer, name, v.value.oid), Version(s.nextVersion, v.value.oid, writer, true, 0);
      PushUnseen(s, name, tombstone, id, x);
      PushBounded(s, name, tombstone);
      EmplaceUnseen(buried, writer, newName, v.value.oid, v.value.content, id, x);
    }
  }

  lemma WriterID(s: State, id: nat)
    requires Bounded(s) && id in s.active
    ensures s.lastTransactionID >= id > START_TRANSACTION_ID > s.lastTimestamp >= s.active[id].startTS
  {
    TransactionBounds(s, id);
  }

  /** No write of another transaction is seen, in any reachable state. */
  lemma WriteUnseen(s: State, a: Action, id: nat, x: string)
    requires Bounded(s) && Enabled(s, a) && id in s.active && !By(a, id) && !a.DoBegin? && !a.DoCommit? && !a.DoRollback?
    ensures id in Apply(s, a).active && Apply(s, a).active[id] == s.active[id]
    ensures View(Apply(s, a), id, x) == View(s, id, x)
  {
    hide Bounded, EmplaceNew;
    WriterID(s, a.id);
    match a
    case DoCreate(writer, name, content) =>
      NextOIDBounded(s, s.nextOID + 1);
      EmplaceUnseen(s.(nextOID := s.nextOID + 1), writer, name, s.nextOID, content, id, x);
    case DoDrop(writer, name, oid) =>
      if View(s, writer, name).Some? {
        PushUnseen(s, name, Version(s.nextVersion, oid, writer, true, 0), id, x);
      }
    case DoAlter(writer, name, content) =>
      var v := View(s, writer, name);
      if v.Some? {
        PushUnseen(s, name, v.value.(id := s.nextVersion, timestamp := writer, content := content), id, x);
      }
    case DoRename(writer, name, newName) =>
      RenameUnseen(s, writer, name, newName, id, x);
  }

  lemma BeginUnseen(s: State, write: bool, id: nat, x: string)
    requires id in s.active && id <= s.lastTransactionID
    ensures var s' := Apply(s, DoBegin(write)); id in s'.active && s'.active[id] == s.active[id] && View(s', id, x) == View(s, id, x)
  {
  }

  // ----- what others see of commits and rollbacks -----

  /** The first `k` versions of the chain are not seen. */
  ghost predicate UnseenAbove(c: Chain, k: nat, id: nat, startTS: nat) {
    k <= |c| && forall i | 0 <= i < k :: !Sees(id, startTS, c[i])
  }

  lemma {:induction false} VisibleBelow(c: Chain, k: nat, id: nat, startTS: nat)
    requires UnseenAbove(c, k, id, startTS)
    ensures Visible(c[k..], id, startTS) == Visible(c, id, startTS)
    decreases k
  {
    if k > 0 {
      VisibleBelow(c[1..], k - 1, id, startTS);
      assert c[1..][k - 1..] == c[k..];
    }
  }

  lemma {:induction false} SamePosition(c: Chain, d: Chain, entry: nat)
    requires |c| == |d| && forall i | 0 <= i < |c| :: c[i].id == d[i].id
    ensures Position(c, entry) == Position(d, entry)
    decreases |c|
  {
    if c != [] {
      SamePosition(c[1..], d[1..], entry);
    }
  }

  /** Commits by records that name none of the versions below the first `k` change none of those. */
  lemma {:induction false} CommitChainUnseen(c: Chain, olds: seq<nat>, ts: nat, k: nat, id: nat, startTS: nat)
    requires UnseenAbove(c, k, id, startTS) && ts > startTS && ts != id
    requires forall m | 0 <= m < |olds| :: Position(c, olds[m]) <= k
    ensures var d := CommitChain(c, olds, ts);
            UnseenAbove(d, k, id, startTS) && d[k..] == c[k..] && forall i | 0 <= i < |c| :: d[i].id == c[i].id
    decreases |olds|
  {
    if olds != [] {
      var front := olds[..|olds| - 1];
      CommitChainUnseen(c, front, ts, k, id, startTS);
      var d := CommitChain(c, front, ts);
      SamePosition(c, d, olds[|olds| - 1]);
      var d' := CommitAbove(d, olds[|olds| - 1], ts);
      assert forall i | k <= i < |c| :: d'[i] == d[i];
    }
  }

  lemma RemovedDistinct(c: Chain, j: nat)
    requires Distinct(c) && j < |c|
    ensures Distinct(c[..j] + c[j + 1..])
  {
    var d := c[..j] + c[j + 1..];
    forall i, k | 0 <= i < k < |d|
      ensures d[i].id != d[k].id
    {
      assert d[i] == c[if i < j then i else i + 1] && d[k] == c[if k < j then k else k + 1];
    }
  }

  lemma PositionRemoved(c: Chain, j: nat, entry: nat)
    requires j < Position(c, entry) < |c|
    ensures Position(c[..j] + c[j + 1..], entry) == Position(c, entry) - 1
  {
    var d, p := c[..j] + c[j + 1..], Position(c, entry);
    assert d[p - 1] == c[p];
    forall i | 0 <= i < p - 1
      ensures d[i].id != entry
    {
      assert d[i] == if i < j then c[i] else c[i + 1];
    }
    hide Position;
  }

  /** One step of a rollback: the remaining records still name versions that have one above them. */
  lemma RemoveOrdered(c: Chain, olds: seq<nat>)
    requires Distinct(c) && Ordered(c, olds) && olds != []
    ensures var d, front := RemoveAbove(c, olds[|olds| - 1]), olds[..|olds| - 1];
            && Distinct(d) && |d| == |c| - 1 && Ordered(d, front)
            && forall m | 0 <= m < |front| :: Position(d, front[m]) == Position(c, front[m]) - 1
  {
    var j := Position(c, olds[|olds| - 1]) - 1;
    var d, front := RemoveAbove(c, olds[|olds| - 1]), olds[..|olds| - 1];
    assert d == c[..j] + c[j + 1..];
    RemovedDistinct(c, j);
    forall m | 0 <= m < |front|
      ensures Position(d, front[m]) == Position(c, front[m]) - 1
    {
      assert front[m] == olds[m];
      PositionRemoved(c, j, front[m]);
    }
    assert forall m | 0 <= m < |front| :: front[m] == olds[m];
  }

  lemma RemoveUnseen(c: Chain, j: nat, k: nat, id: nat, startTS: nat)
    requires UnseenAbove(c, k, id, startTS) && j < k
    ensures var d := c[..j] + c[j + 1..];
            UnseenAbove(d, k - 1, id, startTS) && Visible(d, id, startTS) == Visible(c, id, startTS)
  {
    hide Visible;
    var d := c[..j] + c[j + 1..];
    assert forall i | 0 <= i < |d| :: d[i] == if i < j then c[i] else c[i + 1];
    assert d[k - 1..] == c[k..];
    VisibleBelow(c, k, id, startTS);
    VisibleBelow(d, k - 1, id, startTS);
  }

  /** A rollback takes its versions from among the first `k`. */
  lemma {:induction false} RollbackChainUnseen(c: Chain, olds: seq<nat>, k: nat, id: nat, startTS: nat)
    requires UnseenAbove(c, k, id, startTS) && Distinct(c) && Ordered(c, olds)
    requires forall m | 0 <= m < |olds| :: Position(c, olds[m]) <= k
    ensures Visible(RollbackChain(c, olds), id, startTS) == Visible(c, id, startTS)
    decreases |olds|
  {
    hide Visible, UnseenAbove, Distinct;
    if olds != [] {
      var d, front, j := RemoveAbove(c, olds[|olds| - 1]), olds[..|olds| - 1], Position(c, olds[|olds| - 1]) - 1;
      RemoveOrdered(c, olds);
      assert d == c[..j] + c[j + 1..];
      RemoveUnseen(c, j, k, id, startTS);
      assert forall m | 0 <= m < |front| :: front[m] == olds[m];
      hide RemoveAbove, Ordered;
      RollbackChainUnseen(d, front, k - 1, id, startTS);
    }
  }

  /** The depth of the oldest version that a record names. */
  function Depth(c: Chain, olds: seq<nat>): (k: nat)
    ensures k <= |c|
  {
    if olds == [] then 0 else Position(c, olds[0])
  }

  /** Whatever is above the versions that records of a transaction name, no other transaction sees. */
  lemma GuardUnseen(c: Chain, writer: nat, ids: set<nat>, olds: seq<nat>, id: nat, startTS: nat)
    requires GuardedChain(c, writer, ids, olds) && id in ids && id != writer && startTS < START_TRANSACTION_ID < writer
    ensures UnseenAbove(c, Depth(c, olds), id, startTS) && Ordered(c, olds)
    ensures forall m | 0 <= m < |olds| :: Position(c, olds[m]) <= Depth(c, olds)
  {
  }

  lemma GuardedFacts(s: State, writer: nat, id: nat, name: string)
    requires Guarded(s) && writer in s.active && id in s.active && writer != id && name in s.entries
    ensures GuardedChain(s.entries[name], writer, s.active.Keys, Olds(s.active[writer].records, name)) && Distinct(s.entries[name])
    ensures s.active[id].startTS <= s.lastTimestamp < START_TRANSACTION_ID < writer && id > s.lastTimestamp + 1
  {
    OldsGuarded(s, writer, name);
    hide AllGuarded;
    TransactionBounds(s, writer);
    TransactionBounds(s, id);
    assert ChainBounded(s, s.entries[name]);
  }

  lemma CommitUnseen(s: State, writer: nat, id: nat, x: string)
    requires Guarded(s) && id in s.active && writer in s.active && id != writer && s.lastTimestamp + 1 < START_TRANSACTION_ID
    ensures View(Commit(s, writer), id, x) == View(s, id, x)
  {
    hide Guarded, GuardedChain, Ordered, Visible, CommitRecords, CommitChain, Distinct, Olds;
    var rs, ts, startTS := s.active[writer].records, s.lastTimestamp + 1, s.active[id].startTS;
    if s.active[writer].write {
      CommitByChain(s.entries, rs, ts, x);
      if x in s.entries {
        var c, olds := s.entries[x], Olds(rs, x);
        GuardedFacts(s, writer, id, x);
        GuardUnseen(c, writer, s.active.Keys, olds, id, startTS);
        CommitChainUnseen(c, olds, ts, Depth(c, olds), id, startTS);
        VisibleBelow(c, Depth(c, olds), id, startTS);
        VisibleBelow(CommitChain(c, olds, ts), Depth(c, olds), id, startTS);
      }
    }
  }

  lemma RollbackUnseen(s: State, writer: nat, id: nat, x: string)
    requires Guarded(s) && id in s.active && writer in s.active && id != writer
    ensures View(Rollback(s, writer), id, x) == View(s, id, x)
  {
    hide Guarded, GuardedChain, Ordered, Visible, RollbackRecords, RollbackChain, Distinct, Olds;
    var rs, startTS := s.active[writer].records, s.active[id].startTS;
    RollbackByChain(s.entries, rs, x);
    if x in s.entries {
      var c, olds := s.entries[x], Olds(rs, x);
      GuardedFacts(s, writer, id, x);
      GuardUnseen(c, writer, s.active.Keys, olds, id, startTS);
      RollbackChainUnseen(c, olds, Depth(c, olds), id, startTS);
    }
  }

  // ----- stability -----

  /** Whatever another transaction does, a running transaction sees the same versions as before. */
  lemma StepUnseen(s: State, a: Action, id: nat, x: string)
    requires Guarded(s) && Enabled(s, a) && id in s.active && !By(a, id)
    ensures id in Apply(s, a).active && Apply(s, a).active[id] == s.active[id]
    ensures View(Apply(s, a), id, x) == View(s, id, x)
  {
    assert Bounded(s);
    hide Guarded, Bounded;
    if a.DoBegin? {
      WriterID(s, id);
      BeginUnseen(s, a.write, id, x);
    } else if a.DoCommit? {
      CommitUnseen(s, a.id, id, x);
    } else if a.DoRollback? {
      RollbackUnseen(s, a.id, id, x);
    } else {
      WriteUnseen(s, a, id, x);
    }
  }

  predicate RunHarmless(s: State, actions: seq<Action>)
    requires RunEnabled(s, actions)
    decreases |actions|
  {
    actions == [] || (Harmless(s, actions[0]) && RunHarmless(Apply(s, actions[0]), actions[1..]))
  }

  lemma {:induction false} RunGuarded(s: State, actions: seq<Action>)
    requires Guarded(s) && RunEnabled(s, actions) && RunHarmless(s, actions)
    ensures Guarded(Run(s, actions))
    decreases |actions|
  {
    hide Guarded;
    if actions != [] {
      StepGuarded(s, actions[0]);
      RunGuarded(Apply(s, actions[0]), actions[1..]);
    }
  }

  /** With one writer at a time, every run is harmless. */
  lemma {:induction false} SingleWriterRun(s: State, actions: seq<Action>)
    requires Bounded(s) && !s.multiWrites && RunEnabled(s, actions)
    ensures RunHarmless(s, actions)
    decreases |actions|
  {
    hide Bounded, Harmless;
    if actions != [] {
      SingleWriterHarmless(s, actions[0]);
      StepBounded(s, actions[0]);
      SameMode(s, actions[0]);
      SingleWriterRun(Apply(s, actions[0]), actions[1..]);
    }
  }

  lemma SameMode(s: State, a: Action)
    requires Enabled(s, a)
    ensures Apply(s, a).multiWrites == s.multiWrites
  {
  }

  /** Snapshot stability: while others begin, write, commit and roll back, a transaction sees the same versions. */
  lemma {:induction false} HarmlessStable(s: State, actions: seq<Action>, id: nat, name: string)
    requires Guarded(s) && RunEnabled(s, actions) && RunHarmless(s, actions) && id in s.active
    requires forall i | 0 <= i < |actions| :: !By(actions[i], id)
    ensures var s' := Run(s, actions); id in s'.active && View(s', id, name) == View(s, id, name)
    decreases |actions|
  {
    hide Guarded, Harmless;
    if actions != [] {
      StepGuarded(s, actions[0]);
      StepUnseen(s, actions[0], id, name);
      HarmlessStable(Apply(s, actions[0]), actions[1..], id, name);
    }
  }

  lemma {:induction false} RunMode(s: State, actions: seq<Action>)
    requires RunEnabled(s, actions)
    ensures Run(s, actions).multiWrites == s.multiWrites
    decreases |actions|
  {
    if actions != [] {
      SameMode(s, actions[0]);
      RunMode(Apply(s, actions[0]), actions[1..]);
    }
  }

  /** With one writer at a time every reachable state is guarded, whatever renames failed on the way. */
  lemma SingleWriterGuarded(s: State)
    requires Reachable(s) && !s.multiWrites
    ensures Guarded(s)
  {
    hide Guarded, Bounded, RunEnabled, Run, Start;
    var start, actions :| Start(start) && RunEnabled(start, actions) && s == Run(start, actions);
    StartValid(start);
    StartGuarded(start);
    RunMode(start, actions);
    SingleWriterRun(start, actions);
    RunGuarded(start, actions);
  }

  /** With one writer at a time, stability needs no condition: neither on the way to the state nor after it. */
  lemma SnapshotStable(s: State, actions: seq<Action>, id: nat, name: string)
    requires Reachable(s) && !s.multiWrites && RunEnabled(s, actions) && id in s.active
    requires forall i | 0 <= i < |actions| :: !By(actions[i], id)
    ensures var s' := Run(s, actions); id in s'.active && View(s', id, name) == View(s, id, name)
  {
    hide Guarded, Reachable, RunEnabled, Run;
    SingleWriterGuarded(s);
    assert Bounded(s) by {
      ReachableBounded(s);
    }
    SingleWriterRun(s, actions);
    HarmlessStable(s, actions, id, name);
  }

  // ----- undo records -----

  /** The record finds its version, with one above it. */
  predicate FindsVersion(entries: map<string, Chain>, r: Record) {
    r.name in entries && 0 < Position(entries[r.name], r.entry) < |entries[r.name]|
  }

  /** What a commit asserts of each record as it gets to it. */
  predicate CommitDefined(entries: map<string, Chain>, rs: seq<Record>, ts: nat) {
    rs == [] || (CommitDefined(entries, rs[..|rs| - 1], ts) && FindsVersion(CommitRecords(entries, rs[..|rs| - 1], ts), rs[|rs| - 1]))
  }

  /** What a rollback asserts of each record as it gets to it. */
  predicate RollbackDefined(entries: map<string, Chain>, rs: seq<Record>) {
    rs == [] || (FindsVersion(entries, rs[|rs| - 1]) && RollbackDefined(RollbackRecord(entries, rs[|rs| - 1]), rs[..|rs| - 1]))
  }

  ghost predicate AllOrdered(entries: map<string, Chain>, rs: seq<Record>) {
    && (forall i | 0 <= i < |rs| :: rs[i].name in entries)
    && forall name | name in entries :: Distinct(entries[name]) && Ordered(entries[name], Olds(rs, name))
  }

  lemma LastFindsVersion(entries: map<string, Chain>, rs: seq<Record>)
    requires AllOrdered(entries, rs) && rs != []
    ensures FindsVersion(entries, rs[|rs| - 1])
  {
    var r := rs[|rs| - 1];
    OldsLast(rs, r.name);
    var olds := Olds(rs, r.name);
    assert Ordered(entries[r.name], olds) && olds[|olds| - 1] == r.entry;
  }

  lemma OrderedPrefix(c: Chain, olds: seq<nat>)
    requires Ordered(c, olds) && olds != []
    ensures Ordered(c, olds[..|olds| - 1])
  {
    assert forall m | 0 <= m < |olds| - 1 :: olds[..|olds| - 1][m] == olds[m];
  }

  lemma OrderedFront(entries: map<string, Chain>, rs: seq<Record>)
    requires AllOrdered(entries, rs) && rs != []
    ensures AllOrdered(entries, rs[..|rs| - 1])
  {
    hide Ordered, Distinct;
    forall name | name in entries
      ensures Ordered(entries[name], Olds(rs[..|rs| - 1], name))
    {
      OldsLast(rs, name);
      if rs[|rs| - 1].name == name {
        OrderedPrefix(entries[name], Olds(rs, name));
      }
    }
  }

  lemma {:induction false} OrderedCommit(entries: map<string, Chain>, rs: seq<Record>, ts: nat)
    requires AllOrdered(entries, rs)
    ensures CommitDefined(entries, rs, ts)
    decreases |rs|
  {
    if rs != [] {
      var front, r := rs[..|rs| - 1], rs[|rs| - 1];
      OrderedFront(entries, rs);
      LastFindsVersion(entries, rs);
      hide AllOrdered;
      OrderedCommit(entries, front, ts);
      CommitByChain(entries, front, ts, r.name);
      CommitChainAt(entries[r.name], Olds(front, r.name), ts);
      SamePosition(entries[r.name], CommitRecords(entries, front, ts)[r.name], r.entry);
    }
  }

  lemma {:induction false} OrderedRollback(entries: map<string, Chain>, rs: seq<Record>)
    requires AllOrdered(entries, rs)
    ensures RollbackDefined(entries, rs)
    decreases |rs|
  {
    if rs != [] {
      var front, r := rs[..|rs| - 1], rs[|rs| - 1];
      LastFindsVersion(entries, rs);
      OrderedFront(entries, rs);
      var entries' := RollbackRecord(entries, r);
      forall name | name in entries'
        ensures Distinct(entries'[name]) && Ordered(entries'[name], Olds(front, name))
      {
        OldsLast(rs, name);
        if name == r.name {
          RemoveOrdered(entries[name], Olds(rs, name));
        }
      }
      hide RollbackRecord, Ordered, Distinct;
      OrderedRollback(entries', front);
    }
  }

  /** In guarded states, no undo record has lost its version: what commit and rollback assert holds at every record. */
  lemma UndoDefined(s: State, id: nat, ts: nat)
    requires Guarded(s) && id in s.active
    ensures CommitDefined(s.entries, s.active[id].records, ts) && RollbackDefined(s.entries, s.active[id].records)
  {
    var rs := s.active[id].records;
    assert RecordsGuarded(s.entries, s.active.Keys, id, rs);
    forall name | name in s.entries
      ensures Distinct(s.entries[name]) && Ordered(s.entries[name], Olds(rs, name))
    {
      assert ChainBounded(s, s.entries[name]);
      OldsGuarded(s, id, name);
    }
    OrderedCommit(s.entries, rs, ts);
    OrderedRollback(s.entries, rs);
  }
}
