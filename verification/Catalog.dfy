/**
 The versioned catalog: a chain of versions per name, transactions that see a snapshot
 of it, and the undo records by which they commit or roll back.

 Names are compared as the case-insensitive map compares them.
 */
module Catalog {
  datatype Option<T> = None | Some(value: T)

  /** Timestamps below this are commit times, the others are IDs of running transactions. */
  const START_TRANSACTION_ID: nat := 0x8000_0000_0000_0000

  /** One version of an entry; `id` is its identity, which survives a change of its timestamp. */
  datatype Version = Version(id: nat, oid: nat, timestamp: nat, deleted: bool, content: int)

  /** The versions of one name, newest first. */
  type Chain = seq<Version>

  /** An undo record names a version; it is about the version above that one. */
  datatype Record = Record(name: string, entry: nat)

  datatype Transaction = Transaction(startTS: nat, write: bool, records: seq<Record>)

  datatype State = State(
    multiWrites: bool,
    entries: map<string, Chain>,
    nextOID: nat,
    nextVersion: nat,
    lastTransactionID: nat,
    lastTimestamp: nat,
    active: map<nat, Transaction>)

  predicate HasChain(entries: map<string, Chain>, name: string) {
    name in entries && entries[name] != []
  }

  // ----- reading -----

  predicate Sees(id: nat, startTS: nat, v: Version) {
    v.timestamp == id || v.timestamp <= startTS
  }

  /** The newest version the transaction sees. */
  function Visible(c: Chain, id: nat, startTS: nat): Option<Version> {
    if c == [] then None
    else if Sees(id, startTS, c[0]) then Some(c[0])
    else Visible(c[1..], id, startTS)
  }

  /** The live entry a transaction finds under a name. */
  function Lookup(entries: map<string, Chain>, id: nat, startTS: nat, name: string): Option<Version> {
    if name !in entries then None
    else
      var v := Visible(entries[name], id, startTS);
      if v.Some? && !v.value.deleted then v else None
  }

  function View(s: State, id: nat, name: string): Option<Version>
    requires id in s.active
  {
    Lookup(s.entries, id, s.active[id].startTS, name)
  }

  /** `checkWWConflict`. */
  predicate Conflicts(id: nat, startTS: nat, v: Version) {
    if v.timestamp >= START_TRANSACTION_ID then v.timestamp != id else v.timestamp > startTS
  }

  // ----- writing -----

  datatype Error = NotFound | AlreadyExists | WriteConflict | StillThere

  datatype Outcome = Done(state: State) | Failed(state: State, error: Error)

  function Push(s: State, name: string, v: Version): State
    requires name in s.entries
  {
    s.(entries := s.entries[name := [v] + s.entries[name]], nextVersion := s.nextVersion + 1)
  }

  /** A chain for the name, with a deleted version at its end that everyone sees. */
  function WithChain(s: State, name: string, oid: nat): State {
    if HasChain(s.entries, name) then s
    else s.(entries := s.entries[name := [Version(s.nextVersion, oid, 0, true, 0)]], nextVersion := s.nextVersion + 1)
  }

  function AddRecord(s: State, id: nat, r: Record): State
    requires id in s.active
  {
    s.(active := s.active[id := s.active[id].(records := s.active[id].records + [r])])
  }

  /** `createEntryNoLock`. */
  function EmplaceNew(s: State, id: nat, name: string, oid: nat, content: int): (o: Outcome)
    requires id in s.active
    ensures o.Done? ==> name in o.state.entries && |o.state.entries[name]| > 1
    ensures o.state.active == s.active && (o.Failed? ==> o.state == s)
  {
    var startTS := s.active[id].startTS;
    if View(s, id, name).Some? then Failed(s, AlreadyExists)
    else if HasChain(s.entries, name) && Conflicts(id, startTS, s.entries[name][0]) then Failed(s, WriteConflict)
    else if HasChain(s.entries, name) && !s.entries[name][0].deleted then Failed(s, StillThere)
    else
      var based := WithChain(s, name, oid);
      Done(Push(based, name, Version(based.nextVersion, oid, id, false, content)))
  }

  /** Creates an entry; the OID is used up even when it fails. */
  function Create(s: State, id: nat, name: string, content: int): Outcome
    requires id in s.active
  {
    var o := EmplaceNew(s.(nextOID := s.nextOID + 1), id, name, s.nextOID, content);
    if o.Failed? then o else Done(AddRecord(o.state, id, Record(name, o.state.entries[name][1].id)))
  }

  /** A tombstone on top of the chain. */
  function Bury(s: State, id: nat, name: string, oid: nat): State
    requires name in s.entries
  {
    Push(s, name, Version(s.nextVersion, oid, id, true, 0))
  }

  function Drop(s: State, id: nat, name: string, oid: nat): Outcome
    requires id in s.active
  {
    if View(s, id, name).None? then Failed(s, NotFound)
    else
      var buried := Bury(s, id, name, oid);
      Done(AddRecord(buried, id, Record(name, s.entries[name][0].id)))
  }

  /** Alters the visible version; the undo record is about the version above that one. */
  function Alter(s: State, id: nat, name: string, content: int): Outcome
    requires id in s.active
  {
    var v := View(s, id, name);
    if v.None? then Failed(s, NotFound)
    else
      var altered := Push(s, name, v.value.(id := s.nextVersion, timestamp := id, content := content));
      Done(AddRecord(altered, id, Record(name, v.value.id)))
  }

  /** Drop under the old name, create under the new one; when that fails the tombstone stays, without a record. */
  function Rename(s: State, id: nat, name: string, newName: string): Outcome
    requires id in s.active
  {
    var v := View(s, id, name);
    if v.None? then Failed(s, NotFound)
    else
      var buried := Bury(s, id, name, v.value.oid);
      var o := EmplaceNew(buried, id, newName, v.value.oid, v.value.content);
      if o.Failed? then o
      else
        Done(AddRecord(AddRecord(o.state, id, Record(name, v.value.id)), id, Record(newName, o.state.entries[newName][1].id)))
  }

  // ----- transactions -----

  predicate HasActiveWriter(s: State) {
    exists i | i in s.active :: s.active[i].write
  }

  function Begin(s: State, write: bool): (r: Option<State>) {
    if write && !s.multiWrites && HasActiveWriter(s) then None
    else Some(s.(lastTransactionID := s.lastTransactionID + 1,
                 active := s.active[s.lastTransactionID + 1 := Transaction(s.lastTimestamp, write, [])]))
  }

  /** Where a version is in its chain; the length of the chain when it is not there. */
  function Position(c: Chain, id: nat): (i: nat)
    ensures i <= |c| && (i < |c| ==> c[i].id == id) && forall j | 0 <= j < i :: c[j].id != id
  {
    if c == [] || c[0].id == id then 0 else 1 + Position(c[1..], id)
  }

  /** The version above `entry` gets the commit time. */
  function CommitAbove(c: Chain, entry: nat, ts: nat): (r: Chain)
    ensures |r| == |c|
  {
    var i := Position(c, entry);
    if i == 0 || i == |c| then c else c[i - 1 := c[i - 1].(timestamp := ts)]
  }

  /** The version above `entry` leaves the chain. */
  function RemoveAbove(c: Chain, entry: nat): Chain {
    var i := Position(c, entry);
    if i == 0 || i == |c| then c else c[..i - 1] + c[i..]
  }

  function CommitRecord(entries: map<string, Chain>, r: Record, ts: nat): map<string, Chain> {
    if r.name in entries then entries[r.name := CommitAbove(entries[r.name], r.entry, ts)] else entries
  }

  function RollbackRecord(entries: map<string, Chain>, r: Record): map<string, Chain> {
    if r.name in entries then entries[r.name := RemoveAbove(entries[r.name], r.entry)] else entries
  }

  /** In the order of the undo buffer. */
  function CommitRecords(entries: map<string, Chain>, rs: seq<Record>, ts: nat): map<string, Chain> {
    if rs == [] then entries else CommitRecord(CommitRecords(entries, rs[..|rs| - 1], ts), rs[|rs| - 1], ts)
  }

  /** In the opposite order. */
  function RollbackRecords(entries: map<string, Chain>, rs: seq<Record>): map<string, Chain> {
    if rs == [] then entries else RollbackRecords(RollbackRecord(entries, rs[|rs| - 1]), rs[..|rs| - 1])
  }

  function End(s: State, id: nat): State {
    s.(active := s.active - {id})
  }

  function Commit(s: State, id: nat): State
    requires id in s.active
  {
    var t := s.active[id];
    if !t.write then End(s, id)
    else
      var ts := s.lastTimestamp + 1;
      End(s.(entries := CommitRecords(s.entries, t.records, ts), lastTimestamp := ts), id)
  }

  function Rollback(s: State, id: nat): State
    requires id in s.active
  {
    End(s.(entries := RollbackRecords(s.entries, s.active[id].records)), id)
  }
}
