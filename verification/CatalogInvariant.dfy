/**
 What every step of the catalog keeps: the undo records of a transaction are about
 exactly the versions it wrote, which are on top of their chains.
 */
module CatalogInvariant {
  import opened Catalog

  // ----- the invariant -----

  ghost predicate Distinct(c: Chain) {
    forall i, j | 0 <= i < j < |c| :: c[i].id != c[j].id
  }

  /** A commit time that has passed, or the ID of a running writer. */
  ghost predicate TimeValid(ts: nat, lastTimestamp: nat, writers: set<nat>) {
    if ts < START_TRANSACTION_ID then ts <= lastTimestamp else ts in writers
  }

  /** The last version of a chain is visible to everyone. */
  ghost predicate ChainValid(c: Chain, nextVersion: nat, lastTimestamp: nat, writers: set<nat>) {
    && c != [] && c[|c| - 1].timestamp == 0 && Distinct(c)
    && forall i | 0 <= i < |c| :: c[i].id < nextVersion && TimeValid(c[i].timestamp, lastTimestamp, writers)
  }

  ghost predicate ChainsValid(entries: map<string, Chain>, nextVersion: nat, lastTimestamp: nat, writers: set<nat>) {
    forall name | name in entries :: ChainValid(entries[name], nextVersion, lastTimestamp, writers)
  }

  /** The versions named by the records for one chain, oldest record first. */
  function Olds(rs: seq<Record>, name: string): seq<nat> {
    if rs == [] then []
    else Olds(rs[..|rs| - 1], name) + (if rs[|rs| - 1].name == name then [rs[|rs| - 1].entry] else [])
  }

  /** The transaction wrote the first `k` versions of the chain and no others. */
  ghost predicate Wrote(c: Chain, id: nat, k: nat) {
    && k < |c|
    && (forall i | 0 <= i < k :: c[i].timestamp == id)
    && (forall i | k <= i < |c| :: c[i].timestamp != id)
  }

  /** Each record names the version below the one it is about. */
  ghost predicate Linked(c: Chain, olds: seq<nat>) {
    |olds| < |c| && forall m | 0 <= m < |olds| :: c[|olds| - m].id == olds[m]
  }

  ghost predicate OwnTop(c: Chain, id: nat, olds: seq<nat>) {
    Wrote(c, id, |olds|) && Linked(c, olds)
  }

  /** The versions a transaction wrote are those its records are about. */
  ghost predicate RecordsValid(entries: map<string, Chain>, id: nat, rs: seq<Record>) {
    && (forall name | name in entries :: OwnTop(entries[name], id, Olds(rs, name)))
    && (forall i | 0 <= i < |rs| :: rs[i].name in entries)
  }

  ghost predicate AllRecordsValid(entries: map<string, Chain>, active: map<nat, Transaction>) {
    forall id | id in active :: RecordsValid(entries, id, active[id].records)
  }

  function Writers(active: map<nat, Transaction>): set<nat> {
    set id | id in active && active[id].write
  }

  ghost predicate TransactionValid(s: State, id: nat, t: Transaction) {
    && START_TRANSACTION_ID < id <= s.lastTransactionID && t.startTS <= s.lastTimestamp
    && (!t.write ==> t.records == [])
    && (t.write && !s.multiWrites ==> t.startTS == s.lastTimestamp && Writers(s.active) == {id})
  }

  ghost predicate Valid(s: State) {
    && s.lastTimestamp < START_TRANSACTION_ID <= s.lastTransactionID
    && ChainsValid(s.entries, s.nextVersion, s.lastTimestamp, Writers(s.active))
    && (forall id | id in s.active :: TransactionValid(s, id, s.active[id]))
    && AllRecordsValid(s.entries, s.active)
  }

  // ----- reading -----

  /** How deep in a chain the visible version is. */
  function VisibleIndex(c: Chain, id: nat, startTS: nat): (i: nat)
    ensures i <= |c|
    ensures Visible(c, id, startTS) == if i == |c| then None else Some(c[i])
  {
    if c == [] || Sees(id, startTS, c[0]) then 0 else 1 + VisibleIndex(c[1..], id, startTS)
  }

  lemma {:induction false} VisibleExists(c: Chain, id: nat, startTS: nat)
    requires c != [] && c[|c| - 1].timestamp == 0
    ensures Visible(c, id, startTS).Some?
    decreases |c|
  {
    if !Sees(id, startTS, c[0]) {
      VisibleExists(c[1..], id, startTS);
    }
  }

  /** A transaction sees exactly the versions it has no write conflict with. */
  lemma ConflictExact(s: State, id: nat, v: Version)
    requires Valid(s) && id in s.active
    ensures Conflicts(id, s.active[id].startTS, v) <==> !Sees(id, s.active[id].startTS, v)
  {
    assert TransactionValid(s, id, s.active[id]);
  }

  /** When the top of the chain is no conflict, what is visible is the top. */
  lemma TopVisible(s: State, id: nat, name: string)
    requires Valid(s) && id in s.active && HasChain(s.entries, name) && !Conflicts(id, s.active[id].startTS, s.entries[name][0])
    ensures Visible(s.entries[name], id, s.active[id].startTS) == Some(s.entries[name][0])
  {
    ConflictExact(s, id, s.entries[name][0]);
  }

  /** The check for an existing entry that follows the conflict check never fails. */
  lemma NeverStillThere(s: State, id: nat, name: string, oid: nat, content: int)
    requires Valid(s) && id in s.active
    ensures var o := EmplaceNew(s, id, name, oid, content); o.Failed? ==> o.error != StillThere
  {
    if HasChain(s.entries, name) && !Conflicts(id, s.active[id].startTS, s.entries[name][0]) {
      TopVisible(s, id, name);
    }
  }

  /** With one writer at a time, it never meets a conflict. */
  lemma SingleWriterNoConflict(s: State, id: nat, name: string)
    requires Valid(s) && !s.multiWrites && id in s.active && s.active[id].write && HasChain(s.entries, name)
    ensures !Conflicts(id, s.active[id].startTS, s.entries[name][0])
  {
    assert TransactionValid(s, id, s.active[id]);
    assert ChainValid(s.entries[name], s.nextVersion, s.lastTimestamp, {id});
  }
}
