/**
 Commit relabels and rollback removes exactly what a transaction wrote; what the others
 see does not change.
 */
module CatalogTransactions {
  import opened Catalog
  import opened CatalogInvariant
  import opened CatalogSteps

  // ----- commit, chain by chain -----

  function CommitChain(c: Chain, olds: seq<nat>, ts: nat): (r: Chain)
    ensures |r| == |c|
  {
    if olds == [] then c else CommitAbove(CommitChain(c, olds[..|olds| - 1], ts), olds[|olds| - 1], ts)
  }

  lemma OldsLast(rs: seq<Record>, name: string)
    requires rs != []
    ensures var front, r, olds := rs[..|rs| - 1], rs[|rs| - 1], Olds(rs, name);
            if r.name == name then olds != [] && olds[..|olds| - 1] == Olds(front, name) && olds[|olds| - 1] == r.entry
            else olds == Olds(front, name)
  {
  }

  /** Committing all records commits each chain by the records for it. */
  lemma {:induction false} CommitByChain(entries: map<string, Chain>, rs: seq<Record>, ts: nat, name: string)
    ensures CommitRecords(entries, rs, ts).Keys == entries.Keys
    ensures name in entries ==> CommitRecords(entries, rs, ts)[name] == CommitChain(entries[name], Olds(rs, name), ts)
    decreases |rs|
  {
    hide CommitAbove;
    if rs != [] {
      var front, r := rs[..|rs| - 1], rs[|rs| - 1];
      CommitByChain(entries, front, ts, name);
      OldsLast(rs, name);
    }
  }

  /** The chain with the versions of one transaction relabelled. */
  function Relabelled(c: Chain, id: nat, ts: nat): (r: Chain)
    ensures |r| == |c|
  {
    if c == [] then [] else [if c[0].timestamp == id then c[0].(timestamp := ts) else c[0]] + Relabelled(c[1..], id, ts)
  }

  lemma {:induction false} RelabelledAt(c: Chain, id: nat, ts: nat)
    ensures forall i | 0 <= i < |c| :: Relabelled(c, id, ts)[i] == if c[i].timestamp == id then c[i].(timestamp := ts) else c[i]
    decreases |c|
  {
    if c != [] {
      RelabelledAt(c[1..], id, ts);
    }
  }

  lemma PositionIs(c: Chain, i: nat)
    requires i < |c| && Distinct(c)
    ensures Position(c, c[i].id) == i
  {
  }

  /** After the first `m` records, the lowest `m` of the own versions have the commit time. */
  lemma {:induction false} CommitPrefix(c: Chain, olds: seq<nat>, m: nat, ts: nat)
    requires Distinct(c) && Linked(c, olds) && m <= |olds|
    ensures forall i | 0 <= i < |c| ::
              CommitChain(c, olds[..m], ts)[i] == if |olds| - m <= i < |olds| then c[i].(timestamp := ts) else c[i]
    decreases m
  {
    if m > 0 {
      CommitPrefix(c, olds, m - 1, ts);
      assert olds[..m][..m - 1] == olds[..m - 1];
      var d := CommitChain(c, olds[..m - 1], ts);
      assert forall i | 0 <= i < |c| :: d[i].id == c[i].id;
      PositionIs(d, |olds| - (m - 1));
    }
  }

  /** The undo records relabel exactly the versions the transaction wrote. */
  lemma CommitIsRelabel(c: Chain, id: nat, olds: seq<nat>, ts: nat)
    requires Distinct(c) && OwnTop(c, id, olds)
    ensures CommitChain(c, olds, ts) == Relabelled(c, id, ts)
  {
    RelabelledAt(c, id, ts);
    CommitPrefix(c, olds, |olds|, ts);
    assert olds[..|olds|] == olds;
  }

  // ----- rollback, chain by chain -----

  function RollbackChain(c: Chain, olds: seq<nat>): Chain {
    if olds == [] then c else RollbackChain(RemoveAbove(c, olds[|olds| - 1]), olds[..|olds| - 1])
  }

  lemma {:induction false} RollbackByChain(entries: map<string, Chain>, rs: seq<Record>, name: string)
    ensures RollbackRecords(entries, rs).Keys == entries.Keys
    ensures name in entries ==> RollbackRecords(entries, rs)[name] == RollbackChain(entries[name], Olds(rs, name))
    decreases |rs|
  {
    hide RemoveAbove;
    if rs != [] {
      var front, r := rs[..|rs| - 1], rs[|rs| - 1];
      RollbackByChain(RollbackRecord(entries, r), front, name);
      OldsLast(rs, name);
    }
  }

  lemma TopRemoved(c: Chain, old_: nat)
    requires Distinct(c) && |c| > 1 && c[1].id == old_
    ensures RemoveAbove(c, old_) == c[1..]
  {
    PositionIs(c, 1);
  }

  /** Without its newest version, a chain has one record less. */
  lemma OwnTopBelow(c: Chain, id: nat, olds: seq<nat>)
    requires Distinct(c) && OwnTop(c, id, olds) && olds != []
    ensures Distinct(c[1..]) && OwnTop(c[1..], id, olds[..|olds| - 1])
  {
    var d, front := c[1..], olds[..|olds| - 1];
    assert forall i | 0 <= i < |d| :: d[i] == c[i + 1];
    forall m | 0 <= m < |front|
      ensures d[|front| - m].id == front[m]
    {
      assert d[|front| - m] == c[|olds| - m];
    }
  }

  /** The undo records remove exactly the versions the transaction wrote. */
  lemma {:induction false} RollbackIsRemove(c: Chain, id: nat, olds: seq<nat>)
    requires Distinct(c) && OwnTop(c, id, olds)
    ensures RollbackChain(c, olds) == c[|olds|..]
    decreases |olds|
  {
    if olds != [] {
      var front := olds[..|olds| - 1];
      TopRemoved(c, olds[|olds| - 1]);
      OwnTopBelow(c, id, olds);
      hide Linked, Wrote, Distinct, RemoveAbove;
      RollbackIsRemove(c[1..], id, front);
    }
  }

  // ----- the invariant -----

  lemma ChainRelabelled(c: Chain, id: nat, nextVersion: nat, lastTimestamp: nat, writers: set<nat>)
    requires ChainValid(c, nextVersion, lastTimestamp, writers) && id >= START_TRANSACTION_ID
    requires lastTimestamp + 1 < START_TRANSACTION_ID
    ensures ChainValid(Relabelled(c, id, lastTimestamp + 1), nextVersion, lastTimestamp + 1, writers - {id})
  {
    RelabelledAt(c, id, lastTimestamp + 1);
  }

  lemma OwnTopRelabelled(c: Chain, id: nat, ts: nat, other: nat, olds: seq<nat>)
    requires OwnTop(c, other, olds) && other != id && other != ts
    ensures OwnTop(Relabelled(c, id, ts), other, olds)
  {
    RelabelledAt(c, id, ts);
  }

  lemma RecordsRelabelled(entries: map<string, Chain>, entries': map<string, Chain>, id: nat, ts: nat, other: nat, rs: seq<Record>)
    requires RecordsValid(entries, other, rs) && other != id && other != ts && AllRelabelled(entries, entries', id, ts)
    ensures RecordsValid(entries', other, rs)
  {
    forall name | name in entries'
      ensures OwnTop(entries'[name], other, Olds(rs, name))
    {
      assert OwnTop(entries[name], other, Olds(rs, name));
      OwnTopRelabelled(entries[name], id, ts, other, Olds(rs, name));
    }
  }

  /** The entries with the versions of one transaction relabelled. */
  ghost predicate AllRelabelled(entries: map<string, Chain>, entries': map<string, Chain>, id: nat, ts: nat) {
    entries'.Keys == entries.Keys && forall name | name in entries :: entries'[name] == Relabelled(entries[name], id, ts)
  }

  lemma CommitRelabels(entries: map<string, Chain>, id: nat, rs: seq<Record>, ts: nat)
    requires RecordsValid(entries, id, rs) && forall name | name in entries :: Distinct(entries[name])
    ensures AllRelabelled(entries, CommitRecords(entries, rs, ts), id, ts)
  {
    CommitByChain(entries, rs, ts, "");
    forall name | name in entries
      ensures CommitRecords(entries, rs, ts)[name] == Relabelled(entries[name], id, ts)
    {
      hide CommitRecords, CommitChain, Linked, Wrote;
      CommitByChain(entries, rs, ts, name);
      CommitIsRelabel(entries[name], id, Olds(rs, name), ts);
    }
  }

  /** After a commit, each chain is the old one with the versions of the transaction relabelled. */
  lemma CommitEntries(s: State, id: nat)
    requires Valid(s) && id in s.active && s.active[id].write
    ensures AllRelabelled(s.entries, Commit(s, id).entries, id, s.lastTimestamp + 1)
  {
    hide AllRelabelled, CommitRecords;
    forall name | name in s.entries
      ensures Distinct(s.entries[name])
    {
      assert ChainValid(s.entries[name], s.nextVersion, s.lastTimestamp, Writers(s.active));
    }
    CommitRelabels(s.entries, id, s.active[id].records, s.lastTimestamp + 1);
  }

  lemma EndWriters(s: State, id: nat)
    ensures Writers(s.active - {id}) == Writers(s.active) - {id}
  {
  }

  lemma CommitValid(s: State, id: nat)
    requires Valid(s) && id in s.active && s.lastTimestamp + 1 < START_TRANSACTION_ID
    ensures Valid(Commit(s, id))
  {
    if s.active[id].write {
      CommitWriterValid(s, id);
    } else {
      EndReaderValid(s, id);
    }
  }

  lemma CommitWriterValid(s: State, id: nat)
    requires Valid(s) && id in s.active && s.active[id].write && s.lastTimestamp + 1 < START_TRANSACTION_ID
    ensures Valid(Commit(s, id))
  {
    hide RecordsValid, ChainValid;
    var s' := Commit(s, id);
    CommitEntries(s, id);
    EndWriters(s, id);
    assert TransactionValid(s, id, s.active[id]);
    forall name | name in s'.entries
      ensures ChainValid(s'.entries[name], s'.nextVersion, s'.lastTimestamp, Writers(s'.active))
    {
      assert ChainValid(s.entries[name], s.nextVersion, s.lastTimestamp, Writers(s.active));
      ChainRelabelled(s.entries[name], id, s.nextVersion, s.lastTimestamp, Writers(s.active));
    }
    forall other | other in s'.active
      ensures TransactionValid(s', other, s'.active[other]) && RecordsValid(s'.entries, other, s'.active[other].records)
    {
      assert TransactionValid(s, other, s.active[other]) && RecordsValid(s.entries, other, s.active[other].records);
      RecordsRelabelled(s.entries, s'.entries, id, s'.lastTimestamp, other, s.active[other].records);
    }
  }

  lemma EndReaderValid(s: State, id: nat)
    requires Valid(s) && id in s.active && !s.active[id].write
    ensures Valid(End(s, id))
  {
    hide RecordsValid, ChainsValid;
    var s' := End(s, id);
    EndWriters(s, id);
    assert Writers(s'.active) == Writers(s.active);
    forall other | other in s'.active
      ensures TransactionValid(s', other, s'.active[other])
    {
      assert TransactionValid(s, other, s.active[other]);
    }
  }

  /** After a rollback, the versions of the transaction are gone from the top of each chain. */
  lemma RollbackEntries(s: State, id: nat)
    requires Valid(s) && id in s.active
    ensures Rollback(s, id).entries.Keys == s.entries.Keys
    ensures forall name | name in s.entries ::
              && Wrote(s.entries[name], id, |Olds(s.active[id].records, name)|)
              && Rollback(s, id).entries[name] == s.entries[name][|Olds(s.active[id].records, name)|..]
  {
    var rs := s.active[id].records;
    RollbackByChain(s.entries, rs, "");
    forall name | name in s.entries
      ensures Wrote(s.entries[name], id, |Olds(rs, name)|)
      ensures Rollback(s, id).entries[name] == s.entries[name][|Olds(rs, name)|..]
    {
      RollbackByChain(s.entries, rs, name);
      assert RecordsValid(s.entries, id, rs) && OwnTop(s.entries[name], id, Olds(rs, name));
      assert ChainValid(s.entries[name], s.nextVersion, s.lastTimestamp, Writers(s.active));
      RollbackIsRemove(s.entries[name], id, Olds(rs, name));
    }
  }

  lemma ChainRemoved(c: Chain, id: nat, k: nat, nextVersion: nat, lastTimestamp: nat, writers: set<nat>)
    requires ChainValid(c, nextVersion, lastTimestamp, writers) && Wrote(c, id, k)
    ensures ChainValid(c[k..], nextVersion, lastTimestamp, writers - {id})
  {
    assert forall i | 0 <= i < |c[k..]| :: c[k..][i] == c[k + i];
  }

  lemma OwnTopRemoved(c: Chain, id: nat, k: nat, other: nat, olds: seq<nat>)
    requires Wrote(c, id, k) && OwnTop(c, other, olds) && other != id
    ensures OwnTop(c[k..], other, olds)
  {
    assert forall i | 0 <= i < |c[k..]| :: c[k..][i] == c[k + i];
    if k > 0 {
      assert c[0].timestamp == id;
    }
  }

  lemma RecordsRemoved(entries: map<string, Chain>, entries': map<string, Chain>, id: nat, ks: map<string, nat>, other: nat, rs: seq<Record>)
    requires RecordsValid(entries, other, rs) && other != id && entries'.Keys == entries.Keys == ks.Keys
    requires forall name | name in entries :: Wrote(entries[name], id, ks[name]) && entries'[name] == entries[name][ks[name]..]
    ensures RecordsValid(entries', other, rs)
  {
    forall name | name in entries'
      ensures OwnTop(entries'[name], other, Olds(rs, name))
    {
      assert OwnTop(entries[name], other, Olds(rs, name));
      OwnTopRemoved(entries[name], id, ks[name], other, Olds(rs, name));
    }
  }

  lemma RollbackValid(s: State, id: nat)
    requires Valid(s) && id in s.active
    ensures Valid(Rollback(s, id))
  {
    hide RecordsValid, ChainValid;
    var s', rs := Rollback(s, id), s.active[id].records;
    var ks := map name | name in s.entries :: |Olds(rs, name)|;
    RollbackEntries(s, id);
    EndWriters(s, id);
    forall name | name in s'.entries
      ensures ChainValid(s'.entries[name], s'.nextVersion, s'.lastTimestamp, Writers(s'.active))
    {
      assert ChainValid(s.entries[name], s.nextVersion, s.lastTimestamp, Writers(s.active));
      ChainRemoved(s.entries[name], id, ks[name], s.nextVersion, s.lastTimestamp, Writers(s.active));
    }
    forall other | other in s'.active
      ensures TransactionValid(s', other, s'.active[other]) && RecordsValid(s'.entries, other, s'.active[other].records)
    {
      assert TransactionValid(s, other, s.active[other]) && RecordsValid(s.entries, other, s.active[other].records);
      RecordsRemoved(s.entries, s'.entries, id, ks, other, s.active[other].records);
    }
  }

  lemma BeginValid(s: State, write: bool)
    requires Valid(s) && Begin(s, write).Some?
    ensures Valid(Begin(s, write).value)
  {
    hide RecordsValid, ChainValid;
    var s', id := Begin(s, write).value, s.lastTransactionID + 1;
    assert id !in s.active by {
      assert id in s.active ==> TransactionValid(s, id, s.active[id]);
    }
    assert Writers(s'.active) == if write then Writers(s.active) + {id} else Writers(s.active);
    forall name | name in s'.entries
      ensures ChainValid(s'.entries[name], s'.nextVersion, s'.lastTimestamp, Writers(s'.active))
    {
      assert ChainValid(s.entries[name], s.nextVersion, s.lastTimestamp, Writers(s.active));
      ChainMoreWriters(s.entries[name], s.nextVersion, s.lastTimestamp, Writers(s.active), Writers(s'.active));
    }
    forall other | other in s'.active
      ensures TransactionValid(s', other, s'.active[other]) && RecordsValid(s'.entries, other, s'.active[other].records)
    {
      if other != id {
        assert TransactionValid(s, other, s.active[other]) && RecordsValid(s.entries, other, s.active[other].records);
        if s.active[other].write && !s.multiWrites {
          assert other in Writers(s.active) && HasActiveWriter(s);
        }
      } else {
        NewRecordsValid(s, id);
        if write && !s.multiWrites {
          assert Writers(s.active) == {};
        }
      }
    }
  }

  lemma ChainMoreWriters(c: Chain, nextVersion: nat, lastTimestamp: nat, writers: set<nat>, more: set<nat>)
    requires ChainValid(c, nextVersion, lastTimestamp, writers) && writers <= more
    ensures ChainValid(c, nextVersion, lastTimestamp, more)
  {
  }

  lemma NewRecordsValid(s: State, id: nat)
    requires Valid(s) && id > START_TRANSACTION_ID && id !in s.active
    ensures RecordsValid(s.entries, id, [])
  {
    forall name | name in s.entries
      ensures OwnTop(s.entries[name], id, [])
    {
      assert ChainValid(s.entries[name], s.nextVersion, s.lastTimestamp, Writers(s.active));
    }
  }
}
