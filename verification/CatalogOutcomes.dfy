/**
 When writes and new transactions succeed, and with which error they fail otherwise.
 */
module CatalogOutcomes {
  import opened Catalog
  import opened CatalogInvariant
  import opened CatalogSteps
  import opened CatalogReachable
  import opened CatalogProperties

  /** The transaction finds no entry under the name, and sees the newest version there is of it. */
  predicate Creatable(s: State, id: nat, name: string)
    requires id in s.active
  {
    View(s, id, name).None? && (HasChain(s.entries, name) ==> Sees(id, s.active[id].startTS, s.entries[name][0]))
  }

  lemma EmplaceOutcome(s: State, id: nat, name: string, oid: nat, content: int)
    requires id in s.active && id >= START_TRANSACTION_ID > s.active[id].startTS
    ensures var o := EmplaceNew(s, id, name, oid, content);
            && (o.Done? <==> Creatable(s, id, name))
            && (o.Failed? ==> o.error == if View(s, id, name).Some? then AlreadyExists else WriteConflict)
  {
  }

  /** In every reachable state: an entry can be created exactly when the transaction finds none of the name and sees the
      newest version there is. Otherwise the error says which of the two it is. */
  lemma CreateOutcome(s: State, id: nat, name: string, content: int)
    requires Bounded(s) && id in s.active
    ensures var o := Create(s, id, name, content);
            && (o.Done? <==> Creatable(s, id, name))
            && (o.Failed? ==> o.error == (if View(s, id, name).Some? then AlreadyExists else WriteConflict) &&
                              o.state == s.(nextOID := s.nextOID + 1))
  {
    TransactionBounds(s, id);
    var s1 := s.(nextOID := s.nextOID + 1);
    assert View(s1, id, name) == View(s, id, name);
    EmplaceOutcome(s1, id, name, s.nextOID, content);
  }

  /** With one writer at a time, all that hinders a create is an entry of the name. */
  lemma SingleWriterCreates(s: State, id: nat, name: string, content: int)
    requires Valid(s) && Bounded(s) && !s.multiWrites && id in s.active && s.active[id].write
    ensures Create(s, id, name, content).Done? <==> View(s, id, name).None?
  {
    hide Create;
    CreateOutcome(s, id, name, content);
    if HasChain(s.entries, name) {
      SingleWriterNoConflict(s, id, name);
      ConflictExact(s, id, s.entries[name][0]);
    }
  }

  /** A drop and an alter succeed exactly when the transaction finds the entry; nothing is changed when it does not. */
  lemma DropOutcome(s: State, id: nat, name: string, oid: nat)
    requires id in s.active
    ensures var o := Drop(s, id, name, oid);
            && (o.Done? <==> View(s, id, name).Some?)
            && (o.Failed? ==> o.error == NotFound && o.state == s)
  {
  }

  lemma AlterOutcome(s: State, id: nat, name: string, content: int)
    requires id in s.active
    ensures var o := Alter(s, id, name, content);
            && (o.Done? <==> View(s, id, name).Some?)
            && (o.Failed? ==> o.error == NotFound && o.state == s)
  {
  }

  /** In every reachable state: a rename succeeds exactly when the transaction finds the entry and can create one under the
      new name, which after the drop it always can under the old one. */
  lemma RenameOutcome(s: State, id: nat, name: string, newName: string)
    requires Bounded(s) && id in s.active
    ensures var o := Rename(s, id, name, newName);
            && (o.Done? <==> View(s, id, name).Some? && (newName == name || Creatable(s, id, newName)))
            && (o.Failed? ==> o.error == if View(s, id, name).None? then NotFound
                                         else if View(s, id, newName).Some? then AlreadyExists else WriteConflict)
            && (View(s, id, name).None? ==> o.state == s)
  {
    TransactionBounds(s, id);
    var v := View(s, id, name);
    if v.Some? {
      var buried := Bury(s, id, name, v.value.oid);
      EmplaceOutcome(buried, id, newName, v.value.oid, v.value.content);
      PushSeen(s, name, Version(s.nextVersion, v.value.oid, id, true, 0), id, newName);
    }
  }

  /** A transaction is refused exactly when it wants to write, one writer is allowed and there is one. Otherwise it is new,
      has written nothing, sees of every name what is committed, and the others go on as before. */
  lemma BeginOutcome(s: State, write: bool, name: string)
    requires Bounded(s)
    ensures var r := Begin(s, write);
            && (r.None? <==> write && !s.multiWrites && exists w | w in s.active :: s.active[w].write)
            && (r.Some? ==>
                  var s', id := r.value, r.value.lastTransactionID;
                  && (forall other | other in s.active :: other < id)
                  && s'.active.Keys == s.active.Keys + {id} && (forall other | other in s.active :: s'.active[other] == s.active[other])
                  && s'.active[id].write == write && s'.active[id].records == [] && s'.lastTimestamp == s.lastTimestamp
                  && s'.entries == s.entries && s'.nextOID == s.nextOID && s'.nextVersion == s.nextVersion
                  && View(s', id, name) == if Saves(s.entries, name) then Committed(s.entries[name]) else None)
  {
    hide Committed, Visible;
    forall other | other in s.active
      ensures other < s.lastTransactionID + 1
    {
      TransactionBounds(s, other);
    }
    if name in s.entries {
      CommittedNow(s, name);
    }
  }
}
