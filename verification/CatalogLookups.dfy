/**
 Lookups by OID, by what happened to a chain since the visible version was written: an
 entry that arrived in it, by a create or a rename, after another one had left.
 */
module CatalogLookups {
  import opened Catalog
  import opened CatalogInvariant
  import opened CatalogSteps
  import opened CatalogTransactions
  import opened CatalogReachable
  import opened CatalogGuards
  import opened CatalogSnapshots
  import opened CatalogProperties
  import opened CatalogOutcomes
  import opened CatalogOids

  // ----- arrivals -----

  /** The version was created, or renamed into the chain, after what was there had been deleted. */
  predicate Arrived(c: Chain, k: nat) {
    k + 1 < |c| && !c[k].deleted && c[k + 1].deleted
  }

  /** The OID changes with arrivals only. */
  ghost predicate Shaped(c: Chain) {
    forall k | 0 <= k < |c| - 1 :: c[k].oid == c[k + 1].oid || Arrived(c, k)
  }

  ghost predicate AllShaped(entries: map<string, Chain>) {
    forall name | name in entries :: Shaped(entries[name])
  }

  /** The newest arrival above the `i`-th version, or `i` when there is none. */
  function LastArrival(c: Chain, i: nat): (k: nat)
    requires i < |c|
    ensures k <= i && (k < i ==> Arrived(c, k)) && forall j | 0 <= j < k :: !Arrived(c, j)
    decreases i
  {
    if i == 0 || Arrived(c, 0) then 0
    else
      var k := LastArrival(c[1..], i - 1);
      assert forall j | 1 <= j <= k + 1 :: Arrived(c, j) == Arrived(c[1..], j - 1);
      k + 1
  }

  /** Another entry has arrived above the `i`-th version, and none after it. */
  predicate Foreign(c: Chain, i: nat)
    requires i < |c|
  {
    LastArrival(c, i) < i && c[LastArrival(c, i)].oid != c[i].oid
  }

  lemma {:induction false} SameOid(c: Chain, k: nat)
    requires Shaped(c) && k < |c| && forall j | 0 <= j < k :: !Arrived(c, j)
    ensures c[0].oid == c[k].oid
    decreases k
  {
    if k > 0 {
      SameOid(c, k - 1);
    }
  }

  lemma ForeignExact(c: Chain, i: nat)
    requires Shaped(c) && i < |c|
    ensures c[0].oid != c[i].oid <==> Foreign(c, i)
  {
    SameOid(c, LastArrival(c, i));
  }

  // ----- orderly steps -----

  /** Drops, alters and renames meet no conflict, a rename that begins also ends, and drops pass the OID of the entry
      that is seen. */
  predicate Orderly(s: State, a: Action)
    requires Enabled(s, a)
  {
    && Safe(s, a)
    && (a.DoDrop? ==> View(s, a.id, a.name).None? || (Writable(s, a.id, a.name) && a.oid == View(s, a.id, a.name).value.oid))
  }

  lemma ShapedPush(s: State, name: string, v: Version)
    requires AllShaped(s.entries) && HasChain(s.entries, name)
    requires v.oid == s.entries[name][0].oid || (!v.deleted && s.entries[name][0].deleted)
    ensures AllShaped(Push(s, name, v).entries)
  {
    var c := s.entries[name];
    var c' := [v] + c;
    forall k | 0 <= k < |c'| - 1
      ensures c'[k].oid == c'[k + 1].oid || Arrived(c', k)
    {
      if k > 0 {
        assert c[k - 1].oid == c[k].oid || Arrived(c, k - 1);
      }
    }
  }

  lemma EmplaceShaped(s: State, id: nat, name: string, oid: nat, content: int)
    requires AllShaped(s.entries) && id in s.active
    ensures AllShaped(EmplaceNew(s, id, name, oid, content).state.entries)
  {
    if EmplaceNew(s, id, name, oid, content).Done? {
      var based := WithChain(s, name, oid);
      assert AllShaped(based.entries);
      ShapedPush(based, name, Version(based.nextVersion, oid, id, false, content));
    }
  }

  lemma WriteShaped(s: State, a: Action)
    requires Valid(s) && AllShaped(s.entries) && Enabled(s, a) && Orderly(s, a) && !a.DoBegin? && !a.DoCommit? && !a.DoRollback?
    ensures AllShaped(Apply(s, a).entries)
  {
    hide Valid, AllShaped, EmplaceNew, Writable;
    match a
    case DoCreate(id, name, content) =>
      EmplaceShaped(s.(nextOID := s.nextOID + 1), id, name, s.nextOID, content);
    case DoDrop(id, name, oid) =>
      if View(s, id, name).Some? {
        TopLive(s, id, name);
        ShapedPush(s, name, Version(s.nextVersion, oid, id, true, 0));
      }
    case DoAlter(id, name, content) =>
      if View(s, id, name).Some? {
        TopLive(s, id, name);
        ShapedPush(s, name, s.entries[name][0].(id := s.nextVersion, timestamp := id, content := content));
      }
    case DoRename(id, name, newName) =>
      if View(s, id, name).Some? {
        var v := View(s, id, name).value;
        TopLive(s, id, name);
        ShapedPush(s, name, Version(s.nextVersion, v.oid, id, true, 0));
        EmplaceShaped(Bury(s, id, name, v.oid), id, newName, v.oid, v.content);
      }
  }

  lemma RelabelledShaped(c: Chain, id: nat, ts: nat)
    requires Shaped(c)
    ensures Shaped(Relabelled(c, id, ts))
  {
    var d := Relabelled(c, id, ts);
    RelabelledAt(c, id, ts);
    forall k | 0 <= k < |d| - 1
      ensures d[k].oid == d[k + 1].oid || Arrived(d, k)
    {
      assert c[k].oid == c[k + 1].oid || Arrived(c, k);
    }
  }

  lemma SuffixShaped(c: Chain, i: nat)
    requires Shaped(c) && i <= |c|
    ensures Shaped(c[i..])
  {
    var d := c[i..];
    forall k | 0 <= k < |d| - 1
      ensures d[k].oid == d[k + 1].oid || Arrived(d, k)
    {
      assert c[i + k].oid == c[i + k + 1].oid || Arrived(c, i + k);
    }
  }

  lemma StepShaped(s: State, a: Action)
    requires Valid(s) && AllShaped(s.entries) && Enabled(s, a) && Orderly(s, a)
    ensures AllShaped(Apply(s, a).entries)
  {
    hide Shaped, CommitRecords, RollbackRecords, Orderly;
    match a
    case DoBegin(_) =>
    case DoCommit(id) =>
      if s.active[id].write {
        CommitEntries(s, id);
        forall name | name in s.entries
          ensures Shaped(Commit(s, id).entries[name])
        {
          RelabelledShaped(s.entries[name], id, s.lastTimestamp + 1);
        }
      }
    case DoRollback(id) =>
      RollbackEntries(s, id);
      forall name | name in s.entries
        ensures Shaped(Rollback(s, id).entries[name])
      {
        SuffixShaped(s.entries[name], |Olds(s.active[id].records, name)|);
      }
    case _ => WriteShaped(s, a);
  }

  predicate RunOrderly(s: State, actions: seq<Action>)
    requires RunEnabled(s, actions)
    decreases |actions|
  {
    actions == [] || (Orderly(s, actions[0]) && RunOrderly(Apply(s, actions[0]), actions[1..]))
  }

  lemma {:induction false} OrderlySafe(s: State, actions: seq<Action>)
    requires RunEnabled(s, actions) && RunOrderly(s, actions)
    ensures RunSafe(s, actions)
    decreases |actions|
  {
    hide Safe;
    if actions != [] {
      OrderlySafe(Apply(s, actions[0]), actions[1..]);
    }
  }

  lemma {:induction false} RunShaped(s: State, actions: seq<Action>)
    requires Valid(s) && AllShaped(s.entries) && RunEnabled(s, actions) && RunOrderly(s, actions)
    ensures AllShaped(Run(s, actions).entries)
    decreases |actions|
  {
    hide Valid, AllShaped, Safe;
    if actions != [] {
      StepShaped(s, actions[0]);
      StepExact(s, actions[0]);
      RunShaped(Apply(s, actions[0]), actions[1..]);
    }
  }

  /** A state that an orderly run reaches from a catalog in which no two live entries have one OID. */
  ghost predicate OrderlyReachable(s: State) {
    exists start, actions :: StartApart(start) && RunEnabled(start, actions) && RunOrderly(start, actions) && s == Run(start, actions)
  }

  lemma OrderlyKept(s: State)
    requires OrderlyReachable(s)
    ensures Kept(s) && AllShaped(s.entries)
  {
    hide Kept, RunEnabled, RunOrderly, Run;
    var start, actions :| StartApart(start) && RunEnabled(start, actions) && RunOrderly(start, actions) && s == Run(start, actions);
    StartValid(start);
    StartKept(start);
    OrderlySafe(start, actions);
    RunKept(start, actions);
    RunShaped(start, actions);
  }

  // ----- lookups -----

  /** Above a live entry that the transaction sees under this name, another entry has arrived. */
  predicate Displaced(s: State, id: nat, name: string)
    requires id in s.active
  {
    View(s, id, name).Some? && Foreign(s.entries[name], VisibleIndex(s.entries[name], id, s.active[id].startTS))
  }

  lemma DisplacedExact(s: State, id: nat, name: string)
    requires AllShaped(s.entries) && id in s.active && View(s, id, name).Some?
    ensures HasChain(s.entries, name)
    ensures Displaced(s, id, name) <==> s.entries[name][0].oid != View(s, id, name).value.oid
  {
    ForeignExact(s.entries[name], VisibleIndex(s.entries[name], id, s.active[id].startTS));
  }

  /** In every state that an orderly run reaches, lookups by OID find what is live under the OID exactly when above no
      live entry that is seen another one has arrived last, by a create or a rename into its chain. */
  lemma OidLookupExact(s: State, id: nat)
    requires OrderlyReachable(s) && id in s.active
    ensures (forall oid, name :: Found(s, id, oid, name) <==> Live(s, id, oid, name)) <==> (forall name :: !Displaced(s, id, name))
  {
    OrderlyKept(s);
    hide OrderlyReachable, Kept, AllShaped, Found, Live, Displaced;
    if forall oid, name :: Found(s, id, oid, name) <==> Live(s, id, oid, name) {
      forall name
        ensures !Displaced(s, id, name)
      {
        NameLookupExact(s, id, name);
      }
    } else {
      var oid, name :| Found(s, id, oid, name) != Live(s, id, oid, name);
      NameLookupExact(s, id, name);
      assert Displaced(s, id, name);
    }
  }

  lemma NameLookupExact(s: State, id: nat, name: string)
    requires AllShaped(s.entries) && id in s.active
    ensures Displaced(s, id, name) <==> exists oid :: Found(s, id, oid, name) != Live(s, id, oid, name)
  {
    if View(s, id, name).Some? {
      DisplacedExact(s, id, name);
      hide Displaced, View;
      var oid := View(s, id, name).value.oid;
      assert Found(s, id, oid, name) != Live(s, id, oid, name) <==> Displaced(s, id, name);
      assert !Displaced(s, id, name) ==> forall o :: Found(s, id, o, name) <==> Live(s, id, o, name);
    } else {
      assert forall o :: !Found(s, id, o, name) && !Live(s, id, o, name);
    }
  }

  // ----- lookups after conflicts and failed renames -----

  /** How the OID can change from one version of a chain to the next one above: another entry arrives after a deletion, a
      tombstone of another entry is there, which a failed rename has left or a drop over a conflict has put there, or an
      alter over a conflict has brought back an older entry. */
  datatype Event = Arrival | OtherTombstone | OtherVersion

  function EventAt(c: Chain, k: nat): Option<Event>
    requires k + 1 < |c|
  {
    if c[k].oid == c[k + 1].oid then None
    else if c[k].deleted then Some(OtherTombstone)
    else if c[k + 1].deleted then Some(Arrival)
    else Some(OtherVersion)
  }

  /** The newest event above the `i`-th version, or `i` when there is none. */
  function LastEvent(c: Chain, i: nat): (k: nat)
    requires i < |c|
    ensures k <= i && (k < i ==> EventAt(c, k).Some?)
    ensures c[0].oid == c[k].oid
    decreases i
  {
    if i == 0 || EventAt(c, 0).Some? then 0 else LastEvent(c[1..], i - 1) + 1
  }

  /** The last event above the version that the transaction finds under this name has brought the OID of another entry. */
  predicate Overlaid(s: State, id: nat, name: string)
    requires id in s.active
  {
    && View(s, id, name).Some?
    && var c := s.entries[name];
    var i := VisibleIndex(c, id, s.active[id].startTS);
    LastEvent(c, i) < i && c[LastEvent(c, i)].oid != c[i].oid
  }

  /** After any run, with conflicts and failed renames: lookups by OID find what is live under the OID exactly when above no
      live entry that is seen the last event has brought the OID of another one. */
  lemma OidLookupEvents(s: State, id: nat)
    requires id in s.active
    ensures (forall oid, name :: Found(s, id, oid, name) <==> Live(s, id, oid, name)) <==> (forall name :: !Overlaid(s, id, name))
  {
    if forall oid, name :: Found(s, id, oid, name) <==> Live(s, id, oid, name) {
      forall name
        ensures !Overlaid(s, id, name)
      {
        NameEvents(s, id, name);
      }
    } else {
      var oid, name :| Found(s, id, oid, name) != Live(s, id, oid, name);
      NameEvents(s, id, name);
      assert Overlaid(s, id, name);
    }
  }

  lemma NameEvents(s: State, id: nat, name: string)
    requires id in s.active
    ensures Overlaid(s, id, name) <==> exists oid :: Found(s, id, oid, name) != Live(s, id, oid, name)
  {
    if View(s, id, name).Some? {
      var c, oid := s.entries[name], View(s, id, name).value.oid;
      assert c != [] && c[VisibleIndex(c, id, s.active[id].startTS)] == View(s, id, name).value;
      assert Overlaid(s, id, name) <==> c[0].oid != oid;
      hide Overlaid, View;
      assert Found(s, id, oid, name) != Live(s, id, oid, name) <==> Overlaid(s, id, name);
      assert !Overlaid(s, id, name) ==> forall o :: Found(s, id, o, name) <==> Live(s, id, o, name);
    } else {
      assert forall o :: !Found(s, id, o, name) && !Live(s, id, o, name);
    }
  }

  /** In orderly runs every event is an arrival. */
  lemma OrderlyEvents(s: State, name: string, k: nat)
    requires OrderlyReachable(s) && name in s.entries && k + 1 < |s.entries[name]|
    ensures EventAt(s.entries[name], k).Some? ==> EventAt(s.entries[name], k) == Some(Arrival)
  {
    OrderlyKept(s);
    assert Shaped(s.entries[name]);
  }

  // ----- what lookups lose -----

  /** The step creates an entry of this name, or renames one with another OID to it. */
  predicate Arrives(s: State, a: Action, name: string, oid: nat)
    requires Enabled(s, a)
  {
    match a
    case DoCreate(id, n, content) => n == name && Create(s, id, n, content).Done?
    case DoRename(id, n, newName) =>
      newName == name && View(s, id, n).Some? && Rename(s, id, n, newName).Done? && View(s, id, n).value.oid != oid
    case _ => false
  }

  lemma EmplaceTop(s: State, id: nat, name: string, oid: nat, content: int, x: string)
    requires id in s.active && HasChain(s.entries, x)
    ensures var o := EmplaceNew(s, id, name, oid, content);
            && HasChain(o.state.entries, x)
            && o.state.entries[x][0].oid == if o.Done? && name == x then oid else s.entries[x][0].oid
  {
  }

  lemma RenameTop(s: State, id: nat, name: string, newName: string, x: string)
    requires Valid(s) && id in s.active && View(s, id, name).Some? && Writable(s, id, name) && HasChain(s.entries, x)
    ensures var o := Rename(s, id, name, newName);
            && HasChain(o.state.entries, x)
            && o.state.entries[x][0].oid == if o.Done? && newName == x then View(s, id, name).value.oid else s.entries[x][0].oid
  {
    TopLive(s, id, name);
    hide Valid, EmplaceNew;
    var v := View(s, id, name).value;
    EmplaceTop(Bury(s, id, name, v.oid), id, newName, v.oid, v.content, x);
  }

  lemma CommitTop(s: State, id: nat, x: string)
    requires Valid(s) && id in s.active && HasChain(s.entries, x)
    ensures HasChain(Commit(s, id).entries, x) && Commit(s, id).entries[x][0].oid == s.entries[x][0].oid
  {
    if s.active[id].write {
      CommitEntries(s, id);
      hide Valid;
      RelabelledAt(s.entries[x], id, s.lastTimestamp + 1);
    }
  }

  /** The OID on top of a chain, after a step that is not a rollback. */
  lemma TopOid(s: State, a: Action, x: string, oid: nat)
    requires Valid(s) && Enabled(s, a) && Orderly(s, a) && !a.DoRollback? && HasChain(s.entries, x)
    requires s.entries[x][0].oid == oid < s.nextOID
    ensures HasChain(Apply(s, a).entries, x)
    ensures Apply(s, a).entries[x][0].oid != oid <==> Arrives(s, a, x, oid)
  {
    hide Valid, EmplaceNew, Commit, Writable;
    match a
    case DoBegin(_) =>
    case DoCommit(id) => CommitTop(s, id, x);
    case DoCreate(id, name, content) =>
      EmplaceTop(s.(nextOID := s.nextOID + 1), id, name, s.nextOID, content, x);
    case DoDrop(id, name, _) =>
      if View(s, id, name).Some? {
        TopLive(s, id, name);
      }
    case DoAlter(id, name, _) =>
      if View(s, id, name).Some? {
        TopLive(s, id, name);
      }
    case DoRename(id, name, newName) =>
      if View(s, id, name).Some? {
        hide Rename;
        RenameTop(s, id, name, newName, x);
      }
  }

  /** What the lookup by OID loses: an entry that it found is no longer found after a step of another transaction, other
      than a rollback, exactly when the step lets another entry arrive in the chain. */
  lemma LookupLost(s: State, a: Action, id: nat, name: string)
    requires OrderlyReachable(s) && Enabled(s, a) && Orderly(s, a) && !a.DoRollback? && id in s.active && !By(a, id)
    requires View(s, id, name).Some? && Found(s, id, View(s, id, name).value.oid, name)
    ensures id in Apply(s, a).active
    ensures !Found(Apply(s, a), id, View(s, id, name).value.oid, name) <==> Arrives(s, a, name, View(s, id, name).value.oid)
  {
    OrderlyKept(s);
    assert Valid(s) && Guarded(s) && Bounded(s);
    hide OrderlyReachable, Kept, Valid, Guarded, Bounded, Orderly, Apply, Enabled, View, Arrives;
    StepUnseen(s, a, id, name);
    ViewBelowNext(s, id, name);
    TopOid(s, a, name, View(s, id, name).value.oid);
  }

  // ----- renames by OID -----

  /** Where above no entry that a transaction sees another one has arrived, an OID leads it to one name. */
  lemma OneFound(s: State, id: nat, oid: nat, name: string)
    requires OrderlyReachable(s) && id in s.active && (forall n :: !Displaced(s, id, n)) && Live(s, id, oid, name)
    ensures forall n :: Found(s, id, oid, n) <==> n == name
  {
    OidLookupExact(s, id);
    OrderlyKept(s);
    assert ViewApart(s, id);
    hide OrderlyReachable, Kept, Displaced, ViewApart;
    forall n
      ensures Found(s, id, oid, n) <==> n == name
    {
      assert Found(s, id, oid, n) <==> Live(s, id, oid, n);
      if n != name {
        LiveApart(s, id, n, name);
      }
    }
  }

  lemma LiveApart(s: State, id: nat, m: string, n: string)
    requires id in s.active && ViewApart(s, id) && m != n
    ensures View(s, id, m).Some? && View(s, id, n).Some? ==> View(s, id, m).value.oid != View(s, id, n).value.oid
  {
    assert Apart(View(s, id, m), View(s, id, n));
  }

  /** With one writer at a time, above no entry that the writer sees another one has arrived. */
  lemma WriterUndisplaced(s: State, id: nat, name: string)
    requires Valid(s) && !s.multiWrites && id in s.active && s.active[id].write
    ensures !Displaced(s, id, name)
  {
    if View(s, id, name).Some? {
      SingleWriterNoConflict(s, id, name);
      ConflictExact(s, id, s.entries[name][0]);
    }
  }

  lemma RenameTops(s: State, id: nat, name: string, newName: string)
    requires id in s.active && newName !in s.entries && name != newName && Rename(s, id, name, newName).Done?
    ensures View(s, id, name).Some?
    ensures var v, s' := View(s, id, name).value, Rename(s, id, name, newName).state;
            && s'.entries.Keys == s.entries.Keys + {newName}
            && id in s'.active && HasChain(s'.entries, name) && s'.entries[name][0].oid == v.oid
            && HasChain(s'.entries, newName) && s'.entries[newName][0].oid == v.oid
            && forall n | n in s.entries && n != name :: s'.entries[n] == s.entries[n]
  {
  }

  /** After a rename to a name without a chain, the OID leads the renamer to the new name only, and another transaction
      that sees the old name to that only, exactly when it led them to no other name before. */
  lemma RenameFound(s: State, id: nat, name: string, newName: string, other: nat)
    requires Bounded(s) && id in s.active && s.active[id].write && other in s.active && other != id && View(s, other, name).Some?
    requires newName !in s.entries && name != newName && Rename(s, id, name, newName).Done?
    ensures var oid, s' := View(s, id, name).value.oid, Rename(s, id, name, newName).state;
            && id in s'.active && other in s'.active
            && ((forall n :: Found(s', id, oid, n) <==> n == newName) <==> (forall n | Found(s, id, oid, n) :: n == name))
            && ((forall n :: Found(s', other, oid, n) <==> n == name) <==> (forall n | Found(s, other, oid, n) :: n == name))
  {
    RenameAtomic(s, id, name, newName, other);
    RenameTops(s, id, name, newName);
    var oid, s' := View(s, id, name).value.oid, Rename(s, id, name, newName).state;
    forall n | n != name && n != newName
      ensures Found(s', id, oid, n) <==> Found(s, id, oid, n)
      ensures Found(s', other, oid, n) <==> Found(s, other, oid, n)
    {
      RenameSeen(s, id, name, newName, n);
      RenameUnseen(s, id, name, newName, other, n);
      assert n in s.entries ==> s'.entries[n] == s.entries[n];
    }
    hide Bounded, Rename, View;
    assert !Found(s', id, oid, name) && Found(s', id, oid, newName);
    assert !Found(s', other, oid, newName) && Found(s', other, oid, name);
    assert !Found(s, id, oid, newName) && !Found(s, other, oid, newName);
  }

  /** In orderly runs, a rename moves an OID: the renamer is led to the new name only and every other transaction that
      sees the old name to that only, where above no entry that they see another one has arrived. */
  lemma RenameByOID(s: State, id: nat, name: string, newName: string, other: nat)
    requires OrderlyReachable(s) && id in s.active && s.active[id].write && other in s.active && other != id
    requires newName !in s.entries && name != newName && Rename(s, id, name, newName).Done? && View(s, other, name).Some?
    requires (forall n :: !Displaced(s, other, n)) && (!s.multiWrites || forall n :: !Displaced(s, id, n))
    ensures var oid, s' := View(s, id, name).value.oid, Rename(s, id, name, newName).state;
            && id in s'.active && (forall n :: Found(s', id, oid, n) <==> n == newName)
            && other in s'.active && (forall n :: Found(s', other, oid, n) <==> n == name)
  {
    OrderlyKept(s);
    assert Valid(s) && Bounded(s);
    RenameTops(s, id, name, newName);
    var oid := View(s, id, name).value.oid;
    hide OrderlyReachable, Kept, Rename, Valid, Bounded, Displaced;
    forall n
      ensures !Displaced(s, id, n)
    {
      if !s.multiWrites {
        WriterUndisplaced(s, id, n);
      }
    }
    DisplacedExact(s, id, name);
    DisplacedExact(s, other, name);
    OneFound(s, id, oid, name);
    OneFound(s, other, oid, name);
    RenameFound(s, id, name, newName, other);
  }

  // ----- where lookups go wrong -----

  /** When another transaction drops an entry and creates one of the same name, it stays visible by name but is no
      longer found by OID; the new OID finds it instead. */
  lemma RecreateHidesOid(s: State, writer: nat, id: nat, name: string, oid: nat, content: int)
    requires Bounded(s) && id in s.active && writer in s.active && s.active[writer].write && id != writer
    requires View(s, id, name).Some? && Drop(s, writer, name, oid).Done?
    ensures var s1 := Drop(s, writer, name, oid).state;
            var o := Create(s1, writer, name, content);
            && o.Done? && id in o.state.active && View(o.state, id, name) == View(s, id, name)
            && !Found(o.state, id, View(s, id, name).value.oid, name) && Found(o.state, id, s.nextOID, name)
  {
    hide Bounded, Drop, EmplaceNew, View;
    var a1, a2 := DoDrop(writer, name, oid), DoCreate(writer, name, content);
    var s1 := Drop(s, writer, name, oid).state;
    DropTop(s, writer, name, oid);
    WriterID(s, writer);
    ViewBelowNext(s, id, name);
    DropSeen(s, writer, name, oid, name);
    StepBounded(s, a1);
    WriteUnseen(s, a1, id, name);
    EmplaceOnTombstone(s1.(nextOID := s.nextOID + 1), writer, name, s.nextOID, content);
    WriteUnseen(s1, a2, id, name);
  }

  /** An own tombstone is no obstacle to a new entry. */
  lemma EmplaceOnTombstone(s: State, id: nat, name: string, oid: nat, content: int)
    requires id in s.active && HasChain(s.entries, name) && s.entries[name][0].timestamp == id && s.entries[name][0].deleted
    requires id >= START_TRANSACTION_ID
    ensures var o := EmplaceNew(s, id, name, oid, content);
            o.Done? && HasChain(o.state.entries, name) && o.state.entries[name][0].oid == oid && Arrived(o.state.entries[name], 0)
  {
  }

  lemma DropTop(s: State, id: nat, name: string, oid: nat)
    requires id in s.active && Drop(s, id, name, oid).Done?
    ensures var s' := Drop(s, id, name, oid).state;
            && HasChain(s'.entries, name) && s'.entries[name][0].timestamp == id && s'.entries[name][0].deleted
            && s'.nextOID == s.nextOID && s'.active.Keys == s.active.Keys && s'.active[id].write == s.active[id].write
            && forall n | n in s.entries && n != name :: n in s'.entries && s'.entries[n] == s.entries[n]
  {
  }

  /** When another transaction drops an entry and renames a second one to its name, the OID of the second one leads to
      both names: to the one it is seen under, and to that of the dropped one. */
  lemma RenameHidesOid(s: State, writer: nat, id: nat, name: string, into: string)
    requires Bounded(s) && id in s.active && writer in s.active && s.active[writer].write && id != writer && name != into
    requires View(s, id, name).Some? && View(s, id, into).Some? && View(s, writer, name).Some? && View(s, writer, into).Some?
    ensures var oid, s1 := View(s, writer, name).value.oid, Drop(s, writer, into, View(s, writer, into).value.oid).state;
            && writer in s1.active && var o := Rename(s1, writer, name, into);
            && o.Done? && id in o.state.active && View(o.state, id, into) == View(s, id, into)
            && Found(o.state, id, oid, name) && Found(o.state, id, oid, into)
  {
    hide Bounded, Drop, View;
    var oid := View(s, writer, into).value.oid;
    var a1, s1 := DoDrop(writer, into, oid), Drop(s, writer, into, oid).state;
    DropOutcome(s, writer, into, oid);
    DropTop(s, writer, into, oid);
    DropSeen(s, writer, into, oid, name);
    WriterID(s, writer);
    StepBounded(s, a1);
    WriteUnseen(s, a1, id, name);
    WriteUnseen(s, a1, id, into);
    RenameOntoTombstone(s1, writer, name, into);
    hide Rename;
    RenameUnseen(s1, writer, name, into, id, name);
    RenameUnseen(s1, writer, name, into, id, into);
  }

  lemma RenameOntoTombstone(s: State, id: nat, name: string, newName: string)
    requires id in s.active && id >= START_TRANSACTION_ID && View(s, id, name).Some? && name != newName
    requires HasChain(s.entries, newName) && s.entries[newName][0].timestamp == id && s.entries[newName][0].deleted
    ensures var o, oid := Rename(s, id, name, newName), View(s, id, name).value.oid;
            && o.Done? && HasChain(o.state.entries, name) && HasChain(o.state.entries, newName)
            && o.state.entries[name][0].oid == oid && o.state.entries[newName][0].oid == oid && Arrived(o.state.entries[newName], 0)
  {
    var v := View(s, id, name).value;
    var buried := Bury(s, id, name, v.oid);
    EmplaceOnTombstone(buried, id, newName, v.oid, v.content);
    EmplaceTop(buried, id, newName, v.oid, v.content, name);
  }

  /** An arrival alone does not displace: an entry that is renamed and renamed back has arrived above the version that
      others see, and they find it by its OID as before. */
  lemma RenamedBack(s: State, writer: nat, id: nat, name: string, newName: string)
    requires Bounded(s) && id in s.active && writer in s.active && s.active[writer].write && id != writer
    requires newName !in s.entries && name != newName && Rename(s, writer, name, newName).Done?
    requires View(s, id, name).Some? && View(s, id, name).value.oid == View(s, writer, name).value.oid
    ensures var oid, s1 := View(s, id, name).value.oid, Rename(s, writer, name, newName).state;
            && writer in s1.active && var o := Rename(s1, writer, newName, name);
            && o.Done? && HasChain(o.state.entries, name) && Arrived(o.state.entries[name], 0)
            && id in o.state.active && Found(o.state, id, oid, name)
  {
    var s1 := Rename(s, writer, name, newName).state;
    WriterID(s, writer);
    RenameBounded(s, writer, name, newName);
    RenameSeen(s, writer, name, newName, newName);
    RenameUnseen(s, writer, name, newName, id, name);
    RenameTombstone(s, writer, name, newName);
    hide Bounded, Rename, View;
    RenameOntoTombstone(s1, writer, newName, name);
    RenameUnseen(s1, writer, newName, name, id, name);
  }

  lemma RenameTombstone(s: State, id: nat, name: string, newName: string)
    requires id in s.active && newName !in s.entries && name != newName && Rename(s, id, name, newName).Done?
    ensures var s' := Rename(s, id, name, newName).state;
            && id in s'.active && s'.active[id].write == s.active[id].write
            && HasChain(s'.entries, name) && s'.entries[name][0].timestamp == id && s'.entries[name][0].deleted
  {
  }
}
