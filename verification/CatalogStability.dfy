/**
 Exactly when a transaction finds the same version as before, and exactly when a commit
 publishes what was written, in every reachable state and with any number of writers.
 */
module CatalogStability {
  import opened Catalog
  import opened CatalogInvariant
  import opened CatalogSteps
  import opened CatalogTransactions
  import opened CatalogReachable
  import opened CatalogGuards
  import opened CatalogSnapshots
  import opened CatalogProperties

  // ----- commit, one chain -----

  /** A record names the version below the `i`-th one. */
  predicate Struck(c: Chain, olds: seq<nat>, i: nat) {
    i + 1 < |c| && c[i + 1].id in olds
  }

  lemma CommitAboveAt(c: Chain, entry: nat, ts: nat, i: nat)
    requires Distinct(c) && i < |c|
    ensures CommitAbove(c, entry, ts)[i] == if i + 1 < |c| && c[i + 1].id == entry then c[i].(timestamp := ts) else c[i]
  {
    if i + 1 < |c| && c[i + 1].id == entry {
      PositionIs(c, i + 1);
    }
    hide Position, Distinct;
  }

  /** A commit gives its time to the versions above those that its records name, and to no others. */
  lemma {:induction false} CommitChainExact(c: Chain, olds: seq<nat>, ts: nat)
    requires Distinct(c)
    ensures forall i | 0 <= i < |c| :: CommitChain(c, olds, ts)[i] == if Struck(c, olds, i) then c[i].(timestamp := ts) else c[i]
    decreases |olds|
  {
    if olds != [] {
      var front, last := olds[..|olds| - 1], olds[|olds| - 1];
      CommitChainExact(c, front, ts);
      var d := CommitChain(c, front, ts);
      assert olds == front + [last];
      assert Distinct(d);
      hide CommitAbove, Distinct;
      forall i | 0 <= i < |c|
        ensures CommitAbove(d, last, ts)[i] == if Struck(c, olds, i) then c[i].(timestamp := ts) else c[i]
      {
        CommitAboveAt(d, last, ts, i);
      }
    }
  }

  lemma {:induction false} VisibleFirst(c: Chain, i: nat, id: nat, startTS: nat)
    requires i < |c| && Sees(id, startTS, c[i]) && forall j | 0 <= j < i :: !Sees(id, startTS, c[j])
    ensures Visible(c, id, startTS) == Some(c[i])
    decreases i
  {
    if i > 0 {
      VisibleFirst(c[1..], i - 1, id, startTS);
    }
  }

  lemma {:induction false} IndexFacts(c: Chain, id: nat, startTS: nat)
    ensures var i := VisibleIndex(c, id, startTS);
            && (i < |c| ==> Sees(id, startTS, c[i])) && forall j | 0 <= j < i :: !Sees(id, startTS, c[j])
    decreases |c|
  {
    if c != [] {
      IndexFacts(c[1..], id, startTS);
    }
  }

  /** No version with this identity is seen. */
  ghost predicate Lost(c: Chain, entry: nat, id: nat, startTS: nat) {
    forall k | 0 <= k < |c| && c[k].id == entry :: !Sees(id, startTS, c[k])
  }

  lemma LostNotFound(c: Chain, v: Version, id: nat, startTS: nat)
    requires Lost(c, v.id, id, startTS)
    ensures Visible(c, id, startTS) != Some(v)
  {
    if Visible(c, id, startTS) == Some(v) {
      VisibleIn(c, id, startTS);
    }
  }

  /** A commit leaves the version that another transaction finds if and only if none of its records names the one below. */
  lemma CommitVisibleExact(c: Chain, olds: seq<nat>, ts: nat, id: nat, startTS: nat)
    requires Distinct(c) && Visible(c, id, startTS).Some? && ts > startTS && ts != id
    ensures var i, d := VisibleIndex(c, id, startTS), CommitChain(c, olds, ts);
            if Struck(c, olds, i) then Lost(d, c[i].id, id, startTS) else Visible(d, id, startTS) == Visible(c, id, startTS)
  {
    var i, d := VisibleIndex(c, id, startTS), CommitChain(c, olds, ts);
    IndexFacts(c, id, startTS);
    CommitChainExact(c, olds, ts);
    hide CommitChain, Visible, VisibleIndex;
    if !Struck(c, olds, i) {
      VisibleFirst(d, i, id, startTS);
      VisibleFirst(c, i, id, startTS);
    }
  }

  // ----- rollback, one chain -----

  /** The version with this identity is above the one that a record names, when the rollback gets to the record. */
  predicate TakenOut(c: Chain, olds: seq<nat>, entry: nat) {
    olds != [] &&
    var last := olds[|olds| - 1];
    var p := Position(c, last);
    (0 < p < |c| && c[p - 1].id == entry) || TakenOut(RemoveAbove(c, last), olds[..|olds| - 1], entry)
  }

  /** Taking out another version leaves the one that is found. */
  lemma RemoveVisible(c: Chain, j: nat, id: nat, startTS: nat)
    requires j < |c| && Visible(c, id, startTS).Some? && VisibleIndex(c, id, startTS) != j
    ensures Visible(c[..j] + c[j + 1..], id, startTS) == Visible(c, id, startTS)
  {
    var i, d := VisibleIndex(c, id, startTS), c[..j] + c[j + 1..];
    IndexFacts(c, id, startTS);
    assert i < |c| && Visible(c, id, startTS) == Some(c[i]);
    hide Visible, VisibleIndex;
    var k := if i < j then i else i - 1;
    assert d[k] == c[i];
    forall l | 0 <= l < k
      ensures !Sees(id, startTS, d[l])
    {
      assert d[l] == if l < j then c[l] else c[l + 1];
    }
    VisibleFirst(d, k, id, startTS);
  }

  lemma RemovedGone(c: Chain, j: nat)
    requires Distinct(c) && j < |c|
    ensures forall v | v in c[..j] + c[j + 1..] :: v.id != c[j].id
  {
    var d := c[..j] + c[j + 1..];
    forall v | v in d
      ensures v.id != c[j].id
    {
      var k :| 0 <= k < |d| && d[k] == v;
      assert d[k] == c[if k < j then k else k + 1];
    }
  }

  /** A rollback leaves the version that another transaction finds if and only if it does not take it out. */
  lemma {:induction false} RollbackVisibleExact(c: Chain, olds: seq<nat>, id: nat, startTS: nat)
    requires Distinct(c) && Visible(c, id, startTS).Some?
    ensures var v, d := Visible(c, id, startTS).value, RollbackChain(c, olds);
            if TakenOut(c, olds, v.id) then Lost(d, v.id, id, startTS) else Visible(d, id, startTS) == Some(v)
    decreases |olds|
  {
    if olds != [] {
      var v, last, front := Visible(c, id, startTS).value, olds[|olds| - 1], olds[..|olds| - 1];
      var p, i, e := Position(c, last), VisibleIndex(c, id, startTS), RemoveAbove(c, last);
      assert i < |c| && c[i] == v;
      hide Visible, VisibleIndex, Position;
      if 0 < p < |c| {
        RemovedIs(c, last);
        RemovedDistinct(c, p - 1);
        if p - 1 == i {
          RemovedGone(c, i);
          RollbackGone(e, front, v.id, id, startTS);
        } else {
          RemoveVisible(c, p - 1, id, startTS);
          DistinctAt(c, p - 1, i);
          hide RemoveAbove;
          RollbackVisibleExact(e, front, id, startTS);
        }
      } else {
        RollbackVisibleExact(e, front, id, startTS);
      }
    }
  }

  lemma RollbackGone(c: Chain, olds: seq<nat>, entry: nat, id: nat, startTS: nat)
    requires c != [] && forall v | v in c :: v.id != entry
    ensures Lost(RollbackChain(c, olds), entry, id, startTS)
  {
    RollbackChainThinned(c, olds);
  }

  /** Where the newest record names a version, and what its rollback leaves. */
  lemma LastOrdered(c: Chain, olds: seq<nat>)
    requires Ordered(c, olds) && olds != []
    ensures var last, front := olds[|olds| - 1], olds[..|olds| - 1];
            var j := Position(c, last) - 1;
            && 0 <= j && j + 1 < |c| && c[j + 1].id == last && c[j].id != last && RemoveAbove(c, last) == c[..j] + c[j + 1..]
            && olds == front + [last] && forall m | 0 <= m < |front| :: Position(c, front[m]) > j + 1
  {
    hide Position;
    var last := olds[|olds| - 1];
    assert 0 < Position(c, last) < |c|;
    OrderedLater(c, olds);
    hide Ordered;
    RemovedIs(c, last);
  }

  lemma OrderedLater(c: Chain, olds: seq<nat>)
    requires Ordered(c, olds) && olds != []
    ensures var front := olds[..|olds| - 1]; forall m | 0 <= m < |front| :: Position(c, front[m]) > Position(c, olds[|olds| - 1])
  {
    hide Position;
    var front := olds[..|olds| - 1];
    forall m | 0 <= m < |front|
      ensures Position(c, front[m]) > Position(c, olds[|olds| - 1])
    {
      assert front[m] == olds[m];
    }
  }

  lemma RemovedIs(c: Chain, entry: nat)
    requires 0 < Position(c, entry) < |c|
    ensures var j := Position(c, entry) - 1;
            RemoveAbove(c, entry) == c[..j] + c[j + 1..] && c[j + 1].id == entry && c[j].id != entry
  {
    hide Position;
  }

  lemma TakenOutStep(c: Chain, olds: seq<nat>, entry: nat)
    requires olds != [] && 0 < Position(c, olds[|olds| - 1]) < |c|
    ensures TakenOut(c, olds, entry) <==>
            c[Position(c, olds[|olds| - 1]) - 1].id == entry || TakenOut(RemoveAbove(c, olds[|olds| - 1]), olds[..|olds| - 1], entry)
  {
    hide Position, RemoveAbove;
  }

  lemma DistinctAt(c: Chain, i: nat, j: nat)
    requires Distinct(c) && i < |c| && j < |c| && i != j
    ensures c[i].id != c[j].id
  {
  }

  /** With records in order, that is whether a record names the version below. */
  lemma {:induction false} OrderedTakenOut(c: Chain, olds: seq<nat>, i: nat)
    requires Distinct(c) && Ordered(c, olds) && i < |c|
    ensures TakenOut(c, olds, c[i].id) <==> Struck(c, olds, i)
    decreases |olds|
  {
    if olds != [] {
      hide Position, Ordered, RemoveAbove, Distinct, TakenOut;
      var last, front := olds[|olds| - 1], olds[..|olds| - 1];
      LastOrdered(c, olds);
      RemoveOrdered(c, olds);
      TakenOutStep(c, olds, c[i].id);
      var j, d := Position(c, last) - 1, RemoveAbove(c, last);
      if i != j {
        var k := if i < j then i else i - 1;
        assert d[k] == c[i];
        DistinctAt(c, i, j);
        StruckBelow(c, olds, i);
        OrderedTakenOut(d, front, k);
      }
    }
  }

  lemma StruckBelow(c: Chain, olds: seq<nat>, i: nat)
    requires Distinct(c) && Ordered(c, olds) && olds != [] && i < |c| && i != Position(c, olds[|olds| - 1]) - 1
    ensures var j, front := Position(c, olds[|olds| - 1]) - 1, olds[..|olds| - 1];
            && 0 <= j && j + 1 < |c|
            && (Struck(c[..j] + c[j + 1..], front, if i < j then i else i - 1) <==> Struck(c, olds, i))
  {
    hide Position, Ordered, RemoveAbove, Distinct, Struck;
    LastOrdered(c, olds);
    var last, front := olds[|olds| - 1], olds[..|olds| - 1];
    var j := Position(c, last) - 1;
    NotNamed(c, front, j);
    NotNamed(c, front, j + 1);
    if i + 1 < |c| {
      DistinctAt(c, i + 1, j + 1);
    }
    StruckShift(c, front, last, i, j);
  }

  lemma StruckShift(c: Chain, front: seq<nat>, last: nat, i: nat, j: nat)
    requires j + 1 < |c| && i < |c| && i != j && c[j].id !in front && c[j + 1].id !in front && c[j + 1].id == last && c[j].id != last
    requires i + 1 < |c| ==> c[i + 1].id != last
    ensures Struck(c[..j] + c[j + 1..], front, if i < j then i else i - 1) <==> Struck(c, front + [last], i)
  {
    var d, k := c[..j] + c[j + 1..], if i < j then i else i - 1;
    assert |d| == |c| - 1;
    if k + 1 < |d| {
      assert d[k + 1] == if k + 1 < j then c[k + 1] else c[k + 2];
    }
  }

  lemma NotNamed(c: Chain, olds: seq<nat>, k: nat)
    requires Distinct(c) && k < |c| && forall m | 0 <= m < |olds| :: Position(c, olds[m]) != k
    ensures c[k].id !in olds
  {
    PositionIs(c, k);
  }

  // ----- steps -----

  /** The version found under a name; there is one wherever there is a chain. */
  function FoundVersion(s: State, id: nat, name: string): Option<Version>
    requires id in s.active && name in s.entries
  {
    Visible(s.entries[name], id, s.active[id].startTS)
  }

  /** A commit or rollback takes from a transaction the version that it finds: a record of the other transaction names the
      version below. */
  predicate Takes(s: State, a: Action, id: nat, name: string)
    requires Enabled(s, a)
  {
    && id in s.active && name in s.entries
    && var c, startTS := s.entries[name], s.active[id].startTS;
    match a
    case DoCommit(w) => s.active[w].write && Struck(c, Olds(s.active[w].records, name), VisibleIndex(c, id, startTS))
    case DoRollback(w) => Visible(c, id, startTS).Some? && TakenOut(c, Olds(s.active[w].records, name), Visible(c, id, startTS).value.id)
    case _ => false
  }

  /** New versions of one transaction on top of the chain. */
  ghost predicate Grown(c: Chain, d: Chain, writer: nat, nextVersion: nat) {
    && |c| <= |d| && d[|d| - |c|..] == c
    && forall i | 0 <= i < |d| - |c| :: d[i].timestamp == writer && d[i].id >= nextVersion
  }

  lemma PushGrows(c: Chain, d: Chain, v: Version, writer: nat, nextVersion: nat)
    requires Grown(c, d, writer, nextVersion) && v.timestamp == writer && v.id >= nextVersion
    ensures Grown(c, [v] + d, writer, nextVersion)
  {
    var e := [v] + d;
    assert e[|e| - |c|..] == d[|d| - |c|..];
    assert forall i | 1 <= i < |e| :: e[i] == d[i - 1];
  }

  lemma EmplaceGrows(s: State, id: nat, name: string, oid: nat, content: int, x: string, c: Chain, nextVersion: nat)
    requires id in s.active && HasChain(s.entries, x) && Grown(c, s.entries[x], id, nextVersion) && s.nextVersion >= nextVersion
    ensures var o := EmplaceNew(s, id, name, oid, content); x in o.state.entries && Grown(c, o.state.entries[x], id, nextVersion)
  {
    var based := WithChain(s, name, oid);
    if EmplaceNew(s, id, name, oid, content).Done? && name == x {
      PushGrows(c, s.entries[x], Version(based.nextVersion, oid, id, false, content), id, nextVersion);
    }
  }

  lemma WriteGrows(s: State, a: Action, x: string)
    requires Enabled(s, a) && !a.DoBegin? && !a.DoCommit? && !a.DoRollback? && HasChain(s.entries, x)
    ensures x in Apply(s, a).entries && Grown(s.entries[x], Apply(s, a).entries[x], a.id, s.nextVersion)
  {
    var c := s.entries[x];
    assert Grown(c, c, a.id, s.nextVersion);
    hide EmplaceNew, Grown;
    match a
    case DoCreate(id, name, content) =>
      EmplaceGrows(s.(nextOID := s.nextOID + 1), id, name, s.nextOID, content, x, c, s.nextVersion);
    case DoDrop(id, name, oid) =>
      PushGrows(c, c, Version(s.nextVersion, oid, id, true, 0), id, s.nextVersion);
    case DoAlter(id, name, content) =>
      if View(s, id, name).Some? {
        PushGrows(c, c, View(s, id, name).value.(id := s.nextVersion, timestamp := id, content := content), id, s.nextVersion);
      }
    case DoRename(id, name, newName) =>
      if View(s, id, name).Some? {
        var v := View(s, id, name).value;
        PushGrows(c, c, Version(s.nextVersion, v.oid, id, true, 0), id, s.nextVersion);
        EmplaceGrows(Bury(s, id, name, v.oid), id, newName, v.oid, v.content, x, c, s.nextVersion);
      }
  }

  lemma GrownVisible(c: Chain, d: Chain, writer: nat, nextVersion: nat, id: nat, startTS: nat)
    requires Grown(c, d, writer, nextVersion) && writer != id && writer > startTS
    ensures Visible(d, id, startTS) == Visible(c, id, startTS)
  {
    VisibleBelow(d, |d| - |c|, id, startTS);
  }

  /** What a step leaves of a transaction that does not take it. */
  lemma StepKeeps(s: State, a: Action, id: nat, name: string)
    requires Bounded(s) && Enabled(s, a) && id in s.active && !By(a, id) && name in s.entries
    ensures var s' := Apply(s, a); id in s'.active && s'.active[id] == s.active[id] && name in s'.entries
  {
    TransactionBounds(s, id);
    if a.DoCommit? {
      CommitByChain(s.entries, s.active[a.id].records, s.lastTimestamp + 1, name);
    } else if a.DoRollback? {
      RollbackByChain(s.entries, s.active[a.id].records, name);
    } else if !a.DoBegin? {
      assert ChainBounded(s, s.entries[name]);
      WriteGrows(s, a, name);
      WriteUnseen(s, a, id, name);
    }
  }

  lemma FoundSome(s: State, id: nat, name: string)
    requires Bounded(s) && id in s.active && name in s.entries
    ensures FoundVersion(s, id, name).Some? && FoundVersion(s, id, name).value.id < s.nextVersion
    ensures Distinct(s.entries[name]) && s.entries[name] != []
  {
    var c := s.entries[name];
    assert ChainBounded(s, c);
    VisibleExists(c, id, s.active[id].startTS);
    VisibleIn(c, id, s.active[id].startTS);
    assert VersionBounded(s, FoundVersion(s, id, name).value);
  }

  /** In every reachable state, a step of another transaction leaves the version that a transaction finds if and only if it
      does not take it; one that is taken is lost. */
  lemma StepStableExact(s: State, a: Action, id: nat, name: string)
    requires Bounded(s) && Enabled(s, a) && id in s.active && !By(a, id) && name in s.entries
    ensures var s' := Apply(s, a);
            && id in s'.active && s'.active[id] == s.active[id] && name in s'.entries && FoundVersion(s, id, name).Some?
            && if Takes(s, a, id, name) then Lost(s'.entries[name], FoundVersion(s, id, name).value.id, id, s.active[id].startTS)
               else FoundVersion(s', id, name) == FoundVersion(s, id, name)
  {
    StepKeeps(s, a, id, name);
    FoundSome(s, id, name);
    TransactionBounds(s, id);
    var c, startTS := s.entries[name], s.active[id].startTS;
    if a.DoCommit? {
      CommitByChain(s.entries, s.active[a.id].records, s.lastTimestamp + 1, name);
      CommitVisibleExact(c, Olds(s.active[a.id].records, name), s.lastTimestamp + 1, id, startTS);
    } else if a.DoRollback? {
      RollbackByChain(s.entries, s.active[a.id].records, name);
      RollbackVisibleExact(c, Olds(s.active[a.id].records, name), id, startTS);
    } else if !a.DoBegin? {
      TransactionBounds(s, a.id);
      WriteGrows(s, a, name);
      GrownVisible(c, Apply(s, a).entries[name], a.id, s.nextVersion, id, startTS);
    }
  }

  // ----- runs -----

  /** A version that is lost does not come back. */
  lemma StepLost(s: State, a: Action, id: nat, name: string, entry: nat)
    requires Bounded(s) && Enabled(s, a) && id in s.active && !By(a, id) && name in s.entries && entry < s.nextVersion
    requires Lost(s.entries[name], entry, id, s.active[id].startTS)
    ensures var s' := Apply(s, a);
            && id in s'.active && s'.active[id] == s.active[id] && name in s'.entries && entry < s'.nextVersion
            && Lost(s'.entries[name], entry, id, s.active[id].startTS)
  {
    StepKeeps(s, a, id, name);
    NextVersionGrows(s, a);
    FoundSome(s, id, name);
    TransactionBounds(s, id);
    hide Bounded, Visible, Lost, Distinct;
    var c := s.entries[name];
    if a.DoCommit? {
      CommitByChain(s.entries, s.active[a.id].records, s.lastTimestamp + 1, name);
      CommitLost(c, Olds(s.active[a.id].records, name), s.lastTimestamp + 1, entry, id, s.active[id].startTS);
    } else if a.DoRollback? {
      RollbackByChain(s.entries, s.active[a.id].records, name);
      RollbackLost(c, Olds(s.active[a.id].records, name), entry, id, s.active[id].startTS);
    } else if !a.DoBegin? {
      WriteGrows(s, a, name);
      GrownLost(c, Apply(s, a).entries[name], a.id, s.nextVersion, entry, id, s.active[id].startTS);
    }
  }

  lemma CommitLost(c: Chain, olds: seq<nat>, ts: nat, entry: nat, id: nat, startTS: nat)
    requires Lost(c, entry, id, startTS) && ts > startTS && ts != id
    ensures Lost(CommitChain(c, olds, ts), entry, id, startTS)
  {
    CommitChainAt(c, olds, ts);
    hide CommitChain;
  }

  lemma RollbackLost(c: Chain, olds: seq<nat>, entry: nat, id: nat, startTS: nat)
    requires Lost(c, entry, id, startTS) && c != []
    ensures Lost(RollbackChain(c, olds), entry, id, startTS)
  {
    var d := RollbackChain(c, olds);
    RollbackChainThinned(c, olds);
    hide RollbackChain, Distinct;
    forall k | 0 <= k < |d| && d[k].id == entry
      ensures !Sees(id, startTS, d[k])
    {
      var i :| 0 <= i < |c| && c[i] == d[k];
    }
  }

  lemma GrownLost(c: Chain, d: Chain, writer: nat, nextVersion: nat, entry: nat, id: nat, startTS: nat)
    requires Grown(c, d, writer, nextVersion) && entry < nextVersion && Lost(c, entry, id, startTS)
    ensures Lost(d, entry, id, startTS)
  {
    var k := |d| - |c|;
    assert forall i | k <= i < |d| :: d[i] == d[k..][i - k];
  }

  lemma NextVersionGrows(s: State, a: Action)
    requires Enabled(s, a)
    ensures s.nextVersion <= Apply(s, a).nextVersion
  {
  }

  lemma {:induction false} RunLost(s: State, actions: seq<Action>, id: nat, name: string, entry: nat)
    requires Bounded(s) && RunEnabled(s, actions) && id in s.active && name in s.entries && entry < s.nextVersion
    requires forall i | 0 <= i < |actions| :: !By(actions[i], id)
    requires Lost(s.entries[name], entry, id, s.active[id].startTS)
    ensures var s' := Run(s, actions);
            && id in s'.active && s'.active[id] == s.active[id] && name in s'.entries
            && Lost(s'.entries[name], entry, id, s.active[id].startTS)
    decreases |actions|
  {
    hide Bounded, Lost;
    if actions != [] {
      StepLost(s, actions[0], id, name, entry);
      StepBounded(s, actions[0]);
      RunLost(Apply(s, actions[0]), actions[1..], id, name, entry);
    }
  }

  /** Some commit or rollback of the run takes the version that the transaction finds. */
  predicate RunTakes(s: State, actions: seq<Action>, id: nat, name: string)
    requires RunEnabled(s, actions)
    decreases |actions|
  {
    actions != [] && (Takes(s, actions[0], id, name) || RunTakes(Apply(s, actions[0]), actions[1..], id, name))
  }

  lemma {:induction false} RunStableExact(s: State, actions: seq<Action>, id: nat, name: string)
    requires Bounded(s) && RunEnabled(s, actions) && id in s.active && name in s.entries
    requires forall i | 0 <= i < |actions| :: !By(actions[i], id)
    ensures var s' := Run(s, actions);
            && id in s'.active && s'.active[id] == s.active[id] && name in s'.entries
            && (FoundVersion(s', id, name) == FoundVersion(s, id, name) <==> !RunTakes(s, actions, id, name))
    decreases |actions|
  {
    hide Bounded, Takes, Lost;
    if actions != [] {
      var a, rest := actions[0], actions[1..];
      StepStableExact(s, a, id, name);
      StepBounded(s, a);
      NextVersionGrows(s, a);
      FoundSome(s, id, name);
      if Takes(s, a, id, name) {
        var v := FoundVersion(s, id, name).value;
        RunLost(Apply(s, a), rest, id, name, v.id);
        LostNotFound(Run(s, actions).entries[name], v, id, s.active[id].startTS);
      } else {
        RunStableExact(Apply(s, a), rest, id, name);
      }
    }
  }

  /** With any number of writers, from every reachable state and over every run of others, a transaction finds the same
      version under a name if and only if no commit or rollback of the run takes it. */
  lemma SnapshotExact(s: State, actions: seq<Action>, id: nat, name: string)
    requires Reachable(s) && RunEnabled(s, actions) && id in s.active && name in s.entries
    requires forall i | 0 <= i < |actions| :: !By(actions[i], id)
    ensures var s' := Run(s, actions);
            && id in s'.active && name in s'.entries
            && (FoundVersion(s', id, name) == FoundVersion(s, id, name) <==> !RunTakes(s, actions, id, name))
            && (View(s, id, name).Some? ==> (View(s', id, name) == View(s, id, name) <==> !RunTakes(s, actions, id, name)))
  {
    ReachableBounded(s);
    RunStableExact(s, actions, id, name);
  }

  lemma StruckNamed(c: Chain, olds: seq<nat>, i: nat)
    requires Distinct(c) && Struck(c, olds, i)
    ensures exists m | 0 <= m < |olds| :: Position(c, olds[m]) == i + 1
  {
    var m :| 0 <= m < |olds| && olds[m] == c[i + 1].id;
    PositionIs(c, i + 1);
    assert Position(c, olds[m]) == i + 1;
  }

  /** Where records are guarded, nothing is taken. */
  lemma GuardedTakesNone(s: State, a: Action, id: nat, name: string)
    requires Guarded(s) && Enabled(s, a) && id in s.active && !By(a, id)
    ensures !Takes(s, a, id, name)
  {
    if (a.DoCommit? || a.DoRollback?) && name in s.entries {
      var c, olds, startTS := s.entries[name], Olds(s.active[a.id].records, name), s.active[id].startTS;
      var i := VisibleIndex(c, id, startTS);
      GuardedFacts(s, a.id, id, name);
      FoundSome(s, id, name);
      hide Guarded, Visible;
      GuardUnseen(c, a.id, s.active.Keys, olds, id, startTS);
      IndexFacts(c, id, startTS);
      if Struck(c, olds, i) {
        StruckNamed(c, olds, i);
      }
      OrderedTakenOut(c, olds, i);
    }
  }

  // ----- publication -----

  /** In every reachable state, a commit publishes the newest version of a chain that its transaction wrote if and only if
      a record of the transaction names the version below; what is published is what the writer saw. */
  lemma CommitPublishes(s: State, id: nat, name: string, later: nat, startTS: nat)
    requires Bounded(s) && id in s.active && s.active[id].write && name in s.entries && s.entries[name][0].timestamp == id
    requires later > s.lastTransactionID && s.lastTimestamp < startTS < START_TRANSACTION_ID
    ensures var c, s' := s.entries[name], Commit(s, id);
            && |c| > 1 && name in s'.entries && var found := Visible(s'.entries[name], later, startTS);
            && (found.Some? && found.value.id == c[0].id <==> Record(name, c[1].id) in s.active[id].records)
            && (Record(name, c[1].id) in s.active[id].records ==> SameEntry(Lookup(s'.entries, later, startTS, name), View(s, id, name)))
  {
    var c, rs, ts := s.entries[name], s.active[id].records, s.lastTimestamp + 1;
    var d := CommitChain(c, Olds(rs, name), ts);
    assert ChainBounded(s, c);
    TransactionBounds(s, id);
    CommitByChain(s.entries, rs, ts, name);
    CommitChainExact(c, Olds(rs, name), ts);
    OldsMember(rs, name, c[1].id);
    hide Bounded, CommitChain;
    assert d[0] == if Record(name, c[1].id) in rs then c[0].(timestamp := ts) else c[0];
    if Record(name, c[1].id) !in rs {
      TopUnseen(d, later, startTS);
    }
  }

  lemma {:induction false} OldsMember(rs: seq<Record>, name: string, entry: nat)
    ensures entry in Olds(rs, name) <==> Record(name, entry) in rs
    decreases |rs|
  {
    if rs != [] {
      OldsMember(rs[..|rs| - 1], name, entry);
      assert rs == rs[..|rs| - 1] + [rs[|rs| - 1]];
    }
  }

  lemma TopUnseen(d: Chain, id: nat, startTS: nat)
    requires d != [] && !Sees(id, startTS, d[0]) && Distinct(d)
    ensures var found := Visible(d, id, startTS); found.Some? ==> found.value.id != d[0].id
  {
    if Visible(d[1..], id, startTS).Some? {
      VisibleIn(d[1..], id, startTS);
      var k :| 0 <= k < |d[1..]| && d[1..][k] == Visible(d[1..], id, startTS).value;
      assert d[k + 1] == d[1..][k];
    }
  }

  /** What a failed rename does to a later alter. On the tombstone that an ended transaction left, a writer that sees the
      version below alters it: the commit goes to the tombstone, and every later transaction finds no entry. */
  lemma AlterLosesEntry(s: State, id: nat, name: string, content: int, later: nat, startTS: nat)
    requires Bounded(s) && id in s.active && s.active[id].write && Olds(s.active[id].records, name) == []
    requires name in s.entries && |s.entries[name]| > 1 && View(s, id, name) == Some(s.entries[name][1])
    requires s.entries[name][0].deleted && s.entries[name][0].timestamp >= START_TRANSACTION_ID
    requires later > s.lastTransactionID && s.lastTimestamp < startTS < START_TRANSACTION_ID
    ensures var s1 := Alter(s, id, name, content).state;
            && id in s1.active && View(s1, id, name).Some? && View(s1, id, name).value.content == content
            && Lookup(Commit(s1, id).entries, later, startTS, name) == None
  {
    var c, ts := s.entries[name], s.lastTimestamp + 1;
    var v := c[1].(id := s.nextVersion, timestamp := id, content := content);
    var c1 := [v] + c;
    assert ChainBounded(s, c);
    assert forall k | 0 <= k < |c| :: VersionBounded(s, c[k]);
    TransactionBounds(s, id);
    AlterCommitChain(s, id, name, content);
    hide Bounded, Commit;
    TombstoneStruck(c, v, ts);
    VisibleFirst(CommitChain(c1, [c[1].id], ts), 1, later, startTS);
  }

  lemma TombstoneStruck(c: Chain, v: Version, ts: nat)
    requires |c| > 1 && Distinct(c) && forall k | 0 <= k < |c| :: c[k].id != v.id
    ensures var d := CommitChain([v] + c, [c[1].id], ts); d[0] == v && d[1] == c[0].(timestamp := ts)
  {
    var c1 := [v] + c;
    assert forall k | 1 <= k < |c1| :: c1[k] == c[k - 1];
    assert Distinct(c1);
    CommitChainExact(c1, [c[1].id], ts);
    hide CommitChain;
    assert !Struck(c1, [c[1].id], 0) && Struck(c1, [c[1].id], 1);
  }

  lemma AlterCommitChain(s: State, id: nat, name: string, content: int)
    requires id in s.active && s.active[id].write && Olds(s.active[id].records, name) == []
    requires name in s.entries && |s.entries[name]| > 1 && View(s, id, name) == Some(s.entries[name][1])
    ensures var s1, c := Alter(s, id, name, content).state, s.entries[name];
            && id in s1.active && View(s1, id, name).Some? && View(s1, id, name).value.content == content
            && name in Commit(s1, id).entries
            && Commit(s1, id).entries[name] ==
               CommitChain([c[1].(id := s.nextVersion, timestamp := id, content := content)] + c, [c[1].id], s.lastTimestamp + 1)
  {
    var c, rs, r := s.entries[name], s.active[id].records, Record(name, s.entries[name][1].id);
    AlterSeen(s, id, name, content, name);
    OldsAppend(rs, r, name);
    hide CommitChain, Olds, CommitRecords, Visible;
    var s1 := Alter(s, id, name, content).state;
    CommitByChain(s1.entries, rs + [r], s.lastTimestamp + 1, name);
    assert [] + [r.entry] == [r.entry];
  }
}
