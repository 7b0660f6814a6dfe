/**
 Passing masks does not change what a plan returns.
 */
module SemiMaskProof {
  import opened Plans
  import opened PlanFacts
  import opened FilterPushDownProof
  import opened SemiMask

  /** Every masked node of the row is in its mask. */
  predicate Allowed(masks: Masks, r: Row) {
    forall n | n in masks && n in r :: r[n] in masks[n]
  }

  function Allows(masks: Masks): Row -> bool {
    r => Allowed(masks, r)
  }

  // ----- rows, one probe row at a time -----

  function FlatMap(g: Row -> Rows, rows: Rows): Rows {
    if rows == [] then [] else g(rows[0]) + FlatMap(g, rows[1..])
  }

  /** Rows whose results are all rejected may be dropped first. */
  lemma {:induction false} FlatMapRestrict(keep: Row -> bool, ka: Row -> bool, g: Row -> Rows, rows: Rows)
    requires forall a | a in rows && !ka(a) :: Select(keep, g(a)) == []
    ensures Select(keep, FlatMap(g, rows)) == Select(keep, FlatMap(g, Select(ka, rows)))
    decreases |rows|
  {
    if rows != [] {
      var a, tail := rows[0], rows[1..];
      assert a in rows;
      FlatMapRestrict(keep, ka, g, tail);
      SelectConcat(keep, g(a), FlatMap(g, tail));
      if ka(a) {
        assert Select(ka, rows)[1..] == Select(ka, tail);
        SelectConcat(keep, g(a), FlatMap(g, Select(ka, tail)));
      } else {
        assert Select(ka, rows) == Select(ka, tail);
      }
    }
  }

  lemma {:induction false} FlatMapSame(keep: Row -> bool, g: Row -> Rows, h: Row -> Rows, rows: Rows)
    requires forall a | a in rows :: Select(keep, g(a)) == Select(keep, h(a))
    ensures Select(keep, FlatMap(g, rows)) == Select(keep, FlatMap(h, rows))
    decreases |rows|
  {
    if rows != [] {
      assert rows[0] in rows;
      FlatMapSame(keep, g, h, rows[1..]);
      SelectConcat(keep, g(rows[0]), FlatMap(g, rows[1..]));
      SelectConcat(keep, h(rows[0]), FlatMap(h, rows[1..]));
    }
  }

  /** Two operators that agree on the rows that matter. */
  lemma FlatMapAgree(keep: Row -> bool, ka: Row -> bool, g: Row -> Rows, h: Row -> Rows, xs: Rows, ys: Rows)
    requires Select(ka, xs) == Select(ka, ys)
    requires forall a | a in xs && !ka(a) :: Select(keep, g(a)) == []
    requires forall a | a in ys && !ka(a) :: Select(keep, h(a)) == []
    requires forall a | a in xs && a in ys && ka(a) :: Select(keep, g(a)) == Select(keep, h(a))
    ensures Select(keep, FlatMap(g, xs)) == Select(keep, FlatMap(h, ys))
  {
    FlatMapRestrict(keep, ka, g, xs);
    FlatMapRestrict(keep, ka, h, ys);
    forall a | a in Select(ka, xs)
      ensures Select(keep, g(a)) == Select(keep, h(a))
    {
      SelectMember(ka, xs, a);
      SelectMember(ka, ys, a);
    }
    FlatMapSame(keep, g, h, Select(ka, xs));
  }

  lemma {:induction false} ProductIsFlatMap(probe: Rows, build: Rows)
    ensures Product(probe, build) == FlatMap(a => Paired(a, build), probe)
    decreases |probe|
  {
    if probe != [] {
      ProductIsFlatMap(probe[1..], build);
    }
  }

  lemma {:induction false} JoinIsFlatMap(jt: JoinType, mark: Option<Expr>, conds: seq<JoinCondition>, missing: Scope, probe: Rows, build: Rows)
    ensures Join(jt, mark, conds, missing, probe, build) == FlatMap(a => JoinOf(jt, mark, conds, missing, a, build), probe)
    decreases |probe|
  {
    if probe != [] {
      JoinIsFlatMap(jt, mark, conds, missing, probe[1..], build);
    }
  }

  function ExtendOf(db: Database, id: nat, bound: Expr): Row -> Rows {
    a => if bound in a then Paired(a, db.extend(id, a[bound])) else []
  }

  lemma {:induction false} ExtendIsFlatMap(db: Database, id: nat, bound: Expr, rows: Rows)
    ensures ExtendRows(db, id, bound, rows) == FlatMap(ExtendOf(db, id, bound), rows)
    decreases |rows|
  {
    if rows != [] {
      ExtendIsFlatMap(db, id, bound, rows[1..]);
    }
  }

  // ----- selections -----

  /** A test that implies another makes the other redundant. */
  lemma SelectImplied(keep: Row -> bool, weak: Row -> bool, rows: Rows)
    requires forall r | r in rows :: keep(r) ==> weak(r)
    ensures Select(keep, Select(weak, rows)) == Select(keep, rows)
  {
    SelectTwice(keep, weak, rows);
    SelectSame(r => keep(r) && weak(r), keep, rows);
  }

  lemma SelectSwap(k1: Row -> bool, k2: Row -> bool, rows: Rows)
    ensures Select(k1, Select(k2, rows)) == Select(k2, Select(k1, rows))
  {
    SelectTwice(k1, k2, rows);
    SelectTwice(k2, k1, rows);
    SelectSame(r => k1(r) && k2(r), r => k2(r) && k1(r), rows);
  }

  /** Selections that agree below a weaker test agree. */
  lemma SelectThrough(keep: Row -> bool, weak: Row -> bool, xs: Rows, ys: Rows)
    requires Select(weak, xs) == Select(weak, ys)
    requires forall r | r in xs || r in ys :: keep(r) ==> weak(r)
    ensures Select(keep, xs) == Select(keep, ys)
  {
    SelectImplied(keep, weak, xs);
    SelectImplied(keep, weak, ys);
  }

  lemma {:induction false} SelectPairs(keep: Row -> bool, a: Row, build: Rows)
    ensures Select(keep, Paired(a, build)) == Paired(a, Select(b => keep(a + b), build))
    decreases |build|
  {
    if build != [] {
      var tail := build[1..];
      SelectPairs(keep, a, tail);
      assert Paired(a, build)[1..] == Paired(a, tail);
      if keep(a + build[0]) {
        assert Select(b => keep(a + b), build)[1..] == Select(b => keep(a + b), tail);
      } else {
        assert Select(b => keep(a + b), build) == Select(b => keep(a + b), tail);
      }
    }
  }

  // ----- joins -----

  lemma InnerOne(keep: Row -> bool, mark: Option<Expr>, conds: seq<JoinCondition>, missing: Scope, a: Row, build: Rows)
    ensures Select(keep, JoinOf(Inner, mark, conds, missing, a, build)) ==
            Paired(a, Select(b => Matches(conds, a, b) && keep(a + b), build))
  {
    SelectPairs(keep, a, MatchesOf(conds, a, build));
    SelectTwice(b => keep(a + b), b => Matches(conds, a, b), build);
    SelectSame(b => (x => keep(a + x))(b) && (x => Matches(conds, a, x))(b), b => Matches(conds, a, b) && keep(a + b), build);
  }

  /** Inner joins agree when their sides agree on the rows that can find a partner and be kept. */
  lemma InnerAgree(keep: Row -> bool, ka: Row -> bool, kb: Row -> bool, mark: Option<Expr>, conds: seq<JoinCondition>, missing: Scope,
                   probe': Rows, build': Rows, probe: Rows, build: Rows)
    requires Select(ka, probe') == Select(ka, probe) && Select(kb, build') == Select(kb, build)
    requires forall a, b | a in probe' && b in build' && Matches(conds, a, b) && keep(a + b) :: ka(a) && kb(b)
    requires forall a, b | a in probe && b in build && Matches(conds, a, b) && keep(a + b) :: ka(a) && kb(b)
    ensures Select(keep, Join(Inner, mark, conds, missing, probe', build')) == Select(keep, Join(Inner, mark, conds, missing, probe, build))
  {
    var g, h := a => JoinOf(Inner, mark, conds, missing, a, build'), a => JoinOf(Inner, mark, conds, missing, a, build);
    JoinIsFlatMap(Inner, mark, conds, missing, probe', build');
    JoinIsFlatMap(Inner, mark, conds, missing, probe, build);
    forall a | a in probe' && !ka(a)
      ensures Select(keep, g(a)) == []
    {
      InnerOne(keep, mark, conds, missing, a, build');
      SelectNone(b => Matches(conds, a, b) && keep(a + b), build');
    }
    forall a | a in probe && !ka(a)
      ensures Select(keep, h(a)) == []
    {
      InnerOne(keep, mark, conds, missing, a, build);
      SelectNone(b => Matches(conds, a, b) && keep(a + b), build);
    }
    forall a | a in probe' && a in probe && ka(a)
      ensures Select(keep, g(a)) == Select(keep, h(a))
    {
      InnerOne(keep, mark, conds, missing, a, build');
      InnerOne(keep, mark, conds, missing, a, build);
      SelectThrough(b => Matches(conds, a, b) && keep(a + b), kb, build', build);
    }
    FlatMapAgree(keep, ka, g, h, probe', probe);
  }

  /** Joins of any type agree when every probe row that matters finds the same partners. */
  lemma OuterAgree(keep: Row -> bool, ka: Row -> bool, jt: JoinType, mark: Option<Expr>, conds: seq<JoinCondition>, missing: Scope,
                   probe': Rows, build': Rows, probe: Rows, build: Rows)
    requires Select(ka, probe') == Select(ka, probe)
    requires forall a, x | a in probe' && x in JoinOf(jt, mark, conds, missing, a, build') && keep(x) :: ka(a)
    requires forall a, x | a in probe && x in JoinOf(jt, mark, conds, missing, a, build) && keep(x) :: ka(a)
    requires forall a | a in probe' && ka(a) :: MatchesOf(conds, a, build') == MatchesOf(conds, a, build)
    ensures Select(keep, Join(jt, mark, conds, missing, probe', build')) == Select(keep, Join(jt, mark, conds, missing, probe, build))
  {
    var g, h := a => JoinOf(jt, mark, conds, missing, a, build'), a => JoinOf(jt, mark, conds, missing, a, build);
    JoinIsFlatMap(jt, mark, conds, missing, probe', build');
    JoinIsFlatMap(jt, mark, conds, missing, probe, build);
    forall a | a in probe' && !ka(a)
      ensures Select(keep, g(a)) == []
    {
      SelectNone(keep, g(a));
    }
    forall a | a in probe && !ka(a)
      ensures Select(keep, h(a)) == []
    {
      SelectNone(keep, h(a));
    }
    FlatMapAgree(keep, ka, g, h, probe', probe);
  }

  // ----- masks -----

  ghost predicate NodeMasks(masks: Masks) {
    forall n | n in masks :: IsNodeID(n) && Null !in masks[n]
  }

  /** Node IDs known on both sides are join keys. */
  ghost predicate SharedAreKeys(s: Scope, t: Scope, conds: seq<JoinCondition>) {
    forall e | e in s && e in t && IsNodeID(e) :: (e, e) in conds
  }

  lemma KeyEqual(conds: seq<JoinCondition>, a: Row, b: Row, n: Expr)
    requires Matches(conds, a, b) && (n, n) in conds
    ensures n in a && n in b && a[n] == b[n] && !a[n].Null?
  {
    var i :| 0 <= i < |conds| && conds[i] == (n, n);
  }

  /** A joined row is allowed only when both its parts are. */
  lemma PairAllowed(masks: Masks, conds: seq<JoinCondition>, a: Row, b: Row)
    requires NodeMasks(masks) && SharedAreKeys(a.Keys, b.Keys, conds) && Matches(conds, a, b) && Allowed(masks, a + b)
    ensures Allowed(masks, a) && Allowed(masks, b)
  {
    forall n | n in masks && n in a
      ensures a[n] in masks[n]
    {
      if n in b {
        KeyEqual(conds, a, b, n);
      }
      assert n in a + b;
    }
    assert forall n | n in masks && n in b :: n in a + b;
  }

  lemma NarrowAllowed(masks: Masks, ns: seq<Expr>, rows: Rows, r: Row)
    ensures Allowed(Narrow(masks, ns, rows), r) <==>
            Allowed(masks, r) && forall n | n in ns && n in r :: r[n] in KeysOf(rows, n)
  {
    var m := Narrow(masks, ns, rows);
    assert forall n :: n in m <==> n in masks || n in ns;
  }

  /** The masks that reach each side of a join. */
  function ProbeMasks(sip: Sip, masks: Masks, build: Rows): Masks {
    if sip.BuildToProbe? then Narrow(masks, sip.nodeIDs, build) else masks
  }

  function BuildMasks(sip: Sip, masks: Masks, probe: Rows): Masks {
    if sip.ProbeToBuild? then Narrow(masks, sip.nodeIDs, probe) else masks
  }

  /** The join passes masks of its own keys only. */
  ghost predicate PassesKeys(sip: Sip, conds: seq<JoinCondition>) {
    sip.BuildToProbe? || sip.ProbeToBuild? ==> forall n | n in sip.nodeIDs :: (n, n) in conds
  }

  lemma KeyOf(rows: Rows, r: Row, n: Expr)
    requires r in rows && n in r && !r[n].Null?
    ensures r[n] in KeysOf(rows, n)
  {
  }

  /** A row in the selection of one list is in the other. */
  lemma InBoth(keep: Row -> bool, xs: Rows, ys: Rows, r: Row)
    requires Select(keep, xs) == Select(keep, ys) && r in xs && keep(r)
    ensures r in ys
  {
    SelectMember(keep, xs, r);
    SelectMember(keep, ys, r);
  }

  /** A pair that is joined and kept satisfies the masks of both sides. */
  lemma KeptPair(sip: Sip, conds: seq<JoinCondition>, masks: Masks, a: Row, b: Row, probe: Rows, build: Rows)
    requires NodeMasks(masks) && PassesKeys(sip, conds) && SharedAreKeys(a.Keys, b.Keys, conds)
    requires Matches(conds, a, b) && Allowed(masks, a + b)
    requires sip.ProbeToBuild? ==> a in probe
    requires sip.BuildToProbe? ==> b in build
    ensures Allowed(ProbeMasks(sip, masks, build), a) && Allowed(BuildMasks(sip, masks, probe), b)
  {
    PairAllowed(masks, conds, a, b);
    if sip.BuildToProbe? {
      NarrowAllowed(masks, sip.nodeIDs, build, a);
      forall n | n in sip.nodeIDs && n in a
        ensures a[n] in KeysOf(build, n)
      {
        KeyEqual(conds, a, b, n);
        KeyOf(build, b, n);
      }
    }
    if sip.ProbeToBuild? {
      NarrowAllowed(masks, sip.nodeIDs, probe, b);
      forall n | n in sip.nodeIDs && n in b
        ensures b[n] in KeysOf(probe, n)
      {
        KeyEqual(conds, a, b, n);
        KeyOf(probe, a, n);
      }
    }
  }

  ghost predicate HasScope(scope: Scope, rows: Rows) {
    forall r | r in rows :: r.Keys == scope
  }

  /** Two row lists that agree on the rows a mask allows. */
  ghost predicate AgreeUnder(masks: Masks, xs: Rows, ys: Rows) {
    Select(Allows(masks), xs) == Select(Allows(masks), ys)
  }

  /** An inner join keeps its rows whichever way masks are passed. */
  lemma InnerMasked(sip: Sip, mark: Option<Expr>, conds: seq<JoinCondition>, missing: Scope, masks: Masks, s: Scope, t: Scope,
                    probe': Rows, build': Rows, probe: Rows, build: Rows)
    requires NodeMasks(masks) && PassesKeys(sip, conds) && SharedAreKeys(s, t, conds)
    requires HasScope(s, probe') && HasScope(s, probe) && HasScope(t, build') && HasScope(t, build)
    requires AgreeUnder(ProbeMasks(sip, masks, build'), probe', probe) && AgreeUnder(BuildMasks(sip, masks, probe'), build', build)
    ensures AgreeUnder(masks, Join(Inner, mark, conds, missing, probe', build'), Join(Inner, mark, conds, missing, probe, build))
  {
    var keep, ka, kb := Allows(masks), Allows(ProbeMasks(sip, masks, build')), Allows(BuildMasks(sip, masks, probe'));
    forall a, b | a in probe' && b in build' && Matches(conds, a, b) && keep(a + b)
      ensures ka(a) && kb(b)
    {
      KeptPair(sip, conds, masks, a, b, probe', build');
    }
    forall a, b | a in probe && b in build && Matches(conds, a, b) && keep(a + b)
      ensures ka(a) && kb(b)
    {
      PairAllowed(masks, conds, a, b);
      if sip.BuildToProbe? {
        InBoth(kb, build, build', b);
      }
      if sip.ProbeToBuild? {
        InBoth(ka, probe, probe', a);
      }
      KeptPair(sip, conds, masks, a, b, probe', build');
    }
    InnerAgree(keep, ka, kb, mark, conds, missing, probe', build', probe, build);
  }

  /** Every row a join makes of `a` carries the node IDs of `a`. */
  lemma JoinOfNode(jt: JoinType, mark: Option<Expr>, conds: seq<JoinCondition>, a: Row, t: Scope, build: Rows, x: Row, n: Expr)
    requires x in JoinOf(jt, mark, conds, t - a.Keys, a, build) && HasScope(t, build)
    requires n in a && IsNodeID(n) && SharedAreKeys(a.Keys, t, conds) && (mark.Some? ==> !IsNodeID(mark.value))
    ensures n in x && x[n] == a[n]
  {
    var found := MatchesOf(conds, a, build);
    if jt.Mark? || (!jt.Inner? && found == []) {
      assert x[n] == a[n];
    } else {
      var b: Row, m: Row := JoinedFrom(mark, a, found, x);
      SelectMember(y => Matches(conds, a, y), build, b);
      if n in b {
        KeyEqual(conds, a, b, n);
      }
    }
  }

  lemma JoinedFrom(mark: Option<Expr>, a: Row, found: Rows, x: Row) returns (b: Row, m: Row)
    requires x in Paired(a, found) || x in WithMark(Paired(a, found), MarkRow(mark, true))
    ensures b in found && x == a + b + m && (m == map[] || m == MarkRow(mark, true))
  {
    if x in Paired(a, found) {
      PairedMember(a, found, x);
      var i :| 0 <= i < |found| && x == a + found[i];
      b, m := found[i], map[];
      assert a + b + m == a + b;
    } else {
      m := MarkRow(mark, true);
      var y := MarkedFrom(Paired(a, found), m, x);
      PairedMember(a, found, y);
      var i :| 0 <= i < |found| && y == a + found[i];
      b := found[i];
    }
  }

  lemma {:induction false} MarkedFrom(rows: Rows, m: Row, x: Row) returns (y: Row)
    requires x in WithMark(rows, m)
    ensures y in rows && x == y + m
    decreases |rows|
  {
    y := rows[0];
    if x != y + m {
      y := MarkedFrom(rows[1..], m, x);
    }
  }

  /** Probe rows that matter find the same partners, when the masks of the build side are on join keys. */
  lemma SamePartners(sip: Sip, conds: seq<JoinCondition>, masks: Masks, keyMasks: Masks, a: Row, probe: Rows, build': Rows, build: Rows)
    requires a in probe && Allowed(masks, a) && AgreeUnder(keyMasks, build', build)
    requires forall n | n in keyMasks :: (n, n) in conds && n in BuildMasks(sip, masks, probe) && keyMasks[n] == BuildMasks(sip, masks, probe)[n]
    ensures MatchesOf(conds, a, build') == MatchesOf(conds, a, build)
  {
    forall b | Matches(conds, a, b)
      ensures Allowed(keyMasks, b)
    {
      forall n | n in keyMasks && n in b
        ensures b[n] in keyMasks[n]
      {
        KeyEqual(conds, a, b, n);
        KeyOf(probe, a, n);
      }
    }
    SelectThrough(b => Matches(conds, a, b), Allows(keyMasks), build', build);
  }

  /** A join of any type keeps its rows when masks go from probe to build, on join keys. */
  lemma OuterMasked(sip: Sip, jt: JoinType, mark: Option<Expr>, conds: seq<JoinCondition>, masks: Masks, keyMasks: Masks, s: Scope, t: Scope,
                    probe': Rows, build': Rows, probe: Rows, build: Rows)
    requires NodeMasks(masks) && SharedAreKeys(s, t, conds) && (mark.Some? ==> !IsNodeID(mark.value))
    requires HasScope(s, probe') && HasScope(s, probe) && HasScope(t, build') && HasScope(t, build)
    requires AgreeUnder(masks, probe', probe) && AgreeUnder(keyMasks, build', build)
    requires forall n | n in keyMasks :: (n, n) in conds && n in BuildMasks(sip, masks, probe') && keyMasks[n] == BuildMasks(sip, masks, probe')[n]
    ensures AgreeUnder(masks, Join(jt, mark, conds, t - s, probe', build'), Join(jt, mark, conds, t - s, probe, build))
  {
    var keep := Allows(masks);
    forall a, x | a in probe' && x in JoinOf(jt, mark, conds, t - s, a, build') && keep(x)
      ensures keep(a)
    {
      forall n | n in masks && n in a
        ensures a[n] in masks[n]
      {
        JoinOfNode(jt, mark, conds, a, t, build', x, n);
      }
    }
    forall a, x | a in probe && x in JoinOf(jt, mark, conds, t - s, a, build) && keep(x)
      ensures keep(a)
    {
      forall n | n in masks && n in a
        ensures a[n] in masks[n]
      {
        JoinOfNode(jt, mark, conds, a, t, build, x, n);
      }
    }
    forall a | a in probe' && keep(a)
      ensures MatchesOf(conds, a, build') == MatchesOf(conds, a, build)
    {
      SamePartners(sip, conds, masks, keyMasks, a, probe', build', build);
    }
    OuterAgree(keep, keep, jt, mark, conds, t - s, probe', build', probe, build);
  }

  // ----- left joins -----

  /** The masks on nodes of the build side that are not join keys. */
  function Columns(eff: Masks, conds: seq<JoinCondition>): Masks {
    map n | n in eff && (n, n) !in conds :: eff[n]
  }

  /** Probe rows that matter find the same partners as far as the masks on columns allow them. */
  lemma PartnersAgree(sip: Sip, conds: seq<JoinCondition>, masks: Masks, eff: Masks, a: Row, probe: Rows, build': Rows, build: Rows)
    requires a in probe && Allowed(masks, a) && AgreeUnder(eff, build', build)
    requires forall n | n in eff :: n in BuildMasks(sip, masks, probe) && eff[n] == BuildMasks(sip, masks, probe)[n]
    ensures AgreeUnder(Columns(eff, conds), MatchesOf(conds, a, build'), MatchesOf(conds, a, build))
  {
    var cols := Columns(eff, conds);
    var k, match_ := Allows(cols), (b: Row) => Matches(conds, a, b);
    var both := (b: Row) => k(b) && match_(b);
    forall b: Row | both(b)
      ensures Allowed(eff, b)
    {
      forall n | n in eff && n in b
        ensures b[n] in eff[n]
      {
        if (n, n) in conds {
          KeyEqual(conds, a, b, n);
          KeyOf(probe, a, n);
        } else {
          assert n in cols && cols[n] == eff[n];
        }
      }
    }
    SelectThrough(both, Allows(eff), build', build);
    PartnersSelected(k, conds, a, build');
    PartnersSelected(k, conds, a, build);
  }

  lemma PartnersSelected(k: Row -> bool, conds: seq<JoinCondition>, a: Row, build: Rows)
    ensures Select(k, MatchesOf(conds, a, build)) == Select((b: Row) => k(b) && ((x: Row) => Matches(conds, a, x))(b), build)
  {
    SelectTwice(k, b => Matches(conds, a, b), build);
    SelectSame((b: Row) => k(b) && ((x: Row) => Matches(conds, a, x))(b), r => k(r) && (b => Matches(conds, a, b))(r), build);
  }

  lemma {:induction false} SelectMarkedPairs(keep: Row -> bool, a: Row, m: Row, found: Rows)
    ensures Select(keep, WithMark(Paired(a, found), m)) == WithMark(Paired(a, Select(b => keep(a + b + m), found)), m)
    decreases |found|
  {
    if found != [] {
      var tail, test := found[1..], (b: Row) => keep(a + b + m);
      SelectMarkedPairs(keep, a, m, tail);
      SelectSame(test, b => keep(a + b + m), found);
      SelectSame(test, b => keep(a + b + m), tail);
      assert Paired(a, found)[1..] == Paired(a, tail);
      assert WithMark(Paired(a, found), m)[1..] == WithMark(Paired(a, tail), m);
      if test(found[0]) {
        assert Select(test, found)[1..] == Select(test, tail);
      } else {
        assert Select(test, found) == Select(test, tail);
      }
    }
  }

  /** What a left join makes of a probe row, as far as a mask on a column of the build side allows it: the row of nulls is
      never allowed. */
  lemma LeftOne(mark: Option<Expr>, conds: seq<JoinCondition>, masks: Masks, missing: Scope, a: Row, build: Rows, n: Expr)
    requires NodeMasks(masks) && MarkIsNoNode(mark) && n in masks && n in missing
    ensures var m := MarkRow(mark, true);
            Select(Allows(masks), JoinOf(Left, mark, conds, missing, a, build)) ==
            WithMark(Paired(a, Select(b => Allowed(masks, a + b + m), MatchesOf(conds, a, build))), m)
  {
    var keep, m, found := Allows(masks), MarkRow(mark, true), MatchesOf(conds, a, build);
    if found == [] {
      NullsNotAllowed(masks, a + Filled(missing, Null) + MarkRow(mark, false), n);
    } else {
      SelectMarkedPairs(keep, a, m, found);
      SelectSame(b => keep(a + b + m), b => Allowed(masks, a + b + m), found);
    }
  }

  /** Left joins of a probe row agree when its partners do as far as masks on columns of the build side allow. */
  lemma LeftOneAgrees(mark: Option<Expr>, conds: seq<JoinCondition>, masks: Masks, cols: Masks, a: Row, t: Scope, build': Rows, build: Rows)
    requires NodeMasks(masks) && MarkIsNoNode(mark) && HasScope(t, build') && HasScope(t, build)
    requires AgreeUnder(cols, MatchesOf(conds, a, build'), MatchesOf(conds, a, build))
    requires forall n | n in cols :: n in masks && cols[n] == masks[n] && n in t && n !in a
    ensures AgreeUnder(masks, JoinOf(Left, mark, conds, t - a.Keys, a, build'), JoinOf(Left, mark, conds, t - a.Keys, a, build))
  {
    var found', found, m := MatchesOf(conds, a, build'), MatchesOf(conds, a, build), MarkRow(mark, true);
    if cols == map[] {
      NoMasks(found', found);
      hide MatchesOf, Select;
    } else {
      var n :| n in cols;
      LeftOne(mark, conds, masks, t - a.Keys, a, build', n);
      LeftOne(mark, conds, masks, t - a.Keys, a, build, n);
      hide MatchesOf, JoinOf, Select, Allowed;
      forall b | (b in found' || b in found) && Allowed(masks, a + b + m)
        ensures Allowed(cols, b)
      {
        ColumnsAllowed(masks, cols, mark, a, b);
      }
      SelectThrough(b => Allowed(masks, a + b + m), Allows(cols), found', found);
    }
  }

  /** A joined row that is allowed has a build row that masks on its columns allow. */
  lemma ColumnsAllowed(masks: Masks, cols: Masks, mark: Option<Expr>, a: Row, b: Row)
    requires NodeMasks(masks) && MarkIsNoNode(mark) && Allowed(masks, a + b + MarkRow(mark, true))
    requires forall n | n in cols :: n in masks && cols[n] == masks[n]
    ensures Allowed(cols, b)
  {
    var row := a + b + MarkRow(mark, true);
    forall n | n in cols && n in b
      ensures b[n] in cols[n]
    {
      assert n in row && row[n] == b[n];
    }
  }

  /** A left join keeps its rows, as far as masks allow them, when masks on columns of its build side reach the scans there. */
  lemma LeftMasked(sip: Sip, mark: Option<Expr>, conds: seq<JoinCondition>, masks: Masks, eff: Masks, s: Scope, t: Scope,
                   probe': Rows, build': Rows, probe: Rows, build: Rows)
    requires NodeMasks(masks) && SharedAreKeys(s, t, conds) && MarkIsNoNode(mark)
    requires HasScope(s, probe') && HasScope(s, probe) && HasScope(t, build') && HasScope(t, build)
    requires AgreeUnder(masks, probe', probe) && AgreeUnder(eff, build', build)
    requires forall n | n in eff :: IsNodeID(n) && n in BuildMasks(sip, masks, probe') && eff[n] == BuildMasks(sip, masks, probe')[n]
    requires forall n | n in eff :: (n, n) in conds || (n in t && n in masks && eff[n] == masks[n])
    ensures AgreeUnder(masks, Join(Left, mark, conds, t - s, probe', build'), Join(Left, mark, conds, t - s, probe, build))
  {
    var keep, cols := Allows(masks), Columns(eff, conds);
    var g, h := (a: Row) => JoinOf(Left, mark, conds, t - s, a, build'), (a: Row) => JoinOf(Left, mark, conds, t - s, a, build);
    LeftFlat(mark, conds, t - s, probe', build');
    LeftFlat(mark, conds, t - s, probe, build);
    forall a: Row | a.Keys == s && !keep(a)
      ensures Select(keep, g(a)) == [] && Select(keep, h(a)) == []
    {
      LeftRejects(mark, conds, masks, a, t, build');
      LeftRejects(mark, conds, masks, a, t, build);
    }
    forall a: Row | a in probe' && a in probe && keep(a)
      ensures Select(keep, g(a)) == Select(keep, h(a))
    {
      PartnersAgree(sip, conds, masks, eff, a, probe', build', build);
      LeftOneAgrees(mark, conds, masks, cols, a, t, build', build);
    }
    FlatMapAgree(keep, keep, g, h, probe', probe);
  }

  lemma LeftFlat(mark: Option<Expr>, conds: seq<JoinCondition>, missing: Scope, probe: Rows, build: Rows)
    ensures Join(Left, mark, conds, missing, probe, build) == FlatMap((a: Row) => JoinOf(Left, mark, conds, missing, a, build), probe)
  {
    JoinIsFlatMap(Left, mark, conds, missing, probe, build);
    FlatMapEqual(a => JoinOf(Left, mark, conds, missing, a, build), (a: Row) => JoinOf(Left, mark, conds, missing, a, build), probe);
  }

  lemma {:induction false} FlatMapEqual(g: Row -> Rows, h: Row -> Rows, rows: Rows)
    requires forall a | a in rows :: g(a) == h(a)
    ensures FlatMap(g, rows) == FlatMap(h, rows)
    decreases |rows|
  {
    if rows != [] {
      FlatMapEqual(g, h, rows[1..]);
    }
  }

  lemma LeftRejects(mark: Option<Expr>, conds: seq<JoinCondition>, masks: Masks, a: Row, t: Scope, build: Rows)
    requires NodeMasks(masks) && SharedAreKeys(a.Keys, t, conds) && MarkIsNoNode(mark) && HasScope(t, build) && !Allowed(masks, a)
    ensures Select(Allows(masks), JoinOf(Left, mark, conds, t - a.Keys, a, build)) == []
  {
    var n :| n in masks && n in a && a[n] !in masks[n];
    var rows := JoinOf(Left, mark, conds, t - a.Keys, a, build);
    forall x | x in rows
      ensures !Allowed(masks, x)
    {
      JoinOfNode(Left, mark, conds, a, t, build, x, n);
    }
    SelectNone(Allows(masks), rows);
  }

  // ----- plans -----

  /** Every node ID of the row is one of the keys. */
  function HasKey(n: Expr, keys: set<Value>): Row -> bool {
    r => n in r ==> r[n] in keys
  }

  function SelectEach(keep: Row -> bool, inputs: seq<Rows>): (r: seq<Rows>)
    ensures |r| == |inputs| && forall i | 0 <= i < |inputs| :: r[i] == Select(keep, inputs[i])
  {
    seq(|inputs|, i requires 0 <= i < |inputs| => Select(keep, inputs[i]))
  }

  ghost predicate GoodInputs(db: Database, scopes: seq<Scope>, inputs: seq<Rows>) {
    |inputs| == |scopes| && forall i | 0 <= i < |inputs| :: GoodRows(db, scopes[i], inputs[i])
  }

  /** The operator returns rows of its schema. */
  ghost predicate OperatorTyped(db: Database, id: nat, scope: Scope, scopes: seq<Scope>) {
    forall inputs | GoodInputs(db, scopes, inputs) :: GoodRows(db, scope, db.operator(id, inputs))
  }

  /** What the operator returns for some keys of a node does not depend on the rows of other keys. */
  ghost predicate Respects(db: Database, id: nat, scopes: seq<Scope>, n: Expr) {
    forall keys, inputs | Null !in keys && GoodInputs(db, scopes, inputs) ::
      Select(HasKey(n, keys), db.operator(id, SelectEach(HasKey(n, keys), inputs))) == Select(HasKey(n, keys), db.operator(id, inputs))
  }

  function Schemas(ps: seq<Plan>): (r: seq<Scope>)
    ensures |r| == |ps| && forall i | 0 <= i < |ps| :: r[i] == Schema(ps[i])
  {
    seq(|ps|, i requires 0 <= i < |ps| => Schema(ps[i]))
  }

  /** A mask on `n` may reach the scans below `p`. */
  ghost predicate Transparent(db: Database, p: Plan, n: Expr) {
    match p
    case Filter(_, c) => Transparent(db, c, n)
    case Extend(_, _, _, c) => Transparent(db, c, n)
    case CrossProduct(acc, l, r) =>
      && Transparent(db, l, n)
      && if acc.Regular? then Transparent(db, r, n) else !HasScan(r, n) || (Transparent(db, r, n) && n in Schema(r))
    case HashJoin(conds, jt, _, _, l, r) =>
      && Transparent(db, l, n)
      && if jt.Inner? then Transparent(db, r, n)
         else !HasScan(r, n) || (Transparent(db, r, n) && ((n, n) in conds || (jt.Left? && n in Schema(r))))
    case Other(id, s, children) =>
      || (forall i | 0 <= i < |children| :: !HasScan(children[i], n))
      || (&& OperatorTyped(db, id, s, Schemas(children)) && Respects(db, id, Schemas(children), n)
          && forall i | 0 <= i < |children| :: Transparent(db, children[i], n))
    case _ => true
  }

  ghost predicate NoSharedNode(s: Scope, t: Scope) {
    forall e | e in s && e in t :: !IsNodeID(e)
  }

  ghost predicate MarkIsNoNode(mark: Option<Expr>) {
    mark.Some? ==> !IsNodeID(mark.value)
  }

  /** Node IDs belong to one side of a product and are join keys when both sides of a join know them. */
  ghost predicate NodesScoped(p: Plan) {
    match p
    case Filter(_, c) => NodesScoped(c)
    case Extend(_, _, added, c) => NodesScoped(c) && NoSharedNode(Schema(c), added)
    case CrossProduct(acc, l, r) =>
      NodesScoped(l) && NodesScoped(r) && NoSharedNode(Schema(l), Schema(r)) && MarkIsNoNode(AccumulateMark(acc))
    case HashJoin(conds, _, mark, _, l, r) =>
      NodesScoped(l) && NodesScoped(r) && SharedAreKeys(Schema(l), Schema(r), conds) && MarkIsNoNode(mark)
    case Other(_, _, children) => forall i | 0 <= i < |children| :: NodesScoped(children[i])
    case _ => true
  }

  /** Every join passes masks of its own keys, to sides whose scans they may reach, and from build to probe only
      when it is an inner join. */
  ghost predicate SipSafe(db: Database, p: Plan) {
    match p
    case Filter(_, c) => SipSafe(db, c)
    case Extend(_, _, _, c) => SipSafe(db, c)
    case CrossProduct(_, l, r) => SipSafe(db, l) && SipSafe(db, r)
    case HashJoin(conds, jt, _, sip, l, r) =>
      && SipSafe(db, l) && SipSafe(db, r) && PassesKeys(sip, conds)
      && (sip.BuildToProbe? ==> jt.Inner? && forall n | n in sip.nodeIDs :: IsNodeID(n) && Transparent(db, l, n))
      && (sip.ProbeToBuild? ==> forall n | n in sip.nodeIDs :: IsNodeID(n) && Transparent(db, r, n))
    case Other(_, _, children) => forall i | 0 <= i < |children| :: SipSafe(db, children[i])
    case _ => true
  }

  ghost predicate SameMask(p: Plan, m1: Masks, m2: Masks) {
    forall n | HasScan(p, n) :: (n in m1 <==> n in m2) && (n in m1 ==> m1[n] == m2[n])
  }

  /** Only masks of scanned nodes have an effect. */
  lemma {:induction false} Unscanned(db: Database, f: Loosening, p: Plan, m1: Masks, m2: Masks)
    requires SameMask(p, m1, m2)
    ensures MaskedRows(db, f, p, m1) == MaskedRows(db, f, p, m2)
    decreases p, 1
  {
    match p
    case Scan(v, tables, ps) =>
      var n := NodeID(v);
      assert HasScan(p, n);
      SelectSame(r => n in m1 && n in r ==> r[n] in f(n, m1[n]), r => n in m2 && n in r ==> r[n] in f(n, m2[n]),
                 NodeRows(v, ps, TableNodes(db, tables)));
    case PrimaryKeyScan(_, _, _, _) =>
    case Filter(_, c) => Unscanned(db, f, c, m1, m2);
    case Extend(_, _, _, c) => Unscanned(db, f, c, m1, m2);
    case CrossProduct(_, l, r) =>
      Unscanned(db, f, l, m1, m2);
      Unscanned(db, f, r, m1, m2);
    case HashJoin(_, _, _, sip, l, r) => UnscannedSides(db, f, p, m1, m2);
    case EmptyResult(_) =>
    case TableFunctionCall(_, _) =>
    case Other(_, _, children) => UnscannedAll(db, f, children, m1, m2);
  }

  lemma {:induction false} UnscannedSides(db: Database, f: Loosening, p: Plan, m1: Masks, m2: Masks)
    requires p.HashJoin? && SameMask(p, m1, m2)
    ensures MaskedSides(db, f, p, m1) == MaskedSides(db, f, p, m2)
    decreases p, 0
  {
    var l, r := p.probe, p.build;
    if p.sip.BuildToProbe? {
      Unscanned(db, f, r, m1, m2);
      var b := MaskedRows(db, f, r, m1);
      Unscanned(db, f, l, Narrow(m1, p.sip.nodeIDs, b), Narrow(m2, p.sip.nodeIDs, b));
    } else if p.sip.ProbeToBuild? {
      Unscanned(db, f, l, m1, m2);
      var a := MaskedRows(db, f, l, m1);
      Unscanned(db, f, r, Narrow(m1, p.sip.nodeIDs, a), Narrow(m2, p.sip.nodeIDs, a));
    } else {
      Unscanned(db, f, l, m1, m2);
      Unscanned(db, f, r, m1, m2);
    }
  }

  lemma {:induction false} UnscannedAll(db: Database, f: Loosening, ps: seq<Plan>, m1: Masks, m2: Masks)
    requires forall i | 0 <= i < |ps| :: SameMask(ps[i], m1, m2)
    ensures MaskedRowsOfAll(db, f, ps, m1) == MaskedRowsOfAll(db, f, ps, m2)
    decreases ps, 0
  {
    if ps != [] {
      Unscanned(db, f, ps[0], m1, m2);
      UnscannedAll(db, f, ps[1..], m1, m2);
    }
  }

  /** The masks that have an effect on a plan. */
  function Effective(masks: Masks, p: Plan): Masks {
    map n | n in masks && HasScan(p, n) :: masks[n]
  }

  // ----- the theorem -----

  /** Masks that may reach every scan they name below `p`. */
  ghost predicate MayPass(db: Database, masks: Masks, p: Plan) {
    NodeMasks(masks) && forall n | n in masks :: Transparent(db, p, n)
  }

  ghost predicate Passable(db: Database, p: Plan) {
    WellFormed(db, p) && NodesScoped(p) && SipSafe(db, p)
  }

  /** The masked rows have the schema of the plan, and are its rows as far as the masks allow them. */
  ghost predicate Masked(db: Database, f: Loosening, p: Plan, masks: Masks) {
    GoodRows(db, Schema(p), MaskedRows(db, f, p, masks)) && AgreeUnder(masks, MaskedRows(db, f, p, masks), RowsOf(db, p))
  }

  lemma ScanMasked(db: Database, f: Loosening, p: Plan, masks: Masks)
    requires Sound(f) && WellFormed(db, p) && p.Scan?
    ensures Masked(db, f, p, masks)
  {
    var n, rows := NodeID(p.variable), RowsOf(db, p);
    var test := r => n in masks && n in r ==> r[n] in f(n, masks[n]);
    RowsGood(db, p);
    SelectGood(db, Schema(p), test, rows);
    SelectImplied(Allows(masks), test, rows);
  }

  lemma FilterMasked(db: Database, f: Loosening, e: Expr, c: Plan, masks: Masks)
    requires Masked(db, f, c, masks)
    ensures Masked(db, f, Filter(e, c), masks)
  {
    var rows := MaskedRows(db, f, c, masks);
    SelectGood(db, Schema(c), Keeps(db, [e]), rows);
    SelectSwap(Allows(masks), Keeps(db, [e]), rows);
    SelectSwap(Allows(masks), Keeps(db, [e]), RowsOf(db, c));
  }

  lemma ExtendMasked(db: Database, f: Loosening, p: Plan, masks: Masks)
    requires p.Extend? && WellFormed(db, p) && NodesScoped(p) && NodeMasks(masks) && Masked(db, f, p.child, masks)
    ensures Masked(db, f, p, masks)
  {
    var keep, g := Allows(masks), ExtendOf(db, p.id, p.bound);
    var rows', rows := MaskedRows(db, f, p.child, masks), RowsOf(db, p.child);
    RowsGood(db, p.child);
    ExtendGood(db, p.id, p.bound, Schema(p.child), p.added, rows');
    ExtendIsFlatMap(db, p.id, p.bound, rows');
    ExtendIsFlatMap(db, p.id, p.bound, rows);
    forall a: Row | a.Keys == Schema(p.child) && !keep(a)
      ensures Select(keep, g(a)) == []
    {
      ExtendRejects(db, p, masks, a);
    }
    FlatMapAgree(keep, keep, g, g, rows', rows);
  }

  lemma ExtendRejects(db: Database, p: Plan, masks: Masks, a: Row)
    requires p.Extend? && WellFormed(db, p) && NodesScoped(p) && NodeMasks(masks) && a.Keys == Schema(p.child) && !Allowed(masks, a)
    ensures Select(Allows(masks), ExtendOf(db, p.id, p.bound)(a)) == []
  {
    var n :| n in masks && n in a && a[n] !in masks[n];
    if p.bound in a {
      var added := db.extend(p.id, a[p.bound]);
      forall x | x in Paired(a, added)
        ensures !Allowed(masks, x)
      {
        PairedMember(a, added, x);
        var i :| 0 <= i < |added| && x == a + added[i];
        assert added[i] in added && n !in added[i];
        assert n in x && x[n] == a[n];
      }
      SelectNone(Allows(masks), Paired(a, added));
    }
  }

  /** A product of sides that share no node. */
  lemma ProductMasked(masks: Masks, s: Scope, t: Scope, probe': Rows, build': Rows, probe: Rows, build: Rows)
    requires NodeMasks(masks) && NoSharedNode(s, t)
    requires HasScope(s, probe') && HasScope(s, probe) && HasScope(t, build') && HasScope(t, build)
    requires AgreeUnder(masks, probe', probe) && AgreeUnder(masks, build', build)
    ensures AgreeUnder(masks, Product(probe', build'), Product(probe, build))
  {
    var keep := Allows(masks);
    ProductSplits(masks, s, t, probe', build');
    ProductSplits(masks, s, t, probe, build);
  }

  lemma ProductSplits(masks: Masks, s: Scope, t: Scope, probe: Rows, build: Rows)
    requires NodeMasks(masks) && NoSharedNode(s, t) && HasScope(s, probe) && HasScope(t, build)
    ensures Select(Allows(masks), Product(probe, build)) ==
            Select(_ => true, Product(Select(Allows(masks), probe), Select(Allows(masks), build)))
  {
    var keep := Allows(masks);
    forall a, b | a in probe && b in build
      ensures keep(a + b) == (keep(a) && keep(b) && (_ => true)(a + b))
    {
      assert forall n | n in masks :: !(n in a && n in b);
      assert forall n :: n in a + b <==> n in a || n in b;
      if Allowed(masks, a + b) {
        assert forall n | n in masks && n in a :: (a + b)[n] == a[n];
        assert forall n | n in masks && n in b :: (a + b)[n] == b[n];
      }
    }
    SelectProduct(keep, keep, keep, _ => true, probe, build);
  }

  /** Without masks there is nothing to agree on but everything. */
  lemma NoMasks(xs: Rows, ys: Rows)
    requires AgreeUnder(map[], xs, ys)
    ensures xs == ys
  {
    SelectAll(Allows(map[]), xs);
    SelectAll(Allows(map[]), ys);
  }

  lemma {:induction false} MaskedCorrect(db: Database, f: Loosening, p: Plan, masks: Masks)
    requires Sound(f) && Passable(db, p) && MayPass(db, masks, p)
    ensures Masked(db, f, p, masks)
    decreases p, 2
  {
    match p
    case Scan(_, _, _) => ScanMasked(db, f, p, masks);
    case PrimaryKeyScan(_, _, _, _) => RowsGood(db, p);
    case Filter(e, c) =>
      MaskedCorrect(db, f, c, masks);
      FilterMasked(db, f, e, c, masks);
    case Extend(_, _, _, c) =>
      MaskedCorrect(db, f, c, masks);
      ExtendMasked(db, f, p, masks);
    case CrossProduct(_, _, _) => CrossMasked(db, f, p, masks);
    case HashJoin(_, _, _, _, _, _) => JoinMasked(db, f, p, masks);
    case EmptyResult(_) =>
    case TableFunctionCall(_, _) =>
    case Other(_, _, children) =>
      var eff := Effective(masks, p);
      EffectiveSame(masks, p);
      UnscannedAll(db, f, children, masks, eff);
      forall i | 0 <= i < |children|
        ensures Masked(db, f, children[i], eff)
      {
        EffectivePass(db, p, masks, i);
        MaskedCorrect(db, f, children[i], eff);
      }
      OtherMasked(db, f, p, masks, eff);
  }

  lemma EffectivePass(db: Database, p: Plan, masks: Masks, i: nat)
    requires p.Other? && MayPass(db, masks, p) && i < |p.children|
    ensures MayPass(db, Effective(masks, p), p.children[i])
  {
  }

  lemma {:induction false} MaskedRowsAt(db: Database, f: Loosening, ps: seq<Plan>, masks: Masks)
    ensures |MaskedRowsOfAll(db, f, ps, masks)| == |ps| == |RowsOfAll(db, ps)|
    ensures forall i | 0 <= i < |ps| :: MaskedRowsOfAll(db, f, ps, masks)[i] == MaskedRows(db, f, ps[i], masks) && RowsOfAll(db, ps)[i] == RowsOf(db, ps[i])
    decreases |ps|
  {
    hide MaskedRows, RowsOf;
    if ps != [] {
      MaskedRowsAt(db, f, ps[1..], masks);
      forall i | 1 <= i < |ps|
        ensures MaskedRowsOfAll(db, f, ps, masks)[i] == MaskedRows(db, f, ps[i], masks) && RowsOfAll(db, ps)[i] == RowsOf(db, ps[i])
      {
        assert ps[i] == ps[1..][i - 1];
      }
    }
  }

  lemma SelectEachGood(db: Database, scopes: seq<Scope>, keep: Row -> bool, inputs: seq<Rows>)
    requires GoodInputs(db, scopes, inputs)
    ensures GoodInputs(db, scopes, SelectEach(keep, inputs))
  {
    forall i | 0 <= i < |inputs|
      ensures GoodRows(db, scopes[i], Select(keep, inputs[i]))
    {
      SelectGood(db, scopes[i], keep, inputs[i]);
    }
  }

  lemma SelectBoth(keep: Row -> bool, k: Row -> bool, rest: Row -> bool, rows: Rows)
    requires forall r :: keep(r) <==> k(r) && rest(r)
    ensures Select(k, Select(rest, rows)) == Select(keep, rows)
  {
    SelectTwice(k, rest, rows);
    SelectSame(r => k(r) && rest(r), keep, rows);
  }

  /** An operator that respects the keys of each node respects all masks together. */
  lemma {:induction false} RespectsMasks(db: Database, id: nat, scopes: seq<Scope>, masks: Masks, inputs: seq<Rows>)
    requires GoodInputs(db, scopes, inputs) && NodeMasks(masks) && forall n | n in masks :: Respects(db, id, scopes, n)
    ensures AgreeUnder(masks, db.operator(id, SelectEach(Allows(masks), inputs)), db.operator(id, inputs))
    decreases |masks|
  {
    if masks == map[] {
      forall i | 0 <= i < |inputs|
        ensures Select(Allows(masks), inputs[i]) == inputs[i]
      {
        SelectAll(Allows(masks), inputs[i]);
      }
      assert SelectEach(Allows(masks), inputs) == inputs;
    } else {
      var n :| n in masks;
      var fewer := masks - {n};
      assert masks.Keys == fewer.Keys + {n};
      var keep, k, rest := Allows(masks), HasKey(n, masks[n]), Allows(fewer);
      forall r
        ensures keep(r) <==> k(r) && rest(r)
      {
        assert forall m :: m in masks <==> m == n || m in fewer;
        assert forall m | m in fewer :: fewer[m] == masks[m];
      }
      RespectsMasks(db, id, scopes, fewer, inputs);
      RespectsMore(db, id, scopes, n, masks[n], keep, rest, inputs);
    }
  }

  lemma RespectsMore(db: Database, id: nat, scopes: seq<Scope>, n: Expr, keys: set<Value>, keep: Row -> bool, rest: Row -> bool, inputs: seq<Rows>)
    requires GoodInputs(db, scopes, inputs) && Respects(db, id, scopes, n) && Null !in keys
    requires forall r :: keep(r) <==> HasKey(n, keys)(r) && rest(r)
    requires Select(rest, db.operator(id, SelectEach(rest, inputs))) == Select(rest, db.operator(id, inputs))
    ensures Select(keep, db.operator(id, SelectEach(keep, inputs))) == Select(keep, db.operator(id, inputs))
  {
    var k := HasKey(n, keys);
    var some, all := SelectEach(rest, inputs), SelectEach(keep, inputs);
    SelectEachGood(db, scopes, rest, inputs);
    assert SelectEach(k, some) == all by {
      forall i | 0 <= i < |inputs|
        ensures Select(k, some[i]) == all[i]
      {
        SelectBoth(keep, k, rest, inputs[i]);
      }
    }
    SelectBoth(keep, k, rest, db.operator(id, inputs));
    SelectBoth(keep, k, rest, db.operator(id, some));
    SelectSwap(k, rest, db.operator(id, some));
    SelectSwap(k, rest, db.operator(id, all));
    SelectBoth(keep, k, rest, db.operator(id, all));
    assert Select(k, db.operator(id, all)) == Select(k, db.operator(id, some));
  }

  /** An operator that respects the keys keeps the rows that masks allow, whatever the masks of its inputs let through. */
  lemma OperatorMasked(db: Database, id: nat, scopes: seq<Scope>, masks: Masks, inputs': seq<Rows>, inputs: seq<Rows>)
    requires GoodInputs(db, scopes, inputs') && GoodInputs(db, scopes, inputs) && NodeMasks(masks)
    requires forall n | n in masks :: Respects(db, id, scopes, n)
    requires forall i | 0 <= i < |scopes| :: AgreeUnder(masks, inputs'[i], inputs[i])
    ensures AgreeUnder(masks, db.operator(id, inputs'), db.operator(id, inputs))
  {
    RespectsMasks(db, id, scopes, masks, inputs');
    RespectsMasks(db, id, scopes, masks, inputs);
    assert SelectEach(Allows(masks), inputs') == SelectEach(Allows(masks), inputs);
  }

  lemma FewerAgree(masks: Masks, fewer: Masks, xs: Rows, ys: Rows)
    requires AgreeUnder(fewer, xs, ys) && forall n | n in fewer :: n in masks && fewer[n] == masks[n]
    ensures AgreeUnder(masks, xs, ys)
  {
    SelectThrough(Allows(masks), Allows(fewer), xs, ys);
  }

  lemma OtherMasked(db: Database, f: Loosening, p: Plan, masks: Masks, eff: Masks)
    requires p.Other? && WellFormed(db, p) && MayPass(db, masks, p) && eff == Effective(masks, p)
    requires forall i | 0 <= i < |p.children| :: Masked(db, f, p.children[i], eff)
    requires MaskedRowsOfAll(db, f, p.children, masks) == MaskedRowsOfAll(db, f, p.children, eff)
    ensures Masked(db, f, p, masks)
  {
    var id, ps, scopes := p.id, p.children, Schemas(p.children);
    var inputs', inputs := MaskedRowsOfAll(db, f, ps, eff), RowsOfAll(db, ps);
    MaskedRowsAt(db, f, ps, eff);
    forall i | 0 <= i < |ps|
      ensures GoodRows(db, scopes[i], inputs'[i]) && GoodRows(db, scopes[i], inputs[i]) && AgreeUnder(eff, inputs'[i], inputs[i])
    {
      assert Masked(db, f, ps[i], eff);
      RowsGood(db, ps[i]);
    }
    if eff == map[] {
      forall i | 0 <= i < |ps|
        ensures inputs'[i] == inputs[i]
      {
        NoMasks(inputs'[i], inputs[i]);
      }
      assert inputs' == inputs;
    } else {
      var n :| n in eff;
      assert Transparent(db, p, n);
      assert GoodRows(db, p.schema, db.operator(id, inputs'));
      OperatorMasked(db, id, scopes, eff, inputs', inputs);
    }
    FewerAgree(masks, eff, db.operator(id, inputs'), db.operator(id, inputs));
  }

  /** A mark does not touch the nodes of a row. */
  lemma {:induction false} SelectWithMark(masks: Masks, m: Row, rows: Rows)
    requires NodeMasks(masks) && forall e | e in m :: !IsNodeID(e)
    ensures Select(Allows(masks), WithMark(rows, m)) == WithMark(Select(Allows(masks), rows), m)
    decreases |rows|
  {
    if rows != [] {
      SelectWithMark(masks, m, rows[1..]);
      assert forall n | n in masks :: n !in m;
      assert Allowed(masks, rows[0] + m) <==> Allowed(masks, rows[0]) by {
        assert forall n | n in masks :: (n in rows[0] + m <==> n in rows[0]) && (n in rows[0] ==> (rows[0] + m)[n] == rows[0][n]);
      }
      assert WithMark(rows, m)[1..] == WithMark(rows[1..], m);
      if Allowed(masks, rows[0]) {
        assert Select(Allows(masks), rows)[1..] == Select(Allows(masks), rows[1..]);
      } else {
        assert Select(Allows(masks), rows) == Select(Allows(masks), rows[1..]);
      }
    }
  }

  /** No mask holds the null that stands in for a node. */
  lemma NullsNotAllowed(masks: Masks, row: Row, n: Expr)
    requires NodeMasks(masks) && n in masks && n in row && row[n] == Null
    ensures !Allowed(masks, row) && Select(Allows(masks), [row]) == []
  {
    assert [row][1..] == [];
  }

  /** The build side of a cross product: where masks leave nothing of an optional one, the row of nulls that stands in is
      one that the masks do not allow. */
  lemma AccumulatedMasked(acc: Accumulate, t: Scope, masks: Masks, eff: Masks, build': Rows, build: Rows)
    requires NodeMasks(masks) && MarkIsNoNode(AccumulateMark(acc)) && AgreeUnder(eff, build', build)
    requires forall n | n in eff :: n in masks && eff[n] == masks[n] && (acc.Regular? || n in t)
    ensures AgreeUnder(masks, Accumulated(acc, t, build'), Accumulated(acc, t, build))
  {
    FewerAgree(masks, eff, build', build);
    if acc.Optional? {
      var keep, m, none := Allows(masks), MarkRow(acc.mark, true), Filled(t, Null) + MarkRow(acc.mark, false);
      SelectWithMark(masks, m, build');
      SelectWithMark(masks, m, build);
      if eff == map[] {
        NoMasks(build', build);
      } else {
        var n :| n in eff;
        NullsNotAllowed(masks, none, n);
      }
    }
  }

  lemma {:induction false} CrossMasked(db: Database, f: Loosening, p: Plan, masks: Masks)
    requires p.CrossProduct? && Sound(f) && Passable(db, p) && MayPass(db, masks, p)
    ensures Masked(db, f, p, masks)
    decreases p, 1
  {
    var acc, l, r := p.accumulate, p.probe, p.build;
    var t := Schema(r) + MarkScope(AccumulateMark(acc));
    MaskedCorrect(db, f, l, masks);
    var eff := if acc.Regular? then masks else Effective(masks, r);
    EffectiveSame(masks, r);
    MaskedCorrect(db, f, r, eff);
    Unscanned(db, f, r, masks, eff);
    RowsGood(db, l);
    RowsGood(db, r);
    AccumulatedMasked(acc, Schema(r), masks, eff, MaskedRows(db, f, r, masks), RowsOf(db, r));
    var build', build := Accumulated(acc, Schema(r), MaskedRows(db, f, r, masks)), Accumulated(acc, Schema(r), RowsOf(db, r));
    AccumulatedGood(db, acc, Schema(r), MaskedRows(db, f, r, masks));
    AccumulatedGood(db, acc, Schema(r), RowsOf(db, r));
    ProductGood(db, Schema(l), MaskedRows(db, f, l, masks), t, build');
    assert Schema(l) + t == Schema(p);
    ProductMasked(masks, Schema(l), t, MaskedRows(db, f, l, masks), build', RowsOf(db, l), build);
  }

  lemma SidesMasks(db: Database, f: Loosening, p: Plan, masks: Masks)
    requires p.HashJoin?
    ensures var sides := MaskedSides(db, f, p, masks);
            && sides.0 == MaskedRows(db, f, p.probe, ProbeMasks(p.sip, masks, sides.1))
            && sides.1 == MaskedRows(db, f, p.build, BuildMasks(p.sip, masks, sides.0))
  {
  }

  lemma ProbeMasksPass(db: Database, p: Plan, masks: Masks, build: Rows)
    requires p.HashJoin? && SipSafe(db, p) && MayPass(db, masks, p)
    ensures MayPass(db, ProbeMasks(p.sip, masks, build), p.probe)
  {
    var m := ProbeMasks(p.sip, masks, build);
    assert forall n | n in m :: n in masks || (p.sip.BuildToProbe? && n in p.sip.nodeIDs);
  }

  lemma BuildMasksPass(db: Database, p: Plan, masks: Masks, probe: Rows)
    requires p.HashJoin? && SipSafe(db, p) && MayPass(db, masks, p)
    ensures p.joinType.Inner? ==> MayPass(db, BuildMasks(p.sip, masks, probe), p.build)
    ensures !p.joinType.Inner? ==> MayPass(db, Effective(BuildMasks(p.sip, masks, probe), p.build), p.build)
    ensures !p.joinType.Inner? ==> forall n | n in Effective(BuildMasks(p.sip, masks, probe), p.build) ::
              (n, n) in p.conditions || (p.joinType.Left? && n in Schema(p.build) && n in masks && BuildMasks(p.sip, masks, probe)[n] == masks[n])
  {
    var m := BuildMasks(p.sip, masks, probe);
    assert forall n | n in m :: n in masks || (p.sip.ProbeToBuild? && n in p.sip.nodeIDs);
  }

  lemma EffectiveSame(masks: Masks, p: Plan)
    ensures SameMask(p, masks, Effective(masks, p))
    ensures forall n | n in Effective(masks, p) :: n in masks && Effective(masks, p)[n] == masks[n]
  {
  }

  /** The masked rows of the two sides of a join are good rows of their schemas. */
  ghost predicate SidesGood(db: Database, p: Plan, probe: Rows, build: Rows)
    requires p.HashJoin?
  {
    && GoodRows(db, Schema(p.probe), probe) && GoodRows(db, Schema(p.build), build)
    && GoodRows(db, Schema(p.probe), RowsOf(db, p.probe)) && GoodRows(db, Schema(p.build), RowsOf(db, p.build))
  }

  lemma {:induction false} JoinMasked(db: Database, f: Loosening, p: Plan, masks: Masks)
    requires p.HashJoin? && Sound(f) && Passable(db, p) && MayPass(db, masks, p)
    ensures Masked(db, f, p, masks)
    decreases p, 1
  {
    var l, r, sides := p.probe, p.build, MaskedSides(db, f, p, masks);
    SidesMasks(db, f, p, masks);
    ProbeMasksPass(db, p, masks, sides.1);
    BuildMasksPass(db, p, masks, sides.0);
    MaskedCorrect(db, f, l, ProbeMasks(p.sip, masks, sides.1));
    RowsGood(db, l);
    RowsGood(db, r);
    var mR := BuildMasks(p.sip, masks, sides.0);
    if p.joinType.Inner? {
      MaskedCorrect(db, f, r, mR);
      hide MaskedRows, MaskedSides, ProbeMasks, BuildMasks, Narrow, GoodRows, AgreeUnder, Transparent;
      InnerSidesMasked(db, f, p, masks, sides.0, sides.1);
    } else {
      var keyMasks := Effective(mR, r);
      EffectiveSame(mR, r);
      MaskedCorrect(db, f, r, keyMasks);
      Unscanned(db, f, r, mR, keyMasks);
      hide MaskedRows, MaskedSides, Narrow, GoodRows, AgreeUnder, Transparent, Effective;
      if p.joinType.Left? {
        LeftSidesMasked(db, p, masks, keyMasks, sides.0, sides.1);
      } else {
        OuterSidesMasked(db, f, p, masks, keyMasks, sides.0, sides.1);
      }
    }
    JoinedSidesMasked(db, f, p, masks);
  }

  lemma InnerSidesMasked(db: Database, f: Loosening, p: Plan, masks: Masks, probe: Rows, build: Rows)
    requires p.HashJoin? && p.joinType.Inner? && Passable(db, p) && NodeMasks(masks) && SidesGood(db, p, probe, build)
    requires AgreeUnder(ProbeMasks(p.sip, masks, build), probe, RowsOf(db, p.probe))
    requires AgreeUnder(BuildMasks(p.sip, masks, probe), build, RowsOf(db, p.build))
    ensures SidesJoined(db, p, masks, probe, build)
  {
    hide AgreeUnder, RowsOf, WellFormed;
    var s, t := Schema(p.probe), Schema(p.build);
    InnerMasked(p.sip, p.mark, p.conditions, t - s, masks, s, t, probe, build, RowsOf(db, p.probe), RowsOf(db, p.build));
  }

  lemma LeftSidesMasked(db: Database, p: Plan, masks: Masks, eff: Masks, probe: Rows, build: Rows)
    requires p.HashJoin? && p.joinType.Left? && Passable(db, p) && NodeMasks(masks) && SidesGood(db, p, probe, build)
    requires AgreeUnder(masks, probe, RowsOf(db, p.probe)) && AgreeUnder(eff, build, RowsOf(db, p.build))
    requires forall n | n in eff :: IsNodeID(n) && n in BuildMasks(p.sip, masks, probe) && eff[n] == BuildMasks(p.sip, masks, probe)[n]
    requires forall n | n in eff :: (n, n) in p.conditions || (n in Schema(p.build) && n in masks && eff[n] == masks[n])
    ensures SidesJoined(db, p, masks, probe, build)
  {
    hide AgreeUnder, RowsOf, WellFormed, BuildMasks;
    var s, t := Schema(p.probe), Schema(p.build);
    LeftMasked(p.sip, p.mark, p.conditions, masks, eff, s, t, probe, build, RowsOf(db, p.probe), RowsOf(db, p.build));
  }

  lemma OuterSidesMasked(db: Database, f: Loosening, p: Plan, masks: Masks, keyMasks: Masks, probe: Rows, build: Rows)
    requires p.HashJoin? && Passable(db, p) && NodeMasks(masks) && SidesGood(db, p, probe, build)
    requires AgreeUnder(masks, probe, RowsOf(db, p.probe)) && AgreeUnder(keyMasks, build, RowsOf(db, p.build))
    requires forall n | n in keyMasks ::
               (n, n) in p.conditions && n in BuildMasks(p.sip, masks, probe) && keyMasks[n] == BuildMasks(p.sip, masks, probe)[n]
    ensures SidesJoined(db, p, masks, probe, build)
  {
    hide AgreeUnder, RowsOf, WellFormed, BuildMasks;
    var s, t := Schema(p.probe), Schema(p.build);
    OuterMasked(p.sip, p.joinType, p.mark, p.conditions, masks, keyMasks, s, t, probe, build, RowsOf(db, p.probe), RowsOf(db, p.build));
  }

  /** The join of the masked sides agrees with the join of the sides. */
  ghost predicate SidesJoined(db: Database, p: Plan, masks: Masks, probe: Rows, build: Rows)
    requires p.HashJoin?
  {
    && GoodRows(db, Schema(p.probe), probe) && GoodRows(db, Schema(p.build), build)
    && var missing := Schema(p.build) - Schema(p.probe);
    AgreeUnder(masks, Join(p.joinType, p.mark, p.conditions, missing, probe, build),
               Join(p.joinType, p.mark, p.conditions, missing, RowsOf(db, p.probe), RowsOf(db, p.build)))
  }

  lemma JoinedSidesMasked(db: Database, f: Loosening, p: Plan, masks: Masks)
    requires p.HashJoin? && WellFormed(db, p)
    requires SidesJoined(db, p, masks, MaskedSides(db, f, p, masks).0, MaskedSides(db, f, p, masks).1)
    ensures Masked(db, f, p, masks)
  {
    hide AgreeUnder, Join, MaskedSides;
    var sides := MaskedSides(db, f, p, masks);
    JoinGood(db, p.joinType, p.mark, p.conditions, Schema(p.probe), sides.0, Schema(p.build), sides.1);
  }

  /** Sideways information passing leaves the rows of a plan as they are, for whatever the masks let through
      beyond the keys. */
  lemma SipCorrect(db: Database, f: Loosening, p: Plan)
    requires Sound(f) && Passable(db, p)
    ensures MaskedRows(db, f, p, map[]) == RowsOf(db, p)
  {
    MaskedCorrect(db, f, p, map[]);
    NoMasks(MaskedRows(db, f, p, map[]), RowsOf(db, p));
  }
}
