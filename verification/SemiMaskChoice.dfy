/**
 Which joins pass a mask, which way, and for which nodes.
 */
module SemiMaskChoice {
  import opened Plans
  import opened SemiMask

  /** `q` is `p` or an operator below it. */
  predicate Within(q: Plan, p: Plan)
    decreases p
  {
    q == p ||
    match p
    case Filter(_, c) => Within(q, c)
    case CrossProduct(_, l, r) => Within(q, l) || Within(q, r)
    case HashJoin(_, _, _, _, l, r) => Within(q, l) || Within(q, r)
    case Extend(_, _, _, c) => Within(q, c)
    case Other(_, _, children) => exists i | 0 <= i < |children| :: Within(q, children[i])
    case _ => false
  }

  /** A filter or a scan by primary key. */
  predicate Restricts(q: Plan) {
    q.Filter? || q.PrimaryKeyScan?
  }

  predicate Scans(q: Plan, n: Expr) {
    q.Scan? && NodeID(q.variable) == n
  }

  ghost predicate SomeRestricts(p: Plan) {
    exists q :: Within(q, p) && Restricts(q)
  }

  ghost predicate SomeScans(p: Plan, n: Expr) {
    exists q :: Within(q, p) && Scans(q, n)
  }

  /** What is below a child is below the operator. */
  lemma RestrictsBelow(p: Plan, c: Plan)
    requires forall q | Within(q, c) :: Within(q, p)
    ensures SomeRestricts(c) ==> SomeRestricts(p)
  {
  }

  lemma ScansBelow(p: Plan, c: Plan, n: Expr)
    requires forall q | Within(q, c) :: Within(q, p)
    ensures SomeScans(c, n) ==> SomeScans(p, n)
  {
  }

  /** A side is selective exactly when a filter or a scan by primary key is in it. */
  lemma {:induction false} SelectiveExact(p: Plan)
    ensures Selective(p) <==> SomeRestricts(p)
    decreases p
  {
    match p
    case CrossProduct(_, l, r) =>
      SelectiveExact(l);
      SelectiveExact(r);
      RestrictsBelow(p, l);
      RestrictsBelow(p, r);
    case HashJoin(_, _, _, _, l, r) =>
      SelectiveExact(l);
      SelectiveExact(r);
      RestrictsBelow(p, l);
      RestrictsBelow(p, r);
    case Extend(_, _, _, c) =>
      SelectiveExact(c);
      RestrictsBelow(p, c);
    case Other(_, _, children) =>
      forall i | 0 <= i < |children|
        ensures Selective(children[i]) <==> SomeRestricts(children[i])
        ensures SomeRestricts(children[i]) ==> SomeRestricts(p)
      {
        SelectiveExact(children[i]);
        RestrictsBelow(p, children[i]);
      }
    case _ =>
      assert Within(p, p);
  }

  /** A node is scanned on a side exactly when a scan of it, not by primary key, is in it. */
  lemma {:induction false} HasScanExact(p: Plan, n: Expr)
    ensures HasScan(p, n) <==> SomeScans(p, n)
    decreases p
  {
    match p
    case Filter(_, c) =>
      HasScanExact(c, n);
      ScansBelow(p, c, n);
    case CrossProduct(_, l, r) =>
      HasScanExact(l, n);
      HasScanExact(r, n);
      ScansBelow(p, l, n);
      ScansBelow(p, r, n);
    case HashJoin(_, _, _, _, l, r) =>
      HasScanExact(l, n);
      HasScanExact(r, n);
      ScansBelow(p, l, n);
      ScansBelow(p, r, n);
    case Extend(_, _, _, c) =>
      HasScanExact(c, n);
      ScansBelow(p, c, n);
    case Other(_, _, children) =>
      forall i | 0 <= i < |children|
        ensures HasScan(children[i], n) <==> SomeScans(children[i], n)
        ensures SomeScans(children[i], n) ==> SomeScans(p, n)
      {
        HasScanExact(children[i], n);
        ScansBelow(p, children[i], n);
      }
    case _ =>
      assert Within(p, p);
  }

  /** A node that the join compares by its ID and the side scans. */
  ghost predicate Maskable(conds: seq<JoinCondition>, to: Plan, n: Expr) {
    && (exists i | 0 <= i < |conds| :: conds[i].0 == n)
    && n.Property? && n.name == "_ID" && SomeScans(to, n)
  }

  lemma {:induction false} MaskedNodesExact(conds: seq<JoinCondition>, to: Plan, n: Expr)
    ensures n in MaskedNodes(conds, to) <==> Maskable(conds, to, n)
    decreases |conds|
  {
    HasScanExact(to, n);
    if conds != [] {
      var k := |conds| - 1;
      MaskedNodesExact(conds[..k], to, n);
      assert conds == conds[..k] + [conds[k]];
    }
  }

  /** A mask can be passed to the side. */
  ghost predicate SomeMaskable(conds: seq<JoinCondition>, to: Plan) {
    exists n :: Maskable(conds, to, n)
  }

  lemma NoneMaskable(conds: seq<JoinCondition>, to: Plan)
    ensures MaskedNodes(conds, to) != [] <==> SomeMaskable(conds, to)
  {
    hide Maskable;
    var ns := MaskedNodes(conds, to);
    if ns != [] {
      MaskedNodesExact(conds, to, ns[0]);
    }
    if SomeMaskable(conds, to) {
      var n :| Maskable(conds, to, n);
      MaskedNodesExact(conds, to, n);
    }
  }

  /** What allows a mask from the build side, and else one from the probe side. */
  ghost predicate BuildPasses(conds: seq<JoinCondition>, jt: JoinType, sip: Sip, l: Plan, r: Plan) {
    && !IsAccumulate(l) && !sip.Prohibit? && jt.Inner? && SomeMaskable(conds, l)
    && (sip.ForceBuildToProbe? || SomeRestricts(r))
  }

  ghost predicate ProbePasses(conds: seq<JoinCondition>, sip: Sip, l: Plan, r: Plan) {
    && !IsAccumulate(l) && !sip.Prohibit? && !sip.ProhibitProbeToBuild? && SomeMaskable(conds, r)
    && SomeRestricts(l)
  }

  /** The choice for a join, either side: when a mask is passed, that the build side comes first, that a prohibited
      direction is never taken, and that the nodes are all that can be masked. */
  lemma ChoiceExact(conds: seq<JoinCondition>, jt: JoinType, sip: Sip, l: Plan, r: Plan, n: Expr)
    ensures var choice := ChooseSip(conds, jt, sip, l, r);
            if BuildPasses(conds, jt, sip, l, r) then choice.BuildToProbe? && (n in choice.nodeIDs <==> Maskable(conds, l, n))
            else if ProbePasses(conds, sip, l, r) then choice.ProbeToBuild? && (n in choice.nodeIDs <==> Maskable(conds, r, n))
            else choice == sip
  {
    hide Maskable, SomeRestricts, MaskedNodes, Selective, SomeMaskable;
    NoneMaskable(conds, l);
    NoneMaskable(conds, r);
    SelectiveExact(l);
    SelectiveExact(r);
    MaskedNodesExact(conds, l, n);
    MaskedNodesExact(conds, r, n);
  }

  // ----- the pass -----

  /** The plan without its choices. */
  function Forget(p: Plan): Plan {
    match p
    case Filter(e, c) => Filter(e, Forget(c))
    case CrossProduct(acc, l, r) => CrossProduct(acc, Forget(l), Forget(r))
    case HashJoin(conds, jt, mark, _, l, r) => HashJoin(conds, jt, mark, Free, Forget(l), Forget(r))
    case Extend(id, bound, added, c) => Extend(id, bound, added, Forget(c))
    case Other(id, s, children) => Other(id, s, seq(|children|, i requires 0 <= i < |children| => Forget(children[i])))
    case _ => p
  }

  /** The choice for a join is made with its sides as they are in the plan, from some setting by the planner. */
  ghost predicate Chosen(q: Plan) {
    q.HashJoin? ==> exists sip :: q.sip == ChooseSip(q.conditions, q.joinType, sip, q.probe, q.build)
  }

  lemma {:induction false} PassAllAt(ps: seq<Plan>, i: nat)
    requires i < |ps|
    ensures PassMasksAll(ps)[i] == PassMasks(ps[i])
    decreases |ps|
  {
    if i > 0 {
      PassAllAt(ps[1..], i - 1);
    }
  }

  /** The pass visits every join of a plan and changes nothing but the choices. */
  lemma {:induction false} PassVisitsAll(p: Plan)
    ensures Forget(PassMasks(p)) == Forget(p)
    ensures forall q | Within(q, PassMasks(p)) :: Chosen(q)
    decreases p
  {
    hide ChooseSip, Chosen;
    match p
    case Filter(_, c) =>
      PassVisitsAll(c);
      NoJoin(PassMasks(p));
    case CrossProduct(_, l, r) =>
      PassVisitsAll(l);
      PassVisitsAll(r);
      NoJoin(PassMasks(p));
    case HashJoin(conds, jt, mark, sip, l, r) =>
      PassVisitsAll(l);
      PassVisitsAll(r);
      JoinChosen(conds, jt, mark, sip, PassMasks(l), PassMasks(r));
    case Extend(_, _, _, c) =>
      PassVisitsAll(c);
      NoJoin(PassMasks(p));
    case Other(id, s, children) =>
      var children' := PassMasksAll(children);
      forall i | 0 <= i < |children|
        ensures Forget(children'[i]) == Forget(children[i])
        ensures forall q | Within(q, children'[i]) :: Chosen(q)
      {
        PassAllAt(children, i);
        PassVisitsAll(children[i]);
      }
      NoJoin(PassMasks(p));
      assert Forget(PassMasks(p)).children == Forget(p).children;
    case _ => NoJoin(p);
  }

  lemma NoJoin(p: Plan)
    requires !p.HashJoin?
    ensures Chosen(p)
  {
  }

  lemma JoinChosen(conds: seq<JoinCondition>, jt: JoinType, mark: Option<Expr>, sip: Sip, l: Plan, r: Plan)
    ensures Chosen(HashJoin(conds, jt, mark, ChooseSip(conds, jt, sip, l, r), l, r))
  {
  }
}
