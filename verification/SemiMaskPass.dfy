/**
 The pass that chooses the masks: which plans it leaves with the same rows.
 */
module SemiMaskPass {
  import opened Plans
  import opened PlanFacts
  import opened FilterPushDownProof
  import opened SemiMask
  import opened SemiMaskProof

  /** What the pass looks at when it chooses masks. */
  ghost predicate SameTargets(db: Database, p: Plan, q: Plan) {
    && Schema(p) == Schema(q) && IsAccumulate(p) == IsAccumulate(q) && Selective(p) == Selective(q)
    && (forall n :: HasScan(p, n) == HasScan(q, n))
    && (forall n :: Transparent(db, p, n) == Transparent(db, q, n))
  }

  /** What the pass never changes: everything but the choice of masks. */
  ghost predicate SamePlan(db: Database, p: Plan, q: Plan) {
    RowsOf(db, p) == RowsOf(db, q) && SameTargets(db, p, q)
  }

  lemma CrossTargets(db: Database, acc: Accumulate, l: Plan, r: Plan, l': Plan, r': Plan)
    requires SameTargets(db, l', l) && SameTargets(db, r', r)
    ensures SameTargets(db, CrossProduct(acc, l', r'), CrossProduct(acc, l, r))
  {
    var p, p' := CrossProduct(acc, l, r), CrossProduct(acc, l', r');
    forall n
      ensures HasScan(p', n) == HasScan(p, n) && Transparent(db, p', n) == Transparent(db, p, n)
    {
      assert HasScan(l', n) == HasScan(l, n) && HasScan(r', n) == HasScan(r, n);
      assert Transparent(db, l', n) == Transparent(db, l, n) && Transparent(db, r', n) == Transparent(db, r, n);
    }
  }

  lemma JoinTargets(db: Database, p: Plan, sip: Sip, l': Plan, r': Plan)
    requires p.HashJoin? && SameTargets(db, l', p.probe) && SameTargets(db, r', p.build)
    ensures SameTargets(db, HashJoin(p.conditions, p.joinType, p.mark, sip, l', r'), p)
  {
    var p' := HashJoin(p.conditions, p.joinType, p.mark, sip, l', r');
    forall n
      ensures HasScan(p', n) == HasScan(p, n) && Transparent(db, p', n) == Transparent(db, p, n)
    {
      assert HasScan(l', n) == HasScan(p.probe, n) && HasScan(r', n) == HasScan(p.build, n);
      assert Transparent(db, l', n) == Transparent(db, p.probe, n) && Transparent(db, r', n) == Transparent(db, p.build, n);
    }
  }

  lemma FilterTargets(db: Database, e: Expr, c: Plan, c': Plan)
    requires SameTargets(db, c', c)
    ensures SameTargets(db, Filter(e, c'), Filter(e, c))
  {
    forall n
      ensures HasScan(Filter(e, c'), n) == HasScan(Filter(e, c), n) && Transparent(db, Filter(e, c'), n) == Transparent(db, Filter(e, c), n)
    {
      assert HasScan(c', n) == HasScan(c, n) && Transparent(db, c', n) == Transparent(db, c, n);
    }
  }

  lemma ExtendTargets(db: Database, p: Plan, c': Plan)
    requires p.Extend? && SameTargets(db, c', p.child)
    ensures SameTargets(db, Extend(p.id, p.bound, p.added, c'), p)
  {
    var p' := Extend(p.id, p.bound, p.added, c');
    forall n
      ensures HasScan(p', n) == HasScan(p, n) && Transparent(db, p', n) == Transparent(db, p, n)
    {
      assert HasScan(c', n) == HasScan(p.child, n) && Transparent(db, c', n) == Transparent(db, p.child, n);
    }
  }

  lemma OtherTargets(db: Database, id: nat, s: Scope, children: seq<Plan>, children': seq<Plan>)
    requires |children'| == |children| && forall i | 0 <= i < |children| :: SameTargets(db, children'[i], children[i])
    ensures SameTargets(db, Other(id, s, children'), Other(id, s, children))
  {
    hide OperatorTyped, Respects;
    var p, p' := Other(id, s, children), Other(id, s, children');
    assert forall i | 0 <= i < |children| :: Selective(children'[i]) == Selective(children[i]);
    assert Schemas(children') == Schemas(children);
    forall n
      ensures HasScan(p', n) == HasScan(p, n) && Transparent(db, p', n) == Transparent(db, p, n)
    {
      OtherTarget(db, id, s, children, children', n);
    }
  }

  lemma OtherTarget(db: Database, id: nat, s: Scope, children: seq<Plan>, children': seq<Plan>, n: Expr)
    requires |children'| == |children| && Schemas(children') == Schemas(children)
    requires forall i | 0 <= i < |children| :: SameTargets(db, children'[i], children[i])
    ensures HasScan(Other(id, s, children'), n) == HasScan(Other(id, s, children), n)
    ensures Transparent(db, Other(id, s, children'), n) == Transparent(db, Other(id, s, children), n)
  {
    hide OperatorTyped, Respects;
    forall i | 0 <= i < |children|
      ensures HasScan(children'[i], n) == HasScan(children[i], n) && Transparent(db, children'[i], n) == Transparent(db, children[i], n)
    {
      assert SameTargets(db, children'[i], children[i]);
    }
    hide SameTargets;
  }

  lemma {:induction false} PassSame(db: Database, p: Plan)
    ensures SamePlan(db, PassMasks(p), p)
    decreases p, 1
  {
    match p
    case Filter(e, c) =>
      PassSame(db, c);
      FilterTargets(db, e, c, PassMasks(c));
      hide SameTargets;
    case Extend(_, _, _, c) =>
      PassSame(db, c);
      ExtendTargets(db, p, PassMasks(c));
      hide SameTargets;
    case CrossProduct(acc, l, r) =>
      PassSame(db, l);
      PassSame(db, r);
      CrossTargets(db, acc, l, r, PassMasks(l), PassMasks(r));
      hide SameTargets;
    case HashJoin(_, _, _, _, l, r) =>
      PassSame(db, l);
      PassSame(db, r);
      JoinTargets(db, p, PassMasks(p).sip, PassMasks(l), PassMasks(r));
      hide SameTargets;
    case Other(id, s, children) =>
      PassSameAll(db, children);
      OtherTargets(db, id, s, children, PassMasksAll(children));
      hide SameTargets;
    case _ =>
  }

  lemma {:induction false} PassSameAll(db: Database, ps: seq<Plan>)
    ensures RowsOfAll(db, PassMasksAll(ps)) == RowsOfAll(db, ps)
    ensures forall i | 0 <= i < |ps| :: PassMasksAll(ps)[i] == PassMasks(ps[i]) && SamePlan(db, PassMasks(ps[i]), ps[i])
    decreases ps, 0
  {
    if ps != [] {
      PassSame(db, ps[0]);
      PassSameAll(db, ps[1..]);
      forall i | 0 <= i < |ps|
        ensures PassMasksAll(ps)[i] == PassMasks(ps[i]) && SamePlan(db, PassMasks(ps[i]), ps[i])
      {
        if i > 0 {
          assert ps[i] == ps[1..][i - 1];
        }
      }
    }
  }

  /** A plan that may be passed masks, whatever they are. */
  ghost predicate Scoped(db: Database, p: Plan) {
    WellFormed(db, p) && NodesScoped(p)
  }

  lemma CrossScoped(db: Database, p: Plan, l': Plan, r': Plan)
    requires p.CrossProduct? && Scoped(db, p) && Scoped(db, l') && Scoped(db, r')
    requires Schema(l') == Schema(p.probe) && Schema(r') == Schema(p.build)
    ensures Scoped(db, CrossProduct(p.accumulate, l', r'))
  {
  }

  lemma JoinScoped(db: Database, p: Plan, sip: Sip, l': Plan, r': Plan)
    requires p.HashJoin? && Scoped(db, p) && Scoped(db, l') && Scoped(db, r')
    requires Schema(l') == Schema(p.probe) && Schema(r') == Schema(p.build)
    ensures Scoped(db, HashJoin(p.conditions, p.joinType, p.mark, sip, l', r'))
  {
  }

  lemma ExtendScoped(db: Database, p: Plan, c': Plan)
    requires p.Extend? && Scoped(db, p) && Scoped(db, c') && Schema(c') == Schema(p.child)
    ensures Scoped(db, Extend(p.id, p.bound, p.added, c'))
  {
  }

  lemma {:induction false} PassPassable(db: Database, p: Plan)
    requires Scoped(db, p)
    ensures Scoped(db, PassMasks(p))
    decreases p, 1
  {
    match p
    case Filter(_, c) =>
      PassPassable(db, c);
      PassSame(db, c);
    case Extend(_, _, _, c) =>
      PassPassable(db, c);
      PassSame(db, c);
      ExtendScoped(db, p, PassMasks(c));
    case CrossProduct(_, l, r) =>
      PassPassable(db, l);
      PassPassable(db, r);
      PassSame(db, l);
      PassSame(db, r);
      CrossScoped(db, p, PassMasks(l), PassMasks(r));
    case HashJoin(_, _, _, _, l, r) =>
      PassPassable(db, l);
      PassPassable(db, r);
      PassSame(db, l);
      PassSame(db, r);
      JoinScoped(db, p, PassMasks(p).sip, PassMasks(l), PassMasks(r));
    case Other(_, _, children) =>
      PassSame(db, p);
      PassSameAll(db, children);
      forall i | 0 <= i < |children|
        ensures Scoped(db, PassMasks(children[i]))
      {
        PassPassable(db, children[i]);
      }
    case _ =>
  }

  // ----- safe choices -----

  /** The planner leaves the choice open, and the masks the pass would choose are on keys of both sides and may reach
      their scans. */
  ghost predicate ChoicesSafe(db: Database, p: Plan) {
    match p
    case Filter(_, c) => ChoicesSafe(db, c)
    case Extend(_, _, _, c) => ChoicesSafe(db, c)
    case CrossProduct(_, l, r) => ChoicesSafe(db, l) && ChoicesSafe(db, r)
    case HashJoin(conds, jt, _, sip, l, r) =>
      && ChoicesSafe(db, l) && ChoicesSafe(db, r)
      && !sip.BuildToProbe? && !sip.ProbeToBuild?
      && var chosen := ChooseSip(conds, jt, sip, l, r);
      && (chosen.BuildToProbe? ==> forall n | n in chosen.nodeIDs :: (n, n) in conds && Transparent(db, l, n))
      && (chosen.ProbeToBuild? ==> forall n | n in chosen.nodeIDs :: (n, n) in conds && Transparent(db, r, n))
    case Other(_, _, children) => forall i | 0 <= i < |children| :: ChoicesSafe(db, children[i])
    case _ => true
  }

  lemma {:induction false} MaskedNodesAreNodes(conds: seq<JoinCondition>, to: Plan, n: Expr)
    requires n in MaskedNodes(conds, to)
    ensures IsNodeID(n) && HasScan(to, n)
    decreases |conds|
  {
    var front, last := conds[..|conds| - 1], conds[|conds| - 1];
    assert conds == front + [last];
    if n in MaskedNodes(front, to) {
      MaskedNodesAreNodes(front, to, n);
    }
  }

  lemma {:induction false} MaskedNodesSame(conds: seq<JoinCondition>, to: Plan, to': Plan)
    requires forall n :: HasScan(to, n) == HasScan(to', n)
    ensures MaskedNodes(conds, to) == MaskedNodes(conds, to')
    decreases |conds|
  {
    if conds != [] {
      MaskedNodesSame(conds[..|conds| - 1], to, to');
    }
  }

  lemma TargetFacts(db: Database, conds: seq<JoinCondition>, p: Plan, p': Plan)
    requires SameTargets(db, p', p)
    ensures IsAccumulate(p') == IsAccumulate(p) && Selective(p') == Selective(p) && MaskedNodes(conds, p') == MaskedNodes(conds, p)
    ensures forall n :: Transparent(db, p', n) == Transparent(db, p, n)
  {
    assert forall n :: HasScan(p', n) == HasScan(p, n);
    hide Transparent, HasScan, Selective;
    MaskedNodesSame(conds, p', p);
  }

  lemma ChosenSame(db: Database, conds: seq<JoinCondition>, jt: JoinType, sip: Sip, l: Plan, r: Plan, l': Plan, r': Plan)
    requires SameTargets(db, l', l) && SameTargets(db, r', r)
    ensures ChooseSip(conds, jt, sip, l', r') == ChooseSip(conds, jt, sip, l, r)
    ensures forall n :: Transparent(db, l', n) == Transparent(db, l, n) && Transparent(db, r', n) == Transparent(db, r, n)
  {
    hide SameTargets, Transparent, HasScan, MaskedNodes, Selective, IsAccumulate;
    TargetFacts(db, conds, l, l');
    TargetFacts(db, conds, r, r');
  }

  lemma ChosenNodes(conds: seq<JoinCondition>, jt: JoinType, sip: Sip, l: Plan, r: Plan)
    requires !sip.BuildToProbe? && !sip.ProbeToBuild?
    ensures var chosen := ChooseSip(conds, jt, sip, l, r);
            && (chosen.BuildToProbe? ==> jt.Inner?)
            && (chosen.BuildToProbe? || chosen.ProbeToBuild? ==> forall n | n in chosen.nodeIDs :: IsNodeID(n))
  {
    hide MaskedNodes, Selective;
    var chosen := ChooseSip(conds, jt, sip, l, r);
    if chosen.BuildToProbe? || chosen.ProbeToBuild? {
      forall n | n in chosen.nodeIDs
        ensures IsNodeID(n)
      {
        MaskedNodesAreNodes(conds, if chosen.BuildToProbe? then l else r, n);
      }
    }
  }

  /** A join that passes what the pass chooses is safe when the masks may reach their scans. */
  lemma ChosenSafe(db: Database, conds: seq<JoinCondition>, jt: JoinType, mark: Option<Expr>, sip: Sip, l: Plan, r: Plan, l': Plan, r': Plan)
    requires ChoicesSafe(db, HashJoin(conds, jt, mark, sip, l, r)) && SipSafe(db, l') && SipSafe(db, r') && SameTargets(db, l', l) && SameTargets(db, r', r)
    ensures SipSafe(db, HashJoin(conds, jt, mark, ChooseSip(conds, jt, sip, l', r'), l', r'))
  {
    hide Transparent, ChooseSip, SameTargets;
    ChosenSame(db, conds, jt, sip, l, r, l', r');
    ChosenNodes(conds, jt, sip, l, r);
  }

  lemma {:induction false} PassSafe(db: Database, p: Plan)
    requires ChoicesSafe(db, p)
    ensures SipSafe(db, PassMasks(p))
    decreases p, 1
  {
    match p
    case Filter(_, c) => PassSafe(db, c);
    case Extend(_, _, _, c) => PassSafe(db, c);
    case CrossProduct(_, l, r) =>
      PassSafe(db, l);
      PassSafe(db, r);
    case HashJoin(conds, jt, mark, sip, l, r) =>
      PassSafe(db, l);
      PassSafe(db, r);
      PassSame(db, l);
      PassSame(db, r);
      hide SameTargets, ChooseSip, RowsOf;
      ChosenSafe(db, conds, jt, mark, sip, l, r, PassMasks(l), PassMasks(r));
    case Other(_, _, children) =>
      PassSameAll(db, children);
      forall i | 0 <= i < |children|
        ensures SipSafe(db, PassMasks(children[i]))
      {
        PassSafe(db, children[i]);
      }
    case _ =>
  }

  /** The pass preserves meaning: a plan run with the masks it chose returns the rows of the plan. */
  lemma PassCorrect(db: Database, f: Loosening, p: Plan)
    requires Sound(f) && WellFormed(db, p) && NodesScoped(p) && ChoicesSafe(db, p)
    ensures MaskedRows(db, f, PassMasks(p), map[]) == RowsOf(db, p)
  {
    PassSame(db, p);
    PassPassable(db, p);
    PassSafe(db, p);
    SipCorrect(db, f, PassMasks(p));
  }

  // ----- plans without opaque operators -----

  /** Scans, filters, extends, inner and left joins and cross products. */
  ghost predicate Plain(p: Plan) {
    match p
    case Scan(_, _, _) => true
    case PrimaryKeyScan(_, _, _, _) => true
    case Filter(_, c) => Plain(c)
    case Extend(_, _, _, c) => Plain(c)
    case CrossProduct(_, l, r) => Plain(l) && Plain(r)
    case HashJoin(_, jt, _, _, l, r) => (jt.Inner? || jt.Left?) && Plain(l) && Plain(r)
    case _ => false
  }

  lemma {:induction false} ScannedInSchema(p: Plan, n: Expr)
    requires Plain(p) && HasScan(p, n)
    ensures n in Schema(p)
    decreases p
  {
    match p
    case Filter(_, c) => ScannedInSchema(c, n);
    case Extend(_, _, _, c) => ScannedInSchema(c, n);
    case CrossProduct(_, l, r) => ScannedInSchema(if HasScan(l, n) then l else r, n);
    case HashJoin(_, _, _, _, l, r) => ScannedInSchema(if HasScan(l, n) then l else r, n);
    case _ =>
  }

  lemma {:induction false} PlainTransparent(db: Database, p: Plan, n: Expr)
    requires Plain(p)
    ensures Transparent(db, p, n)
    decreases p
  {
    match p
    case Filter(_, c) => PlainTransparent(db, c, n);
    case Extend(_, _, _, c) => PlainTransparent(db, c, n);
    case CrossProduct(_, l, r) =>
      PlainTransparent(db, l, n);
      PlainTransparent(db, r, n);
      if HasScan(r, n) {
        ScannedInSchema(r, n);
      }
    case HashJoin(_, _, _, _, l, r) =>
      PlainTransparent(db, l, n);
      PlainTransparent(db, r, n);
      if HasScan(r, n) {
        ScannedInSchema(r, n);
      }
    case _ =>
  }

  /** The masked nodes are keys of both sides. */
  ghost predicate KeysAreShared(conds: seq<JoinCondition>, to: Plan) {
    forall n | n in MaskedNodes(conds, to) :: (n, n) in conds
  }

  /** A join of any type over plain sides keeps its rows, whichever way the pass sends the masks. */
  lemma PlainJoin(db: Database, f: Loosening, p: Plan)
    requires Sound(f) && p.HashJoin? && WellFormed(db, p) && NodesScoped(p)
    requires Plain(p.probe) && Plain(p.build) && ChoicesSafe(db, p.probe) && ChoicesSafe(db, p.build)
    requires !p.sip.BuildToProbe? && !p.sip.ProbeToBuild?
    requires p.sip.Prohibit? || (KeysAreShared(p.conditions, p.probe) && KeysAreShared(p.conditions, p.build))
    ensures MaskedRows(db, f, PassMasks(p), map[]) == RowsOf(db, p)
  {
    forall n
      ensures Transparent(db, p.probe, n) && Transparent(db, p.build, n)
    {
      PlainTransparent(db, p.probe, n);
      PlainTransparent(db, p.build, n);
    }
    PassCorrect(db, f, p);
  }

  // ----- where masks do harm -----

  const LIMIT: nat := 1

  /** The row of a node of which only the ID is read. */
  function NodeOnly(n: Expr, i: int): Row {
    map[n := Datum(i)]
  }

  function ExampleNode(i: int): Node {
    Node(Datum(i), map["id" := Datum(i)])
  }

  /** Nodes 1 and 2 in every table; a function that is true of 2; a limit that returns the first row of its input. */
  function ExampleDatabase(): Database {
    Database(_ => Null, v => v, (_, args) => Bool(args == [Datum(2)]), _ => [ExampleNode(1), ExampleNode(2)], _ => "id", (_, _) => [],
             (_, inputs) => if |inputs| == 1 && inputs[0] != [] then [inputs[0][0]] else [])
  }

  function ExampleLimit(v: string): Plan {
    Other(LIMIT, {NodeID(v)}, [Scan(v, [0], [])])
  }

  function ExampleFilter(v: string): Plan {
    Filter(Function("is_two", [NodeID(v)]), Scan(v, [0], []))
  }

  /** The first node, joined with the nodes that are 2. */
  function ExampleJoin(v: string, sip: Sip): Plan {
    HashJoin([(NodeID(v), NodeID(v))], Inner, None, sip, ExampleLimit(v), ExampleFilter(v))
  }

  lemma SelectTwo(keep: Row -> bool, a: Row, b: Row)
    ensures Select(keep, [a, b]) == (if keep(a) then [a] else []) + (if keep(b) then [b] else [])
    ensures Select(keep, [b]) == if keep(b) then [b] else []
  {
    assert [a, b][1..] == [b] && [b][1..] == [];
    assert Select(keep, [b]) == if keep(b) then [b] else [];
  }

  lemma ExampleScan(v: string)
    ensures NodeRows(v, [], TableNodes(ExampleDatabase(), [0])) == [NodeOnly(NodeID(v), 1), NodeOnly(NodeID(v), 2)]
  {
    var nodes := [ExampleNode(1), ExampleNode(2)];
    assert TableNodes(ExampleDatabase(), [0]) == nodes;
    assert nodes[1..] == [nodes[1]] && nodes[1..][1..] == [];
    assert NodeRow(v, [], nodes[0]) == NodeOnly(NodeID(v), 1) && NodeRow(v, [], nodes[1]) == NodeOnly(NodeID(v), 2);
    assert NodeRows(v, [], nodes[1..]) == [NodeOnly(NodeID(v), 2)];
  }

  lemma ExampleMaskedScan(f: Loosening, v: string, masks: Masks)
    requires f == ((_, s) => s)
    requires masks == map[] || masks == map[NodeID(v) := {Datum(2)}]
    ensures MaskedRows(ExampleDatabase(), f, Scan(v, [0], []), masks) ==
            if masks == map[] then [NodeOnly(NodeID(v), 1), NodeOnly(NodeID(v), 2)] else [NodeOnly(NodeID(v), 2)]
  {
    var n := NodeID(v);
    ExampleScan(v);
    SelectTwo(r => n in masks && n in r ==> r[n] in f(n, masks[n]), NodeOnly(n, 1), NodeOnly(n, 2));
    assert [NodeOnly(n, 1)] + [NodeOnly(n, 2)] == [NodeOnly(n, 1), NodeOnly(n, 2)];
    assert [] + [NodeOnly(n, 2)] == [NodeOnly(n, 2)];
  }

  lemma ExampleFilterRows(v: string)
    ensures var n := NodeID(v);
            FilterRows(ExampleDatabase(), [Function("is_two", [n])], [NodeOnly(n, 1), NodeOnly(n, 2)]) == [NodeOnly(n, 2)]
  {
    var db, n := ExampleDatabase(), NodeID(v);
    var e, args := Function("is_two", [n]), [n];
    forall i
      ensures Keeps(db, [e])(NodeOnly(n, i)) == (i == 2)
    {
      KeepsOne(db, e, NodeOnly(n, i));
      assert seq(|args|, k requires 0 <= k < |args| => Eval(db, args[k], NodeOnly(n, i))) == [Datum(i)];
    }
    SelectTwo(Keeps(db, [e]), NodeOnly(n, 1), NodeOnly(n, 2));
  }

  lemma ExampleJoinRows(n: Expr, i: int)
    ensures Join(Inner, None, [(n, n)], {}, [NodeOnly(n, i)], [NodeOnly(n, 2)]) == if i == 2 then [NodeOnly(n, 2)] else []
  {
    var a, b, conds := NodeOnly(n, i), NodeOnly(n, 2), [(n, n)];
    assert conds[0] == (n, n);
    assert Matches(conds, a, b) <==> i == 2;
    SelectTwo(x => Matches(conds, a, x), a, b);
    assert [a][1..] == [];
    assert a + b == b;
    if i == 2 {
      assert Paired(a, [b]) == [b] by {
        assert [b][1..] == [];
      }
    }
  }

  /** The two sides without masks, and the probe side with the mask of the build side. */
  lemma ExampleSides(f: Loosening, v: string)
    requires f == ((_, s) => s)
    ensures var db, n := ExampleDatabase(), NodeID(v);
            && RowsOf(db, ExampleLimit(v)) == [NodeOnly(n, 1)]
            && RowsOf(db, ExampleFilter(v)) == [NodeOnly(n, 2)]
            && MaskedRows(db, f, ExampleFilter(v), map[]) == [NodeOnly(n, 2)]
            && MaskedRows(db, f, ExampleLimit(v), map[n := {Datum(2)}]) == [NodeOnly(n, 2)]
  {
    hide Select, FilterRows, TableNodes, NodeRows;
    var db, n, scan := ExampleDatabase(), NodeID(v), Scan(v, [0], []);
    var m: Masks := map[n := {Datum(2)}];
    ExampleScan(v);
    ExampleFilterRows(v);
    ExampleMaskedScan(f, v, map[]);
    ExampleMaskedScan(f, v, m);
    assert [scan][1..] == [];
    assert RowsOfAll(db, [scan]) == [[NodeOnly(n, 1), NodeOnly(n, 2)]];
    assert MaskedRowsOfAll(db, f, [scan], m) == [[NodeOnly(n, 2)]];
  }

  lemma ExamplePass(v: string)
    ensures PassMasks(ExampleJoin(v, Free)) == ExampleJoin(v, BuildToProbe([NodeID(v)]))
  {
    var n, scan, conds := NodeID(v), Scan(v, [0], []), [(NodeID(v), NodeID(v))];
    assert PassMasksAll([scan]) == [scan];
    assert HasScan(ExampleLimit(v), n) by {
      assert HasScan([scan][0], n);
    }
    assert MaskedNodes(conds, ExampleLimit(v)) == [n] by {
      assert conds[..0] == [];
    }
  }

  lemma ExampleNarrow(n: Expr)
    ensures Narrow(map[], [n], [NodeOnly(n, 2)]) == map[n := {Datum(2)}]
  {
    assert [n][0] == n && NodeOnly(n, 2) in [NodeOnly(n, 2)];
    assert KeysOf([NodeOnly(n, 2)], n) == {Datum(2)};
  }

  /** A limit between the scan and the join: masked, it is another node that comes first. */
  lemma LimitCounterexample(f: Loosening, v: string)
    requires f == ((_, s) => s)
    ensures WellFormed(ExampleDatabase(), ExampleJoin(v, Free)) && NodesScoped(ExampleJoin(v, Free))
    ensures RowsOf(ExampleDatabase(), ExampleJoin(v, Free)) == []
    ensures MaskedRows(ExampleDatabase(), f, PassMasks(ExampleJoin(v, Free)), map[]) == [NodeOnly(NodeID(v), 2)]
  {
    ExampleWellFormed(v);
    hide Join, ExampleLimit, ExampleFilter, PassMasks, Narrow, NodeOnly, WellFormed, NodesScoped;
    var n := NodeID(v);
    ExampleSides(f, v);
    ExamplePass(v);
    ExampleNarrow(n);
    ExampleJoinRows(n, 1);
    ExampleJoinRows(n, 2);
    ExampleSchemas(v);
  }

  lemma ExampleSchemas(v: string)
    ensures Schema(ExampleFilter(v)) - Schema(ExampleLimit(v)) == {}
  {
  }

  lemma ExampleWellFormed(v: string)
    ensures WellFormed(ExampleDatabase(), ExampleJoin(v, Free)) && NodesScoped(ExampleJoin(v, Free))
  {
    hide RowsOf, MaskedRows, ExampleDatabase;
    var db, n, scan := ExampleDatabase(), NodeID(v), Scan(v, [0], []);
    ExampleScanWellFormed(v);
    assert Evaluable(Schema(scan), Function("is_two", [n])) by {
      assert [n][0] == n;
    }
    ExampleLimitGood(v);
    assert NodesScoped(scan) && NodesScoped(ExampleFilter(v)) && NodesScoped(ExampleLimit(v));
    assert (n, n) in [(n, n)] && Schema(ExampleLimit(v)) == {n};
  }

  lemma ExampleScanWellFormed(v: string)
    ensures WellFormed(ExampleDatabase(), Scan(v, [0], []))
  {
    var nodes := [ExampleNode(1), ExampleNode(2)];
    assert nodes[0].properties["id"] != nodes[1].properties["id"];
  }

  lemma ExampleLimitGood(v: string)
    ensures WellFormed(ExampleDatabase(), ExampleLimit(v))
  {
    hide Select, FilterRows, TableNodes, NodeRows, MaskedRows;
    ExampleScanWellFormed(v);
    ExampleSides((_, s) => s, v);
    var r := NodeOnly(NodeID(v), 1);
    assert r.Keys == {NodeID(v)} && Coherent(ExampleDatabase(), r);
  }
}
