/**
 Sideways information passing between the two sides of a hash join.

 A semi mask holds the node IDs that one side of a join produced; every scan of that
 node on the other side skips the nodes that are not in it. The pass decides bottom
 up which joins pass masks and which way.
 */
module SemiMask {
  import opened Plans

  type Masks = map<Expr, set<Value>>

  /** What a scan tests instead of the mask meant for it. Masks of one table drop the table ID, what a null has left in
      the vector is taken for a key, and a mask set later replaces an earlier one, so it may let more nodes through,
      never fewer. */
  type Loosening = (Expr, set<Value>) -> set<Value>

  ghost predicate Sound(f: Loosening) {
    forall n, s :: s <= f(n, s)
  }

  /** The keys that a join can find. */
  function KeysOf(rows: Rows, n: Expr): set<Value> {
    set r: Row | r in rows && n in r && r[n] != Null :: r[n]
  }

  /** The masks with those of `ns` narrowed to the keys of `rows`. */
  function Narrow(masks: Masks, ns: seq<Expr>, rows: Rows): Masks {
    map n | n in masks.Keys + (set i | 0 <= i < |ns| :: ns[i]) ::
      if n !in ns then masks[n] else if n in masks then masks[n] * KeysOf(rows, n) else KeysOf(rows, n)
  }

  /** The rows of a plan whose scans are masked. */
  function MaskedRows(db: Database, f: Loosening, p: Plan, masks: Masks): Rows
    decreases p, 1
  {
    match p
    case Scan(v, tables, ps) =>
      var n := NodeID(v);
      Select(r => n in masks && n in r ==> r[n] in f(n, masks[n]), NodeRows(v, ps, TableNodes(db, tables)))
    case PrimaryKeyScan(_, _, _, _) => RowsOf(db, p)
    case Filter(e, c) => FilterRows(db, [e], MaskedRows(db, f, c, masks))
    case CrossProduct(acc, l, r) =>
      Product(MaskedRows(db, f, l, masks), Accumulated(acc, Schema(r), MaskedRows(db, f, r, masks)))
    case HashJoin(conds, jt, mark, _, l, r) =>
      var sides := MaskedSides(db, f, p, masks);
      Join(jt, mark, conds, Schema(r) - Schema(l), sides.0, sides.1)
    case Extend(id, bound, _, c) => ExtendRows(db, id, bound, MaskedRows(db, f, c, masks))
    case EmptyResult(_) => []
    case TableFunctionCall(id, _) => db.operator(id, [])
    case Other(id, _, children) => db.operator(id, MaskedRowsOfAll(db, f, children, masks))
  }

  function MaskedRowsOfAll(db: Database, f: Loosening, ps: seq<Plan>, masks: Masks): seq<Rows>
    decreases ps, 0
  {
    if ps == [] then [] else [MaskedRows(db, f, ps[0], masks)] + MaskedRowsOfAll(db, f, ps[1..], masks)
  }

  /** The two sides of a join; the one that passes a mask runs first. */
  function MaskedSides(db: Database, f: Loosening, p: Plan, masks: Masks): (Rows, Rows)
    requires p.HashJoin?
    decreases p, 0
  {
    match p.sip
    case BuildToProbe(ns) =>
      var b := MaskedRows(db, f, p.build, masks);
      (MaskedRows(db, f, p.probe, Narrow(masks, ns, b)), b)
    case ProbeToBuild(ns) =>
      var a := MaskedRows(db, f, p.probe, masks);
      (a, MaskedRows(db, f, p.build, Narrow(masks, ns, a)))
    case _ => (MaskedRows(db, f, p.probe, masks), MaskedRows(db, f, p.build, masks))
  }

  // ----- the pass -----

  /** The operator that materializes its input. */
  const ACCUMULATE: nat := 0

  predicate IsAccumulate(p: Plan) {
    p.Other? && p.id == ACCUMULATE
  }

  predicate IsNodeID(e: Expr) {
    e.Property? && e.name == "_ID"
  }

  /** `subPlanContainsFilter`. */
  predicate Selective(p: Plan) {
    match p
    case Scan(_, _, _) => false
    case PrimaryKeyScan(_, _, _, _) => true
    case Filter(_, _) => true
    case CrossProduct(_, l, r) => Selective(l) || Selective(r)
    case HashJoin(_, _, _, _, l, r) => Selective(l) || Selective(r)
    case Extend(_, _, _, c) => Selective(c)
    case EmptyResult(_) => false
    case TableFunctionCall(_, _) => false
    case Other(_, _, children) => exists i | 0 <= i < |children| :: Selective(children[i])
  }

  /** There is a scan of the node below; scans by primary key are never masked. */
  predicate HasScan(p: Plan, n: Expr) {
    match p
    case Scan(v, _, _) => NodeID(v) == n
    case PrimaryKeyScan(_, _, _, _) => false
    case Filter(_, c) => HasScan(c, n)
    case CrossProduct(_, l, r) => HasScan(l, n) || HasScan(r, n)
    case HashJoin(_, _, _, _, l, r) => HasScan(l, n) || HasScan(r, n)
    case Extend(_, _, _, c) => HasScan(c, n)
    case EmptyResult(_) => false
    case TableFunctionCall(_, _) => false
    case Other(_, _, children) => exists i | 0 <= i < |children| :: HasScan(children[i], n)
  }

  /** The node IDs among the probe keys that are scanned on the side `to`. */
  function MaskedNodes(conds: seq<JoinCondition>, to: Plan): seq<Expr> {
    if conds == [] then []
    else
      var n := conds[|conds| - 1].0;
      MaskedNodes(conds[..|conds| - 1], to) + (if IsNodeID(n) && HasScan(to, n) then [n] else [])
  }

  method CollectMaskedNodes(conds: seq<JoinCondition>, to: Plan) returns (nodes: seq<Expr>)
    ensures nodes == MaskedNodes(conds, to)
  {
    nodes := [];
    for i := 0 to |conds|
      invariant nodes == MaskedNodes(conds[..i], to)
    {
      assert conds[..i + 1][..i] == conds[..i];
      var n := conds[i].0;
      if IsNodeID(n) && HasScan(to, n) {
        nodes := nodes + [n];
      }
    }
    assert conds[..|conds|] == conds;
  }

  /** What `visitHashJoin` decides for a join. */
  function ChooseSip(conds: seq<JoinCondition>, joinType: JoinType, sip: Sip, l: Plan, r: Plan): Sip {
    var toProbe, toBuild := MaskedNodes(conds, l), MaskedNodes(conds, r);
    if IsAccumulate(l) || sip.Prohibit? then sip
    else if joinType.Inner? && (sip.ForceBuildToProbe? || Selective(r)) && toProbe != [] then BuildToProbe(toProbe)
    else if sip.ProhibitProbeToBuild? then sip
    else if Selective(l) && toBuild != [] then ProbeToBuild(toBuild)
    else sip
  }

  /** The pass, bottom up. */
  function PassMasks(p: Plan): Plan {
    match p
    case Filter(e, c) => Filter(e, PassMasks(c))
    case CrossProduct(acc, l, r) => CrossProduct(acc, PassMasks(l), PassMasks(r))
    case HashJoin(conds, jt, mark, sip, l, r) =>
      var l', r' := PassMasks(l), PassMasks(r);
      HashJoin(conds, jt, mark, ChooseSip(conds, jt, sip, l', r'), l', r')
    case Extend(id, bound, added, c) => Extend(id, bound, added, PassMasks(c))
    case Other(id, s, children) => Other(id, s, PassMasksAll(children))
    case _ => p
  }

  function PassMasksAll(ps: seq<Plan>): (r: seq<Plan>)
    ensures |r| == |ps|
  {
    if ps == [] then [] else [PassMasks(ps[0])] + PassMasksAll(ps[1..])
  }
}
