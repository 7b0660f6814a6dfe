/**
 Filter push-down: what `FilterPushDownOptimizer::visitOperator` returns for an
 operator and the predicates pending above it.
 */
module FilterPushDown {
  import opened Plans
  import opened PlanFacts

  /** `PredicateSet`. */
  datatype Predicates = Predicates(equality: seq<Expr>, others: seq<Expr>)

  const NO_PREDICATES: Predicates := Predicates([], [])

  function Add(ps: Predicates, p: Expr): Predicates {
    if p.Equals? then ps.(equality := ps.equality + [p]) else ps.(others := ps.others + [p])
  }

  function All(ps: Predicates): seq<Expr> {
    ps.equality + ps.others
  }

  function Collect(keep: Expr -> bool, ps: seq<Expr>): Predicates {
    if ps == [] then NO_PREDICATES
    else
      var rest := Collect(keep, ps[..|ps| - 1]);
      if keep(ps[|ps| - 1]) then Add(rest, ps[|ps| - 1]) else rest
  }

  // ----- the cross product -----

  /** Predicates that only the probe side, only the build side, or neither of these, can evaluate. */
  predicate OnlyProbe(l: Scope, r: Scope, p: Expr) {
    Evaluable(l, p) && !Evaluable(r, p)
  }

  predicate OnlyBuild(l: Scope, r: Scope, p: Expr) {
    !Evaluable(l, p) && Evaluable(r, p)
  }

  function ProbeSet(l: Scope, r: Scope, ps: Predicates): Predicates {
    Collect(p => OnlyProbe(l, r, p), All(ps))
  }

  function BuildSet(l: Scope, r: Scope, ps: Predicates): Predicates {
    Collect(p => OnlyBuild(l, r, p), All(ps))
  }

  function RemainingSet(l: Scope, r: Scope, ps: Predicates): Predicates {
    Collect(p => !OnlyProbe(l, r, p) && !OnlyBuild(l, r, p), All(ps))
  }

  /** An equality between an expression of each side becomes a join condition. */
  function ConditionOf(l: Scope, r: Scope, p: Expr): Option<JoinCondition> {
    if !p.Equals? then None
    else if p.left in l && p.right in r then Some((p.left, p.right))
    else if p.right in l && p.left in r then Some((p.right, p.left))
    else None
  }

  function Conditions(l: Scope, r: Scope, ps: seq<Expr>): seq<JoinCondition> {
    if ps == [] then []
    else
      var c := ConditionOf(l, r, ps[|ps| - 1]);
      Conditions(l, r, ps[..|ps| - 1]) + (if c.Some? then [c.value] else [])
  }

  function NotConditions(l: Scope, r: Scope, ps: seq<Expr>): seq<Expr> {
    if ps == [] then []
    else NotConditions(l, r, ps[..|ps| - 1]) + (if ConditionOf(l, r, ps[|ps| - 1]).None? then [ps[|ps| - 1]] else [])
  }

  // ----- the scan -----

  predicate IsConstantExpression(e: Expr) {
    match e
    case Literal(_) => true
    case Parameter(_) => true
    case Cast(c) => IsConstantExpression(c)
    case _ => false
  }

  predicate IsNodePrimaryKey(e: Expr, variable: string) {
    e.Property? && e.variable == variable && e.isPrimaryKey
  }

  predicate ComparesKey(p: Expr, variable: string) {
    p.Equals? && (IsNodePrimaryKey(p.left, variable) || IsNodePrimaryKey(p.right, variable))
  }

  /** The first equality that compares the primary key; the number of equalities if there is none. */
  function FirstKeyComparison(ps: seq<Expr>, variable: string): (i: nat)
    ensures i <= |ps|
    ensures i < |ps| ==> ComparesKey(ps[i], variable)
    ensures forall j | 0 <= j < i :: !ComparesKey(ps[j], variable)
  {
    if ps == [] then 0
    else if ComparesKey(ps[0], variable) then 0
    else 1 + FirstKeyComparison(ps[1..], variable)
  }

  /** The comparison with the primary key on its left side. */
  function Normalized(p: Expr, variable: string): (q: Expr)
    requires ComparesKey(p, variable)
    ensures q.Equals? && IsNodePrimaryKey(q.left, variable)
  {
    if IsNodePrimaryKey(p.left, variable) then p else Equals(p.right, p.left)
  }

  function Without(ps: Predicates, i: nat): Predicates
    requires i < |ps.equality|
  {
    ps.(equality := ps.equality[..i] + ps.equality[i + 1..])
  }

  // ----- the visitor -----

  function AppendFilters(ps: seq<Expr>, p: Plan): Plan {
    if ps == [] then p else Filter(ps[|ps| - 1], AppendFilters(ps[..|ps| - 1], p))
  }

  /** `finishPushDown`: all pending predicates on top of `p`. */
  function Finish(p: Plan, ps: Predicates): Plan {
    AppendFilters(All(ps), p)
  }

  /** A scan of the nodes `v` of `tables`; a scan by primary key is treated like any other. */
  function VisitScan(scan: Plan, v: string, tables: seq<nat>, properties: seq<Expr>, ps: Predicates): Plan {
    var i := FirstKeyComparison(ps.equality, v);
    if |tables| != 1 || i == |ps.equality| then Finish(scan, ps)
    else
      var q := Normalized(ps.equality[i], v);
      if IsConstantExpression(q.right)
      then Finish(PrimaryKeyScan(v, tables[0], properties, q.right), Without(ps, i))
      else Finish(scan, Add(Without(ps, i), q))
  }

  /** The cross product with its children already visited. */
  function RewriteCross(accumulate: Accumulate, l: Plan, r: Plan, ps: Predicates, remaining: Predicates): Plan {
    var conditions := Conditions(Schema(l), Schema(r), remaining.equality);
    if conditions == [] then Finish(CrossProduct(accumulate, l, r), ps)
    else AppendFilters(NotConditions(Schema(l), Schema(r), remaining.equality) + remaining.others,
                       HashJoin(conditions, Inner, None, Prohibit, l, r))
  }

  function Visit(p: Plan, ps: Predicates): Plan {
    match p
    case Filter(e, c) =>
      if e.Literal? then (if e.value == Bool(true) then Visit(c, ps) else EmptyResult(Schema(p)))
      else Visit(c, Add(ps, e))
    case CrossProduct(acc, l, r) =>
      RewriteCross(acc, Visit(l, ProbeSet(Schema(l), Schema(r), ps)), Visit(r, BuildSet(Schema(l), Schema(r), ps)), ps,
                   RemainingSet(Schema(l), Schema(r), ps))
    case Scan(v, tables, properties) => VisitScan(p, v, tables, properties, ps)
    case PrimaryKeyScan(v, table, properties, _) => VisitScan(p, v, [table], properties, ps)
    case HashJoin(conds, jt, mark, sip, l, r) =>
      Finish(HashJoin(conds, jt, mark, sip, Visit(l, NO_PREDICATES), Visit(r, NO_PREDICATES)), ps)
    case Extend(id, bound, added, c) => Finish(Extend(id, bound, added, Visit(c, NO_PREDICATES)), ps)
    case Other(id, s, children) => Finish(Other(id, s, VisitAll(children)), ps)
    case EmptyResult(_) => Finish(p, ps)
    case TableFunctionCall(_, _) => Finish(p, ps)
  }

  function VisitAll(ps: seq<Plan>): (r: seq<Plan>)
    ensures |r| == |ps|
  {
    if ps == [] then [] else [Visit(ps[0], NO_PREDICATES)] + VisitAll(ps[1..])
  }
}
