/**
 Logical plans, their schemas and the rows they produce.

 A row gives a value to every expression in scope. Predicates are three-valued and
 a filter keeps a row only when its predicate is true. Every function and operator
 is deterministic; the ones this model does not open up are interpreted by the
 `Database`.
 */
module Plans {
  datatype Option<T> = None | Some(value: T)

  /** Null, a truth value, or any other value. */
  datatype Value = Null | Bool(b: bool) | Datum(i: int)

  datatype Expr =
    | Literal(value: Value)
    | Parameter(name: string)
    | Property(variable: string, name: string, isPrimaryKey: bool)
    | Cast(child: Expr)
    | Equals(left: Expr, right: Expr)
    | Function(name: string, args: seq<Expr>)

  type Scope = set<Expr>
  type Row = map<Expr, Value>
  type Rows = seq<Row>

  datatype Node = Node(id: Value, properties: map<string, Value>)

  datatype Database = Database(
    parameter: string -> Value,
    cast: Value -> Value,
    call: (string, seq<Value>) -> Value,
    nodes: nat -> seq<Node>,
    primaryKey: nat -> string,
    extend: (nat, Value) -> Rows,
    operator: (nat, seq<Rows>) -> Rows)

  datatype JoinType = Inner | Left | Mark | Count

  type JoinCondition = (Expr, Expr)

  /** A cross product keeps probe rows without a build side only when it is optional; the mark then
      tells whether there was one. */
  datatype Accumulate = Regular | Optional(mark: Option<Expr>)

  /** Sideways information passing: what the planner allows, or what the optimizer chose. */
  datatype Sip = Free | Prohibit | ProhibitProbeToBuild | ForceBuildToProbe
               | BuildToProbe(nodeIDs: seq<Expr>) | ProbeToBuild(nodeIDs: seq<Expr>)

  datatype Plan =
    | Scan(variable: string, tables: seq<nat>, properties: seq<Expr>)
    | PrimaryKeyScan(variable: string, table: nat, properties: seq<Expr>, key: Expr)
    | Filter(condition: Expr, child: Plan)
    | CrossProduct(accumulate: Accumulate, probe: Plan, build: Plan)
    | HashJoin(conditions: seq<JoinCondition>, joinType: JoinType, mark: Option<Expr>, sip: Sip, probe: Plan, build: Plan)
    | Extend(id: nat, bound: Expr, added: Scope, child: Plan)
    | EmptyResult(schema: Scope)
    | TableFunctionCall(id: nat, schema: Scope)
    | Other(id: nat, schema: Scope, children: seq<Plan>)

  // ----- expressions -----

  /** `Schema::evaluable`. */
  predicate Evaluable(scope: Scope, e: Expr) {
    e in scope ||
    match e
    case Literal(_) => true
    case Parameter(_) => false
    case Property(_, _, _) => false
    case Cast(c) => Evaluable(scope, c)
    case Equals(l, r) => Evaluable(scope, l) && Evaluable(scope, r)
    case Function(_, args) => args != [] && forall i | 0 <= i < |args| :: Evaluable(scope, args[i])
  }

  /** An expression evaluable without any row. */
  predicate Constant(e: Expr) {
    Evaluable({}, e)
  }

  /** Equality is unknown as soon as one side is null. */
  function EqualValues(a: Value, b: Value): Value {
    if a.Null? || b.Null? then Null else Bool(a == b)
  }

  /** An expression in scope is looked up, any other is computed from its children. */
  function Eval(db: Database, e: Expr, row: Row): Value {
    if e in row then row[e]
    else match e
      case Literal(v) => v
      case Parameter(n) => db.parameter(n)
      case Property(_, _, _) => Null
      case Cast(c) => db.cast(Eval(db, c, row))
      case Equals(l, r) => EqualValues(Eval(db, l, row), Eval(db, r, row))
      case Function(n, args) => db.call(n, seq(|args|, i requires 0 <= i < |args| => Eval(db, args[i], row)))
  }

  predicate Holds(db: Database, p: Expr, row: Row) {
    Eval(db, p, row) == Bool(true)
  }

  predicate AllHold(db: Database, ps: seq<Expr>, row: Row) {
    forall i | 0 <= i < |ps| :: Holds(db, ps[i], row)
  }

  // ----- rows -----

  function Select(keep: Row -> bool, rows: Rows): Rows {
    if rows == [] then []
    else (if keep(rows[0]) then [rows[0]] else []) + Select(keep, rows[1..])
  }

  function Keeps(db: Database, ps: seq<Expr>): Row -> bool {
    row => AllHold(db, ps, row)
  }

  /** The rows on which every predicate of `ps` is true. */
  function FilterRows(db: Database, ps: seq<Expr>, rows: Rows): Rows {
    Select(Keeps(db, ps), rows)
  }

  /** One probe row with each of the build rows. */
  function Paired(a: Row, build: Rows): Rows {
    if build == [] then [] else [a + build[0]] + Paired(a, build[1..])
  }

  function Product(probe: Rows, build: Rows): Rows {
    if probe == [] then [] else Paired(probe[0], build) + Product(probe[1..], build)
  }

  /** The keys of the two rows are equal and none is null. */
  predicate Matches(conditions: seq<JoinCondition>, a: Row, b: Row) {
    forall i | 0 <= i < |conditions| ::
      && conditions[i].0 in a && conditions[i].1 in b
      && EqualValues(a[conditions[i].0], b[conditions[i].1]) == Bool(true)
  }

  /** The build rows that match `a`. */
  function MatchesOf(conditions: seq<JoinCondition>, a: Row, build: Rows): Rows {
    Select(b => Matches(conditions, a, b), build)
  }

  /** A row that gives one value to every expression of `scope`. */
  function Filled(scope: Scope, v: Value): Row {
    map e | e in scope :: v
  }

  function MarkRow(mark: Option<Expr>, flag: bool): Row {
    if mark.Some? then map[mark.value := Bool(flag)] else map[]
  }

  function WithMark(rows: Rows, m: Row): (r: Rows)
    ensures |r| == |rows|
  {
    if rows == [] then [] else [rows[0] + m] + WithMark(rows[1..], m)
  }

  /** What one probe row contributes to a join. */
  function JoinOf(joinType: JoinType, mark: Option<Expr>, conditions: seq<JoinCondition>, missing: Scope, a: Row, build: Rows): Rows {
    var found := MatchesOf(conditions, a, build);
    match joinType
    case Inner => Paired(a, found)
    case Left => if found == [] then [a + Filled(missing, Null) + MarkRow(mark, false)] else WithMark(Paired(a, found), MarkRow(mark, true))
    case Count => if found == [] then [a + Filled(missing, Datum(0))] else Paired(a, found)
    case Mark => [a + MarkRow(mark, found != [])]
  }

  function Join(joinType: JoinType, mark: Option<Expr>, conditions: seq<JoinCondition>, missing: Scope, probe: Rows, build: Rows): Rows {
    if probe == [] then []
    else JoinOf(joinType, mark, conditions, missing, probe[0], build) + Join(joinType, mark, conditions, missing, probe[1..], build)
  }

  /** The build side of a cross product: an optional one stands in with nulls when there is nothing. */
  function Accumulated(accumulate: Accumulate, scope: Scope, rows: Rows): Rows {
    match accumulate
    case Regular => rows
    case Optional(mark) =>
      if rows == [] then [Filled(scope, Null) + MarkRow(mark, false)] else WithMark(rows, MarkRow(mark, true))
  }

  // ----- scans -----

  function NodeID(variable: string): Expr {
    Property(variable, "_ID", false)
  }

  function ScanScope(variable: string, properties: seq<Expr>): Scope {
    {NodeID(variable)} + set i | 0 <= i < |properties| :: properties[i]
  }

  function PropertyOf(node: Node, e: Expr): Value {
    if e.Property? && e.name in node.properties then node.properties[e.name] else Null
  }

  function NodeRow(variable: string, properties: seq<Expr>, node: Node): Row {
    map e | e in ScanScope(variable, properties) :: if e == NodeID(variable) then node.id else PropertyOf(node, e)
  }

  function NodeRows(variable: string, properties: seq<Expr>, nodes: seq<Node>): (r: Rows)
    ensures |r| == |nodes|
  {
    if nodes == [] then [] else [NodeRow(variable, properties, nodes[0])] + NodeRows(variable, properties, nodes[1..])
  }

  function TableNodes(db: Database, tables: seq<nat>): seq<Node> {
    if tables == [] then [] else db.nodes(tables[0]) + TableNodes(db, tables[1..])
  }

  /** The primary-key index: the node with the given key, if there is one. */
  function LookUp(key: string, nodes: seq<Node>, v: Value): Option<Node> {
    if v.Null? || nodes == [] then None
    else if key in nodes[0].properties && nodes[0].properties[key] == v then Some(nodes[0])
    else LookUp(key, nodes[1..], v)
  }

  // ----- plans -----

  function MarkScope(mark: Option<Expr>): Scope {
    if mark.Some? then {mark.value} else {}
  }

  function AccumulateMark(accumulate: Accumulate): Option<Expr> {
    if accumulate.Optional? then accumulate.mark else None
  }

  function Schema(p: Plan): Scope {
    match p
    case Scan(v, _, ps) => ScanScope(v, ps)
    case PrimaryKeyScan(v, _, ps, _) => ScanScope(v, ps)
    case Filter(_, c) => Schema(c)
    case CrossProduct(acc, l, r) => Schema(l) + Schema(r) + MarkScope(AccumulateMark(acc))
    case HashJoin(_, jt, mark, _, l, r) => if jt.Mark? then Schema(l) + MarkScope(mark) else Schema(l) + Schema(r) + MarkScope(mark)
    case Extend(_, _, added, c) => Schema(c) + added
    case EmptyResult(s) => s
    case TableFunctionCall(_, s) => s
    case Other(_, s, _) => s
  }

  function ExtendRows(db: Database, id: nat, bound: Expr, rows: Rows): Rows {
    if rows == [] then []
    else (if bound in rows[0] then Paired(rows[0], db.extend(id, rows[0][bound])) else []) + ExtendRows(db, id, bound, rows[1..])
  }

  /** The rows of a plan, without sideways information passing. */
  function RowsOf(db: Database, p: Plan): Rows {
    match p
    case Scan(v, tables, ps) => NodeRows(v, ps, TableNodes(db, tables))
    case PrimaryKeyScan(v, table, ps, key) =>
      var found := LookUp(db.primaryKey(table), db.nodes(table), Eval(db, key, map[]));
      if found.Some? then [NodeRow(v, ps, found.value)] else []
    case Filter(e, c) => FilterRows(db, [e], RowsOf(db, c))
    case CrossProduct(acc, l, r) => Product(RowsOf(db, l), Accumulated(acc, Schema(r), RowsOf(db, r)))
    case HashJoin(conds, jt, mark, _, l, r) => Join(jt, mark, conds, Schema(r) - Schema(l), RowsOf(db, l), RowsOf(db, r))
    case Extend(id, bound, _, c) => ExtendRows(db, id, bound, RowsOf(db, c))
    case EmptyResult(_) => []
    case TableFunctionCall(id, _) => db.operator(id, [])
    case Other(id, _, children) => db.operator(id, RowsOfAll(db, children))
  }

  function RowsOfAll(db: Database, ps: seq<Plan>): seq<Rows> {
    if ps == [] then [] else [RowsOf(db, ps[0])] + RowsOfAll(db, ps[1..])
  }
}
