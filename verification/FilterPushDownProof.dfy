/**
 Filter push-down preserves meaning: what the visitor returns yields the rows of the
 original operator filtered by all pending predicates.
 */
module FilterPushDownProof {
  import opened Plans
  import opened PlanFacts
  import opened FilterPushDown

  // ----- well-formed plans -----

  /** No two nodes share a primary key, and every node has one. */
  ghost predicate KeysUnique(key: string, nodes: seq<Node>) {
    && (forall i | 0 <= i < |nodes| :: key in nodes[i].properties && !nodes[i].properties[key].Null?)
    && (forall i, j | 0 <= i < j < |nodes| :: nodes[i].properties[key] != nodes[j].properties[key])
  }

  /** The rows have exactly the expressions of `scope`, and constants among them keep their value. */
  ghost predicate GoodRows(db: Database, scope: Scope, rows: Rows) {
    forall r | r in rows :: r.Keys == scope && Coherent(db, r)
  }

  ghost predicate NoConstant(scope: Scope) {
    forall e | e in scope :: !Constant(e)
  }

  /** What the binder and the planner guarantee of a plan and a database. */
  ghost predicate WellFormed(db: Database, p: Plan) {
    match p
    case Scan(v, tables, properties) =>
      && (forall i | 0 <= i < |properties| :: properties[i].Property?)
      && (forall i, t | 0 <= i < |properties| && t in tables && properties[i].isPrimaryKey ::
            properties[i].name == db.primaryKey(t))
      && (forall t | t in tables :: KeysUnique(db.primaryKey(t), db.nodes(t)))
    case PrimaryKeyScan(_, _, properties, _) => forall i | 0 <= i < |properties| :: properties[i].Property?
    case Filter(e, c) => WellFormed(db, c) && Evaluable(Schema(c), e)
    case CrossProduct(acc, l, r) =>
      && WellFormed(db, l) && WellFormed(db, r)
      && Independent(Schema(l), Schema(r) + MarkScope(AccumulateMark(acc)))
      && (acc.Optional? ==> NoConstant(Schema(r) + MarkScope(acc.mark)) && Independent(Schema(r), MarkScope(acc.mark)))
    case HashJoin(_, jt, mark, _, l, r) =>
      && WellFormed(db, l) && WellFormed(db, r) && NoConstant(MarkScope(mark))
      && (jt.Inner? || jt.Count? ==> mark.None?)
      && (jt.Left? || jt.Count? ==> NoConstant(Schema(r) - Schema(l)))
    case Extend(id, _, added, c) =>
      && WellFormed(db, c) && NoConstant(added)
      && forall v :: GoodRows(db, added, db.extend(id, v))
    case EmptyResult(_) => true
    case TableFunctionCall(id, s) => GoodRows(db, s, db.operator(id, []))
    case Other(id, s, children) =>
      && (forall i | 0 <= i < |children| :: WellFormed(db, children[i]))
      && GoodRows(db, s, db.operator(id, RowsOfAll(db, children)))
  }

  lemma {:induction false} NodeRowsGood(db: Database, v: string, properties: seq<Expr>, nodes: seq<Node>)
    requires forall i | 0 <= i < |properties| :: properties[i].Property?
    ensures GoodRows(db, ScanScope(v, properties), NodeRows(v, properties, nodes))
    decreases |nodes|
  {
    if nodes != [] {
      NodeRowsGood(db, v, properties, nodes[1..]);
      var r := NodeRow(v, properties, nodes[0]);
      assert r.Keys == ScanScope(v, properties);
      assert forall e | e in r :: !Constant(e);
    }
  }

  lemma KeyScanGood(db: Database, v: string, t: nat, properties: seq<Expr>, key: Expr)
    requires forall i | 0 <= i < |properties| :: properties[i].Property?
    ensures GoodRows(db, ScanScope(v, properties), RowsOf(db, PrimaryKeyScan(v, t, properties, key)))
  {
    var found := LookUp(db.primaryKey(t), db.nodes(t), Eval(db, key, map[]));
    if found.Some? {
      NodeRowsGood(db, v, properties, [found.value]);
      assert NodeRows(v, properties, [found.value]) == [NodeRow(v, properties, found.value)];
    }
  }

  lemma SelectGood(db: Database, scope: Scope, keep: Row -> bool, rows: Rows)
    requires GoodRows(db, scope, rows)
    ensures GoodRows(db, scope, Select(keep, rows))
  {
    forall r | r in Select(keep, rows)
      ensures r in rows
    {
      SelectMember(keep, rows, r);
    }
  }

  lemma {:induction false} PairedGood(db: Database, a: Row, t: Scope, build: Rows)
    requires Coherent(db, a) && GoodRows(db, t, build)
    ensures GoodRows(db, a.Keys + t, Paired(a, build))
    decreases |build|
  {
    if build != [] {
      assert build[0] in build;
      PairedGood(db, a, t, build[1..]);
      CoherentJoined(db, a, build[0]);
    }
  }

  lemma {:induction false} ProductGood(db: Database, s: Scope, probe: Rows, t: Scope, build: Rows)
    requires GoodRows(db, s, probe) && GoodRows(db, t, build)
    ensures GoodRows(db, s + t, Product(probe, build))
    decreases |probe|
  {
    if probe != [] {
      assert probe[0] in probe;
      ProductGood(db, s, probe[1..], t, build);
      PairedGood(db, probe[0], t, build);
    }
  }

  lemma {:induction false} WithMarkGood(db: Database, s: Scope, rows: Rows, mark: Option<Expr>, flag: bool)
    requires GoodRows(db, s, rows) && NoConstant(MarkScope(mark))
    ensures GoodRows(db, s + MarkScope(mark), WithMark(rows, MarkRow(mark, flag)))
    decreases |rows|
  {
    if rows != [] {
      assert rows[0] in rows;
      WithMarkGood(db, s, rows[1..], mark, flag);
      CoherentJoined(db, rows[0], MarkRow(mark, flag));
    }
  }

  lemma AccumulatedGood(db: Database, acc: Accumulate, s: Scope, rows: Rows)
    requires GoodRows(db, s, rows)
    requires acc.Optional? ==> NoConstant(s + MarkScope(acc.mark))
    ensures GoodRows(db, s + MarkScope(AccumulateMark(acc)), Accumulated(acc, s, rows))
  {
    if acc.Optional? {
      if rows == [] {
        var r := Filled(s, Null) + MarkRow(acc.mark, false);
        assert r.Keys == s + MarkScope(acc.mark);
      } else {
        WithMarkGood(db, s, rows, acc.mark, true);
      }
    }
  }

  lemma JoinOfGood(db: Database, jt: JoinType, mark: Option<Expr>, conds: seq<JoinCondition>, a: Row, t: Scope, build: Rows)
    requires Coherent(db, a) && GoodRows(db, t, build) && NoConstant(MarkScope(mark))
    requires jt.Left? || jt.Count? ==> NoConstant(t - a.Keys)
    requires jt.Inner? || jt.Count? ==> mark.None?
    ensures GoodRows(db, if jt.Mark? then a.Keys + MarkScope(mark) else a.Keys + t + MarkScope(mark),
                     JoinOf(jt, mark, conds, t - a.Keys, a, build))
  {
    var found := MatchesOf(conds, a, build);
    SelectGood(db, t, b => Matches(conds, a, b), build);
    PairedGood(db, a, t, found);
    hide MatchesOf, Coherent;
    match jt
    case Inner => assert a.Keys + t + MarkScope(mark) == a.Keys + t;
    case Left =>
      if found == [] {
        MissingGood(db, a, t, Null, mark);
      } else {
        WithMarkGood(db, a.Keys + t, Paired(a, found), mark, true);
      }
    case Count =>
      assert a.Keys + t + MarkScope(mark) == a.Keys + t;
      if found == [] {
        MissingGood(db, a, t, Datum(0), None);
        assert a + Filled(t - a.Keys, Datum(0)) + MarkRow(None, false) == a + Filled(t - a.Keys, Datum(0));
      }
    case Mark => MarkGood(db, a, mark, found != []);
  }

  /** A probe row without a partner, the build side filled in. */
  lemma MissingGood(db: Database, a: Row, t: Scope, v: Value, mark: Option<Expr>)
    requires Coherent(db, a) && NoConstant(t - a.Keys) && NoConstant(MarkScope(mark))
    ensures GoodRows(db, a.Keys + t + MarkScope(mark), [a + Filled(t - a.Keys, v) + MarkRow(mark, false)])
  {
    var filled := a + Filled(t - a.Keys, v);
    CoherentJoined(db, a, Filled(t - a.Keys, v));
    CoherentJoined(db, filled, MarkRow(mark, false));
    assert (filled + MarkRow(mark, false)).Keys == a.Keys + t + MarkScope(mark);
  }

  lemma MarkGood(db: Database, a: Row, mark: Option<Expr>, flag: bool)
    requires Coherent(db, a) && NoConstant(MarkScope(mark))
    ensures GoodRows(db, a.Keys + MarkScope(mark), [a + MarkRow(mark, flag)])
  {
    CoherentJoined(db, a, MarkRow(mark, flag));
    assert (a + MarkRow(mark, flag)).Keys == a.Keys + MarkScope(mark);
  }

  lemma {:induction false} JoinGood(db: Database, jt: JoinType, mark: Option<Expr>, conds: seq<JoinCondition>, s: Scope, probe: Rows,
                                    t: Scope, build: Rows)
    requires GoodRows(db, s, probe) && GoodRows(db, t, build) && NoConstant(MarkScope(mark))
    requires jt.Left? || jt.Count? ==> NoConstant(t - s)
    requires jt.Inner? || jt.Count? ==> mark.None?
    ensures GoodRows(db, if jt.Mark? then s + MarkScope(mark) else s + t + MarkScope(mark),
                     Join(jt, mark, conds, t - s, probe, build))
    decreases |probe|
  {
    if probe != [] {
      assert probe[0] in probe;
      JoinGood(db, jt, mark, conds, s, probe[1..], t, build);
      JoinOfGood(db, jt, mark, conds, probe[0], t, build);
    }
  }

  lemma {:induction false} ExtendGood(db: Database, id: nat, bound: Expr, s: Scope, added: Scope, rows: Rows)
    requires GoodRows(db, s, rows) && forall v :: GoodRows(db, added, db.extend(id, v))
    ensures GoodRows(db, s + added, ExtendRows(db, id, bound, rows))
    decreases |rows|
  {
    if rows != [] {
      var a := rows[0];
      assert a in rows;
      ExtendGood(db, id, bound, s, added, rows[1..]);
      if bound in a {
        PairedGood(db, a, added, db.extend(id, a[bound]));
      }
    }
  }

  /** Every row of a well-formed plan has exactly the expressions of the schema. */
  lemma {:induction false} RowsGood(db: Database, p: Plan)
    requires WellFormed(db, p)
    ensures GoodRows(db, Schema(p), RowsOf(db, p))
    decreases p
  {
    match p
    case Scan(v, tables, properties) => NodeRowsGood(db, v, properties, TableNodes(db, tables));
    case PrimaryKeyScan(v, table, properties, key) => KeyScanGood(db, v, table, properties, key);
    case Filter(e, c) =>
      RowsGood(db, c);
      SelectGood(db, Schema(c), Keeps(db, [e]), RowsOf(db, c));
    case CrossProduct(acc, l, r) =>
      RowsGood(db, l);
      RowsGood(db, r);
      AccumulatedGood(db, acc, Schema(r), RowsOf(db, r));
      var t := Schema(r) + MarkScope(AccumulateMark(acc));
      ProductGood(db, Schema(l), RowsOf(db, l), t, Accumulated(acc, Schema(r), RowsOf(db, r)));
      assert Schema(l) + t == Schema(p);
    case HashJoin(conds, jt, mark, _, l, r) =>
      RowsGood(db, l);
      RowsGood(db, r);
      JoinGood(db, jt, mark, conds, Schema(l), RowsOf(db, l), Schema(r), RowsOf(db, r));
    case Extend(id, bound, added, c) =>
      RowsGood(db, c);
      ExtendGood(db, id, bound, Schema(c), added, RowsOf(db, c));
    case _ =>
  }

  // ----- predicate sets -----

  lemma AllHoldMembers(db: Database, ps: seq<Expr>, row: Row)
    ensures AllHold(db, ps, row) <==> forall p | p in ps :: Holds(db, p, row)
  {
  }

  lemma {:induction false} CollectMember(keep: Expr -> bool, ps: seq<Expr>, x: Expr)
    ensures x in All(Collect(keep, ps)) <==> x in ps && keep(x)
    ensures x in Collect(keep, ps).equality ==> x.Equals?
    decreases |ps|
  {
    if ps != [] {
      var last := ps[|ps| - 1];
      CollectMember(keep, ps[..|ps| - 1], x);
      assert ps == ps[..|ps| - 1] + [last];
    }
  }

  /** Adding a predicate adds it to the conjunction. */
  lemma AllHoldAdd(db: Database, ps: Predicates, p: Expr, row: Row)
    ensures AllHold(db, All(Add(ps, p)), row) <==> AllHold(db, All(ps), row) && Holds(db, p, row)
  {
    AllHoldMembers(db, All(ps), row);
    AllHoldMembers(db, All(Add(ps, p)), row);
    assert forall x :: x in All(Add(ps, p)) <==> x in All(ps) || x == p;
  }

  /** The three parts of a predicate set are together the whole. */
  lemma AllHoldSplit(db: Database, l: Scope, r: Scope, ps: Predicates, row: Row)
    ensures AllHold(db, All(ps), row) <==>
            && AllHold(db, All(ProbeSet(l, r, ps)), row)
            && AllHold(db, All(BuildSet(l, r, ps)), row)
            && AllHold(db, All(RemainingSet(l, r, ps)), row)
  {
    forall x
      ensures x in All(ProbeSet(l, r, ps)) <==> x in All(ps) && OnlyProbe(l, r, x)
      ensures x in All(BuildSet(l, r, ps)) <==> x in All(ps) && OnlyBuild(l, r, x)
      ensures x in All(RemainingSet(l, r, ps)) <==> x in All(ps) && !OnlyProbe(l, r, x) && !OnlyBuild(l, r, x)
    {
      CollectMember(p => OnlyProbe(l, r, p), All(ps), x);
      CollectMember(p => OnlyBuild(l, r, p), All(ps), x);
      CollectMember(p => !OnlyProbe(l, r, p) && !OnlyBuild(l, r, p), All(ps), x);
    }
    AllHoldMembers(db, All(ps), row);
    AllHoldMembers(db, All(ProbeSet(l, r, ps)), row);
    AllHoldMembers(db, All(BuildSet(l, r, ps)), row);
    AllHoldMembers(db, All(RemainingSet(l, r, ps)), row);
  }

  /** Appended filters keep the rows on which all predicates hold. */
  lemma {:induction false} AppendFiltersRows(db: Database, ps: seq<Expr>, p: Plan)
    ensures RowsOf(db, AppendFilters(ps, p)) == FilterRows(db, ps, RowsOf(db, p))
    ensures Schema(AppendFilters(ps, p)) == Schema(p)
    decreases |ps|
  {
    var rows := RowsOf(db, p);
    if ps == [] {
      SelectAll(Keeps(db, ps), rows);
    } else {
      var front, last := ps[..|ps| - 1], ps[|ps| - 1];
      AppendFiltersRows(db, front, p);
      SelectTwice(Keeps(db, [last]), Keeps(db, front), rows);
      forall r | r in rows
        ensures (Keeps(db, [last])(r) && Keeps(db, front)(r)) == Keeps(db, ps)(r)
      {
        assert ps == front + [last];
        AllHoldMembers(db, ps, r);
        AllHoldMembers(db, front, r);
      }
      SelectSame(r => Keeps(db, [last])(r) && Keeps(db, front)(r), Keeps(db, ps), rows);
    }
  }

  // ----- the scan -----

  /** A constant expression does not depend on a row of properties. */
  lemma {:induction false} ConstantKeyValue(db: Database, e: Expr, row: Row)
    requires IsConstantExpression(e) && forall x | x in row :: x.Property?
    ensures Eval(db, e, row) == Eval(db, e, map[])
    decreases e
  {
    if e.Cast? {
      ConstantKeyValue(db, e.child, row);
    }
  }

  /** The index finds what a filter on the primary key would keep. */
  lemma {:induction false} LookUpIsSelect(v: string, properties: seq<Expr>, key: string, nodes: seq<Node>, value: Value, keep: Row -> bool)
    requires KeysUnique(key, nodes)
    requires forall i | 0 <= i < |nodes| ::
               keep(NodeRow(v, properties, nodes[i])) == (EqualValues(nodes[i].properties[key], value) == Bool(true))
    ensures var found := LookUp(key, nodes, value);
            Select(keep, NodeRows(v, properties, nodes)) == if found.Some? then [NodeRow(v, properties, found.value)] else []
    decreases |nodes|
  {
    if nodes != [] {
      var tail := nodes[1..];
      assert forall i | 0 <= i < |tail| :: tail[i] == nodes[i + 1];
      LookUpIsSelect(v, properties, key, tail, value, keep);
      if !value.Null? && nodes[0].properties[key] == value {
        NoMatch(key, tail, value);
      }
    }
  }

  lemma {:induction false} NoMatch(key: string, nodes: seq<Node>, value: Value)
    requires forall i | 0 <= i < |nodes| :: key in nodes[i].properties && nodes[i].properties[key] != value
    ensures LookUp(key, nodes, value).None?
    decreases |nodes|
  {
    if nodes != [] {
      NoMatch(key, nodes[1..], value);
    }
  }

  /** A comparison of the key with a constant, evaluated on the row of a node. */
  lemma KeyComparisonHolds(db: Database, v: string, properties: seq<Expr>, node: Node, p: Expr, key: string)
    requires ComparesKey(p, v)
    requires var q := Normalized(p, v);
             q.left in ScanScope(v, properties) && q.left.name == key && IsConstantExpression(q.right)
    requires forall i | 0 <= i < |properties| :: properties[i].Property?
    requires key in node.properties
    ensures Holds(db, p, NodeRow(v, properties, node)) <==>
            EqualValues(node.properties[key], Eval(db, Normalized(p, v).right, map[])) == Bool(true)
  {
    var q, row := Normalized(p, v), NodeRow(v, properties, node);
    assert row.Keys == ScanScope(v, properties);
    assert forall x | x in row :: x.Property?;
    ConstantKeyValue(db, q.right, row);
    assert row[q.left] == node.properties[key];
    assert Eval(db, q, row) == EqualValues(row[q.left], Eval(db, q.right, row));
    assert Eval(db, p, row) == EqualValues(Eval(db, p.left, row), Eval(db, p.right, row));
  }

  lemma KeepsOne(db: Database, p: Expr, row: Row)
    ensures Keeps(db, [p])(row) == Holds(db, p, row)
  {
    assert [p][0] == p;
  }

  ghost predicate AllEvaluable(scope: Scope, ps: seq<Expr>) {
    forall p | p in ps :: Evaluable(scope, p)
  }

  /** Taking one equality out of the set and testing it apart. */
  lemma WithoutSplit(db: Database, ps: Predicates, i: nat, row: Row)
    requires i < |ps.equality|
    ensures AllHold(db, All(ps), row) <==> AllHold(db, All(Without(ps, i)), row) && Holds(db, ps.equality[i], row)
  {
    AllHoldMembers(db, All(ps), row);
    AllHoldMembers(db, All(Without(ps, i)), row);
    var e := ps.equality;
    assert e == e[..i] + [e[i]] + e[i + 1..];
    assert forall x :: x in All(ps) <==> x in All(Without(ps, i)) || x == e[i];
  }

  /** The index scan with the other predicates on top. */
  lemma ScanByKey(db: Database, v: string, t: nat, properties: seq<Expr>, ps: Predicates, i: nat)
    requires WellFormed(db, Scan(v, [t], properties)) && i < |ps.equality|
    requires var p := ps.equality[i];
             ComparesKey(p, v) && Evaluable(ScanScope(v, properties), p) && IsConstantExpression(Normalized(p, v).right)
    ensures var scan := PrimaryKeyScan(v, t, properties, Normalized(ps.equality[i], v).right);
            && RowsOf(db, Finish(scan, Without(ps, i))) == FilterRows(db, All(ps), RowsOf(db, Scan(v, [t], properties)))
            && Schema(Finish(scan, Without(ps, i))) == ScanScope(v, properties)
  {
    var p, rest := ps.equality[i], All(Without(ps, i));
    var rows := RowsOf(db, Scan(v, [t], properties));
    KeyScanRows(db, v, t, properties, p);
    AppendFiltersRows(db, rest, PrimaryKeyScan(v, t, properties, Normalized(p, v).right));
    SelectTwice(Keeps(db, rest), Keeps(db, [p]), rows);
    forall r | r in rows
      ensures (Keeps(db, rest)(r) && Keeps(db, [p])(r)) == Keeps(db, All(ps))(r)
    {
      WithoutSplit(db, ps, i, r);
      KeepsOne(db, p, r);
    }
    SelectSame(r => Keeps(db, rest)(r) && Keeps(db, [p])(r), Keeps(db, All(ps)), rows);
  }

  lemma ScanCorrect(db: Database, v: string, tables: seq<nat>, properties: seq<Expr>, ps: Predicates)
    requires WellFormed(db, Scan(v, tables, properties)) && AllEvaluable(ScanScope(v, properties), All(ps))
    ensures var r := VisitScan(Scan(v, tables, properties), v, tables, properties, ps);
            && RowsOf(db, r) == FilterRows(db, All(ps), RowsOf(db, Scan(v, tables, properties)))
            && Schema(r) == ScanScope(v, properties)
  {
    var i := FirstKeyComparison(ps.equality, v);
    if |tables| != 1 || i == |ps.equality| {
      AppendFiltersRows(db, All(ps), Scan(v, tables, properties));
    } else {
      assert ps.equality[i] in All(ps);
      assert tables == [tables[0]];
      if IsConstantExpression(Normalized(ps.equality[i], v).right) {
        ScanByKey(db, v, tables[0], properties, ps, i);
      } else {
        ScanPutBack(db, v, tables, properties, ps, i);
      }
    }
  }

  lemma KeyScanRows(db: Database, v: string, t: nat, properties: seq<Expr>, p: Expr)
    requires WellFormed(db, Scan(v, [t], properties)) && ComparesKey(p, v) && Evaluable(ScanScope(v, properties), p)
    requires IsConstantExpression(Normalized(p, v).right)
    ensures RowsOf(db, PrimaryKeyScan(v, t, properties, Normalized(p, v).right)) ==
            FilterRows(db, [p], RowsOf(db, Scan(v, [t], properties)))
  {
    var q, key, nodes := Normalized(p, v), db.primaryKey(t), db.nodes(t);
    assert t in [t];
    assert q.left in ScanScope(v, properties) && q.left.name == key;
    assert TableNodes(db, [t]) == nodes;
    forall i | 0 <= i < |nodes|
      ensures Keeps(db, [p])(NodeRow(v, properties, nodes[i])) ==
              (EqualValues(nodes[i].properties[key], Eval(db, q.right, map[])) == Bool(true))
    {
      KeyComparisonHolds(db, v, properties, nodes[i], p, key);
      KeepsOne(db, p, NodeRow(v, properties, nodes[i]));
    }
    LookUpIsSelect(v, properties, key, nodes, Eval(db, q.right, map[]), Keeps(db, [p]));
  }

  lemma SwappedHolds(db: Database, l: Expr, r: Expr, row: Row)
    requires forall x | x in row :: x.Property?
    ensures Holds(db, Equals(l, r), row) == Holds(db, Equals(r, l), row)
  {
  }

  /** A comparison that cannot become an index scan goes back with its sides swapped. */
  lemma ScanPutBack(db: Database, v: string, tables: seq<nat>, properties: seq<Expr>, ps: Predicates, i: nat)
    requires WellFormed(db, Scan(v, tables, properties)) && i < |ps.equality| && ComparesKey(ps.equality[i], v)
    ensures var put := Add(Without(ps, i), Normalized(ps.equality[i], v));
            var scan := Scan(v, tables, properties);
            && RowsOf(db, Finish(scan, put)) == FilterRows(db, All(ps), RowsOf(db, scan))
            && Schema(Finish(scan, put)) == Schema(scan)
  {
    var p := ps.equality[i];
    var q := Normalized(p, v);
    var put, rows := Add(Without(ps, i), q), RowsOf(db, Scan(v, tables, properties));
    AppendFiltersRows(db, All(put), Scan(v, tables, properties));
    RowsGood(db, Scan(v, tables, properties));
    forall r | r in rows
      ensures Keeps(db, All(put))(r) == Keeps(db, All(ps))(r)
    {
      AllHoldAdd(db, Without(ps, i), q, r);
      WithoutSplit(db, ps, i, r);
      SwappedHolds(db, p.left, p.right, r);
    }
    SelectSame(Keeps(db, All(put)), Keeps(db, All(ps)), rows);
  }
}
