/**
 Operators between a join and the scans it masks: exactly which of them leave the join
 with the same rows, and that projections, distinct and order-by are among them.
 */
module SemiMaskOperators {
  import opened Plans
  import opened PlanFacts
  import opened FilterPushDownProof
  import opened SemiMask
  import opened SemiMaskProof

  // ----- joins with a list of keys -----

  /** The keys, one row each. */
  ghost function Listed(n: Expr, keys: set<Value>): (rows: Rows)
    ensures forall r | r in rows :: n in r && r.Keys == {n} && r[n] in keys
    decreases |keys|
  {
    if keys == {} then []
    else
      var v :| v in keys;
      [map[n := v]] + Listed(n, keys - {v})
  }

  lemma {:induction false} ListedKeys(n: Expr, keys: set<Value>)
    requires Null !in keys
    ensures KeysOf(Listed(n, keys), n) == keys
    decreases |keys|
  {
    if keys != {} {
      var v: Value :| Listed(n, keys) == [map[n := v]] + Listed(n, keys - {v}) && v in keys;
      ListedKeys(n, keys - {v});
      var rest := Listed(n, keys - {v});
      assert KeysOf([map[n := v]] + rest, n) == {v} + KeysOf(rest, n) by {
        KeysOfMore(map[n := v], rest, n);
      }
    }
  }

  lemma KeysOfMore(r: Row, rest: Rows, n: Expr)
    requires n in r && r[n] != Null
    ensures KeysOf([r] + rest, n) == {r[n]} + KeysOf(rest, n)
  {
    forall v
      ensures v in KeysOf([r] + rest, n) <==> v in {r[n]} + KeysOf(rest, n)
    {
      if v in KeysOf(rest, n) {
        var x: Row :| x in rest && n in x && x[n] == v;
        assert x in [r] + rest;
      }
      assert r in [r] + rest;
    }
  }

  /** A row finds itself among the keys, once, or nothing. */
  lemma {:induction false} OnePartner(n: Expr, keys: set<Value>, a: Row)
    requires n in a && Null !in keys
    ensures MatchesOf([(n, n)], a, Listed(n, keys)) == if a[n] in keys then [map[n := a[n]]] else []
    decreases |keys|
  {
    if keys != {} {
      var v: Value :| Listed(n, keys) == [map[n := v]] + Listed(n, keys - {v}) && v in keys;
      OnePartner(n, keys - {v}, a);
      var test := b => Matches([(n, n)], a, b);
      var one: Row := map[n := v];
      assert test(one) <==> a[n] == v by {
        assert [(n, n)][0] == (n, n);
      }
      SelectConcat(test, [one], Listed(n, keys - {v}));
      assert [one][1..] == [];
      assert Select(test, [one]) == if a[n] == v then [one] else [];
    }
  }

  lemma JoinOfListed(n: Expr, keys: set<Value>, a: Row)
    requires n in a && Null !in keys
    ensures JoinOf(Inner, None, [(n, n)], {}, a, Listed(n, keys)) == if a[n] in keys then [a] else []
  {
    OnePartner(n, keys, a);
    var one: Row := map[n := a[n]];
    assert a + one == a;
    assert [one][1..] == [] && Paired(a, [one]) == [a];
  }

  /** The join of rows with a list of keys selects the rows that have one. */
  lemma {:induction false} JoinListed(n: Expr, keys: set<Value>, rows: Rows)
    requires Null !in keys && forall r | r in rows :: n in r
    ensures Join(Inner, None, [(n, n)], {}, rows, Listed(n, keys)) == Select(HasKey(n, keys), rows)
    decreases |rows|
  {
    hide JoinOf, Listed;
    if rows != [] {
      assert rows[0] in rows;
      JoinListed(n, keys, rows[1..]);
      JoinOfListed(n, keys, rows[0]);
    }
  }

  // ----- the exact condition -----

  /** An inner join on `n` with any list of keys, over the operator: masked or not, the same rows. */
  ghost predicate JoinKeepsRows(db: Database, id: nat, scopes: seq<Scope>, n: Expr) {
    forall inputs, build: Rows | GoodInputs(db, scopes, inputs) && HasScope({n}, build) ::
      Join(Inner, None, [(n, n)], {}, db.operator(id, SelectEach(HasKey(n, KeysOf(build, n)), inputs)), build) ==
      Join(Inner, None, [(n, n)], {}, db.operator(id, inputs), build)
  }

  lemma RespectsJoins(db: Database, id: nat, scopes: seq<Scope>, n: Expr, inputs: seq<Rows>, build: Rows)
    requires Respects(db, id, scopes, n) && GoodInputs(db, scopes, inputs) && HasScope({n}, build)
    ensures Join(Inner, None, [(n, n)], {}, db.operator(id, SelectEach(HasKey(n, KeysOf(build, n)), inputs)), build) ==
            Join(Inner, None, [(n, n)], {}, db.operator(id, inputs), build)
  {
    var conds, keys := [(n, n)], KeysOf(build, n);
    var ka, all := HasKey(n, keys), (_: Row) => true;
    var probe', probe := db.operator(id, SelectEach(ka, inputs)), db.operator(id, inputs);
    assert Select(ka, probe') == Select(ka, probe);
    forall a, b | b in build && Matches(conds, a, b)
      ensures ka(a)
    {
      assert (n, n) in conds;
      KeyEqual(conds, a, b, n);
      KeyOf(build, b, n);
    }
    InnerAgree(all, ka, all, None, conds, {}, probe', build, probe, build);
    SelectAll(all, Join(Inner, None, conds, {}, probe', build));
    SelectAll(all, Join(Inner, None, conds, {}, probe, build));
  }

  lemma JoinsRespect(db: Database, id: nat, scope: Scope, scopes: seq<Scope>, n: Expr, keys: set<Value>, inputs: seq<Rows>)
    requires OperatorTyped(db, id, scope, scopes) && n in scope && JoinKeepsRows(db, id, scopes, n)
    requires GoodInputs(db, scopes, inputs) && Null !in keys
    ensures Select(HasKey(n, keys), db.operator(id, SelectEach(HasKey(n, keys), inputs))) == Select(HasKey(n, keys), db.operator(id, inputs))
  {
    var build := Listed(n, keys);
    ListedKeys(n, keys);
    var some := SelectEach(HasKey(n, keys), inputs);
    SelectEachGood(db, scopes, HasKey(n, keys), inputs);
    assert GoodRows(db, scope, db.operator(id, some)) && GoodRows(db, scope, db.operator(id, inputs));
    JoinListed(n, keys, db.operator(id, some));
    JoinListed(n, keys, db.operator(id, inputs));
    assert HasScope({n}, build);
  }

  /** Masks below an operator are harmless exactly when the operator respects the keys: every inner join on the node over
      it keeps its rows, for all inputs and all lists of keys, if and only if what the operator returns for some keys
      does not depend on the rows of other keys. */
  lemma OperatorExact(db: Database, id: nat, scope: Scope, scopes: seq<Scope>, n: Expr)
    requires OperatorTyped(db, id, scope, scopes) && n in scope
    ensures JoinKeepsRows(db, id, scopes, n) <==> Respects(db, id, scopes, n)
  {
    if Respects(db, id, scopes, n) {
      forall inputs, build: Rows | GoodInputs(db, scopes, inputs) && HasScope({n}, build)
        ensures Join(Inner, None, [(n, n)], {}, db.operator(id, SelectEach(HasKey(n, KeysOf(build, n)), inputs)), build) ==
                Join(Inner, None, [(n, n)], {}, db.operator(id, inputs), build)
      {
        RespectsJoins(db, id, scopes, n, inputs, build);
      }
    }
    if JoinKeepsRows(db, id, scopes, n) {
      forall keys, inputs | Null !in keys && GoodInputs(db, scopes, inputs)
        ensures Select(HasKey(n, keys), db.operator(id, SelectEach(HasKey(n, keys), inputs))) ==
                Select(HasKey(n, keys), db.operator(id, inputs))
      {
        JoinsRespect(db, id, scope, scopes, n, keys, inputs);
      }
    }
  }

  // ----- operators that respect keys -----

  /** The operator computes this function of its one input. */
  ghost predicate Computes(db: Database, id: nat, scope: Scope, op: Rows -> Rows) {
    forall rows | GoodRows(db, scope, rows) :: db.operator(id, [rows]) == op(rows)
  }

  lemma ComputedRespects(db: Database, id: nat, scope: Scope, n: Expr, op: Rows -> Rows)
    requires Computes(db, id, scope, op)
    requires forall keys, rows | GoodRows(db, scope, rows) :: Select(HasKey(n, keys), op(Select(HasKey(n, keys), rows))) == Select(HasKey(n, keys), op(rows))
    ensures Respects(db, id, [scope], n)
  {
    forall keys, inputs | Null !in keys && GoodInputs(db, [scope], inputs)
      ensures Select(HasKey(n, keys), db.operator(id, SelectEach(HasKey(n, keys), inputs))) == Select(HasKey(n, keys), db.operator(id, inputs))
    {
      var rows := inputs[0];
      var some := Select(HasKey(n, keys), rows);
      assert inputs == [rows] && SelectEach(HasKey(n, keys), inputs) == [some];
      assert GoodRows(db, [scope][0], rows);
      SelectGood(db, scope, HasKey(n, keys), rows);
      assert Select(HasKey(n, keys), op(some)) == Select(HasKey(n, keys), op(rows));
    }
  }

  /** A projection, or any operator that works row by row and keeps the node. */
  lemma ProjectionRespects(db: Database, id: nat, scope: Scope, n: Expr, g: Row -> Rows)
    requires Computes(db, id, scope, rows => FlatMap(g, rows))
    requires forall a: Row, x: Row | a.Keys == scope && x in g(a) && n in a :: n in x && x[n] == a[n]
    ensures Respects(db, id, [scope], n)
  {
    forall keys, rows | GoodRows(db, scope, rows)
      ensures Select(HasKey(n, keys), FlatMap(g, Select(HasKey(n, keys), rows))) == Select(HasKey(n, keys), FlatMap(g, rows))
    {
      var k := HasKey(n, keys);
      forall a | a in rows && !k(a)
        ensures Select(k, g(a)) == []
      {
        SelectNone(k, g(a));
      }
      FlatMapRestrict(k, k, g, rows);
    }
    ComputedRespects(db, id, scope, n, rows => FlatMap(g, rows));
  }

  /** The first of equal rows. */
  function Distinct(rows: Rows): Rows {
    if rows == [] then []
    else
      var front, last := rows[..|rows| - 1], rows[|rows| - 1];
      Distinct(front) + (if last in front then [] else [last])
  }

  lemma {:induction false} SelectDistinct(keep: Row -> bool, rows: Rows)
    ensures Select(keep, Distinct(rows)) == Distinct(Select(keep, rows))
    decreases |rows|
  {
    if rows != [] {
      var front, last := rows[..|rows| - 1], rows[|rows| - 1];
      assert rows == front + [last] && [last][1..] == [];
      SelectDistinct(keep, front);
      SelectConcat(keep, front, [last]);
      SelectConcat(keep, Distinct(front), if last in front then [] else [last]);
      SelectMember(keep, front, last);
      var some := Select(keep, rows);
      if keep(last) {
        assert some[..|some| - 1] == Select(keep, front) && some[|some| - 1] == last;
      } else {
        assert some == Select(keep, front);
      }
    }
  }

  lemma DistinctRespects(db: Database, id: nat, scope: Scope, n: Expr)
    requires Computes(db, id, scope, rows => Distinct(rows))
    ensures Respects(db, id, [scope], n)
  {
    forall keys, rows | GoodRows(db, scope, rows)
      ensures Select(HasKey(n, keys), Distinct(Select(HasKey(n, keys), rows))) == Select(HasKey(n, keys), Distinct(rows))
    {
      SelectDistinct(HasKey(n, keys), rows);
      SelectDistinct(HasKey(n, keys), Select(HasKey(n, keys), rows));
      SelectImplied(HasKey(n, keys), HasKey(n, keys), rows);
    }
    ComputedRespects(db, id, scope, n, rows => Distinct(rows));
  }

  // ----- order-by -----

  ghost predicate Preorder(leq: (Row, Row) -> bool) {
    && (forall a, b :: leq(a, b) || leq(b, a))
    && (forall a, b, c | leq(a, b) && leq(b, c) :: leq(a, c))
  }

  /** Before the first row that is larger. */
  function Insert(leq: (Row, Row) -> bool, r: Row, rows: Rows): Rows {
    if rows == [] then [r] else if leq(rows[0], r) then [rows[0]] + Insert(leq, r, rows[1..]) else [r] + rows
  }

  /** The rows in order, equal ones as they came. */
  function Sort(leq: (Row, Row) -> bool, rows: Rows): Rows {
    if rows == [] then [] else Insert(leq, rows[|rows| - 1], Sort(leq, rows[..|rows| - 1]))
  }

  ghost predicate Sorted(leq: (Row, Row) -> bool, rows: Rows) {
    forall i, j | 0 <= i < j < |rows| :: leq(rows[i], rows[j])
  }

  lemma {:induction false} InsertMember(leq: (Row, Row) -> bool, r: Row, rows: Rows, x: Row)
    ensures x in Insert(leq, r, rows) <==> x == r || x in rows
    decreases |rows|
  {
    if rows != [] {
      InsertMember(leq, r, rows[1..], x);
    }
  }

  lemma {:induction false} InsertSorted(leq: (Row, Row) -> bool, r: Row, rows: Rows)
    requires Preorder(leq) && Sorted(leq, rows)
    ensures Sorted(leq, Insert(leq, r, rows))
    decreases |rows|
  {
    if rows != [] {
      var tail := rows[1..];
      if leq(rows[0], r) {
        InsertSorted(leq, r, tail);
        var more := Insert(leq, r, tail);
        forall j | 0 <= j < |more|
          ensures leq(rows[0], more[j])
        {
          InsertMember(leq, r, tail, more[j]);
          if more[j] != r {
            var k :| 0 <= k < |tail| && tail[k] == more[j];
            assert rows[k + 1] == more[j];
          }
        }
      } else {
        assert leq(r, rows[0]);
        forall j | 0 <= j < |rows|
          ensures leq(r, rows[j])
        {
          assert j > 0 ==> leq(rows[0], rows[j]);
        }
      }
    }
  }

  lemma {:induction false} SortSorted(leq: (Row, Row) -> bool, rows: Rows)
    requires Preorder(leq)
    ensures Sorted(leq, Sort(leq, rows))
    decreases |rows|
  {
    if rows != [] {
      SortSorted(leq, rows[..|rows| - 1]);
      InsertSorted(leq, rows[|rows| - 1], Sort(leq, rows[..|rows| - 1]));
    }
  }

  /** A row goes first when all others are larger. */
  lemma InsertFirst(leq: (Row, Row) -> bool, r: Row, rows: Rows)
    requires forall x | x in rows :: !leq(x, r)
    ensures Insert(leq, r, rows) == [r] + rows
  {
  }

  lemma {:induction false} SelectInsert(keep: Row -> bool, leq: (Row, Row) -> bool, r: Row, rows: Rows)
    requires Preorder(leq) && Sorted(leq, rows)
    ensures Select(keep, Insert(leq, r, rows)) == if keep(r) then Insert(leq, r, Select(keep, rows)) else Select(keep, rows)
    decreases |rows|
  {
    if rows == [] {
      assert [r][1..] == [];
    } else if leq(rows[0], r) {
      SelectInsert(keep, leq, r, rows[1..]);
      assert Insert(leq, r, rows)[1..] == Insert(leq, r, rows[1..]);
      if keep(rows[0]) {
        assert Select(keep, rows)[1..] == Select(keep, rows[1..]);
      } else {
        assert Select(keep, rows) == Select(keep, rows[1..]);
      }
    } else {
      assert ([r] + rows)[1..] == rows;
      forall x | x in Select(keep, rows)
        ensures !leq(x, r)
      {
        SelectMember(keep, rows, x);
        var i :| 0 <= i < |rows| && rows[i] == x;
        assert i > 0 ==> leq(rows[0], x);
      }
      InsertFirst(leq, r, Select(keep, rows));
    }
  }

  lemma {:induction false} SelectSort(keep: Row -> bool, leq: (Row, Row) -> bool, rows: Rows)
    requires Preorder(leq)
    ensures Select(keep, Sort(leq, rows)) == Sort(leq, Select(keep, rows))
    decreases |rows|
  {
    if rows != [] {
      var front, last := rows[..|rows| - 1], rows[|rows| - 1];
      SelectSort(keep, leq, front);
      SortSorted(leq, front);
      SelectInsert(keep, leq, last, Sort(leq, front));
      assert rows == front + [last] && [last][1..] == [];
      SelectConcat(keep, front, [last]);
      var some := Select(keep, rows);
      if keep(last) {
        assert some[..|some| - 1] == Select(keep, front) && some[|some| - 1] == last;
      } else {
        assert some == Select(keep, front);
      }
    }
  }

  lemma OrderByRespects(db: Database, id: nat, scope: Scope, n: Expr, leq: (Row, Row) -> bool)
    requires Preorder(leq) && Computes(db, id, scope, rows => Sort(leq, rows))
    ensures Respects(db, id, [scope], n)
  {
    forall keys, rows | GoodRows(db, scope, rows)
      ensures Select(HasKey(n, keys), Sort(leq, Select(HasKey(n, keys), rows))) == Select(HasKey(n, keys), Sort(leq, rows))
    {
      SelectSort(HasKey(n, keys), leq, rows);
      SelectSort(HasKey(n, keys), leq, Select(HasKey(n, keys), rows));
      SelectImplied(HasKey(n, keys), HasKey(n, keys), rows);
    }
    ComputedRespects(db, id, scope, n, rows => Sort(leq, rows));
  }
}
