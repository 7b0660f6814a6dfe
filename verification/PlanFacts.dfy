/**
 Facts about expressions and rows that the rewrites of logical plans rest on.
 */
module PlanFacts {
  import opened Plans

  // ----- evaluation in a joined row -----

  /** Every constant expression in scope has its own value. */
  ghost predicate Coherent(db: Database, row: Row) {
    forall e | e in row && Constant(e) :: row[e] == Eval(db, e, map[])
  }

  /** Neither scope can compute an expression of the other one, constants aside. */
  ghost predicate Independent(a: Scope, b: Scope) {
    && (forall e | e in b && Evaluable(a, e) :: Constant(e))
    && (forall e | e in a && Evaluable(b, e) :: Constant(e))
  }

  lemma {:induction false} ConstantEval(db: Database, e: Expr, row: Row)
    requires Constant(e) && Coherent(db, row)
    ensures Eval(db, e, row) == Eval(db, e, map[])
    decreases e
  {
    if e !in row {
      match e
      case Cast(c) => ConstantEval(db, c, row);
      case Equals(l, r) =>
        ConstantEval(db, l, row);
        ConstantEval(db, r, row);
      case Function(_, args) =>
        forall i | 0 <= i < |args|
          ensures Eval(db, args[i], row) == Eval(db, args[i], map[])
        {
          ConstantEval(db, args[i], row);
        }
        assert seq(|args|, i requires 0 <= i < |args| => Eval(db, args[i], row)) ==
               seq(|args|, i requires 0 <= i < |args| => Eval(db, args[i], map[]));
      case _ =>
    }
  }

  /** An expression that one of two independent rows can evaluate has the same value in both together. */
  lemma {:induction false} EvalJoined(db: Database, e: Expr, row: Row, a: Row, b: Row)
    requires Evaluable(a.Keys, e) && Independent(a.Keys, b.Keys) && Coherent(db, a) && Coherent(db, b)
    requires row == a + b || row == b + a
    ensures Eval(db, e, row) == Eval(db, e, a)
    decreases e
  {
    if e in b {
      ConstantEval(db, e, a);
    } else if e !in a {
      match e
      case Cast(c) => EvalJoined(db, c, row, a, b);
      case Equals(l, r) =>
        EvalJoined(db, l, row, a, b);
        EvalJoined(db, r, row, a, b);
      case Function(_, args) =>
        forall i | 0 <= i < |args|
          ensures Eval(db, args[i], row) == Eval(db, args[i], a)
        {
          EvalJoined(db, args[i], row, a, b);
        }
        assert seq(|args|, i requires 0 <= i < |args| => Eval(db, args[i], row)) ==
               seq(|args|, i requires 0 <= i < |args| => Eval(db, args[i], a));
      case _ =>
    }
  }

  lemma CoherentJoined(db: Database, a: Row, b: Row)
    requires Coherent(db, a) && Coherent(db, b)
    ensures Coherent(db, a + b)
  {
  }

  // ----- selections and products -----

  lemma {:induction false} SelectConcat(keep: Row -> bool, xs: Rows, ys: Rows)
    ensures Select(keep, xs + ys) == Select(keep, xs) + Select(keep, ys)
    decreases |xs|
  {
    if xs == [] {
      assert xs + ys == ys;
    } else {
      var x, tail := xs[0], xs[1..];
      assert (xs + ys)[0] == x && (xs + ys)[1..] == tail + ys;
      SelectConcat(keep, tail, ys);
      if keep(x) {
        assert [x] + (Select(keep, tail) + Select(keep, ys)) == ([x] + Select(keep, tail)) + Select(keep, ys);
      }
    }
  }

  lemma {:induction false} SelectSame(k1: Row -> bool, k2: Row -> bool, rows: Rows)
    requires forall r | r in rows :: k1(r) == k2(r)
    ensures Select(k1, rows) == Select(k2, rows)
    decreases |rows|
  {
    if rows != [] {
      SelectSame(k1, k2, rows[1..]);
    }
  }

  lemma {:induction false} SelectAll(keep: Row -> bool, rows: Rows)
    requires forall r | r in rows :: keep(r)
    ensures Select(keep, rows) == rows
    decreases |rows|
  {
    if rows != [] {
      SelectAll(keep, rows[1..]);
    }
  }

  lemma {:induction false} SelectNone(keep: Row -> bool, rows: Rows)
    requires forall r | r in rows :: !keep(r)
    ensures Select(keep, rows) == []
    decreases |rows|
  {
    if rows != [] {
      SelectNone(keep, rows[1..]);
    }
  }

  lemma {:induction false} SelectMember(keep: Row -> bool, rows: Rows, r: Row)
    ensures r in Select(keep, rows) <==> r in rows && keep(r)
    decreases |rows|
  {
    if rows != [] {
      SelectMember(keep, rows[1..], r);
    }
  }

  lemma {:induction false} SelectTwice(k1: Row -> bool, k2: Row -> bool, rows: Rows)
    ensures Select(k1, Select(k2, rows)) == Select(r => k1(r) && k2(r), rows)
    decreases |rows|
  {
    if rows != [] {
      SelectTwice(k1, k2, rows[1..]);
      SelectConcat(k1, if k2(rows[0]) then [rows[0]] else [], Select(k2, rows[1..]));
    }
  }

  lemma {:induction false} PairedMember(a: Row, build: Rows, r: Row)
    ensures r in Paired(a, build) <==> exists i :: 0 <= i < |build| && r == a + build[i]
    decreases |build|
  {
    if build != [] {
      PairedMember(a, build[1..], r);
      if i :| 0 <= i < |build[1..]| && r == a + build[1..][i] {
        assert r == a + build[i + 1];
      }
      if i :| 0 <= i < |build| && r == a + build[i] {
        if i > 0 {
          assert r == a + build[1..][i - 1];
        }
      }
    }
  }

  /** A selection of pairs by a test of the build row. */
  lemma {:induction false} SelectPaired(keep: Row -> bool, ka: bool, kb: Row -> bool, rest: Row -> bool, a: Row, build: Rows)
    requires forall b | b in build :: keep(a + b) == (ka && kb(b) && rest(a + b))
    ensures Select(keep, Paired(a, build)) == if ka then Select(rest, Paired(a, Select(kb, build))) else []
    decreases |build|
  {
    if build != [] {
      var tail := build[1..];
      SelectPaired(keep, ka, kb, rest, a, tail);
      assert build[0] in build;
      var head := if kb(build[0]) then [build[0]] else [];
      assert Select(kb, build) == head + Select(kb, tail);
      PairedConcat(a, head, Select(kb, tail));
      SelectConcat(rest, Paired(a, head), Paired(a, Select(kb, tail)));
      assert kb(build[0]) ==> Paired(a, head) == [a + build[0]];
      assert Paired(a, build)[1..] == Paired(a, tail);
    }
  }

  lemma {:induction false} PairedConcat(a: Row, xs: Rows, ys: Rows)
    ensures Paired(a, xs + ys) == Paired(a, xs) + Paired(a, ys)
    decreases |xs|
  {
    if xs == [] {
      assert xs + ys == ys;
    } else {
      assert (xs + ys)[1..] == xs[1..] + ys;
      PairedConcat(a, xs[1..], ys);
    }
  }

  /** A selection of a product whose test splits: select on each side, then the rest. */
  lemma {:induction false} SelectProduct(keep: Row -> bool, ka: Row -> bool, kb: Row -> bool, rest: Row -> bool,
                                         probe: Rows, build: Rows)
    requires forall a, b | a in probe && b in build :: keep(a + b) == (ka(a) && kb(b) && rest(a + b))
    ensures Select(keep, Product(probe, build)) == Select(rest, Product(Select(ka, probe), Select(kb, build)))
    decreases |probe|
  {
    if probe != [] {
      var a, tail := probe[0], probe[1..];
      assert a in probe;
      SelectProduct(keep, ka, kb, rest, tail, build);
      SelectPaired(keep, ka(a), kb, rest, a, build);
      SelectConcat(keep, Paired(a, build), Product(tail, build));
      var head := if ka(a) then [a] else [];
      assert Select(ka, probe) == head + Select(ka, tail);
      if !ka(a) {
        assert Select(ka, probe) == Select(ka, tail);
        assert [] + Select(keep, Product(tail, build)) == Select(keep, Product(tail, build));
      } else {
        assert (head + Select(ka, tail))[1..] == Select(ka, tail);
        SelectConcat(rest, Paired(a, Select(kb, build)), Product(Select(ka, tail), Select(kb, build)));
      }
    }
  }
}
