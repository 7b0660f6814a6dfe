/**
 Filter push-down through a cross product, and the main theorem.
 */
module FilterPushDownCross {
  import opened Plans
  import opened PlanFacts
  import opened FilterPushDown
  import opened FilterPushDownProof

  // ----- join conditions -----

  /** A converted equality holds of a joined row exactly when the keys match. */
  lemma ConditionHolds(db: Database, p: Expr, a: Row, b: Row)
    requires Independent(a.Keys, b.Keys) && Coherent(db, a) && Coherent(db, b)
    requires ConditionOf(a.Keys, b.Keys, p).Some? && !OnlyProbe(a.Keys, b.Keys, p) && !OnlyBuild(a.Keys, b.Keys, p)
    ensures Holds(db, p, a + b) <==> Matches([ConditionOf(a.Keys, b.Keys, p).value], a, b)
  {
    var c := ConditionOf(a.Keys, b.Keys, p).value;
    assert [c][0] == c;
    if p in a || p in b {
      assert Constant(p);
      CoherentJoined(db, a, b);
      ConstantEval(db, p, a + b);
    } else {
      EvalJoined(db, c.0, a + b, a, b);
      EvalJoined(db, c.1, a + b, b, a);
    }
  }

  ghost predicate AllRemaining(l: Scope, r: Scope, ps: seq<Expr>) {
    forall p | p in ps :: !OnlyProbe(l, r, p) && !OnlyBuild(l, r, p)
  }

  /** The equalities split into those that became conditions and those that did not. */
  lemma {:induction false} ConditionsHold(db: Database, ps: seq<Expr>, a: Row, b: Row)
    requires Independent(a.Keys, b.Keys) && Coherent(db, a) && Coherent(db, b) && AllRemaining(a.Keys, b.Keys, ps)
    ensures AllHold(db, ps, a + b) <==>
            Matches(Conditions(a.Keys, b.Keys, ps), a, b) && AllHold(db, NotConditions(a.Keys, b.Keys, ps), a + b)
    decreases |ps|
  {
    if ps != [] {
      var front, last := ps[..|ps| - 1], ps[|ps| - 1];
      ConditionsHold(db, front, a, b);
      assert ps == front + [last];
      AllHoldConcat(db, front, [last], a + b);
      KeepsOne(db, last, a + b);
      var c := ConditionOf(a.Keys, b.Keys, last);
      if c.Some? {
        ConditionHolds(db, last, a, b);
        MatchesConcat(Conditions(a.Keys, b.Keys, front), [c.value], a, b);
        assert NotConditions(a.Keys, b.Keys, ps) == NotConditions(a.Keys, b.Keys, front);
      } else {
        AllHoldConcat(db, NotConditions(a.Keys, b.Keys, front), [last], a + b);
        assert Conditions(a.Keys, b.Keys, ps) == Conditions(a.Keys, b.Keys, front);
      }
    }
  }

  lemma AllHoldConcat(db: Database, ps: seq<Expr>, qs: seq<Expr>, row: Row)
    ensures AllHold(db, ps + qs, row) <==> AllHold(db, ps, row) && AllHold(db, qs, row)
  {
    AllHoldMembers(db, ps, row);
    AllHoldMembers(db, qs, row);
    AllHoldMembers(db, ps + qs, row);
  }

  lemma MatchesConcat(cs: seq<JoinCondition>, ds: seq<JoinCondition>, a: Row, b: Row)
    ensures Matches(cs + ds, a, b) <==> Matches(cs, a, b) && Matches(ds, a, b)
  {
    if Matches(cs + ds, a, b) {
      assert forall i | 0 <= i < |cs| :: cs[i] == (cs + ds)[i];
      assert forall i | 0 <= i < |ds| :: ds[i] == (cs + ds)[|cs| + i];
    }
  }

  // ----- pushed predicates -----

  /** Predicates that only one of two independent rows can evaluate hold of both together when they hold
      of that row. */
  lemma PushedHold(db: Database, ps: seq<Expr>, row: Row, a: Row, b: Row)
    requires Independent(a.Keys, b.Keys) && Coherent(db, a) && Coherent(db, b)
    requires forall p | p in ps :: Evaluable(a.Keys, p)
    requires row == a + b || row == b + a
    ensures AllHold(db, ps, row) == AllHold(db, ps, a)
  {
    forall i | 0 <= i < |ps|
      ensures Eval(db, ps[i], row) == Eval(db, ps[i], a)
    {
      EvalJoined(db, ps[i], row, a, b);
    }
  }

  lemma SetMembers(l: Scope, r: Scope, ps: Predicates)
    ensures forall p | p in All(ProbeSet(l, r, ps)) :: Evaluable(l, p)
    ensures forall p | p in All(BuildSet(l, r, ps)) :: Evaluable(r, p)
    ensures AllRemaining(l, r, All(RemainingSet(l, r, ps)))
  {
    forall p
      ensures p in All(ProbeSet(l, r, ps)) ==> Evaluable(l, p)
      ensures p in All(BuildSet(l, r, ps)) ==> Evaluable(r, p)
      ensures p in All(RemainingSet(l, r, ps)) ==> !OnlyProbe(l, r, p) && !OnlyBuild(l, r, p)
    {
      CollectMember(x => OnlyProbe(l, r, x), All(ps), p);
      CollectMember(x => OnlyBuild(l, r, x), All(ps), p);
      CollectMember(x => !OnlyProbe(l, r, x) && !OnlyBuild(l, r, x), All(ps), p);
    }
  }

  /** On a joined row, the pending predicates are those of each side and the remaining ones. */
  lemma SplitOnJoined(db: Database, ps: Predicates, a: Row, b: Row)
    requires Independent(a.Keys, b.Keys) && Coherent(db, a) && Coherent(db, b)
    ensures AllHold(db, All(ps), a + b) <==>
            && AllHold(db, All(ProbeSet(a.Keys, b.Keys, ps)), a)
            && AllHold(db, All(BuildSet(a.Keys, b.Keys, ps)), b)
            && AllHold(db, All(RemainingSet(a.Keys, b.Keys, ps)), a + b)
  {
    SetMembers(a.Keys, b.Keys, ps);
    AllHoldSplit(db, a.Keys, b.Keys, ps, a + b);
    PushedHold(db, All(ProbeSet(a.Keys, b.Keys, ps)), a + b, a, b);
    PushedHold(db, All(BuildSet(a.Keys, b.Keys, ps)), a + b, b, a);
  }

  /** Without a join condition: each side filtered, then all predicates once more. */
  lemma ProductPushed(db: Database, ps: Predicates, l: Scope, probe: Rows, r: Scope, build: Rows)
    requires GoodRows(db, l, probe) && GoodRows(db, r, build) && Independent(l, r)
    ensures FilterRows(db, All(ps), Product(FilterRows(db, All(ProbeSet(l, r, ps)), probe), FilterRows(db, All(BuildSet(l, r, ps)), build))) ==
            FilterRows(db, All(ps), Product(probe, build))
  {
    var keep, ka, kb := Keeps(db, All(ps)), Keeps(db, All(ProbeSet(l, r, ps))), Keeps(db, All(BuildSet(l, r, ps)));
    forall a, b | a in probe && b in build
      ensures keep(a + b) == (ka(a) && kb(b) && keep(a + b))
    {
      SplitOnJoined(db, ps, a, b);
    }
    SelectProduct(keep, ka, kb, keep, probe, build);
  }

  /** With join conditions: the join of the filtered sides, then the predicates that are left. */
  lemma JoinPushed(db: Database, ps: Predicates, l: Scope, probe: Rows, r: Scope, build: Rows, missing: Scope)
    requires GoodRows(db, l, probe) && GoodRows(db, r, build) && Independent(l, r)
    ensures var remaining := RemainingSet(l, r, ps);
            FilterRows(db, NotConditions(l, r, remaining.equality) + remaining.others,
                       Join(Inner, None, Conditions(l, r, remaining.equality), missing,
                            FilterRows(db, All(ProbeSet(l, r, ps)), probe), FilterRows(db, All(BuildSet(l, r, ps)), build))) ==
            FilterRows(db, All(ps), Product(probe, build))
  {
    var remaining := RemainingSet(l, r, ps);
    var keep, ka, kb := Keeps(db, All(ps)), Keeps(db, All(ProbeSet(l, r, ps))), Keeps(db, All(BuildSet(l, r, ps)));
    var kr := Keeps(db, All(remaining));
    var a', b' := Select(ka, probe), Select(kb, build);
    forall a, b | a in probe && b in build
      ensures keep(a + b) == (ka(a) && kb(b) && kr(a + b))
    {
      SplitOnJoined(db, ps, a, b);
    }
    SelectProduct(keep, ka, kb, kr, probe, build);
    SelectGood(db, l, ka, probe);
    SelectGood(db, r, kb, build);
    SetMembers(l, r, ps);
    JoinRemaining(db, remaining, l, a', r, b', missing);
  }

  lemma JoinRemaining(db: Database, remaining: Predicates, l: Scope, probe: Rows, r: Scope, build: Rows, missing: Scope)
    requires GoodRows(db, l, probe) && GoodRows(db, r, build) && Independent(l, r)
    requires AllRemaining(l, r, All(remaining))
    ensures FilterRows(db, NotConditions(l, r, remaining.equality) + remaining.others,
                       Join(Inner, None, Conditions(l, r, remaining.equality), missing, probe, build)) ==
            FilterRows(db, All(remaining), Product(probe, build))
  {
    var conds, rest := Conditions(l, r, remaining.equality), NotConditions(l, r, remaining.equality) + remaining.others;
    var kr, ke := Keeps(db, All(remaining)), Keeps(db, rest);
    forall a, b | a in probe && b in build
      ensures kr(a + b) == (Matches(conds, a, b) && ke(a + b))
    {
      AllHoldConcat(db, remaining.equality, remaining.others, a + b);
      AllHoldConcat(db, NotConditions(l, r, remaining.equality), remaining.others, a + b);
      ConditionsHold(db, remaining.equality, a, b);
    }
    JoinSelected(conds, missing, kr, ke, probe, build);
  }

  /** Selecting from a join selects from the product by conditions and test together. */
  lemma {:induction false} JoinSelected(conds: seq<JoinCondition>, missing: Scope, keep: Row -> bool, rest: Row -> bool, probe: Rows, build: Rows)
    requires forall a, b | a in probe && b in build :: keep(a + b) == (Matches(conds, a, b) && rest(a + b))
    ensures Select(rest, Join(Inner, None, conds, missing, probe, build)) == Select(keep, Product(probe, build))
    decreases |probe|
  {
    if probe != [] {
      var a, tail := probe[0], probe[1..];
      assert a in probe;
      JoinSelected(conds, missing, keep, rest, tail, build);
      SelectPaired(keep, true, b => Matches(conds, a, b), rest, a, build);
      SelectConcat(keep, Paired(a, build), Product(tail, build));
      SelectConcat(rest, Paired(a, MatchesOf(conds, a, build)), Join(Inner, None, conds, missing, tail, build));
    }
  }

  // ----- optional cross products -----

  /** The build row that stands in when an optional build side is empty. */
  function NullRow(acc: Accumulate, r: Scope): Row {
    Filled(r, Null) + MarkRow(AccumulateMark(acc), false)
  }

  /** Pushing predicates below an optional build side is harmless when it stays empty, stays non-empty,
      or no probe row with nulls beside it would pass. */
  ghost predicate NullRowHarmless(db: Database, acc: Accumulate, ps: Predicates, l: Scope, probe: Rows, r: Scope, build: Rows) {
    || build == []
    || FilterRows(db, All(BuildSet(l, r, ps)), build) != []
    || FilterRows(db, All(ps), Product(probe, [NullRow(acc, r)])) == []
  }

  /** An equality with an operand of the build side, the mark aside: it is unknown of nulls. */
  predicate RejectsNulls(acc: Accumulate, r: Scope, p: Expr) {
    && p.Equals? && p !in r && p !in MarkScope(AccumulateMark(acc))
    && ((p.left in r && p.left !in MarkScope(AccumulateMark(acc))) || (p.right in r && p.right !in MarkScope(AccumulateMark(acc))))
  }

  /** A condition on the plan alone: no predicate goes to the build side alone, or some pending predicate rejects nulls. */
  predicate NullRowUnused(acc: Accumulate, ps: Predicates, l: Scope, r: Scope) {
    All(BuildSet(l, r, ps)) == [] || exists p :: p in All(ps) && p !in l && RejectsNulls(acc, r, p)
  }

  lemma NullsRejected(db: Database, acc: Accumulate, r: Scope, p: Expr, a: Row)
    requires RejectsNulls(acc, r, p) && p !in a
    ensures !Holds(db, p, a + NullRow(acc, r))
  {
    var row := a + NullRow(acc, r);
    assert p !in row;
    assert p.left in r && p.left !in MarkScope(AccumulateMark(acc)) ==> Eval(db, p.left, row) == Null;
    assert p.right in r && p.right !in MarkScope(AccumulateMark(acc)) ==> Eval(db, p.right, row) == Null;
  }

  /** Then the null row does no harm, whatever the rows are. */
  lemma UnusedHarmless(db: Database, acc: Accumulate, ps: Predicates, l: Scope, probe: Rows, r: Scope, build: Rows)
    requires NullRowUnused(acc, ps, l, r) && GoodRows(db, l, probe)
    ensures NullRowHarmless(db, acc, ps, l, probe, r, build)
  {
    if All(BuildSet(l, r, ps)) == [] {
      SelectAll(Keeps(db, []), build);
    } else {
      var p :| p in All(ps) && p !in l && RejectsNulls(acc, r, p);
      var product := Product(probe, [NullRow(acc, r)]);
      forall x | x in product
        ensures !Keeps(db, All(ps))(x)
      {
        var a := ProductNull(probe, NullRow(acc, r), x);
        NullsRejected(db, acc, r, p, a);
        var i :| 0 <= i < |All(ps)| && All(ps)[i] == p;
        assert !Holds(db, All(ps)[i], x);
      }
      SelectNone(Keeps(db, All(ps)), product);
    }
  }

  lemma {:induction false} ProductNull(probe: Rows, b: Row, x: Row) returns (a: Row)
    requires x in Product(probe, [b])
    ensures a in probe && x == a + b
    decreases |probe|
  {
    a := probe[0];
    assert [b][1..] == [] && Paired(a, [b]) == [a + b];
    if x != a + b {
      a := ProductNull(probe[1..], b, x);
    }
  }

  /** When a cross product may be visited: a regular one always, an optional one that becomes a join only
      without a mark, and one that stays only if the null row does no harm. */
  ghost predicate CrossSafe(db: Database, acc: Accumulate, ps: Predicates, l: Scope, probe: Rows, r: Scope, build: Rows) {
    acc.Optional? ==>
      if Conditions(l, r, RemainingSet(l, r, ps).equality) != [] then acc.mark.None?
      else NullRowHarmless(db, acc, ps, l, probe, r, build)
  }

  lemma {:induction false} WithoutMark(rows: Rows)
    ensures WithMark(rows, map[]) == rows
    decreases |rows|
  {
    if rows != [] {
      WithoutMark(rows[1..]);
      assert rows[0] + map[] == rows[0];
    }
  }

  lemma {:induction false} WithMarkMember(rows: Rows, m: Row, x: Row)
    ensures x in WithMark(rows, m) <==> exists i :: 0 <= i < |rows| && x == rows[i] + m
    decreases |rows|
  {
    if rows != [] {
      WithMarkMember(rows[1..], m, x);
      if i :| 0 <= i < |rows[1..]| && x == rows[1..][i] + m {
        assert x == rows[i + 1] + m;
      }
      if i :| 0 <= i < |rows| && x == rows[i] + m {
        if i > 0 {
          assert x == rows[1..][i - 1] + m;
        }
      }
    }
  }

  lemma {:induction false} WithMarkSelect(kb: Row -> bool, kt: Row -> bool, rows: Rows, m: Row)
    requires forall b | b in rows :: kt(b + m) == kb(b)
    ensures Select(kt, WithMark(rows, m)) == WithMark(Select(kb, rows), m)
    decreases |rows|
  {
    if rows != [] {
      assert rows[0] in rows;
      WithMarkSelect(kb, kt, rows[1..], m);
      assert WithMark(rows, m)[1..] == WithMark(rows[1..], m);
      if kb(rows[0]) {
        assert Select(kb, rows)[1..] == Select(kb, rows[1..]);
      } else {
        assert Select(kb, rows) == Select(kb, rows[1..]);
      }
    }
  }

  lemma {:induction false} ProductEmpty(probe: Rows)
    ensures Product(probe, []) == []
    decreases |probe|
  {
    if probe != [] {
      ProductEmpty(probe[1..]);
    }
  }

  lemma {:induction false} JoinEmpty(conds: seq<JoinCondition>, missing: Scope, probe: Rows)
    ensures Join(Inner, None, conds, missing, probe, []) == []
    decreases |probe|
  {
    if probe != [] {
      JoinEmpty(conds, missing, probe[1..]);
    }
  }

  /** Only the probe side filtered: the predicates above still decide. */
  lemma ProbePushed(db: Database, ps: Predicates, l: Scope, probe: Rows, r: Scope, t: Scope, build: Rows)
    requires GoodRows(db, l, probe) && GoodRows(db, t, build) && Independent(l, t)
    ensures FilterRows(db, All(ps), Product(FilterRows(db, All(ProbeSet(l, r, ps)), probe), build)) ==
            FilterRows(db, All(ps), Product(probe, build))
  {
    var keep, ka := Keeps(db, All(ps)), Keeps(db, All(ProbeSet(l, r, ps)));
    SetMembers(l, r, ps);
    forall a, b | a in probe && b in build
      ensures keep(a + b) == (ka(a) && true && keep(a + b))
    {
      AllHoldSplit(db, l, r, ps, a + b);
      PushedHold(db, All(ProbeSet(l, r, ps)), a + b, a, b);
    }
    SelectProduct(keep, ka, _ => true, keep, probe, build);
    SelectAll(_ => true, build);
  }

  lemma IndependentPart(l: Scope, r: Scope, t: Scope)
    requires Independent(l, r + t)
    ensures Independent(l, r)
  {
    forall e | e in l && Evaluable(r, e)
      ensures Constant(e)
    {
      EvaluableMore(r, r + t, e);
    }
  }

  lemma {:induction false} EvaluableMore(s: Scope, t: Scope, e: Expr)
    requires s <= t && Evaluable(s, e)
    ensures Evaluable(t, e)
    decreases e
  {
    if e !in s {
      match e
      case Cast(c) => EvaluableMore(s, t, c);
      case Equals(x, y) =>
        EvaluableMore(s, t, x);
        EvaluableMore(s, t, y);
      case Function(_, args) =>
        forall i | 0 <= i < |args|
          ensures Evaluable(t, args[i])
        {
          EvaluableMore(s, t, args[i]);
        }
      case _ =>
    }
  }

  /** What passes above the product passed the pushed predicates of the build side. */
  lemma KeptBuildRow(db: Database, ps: Predicates, l: Scope, r: Scope, a: Row, b: Row, m: Row)
    requires Independent(a.Keys, (b + m).Keys) && Independent(b.Keys, m.Keys) && b.Keys == r
    requires Coherent(db, a) && Coherent(db, b) && Coherent(db, m)
    requires AllHold(db, All(ps), a + (b + m))
    ensures AllHold(db, All(BuildSet(l, r, ps)), b)
  {
    var pushed := All(BuildSet(l, r, ps));
    SetMembers(l, r, ps);
    AllHoldSplit(db, l, r, ps, a + (b + m));
    forall p | p in pushed
      ensures Evaluable((b + m).Keys, p)
    {
      EvaluableMore(r, (b + m).Keys, p);
    }
    CoherentJoined(db, b, m);
    PushedHold(db, pushed, a + (b + m), b + m, a);
    PushedHold(db, pushed, b + m, b, m);
  }

  /** The build rows with their mark, pushed predicates applied or not. */
  lemma MarkedBuild(db: Database, ps: Predicates, l: Scope, probe: Rows, r: Scope, build: Rows, m: Row)
    requires GoodRows(db, l, probe) && GoodRows(db, r, build) && Coherent(db, m)
    requires Independent(l, r + m.Keys) && Independent(r, m.Keys)
    ensures FilterRows(db, All(ps), Product(probe, WithMark(FilterRows(db, All(BuildSet(l, r, ps)), build), m))) ==
            FilterRows(db, All(ps), Product(probe, WithMark(build, m)))
  {
    var keep, kb := Keeps(db, All(ps)), Keeps(db, All(BuildSet(l, r, ps)));
    SetMembers(l, r, ps);
    forall b | b in build
      ensures kb(b + m) == kb(b)
    {
      PushedHold(db, All(BuildSet(l, r, ps)), b + m, b, m);
    }
    WithMarkSelect(kb, kb, build, m);
    forall a, x | a in probe && x in WithMark(build, m)
      ensures keep(a + x) == (true && kb(x) && keep(a + x))
    {
      WithMarkMember(build, m, x);
      var i :| 0 <= i < |build| && x == build[i] + m;
      assert build[i] in build && (build[i] + m).Keys == r + m.Keys;
      if keep(a + x) {
        KeptBuildRow(db, ps, l, r, a, build[i], m);
      }
    }
    SelectProduct(keep, _ => true, kb, keep, probe, WithMark(build, m));
    SelectAll(_ => true, probe);
  }

  lemma NonePass(db: Database, ps: Predicates, l: Scope, probe: Rows, r: Scope, build: Rows, m: Row)
    requires GoodRows(db, l, probe) && GoodRows(db, r, build) && Coherent(db, m)
    requires Independent(l, r + m.Keys) && Independent(r, m.Keys)
    requires FilterRows(db, All(BuildSet(l, r, ps)), build) == []
    ensures FilterRows(db, All(ps), Product(probe, WithMark(build, m))) == []
  {
    MarkedBuild(db, ps, l, probe, r, build, m);
    ProductEmpty(probe);
  }

  /** Exactly when an optional cross product that stays one keeps its rows: the null row does no harm. */
  lemma OptionalExact(db: Database, acc: Accumulate, ps: Predicates, l: Scope, probe: Rows, r: Scope, build: Rows)
    requires acc.Optional? && GoodRows(db, l, probe) && GoodRows(db, r, build) && NoConstant(r + MarkScope(acc.mark))
    requires Independent(l, r + MarkScope(acc.mark)) && Independent(r, MarkScope(acc.mark))
    ensures FilterRows(db, All(ps), Product(FilterRows(db, All(ProbeSet(l, r, ps)), probe),
                                            Accumulated(acc, r, FilterRows(db, All(BuildSet(l, r, ps)), build)))) ==
            FilterRows(db, All(ps), Product(probe, Accumulated(acc, r, build)))
            <==> NullRowHarmless(db, acc, ps, l, probe, r, build)
  {
    var build' := FilterRows(db, All(BuildSet(l, r, ps)), build);
    var m := MarkRow(acc.mark, true);
    assert m.Keys == MarkScope(acc.mark);
    SelectGood(db, r, Keeps(db, All(BuildSet(l, r, ps))), build);
    AccumulatedGood(db, acc, r, build');
    ProbePushed(db, ps, l, probe, r, r + MarkScope(acc.mark), Accumulated(acc, r, build'));
    if build != [] {
      if build' != [] {
        MarkedBuild(db, ps, l, probe, r, build, m);
      } else {
        NonePass(db, ps, l, probe, r, build, m);
      }
    }
  }

  /** No row of nulls passes a join condition. */
  lemma NullKeyFails(db: Database, ps: Predicates, l: Scope, r: Scope, a: Row)
    requires a.Keys == l && Coherent(db, a) && Independent(l, r) && NoConstant(r)
    requires Conditions(l, r, RemainingSet(l, r, ps).equality) != []
    ensures !AllHold(db, All(ps), a + Filled(r, Null))
  {
    var es := RemainingSet(l, r, ps).equality;
    var p := SomeCondition(l, r, es);
    var row := a + Filled(r, Null);
    CollectMember(x => !OnlyProbe(l, r, x) && !OnlyBuild(l, r, x), All(ps), p);
    assert p in All(RemainingSet(l, r, ps));
    assert p !in row;
    assert Eval(db, p.left, row).Null? || Eval(db, p.right, row).Null? by {
      assert row[ConditionOf(l, r, p).value.1] == Null;
    }
    AllHoldMembers(db, All(ps), row);
  }

  lemma {:induction false} SomeCondition(l: Scope, r: Scope, ps: seq<Expr>) returns (p: Expr)
    requires Conditions(l, r, ps) != []
    ensures p in ps && ConditionOf(l, r, p).Some?
    decreases |ps|
  {
    p := ps[|ps| - 1];
    if ConditionOf(l, r, p).None? {
      p := SomeCondition(l, r, ps[..|ps| - 1]);
    }
  }

  /** An optional cross product without a mark may become a join: the conditions reject the null row. */
  lemma OptionalJoin(db: Database, ps: Predicates, l: Scope, probe: Rows, r: Scope, build: Rows, missing: Scope)
    requires GoodRows(db, l, probe) && GoodRows(db, r, build) && Independent(l, r) && NoConstant(r)
    requires Conditions(l, r, RemainingSet(l, r, ps).equality) != []
    ensures var remaining := RemainingSet(l, r, ps);
            FilterRows(db, NotConditions(l, r, remaining.equality) + remaining.others,
                       Join(Inner, None, Conditions(l, r, remaining.equality), missing,
                            FilterRows(db, All(ProbeSet(l, r, ps)), probe), FilterRows(db, All(BuildSet(l, r, ps)), build))) ==
            FilterRows(db, All(ps), Product(probe, Accumulated(Optional(None), r, build)))
  {
    if build != [] {
      WithoutMark(build);
      JoinPushed(db, ps, l, probe, r, build, missing);
    } else {
      var remaining := RemainingSet(l, r, ps);
      JoinEmpty(Conditions(l, r, remaining.equality), missing, FilterRows(db, All(ProbeSet(l, r, ps)), probe));
      var nulls := Filled(r, Null) + MarkRow(None, false);
      assert nulls == Filled(r, Null);
      forall x | x in Product(probe, [nulls])
        ensures !Keeps(db, All(ps))(x)
      {
        var a := ProductMember(probe, nulls, x);
        NullKeyFails(db, ps, l, r, a);
      }
      SelectNone(Keeps(db, All(ps)), Product(probe, [nulls]));
    }
  }

  lemma {:induction false} ProductMember(probe: Rows, b: Row, x: Row) returns (a: Row)
    requires x in Product(probe, [b])
    ensures a in probe && x == a + b
    decreases |probe|
  {
    a := probe[0];
    PairedMember(a, [b], x);
    if x !in Paired(a, [b]) {
      a := ProductMember(probe[1..], b, x);
    }
  }

  // ----- the theorem -----

  /** Every cross product met on the way down may be visited with the predicates that reach it. Scans by
      primary key are yet to come: this pass introduces them. */
  ghost predicate PushSafe(db: Database, p: Plan, ps: Predicates) {
    match p
    case PrimaryKeyScan(_, _, _, _) => false
    case Filter(e, c) => PushSafe(db, c, if e.Literal? then ps else Add(ps, e))
    case CrossProduct(acc, l, r) =>
      && PushSafe(db, l, ProbeSet(Schema(l), Schema(r), ps))
      && PushSafe(db, r, BuildSet(Schema(l), Schema(r), ps))
      && CrossSafe(db, acc, ps, Schema(l), RowsOf(db, l), Schema(r), RowsOf(db, r))
    case HashJoin(_, _, _, _, l, r) => PushSafe(db, l, NO_PREDICATES) && PushSafe(db, r, NO_PREDICATES)
    case Extend(_, _, _, c) => PushSafe(db, c, NO_PREDICATES)
    case Other(_, _, children) => forall i | 0 <= i < |children| :: PushSafe(db, children[i], NO_PREDICATES)
    case _ => true
  }

  /** The children of a cross product were visited correctly. */
  ghost predicate ChildrenVisited(db: Database, l: Plan, r: Plan, l': Plan, r': Plan, ps: Predicates) {
    && Schema(l') == Schema(l) && RowsOf(db, l') == FilterRows(db, All(ProbeSet(Schema(l), Schema(r), ps)), RowsOf(db, l))
    && Schema(r') == Schema(r) && RowsOf(db, r') == FilterRows(db, All(BuildSet(Schema(l), Schema(r), ps)), RowsOf(db, r))
  }

  /** A cross product that stays one. */
  lemma CrossStays(db: Database, acc: Accumulate, l: Plan, r: Plan, l': Plan, r': Plan, ps: Predicates)
    requires WellFormed(db, CrossProduct(acc, l, r)) && ChildrenVisited(db, l, r, l', r', ps)
    requires acc.Optional? ==> NullRowHarmless(db, acc, ps, Schema(l), RowsOf(db, l), Schema(r), RowsOf(db, r))
    ensures RowsOf(db, Finish(CrossProduct(acc, l', r'), ps)) == FilterRows(db, All(ps), RowsOf(db, CrossProduct(acc, l, r)))
    ensures Schema(Finish(CrossProduct(acc, l', r'), ps)) == Schema(CrossProduct(acc, l, r))
  {
    hide All, ProbeSet, BuildSet;
    RowsGood(db, l);
    RowsGood(db, r);
    AppendFiltersRows(db, All(ps), CrossProduct(acc, l', r'));
    if acc.Regular? {
      IndependentPart(Schema(l), Schema(r), {});
      ProductPushed(db, ps, Schema(l), RowsOf(db, l), Schema(r), RowsOf(db, r));
    } else {
      OptionalExact(db, acc, ps, Schema(l), RowsOf(db, l), Schema(r), RowsOf(db, r));
    }
  }

  /** The rows of the join that replaces a cross product. */
  lemma JoinRows(db: Database, acc: Accumulate, l: Plan, r: Plan, l': Plan, r': Plan, ps: Predicates)
    requires ChildrenVisited(db, l, r, l', r', ps)
    requires Conditions(Schema(l), Schema(r), RemainingSet(Schema(l), Schema(r), ps).equality) != []
    ensures var s, t, remaining := Schema(l), Schema(r), RemainingSet(Schema(l), Schema(r), ps);
            var v := RewriteCross(acc, l', r', ps, remaining);
            && RowsOf(db, v) == FilterRows(db, NotConditions(s, t, remaining.equality) + remaining.others,
                                           Join(Inner, None, Conditions(s, t, remaining.equality), t - s,
                                                FilterRows(db, All(ProbeSet(s, t, ps)), RowsOf(db, l)),
                                                FilterRows(db, All(BuildSet(s, t, ps)), RowsOf(db, r))))
            && Schema(v) == s + t
  {
    hide All, ProbeSet, BuildSet, RemainingSet, Conditions, NotConditions, AppendFilters, FilterRows;
    var s, t, remaining := Schema(l), Schema(r), RemainingSet(Schema(l), Schema(r), ps);
    AppendFiltersRows(db, NotConditions(s, t, remaining.equality) + remaining.others,
                      HashJoin(Conditions(s, t, remaining.equality), Inner, None, Prohibit, l', r'));
  }

  /** A cross product that becomes a join. */
  lemma CrossJoins(db: Database, acc: Accumulate, l: Plan, r: Plan, l': Plan, r': Plan, ps: Predicates)
    requires WellFormed(db, CrossProduct(acc, l, r)) && ChildrenVisited(db, l, r, l', r', ps)
    requires AccumulateMark(acc).None? && Conditions(Schema(l), Schema(r), RemainingSet(Schema(l), Schema(r), ps).equality) != []
    ensures var v := RewriteCross(acc, l', r', ps, RemainingSet(Schema(l), Schema(r), ps));
            && RowsOf(db, v) == FilterRows(db, All(ps), RowsOf(db, CrossProduct(acc, l, r)))
            && Schema(v) == Schema(CrossProduct(acc, l, r))
  {
    hide All, ProbeSet, BuildSet, RemainingSet, RewriteCross, Conditions, NotConditions, Join, FilterRows, ChildrenVisited;
    var s, t := Schema(l), Schema(r);
    JoinRows(db, acc, l, r, l', r', ps);
    RowsGood(db, l);
    RowsGood(db, r);
    IndependentPart(s, t, {});
    if acc.Regular? {
      JoinPushed(db, ps, s, RowsOf(db, l), t, RowsOf(db, r), t - s);
    } else {
      OptionalJoin(db, ps, s, RowsOf(db, l), t, RowsOf(db, r), t - s);
    }
  }

  lemma CrossCorrect(db: Database, acc: Accumulate, l: Plan, r: Plan, l': Plan, r': Plan, ps: Predicates)
    requires WellFormed(db, CrossProduct(acc, l, r)) && ChildrenVisited(db, l, r, l', r', ps)
    requires CrossSafe(db, acc, ps, Schema(l), RowsOf(db, l), Schema(r), RowsOf(db, r))
    ensures var v := RewriteCross(acc, l', r', ps, RemainingSet(Schema(l), Schema(r), ps));
            && RowsOf(db, v) == FilterRows(db, All(ps), RowsOf(db, CrossProduct(acc, l, r)))
            && Schema(v) == Schema(CrossProduct(acc, l, r))
  {
    hide All, ProbeSet, BuildSet, RemainingSet, WellFormed, RowsOf, NullRowHarmless;
    if Conditions(Schema(l), Schema(r), RemainingSet(Schema(l), Schema(r), ps).equality) == [] {
      CrossStays(db, acc, l, r, l', r', ps);
    } else {
      CrossJoins(db, acc, l, r, l', r', ps);
    }
  }

  lemma FilterNone(db: Database, rows: Rows)
    ensures FilterRows(db, All(NO_PREDICATES), rows) == rows
  {
    SelectAll(Keeps(db, All(NO_PREDICATES)), rows);
  }

  /** Filter push-down preserves meaning: what it returns for `p` under the pending predicates has the
      schema of `p` and the rows of `p` on which all of them hold, in the same order. */
  lemma {:induction false} VisitCorrect(db: Database, p: Plan, ps: Predicates)
    requires WellFormed(db, p) && PushSafe(db, p, ps) && AllEvaluable(Schema(p), All(ps))
    ensures RowsOf(db, Visit(p, ps)) == FilterRows(db, All(ps), RowsOf(db, p))
    ensures Schema(Visit(p, ps)) == Schema(p)
    decreases p, 1
  {
    match p
    case Scan(v, tables, properties) => ScanCorrect(db, v, tables, properties, ps);
    case Filter(e, c) => VisitFilter(db, e, c, ps);
    case CrossProduct(acc, l, r) =>
      SetMembers(Schema(l), Schema(r), ps);
      VisitCorrect(db, l, ProbeSet(Schema(l), Schema(r), ps));
      VisitCorrect(db, r, BuildSet(Schema(l), Schema(r), ps));
      CrossCorrect(db, acc, l, r, Visit(l, ProbeSet(Schema(l), Schema(r), ps)), Visit(r, BuildSet(Schema(l), Schema(r), ps)), ps);
    case HashJoin(conds, jt, mark, sip, l, r) =>
      VisitCorrect(db, l, NO_PREDICATES);
      VisitCorrect(db, r, NO_PREDICATES);
      FilterNone(db, RowsOf(db, l));
      FilterNone(db, RowsOf(db, r));
      AppendFiltersRows(db, All(ps), HashJoin(conds, jt, mark, sip, Visit(l, NO_PREDICATES), Visit(r, NO_PREDICATES)));
    case Extend(id, bound, added, c) =>
      VisitCorrect(db, c, NO_PREDICATES);
      FilterNone(db, RowsOf(db, c));
      AppendFiltersRows(db, All(ps), Extend(id, bound, added, Visit(c, NO_PREDICATES)));
    case Other(id, s, children) =>
      VisitAllCorrect(db, children);
      AppendFiltersRows(db, All(ps), Other(id, s, VisitAll(children)));
    case EmptyResult(_) => AppendFiltersRows(db, All(ps), p);
    case TableFunctionCall(_, _) => AppendFiltersRows(db, All(ps), p);
  }

  /** A filter joins the pending predicates; a literal one is decided at once. */
  lemma {:induction false} VisitFilter(db: Database, e: Expr, c: Plan, ps: Predicates)
    requires WellFormed(db, Filter(e, c)) && PushSafe(db, Filter(e, c), ps) && AllEvaluable(Schema(c), All(ps))
    ensures RowsOf(db, Visit(Filter(e, c), ps)) == FilterRows(db, All(ps), RowsOf(db, Filter(e, c)))
    ensures Schema(Visit(Filter(e, c), ps)) == Schema(c)
    decreases c, 2
  {
    var rows := RowsOf(db, c);
    SelectTwice(Keeps(db, All(ps)), Keeps(db, [e]), rows);
    RowsGood(db, c);
    if e.Literal? {
      forall x | x in rows
        ensures Keeps(db, [e])(x) == (e.value == Bool(true))
      {
        KeepsOne(db, e, x);
        ConstantEval(db, e, x);
      }
      if e.value == Bool(true) {
        VisitCorrect(db, c, ps);
        SelectAll(Keeps(db, [e]), rows);
      } else {
        SelectNone(Keeps(db, [e]), rows);
      }
    } else {
      var qs := Add(ps, e);
      assert forall x | x in All(qs) :: x in All(ps) || x == e;
      VisitCorrect(db, c, qs);
      forall x | x in rows
        ensures (Keeps(db, All(ps))(x) && Keeps(db, [e])(x)) == Keeps(db, All(qs))(x)
      {
        KeepsOne(db, e, x);
        AllHoldAdd(db, ps, e, x);
      }
      SelectSame(x => Keeps(db, All(ps))(x) && Keeps(db, [e])(x), Keeps(db, All(qs)), rows);
    }
  }

  lemma {:induction false} VisitAllCorrect(db: Database, ps: seq<Plan>)
    requires forall i | 0 <= i < |ps| :: WellFormed(db, ps[i]) && PushSafe(db, ps[i], NO_PREDICATES)
    ensures RowsOfAll(db, VisitAll(ps)) == RowsOfAll(db, ps)
    decreases ps, 0
  {
    if ps != [] {
      VisitCorrect(db, ps[0], NO_PREDICATES);
      FilterNone(db, RowsOf(db, ps[0]));
      VisitAllCorrect(db, ps[1..]);
    }
  }

  // ----- where it does not -----

  /** An optional cross product left in place keeps its rows exactly when the null row does no harm. */
  lemma OptionalVisitExact(db: Database, acc: Accumulate, l: Plan, r: Plan, ps: Predicates)
    requires acc.Optional? && WellFormed(db, CrossProduct(acc, l, r))
    requires PushSafe(db, l, ProbeSet(Schema(l), Schema(r), ps)) && PushSafe(db, r, BuildSet(Schema(l), Schema(r), ps))
    requires Conditions(Schema(l), Schema(r), RemainingSet(Schema(l), Schema(r), ps).equality) == []
    ensures RowsOf(db, Visit(CrossProduct(acc, l, r), ps)) == FilterRows(db, All(ps), RowsOf(db, CrossProduct(acc, l, r)))
            <==> NullRowHarmless(db, acc, ps, Schema(l), RowsOf(db, l), Schema(r), RowsOf(db, r))
  {
    hide All, ProbeSet, BuildSet, RemainingSet, Conditions, FilterRows, NullRowHarmless;
    var lp, rp := ProbeSet(Schema(l), Schema(r), ps), BuildSet(Schema(l), Schema(r), ps);
    SetMembers(Schema(l), Schema(r), ps);
    VisitCorrect(db, l, lp);
    VisitCorrect(db, r, rp);
    RowsGood(db, l);
    RowsGood(db, r);
    AppendFiltersRows(db, All(ps), CrossProduct(acc, Visit(l, lp), Visit(r, rp)));
    OptionalExact(db, acc, ps, Schema(l), RowsOf(db, l), Schema(r), RowsOf(db, r));
  }

  /** An optional cross product that becomes a join keeps its schema exactly when it has no mark. */
  lemma OptionalMarkExact(db: Database, acc: Accumulate, l: Plan, r: Plan, ps: Predicates)
    requires acc.Optional? && WellFormed(db, CrossProduct(acc, l, r)) && MarkScope(acc.mark) !! Schema(l) + Schema(r)
    requires PushSafe(db, l, ProbeSet(Schema(l), Schema(r), ps)) && PushSafe(db, r, BuildSet(Schema(l), Schema(r), ps))
    requires Conditions(Schema(l), Schema(r), RemainingSet(Schema(l), Schema(r), ps).equality) != []
    ensures Schema(Visit(CrossProduct(acc, l, r), ps)) == Schema(CrossProduct(acc, l, r)) <==> acc.mark.None?
  {
    hide All, ProbeSet, BuildSet, RemainingSet, Conditions, FilterRows;
    var lp, rp := ProbeSet(Schema(l), Schema(r), ps), BuildSet(Schema(l), Schema(r), ps);
    SetMembers(Schema(l), Schema(r), ps);
    VisitCorrect(db, l, lp);
    VisitCorrect(db, r, rp);
    JoinRows(db, acc, l, r, Visit(l, lp), Visit(r, rp), ps);
  }

  const EXAMPLE_PROPERTY: Expr := Property("b", "p", false)
  const EXAMPLE_TEST: Expr := Function("is_null", [EXAMPLE_PROPERTY])
  const EXAMPLE_PROBE: Plan := Scan("a", [0], [])
  const EXAMPLE_BUILD: Plan := Scan("b", [1], [EXAMPLE_PROPERTY])

  /** One node per table; the one function tests for null. */
  function ExampleDatabase(): Database {
    Database(_ => Null, v => v, (_, args) => Bool(args == [Null]), t => [Node(Datum(t), map["p" := Datum(t)])], _ => "p",
             (_, _) => [], (_, _) => [])
  }

  lemma ExampleSchemas()
    ensures Schema(EXAMPLE_PROBE) == {NodeID("a")} && Schema(EXAMPLE_BUILD) == {NodeID("b"), EXAMPLE_PROPERTY}
    ensures WellFormed(ExampleDatabase(), CrossProduct(Optional(None), EXAMPLE_PROBE, EXAMPLE_BUILD))
  {
    assert [EXAMPLE_PROPERTY][0] == EXAMPLE_PROPERTY;
    assert Schema(EXAMPLE_PROBE) == {NodeID("a")};
    assert Schema(EXAMPLE_BUILD) == {NodeID("b"), EXAMPLE_PROPERTY};
  }

  lemma ExampleTestEval(row: Row)
    requires EXAMPLE_TEST !in row && EXAMPLE_PROPERTY in row
    ensures Keeps(ExampleDatabase(), [EXAMPLE_TEST])(row) == row[EXAMPLE_PROPERTY].Null?
  {
    var db, args := ExampleDatabase(), [EXAMPLE_PROPERTY];
    KeepsOne(db, EXAMPLE_TEST, row);
    assert seq(|args|, i requires 0 <= i < |args| => Eval(db, args[i], row)) == [row[EXAMPLE_PROPERTY]];
  }

  lemma CollectOne(keep: Expr -> bool, e: Expr)
    ensures Collect(keep, [e]) == if keep(e) then Add(NO_PREDICATES, e) else NO_PREDICATES
  {
    assert [e][..0] == [];
  }

  lemma ExampleRows()
    ensures RowsOf(ExampleDatabase(), EXAMPLE_PROBE) == [map[NodeID("a") := Datum(0)]]
    ensures RowsOf(ExampleDatabase(), EXAMPLE_BUILD) == [map[NodeID("b") := Datum(1), EXAMPLE_PROPERTY := Datum(1)]]
  {
    var db := ExampleDatabase();
    ExampleSchemas();
    ExampleScan(db, 0, "a", []);
    ExampleScan(db, 1, "b", [EXAMPLE_PROPERTY]);
    hide TableNodes, NodeRows, WellFormed;
    var a, b: Row := map[NodeID("a") := Datum(0)], map[NodeID("b") := Datum(1), EXAMPLE_PROPERTY := Datum(1)];
    assert NodeRow("a", [], db.nodes(0)[0]) == a;
    assert NodeRow("b", [EXAMPLE_PROPERTY], db.nodes(1)[0]) == b;
  }

  lemma ExampleScan(db: Database, t: nat, v: string, properties: seq<Expr>)
    requires |db.nodes(t)| == 1
    ensures RowsOf(db, Scan(v, [t], properties)) == [NodeRow(v, properties, db.nodes(t)[0])]
  {
    assert [t][1..] == [] && db.nodes(t)[1..] == [];
    assert TableNodes(db, [t]) == db.nodes(t);
  }

  lemma SelectOne(keep: Row -> bool, a: Row, b: Row)
    ensures Select(keep, [a]) == if keep(a) then [a] else []
    ensures Product([a], [b]) == [a + b]
  {
    assert [a][1..] == [] && [b][1..] == [];
    assert Paired(a, [b]) == [a + b];
    assert Product([], [b]) == [];
  }

  lemma ExampleTestScope(scope: Scope)
    requires EXAMPLE_TEST !in scope
    ensures Evaluable(scope, EXAMPLE_TEST) <==> EXAMPLE_PROPERTY in scope
  {
    var args := [EXAMPLE_PROPERTY];
    assert args[0] == EXAMPLE_PROPERTY && EXAMPLE_TEST == Function("is_null", args);
    assert Evaluable(scope, args[0]) <==> EXAMPLE_PROPERTY in scope;
  }

  lemma ExampleHarmful()
    ensures var db := ExampleDatabase();
            && RowsOf(db, EXAMPLE_BUILD) != []
            && FilterRows(db, [EXAMPLE_TEST], RowsOf(db, EXAMPLE_BUILD)) == []
            && FilterRows(db, [EXAMPLE_TEST], Product(RowsOf(db, EXAMPLE_PROBE), [NullRow(Optional(None), Schema(EXAMPLE_BUILD))])) != []
  {
    hide RowsOf, Eval, Keeps, Select, Product;
    ExampleSchemas();
    ExampleRows();
    var db, a, b: Row := ExampleDatabase(), map[NodeID("a") := Datum(0)], map[NodeID("b") := Datum(1), EXAMPLE_PROPERTY := Datum(1)];
    ExampleTestEval(b);
    var nulls := NullRow(Optional(None), Schema(EXAMPLE_BUILD));
    ExampleTestEval(a + nulls);
    SelectOne(Keeps(db, [EXAMPLE_TEST]), b, b);
    SelectOne(Keeps(db, [EXAMPLE_TEST]), a + nulls, b);
    SelectOne(Keeps(db, [EXAMPLE_TEST]), a, nulls);
  }

  /** An optional match filtered by a test for null: the pushed test empties the build side, and the null
      row that stands in for it passes. */
  lemma OptionalCounterexample()
    ensures var db, p := ExampleDatabase(), CrossProduct(Optional(None), EXAMPLE_PROBE, EXAMPLE_BUILD);
            var ps := Predicates([], [EXAMPLE_TEST]);
            && WellFormed(db, p) && AllEvaluable(Schema(p), All(ps))
            && RowsOf(db, Visit(p, ps)) != FilterRows(db, All(ps), RowsOf(db, p))
  {
    hide RowsOf, Visit, FilterRows;
    var db := ExampleDatabase();
    var ps := Predicates([], [EXAMPLE_TEST]);
    var s, t := Schema(EXAMPLE_PROBE), Schema(EXAMPLE_BUILD);
    ExampleSchemas();
    assert All(ps) == [EXAMPLE_TEST];
    ExampleTestScope(s);
    ExampleTestScope(t);
    ExampleTestScope(s + t);
    assert Schema(CrossProduct(Optional(None), EXAMPLE_PROBE, EXAMPLE_BUILD)) == s + t;
    CollectOne(p => OnlyProbe(s, t, p), EXAMPLE_TEST);
    CollectOne(p => OnlyBuild(s, t, p), EXAMPLE_TEST);
    CollectOne(p => !OnlyProbe(s, t, p) && !OnlyBuild(s, t, p), EXAMPLE_TEST);
    assert BuildSet(s, t, ps) == ps && RemainingSet(s, t, ps) == NO_PREDICATES;
    OptionalVisitExact(db, Optional(None), EXAMPLE_PROBE, EXAMPLE_BUILD, ps);
    ExampleHarmful();
  }
}
