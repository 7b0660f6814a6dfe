/**
 The filter push-down pass as it runs: a predicate set that is added to, popped from
 and cleared, and a visitor that consumes it. Each method is tied to the function
 that says what it returns; the meaning of that function is `VisitCorrect`.
 */
module FilterPushDownOptimizer {
  import opened Plans
  import opened FilterPushDown

  class PredicateSet {
    var equalityPredicates: seq<Expr>
    var nonEqualityPredicates: seq<Expr>

    function Contents(): Predicates
      reads this
    {
      Predicates(equalityPredicates, nonEqualityPredicates)
    }

    /** Only equalities are kept among the equalities. */
    ghost predicate Valid()
      reads this
    {
      forall i | 0 <= i < |equalityPredicates| :: equalityPredicates[i].Equals?
    }

    constructor ()
      ensures Valid() && Contents() == NO_PREDICATES
    {
      equalityPredicates := [];
      nonEqualityPredicates := [];
    }

    method AddPredicate(p: Expr)
      requires Valid()
      modifies this
      ensures Valid() && Contents() == Add(old(Contents()), p)
    {
      if p.Equals? {
        equalityPredicates := equalityPredicates + [p];
      } else {
        nonEqualityPredicates := nonEqualityPredicates + [p];
      }
    }

    function GetAllPredicates(): (ps: seq<Expr>)
      reads this
      ensures ps == All(Contents())
    {
      equalityPredicates + nonEqualityPredicates
    }

    method Clear()
      modifies this
      ensures Valid() && Contents() == NO_PREDICATES
    {
      equalityPredicates := [];
      nonEqualityPredicates := [];
    }

    /** Takes out the first comparison of the primary key, with the key on its left side. */
    method PopNodePKEqualityComparison(variable: string) returns (popped: Option<Expr>)
      requires Valid()
      modifies this
      ensures Valid()
      ensures var i := FirstKeyComparison(old(equalityPredicates), variable);
              if i == |old(equalityPredicates)| then popped.None? && Contents() == old(Contents())
              else popped == Some(Normalized(old(equalityPredicates)[i], variable)) && Contents() == Without(old(Contents()), i)
    {
      popped := None;
      var i: nat := 0;
      while i < |equalityPredicates|
        invariant i <= |equalityPredicates| && Contents() == old(Contents()) && popped.None?
        invariant forall j | 0 <= j < i :: !ComparesKey(equalityPredicates[j], variable)
      {
        var p := equalityPredicates[i];
        if IsNodePrimaryKey(p.left, variable) {
          popped := Some(p);
          break;
        } else if IsNodePrimaryKey(p.right, variable) {
          popped := Some(Equals(p.right, p.left));
          break;
        }
        i := i + 1;
      }
      if popped.Some? {
        equalityPredicates := equalityPredicates[..i] + equalityPredicates[i + 1..];
      }
    }
  }

  class Optimizer {
    const predicateSet: PredicateSet

    constructor (predicateSet: PredicateSet)
      ensures this.predicateSet == predicateSet
    {
      this.predicateSet := predicateSet;
    }

    static method AppendFiltersTo(ps: seq<Expr>, p: Plan) returns (root: Plan)
      ensures root == AppendFilters(ps, p)
    {
      root := p;
      for i := 0 to |ps|
        invariant root == AppendFilters(ps[..i], p)
      {
        root := Filter(ps[i], root);
        assert ps[..i + 1][..i] == ps[..i];
      }
      assert ps[..|ps|] == ps;
    }

    method FinishPushDown(p: Plan) returns (root: Plan)
      requires predicateSet.Valid()
      modifies predicateSet
      ensures predicateSet.Valid() && root == Finish(p, old(predicateSet.Contents()))
    {
      root := AppendFiltersTo(predicateSet.GetAllPredicates(), p);
      predicateSet.Clear();
    }

    method VisitOperator(p: Plan) returns (root: Plan)
      requires predicateSet.Valid()
      modifies predicateSet
      ensures predicateSet.Valid() && root == Visit(p, old(predicateSet.Contents()))
      decreases p, 1
    {
      match p
      case Filter(e, c) =>
        if e.Literal? {
          if e.value != Bool(true) {
            return EmptyResult(Schema(p));
          }
        } else {
          predicateSet.AddPredicate(e);
        }
        root := VisitOperator(c);
      case CrossProduct(acc, l, r) =>
        root := VisitCrossProductReplace(acc, l, r);
      case Scan(v, tables, properties) =>
        root := VisitScanNodeTableReplace(p, v, tables, properties);
      case PrimaryKeyScan(v, table, properties, _) =>
        root := VisitScanNodeTableReplace(p, v, [table], properties);
      case HashJoin(conds, jt, mark, sip, l, r) =>
        var l' := StartPushDown(l);
        var r' := StartPushDown(r);
        root := FinishPushDown(HashJoin(conds, jt, mark, sip, l', r'));
      case Extend(id, bound, added, c) =>
        var c' := StartPushDown(c);
        root := FinishPushDown(Extend(id, bound, added, c'));
      case Other(id, s, children) =>
        var visited := VisitChildren(children);
        root := FinishPushDown(Other(id, s, visited));
      case EmptyResult(_) =>
        root := FinishPushDown(p);
      case TableFunctionCall(_, _) =>
        root := FinishPushDown(p);
    }

    /** A new push-down for a child, with nothing pending. */
    static method StartPushDown(p: Plan) returns (root: Plan)
      ensures root == Visit(p, NO_PREDICATES)
      decreases p, 3
    {
      var ps := new PredicateSet();
      root := PushDownInto(ps, p);
    }

    static method VisitChildren(children: seq<Plan>) returns (visited: seq<Plan>)
      ensures visited == VisitAll(children)
      decreases children, 0
    {
      visited := [];
      for i := 0 to |children|
        invariant |visited| == i && visited + VisitAll(children[i..]) == VisitAll(children)
      {
        var v := StartPushDown(children[i]);
        assert children[i..][0] == children[i] && children[i..][1..] == children[i + 1..];
        visited := visited + [v];
      }
    }

    method VisitScanNodeTableReplace(scan: Plan, v: string, tables: seq<nat>, properties: seq<Expr>) returns (root: Plan)
      requires predicateSet.Valid()
      modifies predicateSet
      ensures predicateSet.Valid() && root == VisitScan(scan, v, tables, properties, old(predicateSet.Contents()))
    {
      var comparison: Option<Expr> := None;
      if |tables| == 1 {
        comparison := predicateSet.PopNodePKEqualityComparison(v);
      }
      root := scan;
      if comparison.Some? {
        var rhs := comparison.value.right;
        if IsConstantExpression(rhs) {
          root := PrimaryKeyScan(v, tables[0], properties, rhs);
        } else {
          predicateSet.AddPredicate(comparison.value);
        }
      }
      root := FinishPushDown(root);
    }

    /** Sorts the pending predicates by the side that can evaluate them. */
    method Partition(l: Scope, r: Scope) returns (probe: PredicateSet, build: PredicateSet, remaining: PredicateSet)
      requires predicateSet.Valid()
      ensures fresh(probe) && fresh(build) && fresh(remaining) && probe != build && build != remaining && probe != remaining
      ensures probe.Valid() && probe.Contents() == ProbeSet(l, r, predicateSet.Contents())
      ensures build.Valid() && build.Contents() == BuildSet(l, r, predicateSet.Contents())
      ensures remaining.Valid() && remaining.Contents() == RemainingSet(l, r, predicateSet.Contents())
    {
      remaining := new PredicateSet();
      probe := new PredicateSet();
      build := new PredicateSet();
      var ps := predicateSet.GetAllPredicates();
      for i := 0 to |ps|
        invariant fresh(probe) && fresh(build) && fresh(remaining)
        invariant probe != build && build != remaining && probe != remaining
        invariant probe.Valid() && probe.Contents() == Collect(p => OnlyProbe(l, r, p), ps[..i])
        invariant build.Valid() && build.Contents() == Collect(p => OnlyBuild(l, r, p), ps[..i])
        invariant remaining.Valid() && remaining.Contents() == Collect(p => !OnlyProbe(l, r, p) && !OnlyBuild(l, r, p), ps[..i])
      {
        var p := ps[i];
        assert ps[..i + 1][..i] == ps[..i];
        var inProbe, inBuild := Evaluable(l, p), Evaluable(r, p);
        if inProbe && !inBuild {
          probe.AddPredicate(p);
        } else if !inProbe && inBuild {
          build.AddPredicate(p);
        } else {
          remaining.AddPredicate(p);
        }
      }
      assert ps[..|ps|] == ps;
    }

    /** Turns equalities between the two sides into join conditions. */
    static method CollectJoinConditions(l: Scope, r: Scope, equalities: seq<Expr>)
      returns (conditions: seq<JoinCondition>, predicates: seq<Expr>)
      requires forall i | 0 <= i < |equalities| :: equalities[i].Equals?
      ensures conditions == Conditions(l, r, equalities) && predicates == NotConditions(l, r, equalities)
    {
      conditions, predicates := [], [];
      for i := 0 to |equalities|
        invariant conditions == Conditions(l, r, equalities[..i]) && predicates == NotConditions(l, r, equalities[..i])
      {
        var p := equalities[i];
        assert equalities[..i + 1][..i] == equalities[..i];
        if p.left in l && p.right in r {
          conditions := conditions + [(p.left, p.right)];
        } else if p.right in l && p.left in r {
          conditions := conditions + [(p.right, p.left)];
        } else {
          predicates := predicates + [p];
        }
      }
      assert equalities[..|equalities|] == equalities;
    }

    /** The cross product once its children are visited. */
    method FinishCrossProduct(acc: Accumulate, l: Plan, r: Plan, remaining: PredicateSet) returns (root: Plan)
      requires predicateSet.Valid() && remaining.Valid() && remaining != predicateSet
      modifies predicateSet
      ensures predicateSet.Valid()
      ensures root == RewriteCross(acc, l, r, old(predicateSet.Contents()), old(remaining.Contents()))
    {
      hide Conditions, NotConditions, AppendFilters, All, Schema;
      var conditions, predicates := CollectJoinConditions(Schema(l), Schema(r), remaining.equalityPredicates);
      if conditions == [] {
        root := FinishPushDown(CrossProduct(acc, l, r));
      } else {
        root := AppendFiltersTo(predicates + remaining.nonEqualityPredicates, HashJoin(conditions, Inner, None, Prohibit, l, r));
      }
    }

    method VisitCrossProductReplace(acc: Accumulate, l: Plan, r: Plan) returns (root: Plan)
      requires predicateSet.Valid()
      modifies predicateSet
      ensures predicateSet.Valid() && root == Visit(CrossProduct(acc, l, r), old(predicateSet.Contents()))
      decreases CrossProduct(acc, l, r), 0
    {
      hide *;
      ghost var ps := predicateSet.Contents();
      var probe, build, remaining := Partition(Schema(l), Schema(r));
      var l' := PushDownInto(probe, l);
      var r' := PushDownInto(build, r);
      root := FinishCrossProduct(acc, l', r', remaining);
      VisitCross(acc, l, r, ps);
    }

    /** A push-down for a child, with predicates to begin with. */
    static method PushDownInto(ps: PredicateSet, p: Plan) returns (root: Plan)
      requires ps.Valid()
      modifies ps
      ensures ps.Valid() && root == Visit(p, old(ps.Contents()))
      decreases p, 2
    {
      var optimizer := new Optimizer(ps);
      root := optimizer.VisitOperator(p);
    }
  }

  lemma VisitCross(acc: Accumulate, l: Plan, r: Plan, ps: Predicates)
    ensures Visit(CrossProduct(acc, l, r), ps) ==
            RewriteCross(acc, Visit(l, ProbeSet(Schema(l), Schema(r), ps)), Visit(r, BuildSet(Schema(l), Schema(r), ps)), ps,
                         RemainingSet(Schema(l), Schema(r), ps))
  {
  }
}
