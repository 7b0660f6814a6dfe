/**
 What filter push-down achieves: which scans become index scans, which cross products
 become hash joins, and how far down a predicate goes.
 */
module FilterPushDownEffect {
  import opened Plans
  import opened PlanFacts
  import opened FilterPushDown
  import opened FilterPushDownProof
  import opened FilterPushDownCross

  /** The plan below the filters on top. */
  function Core(p: Plan): Plan {
    if p.Filter? then Core(p.child) else p
  }

  /** The filters on top, the lowest one first. */
  function OnTop(p: Plan): seq<Expr> {
    if p.Filter? then OnTop(p.child) + [p.condition] else []
  }

  lemma {:induction false} AppendFiltersCore(ps: seq<Expr>, p: Plan)
    ensures Core(AppendFilters(ps, p)) == Core(p) && OnTop(AppendFilters(ps, p)) == OnTop(p) + ps
    decreases |ps|
  {
    if ps != [] {
      AppendFiltersCore(ps[..|ps| - 1], p);
    }
  }

  // ----- index scans -----

  function Uncast(e: Expr): Expr {
    if e.Cast? then Uncast(e.child) else e
  }

  /** A literal or a parameter, cast or not. */
  predicate IsValue(e: Expr) {
    Uncast(e).Literal? || Uncast(e).Parameter?
  }

  lemma {:induction false} ConstantIsValue(e: Expr)
    ensures IsConstantExpression(e) <==> IsValue(e)
    decreases e
  {
    if e.Cast? {
      ConstantIsValue(e.child);
    }
  }

  predicate IsKey(e: Expr, v: string) {
    e.Property? && e.variable == v && e.isPrimaryKey
  }

  /** The first of `ps` that is an equality with the primary key of `v` is number `i`. */
  ghost predicate FirstKeyed(ps: seq<Expr>, v: string, i: nat) {
    && i < |ps| && ps[i].Equals? && (IsKey(ps[i].left, v) || IsKey(ps[i].right, v))
    && forall j | 0 <= j < i && ps[j].Equals? :: !IsKey(ps[j].left, v) && !IsKey(ps[j].right, v)
  }

  lemma ComparisonIsFirst(ps: seq<Expr>, v: string)
    ensures FirstKeyComparison(ps, v) < |ps| ==> FirstKeyed(ps, v, FirstKeyComparison(ps, v))
  {
    var k := FirstKeyComparison(ps, v);
    forall j | 0 <= j < k && ps[j].Equals?
      ensures !IsKey(ps[j].left, v) && !IsKey(ps[j].right, v)
    {
      assert !ComparesKey(ps[j], v);
    }
  }

  /** A scan of one table becomes an index scan exactly when the first pending equality with its primary key, either way
      round, is with a literal or a parameter, cast or not; it looks up that value, and all other predicates are tested. */
  lemma IndexExact(v: string, t: nat, properties: seq<Expr>, ps: Predicates, i: nat)
    requires FirstKeyed(ps.equality, v, i)
    ensures var scan, p := Scan(v, [t], properties), ps.equality[i];
            var other := if IsKey(p.left, v) then p.right else p.left;
            && Core(Visit(scan, ps)) == (if IsValue(other) then PrimaryKeyScan(v, t, properties, other) else scan)
            && (IsValue(other) ==> multiset(OnTop(Visit(scan, ps))) + multiset{p} == multiset(All(ps)))
  {
    hide AppendFilters;
    var scan, p := Scan(v, [t], properties), ps.equality[i];
    var k := FirstKeyComparison(ps.equality, v);
    assert ComparesKey(p, v);
    assert k == i;
    var q := Normalized(p, v);
    ConstantIsValue(q.right);
    AppendFiltersCore(All(Without(ps, i)), PrimaryKeyScan(v, t, properties, q.right));
    WithoutOne(ps, i);
    AppendFiltersCore(All(Add(Without(ps, i), q)), scan);
  }

  lemma WithoutOne(ps: Predicates, i: nat)
    requires i < |ps.equality|
    ensures multiset(All(Without(ps, i))) + multiset{ps.equality[i]} == multiset(All(ps))
  {
    var e := ps.equality;
    assert e == e[..i] + [e[i]] + e[i + 1..];
  }

  /** Any other scan stays what it is. */
  lemma ScanStays(v: string, tables: seq<nat>, properties: seq<Expr>, ps: Predicates)
    requires |tables| != 1 || forall i: nat :: !FirstKeyed(ps.equality, v, i)
    ensures Core(Visit(Scan(v, tables, properties), ps)) == Scan(v, tables, properties)
    ensures OnTop(Visit(Scan(v, tables, properties), ps)) == All(ps)
  {
    hide AppendFilters;
    ComparisonIsFirst(ps.equality, v);
    AppendFiltersCore(All(ps), Scan(v, tables, properties));
  }

  // ----- joins -----

  lemma {:induction false} CollectKinds(keep: Expr -> bool, ps: seq<Expr>, x: Expr)
    ensures x in Collect(keep, ps).others ==> !x.Equals?
    decreases |ps|
  {
    if ps != [] {
      CollectKinds(keep, ps[..|ps| - 1], x);
    }
  }

  /** Which predicates go down which side: those that the one side can evaluate and the other cannot. */
  lemma SidesExact(l: Scope, r: Scope, ps: Predicates, p: Expr)
    ensures p in All(ProbeSet(l, r, ps)) <==> p in All(ps) && Evaluable(l, p) && !Evaluable(r, p)
    ensures p in All(BuildSet(l, r, ps)) <==> p in All(ps) && Evaluable(r, p) && !Evaluable(l, p)
    ensures p in All(RemainingSet(l, r, ps)) <==> p in All(ps) && (Evaluable(l, p) <==> Evaluable(r, p))
    ensures p in RemainingSet(l, r, ps).equality <==> p in All(RemainingSet(l, r, ps)) && p.Equals?
  {
    CollectMember(x => OnlyProbe(l, r, x), All(ps), p);
    CollectMember(x => OnlyBuild(l, r, x), All(ps), p);
    var keep := x => !OnlyProbe(l, r, x) && !OnlyBuild(l, r, x);
    CollectMember(keep, All(ps), p);
    CollectKinds(keep, All(ps), p);
  }

  /** An equality between a column of each side that neither side can evaluate alone, or both can. */
  predicate Connects(l: Scope, r: Scope, p: Expr) {
    && p.Equals? && (Evaluable(l, p) <==> Evaluable(r, p))
    && ((p.left in l && p.right in r) || (p.right in l && p.left in r))
  }

  lemma {:induction false} ConditionsExact(l: Scope, r: Scope, ps: seq<Expr>)
    ensures Conditions(l, r, ps) != [] <==> exists i | 0 <= i < |ps| :: ConditionOf(l, r, ps[i]).Some?
    ensures forall i | 0 <= i < |ps| && ConditionOf(l, r, ps[i]).Some? ::
              ConditionOf(l, r, ps[i]).value in Conditions(l, r, ps)
    decreases |ps|
  {
    if ps != [] {
      var n := |ps| - 1;
      ConditionsExact(l, r, ps[..n]);
      forall i | 0 <= i < |ps| && ConditionOf(l, r, ps[i]).Some?
        ensures ConditionOf(l, r, ps[i]).value in Conditions(l, r, ps)
      {
        if i < n {
          assert ps[..n][i] == ps[i];
        }
      }
      if Conditions(l, r, ps) != [] && ConditionOf(l, r, ps[n]).None? {
        var i :| 0 <= i < n && ConditionOf(l, r, ps[..n][i]).Some?;
        assert ConditionOf(l, r, ps[i]).Some?;
      }
    }
  }

  lemma {:induction false} NotConditionsMember(l: Scope, r: Scope, ps: seq<Expr>, p: Expr)
    ensures p in NotConditions(l, r, ps) <==> p in ps && ConditionOf(l, r, p).None?
    decreases |ps|
  {
    if ps != [] {
      NotConditionsMember(l, r, ps[..|ps| - 1], p);
      assert ps == ps[..|ps| - 1] + [ps[|ps| - 1]];
    }
  }

  /** What is tested above a join: the predicates that are for neither side alone and are no conditions. */
  lemma LeftOver(l: Scope, r: Scope, ps: Predicates, p: Expr)
    ensures var remaining := RemainingSet(l, r, ps);
            p in NotConditions(l, r, remaining.equality) + remaining.others <==>
            p in All(ps) && (Evaluable(l, p) <==> Evaluable(r, p)) && !Connects(l, r, p)
  {
    hide Evaluable, RemainingSet;
    var remaining := RemainingSet(l, r, ps);
    SidesExact(l, r, ps, p);
    NotConditionsMember(l, r, remaining.equality, p);
    RemainingKinds(l, r, ps, p);
  }

  lemma RemainingKinds(l: Scope, r: Scope, ps: Predicates, p: Expr)
    ensures p in RemainingSet(l, r, ps).others ==> !p.Equals?
  {
    CollectKinds(x => !OnlyProbe(l, r, x) && !OnlyBuild(l, r, x), All(ps), p);
  }

  /** Some equality connects the two sides. */
  ghost predicate SomeConnects(l: Scope, r: Scope, ps: Predicates) {
    exists p :: p in All(ps) && Connects(l, r, p)
  }

  lemma ConnectedConditions(l: Scope, r: Scope, ps: Predicates)
    ensures var cs := Conditions(l, r, RemainingSet(l, r, ps).equality);
            && (cs != [] <==> SomeConnects(l, r, ps))
            && (forall p | p in All(ps) && Connects(l, r, p) :: (p.left, p.right) in cs || (p.right, p.left) in cs)
  {
    hide Evaluable, RemainingSet, Conditions, All;
    var eqs := RemainingSet(l, r, ps).equality;
    ConditionsExact(l, r, eqs);
    forall p
      ensures p in eqs <==> p in All(ps) && p.Equals? && (Evaluable(l, p) <==> Evaluable(r, p))
    {
      SidesExact(l, r, ps, p);
    }
    if Conditions(l, r, eqs) != [] {
      var i :| 0 <= i < |eqs| && ConditionOf(l, r, eqs[i]).Some?;
      assert eqs[i] in eqs;
      assert Connects(l, r, eqs[i]);
    }
    forall p | p in All(ps) && Connects(l, r, p)
      ensures Conditions(l, r, eqs) != []
      ensures (p.left, p.right) in Conditions(l, r, eqs) || (p.right, p.left) in Conditions(l, r, eqs)
    {
      assert p in eqs;
      var i :| 0 <= i < |eqs| && eqs[i] == p;
      assert ConditionOf(l, r, eqs[i]).Some?;
    }
  }

  /** A cross product becomes an inner hash join exactly when some pending equality connects its sides, and every such
      equality is a condition of the join and the predicates left over are tested above it. Either way the predicates of
      one side go down that side. */
  lemma JoinExact(db: Database, acc: Accumulate, l: Plan, r: Plan, ps: Predicates)
    requires WellFormed(db, l) && WellFormed(db, r)
    requires PushSafe(db, l, ProbeSet(Schema(l), Schema(r), ps)) && PushSafe(db, r, BuildSet(Schema(l), Schema(r), ps))
    ensures var s, t, core := Schema(l), Schema(r), Core(Visit(CrossProduct(acc, l, r), ps));
            var l', r' := Visit(l, ProbeSet(s, t, ps)), Visit(r, BuildSet(s, t, ps));
            if SomeConnects(s, t, ps) then
              && core.HashJoin? && core == HashJoin(core.conditions, Inner, None, Prohibit, l', r')
              && (forall p | p in All(ps) && Connects(s, t, p) ::
                    (p.left, p.right) in core.conditions || (p.right, p.left) in core.conditions)
              && (forall p :: p in OnTop(Visit(CrossProduct(acc, l, r), ps)) <==>
                    p in All(ps) && (Evaluable(s, p) <==> Evaluable(t, p)) && !Connects(s, t, p))
            else core == CrossProduct(acc, l', r') && OnTop(Visit(CrossProduct(acc, l, r), ps)) == All(ps)
  {
    hide AppendFilters, ProbeSet, BuildSet, RemainingSet, Conditions, NotConditions, All, Connects, SomeConnects, WellFormed, PushSafe, Schema, Evaluable;
    var s, t := Schema(l), Schema(r);
    var l', r' := Visit(l, ProbeSet(s, t, ps)), Visit(r, BuildSet(s, t, ps));
    var remaining := RemainingSet(s, t, ps);
    SetMembers(s, t, ps);
    VisitCorrect(db, l, ProbeSet(s, t, ps));
    VisitCorrect(db, r, BuildSet(s, t, ps));
    ConnectedConditions(s, t, ps);
    var join := HashJoin(Conditions(s, t, remaining.equality), Inner, None, Prohibit, l', r');
    var left := NotConditions(s, t, remaining.equality) + remaining.others;
    AppendFiltersCore(left, join);
    assert OnTop(join) + left == left;
    forall p
      ensures p in left <==> p in All(ps) && (Evaluable(s, p) <==> Evaluable(t, p)) && !Connects(s, t, p)
    {
      LeftOver(s, t, ps, p);
    }
    AppendFiltersCore(All(ps), CrossProduct(acc, l', r'));
  }
}
