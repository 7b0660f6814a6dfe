/**
 When the reduced keys induce the same groups as all keys, and when they do not.
 */
module GroupKeysProof {
  import opened GroupKeys

  // ----- rows of a graph -----

  datatype Record = Record(table: nat, offset: nat, properties: map<string, int>)

  datatype Value = Null | ID(table: nat, offset: nat) | Datum(i: int) | Whole(record: Record)

  datatype Bound = Unbound | Bound(record: Record)

  /** A row binds variables to records and has values for the computed keys. */
  datatype Row = Row(bind: string -> Bound, computed: nat -> int)

  /** The name of the primary key of each table. */
  type Catalog = nat -> string

  function ValueOf(k: Key, r: Row): Value {
    match k
    case Computed(id) => Datum(r.computed(id))
    case Pattern(v, _) => if r.bind(v).Bound? then Whole(r.bind(v).record) else Null
    case Property(v, name, _) =>
      if r.bind(v).Unbound? then Null
      else
        var record := r.bind(v).record;
        if name == "_ID" then ID(record.table, record.offset)
        else if name in record.properties then Datum(record.properties[name])
        else Null
  }

  predicate Agree(ks: seq<Key>, r1: Row, r2: Row) {
    forall k | k in ks :: ValueOf(k, r1) == ValueOf(k, r2)
  }

  /** Within a table, the offset and the primary key each identify a record; across tables, the key does not. */
  ghost predicate ValidGraph(catalog: Catalog, records: set<Record>) {
    && (forall a | a in records :: catalog(a.table) in a.properties)
    && (forall a, b | a in records && b in records && a.table == b.table ::
          a.offset == b.offset || a.properties[catalog(a.table)] == b.properties[catalog(a.table)] ==> a == b)
  }

  function Tables(k: Key): set<nat> {
    match k
    case Property(_, _, infos) => infos.Keys
    case Pattern(_, tables) => tables
    case Computed(_) => {}
  }

  /** The keys of one variable range over the same tables, and one property has one description. */
  ghost predicate KeysConsistent(ks: seq<Key>) {
    && (forall k, l | k in ks && l in ks && SameVariable(k, l) :: Tables(k) == Tables(l))
    && (forall k, l | k in ks && l in ks && SameVariable(k, l) && k.Property? && l.Property? && k.name == l.name :: k == l)
  }

  /** A property marked as primary key of a table is that, and the internal ID never is. */
  ghost predicate KeysFit(catalog: Catalog, ks: seq<Key>) {
    forall k, t | k in ks && k.Property? && t in k.infos && k.infos[t] :: k.name == catalog(t) && k.name != "_ID"
  }

  /** Bound variables are bound to records of the tables they range over. */
  ghost predicate RowFits(records: set<Record>, ks: seq<Key>, r: Row) {
    forall k | k in ks && !k.Computed? && r.bind(k.variable).Bound? ::
      r.bind(k.variable).record in records && r.bind(k.variable).record.table in Tables(k)
  }

  // ----- the exact condition -----

  /** Every dependent key has the internal ID of its variable beside it, or a variable of one table. */
  ghost predicate Reducible(ks: seq<Key>) {
    forall d | d in Dependent(ks) :: ReducibleKey(ks, d)
  }

  ghost predicate ReducibleKey(ks: seq<Key>, d: Key) {
    (exists k | k in ks :: IsInternalID(k) && SameVariable(k, d)) || |Tables(d)| <= 1
  }

  lemma OneTable(s: set<nat>, a: nat, b: nat)
    requires |s| <= 1 && a in s && b in s
    ensures a == b
  {
    assert |s - {a}| == |s| - 1;
    assert s - {a} == {};
  }

  /** A kept key that identifies the variable fixes what it is bound to. */
  lemma SameBinding(catalog: Catalog, records: set<Record>, ks: seq<Key>, k: Key, r1: Row, r2: Row)
    requires ValidGraph(catalog, records) && KeysFit(catalog, ks) && RowFits(records, ks, r1) && RowFits(records, ks, r2)
    requires k in ks && Identifies(k) && ValueOf(k, r1) == ValueOf(k, r2)
    requires IsInternalID(k) || |Tables(k)| <= 1
    ensures r1.bind(k.variable) == r2.bind(k.variable)
  {
    var b1, b2 := r1.bind(k.variable), r2.bind(k.variable);
    if !IsInternalID(k) && b1.Bound? && b2.Bound? {
      OneTable(Tables(k), b1.record.table, b2.record.table);
      assert k.infos[b1.record.table];
    }
  }

  /** With reducible keys, rows agree on the kept keys exactly when they agree on all keys. */
  lemma ReducedAgree(catalog: Catalog, records: set<Record>, ks: seq<Key>, r1: Row, r2: Row)
    requires ValidGraph(catalog, records) && KeysFit(catalog, ks) && RowFits(records, ks, r1) && RowFits(records, ks, r2)
    requires KeysConsistent(ks) && Reducible(ks)
    ensures Agree(Kept(ks), r1, r2) <==> Agree(ks, r1, r2)
  {
    var primary := PrimaryVariables(ks);
    forall k
      ensures k in Kept(ks) <==> k in ks && !Depends(k, primary)
      ensures k in Dependent(ks) <==> k in ks && Depends(k, primary)
    {
      SplitMember(ks, primary, false, k);
      SplitMember(ks, primary, true, k);
    }
    if Agree(Kept(ks), r1, r2) {
      forall d | d in ks
        ensures ValueOf(d, r1) == ValueOf(d, r2)
      {
        if d in Dependent(ks) {
          var k := Identifier(ks, d);
          if !IsInternalID(k) && |Tables(d)| > 1 {
            k :| k in ks && IsInternalID(k) && SameVariable(k, d);
          }
          SameBinding(catalog, records, ks, k, r1, r2);
        }
      }
    }
  }

  lemma TwoTables(s: set<nat>) returns (a: nat, b: nat)
    requires |s| > 1
    ensures a in s && b in s && a != b
  {
    a :| a in s;
    assert |s - {a}| == |s| - 1;
    b :| b in s - {a};
  }

  /** The kept keys of a variable without internal ID are its primary key, which has one name in all its tables. */
  lemma KeptName(catalog: Catalog, ks: seq<Key>, d: Key, t: nat, k: Key)
    requires KeysConsistent(ks) && KeysFit(catalog, ks) && d in Dependent(ks) && !ReducibleKey(ks, d) && t in Tables(d)
    requires k in Kept(ks) && SameVariable(k, d)
    ensures k.Property? && k.name == catalog(t) && k.name != "_ID"
  {
    var primary := PrimaryVariables(ks);
    SplitMember(ks, primary, true, d);
    SplitMember(ks, primary, false, k);
    assert Identifies(k) && !IsInternalID(k);
    assert Tables(k) == Tables(d);
  }

  lemma DependentName(catalog: Catalog, ks: seq<Key>, d: Key, t: nat)
    requires KeysConsistent(ks) && KeysFit(catalog, ks) && d in Dependent(ks) && !ReducibleKey(ks, d) && t in Tables(d)
    ensures !d.Computed? && d in ks && (d.Property? ==> d.name != catalog(t) && d.name != "_ID")
  {
    SplitMember(ks, PrimaryVariables(ks), true, d);
    var k := Identifier(ks, d);
    SplitMember(ks, PrimaryVariables(ks), false, k);
    KeptName(catalog, ks, d, t, k);
  }

  /** Without that, whatever the primary keys are, some graph has two rows that agree on the kept keys but not on all. */
  lemma NotReducible(catalog: Catalog, ks: seq<Key>) returns (records: set<Record>, r1: Row, r2: Row)
    requires KeysConsistent(ks) && KeysFit(catalog, ks) && !Reducible(ks)
    ensures ValidGraph(catalog, records) && RowFits(records, ks, r1) && RowFits(records, ks, r2)
    ensures Agree(Kept(ks), r1, r2) && !Agree(ks, r1, r2)
  {
    var d :| d in Dependent(ks) && !ReducibleKey(ks, d);
    var t1, t2 := TwoTables(Tables(d));
    DependentName(catalog, ks, d, t1);
    var k := Identifier(ks, d);
    KeptName(catalog, ks, d, t1, k);
    KeptName(catalog, ks, d, t2, k);
    var key := k.name;
    var other := if d.Property? then d.name else "";
    var a, b := Record(t1, 0, map[other := 1][key := 0]), Record(t2, 0, map[other := 2][key := 0]);
    records := {a, b};
    r1 := Row(v => if v == d.variable then Bound(a) else Unbound, _ => 0);
    r2 := Row(v => if v == d.variable then Bound(b) else Unbound, _ => 0);
    forall k | k in Kept(ks)
      ensures ValueOf(k, r1) == ValueOf(k, r2)
    {
      if SameVariable(k, d) {
        KeptName(catalog, ks, d, t1, k);
      }
    }
    assert ValueOf(d, r1) != ValueOf(d, r2);
  }

  /** Two tables whose primary keys have one name: grouping by it and by another property is not reducible. */
  lemma MultiLabelKeys()
    ensures var ks := [Property("a", "id", map[0 := true, 1 := true]), Property("a", "name", map[0 := false, 1 := false])];
            KeysConsistent(ks) && KeysFit(_ => "id", ks) && !Reducible(ks)
  {
    var k, d := Property("a", "id", map[0 := true, 1 := true]), Property("a", "name", map[0 := false, 1 := false]);
    var ks := [k, d];
    assert forall x :: x in ks <==> x == k || x == d;
    assert Identifies(ks[0]) && ks[0].variable == "a";
    assert !d.infos[0];
    SplitMember(ks, PrimaryVariables(ks), true, d);
    assert Tables(d) == {0, 1};
    assert !ReducibleKey(ks, d);
  }

  /** In every graph, rows agree on the kept keys exactly when they agree on all keys. */
  ghost predicate SameRowsAgree(catalog: Catalog, ks: seq<Key>) {
    forall records, r1, r2 | ValidGraph(catalog, records) && RowFits(records, ks, r1) && RowFits(records, ks, r2) ::
      Agree(Kept(ks), r1, r2) <==> Agree(ks, r1, r2)
  }

  /** The reduction is right for every graph exactly when the keys are reducible. */
  lemma ReducibleExact(catalog: Catalog, ks: seq<Key>)
    requires KeysConsistent(ks) && KeysFit(catalog, ks)
    ensures SameRowsAgree(catalog, ks) <==> Reducible(ks)
  {
    if Reducible(ks) {
      forall records, r1, r2 | ValidGraph(catalog, records) && RowFits(records, ks, r1) && RowFits(records, ks, r2)
        ensures Agree(Kept(ks), r1, r2) <==> Agree(ks, r1, r2)
      {
        ReducedAgree(catalog, records, ks, r1, r2);
      }
    } else {
      var records, r1, r2 := NotReducible(catalog, ks);
    }
  }

  // ----- groups -----

  function With(ks: seq<Key>, r: Row, rows: seq<Row>, same: bool): (g: seq<Row>)
    ensures |g| <= |rows| && forall x | x in g :: x in rows && Agree(ks, r, x) == same
  {
    if rows == [] then []
    else (if Agree(ks, r, rows[0]) == same then [rows[0]] else []) + With(ks, r, rows[1..], same)
  }

  /** The groups of rows that agree on the keys, by first appearance. */
  function Groups(ks: seq<Key>, rows: seq<Row>): seq<seq<Row>>
    decreases |rows|
  {
    if rows == [] then []
    else [[rows[0]] + With(ks, rows[0], rows[1..], true)] + Groups(ks, With(ks, rows[0], rows[1..], false))
  }

  ghost predicate AllFit(records: set<Record>, ks: seq<Key>, rows: seq<Row>) {
    forall r | r in rows :: RowFits(records, ks, r)
  }

  lemma {:induction false} WithSame(catalog: Catalog, records: set<Record>, ks: seq<Key>, r: Row, rows: seq<Row>, same: bool)
    requires ValidGraph(catalog, records) && KeysFit(catalog, ks) && KeysConsistent(ks) && Reducible(ks)
    requires RowFits(records, ks, r) && AllFit(records, ks, rows)
    ensures With(Kept(ks), r, rows, same) == With(ks, r, rows, same)
    decreases |rows|
  {
    if rows != [] {
      assert rows[0] in rows;
      ReducedAgree(catalog, records, ks, r, rows[0]);
      WithSame(catalog, records, ks, r, rows[1..], same);
    }
  }

  /** Grouping by the reduced keys gives the same groups, in the same order, as grouping by all keys. */
  lemma {:induction false} SameGroups(catalog: Catalog, records: set<Record>, ks: seq<Key>, rows: seq<Row>)
    requires ValidGraph(catalog, records) && KeysFit(catalog, ks) && KeysConsistent(ks) && Reducible(ks)
    requires AllFit(records, ks, rows)
    ensures Groups(Kept(ks), rows) == Groups(ks, rows)
    decreases |rows|
  {
    if rows != [] {
      assert rows[0] in rows;
      WithSame(catalog, records, ks, rows[0], rows[1..], true);
      WithSame(catalog, records, ks, rows[0], rows[1..], false);
      SameGroups(catalog, records, ks, With(ks, rows[0], rows[1..], false));
    }
  }
}
