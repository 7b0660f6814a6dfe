/**
 Reducing the keys of a grouping: properties that depend on a key that identifies
 their node need not be hashed and compared.
 */
module GroupKeys {
  /** A grouping key. A property is, table by table, the primary key or not. */
  datatype Key =
    | Property(variable: string, name: string, infos: map<nat, bool>)
    | Pattern(variable: string, tables: set<nat>)
    | Computed(id: nat)

  predicate IsInternalID(k: Key) {
    k.Property? && k.name == "_ID"
  }

  /** A primary key on all tables of its variable. */
  predicate IsPrimaryKey(k: Key) {
    k.Property? && forall t | t in k.infos :: k.infos[t]
  }

  predicate Identifies(k: Key) {
    IsPrimaryKey(k) || IsInternalID(k)
  }

  predicate SameVariable(k: Key, l: Key) {
    !k.Computed? && !l.Computed? && k.variable == l.variable
  }

  /** The variables that some key identifies. */
  function PrimaryVariables(ks: seq<Key>): set<string> {
    set i | 0 <= i < |ks| && Identifies(ks[i]) :: ks[i].variable
  }

  predicate Depends(k: Key, primary: set<string>) {
    !k.Computed? && !Identifies(k) && k.variable in primary
  }

  function Split(ks: seq<Key>, primary: set<string>, dependent: bool): seq<Key> {
    if ks == [] then []
    else Split(ks[..|ks| - 1], primary, dependent) + (if Depends(ks[|ks| - 1], primary) == dependent then [ks[|ks| - 1]] else [])
  }

  function Kept(ks: seq<Key>): seq<Key> {
    Split(ks, PrimaryVariables(ks), false)
  }

  function Dependent(ks: seq<Key>): seq<Key> {
    Split(ks, PrimaryVariables(ks), true)
  }

  method CollectPrimaryVariables(inputKeys: seq<Key>) returns (primary: set<string>)
    ensures primary == PrimaryVariables(inputKeys)
  {
    primary := {};
    for i := 0 to |inputKeys|
      invariant primary == set j | 0 <= j < i && Identifies(inputKeys[j]) :: inputKeys[j].variable
    {
      if inputKeys[i].Property? && (IsPrimaryKey(inputKeys[i]) || IsInternalID(inputKeys[i])) {
        primary := primary + {inputKeys[i].variable};
      }
    }
  }

  /** Nothing is lost and nothing is invented, and every dependent key has a kept key that identifies its variable. */
  method ResolveKeysAndDependentKeys(inputKeys: seq<Key>) returns (keys: seq<Key>, dependentKeys: seq<Key>)
    ensures keys == Kept(inputKeys) && dependentKeys == Dependent(inputKeys)
    ensures multiset(keys) + multiset(dependentKeys) == multiset(inputKeys)
    ensures forall d | d in dependentKeys :: exists k | k in keys :: Identifies(k) && SameVariable(k, d)
  {
    var primary := CollectPrimaryVariables(inputKeys);
    keys, dependentKeys := [], [];
    for i := 0 to |inputKeys|
      invariant keys == Split(inputKeys[..i], primary, false) && dependentKeys == Split(inputKeys[..i], primary, true)
    {
      var key := inputKeys[i];
      assert inputKeys[..i + 1][..i] == inputKeys[..i];
      match key
      case Property(variable, _, _) =>
        if IsPrimaryKey(key) || IsInternalID(key) {
          keys := keys + [key];
        } else if variable in primary {
          dependentKeys := dependentKeys + [key];
        } else {
          keys := keys + [key];
        }
      case Pattern(variable, _) =>
        if variable in primary {
          dependentKeys := dependentKeys + [key];
        } else {
          keys := keys + [key];
        }
      case Computed(_) =>
        keys := keys + [key];
    }
    assert inputKeys[..|inputKeys|] == inputKeys;
    SplitAll(inputKeys, primary);
    EveryDependentIdentified(inputKeys);
  }

  lemma EveryDependentIdentified(ks: seq<Key>)
    ensures forall d | d in Dependent(ks) :: exists k | k in Kept(ks) :: Identifies(k) && SameVariable(k, d)
  {
    forall d | d in Dependent(ks)
      ensures exists k | k in Kept(ks) :: Identifies(k) && SameVariable(k, d)
    {
      var k := Identifier(ks, d);
    }
  }

  lemma {:induction false} SplitAll(ks: seq<Key>, primary: set<string>)
    ensures multiset(Split(ks, primary, false)) + multiset(Split(ks, primary, true)) == multiset(ks)
    decreases |ks|
  {
    if ks != [] {
      SplitAll(ks[..|ks| - 1], primary);
      assert ks == ks[..|ks| - 1] + [ks[|ks| - 1]];
    }
  }

  lemma {:induction false} SplitMember(ks: seq<Key>, primary: set<string>, dependent: bool, k: Key)
    ensures k in Split(ks, primary, dependent) <==> k in ks && Depends(k, primary) == dependent
    decreases |ks|
  {
    if ks != [] {
      SplitMember(ks[..|ks| - 1], primary, dependent, k);
      assert ks == ks[..|ks| - 1] + [ks[|ks| - 1]];
    }
  }

  /** Which keys are dependent: those that do not identify their variable themselves, that is, are neither its internal ID
      nor its primary key on all tables, although another key does. Expressions that are no property and no pattern never
      are. All other keys are kept. */
  lemma DependentExact(ks: seq<Key>, k: Key)
    ensures k in Dependent(ks) <==>
            && k in ks && !k.Computed?
            && !(k.Property? && (k.name == "_ID" || forall t | t in k.infos :: k.infos[t]))
            && (exists i | 0 <= i < |ks| ::
                  ks[i].Property? && ks[i].variable == k.variable && (ks[i].name == "_ID" || forall t | t in ks[i].infos :: ks[i].infos[t]))
    ensures k in Kept(ks) <==> k in ks && k !in Dependent(ks)
  {
    var primary := PrimaryVariables(ks);
    SplitMember(ks, primary, true, k);
    SplitMember(ks, primary, false, k);
    if !k.Computed? {
      assert k.variable in primary <==> exists i | 0 <= i < |ks| :: Identifies(ks[i]) && ks[i].variable == k.variable;
      forall i | 0 <= i < |ks|
        ensures Identifies(ks[i]) <==> ks[i].Property? && (ks[i].name == "_ID" || forall t | t in ks[i].infos :: ks[i].infos[t])
      {
      }
    }
  }

  lemma Identifier(ks: seq<Key>, d: Key) returns (k: Key)
    requires d in Dependent(ks)
    ensures k in Kept(ks) && Identifies(k) && SameVariable(k, d)
  {
    var primary := PrimaryVariables(ks);
    SplitMember(ks, primary, true, d);
    var i :| 0 <= i < |ks| && Identifies(ks[i]) && ks[i].variable == d.variable;
    k := ks[i];
    SplitMember(ks, primary, false, k);
  }
}
