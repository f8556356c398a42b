/** The knowledge graph of utils.py: instance records classified under the taxonomy, with
    multi-valued properties, and the `KnowledgeGraph` operations that change them in place
    (`add_property`, `set_class_of_instance`, `add_instance`, `merge_instances`) or read them
    (`get_filtered_instances`, `human_name`, `_find_root_class`). */
module Graph {
  import opened Iterables
  import opened Names
  import opened Taxonomy

  /** An instance's identity: the name of its namespace and its own name. */
  datatype Iri = Iri(namespace: string, name: string)

  /** A property value: a literal, another instance, or a class. */
  datatype Value = Text(text: string) | Entity(iri: Iri) | Kind(cls: Class)

  /** An instance record: its direct classes (`is_instance_of`) and, per property name, the
      values of that property, both in order. */
  datatype Instance = Instance(isInstanceOf: seq<Class>, props: map<string, seq<Value>>)

  /** The `KeyError` `add_instance` raises: the canonical name and the classes the existing
      instance already has. */
  datatype KeyError = KeyError(name: string, classes: seq<Class>)

  /** The annotation property that keeps a raw, human-readable name. */
  const FANCY_NAME: string := "fancyName"

  /** `getattr(instance, property)`: the values of a property, none when it has never been set. */
  function PropertyValues(props: map<string, seq<Value>>, property: string): seq<Value> {
    if property in props then props[property] else []
  }

  // ---------------------------------------------------------------------------------------
  // Property values with set semantics

  /** The effect of `add_property` on one value list: `v` is appended unless already there. */
  function AddValue(vals: seq<Value>, v: Value): (r: seq<Value>)
    ensures v in r
    ensures forall x :: x in r <==> x in vals || x == v
    ensures |vals| <= |r| && r[..|vals|] == vals
    ensures r == vals <==> v in vals
    ensures Distinct(vals) ==> Distinct(r)
  {
    if v in vals then vals else vals + [v]
  }

  /** Adding each of `vs` in turn, as the loop of `merge_instances` does: the first list
      stays, in order, at the front, and no duplicate is introduced. */
  function UnionInto(vals: seq<Value>, vs: seq<Value>): (r: seq<Value>)
    ensures |vals| <= |r| && r[..|vals|] == vals
    ensures Distinct(vals) ==> Distinct(r)
  {
    if vs == [] then vals
    else
      var prev := UnionInto(vals, vs[..|vs| - 1]);
      assert AddValue(prev, vs[|vs| - 1])[..|vals|] == prev[..|vals|];
      AddValue(prev, vs[|vs| - 1])
  }

  /** Adding values one at a time is a union: its result holds exactly the values of both
      lists, and it changes nothing when every value is already there. */
  lemma {:induction false} UnionIntoSpec(vals: seq<Value>, vs: seq<Value>)
    ensures var r := UnionInto(vals, vs);
            && (forall x :: x in r <==> x in vals || x in vs)
            && ((forall x :: x in vs ==> x in vals) ==> r == vals)
    decreases |vs|
  {
    if vs != [] {
      var n := |vs| - 1;
      UnionIntoSpec(vals, vs[..n]);
      assert vs == vs[..n] + [vs[n]];
    }
  }

  /** The part of an absorbed instance's property that `merge_instances` copies: everything
      but the raw name. */
  function Contribution(absorbed: map<string, seq<Value>>, property: string): seq<Value> {
    if property == FANCY_NAME then [] else PropertyValues(absorbed, property)
  }

  /** The values of `property` on the survivor once `merge_instances` has added to it the
      absorbed instance's values of that property. */
  function MergedValues(survivor: map<string, seq<Value>>, absorbed: map<string, seq<Value>>, property: string): seq<Value> {
    UnionInto(PropertyValues(survivor, property), Contribution(absorbed, property))
  }

  /** `props` are the survivor's properties after the absorbed ones have been merged in. */
  ghost predicate MergedInto(props: map<string, seq<Value>>, survivor: map<string, seq<Value>>, absorbed: map<string, seq<Value>>) {
    forall q :: PropertyValues(props, q) == MergedValues(survivor, absorbed, q)
  }

  /** What the merge does to one property of the survivor: every absorbed value is there
      afterwards, unless the property is the raw name; the survivor's own values stay, first
      and in order; nothing comes from elsewhere; no duplicate is introduced; and the raw
      name is untouched. */
  lemma MergedValuesSpec(survivor: map<string, seq<Value>>, absorbed: map<string, seq<Value>>, p: string)
    ensures var own := PropertyValues(survivor, p);
            var r := MergedValues(survivor, absorbed, p);
            && (p != FANCY_NAME ==> forall v :: v in PropertyValues(absorbed, p) ==> v in r)
            && |own| <= |r| && r[..|own|] == own
            && (forall v :: v in r ==> v in own || (p != FANCY_NAME && v in PropertyValues(absorbed, p)))
            && (p == FANCY_NAME ==> r == own)
            && (Distinct(own) ==> Distinct(r))
  {
    UnionIntoSpec(PropertyValues(survivor, p), Contribution(absorbed, p));
  }

  /** Merging an instance's properties into themselves changes none of them. */
  lemma MergeWithItself(props: map<string, seq<Value>>, p: string)
    ensures MergedValues(props, props, p) == PropertyValues(props, p)
  {
    UnionIntoSpec(PropertyValues(props, p), Contribution(props, p));
  }

  /** The record after `add_property(instance, property, value)`. */
  function WithValue(inst: Instance, property: string, v: Value): (r: Instance)
    ensures PropertyValues(r.props, property) == AddValue(PropertyValues(inst.props, property), v)
    ensures v in PropertyValues(r.props, property)
    ensures r.isInstanceOf == inst.isInstanceOf
    ensures forall q :: q != property ==> PropertyValues(r.props, q) == PropertyValues(inst.props, q)
    ensures v in PropertyValues(inst.props, property) ==> r == inst
    ensures Distinct(PropertyValues(inst.props, property)) ==> Distinct(PropertyValues(r.props, property))
  {
    var vals := PropertyValues(inst.props, property);
    if v in vals then inst else inst.(props := inst.props[property := AddValue(vals, v)])
  }

  /** `add_property` on a record is `AddValue` on the property's list. */
  lemma WithValueUpdates(inst: Instance, property: string, v: Value)
    ensures WithValue(inst, property, v)
            == inst.(props := inst.props[property := AddValue(PropertyValues(inst.props, property), v)])
  {
    if v in PropertyValues(inst.props, property) {
      assert inst.props[property := inst.props[property]] == inst.props;
    }
  }

  /** Adding the same value twice is adding it once. */
  lemma WithValueIdempotent(inst: Instance, property: string, v: Value)
    ensures WithValue(WithValue(inst, property, v), property, v) == WithValue(inst, property, v)
  {
  }

  /** The record after `add_property(instance, property, v)` for each `v` of `vs` in turn. */
  function WithValues(inst: Instance, property: string, vs: seq<Value>): (r: Instance)
    ensures r.isInstanceOf == inst.isInstanceOf
    ensures forall q :: q != property ==> PropertyValues(r.props, q) == PropertyValues(inst.props, q)
    ensures PropertyValues(r.props, property) == UnionInto(PropertyValues(inst.props, property), vs)
  {
    if vs == [] then inst else WithValue(WithValues(inst, property, vs[..|vs| - 1]), property, vs[|vs| - 1])
  }

  // ---------------------------------------------------------------------------------------
  // Reclassification

  /** `inst` is an instance of `cls`: one of its classes lies below `cls`. */
  predicate IsInstanceOf(h: Hierarchy, types: seq<Class>, cls: Class)
    requires WellFormed(h) && forall c :: c in types ==> Has(h, c)
  {
    exists c :: c in types && Below(h, c, cls)
  }

  /** No class of `types` lies strictly below another. */
  ghost predicate MostSpecific(h: Hierarchy, types: seq<Class>)
    requires WellFormed(h) && forall c :: c in types ==> Has(h, c)
  {
    forall a, b :: a in types && b in types && a != b ==> !Below(h, a, b)
  }

  /** `too_generic_types`: the classes of `types` that are strict supertypes of `cls`. */
  function TooGeneric(h: Hierarchy, types: seq<Class>, cls: Class): (r: seq<Class>)
    requires WellFormed(h) && Has(h, cls) && forall c :: c in types ==> Has(h, c)
    ensures forall c :: c in r <==> c in types && Supertype(h, c, cls, true)
  {
    if types == [] then []
    else (if Supertype(h, types[0], cls, true) then [types[0]] else []) + TooGeneric(h, types[1..], cls)
  }

  /** The classes of `types` that are not strict supertypes of `cls`, in order. */
  function NotTooGeneric(h: Hierarchy, types: seq<Class>, cls: Class): (r: seq<Class>)
    requires WellFormed(h) && Has(h, cls) && forall c :: c in types ==> Has(h, c)
    ensures forall c :: c in r <==> c in types && !Supertype(h, c, cls, true)
    ensures |r| <= |types|
  {
    if types == [] then []
    else (if Supertype(h, types[0], cls, true) then [] else [types[0]]) + NotTooGeneric(h, types[1..], cls)
  }

  /** `too_specific_types`: the classes of `types` that are `cls` or subtypes of it. */
  function TooSpecific(h: Hierarchy, types: seq<Class>, cls: Class): (r: seq<Class>)
    requires WellFormed(h) && Has(h, cls) && forall c :: c in types ==> Has(h, c)
    ensures forall c :: c in r <==> c in types && Subtype(h, c, cls, false)
  {
    if types == [] then []
    else (if Subtype(h, types[0], cls, false) then [types[0]] else []) + TooSpecific(h, types[1..], cls)
  }

  /** The classes `set_class_of_instance(instance, cls)` leaves: the strict supertypes of
      `cls` removed, then `cls` appended unless a class equal to it or below it is there. */
  function Reclassified(h: Hierarchy, types: seq<Class>, cls: Class): (r: seq<Class>)
    requires WellFormed(h) && Has(h, cls) && forall c :: c in types ==> Has(h, c)
    ensures forall c :: c in r ==> Has(h, c)
  {
    NotTooGeneric(h, types, cls) + (if TooSpecific(h, types, cls) == [] then [cls] else [])
  }

  /** `list.remove`: drops the first occurrence of `x`. A list without `x` comes back
      unchanged. */
  function RemoveFirst(s: seq<Class>, x: Class): (r: seq<Class>)
    ensures forall c :: c in r ==> c in s
    ensures x !in s ==> r == s
  {
    if s == [] then [] else if s[0] == x then s[1..] else [s[0]] + RemoveFirst(s[1..], x)
  }

  /** `r` is `s` without its element at `k`, the first occurrence of `x`. */
  predicate RemovedAt(s: seq<Class>, x: Class, r: seq<Class>, k: int) {
    0 <= k < |s| && s[k] == x && x !in s[..k] && r == s[..k] + s[k + 1..]
  }

  /** `RemoveFirst` takes out the first occurrence of `x` and nothing else: one `x` fewer,
      every other element in its place. */
  lemma RemoveFirstSpec(s: seq<Class>, x: Class)
    ensures x in s ==> exists k :: RemovedAt(s, x, RemoveFirst(s, x), k)
    ensures multiset(RemoveFirst(s, x)) == multiset(s) - multiset{x}
  {
    if x in s {
      RemoveFirstAt(s, x);
    }
    RemoveFirstCount(s, x);
  }

  lemma {:induction false} RemoveFirstAt(s: seq<Class>, x: Class)
    requires x in s
    ensures exists k :: RemovedAt(s, x, RemoveFirst(s, x), k)
  {
    if s[0] == x {
      assert RemoveFirst(s, x) == s[..0] + s[1..];
      assert RemovedAt(s, x, RemoveFirst(s, x), 0);
    } else {
      assert s == [s[0]] + s[1..];
      RemoveFirstAt(s[1..], x);
      var rest := RemoveFirst(s[1..], x);
      var k :| RemovedAt(s[1..], x, rest, k);
      assert s[..k + 1] == [s[0]] + s[1..][..k];
      assert s[k + 2..] == s[1..][k + 1..];
      assert RemoveFirst(s, x) == [s[0]] + rest == s[..k + 1] + s[k + 2..];
      assert RemovedAt(s, x, RemoveFirst(s, x), k + 1);
    }
  }

  lemma {:induction false} RemoveFirstCount(s: seq<Class>, x: Class)
    ensures multiset(RemoveFirst(s, x)) == multiset(s) - multiset{x}
  {
    if s != [] {
      assert s == [s[0]] + s[1..];
      assert multiset(s) == multiset{s[0]} + multiset(s[1..]);
      if s[0] != x {
        RemoveFirstCount(s[1..], x);
        assert multiset(RemoveFirst(s, x)) == multiset{s[0]} + multiset(RemoveFirst(s[1..], x));
      }
    }
  }

  /** Removing each of `xs` in turn. */
  function RemoveEach(s: seq<Class>, xs: seq<Class>): (r: seq<Class>)
    ensures forall c :: c in r ==> c in s
  {
    if xs == [] then s else RemoveFirst(RemoveEach(s, xs[..|xs| - 1]), xs[|xs| - 1])
  }

  /** Removing each of `xs` in turn takes out one occurrence of each, as many times as it is
      listed, and nothing else. */
  lemma {:induction false} RemoveEachSpec(s: seq<Class>, xs: seq<Class>)
    ensures multiset(RemoveEach(s, xs)) == multiset(s) - multiset(xs)
    decreases |xs|
  {
    if xs != [] {
      var n := |xs| - 1;
      assert xs == xs[..n] + [xs[n]];
      RemoveEachSpec(s, xs[..n]);
      RemoveFirstSpec(RemoveEach(s, xs[..n]), xs[n]);
    }
  }

  lemma {:induction false} RemoveEachSkipsHead(x: Class, s: seq<Class>, xs: seq<Class>)
    requires x !in xs
    ensures RemoveEach([x] + s, xs) == [x] + RemoveEach(s, xs)
    decreases |xs|
  {
    if xs != [] {
      RemoveEachSkipsHead(x, s, xs[..|xs| - 1]);
    }
  }

  lemma {:induction false} RemoveEachPeel(s: seq<Class>, x: Class, xs: seq<Class>)
    ensures RemoveEach(s, [x] + xs) == RemoveEach(RemoveFirst(s, x), xs)
    decreases |xs|
  {
    if xs != [] {
      assert ([x] + xs)[..|xs|] == [x] + xs[..|xs| - 1];
      RemoveEachPeel(s, x, xs[..|xs| - 1]);
    } else {
      assert ([x] + xs)[..0] == [];
    }
  }

  /** Removing the too-generic classes one `remove` at a time leaves exactly the others, in
      order. */
  lemma {:induction false} RemovingTooGeneric(h: Hierarchy, types: seq<Class>, cls: Class)
    requires WellFormed(h) && Has(h, cls) && forall c :: c in types ==> Has(h, c)
    ensures RemoveEach(types, TooGeneric(h, types, cls)) == NotTooGeneric(h, types, cls)
  {
    if types != [] {
      var x, rest := types[0], types[1..];
      assert types == [x] + rest;
      var g := TooGeneric(h, rest, cls);
      RemovingTooGeneric(h, rest, cls);
      if Supertype(h, x, cls, true) {
        assert TooGeneric(h, types, cls) == [x] + g;
        RemoveEachPeel(types, x, g);
        assert RemoveFirst(types, x) == rest;
      } else {
        assert TooGeneric(h, types, cls) == g;
        assert NotTooGeneric(h, types, cls) == [x] + NotTooGeneric(h, rest, cls);
        RemoveEachSkipsHead(x, rest, g);
      }
    }
  }

  /** Which classes `Reclassified` keeps, in terms of the order of the taxonomy. */
  lemma ReclassifiedMembers(h: Hierarchy, types: seq<Class>, cls: Class)
    requires WellFormed(h) && Has(h, cls) && forall c :: c in types ==> Has(h, c)
    ensures forall c :: c in NotTooGeneric(h, types, cls) <==> c in types && !(c != cls && Below(h, cls, c))
    ensures TooSpecific(h, types, cls) == [] <==> forall d :: d in types ==> !Below(h, d, cls)
  {
    if TooSpecific(h, types, cls) != [] {
      assert TooSpecific(h, types, cls)[0] in TooSpecific(h, types, cls);
    }
  }

  /** Which classes `set_class_of_instance` leaves: a class that was there and is not a
      strict supertype of `cls`, or `cls` itself when nothing equal to or below it was
      there. */
  lemma ReclassifiedMembership(h: Hierarchy, types: seq<Class>, cls: Class)
    requires WellFormed(h) && Has(h, cls) && forall c :: c in types ==> Has(h, c)
    ensures forall c :: c in Reclassified(h, types, cls)
                        <==> ((c in types && !(c != cls && Below(h, cls, c)))
                              || (c == cls && forall d :: d in types ==> !Below(h, d, cls)))
  {
    ReclassifiedMembers(h, types, cls);
  }

  /** After `set_class_of_instance` the instance is an instance of `cls` and of no strict
      supertype of `cls` directly. */
  lemma ReclassifiedIsInstanceOf(h: Hierarchy, types: seq<Class>, cls: Class)
    requires WellFormed(h) && Has(h, cls) && forall c :: c in types ==> Has(h, c)
    ensures IsInstanceOf(h, Reclassified(h, types, cls), cls)
    ensures forall c :: c in Reclassified(h, types, cls) ==> !(c != cls && Below(h, cls, c))
  {
    var r := Reclassified(h, types, cls);
    ReclassifiedMembership(h, types, cls);
    assert cls in Ancestry(h, cls, true);
    if TooSpecific(h, types, cls) == [] {
      assert cls in r && Below(h, cls, cls);
    } else {
      ReclassifiedMembers(h, types, cls);
      var d :| d in types && Below(h, d, cls);
      // A class below `cls` is not a strict supertype of it, so it is kept.
      if d != cls && Below(h, cls, d) {
        BelowAntisymmetric(h, d, cls);
      }
      assert d in r;
    }
  }

  /** A class list without two comparable classes keeps that shape. */
  lemma ReclassifiedKeepsMostSpecific(h: Hierarchy, types: seq<Class>, cls: Class)
    requires WellFormed(h) && Has(h, cls) && forall c :: c in types ==> Has(h, c)
    requires MostSpecific(h, types)
    ensures MostSpecific(h, Reclassified(h, types, cls))
  {
    ReclassifiedMembership(h, types, cls);
  }

  /** Reclassifying under the same class twice is reclassifying once. */
  lemma ReclassifiedIdempotent(h: Hierarchy, types: seq<Class>, cls: Class)
    requires WellFormed(h) && Has(h, cls) && forall c :: c in types ==> Has(h, c)
    ensures Reclassified(h, Reclassified(h, types, cls), cls) == Reclassified(h, types, cls)
  {
    var r := Reclassified(h, types, cls);
    ReclassifiedIsInstanceOf(h, types, cls);
    ReclassifiedMembers(h, r, cls);
    NotTooGenericKeepsAll(h, r, cls);
  }

  lemma {:induction false} NotTooGenericKeepsAll(h: Hierarchy, types: seq<Class>, cls: Class)
    requires WellFormed(h) && Has(h, cls) && forall c :: c in types ==> Has(h, c)
    requires forall c :: c in types ==> !Supertype(h, c, cls, true)
    ensures NotTooGeneric(h, types, cls) == types
  {
    if types != [] {
      NotTooGenericKeepsAll(h, types[1..], cls);
      assert types == [types[0]] + types[1..];
    }
  }

  /** `human_name`: the first raw name when there is one and it is not empty (Python's `or`),
      the entity's own name otherwise. */
  function HumanName(fancyName: seq<Value>, name: string): (r: Value)
    ensures fancyName != [] && fancyName[0] != Text("") ==> r == fancyName[0]
    ensures fancyName == [] || fancyName[0] == Text("") ==> r == Text(name)
    ensures name != "" ==> r != Text("")
  {
    match FirstOrNone(fancyName)
    case Some(v) => if v == Text("") then Text(name) else v
    case None => Text(name)
  }

  /** The loop of `_find_root_class`: the set of classes, among `classes`, whose ancestors
      are exactly Thing and themselves. */
  method CollectTopLevel(h: Hierarchy, classes: seq<Class>) returns (things: set<Class>)
    requires WellFormed(h) && forall x :: x in classes ==> x in h.parents
    ensures forall x :: x in things <==> x in classes && IsTopLevel(h, x)
  {
    things := {};
    for i := 0 to |classes|
      invariant forall x :: x in things <==> x in classes[..i] && IsTopLevel(h, x)
    {
      assert classes[..i + 1] == classes[..i] + [classes[i]];
      if IsTopLevel(h, classes[i]) {
        things := things + {classes[i]};
      }
    }
    assert classes[..|classes|] == classes;
  }

  /** The removal loop of `set_class_of_instance`: `remove` each of `xs` in turn. */
  method RemoveInTurn(types: seq<Class>, xs: seq<Class>) returns (r: seq<Class>)
    ensures r == RemoveEach(types, xs)
    ensures forall c :: c in r ==> c in types
  {
    r := types;
    for k := 0 to |xs|
      invariant r == RemoveEach(types, xs[..k])
    {
      assert xs[..k + 1][..k] == xs[..k];
      r := RemoveFirst(r, xs[k]);
    }
    assert xs[..|xs|] == xs;
  }

  /** The set `_find_root_class` collects decides the root: its only element when it has
      one, Thing otherwise. */
  lemma RootFromTopLevelSet(h: Hierarchy, things: set<Class>)
    requires WellFormed(h) && forall x :: x in things <==> x in h.classes && IsTopLevel(h, x)
    ensures |things| == 1 ==> forall x :: x in things ==> x == InferredRoot(h)
    ensures |things| != 1 ==> InferredRoot(h) == Thing
  {
    assert things == TopLevelSet(h);
    InferredRootCharacterised(h);
    if |things| == 1 {
      forall x | x in things ensures x == InferredRoot(h) {
        SingletonMembers(things, x, InferredRoot(h));
      }
    }
  }

  lemma SingletonMembers<T>(s: set<T>, x: T, y: T)
    requires |s| == 1 && x in s && y in s
    ensures x == y
  {
    var rest := s - {x};
    assert |rest| == 0;
    assert rest == {};
  }

  /** The instance list names each record once, and every class a record names is in the
      taxonomy. */
  ghost predicate Consistent(h: Hierarchy, order: seq<Iri>, records: map<Iri, Instance>) {
    && Distinct(order)
    && (forall iri :: iri in records <==> iri in order)
    && (forall iri, c :: iri in records && c in records[iri].isInstanceOf ==> Has(h, c))
  }

  /** Replacing one record by another whose classes are in the taxonomy keeps the graph
      consistent. */
  lemma ConsistentUpdate(h: Hierarchy, order: seq<Iri>, records: map<Iri, Instance>, iri: Iri, inst: Instance)
    requires Consistent(h, order, records) && iri in records
    requires forall c :: c in inst.isInstanceOf ==> Has(h, c)
    ensures Consistent(h, order, records[iri := inst])
  {
  }

  // ---------------------------------------------------------------------------------------
  // The graph

  class KnowledgeGraph {
    /** The class schema, loaded with the ontology and never changed by these operations. */
    const hierarchy: Hierarchy
    /** The ontology's namespace, where new instances are created. */
    const namespace: string
    /** Whether the ontology declares the `fancyName` property (`onto.fancyName is not None`). */
    const hasFancyName: bool
    /** The transliteration `owl_name` applies first. */
    const unidecode: string -> string
    /** The instances, in the order the ontology lists them. */
    var order: seq<Iri>
    /** Each instance's record. */
    var records: map<Iri, Instance>

    ghost predicate Valid()
      reads this
    {
      && WellFormed(hierarchy)
      && IsTransliteration(unidecode)
      && Consistent(hierarchy, order, records)
    }

    /** A graph opened on an ontology whose schema and instances are given. */
    constructor (hierarchy: Hierarchy, namespace: string, hasFancyName: bool, unidecode: string -> string,
                 order: seq<Iri>, records: map<Iri, Instance>)
      requires WellFormed(hierarchy) && IsTransliteration(unidecode)
      requires Consistent(hierarchy, order, records)
      ensures Valid()
      ensures this.hierarchy == hierarchy && this.namespace == namespace
      ensures this.hasFancyName == hasFancyName && this.unidecode == unidecode
      ensures this.order == order && this.records == records
    {
      this.hierarchy := hierarchy;
      this.namespace := namespace;
      this.hasFancyName := hasFancyName;
      this.unidecode := unidecode;
      this.order := order;
      this.records := records;
    }

    /** The instances of `ids` that are instances of `cls`, in order. */
    function InstancesIn(ids: seq<Iri>, cls: Class): (r: seq<Iri>)
      requires Valid() && Has(hierarchy, cls) && forall iri :: iri in ids ==> iri in records
      reads this
      ensures forall iri :: iri in r <==> iri in ids && IsInstanceOf(hierarchy, records[iri].isInstanceOf, cls)
    {
      if ids == [] then []
      else
        (if IsInstanceOf(hierarchy, records[ids[0]].isInstanceOf, cls) then [ids[0]] else [])
        + InstancesIn(ids[1..], cls)
    }

    /** `cls.instances()`: the instances of `cls` and of its subclasses. */
    function InstancesOf(cls: Class): (r: seq<Iri>)
      requires Valid() && Has(hierarchy, cls)
      reads this
      ensures forall iri :: iri in r <==> iri in records && IsInstanceOf(hierarchy, records[iri].isInstanceOf, cls)
    {
      InstancesIn(order, cls)
    }

    /** `get_filtered_instances(cls, namespace)`: the instances of `cls` in the namespace `ns`. */
    function FilteredInstances(cls: Class, ns: string): (r: seq<Iri>)
      requires Valid() && Has(hierarchy, cls)
      reads this
      ensures forall iri :: iri in r <==>
                iri in records && iri.namespace == ns && IsInstanceOf(hierarchy, records[iri].isInstanceOf, cls)
    {
      var all := InstancesOf(cls);
      var r := Filter(all, (iri: Iri) => iri.namespace == ns);
      assert forall iri :: iri in all && iri.namespace == ns ==> iri in r by {
        forall iri | iri in all && iri.namespace == ns ensures iri in r {
          var k :| 0 <= k < |all| && all[k] == iri;
        }
      }
      assert forall iri :: iri in r ==> iri in all by {
        forall iri | iri in r ensures iri in all {
          var k :| 0 <= k < |r| && r[k] == iri;
        }
      }
      r
    }

    /** `_find_root_class`: collects the classes whose ancestors are exactly Thing and
        themselves, and picks that class if it is the only one, Thing otherwise. */
    method FindRootClass() returns (root: Class)
      requires Valid()
      ensures root == InferredRoot(hierarchy)
    {
      var things := CollectTopLevel(hierarchy, hierarchy.classes);
      RootFromTopLevelSet(hierarchy, things);
      if |things| == 1 {
        var x :| x in things;
        root := x;
      } else {
        root := Thing;
      }
    }

    /** The record after `add_property(instance, property, value)`, by name. */
    method AddProperty(subject: Iri, property: string, value: Value)
      requires Valid() && subject in records
      modifies this
      ensures Valid() && order == old(order)
      ensures records == old(records)[subject := WithValue(old(records)[subject], property, value)]
    {
      var inst := records[subject];
      var propertyValues := PropertyValues(inst.props, property);
      if value !in propertyValues {
        ConsistentUpdate(hierarchy, order, records, subject, WithValue(inst, property, value));
        records := records[subject := inst.(props := inst.props[property := propertyValues + [value]])];
      } else {
        assert records == records[subject := inst];
      }
    }

    /** `set_class_of_instance(instance, cls)`: removes, one `remove` at a time, the classes
        that are strict supertypes of `cls`, then appends `cls` unless a class equal to it or
        below it is there. The source then tests whether the metaclass `ThingClass` is among
        the classes before removing Thing; the metaclass never is, so that step does nothing,
        and the two snapshots it takes afterwards are never used. */
    method SetClassOfInstance(instance: Iri, cls: Class) returns (result: Iri)
      requires Valid() && instance in records && Has(hierarchy, cls)
      modifies this
      ensures Valid() && order == old(order) && result == instance
      ensures records == old(records)[instance := old(records)[instance].(
                isInstanceOf := Reclassified(hierarchy, old(records)[instance].isInstanceOf, cls))]
    {
      var types := records[instance].isInstanceOf;
      ghost var initial := types;
      var tooGeneric := TooGeneric(hierarchy, types, cls);
      var tooSpecific := TooSpecific(hierarchy, types, cls);
      types := RemoveInTurn(types, tooGeneric);
      RemovingTooGeneric(hierarchy, initial, cls);
      if |tooSpecific| == 0 {
        types := types + [cls];
      }
      assert types == Reclassified(hierarchy, initial, cls);
      ConsistentUpdate(hierarchy, order, records, instance, records[instance].(isInstanceOf := types));
      records := records[instance := records[instance].(isInstanceOf := types)];
      result := instance;
    }

    /** The record of an instance after `add_instance` has given it its raw name. */
    function Tagged(inst: Instance, canonical: string, raw: string): (r: Instance)
      ensures r.isInstanceOf == inst.isInstanceOf
      ensures forall q :: q != FANCY_NAME ==> PropertyValues(r.props, q) == PropertyValues(inst.props, q)
      ensures hasFancyName && canonical != raw ==>
                PropertyValues(r.props, FANCY_NAME) == AddValue(PropertyValues(inst.props, FANCY_NAME), Text(raw))
      ensures !(hasFancyName && canonical != raw) ==> r == inst
    {
      if hasFancyName && canonical != raw then WithValue(inst, FANCY_NAME, Text(raw)) else inst
    }

    /** `cls(name)` in the ontology's namespace: a fresh record whose only class is `cls`, or,
        when that identity is already taken, the existing record with `cls` added to its
        classes. */
    method Create(cls: Class, name: string) returns (iri: Iri)
      requires Valid() && Has(hierarchy, cls)
      requires Iri(namespace, name) in records
               ==> !IsInstanceOf(hierarchy, records[Iri(namespace, name)].isInstanceOf, cls)
      modifies this
      ensures Valid() && iri == Iri(namespace, name)
      ensures old(iri in records) ==>
                && order == old(order)
                && records == old(records)[iri := old(records)[iri].(isInstanceOf := old(records)[iri].isInstanceOf + [cls])]
      ensures old(iri !in records) ==>
                && order == old(order) + [iri]
                && records == old(records)[iri := Instance([cls], map[])]
    {
      iri := Iri(namespace, name);
      if iri in records {
        ConsistentUpdate(hierarchy, order, records, iri, records[iri].(isInstanceOf := records[iri].isInstanceOf + [cls]));
        records := records[iri := records[iri].(isInstanceOf := records[iri].isInstanceOf + [cls])];
      } else {
        assert iri !in order;
        order := order + [iri];
        records := records[iri := Instance([cls], map[])];
      }
    }

    /** The lookup `add_instance` starts with: the first instance of `cls` whose name is
        `canonical`. */
    function Lookup(cls: Class, canonical: string): (r: Option<Iri>)
      requires Valid() && Has(hierarchy, cls)
      reads this
      ensures r.Some? ==> && r.value in records && r.value.name == canonical
                          && IsInstanceOf(hierarchy, records[r.value].isInstanceOf, cls)
      ensures r.Some? ==> var all := InstancesOf(cls);
                          exists k :: 0 <= k < |all| && all[k] == r.value
                                      && forall j :: 0 <= j < k ==> all[j].name != canonical
      ensures r.None? ==> forall iri :: iri in records && iri.name == canonical
                                        ==> !IsInstanceOf(hierarchy, records[iri].isInstanceOf, cls)
    {
      var all := InstancesOf(cls);
      var matching := Filter(all, (i: Iri) => i.name == canonical);
      assert forall iri :: iri in all && iri.name == canonical ==> iri in matching by {
        forall iri | iri in all && iri.name == canonical ensures iri in matching {
          var k :| 0 <= k < |all| && all[k] == iri;
        }
      }
      assert matching != [] ==> exists k :: 0 <= k < |all| && all[k] == matching[0]
                                            && forall j :: 0 <= j < k ==> all[j].name != canonical by {
        if matching != [] {
          FilterHead(all, (i: Iri) => i.name == canonical);
        }
      }
      FirstOrNone(matching)
    }

    /** The last step of `add_instance`: the raw name is added as `fancyName` when the
        ontology has that property and the raw name is not already canonical. */
    method TagRawName(inst: Iri, canonical: string, raw: string)
      requires Valid() && inst in records
      modifies this
      ensures Valid() && order == old(order)
      ensures records == old(records)[inst := Tagged(old(records)[inst], canonical, raw)]
    {
      if hasFancyName && canonical != raw {
        AddProperty(inst, FANCY_NAME, Text(raw));
      } else {
        assert records == records[inst := records[inst]];
      }
    }

    /** `add_instance(cls, name, add_to_class_if_existing)`: looks the canonical name up among
        the instances of `cls`; a hit is reclassified under `cls` when reuse is allowed, and is
        a `KeyError`, raised before anything changes, when it is not; a miss creates the
        instance. In both non-error cases the raw name is recorded as `fancyName` when the
        ontology has that property and the raw name differs from the canonical one. */
    method AddInstance(cls: Class, name: string, addToClassIfExisting: bool) returns (r: Result<Iri, KeyError>)
      requires Valid() && Has(hierarchy, cls)
      modifies this
      ensures Valid()
      ensures var canonical := OwlName(unidecode, name, true);
              var found := old(Lookup(cls, canonical));
              && (found.Some? && !addToClassIfExisting ==>
                    r == Err(KeyError(canonical, old(records)[found.value].isInstanceOf))
                    && records == old(records) && order == old(order))
              && (found.Some? && addToClassIfExisting ==>
                    r == Ok(found.value) && order == old(order)
                    && records == old(records)[found.value := Tagged(old(records)[found.value].(
                         isInstanceOf := Reclassified(hierarchy, old(records)[found.value].isInstanceOf, cls)), canonical, name)])
              && (found.None? ==>
                    var iri := Iri(namespace, canonical);
                    var before := if iri in old(records) then old(records)[iri].(isInstanceOf := old(records)[iri].isInstanceOf + [cls])
                                  else Instance([cls], map[]);
                    r == Ok(iri)
                    && order == (if iri in old(records) then old(order) else old(order) + [iri])
                    && records == old(records)[iri := Tagged(before, canonical, name)])
      ensures r.Ok? ==>
                && r.value in records && r.value.name == OwlName(unidecode, name, true)
                && IsInstanceOf(hierarchy, records[r.value].isInstanceOf, cls)
                && (hasFancyName && OwlName(unidecode, name, true) != name ==>
                      Text(name) in PropertyValues(records[r.value].props, FANCY_NAME))
    {
      var fancyName := name;
      var canonical := OwlName(unidecode, name, true);
      var instance := Lookup(cls, canonical);
      var inst: Iri;
      if instance.Some? {
        if addToClassIfExisting {
          inst := Reuse(instance.value, cls, canonical, fancyName);
        } else {
          return Err(KeyError(canonical, records[instance.value].isInstanceOf));
        }
      } else {
        inst := CreateNamed(cls, canonical, fancyName);
      }
      return Ok(inst);
    }

    /** The hit branch of `add_instance` with reuse allowed: the instance is reclassified
        under `cls`, then given its raw name. */
    method Reuse(inst: Iri, cls: Class, canonical: string, raw: string) returns (result: Iri)
      requires Valid() && inst in records && Has(hierarchy, cls)
      modifies this
      ensures Valid() && order == old(order) && result == inst
      ensures records == old(records)[inst := Tagged(old(records)[inst].(
                isInstanceOf := Reclassified(hierarchy, old(records)[inst].isInstanceOf, cls)), canonical, raw)]
      ensures IsInstanceOf(hierarchy, records[inst].isInstanceOf, cls)
      ensures hasFancyName && canonical != raw ==> Text(raw) in PropertyValues(records[inst].props, FANCY_NAME)
    {
      ghost var initial := records;
      ReclassifiedIsInstanceOf(hierarchy, records[inst].isInstanceOf, cls);
      result := SetClassOfInstance(inst, cls);
      ghost var untagged := records[inst];
      TagRawName(inst, canonical, raw);
      UpdateTwice(initial, inst, untagged, Tagged(untagged, canonical, raw));
    }

    /** The miss branch of `add_instance`: `cls(canonical)`, then the raw name. */
    method CreateNamed(cls: Class, canonical: string, raw: string) returns (iri: Iri)
      requires Valid() && Has(hierarchy, cls)
      requires Iri(namespace, canonical) in records
               ==> !IsInstanceOf(hierarchy, records[Iri(namespace, canonical)].isInstanceOf, cls)
      modifies this
      ensures Valid() && iri == Iri(namespace, canonical)
      ensures var before := if iri in old(records) then old(records)[iri].(isInstanceOf := old(records)[iri].isInstanceOf + [cls])
                            else Instance([cls], map[]);
              && order == (if iri in old(records) then old(order) else old(order) + [iri])
              && records == old(records)[iri := Tagged(before, canonical, raw)]
      ensures IsInstanceOf(hierarchy, records[iri].isInstanceOf, cls)
      ensures hasFancyName && canonical != raw ==> Text(raw) in PropertyValues(records[iri].props, FANCY_NAME)
    {
      ghost var initial := records;
      iri := Create(cls, canonical);
      assert cls in Ancestry(hierarchy, cls, true);
      assert cls in records[iri].isInstanceOf;
      ghost var untagged := records[iri];
      TagRawName(iri, canonical, raw);
      UpdateTwice(initial, iri, untagged, Tagged(untagged, canonical, raw));
    }

    /** The inner loop of `merge_instances`: `add_property(target, property, v)` for each
        `v` of `values` in turn. */
    method AddValues(target: Iri, property: string, values: seq<Value>)
      requires Valid() && target in records
      modifies this
      ensures Valid() && order == old(order)
      ensures records == old(records)[target := WithValues(old(records)[target], property, values)]
    {
      ghost var initial := records;
      for k := 0 to |values|
        invariant Valid() && order == old(order) && target in records
        invariant records == initial[target := WithValues(initial[target], property, values[..k])]
      {
        assert values[..k + 1][..k] == values[..k];
        ghost var before := WithValues(initial[target], property, values[..k]);
        AddProperty(target, property, values[k]);
        UpdateTwice(initial, target, before, WithValue(before, property, values[k]));
      }
      assert values[..|values|] == values;
    }

    /** The loop of `merge_instances`: every value of every property of `absorbed` but the
        raw name is added, one `add_property` at a time, to the same property of `target`.
        The properties come in no fixed order. */
    method AbsorbProperties(target: Iri, absorbed: map<string, seq<Value>>)
      requires Valid() && target in records
      modifies this
      ensures Valid() && order == old(order) && target in records
      ensures records == old(records)[target := records[target]]
      ensures records[target].isInstanceOf == old(records)[target].isInstanceOf
      ensures MergedInto(records[target].props, old(records)[target].props, absorbed)
    {
      ghost var initial := records;
      ghost var types := records[target].isInstanceOf;
      ghost var survivor := records[target].props;
      var pending := absorbed.Keys;
      forall q ensures PropertyValues(survivor, q) == MergedValues(survivor, absorbed - pending, q) {
        assert Contribution(absorbed - pending, q) == [];
      }
      while pending != {}
        invariant pending <= absorbed.Keys
        invariant Valid() && order == old(order) && target in records
        invariant records == initial[target := records[target]]
        invariant records[target].isInstanceOf == types
        invariant MergedInto(records[target].props, survivor, absorbed - pending)
        decreases pending
      {
        var p :| p in pending;
        forall q
          ensures q != p ==> MergedValues(survivor, absorbed - (pending - {p}), q) == MergedValues(survivor, absorbed - pending, q)
          ensures q == p ==> MergedValues(survivor, absorbed - pending, p) == PropertyValues(survivor, p)
        {
          MergedValuesNext(survivor, absorbed, pending, p, q);
        }
        if p != FANCY_NAME {
          ghost var before := records[target];
          AddValues(target, p, absorbed[p]);
          UpdateTwice(initial, target, before, records[target]);
          assert Contribution(absorbed - (pending - {p}), p) == absorbed[p];
        }
        pending := pending - {p};
      }
      assert absorbed - pending == absorbed;
    }

    /** `destroy_entity(instance)`: the instance's record is gone. */
    method Destroy(instance: Iri)
      requires Valid()
      modifies this
      ensures Valid()
      ensures records == old(records) - {instance}
      ensures order == Filter(old(order), (i: Iri) => i != instance)
    {
      records := records - {instance};
      order := Filter(order, (i: Iri) => i != instance);
      forall iri | iri in order ensures iri in records {
        var k :| 0 <= k < |order| && order[k] == iri;
      }
      forall iri | iri in old(order) && iri != instance ensures iri in order {
        var k :| 0 <= k < |old(order)| && old(order)[k] == iri;
      }
    }

    /** `merge_instances(instance1, instance2, cls)`: unless both are instances of `cls`,
        nothing changes and the answer is false. Otherwise every value of every property of
        `instance2` but its raw name is added to the same property of `instance1`, `instance2`
        is destroyed, and the answer is true. Nothing stops `instance1` and `instance2` from
        being the same instance, in which case the survivor itself is destroyed. */
    method MergeInstances(instance1: Iri, instance2: Iri, cls: Class) returns (merged: bool)
      requires Valid() && Has(hierarchy, cls)
      modifies this
      ensures Valid()
      ensures merged <==> old(instance1 in InstancesOf(cls) && instance2 in InstancesOf(cls))
      ensures !merged ==> records == old(records) && order == old(order)
      ensures merged ==>
                && records.Keys == old(records).Keys - {instance2}
                && order == Filter(old(order), (i: Iri) => i != instance2)
                && (forall iri :: iri in records && iri != instance1 ==> records[iri] == old(records)[iri])
                && (instance1 in records <==> instance1 != instance2)
                && (instance1 in records ==>
                      && records[instance1].isInstanceOf == old(records)[instance1].isInstanceOf
                      && MergedInto(records[instance1].props, old(records)[instance1].props, old(records)[instance2].props))
    {
      var allInstances := InstancesOf(cls);
      if instance1 !in allInstances {
        return false;
      }
      if instance2 !in allInstances {
        return false;
      }
      AbsorbProperties(instance1, records[instance2].props);
      Destroy(instance2);
      return true;
    }
  }

  // ---------------------------------------------------------------------------------------
  // The steps of the merge loop

  lemma UpdateTwice<K, V>(m: map<K, V>, k: K, a: V, b: V)
    ensures m[k := a][k := b] == m[k := b]
  {
  }

  /** One round of the merge loop: property `p` leaves the pending set, which changes what
      is merged of `p` only. */
  lemma MergedValuesNext(survivor: map<string, seq<Value>>, absorbed: map<string, seq<Value>>,
                         pending: set<string>, p: string, q: string)
    requires p in pending
    ensures q != p ==> MergedValues(survivor, absorbed - (pending - {p}), q) == MergedValues(survivor, absorbed - pending, q)
    ensures q == p ==> MergedValues(survivor, absorbed - pending, p) == PropertyValues(survivor, p)
  {
    if q != p {
      assert (q in absorbed - (pending - {p})) <==> (q in absorbed - pending);
    }
  }
}
