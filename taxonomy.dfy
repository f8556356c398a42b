/** The class taxonomy that owlready2 supplies to utils.py, made explicit: direct parents,
    ancestor and descendant enumerations, the `subtype`/`supertype` tests built on the overlap
    primitive, the depth-first traversal of `visit_classes_depth_first` and the root inference
    of `_find_root_class`. */
module Taxonomy {
  import opened Iterables

  type Class = string

  /** The universal top class, an ancestor of every class. */
  const Thing: Class := "Thing"

  /** The class schema. `classes` lists the ontology's classes in declaration order (Thing is
      not one of them), `parents` gives each class its direct superclasses (a top-level class
      has `[Thing]`), and `rank` is a topological level: every parent ranks strictly below its
      child, which is what makes the hierarchy acyclic. */
  datatype Hierarchy = Hierarchy(classes: seq<Class>, parents: map<Class, seq<Class>>, rank: map<Class, nat>)

  /** `c` is Thing or a class of the schema. */
  predicate Has(h: Hierarchy, c: Class) {
    c == Thing || c in h.parents
  }

  function Rank(h: Hierarchy, c: Class): nat {
    if c in h.rank then h.rank[c] else 0
  }

  ghost predicate WellFormed(h: Hierarchy) {
    && Thing !in h.parents
    && (forall c :: c in h.parents <==> c in h.classes)
    && (forall i, j :: 0 <= i < j < |h.classes| ==> h.classes[i] != h.classes[j])
    && (forall c :: c in h.parents ==> c in h.rank && 1 <= h.rank[c] <= |h.classes| && h.parents[c] != [])
    && (forall c, p :: c in h.parents && p in h.parents[c] ==> Has(h, p) && Rank(h, p) < Rank(h, c))
  }

  // ---------------------------------------------------------------------------------------
  // Ancestors

  /** `c.ancestors(include_self)` as an enumeration: `c` itself when asked for, then the
      ancestors of each direct parent in turn (a class reached along several paths is
      enumerated once per path). Every ancestor other than `c` ranks below it, so `c` occurs
      exactly when asked for. */
  function Ancestry(h: Hierarchy, c: Class, includeSelf: bool): (r: seq<Class>)
    requires WellFormed(h) && Has(h, c)
    ensures forall x :: x in r ==> Has(h, x) && (x == c || Rank(h, x) < Rank(h, c))
    ensures c in r <==> includeSelf
    decreases Rank(h, c), 1, 0
  {
    (if includeSelf then [c] else []) + (if c == Thing then [] else AncestryOfAll(h, h.parents[c], Rank(h, c)))
  }

  /** The ancestors (each included) of every class of `ps`, in order. */
  function AncestryOfAll(h: Hierarchy, ps: seq<Class>, bound: nat): (r: seq<Class>)
    requires WellFormed(h)
    requires forall p :: p in ps ==> Has(h, p) && Rank(h, p) < bound
    ensures forall x :: x in r ==> Has(h, x) && Rank(h, x) < bound
    decreases bound, 0, |ps|
  {
    if ps == [] then [] else Ancestry(h, ps[0], true) + AncestryOfAll(h, ps[1..], bound)
  }

  /** `c` is `a` or lies below it: `a` is among `c.ancestors()`. */
  predicate Below(h: Hierarchy, c: Class, a: Class)
    requires WellFormed(h) && Has(h, c)
  {
    a in Ancestry(h, c, true)
  }

  lemma {:induction false} AncestryOfAllMember(h: Hierarchy, ps: seq<Class>, bound: nat, x: Class)
    requires WellFormed(h)
    requires forall p :: p in ps ==> Has(h, p) && Rank(h, p) < bound
    ensures x in AncestryOfAll(h, ps, bound) <==> exists p :: p in ps && x in Ancestry(h, p, true)
    decreases |ps|
  {
    if ps != [] {
      AncestryOfAllMember(h, ps[1..], bound, x);
      if x in Ancestry(h, ps[0], true) {
        assert ps[0] in ps;
      }
      forall p | p in ps && x in Ancestry(h, p, true)
        ensures x in AncestryOfAll(h, ps, bound)
      {
        if p != ps[0] {
          assert p in ps[1..];
        }
      }
    }
  }

  /** Being below is transitive. */
  lemma {:induction false} BelowTransitive(h: Hierarchy, x: Class, y: Class, z: Class)
    requires WellFormed(h) && Has(h, x) && Has(h, y)
    requires Below(h, x, y) && Below(h, y, z)
    ensures Below(h, x, z)
    decreases Rank(h, x)
  {
    if x != y {
      AncestryOfAllMember(h, h.parents[x], Rank(h, x), y);
      var p :| p in h.parents[x] && y in Ancestry(h, p, true);
      BelowTransitive(h, p, y, z);
      AncestryOfAllMember(h, h.parents[x], Rank(h, x), z);
    }
  }

  /** A direct parent lies above its child. */
  lemma ParentAbove(h: Hierarchy, c: Class, p: Class)
    requires WellFormed(h) && c in h.parents && p in h.parents[c]
    ensures Below(h, c, p)
  {
    AncestryOfAllMember(h, h.parents[c], Rank(h, c), p);
  }

  /** Thing lies above every class. */
  lemma {:induction false} ThingAboveAll(h: Hierarchy, c: Class)
    requires WellFormed(h) && Has(h, c)
    ensures Below(h, c, Thing)
    decreases Rank(h, c)
  {
    if c != Thing {
      var p := h.parents[c][0];
      ParentAbove(h, c, p);
      ThingAboveAll(h, p);
      BelowTransitive(h, c, p, Thing);
    }
  }

  /** No two distinct classes lie below each other. */
  lemma BelowAntisymmetric(h: Hierarchy, a: Class, b: Class)
    requires WellFormed(h) && Has(h, a) && Has(h, b)
    requires Below(h, a, b) && Below(h, b, a)
    ensures a == b
  {
  }

  // ---------------------------------------------------------------------------------------
  // Subclasses, descendants and the depth-first traversal

  /** The classes of `cs` that have `c` among their direct parents, in order. */
  function Children(h: Hierarchy, cs: seq<Class>, c: Class): (r: seq<Class>)
    requires forall x :: x in cs ==> x in h.parents
    ensures forall x :: x in r <==> x in cs && c in h.parents[x]
  {
    if cs == [] then []
    else (if c in h.parents[cs[0]] then [cs[0]] else []) + Children(h, cs[1..], c)
  }

  /** `c.subclasses()`: the direct subclasses of `c`, in declaration order. */
  function Subclasses(h: Hierarchy, c: Class): (r: seq<Class>)
    requires WellFormed(h)
    ensures forall x :: x in r <==> x in h.parents && c in h.parents[x]
  {
    Children(h, h.classes, c)
  }

  /** `visit_classes_depth_first(root, postorder)` from a given root: the root, and the
      traversal of each subclass in turn, the root coming first in pre-order and last in
      post-order. There is no visited set, so under multiple inheritance a class comes once
      per path. Everything after (pre-order) or before (post-order) the root ranks above it. */
  function Visit(h: Hierarchy, c: Class, postorder: bool): (r: seq<Class>)
    requires WellFormed(h) && Has(h, c)
    ensures r != [] && (if postorder then r[|r| - 1] else r[0]) == c
    ensures forall x :: x in r ==> Has(h, x) && (x == c || Rank(h, x) > Rank(h, c))
    decreases |h.classes| - Rank(h, c), 1, 0
  {
    var below := VisitAll(h, Subclasses(h, c), c, postorder);
    if postorder then below + [c] else [c] + below
  }

  /** The traversals of the classes `cs`, all direct subclasses of `parent`, one after the other. */
  function VisitAll(h: Hierarchy, cs: seq<Class>, parent: Class, postorder: bool): (r: seq<Class>)
    requires WellFormed(h) && Has(h, parent)
    requires forall x :: x in cs ==> x in h.parents && parent in h.parents[x]
    ensures forall x :: x in r ==> Has(h, x) && Rank(h, x) > Rank(h, parent)
    decreases |h.classes| - Rank(h, parent), 0, |cs|
  {
    if cs == [] then [] else Visit(h, cs[0], postorder) + VisitAll(h, cs[1..], parent, postorder)
  }

  /** `c.descendants(include_self)` as an enumeration: the pre-order walk below `c`. */
  function Descendants(h: Hierarchy, c: Class, includeSelf: bool): (r: seq<Class>)
    requires WellFormed(h) && Has(h, c)
    ensures c in r <==> includeSelf
  {
    (if includeSelf then [c] else []) + VisitAll(h, Subclasses(h, c), c, false)
  }

  lemma {:induction false} VisitAllMember(h: Hierarchy, cs: seq<Class>, parent: Class, postorder: bool, x: Class)
    requires WellFormed(h) && Has(h, parent)
    requires forall y :: y in cs ==> y in h.parents && parent in h.parents[y]
    ensures x in VisitAll(h, cs, parent, postorder) <==> exists y :: y in cs && x in Visit(h, y, postorder)
    decreases |cs|
  {
    if cs != [] {
      VisitAllMember(h, cs[1..], parent, postorder, x);
      if x in Visit(h, cs[0], postorder) {
        assert cs[0] in cs;
      }
      forall y | y in cs && x in Visit(h, y, postorder)
        ensures x in VisitAll(h, cs, parent, postorder)
      {
        if y != cs[0] {
          assert y in cs[1..];
        }
      }
    }
  }

  /** Everything the traversal from `c` yields lies below `c`. */
  lemma {:induction false} VisitSound(h: Hierarchy, c: Class, postorder: bool, x: Class)
    requires WellFormed(h) && Has(h, c)
    requires x in Visit(h, c, postorder)
    ensures Has(h, x) && Below(h, x, c)
    decreases |h.classes| - Rank(h, c)
  {
    if x != c {
      VisitAllMember(h, Subclasses(h, c), c, postorder, x);
      var y :| y in Subclasses(h, c) && x in Visit(h, y, postorder);
      VisitSound(h, y, postorder, x);
      ParentAbove(h, y, c);
      BelowTransitive(h, x, y, c);
    }
  }

  /** A direct subclass of a class the traversal yields is yielded too. */
  lemma {:induction false} VisitClosedUnderChildren(h: Hierarchy, c: Class, postorder: bool, p: Class, x: Class)
    requires WellFormed(h) && Has(h, c)
    requires p in Visit(h, c, postorder) && x in h.parents && p in h.parents[x]
    ensures x in Visit(h, c, postorder)
    decreases |h.classes| - Rank(h, c)
  {
    VisitAllMember(h, Subclasses(h, c), c, postorder, x);
    if p == c {
      assert x in Subclasses(h, c) && x in Visit(h, x, postorder);
    } else {
      VisitAllMember(h, Subclasses(h, c), c, postorder, p);
      var y :| y in Subclasses(h, c) && p in Visit(h, y, postorder);
      VisitClosedUnderChildren(h, y, postorder, p, x);
    }
  }

  /** Every class below `c` is yielded by the traversal from `c`. */
  lemma {:induction false} VisitComplete(h: Hierarchy, c: Class, postorder: bool, x: Class)
    requires WellFormed(h) && Has(h, c) && Has(h, x)
    requires Below(h, x, c)
    ensures x in Visit(h, c, postorder)
    decreases Rank(h, x)
  {
    if x != c {
      AncestryOfAllMember(h, h.parents[x], Rank(h, x), c);
      var p :| p in h.parents[x] && c in Ancestry(h, p, true);
      VisitComplete(h, c, postorder, p);
      VisitClosedUnderChildren(h, c, postorder, p, x);
    }
  }

  /** The traversal from `c`, in either order, yields exactly the classes below `c`. */
  lemma VisitYieldsDescendants(h: Hierarchy, c: Class, postorder: bool, x: Class)
    requires WellFormed(h) && Has(h, c) && Has(h, x)
    ensures x in Visit(h, c, postorder) <==> Below(h, x, c)
  {
    if x in Visit(h, c, postorder) {
      VisitSound(h, c, postorder, x);
    }
    if Below(h, x, c) {
      VisitComplete(h, c, postorder, x);
    }
  }

  /** Pre-order and post-order yield the same classes the same number of times. */
  lemma {:induction false} VisitOrdersArePermutations(h: Hierarchy, c: Class)
    requires WellFormed(h) && Has(h, c)
    ensures multiset(Visit(h, c, true)) == multiset(Visit(h, c, false))
    decreases |h.classes| - Rank(h, c), 1, 0
  {
    VisitAllOrdersArePermutations(h, Subclasses(h, c), c);
  }

  lemma {:induction false} VisitAllOrdersArePermutations(h: Hierarchy, cs: seq<Class>, parent: Class)
    requires WellFormed(h) && Has(h, parent)
    requires forall x :: x in cs ==> x in h.parents && parent in h.parents[x]
    ensures multiset(VisitAll(h, cs, parent, true)) == multiset(VisitAll(h, cs, parent, false))
    decreases |h.classes| - Rank(h, parent), 0, |cs|
  {
    if cs != [] {
      VisitOrdersArePermutations(h, cs[0]);
      VisitAllOrdersArePermutations(h, cs[1..], parent);
    }
  }

  // ---------------------------------------------------------------------------------------
  // The subtype and supertype tests

  /** `subtype(c1, c2, strict)`: `c1` overlaps the descendants of `c2`, which include `c2`
      only when the test is not strict. It holds exactly when `c1` lies below `c2`, and is
      not `c2` when strict. */
  function Subtype(h: Hierarchy, c1: Class, c2: Class, strict: bool): (r: bool)
    requires WellFormed(h) && Has(h, c1) && Has(h, c2)
    ensures r <==> Below(h, c1, c2) && (!strict || c1 != c2)
  {
    OverlapsSingleton(c1, Descendants(h, c2, !strict));
    VisitYieldsDescendants(h, c2, false, c1);
    Overlaps([c1], Descendants(h, c2, !strict))
  }

  /** `supertype(c1, c2, strict)`: `c1` overlaps the ancestors of `c2`, which include `c2`
      only when the test is not strict. It holds exactly when `c2` lies below `c1`, and is
      not `c1` when strict. */
  function Supertype(h: Hierarchy, c1: Class, c2: Class, strict: bool): (r: bool)
    requires WellFormed(h) && Has(h, c1) && Has(h, c2)
    ensures r <==> Below(h, c2, c1) && (!strict || c1 != c2)
  {
    OverlapsSingleton(c1, Ancestry(h, c2, !strict));
    Overlaps([c1], Ancestry(h, c2, !strict))
  }

  /** A class is a non-strict subtype of itself and not a strict one. */
  lemma SubtypeReflexive(h: Hierarchy, c: Class)
    requires WellFormed(h) && Has(h, c)
    ensures Subtype(h, c, c, false) && !Subtype(h, c, c, true)
  {
    assert c in Ancestry(h, c, true);
  }

  /** `subtype(a, b, s) == supertype(b, a, s)` for all classes and flags. */
  lemma SubtypeIsConverseOfSupertype(h: Hierarchy, a: Class, b: Class, strict: bool)
    requires WellFormed(h) && Has(h, a) && Has(h, b)
    ensures Subtype(h, a, b, strict) == Supertype(h, b, a, strict)
  {
  }

  // ---------------------------------------------------------------------------------------
  // Root inference

  /** The test of `_find_root_class`: the ancestors of `c` are exactly Thing and `c`. */
  predicate IsTopLevel(h: Hierarchy, c: Class)
    requires WellFormed(h) && Has(h, c)
  {
    (set x | x in Ancestry(h, c, true)) == {Thing, c}
  }

  /** The classes of `cs` that pass the top-level test, in order. */
  function TopLevelIn(h: Hierarchy, cs: seq<Class>): (r: seq<Class>)
    requires WellFormed(h) && forall x :: x in cs ==> x in h.parents
    ensures forall x :: x in r <==> x in cs && IsTopLevel(h, x)
    ensures |r| <= |cs|
  {
    if cs == [] then []
    else (if IsTopLevel(h, cs[0]) then [cs[0]] else []) + TopLevelIn(h, cs[1..])
  }

  /** The root `_find_root_class` settles on: the only top-level class if there is exactly
      one, Thing otherwise. */
  function InferredRoot(h: Hierarchy): (r: Class)
    requires WellFormed(h)
    ensures Has(h, r)
  {
    var tops := TopLevelIn(h, h.classes);
    if |tops| == 1 then tops[0] else Thing
  }

  /** A class passes the top-level test exactly when all its direct parents are Thing. */
  lemma TopLevelMeansChildOfThing(h: Hierarchy, c: Class)
    requires WellFormed(h) && c in h.parents
    ensures IsTopLevel(h, c) <==> forall p :: p in h.parents[c] ==> p == Thing
  {
    var anc := set x | x in Ancestry(h, c, true);
    ThingAboveAll(h, c);
    if forall p :: p in h.parents[c] ==> p == Thing {
      forall x | x in anc ensures x == Thing || x == c {
        if x != c {
          AncestryOfAllMember(h, h.parents[c], Rank(h, c), x);
          var p :| p in h.parents[c] && x in Ancestry(h, p, true);
        }
      }
      assert anc == {Thing, c};
    } else {
      var p :| p in h.parents[c] && p != Thing;
      ParentAbove(h, c, p);
      assert p in anc && p != c;
    }
  }

  /** Distinct elements: the set has as many members as the sequence. */
  lemma {:induction false} DistinctCardinality(s: seq<Class>)
    requires Distinct(s)
    ensures |set x | x in s| == |s|
  {
    if s != [] {
      DistinctCardinality(s[1..]);
      assert (set x | x in s) == (set x | x in s[1..]) + {s[0]};
      assert s[0] !in s[1..] by {
        forall k | 0 <= k < |s| - 1 ensures s[1..][k] != s[0] {
          assert s[1..][k] == s[k + 1];
        }
      }
    }
  }

  lemma {:induction false} TopLevelInDistinct(h: Hierarchy, cs: seq<Class>)
    requires WellFormed(h) && forall x :: x in cs ==> x in h.parents
    requires Distinct(cs)
    ensures Distinct(TopLevelIn(h, cs))
  {
    if cs != [] {
      TopLevelInDistinct(h, cs[1..]);
      var rest := TopLevelIn(h, cs[1..]);
      assert cs[0] !in cs[1..] by {
        forall k | 0 <= k < |cs| - 1 ensures cs[1..][k] != cs[0] {
          assert cs[1..][k] == cs[k + 1];
        }
      }
      if IsTopLevel(h, cs[0]) {
        var r := [cs[0]] + rest;
        forall i, j | 0 <= i < j < |r| ensures r[i] != r[j] {
          assert r[j] == rest[j - 1];
          if i > 0 {
            assert r[i] == rest[i - 1];
          }
        }
      }
    }
  }

  /** The classes that pass the top-level test, as the set `_find_root_class` builds. */
  function TopLevelSet(h: Hierarchy): set<Class>
    requires WellFormed(h)
  {
    set c | c in h.parents && IsTopLevel(h, c)
  }

  lemma TopLevelSetIsTopLevelIn(h: Hierarchy)
    requires WellFormed(h)
    ensures TopLevelSet(h) == set x | x in TopLevelIn(h, h.classes)
    ensures |TopLevelSet(h)| == |TopLevelIn(h, h.classes)|
  {
    var seqTops := TopLevelIn(h, h.classes);
    TopLevelInDistinct(h, h.classes);
    DistinctCardinality(seqTops);
  }

  /** The set-based statement of root inference: the inferred root is the unique class whose
      ancestors are Thing and itself when there is exactly one such class, Thing otherwise. */
  lemma InferredRootCharacterised(h: Hierarchy)
    requires WellFormed(h)
    ensures |TopLevelSet(h)| == 1 ==> InferredRoot(h) in TopLevelSet(h)
    ensures |TopLevelSet(h)| != 1 ==> InferredRoot(h) == Thing
  {
    TopLevelSetIsTopLevelIn(h);
    var seqTops := TopLevelIn(h, h.classes);
    if |seqTops| == 1 {
      assert seqTops[0] in seqTops;
    }
  }

  /** `visit_classes_depth_first(root, postorder)`: the traversal from the given root, or from
      the inferred root when none is given. */
  function VisitClassesDepthFirst(h: Hierarchy, root: Option<Class>, postorder: bool): (r: seq<Class>)
    requires WellFormed(h) && (root.Some? ==> Has(h, root.value))
    ensures var start := if root.Some? then root.value else InferredRoot(h);
            r != [] && (if postorder then r[|r| - 1] else r[0]) == start
  {
    Visit(h, if root.Some? then root.value else InferredRoot(h), postorder)
  }

  /** The traversal yields exactly the classes below its root, and the two orders are
      permutations of each other. */
  lemma VisitClassesDepthFirstProperties(h: Hierarchy, root: Option<Class>, postorder: bool)
    requires WellFormed(h) && (root.Some? ==> Has(h, root.value))
    ensures var start := if root.Some? then root.value else InferredRoot(h);
            var r := VisitClassesDepthFirst(h, root, postorder);
            && (forall x :: Has(h, x) ==> (x in r <==> Below(h, x, start)))
            && multiset(r) == multiset(VisitClassesDepthFirst(h, root, !postorder))
  {
    var start := if root.Some? then root.value else InferredRoot(h);
    forall x | Has(h, x) ensures x in Visit(h, start, postorder) <==> Below(h, x, start) {
      VisitYieldsDescendants(h, start, postorder, x);
    }
    VisitOrdersArePermutations(h, start);
  }
}
