/** Worked examples: a three-level chain of classes such as Animal > Bird > Penguin, and a
    taxonomy with two top-level classes such as Animal and Vehicle. */
module Scenarios {
  import opened Iterables
  import opened Taxonomy
  import opened Graph

  /** `h` declares exactly the chain `a` > `b` > `c` under Thing. */
  ghost predicate IsChain(h: Hierarchy, a: Class, b: Class, c: Class) {
    && WellFormed(h)
    && h.classes == [a, b, c]
    && h.parents[a] == [Thing] && h.parents[b] == [a] && h.parents[c] == [b]
  }

  lemma ChainDistinct(h: Hierarchy, a: Class, b: Class, c: Class)
    requires IsChain(h, a, b, c)
    ensures a != b && b != c && a != c
    ensures a != Thing && b != Thing && c != Thing
  {
    assert h.classes[0] == a && h.classes[1] == b && h.classes[2] == c;
  }

  lemma ChildrenOfThree(h: Hierarchy, a: Class, b: Class, c: Class, x: Class)
    requires a in h.parents && b in h.parents && c in h.parents
    ensures Children(h, [a, b, c], x)
            == (if x in h.parents[a] then [a] else []) + (if x in h.parents[b] then [b] else [])
               + (if x in h.parents[c] then [c] else [])
  {
    assert [a, b, c][1..] == [b, c] && [b, c][1..] == [c] && [c][1..] == [];
    assert Children(h, [c], x) == (if x in h.parents[c] then [c] else []);
    assert Children(h, [b, c], x) == (if x in h.parents[b] then [b] else []) + Children(h, [c], x);
  }

  lemma ChainSubclasses(h: Hierarchy, a: Class, b: Class, c: Class)
    requires IsChain(h, a, b, c)
    ensures Subclasses(h, c) == [] && Subclasses(h, b) == [c] && Subclasses(h, a) == [b]
  {
    ChainDistinct(h, a, b, c);
    ChildrenOfThree(h, a, b, c, a);
    ChildrenOfThree(h, a, b, c, b);
    ChildrenOfThree(h, a, b, c, c);
  }

  lemma ChainTopLevel(h: Hierarchy, a: Class, b: Class, c: Class)
    requires IsChain(h, a, b, c)
    ensures TopLevelIn(h, h.classes) == [a]
  {
    ChainDistinct(h, a, b, c);
    TopLevelMeansChildOfThing(h, a);
    TopLevelMeansChildOfThing(h, b);
    TopLevelMeansChildOfThing(h, c);
    assert h.parents[b][0] == a && h.parents[c][0] == b;
    assert !IsTopLevel(h, b) && !IsTopLevel(h, c) && IsTopLevel(h, a);
    assert h.classes[1..] == [b, c] && h.classes[1..][1..] == [c] && h.classes[1..][1..][1..] == [];
    assert TopLevelIn(h, [c]) == [];
    assert TopLevelIn(h, [b, c]) == [];
  }

  /** The traversal from a class with no subclass, or with a single subclass, in terms of
      the traversal below. */
  lemma VisitLeaf(h: Hierarchy, c: Class, postorder: bool)
    requires WellFormed(h) && Has(h, c) && Subclasses(h, c) == []
    ensures Visit(h, c, postorder) == [c]
  {
    assert VisitAll(h, [], c, postorder) == [];
  }

  lemma VisitOnlyChild(h: Hierarchy, p: Class, c: Class, postorder: bool)
    requires WellFormed(h) && Has(h, p) && Subclasses(h, p) == [c]
    ensures postorder ==> Visit(h, p, postorder) == Visit(h, c, postorder) + [p]
    ensures !postorder ==> Visit(h, p, postorder) == [p] + Visit(h, c, postorder)
  {
    assert VisitAll(h, [c], p, postorder) == Visit(h, c, postorder) by {
      assert [c][1..] == [];
    }
  }

  /** The traversal from a class whose only subclass has none. */
  lemma VisitTwoLevels(h: Hierarchy, b: Class, c: Class, postorder: bool)
    requires WellFormed(h) && Has(h, b) && Has(h, c)
    requires Subclasses(h, b) == [c] && Subclasses(h, c) == []
    ensures Visit(h, b, postorder) == if postorder then [c, b] else [b, c]
  {
    VisitLeaf(h, c, postorder);
    VisitOnlyChild(h, b, c, postorder);
  }

  /** The traversal from a class above a two-level traversal. */
  lemma VisitAbove(h: Hierarchy, a: Class, b: Class, c: Class, postorder: bool)
    requires WellFormed(h) && Has(h, a) && Has(h, b)
    requires Subclasses(h, a) == [b] && Visit(h, b, postorder) == (if postorder then [c, b] else [b, c])
    ensures Visit(h, a, postorder) == if postorder then [c, b, a] else [a, b, c]
  {
    VisitOnlyChild(h, a, b, postorder);
  }

  lemma ChainRoot(h: Hierarchy, a: Class, b: Class, c: Class)
    requires IsChain(h, a, b, c)
    ensures InferredRoot(h) == a
  {
    ChainTopLevel(h, a, b, c);
  }

  /** In a chain the top class is the inferred root; post-order visits the chain bottom-up
      and pre-order visits it top-down, the reverse. */
  lemma ChainTraversal(h: Hierarchy, a: Class, b: Class, c: Class)
    requires IsChain(h, a, b, c)
    ensures InferredRoot(h) == a
    ensures VisitClassesDepthFirst(h, None, true) == [c, b, a]
    ensures VisitClassesDepthFirst(h, None, false) == [a, b, c]
  {
    ChainRoot(h, a, b, c);
    ChainSubclasses(h, a, b, c);
    VisitTwoLevels(h, b, c, true);
    VisitTwoLevels(h, b, c, false);
    VisitAbove(h, a, b, c, true);
    VisitAbove(h, a, b, c, false);
  }

  /** With two top-level classes the inferred root is Thing. */
  lemma TwoTopLevelClasses(h: Hierarchy, a: Class, b: Class)
    requires WellFormed(h) && a in h.parents && b in h.parents && a != b
    requires h.parents[a] == [Thing] && h.parents[b] == [Thing]
    ensures InferredRoot(h) == Thing
  {
    TopLevelMeansChildOfThing(h, a);
    TopLevelMeansChildOfThing(h, b);
    InferredRootCharacterised(h);
    if |TopLevelSet(h)| == 1 {
      SingletonMembers(TopLevelSet(h), a, b);
    }
  }

  /** Reclassifying an instance of `x` under a strict subclass `y` of `x` replaces `x` by `y`. */
  lemma ReclassifyDown(h: Hierarchy, x: Class, y: Class)
    requires WellFormed(h) && Has(h, x) && Has(h, y)
    requires x != y && Below(h, y, x)
    ensures Reclassified(h, [x], y) == [y]
  {
    if Below(h, x, y) {
      BelowAntisymmetric(h, x, y);
    }
    assert [x][1..] == [];
    assert NotTooGeneric(h, [x], y) == [];
    assert TooSpecific(h, [x], y) == [];
  }

  /** Reclassifying an instance of `x` under a class `y` above `x` changes nothing. */
  lemma ReclassifyUp(h: Hierarchy, x: Class, y: Class)
    requires WellFormed(h) && Has(h, x) && Has(h, y)
    requires Below(h, x, y)
    ensures Reclassified(h, [x], y) == [x]
  {
    if x != y && Below(h, y, x) {
      BelowAntisymmetric(h, x, y);
    }
    assert [x][1..] == [];
    assert NotTooGeneric(h, [x], y) == [x];
    assert TooSpecific(h, [x], y) == [x];
  }

  /** In a chain, creating a `c` under the name of an existing `b`, which is not a `c`, keeps
      `b` and appends `c`: the instance then has two comparable classes, where reclassifying
      it would have left `c` alone. */
  lemma ChainCreateBelowExisting(h: Hierarchy, a: Class, b: Class, c: Class)
    requires IsChain(h, a, b, c)
    ensures !IsInstanceOf(h, [b], c)
    ensures !MostSpecific(h, [b] + [c])
  {
    ChainDistinct(h, a, b, c);
    assert c in h.parents && b in h.parents[c];
    ParentAbove(h, c, b);
    if Below(h, b, c) {
      BelowAntisymmetric(h, b, c);
    }
    assert c in [b] + [c] && b in [b] + [c];
  }

  /** In a chain, reclassifying a `b` as a `c` replaces `b` by `c`, and reclassifying a `c`
      as an `a` changes nothing, since `c` already lies below `a`. */
  lemma ChainReclassification(h: Hierarchy, a: Class, b: Class, c: Class)
    requires IsChain(h, a, b, c)
    ensures Reclassified(h, [b], c) == [c]
    ensures Reclassified(h, [c], a) == [c]
  {
    ChainDistinct(h, a, b, c);
    assert c in h.parents && b in h.parents[c] && a in h.parents[b];
    ParentAbove(h, c, b);
    ParentAbove(h, b, a);
    BelowTransitive(h, c, b, a);
    ReclassifyDown(h, b, c);
    ReclassifyUp(h, c, a);
  }
}
