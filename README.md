# Ontology utilities of the knowledge-harvest pipeline, in Dafny

This project models `utils.py`, the layer through which the knowledge-harvest pipeline edits its
ontology, and proves what that layer promises. It covers:

- **Iterables**: `first`, `first_or_none`, and `overlap`, the lazy lock-step test of whether two
  iterables share an element.
- **Names**: canonical names. This covers `replace_symbols_with`, `owl_name` (instance and class
  mode) and `name_to_snake_case`.
- **Taxonomy**: the class hierarchy that owlready2 supplies, made explicit. A class's direct
  parents and a rank make it acyclic. The module holds:
  - the ancestor and descendant enumerations;
  - the `subtype`/`supertype` tests, built on `overlap`;
  - the depth-first traversal of `visit_classes_depth_first`;
  - the root inference of `_find_root_class`.
- **Graph**: the `KnowledgeGraph` class.
  - Its state is the ordered list of instances and one record per instance. A record holds the
    instance's direct classes and its multi-valued properties.
  - The methods that change state in place are `add_property`, `set_class_of_instance`,
    `add_instance` and `merge_instances`.
  - The read-only operations are `get_filtered_instances`, `human_name` and `_find_root_class`.
  - Each method is proved against a function on the records: `WithValue`, `Reclassified`,
    `Tagged` and `MergedValues`.
- **Scenarios**: worked examples on any three-level chain, such as Animal > Bird > Penguin, and
  on a taxonomy with two top-level classes.

Conventions:

- Integers are unbounded. No operation here does fixed-width arithmetic.
- Strings are sequences of characters. Case mapping is the ASCII one. In `owl_name` this is
  Python's, because the transliteration step yields ASCII before any case changes. In
  `name_to_snake_case` it is Python's on ASCII input only.
- `unidecode` is a parameter of the graph. It is required to leave ASCII text alone and to
  yield ASCII.

Behaviour of the code worth noting:

- A clash in `add_instance` raises `KeyError`, with the canonical name and the existing
  classes.
- The raw name is recorded as `fancyName` whenever `add_instance` succeeds, whether the instance
  was created or reused, provided the ontology has that property and the raw name differs from
  the canonical one.
- When `add_instance` misses because an instance of that name already exists in the ontology's
  namespace but is not an instance of `cls`, `cls(name)` adds `cls` to its classes without
  removing any. (An instance of that name in another namespace is not reused: a new one is
  created in the ontology's namespace.) If `cls` lies below one of
  them, the instance is left with two comparable classes, where `set_class_of_instance` would
  have kept only `cls` (`Scenarios.ChainCreateBelowExisting`).
- `set_class_of_instance` tests for the metaclass `ThingClass` among the direct classes before
  it drops Thing. No direct class is ever the metaclass, so Thing is never dropped by that step.
  (Thing is a strict supertype of every other class, so the too-generic removal already drops
  it whenever another class is added.)
- `merge_instances` does not check that the two instances differ. Merging an instance with
  itself destroys it.

## Model

| member | source | states |
|---|---|---|
| Iterables.First | utils.py:14-15 | StopIteration exactly when the iterable is empty, otherwise its first element |
| Iterables.FirstOrNone | utils.py:18-22 | None exactly when the iterable is empty, otherwise its first element |
| Iterables.Filter | utils.py:26 | the comprehension keeps every element that passes the test and nothing else, and adds no duplicate |
| Iterables.FilterSingleton | utils.py:26 | one element is kept exactly when it passes the test |
| Iterables.FilterHead | utils.py:141 | the first element filtering keeps is the first element of the input that passes, which is what `first_or_none(filter(...))` returns |
| Iterables.FilterAppend | utils.py:26 | filtering a concatenation concatenates the filtered parts, so the kept elements keep their order and their repetitions |
| Iterables.Overlap | utils.py:33-57 | the loop ends, and answers true exactly when some element occurs in both iterables; on true it stopped in the first round whose prefixes share an element |
| Iterables.OverlapsEmpty | utils.py:33-57 | an empty iterable overlaps nothing, on either side |
| Iterables.OverlapsSymmetric | utils.py:33-57 | overlap does not depend on the order of its arguments |
| Iterables.OverlapsSingleton | utils.py:67-72 | overlap with a one-element iterable is membership, which is how `subtype`/`supertype` use it |
| Names.Lower | utils.py:79 | `lower()` keeps the length, leaves no ASCII capital, and keeps every character that is not one |
| Names.Capitalize | utils.py:81 | `capitalize()` upper-cases the first character and lower-cases every other one, in place; no lower-case ASCII letter is left first and no ASCII capital after it |
| Names.Strip | utils.py:77 | `strip()` returns a slice of the input with no white space at either end, and only white space was cut away before and after it |
| Names.Substitute | utils.py:61 | every character outside `[A-Za-z0-9_]` becomes the replacement, all others are kept |
| Names.StripTrailing | utils.py:62-63 | the trimming loop leaves a prefix that does not end with the replacement, having dropped only replacement characters |
| Names.ReplaceSymbolsWith | utils.py:60-64 | the result holds only word characters and the replacement, is no longer than the input, and does not end with the replacement |
| Names.OwlName | utils.py:75-82 | in instance mode `owl_name` yields only `[a-z0-9_]`; in class mode `[A-Za-z0-9_]`, lower case after the first character; in neither mode does it end with `_` |
| Names.CapitalizeInstanceName | utils.py:80-81 | capitalising an instance name gives a class name that lower-cases back to it |
| Names.WordsArePreserved | utils.py:76-78 | a name already made of word characters, not ending in `_`, passes transliteration, `strip` and symbol replacement unchanged |
| Names.OwlNameOfWords | utils.py:75-82 | on a string of word characters not ending in `_`, `owl_name` only changes case |
| Names.InstanceNameStable | utils.py:75-82 | `owl_name` in instance mode leaves an instance name unchanged |
| Names.ClassNameStable | utils.py:75-82 | `owl_name` in class mode leaves the capitalised form of an instance name unchanged |
| Names.OwlNameIdempotent | utils.py:75-82 | `owl_name` is idempotent in instance mode and in class mode |
| Names.SnakeCase | utils.py:190-191 | `name_to_snake_case` turns each space into `_` and lower-cases every other character, in place; the result has no space and no ASCII capital |
| Names.SnakeCaseIdempotent | utils.py:190-191 | `name_to_snake_case` is idempotent |
| Taxonomy.Ancestry | utils.py:72 | a class occurs among its own ancestors exactly when `include_self` is set; every other ancestor has a strictly lower rank, that is, lies higher in the taxonomy |
| Taxonomy.BelowTransitive | utils.py:67-72 | the ancestor relation the tests are built on is transitive |
| Taxonomy.BelowAntisymmetric | utils.py:67-72 | two classes that lie below each other are the same class |
| Taxonomy.ThingAboveAll | utils.py:101 | Thing is an ancestor of every class |
| Taxonomy.Subclasses | utils.py:173 | `subclasses()` yields exactly the classes that have the class as a direct parent |
| Taxonomy.Visit | utils.py:167-176 | the traversal yields its root first in pre-order and last in post-order, and every other class it yields has a strictly higher rank than the root |
| Taxonomy.Descendants | utils.py:68 | the class itself is among its descendants exactly when `include_self` is set |
| Taxonomy.VisitYieldsDescendants | utils.py:167-176 | in either order the traversal from a class yields exactly the classes below it |
| Taxonomy.VisitOrdersArePermutations | utils.py:167-176 | pre-order and post-order yield the same classes the same number of times |
| Taxonomy.Subtype | utils.py:67-68 | `subtype(c1, c2, strict)` holds exactly when `c1` lies below `c2`, and differs from it when strict |
| Taxonomy.Supertype | utils.py:71-72 | `supertype(c1, c2, strict)` holds exactly when `c2` lies below `c1`, and differs from it when strict |
| Taxonomy.SubtypeReflexive | utils.py:67-68 | `subtype(c, c, False)` is true and `subtype(c, c, True)` is false |
| Taxonomy.SubtypeIsConverseOfSupertype | utils.py:67-72 | `subtype(a, b, s) == supertype(b, a, s)` for every pair of classes and both modes |
| Taxonomy.TopLevelIn | utils.py:99-102 | the classes kept are exactly those whose ancestors are Thing and themselves |
| Taxonomy.TopLevelMeansChildOfThing | utils.py:101 | a class passes the `ancestors() == {Thing, cls}` test exactly when all its direct parents are Thing |
| Taxonomy.InferredRoot | utils.py:98-106 | the inferred root is Thing or a class of the taxonomy |
| Taxonomy.TopLevelSetIsTopLevelIn | utils.py:99-102 | the set the loop collects has exactly the classes of the ordered enumeration, and as many |
| Taxonomy.InferredRootCharacterised | utils.py:98-106 | with exactly one top-level class the root is that class; otherwise it is Thing |
| Taxonomy.VisitClassesDepthFirst | utils.py:167-176 | the traversal is never empty and starts (pre-order) or ends (post-order) at the given root, or at the inferred root when none is given |
| Taxonomy.VisitClassesDepthFirstProperties | utils.py:167-176 | from the given or inferred root the traversal yields exactly the classes below the root, and the two orders are permutations of each other |
| Graph.AddValue | utils.py:113-115 | the value is present afterwards; the old values stay first and in order; the list is unchanged exactly when the value was already there; no duplicate is introduced |
| Graph.UnionInto | utils.py:162-163 | adding values one at a time keeps the old list as a prefix and adds no duplicate |
| Graph.UnionIntoSpec | utils.py:162-163 | adding values one at a time yields exactly the union, and changes nothing when all were present |
| Graph.WithValue | utils.py:108-115 | the property's list gains the value unless present; classes and every other property are unchanged; adding a present value changes nothing |
| Graph.WithValueUpdates | utils.py:113-115 | `add_property` on a record is the value-list update on that one property |
| Graph.WithValueIdempotent | utils.py:108-115 | adding the same value twice is adding it once |
| Graph.WithValues | utils.py:162-163 | adding each value of a list in turn unions the list into that property and touches nothing else |
| Graph.MergedValuesSpec | utils.py:159-163 | after a merge every absorbed value of a property other than `fancyName` is on the survivor; the survivor's own values stay first; nothing else is added; `fancyName` is untouched |
| Graph.MergeWithItself | utils.py:159-163 | merging an instance's properties into themselves changes none of them |
| Graph.MergedValuesNext | utils.py:159-163 | taking one property off the pending set changes what has been merged of that property only |
| Graph.TooGeneric | utils.py:119 | `too_generic_types` holds exactly the direct classes that are strict supertypes of the new class |
| Graph.NotTooGeneric | utils.py:121-123 | what the removals leave holds exactly the direct classes that are not strict supertypes of the new class |
| Graph.TooSpecific | utils.py:120 | `too_specific_types` holds exactly the direct classes that are the new class or its subtypes |
| Graph.RemoveFirst | utils.py:123 | `list.remove` introduces no class |
| Graph.RemoveFirstSpec | utils.py:123 | `list.remove` cuts out the first occurrence of the class and nothing else: one occurrence fewer, the other classes in their order |
| Graph.RemoveEach | utils.py:122-123 | removing several classes in turn introduces no class |
| Graph.RemoveEachSpec | utils.py:122-123 | removing several classes in turn takes out one occurrence per listed class and nothing else |
| Graph.RemovingTooGeneric | utils.py:119-123 | removing the too-generic classes one `remove` at a time leaves exactly the other classes, in order |
| Graph.Reclassified | utils.py:117-125 | every class left by `set_class_of_instance` is in the taxonomy |
| Graph.ReclassifiedMembership | utils.py:117-125 | a class is kept exactly when it was there and is not a strict supertype of the new class; the new class is added exactly when nothing equal to or below it was there |
| Graph.ReclassifiedIsInstanceOf | utils.py:117-125 | afterwards the instance is an instance of the new class, and none of its direct classes is a strict supertype of it |
| Graph.ReclassifiedKeepsMostSpecific | utils.py:117-134 | direct classes with no class below another keep that shape |
| Graph.ReclassifiedIdempotent | utils.py:117-134 | reclassifying under the same class twice is reclassifying once |
| Graph.HumanName | utils.py:29-30 | the first raw name when there is one and it is not empty; the entity's name when there is none or the first is empty; never empty for a named entity |
| Graph.CollectTopLevel | utils.py:99-102 | the loop collects exactly the classes whose ancestors are Thing and themselves |
| Graph.RemoveInTurn | utils.py:121-123 | the removal loop computes the successive removals and introduces no class |
| Graph.RootFromTopLevelSet | utils.py:98-106 | the collected set decides the root: its only member when there is one, Thing otherwise |
| Graph.KnowledgeGraph.constructor | utils.py:94-96 | the graph is opened on an ontology whose schema and instances are given |
| Graph.KnowledgeGraph.InstancesOf | utils.py:26 | `cls.instances()` yields exactly the instances having a direct class below `cls` |
| Graph.KnowledgeGraph.FilteredInstances | utils.py:25-26 | exactly the instances of `cls` whose namespace has the given name |
| Graph.KnowledgeGraph.FindRootClass | utils.py:98-106 | the method returns the inferred root |
| Graph.KnowledgeGraph.AddProperty | utils.py:108-115 | the subject's record becomes its `add_property` update; every other record and the instance list are unchanged |
| Graph.KnowledgeGraph.SetClassOfInstance | utils.py:117-134 | the instance's direct classes become the reclassified ones; nothing else changes; the instance is returned |
| Graph.KnowledgeGraph.Tagged | utils.py:149-150 | the raw name is added to `fancyName` exactly when the ontology has that property and the raw name is not the canonical one; classes and every other property are unchanged |
| Graph.KnowledgeGraph.Create | utils.py:148 | `cls(name)` in the ontology namespace either creates a record whose only class is `cls`, or adds `cls` to the existing record |
| Graph.KnowledgeGraph.Lookup | utils.py:141 | a hit is the first instance of `cls`, in the order `cls.instances()` yields them, that has the canonical name; a miss means no instance of `cls` has that name |
| Graph.KnowledgeGraph.TagRawName | utils.py:149-150 | the raw name is added as `fancyName` exactly when the ontology has that property and the raw name is not the canonical one |
| Graph.KnowledgeGraph.Reuse | utils.py:142-150 | a found instance is reclassified under `cls`, then tagged with its raw name |
| Graph.KnowledgeGraph.CreateNamed | utils.py:147-150 | a missing instance is created under `cls`, then tagged with its raw name |
| Graph.KnowledgeGraph.AddInstance | utils.py:136-151 | three outcomes. A hit with reuse forbidden raises `KeyError(name, classes)` and changes nothing. A hit with reuse allowed reclassifies and tags the found instance. A miss creates and tags a new instance. Every success returns an instance of `cls` with the canonical name, carrying the raw name when required |
| Graph.KnowledgeGraph.AddValues | utils.py:162-163 | the inner loop applies `add_property` for each value in turn to the target only |
| Graph.KnowledgeGraph.AbsorbProperties | utils.py:159-163 | every property of the survivor ends up as the merge of its own values and the absorbed ones; its classes and every other record are unchanged |
| Graph.KnowledgeGraph.Destroy | utils.py:164 | the record is gone and the instance list no longer names it |
| Graph.KnowledgeGraph.MergeInstances | utils.py:153-165 | false with nothing changed unless both are instances of `cls`. On true: `instance2` is gone; every other record except `instance1` is unchanged; `instance1` keeps its classes and gains every non-`fancyName` value of `instance2` |
| Scenarios.ChainTraversal | utils.py:167-176 | in a chain a > b > c the root is a; post-order visits c, b, a; pre-order visits the reverse |
| Scenarios.ChainRoot | utils.py:98-106 | the top of a chain is the inferred root |
| Scenarios.TwoTopLevelClasses | utils.py:98-106 | with two top-level classes the inferred root is Thing |
| Scenarios.ChainCreateBelowExisting | utils.py:141-148 | in a chain a > b > c, an existing b is not an instance of c, so `add_instance(c, …)` under its name misses, and appending c leaves b and c, two comparable classes |
| Scenarios.ReclassifyDown | utils.py:117-125 | reclassifying a class under a strict subclass replaces it by the subclass |
| Scenarios.ReclassifyUp | utils.py:117-125 | reclassifying a class under one of its ancestors changes nothing |
| Scenarios.ChainReclassification | utils.py:117-125 | in a chain such as Animal > Bird > Penguin, a bird reclassified as a penguin becomes only a penguin; a penguin reclassified as an animal stays a penguin |

## Left out

- Opening, loading and saving the ontology file (`__init__`, `path`, `onto`, `save`, `__enter__`, `__exit__`) is I/O. The constructor takes the schema and the instances as parameters instead.
- `unidecode` is a parameter. The model requires only that it leaves ASCII text alone and yields ASCII.
- `\d`, `str.lower` and `str.capitalize` are modelled on ASCII only. In `owl_name` no other character reaches them, since transliteration comes first.
- Names.SnakeCase: exact on ASCII input only. `name_to_snake_case` does not transliterate, and Python's `str.lower` also lower-cases other letters (`"É x"` gives `"é_x"`), which the model leaves unchanged.
- Names.SnakeCaseIdempotent: proved for the ASCII case mapping of `Names.SnakeCase`, not for Python's full Unicode one.
- Graph.RemoveFirst: Python's `list.remove` raises `ValueError` when the class is absent, while the model returns the list unchanged. The only caller removes classes taken from the list itself, so that case does not arise.
- Literal property values are strings only. Numbers, booleans and dates are not modelled, so neither is Python's cross-type equality (`1 == 1.0 == True`), which would change the outcome of the `value not in property_values` test.
- The iteration orders of owlready2 are not modelled. The model picks two: `subclasses()` yields classes in the order the taxonomy declares them (`Taxonomy.Subclasses`), and `cls.instances()` follows the ontology's instance list (`Graph.KnowledgeGraph.InstancesOf`). The order of a depth-first traversal and which instance `add_instance` finds first depend on these choices.
- Names.Substitute: the replacement is a single character other than a backslash. `re.sub` reads the replacement as a template and raises `re.error` on a lone backslash, so the model requires a different character; the only caller, `owl_name`, passes `_`.
- Names.ReplaceSymbolsWith: the replacement is a single character other than a backslash, as for `Names.Substitute`. A longer replacement, which the source accepts and whose trailing copies its loop trims one character at a time, is not modelled.
- Graph.KnowledgeGraph.Create: `cls("")` is assumed to create, or reuse, an instance whose name is the empty string. `owl_name` returns the empty string for a name such as `"!!"`; what owlready2 does with an empty name, possibly generating a fresh numbered one, is not part of this model.
- Graph.KnowledgeGraph.CreateNamed: rests on the same assumption as `Graph.KnowledgeGraph.Create` for an empty canonical name.
- Graph.KnowledgeGraph.AddInstance: for a name whose canonical form is empty, the promise that the result carries the canonical name, and that a second call finds the first instance, rests on the assumption about `cls("")` stated for `Graph.KnowledgeGraph.Create`.
- Functional properties are not modelled. For those, owlready2 reads a single value or None instead of a list; here every property is a list of values.
- Iterables are finite sequences. `overlap` on unbounded iterators, where it may run forever, is not modelled.
- Iterables.Overlap: states the early stop as "the first round whose prefixes overlap", not the exact number of elements pulled from each iterator.
- `destroy_entity` only removes the record. Any cascade that owlready2 applies to references from other instances' properties is not modelled.
- `add_property` and `human_name` on classes (rather than instances) are not modelled. Nor is an `ObjectPropertyClass` given as the property: it is reduced to its name, as the source does first.
- AttributeError paths are not modelled. A property that was never set reads as an empty list.
- Graph.KnowledgeGraph.Create: `cls(name)` on an identity that already exists outside `cls` is assumed to add `cls` to its classes. That behaviour lives in owlready2, which is not part of this model.
- New instances are placed in the ontology's namespace. `get_filtered_instances` compares namespace names only.
- Several Python references to one instance object are not modelled. Instances are named by their identity, and the graph owns their records.
- Graph.KnowledgeGraph.AbsorbProperties: properties are merged in an arbitrary order. This is why the result is stated per property, which does not depend on that order.
- `trainclassifier.py`, `evaluate_hyperparam.py`, `models/gpt3.py` and `main.py` are not part of this model.
