# otj-filterorder in Dafny

This project models the part of otj-filterorder that decides the order of servlet
filters. Applications register filter registration beans (one filter each) and
order declarations. A declaration says either that a filter class runs **last**, or
that a filter class **depends on** another, meaning it runs after it. Once the beans
exist, `FilterOrderResolver.resolve()` works in these steps:

1. It returns at once if there are no declarations.
2. It records each bean's original index.
3. It splits the declarations into a `last` set and a `dependencies` multimap.
4. It fails unless exactly one class is last.
5. It runs `CycleFinder` on the dependencies and fails if the finder reports a cycle.
6. It sorts a copy of the beans with a five-rule comparator.
7. It gives the bean at position `i` the order `i`.

The model has four modules:

- `OrderDeclarations` (`order_declaration.dfy`): a declaration is a datatype with two
  constructors, `Last(filter)` and `DependsOn(filter, dependsOn)`. The Java fields are
  exposed as views: `isLast` is `IsLast()`, and the nullable `dependsOn` is
  `Dependency()`. The factories `last(f)`, `of(f)` and `Builder.dependsOn(g)` are
  modelled as functions.
- `CycleFinding` (`cycle_finder.dfy`): the finder is a class. Its only mutable field is
  `seen`. It also holds the edge map and `keys`, the iteration order of that map's key
  set. The methods `Run`, `Dfs` and `FindCycle` are the source's `run`, `dfs` and
  `findCycle`. Each method is proved equal to a recursive specification function:
  `FirstCycle`, `SearchFrom` and `FindCycleFrom`/`FindCycleAmong`. Lemmas about those
  functions give the promises of the search:
  - soundness: a reported list, read backwards, is a walk whose first node occurs again;
  - completeness: an empty result means no walk returns to the current path;
  - a cycle is reported exactly when the graph has a cycle.
  `FindCycle` requires that `seen` holds exactly the nodes of the current recursion
  path. Its termination measure is the number of graph nodes not yet in `seen`.
- `CycleFinderExamples` (`cycle_finder_examples.dfy`): the unit-test graphs of
  `CycleFinderTest`, with the exact list the search returns for each.
- `FilterOrderResolving` (`filter_order_resolver.dfy`): the partition of the
  declarations, the maps of positions, the comparator and the sort. The class
  `FilterOrderResolver` holds the beans, the declarations and `orders`, the order each
  bean is given by `setOrder`. `Resolve` returns a `Resolution` value. It names which
  of the four outcomes happened: no declarations, "multiple last filters", "filter
  cycle detected" or resolved.

Java hash collections are given a fixed, explicit iteration order in the model:

- The key set of `dependencies` is iterated in first-insertion order (`dependencyKeys`).
- Each dependency set is a list without repeats, in insertion order.

No result proved here depends on this choice except the exact cycle list, which depends
on it in Java as well.

Three points where the code's behaviour is easy to misread:

- At `FilterOrderResolver.java:83` the lambda reads `od.last`, but `OrderDeclaration`
  declares no such field. The field is `isLast` (`OrderDeclaration.java:31`), so the
  line does not compile as written. The model reads the `isLast` field, which is
  evidently intended.
- The class Javadoc (`FilterOrderResolver.java:39` and `:44-45`) says "if there is a
  last filter" and names "more than one last filter" as the error. The check at
  `FilterOrderResolver.java:91` also fails when no class is last. `Resolve` follows
  the check: it returns `LastNotUnique` whenever the number of last classes is not
  exactly one, zero included.
- A cycle list built by `findCycle` runs from the repeated node back to the key the
  search started from. So it can carry a lead-in, and its first and last nodes can
  differ (`CycleFinderExamples.LeadIn`). `IsCycleReport` states the shape exactly.

The specification functions hold the meaning of the code. The rows below name the
lemmas and methods whose contracts state facts about them. Each function models these
source lines:

- `CycleFinding.FindCycleFrom` and `CycleFinding.FindCycleAmong` model `findCycle`
  (`CycleFinder.java:60-81`).
- `CycleFinding.SearchFrom` models `dfs` (`CycleFinder.java:50-57`).
- `CycleFinding.FirstCycle` models `run` (`CycleFinder.java:39-47`).
- `FilterOrderResolving.Declare` and `FilterOrderResolving.Partition` model the
  `forEach` over the declarations (`FilterOrderResolver.java:82-90`).
- `FilterOrderResolving.Positions` models both the `originalIndexes` map
  (`FilterOrderResolver.java:75-79`) and the `setOrder` loop
  (`FilterOrderResolver.java:128-130`).

## Model

| member | source | states |
|---|---|---|
| OrderDeclarations.OrderDeclaration.Dependency | src/main/java/com/opentable/components/filterorder/OrderDeclaration.java:31-42 | the `dependsOn` field is absent exactly when `isLast` is set |
| OrderDeclarations.Of | src/main/java/com/opentable/components/filterorder/OrderDeclaration.java:44-46 | the builder remembers the filter it was given |
| OrderDeclarations.MakeLast | src/main/java/com/opentable/components/filterorder/OrderDeclaration.java:48-50 | `last(f)` sets `isLast`, keeps `f` as the filter and has no dependency |
| OrderDeclarations.Builder.DependsOn | src/main/java/com/opentable/components/filterorder/OrderDeclaration.java:59-62 | `of(f).dependsOn(g)` is not last, has filter `f` and depends on `g` |
| OrderDeclarations.FactoriesRebuildFields | src/main/java/com/opentable/components/filterorder/OrderDeclaration.java:35-62 | each declaration is exactly one kind, and the matching factory rebuilds it from its fields |
| OrderDeclarations.BuilderKeepsOrientation | src/main/java/com/opentable/components/filterorder/OrderDeclaration.java:59-62 | `of(f).dependsOn(g)` makes `f` the dependent and `g` its dependency, never the reverse |
| CycleFinding.CycleFinder.constructor | src/main/java/com/opentable/components/filterorder/CycleFinder.java:31-36 | the finder holds the given edges and key order, and `seen` starts empty |
| CycleFinding.CycleFinder.Run | src/main/java/com/opentable/components/filterorder/CycleFinder.java:39-47 | returns the first cycle found over the keys in key order; a result is present exactly when the graph has a cycle, and a present result is a cycle report; with no result, `seen` ends holding only the last key |
| CycleFinding.CycleFinder.Dfs | src/main/java/com/opentable/components/filterorder/CycleFinder.java:50-57 | clears `seen`, searches from the start node, and maps an empty list to no result, leaving `seen` as just the start node |
| CycleFinding.CycleFinder.FindCycle | src/main/java/com/opentable/components/filterorder/CycleFinder.java:60-81 | while `seen` holds exactly the current path, the method computes the search function; an empty result leaves the node added to `seen`, and the loop then removes it again; `seen` never loses a node it held on entry |
| CycleFinding.SearchPathStep | src/main/java/com/opentable/components/filterorder/CycleFinder.java:61-77 | stepping down to a successor keeps `seen` equal to the nodes of a walk that ends at the current node |
| CycleFinding.FindCycleFromSound | src/main/java/com/opentable/components/filterorder/CycleFinder.java:61-73 | a nonempty result ends at the node searched from and, read backwards, is a walk; its head is already on the path or repeats in the list |
| CycleFinding.FindCycleAmongSound | src/main/java/com/opentable/components/filterorder/CycleFinder.java:69-74 | a cycle found below a successor, with the node appended, is a reversed walk of at least two nodes that ends at the node |
| CycleFinding.FindCycleFromComplete | src/main/java/com/opentable/components/filterorder/CycleFinder.java:61-80 | an empty result means the node was not on the path and no walk from it reaches the path or the node itself |
| CycleFinding.FindCycleAmongComplete | src/main/java/com/opentable/components/filterorder/CycleFinder.java:69-80 | when the successor loop ends with nothing, no walk from any remaining successor leads back onto the path |
| CycleFinding.CycleReportHasCycle | src/main/java/com/opentable/components/filterorder/CycleFinder.java:61-73 | every reported list contains a closed walk of the graph |
| CycleFinding.SearchFromSpec | src/main/java/com/opentable/components/filterorder/CycleFinder.java:50-57 | a search reports a cycle that ends at its start node, or else no walk from the start returns to the start |
| CycleFinding.FirstCycleReports | src/main/java/com/opentable/components/filterorder/CycleFinder.java:39-47 | whatever the run reports is a cycle report that ends at one of the keys |
| CycleFinding.FirstCycleNoneSearchesAll | src/main/java/com/opentable/components/filterorder/CycleFinder.java:39-47 | a run with no result means the search from every key found nothing |
| CycleFinding.FirstCycleCorrect | src/main/java/com/opentable/components/filterorder/CycleFinder.java:39-47 | if the keys list each map key once, the run reports a cycle exactly when the graph has one, and what it reports ends at a key |
| CycleFinderExamples.EmptyGraph | src/test/java/com/opentable/components/filterorder/CycleFinderTest.java:28-31 | the empty map has no cycle |
| CycleFinderExamples.SingleEdge | src/test/java/com/opentable/components/filterorder/CycleFinderTest.java:34-39 | `a -> b` has no cycle |
| CycleFinderExamples.SelfLoop | src/test/java/com/opentable/components/filterorder/CycleFinderTest.java:42-50 | `a -> a` is reported as `[a, a]` |
| CycleFinderExamples.TwoCycle | src/test/java/com/opentable/components/filterorder/CycleFinderTest.java:53-65 | `a -> b -> a` is reported as `[a, b, a]` |
| CycleFinderExamples.ThreeCycle | src/test/java/com/opentable/components/filterorder/CycleFinderTest.java:68-81 | `a -> b -> c -> a` is reported as `[a, c, b, a]` |
| CycleFinderExamples.YShape | src/test/java/com/opentable/components/filterorder/CycleFinderTest.java:84-92 | two keys sharing a successor form no cycle |
| CycleFinderExamples.Diamond | src/test/java/com/opentable/components/filterorder/CycleFinderTest.java:95-104 | `d -> a`, `a -> b, c`, `c -> b` has no cycle, although `b` is reached twice in one search |
| CycleFinderExamples.ClearingMatters | src/main/java/com/opentable/components/filterorder/CycleFinder.java:51 | `a` with no successors and `c -> a`, searched from `a` then `c`, has no cycle. Without clearing `seen`, the search from `c` would report `[a, c]` |
| CycleFinderExamples.LeadIn | src/main/java/com/opentable/components/filterorder/CycleFinder.java:60-81 | `d -> a -> b -> a` is reported as `[a, b, a, d]`: the cycle plus the lead-in from the start key |
| FilterOrderResolving.IndexBeans | src/main/java/com/opentable/components/filterorder/FilterOrderResolver.java:75-79 | the `originalIndexes` loop builds the map of positions, where a later duplicate overwrites an earlier one |
| FilterOrderResolving.PositionsSpec | src/main/java/com/opentable/components/filterorder/FilterOrderResolver.java:75-79 | the map of positions holds exactly the beans, each mapped to its last occurrence |
| FilterOrderResolving.PositionsCover | src/main/java/com/opentable/components/filterorder/FilterOrderResolver.java:75-79 | every bean has an original index, so the comparator's lookups succeed |
| FilterOrderResolving.PositionsInjective | src/main/java/com/opentable/components/filterorder/FilterOrderResolver.java:75-79 | two different beans never share an original index |
| FilterOrderResolving.PositionsOfDistinct | src/main/java/com/opentable/components/filterorder/FilterOrderResolver.java:128-130 | without duplicate beans, the bean at position `i` is mapped to `i` |
| FilterOrderResolving.CollectConstraints | src/main/java/com/opentable/components/filterorder/FilterOrderResolver.java:80-90 | the `forEach` loop over the declarations builds exactly the partition of the declarations |
| FilterOrderResolving.PartitionLast | src/main/java/com/opentable/components/filterorder/FilterOrderResolver.java:83-86 | a class is in `last` exactly when a last-declaration names it |
| FilterOrderResolving.PartitionDependencies | src/main/java/com/opentable/components/filterorder/FilterOrderResolver.java:87-89 | a class is a key of `dependencies` exactly when it declares a dependency, and its entry holds exactly the classes it was declared to depend on |
| FilterOrderResolving.PartitionShape | src/main/java/com/opentable/components/filterorder/FilterOrderResolver.java:81-89 | each dependency list has no repeats, as a hash set, and the key order lists every key once |
| FilterOrderResolving.IntegerCompare | src/main/java/com/opentable/components/filterorder/FilterOrderResolver.java:126 | `Integer.compare` gives -1, 0 or 1, with the sign of `x - y` |
| FilterOrderResolving.Compare | src/main/java/com/opentable/components/filterorder/FilterOrderResolver.java:99-127 | the comparator returns -1, 0 or 1, and 0 only for beans with equal original indexes |
| FilterOrderResolving.CompareFollowsDeclarations | src/main/java/com/opentable/components/filterorder/FilterOrderResolver.java:102-126 | the comparator, rule by rule, in terms of the declarations: last comes last, then a direct dependency in either direction, then classes with no declared dependency first, then original order |
| FilterOrderResolving.CompareAntisymmetric | src/main/java/com/opentable/components/filterorder/FilterOrderResolver.java:94-127 | after the cycle check passes, swapping two beans negates the comparison, unless both are of a last class |
| FilterOrderResolving.PermutationKeepsDistinct | src/main/java/com/opentable/components/filterorder/FilterOrderResolver.java:98-99 | sorting a list with no duplicate beans yields a list with no duplicate beans |
| FilterOrderResolving.SortBeans | src/main/java/com/opentable/components/filterorder/FilterOrderResolver.java:98-127 | the sort only permutes the copied beans |
| FilterOrderResolving.FilterOrderResolver.constructor | src/main/java/com/opentable/components/filterorder/FilterOrderResolver.java:61-66 | the resolver keeps the beans and the declarations; no order has been assigned yet |
| FilterOrderResolving.FilterOrderResolver.AssignOrders | src/main/java/com/opentable/components/filterorder/FilterOrderResolver.java:128-130 | each sorted bean gets its position as its order; nothing else changes |
| FilterOrderResolving.FilterOrderResolver.Resolve | src/main/java/com/opentable/components/filterorder/FilterOrderResolver.java:69-133 | with no declarations it does nothing. Unless exactly one class is last, it fails with the `last` set. On a cycle it fails with the first cycle the finder reports. Otherwise it returns a permutation of the beans and gives each its position as order (the exact position when no bean is registered twice). No failure assigns any order |

## Left out

- Spring wiring is outside the model: `@Inject`, `@PostConstruct`, `ComponentConfiguration` and `FilterOrderResolverConfiguration`. `Resolve` is called directly on a constructed resolver.
- `Optional<Collection<OrderDeclaration>>` is outside the model. The constructor takes the declarations, and an absent collection is passed as the empty one.
- Logging is outside the model: the debug and info messages, and the text of the exception messages. The two `IllegalStateException`s are the `LastNotUnique` and `CycleDetected` outcomes of `Resolve`.
- Spring's `FilterRegistrationBean` and `javax.servlet.Filter` are not part of this model. A bean is a value with an identity and a filter class (`FilterBean`), and `setOrder` writes the resolver's `orders` map instead of a field of the bean. The orders beans had before `resolve` are not modelled.
- Java hash iteration order is not modelled. The key set of `dependencies` and each dependency set are iterated in insertion order. Another order would change which cycle is reported, but not whether one is reported.
- `FilterOrderResolving.SortBeans`: the Java `List.sort` (TimSort) is modelled as a stable insertion sort by adjacent swaps, and only the permutation is promised. The comparator is not a total order: it is not transitive, and two beans of the last class compare greater than each other. Java's sort promises no ordering for such a comparator.
- The model does not capture the `IllegalArgumentException` that TimSort may raise for a comparator that breaks its contract.
- `FilterOrderResolving.FilterOrderResolver.Resolve`: it makes no claim that the final order satisfies every declared dependency, that the last filter ends up last, or that resolving twice gives the same order. The source does not ensure these for the reasons just given for `SortBeans`.
- Declarations built through the package-private constructor of `OrderDeclaration` are not modelled. That constructor can combine `isLast` with a non-null `dependsOn`, or a false `isLast` with a null `dependsOn`. Only the two public factories' combinations are represented.
- Concurrency is outside the model: the resolver runs once, on one thread.
