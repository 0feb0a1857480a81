/**
 * The resolution of filter order from order declarations: the declarations
 * are split into a `last` set and a `dependencies` multimap, the resolver
 * fails unless exactly one filter class is last and the dependencies have no
 * cycle, and otherwise sorts a copy of the beans with a five-step comparator
 * and gives the bean at sorted position `i` the order `i`.
 */
module FilterOrderResolving {
  import opened Wrappers
  import opened OrderDeclarations
  import opened CycleFinding

  /** A filter registration bean: an opaque identity and the class of its filter. */
  datatype FilterBean<F> = FilterBean(id: nat, filterClass: F)

  /**
   * What the declarations build: the `last` set, the `dependencies` multimap
   * from a filter class to the classes it comes after (each list without
   * repeats, as a hash set), and the order in which that map's keys were
   * first inserted, which stands for its key-set iteration order.
   */
  datatype Constraints<F> = Constraints(last: set<F>, dependencies: Graph<F>, dependencyKeys: seq<F>)

  ghost predicate NoDuplicates<T>(s: seq<T>)
  {
    forall i, j | 0 <= i < j < |s| :: s[i] != s[j]
  }

  /** Some declaration says that `f` depends on a filter class. */
  ghost predicate DeclaresDependencies<F(!new)>(decls: seq<OrderDeclaration<F>>, f: F)
  {
    exists g :: DependsOn(f, g) in decls
  }

  // ---------------------------------------------------------------------
  // Partition of the declarations.
  // ---------------------------------------------------------------------

  /**
   * One step of the `forEach`: a last-declaration adds its filter to `last`;
   * any other adds the edge `filter -> dependsOn`, creating the entry for
   * `filter` first if it is missing.
   */
  function Declare<F>(c: Constraints<F>, od: OrderDeclaration<F>): Constraints<F>
  {
    if od.IsLast() then c.(last := c.last + {od.filter})
    else
      var f, g := od.filter, od.dependsOn;
      var deps := if f in c.dependencies then c.dependencies[f] else [];
      var keys := if f in c.dependencies then c.dependencyKeys else c.dependencyKeys + [f];
      c.(dependencies := c.dependencies[f := if g in deps then deps else deps + [g]], dependencyKeys := keys)
  }

  /** The `last` set and `dependencies` map after the `forEach` over all declarations. */
  function Partition<F>(decls: seq<OrderDeclaration<F>>): Constraints<F>
  {
    if decls == [] then Constraints({}, map[], [])
    else Declare(Partition(decls[..|decls| - 1]), decls[|decls| - 1])
  }

  /** A filter class is in `last` exactly when a last-declaration names it. */
  lemma {:induction false} PartitionLast<F(!new)>(decls: seq<OrderDeclaration<F>>)
    ensures forall f :: f in Partition(decls).last <==> Last(f) in decls
  {
    if decls != [] {
      var init := decls[..|decls| - 1];
      assert decls == init + [decls[|decls| - 1]];
      PartitionLast(init);
    }
  }

  /**
   * A filter class has an entry in `dependencies` exactly when some
   * declaration says it depends on a class, and the entry holds exactly the
   * classes such declarations name: each depends-on declaration becomes the
   * edge `filter -> dependsOn` and nothing else becomes an edge.
   */
  lemma {:induction false} PartitionDependencies<F(!new)>(decls: seq<OrderDeclaration<F>>)
    ensures var c := Partition(decls);
      && (forall f :: f in c.dependencies <==> DeclaresDependencies(decls, f))
      && (forall f, g | f in c.dependencies :: g in c.dependencies[f] <==> DependsOn(f, g) in decls)
  {
    if decls != [] {
      var init, od := decls[..|decls| - 1], decls[|decls| - 1];
      assert decls == init + [od];
      PartitionDependencies(init);
      var c0 := Partition(init);
      var c := Partition(decls);
      forall f ensures f in c.dependencies <==> DeclaresDependencies(decls, f) {
        if f in c0.dependencies {
          assert DeclaresDependencies(init, f);
          var g :| DependsOn(f, g) in init;
          assert DependsOn(f, g) in decls;
        } else if f in c.dependencies {
          assert DependsOn(f, od.dependsOn) == od;
        }
        if DeclaresDependencies(decls, f) {
          var g :| DependsOn(f, g) in decls;
          if DependsOn(f, g) in init {
            assert DeclaresDependencies(init, f);
          }
        }
      }
    }
  }

  /**
   * The successor lists have no repeats, as hash sets, and the key order
   * lists each key of `dependencies` once, as a key set.
   */
  lemma {:induction false} PartitionShape<F(!new)>(decls: seq<OrderDeclaration<F>>)
    ensures var c := Partition(decls);
      && (forall f | f in c.dependencies :: NoDuplicates(c.dependencies[f]))
      && IsKeyOrder(c.dependencyKeys, c.dependencies)
  {
    if decls != [] {
      PartitionShape(decls[..|decls| - 1]);
    }
  }

  // ---------------------------------------------------------------------
  // Positions: `originalIndexes`, and the orders given by `setOrder`.
  // ---------------------------------------------------------------------

  /** Each element's position, written front to back, so a later occurrence overwrites an earlier one. */
  function Positions<T>(s: seq<T>): map<T, int>
  {
    if s == [] then map[] else Positions(s[..|s| - 1])[s[|s| - 1] := |s| - 1]
  }

  /** The positions map holds exactly the elements, each at its last occurrence. */
  lemma {:induction false} PositionsSpec<T>(s: seq<T>)
    ensures var p := Positions(s);
      && (forall x :: x in p <==> x in s)
      && (forall x | x in p :: 0 <= p[x] < |s| && s[p[x]] == x && forall j | p[x] < j < |s| :: s[j] != x)
  {
    if s != [] {
      var init := s[..|s| - 1];
      PositionsSpec(init);
      assert forall x :: x in s <==> x in init || x == s[|s| - 1];
    }
  }

  /** Every element has a position. */
  lemma PositionsCover<T>(s: seq<T>)
    ensures forall k | 0 <= k < |s| :: s[k] in Positions(s)
  {
    PositionsSpec(s);
  }

  /** Without repeats, the element at position `i` is mapped to `i`. */
  lemma PositionsOfDistinct<T>(s: seq<T>)
    requires NoDuplicates(s)
    ensures forall i | 0 <= i < |s| :: s[i] in Positions(s) && Positions(s)[s[i]] == i
  {
    PositionsSpec(s);
  }

  /** Two elements with the same position are the same element. */
  lemma PositionsInjective<T>(s: seq<T>, x: T, y: T)
    requires x in Positions(s) && y in Positions(s) && x != y
    ensures Positions(s)[x] != Positions(s)[y]
  {
    PositionsSpec(s);
  }

  // ---------------------------------------------------------------------
  // The comparator.
  // ---------------------------------------------------------------------

  /** `Integer.compare`. */
  function IntegerCompare(x: int, y: int): (r: int)
    ensures r < 0 <==> x < y
    ensures r == 0 <==> x == y
    ensures r > 0 <==> x > y
    ensures -1 <= r <= 1
  {
    if x < y then -1 else if x == y then 0 else 1
  }

  /**
   * The comparator of the sort: last comes last; then a direct dependency in
   * either direction; then beans whose class declared no dependencies come
   * first; then the original index decides.
   */
  function Compare<F>(c: Constraints<F>, originalIndexes: map<FilterBean<F>, int>, b1: FilterBean<F>, b2: FilterBean<F>): (r: int)
    requires b1 in originalIndexes && b2 in originalIndexes
    ensures -1 <= r <= 1
    ensures r == 0 ==> originalIndexes[b1] == originalIndexes[b2]
  {
    var f1, f2 := b1.filterClass, b2.filterClass;
    if f1 in c.last then 1
    else if f2 in c.last then -1
    else if f1 in c.dependencies && f2 in c.dependencies[f1] then 1
    else if f2 in c.dependencies && f1 in c.dependencies[f2] then -1
    else if (f1 in c.dependencies) != (f2 in c.dependencies) then
      if f1 !in c.dependencies then -1 else 1
    else IntegerCompare(originalIndexes[b1], originalIndexes[b2])
  }

  /**
   * The comparator on the constraints built from `decls`, stated in terms of
   * the declarations themselves, rule by rule: a bean of a last class is
   * greater (so two beans of the last class are each greater than the
   * other); a direct declared dependency decides next, in either direction;
   * then a bean whose class declared no dependency is smaller than one whose
   * class did; otherwise the original indexes decide.
   */
  lemma CompareFollowsDeclarations<F(!new)>(decls: seq<OrderDeclaration<F>>, originalIndexes: map<FilterBean<F>, int>, b1: FilterBean<F>, b2: FilterBean<F>)
    requires b1 in originalIndexes && b2 in originalIndexes
    ensures var r := Compare(Partition(decls), originalIndexes, b1, b2);
      var f1, f2 := b1.filterClass, b2.filterClass;
      && (Last(f1) in decls ==> r == 1)
      && (Last(f1) !in decls && Last(f2) in decls ==> r == -1)
      && (Last(f1) !in decls && Last(f2) !in decls ==>
            && (DependsOn(f1, f2) in decls ==> r == 1)
            && (DependsOn(f1, f2) !in decls && DependsOn(f2, f1) in decls ==> r == -1)
            && (DependsOn(f1, f2) !in decls && DependsOn(f2, f1) !in decls ==>
                  r == if DeclaresDependencies(decls, f1) == DeclaresDependencies(decls, f2)
                       then IntegerCompare(originalIndexes[b1], originalIndexes[b2])
                       else if DeclaresDependencies(decls, f1) then 1 else -1))
  {
    PartitionLast(decls);
    PartitionDependencies(decls);
  }

  /**
   * Once the dependencies have no cycle, the comparator is antisymmetric on
   * every pair of beans not both of a last class: a class cannot depend on
   * itself, and two classes cannot depend on each other.
   */
  lemma CompareAntisymmetric<F(!new)>(c: Constraints<F>, originalIndexes: map<FilterBean<F>, int>, b1: FilterBean<F>, b2: FilterBean<F>)
    requires b1 in originalIndexes && b2 in originalIndexes
    requires b1 != b2 ==> originalIndexes[b1] != originalIndexes[b2]
    requires !HasCycle(c.dependencies)
    requires b1.filterClass !in c.last || b2.filterClass !in c.last
    ensures Compare(c, originalIndexes, b1, b2) == -Compare(c, originalIndexes, b2, b1)
  {
    var f1, f2 := b1.filterClass, b2.filterClass;
    var g := c.dependencies;
    if f1 in g && f2 in g[f1] && f2 in g && f1 in g[f2] {
      MutualEdgesFormCycle(g, f1, f2);
      assert false;
    }
  }

  // ---------------------------------------------------------------------
  // Multisets and repeats.
  // ---------------------------------------------------------------------

  lemma {:induction false} DistinctCountsOne<T>(s: seq<T>)
    requires NoDuplicates(s)
    ensures forall x :: multiset(s)[x] <= 1
  {
    if s != [] {
      var init := s[..|s| - 1];
      assert s == init + [s[|s| - 1]];
      DistinctCountsOne(init);
      assert s[|s| - 1] !in init;
    }
  }

  lemma RepeatCountsTwo<T>(s: seq<T>, i: nat, j: nat)
    requires i < j < |s| && s[i] == s[j]
    ensures multiset(s)[s[i]] >= 2
  {
    assert s == s[..j] + [s[j]] + s[j + 1..];
    assert s[i] in multiset(s[..j]);
  }

  /** A permutation of a sequence without repeats has no repeats. */
  lemma PermutationKeepsDistinct<T>(s: seq<T>, t: seq<T>)
    requires multiset(s) == multiset(t) && NoDuplicates(s)
    ensures NoDuplicates(t)
  {
    DistinctCountsOne(s);
    forall i, j | 0 <= i < j < |t| ensures t[i] != t[j] {
      if t[i] == t[j] {
        RepeatCountsTwo(t, i, j);
      }
    }
  }

  // ---------------------------------------------------------------------
  // The sort.
  // ---------------------------------------------------------------------

  /**
   * `sorted.sort(comparator)`, as a stable insertion sort by adjacent swaps:
   * each bean moves left past the beans the comparator puts after it. The
   * comparator is not a total order, so only the permutation is promised.
   */
  method SortBeans<F>(a: array<FilterBean<F>>, c: Constraints<F>, originalIndexes: map<FilterBean<F>, int>)
    requires forall k | 0 <= k < a.Length :: a[k] in originalIndexes
    modifies a
    ensures multiset(a[..]) == multiset(old(a[..]))
  {
    var i := 1;
    while i < a.Length
      invariant multiset(a[..]) == multiset(old(a[..]))
      invariant forall k | 0 <= k < a.Length :: a[k] in originalIndexes
    {
      var j := i;
      while 0 < j && Compare(c, originalIndexes, a[j - 1], a[j]) > 0
        invariant 0 <= j <= i < a.Length
        invariant multiset(a[..]) == multiset(old(a[..]))
        invariant forall k | 0 <= k < a.Length :: a[k] in originalIndexes
      {
        a[j - 1], a[j] := a[j], a[j - 1];
        j := j - 1;
      }
      i := i + 1;
    }
  }

  // ---------------------------------------------------------------------
  // The two maps `resolve` builds before it validates.
  // ---------------------------------------------------------------------

  /** The `originalIndexes` loop: each bean is put with its index. */
  method IndexBeans<F(==)>(beans: seq<FilterBean<F>>) returns (originalIndexes: map<FilterBean<F>, int>)
    ensures originalIndexes == Positions(beans)
  {
    originalIndexes := map[];
    for i := 0 to |beans|
      invariant originalIndexes == Positions(beans[..i])
    {
      assert beans[..i + 1][..i] == beans[..i];
      originalIndexes := originalIndexes[beans[i] := i];
    }
    assert beans[..|beans|] == beans;
  }

  /**
   * The `forEach` over the declarations, filling `last` and `dependencies`
   * (`computeIfAbsent(filter, new HashSet).add(dependsOn)`).
   */
  method CollectConstraints<F(==)>(decls: seq<OrderDeclaration<F>>) returns (c: Constraints<F>)
    ensures c == Partition(decls)
  {
    var last: set<F> := {};
    var dependencies: Graph<F> := map[];
    var dependencyKeys: seq<F> := [];
    for i := 0 to |decls|
      invariant Constraints(last, dependencies, dependencyKeys) == Partition(decls[..i])
    {
      assert decls[..i + 1][..i] == decls[..i];
      var od := decls[i];
      if od.IsLast() {
        last := last + {od.filter};
      } else {
        if od.filter !in dependencies {
          dependencies := dependencies[od.filter := []];
          dependencyKeys := dependencyKeys + [od.filter];
        }
        if od.dependsOn !in dependencies[od.filter] {
          dependencies := dependencies[od.filter := dependencies[od.filter] + [od.dependsOn]];
        }
      }
    }
    assert decls[..|decls|] == decls;
    c := Constraints(last, dependencies, dependencyKeys);
  }

  // ---------------------------------------------------------------------
  // The resolver.
  // ---------------------------------------------------------------------

  /** How `resolve` ends. */
  datatype Resolution<F> =
    | NoDeclarations                      // nothing declared: returns early, orders untouched
    | LastNotUnique(last: set<F>)         // "multiple last filters": zero or several last classes
    | CycleDetected(cycle: seq<F>)        // "filter cycle detected", with the reported cycle
    | Resolved(sorted: seq<FilterBean<F>>)

  class FilterOrderResolver<F(==,!new)> {
    const filterRegistrationBeans: seq<FilterBean<F>>
    const orderDeclarations: seq<OrderDeclaration<F>>
    /** The order given to each bean by `setOrder`. */
    var orders: map<FilterBean<F>, int>

    constructor (beans: seq<FilterBean<F>>, declarations: seq<OrderDeclaration<F>>)
      ensures filterRegistrationBeans == beans && orderDeclarations == declarations && orders == map[]
    {
      filterRegistrationBeans := beans;
      orderDeclarations := declarations;
      orders := map[];
    }

    /** The loop of `setOrder` calls: the bean at position `i` gets order `i`. */
    method AssignOrders(sorted: seq<FilterBean<F>>)
      modifies this
      ensures orders == old(orders) + Positions(sorted)
    {
      for i := 0 to |sorted|
        invariant orders == old(orders) + Positions(sorted[..i])
      {
        assert sorted[..i + 1][..i] == sorted[..i];
        orders := orders[sorted[i] := i];
      }
      assert sorted[..|sorted|] == sorted;
    }

    /**
     * `resolve()`. Without declarations it does nothing. Otherwise it fails
     * unless exactly one class is last, then fails if the dependencies have a
     * cycle, and otherwise gives the bean at each position of a sorted
     * permutation of the beans that position as its order.
     */
    method Resolve() returns (result: Resolution<F>)
      modifies this
      ensures orderDeclarations == [] ==> result == NoDeclarations
      ensures orderDeclarations != [] ==>
        var c := Partition(orderDeclarations);
        if |c.last| != 1 then result == LastNotUnique(c.last)
        else if HasCycle(c.dependencies) then
          result.CycleDetected? && FirstCycle(c.dependencies, c.dependencyKeys) == Some(result.cycle)
          && IsCycleReport(c.dependencies, result.cycle)
        else result.Resolved?
      ensures !result.Resolved? ==> orders == old(orders)
      ensures result.Resolved? ==>
        && multiset(result.sorted) == multiset(filterRegistrationBeans)
        && orders == old(orders) + Positions(result.sorted)
      ensures result.Resolved? && NoDuplicates(filterRegistrationBeans) ==>
        forall i | 0 <= i < |result.sorted| :: result.sorted[i] in orders && orders[result.sorted[i]] == i
    {
      if |orderDeclarations| == 0 {
        return NoDeclarations;
      }
      var beans := filterRegistrationBeans;
      var originalIndexes := IndexBeans(beans);
      var c := CollectConstraints(orderDeclarations);
      var last, dependencies, dependencyKeys := c.last, c.dependencies, c.dependencyKeys;

      if |last| != 1 {
        return LastNotUnique(last);
      }
      PartitionShape(orderDeclarations);
      var finder := new CycleFinder(dependencies, dependencyKeys);
      var cycle := finder.Run();
      if cycle.Some? {
        return CycleDetected(cycle.value);
      }

      var sortedBeans := new FilterBean<F>[|beans|](k requires 0 <= k < |beans| => beans[k]);
      assert sortedBeans[..] == beans;
      PositionsCover(beans);
      SortBeans(sortedBeans, c, originalIndexes);
      var sorted := sortedBeans[..];

      AssignOrders(sorted);
      if NoDuplicates(beans) {
        PermutationKeepsDistinct(beans, sorted);
        PositionsOfDistinct(sorted);
      }
      return Resolved(sorted);
    }
  }
}
