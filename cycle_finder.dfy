/**
 * A depth-first search for a cycle in a directed graph given as a map from
 * each node to its successors. A fresh search is started from every key; the
 * search keeps a `seen` set that always holds exactly the nodes of the current
 * recursion path, and returns the first cycle it meets as the list built
 * while the recursion unwinds: the repeated node first, then each node's
 * predecessor on the path, back to the node the search started from.
 */
module CycleFinding {
  import opened Wrappers

  /**
   * The graph: each key's successors, in the iteration order of its
   * collection. A node that is not a key has no successors.
   */
  type Graph<T> = map<T, seq<T>>

  /** `edges.getOrDefault(node, emptySet())`. */
  function Successors<T>(g: Graph<T>, node: T): seq<T>
  {
    if node in g then g[node] else []
  }

  /** Every node the graph mentions: the keys and all their successors. */
  ghost function Nodes<T>(g: Graph<T>): set<T>
  {
    g.Keys + set k, n | k in g && n in g[k] :: n
  }

  /** The nodes of a path. */
  ghost function Elems<T>(s: seq<T>): set<T>
  {
    if s == [] then {} else Elems(s[..|s| - 1]) + {s[|s| - 1]}
  }

  /** `w` follows edges: each node is a successor of the one before it. */
  ghost predicate IsWalk<T>(g: Graph<T>, w: seq<T>)
  {
    forall i | 0 <= i < |w| - 1 :: w[i + 1] in Successors(g, w[i])
  }

  /** `r` read backwards follows edges: each node is a successor of the next one. */
  ghost predicate IsReversedWalk<T>(g: Graph<T>, r: seq<T>)
  {
    forall i | 0 <= i < |r| - 1 :: r[i] in Successors(g, r[i + 1])
  }

  /** The graph has a closed walk of at least one edge. */
  ghost predicate HasCycle<T(!new)>(g: Graph<T>)
  {
    exists w :: IsWalk(g, w) && |w| >= 2 && w[0] == w[|w| - 1]
  }

  /**
   * What the search reports: a reversed walk whose first node occurs again
   * later in it. The part after that second occurrence is the lead-in from
   * the node the search started from, so the first and last nodes need not
   * be equal.
   */
  ghost predicate IsCycleReport<T>(g: Graph<T>, r: seq<T>)
  {
    |r| >= 2 && IsReversedWalk(g, r) && r[0] in r[1..]
  }

  /** No walk of at least one edge leads from `node` into `targets`. */
  ghost predicate NoWalkInto<T(!new)>(g: Graph<T>, node: T, targets: set<T>)
  {
    forall w :: IsWalk(g, w) && |w| >= 2 && w[0] == node ==> w[|w| - 1] !in targets
  }

  /** `keys` enumerates the keys of `g`, each once: the order of `keySet()`. */
  ghost predicate IsKeyOrder<T>(keys: seq<T>, g: Graph<T>)
  {
    && (forall k | k in g :: k in keys)
    && (forall i | 0 <= i < |keys| :: keys[i] in g)
    && (forall i, j | 0 <= i < j < |keys| :: keys[i] != keys[j])
  }

  /** A successor of a node is one of the graph's nodes. */
  lemma SuccessorIsNode<T>(g: Graph<T>, node: T, i: nat)
    requires i < |Successors(g, node)|
    ensures Successors(g, node)[i] in Nodes(g)
    ensures Nodes(g) + {Successors(g, node)[i]} == Nodes(g)
  {
    var n := g[node][i];
    assert node in g && n in g[node];
  }

  /** One turn of the successor loop. */
  lemma FindCycleAmongStep<T>(g: Graph<T>, node: T, seen: set<T>, i: nat)
    requires i < |Successors(g, node)|
    ensures var cycle := FindCycleFrom(g, Successors(g, node)[i], seen);
      FindCycleAmong(g, node, seen, i) == if cycle != [] then cycle + [node] else FindCycleAmong(g, node, seen, i + 1)
  {
  }

  /** The recursive call on a successor searches with fewer nodes off the path. */
  lemma RecursionShrinksRest<T>(g: Graph<T>, node: T, i: nat, seen: set<T>)
    requires i < |Successors(g, node)| && node !in seen
    ensures |Nodes(g) + {Successors(g, node)[i]} - (seen + {node})| < |Nodes(g) + {node} - seen|
  {
    SuccessorIsNode(g, node, i);
    PathGrowthShrinksRest(g, node, seen);
  }

  /**
   * The state of the search on entry to `findCycle(node)`: `seen` holds
   * exactly the nodes of `path`, and `node` continues that walk.
   */
  ghost predicate IsSearchPath<T>(g: Graph<T>, seen: set<T>, path: seq<T>, node: T)
  {
    seen == Elems(path) && IsWalk(g, path + [node])
  }

  /** Stepping from `node` to one of its successors keeps `seen` equal to the path. */
  lemma SearchPathStep<T>(g: Graph<T>, seen: set<T>, path: seq<T>, node: T, i: nat)
    requires IsSearchPath(g, seen, path, node) && i < |Successors(g, node)|
    ensures IsSearchPath(g, seen + {node}, path + [node], Successors(g, node)[i])
  {
    assert (path + [node])[..|path|] == path;
    WalkExtends(g, path + [node], Successors(g, node)[i]);
  }

  /** A walk followed by a successor of its last node is a walk. */
  lemma WalkExtends<T>(g: Graph<T>, w: seq<T>, next: T)
    requires IsWalk(g, w) && |w| > 0 && next in Successors(g, w[|w| - 1])
    ensures IsWalk(g, w + [next])
  {
    var w' := w + [next];
    forall k | 0 <= k < |w'| - 1 ensures w'[k + 1] in Successors(g, w'[k]) {
      if k < |w| - 1 {
        assert w'[k] == w[k] && w'[k + 1] == w[k + 1];
      }
    }
  }

  /** Putting a new node on the path shrinks the set of nodes not on it. */
  lemma PathGrowthShrinksRest<T>(g: Graph<T>, node: T, seen: set<T>)
    requires node !in seen
    ensures |Nodes(g) - (seen + {node})| < |Nodes(g) + {node} - seen|
  {
    AddingShrinksRest(Nodes(g), node, seen);
  }

  lemma AddingShrinksRest<T>(nodes: set<T>, node: T, seen: set<T>)
    requires node !in seen
    ensures |nodes - (seen + {node})| < |nodes + {node} - seen|
  {
    var rest := nodes + {node} - seen;
    assert nodes - (seen + {node}) == rest - {node};
  }

  lemma AddThenRemove<T>(s: set<T>, x: T)
    requires x !in s
    ensures s + {x} - {x} == s
  {
  }

  /** A reversed walk ending at a successor of `node` extends by `node`. */
  lemma ReversedWalkExtends<T>(g: Graph<T>, r: seq<T>, node: T)
    requires IsReversedWalk(g, r) && |r| > 0 && r[|r| - 1] in Successors(g, node)
    ensures IsReversedWalk(g, r + [node]) && (r + [node])[1..] == r[1..] + [node]
  {
    var r' := r + [node];
    forall j | 0 <= j < |r'| - 1 ensures r'[j] in Successors(g, r'[j + 1]) {
      if j < |r| - 1 {
        assert r'[j] == r[j] && r'[j + 1] == r[j + 1];
      }
    }
  }

  /** Dropping the first node of a walk leaves a walk. */
  lemma WalkTail<T>(g: Graph<T>, w: seq<T>)
    requires IsWalk(g, w) && |w| > 0
    ensures IsWalk(g, w[1..])
  {
    var w' := w[1..];
    forall k | 0 <= k < |w'| - 1 ensures w'[k + 1] in Successors(g, w'[k]) {
      assert w'[k] == w[k + 1] && w'[k + 1] == w[k + 2];
    }
  }

  /**
   * `findCycle(node)` with `seen` on entry: a node already on the path is a
   * cycle seed `[node]`; otherwise `node` joins the path and its successors
   * are searched in turn.
   */
  function FindCycleFrom<T>(g: Graph<T>, node: T, seen: set<T>): seq<T>
    decreases |Nodes(g) + {node} - seen|, 0, 0
  {
    if node in seen then [node]
    else
      PathGrowthShrinksRest(g, node, seen);
      FindCycleAmong(g, node, seen + {node}, 0)
  }

  /**
   * The loop over `node`'s successors from the `i`-th on, with `seen` the
   * path including `node`: the first non-empty result, with `node` appended,
   * is the answer. A successor whose search finds nothing leaves `seen` as
   * it was (the `seen.remove(next)`).
   */
  function FindCycleAmong<T>(g: Graph<T>, node: T, seen: set<T>, i: nat): seq<T>
    requires i <= |Successors(g, node)|
    decreases |Nodes(g) - seen|, 1, |Successors(g, node)| - i
  {
    if i == |Successors(g, node)| then []
    else
      var next := Successors(g, node)[i];
      SuccessorIsNode(g, node, i);
      var cycle := FindCycleFrom(g, next, seen);
      if cycle != [] then cycle + [node] else FindCycleAmong(g, node, seen, i + 1)
  }

  /** `dfs(start)`: a search from `start` with `seen` cleared; an empty list becomes `None`. */
  function SearchFrom<T>(g: Graph<T>, start: T): Option<seq<T>>
  {
    var cycle := FindCycleFrom(g, start, {});
    if cycle == [] then None else Some(cycle)
  }

  /** `run()`: the first search, over the keys in order, that finds a cycle. */
  function FirstCycle<T>(g: Graph<T>, keys: seq<T>): Option<seq<T>>
  {
    if keys == [] then None
    else
      var cycle := SearchFrom(g, keys[0]);
      if cycle.Some? then cycle else FirstCycle(g, keys[1..])
  }

  // ---------------------------------------------------------------------
  // Soundness: a reported list is a reversed walk whose head repeats.
  // ---------------------------------------------------------------------

  lemma {:induction false} FindCycleFromSound<T>(g: Graph<T>, node: T, seen: set<T>)
    ensures var r := FindCycleFrom(g, node, seen);
      r != [] ==> r[|r| - 1] == node && IsReversedWalk(g, r) && (r[0] in seen || r[0] in r[1..])
    decreases |Nodes(g) + {node} - seen|, 0, 0
  {
    if node !in seen {
      PathGrowthShrinksRest(g, node, seen);
      FindCycleAmongSound(g, node, seen + {node}, 0);
    }
  }

  lemma {:induction false} FindCycleAmongSound<T>(g: Graph<T>, node: T, seen: set<T>, i: nat)
    requires i <= |Successors(g, node)|
    ensures var r := FindCycleAmong(g, node, seen, i);
      r != [] ==> |r| >= 2 && r[|r| - 1] == node && IsReversedWalk(g, r) && (r[0] in seen || r[0] in r[1..])
    decreases |Nodes(g) - seen|, 1, |Successors(g, node)| - i
  {
    if i < |Successors(g, node)| {
      var next := Successors(g, node)[i];
      SuccessorIsNode(g, node, i);
      var cycle := FindCycleFrom(g, next, seen);
      FindCycleFromSound(g, next, seen);
      if cycle != [] {
        ReversedWalkExtends(g, cycle, node);
      } else {
        FindCycleAmongSound(g, node, seen, i + 1);
      }
    }
  }

  // ---------------------------------------------------------------------
  // Completeness: an empty result means no walk leads back onto the path.
  // ---------------------------------------------------------------------

  lemma {:induction false} FindCycleFromComplete<T(!new)>(g: Graph<T>, node: T, seen: set<T>)
    ensures FindCycleFrom(g, node, seen) == [] ==> node !in seen && NoWalkInto(g, node, seen + {node})
    decreases |Nodes(g) + {node} - seen|, 0, 0
  {
    if node !in seen && FindCycleFrom(g, node, seen) == [] {
      var seen' := seen + {node};
      PathGrowthShrinksRest(g, node, seen);
      FindCycleAmongComplete(g, node, seen', 0);
      var succ := Successors(g, node);
      forall w | IsWalk(g, w) && |w| >= 2 && w[0] == node ensures w[|w| - 1] !in seen' {
        assert w[1] in succ;
        var j :| 0 <= j < |succ| && succ[j] == w[1];
        if |w| > 2 {
          WalkTail(g, w);
          assert w[1..][|w| - 2] == w[|w| - 1];
        }
      }
    }
  }

  lemma {:induction false} FindCycleAmongComplete<T(!new)>(g: Graph<T>, node: T, seen: set<T>, i: nat)
    requires i <= |Successors(g, node)|
    ensures var succ := Successors(g, node);
      FindCycleAmong(g, node, seen, i) == [] ==>
        forall j | i <= j < |succ| :: succ[j] !in seen && NoWalkInto(g, succ[j], seen + {succ[j]})
    decreases |Nodes(g) - seen|, 1, |Successors(g, node)| - i
  {
    if i < |Successors(g, node)| && FindCycleAmong(g, node, seen, i) == [] {
      var next := Successors(g, node)[i];
      SuccessorIsNode(g, node, i);
      FindCycleAmongStep(g, node, seen, i);
      assert FindCycleFrom(g, next, seen) == [] && FindCycleAmong(g, node, seen, i + 1) == [];
      FindCycleFromComplete(g, next, seen);
      FindCycleAmongComplete(g, node, seen, i + 1);
      var succ := Successors(g, node);
      forall j | i <= j < |succ| ensures succ[j] !in seen && NoWalkInto(g, succ[j], seen + {succ[j]}) {
        if j == i {
          assert succ[j] == next;
        }
      }
    }
  }

  // ---------------------------------------------------------------------
  // The whole run.
  // ---------------------------------------------------------------------

  /** A reported list contains a cycle: the part up to the repeat of its head, read backwards. */
  lemma CycleReportHasCycle<T(!new)>(g: Graph<T>, r: seq<T>)
    requires IsCycleReport(g, r)
    ensures HasCycle(g)
  {
    var j :| 1 <= j < |r| && r[j] == r[0];
    var w := seq(j + 1, k requires 0 <= k <= j => r[j - k]);
    assert IsWalk(g, w) by {
      forall k | 0 <= k < |w| - 1 ensures w[k + 1] in Successors(g, w[k]) {
        assert w[k + 1] == r[j - k - 1] && w[k] == r[j - k];
      }
    }
    assert w[0] == r[j] && w[|w| - 1] == r[0];
  }

  /** Two nodes that are each other's successors (or one node that is its own) close a cycle. */
  lemma MutualEdgesFormCycle<T(!new)>(g: Graph<T>, a: T, b: T)
    requires b in Successors(g, a) && a in Successors(g, b)
    ensures HasCycle(g)
  {
    var w := [a, b, a];
    assert IsWalk(g, w);
  }

  /** A search from a start node either reports a cycle that ends at the start, or proves none passes through it. */
  lemma SearchFromSpec<T(!new)>(g: Graph<T>, start: T)
    ensures SearchFrom(g, start).Some? ==>
      IsCycleReport(g, SearchFrom(g, start).value) && SearchFrom(g, start).value[|SearchFrom(g, start).value| - 1] == start
    ensures SearchFrom(g, start).None? ==> NoWalkInto(g, start, {start})
  {
    FindCycleFromSound(g, start, {});
    FindCycleFromComplete(g, start, {});
    var r := FindCycleFrom(g, start, {});
    if r != [] {
      assert {} + {start} == {start};
      FindCycleAmongSound(g, start, {start}, 0);
    }
  }

  /**
   * The run reports a cycle exactly when the graph has one, and what it
   * reports is a reversed walk whose head repeats, ending at a key.
   */
  lemma {:induction false} FirstCycleCorrect<T(!new)>(g: Graph<T>, keys: seq<T>)
    requires IsKeyOrder(keys, g)
    ensures FirstCycle(g, keys).Some? <==> HasCycle(g)
    ensures FirstCycle(g, keys).Some? ==>
      var r := FirstCycle(g, keys).value; IsCycleReport(g, r) && r[|r| - 1] in g
  {
    FirstCycleReports(g, keys);
    if FirstCycle(g, keys).Some? {
      CycleReportHasCycle(g, FirstCycle(g, keys).value);
    } else if HasCycle(g) {
      var w :| IsWalk(g, w) && |w| >= 2 && w[0] == w[|w| - 1];
      assert w[1] in Successors(g, w[0]);
      assert w[0] in keys;
      FirstCycleNoneSearchesAll(g, keys, w[0]);
      SearchFromSpec(g, w[0]);
    }
  }

  lemma {:induction false} FirstCycleReports<T(!new)>(g: Graph<T>, keys: seq<T>)
    ensures FirstCycle(g, keys).Some? ==>
      var r := FirstCycle(g, keys).value; IsCycleReport(g, r) && r[|r| - 1] in keys
  {
    if keys != [] {
      SearchFromSpec(g, keys[0]);
      if SearchFrom(g, keys[0]).None? {
        FirstCycleReports(g, keys[1..]);
      }
    }
  }

  lemma {:induction false} FirstCycleNoneSearchesAll<T>(g: Graph<T>, keys: seq<T>, k: T)
    requires FirstCycle(g, keys).None? && k in keys
    ensures SearchFrom(g, k).None?
  {
    if keys[0] != k {
      FirstCycleNoneSearchesAll(g, keys[1..], k);
    }
  }

  /**
   * The search of the source, over a map it does not change. `seen` is the
   * only state: it is cleared for every start node, grows by one node on
   * each step down, and loses that node again when its branch finds nothing.
   */
  class CycleFinder<T(==,!new)> {
    var seen: set<T>
    const edges: Graph<T>
    /** The iteration order of `edges.keySet()`. */
    const keys: seq<T>

    ghost predicate Valid()
    {
      IsKeyOrder(keys, edges)
    }

    constructor (edges: Graph<T>, keys: seq<T>)
      requires IsKeyOrder(keys, edges)
      ensures Valid() && this.edges == edges && this.keys == keys && seen == {}
    {
      this.edges := edges;
      this.keys := keys;
      seen := {};
    }

    /** `run()`: searches from every key in turn and returns the first cycle found. */
    method Run() returns (cycle: Option<seq<T>>)
      requires Valid()
      modifies this
      ensures cycle == FirstCycle(edges, keys)
      ensures cycle.Some? <==> HasCycle(edges)
      ensures cycle.Some? ==> IsCycleReport(edges, cycle.value)
      ensures cycle.None? && keys != [] ==> seen == {keys[|keys| - 1]}
    {
      FirstCycleCorrect(edges, keys);
      for i := 0 to |keys|
        invariant FirstCycle(edges, keys[i..]) == FirstCycle(edges, keys)
        invariant 0 < i ==> seen == {keys[i - 1]}
      {
        assert keys[i..][1..] == keys[i + 1..];
        cycle := Dfs(keys[i]);
        if cycle.Some? {
          return;
        }
      }
      cycle := None;
    }

    /** `dfs(start)`: clears `seen`, searches, and maps an empty list to `None`. */
    method Dfs(start: T) returns (cycle: Option<seq<T>>)
      modifies this
      ensures cycle == SearchFrom(edges, start)
      ensures cycle.None? ==> seen == {start}
    {
      seen := {};
      var found := FindCycle(start, []);
      if found == [] {
        return None;
      }
      return Some(found);
    }

    /**
     * `findCycle(node)`. On entry `seen` holds exactly the nodes of `path`, a
     * walk that `node` continues. When the result is empty `seen` is left as
     * the path plus `node`, and the caller removes `node` again.
     */
    method FindCycle(node: T, ghost path: seq<T>) returns (cycle: seq<T>)
      requires IsSearchPath(edges, seen, path, node)
      modifies this
      decreases |Nodes(edges) + {node} - seen|
      ensures cycle == FindCycleFrom(edges, node, old(seen))
      ensures cycle == [] ==> node !in old(seen) && seen == old(seen) + {node}
      ensures old(seen) <= seen
    {
      if node in seen {
        return [node];
      }
      seen := seen + {node};
      ghost var path' := path + [node];
      ghost var result := FindCycleFrom(edges, node, old(seen));
      assert result == FindCycleAmong(edges, node, seen, 0);
      var successors := Successors(edges, node);
      for i := 0 to |successors|
        invariant seen == old(seen) + {node}
        invariant FindCycleAmong(edges, node, seen, i) == result
      {
        var next := successors[i];
        RecursionShrinksRest(edges, node, i, old(seen));
        SearchPathStep(edges, old(seen), path, node, i);
        ghost var before := seen;
        cycle := FindCycle(next, path');
        FindCycleAmongStep(edges, node, seen, i);
        if cycle != [] {
          cycle := cycle + [node];
          return;
        }
        AddThenRemove(before, next);
        seen := seen - {next};
      }
      cycle := [];
    }
  }
}
