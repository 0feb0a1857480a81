/**
 * The cycle searches of the source's unit tests, on graphs whose key order
 * is the insertion order of the immutable maps those tests build. Each proof
 * walks the search from the innermost call outwards.
 */
module CycleFinderExamples {
  import opened Wrappers
  import opened CycleFinding

  /** An empty graph has no cycle. */
  lemma EmptyGraph()
    ensures FirstCycle<char>(map[], []) == None
  {
  }

  /** A single edge `a -> b` has no cycle. */
  lemma SingleEdge()
    ensures FirstCycle(map['a' := ['b']], ['a']) == None
  {
    var g := map['a' := ['b']];
    assert FindCycleFrom(g, 'b', {'a'}) == [];
    assert FindCycleAmong(g, 'a', {'a'}, 0) == [];
    assert {} + {'a'} == {'a'};
    assert SearchFrom(g, 'a') == None;
    assert ['a'][1..] == [];
  }

  /** A self-loop `a -> a` is reported as `[a, a]`. */
  lemma SelfLoop()
    ensures FirstCycle(map['a' := ['a']], ['a']) == Some(['a', 'a'])
  {
    var g := map['a' := ['a']];
    assert FindCycleFrom(g, 'a', {'a'}) == ['a'];
    assert FindCycleAmong(g, 'a', {'a'}, 0) == ['a', 'a'];
    assert {} + {'a'} == {'a'};
    assert SearchFrom(g, 'a') == Some(['a', 'a']);
  }

  /** `a -> b -> a` is reported as `[a, b, a]`. */
  lemma TwoCycle()
    ensures FirstCycle(map['a' := ['b'], 'b' := ['a']], ['a', 'b']) == Some(['a', 'b', 'a'])
  {
    var g := map['a' := ['b'], 'b' := ['a']];
    assert FindCycleFrom(g, 'a', {'a', 'b'}) == ['a'];
    assert FindCycleAmong(g, 'b', {'a', 'b'}, 0) == ['a', 'b'];
    assert {'a'} + {'b'} == {'a', 'b'};
    assert FindCycleFrom(g, 'b', {'a'}) == ['a', 'b'];
    assert FindCycleAmong(g, 'a', {'a'}, 0) == ['a', 'b', 'a'];
    assert {} + {'a'} == {'a'};
    assert SearchFrom(g, 'a') == Some(['a', 'b', 'a']);
  }

  /** `a -> b -> c -> a` is reported as `[a, c, b, a]`. */
  lemma ThreeCycle()
    ensures FirstCycle(map['a' := ['b'], 'b' := ['c'], 'c' := ['a']], ['a', 'b', 'c']) == Some(['a', 'c', 'b', 'a'])
  {
    var g := map['a' := ['b'], 'b' := ['c'], 'c' := ['a']];
    assert FindCycleFrom(g, 'a', {'a', 'b', 'c'}) == ['a'];
    assert FindCycleAmong(g, 'c', {'a', 'b', 'c'}, 0) == ['a', 'c'];
    assert {'a', 'b'} + {'c'} == {'a', 'b', 'c'};
    assert FindCycleFrom(g, 'c', {'a', 'b'}) == ['a', 'c'];
    assert FindCycleAmong(g, 'b', {'a', 'b'}, 0) == ['a', 'c', 'b'];
    assert {'a'} + {'b'} == {'a', 'b'};
    assert FindCycleFrom(g, 'b', {'a'}) == ['a', 'c', 'b'];
    assert FindCycleAmong(g, 'a', {'a'}, 0) == ['a', 'c', 'b', 'a'];
    assert {} + {'a'} == {'a'};
    assert SearchFrom(g, 'a') == Some(['a', 'c', 'b', 'a']);
  }

  /** Two edges into one node, `a -> b` and `c -> b`, make no cycle. */
  lemma YShape()
    ensures FirstCycle(map['a' := ['b'], 'c' := ['b']], ['a', 'c']) == None
  {
    var g := map['a' := ['b'], 'c' := ['b']];
    assert FindCycleFrom(g, 'b', {'a'}) == [];
    assert FindCycleAmong(g, 'a', {'a'}, 0) == [];
    assert {} + {'a'} == {'a'};
    assert SearchFrom(g, 'a') == None;
    assert FindCycleFrom(g, 'b', {'c'}) == [];
    assert FindCycleAmong(g, 'c', {'c'}, 0) == [];
    assert {} + {'c'} == {'c'};
    assert SearchFrom(g, 'c') == None;
    assert ['a', 'c'][1..] == ['c'] && ['c'][1..] == [];
  }

  /**
   * `d -> a`, `a -> b`, `a -> c`, `c -> b`: `b` is reached twice, along
   * different paths, and no cycle is reported, because `b` leaves `seen`
   * after its first branch.
   */
  lemma Diamond()
    ensures FirstCycle(map['d' := ['a'], 'a' := ['b', 'c'], 'c' := ['b']], ['d', 'a', 'c']) == None
  {
    var g := map['d' := ['a'], 'a' := ['b', 'c'], 'c' := ['b']];
    // from d
    assert FindCycleFrom(g, 'b', {'d', 'a', 'c'}) == [];
    assert FindCycleAmong(g, 'c', {'d', 'a', 'c'}, 0) == [];
    assert {'d', 'a'} + {'c'} == {'d', 'a', 'c'};
    assert FindCycleFrom(g, 'c', {'d', 'a'}) == [];
    assert FindCycleFrom(g, 'b', {'d', 'a'}) == [];
    assert FindCycleAmong(g, 'a', {'d', 'a'}, 1) == [];
    assert FindCycleAmong(g, 'a', {'d', 'a'}, 0) == [];
    assert {'d'} + {'a'} == {'d', 'a'};
    assert FindCycleFrom(g, 'a', {'d'}) == [];
    assert FindCycleAmong(g, 'd', {'d'}, 0) == [];
    assert {} + {'d'} == {'d'};
    assert SearchFrom(g, 'd') == None;
    // from a
    assert FindCycleFrom(g, 'b', {'a', 'c'}) == [];
    assert FindCycleAmong(g, 'c', {'a', 'c'}, 0) == [];
    assert {'a'} + {'c'} == {'a', 'c'};
    assert FindCycleFrom(g, 'c', {'a'}) == [];
    assert FindCycleFrom(g, 'b', {'a'}) == [];
    assert FindCycleAmong(g, 'a', {'a'}, 1) == [];
    assert FindCycleAmong(g, 'a', {'a'}, 0) == [];
    assert {} + {'a'} == {'a'};
    assert SearchFrom(g, 'a') == None;
    // from c
    assert FindCycleFrom(g, 'b', {'c'}) == [];
    assert FindCycleAmong(g, 'c', {'c'}, 0) == [];
    assert {} + {'c'} == {'c'};
    assert SearchFrom(g, 'c') == None;
    assert ['d', 'a', 'c'][1..] == ['a', 'c'] && ['a', 'c'][1..] == ['c'] && ['c'][1..] == [];
  }

  /**
   * `d -> a -> b -> a`: the report starts at the repeated node and carries
   * the lead-in `d` at its end, so its first and last nodes differ.
   */
  lemma LeadIn()
    ensures FirstCycle(map['d' := ['a'], 'a' := ['b'], 'b' := ['a']], ['d', 'a', 'b']) == Some(['a', 'b', 'a', 'd'])
  {
    var g := map['d' := ['a'], 'a' := ['b'], 'b' := ['a']];
    assert FindCycleFrom(g, 'a', {'d', 'a', 'b'}) == ['a'];
    assert FindCycleAmong(g, 'b', {'d', 'a', 'b'}, 0) == ['a', 'b'];
    assert {'d', 'a'} + {'b'} == {'d', 'a', 'b'};
    assert FindCycleFrom(g, 'b', {'d', 'a'}) == ['a', 'b'];
    assert FindCycleAmong(g, 'a', {'d', 'a'}, 0) == ['a', 'b', 'a'];
    assert {'d'} + {'a'} == {'d', 'a'};
    assert FindCycleFrom(g, 'a', {'d'}) == ['a', 'b', 'a'];
    assert FindCycleAmong(g, 'd', {'d'}, 0) == ['a', 'b', 'a', 'd'];
    assert {} + {'d'} == {'d'};
    assert SearchFrom(g, 'd') == Some(['a', 'b', 'a', 'd']);
  }

  /**
   * `a` has no successors and `c -> a`, with keys in the order `a, c`. The
   * run finds no cycle, but only because `dfs` clears `seen`: a search from
   * `c` that kept `a` from the first search would report `[a, c]`.
   */
  lemma ClearingMatters()
    ensures FirstCycle(map['a' := [], 'c' := ['a']], ['a', 'c']) == None
    ensures FindCycleFrom(map['a' := [], 'c' := ['a']], 'c', {'a'}) == ['a', 'c']
  {
    var g := map['a' := [], 'c' := ['a']];
    assert FindCycleAmong(g, 'a', {'a'}, 0) == [];
    assert {} + {'a'} == {'a'};
    assert SearchFrom(g, 'a') == None;
    assert FindCycleAmong(g, 'a', {'c', 'a'}, 0) == [];
    assert {'c'} + {'a'} == {'c', 'a'};
    assert FindCycleFrom(g, 'a', {'c'}) == [];
    assert FindCycleAmong(g, 'c', {'c'}, 1) == [];
    assert FindCycleAmong(g, 'c', {'c'}, 0) == [];
    assert {} + {'c'} == {'c'};
    assert SearchFrom(g, 'c') == None;
    assert ['a', 'c'][1..] == ['c'] && ['c'][1..] == [];
    assert FindCycleFrom(g, 'a', {'a', 'c'}) == ['a'];
    assert FindCycleAmong(g, 'c', {'a', 'c'}, 0) == ['a', 'c'];
    assert {'a'} + {'c'} == {'a', 'c'};
  }
}
