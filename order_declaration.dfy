/**
 * An order declaration states either that a filter class runs last, or that a
 * filter class depends on (runs after) another one. The Java class keeps three
 * final fields, `isLast`, `filter` and a nullable `dependsOn`; here the two
 * kinds are the two constructors, and the field view is given by `IsLast` and
 * `Dependency`.
 */
module OrderDeclarations {
  import opened Wrappers

  datatype OrderDeclaration<F> =
    | Last(filter: F)
    | DependsOn(filter: F, dependsOn: F)
  {
    /** The `isLast` field. */
    predicate IsLast() {
      Last?
    }

    /** The nullable `dependsOn` field: absent exactly for a last-declaration. */
    function Dependency(): (g: Option<F>)
      ensures g.None? <==> IsLast()
    {
      match this
      case Last(_) => None
      case DependsOn(_, g) => Some(g)
    }
  }

  /** The builder returned by `of(filter)`; it remembers the filter only. */
  datatype Builder<F> = Builder(filter: F)
  {
    /** `of(f).dependsOn(g)`: `f` comes after `g`. */
    function DependsOn(g: F): (d: OrderDeclaration<F>)
      ensures !d.IsLast() && d.filter == filter && d.Dependency() == Some(g)
    {
      OrderDeclaration.DependsOn(filter, g)
    }
  }

  /** `of(f)`. */
  function Of<F>(f: F): (b: Builder<F>)
    ensures b.filter == f
  {
    Builder(f)
  }

  /** `last(f)`: a declaration with `isLast` set, filter `f` and no dependency. */
  function MakeLast<F>(f: F): (d: OrderDeclaration<F>)
    ensures d.IsLast() && d.filter == f && d.Dependency() == None
  {
    Last(f)
  }

  /**
   * The two factories are the only public way to build a declaration, and the three
   * fields they set determine the declaration: reading the fields back and
   * calling the matching factory rebuilds it. Every declaration is exactly
   * one of the two kinds.
   */
  lemma FactoriesRebuildFields<F>(d: OrderDeclaration<F>)
    ensures d.IsLast() ==> MakeLast(d.filter) == d
    ensures !d.IsLast() ==> d.Dependency().Some? && Of(d.filter).DependsOn(d.Dependency().value) == d
  {
  }

  /**
   * The builder keeps the filter given to `of` as the dependent filter and the
   * argument of `dependsOn` as its dependency; it never swaps them.
   */
  lemma BuilderKeepsOrientation<F>(f: F, g: F)
    requires f != g
    ensures Of(f).DependsOn(g) != Of(g).DependsOn(f)
    ensures Of(f).DependsOn(g).filter == f && Of(f).DependsOn(g).dependsOn == g
  {
  }
}
