/** A directed edge between two displayable endpoints (dependency/mod.rs). Rust's
    `Display` bound becomes an explicit rendering function passed where the code
    calls `to_string()`. */
module Dependencies {

  import Wrappers
  import Modules
  import Paths
  import Child

  /** `Dependency { from, to }`; `Dependency::create` is this constructor, which keeps
      both endpoints as given. */
  datatype Dependency<F, T> = Dependency(from: F, to: T)

  /** `PartialEq`: two edges are equal when their sources render to the same text and
      their targets render to the same text. */
  predicate Same<F, T>(a: Dependency<F, T>, b: Dependency<F, T>, renderFrom: F -> string, renderTo: T -> string)
  {
    renderFrom(a.from) == renderFrom(b.from) && renderTo(a.to) == renderTo(b.to)
  }

  /** `is_internal`: both endpoints render to the same text. */
  predicate IsInternal<T>(d: Dependency<T, T>, render: T -> string)
  {
    render(d.from) == render(d.to)
  }

  /** The string-based equality is an equivalence, whatever the rendering. */
  lemma SameIsEquivalence<F, T>(a: Dependency<F, T>, b: Dependency<F, T>, c: Dependency<F, T>, renderFrom: F -> string, renderTo: T -> string)
    ensures Same(a, a, renderFrom, renderTo)
    ensures Same(a, b, renderFrom, renderTo) ==> Same(b, a, renderFrom, renderTo)
    ensures Same(a, b, renderFrom, renderTo) && Same(b, c, renderFrom, renderTo) ==> Same(a, c, renderFrom, renderTo)
  {
  }

  /** Edges between modules: the string-based equality is the structural one, and an
      edge is internal exactly when it stays inside one module. */
  lemma ModuleEdgeEquality(a: Dependency<Modules.Module, Modules.Module>, b: Dependency<Modules.Module, Modules.Module>)
    ensures Same(a, b, Modules.Render, Modules.Render) <==> a == b
    ensures IsInternal(a, Modules.Render) <==> a.from == a.to
  {
    Modules.RenderInjective(a.from, b.from);
    Modules.RenderInjective(a.to, b.to);
    Modules.RenderInjective(a.from, a.to);
  }

  /** Edges between files: internal means the same relative path, not the same module.
      Two different files of one module import each other without being internal. */
  lemma FileEdgeInternalIsSamePath(a: Child.ChildPath, b: Child.ChildPath)
    requires Child.WellFormed(a) && Child.WellFormed(b)
    requires Paths.Separated(a.path) && Paths.Separated(b.path)
    ensures IsInternal(Dependency(a, b), Child.Render) <==> a == b
  {
    Paths.RenderInjective(a.path, b.path);
  }
}
