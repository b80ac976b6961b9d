/** The sets LLAMA attaches to its symbols and productions. */
module Symbols {
  import opened Grammars

  type Sets = map<Symbol, set<Symbol>>

  function At(f: Sets, x: Symbol): set<Symbol> {
    if x in f then f[x] else {}
  }

  /** Every set of `f` is contained in the corresponding set of `h`. */
  ghost predicate Leq(f: Sets, h: Sets) {
    forall x, t :: t in At(f, x) ==> t in At(h, x)
  }

  ghost predicate InRange(g: Grammar, f: Sets) {
    forall x, t | t in At(f, x) :: 0 <= t <= g.Epsilon()
  }

  predicate ForNonterminals(g: Grammar, f: Sets) {
    f.Keys == set x | x in g.symtab && IsNonterm(x)
  }

  /** What could still be added to `f`: the measure of both fixpoint loops. */
  function Missing(g: Grammar, f: Sets): set<(Symbol, Symbol)> {
    set x, t | x in g.symtab && 0 <= t <= g.Epsilon() && t !in At(f, x) :: (x, t)
  }

  lemma MissingShrinks(g: Grammar, f: Sets, h: Sets)
    requires Leq(f, h)
    ensures Missing(g, h) <= Missing(g, f)
    ensures forall x, t | x in g.symtab && 0 <= t <= g.Epsilon() && t !in At(f, x) && t in At(h, x) ::
              Missing(g, h) < Missing(g, f)
  {
    forall x, t | x in g.symtab && 0 <= t <= g.Epsilon() && t !in At(f, x) && t in At(h, x)
      ensures Missing(g, h) < Missing(g, f)
    {
      assert (x, t) in Missing(g, f) && (x, t) !in Missing(g, h);
    }
  }

  class SymbolTable {
    const g: Grammar
    var first: Sets
    var follow: Sets
    var select: map<nat, set<Symbol>>

    constructor (g: Grammar)
      ensures this.g == g
      ensures ForNonterminals(g, first) && forall x :: At(first, x) == {}
      ensures ForNonterminals(g, follow) && forall x :: At(follow, x) == {}
      ensures select == map[]
    {
      this.g := g;
      first := map x | x in g.symtab && IsNonterm(x) :: {};
      follow := map x | x in g.symtab && IsNonterm(x) :: {};
      select := map[];
    }
  }
}
