/** OCCS as a whole: the parser on the tables that are made from a grammar accepts exactly the sentences
    of the grammar as it was written, if the tables have no conflicts. */
module LrProgram {
  import opened Grammars
  import opened Symbols
  import opened First
  import opened LrList
  import opened LrKernel
  import opened LrStates
  import opened LrTheorems
  import opened LrForms
  import opened LrParser
  import opened Patch
  import opened PatchedGrammar
  import opened Reductions
  import opened Occs
  import L = LLExact

  /** The original nonterminals produce the same texts after the patch. */
  lemma SameTexts(g: Grammar, h: Grammar, n: nat, x: Symbol, w: seq<Symbol>)
    requires g.Valid() && Numbered(g, n) && IsPatched(g, h, n) && IsNonterm(x) && x <= g.currNonterm
    ensures Produces(g, [x], w) <==> Produces(h, [x], w)
  {
    PatchedPlain(g, h, n);
    SameLanguage(g, h, n, x, w);
    hide Produces, Sentence, IsPatched, Numbered;
    SentenceIff(g, x, w);
    SentenceIff(h, x, w);
  }

  lemma SameTrueFirst(g: Grammar, h: Grammar, n: nat, x: Symbol)
    requires g.Valid() && Numbered(g, n) && IsPatched(g, h, n) && IsNonterm(x) && x <= g.currNonterm
    ensures At(L.TrueFirst(g), x) == At(L.TrueFirst(h), x)
  {
    SameTokens(g, h, n);
    hide Produces, IsPatched, Numbered, Grammar.Valid;
    forall t ensures L.Starts(g, [x], t) <==> L.Starts(h, [x], t) {
      if L.Starts(g, [x], t) {
        var w :| Produces(g, [x], [t] + w);
        SameTexts(g, h, n, x, [t] + w);
      }
      if L.Starts(h, [x], t) {
        var w :| Produces(h, [x], [t] + w);
        SameTexts(g, h, n, x, [t] + w);
      }
    }
    SameTexts(g, h, n, x, []);
  }

  lemma SameTokens(g: Grammar, h: Grammar, n: nat)
    requires IsPatched(g, h, n)
    ensures h.currTerm == g.currTerm && h.goal == g.goal && g.Epsilon() == h.Epsilon()
  {
  }

  /** A new nonterminal produces the empty text and nothing else. */
  lemma NewTrueFirst(g: Grammar, h: Grammar, n: nat, x: Symbol)
    requires IsPatched(g, h, n) && IsNonterm(x) && x > g.currNonterm
    ensures At(L.TrueFirst(h), x) == if x <= h.currNonterm then {h.Epsilon()} else {}
  {
    hide PatchedChain;
    assert [x][1..] == [];
    forall w | Produces(h, [x], w) ensures x <= h.currNonterm && w == [] {
      var k: nat :| Leftmost(h, [x], w, k);
      var p :| p in h.Prods(x) && Leftmost(h, p.rhs + [x][1..], w, k - 1);
      assert p.rhs + [x][1..] == [];
    }
    if x <= h.currNonterm {
      var p := h.Prods(x)[0];
      assert p in h.Prods(x) && p.rhs == [];
      L.ProducesNothing(h);
      L.ProducesBy(h, x, p, []);
    }
  }

  lemma NoTexts(g: Grammar, x: Symbol)
    requires g.Valid() && x > g.currNonterm
    ensures At(L.TrueFirst(g), x) == {}
  {
    assert x in g.chains ==> IsNonterm(x) && g.ValidSymbol(x);
    assert g.Prods(x) == [];
    if IsNonterm(x) {
      forall w ensures !Produces(g, [x], w) {
      }
    }
  }

  /** The FIRST sets of the grammar as it was written are as good for the patched one. */
  lemma StillComplete(g: Grammar, h: Grammar, n: nat, f: Sets, f': Sets)
    requires g.Valid() && Numbered(g, n) && IsPatched(g, h, n) && FirstKept(g, h, f, f') && First.Closed(g, f)
    ensures Complete(h, f')
  {
    hide L.TrueFirst, IsPatched, Numbered, First.Closed;
    SameTokens(g, h, n);
    ClosedComplete(g, f);
    forall x, t | t in At(L.TrueFirst(h), x) ensures t in At(f', x) {
      NontermOnly(h, x, t);
      if x <= g.currNonterm { SameTrueFirst(g, h, n, x); } else { NewTrueFirst(g, h, n, x); }
    }
  }

  lemma StillTruthful(g: Grammar, h: Grammar, n: nat, f: Sets, f': Sets)
    requires g.Valid() && Numbered(g, n) && IsPatched(g, h, n) && FirstKept(g, h, f, f') && Truthful(g, f)
    ensures Truthful(h, f')
  {
    hide L.TrueFirst, IsPatched, Numbered, Grammar.Valid;
    SameTokens(g, h, n);
    forall x, t | t in At(f', x) ensures t in At(L.TrueFirst(h), x) {
      if x > g.currNonterm { NoTexts(g, x); }
      if g.currNonterm < x <= h.currNonterm {
        NontermHere(g, h, n, x);
        NewTrueFirst(g, h, n, x);
      } else {
        assert t in At(L.TrueFirst(g), x);
        NontermOnly(g, x, t);
        SameTrueFirst(g, h, n, x);
      }
    }
  }

  lemma NontermOnly(g: Grammar, x: Symbol, t: Symbol)
    requires t in At(L.TrueFirst(g), x)
    ensures IsNonterm(x)
  {
  }

  lemma NontermHere(g: Grammar, h: Grammar, n: nat, x: Symbol)
    requires g.Valid() && IsPatched(g, h, n) && g.currNonterm < x <= h.currNonterm
    ensures IsNonterm(x)
  {
  }

  lemma StillFirst(g: Grammar, h: Grammar, n: nat)
    requires g.Valid() && IsPatched(g, h, n) && forall p | p in g.Prods(g.goal) :: p.num == 0
    ensures forall p | p in h.Prods(h.goal) :: p.num == 0
  {
    hide PatchedChain, Strip, Numbered;
    forall q | q in h.Prods(h.goal) ensures q.num == 0 {
      var p := PatchedProd(g, h, n, h.goal, q);
    }
  }

  /** With everything to be said, nothing is reported exactly if there are no conflicts. */
  lemma ReportedExactly(pr: Precs, a: Auto)
    ensures NoneReported(pr, true, a) <==> NoConflict(a)
  {
    hide Quiet, NoChoice;
    forall s | 0 <= s < |a.states| && s < |a.actions|
      ensures QuietChain(pr, true, a.actions[s], a.states[s].kernel + a.states[s].eps) <==>
        forall t :: NoConflictOn(a, s, t)
    {
      forall t
        ensures QuietOn(pr, true, a.actions[s], a.states[s].kernel + a.states[s].eps, t) <==> NoConflictOn(a, s, t)
      {
        QuietExactly(pr, Lookup(a.actions[s], t), ItemsAt(a, s), t);
      }
    }
  }

  /** What the program delivers for a grammar whose goal has the production with the number 0. */
  lemma ProgramAccepts(g: Grammar, n: nat, pr: Precs, h: Grammar, f: Sets, f': Sets, a: Auto, table: seq<seq<Act>>,
        w: seq<Symbol>)
    requires g.Valid() && Numbered(g, n) && GoalFree(g) && forall p | p in g.Prods(g.goal) :: p.num == 0
    requires First.Closed(g, f) && IsPatched(g, h, n) && FirstKept(g, h, f, f')
    requires |h.Prods(h.goal)| == 1 && Finished(h, f', h.Prods(h.goal)[0], a) && TableOf(pr, a, table)
    requires NoConflict(a) && Terminals(w)
    ensures Accepts(h, a, table, w) <==> Sentence(g, g.goal, w)
  {
    hide IsPatched, Numbered, FirstKept, First.Closed, Finished, TableOf, NoConflict, Sentence, Complete;
    SameTokens(g, h, n);
    PatchedPlain(g, h, n);
    StillGoalFree(g, h, n);
    StillFirst(g, h, n);
    StillComplete(g, h, n, f, f');
    var start := h.Prods(h.goal)[0];
    assert start in h.Prods(h.goal) && h.Prods(h.goal) == [start];
    AcceptsExactly(h, f', start, pr, a, table, w);
    SameLanguage(g, h, n, g.goal, w);
  }
}
