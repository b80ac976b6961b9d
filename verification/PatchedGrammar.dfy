/** What `patch` leaves behind: a grammar without actions, with the same language. */
module PatchedGrammar {
  import opened Grammars
  import opened Symbols
  import opened First
  import opened Patch
  import LrList
  import LrKernel

  // ------------------------------------------------------------- the patched grammar

  /** `h` is `g` after all nonterminals have been patched; `n` productions were numbered. */
  ghost predicate IsPatched(g: Grammar, h: Grammar, n: nat) {
    && h.currTerm == g.currTerm && h.goal == g.goal && g.currNonterm <= h.currNonterm <= MAXNONTERM
    && (forall x | x <= g.currNonterm :: PatchedChain(g.currNonterm, h.currNonterm, g.Prods(x), h.Prods(x)))
    && (forall x, p | x <= g.currNonterm && p in h.Prods(x) :: NoActs(p.rhs))
    && (forall x | g.currNonterm < x <= h.currNonterm :: h.Prods(x) == [Production(n + (x - g.currNonterm - 1), x, [])])
    && (forall x | x > h.currNonterm :: h.Prods(x) == [])
    && (forall x :: x in h.symtab <==> (x in g.symtab && !IsAct(x)) || g.currNonterm < x <= h.currNonterm)
    && (forall x :: x in h.chains <==> x in g.chains || g.currNonterm < x <= h.currNonterm)
  }

  /** The FIRST sets of the old grammar, and EPSILON for each new nonterminal. */
  ghost predicate FirstKept(g: Grammar, h: Grammar, f: Sets, f': Sets) {
    forall x :: At(f', x) == if g.currNonterm < x <= h.currNonterm then {g.Epsilon()} else At(f, x)
  }

  lemma PatchedProd(g: Grammar, h: Grammar, n: nat, x: Symbol, q: Production) returns (p: Production)
    requires g.Valid() && IsPatched(g, h, n) && x <= g.currNonterm && q in h.Prods(x)
    ensures p in g.Prods(x) && Patched(g.currNonterm, h.currNonterm, p, q) && NoActs(q.rhs)
  {
    hide Grammar.Valid, Strip;
    assert PatchedChain(g.currNonterm, h.currNonterm, g.Prods(x), h.Prods(x));
    var i :| 0 <= i < |h.Prods(x)| && h.Prods(x)[i] == q;
    p := g.Prods(x)[i];
    assert Patched(g.currNonterm, h.currNonterm, p, q);
  }

  /** Every production of the old grammar has a patched one. */
  lemma PatchOf(g: Grammar, h: Grammar, n: nat, x: Symbol, p: Production) returns (q: Production)
    requires IsPatched(g, h, n) && x <= g.currNonterm && p in g.Prods(x)
    ensures q in h.Prods(x) && Patched(g.currNonterm, h.currNonterm, p, q) && NoActs(q.rhs)
  {
    hide Strip;
    assert PatchedChain(g.currNonterm, h.currNonterm, g.Prods(x), h.Prods(x));
    var i :| 0 <= i < |g.Prods(x)| && g.Prods(x)[i] == p;
    q := h.Prods(x)[i];
    assert Patched(g.currNonterm, h.currNonterm, p, q);
  }

  lemma OldNonterm(g: Grammar, x: Symbol, p: Production)
    requires g.Valid() && p in g.Prods(x)
    ensures IsNonterm(x) && x <= g.currNonterm && p.lhs == x && forall s | s in p.rhs :: IsAct(s) || s <= g.currNonterm
    ensures forall s | s in p.rhs :: g.ValidSymbol(s)
  {
    assert g.ValidProduction(x, p) && g.ValidSymbol(x);
    forall s | s in p.rhs ensures g.ValidSymbol(s) {
    }
  }

  /** Old and new productions correspond, silent symbols apart. */
  lemma BothFollow(g: Grammar, h: Grammar, n: nat)
    requires g.Valid() && IsPatched(g, h, n)
    ensures Follows(g, h, g.currNonterm) && Follows(h, g, g.currNonterm)
  {
    hide HasCounterpart, SilentOnly, IsPatched, Grammar.Valid, Follows;
    BothSilent(g, h, n);
    forall x, p | IsNonterm(x) && x <= g.currNonterm && p in g.Prods(x)
      ensures p.lhs == x && HasCounterpart(h, g.currNonterm, p)
    {
      Forward(g, h, n, x, p);
    }
    forall x, q | IsNonterm(x) && x <= g.currNonterm && q in h.Prods(x)
      ensures q.lhs == x && HasCounterpart(g, g.currNonterm, q)
    {
      Backward(g, h, n, x, q);
    }
    FollowsBoth(g, h, g.currNonterm);
  }

  lemma FollowsBoth(g: Grammar, h: Grammar, last: int)
    requires SilentOnly(g, last) && SilentOnly(h, last)
    requires (forall x, p | p in g.Prods(x) :: IsNonterm(x)) && forall x, p | p in h.Prods(x) :: IsNonterm(x)
    requires forall x, p | IsNonterm(x) && x <= last && p in g.Prods(x) :: p.lhs == x && HasCounterpart(h, last, p)
    requires forall x, q | IsNonterm(x) && x <= last && q in h.Prods(x) :: q.lhs == x && HasCounterpart(g, last, q)
    ensures Follows(g, h, last) && Follows(h, g, last)
  {
    hide HasCounterpart, SilentOnly;
  }

  lemma BothSilent(g: Grammar, h: Grammar, n: nat)
    requires g.Valid() && IsPatched(g, h, n)
    ensures SilentOnly(g, g.currNonterm) && SilentOnly(h, g.currNonterm)
    ensures (forall x, p | p in g.Prods(x) :: IsNonterm(x)) && forall x, p | p in h.Prods(x) :: IsNonterm(x)
  {
    hide Strip, PatchedChain;
    forall x, p | p in g.Prods(x) ensures IsNonterm(x) && x <= g.currNonterm {
      OldNonterm(g, x, p);
    }
    forall x, p | p in h.Prods(x) ensures IsNonterm(x) {
      assert x in g.chains ==> IsNonterm(x);
    }
  }

  lemma Forward(g: Grammar, h: Grammar, n: nat, x: Symbol, p: Production)
    requires g.Valid() && IsPatched(g, h, n) && p in g.Prods(x)
    ensures IsNonterm(x) && x <= g.currNonterm && p.lhs == x && HasCounterpart(h, g.currNonterm, p)
  {
    hide Strip, PatchedChain, IsPatched, Counterpart;
    OldNonterm(g, x, p);
    var q := PatchOf(g, h, n, x, p);
    CounterpartIn(g, h, n, x, p, q);
  }

  lemma Backward(g: Grammar, h: Grammar, n: nat, x: Symbol, q: Production)
    requires g.Valid() && IsPatched(g, h, n) && IsNonterm(x) && x <= g.currNonterm && q in h.Prods(x)
    ensures q.lhs == x && HasCounterpart(g, g.currNonterm, q)
  {
    hide Strip, PatchedChain, IsPatched, Grammar.Valid, Droppable;
    var p := PatchedProd(g, h, n, x, q);
    OldNonterm(g, x, p);
    OldDroppable(g, p);
    assert Counterpart(g, g.currNonterm, q, p);
  }

  lemma CounterpartIn(g: Grammar, h: Grammar, n: nat, x: Symbol, p: Production, q: Production)
    requires g.Valid() && IsPatched(g, h, n) && p in g.Prods(x) && q in h.Prods(x)
    requires Patched(g.currNonterm, h.currNonterm, p, q) && NoActs(q.rhs)
    ensures Counterpart(h, g.currNonterm, p, q)
  {
    hide Grammar.Valid, Strip;
    OldNonterm(g, x, p);
    forall i | 0 <= i < |q.rhs| && Silent(g.currNonterm, q.rhs[i]) ensures h.Prods(q.rhs[i]) != [] {
      assert !IsAct(q.rhs[i]);
    }
  }

  lemma OldDroppable(g: Grammar, p: Production)
    requires g.Valid() && p in g.Prods(p.lhs)
    ensures Droppable(g, g.currNonterm, p.rhs)
  {
    OldNonterm(g, p.lhs, p);
    hide Grammar.Valid;
    forall i | 0 <= i < |p.rhs| && Silent(g.currNonterm, p.rhs[i]) ensures IsAct(p.rhs[i]) {
      assert p.rhs[i] in p.rhs;
    }
  }

  /** The terminal language of every original nonterminal is unchanged. */
  lemma SameLanguage(g: Grammar, h: Grammar, n: nat, x: Symbol, w: seq<Symbol>)
    requires g.Valid() && Numbered(g, n) && IsPatched(g, h, n) && IsNonterm(x) && x <= g.currNonterm
    ensures Sentence(g, x, w) <==> Sentence(h, x, w)
  {
    PatchedPlain(g, h, n);
    hide *;
    BothFollow(g, h, n);
    ValidHas(g);
    PlainProductions(h);
    SentenceIff(g, x, w);
    SentenceIff(h, x, w);
    if Sentence(g, x, w) {
      SentenceKept(g, h, g.currNonterm, x, w);
    }
    if Sentence(h, x, w) {
      SentenceKept(h, g, g.currNonterm, x, w);
    }
  }

  lemma SentenceKept(g: Grammar, h: Grammar, last: int, x: Symbol, w: seq<Symbol>)
    requires Follows(g, h, last) && IsNonterm(x) && x <= last && Produces(g, [x], w)
    ensures Produces(h, [x], w)
  {
    hide Follows, Leftmost, Strip;
    OneSymbol(h, last, x);
    var k: nat :| Leftmost(g, [x], w, k);
    var m := SameProducts(g, h, last, [x], [x], w, k);
  }

  lemma ValidHas(g: Grammar)
    requires g.Valid()
    ensures g.ValidProductions()
  {
  }

  lemma PlainProductions(h: Grammar)
    requires LrKernel.Plain(h)
    ensures h.ValidProductions()
  {
  }

  lemma OneSymbol(h: Grammar, last: int, x: Symbol)
    requires IsNonterm(x) && x <= last
    ensures Droppable(h, last, [x])
  {
  }

  lemma ProductionOk(g: Grammar, h: Grammar, n: nat, x: Symbol, q: Production)
    requires g.Valid() && IsPatched(g, h, n) && q in h.Prods(x)
    ensures h.ValidProduction(x, q) && NoActs(q.rhs)
  {
    hide PatchedChain, Strip;
    if x <= g.currNonterm {
      var p := PatchedProd(g, h, n, x, q);
      OldNonterm(g, x, p);
      forall s | s in q.rhs ensures h.ValidSymbol(s) {
        var i :| 0 <= i < |q.rhs| && q.rhs[i] == s;
        assert g.ValidSymbol(s) || g.currNonterm < s <= h.currNonterm;
      }
      assert g.ValidProduction(x, p);
    }
  }

  /** The number of a production of the old grammar is below `n`, that of a new nonterminal's
      says which nonterminal it is. */
  lemma NumberOf(g: Grammar, h: Grammar, n: nat, x: Symbol, q: Production)
    requires g.Valid() && Numbered(g, n) && IsPatched(g, h, n) && q in h.Prods(x)
    ensures x <= g.currNonterm ==> q.num < n
    ensures x > g.currNonterm ==> q == Production(n + (x - g.currNonterm - 1), x, [])
  {
    hide PatchedChain, Strip, Grammar.Valid;
    if x <= g.currNonterm {
      var p := PatchedProd(g, h, n, x, q);
    }
  }

  lemma NumberOnce(g: Grammar, h: Grammar, n: nat, x: Symbol, y: Symbol, p: Production, q: Production)
    requires g.Valid() && Numbered(g, n) && IsPatched(g, h, n) && p in h.Prods(x) && q in h.Prods(y) && p.num == q.num
    ensures p == q
  {
    NumberOf(g, h, n, x, p);
    NumberOf(g, h, n, y, q);
    if x <= g.currNonterm && y <= g.currNonterm {
      SameOld(g, h, n, x, y, p, q);
    }
  }

  lemma SameOld(g: Grammar, h: Grammar, n: nat, x: Symbol, y: Symbol, p: Production, q: Production)
    requires g.Valid() && Numbered(g, n) && IsPatched(g, h, n) && p in h.Prods(x) && q in h.Prods(y) && p.num == q.num
    requires x <= g.currNonterm && y <= g.currNonterm
    ensures p == q
  {
    hide Strip, Grammar.Valid;
    var i :| 0 <= i < |h.Prods(x)| && h.Prods(x)[i] == p;
    var j :| 0 <= j < |h.Prods(y)| && h.Prods(y)[j] == q;
    assert PatchedChain(g.currNonterm, h.currNonterm, g.Prods(x), h.Prods(x));
    assert PatchedChain(g.currNonterm, h.currNonterm, g.Prods(y), h.Prods(y));
    var c, d := g.Prods(x)[i], g.Prods(y)[j];
    assert Patched(g.currNonterm, h.currNonterm, c, p) && Patched(g.currNonterm, h.currNonterm, d, q);
    assert c in g.Prods(x) && d in g.Prods(y);
    SameNumber(g, x, y, c, d);
    assert x == y && i == j;
  }

  lemma SameNumber(g: Grammar, x: Symbol, y: Symbol, p: Production, q: Production)
    requires g.Valid() && p in g.Prods(x) && q in g.Prods(y) && p.num == q.num
    ensures p == q && x == y
  {
    LhsOf(g, x, p);
    LhsOf(g, y, q);
    hide Grammar.ValidProductions;
  }

  lemma LhsOf(g: Grammar, x: Symbol, p: Production)
    requires g.Valid() && p in g.Prods(x)
    ensures p.lhs == x
  {
    assert g.ValidProduction(x, p);
  }

  /** No action is left on any right-hand side, production numbers are unique, and the
      grammar is fit for the LALR(1) builder. */
  lemma PatchedPlain(g: Grammar, h: Grammar, n: nat)
    requires g.Valid() && Numbered(g, n) && IsPatched(g, h, n)
    ensures LrKernel.Plain(h)
  {
    hide Numbered, PatchedChain, NoActs, Grammar.ValidProduction, Grammar.ValidSymbol, Grammar.ValidString;
    forall x, q | q in h.Prods(x) ensures h.ValidProduction(x, q) && NoActs(q.rhs) {
      ProductionOk(g, h, n, x, q);
    }
    forall x, y, p, q | p in h.Prods(x) && q in h.Prods(y) && p.num == q.num ensures p == q {
      NumberOnce(g, h, n, x, y, p, q);
    }
    assert h.UniqueNumbers();
    forall x | x in h.chains ensures h.ValidSymbol(x) {
      SymbolOk(g, h, n, x);
    }
    SymtabOk(g, h, n);
    PlainIs(h);
  }

  lemma PlainIs(h: Grammar)
    requires h.currTerm <= MAXTERM && MINNONTERM - 1 <= h.currNonterm <= MAXNONTERM && IsNonterm(h.goal)
    requires h.ValidSymbol(h.goal) && h.ValidString(h.symtab) && h.UniqueNumbers()
    requires forall x | x in h.chains :: IsNonterm(x) && h.ValidSymbol(x)
    requires forall x, q | q in h.Prods(x) :: h.ValidProduction(x, q) && NoActs(q.rhs)
    ensures LrKernel.Plain(h)
  {
    hide Grammar.ValidProduction, Grammar.ValidSymbol, Grammar.ValidString, Grammar.UniqueNumbers;
    assert h.ValidProductions();
    forall x, p, k | p in h.Prods(x) && 0 <= k < |p.rhs| ensures !IsAct(p.rhs[k]) {
      assert NoActs(p.rhs);
    }
  }

  lemma SymtabOk(g: Grammar, h: Grammar, n: nat)
    requires g.Valid() && IsPatched(g, h, n)
    ensures h.ValidString(h.symtab) && h.ValidSymbol(h.goal)
  {
    forall x | x in h.symtab ensures h.ValidSymbol(x) {
      if x in g.symtab { assert g.ValidSymbol(x); }
    }
  }

  lemma SymbolOk(g: Grammar, h: Grammar, n: nat, x: Symbol)
    requires g.Valid() && IsPatched(g, h, n) && x in h.chains
    ensures h.ValidSymbol(x)
  {
  }

  // ------------------------------------------------------------------------ patch

  function WithoutActs(a: seq<Symbol>): (r: seq<Symbol>)
    ensures forall x :: x in r <==> x in a && !IsAct(x)
  {
    if a == [] then [] else
      var rest := WithoutActs(a[1..]);
      assert forall x :: x in a <==> x == a[0] || x in a[1..];
      if IsAct(a[0]) then rest else [a[0]] + rest
  }

  ghost predicate Done(d: Patcher, x: Symbol)
    reads d
  {
    IsNonterm(x) && x <= d.g.currNonterm ==> forall p | p in d.Prods(x) :: NoActs(p.rhs)
  }

  /** The nonterminals that are needed for the actions within the productions of `syms`. */
  function NewNonterms(g: Grammar, syms: seq<Symbol>): nat {
    if syms == [] then 0
    else
      var rest, x := syms[..|syms| - 1], syms[|syms| - 1];
      NewNonterms(g, rest) + if IsNonterm(x) && x <= g.currNonterm && x !in rest then ChainActs(g.Prods(x)) else 0
  }

  lemma {:induction false} NewNontermsGrow(g: Grammar, syms: seq<Symbol>, k: nat)
    requires k <= |syms|
    ensures NewNonterms(g, syms[..k]) <= NewNonterms(g, syms)
    decreases |syms|
  {
    if k == |syms| {
      assert syms[..k] == syms;
    } else {
      assert syms[..|syms| - 1][..k] == syms[..k];
      NewNontermsGrow(g, syms[..|syms| - 1], k);
    }
  }

  lemma {:induction false} NoActsCount(a: seq<Symbol>)
    requires NoActs(a)
    ensures CountActs(a) == 0
  {
    if a != [] { NoActsCount(a[..|a| - 1]); }
  }

  lemma {:induction false} DoneNeedsNone(c: seq<Production>)
    requires forall p | p in c :: NoActs(p.rhs)
    ensures ChainActs(c) == 0
  {
    if c != [] {
      var rhs := c[|c| - 1].rhs;
      assert c[|c| - 1] in c;
      if rhs != [] { NoActsCount(rhs[..|rhs| - 1]); }
      DoneNeedsNone(c[..|c| - 1]);
    }
  }

  /** patch: all nonterminals of the symbol table, in its order; it fails exactly if the
      actions need more nonterminals than there are. The FIRST sets are those of the grammar before. */
  method PatchAll(g: Grammar, n: nat, f: Sets) returns (ok: bool, h: Grammar, f': Sets)
    requires g.Valid() && Numbered(g, n) && forall x :: x > g.currNonterm ==> At(f, x) == {}
    ensures ok <==> g.currNonterm + NewNonterms(g, g.symtab) <= MAXNONTERM
    ensures ok ==> IsPatched(g, h, n) && h.currNonterm == g.currNonterm + NewNonterms(g, g.symtab)
    ensures ok ==> FirstKept(g, h, f, f')
  {
    hide Grammar.Valid, Numbered, Patcher.Valid, NoActs, ChainActs;
    h, f' := g, f;
    var d := new Patcher(g, n, f);
    for k := 0 to |g.symtab|
      invariant d.Valid() && d.g == g && d.num0 == n && d.first0 == f
      invariant forall j | 0 <= j < k :: Done(d, g.symtab[j])
      invariant d.currNonterm == g.currNonterm + NewNonterms(g, g.symtab[..k])
      invariant forall y | y <= g.currNonterm && y !in g.symtab[..k] :: d.Prods(y) == g.Prods(y)
    {
      label L:
      NewNontermsGrow(g, g.symtab, k + 1);
      NextNeeds(g, d, k);
      ok := d.DoPatch(g.symtab[k]);
      if !ok { return; }
      forall j | 0 <= j < k + 1 ensures Done(d, g.symtab[j]) {
        var y := g.symtab[j];
        if j < k && y != g.symtab[k] && IsNonterm(y) && y <= g.currNonterm {
          assert d.Prods(y) == old@L(d.Prods(y));
          assert old@L(Done(d, y));
        }
      }
    }
    ok := true;
    assert g.symtab[..|g.symtab|] == g.symtab;
    Grown(d);
    var symtab := WithoutActs(g.symtab) + seq(d.currNonterm - g.currNonterm, i => g.currNonterm + 1 + i);
    h := Grammar(g.currTerm, d.currNonterm, g.goal, symtab, d.chains);
    f' := d.first;
    AllPatched(g, h, n, d);
  }

  lemma NextNeeds(g: Grammar, d: Patcher, k: nat)
    requires d.g == g && k < |g.symtab| && forall j | 0 <= j < k :: Done(d, g.symtab[j])
    requires forall y | y <= g.currNonterm && y !in g.symtab[..k] :: d.Prods(y) == g.Prods(y)
    ensures NewNonterms(g, g.symtab[..k + 1]) == NewNonterms(g, g.symtab[..k]) + d.Needs(g.symtab[k])
    ensures g.symtab[..k + 1] == g.symtab[..k] + [g.symtab[k]]
  {
    hide NoActs, ChainActs;
    var x := g.symtab[k];
    assert g.symtab[..k + 1][..k] == g.symtab[..k];
    if IsNonterm(x) && x <= g.currNonterm && x in g.symtab[..k] {
      var j :| 0 <= j < k && g.symtab[j] == x;
      assert Done(d, g.symtab[j]);
      DoneNeedsNone(d.Prods(x));
    }
  }

  lemma Grown(d: Patcher)
    requires d.Valid()
    ensures d.currNonterm >= d.g.currNonterm
  {
  }

  lemma AllPatched(g: Grammar, h: Grammar, n: nat, d: Patcher)
    requires g.Valid() && d.Valid() && d.g == g && d.num0 == n && forall j | 0 <= j < |g.symtab| :: Done(d, g.symtab[j])
    requires h.currTerm == g.currTerm && h.currNonterm == d.currNonterm && h.goal == g.goal && h.chains == d.chains
    requires h.symtab == WithoutActs(g.symtab) + seq(d.currNonterm - g.currNonterm, i => g.currNonterm + 1 + i)
    ensures IsPatched(g, h, n)
    ensures FirstKept(g, h, d.first0, d.first)
  {
    hide PatchedChain, NoActs, Patched, Strip, Grammar.Valid;
    forall x ensures h.Prods(x) == d.Prods(x) {
    }
    forall x, p | x <= g.currNonterm && p in h.Prods(x) ensures NoActs(p.rhs) {
      NothingLeft(g, d, x, p);
    }
    forall x ensures x in h.symtab <==> (x in g.symtab && !IsAct(x)) || g.currNonterm < x <= h.currNonterm {
      NewSymbols(WithoutActs(g.symtab), d.currNonterm, g.currNonterm, x);
    }
    hide WithoutActs;
  }

  lemma NothingLeft(g: Grammar, d: Patcher, x: Symbol, p: Production)
    requires g.Valid() && d.Valid() && d.g == g && forall j | 0 <= j < |g.symtab| :: Done(d, g.symtab[j])
    requires x <= g.currNonterm && p in d.Prods(x)
    ensures NoActs(p.rhs)
  {
    hide NoActs, Patched, Strip;
    assert PatchedChain(g.currNonterm, d.currNonterm, g.Prods(x), d.Prods(x));
    var q := g.Prods(x)[0];
    assert q in g.Prods(x);
    OldNonterm(g, x, q);
    assert g.ValidProduction(x, q);
    var j :| 0 <= j < |g.symtab| && g.symtab[j] == x;
    assert Done(d, g.symtab[j]);
  }

  lemma NewSymbols(a: seq<Symbol>, top: int, last: int, x: Symbol)
    requires last <= top
    ensures x in a + seq(top - last, i => last + 1 + i) <==> x in a || last < x <= top
  {
    var b := seq(top - last, i => last + 1 + i);
    if last < x <= top {
      assert b[x - last - 1] == x;
    }
  }

  /** What the LALR(1) builder asks for still holds. */
  lemma StillGoalFree(g: Grammar, h: Grammar, n: nat)
    requires g.Valid() && IsPatched(g, h, n) && LrList.GoalFree(g)
    ensures LrList.GoalFree(h)
  {
    hide PatchedChain, Strip;
    assert g.goal <= g.currNonterm;
    forall x, q | q in h.Prods(x) ensures h.goal !in q.rhs {
      if x <= g.currNonterm {
        var p := PatchedProd(g, h, n, x, q);
        assert g.goal !in p.rhs;
      }
    }
  }

  lemma StillInRange(g: Grammar, h: Grammar, n: nat, f: Sets, f': Sets)
    requires IsPatched(g, h, n) && InRange(g, f)
    requires FirstKept(g, h, f, f')
    ensures InRange(h, f')
  {
    hide PatchedChain, Strip;
    assert h.Epsilon() == g.Epsilon();
    forall x, t | t in At(f', x) ensures 0 <= t <= h.Epsilon() {
    }
  }

  lemma NoSetsAbove(g: Grammar, f: Sets)
    requires g.Valid() && ForNonterminals(g, f)
    ensures forall x :: x > g.currNonterm ==> At(f, x) == {}
  {
    forall x | x in f ensures x <= g.currNonterm {
      assert x in g.symtab && IsNonterm(x);
      assert g.ValidSymbol(x);
    }
  }
}
