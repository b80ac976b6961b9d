/** Grammars as LLAMA and OCCS hold them in the symbol table, and what it means
    for a string of symbols to be derived from another.

    Symbols are the integers of parser.h: end of input is 0, terminals start at
    1, nonterminals at 256 and embedded actions at 512. */
module Grammars {

  type Symbol = int

  const EOI: Symbol := 0
  const MINTERM: Symbol := 1
  const MAXTERM: Symbol := 254
  const MINNONTERM: Symbol := 256
  const MAXNONTERM: Symbol := 511
  const MINACT: Symbol := 512
  const MAXRHS: nat := 31

  predicate IsTerm(x: Symbol) { MINTERM <= x <= MAXTERM }
  predicate IsNonterm(x: Symbol) { MINNONTERM <= x <= MAXNONTERM }
  predicate IsAct(x: Symbol) { MINACT <= x }

  datatype Production = Production(num: nat, lhs: Symbol, rhs: seq<Symbol>)

  /** `symtab` is the order in which the symbol table is walked; `chains` holds
      each nonterminal's linked list of productions. */
  datatype Grammar = Grammar(
    currTerm: nat,
    currNonterm: int,
    goal: Symbol,
    symtab: seq<Symbol>,
    chains: map<Symbol, seq<Production>>)
  {
    /** The pseudo terminal that stands for the empty string in FIRST sets. */
    function Epsilon(): Symbol { currTerm + 1 }

    function Prods(x: Symbol): seq<Production> {
      if x in chains then chains[x] else []
    }

    predicate ValidSymbol(x: Symbol) {
      || MINTERM <= x <= currTerm
      || (MINNONTERM <= x <= currNonterm && x in symtab)
      || IsAct(x)
    }

    predicate ValidString(a: seq<Symbol>) {
      forall x | x in a :: ValidSymbol(x)
    }

    predicate ValidProduction(x: Symbol, p: Production) {
      IsNonterm(x) && ValidSymbol(x) && p.lhs == x && |p.rhs| <= MAXRHS && ValidString(p.rhs)
    }

    ghost predicate ValidProductions() {
      && (forall x | x in chains :: IsNonterm(x) && ValidSymbol(x))
      && (forall x, p | p in Prods(x) :: ValidProduction(x, p))
    }

    /** No two productions share a number. */
    ghost predicate UniqueNumbers() {
      forall x, y, p, q | p in Prods(x) && q in Prods(y) && p.num == q.num :: p == q
    }

    /** The symbol table holds a symbol once. */
    ghost predicate DistinctSymbols() {
      forall i, j | 0 <= i < j < |symtab| :: symtab[i] != symtab[j]
    }

    ghost predicate Valid() {
      && currTerm <= MAXTERM
      && MINNONTERM - 1 <= currNonterm <= MAXNONTERM
      && IsNonterm(goal) && ValidSymbol(goal)
      && ValidString(symtab)
      && ValidProductions()
      && UniqueNumbers()
    }
  }

  // ------------------------------------------------------------ derivations

  /** The string obtained by replacing the nonterminal at `i` by a right-hand side. */
  function Expand(a: seq<Symbol>, i: nat, rhs: seq<Symbol>): seq<Symbol>
    requires i < |a|
  {
    a[..i] + rhs + a[i + 1..]
  }

  ghost predicate StepAt(g: Grammar, a: seq<Symbol>, i: nat, p: Production, b: seq<Symbol>) {
    i < |a| && p in g.Prods(a[i]) && b == Expand(a, i, p.rhs)
  }

  ghost predicate Step(g: Grammar, a: seq<Symbol>, b: seq<Symbol>) {
    exists i: nat, p :: StepAt(g, a, i, p, b)
  }

  /** `a` derives `b` in exactly `n` steps, in any order. */
  ghost predicate DerivesIn(g: Grammar, a: seq<Symbol>, b: seq<Symbol>, n: nat)
    decreases n
  {
    if n == 0 then a == b
    else exists c :: DerivesIn(g, a, c, n - 1) && Step(g, c, b)
  }

  ghost predicate Derives(g: Grammar, a: seq<Symbol>, b: seq<Symbol>) {
    exists n: nat :: DerivesIn(g, a, b, n)
  }

  /** Embedded actions do not count as part of a sentential form's text. */
  function Erase(a: seq<Symbol>): seq<Symbol> {
    if a == [] then []
    else if IsAct(a[0]) then Erase(a[1..])
    else [a[0]] + Erase(a[1..])
  }

  /** Nothing left to expand. */
  predicate Ground(a: seq<Symbol>) {
    forall x | x in a :: IsTerm(x) || IsAct(x)
  }

  /** `w` is a string of terminals generated by nonterminal `x`. */
  ghost predicate Sentence(g: Grammar, x: Symbol, w: seq<Symbol>) {
    exists b :: Ground(b) && Derives(g, [x], b) && Erase(b) == w
  }

  lemma DerivesRefl(g: Grammar, a: seq<Symbol>)
    ensures Derives(g, a, a)
  {
    assert DerivesIn(g, a, a, 0);
  }

  lemma DerivesStep(g: Grammar, a: seq<Symbol>, b: seq<Symbol>, c: seq<Symbol>)
    requires Derives(g, a, b) && Step(g, b, c)
    ensures Derives(g, a, c)
  {
    var n: nat :| DerivesIn(g, a, b, n);
    assert DerivesIn(g, a, c, n + 1);
  }

  lemma EraseConcat(a: seq<Symbol>, b: seq<Symbol>)
    ensures Erase(a + b) == Erase(a) + Erase(b)
  {
    if a == [] {
      assert a + b == b;
    } else {
      assert (a + b)[1..] == a[1..] + b;
      EraseConcat(a[1..], b);
    }
  }

  /** Only valid symbols are derived from valid symbols. */
  lemma {:induction false} DerivesValid(g: Grammar, a: seq<Symbol>, b: seq<Symbol>, n: nat)
    requires g.ValidProductions() && g.ValidString(a) && DerivesIn(g, a, b, n)
    ensures g.ValidString(b)
    decreases n
  {
    if n != 0 {
      var c :| DerivesIn(g, a, c, n - 1) && Step(g, c, b);
      DerivesValid(g, a, c, n - 1);
    }
  }

  // ------------------------------------------------ leftmost, one symbol at a time

  /** The string `a` (top of a parse stack first) produces the terminals `w` in
      `n` moves, each of which drops a leading action, matches a leading terminal
      or expands a leading nonterminal. */
  ghost predicate Leftmost(g: Grammar, a: seq<Symbol>, w: seq<Symbol>, n: nat)
    decreases n
  {
    if a == [] then n == 0 && w == []
    else if n == 0 then false
    else if IsAct(a[0]) then Leftmost(g, a[1..], w, n - 1)
    else if IsTerm(a[0]) then w != [] && w[0] == a[0] && Leftmost(g, a[1..], w[1..], n - 1)
    else exists p :: p in g.Prods(a[0]) && Leftmost(g, p.rhs + a[1..], w, n - 1)
  }

  ghost predicate Produces(g: Grammar, a: seq<Symbol>, w: seq<Symbol>) {
    exists n: nat :: Leftmost(g, a, w, n)
  }

  lemma GroundLeftmost(g: Grammar, b: seq<Symbol>)
    requires Ground(b)
    ensures Leftmost(g, b, Erase(b), |b|)
  {
    if b != [] {
      GroundLeftmost(g, b[1..]);
    }
  }

  /** Undoing a derivation step anywhere in the string keeps it producing `w`. */
  lemma {:induction false} LeftmostBefore(g: Grammar, a: seq<Symbol>, i: nat, p: Production, w: seq<Symbol>, n: nat)
    returns (m: nat)
    requires g.ValidProductions() && i < |a| && p in g.Prods(a[i])
    requires Leftmost(g, Expand(a, i, p.rhs), w, n)
    ensures Leftmost(g, a, w, m)
    decreases n
  {
    hide Expand;
    var c := Expand(a, i, p.rhs);
    ExpandFront(a, i, p.rhs);
    if i == 0 {
      m := n + 1;
    } else {
      if IsAct(a[0]) {
        m := LeftmostBefore(g, a[1..], i - 1, p, w, n - 1);
        assert Leftmost(g, a, w, m + 1);
      } else if IsTerm(a[0]) {
        m := LeftmostBefore(g, a[1..], i - 1, p, w[1..], n - 1);
        assert Leftmost(g, a, w, m + 1);
      } else {
        var q :| q in g.Prods(a[0]) && Leftmost(g, q.rhs + c[1..], w, n - 1);
        ExpandBehind(q.rhs, a[1..], i - 1, p.rhs);
        m := LeftmostBefore(g, q.rhs + a[1..], |q.rhs| + i - 1, p, w, n - 1);
        assert Leftmost(g, q.rhs + a[1..], w, m);
      }
      m := m + 1;
    }
  }

  lemma ExpandFront(a: seq<Symbol>, i: nat, rhs: seq<Symbol>)
    requires i < |a|
    ensures i == 0 ==> Expand(a, i, rhs) == rhs + a[1..]
    ensures i > 0 ==>
      var c := Expand(a, i, rhs); c != [] && c[0] == a[0] && c[1..] == Expand(a[1..], i - 1, rhs)
  {
  }

  lemma ExpandBehind(u: seq<Symbol>, a: seq<Symbol>, i: nat, rhs: seq<Symbol>)
    requires i < |a|
    ensures Expand(u + a, |u| + i, rhs) == u + Expand(a, i, rhs) && (u + a)[|u| + i] == a[i]
  {
  }

  /** Whatever order a sentence is derived in, it also has a leftmost derivation. */
  lemma {:induction false} DerivesLeftmost(g: Grammar, a: seq<Symbol>, b: seq<Symbol>, k: nat, w: seq<Symbol>, n: nat)
    returns (m: nat)
    requires g.ValidProductions() && DerivesIn(g, a, b, k) && Leftmost(g, b, w, n)
    ensures Leftmost(g, a, w, m)
    decreases k
  {
    if k == 0 {
      m := n;
    } else {
      var c :| DerivesIn(g, a, c, k - 1) && Step(g, c, b);
      var i: nat, p :| StepAt(g, c, i, p, b);
      var n' := LeftmostBefore(g, c, i, p, w, n);
      m := DerivesLeftmost(g, a, c, k - 1, w, n');
    }
  }

  lemma SentenceLeftmost(g: Grammar, x: Symbol, w: seq<Symbol>) returns (n: nat)
    requires g.ValidProductions() && Sentence(g, x, w)
    ensures Leftmost(g, [x], w, n)
  {
    var b :| Ground(b) && Derives(g, [x], b) && Erase(b) == w;
    var k: nat :| DerivesIn(g, [x], b, k);
    GroundLeftmost(g, b);
    n := DerivesLeftmost(g, [x], b, k, w, |b|);
  }

  // ---------------------------------------------- sentences and leftmost derivations

  lemma {:induction false} StepFirst(g: Grammar, a: seq<Symbol>, c: seq<Symbol>, b: seq<Symbol>, n: nat)
    requires Step(g, a, c) && DerivesIn(g, c, b, n)
    ensures DerivesIn(g, a, b, n + 1)
    decreases n
  {
    hide Step;
    if n == 0 {
      assert DerivesIn(g, a, a, 0);
    } else {
      var d :| DerivesIn(g, c, d, n - 1) && Step(g, d, b);
      StepFirst(g, a, c, d, n - 1);
    }
  }

  lemma {:induction false} BehindPrefix(g: Grammar, u: seq<Symbol>, a: seq<Symbol>, b: seq<Symbol>, n: nat)
    requires DerivesIn(g, a, b, n)
    ensures DerivesIn(g, u + a, u + b, n)
    decreases n
  {
    if n > 0 {
      var d :| DerivesIn(g, a, d, n - 1) && Step(g, d, b);
      BehindPrefix(g, u, a, d, n - 1);
      StepBehind(g, u, d, b);
    }
  }

  lemma StepBehind(g: Grammar, u: seq<Symbol>, a: seq<Symbol>, b: seq<Symbol>)
    requires Step(g, a, b)
    ensures Step(g, u + a, u + b)
  {
    var i: nat, p :| StepAt(g, a, i, p, b);
    assert (u + a)[|u| + i] == a[i];
    assert u + b == Expand(u + a, |u| + i, p.rhs);
    assert StepAt(g, u + a, |u| + i, p, u + b);
  }

  /** A string that produces `w` by leftmost moves derives a ground string with that text. */
  lemma {:induction false} LeftmostDerives(g: Grammar, a: seq<Symbol>, w: seq<Symbol>, n: nat)
    returns (b: seq<Symbol>, k: nat)
    requires Leftmost(g, a, w, n)
    ensures Ground(b) && DerivesIn(g, a, b, k) && Erase(b) == w
    decreases n
  {
    hide DerivesIn, Step;
    if a == [] {
      b, k := [], 0;
      DerivesNone(g, a);
    } else if IsAct(a[0]) || IsTerm(a[0]) {
      b, k := LeftmostDerives(g, a[1..], if IsAct(a[0]) then w else w[1..], n - 1);
      BehindPrefix(g, [a[0]], a[1..], b, k);
      assert a == [a[0]] + a[1..];
      InFront(a[0], b);
      b := [a[0]] + b;
    } else {
      var p :| p in g.Prods(a[0]) && Leftmost(g, p.rhs + a[1..], w, n - 1);
      b, k := LeftmostDerives(g, p.rhs + a[1..], w, n - 1);
      ExpandFirst(g, a, p);
      StepFirst(g, a, p.rhs + a[1..], b, k);
      k := k + 1;
    }
  }

  lemma DerivesNone(g: Grammar, a: seq<Symbol>)
    ensures DerivesIn(g, a, a, 0)
  {
  }

  lemma InFront(x: Symbol, b: seq<Symbol>)
    requires Ground(b) && (IsTerm(x) || IsAct(x))
    ensures Ground([x] + b) && Erase([x] + b) == (if IsAct(x) then [] else [x]) + Erase(b)
  {
    assert ([x] + b)[1..] == b;
  }

  lemma ExpandFirst(g: Grammar, a: seq<Symbol>, p: Production)
    requires a != [] && p in g.Prods(a[0])
    ensures Step(g, a, p.rhs + a[1..])
  {
    assert Expand(a, 0, p.rhs) == p.rhs + a[1..];
    assert StepAt(g, a, 0, p, p.rhs + a[1..]);
  }

  /** The sentences of a nonterminal are what it produces leftmost. */
  lemma SentenceIff(g: Grammar, x: Symbol, w: seq<Symbol>)
    requires g.ValidProductions()
    ensures Sentence(g, x, w) <==> Produces(g, [x], w)
  {
    hide Leftmost, DerivesIn, Ground, Erase, Grammar.ValidProductions;
    if Sentence(g, x, w) {
      var n := SentenceLeftmost(g, x, w);
      assert Leftmost(g, [x], w, n);
    }
    if n: nat :| Leftmost(g, [x], w, n) {
      var b, k := LeftmostDerives(g, [x], w, n);
      assert DerivesIn(g, [x], b, k);
      assert Derives(g, [x], b);
    }
  }

  // ---------------------------------------------------------- concatenation

  lemma {:induction false} LeftmostJoin(g: Grammar, a: seq<Symbol>, u: seq<Symbol>, k: nat, b: seq<Symbol>,
        v: seq<Symbol>, n: nat)
    requires Leftmost(g, a, u, k) && Leftmost(g, b, v, n)
    ensures Leftmost(g, a + b, u + v, k + n)
    decreases k
  {
    if a == [] {
      assert a + b == b && u + v == v;
    } else if IsAct(a[0]) {
      assert (a + b)[1..] == a[1..] + b;
      LeftmostJoin(g, a[1..], u, k - 1, b, v, n);
    } else if IsTerm(a[0]) {
      assert (a + b)[1..] == a[1..] + b && (u + v)[1..] == u[1..] + v;
      LeftmostJoin(g, a[1..], u[1..], k - 1, b, v, n);
    } else {
      var p :| p in g.Prods(a[0]) && Leftmost(g, p.rhs + a[1..], u, k - 1);
      LeftmostJoin(g, p.rhs + a[1..], u, k - 1, b, v, n);
      assert p.rhs + (a + b)[1..] == p.rhs + a[1..] + b;
    }
  }

  lemma {:induction false} LeftmostSplit(g: Grammar, a: seq<Symbol>, b: seq<Symbol>, w: seq<Symbol>, n: nat)
    returns (i: nat, k: nat)
    requires Leftmost(g, a + b, w, n)
    ensures i <= |w| && k <= n && Leftmost(g, a, w[..i], k) && Leftmost(g, b, w[i..], n - k)
    decreases n
  {
    if a == [] {
      assert a + b == b && w[0..] == w;
      i, k := 0, 0;
    } else if IsAct(a[0]) {
      assert (a + b)[1..] == a[1..] + b;
      i, k := LeftmostSplit(g, a[1..], b, w, n - 1);
      k := k + 1;
    } else if IsTerm(a[0]) {
      assert (a + b)[1..] == a[1..] + b;
      i, k := LeftmostSplit(g, a[1..], b, w[1..], n - 1);
      assert w[..i + 1][1..] == w[1..][..i] && w[i + 1..] == w[1..][i..];
      i, k := i + 1, k + 1;
    } else {
      var p :| p in g.Prods(a[0]) && Leftmost(g, p.rhs + (a + b)[1..], w, n - 1);
      assert p.rhs + (a + b)[1..] == p.rhs + a[1..] + b;
      i, k := LeftmostSplit(g, p.rhs + a[1..], b, w, n - 1);
      k := k + 1;
    }
  }
}
