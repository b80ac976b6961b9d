/** FIRST sets (compiler/parser/first.c). */
module First {
  import opened Grammars
  import opened Symbols

  // ------------------------------------------------------------- specification

  predicate Nullable(g: Grammar, f: Sets, x: Symbol) {
    IsNonterm(x) && g.Epsilon() in At(f, x)
  }

  function FirstOfSymbol(f: Sets, x: Symbol): set<Symbol> {
    if IsTerm(x) then {x} else At(f, x)
  }

  /** What a left-to-right scan of `a` collects before it meets something that is
      not nullable. */
  function Scan(g: Grammar, f: Sets, a: seq<Symbol>): set<Symbol> {
    if a == [] then {}
    else if IsAct(a[0]) then Scan(g, f, a[1..])
    else FirstOfSymbol(f, a[0]) + if Nullable(g, f, a[0]) then Scan(g, f, a[1..]) else {}
  }

  predicate AllNullable(g: Grammar, f: Sets, a: seq<Symbol>) {
    forall x | x in a :: IsAct(x) || Nullable(g, f, x)
  }

  predicate HasNonAct(a: seq<Symbol>) {
    exists x | x in a :: !IsAct(x)
  }

  function ProdFirst(g: Grammar, f: Sets, p: Production): set<Symbol> {
    if HasNonAct(p.rhs) then Scan(g, f, p.rhs) else {g.Epsilon()}
  }

  function ChainFirst(g: Grammar, f: Sets, chain: seq<Production>): set<Symbol> {
    if chain == [] then {} else ProdFirst(g, f, chain[0]) + ChainFirst(g, f, chain[1..])
  }

  function FirstStep(g: Grammar, f: Sets, lhs: Symbol): Sets {
    if lhs in f then f[lhs := f[lhs] + ChainFirst(g, f, g.Prods(lhs))] else f
  }

  /** `f` satisfies both rules of the FIRST computation for every production. */
  ghost predicate Closed(g: Grammar, f: Sets) {
    forall x, p | p in g.Prods(x) :: ProdFirst(g, f, p) <= At(f, x)
  }

  ghost predicate Least(g: Grammar, f: Sets) {
    forall h | Closed(g, h) :: Leq(f, h)
  }

  // ------------------------------------------------------------------- lemmas

  lemma ScanConcat(g: Grammar, f: Sets, a: seq<Symbol>, b: seq<Symbol>)
    ensures Scan(g, f, a + b) == Scan(g, f, a) + if AllNullable(g, f, a) then Scan(g, f, b) else {}
    ensures AllNullable(g, f, a + b) <==> AllNullable(g, f, a) && AllNullable(g, f, b)
  {
    if a == [] {
      assert a + b == b;
    } else {
      assert (a + b)[1..] == a[1..] + b;
      ScanConcat(g, f, a[1..], b);
      assert a == [a[0]] + a[1..];
    }
  }

  lemma ScanMonotone(g: Grammar, f: Sets, h: Sets, a: seq<Symbol>)
    requires Leq(f, h)
    ensures Scan(g, f, a) <= Scan(g, h, a)
    ensures AllNullable(g, f, a) ==> AllNullable(g, h, a)
  {
    if a != [] {
      ScanMonotone(g, f, h, a[1..]);
      assert forall t | t in At(f, a[0]) :: t in At(h, a[0]);
    }
  }

  lemma {:induction false} ChainMember(g: Grammar, f: Sets, chain: seq<Production>, p: Production)
    requires p in chain
    ensures ProdFirst(g, f, p) <= ChainFirst(g, f, chain)
  {
    if p != chain[0] { ChainMember(g, f, chain[1..], p); }
  }

  lemma ChainBelow(g: Grammar, f: Sets, h: Sets, chain: seq<Production>, s: set<Symbol>)
    requires Leq(f, h) && forall p | p in chain :: ProdFirst(g, h, p) <= s
    ensures ChainFirst(g, f, chain) <= s
  {
    if chain != [] {
      ScanMonotone(g, f, h, chain[0].rhs);
      assert chain[0] in chain;
      ChainBelow(g, f, h, chain[1..], s);
    }
  }

  /** Applying the rules never leaves the sets that are closed under them. */
  lemma StepBelow(g: Grammar, f: Sets, h: Sets, lhs: Symbol)
    requires Closed(g, h) && Leq(f, h)
    ensures Leq(FirstStep(g, f, lhs), h)
  {
    ChainBelow(g, f, h, g.Prods(lhs), At(h, lhs));
  }

  lemma ScanInRange(g: Grammar, f: Sets, a: seq<Symbol>)
    requires g.currTerm <= MAXTERM && InRange(g, f) && g.ValidString(a)
    ensures forall t | t in Scan(g, f, a) :: 0 <= t <= g.Epsilon()
  {
    if a != [] {
      assert g.ValidSymbol(a[0]);
      ScanInRange(g, f, a[1..]);
    }
  }

  lemma ChainInRange(g: Grammar, f: Sets, chain: seq<Production>)
    requires g.currTerm <= MAXTERM && InRange(g, f) && forall p | p in chain :: g.ValidString(p.rhs)
    ensures forall t | t in ChainFirst(g, f, chain) :: 0 <= t <= g.Epsilon()
  {
    if chain != [] {
      assert chain[0] in chain;
      ScanInRange(g, f, chain[0].rhs);
      ChainInRange(g, f, chain[1..]);
    }
  }

  // --------------------------------------------------------------- operations

  /** Adds FIRST of a right-hand side to `dest`; says whether all of it is nullable. */
  method FirstRhs(st: SymbolTable, dest: set<Symbol>, rhs: seq<Symbol>) returns (d: set<Symbol>, nullable: bool)
    ensures d == dest + if rhs == [] then {st.g.Epsilon()} else Scan(st.g, st.first, rhs)
    ensures nullable == AllNullable(st.g, st.first, rhs)
  {
    d := dest;
    if |rhs| <= 0 {
      return d + {st.g.Epsilon()}, true;
    }
    var i := 0;
    while i < |rhs|
      invariant 0 <= i <= |rhs|
      invariant d + Scan(st.g, st.first, rhs[i..]) == dest + Scan(st.g, st.first, rhs)
      invariant AllNullable(st.g, st.first, rhs[..i])
    {
      assert rhs[i..][1..] == rhs[i + 1..];
      assert rhs[..i + 1] == rhs[..i] + [rhs[i]];
      if !IsAct(rhs[i]) {
        d := d + FirstOfSymbol(st.first, rhs[i]);
        if !Nullable(st.g, st.first, rhs[i]) { break; }
      }
      i := i + 1;
    }
    nullable := i == |rhs|;
    assert i < |rhs| ==> rhs[i] in rhs;
    assert rhs[..|rhs|] == rhs;
  }

  /** One visit of `first_closure` to a symbol: apply the rules to its productions. */
  method FirstClosure(st: SymbolTable, lhs: Symbol) returns (did: bool)
    requires ForNonterminals(st.g, st.first) && lhs in st.g.symtab
    modifies st`first
    ensures st.first == FirstStep(st.g, old(st.first), lhs)
    ensures did <==> st.first != old(st.first)
  {
    if !IsNonterm(lhs) { return false; }
    var s := st.first[lhs];
    var chain := st.g.Prods(lhs);
    for k := 0 to |chain|
      invariant st.first == old(st.first)
      invariant s + ChainFirst(st.g, st.first, chain[k..]) == st.first[lhs] + ChainFirst(st.g, st.first, chain)
    {
      assert chain[k..][1..] == chain[k + 1..];
      if !HasNonAct(chain[k].rhs) {
        s := s + {st.g.Epsilon()};
      } else {
        s := ScanRhs(st, s, chain[k].rhs);
      }
    }
    assert s == st.first[lhs] + ChainFirst(st.g, st.first, chain) by {
      assert chain[|chain|..] == [];
    }
    did := s != st.first[lhs];
    if did {
      st.first := st.first[lhs := s];
    } else {
      assert st.first[lhs := s] == st.first;
    }
    assert st.first == old(st.first)[lhs := s];
  }

  /** The inner loop of `first_closure`. */
  method ScanRhs(st: SymbolTable, dest: set<Symbol>, rhs: seq<Symbol>) returns (s: set<Symbol>)
    ensures s == dest + Scan(st.g, st.first, rhs)
  {
    s := dest;
    var i := 0;
    while i < |rhs|
      invariant 0 <= i <= |rhs|
      invariant s + Scan(st.g, st.first, rhs[i..]) == dest + Scan(st.g, st.first, rhs)
    {
      assert rhs[i..][1..] == rhs[i + 1..];
      if !IsAct(rhs[i]) {
        s := s + FirstOfSymbol(st.first, rhs[i]);
        if !Nullable(st.g, st.first, rhs[i]) { break; }
      }
      i := i + 1;
    }
  }

  /** The whole computation: passes over the symbol table until nothing changes. */
  method ComputeFirst(st: SymbolTable)
    requires st.g.Valid() && ForNonterminals(st.g, st.first) && forall x :: At(st.first, x) == {}
    modifies st`first
    ensures ForNonterminals(st.g, st.first) && InRange(st.g, st.first)
    ensures Closed(st.g, st.first) && Least(st.g, st.first)
  {
    var did := true;
    while did
      invariant ForNonterminals(st.g, st.first) && InRange(st.g, st.first) && Least(st.g, st.first)
      invariant !did ==> Closed(st.g, st.first)
      decreases Missing(st.g, st.first), did
    {
      did := Pass(st);
    }
  }

  /** One pass of `first` over the symbol table. */
  method Pass(st: SymbolTable) returns (did: bool)
    requires st.g.Valid() && ForNonterminals(st.g, st.first) && InRange(st.g, st.first) && Least(st.g, st.first)
    modifies st`first
    ensures ForNonterminals(st.g, st.first) && InRange(st.g, st.first) && Least(st.g, st.first)
    ensures did ==> Missing(st.g, st.first) < Missing(st.g, old(st.first))
    ensures !did ==> st.first == old(st.first) && Closed(st.g, st.first)
  {
    hide Grammar.Valid, InRange, Least, Closed, Missing, ForNonterminals, ChainFirst;
    did := false;
    var g := st.g;
    for k := 0 to |g.symtab|
      invariant ForNonterminals(g, st.first) && InRange(g, st.first) && Least(g, st.first)
      invariant did ==> Missing(g, st.first) < Missing(g, old(st.first))
      invariant !did ==> st.first == old(st.first)
      invariant !did ==>
        forall j | 0 <= j < k :: ChainFirst(g, st.first, g.Prods(g.symtab[j])) <= At(st.first, g.symtab[j])
    {
      ghost var before := st.first;
      var lhs := g.symtab[k];
      var changed := FirstClosure(st, lhs);
      StepKeeps(g, before, lhs);
      did := did || changed;
    }
    if !did {
      ChainsClosed(g, st.first);
    }
  }

  lemma ChainsClosed(g: Grammar, f: Sets)
    requires g.Valid() && forall x | x in g.symtab :: ChainFirst(g, f, g.Prods(x)) <= At(f, x)
    ensures Closed(g, f)
  {
    forall x, p | p in g.Prods(x)
      ensures ProdFirst(g, f, p) <= At(f, x)
    {
      assert g.ValidProduction(x, p) && x in g.symtab;
      ChainMember(g, f, g.Prods(x), p);
    }
  }

  lemma StepKeeps(g: Grammar, f: Sets, lhs: Symbol)
    requires g.Valid() && ForNonterminals(g, f) && InRange(g, f) && Least(g, f) && lhs in g.symtab
    ensures var h := FirstStep(g, f, lhs);
      && ForNonterminals(g, h) && InRange(g, h) && Least(g, h) && Leq(f, h)
      && Missing(g, h) <= Missing(g, f)
      && (h != f ==> Missing(g, h) < Missing(g, f))
      && (h == f ==> ChainFirst(g, f, g.Prods(lhs)) <= At(f, lhs))
  {
    var h := FirstStep(g, f, lhs);
    forall p | p in g.Prods(lhs) ensures g.ValidString(p.rhs) {
      assert g.ValidProduction(lhs, p);
    }
    ChainInRange(g, f, g.Prods(lhs));
    assert InRange(g, h) by {
      forall x, t | t in At(h, x) ensures 0 <= t <= g.Epsilon() {
        assert x != lhs ==> t in At(f, x);
        assert x == lhs ==> t in At(f, x) || t in ChainFirst(g, f, g.Prods(lhs));
      }
    }
    forall k | Closed(g, k) ensures Leq(h, k) {
      StepBelow(g, f, k, lhs);
    }
    MissingShrinks(g, f, h);
    if lhs in f {
      if h[lhs] == f[lhs] {
        assert h == f;
      } else {
        var t :| t in h[lhs] && t !in f[lhs];
        assert t !in At(f, lhs) && t in At(h, lhs);
      }
    }
  }
}
