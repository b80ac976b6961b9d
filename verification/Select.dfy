/** LL(1) selection sets (compiler/parser/llselect.c). */
module Select {
  import opened Grammars
  import opened Symbols
  import opened First
  import opened FirstTheorems
  import opened Follow
  import opened FollowTheorems

  /** The tokens on which production `p` is to be applied. */
  function SelectOf(g: Grammar, f: Sets, w: Sets, p: Production): set<Symbol> {
    Scan(g, f, p.rhs) + (if AllNullable(g, f, p.rhs) then At(w, p.lhs) else {}) - {g.Epsilon()}
  }

  ghost predicate Selected(g: Grammar, f: Sets, w: Sets, select: map<nat, set<Symbol>>, x: Symbol) {
    forall p | p in g.Prods(x) :: p.num in select && select[p.num] == SelectOf(g, f, w, p)
  }

  method FindSelectSet(st: SymbolTable, lhs: Symbol)
    requires st.g.Valid()
    modifies st`select
    ensures Selected(st.g, st.first, st.follow, st.select, lhs)
    ensures forall x | old(Selected(st.g, st.first, st.follow, st.select, x)) ::
      Selected(st.g, st.first, st.follow, st.select, x)
  {
    var g := st.g;
    var chain := g.Prods(lhs);
    for k := 0 to |chain|
      invariant forall j | 0 <= j < k :: chain[j].num in st.select &&
                  st.select[chain[j].num] == SelectOf(g, st.first, st.follow, chain[j])
      invariant forall x | old(Selected(st.g, st.first, st.follow, st.select, x)) ::
        Selected(g, st.first, st.follow, st.select, x)
    {
      var p := chain[k];
      assert g.ValidProduction(lhs, p);
      var s, nullable := FirstRhs(st, {}, p.rhs);
      if nullable {
        s := s + At(st.follow, lhs);
      }
      s := s - {g.Epsilon()};
      assert s == SelectOf(g, st.first, st.follow, p);
      st.select := st.select[p.num := s];
    }
  }

  method LLSelect(st: SymbolTable)
    requires st.g.Valid()
    modifies st`select
    ensures forall x :: Selected(st.g, st.first, st.follow, st.select, x)
  {
    var g := st.g;
    for k := 0 to |g.symtab|
      invariant forall j | 0 <= j < k :: Selected(g, st.first, st.follow, st.select, g.symtab[j])
    {
      FindSelectSet(st, g.symtab[k]);
    }
    forall x ensures Selected(g, st.first, st.follow, st.select, x) {
      if x !in g.symtab {
        NoProductions(g, x);
      }
    }
  }

  /** Every selected token is a column of the parse table. */
  lemma SelectInRow(g: Grammar, f: Sets, w: Sets, x: Symbol, p: Production)
    requires g.Valid() && InRange(g, f) && InRange(g, w) && p in g.Prods(x)
    ensures forall t | t in SelectOf(g, f, NoEpsilon(g, w), p) :: 0 <= t <= g.currTerm
  {
    assert g.ValidProduction(x, p);
    ScanInRange(g, f, p.rhs);
    AtNoEpsilon(g, w, x);
  }

  /** SELECT misses nothing: when a parser that has x and `rest` still to produce
      wants production `p`, the next token (or end of input) is in SELECT(p). */
  lemma SelectIsComplete(g: Grammar, f: Sets, w: Sets, done: seq<Symbol>, x: Symbol, rest: seq<Symbol>, p: Production,
        input: seq<Symbol>, n: nat)
    requires g.Valid() && Closed(g, f) && FollowClosed(g, f, w)
    requires p in g.Prods(x) && Derives(g, [g.goal], done + [x] + rest)
    requires Leftmost(g, p.rhs + rest, input, n)
    requires forall t | t in input :: MINTERM <= t <= g.currTerm
    ensures (if input == [] then EOI else input[0]) in SelectOf(g, f, NoEpsilon(g, w), p)
  {
    var b := done + [x] + rest;
    assert g.ValidProduction(x, p);
    LeftmostFirst(g, f, p.rhs + rest, input, n);
    ScanConcat(g, f, p.rhs, rest);
    GoalFormsOk(g, f, w, b);
    assert FormOkAt(g, f, w, b, |done|);
    assert b[|done|] == x && b[|done| + 1..] == rest;
    AtNoEpsilon(g, w, x);
    if input != [] {
      assert input[0] in input;
    }
  }
}
