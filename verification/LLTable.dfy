/** The LL(1) parse table and the push table (compiler/parser/llcode.c). */
module LLTable {
  import opened Grammars
  import opened Symbols

  type Selects = map<nat, set<Symbol>>

  function Tokens(select: Selects, p: Production): set<Symbol> {
    if p.num in select then select[p.num] else {}
  }

  /** Columns: end of input and every terminal. */
  function NTerms(g: Grammar): nat { g.currTerm + 1 }

  /** The number of the first production of `chain` that is selected by `t`, or -1. */
  function EntryOf(select: Selects, chain: seq<Production>, t: Symbol): int {
    if chain == [] then -1
    else
      var e := EntryOf(select, chain[..|chain| - 1], t);
      var p := chain[|chain| - 1];
      if e != -1 then e else if t in Tokens(select, p) then p.num else -1
  }

  /** Two productions of the chain are selected by the same token. */
  ghost predicate Clash(select: Selects, chain: seq<Production>) {
    exists i, j, t | 0 <= i < j < |chain| :: t in Tokens(select, chain[i]) && t in Tokens(select, chain[j])
  }

  ghost predicate ConflictFree(g: Grammar, select: Selects) {
    forall x :: !Clash(select, g.Prods(x))
  }

  /** Production `i` is the first of the chain that the token selects. */
  ghost predicate FirstSelected(select: Selects, chain: seq<Production>, t: Symbol, i: nat) {
    i < |chain| && t in Tokens(select, chain[i]) && forall j | 0 <= j < i :: t !in Tokens(select, chain[j])
  }

  /** The entry is the first production that the token selects, if there is one. */
  lemma {:induction false} EntryFound(select: Selects, chain: seq<Production>, t: Symbol)
    ensures EntryOf(select, chain, t) == -1 <==> forall i | 0 <= i < |chain| :: t !in Tokens(select, chain[i])
    ensures forall i: nat | FirstSelected(select, chain, t, i) :: EntryOf(select, chain, t) == chain[i].num
    ensures EntryOf(select, chain, t) != -1 ==>
              exists i | 0 <= i < |chain| :: EntryOf(select, chain, t) == chain[i].num && t in Tokens(select, chain[i])
  {
    if chain != [] {
      var init := chain[..|chain| - 1];
      EntryFound(select, init, t);
      assert forall j | 0 <= j < |init| :: chain[j] == init[j];
      forall i: nat | FirstSelected(select, chain, t, i) ensures EntryOf(select, chain, t) == chain[i].num {
        if i < |init| { assert FirstSelected(select, init, t, i); }
      }
    }
  }

  /** Without a clash the entry is the one production the token selects. */
  lemma EntryUnique(select: Selects, chain: seq<Production>, p: Production, t: Symbol)
    requires !Clash(select, chain) && p in chain && t in Tokens(select, p)
    ensures EntryOf(select, chain, t) == p.num
  {
    EntryFound(select, chain, t);
    var i :| 0 <= i < |chain| && EntryOf(select, chain, t) == chain[i].num && t in Tokens(select, chain[i]);
    var j :| 0 <= j < |chain| && chain[j] == p;
  }

  // --------------------------------------------------------------- the table

  /** The table has one row for each nonterminal and one column for each token. */
  ghost predicate Sized(g: Grammar, dtran: array2<int>) {
    g.currNonterm >= MINNONTERM && dtran.Length0 == g.currNonterm - MINNONTERM + 1 && dtran.Length1 == NTerms(g)
  }

  ghost predicate RowIs(g: Grammar, dtran: array2<int>, x: Symbol, select: Selects, chain: seq<Production>)
    requires Sized(g, dtran) && MINNONTERM <= x <= g.currNonterm
    reads dtran
  {
    forall t | 0 <= t < NTerms(g) :: dtran[x - MINNONTERM, t] == EntryOf(select, chain, t)
  }

  ghost predicate SelectsFit(g: Grammar, select: Selects) {
    forall x, p, t | p in g.Prods(x) && t in Tokens(select, p) :: 0 <= t <= g.currTerm
  }

  /** Enters production `k` of the chain in its row; counts the tokens already taken. */
  method FillProduction(dtran: array2<int>, g: Grammar, select: Selects, lhs: Symbol, chain: seq<Production>, k: nat)
    returns (errors: nat)
    requires Sized(g, dtran) && MINNONTERM <= lhs <= g.currNonterm && k < |chain|
    requires RowIs(g, dtran, lhs, select, chain[..k])
    modifies dtran
    ensures RowIs(g, dtran, lhs, select, chain[..k + 1])
    ensures forall x, t | 0 <= x < dtran.Length0 && 0 <= t < dtran.Length1 && x != lhs - MINNONTERM ::
              dtran[x, t] == old(dtran[x, t])
    ensures errors > 0 <==> exists i, t | 0 <= i < k && 0 <= t < NTerms(g) ::
              t in Tokens(select, chain[i]) && t in Tokens(select, chain[k])
  {
    var p, row := chain[k], lhs - MINNONTERM;
    assert chain[..k + 1][..k] == chain[..k];
    errors := 0;
    for t := 0 to NTerms(g)
      invariant forall u | 0 <= u < NTerms(g) ::
                  dtran[row, u] == EntryOf(select, chain[..if u < t then k + 1 else k], u)
      invariant forall x, u | 0 <= x < dtran.Length0 && 0 <= u < dtran.Length1 && x != row ::
                  dtran[x, u] == old(dtran[x, u])
      invariant errors > 0 <==> exists i, u | 0 <= i < k && 0 <= u < t ::
                  u in Tokens(select, chain[i]) && u in Tokens(select, p)
    {
      EntryFound(select, chain[..k], t);
      if t in Tokens(select, p) {
        if dtran[row, t] == -1 {
          dtran[row, t] := p.num;
        } else {
          errors := errors + 1;
        }
      }
    }
  }

  /** One row of the table: `fill_row`. */
  method FillRow(dtran: array2<int>, g: Grammar, select: Selects, lhs: Symbol) returns (errors: nat)
    requires Sized(g, dtran) && SelectsFit(g, select)
    requires IsNonterm(lhs) ==> lhs <= g.currNonterm && RowIs(g, dtran, lhs, select, [])
    modifies dtran
    ensures IsNonterm(lhs) ==> RowIs(g, dtran, lhs, select, g.Prods(lhs))
    ensures forall x, t | 0 <= x < dtran.Length0 && 0 <= t < dtran.Length1 && x != lhs - MINNONTERM ::
              dtran[x, t] == old(dtran[x, t])
    ensures errors > 0 <==> IsNonterm(lhs) && Clash(select, g.Prods(lhs))
  {
    errors := 0;
    if !IsNonterm(lhs) { return; }
    var chain := g.Prods(lhs);
    for k := 0 to |chain|
      invariant RowIs(g, dtran, lhs, select, chain[..k])
      invariant forall x, t | 0 <= x < dtran.Length0 && 0 <= t < dtran.Length1 && x != lhs - MINNONTERM ::
                  dtran[x, t] == old(dtran[x, t])
      invariant errors > 0 <==> Clash(select, chain[..k])
    {
      var e := FillProduction(dtran, g, select, lhs, chain, k);
      errors := errors + e;
    }
    assert chain[..|chain|] == chain;
  }

  ghost predicate TableIs(g: Grammar, dtran: array2<int>, select: Selects)
    reads dtran
  {
    Sized(g, dtran) &&
    forall x, t | MINNONTERM <= x <= g.currNonterm && x in g.symtab && 0 <= t < NTerms(g) ::
      dtran[x - MINNONTERM, t] == EntryOf(select, g.Prods(x), t)
  }

  ghost predicate RowsFit(g: Grammar) {
    forall j | 0 <= j < |g.symtab| && IsNonterm(g.symtab[j]) :: g.symtab[j] <= g.currNonterm
  }

  /** The walk of the symbol table that fills the rows. */
  method FillRows(dtran: array2<int>, g: Grammar, select: Selects) returns (errors: nat)
    requires Sized(g, dtran) && RowsFit(g) && g.DistinctSymbols() && SelectsFit(g, select)
    requires forall x, t | 0 <= x < dtran.Length0 && 0 <= t < dtran.Length1 :: dtran[x, t] == -1
    modifies dtran
    ensures forall j | 0 <= j < |g.symtab| && IsNonterm(g.symtab[j]) ::
      RowIs(g, dtran, g.symtab[j], select, g.Prods(g.symtab[j]))
    ensures errors > 0 <==>
      exists j | 0 <= j < |g.symtab| :: IsNonterm(g.symtab[j]) && Clash(select, g.Prods(g.symtab[j]))
  {
    errors := 0;
    for k := 0 to |g.symtab|
      invariant forall j | 0 <= j < |g.symtab| && IsNonterm(g.symtab[j]) ::
                  RowIs(g, dtran, g.symtab[j], select, if j < k then g.Prods(g.symtab[j]) else [])
      invariant errors > 0 <==> exists j | 0 <= j < k :: IsNonterm(g.symtab[j]) && Clash(select, g.Prods(g.symtab[j]))
    {
      var e := FillRow(dtran, g, select, g.symtab[k]);
      errors := errors + e;
    }
  }

  /** The whole table. `errors` counts the select-set conflicts that are reported. */
  method MakeDtran(st: SymbolTable) returns (dtran: array2<int>, errors: nat)
    requires st.g.Valid() && st.g.DistinctSymbols() && SelectsFit(st.g, st.select)
    ensures fresh(dtran) && TableIs(st.g, dtran, st.select)
    ensures errors == 0 <==> ConflictFree(st.g, st.select)
  {
    hide Clash, EntryOf, Grammar.DistinctSymbols;
    var g := st.g;
    AllFit(g);
    dtran := new int[g.currNonterm - MINNONTERM + 1, NTerms(g)]((_, _) => -1);
    errors := FillRows(dtran, g, st.select);
    OnlyKnownClash(g, st.select);
  }

  lemma AllFit(g: Grammar)
    requires g.Valid()
    ensures RowsFit(g) && g.currNonterm >= MINNONTERM
  {
    assert g.ValidSymbol(g.goal);
    assert forall j | 0 <= j < |g.symtab| :: g.ValidSymbol(g.symtab[j]);
  }

  lemma OnlyKnownClash(g: Grammar, select: Selects)
    requires g.Valid()
    ensures ConflictFree(g, select) <==>
      forall j | 0 <= j < |g.symtab| && IsNonterm(g.symtab[j]) :: !Clash(select, g.Prods(g.symtab[j]))
  {
    forall x | !IsNonterm(x) || x !in g.symtab ensures !Clash(select, g.Prods(x)) {
      assert x in g.chains ==> g.ValidSymbol(x);
    }
  }

  // ---------------------------------------------------------------- push table

  function Reverse(s: seq<Symbol>): seq<Symbol> {
    if s == [] then [] else Reverse(s[1..]) + [s[0]]
  }

  lemma {:induction false} ReverseAt(s: seq<Symbol>)
    ensures |Reverse(s)| == |s| && forall i | 0 <= i < |s| :: Reverse(s)[i] == s[|s| - 1 - i]
  {
    if s != [] {
      ReverseAt(s[1..]);
    }
  }

  /** The list of objects to push for a production: its right-hand side back to
      front, then 0. The right-hand side goes through a stack of MAXRHS symbols. */
  method MakePushRow(p: Production) returns (row: seq<Symbol>)
    requires |p.rhs| <= MAXRHS
    ensures row == Reverse(p.rhs) + [0]
  {
    var stack := new Symbol[MAXRHS];
    var sp := -1;
    for i := 0 to |p.rhs|
      invariant sp == i - 1 && stack[..i] == p.rhs[..i]
    {
      sp := sp + 1;
      stack[sp] := p.rhs[i];
    }
    row := [];
    ReverseAt(p.rhs);
    while sp >= 0
      invariant -1 <= sp < |p.rhs| && stack[..|p.rhs|] == p.rhs
      invariant row == Reverse(p.rhs)[..|p.rhs| - 1 - sp]
    {
      assert Reverse(p.rhs)[|p.rhs| - 1 - sp] == stack[..|p.rhs|][sp];
      row := row + [stack[sp]];
      sp := sp - 1;
    }
    row := row + [0];
  }
}
