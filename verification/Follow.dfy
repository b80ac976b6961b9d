/** FOLLOW sets (compiler/parser/llfollow.c). */
module Follow {
  import opened Grammars
  import opened Symbols
  import opened First

  // ------------------------------------------------------------- specification

  /** The elements `init` adds for the symbol at `i` of a right-hand side. */
  ghost predicate InitRule(g: Grammar, f: Sets, w: Sets, rhs: seq<Symbol>, i: nat)
    requires i < |rhs|
  {
    IsNonterm(rhs[i]) ==> Scan(g, f, rhs[i + 1..]) <= At(w, rhs[i])
  }

  /** Everything after position `i` can vanish. */
  ghost predicate RestNullable(g: Grammar, f: Sets, rhs: seq<Symbol>, i: nat)
    requires i < |rhs|
  {
    AllNullable(g, f, rhs[i + 1..])
  }

  /** The inclusion `follow_closure` enforces for the symbol at `i`. */
  ghost predicate ClosureRule(g: Grammar, f: Sets, w: Sets, lhs: Symbol, rhs: seq<Symbol>, i: nat)
    requires i < |rhs|
  {
    IsNonterm(rhs[i]) && RestNullable(g, f, rhs, i) ==> At(w, lhs) <= At(w, rhs[i])
  }

  ghost predicate InitDone(g: Grammar, f: Sets, w: Sets, x: Symbol) {
    && (x == g.goal ==> EOI in At(w, x))
    && forall p, i | p in g.Prods(x) && 0 <= i < |p.rhs| :: InitRule(g, f, w, p.rhs, i)
  }

  ghost predicate ClosureDone(g: Grammar, f: Sets, w: Sets, x: Symbol) {
    forall p, i | p in g.Prods(x) && 0 <= i < |p.rhs| :: ClosureRule(g, f, w, x, p.rhs, i)
  }

  ghost predicate FollowClosed(g: Grammar, f: Sets, w: Sets) {
    forall x :: InitDone(g, f, w, x) && ClosureDone(g, f, w, x)
  }

  /** `w` lies below every family closed under the FOLLOW rules. */
  ghost predicate FollowLeast(g: Grammar, f: Sets, w: Sets) {
    forall v | FollowClosed(g, f, v) :: Leq(w, v)
  }

  /** The family `w` with epsilon taken out of every set. */
  function NoEpsilon(g: Grammar, w: Sets): Sets {
    map x | x in w :: w[x] - {g.Epsilon()}
  }

  lemma AtNoEpsilon(g: Grammar, w: Sets, x: Symbol)
    ensures At(NoEpsilon(g, w), x) == At(w, x) - {g.Epsilon()}
  {
  }

  /** What both loops of `follow` keep. */
  ghost predicate Ok(st: SymbolTable)
    reads st
  {
    && st.g.Valid() && InRange(st.g, st.first)
    && ForNonterminals(st.g, st.follow) && InRange(st.g, st.follow)
    && FollowLeast(st.g, st.first, st.follow)
  }

  // ------------------------------------------------------------------- lemmas

  lemma InitDoneMonotone(g: Grammar, f: Sets, w: Sets, v: Sets, x: Symbol)
    requires InitDone(g, f, w, x) && Leq(w, v)
    ensures InitDone(g, f, v, x)
  {
    forall p, i | p in g.Prods(x) && 0 <= i < |p.rhs|
      ensures InitRule(g, f, v, p.rhs, i)
    {
      assert InitRule(g, f, w, p.rhs, i);
      assert forall t | t in At(w, p.rhs[i]) :: t in At(v, p.rhs[i]);
    }
  }

  /** Adding elements that every closed family must contain. */
  lemma AddKeeps(g: Grammar, f: Sets, w: Sets, x: Symbol, s: set<Symbol>)
    requires ForNonterminals(g, w) && InRange(g, w) && FollowLeast(g, f, w)
    requires x in w && forall t | t in s :: 0 <= t <= g.Epsilon()
    requires forall v | FollowClosed(g, f, v) :: s <= At(v, x)
    ensures var w' := w[x := w[x] + s];
      && ForNonterminals(g, w') && InRange(g, w') && FollowLeast(g, f, w')
      && Leq(w, w') && Missing(g, w') <= Missing(g, w)
      && (!(s <= w[x]) ==> Missing(g, w') < Missing(g, w))
  {
    var w' := w[x := w[x] + s];
    assert forall y :: At(w', y) == if y == x then At(w, x) + s else At(w, y);
    forall v | FollowClosed(g, f, v) ensures Leq(w', v) {
      assert Leq(w, v) && s <= At(v, x);
    }
    MissingShrinks(g, w, w');
    if Missing(g, w') == Missing(g, w) {
      forall t | t in s ensures t in w[x] {
        assert (x, t) !in Missing(g, w');
      }
    }
  }

  lemma RhsSymbolKnown(g: Grammar, x: Symbol, p: Production, i: nat)
    requires g.Valid() && p in g.Prods(x) && i < |p.rhs| && IsNonterm(p.rhs[i])
    ensures p.rhs[i] in g.symtab
  {
    assert g.ValidProduction(x, p) && g.ValidSymbol(p.rhs[i]);
  }

  // --------------------------------------------------------------- operations

  /** Innermost loop of `init`: everything that can directly follow position `i`. */
  method InitPosition(st: SymbolTable, lhs: Symbol, p: Production, i: nat)
    requires Ok(st) && p in st.g.Prods(lhs) && i < |p.rhs| && IsNonterm(p.rhs[i])
    modifies st`follow
    ensures Ok(st) && Leq(old(st.follow), st.follow) && InitRule(st.g, st.first, st.follow, p.rhs, i)
  {
    var x := p.rhs[i];
    RhsSymbolKnown(st.g, lhs, p, i);
    ghost var w := st.follow;
    ghost var all := Scan(st.g, st.first, p.rhs[i + 1..]);
    ghost var s: set<Symbol> := {};
    assert w[x] + s == w[x];
    var k := i + 1;
    while k < |p.rhs|
      invariant i < k <= |p.rhs|
      invariant st.follow.Keys == w.Keys && st.follow == w[x := w[x] + s]
      invariant s + Scan(st.g, st.first, p.rhs[k..]) == all
    {
      var y := p.rhs[k];
      assert p.rhs[k..][1..] == p.rhs[k + 1..];
      if !IsAct(y) {
        st.follow := st.follow[x := st.follow[x] + FirstOfSymbol(st.first, y)];
        assert st.follow[x] == w[x] + (s + FirstOfSymbol(st.first, y));
        s := s + FirstOfSymbol(st.first, y);
        if !Nullable(st.g, st.first, y) { break; }
      }
      k := k + 1;
    }
    assert s == all;
    assert st.g.ValidProduction(lhs, p);
    assert st.g.ValidString(p.rhs[i + 1..]);
    ScanInRange(st.g, st.first, p.rhs[i + 1..]);
    forall v | FollowClosed(st.g, st.first, v) ensures all <= At(v, x) {
      assert InitDone(st.g, st.first, v, lhs) && InitRule(st.g, st.first, v, p.rhs, i);
    }
    AddKeeps(st.g, st.first, w, x, all);
    assert st.follow == w[x := w[x] + all];
  }

  method InitProduction(st: SymbolTable, lhs: Symbol, p: Production)
    requires Ok(st) && p in st.g.Prods(lhs)
    modifies st`follow
    ensures Ok(st) && Leq(old(st.follow), st.follow)
    ensures forall i | 0 <= i < |p.rhs| :: InitRule(st.g, st.first, st.follow, p.rhs, i)
  {
    for i := 0 to |p.rhs|
      invariant Ok(st) && Leq(old(st.follow), st.follow)
      invariant forall j | 0 <= j < i :: InitRule(st.g, st.first, st.follow, p.rhs, j)
    {
      ghost var w := st.follow;
      if IsNonterm(p.rhs[i]) {
        InitPosition(st, lhs, p, i);
      }
      forall j | 0 <= j < i ensures InitRule(st.g, st.first, st.follow, p.rhs, j) {
        InitRuleMonotone(st.g, st.first, w, st.follow, p.rhs, j);
      }
    }
  }

  lemma InitRuleMonotone(g: Grammar, f: Sets, w: Sets, v: Sets, rhs: seq<Symbol>, i: nat)
    requires i < |rhs| && InitRule(g, f, w, rhs, i) && Leq(w, v)
    ensures InitRule(g, f, v, rhs, i)
  {
    assert forall t | t in At(w, rhs[i]) :: t in At(v, rhs[i]);
  }

  /** `init` for one symbol. */
  method Init(st: SymbolTable, lhs: Symbol)
    requires Ok(st) && lhs in st.g.symtab
    modifies st`follow
    ensures Ok(st) && Leq(old(st.follow), st.follow) && InitDone(st.g, st.first, st.follow, lhs)
  {
    if !IsNonterm(lhs) {
      assert lhs !in st.g.chains;
      return;
    }
    if lhs == st.g.goal {
      forall v | FollowClosed(st.g, st.first, v) ensures {EOI} <= At(v, lhs) {
        assert InitDone(st.g, st.first, v, lhs);
      }
      AddKeeps(st.g, st.first, st.follow, lhs, {EOI});
      st.follow := st.follow[lhs := st.follow[lhs] + {EOI}];
    }
    ghost var w := st.follow;
    var chain := st.g.Prods(lhs);
    for k := 0 to |chain|
      invariant Ok(st) && Leq(w, st.follow)
      invariant forall j, i | 0 <= j < k && 0 <= i < |chain[j].rhs| ::
        InitRule(st.g, st.first, st.follow, chain[j].rhs, i)
    {
      ghost var v := st.follow;
      InitProduction(st, lhs, chain[k]);
      forall j, i | 0 <= j < k && 0 <= i < |chain[j].rhs|
        ensures InitRule(st.g, st.first, st.follow, chain[j].rhs, i)
      {
        InitRuleMonotone(st.g, st.first, v, st.follow, chain[j].rhs, i);
      }
    }
  }

  /** `follow_closure` for one production, from its right end. */
  method CloseProduction(st: SymbolTable, lhs: Symbol, p: Production) returns (did: bool)
    requires Ok(st) && p in st.g.Prods(lhs) && lhs in st.follow
    modifies st`follow
    ensures Ok(st) && Leq(old(st.follow), st.follow)
    ensures did ==> Missing(st.g, st.follow) < Missing(st.g, old(st.follow))
    ensures !did ==> st.follow == old(st.follow)
    ensures !did ==> forall i | 0 <= i < |p.rhs| :: ClosureRule(st.g, st.first, st.follow, lhs, p.rhs, i)
  {
    did := false;
    var i := |p.rhs|;
    while i > 0
      invariant 0 <= i <= |p.rhs|
      invariant Ok(st) && Leq(old(st.follow), st.follow)
      invariant did ==> Missing(st.g, st.follow) < Missing(st.g, old(st.follow))
      invariant !did ==> st.follow == old(st.follow)
      invariant !did ==> forall j | i <= j < |p.rhs| :: ClosureRule(st.g, st.first, st.follow, lhs, p.rhs, j)
      invariant AllNullable(st.g, st.first, p.rhs[i..])
    {
      i := i - 1;
      var x := p.rhs[i];
      assert p.rhs[i..] == [x] + p.rhs[i + 1..];
      if IsAct(x) { continue; }
      if IsTerm(x) {
        NotNullable(st.g, st.first, p.rhs, i);
        break;
      }
      assert st.g.ValidProduction(lhs, p) && st.g.ValidSymbol(x);
      if !(st.follow[lhs] <= st.follow[x]) {
        ghost var w := st.follow;
        forall v | FollowClosed(st.g, st.first, v) ensures w[lhs] <= At(v, x) {
          assert Leq(w, v) && ClosureDone(st.g, st.first, v, lhs) && ClosureRule(st.g, st.first, v, lhs, p.rhs, i);
          assert forall t | t in At(w, lhs) :: t in At(v, lhs);
        }
        assert forall t | t in At(w, lhs) :: 0 <= t <= st.g.Epsilon();
        AddKeeps(st.g, st.first, w, x, w[lhs]);
        LeqTransitive(old(st.follow), w, w[x := w[x] + w[lhs]]);
        st.follow := st.follow[x := st.follow[x] + st.follow[lhs]];
        did := true;
      }
      if !Nullable(st.g, st.first, x) {
        NotNullable(st.g, st.first, p.rhs, i);
        break;
      }
    }
  }

  lemma LeqTransitive(f: Sets, h: Sets, k: Sets)
    requires Leq(f, h) && Leq(h, k)
    ensures Leq(f, k)
  {
  }

  /** Nothing to the left of a symbol that is not nullable has a nullable rest. */
  lemma NotNullable(g: Grammar, f: Sets, rhs: seq<Symbol>, i: nat)
    requires i < |rhs| && !IsAct(rhs[i]) && !Nullable(g, f, rhs[i])
    ensures forall j | 0 <= j < i :: !RestNullable(g, f, rhs, j)
  {
    forall j | 0 <= j < i ensures !RestNullable(g, f, rhs, j) {
      assert rhs[j + 1..][i - j - 1] == rhs[i];
    }
  }

  /** `follow_closure` for one symbol. */
  method FollowClosure(st: SymbolTable, lhs: Symbol) returns (did: bool)
    requires Ok(st) && lhs in st.g.symtab
    modifies st`follow
    ensures Ok(st) && Leq(old(st.follow), st.follow)
    ensures did ==> Missing(st.g, st.follow) < Missing(st.g, old(st.follow))
    ensures !did ==> st.follow == old(st.follow) && ClosureDone(st.g, st.first, st.follow, lhs)
  {
    did := false;
    if IsAct(lhs) || IsTerm(lhs) {
      assert lhs !in st.g.chains;
      return;
    }
    assert st.g.ValidSymbol(lhs);
    var chain := st.g.Prods(lhs);
    for k := 0 to |chain|
      invariant Ok(st) && Leq(old(st.follow), st.follow)
      invariant did ==> Missing(st.g, st.follow) < Missing(st.g, old(st.follow))
      invariant !did ==> st.follow == old(st.follow)
      invariant !did ==> forall j, i | 0 <= j < k && 0 <= i < |chain[j].rhs| ::
                           ClosureRule(st.g, st.first, st.follow, lhs, chain[j].rhs, i)
    {
      ghost var w := st.follow;
      var changed := CloseProduction(st, lhs, chain[k]);
      LeqTransitive(old(st.follow), w, st.follow);
      MissingShrinks(st.g, w, st.follow);
      did := did || changed;
    }
  }

  method InitAll(st: SymbolTable)
    requires Ok(st)
    modifies st`follow
    ensures Ok(st) && forall x :: InitDone(st.g, st.first, st.follow, x)
  {
    var g := st.g;
    for k := 0 to |g.symtab|
      invariant Ok(st) && forall j | 0 <= j < k :: InitDone(g, st.first, st.follow, g.symtab[j])
    {
      ghost var w := st.follow;
      Init(st, g.symtab[k]);
      forall j | 0 <= j < k ensures InitDone(g, st.first, st.follow, g.symtab[j]) {
        InitDoneMonotone(g, st.first, w, st.follow, g.symtab[j]);
      }
    }
    forall x ensures InitDone(g, st.first, st.follow, x) {
      if x !in g.symtab {
        NoProductions(g, x);
      }
    }
  }

  lemma NoProductions(g: Grammar, x: Symbol)
    requires g.Valid() && x !in g.symtab
    ensures g.Prods(x) == [] && x != g.goal
  {
    assert x in g.chains ==> g.ValidSymbol(x);
    assert g.ValidSymbol(g.goal);
  }

  /** One pass of the closure loop. */
  method Pass(st: SymbolTable) returns (did: bool)
    requires Ok(st)
    modifies st`follow
    ensures Ok(st) && Leq(old(st.follow), st.follow)
    ensures did ==> Missing(st.g, st.follow) < Missing(st.g, old(st.follow))
    ensures !did ==> forall x :: ClosureDone(st.g, st.first, st.follow, x)
  {
    did := false;
    var g := st.g;
    for k := 0 to |g.symtab|
      invariant Ok(st) && Leq(old(st.follow), st.follow)
      invariant did ==> Missing(g, st.follow) < Missing(g, old(st.follow))
      invariant !did ==> st.follow == old(st.follow)
      invariant !did ==> forall j | 0 <= j < k :: ClosureDone(g, st.first, st.follow, g.symtab[j])
    {
      ghost var w := st.follow;
      var changed := FollowClosure(st, g.symtab[k]);
      LeqTransitive(old(st.follow), w, st.follow);
      MissingShrinks(g, w, st.follow);
      did := did || changed;
    }
    if !did {
      forall x ensures ClosureDone(g, st.first, st.follow, x) {
        if x !in g.symtab {
          NoProductions(g, x);
        }
      }
    }
  }

  /** The whole computation. `w` is the family before epsilon is removed. */
  method ComputeFollow(st: SymbolTable) returns (ghost w: Sets)
    requires st.g.Valid() && InRange(st.g, st.first)
    requires ForNonterminals(st.g, st.follow) && forall x :: At(st.follow, x) == {}
    modifies st`follow
    ensures FollowClosed(st.g, st.first, w) && FollowLeast(st.g, st.first, w)
    ensures ForNonterminals(st.g, w) && InRange(st.g, w)
    ensures st.follow == NoEpsilon(st.g, w)
  {
    InitAll(st);
    var did := true;
    while did
      invariant Ok(st) && forall x :: InitDone(st.g, st.first, st.follow, x)
      invariant !did ==> forall x :: ClosureDone(st.g, st.first, st.follow, x)
      decreases Missing(st.g, st.follow), did
    {
      ghost var v := st.follow;
      did := Pass(st);
      forall x ensures InitDone(st.g, st.first, st.follow, x) {
        InitDoneMonotone(st.g, st.first, v, st.follow, x);
      }
      MissingShrinks(st.g, v, st.follow);
    }
    w := st.follow;
    RemoveEpsilon(st);
  }

  /** The last pass: `remove_epsilon` on every symbol. */
  method RemoveEpsilon(st: SymbolTable)
    requires ForNonterminals(st.g, st.follow)
    modifies st`follow
    ensures st.follow == NoEpsilon(st.g, old(st.follow))
  {
    var g := st.g;
    ghost var w := st.follow;
    for k := 0 to |g.symtab|
      invariant st.follow.Keys == w.Keys
      invariant forall x | x in w :: st.follow[x] == w[x] || st.follow[x] == w[x] - {g.Epsilon()}
      invariant forall x | x in w && x in g.symtab[..k] :: st.follow[x] == w[x] - {g.Epsilon()}
    {
      var x := g.symtab[k];
      if IsNonterm(x) {
        st.follow := st.follow[x := st.follow[x] - {g.Epsilon()}];
      }
    }
  }
}
