/** The steps of `lr`: a new state, a new edge, more lookaheads in a state that exists. */
module LrSteps {
  import opened Grammars
  import opened Symbols
  import opened LrItems
  import opened LrClosure
  import opened LrList
  import opened LrKernel
  import opened LrStates
  import LrSort

  /** Nothing is taken back: states keep their items and their edges. */
  ghost predicate Grows(a: Auto, b: Auto) {
    && |a.states| <= |b.states| && |a.actions| == |a.gotos| == |a.states| && |b.actions| == |b.gotos| == |b.states|
    && (forall s | 0 <= s < |a.states| :: StateGrows(a.states[s], b.states[s]))
    && (forall s, x, t | Edge(a, s, x, t) :: Edge(b, s, x, t))
  }

  predicate StateGrows(s: State, s': State) {
    SameCores(s.kernel, s'.kernel) && Extends(s.kernel, s'.kernel)
  }

  /** Of state `s` nothing has changed, unless it has got more lookaheads and is unfinished. */
  predicate Untouched(a: Auto, b: Auto, s: int)
    requires StateNo(a, s) && StateNo(b, s) && s < |a.actions| && s < |a.gotos| && s < |b.actions| && s < |b.gotos|
  {
    && b.actions[s] == a.actions[s] && b.gotos[s] == a.gotos[s]
    && b.states[s].eps == a.states[s].eps && b.states[s].closed == a.states[s].closed
    && (s in a.unfinished ==> s in b.unfinished)
    && (b.states[s].kernel == a.states[s].kernel || s in b.unfinished)
  }

  lemma CoresKernel(k: Items, k': Items)
    requires SameCores(k, k')
    ensures AsState(k).kernel == AsState(k').kernel
  {
    SameCoresHas(k, k');
  }

  lemma ExtendsLooks(k: Items, k': Items)
    requires Extends(k, k')
    ensures AsState(k).looks <= AsState(k').looks
  {
    forall y | y in AsState(k).looks ensures y in AsState(k').looks {
      var c, a := y.0, y.1;
      assert y == (c, a) && HasLook(k, c, a);
      var i :| 0 <= i < |k| && k[i].core == c && a in k[i].la;
      assert k'[i].core == c && a in k'[i].la;
    }
  }

  lemma ExtendsSelf(k: Items)
    ensures Extends(k, k) && SameCores(k, k)
  {
  }

  /** A state that has not changed, or is unfinished, stays settled. */
  lemma SettledKept(g: Grammar, f: Sets, a: Auto, b: Auto, s: int)
    requires Grows(a, b) && StateNo(a, s) && Settled(g, f, a, s)
    requires Untouched(a, b, s)
    ensures Settled(g, f, b, s)
  {
    hide Goto, EpsCores, EpsFull, Listed;
    StateKept(a, b, s);
    if a.states[s].closed {
      CoveredKept(g, f, a, b, s);
      EpsCoresKept(g, a.states[s].kernel, b.states[s].kernel, a.states[s].eps);
    }
    if Absorbed(g, f, a, s) && b.states[s].kernel == a.states[s].kernel {
      forall x | Goto(g, f, St(b, s), x).kernel != iset{} ensures PassedOn(g, f, b, s, x, St(b, s)) {
        PassedOnKept(g, f, a, b, s, x, St(b, s));
      }
    }
  }

  lemma StateKept(a: Auto, b: Auto, s: int)
    requires Grows(a, b) && StateNo(a, s)
    ensures StateNo(b, s) && StateGrows(a.states[s], b.states[s])
    ensures St(a, s).kernel == St(b, s).kernel && St(a, s).looks <= St(b, s).looks
  {
    CoresKernel(a.states[s].kernel, b.states[s].kernel);
    ExtendsLooks(a.states[s].kernel, b.states[s].kernel);
  }

  lemma CoveredKept(g: Grammar, f: Sets, a: Auto, b: Auto, s: int)
    requires Grows(a, b) && StateNo(a, s) && Covered(g, f, a, s)
    ensures StateNo(b, s) && Covered(g, f, b, s)
  {
    hide Goto, Edge;
    StateKept(a, b, s);
    forall x | Goto(g, f, St(b, s), x).kernel != iset{} ensures exists t :: Edge(b, s, x, t) {
      GotoKernel(g, f, St(a, s), St(b, s), x);
      var t :| Edge(a, s, x, t);
      assert Edge(b, s, x, t);
    }
  }

  lemma ListedKept(g: Grammar, k: Items, k': Items, c: Core)
    requires SameCores(k, k')
    ensures Listed(g, k, c) <==> Listed(g, k', c)
  {
    CoresKernel(k, k');
    SameCoresHas(k, k');
  }

  lemma EpsCoresKept(g: Grammar, k: Items, k': Items, eps: Items)
    requires SameCores(k, k') && EpsCores(g, k, eps)
    ensures EpsCores(g, k', eps)
  {
    hide Listed;
    forall c ensures Has(eps, c) <==> Listed(g, k', c) && c.AtEnd() {
      ListedKept(g, k, k', c);
    }
  }

  lemma PassedOnKept(g: Grammar, f: Sets, a: Auto, b: Auto, s: int, x: Symbol, k: Lr1)
    requires Grows(a, b) && PassedOn(g, f, a, s, x, k)
    ensures PassedOn(g, f, b, s, x, k)
  {
    hide Goto, Edge;
    var t :| Edge(a, s, x, t) && StateNo(a, t) && Goto(g, f, k, x).looks <= St(a, t).looks;
    StateKept(a, b, t);
    assert Edge(b, s, x, t) && StateNo(b, t);
  }

  // ------------------------------------------------------ the state being worked on

  /** While the groups of state `cur` are turned into transitions. `k0` is its kernel at the
      beginning and `list` its closure then; the lookaheads of the first `p` items have been
      passed on, and if it had no edges before it has edges for the first `e`. */
  ghost predicate Working(g: Grammar, f: Sets, a: Auto, cur: int, k0: Items, list: Items, p: nat, e: nat)
    requires StateNo(a, cur)
  {
    var s := a.states[cur];
    && SameCores(k0, s.kernel) && Extends(k0, s.kernel) && (s.kernel == k0 || cur in a.unfinished)
    && EpsCores(g, k0, s.eps) && EpsFull(g, f, k0, s.eps)
    && p <= e <= |list|
    && (if s.closed then Covered(g, f, a, cur) else EdgesBefore(a, cur, list, e))
    && forall i | 0 <= i < p && !list[i].core.AtEnd() :: PassedOn(g, f, a, cur, list[i].core.Next(), AsState(k0))
  }

  /** The edges of the state are on the symbols of the items before `p`. */
  ghost predicate EdgesBefore(a: Auto, cur: int, list: Items, p: nat)
    requires p <= |list|
  {
    forall x, t | Edge(a, cur, x, t) :: exists i | 0 <= i < p :: !list[i].core.AtEnd() && list[i].core.Next() == x
  }

  ghost predicate Base(g: Grammar, f: Sets, start: Production, a: Auto) {
    Shape(g, start, a) && EdgesOk(g, f, a) && SoundStates(g, f, start, a)
  }

  /** Everything but the current state. */
  ghost predicate OthersSettled(g: Grammar, f: Sets, a: Auto, cur: int)
    requires |a.actions| == |a.gotos| == |a.states|
  {
    forall s | 0 <= s < |a.states| && s != cur :: Settled(g, f, a, s)
  }

  lemma OthersKept(g: Grammar, f: Sets, a: Auto, b: Auto, cur: int)
    requires Grows(a, b) && OthersSettled(g, f, a, cur)
    requires forall s | 0 <= s < |a.states| && s != cur :: Untouched(a, b, s)
    requires forall s | |a.states| <= s < |b.states| :: Settled(g, f, b, s)
    ensures OthersSettled(g, f, b, cur)
  {
    hide Settled;
    forall s | 0 <= s < |b.states| && s != cur ensures Settled(g, f, b, s) {
      if s < |a.states| {
        SettledKept(g, f, a, b, s);
      }
    }
  }

  lemma WorkingKept(g: Grammar, f: Sets, a: Auto, b: Auto, cur: int, k0: Items, list: Items, p: nat, e: nat)
    requires Grows(a, b) && StateNo(a, cur) && Working(g, f, a, cur, k0, list, p, e)
    requires Untouched(a, b, cur)
    ensures StateNo(b, cur) && Working(g, f, b, cur, k0, list, p, e)
  {
    hide Covered, PassedOn, EpsCores, EpsFull;
    StateKept(a, b, cur);
    if a.states[cur].closed {
      CoveredKept(g, f, a, b, cur);
    } else {
      forall x, t | Edge(b, cur, x, t) ensures Edge(a, cur, x, t) {
      }
    }
    forall i | 0 <= i < p && !list[i].core.AtEnd() ensures PassedOn(g, f, b, cur, list[i].core.Next(), AsState(k0)) {
      PassedOnKept(g, f, a, b, cur, list[i].core.Next(), AsState(k0));
    }
  }

  /** All that holds between two steps. */
  ghost predicate Midway(g: Grammar, f: Sets, start: Production, a: Auto, cur: int, k0: Items, list: Items, p: nat,
        e: nat) {
    Base(g, f, start, a) && OthersSettled(g, f, a, cur) && StateNo(a, cur) && Working(g, f, a, cur, k0, list, p, e)
  }

  // ------------------------------------------------------------------ a new state

  function WithState(a: Auto, k: Items): Auto {
    Auto(a.states + [State(k, [], false)], a.actions + [[]], a.gotos + [[]], a.unfinished + {|a.states|})
  }

  predicate IsNew(a: Auto, k: Items) {
    forall s | 0 <= s < |a.states| :: !SameCores(a.states[s].kernel, k)
  }

  predicate Dotted(k: Items) {
    k != [] && forall i | 0 <= i < |k| :: k[i].core.dot > 0
  }

  lemma WithStateGrows(a: Auto, k: Items)
    requires |a.actions| == |a.gotos| == |a.states|
    ensures Grows(a, WithState(a, k))
    ensures forall s, x, t | Edge(WithState(a, k), s, x, t) :: Edge(a, s, x, t)
  {
    forall s | 0 <= s < |a.states| ensures StateGrows(a.states[s], WithState(a, k).states[s]) {
      ExtendsSelf(a.states[s].kernel);
    }
  }

  lemma WithStateShape(g: Grammar, start: Production, a: Auto, k: Items)
    requires Shape(g, start, a) && |a.states| < MAXSTATE && IsNew(a, k) && Dotted(k) && KernelOk(g, k) && Strict(k)
    ensures Shape(g, start, WithState(a, k))
  {
    hide KernelOk, Strict, SameCores;
    var b := WithState(a, k);
    forall s | 0 <= s < |b.states| ensures StateShape(g, b, s) {
      assert s < |a.states| ==> StateShape(g, a, s);
    }
  }

  lemma WithStateBase(g: Grammar, f: Sets, start: Production, a: Auto, k: Items)
    requires Base(g, f, start, a) && |a.states| < MAXSTATE && IsNew(a, k) && Dotted(k) && KernelOk(g, k) && Strict(k)
    requires SoundKernel(g, f, start, k)
    ensures Base(g, f, start, WithState(a, k))
  {
    hide Shape, Goto, SoundKernel, SoundEps, IsNew, Dotted;
    ShapeSizes(g, start, a);
    WithStateShape(g, start, a, k);
    WithStateGrows(a, k);
    var b := WithState(a, k);
    forall s, x, t | Edge(b, s, x, t) ensures EdgeOk(g, f, b, s, x, t) {
      assert EdgeOk(g, f, a, s, x, t);
    }
    forall s | 0 <= s < |b.states| ensures SoundState(g, f, start, b, s) {
      if s < |a.states| {
        assert SoundState(g, f, start, a, s);
      } else {
        NoEps(g, f, start, k);
      }
    }
  }

  lemma NoEps(g: Grammar, f: Sets, start: Production, k: Items)
    ensures SoundEps(g, f, start, k, [])
  {
  }

  lemma ShapeSizes(g: Grammar, start: Production, a: Auto)
    requires Shape(g, start, a)
    ensures |a.actions| == |a.gotos| == |a.states| && 0 < |a.states| <= MAXSTATE
    ensures forall s | s in a.unfinished :: StateNo(a, s)
  {
  }

  lemma WithStateMidway(g: Grammar, f: Sets, start: Production, a: Auto, k: Items, cur: int, k0: Items, list: Items,
        p: nat, e: nat)
    requires Midway(g, f, start, a, cur, k0, list, p, e) && |a.states| < MAXSTATE
    requires IsNew(a, k) && Dotted(k) && KernelOk(g, k) && Strict(k) && SoundKernel(g, f, start, k)
    ensures Midway(g, f, start, WithState(a, k), cur, k0, list, p, e)
  {
    hide Base, Working, Settled, SoundKernel, IsNew, Dotted, KernelOk, Strict, Edge;
    BaseShape(g, f, start, a);
    WithStateBase(g, f, start, a, k);
    WithStateGrows(a, k);
    var b := WithState(a, k);
    NewSettled(g, f, b, |a.states|);
    OthersKept(g, f, a, b, cur);
    WorkingKept(g, f, a, b, cur, k0, list, p, e);
  }

  lemma BaseShape(g: Grammar, f: Sets, start: Production, a: Auto)
    requires Base(g, f, start, a)
    ensures Shape(g, start, a) && |a.actions| == |a.gotos| == |a.states|
    ensures forall s | s in a.unfinished :: StateNo(a, s)
  {
  }

  lemma NewSettled(g: Grammar, f: Sets, a: Auto, s: nat)
    requires StateNo(a, s) && s < |a.actions| && s < |a.gotos|
    requires a.actions[s] == [] && a.gotos[s] == [] && !a.states[s].closed && a.states[s].eps == [] && s in a.unfinished
    ensures Settled(g, f, a, s)
  {
  }

  // -------------------------------------------------------------------- a new edge

  function WithEdge(a: Auto, s: int, x: Symbol, t: int): Auto
    requires 0 <= s < |a.actions| && s < |a.gotos|
  {
    if IsTerm(x) then a.(actions := a.actions[s := [Act(x, t)] + a.actions[s]])
    else a.(gotos := a.gotos[s := [Act(x - MINNONTERM, t)] + a.gotos[s]])
  }

  lemma WithEdgeEdges(a: Auto, s: int, x: Symbol, t: int)
    requires |a.actions| == |a.gotos| == |a.states| && StateNo(a, s) && (IsTerm(x) || IsNonterm(x))
    ensures Edge(WithEdge(a, s, x, t), s, x, t)
    ensures forall s', x', t' | Edge(a, s', x', t') :: StateNo(a, s')
    ensures forall s', x', t' ::
      Edge(WithEdge(a, s, x, t), s', x', t') <==> Edge(a, s', x', t') || (s' == s && x' == x && t' == t)
  {
  }

  lemma WithEdgeGrows(a: Auto, s: int, x: Symbol, t: int)
    requires |a.actions| == |a.gotos| == |a.states| && StateNo(a, s) && (IsTerm(x) || IsNonterm(x))
    ensures Grows(a, WithEdge(a, s, x, t))
  {
    hide Edge;
    WithEdgeEdges(a, s, x, t);
    forall s' | 0 <= s' < |a.states| ensures StateGrows(a.states[s'], a.states[s']) {
      ExtendsSelf(a.states[s'].kernel);
    }
  }

  lemma NoSym(a: Auto, s: int, x: Symbol)
    requires StateNo(a, s) && |a.actions| == |a.gotos| == |a.states| && (IsTerm(x) || IsNonterm(x))
    requires forall t :: !Edge(a, s, x, t)
    ensures IsTerm(x) ==> forall i | 0 <= i < |a.actions[s]| :: a.actions[s][i].sym != x
    ensures !IsTerm(x) ==> forall i | 0 <= i < |a.gotos[s]| :: a.gotos[s][i].sym != x - MINNONTERM
  {
    if IsTerm(x) {
      forall i | 0 <= i < |a.actions[s]| ensures a.actions[s][i].sym != x {
        assert a.actions[s][i] == Act(a.actions[s][i].sym, a.actions[s][i].to);
        assert !Edge(a, s, x, a.actions[s][i].to);
      }
    } else {
      forall i | 0 <= i < |a.gotos[s]| ensures a.gotos[s][i].sym != x - MINNONTERM {
        assert a.gotos[s][i] == Act(a.gotos[s][i].sym, a.gotos[s][i].to);
        assert !Edge(a, s, x, a.gotos[s][i].to);
      }
    }
  }

  lemma WithEdgeShape(g: Grammar, start: Production, a: Auto, s: int, x: Symbol, t: int)
    requires Shape(g, start, a) && StateNo(a, s) && (IsTerm(x) || IsNonterm(x)) && forall t' :: !Edge(a, s, x, t')
    ensures Shape(g, start, WithEdge(a, s, x, t))
  {
    hide KernelOk, Strict, SameCores, Edge;
    NoSym(a, s, x);
    var b := WithEdge(a, s, x, t);
    forall s' | 0 <= s' < |b.states| ensures StateShape(g, b, s') {
      assert StateShape(g, a, s');
    }
  }

  lemma WithEdgeBase(g: Grammar, f: Sets, start: Production, a: Auto, s: int, x: Symbol, t: int)
    requires Base(g, f, start, a) && StateNo(a, s) && (IsTerm(x) || IsNonterm(x)) && forall t' :: !Edge(a, s, x, t')
    requires EdgeOk(g, f, a, s, x, t)
    ensures Base(g, f, start, WithEdge(a, s, x, t))
  {
    hide Shape, Goto, SoundKernel, SoundEps, Edge;
    ShapeSizes(g, start, a);
    WithEdgeShape(g, start, a, s, x, t);
    WithEdgeEdges(a, s, x, t);
    var b := WithEdge(a, s, x, t);
    forall s', x', t' | Edge(b, s', x', t') ensures EdgeOk(g, f, b, s', x', t') {
      assert EdgeOk(g, f, a, s', x', t');
    }
    forall s' | 0 <= s' < |b.states| ensures SoundState(g, f, start, b, s') {
      assert SoundState(g, f, start, a, s');
    }
  }

  /** The edge of a group of items, from `p` to `hi`, of a state that is being closed. */
  lemma WithEdgeMidway(g: Grammar, f: Sets, start: Production, a: Auto, x: Symbol, t: int, cur: int, k0: Items,
        list: Items, p: nat, hi: nat)
    requires Midway(g, f, start, a, cur, k0, list, p, p) && !a.states[cur].closed
    requires IsGroup(list, p, hi, x) && (IsTerm(x) || IsNonterm(x)) && !list[p].core.AtEnd()
    requires EdgeOk(g, f, a, cur, x, t)
    ensures Midway(g, f, start, WithEdge(a, cur, x, t), cur, k0, list, p, hi)
  {
    hide Base, Settled, SoundKernel, KernelOk, Strict, Edge, PassedOn, EpsCores, EpsFull, Covered;
    BaseShape(g, f, start, a);
    NoEdgeYet(a, cur, list, p, hi, x);
    WithEdgeBase(g, f, start, a, cur, x, t);
    WithEdgeGrows(a, cur, x, t);
    WithEdgeEdges(a, cur, x, t);
    var b := WithEdge(a, cur, x, t);
    OthersKept(g, f, a, b, cur);
    forall i | 0 <= i < p && !list[i].core.AtEnd() ensures PassedOn(g, f, b, cur, list[i].core.Next(), AsState(k0)) {
      PassedOnKept(g, f, a, b, cur, list[i].core.Next(), AsState(k0));
    }
  }

  lemma NoEdgeYet(a: Auto, cur: int, list: Items, p: nat, hi: nat, x: Symbol)
    requires IsGroup(list, p, hi, x) && EdgesBefore(a, cur, list, p)
    ensures forall t :: !Edge(a, cur, x, t)
  {
    hide Edge;
  }

  // -------------------------------------------------------------- more lookaheads

  function WithKernel(a: Auto, t: int, k: Items): Auto
    requires StateNo(a, t)
  {
    a.(states := a.states[t := a.states[t].(kernel := k)], unfinished := a.unfinished + {t})
  }

  lemma WithKernelGrows(a: Auto, t: int, k: Items)
    requires |a.actions| == |a.gotos| == |a.states| && StateNo(a, t)
    requires SameCores(a.states[t].kernel, k) && Extends(a.states[t].kernel, k)
    ensures Grows(a, WithKernel(a, t, k))
    ensures forall s, x, u :: Edge(WithKernel(a, t, k), s, x, u) <==> Edge(a, s, x, u)
  {
    forall s | 0 <= s < |a.states| ensures StateGrows(a.states[s], WithKernel(a, t, k).states[s]) {
      ExtendsSelf(a.states[s].kernel);
    }
  }

  lemma CoresOk(g: Grammar, k: Items, k': Items)
    requires KernelOk(g, k) && Strict(k) && SameCores(k, k') && ItemsOk(g, k')
    ensures KernelOk(g, k') && Strict(k')
  {
  }

  lemma WithKernelShape(g: Grammar, start: Production, a: Auto, t: int, k: Items)
    requires Shape(g, start, a) && StateNo(a, t)
    requires SameCores(a.states[t].kernel, k) && Extends(a.states[t].kernel, k) && ItemsOk(g, k)
    ensures Shape(g, start, WithKernel(a, t, k))
  {
    hide KernelOk, Strict;
    var b := WithKernel(a, t, k);
    forall s | 0 <= s < |b.states| ensures StateShape(g, b, s) {
      assert StateShape(g, a, s);
      if s == t {
        CoresOk(g, a.states[t].kernel, k);
      }
    }
    forall s, u | 0 <= s < u < |b.states| ensures !SameCores(b.states[s].kernel, b.states[u].kernel) {
      CoresApart(a.states[s].kernel, a.states[u].kernel, b.states[s].kernel, b.states[u].kernel);
    }
    assert StateShape(g, a, 0);
  }

  lemma CoresApart(k: Items, l: Items, k': Items, l': Items)
    requires !SameCores(k, l) && (k' == k || SameCores(k, k')) && (l' == l || SameCores(l, l'))
    ensures !SameCores(k', l')
  {
  }

  /** What is known of a state's lookaheads depends on its kernel only through its cores. */
  lemma CanonKept(g: Grammar, f: Sets, start: Production, k: Items, k': Items, c: Core, a: Symbol)
    requires SameCores(k, k')
    ensures Canon(g, f, start, k, c, a) <==> Canon(g, f, start, k', c, a)
    ensures CanonClosure(g, f, start, k, c, a) <==> CanonClosure(g, f, start, k', c, a)
  {
    hide Canonical, Looks;
    CoresKernel(k, k');
    forall w ensures Reached(g, f, start, k, w) <==> Reached(g, f, start, k', w) {
    }
  }

  /** The union of two sound sets of lookaheads is sound. */
  lemma SoundUnion(g: Grammar, f: Sets, start: Production, k: Items, m: Items, k': Items, eps: Items)
    requires SoundKernel(g, f, start, k) && SoundKernel(g, f, start, m) && SoundEps(g, f, start, k, eps)
    requires SameCores(k, k') && SameCores(m, k')
    requires forall c, a | HasLook(k', c, a) :: HasLook(k, c, a) || HasLook(m, c, a)
    ensures SoundKernel(g, f, start, k') && SoundEps(g, f, start, k', eps)
  {
    hide Canon, CanonClosure, Canonical;
    forall c, a | HasLook(k', c, a) ensures Canon(g, f, start, k', c, a) {
      CanonKept(g, f, start, k, k', c, a);
      CanonKept(g, f, start, m, k', c, a);
    }
    forall c, a | HasLook(eps, c, a) ensures CanonClosure(g, f, start, k', c, a) {
      CanonKept(g, f, start, k, k', c, a);
    }
    CoresKernel(k, k');
    var w :| Reached(g, f, start, k, w);
    assert Reached(g, f, start, k', w);
  }

  lemma WithKernelBase(g: Grammar, f: Sets, start: Production, a: Auto, t: int, k: Items, m: Items)
    requires Base(g, f, start, a) && StateNo(a, t) && SoundKernel(g, f, start, m)
    requires SameCores(a.states[t].kernel, k) && SameCores(m, k) && Extends(a.states[t].kernel, k) && ItemsOk(g, k)
    requires forall c, y | HasLook(k, c, y) :: HasLook(a.states[t].kernel, c, y) || HasLook(m, c, y)
    ensures Base(g, f, start, WithKernel(a, t, k))
  {
    hide Shape, Goto, SoundKernel, SoundEps, Edge;
    ShapeSizes(g, start, a);
    WithKernelShape(g, start, a, t, k);
    WithKernelGrows(a, t, k);
    var b := WithKernel(a, t, k);
    forall s, x, u | Edge(b, s, x, u) ensures StateNo(b, s) && EdgeOk(g, f, b, s, x, u) {
      EdgeKept(g, f, a, b, s, x, u);
    }
    forall s | 0 <= s < |b.states| ensures SoundState(g, f, start, b, s) {
      assert SoundState(g, f, start, a, s);
      if s == t {
        SoundUnion(g, f, start, a.states[t].kernel, m, k, a.states[t].eps);
      }
    }
  }

  lemma EdgeKept(g: Grammar, f: Sets, a: Auto, b: Auto, s: int, x: Symbol, t: int)
    requires Grows(a, b) && EdgesOk(g, f, a) && Edge(a, s, x, t)
    ensures StateNo(b, s) && EdgeOk(g, f, b, s, x, t)
  {
    hide Goto;
    assert StateNo(a, s) && EdgeOk(g, f, a, s, x, t);
    StateKept(a, b, s);
    StateKept(a, b, t);
    GotoKernel(g, f, St(a, s), St(b, s), x);
  }

  lemma WithKernelMidway(g: Grammar, f: Sets, start: Production, a: Auto, t: int, k: Items, m: Items, cur: int,
        k0: Items, list: Items, p: nat, e: nat)
    requires Midway(g, f, start, a, cur, k0, list, p, e) && StateNo(a, t) && SoundKernel(g, f, start, m)
    requires SameCores(a.states[t].kernel, k) && SameCores(m, k) && Extends(a.states[t].kernel, k) && ItemsOk(g, k)
    requires forall c, y | HasLook(k, c, y) :: HasLook(a.states[t].kernel, c, y) || HasLook(m, c, y)
    ensures Midway(g, f, start, WithKernel(a, t, k), cur, k0, list, p, e)
  {
    hide Base, Settled, SoundKernel, KernelOk, Strict, Edge, Working;
    BaseShape(g, f, start, a);
    WithKernelBase(g, f, start, a, t, k, m);
    WithKernelGrows(a, t, k);
    var b := WithKernel(a, t, k);
    OthersKept(g, f, a, b, cur);
    WorkingKept(g, f, a, b, cur, k0, list, p, e);
  }

  // ------------------------------------------------------------- one group is done

  /** A closed state already has the edge to the state that `newstate` finds. */
  lemma FoundTarget(g: Grammar, f: Sets, start: Production, a: Auto, cur: int, k0: Items, x: Symbol, m: Items, t: int)
    requires Base(g, f, start, a) && StateNo(a, cur) && Covered(g, f, a, cur) && SameCores(k0, a.states[cur].kernel)
    requires AsState(m) == Goto(g, f, AsState(k0), x) && m != [] && Strict(m) && StateNo(a, t)
    requires SameCores(a.states[t].kernel, m)
    ensures Edge(a, cur, x, t)
  {
    hide SoundStates, Edge;
    CoresKernel(k0, a.states[cur].kernel);
    GotoKernel(g, f, AsState(k0), St(a, cur), x);
    hide Goto;
    FirstHas(m);
    assert m[0].core in AsState(m).kernel;
    var u :| Edge(a, cur, x, u);
    assert EdgeOk(g, f, a, cur, x, u) && StateShape(g, a, u);
    forall c ensures Has(a.states[u].kernel, c) <==> Has(m, c) {
      assert c in AsState(a.states[u].kernel).kernel <==> c in AsState(m).kernel;
    }
    SortedSame(a.states[u].kernel, m);
    CoresApart2(a.states[u].kernel, a.states[t].kernel, m);
  }

  lemma CoresApart2(k: Items, l: Items, m: Items)
    requires SameCores(k, m) && SameCores(l, m)
    ensures SameCores(k, l) && SameCores(l, k)
  {
  }

  /** The edges to the kernel of a group are good edges. */
  lemma GroupEdge(g: Grammar, f: Sets, start: Production, a: Auto, cur: int, k0: Items, x: Symbol, m: Items, t: int)
    requires Base(g, f, start, a) && StateNo(a, cur) && SameCores(k0, a.states[cur].kernel)
    requires AsState(m) == Goto(g, f, AsState(k0), x) && Dotted(m) && StateNo(a, t) && SameCores(a.states[t].kernel, m)
    ensures EdgeOk(g, f, a, cur, x, t)
  {
    hide SoundStates, Edge, EdgesOk;
    CoresKernel(k0, a.states[cur].kernel);
    CoresKernel(a.states[t].kernel, m);
    GotoKernel(g, f, AsState(k0), St(a, cur), x);
    assert m[0].core.dot > 0 && a.states[t].kernel[0].core == m[0].core;
  }

  lemma GroupDone(g: Grammar, f: Sets, start: Production, a: Auto, cur: int, k0: Items, list: Items, p: nat, hi: nat,
        x: Symbol, t: int)
    requires Midway(g, f, start, a, cur, k0, list, p, hi) && IsGroup(list, p, hi, x)
    requires Edge(a, cur, x, t) && StateNo(a, t) && Goto(g, f, AsState(k0), x).looks <= St(a, t).looks
    ensures Midway(g, f, start, a, cur, k0, list, hi, hi)
  {
    hide Base, Settled, Goto, Edge, EpsCores, EpsFull, Covered;
    assert PassedOn(g, f, a, cur, x, AsState(k0));
    hide PassedOn;
    forall i | 0 <= i < hi && !list[i].core.AtEnd() ensures PassedOn(g, f, a, cur, list[i].core.Next(), AsState(k0)) {
      if i >= p {
        assert LrSort.RightOfDot(list[i].core) == x;
      }
    }
  }
}
