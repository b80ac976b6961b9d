/** What the finished LALR(1) automaton is: the canonical LR(1) automaton with the states of
    equal kernels merged, and nothing more. */
module LrTheorems {
  import opened Grammars
  import opened Symbols
  import opened First
  import opened LrItems
  import opened LrClosure
  import opened LrList
  import opened LrKernel
  import opened LrStates
  import opened LrSteps

  /** The loop of `lr` has ended: its invariant holds and no state is unfinished. */
  ghost predicate Finished(g: Grammar, f: Sets, start: Production, a: Auto) {
    Inv(g, f, start, a) && a.unfinished == {}
  }

  lemma AllAbsorbed(g: Grammar, f: Sets, start: Production, a: Auto, s: int)
    requires Finished(g, f, start, a) && StateNo(a, s)
    ensures Absorbed(g, f, a, s) && EpsCores(g, a.states[s].kernel, a.states[s].eps) && SoundState(g, f, start, a, s)
  {
    hide EpsCores, EpsFull, SoundKernel, SoundEps, Shape, EdgesOk, Covered, PassedOn;
    ShapeSizes(g, start, a);
    assert Settled(g, f, a, s) && SoundState(g, f, start, a, s);
  }

  // ---------------------------------------------------- every canonical state is there

  /** State `s` represents the canonical state after `w`: same kernel, no lookahead missing. */
  ghost predicate Represents(g: Grammar, f: Sets, start: Production, a: Auto, w: seq<Symbol>, s: int) {
    && StateNo(a, s) && St(a, s).kernel == Canonical(g, f, start, w).kernel
    && forall x | x in Canonical(g, f, start, w).looks :: x in St(a, s).looks
  }

  lemma FirstRepresents(g: Grammar, f: Sets, start: Production, a: Auto)
    requires Shape(g, start, a)
    ensures Represents(g, f, start, a, [], 0)
  {
    hide KernelOk, Strict, SameCores;
    var k := a.states[0].kernel;
    forall c ensures Has(k, c) <==> c == Core(start, 0) {
      if c == Core(start, 0) { assert k[0].core == c; }
    }
    assert HasLook(k, Core(start, 0), EOI);
    var s := Canonical(g, f, start, []);
    assert forall c :: c in s.kernel <==> c in St(a, 0).kernel;
  }

  /** The edge on `x` leads from a representative to a representative. */
  lemma NextRepresents(g: Grammar, f: Sets, start: Production, a: Auto, w: seq<Symbol>, x: Symbol, s: int)
    returns (t: int)
    requires Finished(g, f, start, a) && Represents(g, f, start, a, w, s)
    requires Canonical(g, f, start, w + [x]).kernel != iset{}
    ensures Edge(a, s, x, t) && Represents(g, f, start, a, w + [x], t)
  {
    hide Canonical, Shape, SoundStates, Settled, Looks;
    var c := Canonical(g, f, start, w);
    CanonicalSnoc(g, f, start, w, x);
    GotoKernel(g, f, c, St(a, s), x);
    AllAbsorbed(g, f, start, a, s);
    assert PassedOn(g, f, a, s, x, St(a, s));
    t :| Edge(a, s, x, t) && StateNo(a, t) && Goto(g, f, St(a, s), x).looks <= St(a, t).looks;
    assert EdgeOk(g, f, a, s, x, t);
    forall y | y in Goto(g, f, c, x).looks ensures y in St(a, t).looks {
      assert y == (y.0, y.1) && LooksAfter(g, f, c, x, y.0, y.1);
      var c0 := LookBefore(g, f, c, x, y.0, y.1);
      LooksMonotone(g, f, c, St(a, s), c0, y.1);
      LookNext(g, f, St(a, s), x, c0, y.0, y.1);
    }
  }

  lemma EmptyGoesNowhere(g: Grammar, f: Sets, s: Lr1, x: Symbol)
    requires s.kernel == iset{}
    ensures Goto(g, f, s, x).kernel == iset{}
  {
    forall c ensures !KernelAfter(g, s, x, c) {
      if KernelAfter(g, s, x, c) {
        var c0 :| Shifts(c0, x, c) && InClosure(g, s.kernel, c0);
        var n: nat :| CoreIn(g, s.kernel, c0, n);
        NothingIn(g, s.kernel, c0, n);
      }
    }
  }

  lemma {:induction false} NothingIn(g: Grammar, k: iset<Core>, c: Core, n: nat)
    requires k == iset{}
    ensures !CoreIn(g, k, c, n)
    decreases n
  {
    if n > 0 && CoreIn(g, k, c, n) {
      var c0 :| CoreIn(g, k, c0, n - 1) && Opens(g, c0, c);
      NothingIn(g, k, c0, n - 1);
    }
  }

  // ------------------------------------------------------------------- runs

  /** Following the recorded transitions on `w` from state 0 leads to `s`. */
  ghost predicate Follows(a: Auto, w: seq<Symbol>, s: int)
    decreases |w|
  {
    if w == [] then s == 0
    else
      var v, x := w[..|w| - 1], w[|w| - 1];
      exists r :: Follows(a, v, r) && Edge(a, r, x, s)
  }

  /** The automaton can follow exactly the words that have a canonical state, and arrives at
      its representative. */
  lemma {:induction false} FollowsRepresents(g: Grammar, f: Sets, start: Production, a: Auto, w: seq<Symbol>)
    requires Finished(g, f, start, a)
    ensures Canonical(g, f, start, w).kernel != iset{} ==> exists s :: Follows(a, w, s)
    ensures forall s | Follows(a, w, s) ::
      Represents(g, f, start, a, w, s) && Canonical(g, f, start, w).kernel != iset{}
    decreases |w|
  {
    hide Canonical, Shape, SoundStates, Settled, Represents, Edge;
    if w == [] {
      FirstRepresents(g, f, start, a);
      assert Follows(a, w, 0);
      CanonicalStart(g, f, start);
    } else {
      var v, x := w[..|w| - 1], w[|w| - 1];
      assert w == v + [x];
      FollowsRepresents(g, f, start, a, v);
      if Canonical(g, f, start, w).kernel != iset{} {
        CanonicalSnoc(g, f, start, v, x);
        if Canonical(g, f, start, v).kernel == iset{} {
          EmptyGoesNowhere(g, f, Canonical(g, f, start, v), x);
        }
        var r :| Follows(a, v, r);
        var s := NextRepresents(g, f, start, a, v, x, r);
        assert Follows(a, w, s);
      }
      forall s | Follows(a, w, s)
        ensures Represents(g, f, start, a, w, s) && Canonical(g, f, start, w).kernel != iset{}
      {
        var r :| Follows(a, v, r) && Edge(a, r, x, s);
        EdgeTarget(g, f, start, a, v, x, r, s);
        var t := NextRepresents(g, f, start, a, v, x, r);
        OneEdge(g, start, a, r, x, s, t);
      }
    }
  }

  lemma CanonicalStart(g: Grammar, f: Sets, start: Production)
    ensures Canonical(g, f, start, []).kernel != iset{}
  {
    assert Core(start, 0) in Canonical(g, f, start, []).kernel;
  }

  /** An edge only leads to a canonical state that exists. */
  lemma EdgeTarget(g: Grammar, f: Sets, start: Production, a: Auto, v: seq<Symbol>, x: Symbol, r: int, s: int)
    requires Finished(g, f, start, a) && Represents(g, f, start, a, v, r) && Edge(a, r, x, s)
    ensures Canonical(g, f, start, v + [x]).kernel != iset{} && StateNo(a, s)
  {
    hide Canonical, SoundStates, Settled, Goto;
    assert EdgeOk(g, f, a, r, x, s) && StateShape(g, a, s);
    CanonicalSnoc(g, f, start, v, x);
    GotoKernel(g, f, Canonical(g, f, start, v), St(a, r), x);
    FirstHas(a.states[s].kernel);
    assert a.states[s].kernel[0].core in St(a, s).kernel;
  }

  /** No state has two transitions on one symbol. */
  lemma OneEdge(g: Grammar, start: Production, a: Auto, s: int, x: Symbol, t: int, u: int)
    requires Shape(g, start, a) && Edge(a, s, x, t) && Edge(a, s, x, u)
    ensures t == u
  {
    hide StateShape, SameCores;
    assert DistinctSyms(a.actions[s]) && DistinctSyms(a.gotos[s]);
  }

  // ------------------------------------------------------------------- exactness

  /** The lookaheads of the kernel and epsilon items are exactly those of the merged
      canonical states. */
  lemma LookaheadsExact(g: Grammar, f: Sets, start: Production, a: Auto, s: int, c: Core, y: Symbol)
    requires Finished(g, f, start, a) && StateNo(a, s)
    ensures var k := a.states[s].kernel;
      && (HasLook(k, c, y) <==> Canon(g, f, start, k, c, y))
      && (HasLook(a.states[s].eps, c, y) <==> c.AtEnd() && Listed(g, k, c) && CanonClosure(g, f, start, k, c, y))
  {
    hide Canonical, SoundStates, Settled, Looks, Listed, PassedOn, EdgesOk;
    var k := a.states[s].kernel;
    AllAbsorbed(g, f, start, a, s);
    if Canon(g, f, start, k, c, y) {
      var w :| Reached(g, f, start, k, w) && (c, y) in Canonical(g, f, start, w).looks;
      AtState(g, f, start, a, s, w);
    }
    if HasLook(a.states[s].eps, c, y) {
      LookHas(a.states[s].eps, c, y);
    }
    if c.AtEnd() && Listed(g, k, c) && CanonClosure(g, f, start, k, c, y) {
      var w :| Reached(g, f, start, k, w) && Looks(g, f, Canonical(g, f, start, w), c, y);
      AtState(g, f, start, a, s, w);
      LooksMonotone(g, f, Canonical(g, f, start, w), St(a, s), c, y);
    }
  }

  /** The canonical states with the kernel of state `s` are represented by it. */
  lemma AtState(g: Grammar, f: Sets, start: Production, a: Auto, s: int, w: seq<Symbol>)
    requires Finished(g, f, start, a) && StateNo(a, s) && Reached(g, f, start, a.states[s].kernel, w)
    ensures Represents(g, f, start, a, w, s)
  {
    hide Canonical, SoundStates, Settled, EdgesOk;
    assert StateShape(g, a, s);
    FirstHas(a.states[s].kernel);
    assert a.states[s].kernel[0].core in St(a, s).kernel;
    FollowsRepresents(g, f, start, a, w);
    var t :| Follows(a, w, t);
    assert Represents(g, f, start, a, w, t);
    SameKernelSameState(g, start, a, s, t);
  }

  /** Two states with the same set of kernel items are one. */
  lemma SameKernelSameState(g: Grammar, start: Production, a: Auto, s: int, t: int)
    requires Shape(g, start, a) && StateNo(a, s) && StateNo(a, t) && St(a, s).kernel == St(a, t).kernel
    ensures s == t
  {
    assert StateShape(g, a, s) && StateShape(g, a, t);
    hide KernelOk, Strict, SameCores;
    forall c ensures Has(a.states[s].kernel, c) <==> Has(a.states[t].kernel, c) {
      assert c in St(a, s).kernel <==> c in St(a, t).kernel;
    }
    SortedSame(a.states[s].kernel, a.states[t].kernel);
    CoresApart2(a.states[s].kernel, a.states[t].kernel, a.states[t].kernel);
  }

  /** Every state is the merger of some canonical states, and every canonical state that is
      not empty has been merged into exactly one. */
  lemma StatesExact(g: Grammar, f: Sets, start: Production, a: Auto)
    requires Finished(g, f, start, a)
    ensures forall s | StateNo(a, s) :: exists w :: Reached(g, f, start, a.states[s].kernel, w)
    ensures forall w | Canonical(g, f, start, w).kernel != iset{} ::
      exists s :: StateNo(a, s) && Reached(g, f, start, a.states[s].kernel, w)
    ensures forall s, t | StateNo(a, s) && StateNo(a, t) && St(a, s).kernel == St(a, t).kernel :: s == t
  {
    hide Canonical, Shape, EdgesOk, Settled;
    forall s | StateNo(a, s) ensures exists w :: Reached(g, f, start, a.states[s].kernel, w) {
      assert SoundState(g, f, start, a, s);
    }
    forall w | Canonical(g, f, start, w).kernel != iset{}
      ensures exists s :: StateNo(a, s) && Reached(g, f, start, a.states[s].kernel, w)
    {
      FollowsRepresents(g, f, start, a, w);
      var s :| Follows(a, w, s);
      assert Represents(g, f, start, a, w, s);
    }
    forall s, t | StateNo(a, s) && StateNo(a, t) && St(a, s).kernel == St(a, t).kernel ensures s == t {
      SameKernelSameState(g, start, a, s, t);
    }
  }

  /** Each state goes on exactly the symbols that follow a dot in its closure; it has one
      transition for each, to the state with the moved items, and never to state 0. */
  lemma EdgesExact(g: Grammar, f: Sets, start: Production, a: Auto, s: int, x: Symbol)
    requires Finished(g, f, start, a) && StateNo(a, s)
    ensures (exists t :: Edge(a, s, x, t)) <==> Goto(g, f, St(a, s), x).kernel != iset{}
    ensures forall t | Edge(a, s, x, t) :: 0 < t < |a.states| && St(a, t).kernel == Goto(g, f, St(a, s), x).kernel
    ensures forall t, u | Edge(a, s, x, t) && Edge(a, s, x, u) :: t == u
  {
    hide SoundStates, Settled, Goto;
    AllAbsorbed(g, f, start, a, s);
    forall t | Edge(a, s, x, t) ensures EdgeOk(g, f, a, s, x, t) && Goto(g, f, St(a, s), x).kernel != iset{} {
      assert EdgeOk(g, f, a, s, x, t) && StateShape(g, a, t);
      FirstHas(a.states[t].kernel);
      assert a.states[t].kernel[0].core in St(a, t).kernel;
    }
    if Goto(g, f, St(a, s), x).kernel != iset{} {
      assert PassedOn(g, f, a, s, x, St(a, s));
    }
    forall t, u | Edge(a, s, x, t) && Edge(a, s, x, u) ensures t == u {
      OneEdge(g, start, a, s, x, t, u);
    }
  }
}
