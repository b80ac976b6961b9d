/** The LALR(1) automaton while it is being made: states that are merged by their kernels,
    edges between them, and what is known of their lookaheads. */
module LrStates {
  import opened Grammars
  import opened Symbols
  import opened LrItems
  import opened LrClosure
  import opened LrList
  import opened LrKernel

  const MAXSTATE: nat := 1024
  const MAXKERNEL: nat := 64
  const MAXEPSILON: nat := 16
  const MAXUNFINISHED: nat := 257

  datatype State = State(kernel: Items, eps: Items, closed: bool)

  /** An element of the action or goto chain of a state. */
  datatype Act = Act(sym: int, to: int)

  datatype Auto = Auto(states: seq<State>, actions: seq<seq<Act>>, gotos: seq<seq<Act>>, unfinished: set<int>)

  // -------------------------------------------------------- canonical LR(1) states

  /** After `w` the canonical LR(1) automaton is in a state with this kernel. */
  ghost predicate Reached(g: Grammar, f: Sets, start: Production, kernel: Items, w: seq<Symbol>) {
    Canonical(g, f, start, w).kernel == AsState(kernel).kernel
  }

  /** Some canonical state with this kernel has the kernel item `c` with lookahead `a`. */
  ghost predicate Canon(g: Grammar, f: Sets, start: Production, kernel: Items, c: Core, a: Symbol) {
    exists w :: Reached(g, f, start, kernel, w) && (c, a) in Canonical(g, f, start, w).looks
  }

  /** The same for the closure of the state. */
  ghost predicate CanonClosure(g: Grammar, f: Sets, start: Production, kernel: Items, c: Core, a: Symbol) {
    exists w :: Reached(g, f, start, kernel, w) && Looks(g, f, Canonical(g, f, start, w), c, a)
  }

  /** Every lookahead has a derivation in the canonical automaton. */
  ghost predicate SoundKernel(g: Grammar, f: Sets, start: Production, kernel: Items) {
    && (exists w :: Reached(g, f, start, kernel, w))
    && (forall c, a | HasLook(kernel, c, a) :: Canon(g, f, start, kernel, c, a))
  }

  ghost predicate SoundEps(g: Grammar, f: Sets, start: Production, kernel: Items, eps: Items) {
    forall c, a | HasLook(eps, c, a) :: CanonClosure(g, f, start, kernel, c, a)
  }

  lemma SoundClosure(g: Grammar, f: Sets, start: Production, kernel: Items, c: Core, a: Symbol)
    requires SoundKernel(g, f, start, kernel) && Looks(g, f, AsState(kernel), c, a)
    ensures CanonClosure(g, f, start, kernel, c, a)
  {
    var s := AsState(kernel);
    var n: nat :| LookIn(g, f, s, c, a, n);
    var any, c1 := LookOrigin(g, f, s, c, a, n);
    if any {
      var w :| Reached(g, f, start, kernel, w);
      assert LookIn(g, f, Canonical(g, f, start, w), c, a, n);
    } else {
      assert HasLook(kernel, c1, a) && Canon(g, f, start, kernel, c1, a);
      var w :| Reached(g, f, start, kernel, w) && (c1, a) in Canonical(g, f, start, w).looks;
      assert LookIn(g, f, Canonical(g, f, start, w), c, a, n);
    }
  }

  /** The kernel after a transition depends on the kernel before it. */
  lemma GotoKernel(g: Grammar, f: Sets, s: Lr1, s': Lr1, x: Symbol)
    requires s.kernel == s'.kernel
    ensures Goto(g, f, s, x).kernel == Goto(g, f, s', x).kernel
  {
    assert forall c :: KernelAfter(g, s, x, c) <==> KernelAfter(g, s', x, c);
  }

  lemma CanonicalSnoc(g: Grammar, f: Sets, start: Production, w: seq<Symbol>, x: Symbol)
    ensures Canonical(g, f, start, w + [x]) == Goto(g, f, Canonical(g, f, start, w), x)
  {
    assert (w + [x])[..|w|] == w;
  }

  /** Transitions lead from sound states to sound states. */
  lemma SoundGoto(g: Grammar, f: Sets, start: Production, kernel: Items, x: Symbol, kernel': Items)
    requires SoundKernel(g, f, start, kernel) && AsState(kernel') == Goto(g, f, AsState(kernel), x)
    ensures SoundKernel(g, f, start, kernel')
  {
    hide Looks, InClosure, Goto, Canonical;
    var w :| Reached(g, f, start, kernel, w);
    ReachedNext(g, f, start, kernel, x, kernel', w);
    forall c, a | HasLook(kernel', c, a) ensures Canon(g, f, start, kernel', c, a) {
      assert (c, a) in AsState(kernel').looks;
      var c0 := LookBefore(g, f, AsState(kernel), x, c, a);
      SoundClosure(g, f, start, kernel, c0, a);
      var v :| Reached(g, f, start, kernel, v) && Looks(g, f, Canonical(g, f, start, v), c0, a);
      ReachedNext(g, f, start, kernel, x, kernel', v);
      LookNext(g, f, Canonical(g, f, start, v), x, c0, c, a);
      CanonicalSnoc(g, f, start, v, x);
      assert (c, a) in Canonical(g, f, start, v + [x]).looks;
    }
  }

  lemma ReachedNext(g: Grammar, f: Sets, start: Production, kernel: Items, x: Symbol, kernel': Items, w: seq<Symbol>)
    requires Reached(g, f, start, kernel, w) && AsState(kernel').kernel == Goto(g, f, AsState(kernel), x).kernel
    ensures Reached(g, f, start, kernel', w + [x])
  {
    hide Goto;
    CanonicalSnoc(g, f, start, w, x);
    GotoKernel(g, f, AsState(kernel), Canonical(g, f, start, w), x);
  }

  lemma LookBefore(g: Grammar, f: Sets, s: Lr1, x: Symbol, c: Core, a: Symbol) returns (c0: Core)
    requires (c, a) in Goto(g, f, s, x).looks
    ensures Shifts(c0, x, c) && Looks(g, f, s, c0, a)
  {
    assert LooksAfter(g, f, s, x, c, a);
    c0 :| Shifts(c0, x, c) && Looks(g, f, s, c0, a);
  }

  lemma LookNext(g: Grammar, f: Sets, s: Lr1, x: Symbol, c0: Core, c: Core, a: Symbol)
    requires Shifts(c0, x, c) && Looks(g, f, s, c0, a)
    ensures (c, a) in Goto(g, f, s, x).looks
  {
    assert LooksAfter(g, f, s, x, c, a);
  }

  // ---------------------------------------------------------------- invariants

  predicate StateNo(a: Auto, s: int) { 0 <= s < |a.states| }

  /** A transition that has been recorded. */
  predicate Edge(a: Auto, s: int, x: Symbol, t: int) {
    && StateNo(a, s) && s < |a.actions| && s < |a.gotos|
    && if IsTerm(x) then Act(x, t) in a.actions[s] else IsNonterm(x) && Act(x - MINNONTERM, t) in a.gotos[s]
  }

  predicate DistinctSyms(acts: seq<Act>) {
    forall i, j | 0 <= i < j < |acts| :: acts[i].sym != acts[j].sym
  }

  /** The action chain has terminals only. */
  predicate OnTerms(acts: seq<Act>) {
    forall i | 0 <= i < |acts| :: IsTerm(acts[i].sym)
  }

  ghost predicate StateShape(g: Grammar, a: Auto, s: int)
    requires StateNo(a, s)
  {
    && KernelOk(g, a.states[s].kernel) && Strict(a.states[s].kernel) && a.states[s].kernel != []
    && ItemsOk(g, a.states[s].eps)
    && (s > 0 ==> forall i | 0 <= i < |a.states[s].kernel| :: a.states[s].kernel[i].core.dot > 0)
  }

  ghost predicate Shape(g: Grammar, start: Production, a: Auto) {
    && 0 < |a.states| <= MAXSTATE && |a.actions| == |a.gotos| == |a.states|
    && (forall s | s in a.unfinished :: StateNo(a, s))
    && (forall s | 0 <= s < |a.states| :: StateShape(g, a, s))
    && |a.states[0].kernel| == 1 && a.states[0].kernel[0].core == Core(start, 0) && EOI in a.states[0].kernel[0].la
    && (forall s | 0 <= s < |a.states| :: OnTerms(a.actions[s]))
    && (forall s, t | 0 <= s < t < |a.states| :: !SameCores(a.states[s].kernel, a.states[t].kernel))
    && (forall s | 0 <= s < |a.states| :: DistinctSyms(a.actions[s]) && DistinctSyms(a.gotos[s]))
  }

  ghost function St(a: Auto, s: int): Lr1
    requires StateNo(a, s)
  {
    AsState(a.states[s].kernel)
  }

  /** Every edge leads to the state with the right kernel, which is not state 0. */
  ghost predicate EdgeOk(g: Grammar, f: Sets, a: Auto, s: int, x: Symbol, t: int)
    requires StateNo(a, s)
  {
    0 < t < |a.states| && St(a, t).kernel == Goto(g, f, St(a, s), x).kernel
  }

  ghost predicate EdgesOk(g: Grammar, f: Sets, a: Auto) {
    forall s, x, t | Edge(a, s, x, t) :: EdgeOk(g, f, a, s, x, t)
  }

  ghost predicate SoundState(g: Grammar, f: Sets, start: Production, a: Auto, s: int)
    requires StateNo(a, s)
  {
    SoundKernel(g, f, start, a.states[s].kernel) && SoundEps(g, f, start, a.states[s].kernel, a.states[s].eps)
  }

  ghost predicate SoundStates(g: Grammar, f: Sets, start: Production, a: Auto) {
    forall s | 0 <= s < |a.states| :: SoundState(g, f, start, a, s)
  }

  /** There is an edge for every symbol on which the state goes anywhere. */
  ghost predicate Covered(g: Grammar, f: Sets, a: Auto, s: int)
    requires StateNo(a, s)
  {
    forall x | Goto(g, f, St(a, s), x).kernel != iset{} :: exists t :: Edge(a, s, x, t)
  }

  /** The epsilon items of a state are those of its closure. */
  ghost predicate EpsCores(g: Grammar, kernel: Items, eps: Items) {
    Strict(eps) && forall c :: Has(eps, c) <==> Listed(g, kernel, c) && c.AtEnd()
  }

  /** They have all their lookaheads. */
  ghost predicate EpsFull(g: Grammar, f: Sets, kernel: Items, eps: Items) {
    forall c, a | Has(eps, c) && Looks(g, f, AsState(kernel), c, a) :: HasLook(eps, c, a)
  }

  /** Edges and epsilon items are recorded when a state is closed, all at once. */
  ghost predicate ClosedOk(g: Grammar, f: Sets, a: Auto, s: int)
    requires StateNo(a, s) && s < |a.actions| && s < |a.gotos|
  {
    if a.states[s].closed then Covered(g, f, a, s) && EpsCores(g, a.states[s].kernel, a.states[s].eps)
    else a.actions[s] == [] && a.gotos[s] == [] && a.states[s].eps == []
  }

  /** The edge on `x` passes all lookaheads on. */
  ghost predicate PassedOn(g: Grammar, f: Sets, a: Auto, s: int, x: Symbol, k: Lr1) {
    exists t :: Edge(a, s, x, t) && StateNo(a, t) && Goto(g, f, k, x).looks <= St(a, t).looks
  }

  /** The lookaheads of the state have reached everything they lead to. */
  ghost predicate Absorbed(g: Grammar, f: Sets, a: Auto, s: int)
    requires StateNo(a, s)
  {
    && a.states[s].closed && EpsFull(g, f, a.states[s].kernel, a.states[s].eps)
    && forall x | Goto(g, f, St(a, s), x).kernel != iset{} :: PassedOn(g, f, a, s, x, St(a, s))
  }

  ghost predicate Settled(g: Grammar, f: Sets, a: Auto, s: int)
    requires StateNo(a, s) && s < |a.actions| && s < |a.gotos|
  {
    ClosedOk(g, f, a, s) && (s in a.unfinished || Absorbed(g, f, a, s))
  }

  /** The invariant of the loop of `lr`. */
  ghost predicate Inv(g: Grammar, f: Sets, start: Production, a: Auto) {
    && Shape(g, start, a) && EdgesOk(g, f, a) && SoundStates(g, f, start, a)
    && forall s | 0 <= s < |a.states| :: Settled(g, f, a, s)
  }
}
