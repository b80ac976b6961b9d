/** One transition of a state: what a group of closure items does to the automaton. */
module LrGroups {
  import opened Grammars
  import opened Symbols
  import opened LrItems
  import opened LrClosure
  import opened LrSort
  import opened LrList
  import opened LrKernel
  import opened LrStates
  import opened LrSteps
  import opened LrTurns

  /** The items from `p` to `hi` are a group and `m` is its kernel. */
  ghost predicate GroupOf(g: Grammar, f: Sets, start: Production, k0: Items, list: Items, p: nat, hi: nat, x: Symbol,
        m: Items) {
    && IsGroup(list, p, hi, x) && (IsTerm(x) || IsNonterm(x)) && !list[p].core.AtEnd()
    && AsState(m) == Goto(g, f, AsState(k0), x)
    && Dotted(m) && KernelOk(g, m) && Strict(m) && SoundKernel(g, f, start, m)
  }

  lemma GroupFound(g: Grammar, f: Sets, start: Production, k0: Items, list: Items, p: nat, hi: nat, x: Symbol)
    requires Plain(g) && ListOf(g, f, k0, list) && Sorted(list) && IsGroup(list, p, hi, x)
    requires SoundKernel(g, f, start, k0)
    requires (IsTerm(x) || IsNonterm(x)) && !list[p].core.AtEnd()
    ensures GroupOf(g, f, start, k0, list, p, hi, x, MovedItems(list[p..hi]))
  {
    hide Plain, ListOf, Sorted, SoundKernel, KernelOk, Strict, Goto;
    GroupKernel(g, f, k0, list, p, hi, x);
    GroupOk(g, f, k0, list, p, hi, x);
    SoundGoto(g, f, start, k0, x, MovedItems(list[p..hi]));
  }

  /** A closed state needs no new state. */
  lemma ClosedNotNew(g: Grammar, f: Sets, start: Production, a: Auto, cur: int, k0: Items, x: Symbol, m: Items)
    requires Base(g, f, start, a) && StateNo(a, cur) && Covered(g, f, a, cur) && SameCores(k0, a.states[cur].kernel)
    requires AsState(m) == Goto(g, f, AsState(k0), x) && m != [] && Strict(m)
    ensures !IsNew(a, m)
  {
    hide SoundStates, Edge;
    CoresKernel(k0, a.states[cur].kernel);
    GotoKernel(g, f, AsState(k0), St(a, cur), x);
    hide Goto;
    FirstHas(m);
    assert m[0].core in AsState(m).kernel;
    var u :| Edge(a, cur, x, u);
    assert EdgeOk(g, f, a, cur, x, u) && StateShape(g, a, u);
    forall c ensures Has(a.states[u].kernel, c) <==> Has(m, c) {
      assert c in AsState(a.states[u].kernel).kernel <==> c in AsState(m).kernel;
    }
    SortedSame(a.states[u].kernel, m);
  }

  lemma WorkingCores(g: Grammar, f: Sets, a: Auto, cur: int, k0: Items, list: Items, p: nat, e: nat)
    requires StateNo(a, cur) && Working(g, f, a, cur, k0, list, p, e)
    ensures SameCores(k0, a.states[cur].kernel) && (a.states[cur].closed ==> Covered(g, f, a, cur))
  {
  }

  /** In a closed state the edges are there already. */
  lemma ClosedEdges(g: Grammar, f: Sets, start: Production, a: Auto, cur: int, k0: Items, list: Items, p: nat, hi: nat)
    requires Midway(g, f, start, a, cur, k0, list, p, p) && a.states[cur].closed && p <= hi <= |list|
    ensures Midway(g, f, start, a, cur, k0, list, p, hi)
  {
    hide Base, OthersSettled, PassedOn, EpsCores, EpsFull, Covered;
  }

  lemma GroupNew(g: Grammar, f: Sets, start: Production, a: Auto, cur: int, k0: Items, list: Items, p: nat, hi: nat,
        x: Symbol, m: Items)
    requires Midway(g, f, start, a, cur, k0, list, p, p) && GroupOf(g, f, start, k0, list, p, hi, x, m)
    requires IsNew(a, m) && |a.states| < MAXSTATE
    ensures !a.states[cur].closed && |a.actions| == |a.gotos| == |a.states|
    ensures Midway(g, f, start, WithEdge(WithState(a, m), cur, x, |a.states|), cur, k0, list, hi, hi)
  {
    hide Base, OthersSettled, Working, Goto, SoundKernel, KernelOk, Strict, IsNew, Dotted, Covered, Edge, IsGroup;
    BaseShape(g, f, start, a);
    WorkingCores(g, f, a, cur, k0, list, p, p);
    DottedSome(m);
    if a.states[cur].closed {
      ClosedNotNew(g, f, start, a, cur, k0, x, m);
    }
    var t := |a.states|;
    var b := WithState(a, m);
    WithStateMidway(g, f, start, a, m, cur, k0, list, p, p);
    WorkingCores(g, f, b, cur, k0, list, p, p);
    ExtendsSelf(m);
    GroupEdge(g, f, start, b, cur, k0, x, m, t);
    WithEdgeMidway(g, f, start, b, x, t, cur, k0, list, p, hi);
    BaseShape(g, f, start, b);
    WithEdgeEdges(b, cur, x, t);
    var c := WithEdge(b, cur, x, t);
    GroupDone(g, f, start, c, cur, k0, list, p, hi, x, t);
  }

  lemma DottedSome(m: Items)
    requires Dotted(m)
    ensures m != []
  {
  }

  /** The edge of a group to a state that exists, if the edge is not there yet. */
  function MaybeEdge(a: Auto, cur: int, x: Symbol, t: int): Auto
    requires StateNo(a, cur) && |a.actions| == |a.gotos| == |a.states|
  {
    if a.states[cur].closed then a else WithEdge(a, cur, x, t)
  }

  lemma GroupOldEdge(g: Grammar, f: Sets, start: Production, a: Auto, cur: int, k0: Items, list: Items, p: nat,
        hi: nat, x: Symbol, m: Items, t: int)
    requires Midway(g, f, start, a, cur, k0, list, p, p) && GroupOf(g, f, start, k0, list, p, hi, x, m)
    requires StateNo(a, t) && SameCores(a.states[t].kernel, m)
    ensures |a.actions| == |a.gotos| == |a.states|
    ensures var b := MaybeEdge(a, cur, x, t);
      Midway(g, f, start, b, cur, k0, list, p, hi) && Edge(b, cur, x, t) && b.states == a.states
  {
    hide Base, OthersSettled, Working, Goto, SoundKernel, KernelOk, Strict, Covered, Edge;
    BaseShape(g, f, start, a);
    WorkingCores(g, f, a, cur, k0, list, p, p);
    if a.states[cur].closed {
      FoundTarget(g, f, start, a, cur, k0, x, m, t);
      ClosedEdges(g, f, start, a, cur, k0, list, p, hi);
    } else {
      GroupEdge(g, f, start, a, cur, k0, x, m, t);
      WithEdgeMidway(g, f, start, a, x, t, cur, k0, list, p, hi);
      WithEdgeEdges(a, cur, x, t);
    }
  }

  /** The lookaheads of a group merged into the state its edge leads to. */
  lemma GroupOld(g: Grammar, f: Sets, start: Production, a: Auto, cur: int, k0: Items, list: Items, p: nat, hi: nat,
        x: Symbol, m: Items, t: int)
    requires Midway(g, f, start, a, cur, k0, list, p, hi) && GroupOf(g, f, start, k0, list, p, hi, x, m)
    requires StateNo(a, t) && SameCores(a.states[t].kernel, m) && Edge(a, cur, x, t)
    ensures var k := UnionItems(a.states[t].kernel, m);
      && ItemsOk(g, k) && Extends(a.states[t].kernel, k)
      && Midway(g, f, start, if k == a.states[t].kernel then a else WithKernel(a, t, k), cur, k0, list, hi, hi)
  {
    hide Base, OthersSettled, Working, Goto, SoundKernel, Covered, Edge, IsGroup;
    var k := UnionItems(a.states[t].kernel, m);
    BaseShape(g, f, start, a);
    TargetOk(g, start, a, t);
    UnionHas(a.states[t].kernel, m);
    UnionOk(g, a.states[t].kernel, m);
    ExtendsLooks(m, k);
    hide KernelOk, Strict, Dotted;
    if k == a.states[t].kernel {
      GroupDone(g, f, start, a, cur, k0, list, p, hi, x, t);
    } else {
      var b := WithKernel(a, t, k);
      WithKernelMidway(g, f, start, a, t, k, m, cur, k0, list, p, hi);
      WithKernelGrows(a, t, k);
      GroupDone(g, f, start, b, cur, k0, list, p, hi, x, t);
    }
  }

  lemma TargetOk(g: Grammar, start: Production, a: Auto, t: int)
    requires Shape(g, start, a) && StateNo(a, t)
    ensures ItemsOk(g, a.states[t].kernel) && KernelOk(g, a.states[t].kernel) && a.states[t].kernel != []
  {
    assert StateShape(g, a, t);
  }
}
