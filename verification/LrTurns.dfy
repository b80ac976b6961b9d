/** The beginning and the end of a turn of the loop of `lr`, and why the loop ends. */
module LrTurns {
  import opened Grammars
  import opened Symbols
  import opened LrItems
  import opened LrClosure
  import opened LrSort
  import opened LrList
  import opened LrKernel
  import opened LrStates
  import opened LrSteps

  // ------------------------------------------------------------- epsilon items

  /** The first `n` items of the list are the epsilon items. */
  predicate EpsPrefix(list: Items, n: nat) {
    n <= |list| && forall i | 0 <= i < |list| :: list[i].core.AtEnd() <==> i < n
  }

  lemma {:induction false} AtEndIsEmpty(g: Grammar, f: Sets, k0: Items, list: Items, i: nat)
    requires ListOf(g, f, k0, list) && i < |list| && list[i].core.AtEnd()
    ensures list[i].core.prod.rhs == []
  {
    hide Looks;
    var c := list[i].core;
    assert Has(list, c) && Listed(g, k0, c);
    var n: nat :| CoreIn(g, AsState(k0).kernel, c, n);
    ClosureDots(g, AsState(k0).kernel, c, n);
  }

  /** The epsilon items sort to the front. */
  lemma EpsInFront(g: Grammar, f: Sets, k0: Items, list: Items, n: nat)
    requires Plain(g) && ListOf(g, f, k0, list) && Sorted(list) && n <= |list|
    requires (forall i | 0 <= i < n :: list[i].core.prod.rhs == []) && (n < |list| ==> list[n].core.prod.rhs != [])
    ensures EpsPrefix(list, n)
  {
    hide Plain, Listed, Looks;
    if n < |list| && list[n].core.AtEnd() {
      AtEndIsEmpty(g, f, k0, list, n);
    }
    forall i | n < i < |list| ensures !list[i].core.AtEnd() {
      assert ItemOk(g, list[n]) && ItemOk(g, list[i]) && ItemLeq(list[n], list[i]);
      NextIsPositive(g, list[n].core);
      NextIsPositive(g, list[i].core);
    }
  }

  lemma PrefixHas(list: Items, n: nat, c: Core)
    requires EpsPrefix(list, n)
    ensures Has(list[..n], c) <==> Has(list, c) && c.AtEnd()
    ensures forall a :: HasLook(list[..n], c, a) <==> HasLook(list, c, a) && c.AtEnd()
  {
    if i :| 0 <= i < |list[..n]| && list[..n][i].core == c { assert list[i].core == c; }
    if i :| 0 <= i < |list| && list[i].core == c && c.AtEnd() { assert list[..n][i].core == c; }
    forall a ensures HasLook(list[..n], c, a) <==> HasLook(list, c, a) && c.AtEnd() {
      if i :| 0 <= i < n && list[..n][i].core == c && a in list[..n][i].la { assert a in list[i].la; }
      if i :| 0 <= i < |list| && list[i].core == c && a in list[i].la && c.AtEnd() { assert a in list[..n][i].la; }
    }
  }

  lemma PrefixStrict(g: Grammar, list: Items, n: nat)
    requires Plain(g) && ItemsOk(g, list) && DistinctCores(list) && Sorted(list) && EpsPrefix(list, n)
    ensures Strict(list[..n])
  {
    hide Plain;
    forall i, j | 0 <= i < j < n ensures Before(list[i].core, list[j].core) {
      assert ItemLeq(list[i], list[j]) && ItemOk(g, list[i]) && ItemOk(g, list[j]);
      SameNumber(g, list[i].core, list[j].core);
    }
  }

  /** The epsilon items of the list are those of the state. */
  lemma PrefixCores(g: Grammar, f: Sets, k0: Items, list: Items, n: nat)
    requires Plain(g) && ListOf(g, f, k0, list) && Sorted(list) && EpsPrefix(list, n)
    ensures EpsCores(g, k0, list[..n])
  {
    hide Plain, Looks, Has, Sorted, EpsPrefix;
    ListFacts(g, f, k0, list);
    PrefixSame(list, n);
    PrefixStrict(g, list, n);
    hide ListOf;
    forall c ensures Has(list[..n], c) <==> Listed(g, k0, c) && c.AtEnd() {
      PrefixHas(list, n, c);
      assert Has(list, c) <==> Listed(g, k0, c);
    }
  }

  /** Old and new lookaheads of the same items together. */
  function UnionItems(s: Items, t: Items): (r: Items)
    requires |s| == |t|
    ensures |r| == |s| && forall i | 0 <= i < |s| :: r[i] == Item(s[i].core, s[i].la + t[i].la)
  {
    if s == [] then []
    else UnionItems(s[..|s| - 1], t[..|t| - 1]) + [Item(s[|s| - 1].core, s[|s| - 1].la + t[|t| - 1].la)]
  }

  lemma UnionHas(s: Items, t: Items)
    requires SameCores(s, t)
    ensures SameCores(s, UnionItems(s, t)) && SameCores(t, UnionItems(s, t))
    ensures Extends(s, UnionItems(s, t)) && Extends(t, UnionItems(s, t))
    ensures forall c, a :: HasLook(UnionItems(s, t), c, a) <==> HasLook(s, c, a) || HasLook(t, c, a)
  {
    var r := UnionItems(s, t);
    forall c, a ensures HasLook(r, c, a) <==> HasLook(s, c, a) || HasLook(t, c, a) {
      if i :| 0 <= i < |r| && r[i].core == c && a in r[i].la {
        if a in s[i].la {
          assert s[i].core == c;
        } else {
          assert t[i].core == c && a in t[i].la;
        }
      }
      if i :| 0 <= i < |s| && s[i].core == c && a in s[i].la { assert r[i].core == c && a in r[i].la; }
      if i :| 0 <= i < |t| && t[i].core == c && a in t[i].la { assert r[i].core == c && a in r[i].la; }
    }
  }

  lemma UnionOk(g: Grammar, s: Items, t: Items)
    requires SameCores(s, t) && ItemsOk(g, s) && ItemsOk(g, t)
    ensures ItemsOk(g, UnionItems(s, t))
  {
    forall i | 0 <= i < |s| ensures ItemOk(g, UnionItems(s, t)[i]) {
      assert ItemOk(g, s[i]) && ItemOk(g, t[i]);
    }
  }

  /** What move_eps makes of the epsilon items there are and those of the list. */
  ghost predicate EpsMoved(g: Grammar, f: Sets, start: Production, k0: Items, list: Items, eps': Items) {
    EpsCores(g, k0, eps') && EpsFull(g, f, k0, eps') && SoundEps(g, f, start, k0, eps') && ItemsOk(g, eps')
  }

  lemma EpsLooks(g: Grammar, f: Sets, start: Production, k0: Items, list: Items, n: nat, eps': Items)
    requires ListOf(g, f, k0, list) && EpsPrefix(list, n) && SoundKernel(g, f, start, k0)
    requires SameCores(list[..n], eps') && forall c, a | HasLook(list[..n], c, a) :: HasLook(eps', c, a)
    ensures EpsFull(g, f, k0, eps') && SoundEps(g, f, start, k0, list[..n])
  {
    hide Looks, Has, HasLook, SoundKernel, CanonClosure, EpsPrefix;
    ListFacts(g, f, k0, list);
    hide ListOf;
    PrefixSame(list, n);
    SameCoresHas(list[..n], eps');
    forall c, a | Has(eps', c) && Looks(g, f, AsState(k0), c, a) ensures HasLook(eps', c, a) {
      PrefixHas(list, n, c);
    }
    forall c, a | HasLook(list[..n], c, a) ensures CanonClosure(g, f, start, k0, c, a) {
      PrefixHas(list, n, c);
      LookHas(list, c, a);
      SoundClosure(g, f, start, k0, c, a);
    }
  }

  lemma EpsMerged(g: Grammar, f: Sets, start: Production, k0: Items, list: Items, n: nat, eps: Items)
    requires Plain(g) && ListOf(g, f, k0, list) && Sorted(list) && EpsPrefix(list, n) && SoundKernel(g, f, start, k0)
    requires eps == [] || (EpsCores(g, k0, eps) && SoundEps(g, f, start, k0, eps) && ItemsOk(g, eps))
    ensures eps == [] ==> EpsMoved(g, f, start, k0, list, list[..n])
    ensures eps != [] ==> SameCores(eps, list[..n]) && EpsMoved(g, f, start, k0, list, UnionItems(eps, list[..n]))
  {
    hide Plain, Looks, SoundKernel, CanonClosure, EpsPrefix, Sorted, Listed, EpsFull;
    PrefixCores(g, f, k0, list, n);
    PrefixSame(list, n);
    ListFacts(g, f, k0, list);
    hide ListOf;
    var front := list[..n];
    if eps == [] {
      EpsLooks(g, f, start, k0, list, n, front);
    } else {
      SortedSame(eps, front);
      UnionHas(eps, front);
      UnionOk(g, eps, front);
      EpsLooks(g, f, start, k0, list, n, UnionItems(eps, front));
      EpsUnionCores(g, k0, eps, UnionItems(eps, front));
    }
  }

  lemma PrefixSame(list: Items, n: nat)
    requires EpsPrefix(list, n)
    ensures n <= |list| && SameCores(list[..n], list[..n])
  {
  }

  lemma EpsUnionCores(g: Grammar, k0: Items, eps: Items, eps': Items)
    requires EpsCores(g, k0, eps) && SameCores(eps, eps')
    ensures EpsCores(g, k0, eps')
  {
    SameCoresHas(eps, eps');
  }

  // ------------------------------------------------------------ a turn begins

  function TakenUp(a: Auto, cur: int, eps': Items): Auto
    requires StateNo(a, cur)
  {
    a.(states := a.states[cur := a.states[cur].(eps := eps')], unfinished := a.unfinished - {cur})
  }

  lemma TakenUpMidway(g: Grammar, f: Sets, start: Production, a: Auto, cur: int, list: Items, n: nat, eps': Items)
    requires Inv(g, f, start, a) && StateNo(a, cur)
    requires var k0 := a.states[cur].kernel;
      ListOf(g, f, k0, list) && EpsPrefix(list, n) && EpsMoved(g, f, start, k0, list, eps')
    ensures Midway(g, f, start, TakenUp(a, cur, eps'), cur, a.states[cur].kernel, list, n, n)
  {
    hide Goto, SoundKernel, SoundEps, KernelOk, Strict, Edge, EpsCores, EpsFull, Listed, ListOf;
    var b := TakenUp(a, cur, eps');
    var k0 := a.states[cur].kernel;
    ExtendsSelf(k0);
    TakenUpBase(g, f, start, a, cur, eps');
    TakenUpOthers(g, f, start, a, cur, eps');
    assert Settled(g, f, a, cur);
    hide Base, OthersSettled;
    if a.states[cur].closed {
      CoveredKept(g, f, a, b, cur);
    } else {
      NoEdges(a, b, cur);
    }
  }

  lemma NoEdges(a: Auto, b: Auto, cur: int)
    requires StateNo(a, cur) && cur < |a.actions| && cur < |a.gotos| && a.actions[cur] == [] && a.gotos[cur] == []
    requires b.actions == a.actions && b.gotos == a.gotos
    ensures forall x, t :: !Edge(b, cur, x, t)
  {
  }

  lemma TakenUpGrows(a: Auto, cur: int, eps': Items)
    requires StateNo(a, cur) && |a.actions| == |a.gotos| == |a.states|
    ensures Grows(a, TakenUp(a, cur, eps'))
    ensures forall s, x, t :: Edge(TakenUp(a, cur, eps'), s, x, t) <==> Edge(a, s, x, t)
  {
    forall s | 0 <= s < |a.states| ensures StateGrows(a.states[s], TakenUp(a, cur, eps').states[s]) {
      ExtendsSelf(a.states[s].kernel);
    }
  }

  lemma TakenUpBase(g: Grammar, f: Sets, start: Production, a: Auto, cur: int, eps': Items)
    requires Base(g, f, start, a) && StateNo(a, cur) && ItemsOk(g, eps')
    requires SoundEps(g, f, start, a.states[cur].kernel, eps')
    ensures Base(g, f, start, TakenUp(a, cur, eps'))
  {
    hide Goto, SoundKernel, SoundEps, KernelOk, Strict, Edge, SameCores;
    var b := TakenUp(a, cur, eps');
    TakenUpGrows(a, cur, eps');
    forall s | 0 <= s < |b.states| ensures StateShape(g, b, s) && SoundState(g, f, start, b, s) {
      assert StateShape(g, a, s) && SoundState(g, f, start, a, s);
    }
    forall s, x, t | Edge(b, s, x, t) ensures StateNo(b, s) && EdgeOk(g, f, b, s, x, t) {
      EdgeKept(g, f, a, b, s, x, t);
    }
  }

  lemma TakenUpOthers(g: Grammar, f: Sets, start: Production, a: Auto, cur: int, eps': Items)
    requires Inv(g, f, start, a) && StateNo(a, cur)
    ensures Grows(a, TakenUp(a, cur, eps')) && OthersSettled(g, f, TakenUp(a, cur, eps'), cur)
  {
    hide Settled, Edge, SoundStates, EdgesOk, StateShape, SameCores;
    TakenUpGrows(a, cur, eps');
    OthersKept(g, f, a, TakenUp(a, cur, eps'), cur);
  }

  // --------------------------------------------------------------- a turn ends

  function Closed(a: Auto, cur: int): Auto
    requires StateNo(a, cur)
  {
    a.(states := a.states[cur := a.states[cur].(closed := true)])
  }

  /** Where the state goes anywhere, there is an item in the list. */
  lemma SomeItem(g: Grammar, f: Sets, k0: Items, list: Items, x: Symbol) returns (i: nat)
    requires ListOf(g, f, k0, list) && Goto(g, f, AsState(k0), x).kernel != iset{}
    ensures i < |list| && !list[i].core.AtEnd() && list[i].core.Next() == x
  {
    hide Looks;
    var c :| c in Goto(g, f, AsState(k0), x).kernel;
    assert KernelAfter(g, AsState(k0), x, c);
    var c0 :| Shifts(c0, x, c) && InClosure(g, AsState(k0).kernel, c0);
    assert Listed(g, k0, c0) && Has(list, c0);
    var j :| 0 <= j < |list| && list[j].core == c0;
    i := j;
  }

  lemma AllPassedOn(g: Grammar, f: Sets, a: Auto, cur: int, k0: Items, list: Items)
    requires StateNo(a, cur) && Working(g, f, a, cur, k0, list, |list|, |list|) && ListOf(g, f, k0, list)
    ensures forall x | Goto(g, f, AsState(k0), x).kernel != iset{} :: PassedOn(g, f, a, cur, x, AsState(k0))
  {
    hide Goto, PassedOn, EpsCores, EpsFull, Covered, ListOf;
    forall x | Goto(g, f, AsState(k0), x).kernel != iset{} ensures PassedOn(g, f, a, cur, x, AsState(k0)) {
      var i := SomeItem(g, f, k0, list, x);
    }
  }

  lemma ClosedInv(g: Grammar, f: Sets, start: Production, a: Auto, cur: int, k0: Items, list: Items)
    requires Midway(g, f, start, a, cur, k0, list, |list|, |list|) && ListOf(g, f, k0, list)
    ensures Inv(g, f, start, Closed(a, cur))
  {
    hide Settled, SoundKernel, SoundEps, KernelOk, Strict, Edge, Working, ListOf, Goto;
    var b := Closed(a, cur);
    ClosedBase(g, f, start, a, cur);
    ClosedGrows(a, cur);
    OthersKept(g, f, a, b, cur);
    ClosedCurrent(g, f, a, cur, k0, list);
    hide Base, OthersSettled;
    OthersAndCurrent(g, f, start, b, cur);
  }

  lemma OthersAndCurrent(g: Grammar, f: Sets, start: Production, a: Auto, cur: int)
    requires Base(g, f, start, a) && OthersSettled(g, f, a, cur) && StateNo(a, cur) && Settled(g, f, a, cur)
    ensures Inv(g, f, start, a)
  {
    hide Settled, Shape, EdgesOk, SoundStates;
    BaseShape(g, f, start, a);
    forall s | 0 <= s < |a.states| ensures Settled(g, f, a, s) {
    }
  }

  lemma ClosedGrows(a: Auto, cur: int)
    requires StateNo(a, cur) && |a.actions| == |a.gotos| == |a.states|
    ensures Grows(a, Closed(a, cur))
    ensures forall s, x, t :: Edge(Closed(a, cur), s, x, t) <==> Edge(a, s, x, t)
  {
    forall s | 0 <= s < |a.states| ensures StateGrows(a.states[s], Closed(a, cur).states[s]) {
      ExtendsSelf(a.states[s].kernel);
    }
  }

  lemma ClosedBase(g: Grammar, f: Sets, start: Production, a: Auto, cur: int)
    requires Base(g, f, start, a) && StateNo(a, cur)
    ensures Base(g, f, start, Closed(a, cur))
  {
    hide Goto, SoundKernel, SoundEps, KernelOk, Strict, Edge, SameCores;
    var b := Closed(a, cur);
    ClosedGrows(a, cur);
    forall s | 0 <= s < |b.states| ensures StateShape(g, b, s) && SoundState(g, f, start, b, s) {
      assert StateShape(g, a, s) && SoundState(g, f, start, a, s);
    }
    forall s, x, t | Edge(b, s, x, t) ensures StateNo(b, s) && EdgeOk(g, f, b, s, x, t) {
      EdgeKept(g, f, a, b, s, x, t);
    }
  }

  lemma ClosedCurrent(g: Grammar, f: Sets, a: Auto, cur: int, k0: Items, list: Items)
    requires StateNo(a, cur) && |a.actions| == |a.gotos| == |a.states|
    requires Working(g, f, a, cur, k0, list, |list|, |list|) && ListOf(g, f, k0, list)
    ensures Settled(g, f, Closed(a, cur), cur)
  {
    hide Edge, ListOf, Goto, EpsFull;
    var b := Closed(a, cur);
    ClosedGrows(a, cur);
    StateKept(a, b, cur);
    AllPassedOn(g, f, a, cur, k0, list);
    CoresKernel(k0, a.states[cur].kernel);
    forall x | Goto(g, f, St(b, cur), x).kernel != iset{} ensures exists t :: Edge(b, cur, x, t)
      ensures PassedOn(g, f, b, cur, x, AsState(k0))
    {
      GotoKernel(g, f, St(b, cur), AsState(k0), x);
      PassedOnKept(g, f, a, b, cur, x, AsState(k0));
    }
    hide PassedOn;
    EpsCoresKept(g, k0, a.states[cur].kernel, a.states[cur].eps);
  }
}
