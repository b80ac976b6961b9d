/** The LALR(1) builder (lr and the routines it calls in compiler/parser/yystate.c). */
module Lalr {
  import opened Grammars
  import opened Symbols
  import opened LrItems
  import opened LrClosure
  import opened LrSort
  import opened LrList
  import opened LrKernel
  import opened LrStates
  import opened LrSteps
  import opened LrTurns
  import opened LrGroups
  import opened LrLimits
  import Unfinished

  // ---------------------------------------------------------------- why it ends

  /** The lookaheads that kernel items could still get. */
  function MissingLooks(g: Grammar, a: Auto): set<(int, int, Symbol)> {
    set s, i, t |
      0 <= s < |a.states| && 0 <= i < |a.states[s].kernel| && 0 <= t <= g.currTerm && t !in a.states[s].kernel[i].la
      :: (s, i, t)
  }

  predicate KernelsSame(a: Auto, b: Auto) {
    |a.states| == |b.states| && forall s | 0 <= s < |a.states| :: a.states[s].kernel == b.states[s].kernel
  }

  /** There are more states, or more lookaheads, or else no more to do than before. */
  ghost predicate Progress(g: Grammar, a: Auto, b: Auto) {
    || |a.states| < |b.states|
    || (|a.states| == |b.states| && MissingLooks(g, b) < MissingLooks(g, a))
    || (KernelsSame(a, b) && b.unfinished <= a.unfinished)
  }

  lemma SameMissing(g: Grammar, a: Auto, b: Auto)
    requires KernelsSame(a, b)
    ensures MissingLooks(g, a) == MissingLooks(g, b)
  {
  }

  lemma ProgressTrans(g: Grammar, a: Auto, b: Auto, c: Auto)
    requires Progress(g, a, b) && Progress(g, b, c)
    ensures Progress(g, a, c)
  {
    hide MissingLooks;
    if KernelsSame(a, b) { SameMissing(g, a, b); }
    if KernelsSame(b, c) { SameMissing(g, b, c); }
  }

  lemma MergeShrinks(g: Grammar, a: Auto, t: int, k: Items)
    requires StateNo(a, t) && Extends(a.states[t].kernel, k) && |k| == |a.states[t].kernel| && k != a.states[t].kernel
    requires ItemsOk(g, k)
    ensures MissingLooks(g, WithKernel(a, t, k)) < MissingLooks(g, a)
  {
    hide CoreOk;
    var b := WithKernel(a, t, k);
    var i :| 0 <= i < |k| && k[i] != a.states[t].kernel[i];
    var old_ := a.states[t].kernel[i];
    assert ItemOk(g, k[i]) && old_.la <= k[i].la && old_.core == k[i].core;
    var y := ProperMember(old_.la, k[i].la);
    assert (t, i, y) in MissingLooks(g, a) && (t, i, y) !in MissingLooks(g, b);
    forall x | x in MissingLooks(g, b) ensures x in MissingLooks(g, a) {
    }
  }

  lemma ProperMember<T>(a: set<T>, b: set<T>) returns (y: T)
    requires a <= b && a != b
    ensures y in b && y !in a
  {
    y :| y in b && y !in a;
  }

  // ----------------------------------------------------------------- boundaries

  /** The position `p` is between two groups. */
  predicate Boundary(list: Items, p: nat) {
    p <= |list| && (0 < p < |list| ==> RightOfDot(list[p - 1].core) != RightOfDot(list[p].core))
  }

  lemma GroupIs(g: Grammar, list: Items, lo: nat, hi: nat, x: Symbol)
    requires Plain(g) && ItemsOk(g, list) && Sorted(list) && Boundary(list, lo) && Boundary(list, hi) && lo < hi
    requires (forall i | lo <= i < hi :: RightOfDot(list[i].core) == x) && !list[lo].core.AtEnd()
    ensures IsGroup(list, lo, hi, x) && (IsTerm(x) || IsNonterm(x))
  {
    hide Plain;
    assert ItemOk(g, list[lo]);
    NextIsPositive(g, list[lo].core);
    forall i | 0 <= i < |list| && !(lo <= i < hi) ensures RightOfDot(list[i].core) != x {
      if i < lo {
        assert ItemLeq(list[i], list[lo - 1]) || i == lo - 1;
        assert ItemLeq(list[lo - 1], list[lo]);
      } else {
        assert ItemLeq(list[hi], list[i]) || i == hi;
        assert ItemLeq(list[hi - 1], list[hi]);
      }
    }
  }

  /** state_cmp: production numbers and dots, item by item. */
  predicate CmpState(k: Items, m: Items) {
    |k| == |m| && forall i | 0 <= i < |k| :: k[i].core.prod.num == m[i].core.prod.num && k[i].core.dot == m[i].core.dot
  }

  lemma CmpSame(g: Grammar, k: Items, m: Items)
    requires Plain(g) && ItemsOk(g, k) && ItemsOk(g, m)
    ensures CmpState(k, m) <==> SameCores(k, m)
  {
    if CmpState(k, m) {
      forall i | 0 <= i < |k| ensures k[i].core == m[i].core {
        assert ItemOk(g, k[i]) && ItemOk(g, m[i]);
      }
    }
  }

  class Builder {
    const st: SymbolTable
    const start: Production
    var states: seq<State>
    var actions: seq<seq<Act>>
    var gotos: seq<seq<Act>>
    const tree: Unfinished.Tree  // the unfinished states

    ghost function A(): Auto
      reads this, tree
    {
      Auto(states, actions, gotos, tree.Members())
    }

    /** The grammar is one that the program accepts, and FIRST sets have been made. */
    ghost predicate Ready()
      reads st
    {
      && Plain(st.g) && GoalFree(st.g) && InRange(st.g, st.first)
      && start in st.g.Prods(st.g.goal) && start.lhs == st.g.goal
    }

    constructor (st: SymbolTable, start: Production)
      ensures this.st == st && this.start == start && states == [] && actions == [] && gotos == []
      ensures tree.Valid() && tree.Members() == {} && fresh(tree) && fresh(tree.num) && fresh(tree.left)
      ensures fresh(tree.right)
    {
      this.st := st;
      this.start := start;
      states, actions, gotos := [], [], [];
      tree := new Unfinished.Tree();
    }

    /** add_unfinished; it fails if all nodes of the tree are in use. */
    method AddUnfinished(s: nat) returns (o: Outcome)
      requires tree.Valid()
      modifies tree, tree.num, tree.left, tree.right
      ensures tree.Valid()
      ensures o ==
        if s !in old(tree.Members()) && |old(tree.Members())| >= MAXUNFINISHED then TooManyUnfinished else Fine
      ensures tree.Members() == if o == Fine then old(tree.Members()) + {s} else old(tree.Members())
    {
      var ok := tree.Add(s);
      o := if ok then Fine else TooManyUnfinished;
    }

    /** get_unfinished: take the state with the lowest number out. */
    method GetUnfinished() returns (found: bool, s: nat)
      requires tree.Valid() && forall t | t in tree.Members() :: 0 <= t < |states|
      modifies tree, tree.left, tree.right
      ensures tree.Valid()
      ensures found ==> s in old(tree.Members()) && (forall t | t in old(tree.Members()) :: s <= t)
      ensures tree.Members() == if found then old(tree.Members()) - {s} else {}
      ensures !found ==> old(tree.Members()) == {}
    {
      var k;
      found, k := tree.Get();
      s := if found then k else 0;
    }

    /** The search of the hash table for a state with the same kernel. */
    method FindState(m: Items) returns (t: int)
      requires Plain(st.g) && ItemsOk(st.g, m) && forall s | 0 <= s < |states| :: ItemsOk(st.g, states[s].kernel)
      ensures -1 <= t < |states|
      ensures t >= 0 ==> SameCores(states[t].kernel, m)
      ensures t == -1 ==> IsNew(A(), m)
    {
      hide Plain;
      for s := 0 to |states|
        invariant forall i | 0 <= i < s :: !SameCores(states[i].kernel, m)
      {
        CmpSame(st.g, states[s].kernel, m);
        if CmpState(states[s].kernel, m) { return s; }
      }
      return -1;
    }

    /** newstate. */
    method NewState(m: Items) returns (o: Outcome, t: nat, isnew: bool)
      requires Plain(st.g) && ItemsOk(st.g, m) && forall s | 0 <= s < |states| :: ItemsOk(st.g, states[s].kernel)
      modifies `states, `actions, `gotos
      ensures o == Fine || o == KernelTooLarge || o == TooManyStates
      ensures o == KernelTooLarge <==> |m| > MAXKERNEL
      ensures o == TooManyStates <==> |m| <= MAXKERNEL && IsNew(old(A()), m) && |old(states)| >= MAXSTATE
      ensures o != Fine ==> A() == old(A())
      ensures o == Fine && isnew ==>
        && t == |old(states)| < MAXSTATE && IsNew(old(A()), m)
        && states == old(states) + [State(m, [], false)] && actions == old(actions) + [[]] && gotos == old(gotos) + [[]]
      ensures o == Fine && !isnew ==>
        && states == old(states) && actions == old(actions) && gotos == old(gotos)
        && t < |states| && SameCores(states[t].kernel, m)
    {
      t, isnew := 0, false;
      if |m| > MAXKERNEL { return KernelTooLarge, t, isnew; }
      var existing := FindState(m);
      if existing >= 0 { return Fine, existing, false; }
      if |states| >= MAXSTATE { return TooManyStates, t, isnew; }
      t := |states|;
      states := states + [State(m, [], false)];
      actions, gotos := actions + [[]], gotos + [[]];
      o, isnew := Fine, true;
    }

    /** add_action and add_goto. */
    method AddTransition(cur: nat, x: Symbol, t: nat)
      requires cur < |actions| && cur < |gotos|
      modifies `actions, `gotos
      ensures A() == WithEdge(old(A()), cur, x, t)
    {
      if IsTerm(x) {
        actions := actions[cur := [Act(x, t)] + actions[cur]];
      } else {
        gotos := gotos[cur := [Act(x - MINNONTERM, t)] + gotos[cur]];
      }
    }

    /** merge_lookaheads. */
    method MergeLookaheads(t: nat, m: Items) returns (did: bool)
      requires t < |states| && SameCores(states[t].kernel, m)
      modifies `states
      ensures states == old(states)[t := old(states[t]).(kernel := UnionItems(old(states[t].kernel), m))]
      ensures did <==> states[t].kernel != old(states[t].kernel)
      ensures !did ==> states == old(states)
    {
      hide UnionItems;
      var k := states[t].kernel;
      did := false;
      UnionNone();
      var merged: Items := [];
      for i := 0 to |k|
        invariant states == old(states) && merged == UnionItems(k[..i], m[..i])
        invariant did <==> merged != k[..i]
      {
        MergeStep(k, m, i, merged);
        if m[i].la <= k[i].la {
          merged := merged + [k[i]];
        } else {
          did := true;
          merged := merged + [Item(k[i].core, k[i].la + m[i].la)];
        }
      }
      assert k[..|k|] == k && m[..|m|] == m;
      states := states[t := states[t].(kernel := merged)];
      if !did {
        assert states == old(states);
      }
    }

    /** The lookaheads of the list are added to those of the epsilon items there are. */
    method UnionEps(eps: Items, list: Items) returns (eps': Items)
      requires |eps| == |list|
      ensures eps' == UnionItems(eps, list)
    {
      eps' := [];
      for i := 0 to |eps|
        invariant eps' == UnionItems(eps[..i], list[..i])
      {
        UnionSnoc(eps, list, i);
        eps' := eps' + [Item(eps[i].core, eps[i].la + list[i].la)];
      }
      assert eps[..|eps|] == eps && list[..|list|] == list;
    }

    /** move_eps: the epsilon items at the head of the list go to the state. */
    method MoveEps(cur: nat, list: Items) returns (o: Outcome, moved: nat, ghost eps': Items)
      requires Plain(st.g) && cur < |states| && ListOf(st.g, st.first, states[cur].kernel, list) && Sorted(list)
      requires SoundKernel(st.g, st.first, start, states[cur].kernel)
      requires states[cur].eps == [] ||
        (EpsCores(st.g, states[cur].kernel, states[cur].eps) && ItemsOk(st.g, states[cur].eps) &&
         SoundEps(st.g, st.first, start, states[cur].kernel, states[cur].eps))
      modifies `states
      ensures o ==
        if MoreThan(EndCores(st.g, AsState(old(states[cur].kernel)).kernel), MAXEPSILON) then TooManyEpsilons else Fine
      ensures o != Fine ==> Exceeded(st.g, st.first, start, o)
      ensures o == Fine ==>
        && states == old(states)[cur := old(states[cur]).(eps := eps')] && EpsPrefix(list, moved)
        && EpsMoved(st.g, st.first, start, old(states[cur].kernel), list, eps')
    {
      hide Plain, ListOf, Sorted, SoundKernel, SoundEps, EpsCores, EpsFull, EpsPrefix, MoreThan, EndCores, AsState,
        Exceeded;
      moved, eps' := 0, [];
      while moved < |list| && list[moved].core.prod.rhs == []
        invariant states == old(states)
        invariant moved <= |list| && moved <= MAXEPSILON && forall i | 0 <= i < moved :: list[i].core.prod.rhs == []
      {
        if moved + 1 > MAXEPSILON {
          EpsExceeds(st.g, st.first, start, states[cur].kernel, list);
          return TooManyEpsilons, moved, eps';
        }
        moved := moved + 1;
      }
      EpsInFront(st.g, st.first, states[cur].kernel, list, moved);
      EpsFit(st.g, st.first, states[cur].kernel, list, moved);
      EpsMerged(st.g, st.first, start, states[cur].kernel, list, moved, states[cur].eps);
      var items := list[..moved];
      if states[cur].eps != [] {
        items := UnionEps(states[cur].eps, items);
      }
      states := states[cur := states[cur].(eps := items)];
      o, eps' := Fine, items;
    }

    /** The items with the same symbol to the right of the dot, from `p` on. */
    method GroupEnd(list: Items, p: nat) returns (hi: nat, x: Symbol)
      requires Plain(st.g) && ItemsOk(st.g, list) && Sorted(list) && Boundary(list, p) && p < |list|
      requires !list[p].core.AtEnd()
      ensures p < hi <= |list| && Boundary(list, hi) && IsGroup(list, p, hi, x) && (IsTerm(x) || IsNonterm(x))
    {
      hide Plain, Sorted;
      x := list[p].core.Next();
      hi := p + 1;
      while hi < |list| && RightOfDot(list[hi].core) == x
        invariant p < hi <= |list| && forall i | p <= i < hi :: RightOfDot(list[i].core) == x
      {
        hi := hi + 1;
      }
      GroupIs(st.g, list, p, hi, x);
    }

    /** The body of the inner loop of lr: one transition. */
    method Group(cur: nat, ghost k0: Items, list: Items, p: nat) returns (o: Outcome, hi: nat)
      requires Plain(st.g) && Midway(st.g, st.first, start, A(), cur, k0, list, p, p)
      requires ListOf(st.g, st.first, k0, list) && Sorted(list)
      requires SoundKernel(st.g, st.first, start, k0) && Boundary(list, p) && p < |list| && !list[p].core.AtEnd()
      requires tree.Valid()
      modifies `states, `actions, `gotos, tree, tree.num, tree.left, tree.right
      ensures tree.Valid()
      ensures o == Fine ==>
        && Midway(st.g, st.first, start, A(), cur, k0, list, hi, hi) && p < hi <= |list| && Boundary(list, hi)
        && Progress(st.g, old(A()), A())
      ensures o == Fine && old(Within(st.g, A())) ==> Within(st.g, A())
      ensures o != Fine ==> Exceeded(st.g, st.first, start, o)
    {
      hide Plain, ListOf, Sorted, SoundKernel, Midway, IsGroup, Goto, KernelOk, Strict, Progress, Within, Exceeded;
      ListFacts(st.g, st.first, k0, list);
      var x;
      hi, x := GroupEnd(list, p);
      GroupFound(st.g, st.first, start, k0, list, p, hi, x);
      o := Transition(cur, x, MovedItems(list[p..hi]), k0, list, p, hi);
    }

    method Transition(cur: nat, x: Symbol, m: Items, ghost k0: Items, ghost list: Items, ghost p: nat, ghost hi: nat)
      returns (o: Outcome)
      requires Plain(st.g) && Midway(st.g, st.first, start, A(), cur, k0, list, p, p)
      requires GroupOf(st.g, st.first, start, k0, list, p, hi, x, m)
      requires tree.Valid()
      modifies `states, `actions, `gotos, tree, tree.num, tree.left, tree.right
      ensures tree.Valid()
      ensures o == Fine ==> Midway(st.g, st.first, start, A(), cur, k0, list, hi, hi) && Progress(st.g, old(A()), A())
      ensures o == Fine && old(Within(st.g, A())) ==> Within(st.g, A())
      ensures o != Fine ==> Exceeded(st.g, st.first, start, o)
    {
      hide Plain, Midway, GroupOf, Progress, IsNew, Within, Exceeded, Base, UnionItems;
      ghost var a := A();
      MidwayFacts(st.g, st.first, start, a, cur, k0, list, p, p);
      GroupItemsOk(st.g, st.first, start, k0, list, p, hi, x, m);
      var t, isnew;
      o, t, isnew := NewState(m);
      if o != Fine {
        NewStateExceeds(st.g, st.first, start, a, cur, k0, list, p, hi, x, m);
        return;
      }
      if isnew {
        GroupNew(st.g, st.first, start, a, cur, k0, list, p, hi, x, m);
        o := NewTransition(cur, x, m, t, a);
        if o != Fine {
          TreeExceeds(st.g, st.first, start, a, cur, k0, list, p, hi, x, m);
          return;
        }
        WithinEdge(st.g, a, m, cur, x);
        ProgressNew(st.g, a, A());
      } else {
        GroupOldEdge(st.g, st.first, start, a, cur, k0, list, p, hi, x, m, t);
        ghost var b := MaybeEdge(a, cur, x, t);
        GroupOld(st.g, st.first, start, b, cur, k0, list, p, hi, x, m, t);
        o := OldTransition(cur, x, m, t);
        if o != Fine {
          MidwayBase(st.g, st.first, start, a, cur, k0, list, p, p);
          UnfinishedExceed(st.g, st.first, start, a, t);
          return;
        }
        WithinUnion(st.g, a, b, t, m);
        ProgressOld(st.g, a, b, t, UnionItems(a.states[t].kernel, m));
      }
    }

    /** A new state: the edge to it is recorded, and it is unfinished. */
    method NewTransition(cur: nat, x: Symbol, ghost m: Items, t: nat, ghost a: Auto) returns (o: Outcome)
      requires StateNo(a, cur) && |a.actions| == |a.gotos| == |a.states| == t && !a.states[cur].closed
      requires A() == Auto(a.states + [State(m, [], false)], a.actions + [[]], a.gotos + [[]], a.unfinished)
      requires tree.Valid()
      modifies `actions, `gotos, tree, tree.num, tree.left, tree.right
      ensures tree.Valid()
      ensures o == Fine ==> A() == WithEdge(WithState(a, m), cur, x, t)
      ensures o != Fine ==> o == TooManyUnfinished && |a.unfinished| >= MAXUNFINISHED
      ensures |states| == t + 1
    {
      if !states[cur].closed {
        AddTransition(cur, x, t);
      }
      o := AddUnfinished(t);
    }

    /** A state that exists: it gets the lookaheads, and is unfinished if they are new. */
    method OldTransition(cur: nat, x: Symbol, m: Items, t: nat) returns (o: Outcome)
      requires cur < |states| && |actions| == |gotos| == |states| && t < |states| && SameCores(states[t].kernel, m)
      requires tree.Valid()
      modifies `states, `actions, `gotos, tree, tree.num, tree.left, tree.right
      ensures tree.Valid()
      ensures o == Fine ==>
        var k := UnionItems(old(states[t].kernel), m);
        var b := MaybeEdge(old(A()), cur, x, t);
        A() == if k == old(states[t].kernel) then b else WithKernel(b, t, k)
      ensures o != Fine ==>
        o == TooManyUnfinished && t !in old(tree.Members()) && |old(tree.Members())| >= MAXUNFINISHED
    {
      if !states[cur].closed {
        AddTransition(cur, x, t);
      }
      var did := MergeLookaheads(t, m);
      o := Fine;
      if did {
        o := AddUnfinished(t);
      }
    }

    /** The body of the loop of lr, for the state that has been taken out of the tree. */
    method Turn(cur: nat, ghost a: Auto) returns (o: Outcome)
      requires Ready() && Inv(st.g, st.first, start, a) && StateNo(a, cur)
      requires A() == a.(unfinished := a.unfinished - {cur})
      requires tree.Valid()
      modifies `states, `actions, `gotos, tree, tree.num, tree.left, tree.right
      ensures tree.Valid()
      ensures o == Fine ==> Inv(st.g, st.first, start, A()) && Progress(st.g, old(A()), A())
      ensures o == Fine && old(Within(st.g, A())) ==> Within(st.g, A())
      ensures o != Fine ==> Exceeded(st.g, st.first, start, o)
    {
      hide Plain, GoalFree, InRange, Inv, KernelOk, SoundKernel, Progress, ListOf, Sorted, EpsCores, EpsMoved,
        Midway, SoundEps,
        Within, Exceeded, MoreThan, ListCores, EndCores, AsState;
      ghost var k0 := states[cur].kernel;
      ghost var was := A();
      CurrentFacts(st.g, st.first, start, a, cur);
      PlainValid(st.g);
      var ok, list := SortedList(st, states[cur].kernel);
      if !ok {
        ClosureExceeds(st.g, st.first, start, k0);
        return ClosureTooLarge;
      }
      var p;
      ghost var eps';
      o, p, eps' := MoveEps(cur, list);
      if o != Fine { return; }
      assert Fits(st.g, AsState(k0).kernel);
      if Within(st.g, was) { WithinSame(st.g, was, A()); }
      TakenUpMidway(st.g, st.first, start, a, cur, list, p, eps');
      ghost var n := p;
      ProgressSame(st.g, was, A());
      EpsBoundary(st.g, st.first, k0, list, n);
      while p < |list|
        invariant n <= p <= |list| && Boundary(list, p) && Midway(st.g, st.first, start, A(), cur, k0, list, p, p)
        invariant tree.Valid() && Progress(st.g, was, A()) && (Within(st.g, was) ==> Within(st.g, A()))
        decreases |list| - p
      {
        ghost var before := A();
        o, p := Group(cur, k0, list, p);
        if o != Fine { return; }
        ProgressTrans(st.g, was, before, A());
      }
      ghost var before := A();
      ClosedInv(st.g, st.first, start, before, cur, k0, list);
      MidwayFacts(st.g, st.first, start, before, cur, k0, list, p, p);
      states := states[cur := states[cur].(closed := true)];
      MidwayBase(st.g, st.first, start, before, cur, k0, list, p, p);
      if Within(st.g, before) { WithinClosed(st.g, before, A(), cur, k0); }
      ProgressSame(st.g, before, A());
      ProgressTrans(st.g, was, before, A());
      o := Fine;
    }

    /** lr, from the start item that make_parse_tables has made into state 0. It gives up only
        for a limit that the canonical automaton of the grammar exceeds, and gets to its end
        only if none of the sizes is exceeded. */
    method Lr() returns (o: Outcome)
      requires Ready() && states == [] && actions == [] && gotos == [] && tree.Members() == {}
      requires tree.Valid()
      modifies `states, `actions, `gotos, tree, tree.num, tree.left, tree.right
      ensures tree.Valid()
      ensures o == Fine ==> Inv(st.g, st.first, start, A()) && tree.Members() == {}
      ensures o != Fine ==> Exceeded(st.g, st.first, start, o)
      ensures o == Fine ==> forall e | e != TooManyUnfinished :: !Exceeded(st.g, st.first, start, e)
    {
      hide Plain, GoalFree, InRange, Inv, Progress, Within, Exceeded;
      states := [State([Item(Core(start, 0), {EOI})], [], false)];
      actions, gotos := [[]], [[]];
      o := AddUnfinished(0);
      assert o == Fine && tree.Members() == {0};
      Initially(st.g, st.first, start, A());
      InitiallyWithin(st.g, A());
      InvFacts(st.g, st.first, start, A());
      ghost var a := A();
      var found, cur := GetUnfinished();
      WithinSame(st.g, a, A());
      while found
        invariant Inv(st.g, st.first, start, a) && A() == a.(unfinished := if found then a.unfinished - {cur} else {})
        invariant if found then cur in a.unfinished else a.unfinished == {}
        invariant |a.states| <= MAXSTATE && Within(st.g, A()) && tree.Valid()
        decreases MAXSTATE - |a.states|, MissingLooks(st.g, a), a.unfinished
      {
        ghost var was, a0 := A(), a;
        InvFacts(st.g, st.first, start, a);
        o := Turn(cur, a);
        if o != Fine { return; }
        a := A();
        InvFacts(st.g, st.first, start, a);
        TurnMeasure(st.g, a0, was, a, cur);
        found, cur := GetUnfinished();
        WithinSame(st.g, a, A());
      }
      forall e | e != TooManyUnfinished ensures !Exceeded(st.g, st.first, start, e) {
        NothingExceeded(st.g, st.first, start, A(), e);
      }
      o := Fine;
    }
  }

  // ------------------------------------------------------------- why it gives up

  lemma MidwayBase(g: Grammar, f: Sets, start: Production, a: Auto, cur: int, k0: Items, list: Items, p: nat, e: nat)
    requires Midway(g, f, start, a, cur, k0, list, p, e)
    ensures Base(g, f, start, a) && StateNo(a, cur) && SameCores(k0, a.states[cur].kernel)
  {
  }

  lemma NewStateExceeds(g: Grammar, f: Sets, start: Production, a: Auto, cur: int, k0: Items, list: Items, p: nat,
        hi: nat, x: Symbol, m: Items)
    requires Midway(g, f, start, a, cur, k0, list, p, p) && GroupOf(g, f, start, k0, list, p, hi, x, m)
    ensures |m| > MAXKERNEL ==> Exceeded(g, f, start, KernelTooLarge)
    ensures IsNew(a, m) && |a.states| >= MAXSTATE ==> Exceeded(g, f, start, TooManyStates)
  {
    hide Midway, Base, SoundKernel, Strict, KernelOk, IsNew, Goto, MoreThan, MoreStates;
    MidwayBase(g, f, start, a, cur, k0, list, p, p);
    if |m| > MAXKERNEL { KernelExceeds(g, f, start, m); }
    if IsNew(a, m) && |a.states| >= MAXSTATE { StatesExceed(g, f, start, a, m, MAXSTATE); }
  }

  lemma TreeExceeds(g: Grammar, f: Sets, start: Production, a: Auto, cur: int, k0: Items, list: Items, p: nat,
        hi: nat, x: Symbol, m: Items)
    requires Midway(g, f, start, a, cur, k0, list, p, p) && GroupOf(g, f, start, k0, list, p, hi, x, m)
    requires IsNew(a, m) && |a.unfinished| >= MAXUNFINISHED
    ensures Exceeded(g, f, start, TooManyUnfinished)
  {
    hide Midway, Base, SoundKernel, Strict, KernelOk, IsNew, Goto, Exceeded;
    MidwayBase(g, f, start, a, cur, k0, list, p, p);
    NewUnfinishedExceed(g, f, start, a, m);
  }

  lemma WithinEdge(g: Grammar, a: Auto, m: Items, cur: nat, x: Symbol)
    requires |m| <= MAXKERNEL && |a.actions| == |a.gotos| == |a.states| && cur < |a.states|
    ensures Within(g, a) ==> Within(g, WithEdge(WithState(a, m), cur, x, |a.states|))
  {
    hide Within;
    if Within(g, a) {
      WithinNew(g, a, m);
      WithinSame(g, WithState(a, m), WithEdge(WithState(a, m), cur, x, |a.states|));
    }
  }

  lemma WithinUnion(g: Grammar, a: Auto, b: Auto, t: int, m: Items)
    requires a.states == b.states && StateNo(b, t) && SameCores(b.states[t].kernel, m)
    ensures var k := UnionItems(b.states[t].kernel, m);
      Within(g, a) ==> Within(g, if k == b.states[t].kernel then b else WithKernel(b, t, k))
  {
    hide Within;
    if Within(g, a) {
      WithinSame(g, a, b);
      WithinMerged(g, b, t, UnionItems(b.states[t].kernel, m));
    }
  }

  lemma InitiallyWithin(g: Grammar, a: Auto)
    requires |a.states| == 1 && |a.states[0].kernel| == 1 && !a.states[0].closed
    ensures Within(g, a)
  {
    hide AsState;
  }

  lemma GroupItemsOk(g: Grammar, f: Sets, start: Production, k0: Items, list: Items, p: nat, hi: nat, x: Symbol,
        m: Items)
    requires GroupOf(g, f, start, k0, list, p, hi, x, m)
    ensures ItemsOk(g, m) && |m| > 0
  {
    hide SoundKernel, Goto;
  }

  lemma UnionNone()
    ensures UnionItems([], []) == []
  {
  }

  /** One item more of a union, which changes the item exactly if it has new lookaheads. */
  lemma MergeStep(k: Items, m: Items, i: nat, merged: Items)
    requires |k| == |m| && i < |k| && merged == UnionItems(k[..i], m[..i])
    ensures var x := Item(k[i].core, k[i].la + m[i].la);
      && merged + [x] == UnionItems(k[..i + 1], m[..i + 1]) && (x == k[i] <==> m[i].la <= k[i].la)
      && (merged + [x] == k[..i + 1] <==> merged == k[..i] && x == k[i])
  {
    UnionSnoc(k, m, i);
    SubsetAbsorbs(k[i].la, m[i].la);
  }

  lemma UnionSnoc(k: Items, m: Items, i: nat)
    requires |k| == |m| && i < |k|
    ensures UnionItems(k[..i + 1], m[..i + 1]) == UnionItems(k[..i], m[..i]) + [Item(k[i].core, k[i].la + m[i].la)]
    ensures k[..i + 1] == k[..i] + [k[i]]
    ensures forall s: Items, x | |s| == i :: s + [x] == k[..i + 1] <==> s == k[..i] && x == k[i]
  {
    assert k[..i + 1][..i] == k[..i] && m[..i + 1][..i] == m[..i];
    forall s: Items, x | |s| == i ensures s + [x] == k[..i + 1] <==> s == k[..i] && x == k[i] {
      if s + [x] == k[..i + 1] {
        assert s == (s + [x])[..i] && x == (s + [x])[i];
      }
    }
  }

  lemma MidwayFacts(g: Grammar, f: Sets, start: Production, a: Auto, cur: int, k0: Items, list: Items, p: nat, e: nat)
    requires Midway(g, f, start, a, cur, k0, list, p, e)
    ensures |a.actions| == |a.gotos| == |a.states| && StateNo(a, cur) && p <= |list|
    ensures forall s | 0 <= s < |a.states| :: ItemsOk(g, a.states[s].kernel)
  {
    hide OthersSettled, EdgesOk, SoundStates, PassedOn, EpsCores, EpsFull;
    BaseShape(g, f, start, a);
    forall s | 0 <= s < |a.states| ensures ItemsOk(g, a.states[s].kernel) {
      TargetOk(g, start, a, s);
    }
  }

  lemma ProgressNew(g: Grammar, a: Auto, b: Auto)
    requires |a.states| < |b.states|
    ensures Progress(g, a, b)
  {
  }

  lemma ProgressOld(g: Grammar, a: Auto, b: Auto, t: int, k: Items)
    requires b.states == a.states && b.unfinished == a.unfinished && StateNo(b, t)
    requires ItemsOk(g, k) && Extends(b.states[t].kernel, k) && |k| == |b.states[t].kernel|
    ensures Progress(g, a, if k == b.states[t].kernel then b else WithKernel(b, t, k))
  {
    if k != b.states[t].kernel {
      MergeShrinks(g, b, t, k);
      SameMissing(g, a, b);
    }
  }

  lemma PlainValid(g: Grammar)
    requires Plain(g)
    ensures g.Valid()
  {
  }

  lemma CurrentFacts(g: Grammar, f: Sets, start: Production, a: Auto, cur: int)
    requires Inv(g, f, start, a) && StateNo(a, cur)
    ensures KernelOk(g, a.states[cur].kernel) && SoundKernel(g, f, start, a.states[cur].kernel)
    ensures a.states[cur].eps == [] ||
      (EpsCores(g, a.states[cur].kernel, a.states[cur].eps) && ItemsOk(g, a.states[cur].eps) &&
       SoundEps(g, f, start, a.states[cur].kernel, a.states[cur].eps))
  {
    hide EpsCores, EpsFull, KernelOk, SoundKernel, SoundEps, Covered, PassedOn;
    assert StateShape(g, a, cur) && SoundState(g, f, start, a, cur) && Settled(g, f, a, cur);
  }

  lemma ProgressSame(g: Grammar, a: Auto, b: Auto)
    requires KernelsSame(a, b) && b.unfinished <= a.unfinished
    ensures Progress(g, a, b)
  {
  }

  /** The first group begins after the epsilon items. */
  lemma EpsBoundary(g: Grammar, f: Sets, k0: Items, list: Items, n: nat)
    requires Plain(g) && ListOf(g, f, k0, list) && EpsPrefix(list, n)
    ensures n <= |list| && Boundary(list, n) && forall i | n <= i < |list| :: !list[i].core.AtEnd()
  {
    hide Plain, Looks, Listed;
    if 0 < n < |list| {
      assert ItemOk(g, list[n - 1]) && ItemOk(g, list[n]);
      NextIsPositive(g, list[n - 1].core);
      NextIsPositive(g, list[n].core);
    }
  }

  lemma InvFacts(g: Grammar, f: Sets, start: Production, a: Auto)
    requires Inv(g, f, start, a)
    ensures 0 < |a.states| <= MAXSTATE && forall s | s in a.unfinished :: StateNo(a, s)
  {
    ShapeSizes(g, start, a);
  }

  lemma TurnMeasure(g: Grammar, a: Auto, was: Auto, b: Auto, cur: int)
    requires was == a.(unfinished := a.unfinished - {cur}) && cur in a.unfinished && Progress(g, was, b)
    ensures |a.states| < |b.states| ||
      (|a.states| == |b.states| &&
       (MissingLooks(g, b) < MissingLooks(g, a) ||
        (MissingLooks(g, b) == MissingLooks(g, a) && b.unfinished < a.unfinished)))
  {
    hide MissingLooks;
    SameMissing(g, a, was);
    if KernelsSame(was, b) && b.unfinished <= was.unfinished {
      SameMissing(g, was, b);
      assert cur !in b.unfinished;
    }
  }

  lemma Initially(g: Grammar, f: Sets, start: Production, a: Auto)
    requires Plain(g) && start in g.Prods(g.goal) && start.lhs == g.goal
    requires a == Auto([State([Item(Core(start, 0), {EOI})], [], false)], [[]], [[]], {0})
    ensures Inv(g, f, start, a)
  {
    hide Plain, Covered, Goto;
    var kernel := a.states[0].kernel;
    assert kernel[0].core == Core(start, 0);
    InitialSound(g, f, start, kernel);
    NoEps(g, f, start, kernel);
    forall s, x, t ensures !Edge(a, s, x, t) {
    }
    NewSettled(g, f, a, 0);
  }

  lemma InitialSound(g: Grammar, f: Sets, start: Production, kernel: Items)
    requires kernel == [Item(Core(start, 0), {EOI})]
    ensures SoundKernel(g, f, start, kernel)
  {
    var w: seq<Symbol> := [];
    var s := Canonical(g, f, start, w);
    forall c ensures Has(kernel, c) <==> c == Core(start, 0) {
      if c == Core(start, 0) { assert kernel[0].core == c; }
    }
    assert s.kernel == AsState(kernel).kernel;
    assert Reached(g, f, start, kernel, w);
    forall c, a | HasLook(kernel, c, a) ensures Canon(g, f, start, kernel, c, a) {
      assert (c, a) in s.looks;
    }
  }
}
