/** What the action and goto tables are for: a shift-reduce parser on them accepts nothing but
    sentences, and, if the tables have no conflicts, every sentence. */
module LrParser {
  import opened Options
  import opened Grammars
  import opened Symbols
  import opened First
  import opened LrItems
  import opened LrClosure
  import opened LrList
  import opened LrKernel
  import opened LrStates
  import opened LrTheorems
  import opened LrForms
  import opened Reductions
  import opened Occs
  import L = LLExact

  /** The states on the stack, the top at the end, and the input that has not been shifted. */
  datatype Config = Config(stack: seq<nat>, input: seq<Symbol>)
  {
    function Top(): nat
      requires stack != []
    {
      stack[|stack| - 1]
    }
  }

  datatype Turned = Running(c: Config) | Accepted(rest: seq<Symbol>) | Error

  ghost predicate Numbers(g: Grammar, n: nat, p: Production) {
    p in g.Prods(p.lhs) && p.num == n
  }

  /** Left-hand side and length of a production, by its number. */
  ghost function RuleNo(g: Grammar, n: nat): (r: Option<Production>)
    ensures r.Some? ==> Numbers(g, n, r.value)
    ensures r.None? ==> forall p :: !Numbers(g, n, p)
  {
    if exists p :: Numbers(g, n, p) then
      var p :| Numbers(g, n, p);
      Some(p)
    else None
  }

  ghost function Reduced(a: Auto, c: Config, p: Production): Turned {
    if |p.rhs| >= |c.stack| then Error
    else
      var left := c.stack[..|c.stack| - |p.rhs|];
      var r := left[|left| - 1];
      if r >= |a.gotos| then Error
      else
        match Lookup(a.gotos[r], p.lhs - MINNONTERM)
        case None => Error
        case Some(u) => if u < 0 then Error else Running(Config(left + [u], c.input))
  }

  /** One turn of a parser, by the meaning of the entries: a negative one reduces by that production,
      0 accepts, and a positive one shifts to that state. */
  ghost function Turn(g: Grammar, a: Auto, table: seq<seq<Act>>, c: Config): Turned {
    if c.stack == [] || c.Top() >= |table| then Error
    else
      match Lookup(table[c.Top()], L.Next(c.input))
      case None => Error
      case Some(n) =>
        if n > 0 then if c.input == [] then Error else Running(Config(c.stack + [n], c.input[1..]))
        else if n == 0 then Accepted(c.input)
        else
          match RuleNo(g, -n)
          case None => Error
          case Some(p) => Reduced(a, c, p)
  }

  /** `n` turns lead from `c` to `c'`. */
  ghost predicate Goes(g: Grammar, a: Auto, table: seq<seq<Act>>, c: Config, c': Config, n: nat)
    decreases n
  {
    if n == 0 then c == c'
    else Turn(g, a, table, c).Running? && Goes(g, a, table, Turn(g, a, table, c).c, c', n - 1)
  }

  /** From the tokens `w` the parser gets to the entry that accepts, with all of them read. */
  ghost predicate Accepts(g: Grammar, a: Auto, table: seq<seq<Act>>, w: seq<Symbol>) {
    exists c, n: nat :: Goes(g, a, table, Config([0], w), c, n) && Turn(g, a, table, c) == Accepted([])
  }

  lemma {:induction false} GoesOn(g: Grammar, a: Auto, table: seq<seq<Act>>, c: Config, c1: Config, c2: Config, k: nat,
        n: nat)
    requires Goes(g, a, table, c, c1, k) && Goes(g, a, table, c1, c2, n)
    ensures Goes(g, a, table, c, c2, k + n)
    decreases k
  {
    hide Turn;
    if k > 0 { GoesOn(g, a, table, Turn(g, a, table, c).c, c1, c2, k - 1, n); }
  }

  lemma GoesOne(g: Grammar, a: Auto, table: seq<seq<Act>>, c: Config, c': Config)
    requires Turn(g, a, table, c) == Running(c')
    ensures Goes(g, a, table, c, c', 1)
  {
    hide Turn;
    assert Goes(g, a, table, c', c', 0);
  }

  /** The states on the stack are those of the symbols `w` that have been read. */
  ghost predicate Stacked(a: Auto, w: seq<Symbol>, stack: seq<nat>) {
    |stack| == |w| + 1 && stack[0] == 0 && forall i | 0 <= i < |w| :: Edge(a, stack[i], w[i], stack[i + 1])
  }

  lemma {:induction false} StackedFollows(a: Auto, w: seq<Symbol>, stack: seq<nat>)
    requires Stacked(a, w, stack)
    ensures Follows(a, w, stack[|stack| - 1])
  {
    hide Edge;
    if w != [] {
      var k := |w| - 1;
      StackedFollows(a, w[..k], stack[..k + 1]);
      assert Edge(a, stack[k], w[k], stack[k + 1]);
    }
  }

  lemma StackedMore(a: Auto, w: seq<Symbol>, stack: seq<nat>, x: Symbol, t: nat)
    requires Stacked(a, w, stack) && Edge(a, stack[|stack| - 1], x, t)
    ensures Stacked(a, w + [x], stack + [t])
  {
    hide Edge;
    var w', s' := w + [x], stack + [t];
    forall i | 0 <= i < |w'| ensures Edge(a, s'[i], w'[i], s'[i + 1]) {
      if i < |w| { assert Edge(a, stack[i], w[i], stack[i + 1]); }
    }
  }

  lemma StackedLess(a: Auto, w: seq<Symbol>, v: seq<Symbol>, stack: seq<nat>)
    requires Stacked(a, w + v, stack)
    ensures Stacked(a, w, stack[..|stack| - |v|])
  {
    hide Edge;
    forall i | 0 <= i < |w| ensures Edge(a, stack[i], w[i], stack[i + 1]) {
      assert (w + v)[i] == w[i];
    }
  }

  // ---------------------------------------------------------------- the entries

  /** Kernel and epsilon items of a state. */
  function ItemsAt(a: Auto, s: nat): Items
    requires s < |a.states|
  {
    a.states[s].kernel + a.states[s].eps
  }

  /** At most one thing can be done. */
  ghost predicate NoConflictOn(a: Auto, s: nat, t: Symbol)
    requires s < |a.states| && s < |a.actions|
  {
    NoChoice(Lookup(a.actions[s], t), ItemsAt(a, s), t)
  }

  ghost predicate NoConflict(a: Auto) {
    forall s, t | 0 <= s < |a.states| && s < |a.actions| :: NoConflictOn(a, s, t)
  }

  lemma EntryShift(pr: Precs, a: Auto, table: seq<seq<Act>>, s: nat, t: Symbol, k: int)
    requires TableOf(pr, a, table) && s < |a.states| && NoConflictOn(a, s, t)
    requires Lookup(a.actions[s], t) == Some(k) && k > 0
    ensures Lookup(table[s], t) == Some(k)
  {
    hide Lookup, ResolveAll;
    WithShift(pr, k, ItemsAt(a, s), t);
  }

  lemma EntryReduce(pr: Precs, a: Auto, table: seq<seq<Act>>, s: nat, t: Symbol, j: nat)
    requires TableOf(pr, a, table) && s < |a.states| && NoConflictOn(a, s, t)
    requires j < |ItemsAt(a, s)| && Reduces(ItemsAt(a, s)[j], t)
    ensures Lookup(table[s], t) == Some(ReduceBy(ItemsAt(a, s)[j].core.prod.num))
  {
    hide Lookup, ResolveAll;
    WithoutShift(pr, ItemsAt(a, s), t);
  }

  /** An entry of the goto table is an edge. */
  lemma GotoIsEdge(g: Grammar, f: Sets, start: Production, a: Auto, s: nat, x: Symbol)
    requires Finished(g, f, start, a) && s < |a.states| && s < |a.gotos| && IsNonterm(x)
    ensures Lookup(a.gotos[s], x - MINNONTERM).Some? ==>
      Lookup(a.gotos[s], x - MINNONTERM).value > 0 && Edge(a, s, x, Lookup(a.gotos[s], x - MINNONTERM).value)
    ensures Lookup(a.gotos[s], x - MINNONTERM).None? ==> forall u :: !Edge(a, s, x, u)
  {
    hide SoundStates, Settled, StateShape, SameCores, Goto;
    var acts, t := a.gotos[s], x - MINNONTERM;
    LookupNone(acts, t);
    if Lookup(acts, t).Some? {
      var i :| 0 <= i < |acts| && acts[i].sym == t;
      assert DistinctSyms(acts);
      LookupAt(acts, i);
      assert acts[i] == Act(t, acts[i].to);
      assert EdgeOk(g, f, a, s, x, acts[i].to);
    }
  }

  /** All that is known of a table when the theorems begin. */
  ghost predicate Made(g: Grammar, f: Sets, start: Production, pr: Precs, a: Auto, table: seq<seq<Act>>) {
    && Finished(g, f, start, a) && TableOf(pr, a, table) && Plain(g) && GoalFree(g) && OnlyStart(g, start)
    && start.num == 0
  }

  lemma Parts(g: Grammar, f: Sets, start: Production, pr: Precs, a: Auto, table: seq<seq<Act>>)
    requires Made(g, f, start, pr, a, table)
    ensures Finished(g, f, start, a) && TableOf(pr, a, table) && Plain(g) && GoalFree(g) && OnlyStart(g, start)
    ensures |table| == |a.states| == |a.actions| == |a.gotos| && g.ValidProductions() && g.currTerm <= MAXTERM
    ensures Shape(g, start, a) && start in g.Prods(g.goal) && start.lhs == g.goal && start.num == 0
  {
    hide EdgesOk, SoundStates, Settled, StateShape, SameCores;
    assert start in g.Prods(g.goal);
    assert g.ValidProduction(g.goal, start);
  }

  // -------------------------------------------------------- what a state says of the stack

  /** The state on top has the closure of the canonical state after the symbols below it. */
  lemma TopIs(g: Grammar, f: Sets, start: Production, a: Auto, w: seq<Symbol>, stack: seq<nat>)
    requires Finished(g, f, start, a) && Stacked(a, w, stack)
    ensures var s := stack[|stack| - 1];
      s < |a.states| && Represents(g, f, start, a, w, s) && Reached(g, f, start, a.states[s].kernel, w)
  {
    hide Finished, Canonical, Edge;
    StackedFollows(a, w, stack);
    FollowsRepresents(g, f, start, a, w);
  }

  /** An item before `x` calls for an edge on it. */
  lemma EdgeThere(g: Grammar, f: Sets, start: Production, a: Auto, w: seq<Symbol>, s: nat, p: Production, i: nat,
        t: Symbol)
    requires Finished(g, f, start, a) && StateNo(a, s) && Represents(g, f, start, a, w, s)
    requires HasItem(g, f, start, w, p, i, t) && i < |p.rhs|
    ensures exists u :: Edge(a, s, p.rhs[i], u)
  {
    hide Finished, Canonical, InClosure, Looks, Edge;
    assert Shifts(Core(p, i), p.rhs[i], Core(p, i + 1)) && KernelAfter(g, St(a, s), p.rhs[i], Core(p, i + 1));
    EdgesExact(g, f, start, a, s, p.rhs[i]);
    assert Core(p, i + 1) in Goto(g, f, St(a, s), p.rhs[i]).kernel;
  }

  /** A complete item is one of the kernel and epsilon items, lookahead included. */
  lemma ReducesThere(g: Grammar, f: Sets, start: Production, a: Auto, w: seq<Symbol>, s: nat, p: Production,
        t: Symbol)
    returns (j: nat)
    requires Finished(g, f, start, a) && StateNo(a, s) && Reached(g, f, start, a.states[s].kernel, w)
    requires Plain(g) && GoalFree(g) && HasItem(g, f, start, w, p, |p.rhs|, t)
    ensures j < |ItemsAt(a, s)| && Reduces(ItemsAt(a, s)[j], t) && ItemsAt(a, s)[j].core == Core(p, |p.rhs|)
  {
    hide Finished, Canonical, InClosure, CoreIn, LookIn, Plain, GoalFree;
    StateOk(g, f, start, a, s);
    var c, k, e := Core(p, |p.rhs|), a.states[s].kernel, a.states[s].eps;
    LookaheadsExact(g, f, start, a, s, c, t);
    LookWhere(g, f, start, w, k, c, t);
    if HasLook(k, c, t) {
      j :| 0 <= j < |k| && k[j].core == c && t in k[j].la;
      assert ItemsAt(a, s)[j] == k[j];
    } else {
      var i :| 0 <= i < |e| && e[i].core == c && t in e[i].la;
      j := |k| + i;
      assert ItemsAt(a, s)[j] == e[i];
    }
  }

  lemma StateOk(g: Grammar, f: Sets, start: Production, a: Auto, s: int)
    requires Finished(g, f, start, a) && StateNo(a, s)
    ensures KernelOk(g, a.states[s].kernel)
  {
    hide EdgesOk, SoundStates, Settled, KernelOk, Strict;
    assert StateShape(g, a, s);
  }

  /** A complete item with a lookahead is a kernel item, or one of the others. */
  lemma LookWhere(g: Grammar, f: Sets, start: Production, w: seq<Symbol>, k: Items, c: Core, t: Symbol)
    requires Plain(g) && GoalFree(g) && Reached(g, f, start, k, w) && c.AtEnd() && KernelOk(g, k)
    requires InClosure(g, AsState(k).kernel, c) && Looks(g, f, Canonical(g, f, start, w), c, t)
    ensures Canon(g, f, start, k, c, t) || (Listed(g, k, c) && CanonClosure(g, f, start, k, c, t))
  {
    hide Canonical, CoreIn, Grammar.Valid, GoalFree, KernelOk;
    if Has(k, c) {
      var n: nat :| LookIn(g, f, Canonical(g, f, start, w), c, t, n);
      if n > 0 {
        LooksOfKernel(g, f, start, w);
        var c0 := OpenedBy(g, f, Canonical(g, f, start, w), c, t, n);
        assert LrClosure.Opened(g, AsState(k).kernel, c);
        OpenedOutside(g, k, c);
      }
    }
  }

  lemma OpenedBy(g: Grammar, f: Sets, s: Lr1, c: Core, t: Symbol, n: nat) returns (c0: Core)
    requires LookIn(g, f, s, c, t, n) && n > 0 && forall c, t | (c, t) in s.looks :: c in s.kernel
    ensures InClosure(g, s.kernel, c0) && Opens(g, c0, c)
  {
    hide CoreIn;
    c0 :| LookFrom(g, f, s, c0, c, t, n);
    if !(InClosure(g, s.kernel, c0) && t in Spontaneous(g, f, c0)) { LooksInClosure(g, f, s, c0, t, n - 1); }
  }

  /** Only items of the closure have lookaheads. */
  lemma {:induction false} LooksInClosure(g: Grammar, f: Sets, s: Lr1, c: Core, t: Symbol, n: nat)
    requires LookIn(g, f, s, c, t, n) && forall c, t | (c, t) in s.looks :: c in s.kernel
    ensures InClosure(g, s.kernel, c)
    decreases n
  {
    hide CoreIn;
    if n == 0 {
      InKernel(g, s.kernel, c);
    } else {
      var c0 :| LookFrom(g, f, s, c0, c, t, n);
      if !(InClosure(g, s.kernel, c0) && t in Spontaneous(g, f, c0)) { LooksInClosure(g, f, s, c0, t, n - 1); }
      OpensInClosure(g, s.kernel, c0, c);
    }
  }

  lemma {:induction false} LooksOfKernel(g: Grammar, f: Sets, start: Production, w: seq<Symbol>)
    ensures forall c, t | (c, t) in Canonical(g, f, start, w).looks :: c in Canonical(g, f, start, w).kernel
    decreases |w|
  {
    hide Goto, Looks;
    if w != [] {
      var v, x := w[..|w| - 1], w[|w| - 1];
      assert w == v + [x];
      var s := Canonical(g, f, start, v);
      CanonicalSnoc(g, f, start, v, x);
      LooksOfKernel(g, f, start, v);
      forall c, t | (c, t) in Goto(g, f, s, x).looks ensures c in Goto(g, f, s, x).kernel {
        var c0 := LookBefore(g, f, s, x, c, t);
        LooksThere(g, f, s, c0, t);
        NextKernel(g, f, s, x, c0, c);
      }
    }
  }

  lemma LooksThere(g: Grammar, f: Sets, s: Lr1, c: Core, t: Symbol)
    requires Looks(g, f, s, c, t) && forall c, t | (c, t) in s.looks :: c in s.kernel
    ensures InClosure(g, s.kernel, c)
  {
    hide InClosure;
    var n: nat :| LookIn(g, f, s, c, t, n);
    LooksInClosure(g, f, s, c, t, n);
  }

  lemma NextKernel(g: Grammar, f: Sets, s: Lr1, x: Symbol, c0: Core, c: Core)
    requires Shifts(c0, x, c) && InClosure(g, s.kernel, c0)
    ensures c in Goto(g, f, s, x).kernel
  {
    hide InClosure;
    assert KernelAfter(g, s, x, c);
  }

  /** If the goal derives u A v by rightmost moves, the state after u and a right-hand side of A reduces
      by that production on the first token of v. */
  lemma FormReduces(g: Grammar, f: Sets, start: Production, a: Auto, u: seq<Symbol>, x: Symbol, v: seq<Symbol>,
        p: Production, s: nat)
    returns (j: nat)
    requires Finished(g, f, start, a) && Plain(g) && GoalFree(g) && OnlyStart(g, start) && Complete(g, f)
    requires RightForm(g, u + [x] + v) && Terminals(v) && p in g.Prods(x) && Follows(a, u + p.rhs, s)
    ensures s < |a.states| && j < |ItemsAt(a, s)|
    ensures ItemsAt(a, s)[j].core == Core(p, |p.rhs|) && L.Next(v) in ItemsAt(a, s)[j].la
  {
    hide Finished, Canonical, RightForm, Complete, GoalFree, HasItem, Reached, Represents;
    var c := Core(p, |p.rhs|);
    PlainParts(g, x, p);
    FollowsRepresents(g, f, start, a, u + p.rhs);
    assert CalledBy(g, u + p.rhs, c, u, v) by { assert p.rhs[..|p.rhs|] == p.rhs; }
    CalledHas(g, f, start, u + p.rhs, c, L.Next(v));
    RepresentsReached(g, f, start, a, u + p.rhs, s);
    j := ReducesThere(g, f, start, a, u + p.rhs, s, p, L.Next(v));
  }

  lemma RepresentsReached(g: Grammar, f: Sets, start: Production, a: Auto, w: seq<Symbol>, s: int)
    requires Represents(g, f, start, a, w, s)
    ensures StateNo(a, s) && Reached(g, f, start, a.states[s].kernel, w)
  {
    hide Canonical;
  }

  /** There is such a state for every form. */
  lemma FormFollows(g: Grammar, f: Sets, start: Production, a: Auto, u: seq<Symbol>, x: Symbol, v: seq<Symbol>,
        p: Production)
    requires Finished(g, f, start, a) && Plain(g) && OnlyStart(g, start) && Complete(g, f)
    requires RightForm(g, u + [x] + v) && Terminals(v) && p in g.Prods(x)
    ensures exists s :: Follows(a, u + p.rhs, s)
  {
    hide Finished, Canonical, RightForm, Complete;
    var c := Core(p, |p.rhs|);
    PlainParts(g, x, p);
    assert CalledBy(g, u + p.rhs, c, u, v) by { assert p.rhs[..|p.rhs|] == p.rhs; }
    CalledHas(g, f, start, u + p.rhs, c, L.Next(v));
    if Canonical(g, f, start, u + p.rhs).kernel == iset{} {
      var n: nat :| CoreIn(g, Canonical(g, f, start, u + p.rhs).kernel, c, n);
      NothingIn(g, Canonical(g, f, start, u + p.rhs).kernel, c, n);
    }
    FollowsRepresents(g, f, start, a, u + p.rhs);
  }

  /** Conversely, in a reduced grammar whose FIRST sets tell the truth, each reduction of a state is called
      for by a right sentential form with a prefix that leads to the state. */
  lemma ReducesForForm(g: Grammar, f: Sets, start: Production, a: Auto, s: nat, j: nat, t: Symbol)
    returns (w: seq<Symbol>, u: seq<Symbol>, v: seq<Symbol>)
    requires Finished(g, f, start, a) && Real(g, f, start) && Complete(g, f) && s < |a.states|
    requires j < |ItemsAt(a, s)| && Reduces(ItemsAt(a, s)[j], t)
    ensures var p := ItemsAt(a, s)[j].core.prod;
      && Follows(a, w, s) && w == u + p.rhs && p in g.Prods(p.lhs)
      && RightForm(g, u + [p.lhs] + v) && Terminals(v) && t == L.Next(v)
  {
    hide Finished, Canonical, RightForm, Complete, Real, LookIn, Reached;
    var k, e, x := a.states[s].kernel, a.states[s].eps, ItemsAt(a, s)[j];
    LookaheadsExact(g, f, start, a, s, x.core, t);
    if j < |k| {
      assert HasLook(k, x.core, t) by { assert k[j] == x; }
      w :| Reached(g, f, start, k, w) && (x.core, t) in Canonical(g, f, start, w).looks;
      LooksInKernel(g, f, Canonical(g, f, start, w), x.core, t);
    } else {
      assert HasLook(e, x.core, t) by { assert e[j - |k|] == x; }
      w :| Reached(g, f, start, k, w) && Looks(g, f, Canonical(g, f, start, w), x.core, t);
    }
    var n: nat :| LookIn(g, f, Canonical(g, f, start, w), x.core, t, n);
    LookCalled(g, f, start, w, x.core, t, n);
    u, v :| CalledBy(g, w, x.core, u, v) && L.Next(v) == t;
    assert x.core.prod.rhs[..x.core.dot] == x.core.prod.rhs;
    LeadsThere(g, f, start, a, s, w);
  }

  lemma LeadsThere(g: Grammar, f: Sets, start: Production, a: Auto, s: int, w: seq<Symbol>)
    requires Finished(g, f, start, a) && StateNo(a, s) && Reached(g, f, start, a.states[s].kernel, w)
    ensures Follows(a, w, s)
  {
    hide Canonical, SoundStates, Settled, EdgesOk;
    assert StateShape(g, a, s);
    FirstHas(a.states[s].kernel);
    assert a.states[s].kernel[0].core in St(a, s).kernel;
    FollowsRepresents(g, f, start, a, w);
    var t :| Follows(a, w, t);
    assert Represents(g, f, start, a, w, t);
    SameKernelSameState(g, start, a, s, t);
  }

  // -------------------------------------------------------------- every sentence is accepted

  /** A terminal behind a dot is shifted. */
  lemma Shifts1(g: Grammar, f: Sets, start: Production, pr: Precs, a: Auto, table: seq<seq<Act>>, w: seq<Symbol>,
        stack: seq<nat>, p: Production, i: nat, t: Symbol, rest: seq<Symbol>)
    returns (u: nat)
    requires Made(g, f, start, pr, a, table) && NoConflict(a) && Stacked(a, w, stack)
    requires HasItem(g, f, start, w, p, i, t) && i < |p.rhs| && IsTerm(p.rhs[i])
    ensures Stacked(a, w + [p.rhs[i]], stack + [u])
    ensures Turn(g, a, table, Config(stack, [p.rhs[i]] + rest)) == Running(Config(stack + [u], rest))
  {
    hide Made, Finished, HasItem, Represents, TableOf, Edge, NoConflictOn, Reached, RuleNo, Reduced;
    Parts(g, f, start, pr, a, table);
    TopIs(g, f, start, a, w, stack);
    var s, x := stack[|stack| - 1], p.rhs[i];
    EdgeThere(g, f, start, a, w, s, p, i, t);
    ShiftIsEdge(g, f, start, a, s, x);
    assert NoConflictOn(a, s, x);
    u := Lookup(a.actions[s], x).value;
    EntryShift(pr, a, table, s, x, u);
    StackedMore(a, w, stack, x, u);
    assert ([x] + rest)[1..] == rest;
  }

  /** A complete production on the stack is replaced by its left-hand side. */
  lemma Reduces1(g: Grammar, f: Sets, start: Production, pr: Precs, a: Auto, table: seq<seq<Act>>, w: seq<Symbol>,
        stack: seq<nat>, p: Production, q: Production, i: nat, t: Symbol, input: seq<Symbol>)
    returns (u: nat)
    requires Made(g, f, start, pr, a, table) && NoConflict(a) && Stacked(a, w + q.rhs, stack)
    requires HasItem(g, f, start, w + q.rhs, q, |q.rhs|, L.Next(input))
    requires HasItem(g, f, start, w, p, i, t) && i < |p.rhs| && q in g.Prods(p.rhs[i]) && p in g.Prods(p.lhs)
    ensures var left := stack[..|stack| - |q.rhs|] + [u];
      && Stacked(a, w + [p.rhs[i]], left)
      && Turn(g, a, table, Config(stack, input)) == Running(Config(left, input))
  {
    hide Made, Finished, HasItem, Represents, TableOf, Edge, NoConflictOn, Reached, Lookup, RuleNo;
    Parts(g, f, start, pr, a, table);
    var x, s, left := p.rhs[i], stack[|stack| - 1], stack[..|stack| - |q.rhs|];
    PlainParts(g, x, q);
    TopIs(g, f, start, a, w + q.rhs, stack);
    var j := ReducesThere(g, f, start, a, w + q.rhs, s, q, L.Next(input));
    assert NoConflictOn(a, s, L.Next(input));
    EntryReduce(pr, a, table, s, L.Next(input), j);
    NotStart(g, start, p, i, q);
    RuleIs(g, q);
    StackedLess(a, w, q.rhs, stack);
    TopIs(g, f, start, a, w, left);
    EdgeThere(g, f, start, a, w, left[|left| - 1], p, i, t);
    GotoIsEdge(g, f, start, a, left[|left| - 1], x);
    u := Lookup(a.gotos[left[|left| - 1]], x - MINNONTERM).value;
    StackedMore(a, w, left, x, u);
  }

  lemma NotStart(g: Grammar, start: Production, p: Production, i: nat, q: Production)
    requires Plain(g) && GoalFree(g) && OnlyStart(g, start) && start.num == 0
    requires p in g.Prods(p.lhs) && i < |p.rhs| && q in g.Prods(p.rhs[i])
    ensures q.num > 0
  {
    assert start in g.Prods(g.goal) && p.rhs[i] in p.rhs;
    if q.num == 0 { assert q == start; }
    PlainParts(g, p.rhs[i], q);
    PlainParts(g, g.goal, start);
  }

  lemma RuleIs(g: Grammar, q: Production)
    requires Plain(g) && q in g.Prods(q.lhs)
    ensures RuleNo(g, q.num) == Some(q)
  {
    assert Numbers(g, q.num, q);
  }

  /** What is left of a production after the dot is read and reduced, if the input begins with a text
      that it produces. */
  lemma {:induction false} ReadsRest(g: Grammar, f: Sets, start: Production, pr: Precs, a: Auto, table: seq<seq<Act>>,
        w: seq<Symbol>, stack: seq<nat>, p: Production, i: nat, y: seq<Symbol>, z: seq<Symbol>, n: nat)
    returns (stack': seq<nat>, k: nat)
    requires Made(g, f, start, pr, a, table) && NoConflict(a) && Complete(g, f) && Stacked(a, w, stack)
    requires p in g.Prods(p.lhs) && i <= |p.rhs| && HasItem(g, f, start, w, p, i, L.Next(z))
    requires Leftmost(g, p.rhs[i..], y, n)
    ensures Stacked(a, w + p.rhs[i..], stack') && |stack| <= |stack'| && stack'[..|stack|] == stack
    ensures HasItem(g, f, start, w + p.rhs[i..], p, |p.rhs|, L.Next(z))
    ensures Goes(g, a, table, Config(stack, y + z), Config(stack', z), k)
    decreases n
  {
    hide Made, HasItem, Stacked, Turn, Complete, NoConflict, Goes, L.Next;
    Parts(g, f, start, pr, a, table);
    PlainParts(g, p.lhs, p);
    var b := p.rhs[i..];
    if b == [] {
      assert w + b == w && y + z == z;
      stack', k := stack, 0;
      GoesNowhere(g, a, table, Config(stack, z));
    } else {
      var x, b' := p.rhs[i], p.rhs[i + 1..];
      assert b == [x] + b' && x in p.rhs && w + b == (w + [x]) + b';
      DotMoves(g, f, start, w, p, i, L.Next(z));
      if IsTerm(x) {
        assert y == [x] + y[1..] && y + z == [x] + (y[1..] + z);
        var u := Shifts1(g, f, start, pr, a, table, w, stack, p, i, L.Next(z), y[1..] + z);
        stack', k := ReadsRest(g, f, start, pr, a, table, w + [x], stack + [u], p, i + 1, y[1..], z, n - 1);
        GoesOne(g, a, table, Config(stack, y + z), Config(stack + [u], y[1..] + z));
        GoesOn(g, a, table, Config(stack, y + z), Config(stack + [u], y[1..] + z), Config(stack', z), 1, k);
        assert stack'[..|stack|] == stack'[..|stack| + 1][..|stack|];
        k := k + 1;
      } else {
        var q, y1, y2, k1, k2 := SplitMove(g, b, y, n);
        NontermHas(g, x, q);
        BringsIn(g, f, start, w, p, i, q, y2, z);
        assert q.rhs[0..] == q.rhs && y + z == y1 + (y2 + z);
        var s1, m1 := ReadsRest(g, f, start, pr, a, table, w, stack, q, 0, y1, y2 + z, k1);
        var u := Reduces1(g, f, start, pr, a, table, w, s1, p, q, i, L.Next(z), y2 + z);
        Heights(a, w, q.rhs, stack, s1);
        var m2;
        stack', m2 := ReadsRest(g, f, start, pr, a, table, w + [x], stack + [u], p, i + 1, y2, z, k2);
        assert stack'[..|stack|] == stack'[..|stack| + 1][..|stack|];
        GoesOne(g, a, table, Config(s1, y2 + z), Config(stack + [u], y2 + z));
        GoesOn(g, a, table, Config(stack, y + z), Config(s1, y2 + z), Config(stack + [u], y2 + z), m1, 1);
        GoesOn(g, a, table, Config(stack, y + z), Config(stack + [u], y2 + z), Config(stack', z), m1 + 1, m2);
        k := m1 + 1 + m2;
      }
    }
  }

  lemma GoesNowhere(g: Grammar, a: Auto, table: seq<seq<Act>>, c: Config)
    ensures Goes(g, a, table, c, c, 0)
  {
  }

  lemma Heights(a: Auto, w: seq<Symbol>, v: seq<Symbol>, stack: seq<nat>, stack': seq<nat>)
    requires Stacked(a, w, stack) && Stacked(a, w + v, stack') && |stack| <= |stack'| && stack'[..|stack|] == stack
    ensures stack'[..|stack'| - |v|] == stack
  {
  }

  /** The first move on a nonterminal, and the texts of the two parts. */
  lemma SplitMove(g: Grammar, b: seq<Symbol>, y: seq<Symbol>, n: nat)
    returns (q: Production, y1: seq<Symbol>, y2: seq<Symbol>, k1: nat, k2: nat)
    requires b != [] && !IsTerm(b[0]) && !IsAct(b[0]) && Leftmost(g, b, y, n)
    ensures q in g.Prods(b[0]) && Leftmost(g, q.rhs, y1, k1) && Leftmost(g, b[1..], y2, k2) && y == y1 + y2
    ensures k1 + k2 < n && Produces(g, b[1..], y2)
  {
    q :| q in g.Prods(b[0]) && Leftmost(g, q.rhs + b[1..], y, n - 1);
    var i;
    i, k1 := LeftmostSplit(g, q.rhs, b[1..], y, n - 1);
    y1, y2, k2 := y[..i], y[i..], n - 1 - k1;
  }

  /** On a table without conflicts the parser accepts every sentence of the goal. */
  lemma AcceptsSentences(g: Grammar, f: Sets, start: Production, pr: Precs, a: Auto, table: seq<seq<Act>>,
        w: seq<Symbol>)
    requires Made(g, f, start, pr, a, table) && NoConflict(a) && Complete(g, f) && Sentence(g, g.goal, w)
    ensures Accepts(g, a, table, w)
  {
    hide Made, HasItem, Complete, NoConflict, Goes, RuleNo, Sentence, Leftmost, Represents, TableOf, Finished, Reached;
    Parts(g, f, start, pr, a, table);
    PlainParts(g, g.goal, start);
    SentenceIff(g, g.goal, w);
    var n := StartProduces(g, start, w);
    FirstItem(g, f, start);
    assert start.rhs[0..] == start.rhs && [] + start.rhs == start.rhs && w + [] == w;
    var stack, k := ReadsRest(g, f, start, pr, a, table, [], [0], start, 0, w, [], n);
    TopIs(g, f, start, a, start.rhs, stack);
    var s := stack[|stack| - 1];
    var j := ReducesThere(g, f, start, a, start.rhs, s, start, EOI);
    assert NoConflictOn(a, s, EOI) by { OnState(a, s, EOI); }
    EntryReduce(pr, a, table, s, EOI, j);
    assert Turn(g, a, table, Config(stack, [])) == Accepted([]);
  }

  lemma OnState(a: Auto, s: nat, t: Symbol)
    requires NoConflict(a) && s < |a.states| && s < |a.actions|
    ensures NoConflictOn(a, s, t)
  {
    hide NoConflictOn;
  }

  lemma StartProduces(g: Grammar, start: Production, w: seq<Symbol>) returns (n: nat)
    requires Plain(g) && OnlyStart(g, start) && Produces(g, [g.goal], w)
    ensures Leftmost(g, start.rhs, w, n)
  {
    var k: nat :| Leftmost(g, [g.goal], w, k);
    var p :| p in g.Prods(g.goal) && Leftmost(g, p.rhs + [g.goal][1..], w, k - 1);
    assert p.rhs + [g.goal][1..] == p.rhs;
    n := k - 1;
  }

  // ------------------------------------------------------------- nothing else is accepted

  /** The symbols before the dot of an item are the last ones that have been read; those of the start
      production are all of them. */
  lemma {:induction false} DotBehind(g: Grammar, f: Sets, start: Production, w: seq<Symbol>, c: Core, n: nat)
    returns (v: seq<Symbol>)
    requires Plain(g) && GoalFree(g) && OnlyStart(g, start)
    requires CoreIn(g, Canonical(g, f, start, w).kernel, c, n)
    ensures CoreOk(g, c) && w == v + c.prod.rhs[..c.dot] && (c.prod == start ==> v == [])
    decreases |w|, n
  {
    hide Canonical, Goto, Plain, GoalFree;
    if n > 0 {
      var c0 :| CoreIn(g, Canonical(g, f, start, w).kernel, c0, n - 1) && Opens(g, c0, c);
      var _ := DotBehind(g, f, start, w, c0, n - 1);
      OpensNoStart(g, start, c0, c);
      v := w;
    } else if w == [] {
      StartOnly(g, f, start, c, EOI);
      assert start in g.Prods(g.goal);
      PlainParts(g, g.goal, start);
      v := [];
    } else {
      var u, x := w[..|w| - 1], w[|w| - 1];
      assert w == u + [x];
      CanonicalSnoc(g, f, start, u, x);
      var c0 := CoreBefore(g, f, Canonical(g, f, start, u), x, c);
      var k: nat :| CoreIn(g, Canonical(g, f, start, u).kernel, c0, k);
      v := DotBehind(g, f, start, u, c0, k);
      assert c.prod.rhs[..c.dot] == c0.prod.rhs[..c0.dot] + [x];
    }
  }

  lemma OpensNoStart(g: Grammar, start: Production, c0: Core, c: Core)
    requires Plain(g) && GoalFree(g) && OnlyStart(g, start) && CoreOk(g, c0) && Opens(g, c0, c)
    ensures CoreOk(g, c) && c.prod != start && c.dot == 0
  {
    assert start in g.Prods(g.goal) && c0.Next() in c0.prod.rhs;
    PlainParts(g, g.goal, start);
    PlainParts(g, c0.Next(), c.prod);
  }

  /** The start production is complete only before the end of the input. */
  lemma {:induction false} StartLook(g: Grammar, f: Sets, start: Production, w: seq<Symbol>, d: nat, t: Symbol, n: nat)
    requires Plain(g) && GoalFree(g) && OnlyStart(g, start)
    requires LookIn(g, f, Canonical(g, f, start, w), Core(start, d), t, n)
    ensures t == EOI
    decreases |w|, n
  {
    hide Canonical, Goto, Plain, GoalFree, CoreIn;
    var s := Canonical(g, f, start, w);
    LooksOfKernel(g, f, start, w);
    if n > 0 {
      var c0 := OpenedBy(g, f, s, Core(start, d), t, n);
      var k: nat :| CoreIn(g, s.kernel, c0, k);
      var _ := DotBehind(g, f, start, w, c0, k);
      OpensNoStart(g, start, c0, Core(start, d));
    } else if w == [] {
      StartOnly(g, f, start, Core(start, d), t);
    } else {
      var u, x := w[..|w| - 1], w[|w| - 1];
      assert w == u + [x];
      CanonicalSnoc(g, f, start, u, x);
      var c0 := LookBefore(g, f, Canonical(g, f, start, u), x, Core(start, d), t);
      var k: nat :| LookIn(g, f, Canonical(g, f, start, u), c0, t, k);
      StartLook(g, f, start, u, d - 1, t, k);
    }
  }

  /** What a reducing item of the state on top means for the stack. */
  lemma ItemBehind(g: Grammar, f: Sets, start: Production, a: Auto, w: seq<Symbol>, s: nat, j: nat, t: Symbol)
    returns (v: seq<Symbol>)
    requires Finished(g, f, start, a) && StateNo(a, s) && Represents(g, f, start, a, w, s)
    requires Plain(g) && GoalFree(g) && OnlyStart(g, start)
    requires j < |ItemsAt(a, s)| && Reduces(ItemsAt(a, s)[j], t)
    ensures var p := ItemsAt(a, s)[j].core.prod;
      p in g.Prods(p.lhs) && w == v + p.rhs && (p == start ==> v == [] && t == EOI)
  {
    hide Finished, Canonical, CoreIn, LookIn, Plain, GoalFree, OnlyStart;
    var k, e := a.states[s].kernel, a.states[s].eps;
    var x := ItemsAt(a, s)[j];
    AllAbsorbed(g, f, start, a, s);
    LookaheadsExact(g, f, start, a, s, x.core, t);
    if j < |k| {
      assert Has(k, x.core) && HasLook(k, x.core, t) by { assert k[j] == x; }
      InKernel(g, AsState(k).kernel, x.core);
    } else {
      assert Has(e, x.core) && HasLook(e, x.core, t) by { assert e[j - |k|] == x; }
    }
    assert InClosure(g, Canonical(g, f, start, w).kernel, x.core);
    var n: nat :| CoreIn(g, Canonical(g, f, start, w).kernel, x.core, n);
    v := DotBehind(g, f, start, w, x.core, n);
    assert x.core.prod.rhs[..x.core.dot] == x.core.prod.rhs;
    if x.core.prod == start { StartAtEnd(g, f, start, k, x.core, t); }
  }

  lemma StartAtEnd(g: Grammar, f: Sets, start: Production, k: Items, c: Core, t: Symbol)
    requires Plain(g) && GoalFree(g) && OnlyStart(g, start) && c.prod == start
    requires Canon(g, f, start, k, c, t) || CanonClosure(g, f, start, k, c, t)
    ensures t == EOI
  {
    hide Canonical, LookIn, Plain, GoalFree, OnlyStart;
    var w;
    if Canon(g, f, start, k, c, t) {
      w :| Reached(g, f, start, k, w) && (c, t) in Canonical(g, f, start, w).looks;
      LooksInKernel(g, f, Canonical(g, f, start, w), c, t);
    } else {
      w :| Reached(g, f, start, k, w) && Looks(g, f, Canonical(g, f, start, w), c, t);
    }
    var n: nat :| LookIn(g, f, Canonical(g, f, start, w), c, t, n);
    StartLook(g, f, start, w, c.dot, t, n);
  }

  /** What the parser has read is what the symbols on its stack produce. */
  ghost predicate ReadSo(g: Grammar, a: Auto, c: Config, tokens: seq<Symbol>, w: seq<Symbol>, u: seq<Symbol>) {
    Stacked(a, w, c.stack) && Produces(g, w, u) && tokens == u + c.input
  }

  /** An entry that does not shift comes from a reducing item. */
  lemma EntryFrom(pr: Precs, a: Auto, table: seq<seq<Act>>, s: nat, t: Symbol) returns (j: nat)
    requires TableOf(pr, a, table) && s < |a.states| && Lookup(table[s], t).Some?
    requires Lookup(a.actions[s], t).Some? ==> Lookup(a.actions[s], t).value > 0
    ensures Lookup(table[s], t).value > 0 ==> Lookup(a.actions[s], t) == Lookup(table[s], t)
    ensures Lookup(table[s], t).value <= 0 ==>
      && j < |ItemsAt(a, s)| && Reduces(ItemsAt(a, s)[j], t)
      && ItemsAt(a, s)[j].core.prod.num == -Lookup(table[s], t).value
  {
    hide Lookup, ResolveAll, Wins, IsLeast;
    var items, shift, r := ItemsAt(a, s), Lookup(a.actions[s], t), Lookup(table[s], t);
    j := 0;
    if shift.Some? {
      WithShift(pr, shift.value, items, t);
      if r.value <= 0 {
        var i: nat :| FirstWinner(pr, items, t, i) && IsLeast(items, i, t, -r.value);
        j := LeastAt(items, i, t, -r.value);
      }
    } else {
      WithoutShift(pr, items, t);
      j := LeastAt(items, 0, t, -r.value);
    }
  }

  lemma LeastAt(items: Items, i: nat, t: Symbol, m: nat) returns (j: nat)
    requires IsLeast(items, i, t, m)
    ensures j < |items| && Reduces(items[j], t) && items[j].core.prod.num == m
  {
    j :| i <= j < |items| && Reduces(items[j], t) && items[j].core.prod.num == m;
  }

  /** A turn keeps what has been read and what is on the stack together. */
  lemma TurnSound(g: Grammar, f: Sets, start: Production, pr: Precs, a: Auto, table: seq<seq<Act>>, c: Config,
        tokens: seq<Symbol>, w: seq<Symbol>, u: seq<Symbol>)
    returns (w': seq<Symbol>, u': seq<Symbol>)
    requires Made(g, f, start, pr, a, table) && Terminals(tokens) && ReadSo(g, a, c, tokens, w, u)
    ensures Turn(g, a, table, c).Running? ==> ReadSo(g, a, Turn(g, a, table, c).c, tokens, w', u')
    ensures Turn(g, a, table, c).Accepted? ==> Sentence(g, g.goal, tokens) && Turn(g, a, table, c).rest == []
  {
    hide Made, Finished, TableOf, Represents, Reached, Lookup, Produces, RuleNo, Sentence, Edge, Plain, GoalFree;
    w', u' := w, u;
    Parts(g, f, start, pr, a, table);
    TopIs(g, f, start, a, w, c.stack);
    var s, t := c.Top(), L.Next(c.input);
    if Turn(g, a, table, c).Error? { return; }
    NextTerm(tokens, u, c.input);
    ShiftsTerms(g, f, start, a, s, t);
    var j := EntryFrom(pr, a, table, s, t);
    var n := Lookup(table[s], t).value;
    if n > 0 {
      w', u' := w + [t], u + [t];
      StackedMore(a, w, c.stack, t, n);
      L.ProducesToken(g, t);
      L.ProducesJoin(g, w, u, [t], [t]);
      assert u' + c.input[1..] == u + ([t] + c.input[1..]);
    } else {
      var p := ItemsAt(a, s)[j].core.prod;
      var v := ItemBehind(g, f, start, a, w, s, j, t);
      if n == 0 {
        StartIs(g, start, p);
        AllRead(tokens, u, c.input);
        assert w == [] + start.rhs == start.rhs && tokens == u + [] == u;
        L.ProducesBy(g, g.goal, start, u);
        SentenceIff(g, g.goal, tokens);
      } else {
        RuleIs(g, p);
        w' := ReduceSound(g, f, start, a, c, tokens, w, u, v, p);
      }
    }
  }

  lemma StartIs(g: Grammar, start: Production, p: Production)
    requires Plain(g) && OnlyStart(g, start) && p in g.Prods(p.lhs) && start.num == 0 == p.num
    ensures p == start && IsNonterm(g.goal)
  {
    assert start in g.Prods(g.goal);
  }

  lemma AllRead(tokens: seq<Symbol>, u: seq<Symbol>, rest: seq<Symbol>)
    requires tokens == u + rest && Terminals(tokens) && L.Next(rest) == EOI
    ensures rest == []
  {
    NextTerm(tokens, u, rest);
  }

  /** The next token is a terminal, or nothing is shifted. */
  lemma ShiftsTerms(g: Grammar, f: Sets, start: Production, a: Auto, s: nat, t: Symbol)
    requires Finished(g, f, start, a) && Shape(g, start, a) && s < |a.states| && (IsTerm(t) || t == EOI)
    ensures Lookup(a.actions[s], t).Some? ==>
      IsTerm(t) && Lookup(a.actions[s], t).value > 0 && Edge(a, s, t, Lookup(a.actions[s], t).value)
  {
    hide Finished, Lookup, StateShape, SameCores, DistinctSyms;
    if IsTerm(t) {
      ShiftIsEdge(g, f, start, a, s, t);
    } else {
      assert OnTerms(a.actions[s]);
      LookupNone(a.actions[s], t);
    }
  }

  lemma NextTerm(tokens: seq<Symbol>, u: seq<Symbol>, rest: seq<Symbol>)
    requires tokens == u + rest && Terminals(tokens)
    ensures if rest == [] then L.Next(rest) == EOI else IsTerm(L.Next(rest)) && rest == [L.Next(rest)] + rest[1..]
  {
    assert rest != [] ==> rest[0] in tokens;
  }

  lemma ReduceSound(g: Grammar, f: Sets, start: Production, a: Auto, c: Config, tokens: seq<Symbol>, w: seq<Symbol>,
        u: seq<Symbol>, v: seq<Symbol>, p: Production)
    returns (w': seq<Symbol>)
    requires Finished(g, f, start, a) && Shape(g, start, a) && Plain(g) && ReadSo(g, a, c, tokens, w, u)
    requires w == v + p.rhs && p in g.Prods(p.lhs)
    ensures Reduced(a, c, p).Running? ==> ReadSo(g, a, Reduced(a, c, p).c, tokens, w', u)
  {
    hide Finished, Shape, Lookup, Produces, Edge, Plain, Represents, Reached;
    PlainParts(g, p.lhs, p);
    var left := c.stack[..|c.stack| - |p.rhs|];
    StackedLess(a, v, p.rhs, c.stack);
    TopIs(g, f, start, a, v, left);
    w' := v + [p.lhs];
    if Reduced(a, c, p).Running? {
      var r := left[|left| - 1];
      GotoIsEdge(g, f, start, a, r, p.lhs);
      StackedMore(a, v, left, p.lhs, Lookup(a.gotos[r], p.lhs - MINNONTERM).value);
      LhsProduces(g, v, p, u);
    }
  }

  lemma LhsProduces(g: Grammar, v: seq<Symbol>, p: Production, u: seq<Symbol>)
    requires Produces(g, v + p.rhs, u) && p in g.Prods(p.lhs) && IsNonterm(p.lhs)
    ensures Produces(g, v + [p.lhs], u)
  {
    hide Produces;
    var y, z := SplitText(g, v, p.rhs, u);
    L.ProducesBy(g, p.lhs, p, z);
    L.ProducesJoin(g, v, y, [p.lhs], z);
  }

  lemma {:induction false} GoesSound(g: Grammar, f: Sets, start: Production, pr: Precs, a: Auto,
        table: seq<seq<Act>>, c: Config, c': Config, n: nat, tokens: seq<Symbol>, w: seq<Symbol>, u: seq<Symbol>)
    requires Made(g, f, start, pr, a, table) && Terminals(tokens) && ReadSo(g, a, c, tokens, w, u)
    requires Goes(g, a, table, c, c', n) && Turn(g, a, table, c').Accepted?
    ensures Sentence(g, g.goal, tokens) && Turn(g, a, table, c').rest == []
    decreases n
  {
    hide Made, Turn, Sentence, ReadSo;
    var w', u' := TurnSound(g, f, start, pr, a, table, c, tokens, w, u);
    if n > 0 {
      GoesSound(g, f, start, pr, a, table, Turn(g, a, table, c).c, c', n - 1, tokens, w', u');
    }
  }

  /** What the parser accepts is a sentence of the goal and has been read to its end, whatever conflicts
      there have been. */
  lemma AcceptsOnlySentences(g: Grammar, f: Sets, start: Production, pr: Precs, a: Auto, table: seq<seq<Act>>,
        tokens: seq<Symbol>, c: Config, n: nat)
    requires Made(g, f, start, pr, a, table) && Terminals(tokens)
    requires Goes(g, a, table, Config([0], tokens), c, n) && Turn(g, a, table, c).Accepted?
    ensures Sentence(g, g.goal, tokens) && Turn(g, a, table, c).rest == []
  {
    hide Made, Turn, Sentence;
    L.ProducesNothing(g);
    assert [] + tokens == tokens && Stacked(a, [], [0]);
    assert ReadSo(g, a, Config([0], tokens), tokens, [], []);
    GoesSound(g, f, start, pr, a, table, Config([0], tokens), c, n, tokens, [], []);
  }

  /** With tables that have no conflicts the parser accepts exactly the sentences of the goal. */
  lemma AcceptsExactly(g: Grammar, f: Sets, start: Production, pr: Precs, a: Auto, table: seq<seq<Act>>,
        tokens: seq<Symbol>)
    requires Made(g, f, start, pr, a, table) && Complete(g, f) && NoConflict(a) && Terminals(tokens)
    ensures Accepts(g, a, table, tokens) <==> Sentence(g, g.goal, tokens)
  {
    hide Made, Turn, Sentence, Complete, NoConflict, Goes;
    if Accepts(g, a, table, tokens) {
      var c, n: nat :| Goes(g, a, table, Config([0], tokens), c, n) && Turn(g, a, table, c) == Accepted([]);
      AcceptsOnlySentences(g, f, start, pr, a, table, tokens, c, n);
    }
    if Sentence(g, g.goal, tokens) { AcceptsSentences(g, f, start, pr, a, table, tokens); }
  }
}
