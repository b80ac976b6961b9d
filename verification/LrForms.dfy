/** What the canonical LR(1) items mean in terms of derivations: an item with its lookahead is in the
    state after `u` for every right sentential form that calls for it, and, where the FIRST sets tell
    the truth, for no other reason. */
module LrForms {
  import opened Grammars
  import opened Symbols
  import opened First
  import opened FirstTheorems
  import opened LrItems
  import opened LrKernel
  import opened LrStates
  import L = LLExact

  /** The FIRST sets miss nothing that can really come first. */
  ghost predicate Complete(g: Grammar, f: Sets) { Leq(L.TrueFirst(g), f) }

  /** They have nothing that cannot. */
  ghost predicate Truthful(g: Grammar, f: Sets) { Leq(f, L.TrueFirst(g)) }

  predicate Terminals(v: seq<Symbol>) {
    forall x | x in v :: IsTerm(x)
  }

  /** A rightmost move: there is no nonterminal behind the one that is expanded. */
  ghost predicate RightMove(g: Grammar, a: seq<Symbol>, i: nat, p: Production, b: seq<Symbol>) {
    StepAt(g, a, i, p, b) && Terminals(a[i + 1..])
  }

  /** The goal derives `b` in `n` rightmost moves. */
  ghost predicate RightFormIn(g: Grammar, b: seq<Symbol>, n: nat)
    decreases n
  {
    if n == 0 then b == [g.goal]
    else exists a, i: nat, p :: RightFormIn(g, a, n - 1) && RightMove(g, a, i, p, b)
  }

  ghost predicate RightForm(g: Grammar, b: seq<Symbol>) {
    exists n: nat :: RightFormIn(g, b, n)
  }

  lemma RightFormDerived(g: Grammar, b: seq<Symbol>, n: nat)
    requires RightFormIn(g, b, n)
    ensures Derives(g, [g.goal], b)
    decreases n
  {
    if n == 0 {
      DerivesRefl(g, [g.goal]);
    } else {
      var a, i: nat, p :| RightFormIn(g, a, n - 1) && RightMove(g, a, i, p, b);
      RightFormDerived(g, a, n - 1);
      assert Step(g, a, b);
      DerivesStep(g, [g.goal], a, b);
    }
  }

  lemma MoveRight(g: Grammar, u: seq<Symbol>, x: Symbol, v: seq<Symbol>, p: Production)
    requires RightForm(g, u + [x] + v) && Terminals(v) && p in g.Prods(x)
    ensures RightForm(g, u + p.rhs + v)
  {
    var a, b := u + [x] + v, u + p.rhs + v;
    var n: nat :| RightFormIn(g, a, n);
    assert a[|u|] == x && a[|u| + 1..] == v && a[..|u|] == u;
    assert RightMove(g, a, |u|, p, b);
    assert RightFormIn(g, b, n + 1);
  }

  // -------------------------------------------------------- what FIRST sets are good for

  /** Closed sets miss nothing. */
  lemma ClosedComplete(g: Grammar, f: Sets)
    requires g.ValidProductions() && Closed(g, f)
    ensures Complete(g, f)
  {
    hide Closed, Grammar.ValidProductions, Leftmost, Scan;
    forall x, t | t in At(L.TrueFirst(g), x) ensures t in At(f, x) {
      if t == g.Epsilon() {
        var n: nat :| Leftmost(g, [x], [], n);
        LeftmostFirst(g, f, [x], [], n);
        assert x in [x];
      } else {
        var w :| Produces(g, [x], [t] + w);
        var n: nat :| Leftmost(g, [x], [t] + w, n);
        LeftmostFirst(g, f, [x], [t] + w, n);
        ScanOne(g, f, x);
      }
    }
  }

  lemma ScanOne(g: Grammar, f: Sets, x: Symbol)
    requires IsNonterm(x)
    ensures Scan(g, f, [x]) == At(f, x)
  {
    assert [x][1..] == [];
  }

  /** What comes next is in the scan of a string, or the whole string is nullable. */
  lemma {:induction false} NextInScan(g: Grammar, f: Sets, a: seq<Symbol>, z: seq<Symbol>)
    requires g.ValidProductions() && g.currTerm <= MAXTERM && Complete(g, f) && g.ValidString(a)
    requires Produces(g, a, z)
    ensures if z == [] then AllNullable(g, f, a) else 1 <= z[0] <= g.currTerm && z[0] in Scan(g, f, a)
  {
    hide Leftmost, Grammar.ValidProductions, Complete, Produces;
    L.TokensProduced(g, a, z);
    assert z != [] ==> z[0] in z;
    TrueNext(g, a, z);
    Larger(g, f, a);
  }

  lemma Larger(g: Grammar, f: Sets, a: seq<Symbol>)
    requires Complete(g, f)
    ensures Scan(g, L.TrueFirst(g), a) <= Scan(g, f, a)
    ensures AllNullable(g, L.TrueFirst(g), a) ==> AllNullable(g, f, a)
  {
    hide L.TrueFirst;
    ScanMonotone(g, L.TrueFirst(g), f, a);
  }

  lemma {:induction false} TrueNext(g: Grammar, a: seq<Symbol>, z: seq<Symbol>)
    requires g.ValidProductions() && g.currTerm <= MAXTERM && g.ValidString(a) && Produces(g, a, z)
    ensures if z == [] then AllNullable(g, L.TrueFirst(g), a) else z[0] in Scan(g, L.TrueFirst(g), a)
  {
    hide Leftmost, Grammar.ValidProductions, L.TrueFirst, AllNullable, Nullable;
    var f := L.TrueFirst(g);
    var n: nat :| Leftmost(g, a, z, n);
    if a == [] {
      Nothing(g, z, n);
      NoneNullable(g, f);
    } else {
      var y, rest := a[0], a[1..];
      assert a == [y] + rest && y in a && forall x | x in rest :: x in a;
      var i, k := LeftmostSplit(g, [y], rest, z, n);
      assert Produces(g, [y], z[..i]) && Produces(g, rest, z[i..]);
      TrueNext(g, rest, z[i..]);
      FirstSymbol(g, y, z[..i]);
      if i == 0 { assert z[..i] == [] && z[i..] == z; }
      FrontNullable(g, f, y, rest);
    }
  }

  lemma Nothing(g: Grammar, z: seq<Symbol>, n: nat)
    requires Leftmost(g, [], z, n)
    ensures z == []
  {
  }

  lemma NoneNullable(g: Grammar, f: Sets)
    ensures AllNullable(g, f, [])
  {
  }

  lemma FrontNullable(g: Grammar, f: Sets, y: Symbol, rest: seq<Symbol>)
    ensures AllNullable(g, f, [y] + rest) <==> (IsAct(y) || Nullable(g, f, y)) && AllNullable(g, f, rest)
  {
    assert forall x :: x in [y] + rest <==> x == y || x in rest;
  }

  /** What one symbol produces. */
  lemma FirstSymbol(g: Grammar, y: Symbol, z: seq<Symbol>)
    requires g.ValidProductions() && g.currTerm <= MAXTERM && g.ValidSymbol(y) && Produces(g, [y], z)
    ensures z == [] ==> IsAct(y) || Nullable(g, L.TrueFirst(g), y)
    ensures z != [] ==> !IsAct(y) && z[0] in FirstOfSymbol(L.TrueFirst(g), y)
  {
    hide Grammar.ValidProductions;
    assert forall x | x in [y] :: g.ValidSymbol(x);
    L.TokensProduced(g, [y], z);
    var n: nat :| Leftmost(g, [y], z, n);
    assert [y][1..] == [];
    if IsAct(y) {
      Nothing(g, z, n - 1);
    } else if IsTerm(y) {
      Nothing(g, z[1..], n - 1);
    } else {
      var p :| p in g.Prods(y) && Leftmost(g, p.rhs + [y][1..], z, n - 1);
      NontermHas(g, y, p);
    }
    if z == [] {
      assert L.Vanishes(g, [y]);
    } else {
      assert z == [z[0]] + z[1..] && z[0] in z;
      assert L.Starts(g, [y], z[0]);
    }
  }

  lemma NontermHas(g: Grammar, y: Symbol, p: Production)
    requires g.ValidProductions() && p in g.Prods(y)
    ensures IsNonterm(y) && g.ValidProduction(y, p) && p.lhs == y
  {
  }

  // --------------------------------------------- every right sentential form has its items

  /** The item of `p` with its dot at `i` is in the state after `u`, with the lookahead `t`. */
  ghost predicate HasItem(g: Grammar, f: Sets, start: Production, u: seq<Symbol>, p: Production, i: nat, t: Symbol) {
    var s := Canonical(g, f, start, u);
    InClosure(g, s.kernel, Core(p, i)) && Looks(g, f, s, Core(p, i), t)
  }

  /** Reading the symbol behind the dot moves the dot. */
  lemma DotMoves(g: Grammar, f: Sets, start: Production, u: seq<Symbol>, p: Production, i: nat, t: Symbol)
    requires HasItem(g, f, start, u, p, i, t) && i < |p.rhs|
    ensures HasItem(g, f, start, u + [p.rhs[i]], p, i + 1, t)
  {
    hide Canonical, InClosure, Looks, Goto;
    var x, s := p.rhs[i], Canonical(g, f, start, u);
    var s' := Canonical(g, f, start, u + [x]);
    CanonicalSnoc(g, f, start, u, x);
    assert Shifts(Core(p, i), x, Core(p, i + 1));
    MovedIn(g, f, s, x, Core(p, i), Core(p, i + 1), t);
    InKernel(g, s'.kernel, Core(p, i + 1));
    LooksInKernel(g, f, s', Core(p, i + 1), t);
  }

  lemma MovedIn(g: Grammar, f: Sets, s: Lr1, x: Symbol, c: Core, c': Core, t: Symbol)
    requires Shifts(c, x, c') && InClosure(g, s.kernel, c) && Looks(g, f, s, c, t)
    ensures c' in Goto(g, f, s, x).kernel && (c', t) in Goto(g, f, s, x).looks
  {
    hide InClosure, Looks;
    assert KernelAfter(g, s, x, c') && LooksAfter(g, f, s, x, c', t);
  }

  lemma {:induction false} DotMovesOver(g: Grammar, f: Sets, start: Production, u: seq<Symbol>, p: Production, i: nat,
        t: Symbol)
    requires HasItem(g, f, start, u, p, 0, t) && i <= |p.rhs|
    ensures HasItem(g, f, start, u + p.rhs[..i], p, i, t)
  {
    hide HasItem;
    if i == 0 {
      assert u + p.rhs[..0] == u;
    } else {
      DotMovesOver(g, f, start, u, p, i - 1, t);
      DotMoves(g, f, start, u + p.rhs[..i - 1], p, i - 1, t);
      assert u + p.rhs[..i] == u + p.rhs[..i - 1] + [p.rhs[i - 1]];
    }
  }

  /** In front of a nonterminal an item brings in that nonterminal's productions, with what can come
      behind it as lookahead. */
  lemma BringsIn(g: Grammar, f: Sets, start: Production, u: seq<Symbol>, q: Production, i: nat, p: Production,
        y: seq<Symbol>, z: seq<Symbol>)
    requires g.ValidProductions() && g.currTerm <= MAXTERM && Complete(g, f) && g.ValidProduction(q.lhs, q)
    requires HasItem(g, f, start, u, q, i, L.Next(z)) && i < |q.rhs| && IsNonterm(q.rhs[i]) && p in g.Prods(q.rhs[i])
    requires Produces(g, q.rhs[i + 1..], y)
    ensures HasItem(g, f, start, u, p, 0, L.Next(y + z))
  {
    hide Canonical, InClosure, Looks, Complete, Scan, AllNullable, Produces, Grammar.ValidProductions;
    var s, c0, c := Canonical(g, f, start, u), Core(q, i), Core(p, 0);
    assert Opens(g, c0, c) && c0.Rest() == q.rhs[i + 1..];
    NextInScan(g, f, q.rhs[i + 1..], y);
    OpensInClosure(g, s.kernel, c0, c);
    if y == [] {
      assert y + z == z;
      LooksPassedOn(g, f, s, c0, c, L.Next(z));
    } else {
      LooksSpontaneous(g, f, s, c0, c, y[0]);
    }
  }

  lemma FirstItem(g: Grammar, f: Sets, start: Production)
    ensures HasItem(g, f, start, [], start, 0, EOI)
  {
    var s := Canonical(g, f, start, []);
    InKernel(g, s.kernel, Core(start, 0));
    LooksInKernel(g, f, s, Core(start, 0), EOI);
  }

  ghost predicate OnlyStart(g: Grammar, start: Production) {
    g.Prods(g.goal) == [start]
  }

  /** If the goal derives `u` x `r` by rightmost moves and `r` can produce the text `z`, the state after
      `u` has every production of x, with the first token of `z` as lookahead. */
  lemma {:induction false} FormHasItem(g: Grammar, f: Sets, start: Production, u: seq<Symbol>, x: Symbol,
        r: seq<Symbol>, z: seq<Symbol>, p: Production, n: nat)
    requires g.ValidProductions() && g.currTerm <= MAXTERM && Complete(g, f) && OnlyStart(g, start)
    requires RightFormIn(g, u + [x] + r, n) && Produces(g, r, z) && p in g.Prods(x)
    ensures HasItem(g, f, start, u, p, 0, L.Next(z))
    decreases n
  {
    hide HasItem, Complete, Produces, StepAt, Expand, Grammar.ValidProductions, Grammar.ValidProduction, L.Next;
    var b := u + [x] + r;
    if n == 0 {
      assert |b| == 1 && u == [] && r == [] && b[0] == x;
      NoText(g, r, z);
      assert p in [start];
      FirstItem(g, f, start);
    } else {
      var a, i: nat, q :| RightFormIn(g, a, n - 1) && RightMove(g, a, i, q, b);
      MoveParts(g, a, i, q, b);
      var y := a[i];
      if |u| < i {
        MoveBehind(g, a, i, q, u, x, r);
        UndoMove(g, a[|u| + 1..], i - |u| - 1, q, r, z);
        FormHasItem(g, f, start, u, x, a[|u| + 1..], z, p, n - 1);
      } else {
        NontermHas(g, x, p);
        NontermHas(g, y, q);
        MoveHere(g, a, i, q, u, x, r);
        var k, v := |u| - i, a[i + 1..];
        var y', z' := SplitText(g, q.rhs[k + 1..], v, z);
        FormHasItem(g, f, start, a[..i], y, v, z', q, n - 1);
        DotMovesOver(g, f, start, a[..i], q, k, L.Next(z'));
        BringsIn(g, f, start, u, q, k, p, y', z');

      }
    }
  }

  lemma SplitText(g: Grammar, a: seq<Symbol>, b: seq<Symbol>, z: seq<Symbol>) returns (y: seq<Symbol>, z': seq<Symbol>)
    requires Produces(g, a + b, z)
    ensures Produces(g, a, y) && Produces(g, b, z') && z == y + z'
  {
    hide Leftmost;
    var n: nat :| Leftmost(g, a + b, z, n);
    var i, k := LeftmostSplit(g, a, b, z, n);
    y, z' := z[..i], z[i..];
  }

  lemma NoText(g: Grammar, r: seq<Symbol>, z: seq<Symbol>)
    requires Produces(g, r, z) && r == []
    ensures z == [] && L.Next(z) == EOI
  {
  }

  lemma MoveParts(g: Grammar, a: seq<Symbol>, i: nat, q: Production, b: seq<Symbol>)
    requires RightMove(g, a, i, q, b)
    ensures i < |a| && a == a[..i] + [a[i]] + a[i + 1..] && q in g.Prods(a[i]) && Terminals(a[i + 1..])
    ensures StepAt(g, a, i, q, b)
  {
  }

  /** The nonterminal that was expanded stood behind x. */
  lemma MoveBehind(g: Grammar, a: seq<Symbol>, i: nat, q: Production, u: seq<Symbol>, x: Symbol, r: seq<Symbol>)
    requires StepAt(g, a, i, q, u + [x] + r) && |u| < i
    ensures a == u + [x] + a[|u| + 1..] && StepAt(g, a[|u| + 1..], i - |u| - 1, q, r)
  {
    var b := u + [x] + r;
    var rest := a[|u| + 1..];
    assert b == a[..i] + (q.rhs + a[i + 1..]);
    assert b[..|u| + 1] == a[..|u| + 1] == u + [x];
    assert r == b[|u| + 1..];
    assert a[..i] == a[..|u| + 1] + rest[..i - |u| - 1];
    assert rest[i - |u| - 1 + 1..] == a[i + 1..];
    assert r == Expand(rest, i - |u| - 1, q.rhs);
  }

  lemma UndoMove(g: Grammar, a: seq<Symbol>, i: nat, q: Production, b: seq<Symbol>, z: seq<Symbol>)
    requires g.ValidProductions() && StepAt(g, a, i, q, b) && Produces(g, b, z)
    ensures Produces(g, a, z)
  {
    hide Leftmost;
    var n: nat :| Leftmost(g, b, z, n);
    var m := LeftmostBefore(g, a, i, q, z, n);
  }

  /** x is part of what the nonterminal was expanded to. */
  lemma MoveHere(g: Grammar, a: seq<Symbol>, i: nat, q: Production, u: seq<Symbol>, x: Symbol, r: seq<Symbol>)
    requires RightMove(g, a, i, q, u + [x] + r) && i <= |u| && IsNonterm(x)
    ensures var k := |u| - i;
      k < |q.rhs| && q.rhs[k] == x && u == a[..i] + q.rhs[..k] && r == q.rhs[k + 1..] + a[i + 1..]
  {
    var b, v := u + [x] + r, a[i + 1..];
    var k := |u| - i;
    assert b == a[..i] + q.rhs + v && b[|u|] == x && b[..|u|] == u && b[|u| + 1..] == r;
    assert k >= |q.rhs| ==> x in v;
  }

  // ------------------------------------------------------ and there are no other items

  /** The goal derives `a` lhs `v` by rightmost moves, and the symbols before the dot complete `a` to `u`. */
  ghost predicate CalledBy(g: Grammar, u: seq<Symbol>, c: Core, a: seq<Symbol>, v: seq<Symbol>) {
    && c.dot <= |c.prod.rhs| && u == a + c.prod.rhs[..c.dot] && c.prod in g.Prods(c.prod.lhs)
    && RightForm(g, a + [c.prod.lhs] + v) && Terminals(v)
  }

  /** A right sentential form calls for the item after `u`, with `t` behind what it stands for. */
  ghost predicate Called(g: Grammar, u: seq<Symbol>, c: Core, t: Symbol) {
    exists a, v :: CalledBy(g, u, c, a, v) && L.Next(v) == t
  }

  predicate NoActs(a: seq<Symbol>) {
    forall x | x in a :: !IsAct(x)
  }

  lemma PlainParts(g: Grammar, x: Symbol, p: Production)
    requires Plain(g) && p in g.Prods(x)
    ensures IsNonterm(x) && p.lhs == x && g.ValidString(p.rhs) && NoActs(p.rhs)
    ensures g.ValidProductions() && g.currTerm <= MAXTERM
  {
    assert g.ValidProduction(x, p);
  }

  /** A string in front of terminals can be replaced by any text that it produces. */
  lemma {:induction false} Rewritten(g: Grammar, a: seq<Symbol>, b: seq<Symbol>, v: seq<Symbol>, y: seq<Symbol>, n: nat)
    requires Plain(g) && RightForm(g, a + b + v) && Terminals(v) && Leftmost(g, b, y, n) && NoActs(b)
    ensures RightForm(g, a + y + v) && Terminals(y)
    decreases n
  {
    hide RightForm, Plain, Leftmost, Grammar.Prods;
    if b == [] {
      Nothing(g, y, n);
    } else {
      var k := |b| - 1;
      var x, front := b[k], b[..k];
      assert b == front + [x] && x in b && forall s | s in front :: s in b;
      var i, m := LeftmostSplit(g, front, [x], y, n);
      if IsTerm(x) {
        OneTerm(g, x, y[i..], n - m);
        assert a + b + v == a + front + ([x] + v) && y == y[..i] + [x];
        Rewritten(g, a, front, [x] + v, y[..i], m);
        assert a + y[..i] + ([x] + v) == a + y + v;
      } else {
        var p := OneMove(g, x, y[i..], n - m);
        PlainParts(g, x, p);
        assert a + b + v == (a + front) + [x] + v;
        MoveRight(g, a + front, x, v, p);
        assert (a + front) + p.rhs + v == a + (front + p.rhs) + v;
        LeftmostJoin(g, front, y[..i], m, p.rhs, y[i..], n - m - 1);
        assert y[..i] + y[i..] == y;
        Rewritten(g, a, front + p.rhs, v, y, n - 1);
      }
    }
  }

  lemma OneMove(g: Grammar, x: Symbol, y: seq<Symbol>, n: nat) returns (p: Production)
    requires !IsTerm(x) && !IsAct(x) && Leftmost(g, [x], y, n)
    ensures n > 0 && p in g.Prods(x) && Leftmost(g, p.rhs, y, n - 1)
  {
    p :| p in g.Prods(x) && Leftmost(g, p.rhs + [x][1..], y, n - 1);
    assert p.rhs + [x][1..] == p.rhs;
  }

  lemma OneTerm(g: Grammar, x: Symbol, y: seq<Symbol>, n: nat)
    requires IsTerm(x) && Leftmost(g, [x], y, n)
    ensures y == [x] && n == 1
  {
    assert [x][1..] == [];
  }

  lemma OpenCalled(g: Grammar, u: seq<Symbol>, c0: Core, c: Core, a: seq<Symbol>, v: seq<Symbol>, y: seq<Symbol>)
    requires Plain(g) && CalledBy(g, u, c0, a, v) && Opens(g, c0, c) && Produces(g, c0.Rest(), y)
    ensures CalledBy(g, u, c, u, y + v)
  {
    hide RightForm, Plain, Leftmost;
    var p, i := c0.prod, c0.dot;
    var x, b := p.rhs[i], p.rhs[i + 1..];
    PlainParts(g, p.lhs, p);
    PlainParts(g, x, c.prod);
    MoveRight(g, a, p.lhs, v, p);
    assert p.rhs == p.rhs[..i] + [x] + b;
    assert a + p.rhs + v == (u + [x]) + b + v;
    var n: nat :| Leftmost(g, b, y, n);
    Rewritten(g, u + [x], b, v, y, n);
    assert u + [x] + y + v == u + [x] + (y + v);
    assert u + c.prod.rhs[..0] == u;
  }

  lemma MoveCalled(g: Grammar, u: seq<Symbol>, x: Symbol, c0: Core, c: Core, t: Symbol)
    requires Called(g, u, c0, t) && Shifts(c0, x, c)
    ensures Called(g, u + [x], c, t)
  {
    hide RightForm;
    var a, v :| CalledBy(g, u, c0, a, v) && L.Next(v) == t;
    assert c.prod.rhs[..c.dot] == c0.prod.rhs[..c0.dot] + [x];
    assert CalledBy(g, u + [x], c, a, v);
  }

  ghost predicate Real(g: Grammar, f: Sets, start: Production) {
    Plain(g) && L.Reduced(g) && Truthful(g, f) && OnlyStart(g, start)
  }

  lemma StartCalled(g: Grammar, start: Production)
    requires Plain(g) && OnlyStart(g, start)
    ensures Called(g, [], Core(start, 0), EOI)
  {
    hide Plain;
    assert start in g.Prods(g.goal);
    PlainParts(g, g.goal, start);
    assert RightFormIn(g, [g.goal], 0);
    assert [] + [start.lhs] + [] == [g.goal] && [] + start.rhs[..0] == [];
    assert CalledBy(g, [], Core(start, 0), [], []);
  }

  /** What an item in the closure opens is called for if the item is. */
  lemma CoreOpened(g: Grammar, u: seq<Symbol>, c0: Core, c: Core, t0: Symbol) returns (t: Symbol)
    requires Plain(g) && L.Reduced(g) && Called(g, u, c0, t0) && Opens(g, c0, c)
    ensures Called(g, u, c, t)
  {
    hide RightForm, Plain, L.Reduced, Produces;
    var a, v :| CalledBy(g, u, c0, a, v) && L.Next(v) == t0;
    RestValid(g, c0);
    L.StringProductive(g, c0.Rest());
    var y :| Produces(g, c0.Rest(), y);
    OpenCalled(g, u, c0, c, a, v, y);
    t := L.Next(y + v);
  }

  lemma RestValid(g: Grammar, c: Core)
    requires Plain(g) && c.prod in g.Prods(c.prod.lhs) && !c.AtEnd()
    ensures g.currTerm <= MAXTERM && g.ValidString(c.Rest())
  {
    PlainParts(g, c.prod.lhs, c.prod);
    assert forall x | x in c.Rest() :: x in c.prod.rhs;
  }

  lemma BeginsText(g: Grammar, f: Sets, a: seq<Symbol>, t: Symbol)
    requires g.currTerm <= MAXTERM && L.Reduced(g) && Truthful(g, f) && g.ValidString(a)
    ensures t in Scan(g, f, a) - {g.Epsilon()} ==> L.Starts(g, a, t)
    ensures AllNullable(g, f, a) ==> L.Vanishes(g, a)
  {
    hide L.TrueFirst, L.Reduced, L.Starts, L.Vanishes;
    ScanMonotone(g, f, L.TrueFirst(g), a);
    if t in Scan(g, f, a) - {g.Epsilon()} { L.TrueScan(g, a, t); }
    if AllNullable(g, f, a) { L.NullableVanishes(g, a); }
  }

  /** The same with lookaheads that the item brings with it. */
  lemma LookOpened(g: Grammar, f: Sets, u: seq<Symbol>, c0: Core, c: Core, t0: Symbol, t: Symbol)
    requires Plain(g) && L.Reduced(g) && Truthful(g, f) && Called(g, u, c0, t0) && Opens(g, c0, c)
    requires t in Spontaneous(g, f, c0) || (PassesOn(g, f, c0) && t == t0)
    ensures Called(g, u, c, t)
  {
    hide RightForm, Plain, L.Reduced, Produces, Truthful, Scan, AllNullable;
    var a, v :| CalledBy(g, u, c0, a, v) && L.Next(v) == t0;
    RestValid(g, c0);
    BeginsText(g, f, c0.Rest(), t);
    if t in Spontaneous(g, f, c0) {
      var w :| Produces(g, c0.Rest(), [t] + w);
      OpenCalled(g, u, c0, c, a, v, [t] + w);
      assert CalledBy(g, u, c, u, [t] + w + v) && L.Next([t] + w + v) == t;
    } else {
      OpenCalled(g, u, c0, c, a, v, []);
      assert [] + v == v && CalledBy(g, u, c, u, v);
    }
  }

  /** Every kernel item, and every lookahead of one, is called for. */
  lemma {:induction false} KernelCalled(g: Grammar, f: Sets, start: Production, u: seq<Symbol>, c: Core, t: Symbol)
    returns (t': Symbol)
    requires Real(g, f, start)
    ensures c in Canonical(g, f, start, u).kernel ==> Called(g, u, c, t')
    ensures (c, t) in Canonical(g, f, start, u).looks ==> Called(g, u, c, t)
    decreases |u|, 0, 0
  {
    hide Real, Called, InClosure, Looks, Canonical, Goto, Shifts, Plain, Complete, Truthful, L.Reduced;
    t' := EOI;
    RealParts(g, f, start);
    if u == [] {
      StartCalled(g, start);
      StartOnly(g, f, start, c, t);
    } else {
      var v, x := u[..|u| - 1], u[|u| - 1];
      assert u == v + [x];
      CanonicalSnoc(g, f, start, v, x);
      var s := Canonical(g, f, start, v);
      if c in Goto(g, f, s, x).kernel {
        var c0 := CoreBefore(g, f, s, x, c);
        var n := CoreSteps(g, s.kernel, c0);
        t' := CoreCalled(g, f, start, v, c0, n);
        MoveCalled(g, v, x, c0, c, t');
      }
      if (c, t) in Goto(g, f, s, x).looks {
        var c0 := LookBefore(g, f, s, x, c, t);
        var n := LookSteps(g, f, s, c0, t);
        LookCalled(g, f, start, v, c0, t, n);
        MoveCalled(g, v, x, c0, c, t);
      }
    }
  }

  lemma StartOnly(g: Grammar, f: Sets, start: Production, c: Core, t: Symbol)
    ensures c in Canonical(g, f, start, []).kernel ==> c == Core(start, 0)
    ensures (c, t) in Canonical(g, f, start, []).looks ==> c == Core(start, 0) && t == EOI
  {
  }

  lemma CoreBefore(g: Grammar, f: Sets, s: Lr1, x: Symbol, c: Core) returns (c0: Core)
    requires c in Goto(g, f, s, x).kernel
    ensures Shifts(c0, x, c) && InClosure(g, s.kernel, c0)
  {
    hide InClosure;
    assert KernelAfter(g, s, x, c);
    c0 :| Shifts(c0, x, c) && InClosure(g, s.kernel, c0);
  }

  lemma CoreSteps(g: Grammar, k: iset<Core>, c: Core) returns (n: nat)
    requires InClosure(g, k, c)
    ensures CoreIn(g, k, c, n)
  {
    hide CoreIn;
    n :| CoreIn(g, k, c, n);
  }

  lemma LookSteps(g: Grammar, f: Sets, s: Lr1, c: Core, t: Symbol) returns (n: nat)
    requires Looks(g, f, s, c, t)
    ensures LookIn(g, f, s, c, t, n)
  {
    hide LookIn;
    n :| LookIn(g, f, s, c, t, n);
  }

  lemma RealParts(g: Grammar, f: Sets, start: Production)
    requires Real(g, f, start)
    ensures Plain(g) && L.Reduced(g) && Truthful(g, f) && OnlyStart(g, start)
  {
  }

  lemma {:induction false} CoreCalled(g: Grammar, f: Sets, start: Production, u: seq<Symbol>, c: Core, n: nat)
    returns (t: Symbol)
    requires Real(g, f, start) && CoreIn(g, Canonical(g, f, start, u).kernel, c, n)
    ensures Called(g, u, c, t)
    decreases |u|, 1, n
  {
    hide Real, Called, Canonical;
    var k := Canonical(g, f, start, u).kernel;
    if n == 0 {
      t := KernelCalled(g, f, start, u, c, EOI);
    } else {
      var c0 :| CoreIn(g, k, c0, n - 1) && Opens(g, c0, c);
      var t0 := CoreCalled(g, f, start, u, c0, n - 1);
      RealParts(g, f, start);
      t := CoreOpened(g, u, c0, c, t0);
    }
  }

  lemma {:induction false} LookCalled(g: Grammar, f: Sets, start: Production, u: seq<Symbol>, c: Core, t: Symbol,
        n: nat)
    requires Real(g, f, start) && LookIn(g, f, Canonical(g, f, start, u), c, t, n)
    ensures Called(g, u, c, t)
    decreases |u|, 2, n
  {
    hide Real, Called, Canonical, CoreIn, Spontaneous, PassesOn, Plain;
    var s := Canonical(g, f, start, u);
    RealParts(g, f, start);
    if n == 0 {
      var _ := KernelCalled(g, f, start, u, c, t);
    } else {
      var c0 :| LookFrom(g, f, s, c0, c, t, n);
      if InClosure(g, s.kernel, c0) && t in Spontaneous(g, f, c0) {
        var k: nat :| CoreIn(g, s.kernel, c0, k);
        var t0 := CoreCalled(g, f, start, u, c0, k);
        LookOpened(g, f, u, c0, c, t0, t);
      } else {
        LookCalled(g, f, start, u, c0, t, n - 1);
        LookOpened(g, f, u, c0, c, t, t);
      }
    }
  }

  /** Conversely, an item that is called for is there, if the FIRST sets are complete. */
  lemma CalledHas(g: Grammar, f: Sets, start: Production, u: seq<Symbol>, c: Core, t: Symbol)
    requires g.ValidProductions() && g.currTerm <= MAXTERM && Complete(g, f) && OnlyStart(g, start)
    requires Called(g, u, c, t)
    ensures HasItem(g, f, start, u, c.prod, c.dot, t)
  {
    hide HasItem, Complete, RightFormIn;
    var a, v :| CalledBy(g, u, c, a, v) && L.Next(v) == t;
    var n: nat :| RightFormIn(g, a + [c.prod.lhs] + v, n);
    TextOfTerms(g, v);
    FormHasItem(g, f, start, a, c.prod.lhs, v, v, c.prod, n);
    DotMovesOver(g, f, start, a, c.prod, c.dot, t);
  }

  lemma {:induction false} TextOfTerms(g: Grammar, v: seq<Symbol>)
    requires Terminals(v)
    ensures Produces(g, v, v)
  {
    GroundLeftmost(g, v);
    ErasedTerms(v);
  }

  lemma {:induction false} ErasedTerms(v: seq<Symbol>)
    requires Terminals(v)
    ensures Erase(v) == v
  {
    if v != [] {
      assert v[0] in v && forall x | x in v[1..] :: x in v;
      ErasedTerms(v[1..]);
    }
  }

  /** The items of the canonical LR(1) states are exactly those that right sentential forms call for:
      their lookaheads always if FIRST misses nothing, and only then if FIRST tells the truth. */
  lemma ItemsExact(g: Grammar, f: Sets, start: Production, u: seq<Symbol>, c: Core, t: Symbol)
    requires Plain(g) && Complete(g, f) && OnlyStart(g, start)
    ensures Called(g, u, c, t) ==> Looks(g, f, Canonical(g, f, start, u), c, t)
    ensures L.Reduced(g) && Truthful(g, f) && Looks(g, f, Canonical(g, f, start, u), c, t) ==> Called(g, u, c, t)
  {
    hide Called, Complete, Truthful, L.Reduced, Canonical, LookIn;
    assert start in g.Prods(g.goal);
    PlainParts(g, g.goal, start);
    if Called(g, u, c, t) { CalledHas(g, f, start, u, c, t); }
    if L.Reduced(g) && Truthful(g, f) && Looks(g, f, Canonical(g, f, start, u), c, t) {
      var n: nat :| LookIn(g, f, Canonical(g, f, start, u), c, t, n);
      LookCalled(g, f, start, u, c, t, n);
    }
  }
}
