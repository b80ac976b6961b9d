/** LR(1) items, closure and the canonical LR(1) states, with the FIRST sets that the
    program itself computes (compiler/parser/yystate.c). */
module LrItems {
  import opened Grammars
  import opened Symbols
  import opened First

  /** An LR(0) item: a production with a dot before `rhs[dot]`, or at its end. */
  datatype Core = Core(prod: Production, dot: nat)
  {
    predicate AtEnd() { dot >= |prod.rhs| }

    function Next(): Symbol
      requires !AtEnd()
    {
      prod.rhs[dot]
    }

    function Rest(): seq<Symbol>
      requires !AtEnd()
    {
      prod.rhs[dot + 1..]
    }

    function Moved(): Core { Core(prod, dot + 1) }
  }

  /** A canonical LR(1) state: its kernel, and the lookaheads of the kernel items. */
  datatype Lr1 = Lr1(kernel: iset<Core>, looks: iset<(Core, Symbol)>)

  /** Closure adds `c` because of `c0`, whose dot is in front of the left-hand side. */
  predicate Opens(g: Grammar, c0: Core, c: Core) {
    !c0.AtEnd() && IsNonterm(c0.Next()) && c.prod in g.Prods(c0.Next()) && c.dot == 0
  }

  /** Lookaheads that what follows the symbol after the dot brings with it. */
  function Spontaneous(g: Grammar, f: Sets, c: Core): set<Symbol>
    requires !c.AtEnd()
  {
    Scan(g, f, c.Rest()) - {g.Epsilon()}
  }

  /** The lookaheads of `c` itself are passed on. */
  predicate PassesOn(g: Grammar, f: Sets, c: Core)
    requires !c.AtEnd()
  {
    AllNullable(g, f, c.Rest())
  }

  /** `c` is in the LR(0) closure of the kernel, after `n` steps. */
  ghost predicate CoreIn(g: Grammar, k: iset<Core>, c: Core, n: nat)
    decreases n
  {
    if n == 0 then c in k else exists c0 :: CoreIn(g, k, c0, n - 1) && Opens(g, c0, c)
  }

  ghost predicate InClosure(g: Grammar, k: iset<Core>, c: Core) {
    exists n: nat :: CoreIn(g, k, c, n)
  }

  /** `c` gets the lookahead `a` in the closure of the state, after `n` steps. */
  ghost predicate LookIn(g: Grammar, f: Sets, s: Lr1, c: Core, a: Symbol, n: nat)
    decreases n
  {
    if n == 0 then (c, a) in s.looks
    else exists c0 :: LookFrom(g, f, s, c0, c, a, n)
  }

  ghost predicate LookFrom(g: Grammar, f: Sets, s: Lr1, c0: Core, c: Core, a: Symbol, n: nat)
    requires n > 0
    decreases n, 0
  {
    Opens(g, c0, c) &&
    ((InClosure(g, s.kernel, c0) && a in Spontaneous(g, f, c0)) ||
     (PassesOn(g, f, c0) && LookIn(g, f, s, c0, a, n - 1)))
  }

  ghost predicate Looks(g: Grammar, f: Sets, s: Lr1, c: Core, a: Symbol) {
    exists n: nat :: LookIn(g, f, s, c, a, n)
  }

  /** `c` is `c0` with the dot moved over `x`. */
  predicate Shifts(c0: Core, x: Symbol, c: Core) {
    !c0.AtEnd() && c0.Next() == x && c == c0.Moved()
  }

  ghost predicate KernelAfter(g: Grammar, s: Lr1, x: Symbol, c: Core) {
    exists c0 :: Shifts(c0, x, c) && InClosure(g, s.kernel, c0)
  }

  ghost predicate LooksAfter(g: Grammar, f: Sets, s: Lr1, x: Symbol, c: Core, a: Symbol) {
    exists c0 :: Shifts(c0, x, c) && Looks(g, f, s, c0, a)
  }

  /** The state that the transition on `x` leads to. */
  ghost function Goto(g: Grammar, f: Sets, s: Lr1, x: Symbol): Lr1 {
    Lr1(iset c: Core | KernelAfter(g, s, x, c),
        iset c: Core, a: Symbol | LooksAfter(g, f, s, x, c, a) :: (c, a))
  }

  /** The canonical LR(1) state after the symbols `w`. Its kernel is empty if `w` begins no
      right sentential form. */
  ghost function Canonical(g: Grammar, f: Sets, start: Production, w: seq<Symbol>): Lr1
    decreases |w|
  {
    if w == [] then Lr1(iset{Core(start, 0)}, iset{(Core(start, 0), EOI)})
    else Goto(g, f, Canonical(g, f, start, w[..|w| - 1]), w[|w| - 1])
  }

  // ------------------------------------------------------------------- lemmas

  lemma InKernel(g: Grammar, k: iset<Core>, c: Core)
    requires c in k
    ensures InClosure(g, k, c)
  {
    assert CoreIn(g, k, c, 0);
  }

  lemma OpensInClosure(g: Grammar, k: iset<Core>, c0: Core, c: Core)
    requires InClosure(g, k, c0) && Opens(g, c0, c)
    ensures InClosure(g, k, c)
  {
    var n: nat :| CoreIn(g, k, c0, n);
    assert CoreIn(g, k, c, n + 1);
  }

  lemma LooksInKernel(g: Grammar, f: Sets, s: Lr1, c: Core, a: Symbol)
    requires (c, a) in s.looks
    ensures Looks(g, f, s, c, a)
  {
    assert LookIn(g, f, s, c, a, 0);
  }

  lemma LooksSpontaneous(g: Grammar, f: Sets, s: Lr1, c0: Core, c: Core, a: Symbol)
    requires Opens(g, c0, c) && InClosure(g, s.kernel, c0) && a in Spontaneous(g, f, c0)
    ensures Looks(g, f, s, c, a)
  {
    assert LookFrom(g, f, s, c0, c, a, 1);
    assert LookIn(g, f, s, c, a, 1);
  }

  lemma LooksPassedOn(g: Grammar, f: Sets, s: Lr1, c0: Core, c: Core, a: Symbol)
    requires Opens(g, c0, c) && PassesOn(g, f, c0) && Looks(g, f, s, c0, a)
    ensures Looks(g, f, s, c, a)
  {
    var n: nat :| LookIn(g, f, s, c0, a, n);
    assert LookFrom(g, f, s, c0, c, a, n + 1);
    assert LookIn(g, f, s, c, a, n + 1);
  }

  /** A lookahead in a closure comes from one lookahead of the kernel, or from none: it is
      there in every state with this kernel that has the former. */
  lemma {:induction false} LookOrigin(g: Grammar, f: Sets, s: Lr1, c: Core, a: Symbol, n: nat)
    returns (any: bool, c1: Core)
    requires LookIn(g, f, s, c, a, n)
    ensures !any ==> (c1, a) in s.looks
    ensures forall s': Lr1 | s'.kernel == s.kernel && (any || (c1, a) in s'.looks) :: LookIn(g, f, s', c, a, n)
    decreases n
  {
    if n == 0 {
      any, c1 := false, c;
    } else {
      var c0 :| LookFrom(g, f, s, c0, c, a, n);
      if InClosure(g, s.kernel, c0) && a in Spontaneous(g, f, c0) {
        any, c1 := true, c;
        forall s': Lr1 | s'.kernel == s.kernel ensures LookIn(g, f, s', c, a, n) {
          assert LookFrom(g, f, s', c0, c, a, n);
        }
      } else {
        any, c1 := LookOrigin(g, f, s, c0, a, n - 1);
        forall s': Lr1 | s'.kernel == s.kernel && (any || (c1, a) in s'.looks) ensures LookIn(g, f, s', c, a, n) {
          assert LookFrom(g, f, s', c0, c, a, n);
        }
      }
    }
  }

  /** More lookaheads in the kernel, more in the closure. */
  lemma LooksMonotone(g: Grammar, f: Sets, s: Lr1, s': Lr1, c: Core, a: Symbol)
    requires s.kernel == s'.kernel && Looks(g, f, s, c, a) && forall x | x in s.looks :: x in s'.looks
    ensures Looks(g, f, s', c, a)
  {
    var n: nat :| LookIn(g, f, s, c, a, n);
    var any, c1 := LookOrigin(g, f, s, c, a, n);
    assert LookIn(g, f, s', c, a, n);
  }

  /** An item that opens nothing and is opened by nothing new is in the closure only as a
      kernel item; all others have their dot in front. */
  lemma {:induction false} ClosureDots(g: Grammar, k: iset<Core>, c: Core, n: nat)
    requires CoreIn(g, k, c, n) && c !in k
    ensures c.dot == 0 && exists c0 :: InClosure(g, k, c0) && Opens(g, c0, c)
  {
    var c0 :| CoreIn(g, k, c0, n - 1) && Opens(g, c0, c);
    assert InClosure(g, k, c0);
  }

  // ---------------------------------------------------------- closed sets of items

  /** If a set of items contains the kernel and what its members open, it contains the closure. */
  lemma {:induction false} ClosureWithin(g: Grammar, k: iset<Core>, all: iset<Core>, c: Core, n: nat)
    requires CoreIn(g, k, c, n) && (forall x | x in k :: x in all)
    requires forall c0, c1 | c0 in all && Opens(g, c0, c1) :: c1 in all
    ensures c in all
    decreases n
  {
    if n > 0 {
      var c0 :| CoreIn(g, k, c0, n - 1) && Opens(g, c0, c);
      ClosureWithin(g, k, all, c0, n - 1);
    }
  }

  /** The same for lookaheads. */
  ghost predicate LooksClosed(g: Grammar, f: Sets, all: iset<Core>, looks: iset<(Core, Symbol)>) {
    forall c0, c1, a |
      c0 in all && Opens(g, c0, c1) && (a in Spontaneous(g, f, c0) || (PassesOn(g, f, c0) && (c0, a) in looks)) ::
      (c1, a) in looks
  }

  lemma {:induction false} LooksWithin(g: Grammar, f: Sets, s: Lr1, all: iset<Core>, looks: iset<(Core, Symbol)>,
        c: Core, a: Symbol, n: nat)
    requires LookIn(g, f, s, c, a, n) && LooksClosed(g, f, all, looks)
    requires (forall x | x in s.kernel :: x in all) && (forall x | x in s.looks :: x in looks)
    requires forall c0, c1 | c0 in all && Opens(g, c0, c1) :: c1 in all
    requires forall x | x in s.looks :: x.0 in s.kernel
    ensures (c, a) in looks && c in all
    decreases n
  {
    if n == 0 {
      assert (c, a).0 in s.kernel;
    } else {
      var c0 :| LookFrom(g, f, s, c0, c, a, n);
      if InClosure(g, s.kernel, c0) && a in Spontaneous(g, f, c0) {
        var k: nat :| CoreIn(g, s.kernel, c0, k);
        ClosureWithin(g, s.kernel, all, c0, k);
      } else {
        LooksWithin(g, f, s, all, looks, c0, a, n - 1);
      }
    }
  }
}
