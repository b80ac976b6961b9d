/** Embedded actions become nonterminals that derive nothing (dopatch in
    compiler/parser/yypatch.c), and what that means for the language. */
module Patch {
  import opened Grammars
  import opened Symbols

  // ------------------------------------------------------------- the meaning

  /** Symbols that produce no text: actions, and the nonterminals after `last`. */
  predicate Silent(last: int, x: Symbol) { IsAct(x) || (IsNonterm(x) && x > last) }

  function Strip(last: int, a: seq<Symbol>): seq<Symbol> {
    if a == [] then []
    else (if Silent(last, a[0]) then [] else [a[0]]) + Strip(last, a[1..])
  }

  /** The nonterminals after `last` derive at most the empty string. */
  ghost predicate SilentOnly(g: Grammar, last: int) {
    forall x, p | IsNonterm(x) && x > last && p in g.Prods(x) :: p.rhs == []
  }

  /** All silent symbols of the string can be dropped. */
  predicate Droppable(g: Grammar, last: int, a: seq<Symbol>) {
    forall i | 0 <= i < |a| && Silent(last, a[i]) :: IsAct(a[i]) || g.Prods(a[i]) != []
  }

  /** `q` says the same as `p`, silent symbols apart. */
  predicate Counterpart(h: Grammar, last: int, p: Production, q: Production) {
    q in h.Prods(p.lhs) && q.num == p.num && Strip(last, q.rhs) == Strip(last, p.rhs) && Droppable(h, last, q.rhs)
  }

  ghost predicate HasCounterpart(h: Grammar, last: int, p: Production) {
    exists q :: Counterpart(h, last, p, q)
  }

  /** Every production of `g` for a nonterminal up to `last` has a counterpart in `h`. */
  ghost predicate Follows(g: Grammar, h: Grammar, last: int) {
    SilentOnly(g, last) && SilentOnly(h, last) && (forall x, p | p in g.Prods(x) :: IsNonterm(x)) &&
    forall x, p | IsNonterm(x) && x <= last && p in g.Prods(x) :: p.lhs == x && HasCounterpart(h, last, p)
  }

  lemma StripConcat(last: int, a: seq<Symbol>, b: seq<Symbol>)
    ensures Strip(last, a + b) == Strip(last, a) + Strip(last, b)
  {
    if a == [] {
      assert a + b == b;
    } else {
      assert (a + b)[1..] == a[1..] + b;
      StripConcat(last, a[1..], b);
    }
  }

  /** Silent symbols in front do not change what a string produces. */
  lemma {:induction false} DropSilent(h: Grammar, last: int, a: seq<Symbol>, k: nat, w: seq<Symbol>, n: nat)
    returns (m: nat)
    requires SilentOnly(h, last) && Droppable(h, last, a) && k <= |a| && (forall i | 0 <= i < k :: Silent(last, a[i]))
    requires Leftmost(h, a[k..], w, n)
    ensures Leftmost(h, a, w, m)
    decreases k
  {
    if k == 0 {
      m := n;
      assert a[0..] == a;
    } else {
      assert a[1..][k - 1..] == a[k..];
      m := DropSilent(h, last, a[1..], k - 1, w, n);
      m := m + 1;
      if !IsAct(a[0]) {
        var p := h.Prods(a[0])[0];
        assert p in h.Prods(a[0]) && p.rhs + a[1..] == a[1..];
      }
    }
  }

  lemma StripFront(last: int, a: seq<Symbol>)
    ensures a == [] ==> Strip(last, a) == []
    ensures a != [] ==> Strip(last, a) == (if Silent(last, a[0]) then [] else [a[0]]) + Strip(last, a[1..])
  {
    hide Silent;
  }

  /** The first symbol that is not silent. */
  lemma {:induction false} FirstReal(last: int, a: seq<Symbol>) returns (k: nat)
    ensures k <= |a| && forall i | 0 <= i < k :: Silent(last, a[i])
    ensures if Strip(last, a) == [] then k == |a|
            else
              k < |a| && a[k] == Strip(last, a)[0] && !Silent(last, a[k]) &&
              Strip(last, a[k + 1..]) == Strip(last, a)[1..]
  {
    hide Silent, Strip;
    StripFront(last, a);
    if a == [] || !Silent(last, a[0]) {
      k := 0;
    } else {
      var rest := a[1..];
      k := FirstReal(last, rest);
      if k < |rest| { assert rest[k + 1..] == a[k + 2..]; }
      forall i | 0 <= i < k + 1 ensures Silent(last, a[i]) {
        assert i > 0 ==> a[i] == rest[i - 1];
      }
      k := k + 1;
    }
  }

  /** What `g` produces from a string, `h` produces from any string that is the same but for
      silent symbols. */
  lemma {:induction false} SameProducts(g: Grammar, h: Grammar, last: int, a: seq<Symbol>, b: seq<Symbol>,
        w: seq<Symbol>, n: nat)
    returns (m: nat)
    requires Follows(g, h, last) && Droppable(h, last, b) && Strip(last, a) == Strip(last, b) && Leftmost(g, a, w, n)
    ensures Leftmost(h, b, w, m)
    decreases n
  {
    if a == [] {
      var k := FirstReal(last, b);
      assert b[k..] == [] && Leftmost(h, b[k..], w, 0);
      m := DropSilent(h, last, b, k, w, 0);
    } else if Silent(last, a[0]) {
      if IsAct(a[0]) {
        m := SameProducts(g, h, last, a[1..], b, w, n - 1);
      } else {
        var p :| p in g.Prods(a[0]) && Leftmost(g, p.rhs + a[1..], w, n - 1);
        assert p.rhs + a[1..] == a[1..];
        m := SameProducts(g, h, last, a[1..], b, w, n - 1);
      }
    } else {
      var k := FirstReal(last, b);
      var rest := b[k + 1..];
      assert b[k..] == [a[0]] + rest && b[k..][1..] == rest;
      if IsTerm(a[0]) {
        m := SameProducts(g, h, last, a[1..], rest, w[1..], n - 1);
      } else {
        m := SameExpansion(g, h, last, a, rest, w, n);
      }
      m := DropSilent(h, last, b, k, w, m + 1);
    }
  }

  lemma {:induction false} SameExpansion(g: Grammar, h: Grammar, last: int, a: seq<Symbol>, rest: seq<Symbol>,
        w: seq<Symbol>, n: nat)
    returns (m: nat)
    requires Follows(g, h, last) && Droppable(h, last, rest) && Leftmost(g, a, w, n)
    requires a != [] && !IsTerm(a[0]) && !Silent(last, a[0]) && Strip(last, a[1..]) == Strip(last, rest)
    ensures Leftmost(h, [a[0]] + rest, w, m + 1)
    decreases n, 0
  {
    var p :| p in g.Prods(a[0]) && Leftmost(g, p.rhs + a[1..], w, n - 1);
    NontermOf(g, last, a[0], p);
    var q :| Counterpart(h, last, p, q);
    StripConcat(last, p.rhs, a[1..]);
    StripConcat(last, q.rhs, rest);
    m := SameProducts(g, h, last, p.rhs + a[1..], q.rhs + rest, w, n - 1);
    assert ([a[0]] + rest)[1..] == rest;
  }

  lemma NontermOf(g: Grammar, last: int, x: Symbol, p: Production)
    requires p in g.Prods(x) && !IsTerm(x) && !Silent(last, x) && forall x, p | p in g.Prods(x) :: IsNonterm(x)
    ensures IsNonterm(x) && x <= last
  {
  }

  // ----------------------------------------------------------------- the patches

  /** No two productions of a chain have the same number, and all numbers are below `n`. */
  ghost predicate Numbered(g: Grammar, n: nat) {
    && (forall x, i, j | 0 <= i < j < |g.Prods(x)| :: g.Prods(x)[i].num != g.Prods(x)[j].num)
    && (forall x, p | p in g.Prods(x) :: p.num < n)
  }

  predicate NoActs(a: seq<Symbol>) {
    forall i | 0 <= i < |a| :: !IsAct(a[i])
  }

  /** `q` is what `p` may have become when the nonterminals go up to `top`. */
  predicate Patched(last: int, top: int, p: Production, q: Production) {
    && q.num == p.num && q.lhs == p.lhs && Strip(last, q.rhs) == Strip(last, p.rhs) && |q.rhs| <= |p.rhs|
    && forall i | 0 <= i < |q.rhs| :: q.rhs[i] in p.rhs || last < q.rhs[i] <= top
  }

  predicate PatchedChain(last: int, top: int, c: seq<Production>, d: seq<Production>) {
    |c| == |d| && forall i | 0 <= i < |c| :: Patched(last, top, c[i], d[i])
  }

  lemma PatchedMore(last: int, top: int, top': int, c: seq<Production>, d: seq<Production>)
    requires PatchedChain(last, top, c, d) && top <= top'
    ensures PatchedChain(last, top', c, d)
  {
    hide Strip;
    forall i | 0 <= i < |c| ensures Patched(last, top', c[i], d[i]) {
      assert Patched(last, top, c[i], d[i]);
    }
  }

  lemma {:induction false} StripUpdate(last: int, a: seq<Symbol>, i: nat, x: Symbol)
    requires i < |a| && Silent(last, a[i]) && Silent(last, x)
    ensures Strip(last, a[i := x]) == Strip(last, a)
    decreases i
  {
    if i > 0 {
      assert a[i := x][1..] == a[1..][i - 1 := x];
      StripUpdate(last, a[1..], i - 1, x);
    } else {
      assert a[i := x][1..] == a[1..];
    }
  }

  lemma StripLast(last: int, a: seq<Symbol>)
    requires a != [] && Silent(last, a[|a| - 1])
    ensures Strip(last, a[..|a| - 1]) == Strip(last, a)
  {
    var k := |a| - 1;
    assert a == a[..k] + [a[k]];
    StripConcat(last, a[..k], [a[k]]);
    assert [a[k]][1..] == [];
  }

  function CountActs(a: seq<Symbol>): nat {
    if a == [] then 0 else CountActs(a[..|a| - 1]) + if IsAct(a[|a| - 1]) then 1 else 0
  }

  /** The actions of a right-hand side but for one at its end. */
  function InnerActs(rhs: seq<Symbol>): nat {
    if rhs == [] then 0 else CountActs(rhs[..|rhs| - 1])
  }

  function ChainActs(c: seq<Production>): nat {
    if c == [] then 0 else ChainActs(c[..|c| - 1]) + InnerActs(c[|c| - 1].rhs)
  }

  /** The actions are those of what is left when one at the end has been dropped. */
  lemma InnerIs(rhs: seq<Symbol>)
    ensures rhs == [] ==> InnerActs(rhs) == 0
    ensures rhs != [] ==>
      InnerActs(rhs) == if IsAct(rhs[|rhs| - 1]) then CountActs(rhs[..|rhs| - 1]) else CountActs(rhs)
  {
  }

  lemma CountNext(a: seq<Symbol>, i: nat)
    requires i < |a|
    ensures CountActs(a[..i + 1]) == CountActs(a[..i]) + if IsAct(a[i]) then 1 else 0
  {
    assert a[..i + 1][..i] == a[..i];
  }

  lemma NoneCounted(a: seq<Symbol>)
    requires a == []
    ensures CountActs(a) == 0
  {
  }

  lemma {:induction false} ChainActsGrow(c: seq<Production>, k: nat)
    requires k <= |c|
    ensures ChainActs(c[..k]) <= ChainActs(c)
    decreases |c|
  {
    if k == |c| {
      assert c[..k] == c;
    } else {
      assert c[..|c| - 1][..k] == c[..k];
      ChainActsGrow(c[..|c| - 1], k);
    }
  }

  lemma ChainActsNext(c: seq<Production>, k: nat)
    requires k < |c|
    ensures ChainActs(c[..k + 1]) == ChainActs(c[..k]) + InnerActs(c[k].rhs) <= ChainActs(c)
  {
    hide InnerActs;
    assert c[..k + 1][..k] == c[..k];
    ChainActsGrow(c, k + 1);
  }

  lemma ChainActsAll(c: seq<Production>)
    ensures ChainActs(c[..0]) == 0 && c[..|c|] == c
  {
  }

  class Patcher {
    const g: Grammar
    var chains: map<Symbol, seq<Production>>
    var currNonterm: int
    var numProductions: nat
    var first: Sets
    ghost const num0: nat
    ghost const first0: Sets

    /** The productions there are of a symbol. */
    function Prods(x: Symbol): seq<Production>
      reads `chains
    {
      if x in chains then chains[x] else []
    }

    /** The original nonterminals keep their productions, patched; each new one has an empty
        production with a number of its own. */
    ghost predicate Valid()
      reads `chains, `currNonterm, `numProductions, `first
    {
      && MINNONTERM - 1 <= g.currNonterm <= currNonterm <= MAXNONTERM
      && numProductions == num0 + (currNonterm - g.currNonterm)
      && (forall x | x <= g.currNonterm :: PatchedChain(g.currNonterm, currNonterm, g.Prods(x), Prods(x)))
      && (forall x | g.currNonterm < x <= currNonterm ::
            Prods(x) == [Production(num0 + (x - g.currNonterm - 1), x, [])])
      && (forall x | x > currNonterm :: Prods(x) == [])
      && (forall x :: x in chains <==> x in g.chains || g.currNonterm < x <= currNonterm)
      && (forall x :: At(first, x) == if g.currNonterm < x <= currNonterm then {g.Epsilon()} else At(first0, x))
    }

    constructor (g: Grammar, n: nat, f: Sets)
      requires g.Valid() && Numbered(g, n) && forall x :: x > g.currNonterm ==> At(f, x) == {}
      ensures Valid() && this.g == g && num0 == n && first0 == f && currNonterm == g.currNonterm && chains == g.chains
    {
      this.g, num0, first0 := g, n, f;
      chains, currNonterm, numProductions, first := g.chains, g.currNonterm, n, f;
      new;
      Untouched(g);
    }

    /** The inner loop of dopatch: each embedded action becomes a new nonterminal, but for one
        at the end, which is dropped; it fails if there are too many. */
    method PatchRhs(rhs: seq<Symbol>) returns (ok: bool, r: seq<Symbol>)
      requires Valid()
      modifies `chains, `currNonterm, `numProductions, `first
      ensures ok <==> old(currNonterm) + InnerActs(rhs) <= MAXNONTERM
      ensures ok ==> currNonterm == old(currNonterm) + InnerActs(rhs)
      ensures ok ==>
        && Valid() && NoActs(r) && Strip(g.currNonterm, r) == Strip(g.currNonterm, rhs) && |r| <= |rhs|
        && old(currNonterm) <= currNonterm && forall i | 0 <= i < |r| ::
          r[i] in rhs || g.currNonterm < r[i] <= currNonterm
      ensures ok ==> |r| == |rhs| - (if rhs != [] && IsAct(rhs[|rhs| - 1]) then 1 else 0)
      ensures ok ==> forall j | 0 <= j < |r| ::
        if IsAct(rhs[j]) then old(currNonterm) < r[j] <= currNonterm else r[j] == rhs[j]
      ensures ok ==> forall x | x <= g.currNonterm :: Prods(x) == old(Prods(x))
    {
      hide Patcher.Valid, Patcher.Prods, Grammar.Prods, Strip, CountActs, InnerActs;
      Bounds();
      InnerIs(rhs);
      r := rhs;
      if r == [] { return true, r; }
      if IsAct(r[|r| - 1]) {
        StripLast(g.currNonterm, r);
        r := r[..|r| - 1];
      }
      var i := |r|;
      ghost var n := |r|;
      assert r[..i] == r;
      while i > 0
        invariant 0 <= i <= |r| == n <= |rhs| && Valid() && old(currNonterm) <= currNonterm
        invariant Strip(g.currNonterm, r) == Strip(g.currNonterm, rhs)
        invariant forall j | i <= j < |r| :: !IsAct(r[j])
        invariant n == |rhs| - (if IsAct(rhs[|rhs| - 1]) then 1 else 0)
        invariant forall j | 0 <= j < i :: r[j] == rhs[j]
        invariant forall j | i <= j < |r| ::
          if IsAct(rhs[j]) then old(currNonterm) < r[j] <= currNonterm else r[j] == rhs[j]
        invariant currNonterm + CountActs(r[..i]) == old(currNonterm) + InnerActs(rhs)
        invariant forall j | 0 <= j < |r| :: r[j] in rhs || g.currNonterm < r[j] <= currNonterm
        invariant forall x | x <= g.currNonterm :: Prods(x) == old(Prods(x))
      {
        i := i - 1;
        CountNext(r, i);
        if IsAct(r[i]) {
          if currNonterm >= MAXNONTERM { return false, r; }
          NewNonterm();
          Bounds();
          StripUpdate(g.currNonterm, r, i, currNonterm);
          assert r[i := currNonterm][..i] == r[..i];
          r := r[i := currNonterm];
        }
      }
      Bounds();
      NoneCounted(r[..0]);
      ok := true;
    }

    lemma Bounds()
      requires Valid()
      ensures MINNONTERM - 1 <= g.currNonterm <= currNonterm <= MAXNONTERM
    {
    }

    /** A new nonterminal with an empty production. */
    method NewNonterm()
      requires Valid() && currNonterm < MAXNONTERM
      modifies `chains, `currNonterm, `numProductions, `first
      ensures Valid() && currNonterm == old(currNonterm) + 1
      ensures forall x | x <= g.currNonterm :: Prods(x) == old(Prods(x))
    {
      hide Patched, Strip;
      currNonterm := currNonterm + 1;
      chains := chains[currNonterm := [Production(numProductions, currNonterm, [])]];
      numProductions := numProductions + 1;
      first := first[currNonterm := {g.Epsilon()}];
      forall x ensures Prods(x) == (if x == currNonterm then [Production(numProductions - 1, x, [])] else old(Prods(x)))
        ensures At(first, x) == (if x == currNonterm then {g.Epsilon()} else At(old(first), x))
      {
      }
      forall x | x <= g.currNonterm ensures PatchedChain(g.currNonterm, currNonterm, g.Prods(x), Prods(x)) {
        assert Prods(x) == old(Prods(x));
        PatchedMore(g.currNonterm, old(currNonterm), currNonterm, g.Prods(x), Prods(x));
      }
    }

    /** The nonterminals that the patch of a symbol needs. */
    function Needs(x: Symbol): nat
      reads `chains
    {
      if IsNonterm(x) && x <= g.currNonterm then ChainActs(Prods(x)) else 0
    }

    /** dopatch: all productions of one nonterminal. */
    method DoPatch(x: Symbol) returns (ok: bool)
      requires Valid()
      modifies `chains, `currNonterm, `numProductions, `first
      ensures ok <==> old(currNonterm + Needs(x)) <= MAXNONTERM
      ensures ok ==> Valid() && currNonterm == old(currNonterm + Needs(x))
      ensures ok ==> IsNonterm(x) && x <= g.currNonterm ==> forall p | p in Prods(x) :: NoActs(p.rhs)
      ensures ok ==> forall y | y <= g.currNonterm && y != x :: Prods(y) == old(Prods(y))
      ensures ok && !(IsNonterm(x) && x <= g.currNonterm) ==> chains == old(chains)
    {
      if !IsNonterm(x) || x > g.currNonterm { return true; }
      SameNumber(x);
      ChainActsAll(Prods(x));
      hide Patcher.Valid, Patcher.Prods, Grammar.Prods, InnerActs, NoActs, ChainActs;
      ghost var c := Prods(x);
      var k := 0;
      while k < |Prods(x)|
        invariant Valid() && k <= |Prods(x)| == |g.Prods(x)| == |c|
        invariant currNonterm == old(currNonterm) + ChainActs(c[..k])
        invariant forall j | k <= j < |c| :: Prods(x)[j] == c[j]
        invariant forall j | 0 <= j < k :: NoActs(Prods(x)[j].rhs)
        invariant forall y | y <= g.currNonterm && y != x :: Prods(y) == old(Prods(y))
        decreases |g.Prods(x)| - k
      {
        ChainActsNext(c, k);
        ok := PatchOne(x, k);
        if !ok { return; }
        k := k + 1;
      }
      ChainActsAll(c);
      ok := true;
    }

    lemma SameNumber(x: Symbol)
      requires Valid() && x <= g.currNonterm
      ensures |Prods(x)| == |g.Prods(x)|
    {
      hide Patched;
      assert PatchedChain(g.currNonterm, currNonterm, g.Prods(x), Prods(x));
    }

    /** One production. */
    method PatchOne(x: Symbol, k: nat) returns (ok: bool)
      requires Valid() && x <= g.currNonterm && k < |Prods(x)|
      modifies `chains, `currNonterm, `numProductions, `first
      ensures ok <==> old(currNonterm + InnerActs(Prods(x)[k].rhs)) <= MAXNONTERM
      ensures ok ==>
        Valid() && |Prods(x)| == |old(Prods(x))| && currNonterm == old(currNonterm + InnerActs(Prods(x)[k].rhs))
      ensures ok ==>
        NoActs(Prods(x)[k].rhs) && forall j | 0 <= j < |Prods(x)| && j != k :: Prods(x)[j] == old(Prods(x))[j]
      ensures ok ==> forall y | y <= g.currNonterm && y != x :: Prods(y) == old(Prods(y))
    {
      hide Strip;
      var p := Prods(x)[k];
      assert PatchedChain(g.currNonterm, currNonterm, g.Prods(x), Prods(x));
      assert Patched(g.currNonterm, currNonterm, g.Prods(x)[k], p);
      var rhs;
      ok, rhs := PatchRhs(p.rhs);
      if !ok { return; }
      ghost var mid := Prods(x);
      label L:
      chains := chains[x := Prods(x)[k := p.(rhs := rhs)]];
      PatchedAgain(g.currNonterm, old(currNonterm), currNonterm, g.Prods(x), mid, k, rhs);
      forall y ensures Prods(y) == if y == x then mid[k := p.(rhs := rhs)] else old@L(Prods(y)) {
      }
      forall y | y <= g.currNonterm ensures PatchedChain(g.currNonterm, currNonterm, g.Prods(y), Prods(y)) {
      }
    }
  }

  lemma Untouched(g: Grammar)
    requires g.Valid()
    ensures forall x | x <= g.currNonterm :: PatchedChain(g.currNonterm, g.currNonterm, g.Prods(x), g.Prods(x))
    ensures forall x | x > g.currNonterm :: g.Prods(x) == []
  {
    forall x | x <= g.currNonterm ensures PatchedChain(g.currNonterm, g.currNonterm, g.Prods(x), g.Prods(x)) {
    }
    forall x | x > g.currNonterm ensures g.Prods(x) == [] {
    }
  }

  lemma PatchedAgain(last: int, top: int, top': int, c: seq<Production>, d: seq<Production>, k: nat, rhs: seq<Symbol>)
    requires PatchedChain(last, top', c, d) && k < |d| && top <= top' && Patched(last, top, c[k], d[k])
    requires Strip(last, rhs) == Strip(last, d[k].rhs) && |rhs| <= |d[k].rhs|
    requires forall i | 0 <= i < |rhs| :: rhs[i] in d[k].rhs || last < rhs[i] <= top'
    ensures PatchedChain(last, top', c, d[k := d[k].(rhs := rhs)])
  {
    hide Strip;
    forall i | 0 <= i < |rhs| ensures rhs[i] in c[k].rhs || last < rhs[i] <= top' {
      if rhs[i] in d[k].rhs {
        var j :| 0 <= j < |d[k].rhs| && d[k].rhs[j] == rhs[i];
      }
    }
  }
}
