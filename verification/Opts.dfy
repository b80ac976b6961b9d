/** Optional and repeated parts of a right-hand side (start_opt and end_opt in
    compiler/parser/acts.c) become nonterminals of their own, and mean what they say. */
module Opts {
  import opened Grammars

  const MAXPROD: nat := 512
  const SSIZE: nat := 8

  // --------------------------------------------------------------------- meaning

  /** A right-hand side as it is written: symbols, and parts in brackets, with a star or
      without. */
  datatype Elem = Sym(x: Symbol) | Group(star: bool, body: seq<Elem>)

  function Size(items: seq<Elem>): nat
    decreases items
  {
    if items == [] then 0 else ElemSize(items[0]) + Size(items[1..])
  }

  function ElemSize(e: Elem): (n: nat)
    ensures n > 0
    decreases e
  {
    match e
    case Sym(_) => 1
    case Group(_, body) => 1 + Size(body)
  }

  lemma SizeRest(items: seq<Elem>)
    requires items != []
    ensures Size(items[1..]) < Size(items) && ElemSize(items[0]) <= Size(items)
  {
  }

  /** The terminal strings that a right-hand side stands for, as written. */
  ghost predicate Means(g: Grammar, items: seq<Elem>, w: seq<Symbol>)
    decreases Size(items), 0, 1
  {
    if items == [] then w == []
    else
      SizeRest(items);
      exists i | 0 <= i <= |w| :: MeansOne(g, items, w[..i]) && Means(g, items[1..], w[i..])
  }

  /** The first element of the list. */
  ghost predicate MeansOne(g: Grammar, items: seq<Elem>, w: seq<Symbol>)
    requires items != []
    decreases Size(items), 0, 0
  {
    SizeRest(items);
    match items[0]
    case Sym(x) => Produces(g, [x], w)
    case Group(star, body) => if star then Repeated(g, body, w) else w == [] || Means(g, body, w)
  }

  ghost predicate Repeated(g: Grammar, body: seq<Elem>, w: seq<Symbol>)
    decreases Size(body), 2, 0
  {
    exists n: nat :: Repeats(g, body, w, n)
  }

  /** `n` strings of the body in a row. */
  ghost predicate Repeats(g: Grammar, body: seq<Elem>, w: seq<Symbol>, n: nat)
    decreases Size(body), 1, n
  {
    if n == 0 then w == []
    else exists i | 0 <= i <= |w| :: Means(g, body, w[..i]) && Repeats(g, body, w[i..], n - 1)
  }

  // --------------------------------------------------------------- concatenation

  lemma ProducesConcat(g: Grammar, a: seq<Symbol>, b: seq<Symbol>, w: seq<Symbol>)
    ensures Produces(g, a + b, w) <==> exists i | 0 <= i <= |w| :: Produces(g, a, w[..i]) && Produces(g, b, w[i..])
  {
    hide Leftmost;
    if Produces(g, a + b, w) {
      var n: nat :| Leftmost(g, a + b, w, n);
      var i, k := LeftmostSplit(g, a, b, w, n);
      assert Produces(g, a, w[..i]) && Produces(g, b, w[i..]);
    }
    if i :| 0 <= i <= |w| && Produces(g, a, w[..i]) && Produces(g, b, w[i..]) {
      var k: nat :| Leftmost(g, a, w[..i], k);
      var n: nat :| Leftmost(g, b, w[i..], n);
      LeftmostJoin(g, a, w[..i], k, b, w[i..], n);
      assert w[..i] + w[i..] == w;
    }
  }

  // ------------------------------------------------------------------ desugaring

  /** The right-hand side that the body of a group gets. */
  function BodyOf(star: bool, llama: bool, x: Symbol, b: seq<Symbol>): seq<Symbol> {
    if !star then b else if llama then b + [x] else [x] + b
  }

  /** `x` is the nonterminal of a group whose body has become `b`. */
  predicate GroupProds(g: Grammar, star: bool, llama: bool, x: Symbol, b: seq<Symbol>) {
    IsNonterm(x) && |g.Prods(x)| == 2 && g.Prods(x)[0].rhs == BodyOf(star, llama, x, b) && g.Prods(x)[1].rhs == []
  }

  /** `rhs` is what the elements have become; their nonterminals are those after `lo`, up to `hi`. */
  ghost predicate Becomes(g: Grammar, llama: bool, items: seq<Elem>, rhs: seq<Symbol>, lo: int, hi: int)
    decreases Size(items)
  {
    if items == [] then rhs == []
    else
      SizeRest(items);
      rhs != [] && Becomes(g, llama, items[1..], rhs[1..], lo, hi) &&
      match items[0]
      case Sym(x) => rhs[0] == x
      case Group(star, body) => lo < rhs[0] <= hi && exists b ::
        Becomes(g, llama, body, b, lo, hi) && GroupProds(g, star, llama, rhs[0], b)
  }

  /** The right-hand side produces exactly what was written. */
  lemma {:induction false} Meaning(g: Grammar, llama: bool, items: seq<Elem>, rhs: seq<Symbol>, lo: int, hi: int,
        w: seq<Symbol>)
    requires Becomes(g, llama, items, rhs, lo, hi)
    ensures Produces(g, rhs, w) <==> Means(g, items, w)
    decreases Size(items), 0, 1
  {
    if items == [] {
      assert Leftmost(g, [], [], 0);
    } else {
      SizeRest(items);
      assert rhs == [rhs[0]] + rhs[1..];
      ProducesConcat(g, [rhs[0]], rhs[1..], w);
      forall i | 0 <= i <= |w|
        ensures (Produces(g, [rhs[0]], w[..i]) <==> MeansOne(g, items, w[..i]))
        ensures (Produces(g, rhs[1..], w[i..]) <==> Means(g, items[1..], w[i..]))
      {
        FirstMeaning(g, llama, items, rhs, lo, hi, w[..i]);
        Meaning(g, llama, items[1..], rhs[1..], lo, hi, w[i..]);
      }
    }
  }

  lemma {:induction false} FirstMeaning(g: Grammar, llama: bool, items: seq<Elem>, rhs: seq<Symbol>, lo: int, hi: int,
        w: seq<Symbol>)
    requires items != [] && Becomes(g, llama, items, rhs, lo, hi)
    ensures Produces(g, [rhs[0]], w) <==> MeansOne(g, items, w)
    decreases Size(items), 0, 0
  {
    SizeRest(items);
    match items[0]
    case Sym(x) =>
    case Group(star, body) =>
      var b :| Becomes(g, llama, body, b, lo, hi) && GroupProds(g, star, llama, rhs[0], b);
      if star {
        StarMeaning(g, llama, body, rhs[0], b, lo, hi, w);
      } else {
        GroupProduces(g, star, llama, rhs[0], b, w);
        Meaning(g, llama, body, b, lo, hi, w);
      }
  }

  /** What the nonterminal of a group produces. */
  lemma GroupProduces(g: Grammar, star: bool, llama: bool, x: Symbol, b: seq<Symbol>, w: seq<Symbol>)
    requires GroupProds(g, star, llama, x, b)
    ensures Produces(g, [x], w) <==> w == [] || Produces(g, BodyOf(star, llama, x, b), w)
  {
    var c := BodyOf(star, llama, x, b);
    assert [x][1..] == [] && c + [] == c;
    if Produces(g, [x], w) {
      var n: nat :| Leftmost(g, [x], w, n);
      var p :| p in g.Prods(x) && Leftmost(g, p.rhs + [x][1..], w, n - 1);
      assert p == g.Prods(x)[0] || p == g.Prods(x)[1];
    }
    if w == [] {
      assert g.Prods(x)[1] in g.Prods(x) && Leftmost(g, [], [], 0) && g.Prods(x)[1].rhs + [x][1..] == [];
      assert Leftmost(g, [x], w, 1);
    }
    if Produces(g, c, w) {
      var n: nat :| Leftmost(g, c, w, n);
      assert g.Prods(x)[0] in g.Prods(x) && g.Prods(x)[0].rhs + [x][1..] == c;
      assert Leftmost(g, [x], w, n + 1);
    }
  }

  lemma {:induction false} StarMeaning(g: Grammar, llama: bool, body: seq<Elem>, x: Symbol, b: seq<Symbol>, lo: int,
        hi: int, w: seq<Symbol>)
    requires Becomes(g, llama, body, b, lo, hi) && GroupProds(g, true, llama, x, b)
    ensures Produces(g, [x], w) <==> Repeated(g, body, w)
    decreases Size(body), 2, 0
  {
    if k: nat :| Leftmost(g, [x], w, k) {
      var n := StarInto(g, llama, body, x, b, lo, hi, w, k);
    }
    if n: nat :| Repeats(g, body, w, n) {
      StarFrom(g, llama, body, x, b, lo, hi, w, n);
    }
  }

  lemma {:induction false} StarInto(g: Grammar, llama: bool, body: seq<Elem>, x: Symbol, b: seq<Symbol>, lo: int,
        hi: int, w: seq<Symbol>, k: nat)
    returns (n: nat)
    requires Becomes(g, llama, body, b, lo, hi) && GroupProds(g, true, llama, x, b) && Leftmost(g, [x], w, k)
    ensures Repeats(g, body, w, n)
    decreases Size(body), 1, k
  {
    hide Becomes, Means;
    var p :| p in g.Prods(x) && Leftmost(g, p.rhs + [x][1..], w, k - 1);
    assert p.rhs + [x][1..] == p.rhs;
    if p.rhs == [] {
      n := 0;
    } else if llama {
      var i, j := LeftmostSplit(g, b, [x], w, k - 1);
      n := StarInto(g, llama, body, x, b, lo, hi, w[i..], k - 1 - j);
      Meaning(g, llama, body, b, lo, hi, w[..i]);
      n := n + 1;
    } else {
      var i, j := LeftmostSplit(g, [x], b, w, k - 1);
      n := StarInto(g, llama, body, x, b, lo, hi, w[..i], j);
      Meaning(g, llama, body, b, lo, hi, w[i..]);
      RepeatsSnoc(g, body, w[..i], n, w[i..]);
      assert w[..i] + w[i..] == w;
      n := n + 1;
    }
  }

  lemma {:induction false} StarFrom(g: Grammar, llama: bool, body: seq<Elem>, x: Symbol, b: seq<Symbol>, lo: int,
        hi: int, w: seq<Symbol>, n: nat)
    requires Becomes(g, llama, body, b, lo, hi) && GroupProds(g, true, llama, x, b) && Repeats(g, body, w, n)
    ensures Produces(g, [x], w)
    decreases Size(body), 1, n
  {
    hide Becomes, GroupProds, Means, Produces;
    GroupProduces(g, true, llama, x, b, w);
    if n > 0 {
      if llama {
        var i :| 0 <= i <= |w| && Means(g, body, w[..i]) && Repeats(g, body, w[i..], n - 1);
        StarFrom(g, llama, body, x, b, lo, hi, w[i..], n - 1);
        Meaning(g, llama, body, b, lo, hi, w[..i]);
        ProducesConcat(g, b, [x], w);
      } else {
        var i := RepeatsLast(g, body, w, n);
        StarFrom(g, llama, body, x, b, lo, hi, w[..i], n - 1);
        Meaning(g, llama, body, b, lo, hi, w[i..]);
        ProducesConcat(g, [x], b, w);
      }
    }
  }

  lemma {:induction false} RepeatsSnoc(g: Grammar, body: seq<Elem>, u: seq<Symbol>, n: nat, v: seq<Symbol>)
    requires Repeats(g, body, u, n) && Means(g, body, v)
    ensures Repeats(g, body, u + v, n + 1)
    decreases n
  {
    if n == 0 {
      assert u + v == v && v[..|v|] == v && v[|v|..] == [];
      assert Repeats(g, body, v[|v|..], 0);
    } else {
      var i :| 0 <= i <= |u| && Means(g, body, u[..i]) && Repeats(g, body, u[i..], n - 1);
      RepeatsSnoc(g, body, u[i..], n - 1, v);
      assert (u + v)[..i] == u[..i] && (u + v)[i..] == u[i..] + v;
    }
  }

  lemma {:induction false} RepeatsLast(g: Grammar, body: seq<Elem>, w: seq<Symbol>, n: nat) returns (i: nat)
    requires n > 0 && Repeats(g, body, w, n)
    ensures i <= |w| && Repeats(g, body, w[..i], n - 1) && Means(g, body, w[i..])
    decreases n
  {
    var j :| 0 <= j <= |w| && Means(g, body, w[..j]) && Repeats(g, body, w[j..], n - 1);
    if n == 1 {
      i := 0;
      assert w[..j] == w;
    } else {
      var k := RepeatsLast(g, body, w[j..], n - 1);
      i := j + k;
      assert w[..i][..j] == w[..j] && w[..i][j..] == w[j..][..k] && w[i..] == w[j..][k..];
    }
  }

  // ------------------------------------------------------------------ operations

  /** Later changes elsewhere do not disturb what has been made. */
  lemma {:induction false} BecomesKept(g: Grammar, h: Grammar, llama: bool, items: seq<Elem>, rhs: seq<Symbol>,
        lo: int, hi: int, lo': int, hi': int)
    requires Becomes(g, llama, items, rhs, lo, hi) && lo' <= lo && hi <= hi'
    requires forall x | lo < x <= hi :: h.Prods(x) == g.Prods(x)
    ensures Becomes(h, llama, items, rhs, lo', hi')
    decreases Size(items)
  {
    if items != [] {
      SizeRest(items);
      BecomesKept(g, h, llama, items[1..], rhs[1..], lo, hi, lo', hi');
      if items[0].Group? {
        var b :| Becomes(g, llama, items[0].body, b, lo, hi) && GroupProds(g, items[0].star, llama, rhs[0], b);
        BecomesKept(g, h, llama, items[0].body, b, lo, hi, lo', hi');
        assert GroupProds(h, items[0].star, llama, rhs[0], b);
      }
    }
  }

  lemma {:induction false} BecomesSnoc(g: Grammar, llama: bool, items: seq<Elem>, rhs: seq<Symbol>, last: seq<Elem>,
        s: seq<Symbol>, lo: int, hi: int)
    requires Becomes(g, llama, items, rhs, lo, hi) && Becomes(g, llama, last, s, lo, hi)
    ensures Becomes(g, llama, items + last, rhs + s, lo, hi)
    decreases |items|
  {
    if items == [] {
      assert items + last == last && rhs + s == s;
    } else {
      SizeRest(items);
      assert (items + last)[1..] == items[1..] + last && (rhs + s)[1..] == rhs[1..] + s;
      BecomesSnoc(g, llama, items[1..], rhs[1..], last, s, lo, hi);
    }
  }

  /** The newest production of `y` has `r` more symbols, and otherwise nothing has happened to
      the nonterminals there were. */
  ghost predicate Extends(g: Grammar, h: Grammar, y: Symbol, r: seq<Symbol>) {
    && g.currNonterm <= h.currNonterm && y <= g.currNonterm && g.Prods(y) != []
    && h.Prods(y) == [g.Prods(y)[0].(rhs := g.Prods(y)[0].rhs + r)] + g.Prods(y)[1..]
    && forall x | x <= g.currNonterm && x != y :: h.Prods(x) == g.Prods(x)
  }

  lemma ExtendsRoom(g: Grammar, h: Grammar, y: Symbol, r: seq<Symbol>)
    requires Extends(g, h, y, r)
    ensures h.Prods(y) != [] && |h.Prods(y)[0].rhs| == |g.Prods(y)[0].rhs| + |r|
  {
  }

  lemma ExtendsRefl(g: Grammar, y: Symbol)
    requires y <= g.currNonterm && g.Prods(y) != []
    ensures Extends(g, g, y, [])
  {
    var p := g.Prods(y)[0];
    assert p.rhs + [] == p.rhs && g.Prods(y) == [p] + g.Prods(y)[1..];
  }

  lemma ExtendsTrans(f: Grammar, g: Grammar, h: Grammar, y: Symbol, r: seq<Symbol>, s: seq<Symbol>)
    requires Extends(f, g, y, r) && Extends(g, h, y, s)
    ensures Extends(f, h, y, r + s)
  {
    var p := f.Prods(y)[0];
    assert p.rhs + r + s == p.rhs + (r + s);
    assert g.Prods(y)[1..] == f.Prods(y)[1..];
  }

  function WithChain(g: Grammar, y: Symbol, c: seq<Production>): (h: Grammar)
    ensures h.currNonterm == g.currNonterm && forall x :: h.Prods(x) == if x == y then c else g.Prods(x)
  {
    g.(chains := g.chains[y := c])
  }

  /** Nothing is known of nonterminals to come. */
  ghost predicate Fresh(g: Grammar) {
    MINNONTERM - 1 <= g.currNonterm <= MAXNONTERM && forall x | x > g.currNonterm :: g.Prods(x) == []
  }

  // ---------------------------------------------------------------------- room

  /** The groups in a right-hand side, inner ones included. */
  function Groups(items: seq<Elem>): nat
    decreases Size(items), 1
  {
    if items == [] then 0 else SizeRest(items); GroupsOf(items[0]) + Groups(items[1..])
  }

  function GroupsOf(e: Elem): nat
    decreases ElemSize(e), 0
  {
    match e
    case Sym(_) => 0
    case Group(_, body) => 1 + Groups(body)
  }

  /** The groups are nested `depth` deep at most, and their bodies are short enough. */
  predicate Fits(items: seq<Elem>, depth: int)
    decreases items
  {
    forall i | 0 <= i < |items| :: FitsOne(items[i], depth)
  }

  predicate FitsOne(e: Elem, depth: int)
    decreases e
  {
    match e
    case Sym(_) => true
    case Group(star, body) => depth > 0 && |body| + (if star then 1 else 0) <= MAXRHS && Fits(body, depth - 1)
  }

  lemma {:induction false} GroupsSnoc(items: seq<Elem>, e: Elem)
    ensures Groups(items + [e]) == Groups(items) + GroupsOf(e)
    decreases |items|
  {
    if items == [] {
      assert [e][1..] == [];
      assert items + [e] == [e];
    } else {
      assert (items + [e])[1..] == items[1..] + [e];
      GroupsSnoc(items[1..], e);
    }
  }

  lemma {:induction false} GroupsGrow(items: seq<Elem>, k: nat)
    requires k <= |items|
    ensures Groups(items[..k]) <= Groups(items)
    decreases |items|
  {
    if k == |items| {
      assert items[..k] == items;
    } else {
      var init := items[..|items| - 1];
      assert init[..k] == items[..k] && items == init + [items[|items| - 1]];
      GroupsSnoc(init, items[|items| - 1]);
      GroupsGrow(init, k);
    }
  }

  class Acts {
    const llama: bool
    var g: Grammar
    var numProductions: nat
    /** The left-hand sides on the stack, the current one last. */
    var sp: seq<Symbol>
    /** Left recursion that LLAMA complains about. */
    var errors: nat

    ghost predicate Valid()
      reads this
    {
      && Fresh(g) && sp != [] && (forall x | x in sp :: IsNonterm(x) && x <= g.currNonterm)
      && g.Prods(Top()) != [] && |g.Prods(Top())[0].rhs| <= MAXRHS
    }

    function Top(): Symbol
      requires sp != []
      reads `sp
    {
      sp[|sp| - 1]
    }

    constructor (llama: bool, g: Grammar, numProductions: nat, lhs: Symbol)
      requires Fresh(g) && IsNonterm(lhs) && lhs <= g.currNonterm && g.Prods(lhs) != []
      requires |g.Prods(lhs)[0].rhs| <= MAXRHS
      ensures Valid() && this.g == g && sp == [lhs] && this.llama == llama && errors == 0
    {
      this.llama, this.g, this.numProductions, sp, errors := llama, g, numProductions, [lhs], 0;
    }

    /** new_rhs: the newest production comes first. */
    method NewRhs() returns (ok: bool)
      requires sp != []
      modifies `g, `numProductions
      ensures g == WithChain(old(g), Top(), [Production(old(numProductions), Top(), [])] + old(g).Prods(Top()))
      ensures numProductions == old(numProductions) + 1
      ensures ok <==> old(numProductions) < MAXPROD
    {
      g := WithChain(g, Top(), [Production(numProductions, Top(), [])] + g.Prods(Top()));
      numProductions := numProductions + 1;
      ok := numProductions - 1 < MAXPROD;
    }

    /** add_to_rhs, for a symbol that is in the table. */
    method AddToRhs(x: Symbol) returns (ok: bool)
      requires Valid()
      modifies `g, `errors
      ensures ok <==> |old(g).Prods(Top())[0].rhs| < MAXRHS
      ensures ok ==> Valid() && Extends(old(g), g, Top(), [x]) && g.currNonterm == old(g).currNonterm
      ensures errors ==
        if llama && ok && old(g).Prods(Top())[0].rhs == [] && x == Top() then old(errors) + 1 else old(errors)
    {
      assert Top() in sp;
      var p := g.Prods(Top())[0];
      if |p.rhs| >= MAXRHS { return false; }
      if llama && p.rhs == [] && x == Top() { errors := errors + 1; }
      g := WithChain(g, Top(), [p.(rhs := p.rhs + [x])] + g.Prods(Top())[1..]);
      ok := true;
    }

    /** There are nonterminals and production numbers for `n` more groups. */
    predicate Spare(n: nat)
      reads `g, `numProductions
    {
      g.currNonterm + n <= MAXNONTERM && (n > 0 ==> numProductions + 2 * n <= MAXPROD)
    }

    /** start_opt: a new nonterminal, with an empty production and one for the body. */
    method StartOpt() returns (ok: bool)
      requires Valid()
      modifies this
      ensures ok <==> |old(sp)| < SSIZE && old(Spare(1))
      ensures ok ==> numProductions == old(numProductions) + 2
      ensures ok ==>
        Valid() && g.currNonterm == old(g).currNonterm + 1 && sp == old(sp) + [g.currNonterm] && errors == old(errors)
      ensures ok ==> |g.Prods(Top())| == 2 && g.Prods(Top())[0].rhs == [] && g.Prods(Top())[1].rhs == []
      ensures ok ==> forall x | x <= old(g).currNonterm :: g.Prods(x) == old(g).Prods(x)
    {
      if |sp| >= SSIZE || g.currNonterm >= MAXNONTERM { return false; }
      g := g.(currNonterm := g.currNonterm + 1);
      assert forall x :: g.Prods(x) == old(g).Prods(x);
      sp := sp + [g.currNonterm];
      ok := NewRhs();
      if !ok { return; }
      ok := NewRhs();
    }

    /** end_opt: a repeated body is followed, in OCCS preceded, by its nonterminal, and the
        nonterminal takes the place of the group. */
    method EndOpt(star: bool) returns (ok: bool)
      requires Valid() && |sp| > 1 && |g.Prods(Top())| == 2 && g.Prods(Top())[1].rhs == []
      requires |g.Prods(Top())[0].rhs| <= MAXRHS
      requires g.Prods(sp[|sp| - 2]) != [] && sp[|sp| - 2] < Top() && |g.Prods(sp[|sp| - 2])[0].rhs| <= MAXRHS
      modifies this
      ensures var x, y := old(Top()), old(sp[|sp| - 2]);
        ok <==> |old(g).Prods(x)[0].rhs| + (if star then 1 else 0) <= MAXRHS && |old(g).Prods(y)[0].rhs| < MAXRHS
      ensures numProductions == old(numProductions)
      ensures ok ==> Valid() && sp == old(sp)[..|old(sp)| - 1] && g.currNonterm == old(g).currNonterm
      ensures ok ==> var x, y := old(Top()), Top();
        && GroupProds(g, star, llama, x, old(g).Prods(x)[0].rhs)
        && g.Prods(y) == [old(g).Prods(y)[0].(rhs := old(g).Prods(y)[0].rhs + [x])] + old(g).Prods(y)[1..]
        && forall z | z <= g.currNonterm && z != x && z != y :: g.Prods(z) == old(g).Prods(z)
    {
      var x := Top();
      assert x in sp;
      ok := CloseBody(star);
      if !ok { return; }
      sp := sp[..|sp| - 1];
      assert forall z | z in sp :: z in old(sp);
      label L:
      ok := AddToRhs(x);
    }

    /** The body of the group is finished. */
    method CloseBody(star: bool) returns (ok: bool)
      requires Valid() && |g.Prods(Top())| == 2 && g.Prods(Top())[1].rhs == []
      modifies `g, `errors
      ensures ok <==> |old(g).Prods(Top())[0].rhs| + (if star then 1 else 0) <= MAXRHS
      ensures ok ==>
        Valid() && g.currNonterm == old(g).currNonterm && GroupProds(g, star, llama, Top(), old(g).Prods(Top())[0].rhs)
      ensures ok ==> forall z | z <= g.currNonterm && z != Top() :: g.Prods(z) == old(g).Prods(z)
    {
      ok := true;
      assert Top() in sp;
      if star {
        ok := AddToRhs(Top());
        if !ok { return; }
        if !llama {
          var p := g.Prods(Top())[0];
          var k := |p.rhs| - 1;
          assert p.rhs[..k] == old(g).Prods(Top())[0].rhs;
          g := WithChain(g, Top(), [p.(rhs := [p.rhs[k]] + p.rhs[..k])] + g.Prods(Top())[1..]);
        }
      }
    }

    /** What is read fits into the right-hand side, the stack and the tables. */
    ghost predicate Room(items: seq<Elem>)
      requires Valid()
      reads this
    {
      |g.Prods(Top())[0].rhs| + |items| <= MAXRHS && Fits(items, SSIZE - |sp|) && Spare(Groups(items))
    }

    /** A right-hand side, as the parser of the input reads it. */
    method Rhs(items: seq<Elem>) returns (ok: bool, ghost r: seq<Symbol>)
      requires Valid()
      modifies this
      ensures ok <==> old(Room(items))
      ensures ok ==> |r| == |items| && Used(old(g), old(numProductions), Groups(items))
      ensures ok ==> Valid() && sp == old(sp) && Extends(old(g), g, Top(), r)
      ensures ok ==> Becomes(g, llama, items, r, old(g).currNonterm, g.currNonterm)
      decreases Size(items), 1, 0
    {
      hide Becomes, Extends, Fresh;
      ok, r := true, [];
      ghost var g0, y, n0 := g, Top(), numProductions;
      TopKnown();
      ExtendsRefl(g, y);
      NothingYet(g, llama);
      assert items[..0] == [];
      for k := 0 to |items|
        invariant |r| == k && Used(g0, n0, Groups(items[..k])) && Fits(items[..k], SSIZE - |sp|)
        invariant g.currNonterm <= MAXNONTERM && (Groups(items[..k]) > 0 ==> numProductions <= MAXPROD)
        invariant |g0.Prods(y)[0].rhs| + k <= MAXRHS
        invariant ok && Valid() && sp == old(sp) && Extends(g0, g, y, r)
        invariant Becomes(g, llama, items[..k], r, g0.currNonterm, g.currNonterm)
      {
        ghost var h := g;
        ghost var s: seq<Symbol>;
        ExtendsRoom(g0, h, y, r);
        assert items[..k] + [items[k]] == items[..k + 1];
        GroupsSnoc(items[..k], items[k]);
        GroupsGrow(items, k + 1);
        ok, s := One(items, k);
        if !ok { return; }
        OneMore(g0, h, g, llama, items[..k], r, items[k], s, y);
        ExtendsTrans(g0, h, g, y, r, s);
        r := r + s;
      }
      assert items[..|items|] == items;
    }

    /** `n` groups have been read. */
    ghost predicate Used(g0: Grammar, n0: nat, n: nat)
      reads `g, `numProductions
    {
      g.currNonterm == g0.currNonterm + n && numProductions == n0 + 2 * n
    }

    /** One element of it. */
    method One(items: seq<Elem>, k: nat) returns (ok: bool, ghost s: seq<Symbol>)
      requires Valid() && k < |items|
      modifies this
      ensures ok <==>
        |old(g.Prods(Top())[0].rhs)| < MAXRHS && FitsOne(items[k], SSIZE - |old(sp)|) && old(Spare(GroupsOf(items[k])))
      ensures ok ==> |s| == 1 && Used(old(g), old(numProductions), GroupsOf(items[k]))
      ensures ok ==> Valid() && sp == old(sp) && Extends(old(g), g, Top(), s)
      ensures ok ==> Becomes(g, llama, [items[k]], s, old(g).currNonterm, g.currNonterm)
      decreases Size(items), 0, 0
    {
      SizeAt(items, k);
      match items[k] {
        case Sym(x) =>
          assert GroupsOf(items[k]) == 0;
          TopKnown();
          ok := AddToRhs(x);
          s := [x];
        case Group(star, body) =>
          hide *;
          GroupRoom(star, body, SSIZE - |sp|);
          ok, s := OneGroup(star, body);
      }
    }

    /** start_opt, the body and end_opt. */
    method OneGroup(star: bool, body: seq<Elem>) returns (ok: bool, ghost s: seq<Symbol>)
      requires Valid()
      modifies this
      ensures ok <==>
        && |old(g.Prods(Top())[0].rhs)| < MAXRHS && |old(sp)| < SSIZE && |body| + (if star then 1 else 0) <= MAXRHS
        && Fits(body, SSIZE - |old(sp)| - 1) && old(Spare(1 + Groups(body)))
      ensures ok ==> |s| == 1 && Used(old(g), old(numProductions), 1 + Groups(body))
      ensures ok ==> Valid() && sp == old(sp) && Extends(old(g), g, Top(), s)
      ensures ok ==> Becomes(g, llama, [Group(star, body)], s, old(g).currNonterm, g.currNonterm)
      decreases Size(body), 2, 0
    {
      hide Fresh, Becomes, Extends, GroupProds, Fits, Groups;
      ghost var g0, y := g, Top();
      TopKnown();
      ok := StartOpt();
      s := [];
      if !ok { return; }
      ghost var g1, x := g, Top();
      ghost var b;
      ok, b := Rhs(body);
      if !ok { return; }
      ghost var g2 := g;
      BodyMade(g0, g1, g2, x, y, b);
      ok := EndOpt(star);
      s := [x];
      if !ok { return; }
      GroupMade(g0, g1, g2, g, llama, star, body, x, y, b);
    }

    lemma TopKnown()
      requires Valid()
      ensures IsNonterm(Top()) && Top() <= g.currNonterm <= MAXNONTERM && g.Prods(Top()) != [] && Fresh(g)
    {
      assert Top() in sp;
    }
  }

  lemma GroupRoom(star: bool, body: seq<Elem>, depth: int)
    ensures Size(body) < ElemSize(Group(star, body)) && GroupsOf(Group(star, body)) == 1 + Groups(body)
    ensures FitsOne(Group(star, body), depth) <==>
      depth > 0 && |body| + (if star then 1 else 0) <= MAXRHS && Fits(body, depth - 1)
  {
    hide Groups, Fits, Size;
  }

  lemma {:induction false} SizeAt(items: seq<Elem>, k: nat)
    requires k < |items|
    ensures ElemSize(items[k]) <= Size(items)
    decreases k
  {
    if k > 0 { SizeAt(items[1..], k - 1); }
  }

  lemma NothingYet(g: Grammar, llama: bool)
    ensures Becomes(g, llama, [], [], g.currNonterm, g.currNonterm)
  {
  }

  /** One more element of a right-hand side. */
  lemma OneMore(g0: Grammar, h: Grammar, g: Grammar, llama: bool, items: seq<Elem>, r: seq<Symbol>, e: Elem,
        s: seq<Symbol>, y: Symbol)
    requires Extends(g0, h, y, r) && Extends(h, g, y, s)
    requires Becomes(h, llama, items, r, g0.currNonterm, h.currNonterm)
    requires Becomes(g, llama, [e], s, h.currNonterm, g.currNonterm)
    ensures Becomes(g, llama, items + [e], r + s, g0.currNonterm, g.currNonterm)
  {
    hide Becomes;
    BecomesKept(h, g, llama, items, r, g0.currNonterm, h.currNonterm, g0.currNonterm, g.currNonterm);
    BecomesKept(g, g, llama, [e], s, h.currNonterm, g.currNonterm, g0.currNonterm, g.currNonterm);
    BecomesSnoc(g, llama, items, r, [e], s, g0.currNonterm, g.currNonterm);
  }

  /** The productions of a group's nonterminal and of the one outside, when the body has been read. */
  lemma BodyMade(g0: Grammar, g1: Grammar, g2: Grammar, x: Symbol, y: Symbol, b: seq<Symbol>)
    requires Extends(g1, g2, x, b) && x == g1.currNonterm == g0.currNonterm + 1 && y <= g0.currNonterm
    requires |g1.Prods(x)| == 2 && g1.Prods(x)[0].rhs == [] && g1.Prods(x)[1].rhs == []
    requires forall z | z <= g0.currNonterm :: g1.Prods(z) == g0.Prods(z)
    ensures |g2.Prods(x)| == 2 && g2.Prods(x)[0].rhs == b && g2.Prods(x)[1].rhs == []
    ensures forall z | z <= g0.currNonterm :: g2.Prods(z) == g0.Prods(z)
    ensures g1.currNonterm <= g2.currNonterm
  {
    assert [] + b == b;
  }

  lemma GroupMade(g0: Grammar, g1: Grammar, g2: Grammar, g: Grammar, llama: bool, star: bool, body: seq<Elem>,
        x: Symbol, y: Symbol, b: seq<Symbol>)
    requires x == g1.currNonterm == g0.currNonterm + 1 && y <= g0.currNonterm && g0.Prods(y) != []
    requires x <= g2.currNonterm == g.currNonterm
    requires Becomes(g2, llama, body, b, g1.currNonterm, g2.currNonterm) && GroupProds(g, star, llama, x, b)
    requires forall z | z <= g0.currNonterm :: g2.Prods(z) == g0.Prods(z)
    requires g.Prods(y) == [g2.Prods(y)[0].(rhs := g2.Prods(y)[0].rhs + [x])] + g2.Prods(y)[1..]
    requires forall z | z <= g.currNonterm && z != x && z != y :: g.Prods(z) == g2.Prods(z)
    ensures Extends(g0, g, y, [x]) && Becomes(g, llama, [Group(star, body)], [x], g0.currNonterm, g.currNonterm)
  {
    hide GroupProds;
    BecomesKept(g2, g, llama, body, b, g1.currNonterm, g2.currNonterm, g0.currNonterm, g.currNonterm);
    assert [x][1..] == [];
    assert Becomes(g, llama, [], [], g0.currNonterm, g.currNonterm);
    assert [Group(star, body)][1..] == [];
  }

  /** The sentences of the nonterminal that a group has become are what the group stands for. */
  lemma GroupSentences(g: Grammar, llama: bool, star: bool, body: seq<Elem>, x: Symbol, b: seq<Symbol>, lo: int,
        hi: int, w: seq<Symbol>)
    requires g.ValidProductions() && Becomes(g, llama, body, b, lo, hi) && GroupProds(g, star, llama, x, b)
    ensures Sentence(g, x, w) <==> if star then Repeated(g, body, w) else w == [] || Means(g, body, w)
  {
    hide Sentence, Produces, Repeated, Means, Becomes, Grammar.ValidProductions;
    SentenceIff(g, x, w);
    if star {
      StarMeaning(g, llama, body, x, b, lo, hi, w);
    } else {
      GroupProduces(g, star, llama, x, b, w);
      Meaning(g, llama, body, b, lo, hi, w);
    }
  }

  /** The right-hand side stands for what was written, now and in every later grammar that
      leaves the new nonterminals alone. */
  method RightSide(acts: Acts, items: seq<Elem>) returns (ok: bool, ghost r: seq<Symbol>)
    requires acts.Valid()
    modifies acts
    ensures ok <==> old(acts.Room(items))
    ensures ok ==> acts.Valid() && acts.sp == old(acts.sp) && Extends(old(acts.g), acts.g, acts.Top(), r)
    ensures ok ==> forall h: Grammar | SameBetween(acts.g, h, old(acts.g).currNonterm) :: StandsFor(h, r, items)
  {
    hide Becomes, Extends, Produces, Means, Fresh;
    ghost var lo := acts.g.currNonterm;
    ok, r := acts.Rhs(items);
    if !ok { return; }
    forall h: Grammar | SameBetween(acts.g, h, lo) ensures StandsFor(h, r, items) {
      BecomesKept(acts.g, h, acts.llama, items, r, lo, acts.g.currNonterm, lo, acts.g.currNonterm);
      forall w ensures Produces(h, r, w) <==> Means(h, items, w) {
        Meaning(h, acts.llama, items, r, lo, acts.g.currNonterm, w);
      }
    }
  }

  ghost predicate StandsFor(g: Grammar, r: seq<Symbol>, items: seq<Elem>) {
    forall w :: Produces(g, r, w) <==> Means(g, items, w)
  }

  ghost predicate SameBetween(g: Grammar, h: Grammar, lo: int) {
    forall x | lo < x <= g.currNonterm :: h.Prods(x) == g.Prods(x)
  }
}
