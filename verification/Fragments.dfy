/** Thompson fragments: pieces of an automaton that accept exactly the language of a
    regular expression, and the ways compiler/lex/nfa.c puts them together. */
module Fragments {
  import opened Nfa
  import opened Regex

  /** A node without transitions. */
  predicate Dead(node: Node) {
    node.edge == EPSILON && node.next == NONE && node.next2 == NONE
  }

  predicate Closed(m: Machine, f: set<int>) {
    forall n | n in f ::
      0 <= n < |m| && (m[n].next == NONE || m[n].next in f) && (m[n].next2 == NONE || m[n].next2 in f)
  }

  /** No transition of `f` enters `s`. */
  predicate NotEntered(m: Machine, f: set<int>, s: int)
    requires Closed(m, f)
  {
    forall n | n in f :: m[n].next != s && m[n].next2 != s
  }

  /** The nodes `f` run from `s` to `e`; no edge enters `s`, none leaves `e`. */
  predicate Shape(m: Machine, f: set<int>, s: int, e: int) {
    && Closed(m, f) && s in f && e in f && s != e && NONE !in f
    && NotEntered(m, f, s) && Dead(m[e])
    && forall n | n in f :: m[n].accept == NONE && (m[n].Labelled() ==> m[n].next != NONE)
  }

  ghost predicate Accepts(m: Machine, s: int, e: int, r: Regex) {
    forall w :: Path(m, s, w, e) <==> Matches(r, w)
  }

  ghost predicate Fragment(m: Machine, f: set<int>, s: int, e: int, r: Regex) {
    Shape(m, f, s, e) && Accepts(m, s, e, r)
  }

  predicate Agree(m: Machine, m': Machine, f: set<int>) {
    |m| == |m'| && forall n | n in f && 0 <= n < |m| :: m[n] == m'[n]
  }

  // ------------------------------------------------------------ path lemmas

  lemma DeadEnd(m: Machine, e: int, w: seq<int>, t: int, k: nat)
    requires 0 <= e < |m| && Dead(m[e]) && PathIn(m, e, w, t, k)
    ensures k == 0 && t == e && w == []
  {
  }

  lemma MoveStays(m: Machine, f: set<int>, n: int, w: seq<int>, q: int)
    requires Closed(m, f) && n in f && Moves(m, n, w, q)
    ensures q in f
  {
  }

  /** A path to the dead end of a closed set stays in the set, so it survives changes
      elsewhere and changes to the end itself. */
  lemma {:induction false} Lift(m: Machine, m': Machine, f: set<int>, e: int, n: int, w: seq<int>, k: nat)
    requires Closed(m, f) && e in f && Dead(m[e]) && Agree(m, m', f - {e}) && n in f
    requires PathIn(m, n, w, e, k)
    ensures PathIn(m', n, w, e, k)
    decreases k
  {
    if k > 0 {
      if n == e {
        DeadEnd(m, e, w, e, k);
      }
      var i, q := FirstOf(m, n, w, e, k);
      assert Moves(m', n, w[..i], q);
      MoveStays(m, f, n, w[..i], q);
      Lift(m, m', f, e, q, w[i..], k - 1);
      assert FirstMove(m', n, w, e, k, i, q);
    }
  }

  lemma LiftPath(m: Machine, m': Machine, f: set<int>, e: int, n: int, w: seq<int>)
    requires Closed(m, f) && e in f && Dead(m[e]) && Agree(m, m', f - {e}) && n in f && Path(m, n, w, e)
    ensures Path(m', n, w, e)
  {
    var k: nat :| PathIn(m, n, w, e, k);
    Lift(m, m', f, e, n, w, k);
  }

  /** A path that leaves a closed set whose end has been changed goes through that end. */
  lemma {:induction false} Exit(m: Machine, m': Machine, f: set<int>, e: int, n: int, w: seq<int>, t: int, k: nat)
    returns (i: nat, j: nat)
    requires Closed(m, f) && e in f && Agree(m, m', f - {e}) && n in f && t !in f
    requires PathIn(m', n, w, t, k)
    ensures i <= |w| && j <= k && PathIn(m, n, w[..i], e, j) && PathIn(m', e, w[i..], t, k - j)
    decreases k
  {
    if n == e {
      i, j := 0, 0;
      assert w[0..] == w;
    } else {
      var i0, q := FirstOf(m', n, w, t, k);
      assert Moves(m, n, w[..i0], q);
      MoveStays(m, f, n, w[..i0], q);
      var i1, j1 := Exit(m, m', f, e, q, w[i0..], t, k - 1);
      i, j := i0 + i1, j1 + 1;
      assert w[i0..][i1..] == w[i..] && w[..i][i0..] == w[i0..][..i1] && w[..i][..i0] == w[..i0];
      assert FirstMove(m, n, w[..i], e, j, i0, q);
    }
  }

  /** Two nodes with equal contents start the same paths, except the empty one. */
  lemma Twin(m: Machine, m': Machine, a: int, b: int, f: set<int>, e: int, w: seq<int>, k: nat)
    requires 0 <= a < |m| && 0 <= b < |m'| && m[a] == m'[b] && a != e && PathIn(m, a, w, e, k)
    requires Closed(m, f) && e in f && Dead(m[e]) && Agree(m, m', f - {e})
    requires (m[a].next == NONE || m[a].next in f) && (m[a].next2 == NONE || m[a].next2 in f)
    ensures PathIn(m', b, w, e, k)
  {
    var i, q := FirstOf(m, a, w, e, k);
    assert Moves(m', b, w[..i], q);
    Lift(m, m', f, e, q, w[i..], k - 1);
    assert FirstMove(m', b, w, e, k, i, q);
  }

  // ---------------------------------------------------------- one character

  /** `r` is the one character, or the class, on which there is an edge from `s` to `e`. */
  predicate IsLeaf(m: Machine, s: int, e: int, r: Regex) {
    && 0 <= s < |m| && 0 <= e < |m| && s != e
    && m[s].Labelled() && m[s].next == e && m[s].next2 == NONE && m[s].accept == NONE
    && Dead(m[e]) && m[e].accept == NONE
    && r == if m[s].edge == CCL then Chars(m[s].bitset) else Char(m[s].edge)
  }

  lemma Leaf(m: Machine, s: int, e: int, r: Regex)
    requires IsLeaf(m, s, e, r)
    ensures Fragment(m, {s, e}, s, e, r)
  {
    forall w ensures Path(m, s, w, e) <==> Matches(r, w) {
      if Matches(r, w) {
        assert Moves(m, s, w, e);
        OneMove(m, s, w, e);
      }
      if Path(m, s, w, e) {
        var k: nat :| PathIn(m, s, w, e, k);
        var i, q := FirstOf(m, s, w, e, k);
        DeadEnd(m, e, w[i..], e, k - 1);
        assert w[..i] == w;
      }
    }
  }

  // ---------------------------------------------------------- concatenation

  /** The end of the first fragment has been overwritten with the start of the second. */
  predicate IsCat(m: Machine, m': Machine, f1: set<int>, e1: int, f2: set<int>, s2: int) {
    && |m| == |m'| && 0 <= e1 < |m| && 0 <= s2 < |m| && m'[e1] == m[s2]
    && Agree(m, m', f1 - {e1}) && Agree(m, m', f2 - {s2})
  }

  lemma CatShape(m: Machine, m': Machine, f1: set<int>, s1: int, e1: int, f2: set<int>, s2: int, e2: int)
    requires Shape(m, f1, s1, e1) && Shape(m, f2, s2, e2) && f1 !! f2 && IsCat(m, m', f1, e1, f2, s2)
    ensures Shape(m', f1 + (f2 - {s2}), s1, e2)
    ensures Closed(m, f2 - {s2}) && Closed(m', f2 - {s2})
  {
  }

  lemma Concatenate(m: Machine, m': Machine, f1: set<int>, s1: int, e1: int, r1: Regex, f2: set<int>, s2: int,
        e2: int, r2: Regex)
    requires Fragment(m, f1, s1, e1, r1) && Fragment(m, f2, s2, e2, r2) && f1 !! f2 && IsCat(m, m', f1, e1, f2, s2)
    ensures Fragment(m', f1 + (f2 - {s2}), s1, e2, Cat(r1, r2))
  {
    CatShape(m, m', f1, s1, e1, f2, s2, e2);
    hide Shape, Closed, IsCat, Matches, Path;
    forall w ensures Path(m', s1, w, e2) <==> Matches(Cat(r1, r2), w) {
      if Matches(Cat(r1, r2), w) {
        CatInto(m, m', f1, s1, e1, r1, f2, s2, e2, r2, w);
      }
      if Path(m', s1, w, e2) {
        CatFrom(m, m', f1, s1, e1, r1, f2, s2, e2, r2, w);
      }
    }
  }

  lemma CatInto(m: Machine, m': Machine, f1: set<int>, s1: int, e1: int, r1: Regex, f2: set<int>, s2: int, e2: int,
        r2: Regex,
                w: seq<int>)
    requires Fragment(m, f1, s1, e1, r1) && Fragment(m, f2, s2, e2, r2) && f1 !! f2 && IsCat(m, m', f1, e1, f2, s2)
    requires Matches(Cat(r1, r2), w)
    ensures Path(m', s1, w, e2)
  {
    CatShape(m, m', f1, s1, e1, f2, s2, e2);
    hide PathIn;
    var i :| 0 <= i <= |w| && Matches(r1, w[..i]) && Matches(r2, w[i..]);
    hide Matches;
    LiftPath(m, m', f1, e1, s1, w[..i]);
    var k: nat :| PathIn(m, s2, w[i..], e2, k);
    Twin(m, m', s2, e1, f2 - {s2}, e2, w[i..], k);
    Compose(m', s1, w[..i], e1, w[i..], e2);
    assert w[..i] + w[i..] == w;
  }

  lemma CatFrom(m: Machine, m': Machine, f1: set<int>, s1: int, e1: int, r1: Regex, f2: set<int>, s2: int, e2: int,
        r2: Regex,
                w: seq<int>)
    requires Fragment(m, f1, s1, e1, r1) && Fragment(m, f2, s2, e2, r2) && f1 !! f2 && IsCat(m, m', f1, e1, f2, s2)
    requires Path(m', s1, w, e2)
    ensures Matches(Cat(r1, r2), w)
  {
    CatShape(m, m', f1, s1, e1, f2, s2, e2);
    hide PathIn;
    var k: nat :| PathIn(m', s1, w, e2, k);
    var i, j := Exit(m, m', f1, e1, s1, w, e2, k);
    Twin(m', m, e1, s2, f2 - {s2}, e2, w[i..], k - j);
    assert Path(m, s1, w[..i], e1) && Path(m, s2, w[i..], e2);
    assert Matches(r1, w[..i]) && Matches(r2, w[i..]);
  }

  // ------------------------------------------------------------ alternation

  predicate IsAlt(m: Machine, m': Machine, f1: set<int>, s1: int, e1: int, f2: set<int>, s2: int, e2: int, p: int,
        q: int) {
    && |m| == |m'| && 0 <= p < |m| && 0 <= q < |m| && 0 <= e1 < |m| && 0 <= e2 < |m|
    && p != q && p !in f1 + f2 && q !in f1 + f2
    && m'[p] == m'[p].(edge := EPSILON, next := s1, next2 := s2, accept := NONE)
    && Dead(m'[q]) && m'[q].accept == NONE
    && m'[e1] == m[e1].(next := q) && m'[e2] == m[e2].(next := q)
    && Agree(m, m', f1 - {e1}) && Agree(m, m', f2 - {e2})
  }

  lemma AltShape(m: Machine, m': Machine, f1: set<int>, s1: int, e1: int, f2: set<int>, s2: int, e2: int, p: int,
        q: int)
    requires Shape(m, f1, s1, e1) && Shape(m, f2, s2, e2) && f1 !! f2 && IsAlt(m, m', f1, s1, e1, f2, s2, e2, p, q)
    ensures Shape(m', f1 + f2 + {p, q}, p, q)
  {
  }

  /** From the rewritten end of a fragment only the new end can be reached, at once. */
  lemma OnlyToEnd(m: Machine, e: int, q: int, w: seq<int>, k: nat)
    requires 0 <= e < |m| && 0 <= q < |m| && m[e].edge == EPSILON && m[e].next == q && m[e].next2 == NONE && e != q
    requires Dead(m[q])
    requires PathIn(m, e, w, q, k)
    ensures w == []
  {
    var i, x := FirstOf(m, e, w, q, k);
    DeadEnd(m, q, w[i..], q, k - 1);
  }

  /** One branch: into the fragment, through it and on to the new end. */
  lemma Through(m: Machine, m': Machine, f: set<int>, s: int, e: int, r: Regex, p: int, q: int, w: seq<int>)
    requires Fragment(m, f, s, e, r) && Agree(m, m', f - {e}) && Matches(r, w)
    requires 0 <= p < |m'| && m'[p].edge == EPSILON && (m'[p].next == s || m'[p].next2 == s)
    requires 0 <= q < |m'| && m'[e].edge == EPSILON && m'[e].next == q
    ensures Path(m', p, w, q) && Path(m', s, w, e)
  {
    LiftPath(m, m', f, e, s, w);
    assert Moves(m', p, [], s) && Moves(m', e, [], q);
    OneMove(m', p, [], s);
    OneMove(m', e, [], q);
    Compose(m', s, w, e, [], q);
    assert w + [] == w;
    Compose(m', p, [], s, w, q);
    assert [] + w == w;
  }

  lemma Alternate(m: Machine, m': Machine, f1: set<int>, s1: int, e1: int, r1: Regex, f2: set<int>, s2: int, e2: int,
        r2: Regex, p: int, q: int)
    requires Fragment(m, f1, s1, e1, r1) && Fragment(m, f2, s2, e2, r2) && f1 !! f2
    requires IsAlt(m, m', f1, s1, e1, f2, s2, e2, p, q)
    ensures Fragment(m', f1 + f2 + {p, q}, p, q, Alt(r1, r2))
  {
    AltShape(m, m', f1, s1, e1, f2, s2, e2, p, q);
    forall w ensures Path(m', p, w, q) <==> Matches(Alt(r1, r2), w) {
      if Matches(r1, w) { Through(m, m', f1, s1, e1, r1, p, q, w); }
      if Matches(r2, w) { Through(m, m', f2, s2, e2, r2, p, q, w); }
      if Path(m', p, w, q) {
        var k: nat :| PathIn(m', p, w, q, k);
        var i0, x := FirstOf(m', p, w, q, k);
        assert w[i0..] == w;
        if x == s1 {
          var i, j := Exit(m, m', f1, e1, s1, w, q, k - 1);
          OnlyToEnd(m', e1, q, w[i..], k - 1 - j);
          assert w[..i] == w;
        } else {
          var i, j := Exit(m, m', f2, e2, s2, w, q, k - 1);
          OnlyToEnd(m', e2, q, w[i..], k - 1 - j);
          assert w[..i] == w;
        }
      }
    }
  }

  // ---------------------------------------------------------------- closures

  /** `opt`: the new start skips to the new end; `rep`: the old end goes back. */
  predicate IsClosure(m: Machine, m': Machine, f: set<int>, s: int, e: int, p: int, q: int, opt: bool, rep: bool) {
    && |m| == |m'| && 0 <= p < |m| && 0 <= q < |m| && 0 <= e < |m|
    && p != q && p !in f && q !in f
    && m'[p] == m'[p].(edge := EPSILON, next := s, next2 := if opt then q else NONE, accept := NONE)
    && Dead(m'[q]) && m'[q].accept == NONE
    && m'[e] == m[e].(next := q, next2 := if rep then s else NONE)
    && Agree(m, m', f - {e})
  }

  function ClosureOf(r: Regex, opt: bool, rep: bool): Regex
    requires opt || rep
  {
    if opt && rep then Star(r) else if rep then Plus(r) else Opt(r)
  }

  lemma ClosureShape(m: Machine, m': Machine, f: set<int>, s: int, e: int, p: int, q: int, opt: bool, rep: bool)
    requires Shape(m, f, s, e) && IsClosure(m, m', f, s, e, p, q, opt, rep)
    ensures Shape(m', f + {p, q}, p, q)
  {
  }

  /** From the old end, in front of which the body has been matched, every way to the
      new end matches the body some number of times again. */
  lemma {:induction false} FromEnd(m: Machine, m': Machine, f: set<int>, s: int, e: int, r: Regex, p: int, q: int,
        opt: bool, rep: bool, w: seq<int>, k: nat)
    returns (n: nat)
    requires Fragment(m, f, s, e, r) && IsClosure(m, m', f, s, e, p, q, opt, rep) && PathIn(m', e, w, q, k)
    ensures Repeats(r, w, n) && (!rep ==> n == 0)
    decreases k
  {
    var i, x := FirstOf(m', e, w, q, k);
    assert w[i..] == w;
    if x == q {
      DeadEnd(m', q, w, q, k - 1);
      n := 0;
    } else {
      n := FromStart(m, m', f, s, e, r, p, q, opt, rep, w, k - 1);
    }
  }

  lemma {:induction false} FromStart(m: Machine, m': Machine, f: set<int>, s: int, e: int, r: Regex, p: int, q: int,
        opt: bool, rep: bool, w: seq<int>, k: nat)
    returns (n: nat)
    requires Fragment(m, f, s, e, r) && IsClosure(m, m', f, s, e, p, q, opt, rep) && PathIn(m', s, w, q, k)
    ensures n > 0 && Repeats(r, w, n) && (!rep ==> n == 1)
    decreases k
  {
    var i, j := Exit(m, m', f, e, s, w, q, k);
    assert Path(m, s, w[..i], e);
    assert j > 0;
    var n0 := FromEnd(m, m', f, s, e, r, p, q, opt, rep, w[i..], k - j);
    n := n0 + 1;
  }

  /** Matching the body `n > 0` times gives a way from the old start to the new end. */
  lemma {:induction false} RepeatPath(m: Machine, m': Machine, f: set<int>, s: int, e: int, r: Regex, p: int, q: int,
        opt: bool, rep: bool, w: seq<int>, n: nat)
    requires Fragment(m, f, s, e, r) && IsClosure(m, m', f, s, e, p, q, opt, rep)
    requires n > 0 && Repeats(r, w, n) && (rep || n == 1)
    ensures Path(m', s, w, q)
    decreases n
  {
    hide Fragment, IsClosure, Matches, PathIn, Moves;
    var i :| 0 <= i <= |w| && Matches(r, w[..i]) && Repeats(r, w[i..], n - 1);
    if n == 1 {
      LastRound(m, m', f, s, e, r, p, q, opt, rep, w, i);
    } else {
      RepeatPath(m, m', f, s, e, r, p, q, opt, rep, w[i..], n - 1);
      OneRound(m, m', f, s, e, r, p, q, opt, rep, w, i);
    }
  }

  lemma LastRound(m: Machine, m': Machine, f: set<int>, s: int, e: int, r: Regex, p: int, q: int, opt: bool,
        rep: bool, w: seq<int>, i: nat)
    requires Fragment(m, f, s, e, r) && IsClosure(m, m', f, s, e, p, q, opt, rep)
    requires i <= |w| && Matches(r, w[..i]) && w[i..] == []
    ensures Path(m', s, w, q)
  {
    hide PathIn, Matches;
    LiftPath(m, m', f, e, s, w[..i]);
    assert Moves(m', e, [], q);
    OneMove(m', e, [], q);
    Compose(m', s, w[..i], e, [], q);
    assert w[..i] + [] == w;
  }

  lemma OneRound(m: Machine, m': Machine, f: set<int>, s: int, e: int, r: Regex, p: int, q: int, opt: bool, rep: bool,
        w: seq<int>, i: nat)
    requires Fragment(m, f, s, e, r) && IsClosure(m, m', f, s, e, p, q, opt, rep) && rep
    requires i <= |w| && Matches(r, w[..i]) && Path(m', s, w[i..], q)
    ensures Path(m', s, w, q)
  {
    hide PathIn, Matches;
    LiftPath(m, m', f, e, s, w[..i]);
    assert Moves(m', e, [], s);
    hide *;
    OneMove(m', e, [], s);
    Compose(m', e, [], s, w[i..], q);
    assert [] + w[i..] == w[i..];
    Compose(m', s, w[..i], e, w[i..], q);
    assert w[..i] + w[i..] == w;
  }

  lemma {:induction false} StarLanguage(r: Regex, w: seq<int>)
    ensures Matches(Star(r), w) <==> w == [] || Matches(Plus(r), w)
  {
    if w == [] {
      assert Repeats(r, w, 0);
    }
    if Matches(Star(r), w) {
      var n := Times(r, w, 0);
      assert n == 0 ==> w == [];
    }
    if Matches(Plus(r), w) {
      var n := Times(r, w, 1);
    }
  }

  lemma {:induction false} Times(r: Regex, w: seq<int>, least: nat) returns (n: nat)
    requires least <= 1 && Matches(if least == 0 then Star(r) else Plus(r), w)
    ensures n >= least && Repeats(r, w, n)
  {
    n :| n >= least && Repeats(r, w, n);
  }

  lemma {:induction false} PlusFrom(r: Regex, w: seq<int>, n: nat)
    requires n > 0 && Repeats(r, w, n)
    ensures Matches(Plus(r), w)
  {
  }

  lemma {:induction false} Once(r: Regex, w: seq<int>)
    ensures Matches(r, w) <==> Repeats(r, w, 1)
  {
    if Matches(r, w) {
      assert w[..|w|] == w && w[|w|..] == [];
      assert Repeats(r, w[|w|..], 0);
    }
    if Repeats(r, w, 1) {
      var i :| 0 <= i <= |w| && Matches(r, w[..i]) && Repeats(r, w[i..], 0);
      assert w[..i] == w;
    }
  }

  ghost predicate SomeTimes(r: Regex, rep: bool, w: seq<int>) {
    exists n: nat :: n > 0 && (rep || n == 1) && Repeats(r, w, n)
  }

  /** The language of a closure, by the number of repetitions it allows. */
  lemma {:induction false} ClosureLanguage(r: Regex, opt: bool, rep: bool, w: seq<int>)
    requires opt || rep
    ensures Matches(ClosureOf(r, opt, rep), w) <==>
      (opt && w == []) || SomeTimes(r, rep, w)
  {
    StarLanguage(r, w);
    Once(r, w);
    if rep && Matches(Plus(r), w) {
      var n := Times(r, w, 1);
      assert SomeTimes(r, rep, w);
    }
    if SomeTimes(r, rep, w) {
      var n: nat :| n > 0 && (rep || n == 1) && Repeats(r, w, n);
      PlusFrom(r, w, n);
    }
  }

  lemma Close(m: Machine, m': Machine, f: set<int>, s: int, e: int, r: Regex, p: int, q: int, opt: bool, rep: bool)
    requires Fragment(m, f, s, e, r) && IsClosure(m, m', f, s, e, p, q, opt, rep) && (opt || rep)
    ensures Fragment(m', f + {p, q}, p, q, ClosureOf(r, opt, rep))
  {
    ClosureShape(m, m', f, s, e, p, q, opt, rep);
    forall w ensures Path(m', p, w, q) <==> Matches(ClosureOf(r, opt, rep), w) {
      ClosureLanguage(r, opt, rep, w);
      if opt && w == [] {
        assert Moves(m', p, [], q);
        OneMove(m', p, [], q);
      } else if Matches(ClosureOf(r, opt, rep), w) {
        var n: nat :| n > 0 && (rep || n == 1) && Repeats(r, w, n);
        RepeatPath(m, m', f, s, e, r, p, q, opt, rep, w, n);
        assert Moves(m', p, [], s);
        OneMove(m', p, [], s);
        Compose(m', p, [], s, w, q);
        assert [] + w == w;
      }
      if Path(m', p, w, q) {
        var k: nat :| PathIn(m', p, w, q, k);
        var i, x := FirstOf(m', p, w, q, k);
        assert w[i..] == w;
        if x == s {
          var n := FromStart(m, m', f, s, e, r, p, q, opt, rep, w, k - 1);
          assert SomeTimes(r, rep, w);
        } else {
          DeadEnd(m', q, w, q, k - 1);
        }
      }
    }
  }

  lemma FragmentEnds(m: Machine, f: set<int>, s: int, e: int, r: Regex)
    requires Fragment(m, f, s, e, r)
    ensures s in f && e in f && s != e && Dead(m[e]) && Closed(m, f)
  {
  }

  /** Changes elsewhere do not disturb a fragment. */
  lemma FragmentKept(m: Machine, m': Machine, f: set<int>, s: int, e: int, r: Regex)
    requires Fragment(m, f, s, e, r) && Agree(m, m', f)
    ensures Fragment(m', f, s, e, r)
  {
    forall w ensures Path(m', s, w, e) <==> Matches(r, w) {
      if Path(m, s, w, e) {
        LiftPath(m, m', f, e, s, w);
      }
      if Path(m', s, w, e) {
        LiftPath(m', m, f, e, s, w);
      }
    }
  }
}
