/** How far the conflicts that LLAMA reports agree with the LL(1) property, which is a matter of
    derivations and not of sets: always in one direction, and in the other exactly as far as
    its FIRST sets are exact. */
module LLExact {
  import opened Grammars
  import opened Symbols
  import opened First
  import opened FirstTheorems
  import opened Follow
  import opened FollowTheorems
  import opened Select
  import opened LLTable
  import opened LLTheorems

  ghost predicate Vanishes(g: Grammar, a: seq<Symbol>) { Produces(g, a, []) }

  /** `t` can come first in what the string produces. */
  ghost predicate Starts(g: Grammar, a: seq<Symbol>, t: Symbol) {
    exists w :: Produces(g, a, [t] + w)
  }

  function Next(w: seq<Symbol>): Symbol { if w == [] then EOI else w[0] }

  // -------------------------------------------------------------- producing strings

  lemma ProducesJoin(g: Grammar, a: seq<Symbol>, u: seq<Symbol>, b: seq<Symbol>, v: seq<Symbol>)
    requires Produces(g, a, u) && Produces(g, b, v)
    ensures Produces(g, a + b, u + v)
  {
    hide Leftmost;
    var k: nat :| Leftmost(g, a, u, k);
    var n: nat :| Leftmost(g, b, v, n);
    LeftmostJoin(g, a, u, k, b, v, n);
  }

  lemma VanishJoin(g: Grammar, a: seq<Symbol>, b: seq<Symbol>)
    requires Vanishes(g, a) && Vanishes(g, b)
    ensures Vanishes(g, a + b)
  {
    var none: seq<Symbol> := [];
    assert none + none == none;
    ProducesJoin(g, a, none, b, none);
  }

  lemma ProducesNothing(g: Grammar)
    ensures Vanishes(g, [])
  {
    assert Leftmost(g, [], [], 0);
  }

  lemma ProducesToken(g: Grammar, t: Symbol)
    requires IsTerm(t)
    ensures Produces(g, [t], [t])
  {
    assert Leftmost(g, [], [], 0) && [t][1..] == [];
    assert Leftmost(g, [t], [t], 1);
  }

  lemma ActVanishes(g: Grammar, x: Symbol)
    requires IsAct(x)
    ensures Vanishes(g, [x])
  {
    assert Leftmost(g, [], [], 0) && [x][1..] == [];
    assert Leftmost(g, [x], [], 1);
  }

  lemma ProducesBy(g: Grammar, x: Symbol, p: Production, w: seq<Symbol>)
    requires p in g.Prods(x) && IsNonterm(x) && Produces(g, p.rhs, w)
    ensures Produces(g, [x], w)
  {
    var n: nat :| Leftmost(g, p.rhs, w, n);
    assert p.rhs + [x][1..] == p.rhs;
    assert Leftmost(g, [x], w, n + 1);
  }

  /** Only a nonterminal or an action vanishes. */
  lemma VanishingSymbol(g: Grammar, y: Symbol)
    requires g.ValidProductions() && Vanishes(g, [y]) && !IsAct(y)
    ensures IsNonterm(y)
  {
    var n: nat :| Leftmost(g, [y], [], n);
    var p :| p in g.Prods(y) && Leftmost(g, p.rhs + [y][1..], [], n - 1);
  }

  // ----------------------------------------------------------------- exact EPSILON

  /** The first symbol that is not an action, if there is one. */
  function Head(a: seq<Symbol>): seq<Symbol> {
    if a == [] then [] else if IsAct(a[0]) then Head(a[1..]) else [a[0]]
  }

  /** EPSILON is in the FIRST set of exactly the nonterminals that derive the empty string. */
  ghost predicate EpsilonExact(g: Grammar, f: Sets) {
    forall x | IsNonterm(x) :: g.Epsilon() in At(f, x) <==> Vanishes(g, [x])
  }

  /** A nonterminal that does not derive the empty string has no production that begins with
      one that does. */
  ghost predicate NoFalseStart(g: Grammar) {
    forall x, p | p in g.Prods(x) && !Vanishes(g, [x]) && Head(p.rhs) != [] :: !Vanishes(g, Head(p.rhs))
  }

  predicate IsToken(g: Grammar, t: Symbol) { 0 <= t <= g.currTerm }

  function AllTokens(g: Grammar): set<Symbol> { set t | 0 <= t <= g.currTerm && IsToken(g, t) }

  /** All tokens, and EPSILON exactly where it should be. */
  ghost function Vanishing(g: Grammar): Sets {
    map x | MINNONTERM <= x <= MAXNONTERM :: AllTokens(g) + if Vanishes(g, [x]) then {g.Epsilon()} else {}
  }

  lemma {:induction false} ScanHead(g: Grammar, f: Sets, a: seq<Symbol>)
    requires Head(a) != []
    ensures FirstOfSymbol(f, Head(a)[0]) <= Scan(g, f, a) && HasNonAct(a)
  {
    if IsAct(a[0]) {
      ScanHead(g, f, a[1..]);
      assert forall x | x in a[1..] :: x in a;
    } else {
      assert a[0] in a;
    }
  }

  lemma {:induction false} ScanVanishing(g: Grammar, a: seq<Symbol>)
    requires g.currTerm <= MAXTERM && g.ValidString(a)
    ensures Scan(g, Vanishing(g), a) <= AllTokens(g) + {g.Epsilon()}
    ensures g.Epsilon() in Scan(g, Vanishing(g), a) ==> Head(a) != [] && Vanishes(g, Head(a))
  {
    hide Vanishes;
    if a != [] {
      assert g.ValidSymbol(a[0]);
      ScanVanishing(g, a[1..]);
    }
  }

  lemma VanishingClosed(g: Grammar)
    requires g.ValidProductions() && g.currTerm <= MAXTERM && NoFalseStart(g)
    ensures Closed(g, Vanishing(g))
  {
    var h := Vanishing(g);
    forall x, p | p in g.Prods(x) ensures ProdFirst(g, h, p) <= At(h, x) {
      assert g.ValidProduction(x, p);
      ScanVanishing(g, p.rhs);
      if !HasNonAct(p.rhs) {
        ActsVanish(g, p.rhs);
        ProducesBy(g, x, p, []);
      }
      hide Vanishes, Scan;
    }
  }

  lemma {:induction false} ActsVanish(g: Grammar, a: seq<Symbol>)
    requires !HasNonAct(a)
    ensures Vanishes(g, a)
  {
    if a == [] {
      ProducesNothing(g);
    } else {
      assert a[0] in a && forall x | x in a[1..] :: x in a;
      ActVanishes(g, a[0]);
      ActsVanish(g, a[1..]);
      VanishJoin(g, [a[0]], a[1..]);
      assert [a[0]] + a[1..] == a;
    }
  }

  lemma VanishingFirst(g: Grammar, f: Sets, x: Symbol)
    requires g.ValidProductions() && Closed(g, f) && IsNonterm(x) && Vanishes(g, [x])
    ensures g.Epsilon() in At(f, x)
  {
    var n: nat :| Leftmost(g, [x], [], n);
    LeftmostFirst(g, f, [x], [], n);
    assert x in [x];
  }

  /** EPSILON is exact exactly for grammars without false starts. */
  lemma ExactlyWithoutFalseStarts(g: Grammar, f: Sets)
    requires g.ValidProductions() && g.currTerm <= MAXTERM && Closed(g, f) && Least(g, f)
    ensures EpsilonExact(g, f) <==> NoFalseStart(g)
  {
    hide Vanishes, Scan, Leftmost;
    if EpsilonExact(g, f) {
      forall x, p | p in g.Prods(x) && !Vanishes(g, [x]) && Head(p.rhs) != [] ensures !Vanishes(g, Head(p.rhs)) {
        assert g.ValidProduction(x, p);
        if Vanishes(g, Head(p.rhs)) { FalseStart(g, f, x, p); }
      }
    }
    if NoFalseStart(g) {
      VanishingClosed(g);
      forall x | IsNonterm(x) ensures g.Epsilon() in At(f, x) <==> Vanishes(g, [x]) {
        assert Leq(f, Vanishing(g));
        assert g.Epsilon() in At(f, x) ==> g.Epsilon() in At(Vanishing(g), x);
        if Vanishes(g, [x]) { VanishingFirst(g, f, x); }
      }
    }
  }

  /** What a false start does to the FIRST set. */
  lemma FalseStart(g: Grammar, f: Sets, x: Symbol, p: Production)
    requires g.ValidProductions() && Closed(g, f) && p in g.Prods(x) && Head(p.rhs) != [] && Vanishes(g, Head(p.rhs))
    ensures g.Epsilon() in At(f, x)
  {
    var y := Head(p.rhs)[0];
    HeadNoAct(p.rhs);
    assert Head(p.rhs) == [y];
    VanishingSymbol(g, y);
    VanishingFirst(g, f, y);
    ScanHead(g, f, p.rhs);
    assert g.Epsilon() in ProdFirst(g, f, p);
  }

  lemma {:induction false} HeadNoAct(a: seq<Symbol>)
    requires Head(a) != []
    ensures |Head(a)| == 1 && !IsAct(Head(a)[0])
  {
    if IsAct(a[0]) { HeadNoAct(a[1..]); }
  }

  // ------------------------------------------------------------- reduced grammars

  /** Every nonterminal is of use: it occurs in a form derived from the goal and produces some
      text. */
  ghost predicate Reduced(g: Grammar) {
    forall x | IsNonterm(x) && g.ValidSymbol(x) :: Productive(g, [x]) && exists done, rest :: InForm(g, done, x, rest)
  }

  ghost predicate Productive(g: Grammar, a: seq<Symbol>) { exists w :: Produces(g, a, w) }

  ghost predicate InForm(g: Grammar, done: seq<Symbol>, x: Symbol, rest: seq<Symbol>) {
    Derives(g, [g.goal], done + [x] + rest)
  }

  lemma {:induction false} StringProductive(g: Grammar, a: seq<Symbol>)
    requires g.currTerm <= MAXTERM && Reduced(g) && g.ValidString(a)
    ensures Productive(g, a)
  {
    hide Produces;
    if a == [] {
      ProducesNothing(g);
      assert Produces(g, a, []);
    } else {
      assert a[0] in a && g.ValidSymbol(a[0]) && forall x | x in a[1..] :: x in a;
      if IsAct(a[0]) {
        ActVanishes(g, a[0]);
        assert Produces(g, [a[0]], []);
      } else if IsTerm(a[0]) {
        ProducesToken(g, a[0]);
      }
      assert Productive(g, [a[0]]);
      var u :| Produces(g, [a[0]], u);
      StringProductive(g, a[1..]);
      var v :| Produces(g, a[1..], v);
      ProducesJoin(g, [a[0]], u, a[1..], v);
      assert [a[0]] + a[1..] == a;
    }
  }

  lemma StartsJoin(g: Grammar, a: seq<Symbol>, b: seq<Symbol>, t: Symbol)
    requires Starts(g, a, t) && Productive(g, b)
    ensures Starts(g, a + b, t)
  {
    hide Produces;
    var w :| Produces(g, a, [t] + w);
    var v :| Produces(g, b, v);
    ProducesJoin(g, a, [t] + w, b, v);
    assert [t] + w + v == [t] + (w + v);
  }

  lemma StartsBehind(g: Grammar, a: seq<Symbol>, b: seq<Symbol>, t: Symbol)
    requires Vanishes(g, a) && Starts(g, b, t)
    ensures Starts(g, a + b, t)
  {
    hide Produces;
    var w :| Produces(g, b, [t] + w);
    ProducesJoin(g, a, [], b, [t] + w);
    assert [] + ([t] + w) == [t] + w;
  }

  /** The tokens that can really come first, and EPSILON exactly where it should be. */
  ghost function TrueFirst(g: Grammar): Sets {
    map x | MINNONTERM <= x <= MAXNONTERM ::
      (set t | 1 <= t <= g.currTerm && Starts(g, [x], t)) + if Vanishes(g, [x]) then {g.Epsilon()} else {}
  }

  lemma {:induction false} TrueScan(g: Grammar, a: seq<Symbol>, t: Symbol)
    requires g.currTerm <= MAXTERM && Reduced(g) && g.ValidString(a) && t in Scan(g, TrueFirst(g), a)
    ensures 1 <= t <= g.currTerm + 1
    ensures t <= g.currTerm ==> Starts(g, a, t)
    ensures t == g.Epsilon() ==> Head(a) != [] && Vanishes(g, Head(a))
  {
    hide Vanishes, Starts, Reduced, Productive;
    assert a[0] in a && g.ValidSymbol(a[0]) && forall x | x in a[1..] :: x in a;
    assert [a[0]] + a[1..] == a;
    if IsAct(a[0]) {
      TrueScan(g, a[1..], t);
      ActVanishes(g, a[0]);
      if t <= g.currTerm { StartsBehind(g, [a[0]], a[1..], t); }
    } else if t in FirstOfSymbol(TrueFirst(g), a[0]) {
      if t <= g.currTerm {
        FirstStarts(g, a[0], t);
        StringProductive(g, a[1..]);
        StartsJoin(g, [a[0]], a[1..], t);
      }
    } else {
      TrueScan(g, a[1..], t);
      if t <= g.currTerm { StartsBehind(g, [a[0]], a[1..], t); }
    }
  }

  lemma FirstStarts(g: Grammar, x: Symbol, t: Symbol)
    requires g.currTerm <= MAXTERM && g.ValidSymbol(x) && t in FirstOfSymbol(TrueFirst(g), x) && t <= g.currTerm
    ensures Starts(g, [x], t)
  {
    hide Vanishes;
    if IsTerm(x) {
      ProducesToken(g, t);
      assert [t] + [] == [t];
    }
  }

  lemma TrueFirstClosed(g: Grammar)
    requires g.ValidProductions() && g.currTerm <= MAXTERM && NoFalseStart(g) && Reduced(g)
    ensures Closed(g, TrueFirst(g))
  {
    var h := TrueFirst(g);
    forall x, p | p in g.Prods(x) ensures ProdFirst(g, h, p) <= At(h, x) {
      assert g.ValidProduction(x, p);
      forall t | t in ProdFirst(g, h, p) ensures t in At(h, x) {
        if HasNonAct(p.rhs) {
          TrueScan(g, p.rhs, t);
          if t <= g.currTerm { StartsBy(g, x, p, t); }
        } else {
          ActsVanish(g, p.rhs);
          ProducesBy(g, x, p, []);
        }
      }
    }
  }

  lemma StartsBy(g: Grammar, x: Symbol, p: Production, t: Symbol)
    requires p in g.Prods(x) && IsNonterm(x) && Starts(g, p.rhs, t)
    ensures Starts(g, [x], t)
  {
    hide Produces;
    var w :| Produces(g, p.rhs, [t] + w);
    ProducesBy(g, x, p, [t] + w);
  }

  /** What the FIRST sets of a reduced grammar without false starts say is so. */
  lemma FirstIsSound(g: Grammar, f: Sets, a: seq<Symbol>)
    requires g.ValidProductions() && g.currTerm <= MAXTERM && NoFalseStart(g) && Reduced(g) && Least(g, f)
    requires g.ValidString(a)
    ensures forall t | t in Scan(g, f, a) && t != g.Epsilon() :: 1 <= t <= g.currTerm && Starts(g, a, t)
    ensures AllNullable(g, f, a) ==> Vanishes(g, a)
  {
    TrueFirstClosed(g);
    hide Starts, Reduced, NoFalseStart, Closed, Vanishes;
    ScanMonotone(g, f, TrueFirst(g), a);
    forall t | t in Scan(g, f, a) && t != g.Epsilon() ensures 1 <= t <= g.currTerm && Starts(g, a, t) {
      TrueScan(g, a, t);
    }
    if AllNullable(g, f, a) { NullableVanishes(g, a); }
  }

  lemma {:induction false} NullableVanishes(g: Grammar, a: seq<Symbol>)
    requires AllNullable(g, TrueFirst(g), a)
    ensures Vanishes(g, a)
  {
    if a == [] {
      ProducesNothing(g);
    } else {
      hide Vanishes;
      assert a[0] in a && forall x | x in a[1..] :: x in a;
      if IsAct(a[0]) {
        ActVanishes(g, a[0]);
      } else {
        assert Nullable(g, TrueFirst(g), a[0]);
      }
      NullableVanishes(g, a[1..]);
      VanishJoin(g, [a[0]], a[1..]);
      assert [a[0]] + a[1..] == a;
    }
  }

  // --------------------------------------------------------------------- FOLLOW

  /** In some form derived from the goal, what comes after `x` produces a text that begins with
      `t`, or nothing if `t` is end of input. */
  ghost predicate Follows(g: Grammar, x: Symbol, t: Symbol) {
    exists done, rest, u :: FollowsIn(g, done, x, rest, u) && Next(u) == t
  }

  ghost predicate FollowsIn(g: Grammar, done: seq<Symbol>, x: Symbol, rest: seq<Symbol>, u: seq<Symbol>) {
    InForm(g, done, x, rest) && Produces(g, rest, u)
  }

  ghost function Followers(g: Grammar, x: Symbol): set<Symbol> { set t | 0 <= t <= g.currTerm && Follows(g, x, t) }

  ghost function TrueFollow(g: Grammar): Sets {
    map x | MINNONTERM <= x <= MAXNONTERM :: Followers(g, x) + {g.Epsilon()}
  }

  /** A form with a right-hand side in place of its nonterminal. */
  lemma InnerForm(g: Grammar, done: seq<Symbol>, x: Symbol, rest: seq<Symbol>, p: Production, i: nat)
    requires InForm(g, done, x, rest) && p in g.Prods(x) && i < |p.rhs|
    ensures InForm(g, done + p.rhs[..i], p.rhs[i], p.rhs[i + 1..] + rest)
  {
    hide Derives, Step;
    var a := done + [x] + rest;
    assert a[|done|] == x;
    Spliced(done, x, rest, p.rhs);
    StepThere(g, a, |done|, p);
    DerivesStep(g, [g.goal], a, done + p.rhs + rest);
    Parts(done, p.rhs, i, rest);
  }

  lemma StepThere(g: Grammar, a: seq<Symbol>, i: nat, p: Production)
    requires i < |a| && p in g.Prods(a[i])
    ensures Step(g, a, Expand(a, i, p.rhs))
  {
    assert StepAt(g, a, i, p, Expand(a, i, p.rhs));
  }

  lemma Spliced(done: seq<Symbol>, x: Symbol, rest: seq<Symbol>, rhs: seq<Symbol>)
    ensures Expand(done + [x] + rest, |done|, rhs) == done + rhs + rest
  {
    var a := done + [x] + rest;
    assert a[..|done|] == done && a[|done| + 1..] == rest;
  }

  lemma Parts(done: seq<Symbol>, rhs: seq<Symbol>, i: nat, rest: seq<Symbol>)
    requires i < |rhs|
    ensures done + rhs + rest == done + rhs[..i] + [rhs[i]] + (rhs[i + 1..] + rest)
  {
    assert rhs == rhs[..i] + [rhs[i]] + rhs[i + 1..];
  }

  lemma RestValid(g: Grammar, done: seq<Symbol>, x: Symbol, rest: seq<Symbol>)
    requires g.Valid() && InForm(g, done, x, rest)
    ensures g.ValidString(rest) && g.ValidSymbol(x)
  {
    var a := done + [x] + rest;
    var n: nat :| DerivesIn(g, [g.goal], a, n);
    DerivesValid(g, [g.goal], a, n);
    assert a[|done|] == x;
    forall y | y in rest ensures g.ValidSymbol(y) {
      var j :| 0 <= j < |rest| && rest[j] == y;
      assert a[|done| + 1 + j] == y;
    }
  }

  lemma TrueFollowInit(g: Grammar, f: Sets, x: Symbol, p: Production, i: nat)
    requires g.Valid() && NoFalseStart(g) && Reduced(g) && Least(g, f) && p in g.Prods(x) && i < |p.rhs|
    ensures InitRule(g, f, TrueFollow(g), p.rhs, i)
  {
    hide NoFalseStart, Least, Reduced, Grammar.UniqueNumbers, Produces, Scan;
    assert g.ValidProduction(x, p);
    var b := p.rhs[i + 1..];
    FirstIsSound(g, f, b);
    var done, rest := Reach(g, x);
    RestValid(g, done, x, rest);
    StringProductive(g, rest);
    InnerForm(g, done, x, rest, p, i);
    forall t | IsNonterm(p.rhs[i]) && t in Scan(g, f, b) ensures t in At(TrueFollow(g), p.rhs[i]) {
      if t != g.Epsilon() {
        StartsJoin(g, b, rest, t);
        var w :| Produces(g, b + rest, [t] + w);
        assert FollowsIn(g, done + p.rhs[..i], p.rhs[i], b + rest, [t] + w) && Next([t] + w) == t;
      }
    }
  }

  lemma Reach(g: Grammar, x: Symbol) returns (done: seq<Symbol>, rest: seq<Symbol>)
    requires Reduced(g) && IsNonterm(x) && g.ValidSymbol(x)
    ensures InForm(g, done, x, rest)
  {
    done, rest :| InForm(g, done, x, rest);
  }

  lemma TrueFollowClosure(g: Grammar, f: Sets, x: Symbol, p: Production, i: nat)
    requires g.Valid() && NoFalseStart(g) && Reduced(g) && Least(g, f) && p in g.Prods(x) && i < |p.rhs|
    ensures ClosureRule(g, f, TrueFollow(g), x, p.rhs, i)
  {
    hide NoFalseStart, Least, Reduced, Grammar.UniqueNumbers, Produces, Scan;
    assert g.ValidProduction(x, p);
    var b := p.rhs[i + 1..];
    FirstIsSound(g, f, b);
    if IsNonterm(p.rhs[i]) && AllNullable(g, f, b) {
      forall t | t in At(TrueFollow(g), x) ensures t in At(TrueFollow(g), p.rhs[i]) {
        if t != g.Epsilon() {
          var done, rest, u :| FollowsIn(g, done, x, rest, u) && Next(u) == t;
          InnerForm(g, done, x, rest, p, i);
          ProducesJoin(g, b, [], rest, u);
          assert [] + u == u;
          assert FollowsIn(g, done + p.rhs[..i], p.rhs[i], b + rest, u);
        }
      }
    }
  }

  lemma TrueFollowClosed(g: Grammar, f: Sets)
    requires g.Valid() && NoFalseStart(g) && Reduced(g) && Least(g, f)
    ensures FollowClosed(g, f, TrueFollow(g))
  {
    hide NoFalseStart, Least, Reduced, Grammar.UniqueNumbers, InitRule, ClosureRule, Produces;
    forall x ensures InitDone(g, f, TrueFollow(g), x) && ClosureDone(g, f, TrueFollow(g), x) {
      if x == g.goal { GoalFollowed(g); }
      forall p, i | p in g.Prods(x) && 0 <= i < |p.rhs| ensures InitRule(g, f, TrueFollow(g), p.rhs, i) {
        TrueFollowInit(g, f, x, p, i);
      }
      forall p, i | p in g.Prods(x) && 0 <= i < |p.rhs| ensures ClosureRule(g, f, TrueFollow(g), x, p.rhs, i) {
        TrueFollowClosure(g, f, x, p, i);
      }
    }
  }

  lemma GoalFollowed(g: Grammar)
    requires g.Valid()
    ensures EOI in At(TrueFollow(g), g.goal)
  {
    DerivesRefl(g, [g.goal]);
    assert [] + [g.goal] + [] == [g.goal];
    ProducesNothing(g);
    assert FollowsIn(g, [], g.goal, [], []) && Next([]) == EOI;
  }

  // --------------------------------------------------------------- the LL(1) property

  /** With `x` next and `rest` behind it, both productions can go on, on texts that begin with
      the same token. */
  ghost predicate Undecided(g: Grammar, done: seq<Symbol>, x: Symbol, rest: seq<Symbol>, p: Production, q: Production,
                            u: seq<Symbol>, v: seq<Symbol>)
  {
    InForm(g, done, x, rest) && Produces(g, p.rhs + rest, u) && Produces(g, q.rhs + rest, v) && Next(u) == Next(v)
  }

  /** One token of lookahead always decides between the productions of a nonterminal. */
  ghost predicate Decided(g: Grammar, x: Symbol, p: Production, q: Production) {
    forall done, rest, u, v :: !Undecided(g, done, x, rest, p, q, u, v)
  }

  /** The grammar is LL(1), in terms of its derivations. */
  ghost predicate IsLL1(g: Grammar) {
    forall x, i, j | 0 <= i < j < |g.Prods(x)| :: Decided(g, x, g.Prods(x)[i], g.Prods(x)[j])
  }

  lemma TokensProduced(g: Grammar, a: seq<Symbol>, w: seq<Symbol>)
    requires g.ValidProductions() && g.currTerm <= MAXTERM && g.ValidString(a) && Produces(g, a, w)
    ensures forall t | t in w :: MINTERM <= t <= g.currTerm
  {
    hide Leftmost, Grammar.ValidProductions;
    var n: nat :| Leftmost(g, a, w, n);
    var b, k := LeftmostDerives(g, a, w, n);
    DerivesValid(g, a, b, k);
    EraseTokens(g, b);
  }

  /** If no conflict is reported the grammar is LL(1). */
  lemma NoConflictIsLL1(g: Grammar, f: Sets, w: Sets, select: Selects)
    requires g.Valid() && Analysed(g, f, w, select) && ConflictFree(g, select)
    ensures IsLL1(g)
  {
    hide Analysed, Undecided, Grammar.Valid;
    forall x, i, j | 0 <= i < j < |g.Prods(x)| ensures Decided(g, x, g.Prods(x)[i], g.Prods(x)[j]) {
      forall done, rest, u, v ensures !Undecided(g, done, x, rest, g.Prods(x)[i], g.Prods(x)[j], u, v) {
        assert !Clash(select, g.Prods(x));
        if Undecided(g, done, x, rest, g.Prods(x)[i], g.Prods(x)[j], u, v) {
          UndecidedClash(g, f, w, select, done, x, rest, i, j, u, v);
        }
      }
    }
  }

  lemma UndecidedClash(g: Grammar, f: Sets, w: Sets, select: Selects, done: seq<Symbol>, x: Symbol, rest: seq<Symbol>,
        i: nat, j: nat,
                       u: seq<Symbol>, v: seq<Symbol>)
    requires g.Valid() && Analysed(g, f, w, select) && i < j < |g.Prods(x)|
    requires Undecided(g, done, x, rest, g.Prods(x)[i], g.Prods(x)[j], u, v)
    ensures Clash(select, g.Prods(x))
  {
    hide Grammar.Valid, Analysed;
    NextSelected(g, f, w, select, done, x, rest, g.Prods(x)[i], u);
    NextSelected(g, f, w, select, done, x, rest, g.Prods(x)[j], v);
  }

  lemma NextSelected(g: Grammar, f: Sets, w: Sets, select: Selects, done: seq<Symbol>, x: Symbol, rest: seq<Symbol>,
        p: Production, u: seq<Symbol>)
    requires g.Valid() && Analysed(g, f, w, select) && p in g.Prods(x)
    requires InForm(g, done, x, rest) && Produces(g, p.rhs + rest, u)
    ensures Next(u) in Tokens(select, p)
  {
    hide Leftmost, SelectOf, FollowClosed, Closed, InRange;
    assert g.ValidProduction(x, p);
    RestValid(g, done, x, rest);
    TokensProduced(g, p.rhs + rest, u);
    var n: nat :| Leftmost(g, p.rhs + rest, u, n);
    SelectIsComplete(g, f, w, done, x, rest, p, u, n);
    assert Selected(g, f, NoEpsilon(g, w), select, x);
  }

  // ----------------------------------------------------------- exactly the LL(1) grammars

  /** Why a token selects a production. */
  lemma SelectedSoundly(g: Grammar, f: Sets, w: Sets, x: Symbol, p: Production, t: Symbol)
    requires g.Valid() && NoFalseStart(g) && Reduced(g) && Least(g, f) && FollowLeast(g, f, w)
    requires p in g.Prods(x) && t in SelectOf(g, f, NoEpsilon(g, w), p)
    ensures Starts(g, p.rhs, t) || (Vanishes(g, p.rhs) && Follows(g, x, t))
    ensures Starts(g, p.rhs, t) ==> t != EOI
  {
    hide NoFalseStart, Reduced, Least, Starts, Vanishes, Follows, Scan, AllNullable, Grammar.UniqueNumbers;
    assert g.ValidProduction(x, p);
    FirstIsSound(g, f, p.rhs);
    if t in Scan(g, f, p.rhs) {
    } else {
      AtNoEpsilon(g, w, x);
      TrueFollowClosed(g, f);
      FollowIsSound(g, f, w, x, t);
      if Starts(g, p.rhs, t) { StartsToken(g, p.rhs, t); }
    }
  }

  lemma FollowIsSound(g: Grammar, f: Sets, w: Sets, x: Symbol, t: Symbol)
    requires FollowLeast(g, f, w) && FollowClosed(g, f, TrueFollow(g)) && t in At(w, x) && t != g.Epsilon()
    ensures Follows(g, x, t)
  {
    hide FollowClosed, Follows;
    assert Leq(w, TrueFollow(g));
    assert t in At(TrueFollow(g), x);
  }

  lemma StartsToken(g: Grammar, a: seq<Symbol>, t: Symbol)
    requires g.ValidProductions() && g.currTerm <= MAXTERM && g.ValidString(a) && Starts(g, a, t)
    ensures t != EOI
  {
    hide Produces;
    var w :| Produces(g, a, [t] + w);
    TokensProduced(g, a, [t] + w);
    assert ([t] + w)[0] in [t] + w;
  }

  /** A production selected by `t` can go on with it wherever the reason for it holds. */
  lemma GoesOn(g: Grammar, done: seq<Symbol>, x: Symbol, rest: seq<Symbol>, r: seq<Symbol>, p: Production, t: Symbol)
    returns (u: seq<Symbol>)
    requires Produces(g, rest, r) && (Starts(g, p.rhs, t) || (Vanishes(g, p.rhs) && Next(r) == t))
    ensures Produces(g, p.rhs + rest, u) && Next(u) == t
  {
    hide Produces;
    if Starts(g, p.rhs, t) {
      var w :| Produces(g, p.rhs, [t] + w);
      ProducesJoin(g, p.rhs, [t] + w, rest, r);
      u := [t] + w + r;
    } else {
      ProducesJoin(g, p.rhs, [], rest, r);
      assert [] + r == r;
      u := r;
    }
  }

  /** Two productions that share a token cannot be told apart. */
  lemma ClashUndecided(g: Grammar, f: Sets, w: Sets, x: Symbol, p: Production, q: Production, t: Symbol)
    requires g.Valid() && NoFalseStart(g) && Reduced(g) && Least(g, f) && FollowLeast(g, f, w)
    requires p in g.Prods(x) && q in g.Prods(x)
    requires t in SelectOf(g, f, NoEpsilon(g, w), p) && t in SelectOf(g, f, NoEpsilon(g, w), q)
    ensures !Decided(g, x, p, q)
  {
    SelectedSoundly(g, f, w, x, p, t);
    SelectedSoundly(g, f, w, x, q, t);
    assert g.ValidProduction(x, p);
    hide NoFalseStart, Least, Starts, Vanishes, Produces, Grammar.Valid, SelectOf, FollowLeast, InForm;
    var done, rest, r;
    if Starts(g, p.rhs, t) && Starts(g, q.rhs, t) {
      done, rest := Reach(g, x);
      RestValid(g, done, x, rest);
      RestProductive(g, rest);
      r :| Produces(g, rest, r);
    } else {
      done, rest, r :| FollowsIn(g, done, x, rest, r) && Next(r) == t;
    }
    var u := GoesOn(g, done, x, rest, r, p, t);
    var v := GoesOn(g, done, x, rest, r, q, t);
    assert Undecided(g, done, x, rest, p, q, u, v);
  }

  lemma RestProductive(g: Grammar, rest: seq<Symbol>)
    requires g.Valid() && Reduced(g) && g.ValidString(rest)
    ensures Productive(g, rest)
  {
    StringProductive(g, rest);
  }

  /** For reduced grammars without false starts, conflicts are reported exactly for those that
      are not LL(1). */
  lemma ConflictsExact(g: Grammar, f: Sets, w: Sets, select: Selects)
    requires g.Valid() && Analysed(g, f, w, select) && Least(g, f) && FollowLeast(g, f, w) && NoFalseStart(g)
    requires Reduced(g)
    ensures ConflictFree(g, select) <==> IsLL1(g)
  {
    hide NoFalseStart, Reduced, Least, FollowLeast, Grammar.Valid, SelectOf, Decided;
    if ConflictFree(g, select) { NoConflictIsLL1(g, f, w, select); }
    if IsLL1(g) {
      forall x ensures !Clash(select, g.Prods(x)) {
        var chain := g.Prods(x);
        assert Selected(g, f, NoEpsilon(g, w), select, x);
        if i, j, t :| 0 <= i < j < |chain| && t in Tokens(select, chain[i]) && t in Tokens(select, chain[j]) {
          ClashUndecided(g, f, w, x, chain[i], chain[j], t);
        }
      }
    }
  }

  // ------------------------------------------------------------------- an example

  /** S: A | ; A: B c; B: b | ; with b and c as tokens 1 and 2. */
  function Example(): Grammar {
    Grammar(2, 258, 256, [256, 257, 258],
            map[256 := [Production(0, 256, [257]), Production(1, 256, [])],
                257 := [Production(2, 257, [258, 2])],
                258 := [Production(3, 258, [1]), Production(4, 258, [])]])
  }

  /** All forms derived from the goal. */
  predicate ExampleForm(a: seq<Symbol>) {
    a == [256] || a == [257] || a == [] || a == [258, 2] || a == [1, 2] || a == [2]
  }

  lemma ExampleProds(x: Symbol, p: Production)
    requires p in Example().Prods(x)
    ensures x == 256 ==> p.rhs == [257] || p.rhs == []
    ensures x == 257 ==> p.rhs == [258, 2]
    ensures x == 258 ==> p.rhs == [1] || p.rhs == []
    ensures 256 <= x <= 258 && p.lhs == x
  {
  }

  lemma {:induction false} ExampleForms(a: seq<Symbol>, n: nat)
    requires DerivesIn(Example(), [256], a, n)
    ensures ExampleForm(a)
    decreases n
  {
    hide Example, ExampleForm, Step;
    FirstForm();
    if n > 0 {
      var c :| DerivesIn(Example(), [256], c, n - 1) && Step(Example(), c, a);
      ExampleForms(c, n - 1);
      var i, p := AStep(Example(), c, a);
      ExampleProds(c[i], p);
      NextForm(c, i, p.rhs, a);
    }
  }

  lemma FirstForm()
    ensures ExampleForm([256])
  {
  }

  lemma AStep(g: Grammar, c: seq<Symbol>, a: seq<Symbol>) returns (i: nat, p: Production)
    requires Step(g, c, a)
    ensures i < |c| && p in g.Prods(c[i]) && a == Expand(c, i, p.rhs)
  {
    i, p :| StepAt(g, c, i, p, a);
  }

  lemma NextForm(c: seq<Symbol>, i: nat, rhs: seq<Symbol>, a: seq<Symbol>)
    requires ExampleForm(c) && i < |c| && 256 <= c[i] <= 258 && a == Expand(c, i, rhs)
    requires c[i] == 256 ==> rhs == [257] || rhs == []
    requires c[i] == 257 ==> rhs == [258, 2]
    requires c[i] == 258 ==> rhs == [1] || rhs == []
    ensures ExampleForm(a)
  {
    assert i == 0;
    assert c[..0] == [] && a == rhs + c[1..];
    if c == [258, 2] {
      assert c[1..] == [2] && [1] + [2] == [1, 2] && [] + [2] == [2];
    } else {
      assert c[1..] == [] && rhs + [] == rhs;
    }
  }

  /** What the productions of A and B begin with. */
  lemma ExampleTexts(x: Symbol, p: Production, rest: seq<Symbol>, u: seq<Symbol>)
    requires p in Example().Prods(x) && Produces(Example(), p.rhs + rest, u)
    ensures x == 258 && rest == [2] ==> u != [] && u[0] == if p.rhs == [1] then 1 else 2
  {
    ExampleProds(x, p);
    if x == 258 && rest == [2] {
      var n: nat :| Leftmost(Example(), p.rhs + rest, u, n);
      assert p.rhs == [] ==> p.rhs + rest == [2];
    }
  }

  lemma ExampleA(u: seq<Symbol>)
    requires Produces(Example(), [257], u)
    ensures u != [] && 1 <= u[0] <= 2
  {
    var n: nat :| Leftmost(Example(), [257], u, n);
    var p :| p in Example().Prods(257) && Leftmost(Example(), p.rhs + [257][1..], u, n - 1);
    assert p.rhs + [257][1..] == [258, 2];
    var q :| q in Example().Prods(258) && Leftmost(Example(), q.rhs + [258, 2][1..], u, n - 2);
    assert [258, 2][1..] == [2];
    ExampleTexts(258, q, [2], u);
  }

  lemma ExampleDecided(x: Symbol, i: nat, j: nat, done: seq<Symbol>, rest: seq<Symbol>, u: seq<Symbol>, v: seq<Symbol>)
    requires i < j < |Example().Prods(x)|
    ensures !Undecided(Example(), done, x, rest, Example().Prods(x)[i], Example().Prods(x)[j], u, v)
  {
    var p, q := Example().Prods(x)[i], Example().Prods(x)[j];
    assert [257] + [] == [257];
    if Undecided(Example(), done, x, rest, p, q, u, v) {
      var n: nat :| DerivesIn(Example(), [256], done + [x] + rest, n);
      ExampleForms(done + [x] + rest, n);
      assert (done + [x] + rest)[|done|] == x && (done + [x] + rest)[|done| + 1..] == rest;
      ExampleTexts(x, p, rest, u);
      ExampleTexts(x, q, rest, v);
      if x == 256 { ExampleA(u); }
    }
  }

  /** This grammar is LL(1), but a conflict is reported for it: A has a false start. */
  lemma ReportedThoughLL1(f: Sets, w: Sets, select: Selects)
    requires Analysed(Example(), f, w, select)
    ensures Usable(Example()) && IsLL1(Example()) && !ConflictFree(Example(), select) && !NoFalseStart(Example())
  {
    ExampleUsable();
    ExampleClash(f, w, select);
    ExampleFalseStart();
    hide Example, Undecided, Analysed, Usable, ConflictFree, NoFalseStart;
    forall x, i, j | 0 <= i < j < |Example().Prods(x)|
      ensures Decided(Example(), x, Example().Prods(x)[i], Example().Prods(x)[j])
    {
      forall done, rest, u, v
        ensures !Undecided(Example(), done, x, rest, Example().Prods(x)[i], Example().Prods(x)[j], u, v)
      {
        ExampleDecided(x, i, j, done, rest, u, v);
      }
    }
  }

  lemma ExampleUsable()
    ensures Usable(Example())
  {
    var g := Example();
    forall x, p | p in g.Prods(x) ensures g.ValidProduction(x, p) && p.num < 255 {
      ExampleProds(x, p);
    }
    forall x, y, p, q | p in g.Prods(x) && q in g.Prods(y) && p.num == q.num ensures p == q {
      ByNumber(x, p);
      ByNumber(y, q);
    }
    ExampleSymbols();
    hide Example, Grammar.ValidProduction;
    assert g.ValidProductions();
    assert g.UniqueNumbers();
  }

  lemma ByNumber(x: Symbol, p: Production)
    requires p in Example().Prods(x)
    ensures p.num < 5 && p == [Production(0, 256, [257]), Production(1, 256, []), Production(2, 257, [258, 2]),
                               Production(3, 258, [1]), Production(4, 258, [])][p.num]
  {
  }

  lemma ExampleSymbols()
    ensures var g := Example();
      && g.currTerm == 2 && g.currNonterm == 258 && g.goal == 256 && g.DistinctSymbols() && g.ValidString(g.symtab)
      && (forall x | x in g.chains :: IsNonterm(x) && g.ValidSymbol(x)) && forall x | 256 <= x <= 258 :: x in g.symtab
  {
    assert Example().symtab == [256, 257, 258];
    assert [256, 257, 258][0] == 256 && [256, 257, 258][1] == 257 && [256, 257, 258][2] == 258;
  }

  lemma ExampleFalseStart()
    ensures !NoFalseStart(Example())
  {
    var g := Example();
    var p := g.Prods(257)[0];
    assert p in g.Prods(257) && Head(p.rhs) == [258];
    ProducesNothing(g);
    assert g.Prods(258)[1] in g.Prods(258);
    ProducesBy(g, 258, g.Prods(258)[1], []);
    if Vanishes(g, [257]) { ExampleA([]); }
  }

  lemma ExampleClash(f: Sets, w: Sets, select: Selects)
    requires Analysed(Example(), f, w, select)
    ensures !ConflictFree(Example(), select)
  {
    var g := Example();
    var p, q := g.Prods(256)[0], g.Prods(256)[1];
    assert g.Prods(258)[1] in g.Prods(258) && ProdFirst(g, f, g.Prods(258)[1]) == {3};
    assert g.Prods(257)[0] in g.Prods(257) && ProdFirst(g, f, g.Prods(257)[0]) <= At(f, 257);
    assert 258 in g.Prods(257)[0].rhs && At(f, 258) <= Scan(g, f, [258, 2]);
    assert InitDone(g, f, w, 256);
    AtNoEpsilon(g, w, 256);
    assert Selected(g, f, NoEpsilon(g, w), select, 256) && p in g.Prods(256) && q in g.Prods(256);
    assert 0 in Tokens(select, p) && 0 in Tokens(select, q);
    assert Clash(select, g.Prods(256));
  }
}
