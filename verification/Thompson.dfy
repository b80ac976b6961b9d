/** The recursive-descent builder of compiler/lex/nfa.c: it allocates, overwrites and
    recycles nodes of one array while it reads a regular expression. */
module Thompson {
  import opened Options
  import opened Nfa
  import opened Regex
  import opened Fragments
  import opened NfaRules
  import opened SetFacts
  import opened Layouts

  /** A node nobody uses has no transitions and accepts nothing. */
  predicate Blank(n: Node) { n.next == NONE && n.next2 == NONE && n.accept == NONE }

  /** The parts are the rules as they were written, with the addresses of their actions. */
  predicate AsWritten(lines: seq<Line>, parts: seq<Part>, unix: bool) {
    && |parts| <= |lines|
    && forall i | 0 <= i < |parts| ::
         ParseRule(lines[i].tokens, unix) == Some(parts[i].rule) && parts[i].accept == Address(lines, i)
  }

  /** Rule `k` has been laid out in its turn. */
  predicate LaidAt(lines: seq<Line>, unix: bool, k: nat, e: int) {
    WellFormed(lines, unix, k + 1) && LayRules(lines, unix, k + 1).Left? && LayRules(lines, unix, k + 1).end == e
  }

  predicate LaidOut(lines: seq<Line>, unix: bool, parts: seq<Part>) {
    forall k | 0 <= k < |parts| :: LaidAt(lines, unix, k, parts[k].e)
  }

  lemma NextLine(lines: seq<Line>, unix: bool, i: nat)
    requires WellFormed(lines, unix, i) && LayRules(lines, unix, i).Left?
    ensures i < |lines| && ParseRule(lines[i].tokens, unix).Some? ==> WellFormed(lines, unix, i + 1)
    ensures WellFormed(lines, unix, i + 1) ==>
      ParseRule(lines[i].tokens, unix).Some? &&
      LayRules(lines, unix, i + 1) == LayNext(lines, unix, i, LayRules(lines, unix, i))
  {
    hide ParseRule, LayNext;
  }

  lemma LaidNext(lines: seq<Line>, unix: bool, parts: seq<Part>, part: Part)
    requires LaidOut(lines, unix, parts) && LaidAt(lines, unix, |parts|, part.e)
    ensures LaidOut(lines, unix, parts + [part])
  {
    hide LaidAt;
    var all := parts + [part];
    forall k | 0 <= k < |all| ensures LaidAt(lines, unix, k, all[k].e) {
      if k < |parts| { assert all[k] == parts[k]; }
    }
  }

  /** The node array, the nodes in use, and the array with the stack of the other nodes. */
  datatype State = State(m: Machine, live: set<int>, store: Store)

  /** From `a` to `b` the nodes `f` have come into use, `f1` among them already before;
      all other nodes in use have not been touched. */
  ghost predicate Grown(a: State, b: State, f1: set<int>, f: set<int>) {
    f1 <= f && f !! a.live - f1 && b.live == a.live + f && Agree(a.m, b.m, a.live - f1)
  }

  /** What every parsing routine does: it reads from the line what the grammar says and
      leaves a fragment for it, made of nodes that were not in use. */
  ghost predicate Built(a: State, b: State, o: Outcome, parse: Option<(Regex, Tokens)>, ts: Tokens, s: nat, e: nat,
        f: set<int>, r: Regex) {
    && (o == Malformed ==> parse == None)
    && (parse.Some? ==> o == Lay(parse.value.0, a.store).Result())
    && (o == Fine ==> parse == Some((r, ts)) && Fragment(b.m, f, s, e, r) && Grown(a, b, {}, f))
    && (o == Fine ==> Lay(r, a.store) == Left(b.store, s, e))
  }

  /** The same for a step that extends the fragment `f1` from `s1` to `e1` with what `parse` reads. */
  ghost predicate Extended(a: State, b: State, o: Outcome, parse: Option<(Regex, Tokens)>, ts: Tokens, f1: set<int>,
        s1: nat, e1: nat, s: nat, e: nat, f: set<int>, r: Regex, joined: Regex -> Regex, joint: Joint) {
    && (o == Malformed ==> parse == None)
    && (parse.Some? ==> o == Combine(joint, s1, e1, Lay(parse.value.0, a.store)).Result())
    && (o == Fine && parse.Some? ==> Combine(joint, s1, e1, Lay(parse.value.0, a.store)) == Left(b.store, s, e))
    && (o == Fine ==> parse.Some? && ts == parse.value.1 && r == joined(parse.value.0) &&
                      Fragment(b.m, f, s, e, r) && Grown(a, b, f1, f))
  }

  class Builder {
    const nodes: array<Node>
    const unix: bool
    var discarded: seq<nat>
    var nextAlloc: nat
    var nstates: int
    var ts: Tokens  // what is left of the current line
    var saved: nat  // the next free word of the memory for actions
    ghost var live: set<int>

    ghost predicate Valid()
      reads `discarded, `nextAlloc, `nstates, `live, nodes
    {
      && nodes.Length == NFA_MAX && nextAlloc < NFA_MAX
      && nstates == nextAlloc - |discarded| && |discarded| <= STACK_SIZE
      && (forall i, j | 0 <= i < j < |discarded| :: discarded[i] != discarded[j])
      && (forall i | 0 <= i < |discarded| ::
            discarded[i] < nextAlloc && discarded[i] !in live && nodes[discarded[i]] == BLANK)
      && (forall n | n in live :: 0 <= n < nextAlloc)
      && (forall n | 0 <= n < nextAlloc && n !in live :: n in discarded)
      && (forall n | 0 <= n < nodes.Length && n !in live :: Blank(nodes[n]))
    }

    ghost function S(): State
      reads `live, `discarded, `nextAlloc, nodes
    {
      State(nodes[..], live, Layout())
    }

    function Layout(): Store
      reads `discarded, `nextAlloc, nodes
    {
      Store(nodes[..], nextAlloc, discarded)
    }

    /** All nodes in use are counted. */
    lemma InUse()
      requires Valid()
      ensures nstates == |live|
    {
      InUseOf(nextAlloc, live, discarded);
    }

    constructor (unix: bool)
      ensures Valid() && live == {} && saved == 0 && Layout() == EmptyStore() && this.unix == unix && fresh(nodes)
    {
      this.unix := unix;
      nodes := new Node[NFA_MAX](_ => BLANK.(edge := 0));
      discarded, nextAlloc, nstates, ts, saved, live := [], 0, 0, [], 0, {};
    }

    /** There is no node left exactly if all but one of the array are in use. */
    lemma NoneLeft()
      requires Valid()
      ensures TakeNode(Layout()).Lacks? <==> |live| >= NFA_MAX - 1
    {
      InUse();
    }

    /** new: a recycled node if there is one, else the next of the array. */
    method New() returns (o: Outcome, p: nat)
      requires Valid()
      modifies this`discarded, this`nextAlloc, this`nstates, this`live, nodes
      ensures o == TakeNode(old(Layout())).Result()
      ensures o == Fine ==> TakeNode(old(Layout())) == Left(Layout(), p, p)
      ensures o == Fine ==>
        && Valid() && p !in old(live) && p < NFA_MAX && live == old(live) + {p}
        && nodes[..] == old(nodes[..])[p := nodes[p]]
        && Dead(nodes[p]) && nodes[p].accept == NONE
    {
      p := 0;
      if nstates + 1 >= NFA_MAX { return Exceeds(TooLong), p; }
      nstates := nstates + 1;
      if discarded == [] {
        p := nextAlloc;
        nextAlloc := nextAlloc + 1;
      } else {
        p := discarded[|discarded| - 1];
        discarded := discarded[..|discarded| - 1];
      }
      nodes[p] := nodes[p].(edge := EPSILON);
      live := live + {p};
      o := Fine;
    }

    /** discard: wipe a node and put it on the stack of nodes to use again. */
    method Discard(n: nat) returns (o: Outcome)
      requires Valid() && n in live
      modifies this`discarded, this`nstates, this`live, nodes
      ensures o == PutBack(old(Layout()), n).Result() && (o != Fine <==> |old(discarded)| >= 32)
      ensures o == Fine ==> PutBack(old(Layout()), n) == Left(Layout(), n, n)
      ensures o == Fine ==> Valid() && live == old(live) - {n} && nodes[..] == old(nodes[..])[n := BLANK]
    {
      if |discarded| == STACK_SIZE { return Exceeds(StackFull); }
      nstates := nstates - 1;
      nodes[n] := BLANK;
      discarded := discarded + [n];
      live := live - {n};
      o := Fine;
    }

    method Advance()
      modifies this`ts
      ensures ts == if old(ts) == [] then [] else old(ts)[1..]
    {
      if ts != [] { ts := ts[1..]; }
    }

    /** expr: alternatives, joined in front and behind. */
    method Expr() returns (o: Outcome, s: nat, e: nat, ghost f: set<int>, ghost r: Regex)
      requires Valid()
      modifies this`discarded, this`nextAlloc, this`nstates, this`live, this`ts, nodes
      ensures o == Fine ==> Valid()
      ensures Built(old(S()), S(), o, ParseExpr(old(ts), unix), ts, s, e, f, r)
      decreases |ts|, 3
    {
      hide Builder.Valid, Fragment, Combine;
      ghost var start, a := ts, S();
      o, s, e, f, r := CatExpr();
      if o != Fine {
        if ParseExpr(start, unix).Some? { ExprLacks(start, unix, a.store); }
        return;
      }
      while Current(ts).kind == OR
        invariant |ts| < |start| && Valid() && Fragment(nodes[..], f, s, e, r)
        invariant ParseAlts(r, ts, unix) == ParseExpr(start, unix) && Lay(r, a.store) == Left(Layout(), s, e)
        invariant Grown(a, S(), {}, f)
        decreases |ts|
      {
        ghost var ts0, r0 := ts, r;
        Advance();
        ghost var b, f1 := S(), f;
        o, s, e, f, r := Alternative(s, e, f, r);
        if o != Fine {
          if ParseAlts(r0, ts0, unix).Some? { NextAltLacks(r0, ts0, unix, a.store); }
          return;
        }
        GrownTrans(a, b, S(), f1, f);
      }
      o := Fine;
    }

    /** The body of the loop of expr. */
    method Alternative(s1: nat, e1: nat, ghost f1: set<int>, ghost r1: Regex)
      returns (o: Outcome, p: nat, q: nat, ghost f: set<int>, ghost r: Regex)
      requires Valid() && f1 <= live && Fragment(nodes[..], f1, s1, e1, r1)
      modifies this`discarded, this`nextAlloc, this`nstates, this`live, this`ts, nodes
      ensures o == Fine ==> Valid()
      ensures Extended(old(S()), S(), o, ParseCat(old(ts), unix), ts, f1, s1, e1, p, q, f, r,
                       r2 => Alt(r1, r2), Beside)
      decreases |ts|, 4
    {
      hide Builder.Valid, Fragment, ParseCat;
      p, q, f, r := 0, 0, {}, r1;
      var s2, e2;
      ghost var a, f2, r2 := S(), {}, r1;
      o, s2, e2, f2, r2 := CatExpr();
      if o != Fine { return; }
      ghost var b := S();
      FragmentKept(a.m, b.m, f1, s1, e1, r1);
      o, p, q, f := Join(s1, e1, f1, r1, s2, e2, f2, r2);
      if o != Fine { return; }
      r := Alt(r1, r2);
      GrownBoth(a, b, S(), f1, f2, f);
    }

    /** The new start and end of an alternation, and their links. */
    method Join(s1: nat, e1: nat, ghost f1: set<int>, ghost r1: Regex, s2: nat, e2: nat, ghost f2: set<int>,
          ghost r2: Regex)
      returns (o: Outcome, p: nat, q: nat, ghost f: set<int>)
      requires Valid() && f1 + f2 <= live && f1 !! f2
      requires Fragment(nodes[..], f1, s1, e1, r1) && Fragment(nodes[..], f2, s2, e2, r2)
      modifies this`discarded, this`nextAlloc, this`nstates, this`live, nodes
      ensures o == Layouts.Join(s1, e1, s2, e2, old(Layout())).Result()
      ensures o == Fine ==> Layouts.Join(s1, e1, s2, e2, old(Layout())) == Left(Layout(), p, q)
      ensures o == Fine ==> Valid() && Fragment(nodes[..], f, p, q, Alt(r1, r2)) && Grown(old(S()), S(), f1 + f2, f)
    {
      hide Builder.Valid, Fragment, IsAlt, Store.Link, Store.LinkBoth, Store.Put, Store.At, TakeNode;
      p, q, f := 0, 0, {};
      ghost var b := S();
      FragmentEnds(b.m, f1, s1, e1, r1);
      FragmentEnds(b.m, f2, s2, e2, r2);
      o, p := New();
      if o != Fine { return; }
      SetBoth(p, s1, s2);
      ghost var c := S();
      o, q := New();
      if o != Fine { return; }
      ghost var d := S();
      SetNext(e1, q);
      SetNext(e2, q);
      f := f1 + f2 + {p, q};
      AltLinks(b.m, c.m, d.m, nodes[..], f1, s1, e1, f2, s2, e2, p, q);
      Alternate(b.m, nodes[..], f1, s1, e1, r1, f2, s2, e2, r2, p, q);
    }

    /** Assignments to the links of a node in use. */
    method SetNext(n: nat, next: int)
      requires Valid() && n in live
      modifies nodes
      ensures Valid() && n < NFA_MAX && nodes[..] == old(nodes[..])[n := old(nodes[n]).(next := next)]
      ensures Layout() == old(Layout()).Link(n, next)
    {
      nodes[n] := nodes[n].(next := next);
    }

    method SetBoth(n: nat, next: int, next2: int)
      requires Valid() && n in live
      modifies nodes
      ensures Valid() && n < NFA_MAX && nodes[..] == old(nodes[..])[n := old(nodes[n]).(next := next, next2 := next2)]
      ensures Layout() == old(Layout()).LinkBoth(n, next, next2)
    {
      nodes[n] := nodes[n].(next := next, next2 := next2);
    }

    method CatExpr() returns (o: Outcome, s: nat, e: nat, ghost f: set<int>, ghost r: Regex)
      requires Valid()
      modifies this`discarded, this`nextAlloc, this`nstates, this`live, this`ts, nodes
      ensures o == Fine ==> Valid()
      ensures Built(old(S()), S(), o, ParseCat(old(ts), unix), ts, s, e, f, r)
      decreases |ts|, 2
    {
      ghost var start, a := ts, S();
      s, e, f, r := 0, 0, {}, Star(Chars(CharSet({}, false)));
      if FirstInCat(Current(ts)) != Some(true) { return Malformed, s, e, f, r; }
      o, s, e, f, r := Factor();
      if o != Fine {
        if ParseCat(start, unix).Some? {
          var (r2, rest) := ParseFactor(start, unix).value;
          CatsLack(r2, rest, unix, a.store);
        }
        return;
      }
      hide Builder.Valid, Fragment, Combine;
      while FirstInCat(Current(ts)) == Some(true)
        invariant |ts| < |start| && Valid() && Fragment(nodes[..], f, s, e, r)
        invariant ParseCats(r, ts, unix) == ParseCat(start, unix) && Lay(r, a.store) == Left(Layout(), s, e)
        invariant Grown(a, S(), {}, f)
        decreases |ts|
      {
        ghost var b, f1, ts0, r0 := S(), f, ts, r;
        o, e, f, r := AppendFactor(s, e, f, r);
        if o != Fine {
          if ParseCats(r0, ts0, unix).Some? {
            var (r2, rest) := ParseFactor(ts0, unix).value;
            CatsLack(Cat(r0, r2), rest, unix, a.store);
          }
          return;
        }
        GrownTrans(a, b, S(), f1, f);
      }
      o := if FirstInCat(Current(ts)) == None then Malformed else Fine;
    }

    /** The body of the loop of cat_expr: the start of the next factor is copied over the
        end of what there is, and thrown away. */
    method AppendFactor(ghost s1: nat, e1: nat, ghost f1: set<int>, ghost r1: Regex)
      returns (o: Outcome, e: nat, ghost f: set<int>, ghost r: Regex)
      requires Valid() && f1 <= live && Fragment(nodes[..], f1, s1, e1, r1) && FirstInCat(Current(ts)) == Some(true)
      modifies this`discarded, this`nextAlloc, this`nstates, this`live, this`ts, nodes
      ensures o == Fine ==> Valid()
      ensures Extended(old(S()), S(), o, ParseFactor(old(ts), unix), ts, f1, s1, e1, s1, e, f, r,
                       r2 => Cat(r1, r2), Behind)
      decreases |ts|, 2
    {
      hide Builder.Valid, Fragment, ParseFactor, Store.At, Store.Put, Lay, PutBack;
      e, f, r := e1, f1, r1;
      ghost var a, f2, r2 := S(), {}, r1;
      var s2, e2;
      o, s2, e2, f2, r2 := Factor();
      if o != Fine { return; }
      ghost var m1 := nodes[..];
      FragmentKept(a.m, m1, f1, s1, e1, r1);
      FragmentEnds(m1, f1, s1, e1, r1);
      FragmentEnds(m1, f2, s2, e2, r2);
      Copy(e1, s2);
      o := Discard(s2);
      if o != Fine { return; }
      Concatenate(m1, nodes[..], f1, s1, e1, r1, f2, s2, e2, r2);
      e, f, r := e2, f1 + (f2 - {s2}), Cat(r1, r2);
    }

    /** memcpy of one node over another. */
    method Copy(to: nat, from: nat)
      requires Valid() && to in live && from in live
      modifies nodes
      ensures Valid() && to < NFA_MAX && from < NFA_MAX && nodes[..] == old(nodes[..])[to := old(nodes[from])]
      ensures Layout() == old(Layout()).Put(to, old(Layout()).At(from))
    {
      nodes[to] := nodes[from];
    }

    method Factor() returns (o: Outcome, s: nat, e: nat, ghost f: set<int>, ghost r: Regex)
      requires Valid() && FirstInCat(Current(ts)) == Some(true)
      modifies this`discarded, this`nextAlloc, this`nstates, this`live, this`ts, nodes
      ensures o == Fine ==> Valid()
      ensures Built(old(S()), S(), o, ParseFactor(old(ts), unix), ts, s, e, f, r)
      decreases |ts|, 1
    {
      hide Builder.Valid, Fragment, ParseTerm, Lay, Layouts.Enclose, ClosureOf;
      ghost var a := S();
      if ParseTerm(ts, unix).Some? { LaysFactor(ts, unix, a.store); }
      o, s, e, f, r := Term();
      if o != Fine { return; }
      var kind := Current(ts).kind;
      if kind == CLOSURE || kind == PLUS_CLOSE || kind == OPTIONAL {
        var opt, rep := kind != PLUS_CLOSE, kind != OPTIONAL;
        ghost var b, f1 := S(), f;
        o, s, e, f, r := Enclose(s, e, f, r, opt, rep);
        if o != Fine { return; }
        GrownTrans(a, b, S(), f1, f);
        Advance();
      }
    }

    /** The new start and end of a closure, and their links. */
    method Enclose(s1: nat, e1: nat, ghost f1: set<int>, ghost r1: Regex, opt: bool, rep: bool)
      returns (o: Outcome, p: nat, q: nat, ghost f: set<int>, ghost r: Regex)
      requires Valid() && f1 <= live && Fragment(nodes[..], f1, s1, e1, r1) && (opt || rep)
      modifies this`discarded, this`nextAlloc, this`nstates, this`live, nodes
      ensures o == Layouts.Enclose(Left(old(Layout()), s1, e1), opt, rep).Result()
      ensures o == Fine ==> Layouts.Enclose(Left(old(Layout()), s1, e1), opt, rep) == Left(Layout(), p, q)
      ensures o == Fine ==>
        Valid() && Fragment(nodes[..], f, p, q, r) && r == ClosureOf(r1, opt, rep) && Grown(old(S()), S(), f1, f)
    {
      hide Builder.Valid, Fragment, Looped, IsClosure, Store.Put, Store.At;
      p, q, f, r := 0, 0, f1, r1;
      ghost var a := S();
      FragmentEnds(a.m, f1, s1, e1, r1);
      o, p := New();
      if o != Fine { return; }
      ghost var b := S();
      o, q := New();
      if o != Fine { return; }
      ghost var c := S();
      LinkClosure(s1, e1, p, q, opt, rep);
      ClosureLinks(a.m, b.m, c.m, nodes[..], f1, s1, e1, p, q, opt, rep);
      Close(a.m, nodes[..], f1, s1, e1, r1, p, q, opt, rep);
      f, r := f1 + {p, q}, ClosureOf(r1, opt, rep);
    }

    method LinkClosure(s1: nat, e1: nat, p: nat, q: nat, opt: bool, rep: bool)
      requires Valid() && e1 in live && p in live && p != e1
      modifies nodes
      ensures Valid() && p < NFA_MAX && e1 < NFA_MAX
      ensures var q2, s2 := if opt then q else old(nodes[p]).next2, if rep then s1 else old(nodes[e1]).next2;
        nodes[..] == old(nodes[..])[p := old(nodes[p]).(next := s1, next2 := q2)]
                     [e1 := old(nodes[e1]).(next := q, next2 := s2)]
      ensures Layout() == Looped(s1, e1, p, q, opt, rep, old(Layout()))
    {
      hide Builder.Valid, Store.Link, Store.LinkBoth;
      SetNext(p, s1);
      SetNext(e1, q);
      if opt { SetBoth(p, s1, q); }
      if rep { SetBoth(e1, q, s1); }
    }

    method Term() returns (o: Outcome, s: nat, e: nat, ghost f: set<int>, ghost r: Regex)
      requires Valid() && FirstInCat(Current(ts)) == Some(true)
      modifies this`discarded, this`nextAlloc, this`nstates, this`live, this`ts, nodes
      ensures o == Fine ==> Valid()
      ensures Built(old(S()), S(), o, ParseTerm(old(ts), unix), ts, s, e, f, r)
      decreases |ts|, 0
    {
      if Current(ts).kind == OPEN_PAREN {
        Advance();
        o, s, e, f, r := Expr();
        if o != Fine { return; }
        if Current(ts).kind == CLOSE_PAREN {
          Advance();
        } else {
          o := Malformed;
        }
      } else {
        o, s, e, f, r := Character();
      }
    }

    /** A literal, a dot or a class: two nodes with one labelled edge. */
    method Character() returns (o: Outcome, s: nat, e: nat, ghost f: set<int>, ghost r: Regex)
      requires Valid() && FirstInCat(Current(ts)) == Some(true) && Current(ts).kind != OPEN_PAREN
      modifies this`discarded, this`nextAlloc, this`nstates, this`live, this`ts, nodes
      ensures o == Fine ==> Valid()
      ensures Built(old(S()), S(), o, ParseTerm(old(ts), unix), ts, s, e, f, r)
    {
      hide Builder.Valid, ParseTerm, Fragment;
      f, r := {}, Star(Chars(CharSet({}, false)));
      ghost var a := S();
      OneCharacter(ts, unix);
      o, s, e := Pair();
      if o != Fine { return; }
      ghost var b := S();
      var edge, cs;
      o, edge, cs := ReadLabel();
      if o != Fine { return; }
      Label(s, edge, cs);
      r := if edge == CCL then Chars(cs) else Char(edge);
      Leaf(nodes[..], s, e, r);
      f := {s, e};
    }

    /** A start and an end node with an edge between them. */
    method Pair() returns (o: Outcome, s: nat, e: nat)
      requires Valid()
      modifies this`discarded, this`nextAlloc, this`nstates, this`live, nodes
      ensures o == LayPair(old(Layout())).Result()
      ensures o == Fine ==> LayPair(old(Layout())) == Left(Layout(), s, e)
      ensures o == Fine ==>
        && Valid() && s < NFA_MAX && e < NFA_MAX && s != e && nodes[s].next == e && nodes[s].next2 == NONE
        && nodes[s].accept == NONE && Dead(nodes[e]) && nodes[e].accept == NONE
        && Grown(old(S()), S(), {}, {s, e})
    {
      hide Builder.Valid;
      s, e := 0, 0;
      o, s := New();
      if o != Fine { return; }
      o, e := New();
      if o != Fine { return; }
      SetNext(s, e);
    }

    /** The part of term that reads the label of an edge. */
    method ReadLabel() returns (o: Outcome, edge: int, cs: CharSet)
      requires FirstInCat(Current(ts)) == Some(true) && Current(ts).kind != OPEN_PAREN
      modifies this`ts
      ensures o == Fine || o == Malformed
      ensures o == Malformed ==> ParseTerm(old(ts), unix) == None
      ensures o == Fine ==>
        && ((edge >= 0 && cs == NOTHING) || edge == CCL)
        && ParseTerm(old(ts), unix) == Some((if edge == CCL then Chars(cs) else Char(edge), ts))
    {
      hide ParseClass;
      var kind := ts[0].kind;
      edge, cs, o := CCL, NOTHING, Fine;
      if kind != ANY && kind != CCL_START {
        edge := ts[0].lexeme;
        Advance();
      } else if kind == ANY {
        cs := CharSet(NewLines(unix), true);
        Advance();
      } else {
        Advance();
        var ok;
        ok, cs := CharClass();
        if !ok { o := Malformed; }
      }
    }

    method Label(n: nat, edge: int, bitset: CharSet)
      requires Valid() && n in live
      modifies nodes
      ensures Valid() && n < NFA_MAX && nodes[..] == old(nodes[..])[n := old(nodes[n]).(edge := edge, bitset := bitset)]
      ensures Layout() == old(Layout()).Label(n, edge, bitset)
    {
      nodes[n] := nodes[n].(edge := edge, bitset := bitset);
    }

    /** The tokens of a bracketed class, through the closing bracket. */
    method CharClass() returns (ok: bool, cs: CharSet)
      modifies this`ts
      ensures ok <==> ParseClass(old(ts), unix).Some?
      ensures ok ==> ParseClass(old(ts), unix) == Some((cs, ts))
    {
      hide ClassLoop, Range, NewLines;
      var negated := Current(ts).kind == AT_BOL;
      var s := {};
      if negated {
        Advance();
        s := NewLines(unix);
      }
      if Current(ts).kind == CCL_END {
        RangeEmpty(0);
        ghost var s0, rest := s, ts;
        for c := 0 to 33
          invariant ts == rest && s == s0 + Range(0, c - 1)
        {
          RangeSnoc(0, c);
          s := s + {c};
        }
        ok := true;
      } else {
        ok, s := DoDash(s);
      }
      cs := CharSet(s, negated);
      if ok { Advance(); }
    }

    /** dodash. */
    method DoDash(s0: set<int>) returns (ok: bool, s: set<int>)
      requires Current(ts).kind != CCL_END
      modifies this`ts
      ensures ok <==> Current(old(ts)).kind != DASH && ClassLoop(old(ts), s0, 0).Some?
      ensures ok ==> ClassLoop(old(ts), s0, 0) == Some((s, ts))
    {
      s := s0;
      if Current(ts).kind == DASH { return false, s; }
      var first: int := 0;
      while Current(ts).kind != EOS && Current(ts).kind != CCL_END
        invariant ClassLoop(ts, s, first) == ClassLoop(old(ts), s0, 0)
        decreases |ts|
      {
        if Current(ts).kind != DASH {
          first := ts[0].lexeme;
          s := s + {ts[0].lexeme};
        } else {
          Advance();
          if Current(ts).kind == CCL_END || Current(ts).kind == EOS { return false, s; }
          s, first := AddRange(s, first, ts[0].lexeme);
        }
        Advance();
      }
      ok := Current(ts).kind == CCL_END;
    }

    // ---------------------------------------------------------------- rules

    /** save: the address of the action. */
    method Save(action: string) returns (o: Outcome, a: nat)
      modifies this`saved
      ensures o == if TooManyWords(old(saved), action) then Exceeds(StringsFull) else Fine
      ensures o == Fine ==> a == old(saved) + 1
      ensures o == Fine ==> saved == old(saved) + if Line([], action).Bar() then 0 else 1 + Words(action)
    {
      o, a := Fine, saved + 1;
      if action == "" || action[0] != '|' {
        if action != "" && 4 * a + |action| - 1 >= STR_MAX - 1 { return Exceeds(StringsFull), a; }
        saved := saved + 1 + Words(action);
      }
    }

    /** The start of rule: an expression, with a newline in front if it is anchored there. */
    method Front() returns (o: Outcome, s: nat, e: nat, ghost f: set<int>, ghost rule: Rule, anchor: nat)
      requires Valid()
      modifies this`discarded, this`nextAlloc, this`nstates, this`live, this`ts, nodes
      ensures o == Malformed ==> ParseFront(old(ts), unix) == None
      ensures ParseFront(old(ts), unix).Some? ==>
        o == LayFront(ParseFront(old(ts), unix).value.0, old(Layout())).Result()
      ensures o == Fine ==> LayFront(rule, old(Layout())) == Left(Layout(), s, e)
      ensures o == Fine ==>
        && Valid() && ParseFront(old(ts), unix) == Some((rule, ts)) && anchor == rule.anchor
        && Fragment(nodes[..], f, s, e, rule.regex) && Grown(old(S()), S(), {}, f)
    {
      hide Builder.Valid, Fragment, ParseExpr, Lay, Store.Put, Store.At, Store.Link, Store.Label, TakeNode;
      ghost var a, r := S(), Star(Chars(CharSet({}, false)));
      rule, f, s, e, anchor := Rule(r, 0), {}, 0, 0, 0;
      if Current(ts).kind == AT_BOL {
        o, s := New();
        if o != Fine { return; }
        Label(s, 10, NOTHING);
        anchor := 1;
        Advance();
        ghost var b := S();
        var s1;
        o, s1, e, f, r := Expr();
        if o != Fine { return; }
        ghost var c := S();
        FragmentEnds(c.m, f, s1, e, r);
        SetNext(s, s1);
        Prepend(c.m, nodes[..], f, s1, e, r, s, 10);
        rule, f := Rule(Cat(Char(10), r), 1), f + {s};
      } else {
        o, s, e, f, r := Expr();
        rule := Rule(r, 0);
      }
    }

    /** The rest of rule before the action: an anchor behind. */
    method Back(ghost s: nat, e1: nat, ghost f1: set<int>, ghost r1: Regex)
      returns (o: Outcome, e: nat, ghost f: set<int>)
      requires Valid() && f1 <= live && Fragment(nodes[..], f1, s, e1, r1)
      modifies this`discarded, this`nextAlloc, this`nstates, this`live, this`ts, nodes
      ensures o == Anchored(Left(old(Layout()), s, e1), CharSet(NewLines(unix), false)).Result()
      ensures o == Fine ==> Anchored(Left(old(Layout()), s, e1), CharSet(NewLines(unix), false)) == Left(Layout(), s, e)
      ensures o == Fine ==>
        && Valid() && Grown(old(S()), S(), f1, f) && ts == old(ts)[1..]
        && Fragment(nodes[..], f, s, e, Cat(r1, Chars(CharSet(NewLines(unix), false))))
      requires ts != []
    {
      hide Builder.Valid, Fragment;
      ghost var a := S();
      FragmentEnds(a.m, f1, s, e1, r1);
      Advance();
      o, e := New();
      f := f1 + {e};
      if o != Fine { return; }
      SetNext(e1, e);
      Label(e1, CCL, CharSet(NewLines(unix), false));
      Append(a.m, nodes[..], f1, s, e1, r1, e, CharSet(NewLines(unix), false));
    }

    /** The expression of a rule with its anchors. */
    method Pattern() returns (o: Outcome, s: nat, e: nat, ghost f: set<int>, ghost rule: Rule, anchor: nat)
      requires Valid()
      modifies this`discarded, this`nextAlloc, this`nstates, this`live, this`ts, nodes
      ensures o == Malformed ==> ParseAnchored(old(ts), unix) == None
      ensures ParseAnchored(old(ts), unix).Some? ==>
        o == LayRule(ParseAnchored(old(ts), unix).value.0, old(Layout())).Result()
      ensures o == Fine ==> LayRule(rule, old(Layout())) == Left(Layout(), s, e)
      ensures o == Fine ==>
        && Valid() && ParseAnchored(old(ts), unix) == Some((rule, ts)) && anchor == rule.anchor
        && Fragment(nodes[..], f, s, e, rule.regex) && Grown(old(S()), S(), {}, f)
    {
      hide Builder.Valid, Fragment, ParseFront, LayFront, LayRule, TakeNode;
      FrontAnchor(ts, unix);
      ghost var a := S();
      if ParseFront(ts, unix).Some? { LaysBack(ParseFront(ts, unix).value.0, a.store); }
      o, s, e, f, rule, anchor := Front();
      if o == Fine && Current(ts).kind == AT_EOL {
        ghost var b, f1 := S(), f;
        o, e, f := Back(s, e, f, rule.regex);
        if o != Fine { return; }
        anchor := anchor + 2;
        rule := Rule(Cat(rule.regex, Chars(CharSet(NewLines(unix), false))), anchor);
        GrownTrans(a, b, S(), f1, f);
      }
    }

    method SetAccept(n: nat, accept: nat, anchor: nat)
      requires Valid() && n in live
      modifies nodes
      ensures Valid() && n < NFA_MAX
      ensures nodes[..] == old(nodes[..])[n := old(nodes[n]).(accept := accept, anchor := anchor)]
      ensures Layout() == old(Layout()).Put(n, old(Layout()).At(n).(accept := accept, anchor := anchor))
    {
      nodes[n] := nodes[n].(accept := accept, anchor := anchor);
    }

    /** rule, for the rule that the chain node `c` is to lead to. */
    method RuleOf(line: Line, ghost c: int) returns (o: Outcome, s: nat, ghost part: Part)
      requires Valid() && c in live
      modifies this`discarded, this`nextAlloc, this`nstates, this`live, this`ts, this`saved, nodes
      ensures o == Malformed ==> ParseRule(line.tokens, unix) == None
      ensures ParseRule(line.tokens, unix).Some? ==>
        o == LayLine(line, ParseRule(line.tokens, unix).value, old(saved), old(Layout())).Result()
      ensures o == Fine ==> LayLine(line, part.rule, old(saved), old(Layout())).Is(Layout(), s, part.e)
      ensures o == Fine ==>
        && Valid() && ParseRule(line.tokens, unix) == Some(part.rule) && part.accept == old(saved) + 1
        && saved == old(saved) + (if line.Bar() then 0 else 1 + Words(line.action))
        && part.c == c && part.s == s && IsRule(nodes[..], part) && Grown(old(S()), S(), {}, part.f)
    {
      hide Builder.Valid, Fragment, ParseAnchored, IsRule, LayRule, TooManyWords, Words, Store.Put, Store.At;
      part := Part(c, {}, 0, 0, Rule(Star(Chars(CharSet({}, false))), 0), 0);
      ts := line.tokens;
      ghost var f, rule;
      var e, anchor;
      o, s, e, f, rule, anchor := Pattern();
      if o != Fine { return; }
      if ts != [] { return Malformed, s, part; }
      var accept;
      o, accept := Save(line.action);
      if o != Fine { return; }
      part := Part(c, f, s, e, rule, accept);
      ghost var d := S();
      FragmentEnds(d.m, f, s, e, rule.regex);
      SetAccept(e, accept, anchor);
      Accepting(d.m, nodes[..], part);
    }

    /** What the first `i` rules of the input have left behind. */
    ghost predicate Done(lines: seq<Line>, i: nat, parts: seq<Part>)
      reads `live, `saved, `discarded, `nextAlloc, nodes
    {
      && 0 < |parts| == i <= |lines| && WellFormed(lines, unix, i) && LaidOut(lines, unix, parts)
      && LayRules(lines, unix, i).Is(Layout(), parts[i - 1].c, parts[i - 1].e)
      && Chain(nodes[..], parts) && live == Feet(parts) && saved == SavedAt(lines, i)
      && AsWritten(lines, parts, unix)
    }

    /** The first chain node and its rule. */
    method FirstRule(lines: seq<Line>) returns (o: Outcome, start: nat, ghost parts: seq<Part>)
      requires Valid() && live == {} && saved == 0 && Layout() == EmptyStore() && |lines| > 0
      modifies this`discarded, this`nextAlloc, this`nstates, this`live, this`ts, this`saved, nodes
      ensures o == Malformed ==> ParseRule(lines[0].tokens, unix) == None
      ensures WellFormed(lines, unix, 1) ==> o == LayRules(lines, unix, 1).Result()
      ensures o == Fine ==> Valid() && Done(lines, 1, parts) && start == parts[0].c == 0
    {
      hide Builder.Valid, IsRule, ParseRule, Words, LayLine, LayRules, WellFormed, Store.Link, Store.LinkBoth;
      OneRule(lines, unix);
      NextLine(lines, unix, 0);
      parts := [];
      o, start := New();
      if o != Fine { return; }
      var s;
      ghost var part;
      o, s, part := RuleOf(lines[0], start);
      if o != Fine { return; }
      ghost var a := S();
      RuleOutside(a.m, part);
      SetNext(start, s);
      RuleKept(a.m, nodes[..], part);
      parts := [part];
      assert Linked(nodes[..], parts, 0) && |nodes[..]| == NFA_MAX;
      FeetSnoc([], part);
      assert [] + [part] == parts;
      assert AsWritten(lines, [], unix);
      Written(lines, [], part, unix);
      LaidNext(lines, unix, [], part);
    }

    /** The body of the loop of machine. */
    method NextRule(lines: seq<Line>, i: nat, p: nat, ghost parts: seq<Part>)
      returns (o: Outcome, q: nat, ghost parts': seq<Part>)
      requires Valid() && 0 < i < |lines| && Done(lines, i, parts) && p == parts[i - 1].c
      modifies this`discarded, this`nextAlloc, this`nstates, this`live, this`ts, this`saved, nodes
      ensures o == Malformed ==> ParseRule(lines[i].tokens, unix) == None
      ensures WellFormed(lines, unix, i + 1) ==> o == LayRules(lines, unix, i + 1).Result()
      ensures o == Fine ==> Valid() && Done(lines, i + 1, parts') && q == parts'[i].c && parts'[0] == parts[0]
    {
      hide Builder.Valid, IsRule, ParseRule, Chain, Feet, AsWritten, SavedAt, Words, LayLine, LayRules,
        WellFormed, Store.Link, Store.LinkBoth;
      NextLine(lines, unix, i);
      parts' := parts;
      FootIn(parts, i - 1);
      ghost var a := S();
      LastLink(a.m, parts);
      o, q := New();
      if o != Fine { return; }
      SetBoth(p, nodes[p].next, q);
      ghost var b := S();
      var s;
      ghost var part;
      o, s, part := RuleOf(lines[i], q);
      if o != Fine { return; }
      ghost var c := S();
      SetNext(q, s);
      parts' := parts + [part];
      Longer(a, b, c, nodes[..], parts, part);
      Written(lines, parts, part, unix);
      LaidNext(lines, unix, parts, part);
    }

    /** thompson and machine: one chain node a rule. */
    method Thompson(lines: seq<Line>) returns (o: Outcome, m: Machine, start: nat, ghost parts: seq<Part>)
      requires Valid() && live == {} && saved == 0 && Layout() == EmptyStore() && |lines| > 0
      modifies this`discarded, this`nextAlloc, this`nstates, this`live, this`ts, this`saved, nodes
      ensures o == Malformed ==> !WellFormed(lines, unix, |lines|)
      ensures WellFormed(lines, unix, |lines|) ==> o == LayRules(lines, unix, |lines|).Result()
      ensures o == Fine ==> Fits(lines, unix) && m == MachineOf(lines, unix) && start == 0
      ensures o == Fine ==>
        && MachineOk(m) && |m| <= NFA_MAX && start < |m| && |parts| == |lines|
        && AsWritten(lines, parts, unix) && Recognizes(m, start, parts) && AcceptsParts(m, parts)
      ensures o == Fine ==> forall k | 0 <= k < |lines| :: parts[k].e == EndOf(lines, unix, k)
    {
      hide Builder.Valid, ParseRule, Chain, Feet, LayRules;
      m := [];
      o, start, parts := FirstRule(lines);
      if o != Fine {
        LackIn(lines, 0, o);
        return;
      }
      var i, p := 1, start;
      while i < |lines|
        invariant Valid() && 0 < i <= |lines| && Done(lines, i, parts)
        invariant p == parts[i - 1].c && start == parts[0].c == 0
      {
        o, p, parts := NextRule(lines, i, p, parts);
        if o != Fine {
          LackIn(lines, i, o);
          return;
        }
        i := i + 1;
      }
      m := Used(parts);
      AllDone(lines, parts);
      o := Fine;
    }

    /** What all rules together have left behind. */
    lemma AllDone(lines: seq<Line>, parts: seq<Part>)
      requires Valid() && Done(lines, |lines|, parts) && (forall n | n in live :: 0 <= n < nextAlloc) && parts[0].c == 0
      requires nextAlloc < |nodes[..]| && MachineOk(nodes[..][..nextAlloc])
      ensures Fits(lines, unix) && nodes[..][..nextAlloc] == MachineOf(lines, unix) && 0 < nextAlloc
      ensures Recognizes(nodes[..][..nextAlloc], 0, parts)
      ensures forall k | 0 <= k < |lines| :: parts[k].e == EndOf(lines, unix, k)
    {
      hide Builder.Valid, ParseRule, Chain, Feet, LayRules;
      FootIn(parts, 0);
      ChainRecognizes(nodes[..], parts);
      assert parts[0].c in parts[0].Foot();
      PrefixRecognizes(nodes[..], nextAlloc, parts[0].c, parts);
      forall k | 0 <= k < |lines| ensures parts[k].e == EndOf(lines, unix, k) {
        assert LaidAt(lines, unix, k, parts[k].e);
      }
    }

    /** Rule `i` could not be made. */
    lemma LackIn(lines: seq<Line>, i: nat, o: Outcome)
      requires i < |lines| && o != Fine
      requires o == Malformed ==> ParseRule(lines[i].tokens, unix) == None
      requires WellFormed(lines, unix, i + 1) ==> o == LayRules(lines, unix, i + 1).Result()
      ensures o == Malformed ==> !WellFormed(lines, unix, |lines|)
      ensures WellFormed(lines, unix, |lines|) ==> o == LayRules(lines, unix, |lines|).Result()
    {
      hide ParseRule, LayRules;
      if WellFormed(lines, unix, |lines|) {
        assert WellFormed(lines, unix, i + 1);
        RulesLack(lines, unix, i + 1, |lines|);
      }
    }

    /** The part of the array that has been handed out. */
    method Used(ghost parts: seq<Part>) returns (m: Machine)
      requires Valid() && Chain(nodes[..], parts) && live == Feet(parts)
      ensures nextAlloc < NFA_MAX == |nodes[..]| && m == nodes[..nextAlloc] == nodes[..][..nextAlloc] && MachineOk(m)
      ensures AcceptsParts(m, parts)
      ensures forall n | n in live :: 0 <= n < nextAlloc
    {
      hide Chain, Feet;
      m := nodes[..nextAlloc];
      forall n | 0 <= n < |m| ensures NodeOk(|m|, m[n]) {
        if n in live {
          FeetOk(nodes[..], parts, n);
        } else {
          assert n in discarded;
        }
      }
      forall x | 0 <= x < nextAlloc && x !in Feet(parts) ensures nodes[..][x].accept == NONE {
        assert Blank(nodes[x]);
      }
      PartsAccept(nodes[..], nextAlloc, parts);
    }
  }

  /** Of the first `n` nodes, those that are not in use are on the stack. */
  lemma InUseOf(n: nat, live: set<int>, discarded: seq<nat>)
    requires forall i, j | 0 <= i < j < |discarded| :: discarded[i] != discarded[j]
    requires forall x | x in discarded :: x < n && x !in live
    requires forall x | x in live :: 0 <= x < n
    requires forall x | 0 <= x < n && x !in live :: x in discarded
    ensures |live| == n - |discarded|
  {
    var spares: seq<int> := seq(|discarded|, i requires 0 <= i < |discarded| => discarded[i]);
    forall x ensures x in spares <==> x in discarded {
      if i :| 0 <= i < |discarded| && discarded[i] == x { assert spares[i] == x; }
    }
    DistinctSize(spares);
    var spare := set x | x in spares;
    DisjointSize(live, spare);
    assert live + spare == Below(n);
  }

  /** A closure operator behind a term takes two nodes more. */
  lemma LaysFactor(ts: Tokens, unix: bool, s: Store)
    requires FirstInCat(Current(ts)) == Some(true) && ParseTerm(ts, unix).Some?
    ensures var (r, rest) := ParseTerm(ts, unix).value; var kind := Current(rest).kind;
      if kind == CLOSURE || kind == PLUS_CLOSE || kind == OPTIONAL then
        var all := ClosureOf(r, kind != PLUS_CLOSE, kind != OPTIONAL);
        && ParseFactor(ts, unix) == Some((all, rest[1..]))
        && Lay(all, s) == Layouts.Enclose(Lay(r, s), kind != PLUS_CLOSE, kind != OPTIONAL)
        && (Lay(r, s).Lacks? ==> Lay(all, s) == Lay(r, s))
      else
        ParseFactor(ts, unix) == ParseTerm(ts, unix)
  {
    hide ParseTerm, TakeTwo, Looped;
  }

  lemma OneRule(lines: seq<Line>, unix: bool)
    requires |lines| > 0
    ensures WellFormed(lines, unix, 0) && LayRules(lines, unix, 0) == Left(EmptyStore(), 0, 0) && SavedAt(lines, 0) == 0
  {
  }

  lemma GrownTrans(a: State, b: State, c: State, f1: set<int>, f: set<int>)
    requires Grown(a, b, {}, f1) && Grown(b, c, f1, f)
    ensures Grown(a, c, {}, f)
  {
  }

  lemma GrownBoth(a: State, b: State, c: State, f1: set<int>, f2: set<int>, f: set<int>)
    requires f1 <= a.live && Grown(a, b, {}, f2) && Grown(b, c, f1 + f2, f)
    ensures Grown(a, c, f1, f)
  {
  }

  /** The assignments of the loop of machine make the chain longer. */
  lemma Longer(a: State, b: State, c: State, m: Machine, parts: seq<Part>, part: Part)
    requires |parts| > 0 && Chain(a.m, parts) && a.live == Feet(parts)
    requires var p, q := parts[|parts| - 1].c, part.c;
      && 0 <= p < |a.m| && 0 <= q < |a.m| && p in a.live && q !in a.live && b.live == a.live + {q} && |b.m| == |a.m|
      && b.m == a.m[p := a.m[p].(next2 := q)][q := b.m[q]] && Dead(b.m[q]) && b.m[q].accept == NONE
    requires IsRule(c.m, part) && Grown(b, c, {}, part.f) && part.s != NONE
    requires |m| == |c.m| && m == c.m[part.c := c.m[part.c].(next := part.s)]
    ensures Chain(m, parts + [part]) && Feet(parts + [part]) == c.live
  {
    hide IsRule, Chain, Feet;
    RuleOutside(c.m, part);
    RuleKept(c.m, m, part);
    assert Linked(m, [part], 0);
    Link(a.m, m, parts, part);
    FeetSnoc(parts, part);
  }

  lemma {:induction false} Written(lines: seq<Line>, parts: seq<Part>, part: Part, unix: bool)
    requires |parts| < |lines| && AsWritten(lines, parts, unix)
    requires ParseRule(lines[|parts|].tokens, unix) == Some(part.rule) && part.accept == SavedAt(lines, |parts|) + 1
    ensures AsWritten(lines, parts + [part], unix)
    ensures SavedAt(lines, |parts| + 1) ==
      SavedAt(lines, |parts|) + if lines[|parts|].Bar() then 0 else 1 + Words(lines[|parts|].action)
  {
    hide ParseRule, Words, SavedAt;
    SavedNext(lines, |parts|);
    var all := parts + [part];
    forall i | 0 <= i < |all|
      ensures ParseRule(lines[i].tokens, unix) == Some(all[i].rule) && all[i].accept == Address(lines, i)
    {
      if i < |parts| {
        assert all[i] == parts[i];
      }
    }
  }

  /** The assignments of the loop of expr have the effect of an alternation. */
  lemma AltLinks(b: Machine, c: Machine, d: Machine, m: Machine, f1: set<int>, s1: nat, e1: nat, f2: set<int>,
        s2: nat, e2: nat, p: nat, q: nat)
    requires p < |b| && q < |b| && e1 < |b| && e2 < |b| && e1 in f1 && e2 in f2 && f1 !! f2
    requires p !in f1 + f2 && q !in f1 + f2 + {p}
    requires |c| == |b| && c == b[p := c[p]] && c[p] == c[p].(edge := EPSILON, next := s1, next2 := s2, accept := NONE)
    requires |d| == |b| && d == c[q := d[q]] && Dead(d[q]) && d[q].accept == NONE
    requires var x := d[e1 := d[e1].(next := q)]; m == x[e2 := x[e2].(next := q)]
    ensures IsAlt(b, m, f1, s1, e1, f2, s2, e2, p, q)
    ensures forall n | 0 <= n < |b| && n !in f1 + f2 + {p, q} :: m[n] == b[n]
  {
  }

  lemma ClosureLinks(a: Machine, b: Machine, c: Machine, m: Machine, f: set<int>, s: nat, e: nat, p: nat, q: nat,
        opt: bool, rep: bool)
    requires p < |a| && q < |a| && e < |a| && e in f && p !in f && q !in f + {p} && Dead(a[e])
    requires |b| == |a| && b == a[p := b[p]] && Dead(b[p]) && b[p].accept == NONE
    requires |c| == |a| && c == b[q := c[q]] && Dead(c[q]) && c[q].accept == NONE
    requires m ==
      c[p := c[p].(next := s, next2 := if opt then q else NONE)]
       [e := c[e].(next := q, next2 := if rep then s else NONE)]
    ensures IsClosure(a, m, f, s, e, p, q, opt, rep)
    ensures forall n | 0 <= n < |a| && n !in f + {p, q} :: m[n] == a[n]
  {
  }

  lemma RangeEmpty(lo: int)
    ensures Range(lo, lo - 1) == {}
  {
  }

  lemma RangeSnoc(lo: int, c: int)
    requires lo <= c
    ensures Range(lo, c) == Range(lo, c - 1) + {c}
  {
    assert forall x :: lo <= x <= c && Between(lo, x, c) <==> x == c || (lo <= x <= c - 1 && Between(lo, x, c - 1));
  }

  /** The loop that adds `first` to `last`. */
  method AddRange(s0: set<int>, first: int, last: int) returns (s: set<int>, next: int)
    ensures s == s0 + Range(first, last) && next == if first <= last then last + 1 else first
  {
    s, next := s0, first;
    while next <= last
      invariant next == first || next <= last + 1
      invariant first <= next && s == s0 + Range(first, next - 1)
    {
      RangeSnoc(first, next);
      s := s + {next};
      next := next + 1;
    }
    if first > last {
      assert Range(first, last) == {} == Range(first, next - 1);
    }
  }
}
