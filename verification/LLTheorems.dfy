/** The LL(1) parser generator as a whole: what the emitted parser accepts. */
module LLTheorems {
  import opened Grammars
  import opened Symbols
  import opened First
  import opened Follow
  import opened Select
  import opened LLTable
  import opened LLDriver
  import PairTable

  /** A grammar whose tables fit their cells: every nonterminal number is in use and
      production numbers leave room for the failure value. */
  ghost predicate Usable(g: Grammar) {
    && g.Valid() && g.DistinctSymbols()
    && (forall x | MINNONTERM <= x <= g.currNonterm :: x in g.symtab)
    && (forall x, p | p in g.Prods(x) :: p.num < PairTable.YYF)
  }

  /** The tables of grammar `g` for the selection sets `select`. */
  ghost predicate Generated(g: Grammar, select: Selects, t: Tables) {
    && t.Valid() && t.currTerm == g.currTerm && |t.next| == g.currNonterm - MINNONTERM + 1
    && (forall x, tok | MINNONTERM <= x <= g.currNonterm && 0 <= tok <= g.currTerm ::
          t.next[x - MINNONTERM][tok] == PairTable.Byte(EntryOf(select, g.Prods(x), tok)))
    && (forall x, p | p in g.Prods(x) :: p.num in t.pushtab && t.pushtab[p.num] == Reverse(p.rhs) + [0])
  }

  /** The selection sets come from FIRST and FOLLOW families with their properties. */
  ghost predicate Analysed(g: Grammar, f: Sets, w: Sets, select: Selects) {
    && Closed(g, f) && InRange(g, f) && FollowClosed(g, f, w) && InRange(g, w)
    && forall x :: Selected(g, f, NoEpsilon(g, w), select, x)
  }

  lemma UsableFacts(g: Grammar)
    requires Usable(g)
    ensures g.Valid() && g.currTerm <= MAXTERM
  {
  }

  lemma UsableStart(g: Grammar)
    requires Usable(g) && g.goal == START_STATE
    ensures g.Valid() && g.ValidProductions() && g.ValidSymbol(START_STATE)
  {
  }

  lemma UsableSymbol(g: Grammar, x: Symbol)
    requires Usable(g) && MINNONTERM <= x <= g.currNonterm
    ensures x in g.symtab
  {
  }

  lemma UsableProduction(g: Grammar, x: Symbol, p: Production)
    requires Usable(g) && p in g.Prods(x)
    ensures g.ValidProduction(x, p) && p.num < PairTable.YYF
  {
  }

  lemma ReverseTwice(s: seq<Symbol>)
    ensures Pushed(Reverse(s) + [0]) == s
  {
    assert (Reverse(s) + [0])[..|Reverse(s) + [0]| - 1] == Reverse(s);
    ReverseAt(s);
    ReverseAt(Reverse(s));
  }

  // ---------------------------------------------------------------- soundness

  /** Matched tokens, then the stack: a left-sentential form of the start symbol, once
      the actions that have been carried out are erased. */
  ghost predicate LeftForm(g: Grammar, c: Config) {
    exists done :: LeftFormBy(g, c, done)
  }

  ghost predicate LeftFormBy(g: Grammar, c: Config, done: seq<Symbol>) {
    Ground(done) && Erase(done) == c.consumed && Derives(g, [START_STATE], done + c.stack)
  }

  /** A table entry names a production of its row that the token selects. */
  lemma EntryMeaning(g: Grammar, select: Selects, t: Tables, x: Symbol, tok: Symbol)
    requires Usable(g) && Generated(g, select, t)
    requires MINNONTERM <= x <= g.currNonterm && 0 <= tok <= g.currTerm
    ensures var e := t.next[x - MINNONTERM][tok];
      e == PairTable.YYF || exists p | p in g.Prods(x) :: e == p.num && Pushed(t.pushtab[e]) == p.rhs
  {
    hide EntryOf, Tokens, Usable, Reverse, Pushed, Tables.Valid;
    var chain := g.Prods(x);
    var e := EntryOf(select, chain, tok);
    EntryFound(select, chain, tok);
    if e != -1 {
      var i :| 0 <= i < |chain| && e == chain[i].num;
      assert chain[i] in g.Prods(x);
      UsableProduction(g, x, chain[i]);
      ReverseTwice(chain[i].rhs);
    }
  }

  lemma PassSound(g: Grammar, c: Config, c': Config, x: Symbol)
    requires LeftForm(g, c) && c.stack == [x] + c'.stack && (IsAct(x) || IsTerm(x))
    requires c'.consumed == c.consumed + if IsAct(x) then [] else [x]
    ensures LeftForm(g, c')
  {
    var done :| LeftFormBy(g, c, done);
    assert done + c.stack == (done + [x]) + c'.stack;
    EraseConcat(done, [x]);
    assert LeftFormBy(g, c', done + [x]);
  }

  lemma ExpandSound(g: Grammar, c: Config, c': Config, p: Production)
    requires LeftForm(g, c) && c.stack != [] && p in g.Prods(c.stack[0])
    requires c'.consumed == c.consumed && c'.stack == p.rhs + c.stack[1..]
    ensures LeftForm(g, c')
  {
    var done :| LeftFormBy(g, c, done);
    assert Expand(done + c.stack, |done|, p.rhs) == done + (p.rhs + c.stack[1..]);
    assert StepAt(g, done + c.stack, |done|, p, done + c'.stack);
    DerivesStep(g, [START_STATE], done + c.stack, done + c'.stack);
    assert LeftFormBy(g, c', done);
  }

  lemma MoveSound(g: Grammar, select: Selects, t: Tables, act: Config -> int, depth: nat, c: Config)
    requires Usable(g) && Generated(g, select, t) && ValidConfig(t, c) && c.stack != [] && LeftForm(g, c)
    ensures var r := Move(t, act, depth, c);
      r.Running? && r.c.errors == c.errors ==> LeftForm(g, r.c) && r.c.consumed + r.c.input == c.consumed + c.input
  {
    hide Usable, Grammar.Valid;
    UsableFacts(g);
    var r := Move(t, act, depth, c);
    var tos := c.stack[0];
    if r.Running? && r.c.errors == c.errors {
      if IsAct(tos) || 1 <= tos <= t.currTerm {
        PassSound(g, c, r.c, tos);
      } else {
        EntryMeaning(g, select, t, tos, c.Lookahead());
        var e := t.next[tos - MINNONTERM][c.Lookahead()];
        var p :| p in g.Prods(tos) && e == p.num && Pushed(t.pushtab[e]) == p.rhs;
        ExpandSound(g, c, r.c, p);
      }
    }
  }

  /** Along every run without errors the parser keeps a left-sentential form and loses
      no token. */
  lemma {:induction false} RunSound(g: Grammar, select: Selects, t: Tables, act: Config -> int, depth: nat, c: Config,
        fuel: nat)
    requires Usable(g) && Generated(g, select, t) && ValidConfig(t, c) && LeftForm(g, c)
    ensures var r := Run(t, act, depth, c, fuel);
      (r.Running? || r.Accepted?) ==>
        && r.c.errors >= c.errors
        && (r.c.errors == c.errors ==> LeftForm(g, r.c) && r.c.consumed + r.c.input == c.consumed + c.input)
        && (r.Accepted? ==> r.c.stack == [])
    decreases fuel
  {
    if c.stack != [] && fuel > 0 {
      MoveValid(t, act, depth, c);
      MoveSound(g, select, t, act, depth, c);
      var r := Move(t, act, depth, c);
      if r.Running? {
        if r.c.errors == c.errors {
          RunSound(g, select, t, act, depth, r.c, fuel - 1);
        } else {
          ErrorsGrow(t, act, depth, r.c, fuel - 1);
        }
      }
    }
  }

  lemma {:induction false} ErrorsGrow(t: Tables, act: Config -> int, depth: nat, c: Config, fuel: nat)
    requires ValidConfig(t, c)
    ensures var r := Run(t, act, depth, c, fuel);
      (r.Running? || r.Accepted?) ==> r.c.errors >= c.errors && (r.Accepted? ==> r.c.stack == [])
    decreases fuel
  {
    if c.stack != [] && fuel > 0 {
      MoveValid(t, act, depth, c);
      var r := Move(t, act, depth, c);
      if r.Running? {
        ErrorsGrow(t, act, depth, r.c, fuel - 1);
      }
    }
  }

  /** What the parser accepts without an error is a sentence: the tokens it matched are
      generated by the start symbol and are a prefix of the input. */
  lemma Soundness(g: Grammar, select: Selects, t: Tables, act: Config -> int, depth: nat, tokens: seq<Symbol>,
        fuel: nat)
    requires Usable(g) && Generated(g, select, t) && t.Tokens(tokens)
    ensures var r := StartRun(t, act, depth, tokens, fuel);
      r.Accepted? && r.c.errors == 0 ==> Sentence(g, START_STATE, r.c.consumed) && r.c.consumed + r.c.input == tokens
  {
    var c := Config([START_STATE], tokens, [], 0);
    DerivesRefl(g, [START_STATE]);
    assert [] + c.stack == [START_STATE];
    assert LeftFormBy(g, c, []);
    RunSound(g, select, t, act, depth, c, fuel);
    var r := StartRun(t, act, depth, tokens, fuel);
    if r.Accepted? && r.c.errors == 0 {
      var done :| LeftFormBy(g, r.c, done);
      assert done + r.c.stack == done;
    }
  }

  // -------------------------------------------------------------- completeness

  lemma RightTokens(g: Grammar, f: Sets, w: Sets, select: Selects, c: Config, p: Production, n: nat)
    requires g.Valid() && g.goal == START_STATE && Analysed(g, f, w, select)
    requires c.stack != [] && LeftForm(g, c) && forall i | 0 <= i < |c.input| :: 1 <= c.input[i] <= g.currTerm
    requires p in g.Prods(c.stack[0]) && Leftmost(g, p.rhs + c.stack[1..], c.input, n)
    ensures c.Lookahead() in Tokens(select, p)
  {
    var done :| LeftFormBy(g, c, done);
    assert done + c.stack == done + [c.stack[0]] + c.stack[1..];
    SelectIsComplete(g, f, w, done, c.stack[0], c.stack[1..], p, c.input, n);
    assert Selected(g, f, NoEpsilon(g, w), select, c.stack[0]);
  }

  lemma GeneratedAt(g: Grammar, select: Selects, t: Tables, x: Symbol, tok: Symbol, p: Production)
    requires Generated(g, select, t) && MINNONTERM <= x <= g.currNonterm && 0 <= tok <= g.currTerm && p in g.Prods(x)
    ensures t.currTerm == g.currTerm && |t.next| == g.currNonterm - MINNONTERM + 1
    ensures |t.next[x - MINNONTERM]| == t.currTerm + 1
    ensures t.next[x - MINNONTERM][tok] == PairTable.Byte(EntryOf(select, g.Prods(x), tok))
    ensures p.num in t.pushtab && t.pushtab[p.num] == Reverse(p.rhs) + [0]
  {
    hide EntryOf, PairTable.Byte;
  }

  lemma TokensFit(g: Grammar, select: Selects, t: Tables, c: Config)
    requires Generated(g, select, t) && ValidConfig(t, c)
    ensures t.Valid() && 0 <= c.Lookahead() <= g.currTerm == t.currTerm
    ensures forall i | 0 <= i < |c.input| :: 1 <= c.input[i] <= g.currTerm
  {
  }

  /** If no conflict was reported, the entry for a nonterminal on top of the stack is
      the production the rest of the input needs. */
  lemma RightEntry(g: Grammar, f: Sets, w: Sets, select: Selects, t: Tables, c: Config, p: Production, n: nat)
    requires Usable(g) && g.goal == START_STATE && Generated(g, select, t) && Analysed(g, f, w, select)
    requires ConflictFree(g, select)
    requires ValidConfig(t, c) && c.stack != [] && LeftForm(g, c)
    requires p in g.Prods(c.stack[0]) && Leftmost(g, p.rhs + c.stack[1..], c.input, n)
    ensures MINNONTERM <= c.stack[0] <= g.currNonterm && |p.rhs| <= MAXRHS
    ensures t.next[c.stack[0] - MINNONTERM][c.Lookahead()] == p.num != PairTable.YYF
    ensures p.num in t.pushtab && Pushed(t.pushtab[p.num]) == p.rhs
  {
    hide Usable, Analysed, Generated, Grammar.Valid, Grammar.ValidString, LeftForm, Leftmost, Clash, EntryOf, Tokens;
    UsableFacts(g);
    UsableProduction(g, c.stack[0], p);
    TokensFit(g, select, t, c);
    GeneratedAt(g, select, t, c.stack[0], c.Lookahead(), p);
    hide Tables.Valid;
    RightTokens(g, f, w, select, c, p, n);
    EntryUnique(select, g.Prods(c.stack[0]), p, c.Lookahead());
    ReverseTwice(p.rhs);
  }

  ghost predicate AcceptsRest(act: Config -> int, depth: nat, c: Config, n: nat, r: Outcome) {
    match r
    case Accepted(c') => c' == Config([], [], c.consumed + c.input, c.errors)
    case ActionFailed(code) => code != 0 && exists c0 :: act(c0) == code
    case Overflow => |c.stack| + MAXRHS * n > depth
    case _ => false
  }

  lemma {:induction false} RunComplete(g: Grammar, f: Sets, w: Sets, select: Selects, t: Tables, act: Config -> int,
        depth: nat, c: Config, n: nat, fuel: nat)
    requires Usable(g) && g.goal == START_STATE && Generated(g, select, t) && Analysed(g, f, w, select)
    requires ConflictFree(g, select)
    requires ValidConfig(t, c) && LeftForm(g, c) && Leftmost(g, c.stack, c.input, n) && fuel >= n
    ensures AcceptsRest(act, depth, c, n, Run(t, act, depth, c, fuel))
    decreases n
  {
    hide Usable, Analysed, ConflictFree, LeftForm, Move, Grammar.Valid;
    UsableFacts(g);
    assert t.currTerm == g.currTerm;
    hide Generated;
    if c.stack != [] {
      MoveValid(t, act, depth, c);
      MoveSound(g, select, t, act, depth, c);
      MoveComplete(g, f, w, select, t, act, depth, c, n);
      var r := Move(t, act, depth, c);
      if r.Running? {
        RunComplete(g, f, w, select, t, act, depth, r.c, n - 1, fuel - 1);
      }
    }
  }

  /** A parser that can still produce its input makes progress on it. */
  lemma MoveComplete(g: Grammar, f: Sets, w: Sets, select: Selects, t: Tables, act: Config -> int, depth: nat,
        c: Config, n: nat)
    requires Usable(g) && g.goal == START_STATE && Generated(g, select, t) && Analysed(g, f, w, select)
    requires ConflictFree(g, select)
    requires t.currTerm <= MAXTERM && ValidConfig(t, c) && c.stack != [] && LeftForm(g, c)
    requires Leftmost(g, c.stack, c.input, n)
    ensures n > 0
    ensures match Move(t, act, depth, c)
            case Running(c') =>
              c'.errors == c.errors && Leftmost(g, c'.stack, c'.input, n - 1) && |c'.stack| <= |c.stack| + MAXRHS
            case ActionFailed(code) => code != 0 && code == act(c)
            case Overflow => |c.stack| + MAXRHS > depth
            case _ => false
  {
    hide Usable, Analysed, ConflictFree, Grammar.Valid, Generated, LeftForm, Recover, Closed, Reverse;
    var x := c.stack[0];
    if !IsAct(x) {
      if !IsTerm(x) {
        var p :| p in g.Prods(x) && Leftmost(g, p.rhs + c.stack[1..], c.input, n - 1);
        RightEntry(g, f, w, select, t, c, p, n - 1);
      }
    }
  }

  /** LL(1) completeness. For a grammar without reported conflicts and every sentence of
      it, followed by end of input: from some number of turns on the parser has emptied
      its stack, consumed exactly the sentence and reported no error, unless an action
      asked it to stop or the parse stack was too shallow for the derivation. */
  lemma Completeness(g: Grammar, f: Sets, w: Sets, select: Selects, t: Tables, sentence: seq<Symbol>) returns (n: nat)
    requires Usable(g) && g.goal == START_STATE && Generated(g, select, t) && Analysed(g, f, w, select)
    requires ConflictFree(g, select)
    requires Sentence(g, START_STATE, sentence)
    ensures t.Tokens(sentence)
    ensures forall act: Config -> int, depth: nat, fuel: nat | fuel >= n ::
              match StartRun(t, act, depth, sentence, fuel)
              case Accepted(c) => c == Config([], [], sentence, 0)
              case ActionFailed(code) => code != 0 && exists c0 :: act(c0) == code
              case Overflow => 1 + MAXRHS * n > depth
              case _ => false
  {
    hide Usable, Analysed, ConflictFree, Grammar.Valid, Grammar.ValidProductions, Leftmost, Sentence, Run, Generated,
      StartRun;
    UsableStart(g);
    n := SentenceLeftmost(g, START_STATE, sentence);
    TokensOf(g, select, t, sentence);
    forall act: Config -> int, depth: nat, fuel: nat | fuel >= n
      ensures AcceptsRest(act, depth, Config([START_STATE], sentence, [], 0), n,
        StartRun(t, act, depth, sentence, fuel))
    {
      StartComplete(g, f, w, select, t, act, depth, sentence, n, fuel);
    }
    assert [] + sentence == sentence;
  }

  lemma TokensOf(g: Grammar, select: Selects, t: Tables, sentence: seq<Symbol>)
    requires Usable(g) && g.goal == START_STATE && Generated(g, select, t) && Sentence(g, START_STATE, sentence)
    ensures t.Valid() && t.Tokens(sentence)
  {
    UsableStart(g);
    hide Usable, Grammar.Valid, Sentence;
    SentenceTokens(g, START_STATE, sentence);
  }

  lemma StartComplete(g: Grammar, f: Sets, w: Sets, select: Selects, t: Tables, act: Config -> int, depth: nat,
                      sentence: seq<Symbol>, n: nat, fuel: nat)
    requires Usable(g) && g.goal == START_STATE && Generated(g, select, t) && Analysed(g, f, w, select)
    requires ConflictFree(g, select)
    requires t.Tokens(sentence) && Leftmost(g, [START_STATE], sentence, n) && fuel >= n
    ensures AcceptsRest(act, depth, Config([START_STATE], sentence, [], 0), n,
        StartRun(t, act, depth, sentence, fuel))
  {
    hide Analysed, ConflictFree, Leftmost, Run, AcceptsRest, Usable;
    UsableStart(g);
    var c := Config([START_STATE], sentence, [], 0);
    DerivesRefl(g, [START_STATE]);
    assert [] + c.stack == [START_STATE];
    assert LeftFormBy(g, c, []);
    RunComplete(g, f, w, select, t, act, depth, c, n, fuel);
  }

  lemma SentenceTokens(g: Grammar, x: Symbol, w: seq<Symbol>)
    requires g.Valid() && g.ValidSymbol(x) && Sentence(g, x, w)
    ensures forall i | 0 <= i < |w| :: 1 <= w[i] <= g.currTerm
  {
    var b :| Ground(b) && Derives(g, [x], b) && Erase(b) == w;
    var n: nat :| DerivesIn(g, [x], b, n);
    DerivesValid(g, [x], b, n);
    EraseTokens(g, b);
  }

  lemma EraseTokens(g: Grammar, b: seq<Symbol>)
    requires Ground(b) && g.ValidString(b) && g.currTerm <= MAXTERM
    ensures forall i | 0 <= i < |Erase(b)| :: 1 <= Erase(b)[i] <= g.currTerm
  {
    if b != [] {
      assert b[0] in b;
      EraseTokens(g, b[1..]);
    }
  }
}
