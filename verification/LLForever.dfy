/** A grammar for which the parser never stops: the FIRST rules take a nonterminal that produces
    nothing at all for one that produces the empty string. */
module LLForever {
  import opened Grammars
  import opened Symbols
  import opened First
  import opened Follow
  import opened Select
  import opened LLTable
  import opened LLDriver
  import opened LLTheorems

  /** A: B A; B: ; */
  function Loop(): Grammar {
    Grammar(1, 257, 256, [256, 257], map[256 := [Production(0, 256, [257, 256])], 257 := [Production(1, 257, [])]])
  }

  function A(): Production { Production(0, 256, [257, 256]) }

  function B(): Production { Production(1, 257, []) }

  lemma LoopProds()
    ensures Loop().Prods(256) == [A()] && Loop().Prods(257) == [B()]
    ensures Loop().currTerm == 1 && Loop().goal == 256 && Loop().currNonterm == 257
  {
  }

  /** Both productions are selected by end of input. */
  lemma LoopSelects(f: Sets, w: Sets, select: Selects)
    requires Analysed(Loop(), f, w, select)
    ensures EOI in Tokens(select, A()) && EOI in Tokens(select, B())
  {
    var g := Loop();
    LoopProds();
    assert B() in g.Prods(257) && ProdFirst(g, f, B()) == {g.Epsilon()};
    assert A() in g.Prods(256) && 257 in A().rhs && ProdFirst(g, f, A()) <= At(f, 256);
    assert g.Epsilon() in At(f, 257) && At(f, 257) <= Scan(g, f, A().rhs);
    assert AllNullable(g, f, A().rhs) && AllNullable(g, f, B().rhs);
    assert InitDone(g, f, w, 256) && ClosureDone(g, f, w, 256);
    assert ClosureRule(g, f, w, 256, A().rhs, 0) && A().rhs[1..] == [256];
    AtNoEpsilon(g, w, 256);
    AtNoEpsilon(g, w, 257);
    assert Selected(g, f, NoEpsilon(g, w), select, 256) && Selected(g, f, NoEpsilon(g, w), select, 257);
  }

  lemma OneEntry(select: Selects, p: Production)
    requires EOI in Tokens(select, p)
    ensures EntryOf(select, [p], EOI) == p.num
  {
    assert [p][..0] == [];
  }

  lemma LoopMoves(f: Sets, w: Sets, select: Selects, t: Tables, act: Config -> int, depth: nat)
    requires Analysed(Loop(), f, w, select) && Generated(Loop(), select, t) && depth >= 2
    ensures ValidConfig(t, Config([256], [], [], 0)) && ValidConfig(t, Config([257, 256], [], [], 0))
    ensures Move(t, act, depth, Config([256], [], [], 0)) == Running(Config([257, 256], [], [], 0))
    ensures Move(t, act, depth, Config([257, 256], [], [], 0)) == Running(Config([256], [], [], 0))
  {
    LoopProds();
    LoopSelects(f, w, select);
    OneEntry(select, A());
    OneEntry(select, B());
    hide Loop, Analysed, EntryOf, Tokens;
    assert t.next[0][0] == 0 && t.next[1][0] == 1;
    assert A() in Loop().Prods(256) && B() in Loop().Prods(257);
    ReverseTwice(A().rhs);
    ReverseTwice(B().rhs);
    assert [257, 256][1..] == [256] && [257, 256] + [256][1..] == [257, 256] && [] + [256] == [256];
  }

  /** On the empty text, which is not a sentence, the parser is still running after any number of
      turns. */
  lemma {:induction false} RunsForever(f: Sets, w: Sets, select: Selects, t: Tables, act: Config -> int, depth: nat,
        fuel: nat)
    requires Analysed(Loop(), f, w, select) && Generated(Loop(), select, t) && depth >= 2
    ensures t.Tokens([]) && StartRun(t, act, depth, [], fuel).Running? && !Produces(Loop(), [256], [])
  {
    if n: nat :| Leftmost(Loop(), [256], [], n) { NothingProduced([256], [], n); }
    LoopMoves(f, w, select, t, act, depth);
    hide Analysed, Generated, Move;
    LoopRuns(t, act, depth, fuel);
  }

  lemma {:induction false} LoopRuns(t: Tables, act: Config -> int, depth: nat, fuel: nat)
    requires ValidConfig(t, Config([256], [], [], 0)) && ValidConfig(t, Config([257, 256], [], [], 0))
    requires Move(t, act, depth, Config([256], [], [], 0)) == Running(Config([257, 256], [], [], 0))
    requires Move(t, act, depth, Config([257, 256], [], [], 0)) == Running(Config([256], [], [], 0))
    ensures Run(t, act, depth, Config([256], [], [], 0), fuel).Running?
    ensures Run(t, act, depth, Config([257, 256], [], [], 0), fuel).Running?
  {
    hide Move, ValidConfig;
    if fuel > 0 { LoopRuns(t, act, depth, fuel - 1); }
  }

  /** Nothing is produced from a string with the nonterminal A. */
  lemma {:induction false} NothingProduced(a: seq<Symbol>, w: seq<Symbol>, n: nat)
    requires 256 in a
    ensures !Leftmost(Loop(), a, w, n)
    decreases n
  {
    LoopProds();
    if Leftmost(Loop(), a, w, n) {
      if IsAct(a[0]) {
        assert 256 in a[1..];
        NothingProduced(a[1..], w, n - 1);
      } else if IsTerm(a[0]) {
        assert 256 in a[1..];
        NothingProduced(a[1..], w[1..], n - 1);
      } else {
        var p :| p in Loop().Prods(a[0]) && Leftmost(Loop(), p.rhs + a[1..], w, n - 1);
        OnlyTwo(a[0], p);
        assert a[0] == 256 ==> p.rhs[1] == 256;
        assert a[0] != 256 ==> 256 in a[1..];
        assert 256 in p.rhs + a[1..];
        NothingProduced(p.rhs + a[1..], w, n - 1);
      }
    }
  }

  lemma OnlyTwo(x: Symbol, p: Production)
    requires p in Loop().Prods(x)
    ensures (x == 256 && p == A()) || (x == 257 && p == B())
  {
  }
}
