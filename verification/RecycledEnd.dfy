/** Two rules, x?(y?(z?(a))) and a: the last node of the second is a recycled one below the last
    node of the first, and the second rule wins on their common word. */
module RecycledEnd {
  import opened Options
  import opened Nfa
  import opened Regex
  import opened Layouts
  import opened LexGen
  import RuleOrder

  const CLOSE: Token := Token(CLOSE_PAREN, 41)
  const A: Token := Token(L, 97)

  /** An optional character in front of a group. */
  function Before(c: nat, ts: Tokens): Tokens {
    [Token(L, c), Token(OPTIONAL, 63), Token(OPEN_PAREN, 40)] + ts
  }

  const FIRST: Tokens := Before(120, Before(121, Before(122, [A, CLOSE, CLOSE, CLOSE])))
  const RULES: seq<Line> := [Line(FIRST, "first"), Line([A], "second")]

  function Tail(c: nat, r: Regex): Regex {
    Cat(Opt(Char(c)), r)
  }

  const NESTED: Regex := Tail(120, Tail(121, Tail(122, Char(97))))

  // ---------------------------------------------------------------- parsing

  lemma ParseOne(c: nat, rest: Tokens, unix: bool)
    ensures ParseTerm([Token(L, c)] + rest, unix) == Some((Char(c), rest))
  {
    assert ([Token(L, c)] + rest)[1..] == rest;
  }

  /** The tokens that can follow the groups here. */
  predicate Ends(rest: Tokens) {
    rest == [] || rest[0].kind == CLOSE_PAREN
  }

  lemma ParseLast(rest: Tokens, unix: bool)
    requires Ends(rest)
    ensures ParseExpr([A] + rest, unix) == Some((Char(97), rest))
  {
    ParseOne(97, rest, unix);
    hide ParseTerm;
    assert ParseFactor([A] + rest, unix) == Some((Char(97), rest));
    assert ParseCats(Char(97), rest, unix) == Some((Char(97), rest));
  }

  lemma ParseGroup(ts: Tokens, r: Regex, rest: Tokens, unix: bool)
    requires ParseExpr(ts, unix) == Some((r, [CLOSE] + rest)) && Ends(rest)
    ensures ParseFactor([Token(OPEN_PAREN, 40)] + ts, unix) == Some((r, rest))
    ensures ParseCats(Opt(Char(0)), rest, unix) == Some((Opt(Char(0)), rest))
  {
    hide ParseExpr;
    assert ([Token(OPEN_PAREN, 40)] + ts)[1..] == ts && ([CLOSE] + rest)[1..] == rest;
  }

  lemma ParseBefore(c: nat, ts: Tokens, r: Regex, rest: Tokens, unix: bool)
    requires ParseExpr(ts, unix) == Some((r, [CLOSE] + rest)) && Ends(rest)
    ensures ParseExpr(Before(c, ts), unix) == Some((Tail(c, r), rest))
  {
    var group := [Token(OPEN_PAREN, 40)] + ts;
    var all := Before(c, ts);
    assert all == [Token(L, c)] + ([Token(OPTIONAL, 63)] + group);
    assert ([Token(OPTIONAL, 63)] + group)[1..] == group;
    ParseOne(c, [Token(OPTIONAL, 63)] + group, unix);
    assert ParseFactor(all, unix) == Some((Opt(Char(c)), group)) by { hide ParseTerm; }
    ParseGroup(ts, r, rest, unix);
    hide ParseFactor;
    assert ParseCats(Tail(c, r), rest, unix) == Some((Tail(c, r), rest));
    assert ParseCats(Opt(Char(c)), group, unix) == Some((Tail(c, r), rest));
  }

  lemma ParseFirst(unix: bool)
    ensures ParseRule(FIRST, unix) == Some(Rule(NESTED, 0))
  {
    hide ParseExpr;
    assert [A, CLOSE, CLOSE, CLOSE] == [A] + [CLOSE, CLOSE, CLOSE];
    assert [CLOSE, CLOSE, CLOSE] == [CLOSE] + [CLOSE, CLOSE] && [CLOSE, CLOSE] == [CLOSE] + [CLOSE];
    assert [CLOSE] == [CLOSE] + [];
    ParseLast([CLOSE, CLOSE, CLOSE], unix);
    ParseBefore(122, [A, CLOSE, CLOSE, CLOSE], Char(97), [CLOSE, CLOSE], unix);
    ParseBefore(121, Before(122, [A, CLOSE, CLOSE, CLOSE]), Tail(122, Char(97)), [CLOSE], unix);
    ParseBefore(120, Before(121, Before(122, [A, CLOSE, CLOSE, CLOSE])), Tail(121, Tail(122, Char(97))), [], unix);
  }

  lemma ParseSecond(unix: bool)
    ensures ParseRule([A], unix) == Some(Rule(Char(97), 0))
  {
    hide ParseExpr;
    assert [A] == [A] + [];
    ParseLast([], unix);
  }

  // ---------------------------------------------------------------- numbers

  /** The step ends with these numbers. */
  predicate Numbers(n: Need, next: nat, spare: seq<nat>, start: nat, end: nat) {
    n.Left? && n.store.next == next && n.store.spare == spare && n.start == start && n.end == end
  }

  lemma OneNumbers(c: nat, s: Store)
    requires s.spare == [] && s.next + 3 < NFA_MAX
    ensures Numbers(Lay(Char(c), s), s.next + 2, [], s.next, s.next + 1)
  {
  }

  lemma OptNumbers(c: nat, s: Store)
    requires s.spare == [] && s.next + 5 < NFA_MAX
    ensures Numbers(Lay(Opt(Char(c)), s), s.next + 4, [], s.next + 2, s.next + 3)
  {
    OneNumbers(c, s);
    hide Store.Put, Store.At;
  }

  lemma TailNumbers(c: nat, r: Regex, s: Store, next: nat, spare: seq<nat>, start: nat, end: nat)
    requires s.spare == [] && s.next + 5 < NFA_MAX && |spare| < STACK_SIZE
    requires var n := Lay(Opt(Char(c)), s); n.Left? && Numbers(Lay(r, n.store), next, spare, start, end)
    ensures Numbers(Lay(Tail(c, r), s), next, spare + [start], s.next + 2, end)
  {
    OptNumbers(c, s);
    hide Enclose;
  }

  /** The first rule leaves the starts of its groups on the stack. */
  lemma NestedNumbers(s: Store)
    requires s.spare == [] && s.next == 1
    ensures Numbers(Lay(NESTED, s), 15, [13, 11, 7], 3, 14)
  {
    hide Lay;
    OptNumbers(120, s);
    var s1 := Lay(Opt(Char(120)), s).store;
    OptNumbers(121, s1);
    var s2 := Lay(Opt(Char(121)), s1).store;
    OptNumbers(122, s2);
    var s3 := Lay(Opt(Char(122)), s2).store;
    OneNumbers(97, s3);
    TailNumbers(122, Char(97), s2, 15, [], 13, 14);
    TailNumbers(121, Tail(122, Char(97)), s1, 15, [13], 11, 14);
    TailNumbers(120, Tail(121, Tail(122, Char(97))), s, 15, [13, 11], 7, 14);
  }

  lemma SpareNumbers(c: nat, s: Store)
    requires s.spare == [13, 11] && s.next == 15
    ensures Numbers(Lay(Char(c), s), 15, [], 11, 13)
  {
  }

  lemma LineNumbers(line: Line, r: Regex, saved: nat, s: Store, next: nat, spare: seq<nat>, start: nat, end: nat)
    requires Numbers(Lay(r, s), next, spare, start, end) && saved < 100 && |line.action| < 100
    ensures Numbers(LayLine(line, Rule(r, 0), saved, s), next, spare, start, end)
  {
    hide Lay;
  }

  lemma FirstRule()
    ensures WellFormed(RULES, true, 1) && Numbers(LayRules(RULES, true, 1), 15, [13, 11, 7], 0, 14)
  {
    hide Lay, ParseRule, LayLine;
    ParseFirst(true);
    assert LayRules(RULES, true, 0) == Left(EmptyStore(), 0, 0);
    var s := Chained(true, 0, EmptyStore()).store;
    NestedNumbers(s);
    LineNumbers(RULES[0], NESTED, 0, s, 15, [13, 11, 7], 3, 14);
    assert LayRules(RULES, true, 1) == LayNext(RULES, true, 0, Left(EmptyStore(), 0, 0));
  }

  lemma SecondRule()
    ensures WellFormed(RULES, true, 2) && Numbers(LayRules(RULES, true, 2), 15, [], 7, 13)
  {
    hide Lay, ParseRule, LayLine;
    FirstRule();
    ParseFirst(true);
    ParseSecond(true);
    var n := LayRules(RULES, true, 1);
    assert n.store.spare == [13, 11] + [7];
    var s := Chained(false, n.start, n.store).store;
    SpareNumbers(97, s);
    assert SavedAt(RULES, 1) == 3;
    LineNumbers(RULES[1], Char(97), SavedAt(RULES, 1), s, 15, [], 11, 13);
    assert LayRules(RULES, true, 2) == LayNext(RULES, true, 1, n);
  }

  /** The rules of the example get the last nodes 14 and 13. */
  lemma EndsTurned()
    ensures Fits(RULES, true) && EndOf(RULES, true, 0) == 14 && EndOf(RULES, true, 1) == 13
  {
    hide LayRules, ParseRule;
    FirstRule();
    SecondRule();
  }

  /** Both match a, and the second is chosen. */
  lemma LaterRuleWins()
    ensures RuleOrder.First(RULES, true, [97], 0) && RuleMatches(RULES, true, 1, [97])
    ensures Chosen(RULES, true, [97], 1) && !RuleOrder.OrderKept(RULES, true)
  {
    hide LayRules, ParseRule, Matches;
    ParseFirst(true);
    ParseSecond(true);
    EndsTurned();
    NestedMatches();
    hide EndOf, Fits;
    assert RuleMatches(RULES, true, 0, [97]) && RuleMatches(RULES, true, 1, [97]);
    assert !Chosen(RULES, true, [97], 0);
  }

  lemma NestedMatches()
    ensures Matches(NESTED, [97]) && Matches(Char(97), [97])
  {
    TailMatches(122, Char(97), [97]);
    TailMatches(121, Tail(122, Char(97)), [97]);
    TailMatches(120, Tail(121, Tail(122, Char(97))), [97]);
  }

  lemma TailMatches(c: nat, r: Regex, w: seq<int>)
    requires Matches(r, w)
    ensures Matches(Tail(c, r), w)
  {
    assert w[..0] == [] && w[0..] == w;
    assert Matches(Opt(Char(c)), w[..0]);
  }
}
