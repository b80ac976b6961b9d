/** The notation of LeX rules, from the tokens of a rule to the words that it stands for. What the parser
    of compiler/lex/nfa.c reads back from a written rule is a rule of the same meaning. */
module Notation {
  import opened Options
  import opened Nfa
  import opened Regex
  import opened Layouts
  import opened Tables
  import opened LexGen

  /** What can stand between the brackets of a class. */
  datatype Item = One(c: nat) | Span(lo: nat, hi: nat)

  /** An expression as it is meant. */
  datatype Pattern =
    | Lit(c: nat)
    | Dot
    | Class(negated: bool, items: seq<Item>)
    | Seq(left: Pattern, right: Pattern)
    | Or(left: Pattern, right: Pattern)
    | Many(body: Pattern)
    | Several(body: Pattern)
    | Maybe(body: Pattern)

  // ---------------------------------------------------------------- what it means

  predicate Newline(unix: bool, c: int) { c == 10 || (!unix && c == 13) }

  predicate InItem(item: Item, c: int) {
    match item
    case One(x) => c == x
    case Span(lo, hi) => c == lo || lo <= c <= hi
  }

  predicate InItems(items: seq<Item>, c: int) {
    exists i :: 0 <= i < |items| && InItem(items[i], c)
  }

  /** An empty class stands for the blank and everything below it. */
  predicate InBrackets(items: seq<Item>, c: int) {
    if items == [] then 0 <= c <= 32 else InItems(items, c)
  }

  /** The characters of a pattern for one character. */
  predicate OneOf(p: Pattern, unix: bool, c: int)
    requires p.Lit? || p.Dot? || p.Class?
  {
    match p
    case Lit(x) => c == x
    case Dot => !Newline(unix, c)
    case Class(negated, items) =>
      if negated then !InBrackets(items, c) && !Newline(unix, c) else InBrackets(items, c)
  }

  ghost predicate Denotes(p: Pattern, unix: bool, w: seq<int>)
    decreases p, 0
  {
    match p
    case Seq(a, b) => exists i | 0 <= i <= |w| :: Denotes(a, unix, w[..i]) && Denotes(b, unix, w[i..])
    case Or(a, b) => Denotes(a, unix, w) || Denotes(b, unix, w)
    case Many(a) => exists n: nat :: Times(a, unix, w, n)
    case Several(a) => exists n: nat :: n > 0 && Times(a, unix, w, n)
    case Maybe(a) => w == [] || Denotes(a, unix, w)
    case _ => |w| == 1 && w[0] >= 0 && OneOf(p, unix, w[0])
  }

  ghost predicate Times(p: Pattern, unix: bool, w: seq<int>, n: nat)
    decreases p, n + 1
  {
    if n == 0 then w == []
    else exists i | 0 <= i <= |w| :: Denotes(p, unix, w[..i]) && Times(p, unix, w[i..], n - 1)
  }

  ghost predicate SameWords(r: Regex, p: Pattern, unix: bool) {
    forall w :: Matches(r, w) <==> Denotes(p, unix, w)
  }

  // -------------------------------------------------------------- how it is written

  const OPEN: Token := Token(OPEN_PAREN, 40)
  const CLOSE: Token := Token(CLOSE_PAREN, 41)
  const STAR: Token := Token(CLOSURE, 42)
  const PLUS: Token := Token(PLUS_CLOSE, 43)
  const MINUS: Token := Token(DASH, 45)
  const STOP: Token := Token(ANY, 46)
  const QUERY: Token := Token(OPTIONAL, 63)
  const OPEN_CLASS: Token := Token(CCL_START, 91)
  const CLOSE_CLASS: Token := Token(CCL_END, 93)
  const CARET: Token := Token(AT_BOL, 94)
  const BAR: Token := Token(OR, 124)
  const DOLLAR: Token := Token(AT_EOL, 36)

  function Character(c: nat): Token { Token(L, c) }

  function ItemTokens(items: seq<Item>): Tokens {
    if items == [] then []
    else (match items[0]
          case One(c) => [Character(c)]
          case Span(lo, hi) => [Character(lo), MINUS, Character(hi)]) + ItemTokens(items[1..])
  }

  /** How tightly it binds: alternatives, then sequences, then operators, then single characters. */
  function Binds(p: Pattern): nat {
    match p
    case Or(_, _) => 0
    case Seq(_, _) => 1
    case Many(_) => 2
    case Several(_) => 2
    case Maybe(_) => 2
    case _ => 3
  }

  /** The tokens where something that binds at least as tightly as `level` has to stand. */
  function Print(p: Pattern, level: nat): Tokens
    decreases p, 1
  {
    if Binds(p) >= level then Bare(p) else [OPEN] + Bare(p) + [CLOSE]
  }

  function Bare(p: Pattern): Tokens
    decreases p, 0
  {
    match p
    case Lit(c) => [Character(c)]
    case Dot => [STOP]
    case Class(negated, items) =>
      [OPEN_CLASS] + (if negated then [CARET] else []) + ItemTokens(items) + [CLOSE_CLASS]
    case Or(a, b) => Print(a, 0) + [BAR] + Print(b, 1)
    case Seq(a, b) => Print(a, 1) + Print(b, 2)
    case Many(a) => Print(a, 3) + [STAR]
    case Several(a) => Print(a, 3) + [PLUS]
    case Maybe(a) => Print(a, 3) + [QUERY]
  }

  // ------------------------------------------------------------------ classes

  lemma InFront(items: seq<Item>, c: int)
    requires items != []
    ensures InItems(items, c) <==> InItem(items[0], c) || InItems(items[1..], c)
  {
    if i :| 0 <= i < |items| && InItem(items[i], c) {
      if i > 0 { assert InItem(items[1..][i - 1], c); }
    }
    if i :| 0 <= i < |items[1..]| && InItem(items[1..][i], c) { assert InItem(items[i + 1], c); }
  }

  /** The loop of dodash collects the characters of the items. */
  lemma {:induction false} ItemsRead(items: seq<Item>, rest: Tokens, s: set<int>, first: int) returns (s': set<int>)
    ensures ClassLoop(ItemTokens(items) + [CLOSE_CLASS] + rest, s, first) == Some((s', [CLOSE_CLASS] + rest))
    ensures forall c :: c in s' <==> c in s || InItems(items, c)
    decreases |items|
  {
    hide InItems, ClassLoop, Range;
    var ts := ItemTokens(items) + [CLOSE_CLASS] + rest;
    if items == [] {
      assert ts == [CLOSE_CLASS] + rest;
      ClassEnds(ts, s, first);
      NoItems();
      s' := s;
    } else {
      var more := ItemTokens(items[1..]) + [CLOSE_CLASS] + rest;
      match items[0] {
        case One(c) =>
          assert ts == [Character(c)] + more;
          ReadOne(c, more, s, first);
          s' := ItemsRead(items[1..], rest, s + {c}, c);
        case Span(lo, hi) =>
          assert ts == [Character(lo), MINUS, Character(hi)] + more;
          ReadSpan(lo, hi, more, s, first);
          s' := ItemsRead(items[1..], rest, s + {lo} + Range(lo, hi), if lo <= hi then hi + 1 else lo);
      }
      forall c ensures c in s' <==> c in s || InItems(items, c) {
        InFront(items, c);
      }
    }
  }

  lemma NoItems()
    ensures forall c :: !InItems([], c)
  {
  }

  lemma ClassEnds(ts: Tokens, s: set<int>, first: int)
    requires ts != [] && ts[0].kind == CCL_END
    ensures ClassLoop(ts, s, first) == Some((s, ts))
  {
  }

  lemma ReadOne(c: nat, more: Tokens, s: set<int>, first: int)
    ensures ClassLoop([Character(c)] + more, s, first) == ClassLoop(more, s + {c}, c)
  {
    assert ([Character(c)] + more)[1..] == more;
  }

  lemma ReadSpan(lo: nat, hi: nat, more: Tokens, s: set<int>, first: int)
    ensures ClassLoop([Character(lo), MINUS, Character(hi)] + more, s, first) ==
      ClassLoop(more, s + {lo} + Range(lo, hi), if lo <= hi then hi + 1 else lo)
    ensures forall c :: c in Range(lo, hi) <==> lo <= c <= hi
  {
    hide Range;
    var dash := [MINUS, Character(hi)] + more;
    assert [Character(lo), MINUS, Character(hi)] + more == [Character(lo)] + dash;
    ReadOne(lo, dash, s, first);
    assert dash[1..] == [Character(hi)] + more && dash[2..] == more;
    RangeHas(lo, hi);
  }

  lemma RangeHas(lo: int, hi: int)
    ensures forall c :: c in Range(lo, hi) <==> lo <= c <= hi
  {
    forall c ensures c in Range(lo, hi) <==> lo <= c <= hi {
      assert Between(lo, c, hi) <==> lo <= c <= hi;
    }
  }

  lemma NewlinesAre(unix: bool)
    ensures forall c :: c in NewLines(unix) <==> Newline(unix, c)
  {
  }

  function ClassBody(negated: bool, items: seq<Item>, rest: Tokens): Tokens {
    (if negated then [CARET] else []) + (ItemTokens(items) + [CLOSE_CLASS] + rest)
  }

  /** A class is read as the set of its characters. */
  lemma ClassReads(negated: bool, items: seq<Item>, unix: bool, rest: Tokens) returns (cs: CharSet)
    ensures Bare(Class(negated, items)) + rest == [OPEN_CLASS] + ClassBody(negated, items, rest)
    ensures ParseClass(ClassBody(negated, items, rest), unix) == Some((cs, rest))
    ensures forall c :: cs.Test(c) <==> OneOf(Class(negated, items), unix, c)
  {
    hide ClassLoop, InItems, NewLines, ItemTokens, ParseClass, Range;
    var body := ItemTokens(items) + [CLOSE_CLASS] + rest;
    var start := if negated then NewLines(unix) else {};
    NewlinesAre(unix);
    var s;
    if items == [] {
      NoTokens();
      assert body == [CLOSE_CLASS] + rest;
      RangeHas(0, 32);
      EmptyReads(negated, rest, unix);
      s := start + Range(0, 32);
    } else {
      s := ItemsRead(items, rest, start, 0);
      ItemFirst(items, [CLOSE_CLASS] + rest);
      assert ItemTokens(items) + ([CLOSE_CLASS] + rest) == body;
      BodyReads(negated, body, s, rest, unix);
    }
    cs := CharSet(s, negated);
    assert Bare(Class(negated, items)) ==
      [OPEN_CLASS] + (if negated then [CARET] else []) + ItemTokens(items) + [CLOSE_CLASS];
  }

  lemma NoTokens()
    ensures ItemTokens([]) == []
  {
  }

  lemma EmptyReads(negated: bool, rest: Tokens, unix: bool)
    ensures ParseClass((if negated then [CARET] else []) + ([CLOSE_CLASS] + rest), unix) ==
      Some((CharSet((if negated then NewLines(unix) else {}) + Range(0, 32), negated), rest))
  {
    hide NewLines, Range;
    var body := [CLOSE_CLASS] + rest;
    assert body[1..] == rest;
    if negated {
      assert ([CARET] + body)[1..] == body;
    } else {
      assert [] + body == body;
    }
  }

  lemma BodyReads(negated: bool, body: Tokens, s: set<int>, rest: Tokens, unix: bool)
    requires Current(body).kind == L
    requires ClassLoop(body, if negated then NewLines(unix) else {}, 0) == Some((s, [CLOSE_CLASS] + rest))
    ensures ParseClass((if negated then [CARET] else []) + body, unix) == Some((CharSet(s, negated), rest))
  {
    hide ClassLoop, NewLines;
    assert ([CLOSE_CLASS] + rest)[1..] == rest;
    if negated {
      assert ([CARET] + body)[1..] == body;
    } else {
      assert [] + body == body;
    }
  }

  lemma ItemFirst(items: seq<Item>, rest: Tokens)
    requires items != []
    ensures Current(ItemTokens(items) + rest).kind == L
  {
  }

  // ------------------------------------------------------------------ operators

  lemma SameOne(r: Regex, p: Pattern, unix: bool)
    requires p.Lit? || p.Dot? || p.Class?
    requires (r.Char? && p.Lit? && p.c == r.c) || (r.Chars? && forall c :: r.cs.Test(c) <==> OneOf(p, unix, c))
    ensures SameWords(r, p, unix)
  {
    hide OneOf, CharSet.Test;
    forall w ensures Matches(r, w) <==> Denotes(p, unix, w) {
      if r.Char? && |w| == 1 { LitIs(p, unix, w[0]); }
    }
  }

  lemma LitIs(p: Pattern, unix: bool, c: int)
    requires p.Lit?
    ensures OneOf(p, unix, c) <==> c == p.c
  {
  }

  lemma SameSeq(a: Regex, b: Regex, p: Pattern, q: Pattern, unix: bool)
    requires SameWords(a, p, unix) && SameWords(b, q, unix)
    ensures SameWords(Cat(a, b), Seq(p, q), unix)
  {
    forall w ensures Matches(Cat(a, b), w) <==> Denotes(Seq(p, q), unix, w) {
      assert forall i | 0 <= i <= |w| ::
        (Matches(a, w[..i]) && Matches(b, w[i..])) <==> (Denotes(p, unix, w[..i]) && Denotes(q, unix, w[i..]));
    }
  }

  lemma SameOn(a: Regex, p: Pattern, unix: bool, w: seq<int>)
    requires SameWords(a, p, unix)
    ensures Matches(a, w) <==> Denotes(p, unix, w)
  {
    hide Matches, Denotes;
  }

  lemma {:induction false} SameTimes(a: Regex, p: Pattern, unix: bool, w: seq<int>, n: nat)
    requires SameWords(a, p, unix)
    ensures Repeats(a, w, n) <==> Times(p, unix, w, n)
    decreases n
  {
    hide SameWords;
    if n > 0 {
      forall i | 0 <= i <= |w|
        ensures (Matches(a, w[..i]) && Repeats(a, w[i..], n - 1)) <==>
                (Denotes(p, unix, w[..i]) && Times(p, unix, w[i..], n - 1))
      {
        SameOn(a, p, unix, w[..i]);
        SameTimes(a, p, unix, w[i..], n - 1);
      }
    }
  }

  lemma SameOperators(a: Regex, p: Pattern, unix: bool)
    requires SameWords(a, p, unix)
    ensures SameWords(Star(a), Many(p), unix) && SameWords(Plus(a), Several(p), unix)
    ensures SameWords(Regex.Opt(a), Maybe(p), unix)
  {
    forall w, n: nat ensures Repeats(a, w, n) <==> Times(p, unix, w, n) {
      SameTimes(a, p, unix, w, n);
    }
    forall w ensures Matches(Star(a), w) <==> Denotes(Many(p), unix, w) {
    }
    forall w ensures Matches(Plus(a), w) <==> Denotes(Several(p), unix, w) {
    }
  }

  lemma SameAlt(a: Regex, b: Regex, p: Pattern, q: Pattern, unix: bool)
    requires SameWords(a, p, unix) && SameWords(b, q, unix)
    ensures SameWords(Alt(a, b), Or(p, q), unix)
  {
  }

  // ----------------------------------------------------------------- reading it back

  /** The number of levels to go through before the pattern is read at the level it is on. */
  function Distance(level: nat, p: Pattern): nat
    requires level <= 3
  {
    if level <= Binds(p) then Binds(p) - level else 4 - level + Binds(p)
  }

  predicate OperatorNext(ts: Tokens) {
    Current(ts).kind == CLOSURE || Current(ts).kind == PLUS_CLOSE || Current(ts).kind == OPTIONAL
  }

  /** No factor can begin here. */
  predicate FactorsEnd(ts: Tokens) { FirstInCat(Current(ts)) == Some(false) }

  /** What is printed begins with something that can begin a factor. */
  lemma {:induction false} PrintStarts(p: Pattern, level: nat, rest: Tokens)
    ensures Print(p, level) != [] && FirstInCat(Current(Print(p, level) + rest)) == Some(true)
    decreases p
  {
    match p
    case Or(a, b) => PrintStarts(a, 0, [BAR] + Print(b, 1));
    case Seq(a, b) => PrintStarts(a, 1, Print(b, 2));
    case Many(a) => PrintStarts(a, 3, [STAR]);
    case Several(a) => PrintStarts(a, 3, [PLUS]);
    case Maybe(a) => PrintStarts(a, 3, [QUERY]);
    case _ =>
  }

  lemma Assoc(a: Tokens, b: Tokens, c: Tokens)
    ensures a + b + c == a + (b + c)
  {
  }

  lemma {:induction false} ExprReads(p: Pattern, unix: bool, rest: Tokens) returns (r: Regex)
    requires FactorsEnd(rest)
    ensures ParseExpr(Print(p, 0) + rest, unix) == ParseAlts(r, rest, unix) && SameWords(r, p, unix)
    decreases p, Distance(0, p)
  {
    hide ParseCat, ParseCats, SameWords, Current;
    if p.Or? {
      var b := Print(p.right, 1) + rest;
      Assoc(Print(p.left, 0), [BAR], Print(p.right, 1));
      assert Print(p, 0) + rest == Print(p.left, 0) + ([BAR] + b);
      BarEnds(b);
      var r1 := ExprReads(p.left, unix, [BAR] + b);
      var r2 := CatReads(p.right, unix, rest);
      CatsEnd(r2, rest, unix);
      r := Alt(r1, r2);
      AltsNext(r1, r2, b, rest, unix);
      SameAlt(r1, r2, p.left, p.right, unix);
    } else {
      assert Print(p, 0) == Print(p, 1);
      r := CatReads(p, unix, rest);
      CatsEnd(r, rest, unix);
    }
  }

  lemma BarEnds(b: Tokens)
    ensures FactorsEnd([BAR] + b)
  {
  }

  lemma CatsEnd(r: Regex, rest: Tokens, unix: bool)
    requires FactorsEnd(rest)
    ensures ParseCats(r, rest, unix) == Some((r, rest)) && !OperatorNext(rest)
  {
  }

  lemma AltsNext(r1: Regex, r2: Regex, b: Tokens, rest: Tokens, unix: bool)
    requires ParseCat(b, unix) == Some((r2, rest))
    ensures ParseAlts(r1, [BAR] + b, unix) == ParseAlts(Alt(r1, r2), rest, unix)
  {
    hide ParseCat;
    assert ([BAR] + b)[1..] == b;
  }

  lemma {:induction false} CatReads(p: Pattern, unix: bool, rest: Tokens) returns (r: Regex)
    requires !OperatorNext(rest)
    ensures ParseCat(Print(p, 1) + rest, unix) == ParseCats(r, rest, unix) && SameWords(r, p, unix)
    decreases p, Distance(1, p)
  {
    hide ParseFactor, SameWords, Current, OperatorNext;
    if p.Seq? {
      var b := Print(p.right, 2) + rest;
      assert Print(p, 1) + rest == Print(p.left, 1) + b;
      PrintStarts(p.right, 2, rest);
      NoOperator(b);
      var r1 := CatReads(p.left, unix, b);
      var r2 := FactorReads(p.right, unix, rest);
      r := Cat(r1, r2);
      SameSeq(r1, r2, p.left, p.right, unix);
    } else {
      assert Print(p, 1) == Print(p, 2);
      PrintStarts(p, 2, rest);
      r := FactorReads(p, unix, rest);
    }
  }

  lemma NoOperator(ts: Tokens)
    requires FirstInCat(Current(ts)) == Some(true)
    ensures !OperatorNext(ts)
  {
  }

  lemma {:induction false} FactorReads(p: Pattern, unix: bool, rest: Tokens) returns (r: Regex)
    requires !OperatorNext(rest)
    ensures FirstInCat(Current(Print(p, 2) + rest)) == Some(true)
    ensures ParseFactor(Print(p, 2) + rest, unix) == Some((r, rest)) && SameWords(r, p, unix)
    decreases p, Distance(2, p)
  {
    hide ParseTerm, SameWords;
    PrintStarts(p, 2, rest);
    if Binds(p) == 2 {
      var op := if p.Many? then STAR else if p.Several? then PLUS else QUERY;
      assert Print(p, 2) + rest == Print(p.body, 3) + ([op] + rest);
      var r1 := TermReads(p.body, unix, [op] + rest);
      assert ([op] + rest)[1..] == rest;
      r := if p.Many? then Star(r1) else if p.Several? then Plus(r1) else Regex.Opt(r1);
      SameOperators(r1, p.body, unix);
    } else {
      assert Print(p, 2) == Print(p, 3);
      r := TermReads(p, unix, rest);
    }
  }

  lemma {:induction false} TermReads(p: Pattern, unix: bool, rest: Tokens) returns (r: Regex)
    ensures FirstInCat(Current(Print(p, 3) + rest)) == Some(true)
    ensures ParseTerm(Print(p, 3) + rest, unix) == Some((r, rest)) && SameWords(r, p, unix)
    decreases p, Distance(3, p)
  {
    hide ParseExpr, ParseClass, SameWords;
    PrintStarts(p, 3, rest);
    if Binds(p) == 3 {
      r := OneReads(p, unix, rest);
    } else {
      assert Print(p, 3) + rest == [OPEN] + (Print(p, 0) + ([CLOSE] + rest));
      assert ([OPEN] + (Print(p, 0) + ([CLOSE] + rest)))[1..] == Print(p, 0) + ([CLOSE] + rest);
      r := ExprReads(p, unix, [CLOSE] + rest);
      assert ParseAlts(r, [CLOSE] + rest, unix) == Some((r, [CLOSE] + rest)) && ([CLOSE] + rest)[1..] == rest;
    }
  }

  lemma OneReads(p: Pattern, unix: bool, rest: Tokens) returns (r: Regex)
    requires Binds(p) == 3
    ensures Print(p, 3) == Bare(p) && FirstInCat(Current(Bare(p) + rest)) == Some(true)
    ensures ParseTerm(Bare(p) + rest, unix) == Some((r, rest)) && SameWords(r, p, unix)
  {
    hide ParseClass, SameWords, NewLines, OneOf;
    match p {
      case Lit(c) =>
        assert ([Character(c)] + rest)[1..] == rest;
        r := Char(c);
      case Dot =>
        assert ([STOP] + rest)[1..] == rest;
        r := Chars(CharSet(NewLines(unix), true));
        DotIs(unix);
      case Class(negated, items) =>
        var cs := ClassReads(negated, items, unix, rest);
        assert ([OPEN_CLASS] + ClassBody(negated, items, rest))[1..] == ClassBody(negated, items, rest);
        r := Chars(cs);
    }
    SameOne(r, p, unix);
  }

  lemma DotIs(unix: bool)
    ensures forall c :: CharSet(NewLines(unix), true).Test(c) <==> OneOf(Dot, unix, c)
  {
    NewlinesAre(unix);
  }

  // ----------------------------------------------------------------------- rules

  /** A rule with its anchors. */
  datatype WrittenRule = WrittenRule(pattern: Pattern, front: bool, back: bool)

  function RuleTokens(r: WrittenRule): Tokens {
    (if r.front then [CARET] else []) + (Print(r.pattern, 0) + if r.back then [DOLLAR] else [])
  }

  /** An anchor in front stands for a line feed, one behind for a newline character. */
  ghost predicate RuleDenotes(r: WrittenRule, unix: bool, w: seq<int>) {
    var lo, hi := if r.front then 1 else 0, |w| - if r.back then 1 else 0;
    && lo <= hi && (r.front ==> w[0] == 10) && (r.back ==> Newline(unix, w[hi]))
    && Denotes(r.pattern, unix, w[lo..hi])
  }

  lemma RuleReads(r: WrittenRule, unix: bool) returns (rule: Rule)
    ensures ParseRule(RuleTokens(r), unix) == Some(rule)
    ensures rule.anchor == (if r.front then 1 else 0) + (if r.back then 2 else 0)
    ensures forall w :: Matches(rule.regex, w) <==> RuleDenotes(r, unix, w)
  {
    hide ParseExpr, SameWords, NewLines, Matches, Denotes;
    var end := if r.back then [DOLLAR] else [];
    var ts, body := RuleTokens(r), Print(r.pattern, 0) + end;
    PrintStarts(r.pattern, 0, end);
    var re := ExprReads(r.pattern, unix, end);
    assert ParseAlts(re, end, unix) == Some((re, end));
    if r.front {
      assert ([CARET] + body)[1..] == body;
    } else {
      assert [] + body == body;
    }
    var inner := if r.front then Cat(Char(10), re) else re;
    assert ParseFront(ts, unix) == Some((Rule(inner, if r.front then 1 else 0), end));
    assert r.back ==> end[1..] == [];
    rule := ParseRule(ts, unix).value;
    forall w ensures Matches(rule.regex, w) <==> RuleDenotes(r, unix, w) {
      if r.back { BackIs(inner, unix, w); }
      var v := if r.back && w != [] then w[..|w| - 1] else w;
      if r.front { FrontIs(re, v); }
      var u := if r.front && v != [] then v[1..] else v;
      SameOn(re, r.pattern, unix, u);
      Stripped(r, w);
    }
  }

  lemma Stripped(r: WrittenRule, w: seq<int>)
    ensures var lo, hi := if r.front then 1 else 0, |w| - if r.back then 1 else 0;
      lo <= hi ==>
        var v := if r.back && w != [] then w[..|w| - 1] else w;
        w[lo..hi] == if r.front && v != [] then v[1..] else v
  {
  }

  lemma FrontIs(re: Regex, w: seq<int>)
    ensures Matches(Cat(Char(10), re), w) <==> w != [] && w[0] == 10 && Matches(re, w[1..])
  {
    if w != [] && w[0] == 10 && Matches(re, w[1..]) { assert w[..1] == [10]; }
  }

  lemma BackIs(re: Regex, unix: bool, w: seq<int>)
    ensures Matches(Cat(re, Chars(CharSet(NewLines(unix), false))), w) <==>
      w != [] && Newline(unix, w[|w| - 1]) && Matches(re, w[..|w| - 1])
  {
    NewlinesAre(unix);
    hide NewLines;
    var nl := Chars(CharSet(NewLines(unix), false));
    if w != [] && Newline(unix, w[|w| - 1]) && Matches(re, w[..|w| - 1]) {
      assert w[|w| - 1..] == [w[|w| - 1]] && Matches(nl, w[|w| - 1..]);
    }
  }

  // ----------------------------------------------------------------------- files

  /** The rules of the file, written like this. */
  ghost predicate FileOf(lines: seq<Line>, rules: seq<WrittenRule>) {
    |lines| == |rules| && forall j | 0 <= j < |rules| ::
      lines[j].tokens == RuleTokens(rules[j])
  }

  lemma MatchesIs(lines: seq<Line>, rules: seq<WrittenRule>, unix: bool, j: int, w: seq<int>)
    requires FileOf(lines, rules)
    ensures RuleMatches(lines, unix, j, w) <==> 0 <= j < |rules| && RuleDenotes(rules[j], unix, w)
  {
    hide Matches, RuleDenotes, RuleTokens, ParseRule;
    if 0 <= j < |rules| {
      assert lines[j].tokens == RuleTokens(rules[j]);
      var rule := RuleReads(rules[j], unix);
    }
  }

  /** What a table for the rules accepts, in terms of what has been written. */
  lemma TableDenotes(lines: seq<Line>, rules: seq<WrittenRule>, unix: bool, t: Table, w: seq<int>)
    requires FileOf(lines, rules) && Implements(lines, unix, t) && IsWord(w)
    ensures var q := Run(t, 0, w);
      q != F && t.accepts[q].action != NONE <==> exists j :: 0 <= j < |rules| && RuleDenotes(rules[j], unix, w)
  {
    hide RuleDenotes, FileOf, RuleMatches;
    assert Right(lines, unix, t, w);
    if j :| RuleMatches(lines, unix, j, w) { MatchesIs(lines, rules, unix, j, w); }
    if j :| 0 <= j < |rules| && RuleDenotes(rules[j], unix, w) { MatchesIs(lines, rules, unix, j, w); }
  }

  /** With one rule for a single character, a dot or a class, the table accepts exactly the characters
      that it is meant for. */
  lemma OneCharacterRule(p: Pattern, action: string, unix: bool, t: Table, c: int)
    requires (p.Lit? || p.Dot? || p.Class?) && 0 <= c < 128
    requires Implements([Line(RuleTokens(WrittenRule(p, false, false)), action)], unix, t)
    ensures IsWord([c])
    ensures var q := Run(t, 0, [c]); q != F && t.accepts[q].action != NONE <==> OneOf(p, unix, c)
  {
    hide RuleTokens, Implements, Denotes, OneOf, Run;
    var rule := WrittenRule(p, false, false);
    TableDenotes([Line(RuleTokens(rule), action)], [rule], unix, t, [c]);
    assert [c][0..1] == [c];
    OneDenotes(p, unix, c);
    assert RuleDenotes([rule][0], unix, [c]) <==> OneOf(p, unix, c);
  }

  lemma OneDenotes(p: Pattern, unix: bool, c: int)
    requires (p.Lit? || p.Dot? || p.Class?) && c >= 0
    ensures Denotes(p, unix, [c]) <==> OneOf(p, unix, c)
  {
  }

  /** The tokens of such a rule, spelled out. */
  lemma OneCharacterTokens(negated: bool, items: seq<Item>)
    ensures RuleTokens(WrittenRule(Dot, false, false)) == [Token(ANY, 46)]
    ensures RuleTokens(WrittenRule(Class(negated, items), false, false)) ==
      [Token(CCL_START, 91)] + (if negated then [Token(AT_BOL, 94)] else []) + ItemTokens(items) + [Token(CCL_END, 93)]
  {
    var p := Class(negated, items);
    assert Print(p, 0) == Bare(p) && [] + (Bare(p) + []) == Bare(p);
    assert [] + ([STOP] + []) == [STOP];
  }
}
