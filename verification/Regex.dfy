/** Regular expressions: their language, and how the parser of compiler/lex/nfa.c reads
    them from a line of tokens. */
module Regex {
  import opened Options
  import opened Nfa

  datatype Regex =
    | Char(c: int)
    | Chars(cs: CharSet)
    | Cat(left: Regex, right: Regex)
    | Alt(left: Regex, right: Regex)
    | Star(body: Regex)
    | Plus(body: Regex)
    | Opt(body: Regex)

  /** The word `w` belongs to the language of `r`. */
  ghost predicate Matches(r: Regex, w: seq<int>)
    decreases r, 0
  {
    match r
    case Char(c) => w == [c] && c >= 0
    case Chars(cs) => |w| == 1 && w[0] >= 0 && cs.Test(w[0])
    case Cat(a, b) => exists i | 0 <= i <= |w| :: Matches(a, w[..i]) && Matches(b, w[i..])
    case Alt(a, b) => Matches(a, w) || Matches(b, w)
    case Star(a) => exists n: nat :: Repeats(a, w, n)
    case Plus(a) => exists n: nat :: n > 0 && Repeats(a, w, n)
    case Opt(a) => w == [] || Matches(a, w)
  }

  /** `w` is `n` words of the language of `r`, one after the other. */
  ghost predicate Repeats(r: Regex, w: seq<int>, n: nat)
    decreases r, n + 1
  {
    if n == 0 then w == []
    else exists i | 0 <= i <= |w| :: Matches(r, w[..i]) && Repeats(r, w[i..], n - 1)
  }

  // --------------------------------------------------------------- the notation

  datatype Kind =
    | EOS | ANY | AT_BOL | AT_EOL | CCL_END | CCL_START | CLOSE_CURLY | CLOSE_PAREN | CLOSURE
    | DASH | END_OF_INPUT | L | OPEN_CURLY | OPEN_PAREN | OPTIONAL | OR | PLUS_CLOSE

  datatype Token = Token(kind: Kind, lexeme: nat)

  type Tokens = seq<Token>

  /** The current token when `ts` is what is left of the line. */
  function Current(ts: Tokens): Token {
    if ts == [] then Token(EOS, 0) else ts[0]
  }

  /** first_in_cat: can a token start another factor? None if it cannot stand here. */
  function FirstInCat(t: Token): Option<bool> {
    match t.kind
    case CLOSE_PAREN => Some(false)
    case AT_EOL => Some(false)
    case OR => Some(false)
    case EOS => Some(false)
    case CLOSURE => None
    case PLUS_CLOSE => None
    case OPTIONAL => None
    case CCL_END => None
    case AT_BOL => None
    case _ => Some(true)
  }

  /** The newline characters that . and [^...] leave out and $ stands for. */
  function NewLines(unix: bool): set<int> {
    if unix then {10} else {10, 13}
  }

  predicate Between(lo: int, c: int, hi: int) { lo <= c <= hi }

  function Range(lo: int, hi: int): set<int> {
    set c | lo <= c <= hi && Between(lo, c, hi)
  }

  /** The loop of `dodash`, up to the closing bracket. A dash at either end of the class
      ends the program with a warning. */
  function ClassLoop(ts: Tokens, s: set<int>, first: int): (r: Option<(set<int>, Tokens)>)
    ensures r.Some? ==> |r.value.1| <= |ts| && Current(r.value.1).kind == CCL_END
    decreases |ts|
  {
    if Current(ts).kind == EOS then None
    else if ts[0].kind == CCL_END then Some((s, ts))
    else if ts[0].kind != DASH then ClassLoop(ts[1..], s + {ts[0].lexeme}, ts[0].lexeme)
    else if Current(ts[1..]).kind == EOS || ts[1].kind == CCL_END then None
    else
      var last := ts[1].lexeme;
      ClassLoop(ts[2..], s + Range(first, last), if first <= last then last + 1 else first)
  }

  /** A bracketed class, from the token after [ to the one after ]. */
  function ParseClass(ts: Tokens, unix: bool): (r: Option<(CharSet, Tokens)>)
    ensures r.Some? ==> |r.value.1| < |ts|
  {
    var negated := Current(ts).kind == AT_BOL;
    var rest := if negated then ts[1..] else ts;
    var start := if negated then NewLines(unix) else {};
    if Current(rest).kind == CCL_END then
      Some((CharSet(start + Range(0, 32), negated), rest[1..]))
    else if Current(rest).kind == DASH then None
    else
      match ClassLoop(rest, start, 0)
      case None => None
      case Some((s, after)) => Some((CharSet(s, negated), after[1..]))
  }

  /** term: a group, a class or a character. */
  function ParseTerm(ts: Tokens, unix: bool): (r: Option<(Regex, Tokens)>)
    requires FirstInCat(Current(ts)) == Some(true)
    ensures r.Some? ==> |r.value.1| < |ts|
    decreases |ts|, 0
  {
    if ts[0].kind == OPEN_PAREN then
      match ParseExpr(ts[1..], unix)
      case None => None
      case Some((r, rest)) => if Current(rest).kind == CLOSE_PAREN then Some((r, rest[1..])) else None
    else if ts[0].kind == ANY then
      Some((Chars(CharSet(NewLines(unix), true)), ts[1..]))
    else if ts[0].kind == CCL_START then
      match ParseClass(ts[1..], unix)
      case None => None
      case Some((cs, rest)) => Some((Chars(cs), rest))
    else
      Some((Char(ts[0].lexeme), ts[1..]))
  }

  /** factor: a term and at most one closure operator. */
  function ParseFactor(ts: Tokens, unix: bool): (r: Option<(Regex, Tokens)>)
    requires FirstInCat(Current(ts)) == Some(true)
    ensures r.Some? ==> |r.value.1| < |ts|
    decreases |ts|, 1
  {
    match ParseTerm(ts, unix)
    case None => None
    case Some((r, rest)) =>
      match Current(rest).kind
      case CLOSURE => Some((Star(r), rest[1..]))
      case PLUS_CLOSE => Some((Plus(r), rest[1..]))
      case OPTIONAL => Some((Opt(r), rest[1..]))
      case _ => Some((r, rest))
  }

  /** cat_expr: one or more factors. */
  function ParseCat(ts: Tokens, unix: bool): (r: Option<(Regex, Tokens)>)
    ensures r.Some? ==> |r.value.1| < |ts|
    decreases |ts|, 2
  {
    if FirstInCat(Current(ts)) != Some(true) then None
    else
      match ParseFactor(ts, unix)
      case None => None
      case Some((r, rest)) => ParseCats(r, rest, unix)
  }

  function ParseCats(r: Regex, ts: Tokens, unix: bool): (res: Option<(Regex, Tokens)>)
    ensures res.Some? ==> |res.value.1| <= |ts|
    decreases |ts|, 2
  {
    match FirstInCat(Current(ts))
    case None => None
    case Some(false) => Some((r, ts))
    case Some(true) =>
      match ParseFactor(ts, unix)
      case None => None
      case Some((r2, rest)) => ParseCats(Cat(r, r2), rest, unix)
  }

  /** expr: alternatives. */
  function ParseExpr(ts: Tokens, unix: bool): (r: Option<(Regex, Tokens)>)
    ensures r.Some? ==> |r.value.1| < |ts|
    decreases |ts|, 3
  {
    match ParseCat(ts, unix)
    case None => None
    case Some((r, rest)) => ParseAlts(r, rest, unix)
  }

  function ParseAlts(r: Regex, ts: Tokens, unix: bool): (res: Option<(Regex, Tokens)>)
    ensures res.Some? ==> |res.value.1| <= |ts|
    decreases |ts|, 3
  {
    if Current(ts).kind != OR then Some((r, ts))
    else
      match ParseCat(ts[1..], unix)
      case None => None
      case Some((r2, rest)) => ParseAlts(Alt(r, r2), rest, unix)
  }

  /** A rule: its expression, and whether it is anchored in front (1) and behind (2). */
  datatype Rule = Rule(regex: Regex, anchor: nat)

  /** rule, up to the action. An anchor in front is a newline before the expression, one
      behind is a newline character after it. */
  function ParseRule(ts: Tokens, unix: bool): Option<Rule> {
    match ParseAnchored(ts, unix)
    case None => None
    case Some((rule, rest)) => if rest == [] then Some(rule) else None
  }

  function ParseAnchored(ts: Tokens, unix: bool): Option<(Rule, Tokens)> {
    match ParseFront(ts, unix)
    case None => None
    case Some((rule, rest)) =>
      if Current(rest).kind != AT_EOL then Some((rule, rest))
      else Some((Rule(Cat(rule.regex, Chars(CharSet(NewLines(unix), false))), rule.anchor + 2), rest[1..]))
  }

  function ParseFront(ts: Tokens, unix: bool): Option<(Rule, Tokens)> {
    var bol := Current(ts).kind == AT_BOL;
    match ParseExpr(if bol then ts[1..] else ts, unix)
    case None => None
    case Some((r, rest)) =>
      Some((if bol then Rule(Cat(Char(10), r), 1) else Rule(r, 0), rest))
  }
}
