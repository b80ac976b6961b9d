/** What the builder of compiler/lex/nfa.c makes of the rules, as functions of the expressions:
    which nodes it takes, links and recycles, and when it gives up. */
module Layouts {
  import opened Options
  import opened Nfa
  import opened Regex

  const STACK_SIZE: nat := 32

  datatype Limit = TooLong | StackFull | StringsFull

  /** Fine, or the reason for which the program gives up. */
  datatype Outcome = Fine | Malformed | Exceeds(limit: Limit)

  const NOTHING: CharSet := CharSet({}, false)
  const BLANK: Node := Node(EMPTY, NOTHING, NONE, NONE, NONE, 0)

  // ---------------------------------------------------------------- actions

  const STR_MAX: nat := 10 * 1024

  /** One rule of the input: the tokens of its expression, and its action. */
  datatype Line = Line(tokens: Tokens, action: string)
  {
    /** The rule has the action of the next one. */
    predicate Bar() { action != "" && action[0] == '|' }
  }

  /** The words of memory that the action and its final null take. */
  function Words(action: string): (n: nat)
    ensures n > 0 && 4 * (n - 1) <= |action| < 4 * n
  {
    (|action| + 1) / 4 + if (|action| + 1) % 4 != 0 then 1 else 0
  }

  /** Where `save` is in its memory before rule `i`; each action has a line number in front. */
  function SavedAt(lines: seq<Line>, i: nat): (a: nat)
    requires i <= |lines|
  {
    if i == 0 then 0
    else SavedAt(lines, i - 1) + if lines[i - 1].Bar() then 0 else 1 + Words(lines[i - 1].action)
  }

  function Address(lines: seq<Line>, i: nat): nat
    requires i < |lines|
  {
    SavedAt(lines, i) + 1
  }

  lemma {:induction false} SavedGrows(lines: seq<Line>, i: nat, j: nat)
    requires i <= j <= |lines|
    ensures SavedAt(lines, i) <= SavedAt(lines, j)
    ensures SavedAt(lines, i) == SavedAt(lines, j) <==> forall k | i <= k < j :: lines[k].Bar()
  {
    if i < j {
      SavedGrows(lines, i, j - 1);
    }
  }

  /** Two rules have the same action exactly if each from the first up to the second
      passes it on. */
  lemma SameAction(lines: seq<Line>, i: nat, j: nat)
    requires i <= j < |lines|
    ensures Address(lines, i) == Address(lines, j) <==> forall k | i <= k < j :: lines[k].Bar()
  {
    SavedGrows(lines, i, j);
  }

  // ------------------------------------------------------------------ nodes

  /** The node array, how many of its nodes have been handed out, and the stack of those that may
      be used again. */
  datatype Store = Store(m: Machine, next: nat, spare: seq<nat>)
  {
    function InUse(): int { next - |spare| }

    function At(n: int): Node { if 0 <= n < |m| then m[n] else BLANK }

    function Put(n: int, node: Node): Store { if 0 <= n < |m| then this.(m := m[n := node]) else this }

    function Link(n: int, next: int): Store { Put(n, At(n).(next := next)) }

    function LinkBoth(n: int, next: int, next2: int): Store { Put(n, At(n).(next := next, next2 := next2)) }

    function Label(n: int, edge: int, bitset: CharSet): Store { Put(n, At(n).(edge := edge, bitset := bitset)) }
  }

  function EmptyStore(): Store { Store(seq(NFA_MAX, _ => BLANK.(edge := 0)), 0, []) }

  /** What a step leaves, with the first and the last node of what it has made; or the limit that
      it exceeds. */
  datatype Need = Left(store: Store, start: nat, end: nat) | Lacks(limit: Limit)
  {
    function Result(): Outcome {
      if Lacks? then Exceeds(limit) else Fine
    }

    predicate Is(store: Store, start: int, end: int) {
      Left? && this.store == store && this.start == start && this.end == end
    }
  }

  /** new: a recycled node if there is one, else the next of the array. */
  function TakeNode(s: Store): Need {
    if s.InUse() + 1 >= NFA_MAX then Lacks(TooLong)
    else if s.spare == [] then Left(s.Put(s.next, s.At(s.next).(edge := EPSILON)).(next := s.next + 1), s.next, s.next)
    else
      var p := s.spare[|s.spare| - 1];
      Left(s.Put(p, s.At(p).(edge := EPSILON)).(spare := s.spare[..|s.spare| - 1]), p, p)
  }

  function TakeTwo(s: Store): Need {
    var a := TakeNode(s);
    if a.Lacks? then a
    else
      var b := TakeNode(a.store);
      if b.Lacks? then b else Left(b.store, a.start, b.start)
  }

  /** discard. */
  function PutBack(s: Store, n: nat): Need {
    if |s.spare| == STACK_SIZE then Lacks(StackFull) else Left(s.Put(n, BLANK).(spare := s.spare + [n]), n, n)
  }

  /** Two nodes with an edge between them. */
  function LayPair(s: Store): Need {
    var n := TakeTwo(s);
    if n.Lacks? then n else Left(n.store.Link(n.start, n.end), n.start, n.end)
  }

  function LayLeaf(edge: int, bitset: CharSet, s: Store): Need {
    var n := LayPair(s);
    if n.Lacks? then n else Left(n.store.Label(n.start, edge, bitset), n.start, n.end)
  }

  /** The loop of expr: a fork in front, and a common end. */
  function Join(s1: nat, e1: nat, s2: nat, e2: nat, s: Store): Need {
    var a := TakeNode(s);
    if a.Lacks? then a
    else
      var b := TakeNode(a.store.LinkBoth(a.start, s1, s2));
      if b.Lacks? then b else Left(b.store.Link(e1, b.start).Link(e2, b.start), a.start, b.start)
  }

  /** The loop of cat_expr: the start of the second is copied over the end of the first. */
  function Merge(s1: nat, e1: nat, s2: nat, e2: nat, s: Store): Need {
    var n := PutBack(s.Put(e1, s.At(s2)), s2);
    if n.Lacks? then n else Left(n.store, s1, e2)
  }

  /** The links that the closure operators of factor set. */
  function Looped(s1: nat, e1: nat, p: nat, q: nat, opt: bool, rep: bool, s: Store): Store {
    var s := s.Link(p, s1).Link(e1, q);
    var s := if opt then s.LinkBoth(p, s1, q) else s;
    if rep then s.LinkBoth(e1, q, s1) else s
  }

  function Enclose(n: Need, opt: bool, rep: bool): Need {
    if n.Lacks? then n
    else
      var a := TakeTwo(n.store);
      if a.Lacks? then a
      else Left(Looped(n.start, n.end, a.start, a.end, opt, rep, a.store), a.start, a.end)
  }

  datatype Joint = Beside | Behind

  function Combine(joint: Joint, s1: nat, e1: nat, n: Need): Need {
    if n.Lacks? then n
    else if joint == Beside then Join(s1, e1, n.start, n.end, n.store)
    else Merge(s1, e1, n.start, n.end, n.store)
  }

  /** The nodes of a regular expression. */
  function Lay(r: Regex, s: Store): Need {
    match r
    case Char(c) => LayLeaf(c, NOTHING, s)
    case Chars(cs) => LayLeaf(CCL, cs, s)
    case Cat(a, b) => var n := Lay(a, s); if n.Lacks? then n else Combine(Behind, n.start, n.end, Lay(b, n.store))
    case Alt(a, b) => var n := Lay(a, s); if n.Lacks? then n else Combine(Beside, n.start, n.end, Lay(b, n.store))
    case Star(a) => Enclose(Lay(a, s), true, true)
    case Plus(a) => Enclose(Lay(a, s), false, true)
    case Opt(a) => Enclose(Lay(a, s), true, false)
  }

  // ------------------------------------------------------------------ rules

  /** An anchor in front is a node with an edge on the newline. */
  function LayFront(rule: Rule, s: Store): Need {
    if rule.anchor == 1 && rule.regex.Cat? then
      var c := TakeNode(s);
      if c.Lacks? then c
      else
        var n := Lay(rule.regex.right, c.store.Label(c.start, 10, NOTHING));
        if n.Lacks? then n else Left(n.store.Link(c.start, n.start), c.start, n.end)
    else
      Lay(rule.regex, s)
  }

  /** An anchor behind gives the end an edge to a new one. */
  function Anchored(n: Need, cs: CharSet): Need {
    if n.Lacks? then n
    else
      var q := TakeNode(n.store);
      if q.Lacks? then q else Left(q.store.Link(n.end, q.start).Label(n.end, CCL, cs), n.start, q.start)
  }

  function LayRule(rule: Rule, s: Store): Need {
    if rule.anchor >= 2 && rule.regex.Cat? && rule.regex.right.Chars? then
      Anchored(LayFront(Rule(rule.regex.left, rule.anchor - 2), s), rule.regex.right.cs)
    else
      LayFront(rule, s)
  }

  /** The memory for actions has no room for this one. */
  predicate TooManyWords(saved: nat, action: string) {
    action != "" && action[0] != '|' && 4 * (saved + 1) + |action| - 1 >= STR_MAX - 1
  }

  /** The rule with its action. */
  function LayLine(line: Line, rule: Rule, saved: nat, s: Store): Need {
    var n := LayRule(rule, s);
    if n.Lacks? then n
    else if TooManyWords(saved, line.action) then Lacks(StringsFull)
    else Left(n.store.Put(n.end, n.store.At(n.end).(accept := saved + 1, anchor := rule.anchor)), n.start, n.end)
  }

  /** The text of an action and its final null lie behind its line number, in front of the next one, and within
      the memory; if they would not lie within it the program gives up. */
  lemma {:induction false} ActionFits(lines: seq<Line>, i: nat)
    requires i < |lines| && lines[i].action != "" && lines[i].action[0] != '|'
    ensures SavedAt(lines, i) < Address(lines, i)
    ensures 4 * Address(lines, i) + |lines[i].action| + 1 <= 4 * SavedAt(lines, i + 1)
    ensures TooManyWords(SavedAt(lines, i), lines[i].action) <==>
      4 * Address(lines, i) + |lines[i].action| + 1 > STR_MAX
  {
    hide SavedAt;
    SavedNext(lines, i);
  }

  lemma {:induction false} SavedNext(lines: seq<Line>, i: nat)
    requires i < |lines|
    ensures SavedAt(lines, i + 1) == SavedAt(lines, i) + if lines[i].Bar() then 0 else 1 + Words(lines[i].action)
  {
    hide Words;
  }

  predicate WellFormed(lines: seq<Line>, unix: bool, i: nat) {
    i <= |lines| && forall j | 0 <= j < i :: ParseRule(lines[j].tokens, unix).Some?
  }

  /** A new node at the end of the chain whose last node is `p`. */
  function Chained(first: bool, p: nat, s: Store): Need {
    var c := TakeNode(s);
    if c.Lacks? || first then c else Left(c.store.LinkBoth(p, c.store.At(p).next, c.start), c.start, c.start)
  }

  /** The first `i` rules: the last node of the chain, and the end of the last rule. */
  function LayRules(lines: seq<Line>, unix: bool, i: nat): Need
    requires WellFormed(lines, unix, i)
  {
    if i == 0 then Left(EmptyStore(), 0, 0)
    else
      var n := LayRules(lines, unix, i - 1);
      if n.Lacks? then n else LayNext(lines, unix, i - 1, n)
  }

  /** Rule `i` behind the rules before it. */
  function LayNext(lines: seq<Line>, unix: bool, i: nat, n: Need): Need
    requires WellFormed(lines, unix, i + 1) && n.Left?
  {
    var c := Chained(i == 0, n.start, n.store);
    if c.Lacks? then c
    else
      var a := LayLine(lines[i], ParseRule(lines[i].tokens, unix).value, SavedAt(lines, i), c.store);
      if a.Lacks? then a else Left(a.store.Link(c.start, a.start), c.start, a.end)
  }

  /** The rules parse, and nodes and actions fit. */
  predicate Fits(lines: seq<Line>, unix: bool) {
    WellFormed(lines, unix, |lines|) && LayRules(lines, unix, |lines|).Left?
  }

  /** The automaton of the rules. It starts at node 0. */
  function MachineOf(lines: seq<Line>, unix: bool): Machine
    requires Fits(lines, unix)
  {
    var s := LayRules(lines, unix, |lines|).store;
    if s.next <= |s.m| then s.m[..s.next] else s.m
  }

  /** The node that accepts for rule `i`. */
  function EndOf(lines: seq<Line>, unix: bool, i: nat): nat
    requires Fits(lines, unix) && i < |lines|
  {
    FitsBefore(lines, unix, i + 1);
    LayRules(lines, unix, i + 1).end
  }

  lemma FitsBefore(lines: seq<Line>, unix: bool, i: nat)
    requires Fits(lines, unix) && i <= |lines|
    ensures WellFormed(lines, unix, i) && LayRules(lines, unix, i).Left?
  {
    if LayRules(lines, unix, i).Lacks? { RulesLack(lines, unix, i, |lines|); }
  }

  lemma FrontAnchor(ts: Tokens, unix: bool)
    ensures ParseFront(ts, unix).Some? ==> ParseFront(ts, unix).value.0.anchor <= 1
  {
  }

  lemma LaysBack(rule: Rule, s: Store)
    requires rule.anchor <= 1
    ensures LayRule(rule, s) == LayFront(rule, s)
    ensures forall cs ::
      LayRule(Rule(Cat(rule.regex, Chars(cs)), rule.anchor + 2), s) == Anchored(LayFront(rule, s), cs)
  {
    hide LayFront, Anchored;
    assert rule == Rule(rule.regex, rule.anchor);
  }

  lemma {:induction false} RulesLack(lines: seq<Line>, unix: bool, i: nat, n: nat)
    requires i <= n && WellFormed(lines, unix, n) && WellFormed(lines, unix, i) && LayRules(lines, unix, i).Lacks?
    ensures LayRules(lines, unix, n) == LayRules(lines, unix, i)
  {
    hide ParseRule, LayNext;
    if i < n {
      RulesLack(lines, unix, i, n - 1);
    }
  }

  lemma OneCharacter(ts: Tokens, unix: bool)
    requires FirstInCat(Current(ts)) == Some(true) && Current(ts).kind != OPEN_PAREN
    ensures ParseTerm(ts, unix).Some? ==> ParseTerm(ts, unix).value.0.Chars? || ParseTerm(ts, unix).value.0.Char?
  {
  }

  /** If the part that has been read lacks something, so does the whole. */
  lemma {:induction false} AltsLack(r: Regex, ts: Tokens, unix: bool, s: Store)
    requires Lay(r, s).Lacks? && ParseAlts(r, ts, unix).Some?
    ensures Lay(ParseAlts(r, ts, unix).value.0, s) == Lay(r, s)
    decreases |ts|
  {
    hide Combine;
    if Current(ts).kind == OR {
      var (r2, rest) := ParseCat(ts[1..], unix).value;
      AltsLack(Alt(r, r2), rest, unix, s);
    }
  }

  lemma ExprLacks(ts: Tokens, unix: bool, s: Store)
    requires ParseExpr(ts, unix).Some?
    ensures ParseCat(ts, unix).Some?
    ensures var n := Lay(ParseCat(ts, unix).value.0, s); n.Lacks? ==> Lay(ParseExpr(ts, unix).value.0, s) == n
  {
    hide Lay;
    var (r2, rest) := ParseCat(ts, unix).value;
    if Lay(r2, s).Lacks? { AltsLack(r2, rest, unix, s); }
  }

  lemma NextAltLacks(r: Regex, ts: Tokens, unix: bool, s: Store)
    requires Current(ts).kind == OR && ParseAlts(r, ts, unix).Some?
    ensures ParseCat(ts[1..], unix).Some?
    ensures var n := Lay(Alt(r, ParseCat(ts[1..], unix).value.0), s);
      n.Lacks? ==> Lay(ParseAlts(r, ts, unix).value.0, s) == n
  {
    hide Lay;
    var (r2, rest) := ParseCat(ts[1..], unix).value;
    if Lay(Alt(r, r2), s).Lacks? { AltsLack(Alt(r, r2), rest, unix, s); }
  }

  lemma {:induction false} CatsLack(r: Regex, ts: Tokens, unix: bool, s: Store)
    requires Lay(r, s).Lacks? && ParseCats(r, ts, unix).Some?
    ensures Lay(ParseCats(r, ts, unix).value.0, s) == Lay(r, s)
    decreases |ts|
  {
    hide Combine;
    if FirstInCat(Current(ts)) == Some(true) {
      var (r2, rest) := ParseFactor(ts, unix).value;
      CatsLack(Cat(r, r2), rest, unix, s);
    }
  }
}
