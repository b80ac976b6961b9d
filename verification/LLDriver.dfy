/** The table-driven LL(1) parser that LLAMA emits (compiler/parser/llout.c). */
module LLDriver {
  import opened Options
  import opened Grammars
  import PairTable
  import opened LLTable

  const YYMAXERR: nat := 25
  const START_STATE: Symbol := MINNONTERM

  /** What the generated file holds: the transition table as yy_next shows it, the push
      table, and the synchronisation tokens up to a terminator that is not positive. */
  datatype Tables = Tables(currTerm: nat, next: seq<seq<nat>>, pushtab: map<nat, seq<Symbol>>, synch: seq<Symbol>)
  {
    /** Rows are wide enough, every entry names a push list, and push lists hold only
        objects the parser understands, closed by a 0. */
    predicate Valid() {
      && |next| > 0
      && (forall i | 0 <= i < |next| :: |next[i]| == currTerm + 1)
      && (forall i, j | 0 <= i < |next| && 0 <= j <= currTerm :: next[i][j] == PairTable.YYF || next[i][j] in pushtab)
      && (forall k | k in pushtab :: ValidPush(pushtab[k]))
    }

    predicate ValidPush(row: seq<Symbol>) {
      |row| > 0 && row[|row| - 1] == 0 && Objects(row[..|row| - 1])
    }

    predicate Objects(s: seq<Symbol>) {
      forall i | 0 <= i < |s| :: ValidObject(s[i])
    }

    predicate Tokens(s: seq<Symbol>) {
      forall i | 0 <= i < |s| :: 1 <= s[i] <= currTerm
    }

    predicate ValidObject(x: Symbol) {
      IsAct(x) || 1 <= x <= currTerm || 0 <= x - MINNONTERM < |next|
    }
  }

  /** `input` is what has not been matched yet; its head is the lookahead. */
  datatype Config = Config(stack: seq<Symbol>, input: seq<Symbol>, consumed: seq<Symbol>, errors: nat)
  {
    function Lookahead(): Symbol { if input == [] then EOI else input[0] }
  }

  datatype Outcome =
    | Running(c: Config)
    | Accepted(c: Config)
    | Aborted
    | ActionFailed(code: int)
    | Overflow

  // ---------------------------------------------------------- the state machine

  /** yy_in_synch: the list is searched up to its first entry that is not positive. */
  predicate InSynch(list: seq<Symbol>, sym: Symbol) {
    list != [] && list[0] > 0 && (list[0] == sym || InSynch(list[1..], sym))
  }

  function PopToSynch(list: seq<Symbol>, stack: seq<Symbol>): seq<Symbol> {
    if stack == [] || InSynch(list, stack[0]) then stack else PopToSynch(list, stack[1..])
  }

  function SkipTo(input: seq<Symbol>, tok: Symbol): seq<Symbol> {
    if input == [] || input[0] == tok || input[0] == EOI then input else SkipTo(input[1..], tok)
  }

  /** Error recovery, as yy_synch and its two callers do it. */
  function Recover(t: Tables, c: Config): Outcome {
    var c1 := c.(errors := c.errors + 1);
    if c1.errors > YYMAXERR then Aborted
    else
      var stack := PopToSynch(t.synch, c1.stack);
      if stack == [] then Aborted
      else
        var c2 := c1.(stack := stack, input := SkipTo(c1.input, stack[0]));
        if c2.Lookahead() == EOI then Aborted else Running(c2)
  }

  predicate ValidConfig(t: Tables, c: Config) {
    t.Valid() && t.Objects(c.stack) && t.Tokens(c.input)
  }

  /** One turn of the loop of yyparse. */
  function Move(t: Tables, act: Config -> int, depth: nat, c: Config): Outcome
    requires ValidConfig(t, c) && c.stack != []
  {
    var tos := c.stack[0];
    if IsAct(tos) then
      if act(c) != 0 then ActionFailed(act(c)) else Running(c.(stack := c.stack[1..]))
    else if 1 <= tos <= t.currTerm then
      if tos != c.Lookahead() then Recover(t, c)
      else Running(c.(stack := c.stack[1..], input := c.input[1..], consumed := c.consumed + [tos]))
    else
      var prod := t.next[tos - MINNONTERM][c.Lookahead()];
      if prod == PairTable.YYF then Recover(t, c)
      else Expanded(depth, c, Pushed(t.pushtab[prod]))
  }

  /** The objects a push list leaves on the stack, top first. */
  function Pushed(row: seq<Symbol>): seq<Symbol>
    requires |row| > 0
  {
    Reverse(row[..|row| - 1])
  }

  function Expanded(depth: nat, c: Config, rhs: seq<Symbol>): Outcome
    requires c.stack != []
  {
    if |rhs| + |c.stack| - 1 > depth then Overflow else Running(c.(stack := rhs + c.stack[1..]))
  }

  lemma {:induction false} PopValid(t: Tables, list: seq<Symbol>, stack: seq<Symbol>)
    requires t.Objects(stack)
    ensures t.Objects(PopToSynch(list, stack))
  {
    if stack != [] {
      PopValid(t, list, stack[1..]);
    }
  }

  lemma {:induction false} SkipValid(t: Tables, input: seq<Symbol>, tok: Symbol)
    requires t.Tokens(input)
    ensures t.Tokens(SkipTo(input, tok))
  {
    if input != [] {
      SkipValid(t, input[1..], tok);
    }
  }

  lemma PushedValid(t: Tables, row: seq<Symbol>)
    requires t.ValidPush(row)
    ensures t.Objects(Pushed(row))
  {
    ReverseAt(row[..|row| - 1]);
  }

  lemma RecoverValid(t: Tables, c: Config)
    requires ValidConfig(t, c)
    ensures Recover(t, c).Running? ==> ValidConfig(t, Recover(t, c).c)
  {
    PopValid(t, t.synch, c.stack);
    var stack := PopToSynch(t.synch, c.stack);
    if stack != [] {
      SkipValid(t, c.input, stack[0]);
    }
  }

  /** The parser never leaves the configurations its tables cover. */
  lemma MoveValid(t: Tables, act: Config -> int, depth: nat, c: Config)
    requires ValidConfig(t, c) && c.stack != []
    ensures Move(t, act, depth, c).Running? ==> ValidConfig(t, Move(t, act, depth, c).c)
  {
    RecoverValid(t, c);
    var tos := c.stack[0];
    if !IsAct(tos) && !(1 <= tos <= t.currTerm) {
      var prod := t.next[tos - MINNONTERM][c.Lookahead()];
      if prod != PairTable.YYF {
        PushedValid(t, t.pushtab[prod]);
      }
    }
  }

  /** At most `fuel` turns of the loop, or as many as it takes to leave it. */
  function Run(t: Tables, act: Config -> int, depth: nat, c: Config, fuel: nat): Outcome
    requires ValidConfig(t, c)
    decreases fuel
  {
    if c.stack == [] then Accepted(c)
    else if fuel == 0 then Running(c)
    else
      MoveValid(t, act, depth, c);
      match Move(t, act, depth, c)
      case Running(c') => Run(t, act, depth, c', fuel - 1)
      case r => r
  }

  lemma ReverseNone()
    ensures Reverse([]) == []
  {
  }

  // ------------------------------------------------------------- the parser itself

  /** The globals of the emitted parser. The parse stack grows downwards in an array;
      `sp` is its top. */
  class Parser {
    const tabs: Tables
    const yyd: PairTable.Compressed
    const stack: array<Symbol>
    const tokens: seq<Symbol>
    var sp: nat
    var pos: nat
    var nerrs: nat
    var consumed: seq<Symbol>  // the tokens matched so far
    ghost const dtran: array2<int>
    ghost const threshold: int

    ghost predicate Valid()
      reads this, stack, dtran
    {
      && tabs.Valid() && sp <= stack.Length && pos <= |tokens| && stack.Length > 0
      && tabs.Tokens(tokens) && tabs.Objects(stack[sp..])
      && TablesMatch()
    }

    /** The compressed table decodes to the rows of `tabs`. */
    ghost predicate TablesMatch()
      reads dtran
    {
      && PairTable.Emitted(dtran, threshold, yyd) && yyd.Linked()
      && dtran.Length1 == tabs.currTerm + 1 <= 255 && dtran.Length0 == |tabs.next|
      && forall i, j | 0 <= i < dtran.Length0 && 0 <= j < dtran.Length1 ::
           |tabs.next[i]| == dtran.Length1 && tabs.next[i][j] == PairTable.Byte(dtran[i, j])
    }

    function State(): Config
      reads this, stack
      requires sp <= stack.Length && pos <= |tokens|
    {
      Config(stack[sp..], tokens[pos..], consumed, nerrs)
    }

    constructor (tabs: Tables, yyd: PairTable.Compressed, depth: nat, tokens: seq<Symbol>,
          ghost dtran: array2<int>, ghost threshold: int)
      requires tabs.Valid() && depth > 0 && tabs.Tokens(tokens)
      requires PairTable.Emitted(dtran, threshold, yyd) && yyd.Linked()
      requires dtran.Length1 == tabs.currTerm + 1 <= 255 && dtran.Length0 == |tabs.next|
      requires forall i, j | 0 <= i < dtran.Length0 && 0 <= j < dtran.Length1 ::
           |tabs.next[i]| == dtran.Length1 && tabs.next[i][j] == PairTable.Byte(dtran[i, j])
      ensures Valid() && fresh(stack) && stack.Length == depth
      ensures this.tabs == tabs && this.tokens == tokens
      ensures sp == depth && pos == 0 && nerrs == 0 && consumed == []
    {
      this.tabs, this.yyd, this.tokens, this.dtran, this.threshold := tabs, yyd, tokens, dtran, threshold;
      stack := new Symbol[depth];
      sp, pos, nerrs, consumed := depth, 0, 0, [];
    }

    function Lookahead(): Symbol
      reads this
      requires pos <= |tokens|
    {
      if pos < |tokens| then tokens[pos] else EOI
    }

    /** yy_next_token: moves on to the next token; end of input stays end of input. */
    method NextToken()
      requires Valid()
      modifies `pos
      ensures Valid()
      ensures State() == old(State()).(input := if old(State()).input == [] then [] else old(State()).input[1..])
    {
      if pos < |tokens| {
        pos := pos + 1;
      }
    }

    method Pop()
      requires Valid() && sp < stack.Length
      modifies `sp
      ensures Valid() && State() == old(State()).(stack := old(State()).stack[1..])
    {
      sp := sp + 1;
    }

    method PushOne(x: Symbol)
      requires 0 < sp <= stack.Length
      modifies `sp, stack
      ensures sp == old(sp) - 1 && stack[sp..] == [x] + old(stack[sp..])
    {
      sp := sp - 1;
      stack[sp] := x;
    }

    /** Pushes a list of objects up to its 0; gives up when the stack is full. */
    method PushAll(row: seq<Symbol>) returns (full: bool)
      requires sp <= stack.Length && |row| > 0 && row[|row| - 1] == 0
      requires forall i | 0 <= i < |row| - 1 :: row[i] != 0
      modifies `sp, stack
      ensures sp <= stack.Length
      ensures full <==> |row| - 1 + |old(stack[sp..])| > stack.Length
      ensures !full ==> stack[sp..] == Pushed(row) + old(stack[sp..])
    {
      hide Reverse, Parser.Valid, Parser.TablesMatch;
      ghost var before := stack[sp..];
      var p := 0;
      ReverseNone();
      assert row[..0] == [] && [] + before == before;
      while row[p] != 0
        invariant 0 <= p < |row| && sp <= stack.Length && stack.Length - sp == |before| + p
        invariant stack[sp..] == Reverse(row[..p]) + before
        decreases |row| - p
      {
        if sp == 0 { return true; }
        PushOne(row[p]);
        ReverseNext(row, p, before);
        p := p + 1;
      }
      full := false;
    }

    /** yy_synch. Returns whether parsing can go on. */
    method Synch() returns (ok: bool)
      requires Valid()
      modifies `sp, `pos, `nerrs
      ensures ok ==> Valid() && Recover(tabs, old(State())) == Running(State())
      ensures !ok ==> Recover(tabs, old(State())).Aborted?
    {
      hide Parser.TablesMatch;
      nerrs := nerrs + 1;
      if nerrs > YYMAXERR { return false; }
      PopStack();
      if sp == stack.Length { return false; }
      SkipInput(stack[sp]);
      ok := Lookahead() != EOI;
    }

    /** The objects above a synchronization token are popped. */
    method PopStack()
      requires Valid()
      modifies `sp
      ensures Valid() && State() == old(State()).(stack := PopToSynch(tabs.synch, old(State()).stack))
    {
      hide Parser.TablesMatch, InSynch;
      while sp < stack.Length && !InSynch(tabs.synch, stack[sp])
        invariant Valid() && PopToSynch(tabs.synch, stack[sp..]) == PopToSynch(tabs.synch, stack[old(sp)..])
      {
        assert stack[sp..][1..] == stack[sp + 1..];
        sp := sp + 1;
      }
    }

    /** The input in front of the token is skipped. */
    method SkipInput(tok: Symbol)
      requires Valid()
      modifies `pos
      ensures Valid() && State() == old(State()).(input := SkipTo(old(State()).input, tok))
    {
      hide Parser.TablesMatch;
      while Lookahead() != EOI && Lookahead() != tok
        invariant Valid() && SkipTo(tokens[pos..], tok) == SkipTo(tokens[old(pos)..], tok)
        decreases |tokens| - pos
      {
        assert tokens[pos..][1..] == tokens[pos + 1..];
        NextToken();
      }
    }

    /** yyparse, for at most `fuel` turns of its loop. */
    method Parse(act: Config -> int, fuel: nat) returns (r: Outcome)
      requires Valid() && sp == stack.Length && pos == 0 && nerrs == 0 && consumed == []
      modifies this, stack
      ensures r == StartRun(tabs, act, stack.Length, tokens, fuel)
    {
      sp := sp - 1;
      stack[sp] := START_STATE;
      var left := fuel;
      ghost var c := State();
      assert c == Config([START_STATE], tokens, [], 0);
      hide Move, Parser.TablesMatch;
      while sp < stack.Length
        invariant Valid()
        invariant Run(tabs, act, stack.Length, c, fuel) == Run(tabs, act, stack.Length, State(), left)
        decreases left
      {
        if left == 0 { return Running(State()); }
        var next := Turn(act);
        if next.Some? { return next.value; }
        left := left - 1;
      }
      r := Accepted(State());
    }

    /** One turn of the loop: None to go on, or the outcome. */
    method Turn(act: Config -> int) returns (r: Option<Outcome>)
      requires Valid() && sp < stack.Length
      modifies this, stack
      ensures ValidConfig(tabs, old(State()))
      ensures r.None? ==> Valid() && Move(tabs, act, stack.Length, old(State())) == Running(State())
      ensures r.Some? ==> !r.value.Running? && Move(tabs, act, stack.Length, old(State())) == r.value
    {
      hide PopToSynch, SkipTo, Reverse, Recover, PairTable.Emitted;
      ghost var c := State();
      MoveValid(tabs, act, stack.Length, c);
      var tos := stack[sp];
      if IsAct(tos) {
        var code := act(State());
        if code != 0 { return Some(ActionFailed(code)); }
        Pop();
      } else if 1 <= tos <= tabs.currTerm {
        if tos != Lookahead() {
          var ok := Synch();
          if !ok { return Some(Aborted); }
        } else {
          Pop();
          consumed := consumed + [tos];
          NextToken();
        }
      } else {
        var prod := PairTable.Next(yyd, tos - MINNONTERM, Lookahead(), dtran, threshold);
        if prod == PairTable.YYF {
          var ok := Synch();
          if !ok { return Some(Aborted); }
        } else {
          var row := tabs.pushtab[prod];
          assert tabs.ValidPush(row);
          Pop();
          var full := PushAll(row);
          ReverseAt(row[..|row| - 1]);
          if full { return Some(Overflow); }
        }
      }
      r := None;
    }
  }

  lemma ReverseNext(row: seq<Symbol>, p: nat, before: seq<Symbol>)
    requires p < |row|
    ensures Reverse(row[..p + 1]) + before == [row[p]] + (Reverse(row[..p]) + before)
  {
    hide Reverse;
    ReverseSnoc(row[..p], row[p]);
    assert row[..p + 1] == row[..p] + [row[p]];
  }

  lemma ReverseSnoc(s: seq<Symbol>, x: Symbol)
    ensures Reverse(s + [x]) == [x] + Reverse(s)
  {
    if s != [] {
      assert (s + [x])[1..] == s[1..] + [x];
      ReverseSnoc(s[1..], x);
    }
  }

  function StartRun(t: Tables, act: Config -> int, depth: nat, tokens: seq<Symbol>, fuel: nat): Outcome
    requires t.Valid() && t.Tokens(tokens)
  {
    Run(t, act, depth, Config([START_STATE], tokens, [], 0), fuel)
  }
}
