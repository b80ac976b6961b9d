/** The driver of a generated scanner on the input buffer itself: yylex of
    compiler/parser/lexyy.c with the routines of compiler/lib/input.c. */
module LexInput {
  import opened Nfa
  import opened Closures
  import opened Tables
  import opened Lexer
  import Input
  import PairTable

  /** What a call comes to: a result, a lexeme that does not fit into the buffer, or the end of the
      program because the buffer cannot be filled. */
  datatype Outcome = Action(state: nat) | EndOfInput | TooLong | Fatal

  class BufferedScanner {
    const t: Table
    const yyd: PairTable.Compressed
    ghost const dtran: array2<int>
    ghost const threshold: int
    const input: Input.Buffer

    ghost predicate Ready()
      reads this, dtran
    {
      TableOk(t) && |t.rows| <= DFA_MAX && TablesMatch(t, dtran, threshold, yyd)
    }

    /** Something has been read, and no lexeme but the current one is kept. */
    ghost predicate Valid()
      reads this, dtran, input, input.buf
    {
      && Ready() && input.Valid() && input.called && input.lo == 0 && input.V().prev == -1
      && IsWord(input.whole) && 0 <= input.V().start <= input.V().end <= input.V().at <= |input.whole|
    }

    constructor (t: Table, yyd: PairTable.Compressed, input: Input.Buffer, ghost dtran: array2<int>,
                 ghost threshold: int)
      requires TableOk(t) && |t.rows| <= DFA_MAX && TablesMatch(t, dtran, threshold, yyd)
      ensures Ready() && this.t == t && this.input == input
    {
      this.t, this.yyd, this.input, this.dtran, this.threshold := t, yyd, input, dtran, threshold;
    }

    /** The first call: a character is read, which puts the newline in front of the file, and taken
        back. */
    method Start(ghost file: seq<int>) returns (ok: bool)
      requires Ready() && input.Valid() && !input.called && input.V() == Input.Stream(file, 0, 0, 0, -1) && IsWord(file)
      modifies input, input.buf
      ensures ok <==> old(input.rest) != []
      ensures ok ==> Valid() && input.V() == Input.Stream([10] + file, 0, 0, 0, -1)
    {
      var c := input.Advance();
      if c.Fatal? { return false; }
      var back := input.Pushback(1);
      ok := true;
    }

    /** ii_look(1). */
    method Look() returns (c: int)
      requires Valid()
      ensures var v := input.V(); c == if v.at < |v.whole| then v.whole[v.at] else EOF
    {
      hide TablesMatch, TableOk;
      c := input.Look(1);
    }

    /** ii_advance, when there is a character. */
    method Take() returns (c: Input.Got)
      requires Valid() && input.V().at < |input.whole|
      modifies input, input.buf
      ensures !c.End? && (old(input.eofRead) ==> c.Char? && input.eofRead)
      ensures c.TooLong? <==> old(input.Danger() && input.Edge() < Input.MAX_LEXEME_LEN)
      ensures c.Fatal? <==> old(input.rest == [] && input.Danger() && input.Edge() >= Input.MAX_LEXEME_LEN)
      ensures c.Char? ==> Valid() && input.V() == old(input.V()).(at := old(input.V()).at + 1)
      ensures c.TooLong? ==>
        && Valid() && input.V() == old(input.V()) && input.V().at - input.V().start > Input.MAX_LEXEME_LEN
        && input.Danger() && input.Edge() < Input.MAX_LEXEME_LEN
      ensures c.Fatal? ==> Starved() && input.V() == old(input.V()) && input.whole == old(input.whole)
    {
      hide Input.Buffer.Valid, TablesMatch, TableOk, Starved;
      c := input.Advance();
      if c.Fatal? { Starves(); }
    }

    twostate lemma Starves()
      requires old(Valid()) && old(input.V().at < |input.whole|) && old(input.Danger()) && input.Emptied()
      requires old(input.Edge()) >= Input.MAX_LEXEME_LEN
      ensures Starved() && input.V() == old(input.V())
    {
      hide Input.Buffer.Lines, TablesMatch, TableOk;
    }

    /** The buffer is empty but for the lexeme, after a read that found nothing: the end of the file had
        not been noticed before, though all of it had been read. */
    ghost predicate Starved()
      reads input
    {
      && input.rest == [] && input.eofRead && input.Edge() >= Input.MAX_LEXEME_LEN
      && input.endBuf + input.off + input.Edge() == |input.whole|
      && |input.whole| - Input.MAX_LOOKAHEAD <= input.V().at < |input.whole|
    }

    /** ii_mark_start, ii_mark_end and ii_move_back. */
    method MarkStart()
      requires Valid()
      modifies input
      ensures Valid() && input.V() == old(input.V()).(start := old(input.V()).at, end := old(input.V()).at)
      ensures input.eofRead == old(input.eofRead)
    {
      hide Input.Buffer.Valid, TablesMatch, TableOk;
      input.MarkStart();
    }

    method MarkEnd()
      requires Valid()
      modifies input
      ensures Valid() && input.V() == old(input.V()).(end := old(input.V()).at)
      ensures input.eofRead == old(input.eofRead)
    {
      hide Input.Buffer.Valid, TablesMatch, TableOk;
      input.MarkEnd();
    }

    method MoveBack()
      requires Valid()
      modifies input
      ensures Valid() && input.V() == old(input.V()).(at := old(input.V()).end)
      ensures input.eofRead == old(input.eofRead)
    {
      hide Input.Buffer.Valid, TablesMatch, TableOk;
      input.MoveBack();
    }

    /** The text and the positions are in order. */
    lemma Facts()
      requires Valid()
      ensures Ready() && IsWord(input.V().whole) && input.V().whole == input.whole
      ensures var v := input.V(); 0 <= v.start <= v.end <= v.at <= |v.whole|
    {
    }

    /** What holds when the next character is looked at. */
    ghost predicate Scanning(text: seq<int>, from: nat, state: int, last: int)
      reads this, dtran, input, input.buf
    {
      && Valid() && input.whole == text
      && var v := input.V();
      Reading(t, text, v.start, v.end, v.at, state, last) && PassedAll(t, text, from, v.start)
    }

    /** What a call has found. If it gives up, there may be too few characters to look at, and the
        text that has been read for the lexeme leaves no room for more, or nothing is left to read. */
    ghost predicate Found(text: seq<int>, from: nat, o: Outcome)
      reads this, dtran, input, input.buf
    {
      if o.Fatal? then Starved() && input.whole == text
      else
        && Valid() && input.whole == text
        && var v := input.V();
        && IsWord(text) && 0 <= v.start <= v.end <= v.at <= |text| && PassedAll(t, text, from, v.start)
        && match o
          case Action(state) =>
            Longest(t, text, v.start, v.end) && state == Run(t, 0, text[v.start..v.end]) != 0 && v.at == v.end
          case EndOfInput => v.at == |text| && NoAction(t, text, v.start) && Run(t, 0, text[v.start..]) != F
          case TooLong =>
            && v.at - v.start > Input.MAX_LEXEME_LEN && v.at < |text| && Run(t, 0, text[v.start..v.at]) != F
            && input.Danger() && input.Edge() < Input.MAX_LEXEME_LEN
    }

    lemma ScanningFacts(text: seq<int>, from: nat, state: int, last: int)
      requires Scanning(text, from, state, last)
      ensures Valid() && input.whole == input.V().whole == text && IsWord(text) && Ready()
      ensures var v := input.V();
        && 0 <= v.start <= v.end <= v.at <= |text| && Reading(t, text, v.start, v.end, v.at, state, last)
        && PassedAll(t, text, from, v.start) && state != F && state == Run(t, 0, text[v.start..v.at])
        && 0 <= last == (if v.start == v.end then 0 else Run(t, 0, text[v.start..v.end]))
    {
      hide Run, Input.Buffer.Valid;
    }

    /** A transition: the character is taken, and the end of the lexeme marked if the state accepts. */
    method Transition(state: int, state': nat, last: int, ghost text: seq<int>, ghost from: nat)
      returns (ok: bool, o: Outcome, last': int)
      requires Scanning(text, from, state, last) && input.V().at < |text| && state' < |t.rows|
      requires IsWord(text) && 0 <= input.V().start <= input.V().at
      requires state' == Run(t, 0, text[input.V().start..input.V().at + 1])
      modifies input, input.buf
      ensures ok ==> Scanning(text, from, state', last') && input.V().start == old(input.V()).start
      ensures ok ==> input.V().at == old(input.V()).at + 1
      ensures old(input.eofRead) ==> ok && input.eofRead
      ensures !ok ==> Found(text, from, o)
    {
      hide Valid, Input.Buffer.V, Longest, NoAction, AcceptsAt, Run, Reading, TablesMatch;
      ScanningFacts(text, from, state, last);
      ghost var v := input.V();
      o, last' := Fatal, last;
      var c := Take();
      if c.Fatal? { return false, Fatal, last; }
      Facts();
      if c.TooLong? { return false, TooLong, last; }
      NextRead(t, text, v.start, v.end, v.at + 1, state, last, state');
      if t.accepts[state'].action != NONE {
        last' := state';
        MarkEnd();
        Facts();
      }
      ok := true;
    }

    /** Illegal input: everything through the character that caused the failure is passed over. */
    method Skip(state: int, ghost text: seq<int>, ghost from: nat) returns (ok: bool, o: Outcome)
      requires Scanning(text, from, state, 0) && input.V().at < |text| && from <= input.V().start
      requires IsWord(text) && 0 <= input.V().start <= input.V().at
      requires NoAction(t, text, input.V().start) && Run(t, 0, text[input.V().start..input.V().at + 1]) == F
      modifies input, input.buf
      ensures ok ==> Scanning(text, from, 0, 0) && input.V().start == input.V().at == old(input.V()).at + 1
      ensures old(input.eofRead) ==> ok && input.eofRead
      ensures !ok ==> Found(text, from, o)
    {
      hide Valid, Input.Buffer.V, Longest, NoAction, AcceptsAt, Run, Reading, TablesMatch;
      ScanningFacts(text, from, state, 0);
      ghost var v := input.V();
      o := Fatal;
      var c := Take();
      if c.Fatal? { return false, Fatal; }
      Facts();
      if c.TooLong? { return false, TooLong; }
      MarkStart();
      Facts();
      OnePassed(t, text, from, v.start, v.at);
      ReadNothing(t, text, v.at + 1);
      ok := true;
    }

    /** The start of a call. */
    method Begin(ghost text: seq<int>, ghost from: nat)
      requires Valid() && input.whole == text && input.V().at == from
      modifies input
      ensures Scanning(text, from, 0, 0) && input.V().start == from && input.eofRead == old(input.eofRead)
    {
      hide Valid, Input.Buffer.V, TablesMatch, Reading;
      Facts();
      MarkStart();
      Facts();
      ReadNothing(t, text, from);
    }

    /** The lexeme that has been noted. */
    method Accept(state: int, last: nat, ghost text: seq<int>, ghost from: nat) returns (o: Outcome)
      requires Scanning(text, from, state, last) && last != 0
      requires Longest(t, text, input.V().start, input.V().end)
      modifies input
      ensures Found(text, from, o) && o.Action?
    {
      hide Valid, Input.Buffer.V, Longest, NoAction, AcceptsAt, Run, Reading, TablesMatch;
      ScanningFacts(text, from, state, last);
      MoveBack();
      Facts();
      o := Outcome.Action(last);
    }

    lemma NothingLeft(text: seq<int>, from: nat, state: int)
      requires Scanning(text, from, state, 0) && input.V().at == |text|
      ensures Found(text, from, Outcome.EndOfInput)
    {
      hide Valid, Input.Buffer.V, Longest, NoAction, AcceptsAt, Run, Reading, TablesMatch;
      ScanningFacts(text, from, state, 0);
      ghost var v := input.V();
      Failed(t, text, v.start, v.end, v.at, state, 0);
      assert text[v.start..v.at] == text[v.start..];
    }

    /** yylex, up to the next action or the end of the input: what it finds is what the scanner
        finds on the text itself. Once the end of the file has been noticed it does not give up. */
    method Yylex() returns (o: Outcome)
      requires Valid()
      modifies input, input.buf
      ensures Found(old(input.whole), old(input.V().at), o)
      ensures old(input.eofRead) ==> o.Action? || o.EndOfInput?
    {
      hide Valid, Input.Buffer.V, Longest, NoAction, AcceptsAt, Run, Reading, Scanning,
        PairTable.Emitted, PassedAll, Found, PairTable.Row, PairTable.Count;
      var yystate, yylastaccept := 0, 0;
      Facts();
      ghost var text, from := input.whole, input.V().at;
      Begin(text, from);
      while true
        invariant Scanning(text, from, yystate, yylastaccept) && from <= input.V().start
        invariant old(input.eofRead) ==> input.eofRead
        decreases |text| - input.V().start, |text| - input.V().at
      {
        ScanningFacts(text, from, yystate, yylastaccept);
        ghost var v := input.V();
        var yylook := Look();
        var yynstate := PairTable.YYF;
        if yylook != EOF {
          Read(t, text, v.start, v.at, yystate);
          yynstate := PairTable.Next(yyd, yystate, yylook, dtran, threshold);
        } else if yylastaccept == 0 {
          NothingLeft(text, from, yystate);
          return Outcome.EndOfInput;
        }
        var ok;
        if yynstate != PairTable.YYF {
          ok, o, yylastaccept := Transition(yystate, yynstate, yylastaccept, text, from);
          if !ok { return; }
          yystate := yynstate;
        } else {
          Failed(t, text, v.start, v.end, v.at, yystate, yylastaccept);
          if yylastaccept == 0 {
            ok, o := Skip(yystate, text, from);
            if !ok { return; }
            yystate := 0;
          } else {
            o := Accept(yystate, yylastaccept, text, from);
            return;
          }
        }
      }
    }
  }

  lemma OnePassed(t: Table, text: seq<int>, from: nat, start: nat, at: nat)
    requires TableOk(t) && IsWord(text) && PassedAll(t, text, from, start) && start <= at < |text| && from <= start
    requires NoAction(t, text, start) && Run(t, 0, text[start..at]) != F && Run(t, 0, text[start..at + 1]) == F
    ensures PassedAll(t, text, from, at + 1)
  {
    hide NoAction, Run;
    assert Passed(t, text, start, at + 1);
  }
}
