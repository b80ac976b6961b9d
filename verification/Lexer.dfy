/** The driver of a generated scanner (yylex in compiler/parser/lexyy.c) over the stream of
    characters that the input buffer delivers. */
module Lexer {
  import opened Nfa
  import opened Closures
  import opened Tables
  import PairTable

  const EOF: int := -1

  /** Does the prefix of `text[i..]` up to `j` lead to an accepting state? */
  predicate AcceptsAt(t: Table, text: seq<int>, i: nat, j: nat)
    requires TableOk(t) && IsWord(text)
  {
    i < j <= |text| &&
    var q := Run(t, 0, text[i..j]);
    q != F && t.accepts[q].action != NONE
  }

  /** The lexeme from `i` to `j` is the longest one. */
  predicate Longest(t: Table, text: seq<int>, i: nat, j: nat)
    requires TableOk(t) && IsWord(text)
  {
    AcceptsAt(t, text, i, j) && forall k | j < k <= |text| :: !AcceptsAt(t, text, i, k)
  }

  /** The driver takes no action: it notes an accepting state by its number, so a longest
      lexeme that leads to state 0 looks like none. */
  predicate NoAction(t: Table, text: seq<int>, i: nat)
    requires TableOk(t) && IsWord(text)
  {
    forall k | 0 <= k <= |text| && Longest(t, text, i, k) :: Run(t, 0, text[i..k]) == 0
  }

  /** Characters that are passed over: there is no action at `i`, and the character before
      `j` is the first one on which the automaton fails. */
  predicate Passed(t: Table, text: seq<int>, i: nat, j: nat)
    requires TableOk(t) && IsWord(text)
  {
    && i < j <= |text| && NoAction(t, text, i)
    && Run(t, 0, text[i..j]) == F && Run(t, 0, text[i..j - 1]) != F
  }

  /** From `a` to `b` the input consists of passages without actions. */
  ghost predicate PassedAll(t: Table, text: seq<int>, a: nat, b: nat)
    requires TableOk(t) && IsWord(text)
    decreases b
  {
    a == b || exists m: nat :: a <= m < b && PassedAll(t, text, a, m) && Passed(t, text, m, b)
  }

  lemma {:induction false} RunSnoc(t: Table, q: int, w: seq<int>, c: int)
    requires TableOk(t) && F <= q < |t.rows| && IsWord(w) && 0 <= c < MAX_CHARS
    ensures IsWord(w + [c])
    ensures Run(t, q, w + [c]) == var r := Run(t, q, w); if r == F then F else t.rows[r][c]
    decreases |w|
  {
    assert q != F ==> RowOk(t.rows[q], |t.rows|);
    if w == [] {
      assert q != F ==> w + [c] == [c] && Run(t, t.rows[q][c], []) == t.rows[q][c];
    } else if q != F {
      assert (w + [c])[1..] == w[1..] + [c];
      RunSnoc(t, t.rows[q][w[0]], w[1..], c);
    }
  }

  /** Once the automaton has failed it accepts no longer prefix. */
  lemma {:induction false} NoMore(t: Table, text: seq<int>, i: nat, j: nat, k: nat)
    requires TableOk(t) && IsWord(text) && i <= j <= k <= |text| && Run(t, 0, text[i..j]) == F
    ensures Run(t, 0, text[i..k]) == F
    decreases k
  {
    if j < k {
      NoMore(t, text, i, j, k - 1);
      RunSnoc(t, 0, text[i..k - 1], text[k - 1]);
      assert text[i..k] == text[i..k - 1] + [text[k - 1]];
    }
  }

  /** If any prefix is accepted, one is the longest. */
  lemma {:induction false} SomeLongest(t: Table, text: seq<int>, i: nat, j: nat) returns (k: nat)
    requires TableOk(t) && IsWord(text) && AcceptsAt(t, text, i, j)
    ensures j <= k <= |text| && Longest(t, text, i, k)
    decreases |text| - j
  {
    if k' :| j < k' <= |text| && AcceptsAt(t, text, i, k') {
      k := SomeLongest(t, text, i, k');
    } else {
      k := j;
    }
  }

  datatype Result = Action(state: nat, start: nat, end: nat) | EndOfInput(start: nat)

  /** What is known when the next character is read: the state, and the longest prefix that
      has been accepted, if any. */
  ghost predicate Reading(t: Table, text: seq<int>, smark: nat, emark: nat, next: nat, state: int, last: int)
    requires TableOk(t) && IsWord(text)
  {
    && smark <= emark <= next <= |text| && state != F && state == Run(t, 0, text[smark..next])
    && (smark == emark ==> last == 0)
    && (smark < emark ==> AcceptsAt(t, text, smark, emark) && last == Run(t, 0, text[smark..emark]))
    && forall k | emark < k <= next :: !AcceptsAt(t, text, smark, k)
  }

  /** The state after one more character. */
  lemma Read(t: Table, text: seq<int>, smark: nat, next: nat, state: int)
    requires TableOk(t) && IsWord(text) && smark <= next < |text| && state != F && state == Run(t, 0, text[smark..next])
    ensures 0 <= state < |t.rows| && |t.rows[state]| == MAX_CHARS && F <= t.rows[state][text[next]] < |t.rows|
    ensures Run(t, 0, text[smark..next + 1]) == t.rows[state][text[next]]
  {
    RunSnoc(t, 0, text[smark..next], text[next]);
    assert text[smark..next + 1] == text[smark..next] + [text[next]];
    assert RowOk(t.rows[state], |t.rows|);
  }

  /** When the automaton fails, what has been noted is all there is. */
  lemma Failed(t: Table, text: seq<int>, smark: nat, emark: nat, next: nat, state: int, last: int)
    requires TableOk(t) && IsWord(text) && Reading(t, text, smark, emark, next, state, last)
    requires next == |text| || Run(t, 0, text[smark..next + 1]) == F
    ensures forall k | emark < k <= |text| :: !AcceptsAt(t, text, smark, k)
    ensures smark < emark ==> Longest(t, text, smark, emark)
    ensures last == 0 ==> NoAction(t, text, smark)
  {
    forall k | emark < k <= |text| ensures !AcceptsAt(t, text, smark, k) {
      if k > next {
        NoMore(t, text, smark, next + 1, k);
      }
    }
  }

  /** The printed table is that of `t`: all its rows are there and their entries agree. */
  ghost predicate TablesMatch(t: Table, dtran: array2<int>, threshold: int, yyd: PairTable.Compressed)
    requires TableOk(t)
    reads dtran
  {
    && PairTable.Emitted(dtran, threshold, yyd) && yyd.Linked()
    && dtran.Length0 == |t.rows| && dtran.Length1 == MAX_CHARS
    && forall q, c | 0 <= q < dtran.Length0 && 0 <= c < dtran.Length1 ::
         RowOk(t.rows[q], |t.rows|) && dtran[q, c] == t.rows[q][c]
  }

  class Scanner {
    const t: Table
    const yyd: PairTable.Compressed  // the table as it has been printed
    ghost const dtran: array2<int>
    ghost const threshold: int
    const text: seq<int>  // the newline that ii_advance puts in front, and the file
    var next: nat         // the next character
    var smark: nat        // the start of the lexeme
    var emark: nat        // its end

    ghost predicate Valid()
      reads this, dtran
    {
      && TableOk(t) && |t.rows| <= DFA_MAX && TablesMatch(t, dtran, threshold, yyd)
      && IsWord(text) && smark <= emark <= next <= |text|
    }

    constructor (t: Table, yyd: PairTable.Compressed, file: seq<int>, ghost dtran: array2<int>, ghost threshold: int)
      requires TableOk(t) && |t.rows| <= DFA_MAX && TablesMatch(t, dtran, threshold, yyd) && IsWord(file)
      ensures Valid() && this.t == t && text == [10] + file && next == 0
    {
      this.t, this.yyd, this.dtran, this.threshold := t, yyd, dtran, threshold;
      text := [10] + file;
      next, smark, emark := 0, 0, 0;
    }

    /** ii_look(1). */
    method Look() returns (c: int)
      requires Valid()
      ensures c == if next < |text| then text[next] else EOF
    {
      c := if next < |text| then text[next] else EOF;
    }

    /** yylex, up to the next action or the end of the input. */
    method Yylex() returns (r: Result)
      requires Valid()
      modifies `next, `smark, `emark
      ensures Valid()
      ensures PassedAll(t, text, old(next), r.start)
      ensures r.Action? ==>
        && Longest(t, text, r.start, r.end) && r.state == Run(t, 0, text[r.start..r.end]) != 0
        && next == r.end && smark == r.start && emark == r.end
      ensures r.EndOfInput? ==>
        && next == |text| && r.start <= |text| && NoAction(t, text, r.start) && Run(t, 0, text[r.start..]) != F
    {
      hide Longest, NoAction, AcceptsAt, Run, PairTable.Emitted, PairTable.Row, PairTable.Count;
      var yystate, yylastaccept := 0, 0;
      MarkStart();
      ReadNothing(t, text, next);
      while true
        invariant Valid() && Reading(t, text, smark, emark, next, yystate, yylastaccept)
        invariant PassedAll(t, text, old(next), smark)
        decreases |text| - smark, |text| - next
      {
        var yylook := Look();
        var yynstate := PairTable.YYF;
        if yylook != EOF {
          Read(t, text, smark, next, yystate);
          yynstate := PairTable.Next(yyd, yystate, yylook, dtran, threshold);
        } else if yylastaccept == 0 {
          Failed(t, text, smark, emark, next, yystate, yylastaccept);
          assert text[smark..next] == text[smark..];
          return EndOfInput(smark);
        }
        if yynstate != PairTable.YYF {
          next := next + 1;
          NextRead(t, text, smark, emark, next, yystate, yylastaccept, yynstate);
          if t.accepts[yynstate].action != NONE {
            yylastaccept := yynstate;
            emark := next;
          }
          yystate := yynstate;
        } else {
          Failed(t, text, smark, emark, next, yystate, yylastaccept);
          if yylastaccept == 0 {
            next := next + 1;
            MarkStart();
            ReadNothing(t, text, next);
            yystate := 0;
          } else {
            next := emark;
            return Action(yylastaccept, smark, emark);
          }
        }
      }
    }

    /** ii_mark_start. */
    method MarkStart()
      requires Valid()
      modifies `smark, `emark
      ensures smark == emark == next
    {
      smark, emark := next, next;
    }
  }

  lemma ReadNothing(t: Table, text: seq<int>, next: nat)
    requires TableOk(t) && IsWord(text) && next <= |text|
    ensures Reading(t, text, next, next, next, 0, 0)
  {
  }

  lemma NextRead(t: Table, text: seq<int>, smark: nat, emark: nat, next: nat, state: int, last: int, state': int)
    requires TableOk(t) && IsWord(text) && 0 < next <= |text| && Reading(t, text, smark, emark, next - 1, state, last)
    requires 0 <= state' < |t.rows| && state' == Run(t, 0, text[smark..next])
    ensures if t.accepts[state'].action != NONE then Reading(t, text, smark, next, next, state', state')
            else Reading(t, text, smark, emark, next, state', last)
  {
  }
}
