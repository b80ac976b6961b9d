/** From the rules of a LeX file to the actions of the scanner: the stages of
    compiler/lex composed. */
module LexGen {
  import opened Options
  import opened Nfa
  import opened Regex
  import opened NfaRules
  import opened Closures
  import opened Tables
  import opened Layouts
  import T = Thompson
  import Subset
  import MinDfa
  import MinSteps
  import Minimal
  import L = Lexer
  import LexRuns
  import PairTable

  /** Rule `j` of the input matches the word. */
  ghost predicate RuleMatches(lines: seq<Line>, unix: bool, j: int, w: seq<int>) {
    0 <= j < |lines| && ParseRule(lines[j].tokens, unix).Some? &&
    Matches(ParseRule(lines[j].tokens, unix).value.regex, w)
  }

  ghost predicate SomeRule(lines: seq<Line>, unix: bool, w: seq<int>) {
    exists j :: RuleMatches(lines, unix, j, w)
  }

  /** Among the rules that match the word, rule `j` is the one whose last node is the lowest. */
  ghost predicate Chosen(lines: seq<Line>, unix: bool, w: seq<int>, j: int) {
    && Fits(lines, unix) && RuleMatches(lines, unix, j, w)
    && forall i: nat | i < |lines| && RuleMatches(lines, unix, i, w) :: EndOf(lines, unix, j) <= EndOf(lines, unix, i)
  }

  /** The action at this address is that of the rule chosen. */
  ghost predicate ActionFor(lines: seq<Line>, unix: bool, w: seq<int>, action: int) {
    exists j :: Chosen(lines, unix, w, j) && action == Address(lines, j)
  }

  /** What the table says about `w`: it accepts exactly the words that some rule matches,
      with the action of the rule chosen, and it fails only where no longer word matches. */
  ghost predicate Right(lines: seq<Line>, unix: bool, t: Table, w: seq<int>)
    requires TableOk(t) && IsWord(w)
  {
    var q := Run(t, 0, w);
    && (q != F && t.accepts[q].action != NONE <==> SomeRule(lines, unix, w))
    && (q != F && t.accepts[q].action != NONE ==> ActionFor(lines, unix, w, t.accepts[q].action))
    && (q == F ==> forall v | IsWord(v) :: !SomeRule(lines, unix, w + v))
  }

  ghost predicate Implements(lines: seq<Line>, unix: bool, t: Table) {
    TableOk(t) && forall w | IsWord(w) :: Right(lines, unix, t, w)
  }

  /** The automaton has been built from the rules. */
  ghost predicate FromRules(lines: seq<Line>, unix: bool, m: Machine, start: int, parts: seq<Part>) {
    && Fits(lines, unix) && |parts| == |lines| && T.AsWritten(lines, parts, unix)
    && Recognizes(m, start, parts) && AcceptsParts(m, parts)
    && forall k | 0 <= k < |lines| :: parts[k].e == EndOf(lines, unix, k)
  }

  /** A rule matches exactly if its end can be reached. */
  lemma RuleEnd(lines: seq<Line>, unix: bool, m: Machine, start: int, parts: seq<Part>, w: seq<int>, j: nat)
    requires FromRules(lines, unix, m, start, parts) && j < |lines|
    ensures 0 <= parts[j].e < |m| && m[parts[j].e].accept == Address(lines, j)
    ensures Fits(lines, unix) && parts[j].e == EndOf(lines, unix, j)
    ensures Path(m, start, w, parts[j].e) <==> RuleMatches(lines, unix, j, w)
  {
    hide Path, Matches, Fits, EndOf, ParseRule;
    var n := parts[j].e;
    assert m[n].accept == parts[j].accept;
    if Path(m, start, w, n) {
      var i :| AcceptsIn(parts, 0, i, w, n);
      assert parts[i].e == parts[j].e;
    }
    if RuleMatches(lines, unix, j, w) {
      assert AcceptsIn(parts, 0, j, w, n);
    }
  }

  lemma SomeEnd(lines: seq<Line>, unix: bool, m: Machine, start: int, parts: seq<Part>, n: int) returns (j: nat)
    requires FromRules(lines, unix, m, start, parts) && 0 <= n < |m| && m[n].accept != NONE
    ensures j < |lines| && n == parts[j].e
  {
    var i :| 0 <= i < |parts| && n == parts[i].e;
    j := i;
  }

  /** What the automaton says about a word, in terms of the rules. */
  lemma SaysRule(lines: seq<Line>, unix: bool, m: Machine, start: int, parts: seq<Part>, w: seq<int>, a: Accept)
    requires FromRules(lines, unix, m, start, parts) && Subset.Says(m, start, w, a)
    ensures a.action != NONE <==> SomeRule(lines, unix, w)
    ensures a.action != NONE ==> ActionFor(lines, unix, w, a.action)
  {
    hide Path, Matches, FromRules, RuleMatches, Fits, EndOf;
    PartsAre(lines, unix, m, start, parts);
    if j :| RuleMatches(lines, unix, j, w) {
      RuleInRange(lines, unix, j, w);
      RuleEnd(lines, unix, m, start, parts, w, j);
    }
    if a.action != NONE {
      var n :| Subset.Lowest(m, start, w, n) && a == Accept(m[n].accept, m[n].anchor);
      var j := SomeEnd(lines, unix, m, start, parts, n);
      RuleEnd(lines, unix, m, start, parts, w, j);
      forall i: nat | i < |lines| && RuleMatches(lines, unix, i, w)
        ensures EndOf(lines, unix, j) <= EndOf(lines, unix, i)
      {
        RuleEnd(lines, unix, m, start, parts, w, i);
      }
      assert Chosen(lines, unix, w, j);
    }
  }

  lemma PartsAre(lines: seq<Line>, unix: bool, m: Machine, start: int, parts: seq<Part>)
    requires FromRules(lines, unix, m, start, parts)
    ensures |parts| == |lines|
  {
  }

  lemma RuleInRange(lines: seq<Line>, unix: bool, j: int, w: seq<int>)
    requires RuleMatches(lines, unix, j, w)
    ensures 0 <= j < |lines|
  {
  }

  /** A failed word has no continuation that a rule matches. */
  lemma {:induction false} FailsForGood(t: Table, w: seq<int>, v: seq<int>)
    requires TableOk(t) && IsWord(w) && IsWord(v) && Run(t, 0, w) == F
    ensures Run(t, 0, w + v) == F
    decreases |v|
  {
    if v == [] {
      assert w + v == w;
    } else {
      var k := |v| - 1;
      FailsForGood(t, w, v[..k]);
      L.RunSnoc(t, 0, w + v[..k], v[k]);
      assert w + v == w + v[..k] + [v[k]];
    }
  }

  /** Stage by stage: the automaton from the rules, the table that simulates it, the
      smaller table with the same meaning. */
  lemma StagesCompose(lines: seq<Line>, unix: bool, m: Machine, start: int, parts: seq<Part>, t: Table, t': Table)
    requires FromRules(lines, unix, m, start, parts) && Subset.Simulates(m, start, t) && MinDfa.SameMeaning(t, t')
    ensures Implements(lines, unix, t')
  {
    hide FromRules, SomeRule, ActionFor;
    forall w | IsWord(w) ensures Right(lines, unix, t', w) {
      Accepted(lines, unix, m, start, parts, t, t', w);
      if Run(t', 0, w) == F {
        forall v | IsWord(v) ensures !SomeRule(lines, unix, w + v) {
          FailsForGood(t', w, v);
          Accepted(lines, unix, m, start, parts, t, t', w + v);
        }
      }
    }
  }

  lemma Accepted(lines: seq<Line>, unix: bool, m: Machine, start: int, parts: seq<Part>, t: Table, t': Table,
        w: seq<int>)
    requires FromRules(lines, unix, m, start, parts) && Subset.Simulates(m, start, t) && MinDfa.SameMeaning(t, t')
    requires IsWord(w)
    ensures var q := Run(t', 0, w);
      && (q != F && t'.accepts[q].action != NONE <==> SomeRule(lines, unix, w))
      && (q != F && t'.accepts[q].action != NONE ==> ActionFor(lines, unix, w, t'.accepts[q].action))
  {
    hide FromRules, Path, Matches, RuleMatches;
    assert Subset.SimulatesOn(m, start, t, w) && MinDfa.SameOn(t, t', w);
    var q := Run(t, 0, w);
    if q != F {
      SaysRule(lines, unix, m, start, parts, w, t.accepts[q]);
      hide Subset.Says, SomeRule, ActionFor;
    } else {
      forall j ensures !RuleMatches(lines, unix, j, w) {
        if RuleMatches(lines, unix, j, w) {
          RuleInRange(lines, unix, j, w);
          PartsAre(lines, unix, m, start, parts);
          RuleEnd(lines, unix, m, start, parts, w, j);
        }
      }
    }
  }

  datatype Outcome = Ok(t: Table) | BadRule | TooBig

  /** Rule `j` has this action, and this anchor. */
  predicate HasAccept(lines: seq<Line>, unix: bool, j: int, a: Accept) {
    && 0 <= j < |lines| && ParseRule(lines[j].tokens, unix).Some?
    && a == Accept(Address(lines, j), ParseRule(lines[j].tokens, unix).value.anchor)
  }

  /** With each action the table has the anchor of a rule with that action. */
  ghost predicate AnchorsOfRules(lines: seq<Line>, unix: bool, t: Table) {
    forall q | 0 <= q < |t.accepts| && t.accepts[q].action != NONE ::
      exists j :: HasAccept(lines, unix, j, t.accepts[q])
  }

  lemma RowsFromRules(lines: seq<Line>, unix: bool, m: Machine, start: int, parts: seq<Part>, t: Table, t': Table)
    requires FromRules(lines, unix, m, start, parts) && Subset.Simulates(m, start, t) && Reachable(t)
    requires Minimal.AcceptsKept(t, t')
    ensures AnchorsOfRules(lines, unix, t')
  {
    hide FromRules, Path, HasAccept;
    forall q | 0 <= q < |t'.accepts| && t'.accepts[q].action != NONE
      ensures exists j :: HasAccept(lines, unix, j, t'.accepts[q])
    {
      var s :| 0 <= s < |t.accepts| && t.accepts[s] == t'.accepts[q];
      assert CanReach(t, s);
      var w :| LeadsTo(t, w, s);
      assert Subset.SimulatesOn(m, start, t, w);
      var n :| Subset.Lowest(m, start, w, n) && t.accepts[s] == Accept(m[n].accept, m[n].anchor);
      var j := SomeEnd(lines, unix, m, start, parts, n);
      EndAccepts(lines, unix, m, start, parts, j);
    }
  }

  lemma EndAccepts(lines: seq<Line>, unix: bool, m: Machine, start: int, parts: seq<Part>, j: nat)
    requires FromRules(lines, unix, m, start, parts) && j < |lines|
    ensures 0 <= parts[j].e < |m| && HasAccept(lines, unix, j, Accept(m[parts[j].e].accept, m[parts[j].e].anchor))
  {
    hide Path, Recognizes, ParseRule, Fits;
  }

  /** If all rules with an action have the same anchor, the table has it with the action. */
  lemma AnchorPinned(lines: seq<Line>, unix: bool, t: Table, q: nat, anchor: nat)
    requires AnchorsOfRules(lines, unix, t) && q < |t.accepts| && t.accepts[q].action != NONE
    requires forall j |
        0 <= j < |lines| && Address(lines, j) == t.accepts[q].action && ParseRule(lines[j].tokens, unix).Some? ::
      ParseRule(lines[j].tokens, unix).value.anchor == anchor
    ensures t.accepts[q].anchor == anchor
  {
    hide ParseRule;
  }

  /** From the table `t` of the automaton min_dfa has made `t'`, the smallest of this meaning exactly if
      all its splits are fair. */
  ghost predicate MadeSmaller(lines: seq<Line>, unix: bool, t: Table, t': Table) {
    && Fits(lines, unix) && Subset.Simulates(MachineOf(lines, unix), 0, t) && MinDfa.SameMeaning(t, t')
    && |t.rows| <= DFA_MAX && Reachable(t) && Reachable(t')
    && (Minimal.Smallest(t') <==> Minimal.FairRun(t, MinSteps.Placed(t, MinSteps.Zeros(), |t.rows|)))
  }

  /** LeX: thompson, dfa and min_dfa. Exactly these end the program: a rule that does not parse,
      nodes or actions that do not fit into their arrays, and an automaton of the rules with more sets
      of nodes than a table has rows. */
  method Generate(lines: seq<Line>, unix: bool) returns (o: Outcome)
    requires |lines| > 0
    ensures o.Ok? ==> |o.t.rows| <= DFA_MAX && Implements(lines, unix, o.t)
    ensures o.Ok? <==> Fits(lines, unix) && !Subset.TooManySets(MachineOf(lines, unix), 0)
    ensures o.BadRule? ==> !WellFormed(lines, unix, |lines|)
    ensures o.Ok? ==> exists t :: MadeSmaller(lines, unix, t, o.t)
    ensures o.Ok? ==> AnchorsOfRules(lines, unix, o.t)
  {
    hide T.Builder.Valid, Implements, Minimal.Smallest, Minimal.FairRun, ParseRule, LayRules,
      Subset.TooManySets, EndOf, MachineOf;
    var builder := new T.Builder(unix);
    var res, m, start;
    ghost var parts;
    res, m, start, parts := builder.Thompson(lines);
    if res == Malformed { return BadRule; }
    if res != Fine { return TooBig; }
    var ok, t := Subset.Dfa(m, start);
    if !ok { return TooBig; }
    var t' := Minimal.Minimized(t);
    StagesCompose(lines, unix, m, start, parts, t, t');
    assert MadeSmaller(lines, unix, t, t');
    RowsFromRules(lines, unix, m, start, parts, t, t');
    o := Ok(t');
  }

  /** What lex.c prints for a table: pairs, or whole rows where these are shorter. The printed
      arrays fit together exactly if the last row has a transition. */
  method Print(t: Table, threshold: int) returns (yyd: PairTable.Compressed, dtran: array2<int>)
    requires TableOk(t)
    ensures PairTable.Emitted(dtran, threshold, yyd) && fresh(dtran)
    ensures yyd.Linked() <==> HasTransition(t.rows[|t.rows| - 1])
    ensures yyd.Linked() ==> L.TablesMatch(t, dtran, threshold, yyd)
  {
    hide PairTable.Emitted;
    RowsOk(t);
    dtran := new int[|t.rows|, MAX_CHARS](
      (q, c) requires 0 <= q < |t.rows| && 0 <= c < MAX_CHARS && |t.rows[q]| == MAX_CHARS => t.rows[q][c]);
    yyd := PairTable.Pairs(dtran, threshold);
    PairTable.LinkedExactly(dtran, threshold, yyd);
    SomeTransition(dtran, |t.rows| - 1, t.rows[|t.rows| - 1]);
  }

  predicate HasTransition(row: Row) {
    exists c | 0 <= c < |row| :: row[c] != F
  }

  lemma RowsOk(t: Table)
    requires TableOk(t)
    ensures forall q | 0 <= q < |t.rows| :: RowOk(t.rows[q], |t.rows|) && |t.rows[q]| == MAX_CHARS
  {
  }

  lemma SomeTransition(dtran: array2<int>, q: nat, row: Row)
    requires q < dtran.Length0 && |row| == dtran.Length1 && forall c | 0 <= c < |row| :: dtran[q, c] == row[c]
    ensures PairTable.Count(PairTable.Row(dtran, q)) > 0 <==> HasTransition(row)
  {
    PairTable.RowLength(dtran, q);
    forall c | 0 <= c < |row| ensures PairTable.Row(dtran, q)[c] == row[c] {
      PairTable.RowAt(dtran, q, c);
    }
    assert PairTable.Row(dtran, q) == row;
    PairTable.CountZero(row);
  }

  // ------------------------------------------------------------- the scanner

  /** The lexeme is the longest prefix of the rest of the input that a rule matches, and
      the action is that of the rule chosen for it. */
  ghost predicate LexemeOf(lines: seq<Line>, unix: bool, text: seq<int>, i: nat, j: nat, action: int) {
    && i < j <= |text| && ActionFor(lines, unix, text[i..j], action)
    && forall k | j < k <= |text| :: !SomeRule(lines, unix, text[i..k])
  }

  /** No rule matches anything at `i`. */
  ghost predicate NothingAt(lines: seq<Line>, unix: bool, text: seq<int>, i: nat) {
    i <= |text| && forall k | i < k <= |text| :: !SomeRule(lines, unix, text[i..k])
  }

  /** Every action of the scanner is right, if no rule matches the empty word: the lexeme is
      the longest that any rule matches, and where the scanner takes no action no rule
      matches anything. */
  lemma ScannerRight(lines: seq<Line>, unix: bool, t: Table, text: seq<int>, i: nat)
    requires Implements(lines, unix, t) && IsWord(text) && i <= |text| && !SomeRule(lines, unix, [])
    ensures L.NoAction(t, text, i) ==> NothingAt(lines, unix, text, i)
    ensures forall j: nat | L.Longest(t, text, i, j) ::
      var q := Run(t, 0, text[i..j]);
      0 < q < |t.rows| && LexemeOf(lines, unix, text, i, j, t.accepts[q].action)
  {
    hide SomeRule, ActionFor, Run;
    StartRejects(lines, unix, t);
    forall k | i < k <= |text| ensures L.AcceptsAt(t, text, i, k) <==> SomeRule(lines, unix, text[i..k]) {
      assert Right(lines, unix, t, text[i..k]);
    }
    forall j: nat | L.Longest(t, text, i, j)
      ensures var q := Run(t, 0, text[i..j]);
        0 < q < |t.rows| && LexemeOf(lines, unix, text, i, j, t.accepts[q].action)
    {
      assert Right(lines, unix, t, text[i..j]);
    }
    if L.NoAction(t, text, i) {
      forall k | i < k <= |text| ensures !SomeRule(lines, unix, text[i..k]) {
        if L.AcceptsAt(t, text, i, k) {
          var k' := L.SomeLongest(t, text, i, k);
        }
      }
    }
  }

  /** If the table is miss-free, no rule matches anything that begins at a character which a run of
      the scanner drops. */
  lemma NothingMissed(lines: seq<Line>, unix: bool, t: Table, file: seq<int>, i: nat, k: nat, e: nat)
    requires Implements(lines, unix, t) && LexRuns.MissFree(t) && IsWord(file) && k < e <= |[LexRuns.NEWLINE] + file|
    requires LexRuns.Started(t, [LexRuns.NEWLINE] + file, i) && LexRuns.Dropped(t, [LexRuns.NEWLINE] + file, i, k)
    ensures !SomeRule(lines, unix, ([LexRuns.NEWLINE] + file)[k..e])
  {
    hide SomeRule, ActionFor, Run, LexRuns.MissFree, LexRuns.Started, LexRuns.Dropped;
    var text := [LexRuns.NEWLINE] + file;
    LexRuns.NothingThere(t, text, i, k, e);
    assert Right(lines, unix, t, text[k..e]);
  }

  /** State 0 accepts only if a rule matches the empty word. */
  lemma StartRejects(lines: seq<Line>, unix: bool, t: Table)
    requires Implements(lines, unix, t) && !SomeRule(lines, unix, [])
    ensures t.accepts[0].action == NONE
  {
    hide SomeRule, ActionFor;
    var none: seq<int> := [];
    assert IsWord(none) && Right(lines, unix, t, none) && Run(t, 0, none) == 0;
  }
}
