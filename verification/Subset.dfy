/** The subset construction of compiler/lex/dfa.c: a work list of sets of NFA states. */
module Subset {
  import opened SetFacts
  import opened Nfa
  import opened Closures
  import opened Tables

  /** A state of the deterministic automaton while it is being made. */
  datatype DState = DState(nfa: set<int>, accept: Accept, mark: bool)

  /** From `s` the automaton gets to `n` by an edge of `i` on `c` and epsilon edges. */
  ghost predicate StepVia(m: Machine, s: set<int>, c: int, n: int, i: int) {
    0 <= i < |m| && i in s && m[i].On(c) && Path(m, m[i].next, [], n)
  }

  ghost predicate IsStep(m: Machine, s: set<int>, c: int, t: set<int>) {
    forall n :: n in t <==> exists i :: StepVia(m, s, c, n, i)
  }

  ghost predicate StateOk(m: Machine, d: DState) {
    d.nfa != {} && EpsilonClosed(m, d.nfa) && IsAccept(m, d.nfa, d.accept)
  }

  ghost predicate StatesOk(m: Machine, start: int, states: seq<DState>) {
    && 0 < |states| && Reaches(m, {start}, states[0].nfa)
    && (forall i | 0 <= i < |states| :: StateOk(m, states[i]))
    && (forall i, j | 0 <= i < j < |states| :: states[i].nfa != states[j].nfa)
  }

  /** What the entry `next` of a table stands for. */
  function Target(states: seq<DState>, next: int): set<int>
    requires F <= next < |states|
  {
    if next == F then {} else states[next].nfa
  }

  ghost predicate EntryOk(m: Machine, states: seq<DState>, i: int, c: int, next: int)
    requires 0 <= i < |states|
  {
    F <= next < |states| && IsStep(m, states[i].nfa, c, Target(states, next))
  }

  ghost predicate RowDone(m: Machine, states: seq<DState>, rows: seq<Row>, i: int)
    requires 0 <= i < |states|
  {
    i < |rows| && |rows[i]| == MAX_CHARS && forall c | 0 <= c < MAX_CHARS :: EntryOk(m, states, i, c, rows[i][c])
  }

  // ----------------------------------------------------- what the table computes

  /** The states `t` are those that `s` leads to on the word `w`. */
  ghost predicate Leads(m: Machine, s: set<int>, w: seq<int>, n: int) {
    exists x :: x in s && Path(m, x, w, n)
  }

  /** A path from a closed set on a word that is not empty leaves it by an edge on the
      first character. */
  lemma {:induction false} FirstEdge(m: Machine, s: set<int>, x: int, w: seq<int>, n: int, k: nat) returns (i: int)
    requires EpsilonClosed(m, s) && x in s && PathIn(m, x, w, n, k) && w != []
    ensures 0 <= i < |m| && i in s && m[i].On(w[0]) && Path(m, m[i].next, w[1..], n)
    decreases k
  {
    var j, q := FirstOf(m, x, w, n, k);
    if m[x].edge == EPSILON {
      assert EpsilonNext(m, x, q) && w[j..] == w;
      i := FirstEdge(m, s, q, w, n, k - 1);
    } else {
      i := x;
      assert w[..j][0] == w[0] && j == 1;
    }
  }

  /** On `c` and then `w` the set `s` leads where the set after `c` leads on `w`. */
  lemma LeadsStep(m: Machine, s: set<int>, c: int, t: set<int>, w: seq<int>, n: int)
    requires EpsilonClosed(m, s) && IsStep(m, s, c, t) && c >= 0 && MachineOk(m)
    ensures Leads(m, s, [c] + w, n) <==> Leads(m, t, w, n)
  {
    var cw := [c] + w;
    assert cw[1..] == w;
    if Leads(m, s, cw, n) {
      var x :| x in s && Path(m, x, cw, n);
      var k: nat :| PathIn(m, x, cw, n, k);
      var i := FirstEdge(m, s, x, cw, n, k);
      Stay(m, m[i].next);
      assert StepVia(m, s, c, m[i].next, i);
    }
    if Leads(m, t, w, n) {
      var y :| y in t && Path(m, y, w, n);
      var i :| StepVia(m, s, c, y, i);
      assert NodeOk(|m|, m[i]) && Moves(m, i, [c], m[i].next);
      OneMove(m, i, [c], m[i].next);
      Compose(m, i, [c], m[i].next, [], y);
      assert [c] + [] == [c];
      Compose(m, i, [c], y, w, n);
    }
  }

  lemma LeadsNowhere(m: Machine, s: set<int>, n: int)
    requires EpsilonClosed(m, s)
    ensures Leads(m, s, [], n) <==> n in s
  {
    if Leads(m, s, [], n) {
      var x :| x in s && Path(m, x, [], n);
      var k: nat :| PathIn(m, x, [], n, k);
      StaysInside(m, s, x, n, k);
    }
    if n in s {
      Stay(m, n);
    }
  }

  /** The table of the finished construction. */
  ghost predicate Finished(m: Machine, start: int, states: seq<DState>, t: Table) {
    && MachineOk(m) && StatesOk(m, start, states) && TableOk(t) && |t.rows| == |states|
    && (forall i | 0 <= i < |states| :: RowDone(m, states, t.rows, i))
    && (forall i | 0 <= i < |states| :: t.accepts[i] == states[i].accept)
  }

  /** Running the table from state `q` gives the state whose set is where the set of `q`
      leads, and fails if that is nowhere. */
  lemma {:induction false} RunSet(m: Machine, start: int, states: seq<DState>, t: Table, q: nat, w: seq<int>, n: int)
    requires Finished(m, start, states, t) && q < |states| && IsWord(w)
    ensures n in Target(states, Run(t, q, w)) <==> Leads(m, states[q].nfa, w, n)
    decreases |w|
  {
    assert StateOk(m, states[q]);
    if w == [] {
      LeadsNowhere(m, states[q].nfa, n);
    } else {
      assert RowDone(m, states, t.rows, q) && EntryOk(m, states, q, w[0], t.rows[q][w[0]]);
      var next := t.rows[q][w[0]];
      LeadsStep(m, states[q].nfa, w[0], Target(states, next), w[1..], n);
      assert [w[0]] + w[1..] == w;
      if next == F {
        RunFails(t, w[1..]);
      } else {
        RunSet(m, start, states, t, next, w[1..], n);
      }
    }
  }

  lemma FromStart(m: Machine, start: int, s: set<int>, w: seq<int>, n: int)
    requires Reaches(m, {start}, s)
    ensures Leads(m, s, w, n) <==> Path(m, start, w, n)
  {
    if Leads(m, s, w, n) {
      var x :| x in s && Path(m, x, w, n);
      assert From(m, {start}, x);
      Compose(m, start, [], x, w, n);
      assert [] + w == w;
    }
    if Path(m, start, w, n) {
      Stay(m, start);
      assert From(m, {start}, start);
    }
  }

  /** Among the states that `w` leads to, `n` is the lowest-numbered one that accepts. */
  ghost predicate Lowest(m: Machine, start: int, w: seq<int>, n: int) {
    && 0 <= n < |m| && Path(m, start, w, n) && m[n].accept != NONE
    && forall k | 0 <= k < |m| && Path(m, start, w, k) && m[k].accept != NONE :: n <= k
  }

  /** `a` is what the automaton says about the word `w`. */
  ghost predicate Says(m: Machine, start: int, w: seq<int>, a: Accept) {
    if exists n :: 0 <= n < |m| && Path(m, start, w, n) && m[n].accept != NONE
    then exists n :: Lowest(m, start, w, n) && a == Accept(m[n].accept, m[n].anchor)
    else a.action == NONE
  }

  /** The table fails exactly where the automaton gets stuck, and accepts as it does. */
  ghost predicate Simulates(m: Machine, start: int, t: Table) {
    TableOk(t) && forall w | IsWord(w) :: SimulatesOn(m, start, t, w)
  }

  ghost predicate SimulatesOn(m: Machine, start: int, t: Table, w: seq<int>)
    requires TableOk(t) && IsWord(w)
  {
    var q := Run(t, 0, w);
    && (q == F <==> forall n :: !Path(m, start, w, n))
    && (q != F ==> Says(m, start, w, t.accepts[q]))
  }

  lemma FinishedSimulates(m: Machine, start: int, states: seq<DState>, t: Table)
    requires Finished(m, start, states, t)
    ensures Simulates(m, start, t)
  {
    forall w | IsWord(w) ensures SimulatesOn(m, start, t, w) {
      hide Path, Leads, EpsilonClosed, Finished;
      FinishedFacts(m, start, states, t);
      var q := Run(t, 0, w);
      forall n ensures n in Target(states, q) <==> Path(m, start, w, n) {
        RunSet(m, start, states, t, 0, w, n);
        FromStart(m, start, states[0].nfa, w, n);
      }
      if q != F {
        SaysState(m, start, states[q], w);
      }
    }
  }

  lemma FinishedFacts(m: Machine, start: int, states: seq<DState>, t: Table)
    requires Finished(m, start, states, t)
    ensures 0 < |states| == |t.rows| == |t.accepts| && TableOk(t) && Reaches(m, {start}, states[0].nfa)
    ensures forall i | 0 <= i < |states| :: StateOk(m, states[i]) && t.accepts[i] == states[i].accept
  {
  }

  lemma SaysState(m: Machine, start: int, d: DState, w: seq<int>)
    requires StateOk(m, d) && forall n :: n in d.nfa <==> Path(m, start, w, n)
    ensures Says(m, start, w, d.accept) && exists n :: Path(m, start, w, n)
  {
    hide Path;
    var x := SomeMember(d.nfa);
    assert Path(m, start, w, x);
    if n :| n in d.nfa && m[n].accept != NONE {
      var k :| IsLowest(m, d.nfa, k) && d.accept == Accept(m[k].accept, m[k].anchor);
      assert Lowest(m, start, w, k);
    }
  }

  /** The closure of a move is a step. */
  lemma ClosureStep(m: Machine, s: set<int>, c: int, out: set<int>, t: set<int>)
    requires InMachine(m, s) && Reaches(m, out, t)
    requires forall n :: n in out <==> exists i :: i in s && m[i].On(c) && n == m[i].next
    ensures IsStep(m, s, c, t) && (out == {} <==> t == {})
  {
    forall n ensures n in t <==> exists i :: StepVia(m, s, c, n, i) {
      if n in t {
        assert From(m, out, n);
        var x :| x in out && Path(m, x, [], n);
        var i :| i in s && m[i].On(c) && x == m[i].next;
        assert StepVia(m, s, c, n, i);
      }
      if i :| StepVia(m, s, c, n, i) {
        assert m[i].next in out && From(m, out, n);
      }
    }
    forall x | x in out ensures x in t {
      Stay(m, x);
      assert From(m, out, x);
    }
    if t != {} {
      var n := SomeMember(t);
      assert From(m, out, n);
    }
    if out != {} {
      var x := SomeMember(out);
      assert x in t;
    }
  }

  // ------------------------------------------------------------- how many sets

  /** The nodes that `w` leads to. */
  ghost function Ends(m: Machine, start: int, w: seq<int>): iset<int> {
    iset n | Path(m, start, w, n)
  }

  /** Words that lead to different sets of nodes, none of which is empty. */
  ghost predicate ApartWords(m: Machine, start: int, ws: seq<seq<int>>) {
    && (forall i | 0 <= i < |ws| :: IsWord(ws[i]) && Ends(m, start, ws[i]) != iset{})
    && forall i, j | 0 <= i < j < |ws| :: Ends(m, start, ws[i]) != Ends(m, start, ws[j])
  }

  /** The automaton has more sets of nodes than a table has rows. */
  ghost predicate TooManySets(m: Machine, start: int) {
    exists ws :: |ws| > DFA_MAX && ApartWords(m, start, ws)
  }

  ghost predicate LedTo(m: Machine, start: int, s: set<int>, w: seq<int>) {
    IsWord(w) && forall n :: n in s <==> Path(m, start, w, n)
  }

  ghost predicate SomeWord(m: Machine, start: int, s: set<int>) {
    exists w :: LedTo(m, start, s, w)
  }

  /** Every state stands for the nodes that some word leads to. */
  ghost predicate AllLed(m: Machine, start: int, states: seq<DState>) {
    forall i | 0 <= i < |states| :: SomeWord(m, start, states[i].nfa)
  }

  lemma {:induction false} PathSplit(m: Machine, s: int, u: seq<int>, v: seq<int>, t: int, k: nat) returns (q: int)
    requires PathIn(m, s, u + v, t, k)
    ensures Path(m, s, u, q) && Path(m, q, v, t)
    decreases k
  {
    if u == [] {
      q := s;
      Stay(m, s);
      assert u + v == v;
    } else {
      var i, r := FirstOf(m, s, u + v, t, k);
      assert i <= 1 <= |u| && (u + v)[..i] == u[..i] && (u + v)[i..] == u[i..] + v;
      q := PathSplit(m, r, u[i..], v, t, k - 1);
      OneMove(m, s, u[..i], r);
      Compose(m, s, u[..i], r, u[i..], q);
      assert u[..i] + u[i..] == u;
    }
  }

  /** A step from where `w` leads is where `w` and the character lead. */
  lemma LedStep(m: Machine, start: int, s: set<int>, w: seq<int>, c: nat, t: set<int>)
    requires MachineOk(m) && LedTo(m, start, s, w) && EpsilonClosed(m, s) && IsStep(m, s, c, t) && EpsilonClosed(m, t)
    requires c < 128
    ensures LedTo(m, start, t, w + [c])
  {
    hide EpsilonClosed, IsStep, Path;
    forall n ensures n in t <==> Path(m, start, w + [c], n) {
      LeadsStep(m, s, c, t, [], n);
      LeadsNowhere(m, t, n);
      assert [c] + [] == [c];
      if Path(m, start, w + [c], n) {
        var q := SplitOf(m, start, w, [c], n);
        assert Leads(m, s, [c], n);
      }
      if Leads(m, s, [c], n) {
        var x :| x in s && Path(m, x, [c], n);
        Compose(m, start, w, x, [c], n);
      }
    }
  }

  lemma SplitOf(m: Machine, s: int, u: seq<int>, v: seq<int>, t: int) returns (q: int)
    requires Path(m, s, u + v, t)
    ensures Path(m, s, u, q) && Path(m, q, v, t)
  {
    var k: nat :| PathIn(m, s, u + v, t, k);
    q := PathSplit(m, s, u, v, t, k);
  }

  ghost function WordFor(m: Machine, start: int, s: set<int>): (w: seq<int>)
    requires SomeWord(m, start, s)
    ensures LedTo(m, start, s, w)
  {
    var w :| LedTo(m, start, s, w);
    w
  }

  lemma InOne<T>(a: set<T>, b: set<T>) returns (x: T)
    requires a != b
    ensures x in a <==> x !in b
  {
    if !(a <= b) {
      x :| x in a && x !in b;
    } else {
      x :| x in b && x !in a;
    }
  }

  lemma InOneOf<T>(a: iset<T>, b: iset<T>) returns (x: T)
    requires a != b
    ensures x in a <==> x !in b
  {
    if !(a <= b) {
      x :| x in a && x !in b;
    } else {
      x :| x in b && x !in a;
    }
  }

  lemma ManySets(m: Machine, start: int, ss: seq<set<int>>)
    requires |ss| > DFA_MAX && forall i | 0 <= i < |ss| :: ss[i] != {} && SomeWord(m, start, ss[i])
    requires forall i, j | 0 <= i < j < |ss| :: ss[i] != ss[j]
    ensures TooManySets(m, start)
  {
    hide Path, SomeWord;
    var ws := seq(|ss|, i requires 0 <= i < |ss| => WordFor(m, start, ss[i]));
    forall i | 0 <= i < |ws|
      ensures IsWord(ws[i]) && Ends(m, start, ws[i]) == (iset n | n in ss[i]) && Ends(m, start, ws[i]) != iset{}
    {
      assert LedTo(m, start, ss[i], ws[i]);
      var n := SomeMember(ss[i]);
      assert n in Ends(m, start, ws[i]);
    }
    forall i, j | 0 <= i < j < |ws| ensures Ends(m, start, ws[i]) != Ends(m, start, ws[j]) {
      var n := InOne(ss[i], ss[j]);
      assert n in Ends(m, start, ws[i]) <==> n !in Ends(m, start, ws[j]);
    }
    assert ApartWords(m, start, ws);
  }

  /** One set more than there is room for. */
  lemma NoRow(m: Machine, start: int, states: seq<DState>, nfa: set<int>)
    requires AllLed(m, start, states) && SomeWord(m, start, nfa) && nfa != {} && |states| >= DFA_MAX
    requires StatesOk(m, start, states) && forall i | 0 <= i < |states| :: states[i].nfa != nfa
    ensures TooManySets(m, start)
  {
    hide SomeWord, EpsilonClosed, IsAccept, Reaches, TooManySets;
    var ss := seq(|states|, i requires 0 <= i < |states| => states[i].nfa) + [nfa];
    forall i | 0 <= i < |ss| ensures ss[i] != {} && SomeWord(m, start, ss[i]) {
      assert i < |states| ==> StateOk(m, states[i]);
    }
    ManySets(m, start, ss);
  }

  /** In a finished table words with different sets of nodes lead to different rows. */
  lemma {:induction false} ApartFit(m: Machine, start: int, t: Table, states: seq<DState>, ws: seq<seq<int>>,
        left: set<int>)
    requires Finished(m, start, states, t) && ApartWords(m, start, ws)
    requires forall i | 0 <= i < |ws| :: Run(t, 0, ws[i]) in left
    ensures |ws| <= |left|
  {
    hide Finished, Path, Run, Target;
    FinishedFacts(m, start, states, t);
    if ws != [] {
      var w, rest := ws[|ws| - 1], ws[..|ws| - 1];
      forall i | 0 <= i < |rest| ensures Run(t, 0, rest[i]) in left - {Run(t, 0, w)} {
        var n := InOneOf(Ends(m, start, ws[i]), Ends(m, start, w));
        EndsAre(m, start, t, states, ws[i]);
        EndsAre(m, start, t, states, w);
      }
      ApartFit(m, start, t, states, rest, left - {Run(t, 0, w)});
    }
  }

  lemma EndsAre(m: Machine, start: int, t: Table, states: seq<DState>, w: seq<int>)
    requires Finished(m, start, states, t) && IsWord(w)
    ensures F <= Run(t, 0, w) < |states|
    ensures forall n :: n in Ends(m, start, w) <==> n in Target(states, Run(t, 0, w))
  {
    hide Path, Leads, Finished;
    FinishedFacts(m, start, states, t);
    forall n ensures n in Target(states, Run(t, 0, w)) <==> Path(m, start, w, n) {
      RunSet(m, start, states, t, 0, w, n);
      FromStart(m, start, states[0].nfa, w, n);
    }
  }

  lemma FinishedFits(m: Machine, start: int, t: Table, states: seq<DState>)
    requires Finished(m, start, states, t) && |states| <= DFA_MAX
    ensures !TooManySets(m, start)
  {
    hide Finished, Path;
    FinishedFacts(m, start, states, t);
    if ws :| |ws| > DFA_MAX && ApartWords(m, start, ws) {
      forall i | 0 <= i < |ws| ensures Run(t, 0, ws[i]) in Below(|states|) {
        EndsAre(m, start, t, states, ws[i]);
        var n := InOneOf(Ends(m, start, ws[i]), iset{});
        assert n in Target(states, Run(t, 0, ws[i]));
      }
      ApartFit(m, start, t, states, ws, Below(|states|));
    }
  }

  /** Each row has been made for the nodes that some word leads to, and that word leads to the row. */
  lemma FinishedReachable(m: Machine, start: int, t: Table, states: seq<DState>)
    requires Finished(m, start, states, t) && AllLed(m, start, states)
    ensures Reachable(t)
  {
    hide Finished, Path, LedTo, StateOk;
    FinishedFacts(m, start, states, t);
    forall q | 0 <= q < |t.rows| ensures CanReach(t, q) {
      var w := WordFor(m, start, states[q].nfa);
      RowReached(m, start, t, states, q, w);
      assert LeadsTo(t, w, q);
    }
  }

  lemma RowReached(m: Machine, start: int, t: Table, states: seq<DState>, q: nat, w: seq<int>)
    requires Finished(m, start, states, t) && q < |states| && LedTo(m, start, states[q].nfa, w)
    ensures IsWord(w) && TableOk(t) && |t.rows| == |states| && Run(t, 0, w) == q
  {
    hide Path, RowDone, Run;
    var r := Run(t, 0, w);
    EndsAre(m, start, t, states, w);
    var n := SomeMember(states[q].nfa);
    assert n in Ends(m, start, w);
    forall x ensures x in states[r].nfa <==> x in states[q].nfa {
      assert x in Ends(m, start, w) <==> x in states[q].nfa;
    }
    assert states[r].nfa == states[q].nfa;
  }

  // ------------------------------------------------------------ the work list

  /** The first `k` states have been expanded; the row of state `k` is being filled from
      its last entry down to entry `c`. */
  ghost predicate Filled(m: Machine, start: int, states: seq<DState>, rows: seq<Row>, k: nat, c: nat) {
    && StatesOk(m, start, states) && |states| <= |rows| && k <= |states|
    && (forall i | 0 <= i < k :: RowDone(m, states, rows, i))
    && (c < MAX_CHARS ==> k < |states| && RowFrom(m, states, rows, k, c))
  }

  ghost predicate RowFrom(m: Machine, states: seq<DState>, rows: seq<Row>, k: nat, c: nat)
    requires k < |states|
  {
    k < |rows| && |rows[k]| == MAX_CHARS && forall d | c <= d < MAX_CHARS :: EntryOk(m, states, k, d, rows[k][d])
  }

  /** More states do not disturb the entries there are. */
  lemma MoreStates(m: Machine, start: int, states: seq<DState>, rows: seq<Row>, k: nat, c: nat, d: DState)
    requires Filled(m, start, states, rows, k, c) && |states| < |rows|
    requires StateOk(m, d) && forall i | 0 <= i < |states| :: states[i].nfa != d.nfa
    ensures Filled(m, start, states + [d], rows, k, c)
  {
    hide StateOk, IsStep;
    var all := states + [d];
    assert all[0] == states[0];
    forall i | 0 <= i < k ensures RowDone(m, all, rows, i) {
      assert RowDone(m, states, rows, i);
      forall c | 0 <= c < MAX_CHARS ensures EntryOk(m, all, i, c, rows[i][c]) {
        assert EntryOk(m, states, i, c, rows[i][c]);
      }
    }
    if c < MAX_CHARS {
      forall d | c <= d < MAX_CHARS ensures EntryOk(m, all, k, d, rows[k][d]) {
        assert EntryOk(m, states, k, d, rows[k][d]);
      }
    }
  }

  lemma OneEntry(m: Machine, start: int, states: seq<DState>, rows: seq<Row>, k: nat, c: nat, next: int)
    requires Filled(m, start, states, rows, k, c) && c > 0 && k < |states|
    requires |rows[k]| == MAX_CHARS && EntryOk(m, states, k, c - 1, next) && c <= MAX_CHARS
    ensures Filled(m, start, states, rows[k := rows[k][c - 1 := next]], k, c - 1)
  {
    hide StatesOk, IsStep;
    var rows' := rows[k := rows[k][c - 1 := next]];
    forall i | 0 <= i < k ensures RowDone(m, states, rows', i) {
      assert RowDone(m, states, rows, i);
    }
  }

  lemma RowFilled(m: Machine, start: int, states: seq<DState>, rows: seq<Row>, k: nat)
    requires Filled(m, start, states, rows, k, 0)
    ensures Filled(m, start, states, rows, k + 1, MAX_CHARS)
  {
  }

  class Maker {
    const m: Machine
    const dstates: array<DState>
    const dtran: array<Row>
    var nstates: nat
    var lastMarked: nat

    /** The variables are in order and the first `k` states are the marked ones. */
    ghost predicate Valid(k: nat)
      reads this, dstates, dtran
    {
      && MachineOk(m) && |m| <= NFA_MAX
      && dstates.Length == DFA_MAX && dtran.Length == DFA_MAX && dstates as object != dtran as object
      && lastMarked <= k <= nstates <= DFA_MAX
      && (forall i | 0 <= i < nstates :: dstates[i].mark <==> i < k)
      && (forall i | 0 <= i < DFA_MAX :: |dtran[i]| == MAX_CHARS)
    }

    ghost function States(): seq<DState>
      reads this, dstates
      requires nstates <= dstates.Length
    {
      dstates[..nstates]
    }

    constructor (m: Machine)
      requires MachineOk(m) && |m| <= NFA_MAX
      ensures Valid(0) && this.m == m && nstates == 0 && fresh(dstates) && fresh(dtran)
    {
      this.m := m;
      dstates := new DState[DFA_MAX](_ => DState({}, Accept(NONE, 0), false));
      dtran := new Row[DFA_MAX](_ => seq(MAX_CHARS, _ => F));
      nstates, lastMarked := 0, 0;
    }

    /** get_unmarked: the first state that has not been expanded. */
    method GetUnmarked(ghost k: nat) returns (found: bool, current: nat)
      requires Valid(k)
      modifies this`lastMarked
      ensures Valid(k) && (found <==> k < nstates) && (found ==> current == k)
    {
      while lastMarked < nstates
        invariant Valid(k)
      {
        if !dstates[lastMarked].mark { return true, lastMarked; }
        lastMarked := lastMarked + 1;
      }
      return false, 0;
    }

    /** in_dstates: the state with this set, or -1. */
    method InDStates(nfa: set<int>) returns (i: int)
      requires nstates <= dstates.Length
      ensures -1 <= i < nstates
      ensures i >= 0 ==> dstates[i].nfa == nfa
      ensures i == -1 ==> forall j | 0 <= j < nstates :: dstates[j].nfa != nfa
    {
      for p := 0 to nstates
        invariant forall j | 0 <= j < p :: dstates[j].nfa != nfa
      {
        if nfa == dstates[p].nfa { return p; }
      }
      return -1;
    }

    /** add_to_dstates: the program ends if there are too many states. */
    method AddToDStates(nfa: set<int>, a: Accept, ghost k: nat) returns (ok: bool, next: nat)
      requires Valid(k)
      modifies this`nstates, dstates
      ensures ok <==> old(nstates) < DFA_MAX
      ensures !ok ==> nstates == DFA_MAX
      ensures ok ==> Valid(k) && next == old(nstates) && States() == old(States()) + [DState(nfa, a, false)]
    {
      next := nstates;
      if nstates > DFA_MAX - 1 { return false, next; }
      nstates := nstates + 1;
      dstates[next] := DState(nfa, a, false);
      ok := true;
      assert States() == old(States()) + [DState(nfa, a, false)];
    }

    /** The state that the current one goes to on `c`. */
    method GoTo(ghost start: int, current: nat, c: nat) returns (ok: bool, next: int)
      requires Valid(current + 1) && current < nstates && c < MAX_CHARS
      requires Filled(m, start, States(), dtran[..], current, c + 1) && AllLed(m, start, States())
      modifies this`nstates, dstates
      ensures !ok ==> TooManySets(m, start)
      ensures ok ==> Valid(current + 1) && current < nstates && Filled(m, start, States(), dtran[..], current, c + 1)
      ensures ok ==> AllLed(m, start, States())
      ensures ok ==> EntryOk(m, States(), current, c, next)
    {
      hide IsStep, Reaches, EpsilonClosed, IsAccept, AllLed, TooManySets;
      ok, next := true, F;
      ghost var states := States();
      assert StateOk(m, states[current]);
      ClosedInside(m, states[current].nfa);
      var moved := Move(m, dstates[current].nfa, c);
      if moved == {} {
        StepNowhere(m, states[current].nfa, c, moved);
        return;
      }
      var nfa, a := EClosure(m, moved);
      ClosureStep(m, states[current].nfa, c, moved, nfa);
      next := InDStates(nfa);
      if next != -1 { return; }
      OneMoreLed(m, start, states, current, c, DState(nfa, a, false));
      if nstates < DFA_MAX {
        MoreStates(m, start, states, dtran[..], current, c + 1, DState(nfa, a, false));
      } else {
        NoRow(m, start, states, nfa);
      }
      ok, next := AddToDStates(nfa, a, current + 1);
    }

    /** The body of the loop of make_trans: one row of the table. */
    method Expand(ghost start: int, current: nat) returns (ok: bool)
      requires Valid(current) && current < nstates && Filled(m, start, States(), dtran[..], current, MAX_CHARS)
      requires AllLed(m, start, States())
      modifies this`nstates, dstates, dtran
      ensures !ok ==> TooManySets(m, start)
      ensures ok ==> Valid(current + 1) && Filled(m, start, States(), dtran[..], current + 1, MAX_CHARS)
      ensures ok ==> AllLed(m, start, States())
    {
      hide Filled, EntryOk, AllLed, TooManySets;
      ghost var states := States();
      dstates[current] := dstates[current].(mark := true);
      Marked(m, start, states, States(), dtran[..], current);
      var c := MAX_CHARS;
      while c > 0
        invariant Valid(current + 1) && current < nstates && 0 <= c <= MAX_CHARS
        invariant Filled(m, start, States(), dtran[..], current, c) && AllLed(m, start, States())
      {
        c := c - 1;
        var next;
        ok, next := GoTo(start, current, c);
        if !ok { return; }
        OneEntry(m, start, States(), dtran[..], current, c + 1, next);
        dtran[current] := dtran[current][c := next];
      }
      RowFilled(m, start, States(), dtran[..], current);
      ok := true;
    }

    /** make_trans, and the copying of the accepting states in dfa; it fails exactly if the
        automaton has too many sets of nodes. */
    method MakeTrans(start: nat) returns (ok: bool, t: Table, ghost states: seq<DState>)
      requires Valid(0) && nstates == 0 && start < |m|
      modifies this`nstates, this`lastMarked, dstates, dtran
      ensures ok <==> !TooManySets(m, start)
      ensures ok ==> |t.rows| <= DFA_MAX && Finished(m, start, states, t) && forall d | d in states :: d.mark
      ensures ok ==> Reachable(t)
    {
      hide Filled, Finished, AllLed, TooManySets;
      states := [];
      t := Table([], []);
      var nfa, a := EClosure(m, {start});
      nstates := 1;
      dstates[0] := DState(nfa, a, false);
      FirstState(m, start, nfa, a, dtran[..]);
      FirstLed(m, start, nfa, a);
      assert States() == [DState(nfa, a, false)];
      var found, current := GetUnmarked(0);
      ghost var k := 0;
      while found
        invariant Valid(k) && Filled(m, start, States(), dtran[..], k, MAX_CHARS)
        invariant (found <==> k < nstates) && (found ==> current == k) && AllLed(m, start, States())
        decreases DFA_MAX - k
      {
        ok := Expand(start, current);
        if !ok { return; }
        k := k + 1;
        found, current := GetUnmarked(k);
      }
      ok, states := true, States();
      t := Table(dtran[..nstates],
        seq(nstates, i requires 0 <= i < nstates <= dstates.Length reads this, dstates => dstates[i].accept));
      assert dtran[..nstates] == dtran[..][..nstates];
      AllFilled(m, start, states, dtran[..], t);
      FinishedFits(m, start, t, states);
      FinishedReachable(m, start, t, states);
    }
  }

  lemma ClosedInside(m: Machine, s: set<int>)
    requires EpsilonClosed(m, s)
    ensures InMachine(m, s)
  {
  }

  lemma StepNowhere(m: Machine, s: set<int>, c: int, out: set<int>)
    requires InMachine(m, s) && out == {}
    requires forall n :: n in out <==> exists i :: i in s && m[i].On(c) && n == m[i].next
    ensures IsStep(m, s, c, {})
  {
    ClosureStep(m, s, c, out, {});
  }

  /** Setting a mark changes nothing else. */
  lemma Marked(m: Machine, start: int, states: seq<DState>, states': seq<DState>, rows: seq<Row>, k: nat)
    requires Filled(m, start, states, rows, k, MAX_CHARS) && k < |states| == |states'|
    requires states' == states[k := states[k].(mark := true)]
    ensures Filled(m, start, states', rows, k, MAX_CHARS)
    ensures AllLed(m, start, states) ==> AllLed(m, start, states')
  {
    hide IsStep, Reaches, EpsilonClosed, IsAccept, SomeWord;
    forall i | 0 <= i < k ensures RowDone(m, states', rows, i) {
      assert RowDone(m, states, rows, i);
      forall c | 0 <= c < MAX_CHARS ensures EntryOk(m, states', i, c, rows[i][c]) {
        assert EntryOk(m, states, i, c, rows[i][c]);
      }
    }
    forall i | 0 <= i < |states| ensures StateOk(m, states'[i]) {
      assert StateOk(m, states[i]);
    }
  }

  lemma FirstState(m: Machine, start: nat, nfa: set<int>, a: Accept, rows: seq<Row>)
    requires start < |m| && Reaches(m, {start}, nfa) && EpsilonClosed(m, nfa) && IsAccept(m, nfa, a) && |rows| > 0
    ensures Filled(m, start, [DState(nfa, a, false)], rows, 0, MAX_CHARS)
  {
    Stay(m, start);
    assert From(m, {start}, start);
  }

  lemma FirstLed(m: Machine, start: nat, nfa: set<int>, a: Accept)
    requires Reaches(m, {start}, nfa)
    ensures AllLed(m, start, [DState(nfa, a, false)])
  {
    hide Path;
    forall n ensures n in nfa <==> Path(m, start, [], n) {
      assert From(m, {start}, n) <==> Path(m, start, [], n);
    }
    assert LedTo(m, start, nfa, []);
  }

  lemma OneMoreLed(m: Machine, start: int, states: seq<DState>, k: nat, c: nat, d: DState)
    requires MachineOk(m) && AllLed(m, start, states) && k < |states| && c < MAX_CHARS
    requires EpsilonClosed(m, states[k].nfa) && IsStep(m, states[k].nfa, c, d.nfa) && EpsilonClosed(m, d.nfa)
    ensures SomeWord(m, start, d.nfa) && AllLed(m, start, states + [d])
  {
    hide EpsilonClosed, IsStep, LedTo;
    assert SomeWord(m, start, states[k].nfa);
    var w := WordFor(m, start, states[k].nfa);
    LedStep(m, start, states[k].nfa, w, c, d.nfa);
  }

  lemma AllFilled(m: Machine, start: int, states: seq<DState>, rows: seq<Row>, t: Table)
    requires MachineOk(m) && Filled(m, start, states, rows, |states|, MAX_CHARS)
    requires t.rows == rows[..|states|] && |t.accepts| == |states|
    requires forall i | 0 <= i < |states| :: t.accepts[i] == states[i].accept
    ensures Finished(m, start, states, t)
  {
    hide StatesOk, IsStep;
    StatesSome(m, start, states);
    forall i | 0 <= i < |states| ensures RowDone(m, states, t.rows, i) && RowOk(t.rows[i], |t.rows|) {
      assert RowDone(m, states, rows, i);
      forall c | 0 <= c < MAX_CHARS ensures F <= t.rows[i][c] < |t.rows| {
        assert EntryOk(m, states, i, c, rows[i][c]);
      }
    }
  }

  lemma StatesSome(m: Machine, start: int, states: seq<DState>)
    requires StatesOk(m, start, states)
    ensures |states| > 0
  {
  }

  /** dfa: the table it returns simulates the automaton. */
  method Dfa(m: Machine, start: nat) returns (ok: bool, t: Table)
    requires MachineOk(m) && |m| <= NFA_MAX && start < |m|
    ensures ok <==> !TooManySets(m, start)
    ensures ok ==> |t.rows| <= DFA_MAX && Simulates(m, start, t) && Reachable(t)
  {
    var maker := new Maker(m);
    ghost var states;
    ok, t, states := maker.MakeTrans(start);
    if ok {
      FinishedSimulates(m, start, states, t);
    }
  }
}
