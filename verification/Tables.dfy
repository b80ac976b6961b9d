/** Deterministic automata as transition tables with accepting states (compiler/lex/dfa.h). */
module Tables {
  import opened Nfa
  import opened Closures

  const DFA_MAX: nat := 254
  const MAX_CHARS: nat := 128
  const F: int := -1

  type Row = seq<int>

  datatype Table = Table(rows: seq<Row>, accepts: seq<Accept>)

  predicate RowOk(row: Row, n: nat) {
    |row| == MAX_CHARS && forall c | 0 <= c < MAX_CHARS :: F <= row[c] < n
  }

  /** At least one state, and every entry leads to a state or fails. */
  predicate TableOk(t: Table) {
    0 < |t.rows| == |t.accepts| && forall i | 0 <= i < |t.rows| :: RowOk(t.rows[i], |t.rows|)
  }

  /** The state that reading `w` leads to from `q`, or F. */
  function Run(t: Table, q: int, w: seq<int>): (r: int)
    requires TableOk(t) && F <= q < |t.rows| && IsWord(w)
    ensures F <= r < |t.rows|
    decreases |w|
  {
    if q == F || w == [] then q
    else
      assert RowOk(t.rows[q], |t.rows|);
      Run(t, t.rows[q][w[0]], w[1..])
  }

  /** The word leads from the first state to `q`. */
  ghost predicate LeadsTo(t: Table, w: seq<int>, q: int)
    requires TableOk(t)
  {
    IsWord(w) && Run(t, 0, w) == q
  }

  ghost predicate CanReach(t: Table, q: int)
    requires TableOk(t)
  {
    exists w :: LeadsTo(t, w, q)
  }

  /** Some word leads to each state. */
  ghost predicate Reachable(t: Table) {
    TableOk(t) && forall q | 0 <= q < |t.rows| :: CanReach(t, q)
  }

  lemma RunFails(t: Table, w: seq<int>)
    requires TableOk(t) && IsWord(w)
    ensures Run(t, F, w) == F
  {
  }
}
