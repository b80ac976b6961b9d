/** Four states over two characters, without actions: two of them have the same row, and min_dfa
    leaves them in different groups. */
module NotMinimal {
  import opened Nfa
  import opened Closures
  import opened Tables
  import opened MinSteps
  import opened Minimal

  /** All characters but the first two fail. */
  function TwoColumns(a: int, b: int): (row: Row)
    ensures |row| == MAX_CHARS && row[0] == a && row[1] == b && forall c | 2 <= c < MAX_CHARS :: row[c] == F
  {
    [a, b] + seq(MAX_CHARS - 2, _ => F)
  }

  function Example(): (t: Table)
    ensures TableOk(t) && |t.rows| == 4 && forall s | 0 <= s < 4 :: t.accepts[s].action == NONE
  {
    var t := Table([TwoColumns(1, 3), TwoColumns(2, 2), TwoColumns(3, F), TwoColumns(2, 2)],
                   [Accept(NONE, 0), Accept(NONE, 0), Accept(NONE, 0), Accept(NONE, 0)]);
    assert forall s | 0 <= s < 4 :: RowOk(t.rows[s], 4);
    t
  }

  lemma TwoDecide(ing: seq<int>, s: nat, r: nat)
    requires s < 4 && r < 4
    ensures var t := Example();
      AlikeRows(t, ing, s, r) <==> Alike(ing, t.rows[s][0], t.rows[r][0]) && Alike(ing, t.rows[s][1], t.rows[r][1])
  {
    var t := Example();
    if Alike(ing, t.rows[s][0], t.rows[r][0]) && Alike(ing, t.rows[s][1], t.rows[r][1]) {
      forall c | 0 <= c < MAX_CHARS ensures AlikeOn(t, ing, s, r, c) {
        assert c >= 2 ==> t.rows[s][c] == F && t.rows[r][c] == F;
      }
    } else {
      assert !AlikeOn(t, ing, s, r, 0) || !AlikeOn(t, ing, s, r, 1);
    }
  }

  /** The groups of the four states. */
  predicate Are(p: Groups, a: int, b: int, c: int, d: int, n: nat) {
    |p.ing| == DFA_MAX && p.ing[0] == a && p.ing[1] == b && p.ing[2] == c && p.ing[3] == d && p.n == n
  }

  lemma AtFirst()
    ensures Are(Placed(Example(), Zeros(), 4), 0, 0, 0, 0, 1)
  {
    hide Example;
    var t := Example();
    assert Placed(t, Zeros(), 0) == Groups(Zeros(), 0);
    assert Are(Placed(t, Zeros(), 1), 0, Zeros()[1], Zeros()[2], Zeros()[3], 1);
    assert Are(Placed(t, Zeros(), 2), 0, 0, Zeros()[2], Zeros()[3], 1);
    assert Are(Placed(t, Zeros(), 3), 0, 0, 0, Zeros()[3], 1);
  }

  /** One step of a split. */
  lemma Next(ing: seq<int>, g: int, first: nat, h: int, next: nat, ing': seq<int>)
    requires first < 4 && next < 4 == |Example().rows| <= |ing|
    requires ing' == if ing[next] == g && !AlikeRows(Example(), ing, first, next) then ing[next := h] else ing
    ensures SplitFrom(Example(), ing, g, first, h, next) == SplitFrom(Example(), ing', g, first, h, next + 1)
  {
    hide Example, AlikeRows;
  }

  /** State 1 still looks like state 0; state 3 does not, since state 2 has just left. */
  lemma FirstSplit(p: Groups)
    requires Are(p, 0, 0, 0, 0, 1)
    ensures Are(SplitOf(Example(), p, 0), 0, 0, 1, 1, 2) && Early(Example(), p, 0, 3)
  {
    var t := Example();
    var ing := p.ing;
    TwoDecide(ing, 0, 1);
    Next(ing, 0, 0, 1, 1, ing);
    TwoDecide(ing, 0, 2);
    var ing2 := ing[2 := 1];
    Next(ing, 0, 0, 1, 2, ing2);
    TwoDecide(ing2, 0, 3);
    var ing3 := ing2[3 := 1];
    Next(ing2, 0, 0, 1, 3, ing3);
    hide Example, AlikeRows;
    assert FirstIn(t, ing, 0, 0) == 0;
    assert SplitFrom(t, ing, 0, 0, 1, 1) == ing3 != ing;
    TwoDecide(ing, 0, 3);
  }

  /** States 1 and 3 have the same row and action. */
  lemma SameRow()
    ensures Equivalent(Example(), 1, 3)
  {
    var t := Example();
    forall w | IsWord(w) ensures SameAt(t, 1, 3, w) {
      assert w != [] ==> t.rows[1] == t.rows[3];
    }
  }

  /** The first split is not fair: min_dfa does not make the smallest table of the example. */
  lemma ExampleUnfair()
    ensures Reachable(Example()) && Equivalent(Example(), 1, 3)
    ensures !FairRun(Example(), Placed(Example(), Zeros(), 4))
  {
    ExampleReachable();
    hide Example, Equivalent, SplitOf, Placed;
    SameRow();
    AtFirst();
    var p := Placed(Example(), Zeros(), 4);
    FirstSplit(p);
    EquivalentTurned(Example(), 1, 3);
    assert Early(Example(), p, 0, 3) && SplitOf(Example(), p, 0).ing[1] == 0;
    assert !FairSplit(Example(), p, 0);
  }

  lemma ExampleReachable()
    ensures Reachable(Example())
  {
    hide Example, Run;
    var t := Example();
    Edges();
    Step([], 0, 0);
    Step([], 0, 1);
    assert [] + [0] == [0] && [] + [1] == [1];
    Step([0], 1, 0);
    forall q | 0 <= q < 4 ensures CanReach(t, q) {
      assert LeadsTo(t, if q == 0 then [] else if q == 1 then [0] else if q == 2 then [0] + [0] else [1], q);
    }
  }

  lemma Edges()
    ensures LeadsTo(Example(), [], 0)
    ensures Example().rows[0][0] == 1 && Example().rows[0][1] == 3 && Example().rows[1][0] == 2
  {
  }

  lemma Step(w: seq<int>, q: nat, c: nat)
    requires LeadsTo(Example(), w, q) && q < 4 && c < 2
    ensures LeadsTo(Example(), w + [c], Example().rows[q][c])
  {
    hide Example;
    var t := Example();
    RunConcat(t, 0, w, [c]);
    assert RowOk(t.rows[q], |t.rows|);
    assert Run(t, q, [c]) == Run(t, t.rows[q][c], [c][1..]);
  }
}
