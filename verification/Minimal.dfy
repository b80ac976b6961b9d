/** When the result of compiler/lex/mindfa.c is minimal: exactly if no split takes a state away from an
    equivalent one because of a group number that the same split has given. */
module Minimal {
  import opened SetFacts
  import opened Nfa
  import opened Closures
  import opened Tables
  import opened MinSteps
  import opened MinDfa

  /** From the two states a word fails, or arrives at the same action. */
  ghost predicate SameAt(t: Table, s: int, r: int, w: seq<int>)
    requires TableOk(t) && F <= s < |t.rows| && F <= r < |t.rows| && IsWord(w)
  {
    var a, b := Run(t, s, w), Run(t, r, w);
    (a == F <==> b == F) && (a != F ==> t.accepts[a].action == t.accepts[b].action)
  }

  ghost predicate Equivalent(t: Table, s: int, r: int)
    requires TableOk(t) && F <= s < |t.rows| && F <= r < |t.rows|
  {
    forall w | IsWord(w) :: SameAt(t, s, r, w)
  }

  /** Any two states are told apart by a word. */
  ghost predicate Reduced(t: Table)
    requires TableOk(t)
  {
    forall s, r | 0 <= s < r < |t.rows| :: !Equivalent(t, s, r)
  }

  /** Equivalent states are in the same group. */
  ghost predicate Respects(t: Table, ing: seq<int>)
    requires TableOk(t) && |t.rows| <= |ing|
  {
    forall s, r | 0 <= s < |t.rows| && 0 <= r < |t.rows| && Equivalent(t, s, r) :: ing[s] == ing[r]
  }

  lemma EquivalentStep(t: Table, s: nat, r: nat, c: nat)
    requires TableOk(t) && s < |t.rows| && r < |t.rows| && c < MAX_CHARS && Equivalent(t, s, r)
    ensures RowOk(t.rows[s], |t.rows|) && RowOk(t.rows[r], |t.rows|)
    ensures Equivalent(t, t.rows[s][c], t.rows[r][c])
    ensures t.rows[s][c] == F <==> t.rows[r][c] == F
  {
    assert RowOk(t.rows[s], |t.rows|) && RowOk(t.rows[r], |t.rows|);
    var a, b := t.rows[s][c], t.rows[r][c];
    forall w | IsWord(w) ensures SameAt(t, a, b, w) {
      assert ([c] + w)[1..] == w;
      assert SameAt(t, s, r, [c] + w);
    }
    assert SameAt(t, a, b, []);
  }

  lemma EquivalentActions(t: Table, s: nat, r: nat)
    requires TableOk(t) && s < |t.rows| && r < |t.rows| && Equivalent(t, s, r)
    ensures t.accepts[s].action == t.accepts[r].action
  {
    assert SameAt(t, s, r, []);
  }

  lemma EquivalentTurned(t: Table, s: int, r: int)
    requires TableOk(t) && F <= s < |t.rows| && F <= r < |t.rows| && Equivalent(t, s, r)
    ensures Equivalent(t, r, s)
  {
    forall w | IsWord(w) ensures SameAt(t, r, s, w) {
      assert SameAt(t, s, r, w);
    }
  }

  // ------------------------------------------------------------ groups and states

  lemma GroupMeans(t: Table, gs: seq<set<int>>, ing: seq<int>, t': Table, reps: seq<int>, s: nat, r: nat)
    requires TableOk(t) && Partition(t, gs, ing, |t.rows|) && Stable(t, gs, ing) && Quotient(t, gs, ing, t', reps)
    requires s < |t.rows| && r < |t.rows|
    ensures 0 <= ing[s] < |t'.rows| && 0 <= ing[r] < |t'.rows|
    ensures Equivalent(t, s, r) <==> Equivalent(t', ing[s], ing[r])
  {
    hide Stable;
    forall w | IsWord(w) ensures SameAt(t, s, r, w) <==> SameAt(t', ing[s], ing[r], w) {
      RunQuotient(t, gs, ing, t', reps, s, w);
      RunQuotient(t, gs, ing, t', reps, r, w);
      ActionOf(t, gs, ing, t', reps, Run(t, s, w));
      ActionOf(t, gs, ing, t', reps, Run(t, r, w));
    }
  }

  lemma ActionOf(t: Table, gs: seq<set<int>>, ing: seq<int>, t': Table, reps: seq<int>, q: int)
    requires TableOk(t) && Partition(t, gs, ing, |t.rows|) && Quotient(t, gs, ing, t', reps) && F <= q < |t.rows|
    ensures q != F ==> 0 <= ing[q] < |t'.rows| && t'.accepts[ing[q]].action == t.accepts[q].action
  {
    if q != F { assert RowOf(t, ing, t', ing[q], reps[ing[q]]); }
  }

  lemma RepOf(t: Table, gs: seq<set<int>>, ing: seq<int>, t': Table, reps: seq<int>, g: nat)
    requires TableOk(t) && Partition(t, gs, ing, |t.rows|) && Quotient(t, gs, ing, t', reps) && g < |t'.rows|
    ensures 0 <= reps[g] < |t.rows| && ing[reps[g]] == g
  {
    assert RowOf(t, ing, t', g, reps[g]);
  }

  /** The small table is reduced exactly if its groups separate no equivalent states. */
  lemma ReducedIs(t: Table, gs: seq<set<int>>, ing: seq<int>, t': Table, reps: seq<int>)
    requires TableOk(t) && Partition(t, gs, ing, |t.rows|) && Stable(t, gs, ing) && Quotient(t, gs, ing, t', reps)
    ensures Reduced(t') <==> Respects(t, ing)
  {
    hide Stable, Equivalent, RowOf, Holds;
    forall s, r | 0 <= s < |t.rows| && 0 <= r < |t.rows| && Equivalent(t, s, r)
      ensures Reduced(t') ==> ing[s] == ing[r]
    {
      GroupMeans(t, gs, ing, t', reps, s, r);
      EquivalentTurned(t', ing[s], ing[r]);
    }
    QuotientSize(t, gs, ing, t', reps);
    forall g, h | 0 <= g < h < |t'.rows| ensures Respects(t, ing) ==> !Equivalent(t', g, h) {
      RepOf(t, gs, ing, t', reps, g);
      RepOf(t, gs, ing, t', reps, h);
      GroupMeans(t, gs, ing, t', reps, reps[g], reps[h]);
    }
  }

  // ------------------------------------------------------------------ one split

  /** The numbers of the groups in use. */
  predicate Numbered(t: Table, p: Groups) {
    |t.rows| <= |p.ing| && forall s | 0 <= s < |t.rows| :: 0 <= p.ing[s] < p.n
  }

  /** `ing` is `ing0` with some members of group `g` moved to group `h`. */
  predicate Moved(t: Table, ing0: seq<int>, ing: seq<int>, g: int, h: int) {
    && |t.rows| <= |ing0| == |ing|
    && forall s | 0 <= s < |t.rows| :: ing0[s] != h && (ing[s] == ing0[s] || (ing0[s] == g && ing[s] == h))
  }

  lemma MovedAlike(t: Table, ing0: seq<int>, ing: seq<int>, g: int, h: int, s: nat, r: nat)
    requires TableOk(t) && Moved(t, ing0, ing, g, h) && s < |t.rows| && r < |t.rows| && AlikeRows(t, ing, s, r)
    ensures AlikeRows(t, ing0, s, r)
  {
    assert RowOk(t.rows[s], |t.rows|) && RowOk(t.rows[r], |t.rows|);
    forall c | 0 <= c < MAX_CHARS ensures AlikeOn(t, ing0, s, r, c) {
      assert AlikeOn(t, ing, s, r, c);
    }
  }

  /** Who leaves: at least those that the numbers before the split tell from the first member. */
  lemma {:induction false} SplitMoves(t: Table, ing0: seq<int>, ing: seq<int>, g: int, first: nat, h: int, next: nat)
    requires TableOk(t) && Moved(t, ing0, ing, g, h) && first < next <= |t.rows| && g != h
    ensures var ing' := SplitFrom(t, ing, g, first, h, next);
      && Moved(t, ing0, ing', g, h) && (forall s | 0 <= s < next :: ing'[s] == ing[s])
      && forall s | next <= s < |t.rows| && ing[s] == g && !AlikeRows(t, ing0, first, s) :: ing'[s] == h
    decreases |t.rows| - next
  {
    hide AlikeRows;
    if next < |t.rows| {
      if ing[next] == g && !AlikeRows(t, ing0, first, next) && AlikeRows(t, ing, first, next) {
        MovedAlike(t, ing0, ing, g, h, first, next);
      }
      var ing1 := if ing[next] == g && !AlikeRows(t, ing, first, next) then ing[next := h] else ing;
      SplitMoves(t, ing0, ing1, g, first, h, next + 1);
    }
  }

  /** The split of group `g` takes state `s` away, though the numbers before the split do not tell it
      from the first member: only a number that the split itself has given does. */
  predicate Early(t: Table, p: Groups, g: int, s: int)
    requires TableOk(t) && |t.rows| <= |p.ing| && 0 <= s < |t.rows|
  {
    p.ing[s] == g && SplitOf(t, p, g).ing[s] != g && AlikeRows(t, p.ing, FirstIn(t, p.ing, g, 0), s)
  }

  /** Equivalent states of those that leave early leave as well. */
  ghost predicate FairSplit(t: Table, p: Groups, g: int)
    requires TableOk(t) && |t.rows| <= |p.ing|
  {
    forall s, r | 0 <= s < |t.rows| && 0 <= r < |t.rows| && Early(t, p, g, s) && Equivalent(t, s, r) ::
      SplitOf(t, p, g).ing[r] != g
  }

  lemma SplitIs(t: Table, p: Groups, g: nat)
    requires TableOk(t) && Numbered(t, p) && g < p.n
    ensures var p' := SplitOf(t, p, g);
      && Moved(t, p.ing, p'.ing, g, p.n) && Numbered(t, p')
      && forall s | 0 <= s < |t.rows| && p.ing[s] == g && !AlikeRows(t, p.ing, FirstIn(t, p.ing, g, 0), s) ::
           p'.ing[s] == p.n
  {
    hide AlikeRows;
    var first := FirstIn(t, p.ing, g, 0);
    if first < |t.rows| {
      AlikeSelf(t, p.ing, first);
      SplitMoves(t, p.ing, p.ing, g, first, p.n, first + 1);
    }
  }

  /** Rows of equivalent states cannot be told apart by groups that respect equivalence. */
  lemma EquivalentAlike(t: Table, ing: seq<int>, first: nat, s: nat, r: nat)
    requires TableOk(t) && |t.rows| <= |ing| && Respects(t, ing)
    requires first < |t.rows| && s < |t.rows| && r < |t.rows| && Equivalent(t, s, r)
    ensures AlikeRows(t, ing, first, s) ==> AlikeRows(t, ing, first, r)
  {
    hide Equivalent;
    forall c: nat | c < MAX_CHARS ensures AlikeOn(t, ing, s, r, c) {
      EquivalentStep(t, s, r, c);
    }
    if AlikeRows(t, ing, first, s) {
      forall c | 0 <= c < MAX_CHARS ensures AlikeOn(t, ing, first, r, c) {
        assert AlikeOn(t, ing, first, s, c) && AlikeOn(t, ing, s, r, c);
      }
    }
  }

  /** A split separates no equivalent states exactly if it is fair. */
  lemma SplitExactly(t: Table, p: Groups, g: nat)
    requires TableOk(t) && Numbered(t, p) && g < p.n && Respects(t, p.ing)
    ensures Respects(t, SplitOf(t, p, g).ing) <==> FairSplit(t, p, g)
  {
    hide Equivalent, AlikeRows, SplitOf, FirstIn;
    SplitIs(t, p, g);
    var p' := SplitOf(t, p, g);
    if FairSplit(t, p, g) {
      forall s, r | 0 <= s < |t.rows| && 0 <= r < |t.rows| && Equivalent(t, s, r) ensures p'.ing[s] == p'.ing[r] {
        EquivalentTurned(t, s, r);
        LeavesToo(t, p, g, s, r);
        LeavesToo(t, p, g, r, s);
      }
    }
  }

  lemma LeavesToo(t: Table, p: Groups, g: nat, s: nat, r: nat)
    requires TableOk(t) && Numbered(t, p) && g < p.n && Respects(t, p.ing) && FairSplit(t, p, g)
    requires s < |t.rows| && r < |t.rows| && Equivalent(t, s, r)
    ensures SplitOf(t, p, g).ing[s] != g ==> SplitOf(t, p, g).ing[r] != g
  {
    hide Equivalent, AlikeRows, SplitOf;
    SplitIs(t, p, g);
    EquivalentTurned(t, s, r);
    var first := FirstIn(t, p.ing, g, 0);
    if p.ing[s] == g && SplitOf(t, p, g).ing[s] != g && !Early(t, p, g, s) {
      EquivalentAlike(t, p.ing, first, r, s);
    }
  }

  /** A split is fair if no edge leads from a member of the group to a member. */
  lemma NoEdgeInside(t: Table, p: Groups, g: nat)
    requires TableOk(t) && Numbered(t, p) && g < p.n
    requires forall s, c | 0 <= s < |t.rows| && p.ing[s] == g && 0 <= c < MAX_CHARS :: LeadsOut(t, p, g, s, c)
    ensures FairSplit(t, p, g)
  {
    hide Equivalent, AlikeRows;
    var first := FirstIn(t, p.ing, g, 0);
    if first < |t.rows| {
      AlikeSelf(t, p.ing, first);
      StaysIn(t, p, g, p.ing, first, first + 1);
    }
  }

  predicate LeadsOut(t: Table, p: Groups, g: nat, s: int, c: int)
    requires TableOk(t) && Numbered(t, p) && 0 <= s < |t.rows| && 0 <= c < MAX_CHARS
  {
    assert RowOk(t.rows[s], |t.rows|);
    var q := t.rows[s][c];
    q == F || p.ing[q] != g
  }

  lemma LeadsOutAlike(t: Table, p: Groups, g: nat, ing: seq<int>, s: nat, r: nat)
    requires TableOk(t) && Numbered(t, p) && g < p.n && s < |t.rows| && r < |t.rows| && Moved(t, p.ing, ing, g, p.n)
    requires forall s, c | 0 <= s < |t.rows| && p.ing[s] == g && 0 <= c < MAX_CHARS :: LeadsOut(t, p, g, s, c)
    requires p.ing[s] == g && p.ing[r] == g
    ensures AlikeRows(t, p.ing, s, r) ==> AlikeRows(t, ing, s, r)
  {
    assert RowOk(t.rows[s], |t.rows|) && RowOk(t.rows[r], |t.rows|);
    if AlikeRows(t, p.ing, s, r) {
      forall c | 0 <= c < MAX_CHARS ensures AlikeOn(t, ing, s, r, c) {
        assert AlikeOn(t, p.ing, s, r, c) && LeadsOut(t, p, g, s, c) && LeadsOut(t, p, g, r, c);
      }
    }
  }

  lemma {:induction false} StaysIn(t: Table, p: Groups, g: nat, ing: seq<int>, first: nat, next: nat)
    requires TableOk(t) && Numbered(t, p) && g < p.n && Moved(t, p.ing, ing, g, p.n)
    requires forall s, c | 0 <= s < |t.rows| && p.ing[s] == g && 0 <= c < MAX_CHARS :: LeadsOut(t, p, g, s, c)
    requires first < next <= |t.rows| && p.ing[first] == g
    ensures forall s | 0 <= s < |t.rows| && ing[s] == g && AlikeRows(t, p.ing, first, s) ::
      SplitFrom(t, ing, g, first, p.n, next)[s] == g
    decreases |t.rows| - next
  {
    hide AlikeRows, LeadsOut;
    if next < |t.rows| {
      var leaves := ing[next] == g && !AlikeRows(t, ing, first, next);
      if leaves { LeadsOutAlike(t, p, g, ing, first, next); }
      StaysIn(t, p, g, if leaves then ing[next := p.n] else ing, first, next + 1);
    }
  }

  // -------------------------------------------------------------------- the run

  ghost predicate FairPass(t: Table, p: Groups, g: nat)
    requires TableOk(t) && |t.rows| <= |p.ing|
    decreases |t.rows| - g
  {
    g >= p.n || g >= |t.rows| || (FairSplit(t, p, g) && FairPass(t, SplitOf(t, p, g), g + 1))
  }

  /** All splits are fair. */
  ghost predicate FairRun(t: Table, p: Groups)
    requires TableOk(t) && |t.rows| <= |p.ing|
    decreases |t.rows| - p.n
  {
    var p' := PassFrom(t, p, 0);
    FairPass(t, p, 0) && (p'.n == p.n || p'.n > |t.rows| || FairRun(t, p'))
  }

  /** Later groups are parts of earlier ones. */
  predicate Finer(t: Table, ing: seq<int>, ing': seq<int>) {
    |t.rows| <= |ing| == |ing'| &&
    forall s, r | 0 <= s < |t.rows| && 0 <= r < |t.rows| && ing'[s] == ing'[r] :: ing[s] == ing[r]
  }

  lemma FinerRespects(t: Table, ing: seq<int>, ing': seq<int>)
    requires TableOk(t) && Finer(t, ing, ing') && Respects(t, ing')
    ensures Respects(t, ing)
  {
    hide Equivalent;
  }

  lemma {:induction false} PassExactly(t: Table, p: Groups, g: nat)
    requires TableOk(t) && Numbered(t, p)
    ensures var p' := PassFrom(t, p, g); Numbered(t, p') && Finer(t, p.ing, p'.ing)
    ensures Respects(t, p.ing) ==> (Respects(t, PassFrom(t, p, g).ing) <==> FairPass(t, p, g))
    decreases |t.rows| - g
  {
    hide Equivalent, AlikeRows, SplitOf, FairSplit, Respects;
    if g < p.n && g < |t.rows| {
      SplitIs(t, p, g);
      var p1 := SplitOf(t, p, g);
      PassExactly(t, p1, g + 1);
      if Respects(t, p.ing) { SplitExactly(t, p, g); }
      var p' := PassFrom(t, p, g);
      if Respects(t, p'.ing) { FinerRespects(t, p1.ing, p'.ing); }
    }
  }

  lemma {:induction false} RunExactly(t: Table, p: Groups)
    requires TableOk(t) && Numbered(t, p)
    ensures Finer(t, p.ing, Refined(t, p).ing)
    ensures Respects(t, p.ing) ==> (Respects(t, Refined(t, p).ing) <==> FairRun(t, p))
    decreases |t.rows| - p.n
  {
    hide PassFrom, FairPass, Respects;
    PassExactly(t, p, 0);
    var p' := PassFrom(t, p, 0);
    if p'.n != p.n && p'.n <= |t.rows| {
      RunExactly(t, p');
      if Respects(t, Refined(t, p').ing) { FinerRespects(t, p'.ing, Refined(t, p').ing); }
    }
  }

  lemma {:induction false} PlacedByAction(t: Table, ing: seq<int>, i: nat)
    requires i <= |t.accepts| <= |ing|
    ensures var p := Placed(t, ing, i);
      && |p.ing| == |ing| && (forall s | 0 <= s < i :: 0 <= p.ing[s] < p.n)
      && forall s, r | 0 <= s < i && 0 <= r < i ::
           p.ing[s] == p.ing[r] <==> t.accepts[s].action == t.accepts[r].action
  {
    if i > 0 { PlacedByAction(t, ing, i - 1); }
  }

  /** The groups that min_dfa ends with respect equivalence exactly if all splits are fair. */
  lemma GroupedExactly(t: Table, ing: seq<int>)
    requires TableOk(t) && |t.rows| <= |ing|
    ensures Respects(t, Grouped(t, ing).ing) <==> FairRun(t, Placed(t, ing, |t.rows|))
  {
    hide Equivalent, Refined, FairRun, Placed;
    PlacedByAction(t, ing, |t.rows|);
    var p := Placed(t, ing, |t.rows|);
    forall s, r | 0 <= s < |t.rows| && 0 <= r < |t.rows| && Equivalent(t, s, r) ensures p.ing[s] == p.ing[r] {
      EquivalentActions(t, s, r);
    }
    RunExactly(t, p);
  }

  // --------------------------------------------------------- the number of states

  /** No table of the same meaning has fewer states. */
  ghost predicate Smallest(t: Table) {
    forall u | SameMeaning(t, u) :: |t.rows| <= |u.rows|
  }

  lemma {:induction false} RunConcat(t: Table, q: int, v: seq<int>, w: seq<int>)
    requires TableOk(t) && F <= q < |t.rows| && IsWord(v) && IsWord(w)
    ensures Run(t, q, v + w) == Run(t, Run(t, q, v), w)
    decreases |v|
  {
    if q == F {
      RunFails(t, v + w);
      RunFails(t, v);
      RunFails(t, w);
    } else if v == [] {
      assert v + w == w;
    } else {
      assert RowOk(t.rows[q], |t.rows|) && (v + w)[1..] == v[1..] + w;
      RunConcat(t, t.rows[q][v[0]], v[1..], w);
    }
  }

  ghost function WordTo(t: Table, q: int): (w: seq<int>)
    requires TableOk(t) && CanReach(t, q)
    ensures LeadsTo(t, w, q)
  {
    var w :| LeadsTo(t, w, q);
    w
  }

  /** In another table of the same meaning, words to different states lead to different states. */
  lemma WordsApart(t: Table, u: Table, s: nat, r: nat, v: seq<int>, w: seq<int>)
    requires SameMeaning(t, u) && s < |t.rows| && r < |t.rows| && LeadsTo(t, v, s) && LeadsTo(t, w, r)
    ensures 0 <= Run(u, 0, v)
    ensures Run(u, 0, v) == Run(u, 0, w) ==> Equivalent(t, s, r)
  {
    hide Run;
    assert SameOn(t, u, v);
    if Run(u, 0, v) == Run(u, 0, w) {
      forall x | IsWord(x) ensures SameAt(t, s, r, x) {
        assert SameOn(t, u, v + x) && SameOn(t, u, w + x);
        RunConcat(t, 0, v, x);
        RunConcat(u, 0, v, x);
        RunConcat(t, 0, w, x);
        RunConcat(u, 0, w, x);
      }
    }
  }

  lemma ReducedSmallest(t: Table)
    requires Reachable(t) && Reduced(t)
    ensures Smallest(t)
  {
    hide Run, Equivalent, SameMeaning;
    forall u | SameMeaning(t, u) ensures |t.rows| <= |u.rows| {
      TablesOk(t, u);
      forall q | 0 <= q < |t.rows| ensures CanReach(t, q) {
      }
      var ends := seq(|t.rows|, q requires 0 <= q < |t.rows| && CanReach(t, q) => Run(u, 0, WordTo(t, q)));
      forall s | 0 <= s < |ends| ensures 0 <= ends[s] < |u.rows| {
        WordsApart(t, u, s, s, WordTo(t, s), WordTo(t, s));
      }
      forall s, r | 0 <= s < r < |ends| ensures ends[s] != ends[r] {
        WordsApart(t, u, s, r, WordTo(t, s), WordTo(t, r));
      }
      DistinctBound(ends, |u.rows|);
    }
  }

  lemma TablesOk(t: Table, u: Table)
    requires SameMeaning(t, u)
    ensures TableOk(t) && TableOk(u)
  {
  }

  // ----------------------------------------------- a table with equivalent states

  /** The numbers without state `r`, which state `s` stands in for. */
  function Without(s: nat, r: nat, q: int): int {
    if q == r then s else if q > r then q - 1 else q
  }

  function Back(r: nat, i: int): int {
    if i < r then i else i + 1
  }

  function SmallerRow(row: Row, s: nat, r: nat): Row {
    seq(|row|, c requires 0 <= c < |row| => Without(s, r, row[c]))
  }

  /** The table without state `r`. */
  function Smaller(t: Table, s: nat, r: nat): Table
    requires TableOk(t) && s < r < |t.rows|
  {
    Table(seq(|t.rows| - 1, i requires 0 <= i < |t.rows| - 1 => SmallerRow(t.rows[Back(r, i)], s, r)),
          seq(|t.rows| - 1, i requires 0 <= i < |t.rows| - 1 => t.accepts[Back(r, i)]))
  }

  lemma SmallerOk(t: Table, s: nat, r: nat)
    requires TableOk(t) && s < r < |t.rows|
    ensures TableOk(Smaller(t, s, r)) && |Smaller(t, s, r).rows| == |t.rows| - 1
  {
    var u := Smaller(t, s, r);
    forall i | 0 <= i < |u.rows| ensures RowOk(u.rows[i], |u.rows|) {
      assert RowOk(t.rows[Back(r, i)], |t.rows|);
    }
  }

  /** Equivalent states do the same in the two tables. */
  lemma {:induction false} SmallerRuns(t: Table, s: nat, r: nat, q: int, x: int, w: seq<int>)
    requires TableOk(t) && s < r < |t.rows| && Equivalent(t, s, r) && TableOk(Smaller(t, s, r)) && IsWord(w)
    requires F <= q < |t.rows| && F <= x < |t.rows| && Equivalent(t, q, x)
    ensures F <= Without(s, r, x) < |Smaller(t, s, r).rows| == |t.rows| - 1
    ensures var u := Smaller(t, s, r); var a, b := Run(t, q, w), Run(u, Without(s, r, x), w);
      (a == F <==> b == F) && (a != F ==> t.accepts[a].action == u.accepts[b].action)
    decreases |w|
  {
    hide Equivalent;
    var u := Smaller(t, s, r);
    FailAlike(t, q, x);
    if q == F {
      RunFails(t, w);
      RunFails(u, w);
    } else {
      var x' := if x == r then s else x;
      if x == r {
        EquivalentTurned(t, s, r);
        EquivalentTrans(t, q, r, s);
      }
      assert Back(r, Without(s, r, x)) == x';
      if w == [] {
        EquivalentActions(t, q, x');
      } else {
        var c := w[0];
        EquivalentStep(t, q, x', c);
        SmallerRuns(t, s, r, t.rows[q][c], t.rows[x'][c], w[1..]);
      }
    }
  }

  lemma FailAlike(t: Table, q: int, x: int)
    requires TableOk(t) && F <= q < |t.rows| && F <= x < |t.rows| && Equivalent(t, q, x)
    ensures q == F <==> x == F
  {
    assert SameAt(t, q, x, []);
  }

  lemma EquivalentTrans(t: Table, a: int, b: int, c: int)
    requires TableOk(t) && F <= a < |t.rows| && F <= b < |t.rows| && F <= c < |t.rows|
    requires Equivalent(t, a, b) && Equivalent(t, b, c)
    ensures Equivalent(t, a, c)
  {
    forall w | IsWord(w) ensures SameAt(t, a, c, w) {
      assert SameAt(t, a, b, w) && SameAt(t, b, c, w);
    }
  }

  lemma SmallestReduced(t: Table)
    requires TableOk(t) && Smallest(t)
    ensures Reduced(t)
  {
    hide Equivalent, Run, Smaller;
    forall s, r | 0 <= s < r < |t.rows| ensures !Equivalent(t, s, r) {
      if Equivalent(t, s, r) {
        SmallerMeans(t, s, r);
      }
    }
  }

  lemma SmallerMeans(t: Table, s: nat, r: nat)
    requires TableOk(t) && s < r < |t.rows| && Equivalent(t, s, r)
    ensures SameMeaning(t, Smaller(t, s, r)) && |Smaller(t, s, r).rows| < |t.rows|
  {
    hide Run, Smaller;
    SmallerOk(t, s, r);
    forall w | IsWord(w) ensures SameOn(t, Smaller(t, s, r), w) {
      SmallerRuns(t, s, r, 0, 0, w);
    }
  }

  // -------------------------------------------------------------------- min_dfa

  lemma QuotientReachable(t: Table, gs: seq<set<int>>, ing: seq<int>, t': Table, reps: seq<int>)
    requires TableOk(t) && Partition(t, gs, ing, |t.rows|) && Stable(t, gs, ing) && Quotient(t, gs, ing, t', reps)
    requires Reachable(t)
    ensures Reachable(t')
  {
    hide Run, Stable, RowOf;
    forall g | 0 <= g < |t'.rows| ensures CanReach(t', g) {
      RepOf(t, gs, ing, t', reps, g);
      assert CanReach(t, reps[g]);
      var w := WordTo(t, reps[g]);
      RunQuotient(t, gs, ing, t', reps, 0, w);
      assert LeadsTo(t', w, g);
    }
  }

  /** Actions and anchors are those of states of the larger table. */
  ghost predicate AcceptsKept(t: Table, t': Table) {
    TableOk(t) && TableOk(t') && forall q | 0 <= q < |t'.accepts| :: t'.accepts[q] in t.accepts
  }

  lemma KeepsAccepts(t: Table, gs: seq<set<int>>, ing: seq<int>, t': Table, reps: seq<int>)
    requires TableOk(t) && Partition(t, gs, ing, |t.rows|) && Quotient(t, gs, ing, t', reps)
    ensures AcceptsKept(t, t')
  {
    forall q | 0 <= q < |t'.accepts| ensures t'.accepts[q] in t.accepts {
      assert RowOf(t, ing, t', q, reps[q]);
    }
  }

  /** min_dfa, after the table has been made. The result has no two equivalent states exactly if all
      splits are fair, and if the table had no idle states it is then the smallest of this meaning. */
  method Minimized(t: Table) returns (t': Table)
    requires TableOk(t) && |t.rows| <= DFA_MAX
    ensures SameMeaning(t, t') && |t'.rows| <= |t.rows| && AcceptsKept(t, t')
    ensures Reduced(t') <==> FairRun(t, Placed(t, Zeros(), |t.rows|))
    ensures Reachable(t) ==> Reachable(t') && (Smallest(t') <==> FairRun(t, Placed(t, Zeros(), |t.rows|)))
  {
    hide Partition, Stable, Quotient, Reduced, Smallest, FairRun, Placed, Zeros, Refined, Respects;
    var minimizer := new Minimizer(t);
    ghost var reps;
    t', reps := minimizer.Minimize();
    ghost var gs, ing := minimizer.groups[..minimizer.ngroups], minimizer.ingroup[..];
    KeepsAccepts(t, gs, ing, t', reps);
    if Reachable(t) { QuotientReachable(t, gs, ing, t', reps); }
    ReducedIs(t, gs, ing, t', reps);
    GroupedExactly(t, Zeros());
    if Reduced(t') && Reachable(t') { ReducedSmallest(t'); }
    if Smallest(t') { SmallestReduced(t'); }
  }
}
