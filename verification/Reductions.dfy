/** Reductions and the resolution of conflicts (reduce_one_item and add_reductions in
    compiler/parser/yystate.c). */
module Reductions {
  import opened Options
  import opened Grammars
  import opened LrItems
  import opened LrClosure
  import opened LrStates

  /** The precedence of a terminal: level 0 is none. */
  datatype Prec = Prec(level: nat, assoc: char)

  datatype Precs = Precs(terms: map<Symbol, Prec>, prods: map<Production, nat>)
  {
    function Term(t: Symbol): Prec { if t in terms then terms[t] else Prec(0, 'l') }

    function Prod(p: Production): nat { if p in prods then prods[p] else 0 }
  }

  /** p_action: what the chain says about a terminal. */
  function Lookup(acts: seq<Act>, t: Symbol): Option<int> {
    if acts == [] then None
    else if acts[0].sym == t then Some(acts[0].to)
    else Lookup(acts[1..], t)
  }

  predicate Reduces(x: Item, t: Symbol) { x.core.AtEnd() && t in x.la }

  /** The conflict is decided by precedence, in favour of the reduction. */
  predicate Wins(pr: Precs, x: Item, t: Symbol) {
    pr.Prod(x.core.prod) != 0 && pr.Term(t).level != 0 &&
    (pr.Term(t).level < pr.Prod(x.core.prod) || (pr.Term(t).level == pr.Prod(x.core.prod) && pr.Term(t).assoc != 'r'))
  }

  function Min(a: int, b: int): int { if a <= b then a else b }

  /** The table entry for the reduction by a production. */
  function ReduceBy(n: int): int { -n }

  /** What becomes of the entry for `t` when an item is added. A positive entry is a shift. */
  function Resolve(pr: Precs, was: Option<int>, x: Item, t: Symbol): Option<int> {
    if !Reduces(x, t) then was
    else if was.None? then Some(ReduceBy(x.core.prod.num))
    else if was.value <= 0 then Some(-Min(-was.value, x.core.prod.num))
    else if Wins(pr, x, t) then Some(ReduceBy(x.core.prod.num))
    else was
  }

  function ResolveAll(pr: Precs, was: Option<int>, items: Items, t: Symbol): Option<int> {
    if items == [] then was
    else Resolve(pr, ResolveAll(pr, was, items[..|items| - 1], t), items[|items| - 1], t)
  }

  // ------------------------------------------------------------ what it amounts to

  /** The least number of a production that reduces on `t`, from item `i` on. */
  predicate IsLeast(items: Items, i: nat, t: Symbol, m: nat) {
    && (exists j | i <= j < |items| :: Reduces(items[j], t) && items[j].core.prod.num == m)
    && (forall j | i <= j < |items| && Reduces(items[j], t) :: m <= items[j].core.prod.num)
  }

  lemma LeastSnoc(items: Items, i: nat, t: Symbol, m: nat)
    requires items != [] && i < |items| && IsLeast(items[..|items| - 1], i, t, m)
    ensures var x := items[|items| - 1];
      IsLeast(items, i, t, if Reduces(x, t) then Min(m, x.core.prod.num) else m)
  {
    var init, x := items[..|items| - 1], items[|items| - 1];
    var j :| i <= j < |init| && Reduces(init[j], t) && init[j].core.prod.num == m;
    assert items[j] == init[j];
    assert forall j | i <= j < |init| :: items[j] == init[j];
    if Reduces(x, t) {
      assert Reduces(items[|items| - 1], t);
    }
  }

  lemma LeastOne(items: Items, t: Symbol)
    requires items != [] && Reduces(items[|items| - 1], t)
    ensures IsLeast(items, |items| - 1, t, items[|items| - 1].core.prod.num)
  {
  }

  /** Where there is no shift, the reducing production with the least number is chosen. */
  lemma {:induction false} WithoutShift(pr: Precs, items: Items, t: Symbol)
    ensures var r := ResolveAll(pr, None, items, t);
      if forall j | 0 <= j < |items| :: !Reduces(items[j], t) then r == None
      else r.Some? && r.value <= 0 && IsLeast(items, 0, t, -r.value)
  {
    if items != [] {
      var init, x := items[..|items| - 1], items[|items| - 1];
      WithoutShift(pr, init, t);
      var r := ResolveAll(pr, None, init, t);
      if r.None? {
        assert forall j | 0 <= j < |init| :: items[j] == init[j];
        assert Reduces(x, t) ==> IsLeast(items, 0, t, x.core.prod.num);
      } else {
        LeastSnoc(items, 0, t, -r.value);
        var j :| 0 <= j < |init| && Reduces(init[j], t);
        assert Reduces(items[j], t);
      }
    }
  }

  /** The first item that wins against the shift on `t`. */
  predicate FirstWinner(pr: Precs, items: Items, t: Symbol, i: nat) {
    i < |items| && Reduces(items[i], t) && Wins(pr, items[i], t) &&
    forall j | 0 <= j < i :: !(Reduces(items[j], t) && Wins(pr, items[j], t))
  }

  /** A shift stays unless some item wins against it; then the least production from the
      first winner on is chosen. */
  lemma {:induction false} WithShift(pr: Precs, shift: int, items: Items, t: Symbol)
    requires shift > 0
    ensures var r := ResolveAll(pr, Some(shift), items, t);
      if forall j | 0 <= j < |items| :: !(Reduces(items[j], t) && Wins(pr, items[j], t)) then r == Some(shift)
      else r.Some? && r.value <= 0 && exists i :: FirstWinner(pr, items, t, i) && IsLeast(items, i, t, -r.value)
  {
    if items != [] {
      var init, x := items[..|items| - 1], items[|items| - 1];
      WithShift(pr, shift, init, t);
      assert forall j | 0 <= j < |init| :: items[j] == init[j];
      var r := ResolveAll(pr, Some(shift), init, t);
      if r == Some(shift) {
        if Reduces(x, t) && Wins(pr, x, t) {
          LeastOne(items, t);
          assert FirstWinner(pr, items, t, |items| - 1);
        }
      } else {
        var i: nat :| FirstWinner(pr, init, t, i) && IsLeast(init, i, t, -r.value);
        assert FirstWinner(pr, items, t, i);
        LeastSnoc(items, i, t, -r.value);
        assert Reduces(items[i], t) && Wins(pr, items[i], t);
      }
    }
  }

  /** The entry 0, which means accept, is made only by an item of production 0. */
  lemma AcceptOnly(pr: Precs, shift: Option<int>, items: Items, t: Symbol)
    requires shift.Some? ==> shift.value > 0
    ensures ResolveAll(pr, shift, items, t) == Some(0) ==>
      exists j :: 0 <= j < |items| && Reduces(items[j], t) && items[j].core.prod.num == 0
  {
    if shift.Some? {
      WithShift(pr, shift.value, items, t);
    } else {
      WithoutShift(pr, items, t);
    }
  }

  // ------------------------------------------------------------ what is reported

  /** Two reductions meet. */
  predicate MeetsReduction(was: Option<int>, x: Item, t: Symbol) {
    Reduces(x, t) && was.Some? && was.value <= 0
  }

  /** A reduction meets a shift, and precedence does not decide between them or everything is to be said. */
  predicate MeetsShift(pr: Precs, loud: bool, was: Option<int>, x: Item, t: Symbol) {
    Reduces(x, t) && was.Some? && was.value > 0 && (loud || pr.Prod(x.core.prod) == 0 || pr.Term(t).level == 0)
  }

  /** No conflict is reported while item `i` is added on `t`. */
  predicate QuietAt(pr: Precs, loud: bool, was: Option<int>, items: Items, t: Symbol, i: nat)
    requires i < |items|
  {
    var here := ResolveAll(pr, was, items[..i], t);
    !MeetsReduction(here, items[i], t) && !MeetsShift(pr, loud, here, items[i], t)
  }

  ghost predicate Quiet(pr: Precs, loud: bool, was: Option<int>, items: Items, t: Symbol) {
    forall i | 0 <= i < |items| :: QuietAt(pr, loud, was, items, t, i)
  }

  /** There is nothing to choose between. */
  predicate NoChoice(was: Option<int>, items: Items, t: Symbol) {
    && (was.Some? ==> forall j | 0 <= j < |items| :: !Reduces(items[j], t))
    && forall i, j | 0 <= i < j < |items| :: !(Reduces(items[i], t) && Reduces(items[j], t))
  }

  lemma NoChoiceSnoc(was: Option<int>, items: Items, t: Symbol)
    requires items != []
    ensures var init, x := items[..|items| - 1], items[|items| - 1];
      NoChoice(was, items, t) <==>
        NoChoice(was, init, t) &&
        (Reduces(x, t) ==> was.None? && forall j | 0 <= j < |init| :: !Reduces(init[j], t))
  {
    var init, x := items[..|items| - 1], items[|items| - 1];
    assert forall j | 0 <= j < |init| :: items[j] == init[j];
    if NoChoice(was, init, t) && (Reduces(x, t) ==> was.None? && forall j | 0 <= j < |init| :: !Reduces(init[j], t)) {
      forall i, j | 0 <= i < j < |items| ensures !(Reduces(items[i], t) && Reduces(items[j], t)) {
        assert i < |init|;
      }
    }
  }

  /** If everything is to be said, nothing is reported exactly if there is nothing to choose between. */
  lemma {:induction false} QuietExactly(pr: Precs, was: Option<int>, items: Items, t: Symbol)
    ensures Quiet(pr, true, was, items, t) <==> NoChoice(was, items, t)
  {
    hide ResolveAll;
    if items != [] {
      var init, x := items[..|items| - 1], items[|items| - 1];
      QuietExactly(pr, was, init, t);
      NoChoiceSnoc(was, items, t);
      QuietSnoc(pr, true, was, items, t);
      EntryBefore(pr, was, init, t);
    }
  }

  lemma QuietSnoc(pr: Precs, loud: bool, was: Option<int>, items: Items, t: Symbol)
    requires items != []
    ensures Quiet(pr, loud, was, items, t) <==>
      Quiet(pr, loud, was, items[..|items| - 1], t) && QuietAt(pr, loud, was, items, t, |items| - 1)
  {
    hide ResolveAll, MeetsReduction, MeetsShift;
    var init := items[..|items| - 1];
    forall i | 0 <= i < |init| ensures QuietAt(pr, loud, was, items, t, i) <==> QuietAt(pr, loud, was, init, t, i) {
      assert init[..i] == items[..i];
    }
  }

  /** There is an entry exactly if there was one or some item reduces. */
  lemma {:induction false} EntryBefore(pr: Precs, was: Option<int>, items: Items, t: Symbol)
    ensures ResolveAll(pr, was, items, t).Some? <==> was.Some? || exists j :: 0 <= j < |items| && Reduces(items[j], t)
  {
    if items != [] {
      var init, x := items[..|items| - 1], items[|items| - 1];
      EntryBefore(pr, was, init, t);
      assert forall j | 0 <= j < |init| :: items[j] == init[j];
      assert Reduces(x, t) ==> Reduces(items[|items| - 1], t);
    }
  }

  // ------------------------------------------------------------------ operations

  predicate DistinctActs(acts: seq<Act>) {
    forall i, j | 0 <= i < j < |acts| :: acts[i].sym != acts[j].sym
  }

  lemma {:induction false} LookupAt(acts: seq<Act>, i: nat)
    requires DistinctActs(acts) && i < |acts|
    ensures Lookup(acts, acts[i].sym) == Some(acts[i].to)
  {
    if i > 0 {
      LookupAt(acts[1..], i - 1);
    }
  }

  lemma {:induction false} LookupNone(acts: seq<Act>, t: Symbol)
    ensures Lookup(acts, t).None? <==> forall i | 0 <= i < |acts| :: acts[i].sym != t
  {
    if acts != [] {
      LookupNone(acts[1..], t);
      if forall i | 0 <= i < |acts| :: acts[i].sym != t {
        assert forall i | 0 <= i < |acts[1..]| :: acts[1..][i] == acts[i + 1];
      }
    }
  }

  lemma {:induction false} LookupUpdate(acts: seq<Act>, i: nat, to: int, t: Symbol)
    requires DistinctActs(acts) && i < |acts|
    ensures DistinctActs(acts[i := Act(acts[i].sym, to)])
    ensures Lookup(acts[i := Act(acts[i].sym, to)], t) == if t == acts[i].sym then Some(to) else Lookup(acts, t)
  {
    var acts' := acts[i := Act(acts[i].sym, to)];
    assert DistinctActs(acts');
    if i > 0 {
      assert acts'[1..] == acts[1..][i - 1 := Act(acts[1..][i - 1].sym, to)];
      LookupUpdate(acts[1..], i - 1, to, t);
    } else {
      assert acts'[1..] == acts[1..];
    }
  }

  /** The chain after item `x` has been added for the tokens below `n`, and whether conflicts have been
      counted. */
  ghost predicate Added(pr: Precs, loud: bool, acts: seq<Act>, acts': seq<Act>, x: Item, n: int, rr: nat, sr: nat) {
    && DistinctActs(acts')
    && (forall t :: Lookup(acts', t) == if t < n then Resolve(pr, Lookup(acts, t), x, t) else Lookup(acts, t))
    && (rr == 0 <==> forall t | t < n :: !ReduceReduce(acts, x, t))
    && (sr == 0 <==> forall t | t < n :: !ShiftReduce(pr, loud, acts, x, t))
  }

  predicate ReduceReduce(acts: seq<Act>, x: Item, t: Symbol) { MeetsReduction(Lookup(acts, t), x, t) }

  predicate ShiftReduce(pr: Precs, loud: bool, acts: seq<Act>, x: Item, t: Symbol) {
    MeetsShift(pr, loud, Lookup(acts, t), x, t)
  }

  /** No conflict is reported on any token. */
  ghost predicate QuietChain(pr: Precs, loud: bool, acts: seq<Act>, items: Items) {
    forall t :: QuietOn(pr, loud, acts, items, t)
  }

  ghost predicate QuietOn(pr: Precs, loud: bool, acts: seq<Act>, items: Items, t: Symbol) {
    Quiet(pr, loud, Lookup(acts, t), items, t)
  }

  /** One turn of the loop of reduce_one_item: an item reduces on the token `t`. The results say whether
      a reduce/reduce or a shift/reduce conflict is counted. */
  method ReduceOn(pr: Precs, loud: bool, acts: seq<Act>, x: Item, t: Symbol)
    returns (acts': seq<Act>, rr: nat, sr: nat)
    requires DistinctActs(acts) && Reduces(x, t)
    ensures DistinctActs(acts')
    ensures forall u :: Lookup(acts', u) == if u == t then Resolve(pr, Lookup(acts, t), x, t) else Lookup(acts, u)
    ensures rr == (if ReduceReduce(acts, x, t) then 1 else 0)
    ensures sr == if ShiftReduce(pr, loud, acts, x, t) then 1 else 0
  {
    var num := x.core.prod.num;
    var i := 0;
    rr, sr := 0, 0;
    while i < |acts| && acts[i].sym != t
      invariant i <= |acts| && forall j | 0 <= j < i :: acts[j].sym != t
    {
      i := i + 1;
    }
    LookupNone(acts, t);
    if i == |acts| {
      acts' := [Act(t, ReduceBy(num))] + acts;
      assert acts'[1..] == acts;
      return;
    }
    LookupAt(acts, i);
    var to := acts[i].to;
    if to <= 0 {
      rr := 1;
      to := -Min(-to, num);
    } else {
      var resolved := pr.Prod(x.core.prod) != 0 && pr.Term(t).level != 0;
      if loud || !resolved { sr := 1; }
      if Wins(pr, x, t) { to := ReduceBy(num); }
    }
    acts' := acts[i := Act(acts[i].sym, to)];
    forall u ensures Lookup(acts', u) == if u == t then Some(to) else Lookup(acts, u) {
      LookupUpdate(acts, i, to, u);
    }
    LookupUpdate(acts, i, to, t);
  }

  /** reduce_one_item: a complete item reduces on each of its lookaheads. */
  method ReduceOneItem(g: Grammar, pr: Precs, loud: bool, acts: seq<Act>, x: Item)
    returns (acts': seq<Act>, rr: nat, sr: nat)
    requires DistinctActs(acts) && forall t | t in x.la :: 0 <= t <= g.currTerm
    ensures DistinctActs(acts') && forall t :: Lookup(acts', t) == Resolve(pr, Lookup(acts, t), x, t)
    ensures rr == 0 <==> forall t :: !ReduceReduce(acts, x, t)
    ensures sr == 0 <==> forall t :: !ShiftReduce(pr, loud, acts, x, t)
  {
    hide Lookup;
    acts', rr, sr := acts, 0, 0;
    if !x.core.AtEnd() { return; }
    for t := 0 to g.currTerm + 1
      invariant Added(pr, loud, acts, acts', x, t, rr, sr)
    {
      SameEntry(pr, loud, acts, acts', x, t);
      if t in x.la {
        var r1, s1;
        acts', r1, s1 := ReduceOn(pr, loud, acts', x, t);
        rr, sr := rr + r1, sr + s1;
      } else {
        NotReduced(pr, loud, acts, x, t);
      }
    }
    forall t
      ensures rr == 0 ==> !ReduceReduce(acts, x, t)
      ensures sr == 0 ==> !ShiftReduce(pr, loud, acts, x, t)
    {
      assert t > g.currTerm ==> t !in x.la;
    }
  }

  lemma QuietNext(pr: Precs, loud: bool, acts: seq<Act>, before: seq<Act>, items: Items, i: nat)
    requires i < |items| && forall t :: Lookup(before, t) == ResolveAll(pr, Lookup(acts, t), items[..i], t)
    ensures QuietChain(pr, loud, acts, items[..i + 1]) <==>
      && QuietChain(pr, loud, acts, items[..i])
      && (forall t :: !ReduceReduce(before, items[i], t)) && (forall t :: !ShiftReduce(pr, loud, before, items[i], t))
  {
    hide Lookup, MeetsReduction, MeetsShift, ResolveAll;
    var init, all := items[..i], items[..i + 1];
    assert all[..i] == init;
    forall t
      ensures QuietOn(pr, loud, acts, all, t) <==>
        QuietOn(pr, loud, acts, init, t) &&
        !ReduceReduce(before, items[i], t) && !ShiftReduce(pr, loud, before, items[i], t)
    {
      QuietSnoc(pr, loud, Lookup(acts, t), all, t);
    }
  }

  /** What is reported depends on the entry. */
  lemma SameEntry(pr: Precs, loud: bool, acts: seq<Act>, acts': seq<Act>, x: Item, t: Symbol)
    requires Lookup(acts, t) == Lookup(acts', t)
    ensures ReduceReduce(acts, x, t) == ReduceReduce(acts', x, t)
    ensures ShiftReduce(pr, loud, acts, x, t) == ShiftReduce(pr, loud, acts', x, t)
  {
  }

  lemma NotReduced(pr: Precs, loud: bool, acts: seq<Act>, x: Item, t: Symbol)
    requires t !in x.la
    ensures Resolve(pr, Lookup(acts, t), x, t) == Lookup(acts, t)
    ensures !ReduceReduce(acts, x, t) && !ShiftReduce(pr, loud, acts, x, t)
  {
  }

  /** add_reductions: the kernel items and then the epsilon items of a state. */
  method AddReductions(g: Grammar, pr: Precs, loud: bool, acts: seq<Act>, items: Items)
    returns (acts': seq<Act>, rr: nat, sr: nat)
    requires DistinctActs(acts) && ItemsOk(g, items)
    ensures DistinctActs(acts') && forall t :: Lookup(acts', t) == ResolveAll(pr, Lookup(acts, t), items, t)
    ensures rr == 0 && sr == 0 <==> QuietChain(pr, loud, acts, items)
  {
    hide Lookup, MeetsReduction, MeetsShift, Resolve;
    acts', rr, sr := acts, 0, 0;
    for i := 0 to |items|
      invariant DistinctActs(acts') && forall t :: Lookup(acts', t) == ResolveAll(pr, Lookup(acts, t), items[..i], t)
      invariant rr == 0 && sr == 0 <==> QuietChain(pr, loud, acts, items[..i])
    {
      assert items[..i + 1][..i] == items[..i] && ItemOk(g, items[i]);
      var r1, s1;
      QuietNext(pr, loud, acts, acts', items, i);
      acts', r1, s1 := ReduceOneItem(g, pr, loud, acts', items[i]);
      rr, sr := rr + r1, sr + s1;
    }
    assert items[..|items|] == items;
  }
}
