/** OCCS from grammar to parse table: FIRST sets, the LALR(1) automaton, the reductions
    (make_parse_tables in compiler/parser/yystate.c). */
module Occs {
  import opened Options
  import opened Grammars
  import opened Symbols
  import opened First
  import opened LrItems
  import opened LrClosure
  import opened LrList
  import opened LrKernel
  import opened LrStates
  import opened LrTheorems
  import opened Patch
  import opened PatchedGrammar
  import opened Reductions
  import opened LrLimits
  import L = Lalr

  /** What has been made, with the numbers of reduce/reduce and shift/reduce conflicts. */
  datatype Result = BadGoal | TooManyNonterms | GaveUp(why: Outcome)
    | Made(a: Auto, table: seq<seq<Act>>, rr: nat, sr: nat)

  /** The action table: transitions on terminals, and the reductions of all items. */
  ghost predicate TableOf(pr: Precs, a: Auto, table: seq<seq<Act>>) {
    && |table| == |a.states| == |a.actions|
    && forall s, t | 0 <= s < |a.states| ::
         Lookup(table[s], t) == ResolveAll(pr, Lookup(a.actions[s], t), a.states[s].kernel + a.states[s].eps, t)
  }

  /** No conflict is reported for any state and token. */
  ghost predicate NoneReported(pr: Precs, loud: bool, a: Auto) {
    forall s | 0 <= s < |a.states| && s < |a.actions| ::
      QuietChain(pr, loud, a.actions[s], a.states[s].kernel + a.states[s].eps)
  }

  /** Tables are made, or the grammar has not one start production, or a limit is exceeded
      by its canonical LR(1) automaton. */
  ghost predicate Answered(g: Grammar, f: Sets, r: Result) {
    && (r.BadGoal? <==> |g.Prods(g.goal)| != 1)
    && (r.GaveUp? ==> Exceeded(g, f, g.Prods(g.goal)[0], r.why))
    && (r.Made? ==> forall e | e != TooManyUnfinished :: !Exceeded(g, f, g.Prods(g.goal)[0], e))
  }

  /** do_file: FIRST sets, then the patch, then the tables. The lookaheads are computed from
      the FIRST sets of the grammar as it was written. */
  method DoFile(g: Grammar, n: nat, pr: Precs, loud: bool)
    returns (r: Result, h: Grammar, ghost f: Sets, ghost f': Sets)
    requires g.Valid() && Numbered(g, n) && GoalFree(g)
    ensures First.Closed(g, f) && Least(g, f)
    ensures r.TooManyNonterms? <==> g.currNonterm + NewNonterms(g, g.symtab) > MAXNONTERM
    ensures r.TooManyNonterms? || IsPatched(g, h, n)
    ensures r.Made? ==>
      && FirstKept(g, h, f, f')
      && |h.Prods(h.goal)| == 1 && Finished(h, f', h.Prods(h.goal)[0], r.a) && TableOf(pr, r.a, r.table)
    ensures r.Made? ==> (r.rr == 0 && r.sr == 0 <==> NoneReported(pr, loud, r.a))
    ensures !r.TooManyNonterms? ==> Answered(h, f', r)
  {
    hide Plain, GoalFree, First.Closed, Least, InRange, Inv, IsPatched, FirstKept, Numbered, Grammar.Valid,
      ForNonterminals, Exceeded;
    var st := new SymbolTable(g);
    ComputeFirst(st);
    f := st.first;
    NoSetsAbove(g, f);
    var ok, k, s := PatchAll(g, n, st.first);
    h, f' := k, s;
    if !ok { return TooManyNonterms, h, f, f'; }
    PatchedPlain(g, h, n);
    StillGoalFree(g, h, n);
    StillInRange(g, h, n, f, s);
    var patched := new SymbolTable(h);
    patched.first := s;
    r := MakeParseTables(patched, pr, loud);
  }

  /** make_parse_tables. */
  method MakeParseTables(st: SymbolTable, pr: Precs, loud: bool) returns (r: Result)
    requires Plain(st.g) && GoalFree(st.g) && InRange(st.g, st.first)
    ensures !r.TooManyNonterms? && Answered(st.g, st.first, r)
    ensures r.Made? ==> Finished(st.g, st.first, st.g.Prods(st.g.goal)[0], r.a) && TableOf(pr, r.a, r.table)
    ensures r.Made? ==> (r.rr == 0 && r.sr == 0 <==> NoneReported(pr, loud, r.a))
  {
    hide Plain, GoalFree, InRange, Inv, Exceeded;
    var g := st.g;
    L.PlainValid(g);
    if |g.Prods(g.goal)| != 1 { return BadGoal; }
    var start := g.Prods(g.goal)[0];
    ProductionOf(g, g.goal, start);
    var builder := new L.Builder(st, start);
    var o := builder.Lr();
    if o != Fine { return GaveUp(o); }
    var a := Auto(builder.states, builder.actions, builder.gotos, {});
    assert a == builder.A();
    var table, rr, sr := ReduceStates(g, pr, loud, a, st.first, start);
    r := Made(a, table, rr, sr);
  }

  lemma ProductionOf(g: Grammar, x: Symbol, p: Production)
    requires Plain(g) && p in g.Prods(x)
    ensures p.lhs == x
  {
    assert g.ValidProduction(x, p);
  }

  /** reductions: state by state. */
  method ReduceStates(g: Grammar, pr: Precs, loud: bool, a: Auto, ghost f: Sets, ghost start: Production)
    returns (table: seq<seq<Act>>, rr: nat, sr: nat)
    requires Inv(g, f, start, a)
    ensures TableOf(pr, a, table) && (rr == 0 && sr == 0 <==> NoneReported(pr, loud, a))
  {
    hide Inv, ResolveAll, Lookup, ItemsOk, DistinctActs, QuietChain;
    ShapeOf(g, f, start, a);
    table, rr, sr := [], 0, 0;
    for s := 0 to |a.states|
      invariant |table| == s
      invariant forall i, t | 0 <= i < s ::
        Lookup(table[i], t) == ResolveAll(pr, Lookup(a.actions[i], t), a.states[i].kernel + a.states[i].eps, t)
      invariant rr == 0 && sr == 0 <==> forall i | 0 <= i < s ::
        QuietChain(pr, loud, a.actions[i], a.states[i].kernel + a.states[i].eps)
    {
      var acts, r1, s1 := AddReductions(g, pr, loud, a.actions[s], a.states[s].kernel + a.states[s].eps);
      table, rr, sr := table + [acts], rr + r1, sr + s1;
    }
  }

  lemma ShapeOf(g: Grammar, f: Sets, start: Production, a: Auto)
    requires Inv(g, f, start, a)
    ensures |a.actions| == |a.states|
    ensures forall s | 0 <= s < |a.states| ::
      DistinctActs(a.actions[s]) && ItemsOk(g, a.states[s].kernel + a.states[s].eps)
  {
    hide Settled, EdgesOk, SoundStates, Strict, SameCores, CoreOk;
    forall s | 0 <= s < |a.states|
      ensures DistinctActs(a.actions[s]) && ItemsOk(g, a.states[s].kernel + a.states[s].eps)
    {
      assert StateShape(g, a, s) && DistinctSyms(a.actions[s]);
    }
  }

  // ------------------------------------------------------------- what the table says

  /** A shift entry is an edge of the automaton. */
  lemma ShiftIsEdge(g: Grammar, f: Sets, start: Production, a: Auto, s: int, t: Symbol)
    requires Finished(g, f, start, a) && StateNo(a, s) && s < |a.actions| && IsTerm(t)
    ensures Lookup(a.actions[s], t).Some? ==>
      Lookup(a.actions[s], t).value > 0 && Edge(a, s, t, Lookup(a.actions[s], t).value)
    ensures Lookup(a.actions[s], t).None? ==> forall u :: !Edge(a, s, t, u)
  {
    hide SoundStates, Settled, StateShape, SameCores, Goto;
    LookupNone(a.actions[s], t);
    if Lookup(a.actions[s], t).Some? {
      var i :| 0 <= i < |a.actions[s]| && a.actions[s][i].sym == t;
      assert DistinctSyms(a.actions[s]);
      LookupAt(a.actions[s], i);
      assert a.actions[s][i] == Act(t, a.actions[s][i].to);
      assert EdgeOk(g, f, a, s, t, a.actions[s][i].to);
    }
  }

  /** A complete item of the merged canonical states has the lookahead `t`. */
  ghost predicate Completes(g: Grammar, f: Sets, start: Production, a: Auto, s: int, c: Core, t: Symbol)
    requires StateNo(a, s)
  {
    var k := a.states[s].kernel;
    c.AtEnd() && (Canon(g, f, start, k, c, t) || (Listed(g, k, c) && CanonClosure(g, f, start, k, c, t)))
  }

  lemma ReducesExactly(g: Grammar, f: Sets, start: Production, a: Auto, s: int, t: Symbol)
    requires Finished(g, f, start, a) && StateNo(a, s)
    ensures var items := a.states[s].kernel + a.states[s].eps;
      (exists j :: 0 <= j < |items| && Reduces(items[j], t)) <==> exists c :: Completes(g, f, start, a, s, c, t)
  {
    hide Finished, Canon, CanonClosure, Listed;
    var k, e := a.states[s].kernel, a.states[s].eps;
    var items := k + e;
    if j :| 0 <= j < |items| && Reduces(items[j], t) {
      LookaheadsExact(g, f, start, a, s, items[j].core, t);
      assert j < |k| ==> items[j] == k[j];
      assert j >= |k| ==> items[j] == e[j - |k|];
      assert Completes(g, f, start, a, s, items[j].core, t);
    }
    if c :| Completes(g, f, start, a, s, c, t) {
      LookaheadsExact(g, f, start, a, s, c, t);
      if HasLook(k, c, t) {
        var j :| 0 <= j < |k| && k[j].core == c && t in k[j].la;
        assert Reduces(items[j], t);
      } else {
        var j :| 0 <= j < |e| && e[j].core == c && t in e[j].la;
        assert items[|k| + j] == e[j] && Reduces(items[|k| + j], t);
      }
    }
  }

  /** The table has no entry for a terminal exactly if no merged canonical state goes on it
      and none completes an item before it. */
  lemma ErrorExactly(g: Grammar, f: Sets, start: Production, pr: Precs, a: Auto, table: seq<seq<Act>>, s: int,
        t: Symbol)
    requires Finished(g, f, start, a) && TableOf(pr, a, table) && StateNo(a, s) && IsTerm(t)
    ensures Lookup(table[s], t).None? <==>
      Goto(g, f, St(a, s), t).kernel == iset{} && forall c :: !Completes(g, f, start, a, s, c, t)
    ensures Lookup(table[s], t) == Some(0) ==>
      exists j :: 0 <= j < |a.states[s].kernel + a.states[s].eps| &&
        Reduces((a.states[s].kernel + a.states[s].eps)[j], t) &&
        (a.states[s].kernel + a.states[s].eps)[j].core.prod.num == 0
  {
    hide Finished, Completes, Goto, ResolveAll;
    var items := a.states[s].kernel + a.states[s].eps;
    ShiftIsEdge(g, f, start, a, s, t);
    EdgesExact(g, f, start, a, s, t);
    ReducesExactly(g, f, start, a, s, t);
    var shift := Lookup(a.actions[s], t);
    assert Lookup(table[s], t) == ResolveAll(pr, shift, items, t);
    AcceptOnly(pr, shift, items, t);
    if shift.Some? {
      WithShift(pr, shift.value, items, t);
    } else {
      WithoutShift(pr, items, t);
    }
  }

  /** A shift to `k` on `t` meets the reduction by one production, that of item `j`. */
  predicate Meet(a: Auto, s: nat, t: Symbol, j: nat, k: int) {
    && s < |a.states| && s < |a.actions| && k > 0 && Act(t, k) in a.actions[s]
    && var items := a.states[s].kernel + a.states[s].eps;
      && j < |items| && items[j].core.dot >= |items[j].core.prod.rhs| && t in items[j].la
      && forall i | 0 <= i < |items| && i != j :: items[i].core.dot < |items[i].core.prod.rhs| || t !in items[i].la
  }

  /** The choice between a shift and the reduction by `p`: the higher level wins, and of equal levels the
      reduction unless the token associates to the right; the shift stays if one of them has no level. */
  lemma ChosenByPrecedence(g: Grammar, f: Sets, start: Production, pr: Precs, a: Auto, table: seq<seq<Act>>, s: nat,
        t: Symbol, j: nat, k: int)
    requires Finished(g, f, start, a) && TableOf(pr, a, table) && Meet(a, s, t, j, k)
    ensures var p := (a.states[s].kernel + a.states[s].eps)[j].core.prod;
      var entry := Lookup(table[s], t);
      && (t !in pr.terms || pr.terms[t].level == 0 || p !in pr.prods || pr.prods[p] == 0 ==> entry == Some(k))
      && (t in pr.terms && p in pr.prods && pr.terms[t].level > 0 && pr.prods[p] > 0 ==>
            && (pr.prods[p] > pr.terms[t].level ==> entry == Some(0 - p.num))
            && (pr.prods[p] < pr.terms[t].level ==> entry == Some(k))
            && (pr.prods[p] == pr.terms[t].level ==>
                  entry == if pr.terms[t].assoc == 'r' then Some(k) else Some(0 - p.num)))
  {
    hide Finished, ResolveAll;
    EntryOfShift(g, f, start, a, s, t, k);
    var items := a.states[s].kernel + a.states[s].eps;
    WithShift(pr, k, items, t);
  }

  lemma EntryOfShift(g: Grammar, f: Sets, start: Production, a: Auto, s: nat, t: Symbol, k: int)
    requires Finished(g, f, start, a) && s < |a.states| && s < |a.actions| && Act(t, k) in a.actions[s]
    ensures Lookup(a.actions[s], t) == Some(k)
  {
    ShapeOf(g, f, start, a);
    var i :| 0 <= i < |a.actions[s]| && a.actions[s][i] == Act(t, k);
    LookupAt(a.actions[s], i);
  }
}
