/** Partition refinement (compiler/lex/mindfa.c): states with different actions or with
    edges into different groups are separated until nothing changes. */
module MinDfa {
  import opened SetFacts
  import opened Nfa
  import opened Closures
  import opened Tables
  import opened MinSteps

  /** The members of the set are among the first `k` states and noted to be in group `g`. */
  predicate Holds(group: set<int>, ing: seq<int>, k: nat, g: int) {
    k <= |ing| && forall s | s in group :: 0 <= s < k && ing[s] == g
  }

  /** The first `k` states are divided among the groups `gs`; `ing` says which state is in
      which. States in one group have the same action, and state 0 is in group 0. */
  predicate Partition(t: Table, gs: seq<set<int>>, ing: seq<int>, k: nat) {
    && k <= |t.accepts| && k <= |ing|
    && (forall s | 0 <= s < k :: 0 <= ing[s] < |gs|)
    && (forall s | 0 <= s < k :: s in gs[ing[s]])
    && (forall g | 0 <= g < |gs| :: Holds(gs[g], ing, k, g))
    && (forall s, r | 0 <= s < k && 0 <= r < k && ing[s] == ing[r] :: t.accepts[s].action == t.accepts[r].action)
    && (k > 0 ==> ing[0] == 0)
  }

  predicate NonEmpty(gs: seq<set<int>>) {
    forall g | 0 <= g < |gs| :: gs[g] != {}
  }

  /** No two states of the group would be separated. */
  predicate GroupStable(t: Table, gs: seq<set<int>>, ing: seq<int>, g: int)
    requires TableOk(t) && 0 <= g < |gs| && Partition(t, gs, ing, |t.rows|)
  {
    forall s, r | 0 <= s < |t.rows| && 0 <= r < |t.rows| && ing[s] == ing[r] == g :: AlikeRows(t, ing, s, r)
  }

  predicate Stable(t: Table, gs: seq<set<int>>, ing: seq<int>)
    requires TableOk(t) && Partition(t, gs, ing, |t.rows|)
  {
    forall g | 0 <= g < |gs| :: GroupStable(t, gs, ing, g)
  }

  // ------------------------------------------------------------- the quotient

  /** Where the quotient goes: the group of the state, or F. */
  function GroupOf(ing: seq<int>, q: int): int
    requires F <= q < |ing|
  {
    if q == F then F else ing[q]
  }

  /** Each row of `t'` is the row of some state of the group, with its targets replaced by
      their groups. */
  predicate RowOf(t: Table, ing: seq<int>, t': Table, g: int, s: int)
    requires TableOk(t) && TableOk(t') && |ing| >= |t.rows| && 0 <= g < |t'.rows| && 0 <= s < |t.rows|
  {
    && t'.accepts[g] == t.accepts[s] && ing[s] == g
    && RowOk(t.rows[s], |t.rows|) && RowOk(t'.rows[g], |t'.rows|)
    && forall c | 0 <= c < MAX_CHARS :: t'.rows[g][c] == GroupOf(ing, t.rows[s][c])
  }

  predicate Quotient(t: Table, gs: seq<set<int>>, ing: seq<int>, t': Table, reps: seq<int>)
    requires TableOk(t) && Partition(t, gs, ing, |t.rows|)
  {
    && TableOk(t') && |t'.rows| == |gs| == |reps|
    && forall g | 0 <= g < |gs| :: 0 <= reps[g] < |t.rows| && RowOf(t, ing, t', g, reps[g])
  }

  /** The quotient of a stable partition follows the automaton group by group. */
  lemma {:induction false} RunQuotient(t: Table, gs: seq<set<int>>, ing: seq<int>, t': Table, reps: seq<int>, q: int,
        w: seq<int>)
    requires TableOk(t) && Partition(t, gs, ing, |t.rows|) && Stable(t, gs, ing) && Quotient(t, gs, ing, t', reps)
    requires F <= q < |t.rows| && IsWord(w)
    ensures F <= GroupOf(ing, q) < |gs| && Run(t', GroupOf(ing, q), w) == GroupOf(ing, Run(t, q, w))
    decreases |w|
  {
    if q == F {
      RunFails(t, w);
      RunFails(t', w);
    } else if w != [] {
      var g, c := ing[q], w[0];
      var s := reps[g];
      assert RowOf(t, ing, t', g, s) && GroupStable(t, gs, ing, g);
      assert AlikeRows(t, ing, q, s) && AlikeOn(t, ing, q, s, c);
      RunQuotient(t, gs, ing, t', reps, t.rows[q][c], w[1..]);
    }
  }

  /** On every word the two tables both fail, or both arrive at the same action. */
  ghost predicate SameMeaning(t: Table, t': Table) {
    TableOk(t) && TableOk(t') && forall w | IsWord(w) :: SameOn(t, t', w)
  }

  ghost predicate SameOn(t: Table, t': Table, w: seq<int>)
    requires TableOk(t) && TableOk(t') && IsWord(w)
  {
    var q, q' := Run(t, 0, w), Run(t', 0, w);
    (q == F <==> q' == F) && (q != F ==> t.accepts[q].action == t'.accepts[q'].action)
  }

  lemma QuotientMeaning(t: Table, gs: seq<set<int>>, ing: seq<int>, t': Table, reps: seq<int>)
    requires TableOk(t) && Partition(t, gs, ing, |t.rows|) && Stable(t, gs, ing) && Quotient(t, gs, ing, t', reps)
    ensures SameMeaning(t, t')
  {
    forall w | IsWord(w) ensures SameOn(t, t', w) {
      RunQuotient(t, gs, ing, t', reps, 0, w);
      var q := Run(t, 0, w);
      if q != F {
        assert RowOf(t, ing, t', ing[q], reps[ing[q]]);
      }
    }
  }

  /** States that end up in one group behave alike on every word. */
  lemma MergedAlike(t: Table, gs: seq<set<int>>, ing: seq<int>, t': Table, reps: seq<int>, s: nat, r: nat, w: seq<int>)
    requires TableOk(t) && Partition(t, gs, ing, |t.rows|) && Stable(t, gs, ing) && Quotient(t, gs, ing, t', reps)
    requires s < |t.rows| && r < |t.rows| && ing[s] == ing[r] && IsWord(w)
    ensures var a, b := Run(t, s, w), Run(t, r, w);
      (a == F <==> b == F) && (a != F ==> t.accepts[a].action == t.accepts[b].action)
  {
    RunQuotient(t, gs, ing, t', reps, s, w);
    RunQuotient(t, gs, ing, t', reps, r, w);
  }

  // ------------------------------------------------------- how many groups there are

  lemma Another<T>(s: set<T>, x: T) returns (y: T)
    requires x in s && s != {x}
    ensures y in s && y != x
  {
    y :| y in s && y != x;
  }

  lemma TwoMembers<T>(s: set<T>) returns (x: T, y: T)
    requires |s| > 1
    ensures x in s && y in s && x != y
  {
    x := SomeMember(s);
    y := Another(s, x);
  }

  lemma MemberOf(t: Table, gs: seq<set<int>>, ing: seq<int>, k: nat, g: nat, s: int)
    requires Partition(t, gs, ing, k) && g < |gs| && s in gs[g]
    ensures 0 <= s < k && ing[s] == g
  {
    assert Holds(gs[g], ing, k, g);
  }

  lemma {:induction false} Members(gs: seq<set<int>>) returns (r: seq<int>)
    requires NonEmpty(gs)
    ensures |r| == |gs| && forall g | 0 <= g < |gs| :: r[g] in gs[g]
  {
    if gs == [] {
      r := [];
    } else {
      var k := |gs| - 1;
      r := Members(gs[..k]);
      var x := SomeMember(gs[k]);
      r := r + [x];
    }
  }

  /** There are no more groups than states. */
  lemma GroupCount(t: Table, gs: seq<set<int>>, ing: seq<int>, k: nat)
    requires Partition(t, gs, ing, k) && NonEmpty(gs)
    ensures |gs| <= k
  {
    var r := Members(gs);
    forall g | 0 <= g < |gs| ensures 0 <= r[g] < k && ing[r[g]] == g {
      MemberOf(t, gs, ing, k, g, r[g]);
    }
    DistinctBound(r, k);
  }

  /** Once a group has two members there is a state to spare, so the next group has a place. */
  lemma GroupToSpare(t: Table, gs: seq<set<int>>, ing: seq<int>, k: nat, g: nat)
    requires Partition(t, gs, ing, k) && NonEmpty(gs) && g < |gs| && |gs[g]| > 1
    ensures |gs| < k
  {
    var r := Members(gs);
    forall g | 0 <= g < |gs| ensures 0 <= r[g] < k && ing[r[g]] == g {
      MemberOf(t, gs, ing, k, g, r[g]);
    }
    var x, y := TwoMembers(gs[g]);
    var other := if r[g] == x then y else x;
    MemberOf(t, gs, ing, k, g, other);
    DistinctBound(r + [other], k);
  }

  // ------------------------------------------------------ changes to a partition

  lemma JoinGroup(t: Table, gs: seq<set<int>>, ing: seq<int>, k: nat, j: nat)
    requires Partition(t, gs, ing, k) && j < k < |ing| && k < |t.accepts| && t.accepts[k].action == t.accepts[j].action
    ensures 0 <= ing[j] < |gs| && Partition(t, gs[ing[j] := gs[ing[j]] + {k}], ing[k := ing[j]], k + 1)
  {
    var g := ing[j];
    var gs' := gs[g := gs[g] + {k}];
    forall h | 0 <= h < |gs| ensures Holds(gs'[h], ing[k := g], k + 1, h) {
      assert Holds(gs[h], ing, k, h);
    }
  }

  lemma NewGroup(t: Table, gs: seq<set<int>>, ing: seq<int>, k: nat)
    requires Partition(t, gs, ing, k) && k < |ing| && k < |t.accepts| && (k == 0 ==> gs == [])
    requires forall j | 0 <= j < k :: t.accepts[k].action != t.accepts[j].action
    ensures Partition(t, gs + [{k}], ing[k := |gs|], k + 1)
  {
    var gs' := gs + [{k}];
    forall h | 0 <= h < |gs'| ensures Holds(gs'[h], ing[k := |gs|], k + 1, h) {
      assert h < |gs| ==> Holds(gs[h], ing, k, h);
    }
  }

  lemma EmptyGroup(t: Table, gs: seq<set<int>>, ing: seq<int>, k: nat)
    requires Partition(t, gs, ing, k)
    ensures Partition(t, gs + [{}], ing, k)
  {
    var gs' := gs + [{}];
    forall h | 0 <= h < |gs'| ensures Holds(gs'[h], ing, k, h) {
      assert h < |gs| ==> Holds(gs[h], ing, k, h);
    }
  }

  lemma MoveState(t: Table, gs: seq<set<int>>, ing: seq<int>, k: nat, g: nat, h: nat, s: nat)
    requires Partition(t, gs, ing, k) && g < |gs| && h < |gs| && g != h && 0 < s < k && ing[s] == g
    requires forall r | 0 <= r < k && ing[r] == h :: t.accepts[r].action == t.accepts[s].action
    ensures Partition(t, gs[g := gs[g] - {s}][h := gs[h] + {s}], ing[s := h], k)
  {
    var gs' := gs[g := gs[g] - {s}][h := gs[h] + {s}];
    forall x | 0 <= x < |gs'| ensures Holds(gs'[x], ing[s := h], k, x) {
      assert Holds(gs[x], ing, k, x);
    }
  }

  lemma AlikeTogether(t: Table, ing: seq<int>, first: int, s: int, r: int)
    requires TableOk(t) && 0 <= s < |t.rows| && 0 <= r < |t.rows| && 0 <= first < |t.rows|
    requires AlikeRows(t, ing, first, s) && AlikeRows(t, ing, first, r)
    ensures AlikeRows(t, ing, s, r)
  {
    forall c | 0 <= c < MAX_CHARS ensures AlikeOn(t, ing, s, r, c) {
      assert AlikeOn(t, ing, first, s, c) && AlikeOn(t, ing, first, r, c);
    }
  }

  class Minimizer {
    const t: Table
    const groups: array<set<int>>
    const ingroup: array<int>
    var ngroups: nat

    ghost predicate Sized()
      reads `ngroups
    {
      TableOk(t) && |t.rows| <= DFA_MAX == groups.Length == ingroup.Length && ngroups <= |t.rows|
    }

    ghost predicate Valid(k: nat)
      reads `ngroups, groups, ingroup
    {
      Sized() && Partition(t, groups[..ngroups], ingroup[..], k) && NonEmpty(groups[..ngroups])
    }

    constructor (t: Table)
      requires TableOk(t) && |t.rows| <= DFA_MAX
      ensures this.t == t && fresh(groups) && fresh(ingroup) && Sized() && ngroups == 0 && ingroup[..] == Zeros()
    {
      this.t := t;
      groups := new set<int>[DFA_MAX](_ => {});
      ingroup := new int[DFA_MAX](_ => 0);
      ngroups := 0;
    }

    /** The numbers of the groups. */
    function Now(): Groups
      reads `ngroups, ingroup
    {
      Groups(ingroup[..], ngroups)
    }

    /** The states with one action form one group. */
    ghost predicate ByAction(k: nat)
      reads ingroup
    {
      k <= ingroup.Length && k <= |t.accepts| &&
      forall s, r | 0 <= s < k && 0 <= r < k && t.accepts[s].action == t.accepts[r].action :: ingroup[s] == ingroup[r]
    }

    /** init_groups. */
    method InitGroups()
      requires Sized() && ngroups == 0
      modifies `ngroups, groups, ingroup
      ensures Valid(|t.rows|) && ByAction(|t.rows|)
      ensures Now() == Placed(t, old(ingroup[..]), |t.rows|)
    {
      ghost var ing := ingroup[..];
      for i := 0 to |t.rows|
        invariant Valid(i) && ByAction(i) && Now() == Placed(t, ing, i)
      {
        Place(i, ing);
      }
    }

    /** The body of its outer loop: an earlier state with the same action, or a new group. */
    method Place(i: nat, ghost ing0: seq<int>)
      requires Valid(i) && i < |t.rows| && ByAction(i) && |ing0| >= |t.rows| && Now() == Placed(t, ing0, i)
      modifies `ngroups, groups, ingroup
      ensures Valid(i + 1) && ByAction(i + 1) && Now() == Placed(t, ing0, i + 1)
    {
      hide Partition;
      ghost var gs, ing := groups[..ngroups], ingroup[..];
      GroupCount(t, gs, ing, i);
      var j := i;
      while j > 0
        invariant 0 <= j <= i && ngroups == |gs| && groups[..ngroups] == gs && ingroup[..] == ing
        invariant forall r | j <= r < i :: t.accepts[i].action != t.accepts[r].action
        invariant EarlierSame(t, i, i) == EarlierSame(t, i, j)
      {
        j := j - 1;
        if t.accepts[i].action == t.accepts[j].action {
          JoinGroup(t, gs, ing, i, j);
          groups[ingroup[j]] := groups[ingroup[j]] + {i};
          ingroup[i] := ingroup[j];
          assert groups[..ngroups] == gs[ing[j] := gs[ing[j]] + {i}];
          assert ingroup[..] == ing[i := ing[j]];
          return;
        }
      }
      NewGroup(t, gs, ing, i);
      groups[ngroups] := {i};
      ingroup[i] := ngroups;
      ngroups := ngroups + 1;
      assert groups[..ngroups] == gs + [{i}];
      assert ingroup[..] == ing[i := |gs|];
    }

    /** The first member of a group. */
    method First(g: nat) returns (first: nat)
      requires Valid(|t.rows|) && g < ngroups
      ensures first < |t.rows| && ingroup[first] == g
      ensures forall s | 0 <= s < first :: ingroup[s] != g
    {
      ghost var x := SomeMember(groups[..ngroups][g]);
      MemberOf(t, groups[..ngroups], ingroup[..], |t.rows|, g, x);
      first := 0;
      while first !in groups[g]
        invariant first <= x && forall s | 0 <= s < first :: ingroup[s] != g
        decreases x - first
      {
        first := first + 1;
      }
      MemberOf(t, groups[..ngroups], ingroup[..], |t.rows|, g, first);
    }

    /** The inner loop of minimize over the characters. */
    method Separated(first: nat, next: nat) returns (apart: bool)
      requires Sized() && first < |t.rows| && next < |t.rows|
      ensures apart <==> !AlikeRows(t, ingroup[..], first, next)
    {
      assert RowOk(t.rows[first], |t.rows|) && RowOk(t.rows[next], |t.rows|);
      var c := MAX_CHARS;
      while c > 0
        invariant 0 <= c <= MAX_CHARS
        invariant forall d | c <= d < MAX_CHARS :: AlikeOn(t, ingroup[..], first, next, d)
      {
        c := c - 1;
        var gotoFirst, gotoNext := t.rows[first][c], t.rows[next][c];
        if gotoFirst != gotoNext && (gotoFirst == F || gotoNext == F || ingroup[gotoFirst] != ingroup[gotoNext]) {
          assert !AlikeOn(t, ingroup[..], first, next, c);
          return true;
        }
      }
      return false;
    }

    /** What is left of the split gives the numbers that all of it gives. */
    ghost predicate InSplit(g: nat, first: nat, next: nat, ing: seq<int>)
      requires Sized() && first < next <= |t.rows| <= |ing|
      reads `ngroups, ingroup
    {
      SplitFrom(t, ingroup[..], g, first, ngroups, next) == SplitFrom(t, ing, g, first, ngroups, first + 1)
    }

    /** While group `g` is being split: the new group is made of states that left `g`. */
    ghost predicate Splitting(g: nat, first: nat, next: nat, gs: seq<set<int>>, ing: seq<int>)
      reads `ngroups, groups, ingroup
    {
      && Sized() && ngroups < |t.rows| && g < ngroups && first < next <= |t.rows|
      && Partition(t, groups[..ngroups + 1], ingroup[..], |t.rows|)
      && ingroup[first] == g && (forall s | 0 <= s < first :: ingroup[s] != g)
      && (forall s | 0 <= s < |t.rows| && ingroup[s] == ngroups :: t.accepts[s].action == t.accepts[first].action)
      && (forall h | 0 <= h < ngroups && h != g :: groups[h] != {})
      && (groups[ngroups] == {} ==>
            && groups[..ngroups] == gs && ingroup[..] == ing
            && forall s | first < s < next && ing[s] == g :: AlikeRows(t, ing, first, s))
    }

    /** The body of the for loop of minimize: split one group. */
    method Split(g: nat)
      requires Valid(|t.rows|) && g < ngroups
      modifies `ngroups, groups, ingroup
      ensures Valid(|t.rows|) && old(ngroups) <= ngroups && Now() == SplitOf(t, old(Now()), g)
      ensures ngroups == old(ngroups) ==>
        && groups[..ngroups] == old(groups[..ngroups]) && ingroup[..] == old(ingroup[..])
        && GroupStable(t, groups[..ngroups], ingroup[..], g)
    {
      hide Partition, AlikeRows;
      ghost var gs, ing := groups[..ngroups], ingroup[..];
      if |groups[g]| <= 1 {
        OneMember(t, gs, ing, g);
        SplitOne(t, gs, ing, g);
        return;
      }
      GroupToSpare(t, gs, ing, |t.rows|, g);
      EmptyGroup(t, gs, ing, |t.rows|);
      var first := First(g);
      groups[ngroups] := {};
      assert groups[..ngroups + 1] == gs + [{}];
      NoneIn(t, gs + [{}], ing, |t.rows|, ngroups);
      var next := first + 1;
      while next < |t.rows|
        invariant Splitting(g, first, next, gs, ing) && ngroups == |gs| && InSplit(g, first, next, ing)
      {
        next := SplitStep(g, first, next, gs, ing);
      }
      SplitEnd(g, first, gs, ing);
      SplitDone(g, first, gs, ing);
      if groups[ngroups] != {} {
        ngroups := ngroups + 1;
      }
    }

    method SplitStep(g: nat, first: nat, next: nat, ghost gs: seq<set<int>>, ghost ing: seq<int>) returns (next': nat)
      requires Splitting(g, first, next, gs, ing) && next < |t.rows|
      modifies groups, ingroup
      ensures Splitting(g, first, next + 1, gs, ing) && next' == next + 1
      ensures SplitFrom(t, ingroup[..], g, first, ngroups, next + 1) ==
        SplitFrom(t, old(ingroup[..]), g, first, ngroups, next)
    {
      hide AlikeRows;
      ghost var gs1, ing1 := groups[..ngroups + 1], ingroup[..];
      next' := next + 1;
      IsIn(t, gs1, ing1, |t.rows|, g, next);
      if next in groups[g] {
        var apart := Separated(first, next);
        if apart {
          MoveState(t, gs1, ing1, |t.rows|, g, ngroups, next);
          groups[g] := groups[g] - {next};
          groups[ngroups] := groups[ngroups] + {next};
          ingroup[next] := ngroups;
          assert groups[..ngroups + 1] == gs1[g := gs1[g] - {next}][ngroups := gs1[ngroups] + {next}];
          assert ingroup[..] == ing1[next := ngroups];
          assert next in groups[ngroups];
        }
      }
    }

    lemma SplitDone(g: nat, first: nat, gs: seq<set<int>>, ing: seq<int>)
      requires Splitting(g, first, |t.rows|, gs, ing) && |gs| == ngroups && Partition(t, gs, ing, |t.rows|)
      requires InSplit(g, first, |t.rows|, ing) && |ing| == ingroup.Length && ing[first] == g
      requires forall s | 0 <= s < first :: ing[s] != g
      ensures SplitOf(t, Groups(ing, ngroups), g) ==
        Groups(ingroup[..], if groups[ngroups] == {} then ngroups else ngroups + 1)
    {
      assert FirstIn(t, ing, g, 0) == first;
      if groups[ngroups] != {} {
        var x := SomeMember(groups[ngroups]);
        MemberOf(t, groups[..ngroups + 1], ingroup[..], |t.rows|, ngroups, x);
        assert ing[x] != ingroup[x];
      }
    }

    lemma SplitEnd(g: nat, first: nat, gs: seq<set<int>>, ing: seq<int>)
      requires Splitting(g, first, |t.rows|, gs, ing) && |gs| == ngroups && Partition(t, gs, ing, |t.rows|)
      ensures forall h | 0 <= h < ngroups :: groups[h] != {}
      ensures groups[ngroups] == {} ==> GroupStable(t, gs, ing, g)
    {
      hide AlikeRows;
      assert first in groups[g] by { IsIn(t, groups[..ngroups + 1], ingroup[..], |t.rows|, g, first); }
      if groups[ngroups] == {} {
        AlikeSelf(t, ing, first);
        forall s, r | 0 <= s < |t.rows| && 0 <= r < |t.rows| && ing[s] == ing[r] == g ensures AlikeRows(t, ing, s, r) {
          AlikeTogether(t, ing, first, s, r);
        }
      }
    }

    /** One pass over the groups, those made on the way included. */
    method Pass()
      requires Valid(|t.rows|)
      modifies `ngroups, groups, ingroup
      ensures Valid(|t.rows|) && old(ngroups) <= ngroups && Now() == PassFrom(t, old(Now()), 0)
      ensures ngroups == old(ngroups) ==> Stable(t, groups[..ngroups], ingroup[..])
    {
      hide Partition, GroupStable;
      ghost var gs, ing := groups[..ngroups], ingroup[..];
      var current := 0;
      while current < ngroups
        invariant 0 <= current <= ngroups && Valid(|t.rows|) && |gs| <= ngroups
        invariant PassFrom(t, Now(), current) == PassFrom(t, old(Now()), 0)
        invariant ngroups == |gs| ==>
          groups[..ngroups] == gs && ingroup[..] == ing && forall g | 0 <= g < current :: GroupStable(t, gs, ing, g)
        decreases |t.rows| - current
      {
        Split(current);
        current := current + 1;
      }
    }

    /** The passes of minimize: until one of them makes no new group. */
    method Refine()
      requires Valid(|t.rows|)
      modifies `ngroups, groups, ingroup
      ensures Valid(|t.rows|) && Stable(t, groups[..ngroups], ingroup[..]) && Now() == Refined(t, old(Now()))
    {
      hide Partition, Stable;
      var oldGroups := ngroups;
      Pass();
      while oldGroups != ngroups
        invariant Valid(|t.rows|) && oldGroups <= ngroups
        invariant Refined(t, old(Now())) == if oldGroups == ngroups then Now() else Refined(t, Now())
        invariant oldGroups == ngroups ==> Stable(t, groups[..ngroups], ingroup[..])
        decreases |t.rows| - oldGroups
      {
        oldGroups := ngroups;
        Pass();
      }
    }

    /** The copying loop of fix_dtran. */
    method FixRow(row: Row) returns (row': Row)
      requires Sized() && RowOk(row, |t.rows|)
      ensures |row'| == MAX_CHARS && forall c | 0 <= c < MAX_CHARS :: row'[c] == GroupOf(ingroup[..], row[c])
    {
      row' := [];
      for c := 0 to MAX_CHARS
        invariant |row'| == c && forall d | 0 <= d < c :: row'[d] == GroupOf(ingroup[..], row[d])
      {
        row' := row' + [if row[c] == F then F else ingroup[row[c]]];
      }
    }

    /** fix_dtran: each group takes over the row and the action of its first state. */
    method FixDtran() returns (t': Table, ghost reps: seq<int>)
      requires Valid(|t.rows|)
      ensures Quotient(t, groups[..ngroups], ingroup[..], t', reps)
    {
      hide Partition;
      ghost var gs, ing := groups[..ngroups], ingroup[..];
      AllPlaced(t, gs, ing);
      var rows, accepts := [], [];
      reps := [];
      for g := 0 to ngroups
        invariant |rows| == |accepts| == |reps| == g
        invariant forall h | 0 <= h < g ::
          0 <= reps[h] < |t.rows| && ing[reps[h]] == h && accepts[h] == t.accepts[reps[h]]
        invariant forall h | 0 <= h < g :: NewRow(ing, t.rows[reps[h]], rows[h], ngroups)
      {
        var state := First(g);
        assert RowOk(t.rows[state], |t.rows|);
        var row := FixRow(t.rows[state]);
        rows, accepts, reps := rows + [row], accepts + [t.accepts[state]], reps + [state];
      }
      t' := Table(rows, accepts);
      forall g | 0 <= g < |rows| ensures RowOf(t, ing, t', g, reps[g]) {
        assert NewRow(ing, t.rows[reps[g]], rows[g], ngroups);
      }
    }

    /** minimize: the smaller table means the same. */
    method Minimize() returns (t': Table, ghost reps: seq<int>)
      requires Sized() && ngroups == 0
      modifies `ngroups, groups, ingroup
      ensures Valid(|t.rows|) && Stable(t, groups[..ngroups], ingroup[..])
      ensures Quotient(t, groups[..ngroups], ingroup[..], t', reps)
      ensures SameMeaning(t, t') && |t'.rows| <= |t.rows| && Now() == Grouped(t, old(ingroup[..]))
    {
      hide Partition, Stable, Quotient;
      InitGroups();
      Refine();
      t', reps := FixDtran();
      QuotientMeaning(t, groups[..ngroups], ingroup[..], t', reps);
      QuotientSize(t, groups[..ngroups], ingroup[..], t', reps);
    }
  }

  lemma AlikeSelf(t: Table, ing: seq<int>, s: int)
    requires TableOk(t) && 0 <= s < |t.rows|
    ensures AlikeRows(t, ing, s, s)
  {
  }

  lemma IsIn(t: Table, gs: seq<set<int>>, ing: seq<int>, k: nat, g: nat, s: nat)
    requires Partition(t, gs, ing, k) && g < |gs| && s < k
    ensures s in gs[g] <==> ing[s] == g
  {
    assert Holds(gs[g], ing, k, g);
  }

  lemma NoneIn(t: Table, gs: seq<set<int>>, ing: seq<int>, k: nat, g: nat)
    requires Partition(t, gs, ing, k) && g < |gs| && gs[g] == {}
    ensures forall s | 0 <= s < k :: ing[s] != g
  {
    forall s | 0 <= s < k ensures ing[s] != g {
      IsIn(t, gs, ing, k, g, s);
    }
  }

  /** A group of one state is not split. */
  lemma SplitOne(t: Table, gs: seq<set<int>>, ing: seq<int>, g: nat)
    requires TableOk(t) && Partition(t, gs, ing, |t.rows|) && g < |gs| && |gs[g]| <= 1
    ensures SplitOf(t, Groups(ing, |gs|), g) == Groups(ing, |gs|)
  {
    var first := FirstIn(t, ing, g, 0);
    if first < |t.rows| {
      forall s | first < s < |t.rows| ensures ing[s] != g {
        IsIn(t, gs, ing, |t.rows|, g, s);
        IsIn(t, gs, ing, |t.rows|, g, first);
        if ing[s] == g { Single(gs[g], s, first); }
      }
      NobodyLeaves(t, ing, g, first, |gs|, first + 1);
    }
  }

  lemma {:induction false} NobodyLeaves(t: Table, ing: seq<int>, g: int, first: nat, h: int, next: nat)
    requires TableOk(t) && first < |t.rows| <= |ing| && next <= |t.rows|
    requires forall s | next <= s < |t.rows| :: ing[s] != g
    ensures SplitFrom(t, ing, g, first, h, next) == ing
    decreases |t.rows| - next
  {
    if next < |t.rows| { NobodyLeaves(t, ing, g, first, h, next + 1); }
  }

  /** A group of one state is stable. */
  lemma OneMember(t: Table, gs: seq<set<int>>, ing: seq<int>, g: nat)
    requires TableOk(t) && Partition(t, gs, ing, |t.rows|) && g < |gs| && |gs[g]| <= 1
    ensures GroupStable(t, gs, ing, g)
  {
    hide AlikeRows;
    forall s, r | 0 <= s < |t.rows| && 0 <= r < |t.rows| && ing[s] == ing[r] == g ensures AlikeRows(t, ing, s, r) {
      IsIn(t, gs, ing, |t.rows|, g, s);
      IsIn(t, gs, ing, |t.rows|, g, r);
      Single(gs[g], s, r);
      AlikeSelf(t, ing, s);
    }
  }

  lemma Single<T>(s: set<T>, x: T, y: T)
    requires |s| <= 1 && x in s && y in s
    ensures x == y
  {
    if x != y {
      SubsetSize({x, y}, s);
    }
  }

  lemma QuotientSize(t: Table, gs: seq<set<int>>, ing: seq<int>, t': Table, reps: seq<int>)
    requires TableOk(t) && Partition(t, gs, ing, |t.rows|) && Quotient(t, gs, ing, t', reps)
    ensures |t'.rows| == |gs|
  {
  }

  /** Every state is in a group. */
  lemma AllPlaced(t: Table, gs: seq<set<int>>, ing: seq<int>)
    requires TableOk(t) && Partition(t, gs, ing, |t.rows|)
    ensures |gs| > 0 && forall s | 0 <= s < |t.rows| :: 0 <= ing[s] < |gs|
  {
  }

  predicate NewRow(ing: seq<int>, row: Row, row': Row, n: nat) {
    RowOk(row, |ing|) && RowOk(row', n) && forall c | 0 <= c < MAX_CHARS :: row'[c] == GroupOf(ing, row[c])
  }
}
