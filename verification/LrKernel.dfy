/** Kernels: sorted lists of items, their identity, and the groups of closure items from
    which the program makes them (compiler/parser/yystate.c). */
module LrKernel {
  import opened Grammars
  import opened Symbols
  import opened First
  import opened LrItems
  import opened LrClosure
  import opened LrSort
  import opened LrList

  /** The order of the items within a kernel. */
  predicate Before(x: Core, y: Core) {
    x.prod.num < y.prod.num || (x.prod.num == y.prod.num && x.dot < y.dot)
  }

  predicate Strict(s: Items) {
    forall i, j | 0 <= i < j < |s| :: Before(s[i].core, s[j].core)
  }

  predicate SameCores(s: Items, t: Items) {
    |s| == |t| && forall i | 0 <= i < |s| :: s[i].core == t[i].core
  }

  lemma SameCoresHas(s: Items, t: Items)
    requires SameCores(s, t)
    ensures forall c :: Has(s, c) <==> Has(t, c)
  {
    forall c ensures Has(s, c) <==> Has(t, c) {
      if i :| 0 <= i < |s| && s[i].core == c { assert t[i].core == c; }
      if i :| 0 <= i < |t| && t[i].core == c { assert s[i].core == c; }
    }
  }

  lemma {:induction false} HasFront(s: Items, c: Core)
    requires s != []
    ensures Has(s, c) <==> Has(s[..|s| - 1], c) || s[|s| - 1].core == c
  {
    assert s == s[..|s| - 1] + [s[|s| - 1]];
    HasSnoc(s[..|s| - 1], s[|s| - 1], c);
  }

  lemma LastNotBefore(s: Items, c: Core)
    requires Strict(s) && s != [] && Has(s, c)
    ensures c == s[|s| - 1].core || Before(c, s[|s| - 1].core)
  {
    var i :| 0 <= i < |s| && s[i].core == c;
  }

  /** A kernel is determined by its set of items. */
  lemma {:induction false} SortedSame(s: Items, t: Items)
    requires Strict(s) && Strict(t) && forall c :: Has(s, c) <==> Has(t, c)
    ensures SameCores(s, t)
    decreases |s|
  {
    hide Has, Before;
    if s == [] || t == [] {
      if s != [] { assert Has(s, s[0].core) by { FirstHas(s); } NothingHas(s[0].core); assert false; }
      if t != [] { assert Has(t, t[0].core) by { FirstHas(t); } NothingHas(t[0].core); assert false; }
    } else {
      var x, y := s[|s| - 1].core, t[|t| - 1].core;
      LastHas(s);
      LastHas(t);
      LastNotBefore(s, y);
      LastNotBefore(t, x);
      NotBoth(x, y);
      var s', t' := s[..|s| - 1], t[..|t| - 1];
      forall c ensures Has(s', c) <==> Has(t', c) {
        HasFront(s, c);
        HasFront(t, c);
        LastOnce(s);
        LastOnce(t);
      }
      SortedSame(s', t');
    }
  }

  lemma FirstHas(s: Items)
    requires s != []
    ensures Has(s, s[0].core)
  {
  }

  lemma LastHas(s: Items)
    requires s != []
    ensures Has(s, s[|s| - 1].core)
  {
  }

  lemma LastOnce(s: Items)
    requires s != [] && Strict(s)
    ensures !Has(s[..|s| - 1], s[|s| - 1].core)
  {
  }

  lemma NotBoth(x: Core, y: Core)
    ensures !(Before(x, y) && Before(y, x)) && !Before(x, x)
  {
  }

  // ------------------------------------------------------------ the sorted list

  /** A permutation has the same items. */
  lemma PermSame(s: Items, t: Items)
    requires multiset(s) == multiset(t)
    ensures |s| == |t|
    ensures forall x :: x in s <==> x in t
  {
    assert |multiset(s)| == |s| && |multiset(t)| == |t|;
    forall x ensures x in s <==> x in t {
      assert x in s <==> x in multiset(s);
      assert x in t <==> x in multiset(t);
    }
  }

  lemma {:induction false} Once(s: Items, x: Item)
    requires DistinctCores(s)
    ensures multiset(s)[x] <= 1
  {
    if s != [] {
      var init, y := s[..|s| - 1], s[|s| - 1];
      assert s == init + [y];
      Once(init, x);
      if x == y {
        assert y !in init;
      }
    }
  }

  lemma Twice(s: Items, i: nat, j: nat)
    requires i < j < |s| && s[i] == s[j]
    ensures multiset(s)[s[i]] >= 2
  {
    assert s == s[..j] + s[j..] && s[i] in s[..j] && s[j] in s[j..];
  }

  lemma PermDistinct(s: Items, t: Items)
    requires multiset(s) == multiset(t) && DistinctCores(s)
    ensures DistinctCores(t)
  {
    PermSame(s, t);
    forall i, j | 0 <= i < j < |t| ensures t[i].core != t[j].core {
      assert t[i] in s && t[j] in s;
      if t[i] == t[j] {
        Twice(t, i, j);
        Once(s, t[i]);
      }
    }
  }

  lemma PermHas(s: Items, t: Items, c: Core)
    requires forall x :: x in s <==> x in t
    ensures Has(s, c) <==> Has(t, c)
    ensures forall a :: HasLook(s, c, a) <==> HasLook(t, c, a)
  {
    if i :| 0 <= i < |s| && s[i].core == c { assert s[i] in t; }
    if i :| 0 <= i < |t| && t[i].core == c { assert t[i] in s; }
    forall a ensures HasLook(s, c, a) <==> HasLook(t, c, a) {
      if i :| 0 <= i < |s| && s[i].core == c && a in s[i].la { assert s[i] in t; }
      if i :| 0 <= i < |t| && t[i].core == c && a in t[i].la { assert t[i] in s; }
    }
  }

  lemma PermList(g: Grammar, f: Sets, kernel: Items, s: Items, t: Items)
    requires multiset(s) == multiset(t) && ListOf(g, f, kernel, s)
    ensures ListOf(g, f, kernel, t)
  {
    hide Looks, Has, HasLook, Listed;
    PermSame(s, t);
    PermDistinct(s, t);
    forall c ensures Has(s, c) <==> Has(t, c)
      ensures forall a :: HasLook(s, c, a) <==> HasLook(t, c, a)
    {
      PermHas(s, t, c);
    }
    forall i | 0 <= i < |t| ensures ItemOk(g, t[i]) {
      assert t[i] in s;
    }
  }

  /** The list of a state in order: what closure, kclosure and the sort leave behind. */
  method SortedList(st: SymbolTable, kernel: Items) returns (ok: bool, list: Items)
    requires st.g.Valid() && InRange(st.g, st.first) && GoalFree(st.g) && KernelOk(st.g, kernel)
    ensures ok <==> !MoreThan(ListCores(st.g, AsState(kernel).kernel), MAXCLOSE)
    ensures ok ==> ListOf(st.g, st.first, kernel, list) && Sorted(list)
  {
    hide Grammar.Valid, InRange, GoalFree, KernelOk, Closing, AllServed, ListOf, Sorted, MoreThan, AsState,
      ListCores, Movable;
    list := [];
    var items;
    KernelDistinct(st.g, kernel);
    ok, items := Closure(st, kernel);
    if !ok {
      OpenedListed(st.g, kernel, MAXCLOSE);
      return;
    }
    ClosingSize(st.g, st.first, kernel, items);
    ListMade(st.g, st.first, kernel, items);
    var all;
    ok, all := KClosure(kernel, items);
    if !ok { return; }
    ListSize(st.g, st.first, kernel, all);
    var a := new Item[|all|](i requires 0 <= i < |all| => all[i]);
    assert a[..] == all;
    SSort(a);
    list := a[..];
    PermList(st.g, st.first, kernel, all, list);
  }

  lemma ListSize(g: Grammar, f: Sets, kernel: Items, list: Items)
    requires ListOf(g, f, kernel, list)
    ensures !MoreThan(ListCores(g, AsState(kernel).kernel), MAXCLOSE)
  {
    hide Looks, Listed, MoreThan, ListCores;
    var k := AsState(kernel).kernel;
    forall c | c in ListCores(g, k) ensures Has(list, c) {
      ListedIn(g, kernel, c);
    }
    FewItems(list, ListCores(g, k));
    FewerThan(ListCores(g, k), |list|, MAXCLOSE);
  }

  lemma FewerThan(cores: iset<Core>, m: nat, n: nat)
    requires m <= n && !MoreThan(cores, m)
    ensures !MoreThan(cores, n)
  {
  }

  lemma ClosingSize(g: Grammar, f: Sets, kernel: Items, items: Items)
    requires Closing(g, f, kernel, items)
    ensures |items| <= MAXCLOSE
  {
  }

  // ----------------------------------------------------------------- groups

  /** No embedded actions are left, and all symbols are good. */
  ghost predicate Plain(g: Grammar) {
    g.Valid() && forall x, p, k | p in g.Prods(x) && 0 <= k < |p.rhs| :: !IsAct(p.rhs[k])
  }

  /** The items with their dots moved over the next symbol. */
  function MovedItems(s: Items): (r: Items)
    ensures |r| == |s| && forall i | 0 <= i < |s| :: r[i] == Item(s[i].core.Moved(), s[i].la)
  {
    if s == [] then [] else MovedItems(s[..|s| - 1]) + [Item(s[|s| - 1].core.Moved(), s[|s| - 1].la)]
  }

  /** The items from `lo` to `hi` are those of the list with `x` to the right of the dot. */
  predicate IsGroup(list: Items, lo: nat, hi: nat, x: Symbol) {
    && lo < hi <= |list| && x > 0
    && (forall i | 0 <= i < |list| :: RightOfDot(list[i].core) == x <==> lo <= i < hi)
  }

  lemma NextIsPositive(g: Grammar, c: Core)
    requires Plain(g) && CoreOk(g, c)
    ensures c.AtEnd() <==> RightOfDot(c) == 0
    ensures !c.AtEnd() ==> c.Next() > 0 && (IsTerm(c.Next()) || IsNonterm(c.Next()))
  {
    if !c.AtEnd() {
      assert g.ValidProduction(c.prod.lhs, c.prod) && c.Next() in c.prod.rhs;
      assert g.ValidSymbol(c.Next());
    }
  }

  lemma ListFacts(g: Grammar, f: Sets, kernel: Items, list: Items)
    requires ListOf(g, f, kernel, list)
    ensures DistinctCores(list) && ItemsOk(g, list)
    ensures forall c :: Has(list, c) <==> Listed(g, kernel, c)
    ensures forall c, a | Has(list, c) :: HasLook(list, c, a) <==> Looks(g, f, AsState(kernel), c, a)
  {
    hide Looks, Listed;
  }

  lemma ListAt(g: Grammar, f: Sets, kernel: Items, list: Items, c: Core)
    requires ListOf(g, f, kernel, list)
    ensures Has(list, c) <==> Listed(g, kernel, c)
    ensures Has(list, c) ==> forall a :: HasLook(list, c, a) <==> Looks(g, f, AsState(kernel), c, a)
    ensures ItemsOk(g, list)
  {
    hide Looks, Listed;
  }

  lemma StateLooks(kernel: Items)
    ensures forall x | x in AsState(kernel).looks :: x.0 in AsState(kernel).kernel
  {
    forall x | x in AsState(kernel).looks ensures x.0 in AsState(kernel).kernel {
      LookHas(kernel, x.0, x.1);
    }
  }

  /** A group, moved, is the state that the transition on its symbol leads to. */
  lemma GroupKernel(g: Grammar, f: Sets, kernel: Items, list: Items, lo: nat, hi: nat, x: Symbol)
    requires Plain(g) && ListOf(g, f, kernel, list) && IsGroup(list, lo, hi, x)
    ensures AsState(MovedItems(list[lo..hi])) == Goto(g, f, AsState(kernel), x)
  {
    hide Looks, Plain, InClosure, ListOf, KernelAfter, LooksAfter, Has, HasLook;
    var s, moved := AsState(kernel), MovedItems(list[lo..hi]);
    var t := Goto(g, f, s, x);
    forall c ensures c in AsState(moved).kernel <==> c in t.kernel {
      GroupCore(g, f, kernel, list, lo, hi, x, c);
    }
    forall y ensures y in AsState(moved).looks <==> y in t.looks {
      GroupLook(g, f, kernel, list, lo, hi, x, y.0, y.1);
      assert y == (y.0, y.1);
    }
  }

  /** One item of a moved group, and the item it comes from. */
  lemma GroupCore(g: Grammar, f: Sets, kernel: Items, list: Items, lo: nat, hi: nat, x: Symbol, c: Core)
    requires Plain(g) && ListOf(g, f, kernel, list) && IsGroup(list, lo, hi, x)
    ensures Has(MovedItems(list[lo..hi]), c) <==> KernelAfter(g, AsState(kernel), x, c)
  {
    hide Looks, Plain, InClosure, Core.AtEnd, Core.Next, AsState, ListOf;
    var s, moved := AsState(kernel), MovedItems(list[lo..hi]);
    if i :| 0 <= i < |moved| && moved[i].core == c {
      ListAt(g, f, kernel, list, list[lo + i].core);
      InGroup(g, list, lo, hi, x, lo + i);
    }
    if c0 :| Shifts(c0, x, c) && InClosure(g, s.kernel, c0) {
      ListAt(g, f, kernel, list, c0);
      var i := GroupIndex(list, lo, hi, x, c0);
      assert moved[i - lo].core == c;
    }
  }

  lemma GroupLook(g: Grammar, f: Sets, kernel: Items, list: Items, lo: nat, hi: nat, x: Symbol, c: Core, a: Symbol)
    requires Plain(g) && ListOf(g, f, kernel, list) && IsGroup(list, lo, hi, x)
    ensures HasLook(MovedItems(list[lo..hi]), c, a) <==> LooksAfter(g, f, AsState(kernel), x, c, a)
  {
    hide Looks, Plain, InClosure, Core.AtEnd, Core.Next, AsState, ListOf;
    var s, moved := AsState(kernel), MovedItems(list[lo..hi]);
    if i :| 0 <= i < |moved| && moved[i].core == c && a in moved[i].la {
      ListAt(g, f, kernel, list, list[lo + i].core);
      InGroup(g, list, lo, hi, x, lo + i);
      assert HasLook(list, list[lo + i].core, a);
    }
    if c0 :| Shifts(c0, x, c) && Looks(g, f, s, c0, a) {
      StateLooks(kernel);
      LooksListed(g, f, s, c0, a);
      ListAt(g, f, kernel, list, c0);
      var i :| 0 <= i < |list| && list[i].core == c0 && a in list[i].la;
      GroupSame(list, lo, hi, x, i);
      assert moved[i - lo].core == c && a in moved[i - lo].la;
    }
  }

  lemma InGroup(g: Grammar, list: Items, lo: nat, hi: nat, x: Symbol, i: nat)
    requires Plain(g) && ItemsOk(g, list) && IsGroup(list, lo, hi, x) && lo <= i < hi
    ensures Shifts(list[i].core, x, list[i].core.Moved())
  {
    assert ItemOk(g, list[i]);
    NextIsPositive(g, list[i].core);
  }

  lemma GroupIndex(list: Items, lo: nat, hi: nat, x: Symbol, c0: Core) returns (i: nat)
    requires IsGroup(list, lo, hi, x) && Has(list, c0) && Shifts(c0, x, c0.Moved())
    ensures lo <= i < hi && list[i].core == c0
  {
    var j :| 0 <= j < |list| && list[j].core == c0;
    i := j;
  }

  lemma GroupSame(list: Items, lo: nat, hi: nat, x: Symbol, i: nat)
    requires IsGroup(list, lo, hi, x) && i < |list| && Shifts(list[i].core, x, list[i].core.Moved())
    ensures lo <= i < hi
  {
  }

  /** Only items of the closure have lookaheads, if that is so in the kernel. */
  lemma {:induction false} LooksListed(g: Grammar, f: Sets, s: Lr1, c: Core, a: Symbol)
    requires Looks(g, f, s, c, a) && forall x | x in s.looks :: x.0 in s.kernel
    ensures InClosure(g, s.kernel, c)
  {
    var n: nat :| LookIn(g, f, s, c, a, n);
    LooksListedIn(g, f, s, c, a, n);
  }

  lemma {:induction false} LooksListedIn(g: Grammar, f: Sets, s: Lr1, c: Core, a: Symbol, n: nat)
    requires LookIn(g, f, s, c, a, n) && forall x | x in s.looks :: x.0 in s.kernel
    ensures InClosure(g, s.kernel, c)
    decreases n
  {
    hide InClosure;
    if n == 0 {
      assert (c, a).0 in s.kernel;
      InKernel(g, s.kernel, c);
    } else {
      var c0 :| LookFrom(g, f, s, c0, c, a, n);
      if !(InClosure(g, s.kernel, c0) && a in Spontaneous(g, f, c0)) {
        LooksListedIn(g, f, s, c0, a, n - 1);
      }
      OpensInClosure(g, s.kernel, c0, c);
    }
  }

  /** A group makes a kernel: sorted, without duplicates, with no dot in front. */
  lemma GroupOk(g: Grammar, f: Sets, kernel: Items, list: Items, lo: nat, hi: nat, x: Symbol)
    requires Plain(g) && ListOf(g, f, kernel, list) && Sorted(list) && IsGroup(list, lo, hi, x)
    ensures KernelOk(g, MovedItems(list[lo..hi])) && Strict(MovedItems(list[lo..hi]))
    ensures forall i | 0 <= i < hi - lo :: MovedItems(list[lo..hi])[i].core.dot > 0
  {
    hide Looks, Plain, Listed;
    var moved := MovedItems(list[lo..hi]);
    forall i | 0 <= i < |moved| ensures ItemOk(g, moved[i]) {
      assert ItemOk(g, list[lo + i]);
      InGroup(g, list, lo, hi, x, lo + i);
    }
    forall i, j | 0 <= i < j < |moved| ensures Before(moved[i].core, moved[j].core) {
      assert ItemLeq(list[lo + i], list[lo + j]) && ItemOk(g, list[lo + i]) && ItemOk(g, list[lo + j]);
      SameNumber(g, list[lo + i].core, list[lo + j].core);
    }
  }

  lemma SameNumber(g: Grammar, x: Core, y: Core)
    requires Plain(g) && CoreOk(g, x) && CoreOk(g, y) && x != y
    ensures x.prod.num != y.prod.num || x.dot != y.dot
  {
  }
}
