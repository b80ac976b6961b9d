/** The list of closure items of a state: exactly the items of its closure, each with
    exactly its lookaheads (closure and kclosure in compiler/parser/yystate.c). */
module LrList {
  import opened Grammars
  import opened Symbols
  import opened First
  import opened LrItems
  import opened LrClosure
  import opened LrSort

  /** The goal symbol is on no right-hand side. */
  ghost predicate GoalFree(g: Grammar) {
    forall x, p | p in g.Prods(x) :: g.goal !in p.rhs
  }

  ghost predicate KernelOk(g: Grammar, kernel: Items) {
    && ItemsOk(g, kernel) && DistinctCores(kernel)
    && forall i | 0 <= i < |kernel| :: kernel[i].core.dot > 0 || kernel[i].core.prod.lhs == g.goal
  }

  /** `all` lists the closure of the kernel, without the kernel items that end. */
  ghost predicate ListOf(g: Grammar, f: Sets, kernel: Items, all: Items) {
    && DistinctCores(all) && ItemsOk(g, all) && |all| <= MAXCLOSE
    && (forall c :: Has(all, c) <==> Listed(g, kernel, c))
    && (forall c, a | Has(all, c) :: HasLook(all, c, a) <==> Looks(g, f, AsState(kernel), c, a))
  }

  ghost predicate Listed(g: Grammar, kernel: Items, c: Core) {
    InClosure(g, AsState(kernel).kernel, c) && !(c.AtEnd() && Has(kernel, c))
  }

  /** The closure of a kernel, without the kernel items that end. */
  ghost function ListCores(g: Grammar, k: iset<Core>): iset<Core> {
    iset c: Core | InClosure(g, k, c) && !(c.AtEnd() && c in k)
  }

  // ------------------------------------------------------------ the closure items

  lemma {:induction false} ClosureCoreOk(g: Grammar, kernel: Items, c: Core, n: nat)
    requires g.Valid() && ItemsOk(g, kernel) && CoreIn(g, AsState(kernel).kernel, c, n)
    ensures CoreOk(g, c)
    decreases n
  {
    if n == 0 {
      var i :| 0 <= i < |kernel| && kernel[i].core == c;
      assert ItemOk(g, kernel[i]);
    } else {
      var c0 :| CoreIn(g, AsState(kernel).kernel, c0, n - 1) && Opens(g, c0, c);
      assert g.ValidProduction(c0.Next(), c.prod);
    }
  }

  lemma InClosureOk(g: Grammar, kernel: Items, c: Core)
    requires g.Valid() && ItemsOk(g, kernel) && InClosure(g, AsState(kernel).kernel, c)
    ensures CoreOk(g, c)
  {
    var n: nat :| CoreIn(g, AsState(kernel).kernel, c, n);
    ClosureCoreOk(g, kernel, c, n);
  }

  /** What is opened is not in the kernel. */
  lemma OpenedOutside(g: Grammar, kernel: Items, c: Core)
    requires g.Valid() && GoalFree(g) && KernelOk(g, kernel) && Opened(g, AsState(kernel).kernel, c)
    ensures !Has(kernel, c) && c.dot == 0
  {
    hide InClosure, GoalFree;
    var c0 :| InClosure(g, AsState(kernel).kernel, c0) && Opens(g, c0, c);
    InClosureOk(g, kernel, c0);
    assert g.ValidProduction(c0.Next(), c.prod) && c0.Next() in c0.prod.rhs;
    NotGoal(g, c0.prod);
  }

  lemma NotGoal(g: Grammar, p: Production)
    requires GoalFree(g) && p in g.Prods(p.lhs)
    ensures g.goal !in p.rhs
  {
  }

  lemma ServedHas(g: Grammar, f: Sets, items: Items, x: Item, c: Core)
    requires Served(g, f, items, x) && Opens(g, x.core, c)
    ensures Has(items, c) && forall a | a in Given(g, f, x) :: HasLook(items, c, a)
  {
    hide Given;
    assert c == Core(c.prod, 0) && ServedFor(g, f, items, x, c.prod);
    var j :| 0 <= j < |items| && items[j].core == Core(c.prod, 0) && Given(g, f, x) <= items[j].la;
  }

  /** Of the kernel and the closure items together, everything that is opened is there. */
  lemma BothClosed(g: Grammar, f: Sets, kernel: Items, items: Items, c0: Core, c: Core)
    requires AllServed(g, f, kernel, items) && AllServed(g, f, items, items)
    requires Opens(g, c0, c) && (Has(kernel, c0) || Has(items, c0))
    ensures Has(items, c)
    ensures forall a |
      a in Spontaneous(g, f, c0) || (PassesOn(g, f, c0) && (HasLook(kernel, c0, a) || HasLook(items, c0, a))) ::
      HasLook(items, c, a)
  {
    hide Served, Spontaneous, PassesOn;
    if i :| 0 <= i < |kernel| && kernel[i].core == c0 {
      ServedHas(g, f, items, kernel[i], c);
    }
    if i :| 0 <= i < |items| && items[i].core == c0 {
      ServedHas(g, f, items, items[i], c);
    }
    forall a | PassesOn(g, f, c0) && (HasLook(kernel, c0, a) || HasLook(items, c0, a)) ensures HasLook(items, c, a) {
      if HasLook(kernel, c0, a) {
        var i :| 0 <= i < |kernel| && kernel[i].core == c0 && a in kernel[i].la;
        ServedHas(g, f, items, kernel[i], c);
        assert a in Given(g, f, kernel[i]);
      } else {
        var i :| 0 <= i < |items| && items[i].core == c0 && a in items[i].la;
        ServedHas(g, f, items, items[i], c);
        assert a in Given(g, f, items[i]);
      }
    }
  }

  ghost predicate InBoth(kernel: Items, items: Items, c: Core) { Has(kernel, c) || Has(items, c) }

  ghost predicate LookInBoth(kernel: Items, items: Items, c: Core, a: Symbol) {
    HasLook(kernel, c, a) || HasLook(items, c, a)
  }

  lemma LookHas(items: Items, c: Core, a: Symbol)
    requires HasLook(items, c, a)
    ensures Has(items, c)
  {
  }

  /** Nothing is missing from the closure items. */
  lemma ClosureComplete(g: Grammar, f: Sets, kernel: Items, items: Items)
    requires AllServed(g, f, kernel, items) && AllServed(g, f, items, items)
    ensures forall c | InClosure(g, AsState(kernel).kernel, c) :: InBoth(kernel, items, c)
    ensures forall c, a | Looks(g, f, AsState(kernel), c, a) :: LookInBoth(kernel, items, c, a)
  {
    hide Has, HasLook, AllServed, Spontaneous, PassesOn;
    var s := AsState(kernel);
    var all := iset c: Core | InBoth(kernel, items, c);
    var looks := iset c: Core, a: Symbol | LookInBoth(kernel, items, c, a) :: (c, a);
    forall c0, c1 | c0 in all && Opens(g, c0, c1) ensures c1 in all {
      BothClosed(g, f, kernel, items, c0, c1);
    }
    forall c0, c1, a |
      c0 in all && Opens(g, c0, c1) && (a in Spontaneous(g, f, c0) || (PassesOn(g, f, c0) && (c0, a) in looks))
      ensures (c1, a) in looks
    {
      BothClosed(g, f, kernel, items, c0, c1);
    }
    assert LooksClosed(g, f, all, looks);
    forall x | x in s.looks ensures x.0 in s.kernel {
      LookHas(kernel, x.0, x.1);
    }
    forall c | InClosure(g, s.kernel, c) ensures InBoth(kernel, items, c) {
      var n: nat :| CoreIn(g, s.kernel, c, n);
      ClosureWithin(g, s.kernel, all, c, n);
    }
    forall c, a | Looks(g, f, s, c, a) ensures LookInBoth(kernel, items, c, a) {
      var n: nat :| LookIn(g, f, s, c, a, n);
      LooksWithin(g, f, s, all, looks, c, a, n);
    }
  }

  // ---------------------------------------------------------------- kclosure

  function Movable(kernel: Items): Items {
    if kernel == [] then []
    else Movable(kernel[..|kernel| - 1]) + if kernel[|kernel| - 1].core.AtEnd() then [] else [kernel[|kernel| - 1]]
  }

  lemma HasSnoc(s: Items, x: Item, c: Core)
    ensures Has(s + [x], c) <==> Has(s, c) || x.core == c
    ensures forall a :: HasLook(s + [x], c, a) <==> HasLook(s, c, a) || (x.core == c && a in x.la)
  {
    assert (s + [x])[|s|] == x;
    if i :| 0 <= i < |s| && s[i].core == c {
      assert (s + [x])[i] == s[i];
    }
    forall a | HasLook(s, c, a) ensures HasLook(s + [x], c, a) {
      var i :| 0 <= i < |s| && s[i].core == c && a in s[i].la;
      assert (s + [x])[i] == s[i];
    }
  }

  lemma {:induction false} MovableHas(kernel: Items, c: Core)
    ensures Has(Movable(kernel), c) <==> Has(kernel, c) && !c.AtEnd()
    ensures forall a :: HasLook(Movable(kernel), c, a) <==> HasLook(kernel, c, a) && !c.AtEnd()
  {
    hide Has, HasLook;
    if kernel != [] {
      var init, x := kernel[..|kernel| - 1], kernel[|kernel| - 1];
      assert kernel == init + [x];
      MovableHas(init, c);
      HasSnoc(init, x, c);
      HasSnoc(Movable(init), x, c);
      assert Movable(init) + [] == Movable(init);
    } else {
      NothingHas(c);
    }
  }

  lemma NothingHas(c: Core)
    ensures !Has([], c) && forall a :: !HasLook([], c, a)
  {
  }

  lemma {:induction false} MovableDistinct(kernel: Items)
    requires DistinctCores(kernel)
    ensures DistinctCores(Movable(kernel))
  {
    if kernel != [] {
      var init, x := kernel[..|kernel| - 1], kernel[|kernel| - 1];
      MovableDistinct(init);
      forall i | 0 <= i < |Movable(init)| ensures Movable(init)[i].core != x.core {
        MovableHas(init, Movable(init)[i].core);
        assert Has(Movable(init), Movable(init)[i].core);
      }
    }
  }

  lemma HasConcat(s: Items, t: Items, c: Core)
    ensures Has(s + t, c) <==> Has(s, c) || Has(t, c)
    ensures forall a :: HasLook(s + t, c, a) <==> HasLook(s, c, a) || HasLook(t, c, a)
  {
    assert forall i | 0 <= i < |s| :: (s + t)[i] == s[i];
    assert forall i | 0 <= i < |t| :: (s + t)[|s| + i] == t[i];
  }

  lemma DistinctConcat(s: Items, t: Items)
    requires DistinctCores(s) && DistinctCores(t) && forall c :: !(Has(s, c) && Has(t, c))
    ensures DistinctCores(s + t)
  {
    forall i, j | 0 <= i < |s| && 0 <= j < |t| ensures s[i].core != t[j].core {
      assert Has(s, s[i].core);
    }
  }

  /** The closure items and the kernel items that move are the list of the state. */
  lemma ListMade(g: Grammar, f: Sets, kernel: Items, items: Items)
    requires GoalFree(g) && KernelOk(g, kernel) && Closing(g, f, kernel, items)
    requires AllServed(g, f, kernel, items) && AllServed(g, f, items, items)
    ensures |items + Movable(kernel)| <= MAXCLOSE ==> ListOf(g, f, kernel, items + Movable(kernel))
    ensures |items + Movable(kernel)| > MAXCLOSE ==> MoreThan(ListCores(g, AsState(kernel).kernel), MAXCLOSE)
  {
    hide Has, HasLook, AllServed, Looks, InClosure, GoalFree, Grammar.Valid, KernelOk, SoundItem, Opened, Movable,
      Sound;
    var s := AsState(kernel);
    var all := items + Movable(kernel);
    ClosureComplete(g, f, kernel, items);
    forall c ensures Has(items, c) ==> InClosure(g, s.kernel, c) && !Has(kernel, c)
      ensures forall a | HasLook(items, c, a) :: Looks(g, f, s, c, a)
      ensures Has(kernel, c) ==> InClosure(g, s.kernel, c)
    {
      ItemsSound(g, f, kernel, items, c);
      if Has(kernel, c) { InKernel(g, s.kernel, c); }
    }
    forall c, a | HasLook(kernel, c, a) ensures Looks(g, f, s, c, a) {
      LooksInKernel(g, f, s, c, a);
    }
    forall c ensures Has(all, c) <==> Listed(g, kernel, c) {
      HasConcat(items, Movable(kernel), c);
      MovableHas(kernel, c);
    }
    forall c, a | Has(all, c) ensures HasLook(all, c, a) <==> Looks(g, f, s, c, a) {
      HasConcat(items, Movable(kernel), c);
      MovableHas(kernel, c);
      if HasLook(items, c, a) { LookHas(items, c, a); }
      if HasLook(kernel, c, a) { LookHas(kernel, c, a); }
    }
    KernelDistinct(g, kernel);
    forall c ensures !(Has(items, c) && Has(Movable(kernel), c)) {
      MovableHas(kernel, c);
    }
    DistinctConcat(items, Movable(kernel));
    MovableOk(g, kernel);
    if |all| > MAXCLOSE {
      forall i | 0 <= i < |all| ensures all[i].core in ListCores(g, s.kernel) {
        HasAt(all, i);
        ListedIn(g, kernel, all[i].core);
      }
      ManyItems(all, ListCores(g, s.kernel), MAXCLOSE);
    }
  }

  lemma HasAt(s: Items, i: nat)
    requires i < |s|
    ensures Has(s, s[i].core)
  {
  }

  lemma ListedIn(g: Grammar, kernel: Items, c: Core)
    ensures Listed(g, kernel, c) <==> c in ListCores(g, AsState(kernel).kernel)
  {
    hide InClosure;
  }

  /** Everything that is opened is in the list. */
  lemma OpenedListed(g: Grammar, kernel: Items, n: nat)
    requires g.Valid() && GoalFree(g) && KernelOk(g, kernel) && MoreThan(OpenedCores(g, AsState(kernel).kernel), n)
    ensures MoreThan(ListCores(g, AsState(kernel).kernel), n)
  {
    hide InClosure, GoalFree, Grammar.Valid, KernelOk, Has, Opens;
    var k := AsState(kernel).kernel;
    var cs :| |cs| > n && Among(cs, OpenedCores(g, k));
    forall i | 0 <= i < |cs| ensures cs[i] in ListCores(g, k) {
      OpenedOutside(g, kernel, cs[i]);
      var c0 :| InClosure(g, k, c0) && Opens(g, c0, cs[i]);
      OpensInClosure(g, k, c0, cs[i]);
    }
    assert Among(cs, ListCores(g, k));
  }

  lemma KernelDistinct(g: Grammar, kernel: Items)
    requires KernelOk(g, kernel)
    ensures DistinctCores(kernel) && DistinctCores(Movable(kernel)) && ItemsOk(g, kernel)
  {
    MovableDistinct(kernel);
  }

  lemma {:induction false} MovableOk(g: Grammar, kernel: Items)
    requires ItemsOk(g, kernel)
    ensures ItemsOk(g, Movable(kernel))
  {
    if kernel != [] {
      MovableOk(g, kernel[..|kernel| - 1]);
    }
  }

  lemma ItemsSound(g: Grammar, f: Sets, kernel: Items, items: Items, c: Core)
    requires GoalFree(g) && KernelOk(g, kernel) && Closing(g, f, kernel, items)
    ensures Has(items, c) ==> InClosure(g, AsState(kernel).kernel, c) && !Has(kernel, c)
    ensures forall a | HasLook(items, c, a) :: Looks(g, f, AsState(kernel), c, a)
  {
    hide Looks, InClosure, GoalFree, Grammar.Valid, KernelOk, Opened, AsState;
    if i :| 0 <= i < |items| && items[i].core == c {
      assert SoundItem(g, f, AsState(kernel), items[i]);
      OpenedOutside(g, kernel, c);
    }
    forall a | HasLook(items, c, a) ensures Looks(g, f, AsState(kernel), c, a) {
      var i :| 0 <= i < |items| && items[i].core == c && a in items[i].la;
      assert SoundItem(g, f, AsState(kernel), items[i]);
    }
  }

  lemma {:induction false} MovableGrows(kernel: Items, i: nat)
    requires i <= |kernel|
    ensures |Movable(kernel[..i])| <= |Movable(kernel)|
    decreases |kernel|
  {
    if i < |kernel| {
      assert kernel[..|kernel| - 1][..i] == kernel[..i];
      MovableGrows(kernel[..|kernel| - 1], i);
    } else {
      assert kernel[..i] == kernel;
    }
  }

  /** kclosure: it fails if the list becomes too long. */
  method KClosure(kernel: Items, items: Items) returns (ok: bool, all: Items)
    requires |items| <= MAXCLOSE
    ensures ok <==> |items + Movable(kernel)| <= MAXCLOSE
    ensures ok ==> all == items + Movable(kernel)
  {
    all := items;
    for i := 0 to |kernel|
      invariant all == items + Movable(kernel[..i]) && |all| <= MAXCLOSE
    {
      assert kernel[..i + 1][..i] == kernel[..i];
      if !kernel[i].core.AtEnd() {
        if |all| == MAXCLOSE {
          MovableGrows(kernel, i + 1);
          return false, all;
        }
        all := all + [kernel[i]];
      }
    }
    assert kernel[..|kernel|] == kernel;
    ok := true;
  }
}
