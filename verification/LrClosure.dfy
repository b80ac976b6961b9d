/** closure, do_close and kclosure (compiler/parser/yystate.c): the closure of a state as an
    array of items whose lookahead sets grow. */
module LrClosure {
  import opened Grammars
  import opened Symbols
  import opened First
  import opened LrItems

  const MAXCLOSE: nat := 256

  datatype Item = Item(core: Core, la: set<Symbol>)

  type Items = seq<Item>

  predicate Has(items: Items, c: Core) {
    exists i | 0 <= i < |items| :: items[i].core == c
  }

  predicate HasLook(items: Items, c: Core, a: Symbol) {
    exists i | 0 <= i < |items| :: items[i].core == c && a in items[i].la
  }

  /** The kernel items of a state as an LR(1) state. */
  ghost function AsState(kernel: Items): Lr1 {
    Lr1(iset c: Core | Has(kernel, c), iset c: Core, a: Symbol | HasLook(kernel, c, a) :: (c, a))
  }

  predicate CoreOk(g: Grammar, c: Core) {
    c.prod in g.Prods(c.prod.lhs) && c.dot <= |c.prod.rhs|
  }

  predicate ItemOk(g: Grammar, x: Item) {
    CoreOk(g, x.core) && forall a | a in x.la :: 0 <= a <= g.currTerm
  }

  predicate ItemsOk(g: Grammar, items: Items) {
    forall i | 0 <= i < |items| :: ItemOk(g, items[i])
  }

  predicate DistinctCores(items: Items) {
    forall i, j | 0 <= i < j < |items| :: items[i].core != items[j].core
  }

  /** No production is closed over twice, and all dots are in front. */
  predicate Fresh(items: Items) {
    DistinctCores(items) && forall i | 0 <= i < |items| :: items[i].core.dot == 0
  }

  /** The lookaheads that an item gives to what it opens. */
  function Given(g: Grammar, f: Sets, x: Item): set<Symbol>
    requires !x.core.AtEnd()
  {
    Spontaneous(g, f, x.core) + if PassesOn(g, f, x.core) then x.la else {}
  }

  // ------------------------------------------------------------ one new lookahead set

  /** The same items, perhaps with more lookaheads, and perhaps more items. */
  predicate Extends(items: Items, items': Items) {
    |items| <= |items'| && forall i | 0 <= i < |items| :: items[i].core == items'[i].core && items[i].la <= items'[i].la
  }

  /** The item for production `p` has got the lookaheads `s`. */
  predicate Put(items: Items, items': Items, p: Production, s: set<Symbol>) {
    && Extends(items, items') && Fresh(items')
    && (exists j | 0 <= j < |items'| :: items'[j].core == Core(p, 0) && s <= items'[j].la)
    && (forall i | 0 <= i < |items'| ::
          (i < |items| && items'[i] == items[i]) ||
          (items'[i].core == Core(p, 0) && items'[i].la <= (if i < |items| then items[i].la else {}) + s))
  }

  function Missing(g: Grammar, items: Items): set<(int, Symbol)> {
    set i, a | 0 <= i < |items| && 0 <= a <= g.currTerm && a !in items[i].la :: (i, a)
  }

  /** Something has been added. */
  predicate More(g: Grammar, items: Items, items': Items) {
    |items| < |items'| || (|items| == |items'| && Missing(g, items') < Missing(g, items))
  }

  lemma MissingShrinks(g: Grammar, items: Items, items': Items)
    requires Extends(items, items') && |items| == |items'|
    ensures Missing(g, items') <= Missing(g, items)
    ensures forall i, a | 0 <= i < |items| && 0 <= a <= g.currTerm && a in items'[i].la && a !in items[i].la ::
      Missing(g, items') < Missing(g, items)
  {
    forall i, a | 0 <= i < |items| && 0 <= a <= g.currTerm && a in items'[i].la && a !in items[i].la
      ensures Missing(g, items') < Missing(g, items)
    {
      assert (i, a) in Missing(g, items) && (i, a) !in Missing(g, items');
    }
  }

  lemma MoreTrans(g: Grammar, a: Items, b: Items, c: Items)
    requires Extends(a, b) && Extends(b, c) && (More(g, a, b) || a == b) && (More(g, b, c) || b == c)
    ensures Extends(a, c) && (More(g, a, c) || (a == b && b == c))
  {
  }

  /** add_lookahead. */
  method AddLookahead(dst: set<Symbol>, src: set<Symbol>) returns (d: set<Symbol>, did: bool)
    ensures d == dst + src && (did <==> d != dst)
  {
    d, did := dst, false;
    if src != {} && !(src <= dst) {
      d, did := dst + src, true;
      SubsetAbsorbs(dst, src);
    } else {
      SubsetAbsorbs(dst, src);
    }
  }

  lemma SubsetAbsorbs<T>(a: set<T>, b: set<T>)
    ensures a + b == a <==> b <= a
  {
    if a + b == a {
      forall x | x in b ensures x in a {
        assert x in a + b;
      }
    }
  }

  lemma NewMember<T>(a: set<T>, b: set<T>) returns (x: T)
    requires a + b != a
    ensures x in b && x !in a
  {
    SubsetAbsorbs(a, b);
    x :| x in b && x !in a;
  }

  /** in_closure_items: the item for the production, or -1. */
  method InClosureItems(p: Production, items: Items) returns (j: int)
    ensures -1 <= j < |items|
    ensures j >= 0 ==> items[j].core.prod == p
    ensures j == -1 ==> forall i | 0 <= i < |items| :: items[i].core.prod != p
  {
    for i := 0 to |items|
      invariant forall k | 0 <= k < i :: items[k].core.prod != p
    {
      if items[i].core.prod == p { return i; }
    }
    return -1;
  }

  /** Setting the lookaheads of the item for `p`, which is new or item `j`. */
  lemma PutItem(g: Grammar, items: Items, items': Items, j: nat, p: Production, s: set<Symbol>)
    requires Fresh(items) && j <= |items|
    requires if j < |items| then items[j].core == Core(p, 0) && items' == items[j := Item(Core(p, 0), items[j].la + s)]
             else items' == items + [Item(Core(p, 0), s)] && forall i | 0 <= i < |items| :: items[i].core.prod != p
    requires forall a | a in s :: 0 <= a <= g.currTerm
    ensures Put(items, items', p, s) && (items' == items || More(g, items, items'))
  {
    assert items'[j].core == Core(p, 0) && s <= items'[j].la;
    if j < |items| {
      if items[j].la + s == items[j].la {
        assert items' == items;
      } else {
        var a := NewMember(items[j].la, s);
        MissingShrinks(g, items, items');
      }
    }
  }

  /** The item of production `p` gets the lookaheads `s`: the body of the loop of do_close,
      when they are known. */
  method PutLookaheads(items: Items, ghost g: Grammar, j0: int, p: Production, s: set<Symbol>)
    returns (items': Items, did: bool)
    requires Fresh(items) && -1 <= j0 < |items|
    requires j0 >= 0 ==> items[j0].core == Core(p, 0)
    requires j0 == -1 ==> forall i | 0 <= i < |items| :: items[i].core.prod != p
    requires forall a | a in s :: 0 <= a <= g.currTerm
    ensures Put(items, items', p, s) && |items'| == |items| + (if j0 == -1 then 1 else 0)
    ensures if did then More(g, items, items') else items' == items
  {
    items' := items;
    var j := j0;
    did := false;
    if j == -1 {
      j := |items|;
      items' := items + [Item(Core(p, 0), {})];
      did := true;
    }
    var la, grown := AddLookahead(items'[j].la, s);
    items' := items'[j := Item(items'[j].core, la)];
    did := did || grown;
    assert {} + s == s;
    PutItem(g, items, items', j, p, s);
    if !did {
      assert items' == items;
    }
  }

  // -------------------------------------------------------------- soundness

  ghost predicate Opened(g: Grammar, k: iset<Core>, c: Core) {
    exists c0 :: InClosure(g, k, c0) && Opens(g, c0, c)
  }

  /** The items that the closure adds to a kernel. */
  ghost function OpenedCores(g: Grammar, k: iset<Core>): iset<Core> {
    iset c: Core | Opened(g, k, c)
  }

  /** `cs` are different members of `cores`. */
  ghost predicate Among(cs: seq<Core>, cores: iset<Core>) {
    (forall i, j | 0 <= i < j < |cs| :: cs[i] != cs[j]) && forall i | 0 <= i < |cs| :: cs[i] in cores
  }

  /** There are more than `n` cores. */
  ghost predicate MoreThan(cores: iset<Core>, n: nat) {
    exists cs :: |cs| > n && Among(cs, cores)
  }

  function Cores(items: Items): seq<Core> {
    seq(|items|, i requires 0 <= i < |items| => items[i].core)
  }

  lemma ManyItems(items: Items, cores: iset<Core>, n: nat)
    requires |items| > n && DistinctCores(items) && forall i | 0 <= i < |items| :: items[i].core in cores
    ensures MoreThan(cores, n)
  {
    assert Among(Cores(items), cores);
  }

  lemma FewItems(items: Items, cores: iset<Core>)
    requires forall c | c in cores :: Has(items, c)
    ensures !MoreThan(cores, |items|)
  {
    if cs :| |cs| > |items| && Among(cs, cores) {
      DistinctFit(cs, items);
    }
  }

  /** Different cores are in different places. */
  lemma {:induction false} DistinctFit(cs: seq<Core>, items: Items)
    requires (forall i, j | 0 <= i < j < |cs| :: cs[i] != cs[j]) && forall i | 0 <= i < |cs| :: Has(items, cs[i])
    ensures |cs| <= |items|
  {
    if cs != [] {
      var last := cs[|cs| - 1];
      assert Has(items, last);
      var j :| 0 <= j < |items| && items[j].core == last;
      var rest := items[..j] + items[j + 1..];
      forall i | 0 <= i < |cs| - 1 ensures Has(rest, cs[i]) {
        assert Has(items, cs[i]);
        var k :| 0 <= k < |items| && items[k].core == cs[i];
        assert rest[if k < j then k else k - 1].core == cs[i];
      }
      DistinctFit(cs[..|cs| - 1], rest);
    }
  }

  /** There is no room for what an item opens. */
  lemma NoRoom(g: Grammar, f: Sets, kernel: Items, items: Items, src: Source, p: Production)
    requires Closing(g, f, kernel, items) && SourceOk(kernel, items, src) && |items| == MAXCLOSE
    requires Opens(g, At(kernel, items, src).core, Core(p, 0)) && forall i | 0 <= i < |items| :: items[i].core.prod != p
    ensures MoreThan(OpenedCores(g, AsState(kernel).kernel), MAXCLOSE)
  {
    hide Looks, InClosure, Grammar.Valid, InRange, ItemsOk;
    var k := AsState(kernel).kernel;
    SourceSound(g, f, kernel, items, src);
    var more := items + [Item(Core(p, 0), {})];
    forall i | 0 <= i < |more| ensures more[i].core in OpenedCores(g, k) {
      if i == |items| {
        assert Opened(g, k, Core(p, 0));
      } else {
        assert Opened(g, k, items[i].core);
      }
    }
    ManyItems(more, OpenedCores(g, k), MAXCLOSE);
  }

  ghost predicate SoundItem(g: Grammar, f: Sets, s: Lr1, x: Item) {
    InClosure(g, s.kernel, x.core) && forall a | a in x.la :: Looks(g, f, s, x.core, a)
  }

  ghost predicate Sound(g: Grammar, f: Sets, s: Lr1, items: Items) {
    forall i | 0 <= i < |items| :: SoundItem(g, f, s, items[i]) && Opened(g, s.kernel, items[i].core)
  }

  lemma PutSound(g: Grammar, f: Sets, s: Lr1, items: Items, items': Items, x: Item, p: Production)
    requires Sound(g, f, s, items) && SoundItem(g, f, s, x) && Opens(g, x.core, Core(p, 0))
    requires Put(items, items', p, Given(g, f, x))
    ensures Sound(g, f, s, items')
  {
    hide Looks, InClosure;
    var c := Core(p, 0);
    OpensInClosure(g, s.kernel, x.core, c);
    forall i | 0 <= i < |items'| ensures SoundItem(g, f, s, items'[i]) && Opened(g, s.kernel, items'[i].core) {
      if !(i < |items| && items'[i] == items[i]) {
        forall a | a in items'[i].la ensures Looks(g, f, s, c, a) {
          if i < |items| && a in items[i].la {
            assert SoundItem(g, f, s, items[i]);
          } else if a in Spontaneous(g, f, x.core) {
            LooksSpontaneous(g, f, s, x.core, c, a);
          } else {
            LooksPassedOn(g, f, s, x.core, c, a);
          }
        }
      }
    }
  }

  lemma KernelSound(g: Grammar, f: Sets, kernel: Items, i: nat)
    requires i < |kernel|
    ensures SoundItem(g, f, AsState(kernel), kernel[i])
  {
    var s := AsState(kernel);
    assert Has(kernel, kernel[i].core);
    InKernel(g, s.kernel, kernel[i].core);
    forall a | a in kernel[i].la ensures Looks(g, f, s, kernel[i].core, a) {
      assert HasLook(kernel, kernel[i].core, a);
      LooksInKernel(g, f, s, kernel[i].core, a);
    }
  }

  // --------------------------------------------------------------- do_close

  /** What do_close is applied to: an item of the kernel or of the closure so far. */
  datatype Source = OfKernel(i: nat) | OfClosure(i: nat)

  predicate SourceOk(kernel: Items, items: Items, src: Source) {
    src.i < if src.OfKernel? then |kernel| else |items|
  }

  function At(kernel: Items, items: Items, src: Source): Item
    requires SourceOk(kernel, items, src)
  {
    if src.OfKernel? then kernel[src.i] else items[src.i]
  }

  /** Everything that `x` opens is there, with the lookaheads it gives. */
  ghost predicate Served(g: Grammar, f: Sets, items: Items, x: Item) {
    forall p | Opens(g, x.core, Core(p, 0)) :: ServedFor(g, f, items, x, p)
  }

  predicate ServedFor(g: Grammar, f: Sets, items: Items, x: Item, p: Production)
    requires !x.core.AtEnd()
  {
    exists j | 0 <= j < |items| :: items[j].core == Core(p, 0) && Given(g, f, x) <= items[j].la
  }

  /** What holds of the closure items at any time. */
  ghost predicate Closing(g: Grammar, f: Sets, kernel: Items, items: Items) {
    && g.Valid() && InRange(g, f) && ItemsOk(g, kernel) && ItemsOk(g, items)
    && Fresh(items) && |items| <= MAXCLOSE && Sound(g, f, AsState(kernel), items)
  }

  lemma GivenInRange(g: Grammar, f: Sets, x: Item)
    requires g.Valid() && InRange(g, f) && ItemOk(g, x) && !x.core.AtEnd()
    ensures forall a | a in Given(g, f, x) :: 0 <= a <= g.currTerm
  {
    assert g.ValidProduction(x.core.prod.lhs, x.core.prod);
    ScanInRange(g, f, x.core.Rest());
  }

  /** The lookaheads that an item gives, as do_close computes them. */
  method Lookaheads(st: SymbolTable, x: Item) returns (s: set<Symbol>)
    requires !x.core.AtEnd()
    ensures s == Given(st.g, st.first, x)
  {
    var rest := x.core.prod.rhs[x.core.dot + 1..];
    if rest == [] {
      s := x.la;
      assert Scan(st.g, st.first, []) == {};
    } else {
      var nullable;
      s, nullable := FirstRhs(st, {}, rest);
      s := s - {st.g.Epsilon()};
      if nullable {
        s := s + x.la;
      }
    }
  }

  /** The body of the loop of do_close; it fails if an item is missing and there is no room. */
  method CloseOver(st: SymbolTable, kernel: Items, items: Items, src: Source, p: Production)
    returns (ok: bool, items': Items, did: bool)
    requires Closing(st.g, st.first, kernel, items) && SourceOk(kernel, items, src)
    requires Opens(st.g, At(kernel, items, src).core, Core(p, 0))
    ensures ok ==> Closing(st.g, st.first, kernel, items') && Extends(items, items')
    ensures ok ==> if did then More(st.g, items, items') else items' == items
    ensures ok ==> ServedFor(st.g, st.first, items', At(kernel, items, src), p)
    ensures ok <==> |items| < MAXCLOSE || exists i | 0 <= i < |items| :: items[i].core.prod == p
    ensures !ok ==> MoreThan(OpenedCores(st.g, AsState(kernel).kernel), MAXCLOSE)
  {
    hide Grammar.Valid, InRange, Sound, More, Given, MoreThan, OpenedCores, AsState;
    ok, items', did := true, items, false;
    var x := At(kernel, items, src);
    var j := InClosureItems(p, items);
    if j == -1 && |items| == MAXCLOSE {
      NoRoom(st.g, st.first, kernel, items, src, p);
      return false, items, false;
    }
    assert ItemOk(st.g, x);
    GivenInRange(st.g, st.first, x);
    var s := Lookaheads(st, x);
    assert j >= 0 ==> items[j].core == Core(p, 0);
    items', did := PutLookaheads(items, st.g, j, p, s);
    SourceSound(st.g, st.first, kernel, items, src);
    PutSound(st.g, st.first, AsState(kernel), items, items', x, p);
    PutInRange(st.g, items, items', p, s, x.core);
  }

  lemma SourceSound(g: Grammar, f: Sets, kernel: Items, items: Items, src: Source)
    requires Closing(g, f, kernel, items) && SourceOk(kernel, items, src)
    ensures SoundItem(g, f, AsState(kernel), At(kernel, items, src))
  {
    hide SoundItem;
    if src.OfKernel? {
      KernelSound(g, f, kernel, src.i);
    }
  }

  lemma PutInRange(g: Grammar, items: Items, items': Items, p: Production, s: set<Symbol>, c0: Core)
    requires g.Valid() && ItemsOk(g, items) && Put(items, items', p, s) && (forall a | a in s :: 0 <= a <= g.currTerm)
    requires Opens(g, c0, Core(p, 0))
    ensures ItemsOk(g, items')
  {
    assert g.ValidProduction(c0.Next(), p);
  }

  lemma ServedAll(g: Grammar, f: Sets, items: Items, x: Item, chain: seq<Production>)
    requires !x.core.AtEnd() && chain == g.Prods(x.core.Next())
    requires forall i | 0 <= i < |chain| :: ServedFor(g, f, items, x, chain[i])
    ensures Served(g, f, items, x)
  {
    forall p | Opens(g, x.core, Core(p, 0)) ensures ServedFor(g, f, items, x, p) {
      assert p in chain;
    }
  }

  /** do_close. A kernel item is served for good; an item of the closure is served if
      nothing has changed. */
  method DoClose(st: SymbolTable, kernel: Items, items: Items, src: Source) returns (ok: bool, items': Items, did: bool)
    requires Closing(st.g, st.first, kernel, items) && SourceOk(kernel, items, src)
    ensures ok ==> Closing(st.g, st.first, kernel, items') && Extends(items, items')
    ensures ok ==> if did then More(st.g, items, items') else items' == items
    ensures ok && (did ==> src.OfKernel?) ==> Served(st.g, st.first, items', At(kernel, items, src))
    ensures !ok ==> MoreThan(OpenedCores(st.g, AsState(kernel).kernel), MAXCLOSE)
  {
    hide Closing, Served, More, ServedFor, CoreOk, MoreThan, OpenedCores, AsState;
    ok, items', did := true, items, false;
    var core := At(kernel, items, src).core;
    if core.AtEnd() || !IsNonterm(core.Next()) {
      ServedDone(st.g, st.first, items, At(kernel, items, src));
      return;
    }
    var chain := st.g.Prods(core.Next());
    for k := 0 to |chain|
      invariant Closing(st.g, st.first, kernel, items') && Extends(items, items')
      invariant if did then More(st.g, items, items') else items' == items
      invariant (did ==> src.OfKernel?) ==>
        forall i | 0 <= i < k :: ServedFor(st.g, st.first, items', At(kernel, items, src), chain[i])
    {
      assert At(kernel, items', src).core == core;
      assert (did ==> src.OfKernel?) ==> At(kernel, items', src) == At(kernel, items, src);
      var next, grown;
      ok, next, grown := CloseOver(st, kernel, items', src, chain[k]);
      if !ok { return; }
      ServedForExtends(st.g, st.first, items', next, At(kernel, items, src), chain);
      MoreTrans(st.g, items, items', next);
      items', did := next, did || grown;
    }
    if did ==> src.OfKernel? {
      ServedAll(st.g, st.first, items', At(kernel, items, src), chain);
    }
  }

  lemma ServedDone(g: Grammar, f: Sets, items: Items, x: Item)
    requires x.core.AtEnd() || !IsNonterm(x.core.Next())
    ensures Served(g, f, items, x)
  {
  }

  lemma ServedForExtends(g: Grammar, f: Sets, items: Items, items': Items, x: Item, chain: seq<Production>)
    requires !x.core.AtEnd() && Extends(items, items')
    ensures forall i | 0 <= i < |chain| && ServedFor(g, f, items, x, chain[i]) :: ServedFor(g, f, items', x, chain[i])
  {
    hide Given;
    forall i | 0 <= i < |chain| && ServedFor(g, f, items, x, chain[i]) ensures ServedFor(g, f, items', x, chain[i]) {
      var j :| 0 <= j < |items| && items[j].core == Core(chain[i], 0) && Given(g, f, x) <= items[j].la;
      assert items'[j].core == Core(chain[i], 0);
    }
  }

  lemma ServedExtends(g: Grammar, f: Sets, items: Items, items': Items, x: Item)
    requires Served(g, f, items, x) && Extends(items, items')
    ensures Served(g, f, items', x)
  {
    forall p | Opens(g, x.core, Core(p, 0)) ensures ServedFor(g, f, items', x, p) {
      ServedForExtends(g, f, items, items', x, [p]);
      assert ServedFor(g, f, items, x, [p][0]);
      assert ServedFor(g, f, items', x, [p][0]);
    }
  }

  // ----------------------------------------------------------------- closure

  ghost predicate AllServed(g: Grammar, f: Sets, all: Items, items: Items) {
    forall i | 0 <= i < |all| :: Served(g, f, items, all[i])
  }

  lemma AllServedExtends(g: Grammar, f: Sets, all: Items, items: Items, items': Items)
    requires AllServed(g, f, all, items) && Extends(items, items')
    ensures AllServed(g, f, all, items')
  {
    hide Served;
    forall i | 0 <= i < |all| ensures Served(g, f, items', all[i]) {
      ServedExtends(g, f, items, items', all[i]);
    }
  }

  /** closure: close the kernel items, then the items of the closure until nothing is added. */
  method Closure(st: SymbolTable, kernel: Items) returns (ok: bool, items: Items)
    requires st.g.Valid() && InRange(st.g, st.first) && ItemsOk(st.g, kernel)
    ensures ok ==> Closing(st.g, st.first, kernel, items)
    ensures ok ==> AllServed(st.g, st.first, kernel, items) && AllServed(st.g, st.first, items, items)
    ensures !ok ==> MoreThan(OpenedCores(st.g, AsState(kernel).kernel), MAXCLOSE)
  {
    hide Grammar.Valid, InRange, ItemsOk, Sound, Served, More, MoreThan, OpenedCores, AsState;
    items := [];
    var did := false;
    assert ItemsOk(st.g, []) && Sound(st.g, st.first, AsState(kernel), []) by {
      EmptyOk(st.g, st.first, AsState(kernel));
    }
    for i := 0 to |kernel|
      invariant Closing(st.g, st.first, kernel, items) && (!did ==> items == [])
      invariant AllServed(st.g, st.first, kernel[..i], items)
    {
      var next, grown;
      ok, next, grown := DoClose(st, kernel, items, OfKernel(i));
      if !ok { return; }
      AllServedExtends(st.g, st.first, kernel[..i], items, next);
      assert kernel[..i + 1] == kernel[..i] + [kernel[i]];
      items, did := next, did || grown;
    }
    assert kernel[..|kernel|] == kernel;
    while did
      invariant Closing(st.g, st.first, kernel, items) && AllServed(st.g, st.first, kernel, items)
      invariant !did ==> AllServed(st.g, st.first, items, items)
      decreases MAXCLOSE - |items|, Missing(st.g, items), did
    {
      var next;
      ok, next, did := ClosePass(st, kernel, items);
      if !ok { return; }
      AllServedExtends(st.g, st.first, kernel, items, next);
      MoreMeasure(st.g, items, next);
      items := next;
    }
    ok := true;
  }

  lemma EmptyOk(g: Grammar, f: Sets, s: Lr1)
    ensures ItemsOk(g, []) && Sound(g, f, s, [])
  {
  }

  lemma MoreMeasure(g: Grammar, items: Items, items': Items)
    ensures More(g, items, items') ==>
      |items| < |items'| || (|items| == |items'| && Missing(g, items') < Missing(g, items))
  {
  }

  /** One pass over the items that are in the closure when it begins. */
  method ClosePass(st: SymbolTable, kernel: Items, items: Items) returns (ok: bool, items': Items, did: bool)
    requires Closing(st.g, st.first, kernel, items)
    ensures ok ==> Closing(st.g, st.first, kernel, items') && Extends(items, items')
    ensures ok ==> if did then More(st.g, items, items') else items' == items && AllServed(st.g, st.first, items, items)
    ensures !ok ==> MoreThan(OpenedCores(st.g, AsState(kernel).kernel), MAXCLOSE)
  {
    hide Grammar.Valid, InRange, ItemsOk, Sound, Served, More, MoreThan, OpenedCores, AsState;
    ok, items', did := true, items, false;
    for i := 0 to |items|
      invariant Closing(st.g, st.first, kernel, items') && Extends(items, items')
      invariant if did then More(st.g, items, items') else items' == items
      invariant !did ==> forall k | 0 <= k < i :: Served(st.g, st.first, items, items[k])
    {
      var next, grown;
      ok, next, grown := DoClose(st, kernel, items', OfClosure(i));
      if !ok { return; }
      MoreTrans(st.g, items, items', next);
      items', did := next, did || grown;
    }
  }
}
