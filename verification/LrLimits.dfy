/** The limits of the LALR(1) builder, as sizes of the canonical LR(1) automaton of the
    grammar (the fixed arrays of compiler/parser/yystate.c). */
module LrLimits {
  import opened Grammars
  import opened Symbols
  import opened LrItems
  import opened LrClosure
  import opened LrSort
  import opened LrList
  import opened LrKernel
  import opened LrStates
  import opened LrSteps
  import opened LrTurns
  import opened LrTheorems
  import opened SetFacts

  /** Fine, or the limit for which the program gives up. */
  datatype Outcome = Fine | ClosureTooLarge | KernelTooLarge | TooManyStates | TooManyEpsilons | TooManyUnfinished

  /** The items of a closure that end, but for those of the kernel. */
  ghost function EndCores(g: Grammar, k: iset<Core>): iset<Core> {
    iset c: Core | c in ListCores(g, k) && c.AtEnd()
  }

  /** The states after the words `ws` have different kernels, and none is empty. */
  ghost predicate Apart(g: Grammar, f: Sets, start: Production, ws: seq<seq<Symbol>>) {
    && (forall i | 0 <= i < |ws| :: Canonical(g, f, start, ws[i]).kernel != iset{})
    && forall i, j | 0 <= i < j < |ws| :: Canonical(g, f, start, ws[i]).kernel != Canonical(g, f, start, ws[j]).kernel
  }

  /** The canonical LR(1) automaton has more than `n` different kernels. */
  ghost predicate MoreStates(g: Grammar, f: Sets, start: Production, n: nat) {
    exists ws :: |ws| > n && Apart(g, f, start, ws)
  }

  /** The canonical LR(1) automaton of the grammar is beyond the limit. */
  ghost predicate Exceeded(g: Grammar, f: Sets, start: Production, o: Outcome) {
    match o
    case Fine => false
    case ClosureTooLarge => exists w :: MoreThan(ListCores(g, Canonical(g, f, start, w).kernel), MAXCLOSE)
    case KernelTooLarge => exists w :: MoreThan(Canonical(g, f, start, w).kernel, MAXKERNEL)
    case TooManyEpsilons => exists w :: MoreThan(EndCores(g, Canonical(g, f, start, w).kernel), MAXEPSILON)
    case TooManyStates => MoreStates(g, f, start, MAXSTATE)
    case TooManyUnfinished => MoreStates(g, f, start, MAXUNFINISHED)
  }

  // ----------------------------------------------------------- when a limit is met

  lemma ClosureExceeds(g: Grammar, f: Sets, start: Production, kernel: Items)
    requires SoundKernel(g, f, start, kernel) && MoreThan(ListCores(g, AsState(kernel).kernel), MAXCLOSE)
    ensures Exceeded(g, f, start, ClosureTooLarge)
  {
    hide MoreThan, ListCores, Canonical, AsState, Canon;
    var w :| Reached(g, f, start, kernel, w);
    assert MoreThan(ListCores(g, Canonical(g, f, start, w).kernel), MAXCLOSE);
  }

  lemma KernelExceeds(g: Grammar, f: Sets, start: Production, kernel: Items)
    requires SoundKernel(g, f, start, kernel) && Strict(kernel) && |kernel| > MAXKERNEL
    ensures Exceeded(g, f, start, KernelTooLarge)
  {
    hide MoreThan, Canonical, Canon;
    var w :| Reached(g, f, start, kernel, w);
    StrictDistinct(kernel);
    ManyItems(kernel, AsState(kernel).kernel, MAXKERNEL);
    assert MoreThan(Canonical(g, f, start, w).kernel, MAXKERNEL);
  }

  lemma StrictDistinct(s: Items)
    requires Strict(s)
    ensures DistinctCores(s)
  {
    forall i, j | 0 <= i < j < |s| ensures s[i].core != s[j].core {
      assert Before(s[i].core, s[j].core);
    }
  }

  lemma EpsExceeds(g: Grammar, f: Sets, start: Production, kernel: Items, list: Items)
    requires SoundKernel(g, f, start, kernel) && ListOf(g, f, kernel, list) && MAXEPSILON < |list|
    requires forall i | 0 <= i <= MAXEPSILON :: list[i].core.prod.rhs == []
    ensures MoreThan(EndCores(g, AsState(kernel).kernel), MAXEPSILON)
    ensures Exceeded(g, f, start, TooManyEpsilons)
  {
    hide MoreThan, ListCores, Canonical, AsState, Canon, Looks, Listed;
    var w :| Reached(g, f, start, kernel, w);
    var k := AsState(kernel).kernel;
    var front := list[..MAXEPSILON + 1];
    forall i | 0 <= i < |front| ensures front[i].core in EndCores(g, k) {
      HasAt(list, i);
      ListedIn(g, kernel, list[i].core);
    }
    ManyItems(front, EndCores(g, k), MAXEPSILON);
    assert MoreThan(EndCores(g, Canonical(g, f, start, w).kernel), MAXEPSILON);
  }

  /** A state with few epsilon items. */
  lemma EpsFit(g: Grammar, f: Sets, kernel: Items, list: Items, n: nat)
    requires ListOf(g, f, kernel, list) && EpsPrefix(list, n) && n <= MAXEPSILON
    ensures !MoreThan(EndCores(g, AsState(kernel).kernel), MAXEPSILON)
  {
    hide Looks, Listed, MoreThan, ListCores, EpsPrefix;
    PrefixSame(list, n);
    var k := AsState(kernel).kernel;
    forall c | c in EndCores(g, k) ensures Has(list[..n], c) {
      ListedIn(g, kernel, c);
      PrefixHas(list, n, c);
    }
    FewItems(list[..n], EndCores(g, k));
    FewerThan(EndCores(g, k), n, MAXEPSILON);
  }

  // ------------------------------------------------------------- counting states

  ghost function WordOf(g: Grammar, f: Sets, start: Production, kernel: Items): seq<Symbol>
    requires SoundKernel(g, f, start, kernel)
  {
    var w :| Reached(g, f, start, kernel, w);
    w
  }

  ghost predicate Kernels(g: Grammar, f: Sets, start: Production, ks: seq<Items>) {
    && (forall i | 0 <= i < |ks| :: SoundKernel(g, f, start, ks[i]) && Strict(ks[i]) && ks[i] != [])
    && forall i, j | 0 <= i < j < |ks| :: !SameCores(ks[i], ks[j])
  }

  lemma KernelsApart(k: Items, m: Items)
    requires Strict(k) && Strict(m) && !SameCores(k, m)
    ensures AsState(k).kernel != AsState(m).kernel
  {
    hide Strict, SameCores, Has;
    if AsState(k).kernel == AsState(m).kernel {
      forall c ensures Has(k, c) <==> Has(m, c) {
        assert c in AsState(k).kernel <==> c in AsState(m).kernel;
      }
      SortedSame(k, m);
    }
  }

  lemma ManyKernels(g: Grammar, f: Sets, start: Production, ks: seq<Items>, n: nat)
    requires Kernels(g, f, start, ks) && |ks| > n
    ensures MoreStates(g, f, start, n)
  {
    hide SoundKernel, Canonical, Strict, SameCores, AsState;
    var ws := seq(|ks|, i requires 0 <= i < |ks| => WordOf(g, f, start, ks[i]));
    forall i | 0 <= i < |ws| ensures Canonical(g, f, start, ws[i]).kernel == AsState(ks[i]).kernel != iset{} {
      WordReaches(g, f, start, ks[i]);
    }
    forall i, j | 0 <= i < j < |ws|
      ensures Canonical(g, f, start, ws[i]).kernel != Canonical(g, f, start, ws[j]).kernel
    {
      KernelsApart(ks[i], ks[j]);
    }
    assert Apart(g, f, start, ws);
  }

  lemma WordReaches(g: Grammar, f: Sets, start: Production, k: Items)
    requires SoundKernel(g, f, start, k) && k != []
    ensures Canonical(g, f, start, WordOf(g, f, start, k)).kernel == AsState(k).kernel != iset{}
  {
    hide Canonical, Canon;
    assert Reached(g, f, start, k, WordOf(g, f, start, k));
    FirstHas(k);
    assert k[0].core in AsState(k).kernel;
  }

  function KernelsOf(a: Auto): (ks: seq<Items>)
    ensures |ks| == |a.states| && forall s | 0 <= s < |ks| :: ks[s] == a.states[s].kernel
  {
    seq(|a.states|, s requires 0 <= s < |a.states| => a.states[s].kernel)
  }

  /** A new kernel and the states that there are. */
  lemma StatesExceed(g: Grammar, f: Sets, start: Production, a: Auto, m: Items, n: nat)
    requires Base(g, f, start, a) && SoundKernel(g, f, start, m) && Strict(m) && m != [] && IsNew(a, m)
    requires |a.states| >= n
    ensures MoreStates(g, f, start, n)
  {
    hide SoundKernel, SoundEps, Strict, SameCores, KernelOk, MoreStates, EdgesOk;
    var ks := KernelsOf(a) + [m];
    forall i | 0 <= i < |ks| ensures SoundKernel(g, f, start, ks[i]) && Strict(ks[i]) && ks[i] != [] {
      if i < |a.states| {
        assert StateShape(g, a, i) && SoundState(g, f, start, a, i);
      }
    }
    ManyKernels(g, f, start, ks, n);
  }

  /** All nodes of the tree are in use, and the state `t` has none. */
  lemma UnfinishedExceed(g: Grammar, f: Sets, start: Production, a: Auto, t: int)
    requires Base(g, f, start, a) && StateNo(a, t) && t !in a.unfinished && |a.unfinished| >= MAXUNFINISHED
    ensures Exceeded(g, f, start, TooManyUnfinished)
  {
    hide SoundKernel, SoundEps, Strict, SameCores, KernelOk, MoreStates, EdgesOk;
    BaseShape(g, f, start, a);
    StatesInUse(a.unfinished, t, |a.states|);
    var ks := KernelsOf(a);
    forall i | 0 <= i < |ks| ensures SoundKernel(g, f, start, ks[i]) && Strict(ks[i]) && ks[i] != [] {
      assert StateShape(g, a, i) && SoundState(g, f, start, a, i);
    }
    ManyKernels(g, f, start, ks, MAXUNFINISHED);
  }

  /** The same for a state that is new. */
  lemma NewUnfinishedExceed(g: Grammar, f: Sets, start: Production, a: Auto, m: Items)
    requires Base(g, f, start, a) && SoundKernel(g, f, start, m) && Strict(m) && m != [] && IsNew(a, m)
    requires |a.unfinished| >= MAXUNFINISHED
    ensures Exceeded(g, f, start, TooManyUnfinished)
  {
    hide Base, SoundKernel, Strict, IsNew, MoreStates;
    BaseShape(g, f, start, a);
    StatesInUse(a.unfinished, |a.states|, |a.states| + 1);
    StatesExceed(g, f, start, a, m, MAXUNFINISHED);
  }

  /** Numbers below `n` other than `t`. */
  lemma StatesInUse(s: set<int>, t: int, n: nat)
    requires 0 <= t < n && t !in s && forall x | x in s :: 0 <= x < n
    ensures |s| < n
  {
    var all := Below(n);
    assert s + {t} <= all;
    SubsetSize(s + {t}, all);
    OneMore(s, t);
  }

  // ---------------------------------------------------------- within the limits

  /** The closure of a kernel fits into the arrays. */
  ghost predicate Fits(g: Grammar, k: iset<Core>) {
    !MoreThan(ListCores(g, k), MAXCLOSE) && !MoreThan(EndCores(g, k), MAXEPSILON)
  }

  ghost predicate Within(g: Grammar, a: Auto) {
    forall s | 0 <= s < |a.states| ::
      |a.states[s].kernel| <= MAXKERNEL && (a.states[s].closed ==> Fits(g, AsState(a.states[s].kernel).kernel))
  }

  lemma WithinNew(g: Grammar, a: Auto, m: Items)
    requires Within(g, a) && |m| <= MAXKERNEL
    ensures Within(g, WithState(a, m))
  {
    hide Fits, AsState;
  }

  lemma WithinMerged(g: Grammar, a: Auto, t: int, k: Items)
    requires Within(g, a) && StateNo(a, t) && SameCores(a.states[t].kernel, k)
    ensures Within(g, WithKernel(a, t, k))
  {
    hide Fits, AsState, SameCores;
    CoresKernel(a.states[t].kernel, k);
    SameCoresSize(a.states[t].kernel, k);
  }

  lemma SameCoresSize(k: Items, m: Items)
    requires SameCores(k, m)
    ensures |k| == |m|
  {
  }

  lemma WithinClosed(g: Grammar, a: Auto, b: Auto, cur: int, k0: Items)
    requires Within(g, a) && StateNo(a, cur) && SameCores(k0, a.states[cur].kernel) && Fits(g, AsState(k0).kernel)
    requires b.states == a.states[cur := a.states[cur].(closed := true)]
    ensures Within(g, b)
  {
    hide Fits, AsState, SameCores;
    CoresKernel(k0, a.states[cur].kernel);
  }

  lemma WithinSame(g: Grammar, a: Auto, b: Auto)
    requires Within(g, a) && |a.states| == |b.states|
    requires forall s | 0 <= s < |a.states| ::
      a.states[s].kernel == b.states[s].kernel && (b.states[s].closed ==> a.states[s].closed)
    ensures Within(g, b)
  {
    hide Fits, AsState;
  }

  // -------------------------------------------------- a finished automaton keeps them

  /** If the builder gets to its end, the canonical automaton is within all limits of sizes. */
  lemma NothingExceeded(g: Grammar, f: Sets, start: Production, a: Auto, o: Outcome)
    requires Finished(g, f, start, a) && Within(g, a) && o != TooManyUnfinished
    ensures !Exceeded(g, f, start, o)
  {
    hide Finished, Within, MoreThan, ListCores, EndCores, Canonical, MoreStates;
    forall w
      ensures Fits(g, Canonical(g, f, start, w).kernel) && !MoreThan(Canonical(g, f, start, w).kernel, MAXKERNEL)
    {
      WordFits(g, f, start, a, w);
    }
    FewStates(g, f, start, a);
  }

  lemma WordFits(g: Grammar, f: Sets, start: Production, a: Auto, w: seq<Symbol>)
    requires Finished(g, f, start, a) && Within(g, a)
    ensures Fits(g, Canonical(g, f, start, w).kernel) && !MoreThan(Canonical(g, f, start, w).kernel, MAXKERNEL)
  {
    hide Inv, Fits, MoreThan, Canonical;
    var k := Canonical(g, f, start, w).kernel;
    if k == iset{} {
      NothingFits(g, k);
    } else {
      FollowsRepresents(g, f, start, a, w);
      var s :| Follows(a, w, s);
      assert Represents(g, f, start, a, w, s);
      AllAbsorbed(g, f, start, a, s);
      FewItems(a.states[s].kernel, k);
      FewerThan(k, |a.states[s].kernel|, MAXKERNEL);
    }
  }

  lemma NothingFits(g: Grammar, k: iset<Core>)
    requires k == iset{}
    ensures Fits(g, k) && !MoreThan(k, MAXKERNEL)
  {
    hide MoreThan;
    forall c ensures c !in ListCores(g, k) {
      if InClosure(g, k, c) {
        var n: nat :| CoreIn(g, k, c, n);
        NothingIn(g, k, c, n);
      }
    }
    FewItems([], ListCores(g, k));
    FewItems([], EndCores(g, k));
    FewItems([], k);
    FewerThan(ListCores(g, k), 0, MAXCLOSE);
    FewerThan(EndCores(g, k), 0, MAXEPSILON);
    FewerThan(k, 0, MAXKERNEL);
  }

  lemma FewStates(g: Grammar, f: Sets, start: Production, a: Auto)
    requires Finished(g, f, start, a)
    ensures !MoreStates(g, f, start, MAXSTATE)
  {
    hide Inv, Canonical, Follows;
    if ws :| |ws| > MAXSTATE && Apart(g, f, start, ws) {
      InvStates(g, f, start, a);
      WordsFit(g, f, start, a, ws, Below(|a.states|));
    }
  }

  lemma InvStates(g: Grammar, f: Sets, start: Production, a: Auto)
    requires Inv(g, f, start, a)
    ensures |a.states| <= MAXSTATE
  {
    ShapeSizes(g, start, a);
  }

  /** Words with different kernels lead to different states. */
  lemma {:induction false} WordsFit(g: Grammar, f: Sets, start: Production, a: Auto, ws: seq<seq<Symbol>>,
        left: set<int>)
    requires Finished(g, f, start, a) && Apart(g, f, start, ws)
    requires forall i, s | 0 <= i < |ws| && Represents(g, f, start, a, ws[i], s) :: s in left
    ensures |ws| <= |left|
  {
    hide Inv, Canonical, Follows, Finished;
    if ws != [] {
      var w, rest := ws[|ws| - 1], ws[..|ws| - 1];
      FollowsRepresents(g, f, start, a, w);
      var s :| Follows(a, w, s);
      assert Represents(g, f, start, a, w, s);
      WordsFit(g, f, start, a, rest, left - {s});
    }
  }
}
