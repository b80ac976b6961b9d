/** What the FOLLOW sets mean: they miss nothing that can come next. */
module FollowTheorems {
  import opened Grammars
  import opened Symbols
  import opened First
  import opened FirstTheorems
  import opened Follow

  /** The follow set of the symbol at `i` has all that the rest of the form can start with. */
  ghost predicate FormOkAt(g: Grammar, f: Sets, w: Sets, a: seq<Symbol>, i: nat)
    requires i < |a|
  {
    IsNonterm(a[i]) ==>
      && Scan(g, f, a[i + 1..]) <= At(w, a[i])
      && (AllNullable(g, f, a[i + 1..]) ==> EOI in At(w, a[i]))
  }

  ghost predicate FormOk(g: Grammar, f: Sets, w: Sets, a: seq<Symbol>) {
    forall i | 0 <= i < |a| :: FormOkAt(g, f, w, a, i)
  }

  lemma ExpandOk(g: Grammar, f: Sets, w: Sets, a: seq<Symbol>, i: nat, p: Production)
    requires g.ValidProductions() && Closed(g, f) && FollowClosed(g, f, w)
    requires FormOk(g, f, w, a) && i < |a| && p in g.Prods(a[i])
    ensures FormOk(g, f, w, Expand(a, i, p.rhs))
  {
    hide FormOkAt, Closed, FollowClosed, Scan, Grammar.ValidProductions;
    var b := Expand(a, i, p.rhs);
    forall j | 0 <= j < |b| ensures FormOkAt(g, f, w, b, j) {
      assert FormOkAt(g, f, w, a, if j < i then j else if j < i + |p.rhs| then i else j - |p.rhs| + 1);
      if j < i {
        ExpandLeft(g, f, w, a, i, p, j);
      } else if j < i + |p.rhs| {
        ExpandInside(g, f, w, a, i, p, j - i);
      } else {
        var k := j - |p.rhs| + 1;
        assert b[j] == a[k] && b[j + 1..] == a[k + 1..];
        SameRest(g, f, w, a, k, b, j);
      }
    }
  }

  lemma SameRest(g: Grammar, f: Sets, w: Sets, a: seq<Symbol>, k: nat, b: seq<Symbol>, j: nat)
    requires k < |a| && j < |b| && a[k] == b[j] && a[k + 1..] == b[j + 1..] && FormOkAt(g, f, w, a, k)
    ensures FormOkAt(g, f, w, b, j)
  {
  }

  lemma ExpandLeft(g: Grammar, f: Sets, w: Sets, a: seq<Symbol>, i: nat, p: Production, j: nat)
    requires g.ValidProductions() && Closed(g, f) && j < i < |a| && p in g.Prods(a[i]) && FormOkAt(g, f, w, a, j)
    ensures FormOkAt(g, f, w, Expand(a, i, p.rhs), j)
  {
    hide Grammar.ValidProductions, Closed, Scan;
    var b := Expand(a, i, p.rhs);
    assert b[j + 1..] == Expand(a[j + 1..], i - j - 1, p.rhs);
    ExpandBelow(g, f, a[j + 1..], i - j - 1, p);
  }

  lemma ExpandInside(g: Grammar, f: Sets, w: Sets, a: seq<Symbol>, i: nat, p: Production, k: nat)
    requires g.ValidProductions() && FollowClosed(g, f, w)
    requires i < |a| && p in g.Prods(a[i]) && k < |p.rhs| && FormOkAt(g, f, w, a, i)
    ensures FormOkAt(g, f, w, Expand(a, i, p.rhs), i + k)
  {
    hide Scan;
    var b := Expand(a, i, p.rhs);
    assert b[i + k + 1..] == p.rhs[k + 1..] + a[i + 1..];
    ScanConcat(g, f, p.rhs[k + 1..], a[i + 1..]);
    assert InitDone(g, f, w, a[i]) && InitRule(g, f, w, p.rhs, k);
    assert ClosureDone(g, f, w, a[i]) && ClosureRule(g, f, w, a[i], p.rhs, k);
    assert g.ValidProduction(a[i], p);
  }

  lemma {:induction false} DerivedOk(g: Grammar, f: Sets, w: Sets, a: seq<Symbol>, b: seq<Symbol>, n: nat)
    requires g.ValidProductions() && Closed(g, f) && FollowClosed(g, f, w)
    requires FormOk(g, f, w, a) && DerivesIn(g, a, b, n)
    ensures FormOk(g, f, w, b)
    decreases n
  {
    if n != 0 {
      var c :| DerivesIn(g, a, c, n - 1) && Step(g, c, b);
      var i: nat, p :| StepAt(g, c, i, p, b);
      DerivedOk(g, f, w, a, c, n - 1);
      ExpandOk(g, f, w, c, i, p);
    }
  }

  lemma GoalFormsOk(g: Grammar, f: Sets, w: Sets, b: seq<Symbol>)
    requires g.ValidProductions() && Closed(g, f) && FollowClosed(g, f, w)
    requires Derives(g, [g.goal], b)
    ensures FormOk(g, f, w, b)
  {
    var n: nat :| DerivesIn(g, [g.goal], b, n);
    assert InitDone(g, f, w, g.goal);
    assert FormOk(g, f, w, [g.goal]) by {
      assert FormOkAt(g, f, w, [g.goal], 0) by {
        assert [g.goal][1..] == [];
      }
    }
    DerivedOk(g, f, w, [g.goal], b, n);
  }

  /** If the goal derives a form in which, after actions only, terminal t comes next
      to x, then t is in the finished FOLLOW(x); if only actions come after x, end of
      input is. */
  lemma FollowIsComplete(g: Grammar, f: Sets, w: Sets, u: seq<Symbol>, x: Symbol, acts: seq<Symbol>, v: seq<Symbol>)
    requires g.Valid() && Closed(g, f) && FollowClosed(g, f, w)
    requires IsNonterm(x) && Erase(acts) == [] && Derives(g, [g.goal], u + [x] + acts + v)
    ensures v != [] && IsTerm(v[0]) ==> v[0] in At(NoEpsilon(g, w), x)
    ensures v == [] ==> EOI in At(NoEpsilon(g, w), x)
  {
    var b := u + [x] + acts + v;
    GoalFormsOk(g, f, w, b);
    assert FormOkAt(g, f, w, b, |u|);
    assert b[|u|] == x && b[|u| + 1..] == acts + v;
    AfterActs(g, f, acts, v);
    AtNoEpsilon(g, w, x);
    if v != [] && IsTerm(v[0]) {
      var n: nat :| DerivesIn(g, [g.goal], b, n);
      DerivesValid(g, [g.goal], b, n);
      assert v[0] == b[|u| + 1 + |acts|];
      assert g.ValidSymbol(b[|u| + 1 + |acts|]);
    }
  }

  lemma AfterActs(g: Grammar, f: Sets, acts: seq<Symbol>, v: seq<Symbol>)
    requires Erase(acts) == []
    ensures v == [] ==> AllNullable(g, f, acts + v)
    ensures v != [] && IsTerm(v[0]) ==> v[0] in Scan(g, f, acts + v)
  {
    ErasedActs(acts);
    ScanActs(g, f, acts);
    ScanConcat(g, f, acts, v);
  }
}
