/** What the FIRST sets mean: they miss nothing that can be derived. */
module FirstTheorems {
  import opened Grammars
  import opened Symbols
  import opened First

  lemma NullableScan(g: Grammar, f: Sets, a: seq<Symbol>)
    requires HasNonAct(a) && AllNullable(g, f, a)
    ensures g.Epsilon() in Scan(g, f, a)
  {
    if IsAct(a[0]) {
      assert a == [a[0]] + a[1..];
      NullableScan(g, f, a[1..]);
    } else {
      assert a[0] in a;
    }
  }

  /** A right-hand side contributes no more to a scan than its left-hand side does. */
  lemma RhsBelowLhs(g: Grammar, f: Sets, x: Symbol, p: Production)
    requires g.ValidProductions() && Closed(g, f) && p in g.Prods(x)
    ensures Scan(g, f, p.rhs) <= Scan(g, f, [x])
    ensures AllNullable(g, f, p.rhs) ==> AllNullable(g, f, [x])
  {
    assert ProdFirst(g, f, p) <= At(f, x);
    if HasNonAct(p.rhs) {
      if AllNullable(g, f, p.rhs) {
        NullableScan(g, f, p.rhs);
      }
    } else {
      ScanActs(g, f, p.rhs);
    }
  }

  lemma {:induction false} ScanActs(g: Grammar, f: Sets, a: seq<Symbol>)
    requires !HasNonAct(a)
    ensures Scan(g, f, a) == {} && AllNullable(g, f, a)
  {
    if a != [] {
      assert a[0] in a;
      assert !HasNonAct(a[1..]);
      ScanActs(g, f, a[1..]);
    }
  }

  lemma ExpandBelow(g: Grammar, f: Sets, a: seq<Symbol>, i: nat, p: Production)
    requires g.ValidProductions() && Closed(g, f) && i < |a| && p in g.Prods(a[i])
    ensures Scan(g, f, Expand(a, i, p.rhs)) <= Scan(g, f, a)
    ensures AllNullable(g, f, Expand(a, i, p.rhs)) ==> AllNullable(g, f, a)
  {
    assert a == a[..i] + ([a[i]] + a[i + 1..]);
    assert Expand(a, i, p.rhs) == a[..i] + (p.rhs + a[i + 1..]);
    RhsBelowLhs(g, f, a[i], p);
    ScanConcat(g, f, [a[i]], a[i + 1..]);
    ScanConcat(g, f, p.rhs, a[i + 1..]);
    ScanConcat(g, f, a[..i], [a[i]] + a[i + 1..]);
    ScanConcat(g, f, a[..i], p.rhs + a[i + 1..]);
  }

  lemma {:induction false} DerivesBelow(g: Grammar, f: Sets, a: seq<Symbol>, b: seq<Symbol>, n: nat)
    requires g.ValidProductions() && Closed(g, f) && DerivesIn(g, a, b, n)
    ensures Scan(g, f, b) <= Scan(g, f, a)
    ensures AllNullable(g, f, b) ==> AllNullable(g, f, a)
    decreases n
  {
    if n != 0 {
      var c :| DerivesIn(g, a, c, n - 1) && Step(g, c, b);
      var i: nat, p :| StepAt(g, c, i, p, b);
      DerivesBelow(g, f, a, c, n - 1);
      ExpandBelow(g, f, c, i, p);
    }
  }

  /** If x derives a string that begins, after actions, with terminal t, then t is
      in FIRST(x); if x derives the empty string, epsilon is. */
  lemma FirstIsComplete(g: Grammar, f: Sets, x: Symbol, b: seq<Symbol>)
    requires g.ValidProductions() && Closed(g, f) && IsNonterm(x) && Derives(g, [x], b)
    ensures forall u, t, v | b == u + [t] + v && Erase(u) == [] && IsTerm(t) :: t in At(f, x)
    ensures Erase(b) == [] ==> g.Epsilon() in At(f, x)
  {
    hide Closed, Grammar.ValidProductions, DerivesIn;
    var n: nat :| DerivesIn(g, [x], b, n);
    DerivesBelow(g, f, [x], b, n);
    forall u, t, v | b == u + [t] + v && Erase(u) == [] && IsTerm(t)
      ensures t in At(f, x)
    {
      ErasedActs(u);
      ScanActs(g, f, u);
      ScanConcat(g, f, u, [t] + v);
      assert b == u + ([t] + v);
      assert t in Scan(g, f, [t] + v);
    }
    if Erase(b) == [] {
      ErasedActs(b);
      ScanActs(g, f, b);
      assert x in [x];
    }
  }

  lemma ErasedActs(u: seq<Symbol>)
    requires Erase(u) == []
    ensures !HasNonAct(u)
  {
    if u != [] {
      ErasedActs(u[1..]);
    }
  }

  /** The next terminal of whatever a string produces is in its scan; a string that
      produces nothing is nullable. */
  lemma {:induction false} LeftmostFirst(g: Grammar, f: Sets, a: seq<Symbol>, w: seq<Symbol>, n: nat)
    requires g.ValidProductions() && Closed(g, f) && Leftmost(g, a, w, n)
    ensures if w == [] then AllNullable(g, f, a) else w[0] in Scan(g, f, a)
    decreases n
  {
    if a != [] && !IsTerm(a[0]) {
      assert a == [a[0]] + a[1..];
      if IsAct(a[0]) {
        LeftmostFirst(g, f, a[1..], w, n - 1);
      } else {
        var p :| p in g.Prods(a[0]) && Leftmost(g, p.rhs + a[1..], w, n - 1);
        LeftmostFirst(g, f, p.rhs + a[1..], w, n - 1);
        assert Expand(a, 0, p.rhs) == p.rhs + a[1..];
        ExpandBelow(g, f, a, 0, p);
      }
    }
  }
}
