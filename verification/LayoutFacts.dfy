/** Which numbers the nodes of the rules get: no node is given out twice while it is in use, and the
    nodes of a rule are above all earlier ones unless a recycled node is among them. */
module LayoutFacts {
  import opened Options
  import opened Nfa
  import opened Regex
  import opened Layouts

  /** The nodes on the stack differ and have been handed out before. */
  ghost predicate Tidy(s: Store) {
    && (forall i, j | 0 <= i < j < |s.spare| :: s.spare[i] != s.spare[j])
    && forall i | 0 <= i < |s.spare| :: s.spare[i] < s.next
  }

  /** Node `n` is in use. */
  predicate Held(s: Store, n: int) {
    0 <= n < s.next && n !in s.spare
  }

  /** Whatever is handed out next has at least the number `lo`. */
  ghost predicate Above(s: Store, lo: nat) {
    lo <= s.next && forall i | 0 <= i < |s.spare| :: lo <= s.spare[i]
  }

  ghost predicate KeepsHeld(s: Store, t: Store) {
    forall n | Held(s, n) :: Held(t, n)
  }

  /** The step has taken its first and its last node from the nodes that were not in use. */
  ghost predicate Made(s: Store, n: Need, lo: nat) {
    n.Left? ==>
      && Tidy(n.store) && Above(n.store, lo) && KeepsHeld(s, n.store)
      && Fresh(s, n.store, n.start, lo) && Fresh(s, n.store, n.end, lo)
  }

  /** The two differ. */
  ghost predicate Piece(s: Store, n: Need, lo: nat) {
    Made(s, n, lo) && (n.Left? ==> n.start != n.end)
  }

  ghost predicate Fresh(s: Store, t: Store, n: int, lo: nat) {
    Held(t, n) && !Held(s, n) && lo <= n
  }

  lemma TakeMakes(s: Store, lo: nat)
    requires Tidy(s) && Above(s, lo)
    ensures Made(s, TakeNode(s), lo)
    ensures TakeNode(s).Left? ==> TakeNode(s).start == TakeNode(s).end
  {
    hide Store.At;
    var n := TakeNode(s);
    if n.Left? && s.spare != [] {
      var p, left := n.start, n.store.spare;
      assert s.spare == left + [p];
      forall x | Held(s, x) ensures Held(n.store, x) {
        assert x !in left;
      }
    }
  }

  lemma PutBackKeeps(s: Store, n: nat, lo: nat)
    requires Tidy(s) && Above(s, lo) && Held(s, n) && lo <= n && PutBack(s, n).Left?
    ensures var t := PutBack(s, n).store; Tidy(t) && Above(t, lo) && forall x :: Held(t, x) <==> Held(s, x) && x != n
  {
    var t := PutBack(s, n).store;
    assert t.spare == s.spare + [n];
    forall x ensures Held(t, x) <==> Held(s, x) && x != n {
      assert x in t.spare <==> x in s.spare || x == n;
    }
  }

  /** Links and labels do not matter. */
  predicate SameNumbers(s: Store, t: Store) {
    s.next == t.next && s.spare == t.spare
  }

  lemma MadeTwice(s: Store, n: Need, n2: Need, lo: nat)
    requires n.Left? && n2.Left? && Made(s, n, lo) && Made(n.store, n2, lo)
    ensures Made(s, Left(n2.store, n.start, n2.end), lo)
    ensures Made(s, n2, lo) && n.start != n2.end && n.end != n2.start
  {
    hide Tidy, Above, Held;
  }

  lemma MadeSame(s: Store, n: Need, s': Store, n': Need, lo: nat)
    requires n.Left? && n'.Left? && Made(s, n, lo) && SameNumbers(s, s')
    requires SameNumbers(n.store, n'.store) && n.start == n'.start && n.end == n'.end
    ensures Made(s', n', lo)
  {
    forall x ensures (Held(s, x) <==> Held(s', x)) && (Held(n.store, x) <==> Held(n'.store, x)) {
    }
  }

  lemma TakeTwoMakes(s: Store, lo: nat)
    requires Tidy(s) && Above(s, lo)
    ensures Piece(s, TakeTwo(s), lo)
  {
    hide Tidy, Above, KeepsHeld, Fresh, TakeNode;
    TakeMakes(s, lo);
    var a := TakeNode(s);
    if a.Left? {
      TakeMakes(a.store, lo);
      if TakeNode(a.store).Left? { MadeTwice(s, a, TakeNode(a.store), lo); }
    }
  }

  lemma LeafMakes(edge: int, bitset: CharSet, s: Store, lo: nat)
    requires Tidy(s) && Above(s, lo)
    ensures Piece(s, LayLeaf(edge, bitset, s), lo)
  {
    hide Tidy, Above, Made, TakeTwo;
    TakeTwoMakes(s, lo);
    var n := TakeTwo(s);
    if n.Left? { MadeSame(s, n, s, LayLeaf(edge, bitset, s), lo); }
  }

  lemma EncloseMakes(s: Store, n: Need, opt: bool, rep: bool, lo: nat)
    requires Tidy(s) && Above(s, lo) && Made(s, n, lo)
    ensures Piece(s, Enclose(n, opt, rep), lo)
  {
    hide Tidy, Above, KeepsHeld, Fresh, TakeTwo;
    if n.Left? {
      TakeTwoMakes(n.store, lo);
      var a := TakeTwo(n.store);
      if a.Left? {
        MadeTwice(s, n, a, lo);
        MadeSame(s, a, s, Enclose(n, opt, rep), lo);
      }
    }
  }

  lemma JoinMakes(s: Store, n: Need, n2: Need, lo: nat)
    requires n.Left? && Made(s, n, lo) && Made(n.store, n2, lo)
    ensures Piece(s, Combine(Beside, n.start, n.end, n2), lo)
  {
    hide Tidy, Above, KeepsHeld, Fresh, TakeNode;
    if n2.Left? {
      MadeTwice(s, n, n2, lo);
      TakeMakes(n2.store, lo);
      var a := TakeNode(n2.store);
      if a.Left? {
        MadeTwice(s, n2, a, lo);
        var s2 := a.store.LinkBoth(a.start, n.start, n2.start);
        MadeSame(s, a, s, Left(s2, a.start, a.end), lo);
        TakeMakes(s2, lo);
        var b := TakeNode(s2);
        if b.Left? {
          MadeTwice(s, Left(s2, a.start, a.end), b, lo);
          MadeSame(s, Left(b.store, a.start, b.end), s, Join(n.start, n.end, n2.start, n2.end, n2.store), lo);
        }
      }
    }
  }

  lemma MergeMakes(s: Store, n: Need, n2: Need, lo: nat)
    requires n.Left? && Made(s, n, lo) && Piece(n.store, n2, lo)
    ensures Piece(s, Combine(Behind, n.start, n.end, n2), lo)
  {
    hide Tidy, Above;
    if n2.Left? {
      var s2 := n2.store.Put(n.end, n2.store.At(n2.start));
      MadeTwice(s, n, n2, lo);
      MadeSame(n.store, n2, n.store, Left(s2, n2.start, n2.end), lo);
      if PutBack(s2, n2.start).Left? { PutBackKeeps(s2, n2.start, lo); }
    }
  }

  lemma {:induction false} LayMakes(r: Regex, s: Store, lo: nat)
    requires Tidy(s) && Above(s, lo)
    ensures Piece(s, Lay(r, s), lo)
  {
    hide Tidy, Above, KeepsHeld, Fresh, Combine, Enclose, LayLeaf;
    match r {
      case Char(c) => LeafMakes(c, NOTHING, s, lo);
      case Chars(cs) => LeafMakes(CCL, cs, s, lo);
      case Cat(a, b) =>
        LayMakes(a, s, lo);
        var n := Lay(a, s);
        if n.Left? {
          LayMakes(b, n.store, lo);
          MergeMakes(s, n, Lay(b, n.store), lo);
        }
      case Alt(a, b) =>
        LayMakes(a, s, lo);
        var n := Lay(a, s);
        if n.Left? {
          LayMakes(b, n.store, lo);
          JoinMakes(s, n, Lay(b, n.store), lo);
        }
      case Star(a) =>
        LayMakes(a, s, lo);
        EncloseMakes(s, Lay(a, s), true, true, lo);
      case Plus(a) =>
        LayMakes(a, s, lo);
        EncloseMakes(s, Lay(a, s), false, true, lo);
      case Opt(a) =>
        LayMakes(a, s, lo);
        EncloseMakes(s, Lay(a, s), true, false, lo);
    }
  }

  // ------------------------------------------------------------------ rules

  lemma FrontMakes(rule: Rule, s: Store, lo: nat)
    requires Tidy(s) && Above(s, lo)
    ensures Made(s, LayFront(rule, s), lo)
  {
    hide Tidy, Above, KeepsHeld, Fresh, TakeNode, Lay;
    if rule.anchor == 1 && rule.regex.Cat? {
      TakeMakes(s, lo);
      var c := TakeNode(s);
      if c.Left? {
        var s1 := c.store.Label(c.start, 10, NOTHING);
        MadeSame(s, c, s, Left(s1, c.start, c.end), lo);
        LayMakes(rule.regex.right, s1, lo);
        var n := Lay(rule.regex.right, s1);
        if n.Left? {
          MadeTwice(s, Left(s1, c.start, c.end), n, lo);
          MadeSame(s, Left(n.store, c.start, n.end), s, LayFront(rule, s), lo);
        }
      }
    } else {
      LayMakes(rule.regex, s, lo);
    }
  }

  lemma AnchoredMakes(s: Store, n: Need, cs: CharSet, lo: nat)
    requires Made(s, n, lo)
    ensures Made(s, Anchored(n, cs), lo)
  {
    hide Tidy, Above, KeepsHeld, Fresh, TakeNode;
    if n.Left? {
      TakeMakes(n.store, lo);
      var q := TakeNode(n.store);
      if q.Left? {
        MadeTwice(s, n, q, lo);
        MadeSame(s, Left(q.store, n.start, q.end), s, Anchored(n, cs), lo);
      }
    }
  }

  lemma LineMakes(line: Line, rule: Rule, saved: nat, s: Store, lo: nat)
    requires Tidy(s) && Above(s, lo)
    ensures Made(s, LayLine(line, rule, saved, s), lo)
  {
    hide Tidy, Above, KeepsHeld, Fresh, LayFront, Anchored;
    FrontMakes(rule, s, lo);
    if rule.anchor >= 2 && rule.regex.Cat? && rule.regex.right.Chars? {
      var front := Rule(rule.regex.left, rule.anchor - 2);
      FrontMakes(front, s, lo);
      AnchoredMakes(s, LayFront(front, s), rule.regex.right.cs, lo);
    }
    var n, all := LayRule(rule, s), LayLine(line, rule, saved, s);
    if all.Left? { MadeSame(s, n, s, all, lo); }
  }

  /** The stack of spare nodes when rule `i` begins, behind its node of the chain. */
  function Begun(lines: seq<Line>, unix: bool, i: nat): Need
    requires WellFormed(lines, unix, i)
  {
    var n := LayRules(lines, unix, i);
    if n.Lacks? then n else Chained(i == 0, n.start, n.store)
  }

  lemma ChainedMakes(first: bool, p: nat, s: Store)
    requires Tidy(s)
    ensures Made(s, Chained(first, p, s), 0)
    ensures Chained(first, p, s).Left? ==> Chained(first, p, s).store.next >= s.next
    ensures Chained(first, p, s).Left? ==>
      Chained(first, p, s).store.spare == s.spare[..if s.spare == [] then 0 else |s.spare| - 1]
  {
    TakeMakes(s, 0);
    var c := TakeNode(s);
    if c.Left? { MadeSame(s, c, s, Chained(first, p, s), 0); }
  }

  /** What rule `i` adds. */
  lemma NextMakes(lines: seq<Line>, unix: bool, i: nat, n: Need, lo: nat)
    requires WellFormed(lines, unix, i + 1) && LayRules(lines, unix, i) == n && n.Left? && Tidy(n.store)
    requires LayRules(lines, unix, i + 1).Left?
    ensures var n', c := LayRules(lines, unix, i + 1), Begun(lines, unix, i);
      && Tidy(n'.store) && KeepsHeld(n.store, n'.store) && Held(n'.store, n'.end) && !Held(n.store, n'.end)
      && c.Left? && Tidy(c.store) && KeepsHeld(n.store, c.store) && (Above(c.store, lo) ==> lo <= n'.end)
  {
    hide Tidy, LayLine, ParseRule, Chained;
    ChainedMakes(i == 0, n.start, n.store);
    var c := Chained(i == 0, n.start, n.store);
    var rule, saved := ParseRule(lines[i].tokens, unix).value, SavedAt(lines, i);
    LineMakes(lines[i], rule, saved, c.store, 0);
    if Above(c.store, lo) { LineMakes(lines[i], rule, saved, c.store, lo); }
    var a := LayLine(lines[i], rule, saved, c.store);
    MadeSame(c.store, a, c.store, Left(a.store.Link(c.start, a.start), a.start, a.end), 0);
  }

  lemma {:induction false} RulesTidy(lines: seq<Line>, unix: bool, i: nat)
    requires Fits(lines, unix) && i <= |lines|
    ensures WellFormed(lines, unix, i) && LayRules(lines, unix, i).Left? && Tidy(LayRules(lines, unix, i).store)
  {
    hide LayRules, ParseRule;
    FitsBefore(lines, unix, i);
    if i == 0 {
      NoRules(lines, unix);
    } else {
      RulesTidy(lines, unix, i - 1);
      NextMakes(lines, unix, i - 1, LayRules(lines, unix, i - 1), 0);
    }
  }

  lemma NoRules(lines: seq<Line>, unix: bool)
    requires Fits(lines, unix)
    ensures LayRules(lines, unix, 0) == Left(EmptyStore(), 0, 0)
  {
  }

  /** The last node of a rule stays in use. */
  lemma {:induction false} EndHeld(lines: seq<Line>, unix: bool, k: nat, i: nat)
    requires Fits(lines, unix) && k < i <= |lines|
    ensures WellFormed(lines, unix, i) && LayRules(lines, unix, i).Left?
    ensures Held(LayRules(lines, unix, i).store, EndOf(lines, unix, k))
  {
    hide LayRules, ParseRule, Held, Tidy;
    RulesTidy(lines, unix, i);
    RulesTidy(lines, unix, i - 1);
    NextMakes(lines, unix, i - 1, LayRules(lines, unix, i - 1), 0);
    if k < i - 1 { EndHeld(lines, unix, k, i - 1); }
  }

  /** No two rules end in the same node. */
  lemma EndsDiffer(lines: seq<Line>, unix: bool, i: nat, j: nat)
    requires Fits(lines, unix) && i < j < |lines|
    ensures EndOf(lines, unix, i) != EndOf(lines, unix, j)
  {
    hide LayRules, ParseRule, Held, Tidy;
    EndHeld(lines, unix, i, j);
    RulesTidy(lines, unix, j);
    RulesTidy(lines, unix, j + 1);
    NextMakes(lines, unix, j, LayRules(lines, unix, j), 0);
  }

  /** If all spare nodes are above the end of an earlier rule when a rule begins, so is the end of
      that rule. There is no spare node at all if no more than one was left by the rules before. */
  lemma EndAbove(lines: seq<Line>, unix: bool, i: nat, j: nat)
    requires Fits(lines, unix) && i < j < |lines|
    ensures WellFormed(lines, unix, j) && Begun(lines, unix, j).Left?
    ensures (forall k | 0 <= k < |Begun(lines, unix, j).store.spare| ::
               EndOf(lines, unix, i) < Begun(lines, unix, j).store.spare[k]) ==>
            EndOf(lines, unix, i) < EndOf(lines, unix, j)
    ensures LayRules(lines, unix, j).Left? && |LayRules(lines, unix, j).store.spare| <= 1 ==>
      EndOf(lines, unix, i) < EndOf(lines, unix, j)
  {
    hide LayRules, ParseRule, Tidy, Chained;
    EndHeld(lines, unix, i, j);
    RulesTidy(lines, unix, j);
    RulesTidy(lines, unix, j + 1);
    var n := LayRules(lines, unix, j);
    NextMakes(lines, unix, j, n, EndOf(lines, unix, i) + 1);
    ChainedMakes(j == 0, n.start, n.store);
  }
}
