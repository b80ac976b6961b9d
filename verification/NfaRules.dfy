/** Rules and whole machines: anchored expressions, the accepting ends of the rules, and
    the chain of nodes that leads to their starts (compiler/lex/nfa.c). */
module NfaRules {
  import opened Nfa
  import opened Regex
  import opened Fragments

  // ---------------------------------------------------------------- anchors

  lemma SplitCat(a: Regex, b: Regex, w: seq<int>) returns (i: nat)
    requires Matches(Cat(a, b), w)
    ensures i <= |w| && Matches(a, w[..i]) && Matches(b, w[i..])
  {
    i :| 0 <= i <= |w| && Matches(a, w[..i]) && Matches(b, w[i..]);
  }

  lemma JoinCat(a: Regex, b: Regex, w: seq<int>, i: nat)
    requires i <= |w| && Matches(a, w[..i]) && Matches(b, w[i..])
    ensures Matches(Cat(a, b), w)
  {
  }

  /** A node with the edge `c` has been put in front. */
  lemma Prepend(m: Machine, m': Machine, f: set<int>, s: int, e: int, r: Regex, p: int, c: int)
    requires Fragment(m, f, s, e, r) && Agree(m, m', f) && 0 <= p < |m'| && p !in f
    requires c >= 0 && m'[p].edge == c && m'[p].next == s && m'[p].next2 == NONE && m'[p].accept == NONE
    ensures Fragment(m', f + {p}, p, e, Cat(Char(c), r))
  {
    FragmentKept(m, m', f, s, e, r);
    var one := Char(c);
    forall w ensures Path(m', p, w, e) <==> Matches(Cat(one, r), w) {
      if Matches(Cat(one, r), w) {
        var i := SplitCat(one, r, w);
        assert i == 1 && w[..1] == [c];
        assert Moves(m', p, [c], s);
        OneMove(m', p, [c], s);
        Compose(m', p, [c], s, w[1..], e);
        assert [c] + w[1..] == w;
      }
      if Path(m', p, w, e) {
        var k: nat :| PathIn(m', p, w, e, k);
        var i, q := FirstOf(m', p, w, e, k);
        assert Path(m', s, w[i..], e);
        JoinCat(one, r, w, i);
      }
    }
  }

  /** The end has been given an edge on `cs` to a new end. */
  predicate IsAppend(m: Machine, m': Machine, f: set<int>, e: int, q: int, cs: CharSet) {
    && |m| == |m'| && 0 <= e < |m| && 0 <= q < |m| && q !in f && Agree(m, m', f - {e})
    && m'[e] == m[e].(edge := CCL, bitset := cs, next := q) && Dead(m'[q]) && m'[q].accept == NONE
  }

  lemma AppendShape(m: Machine, m': Machine, f: set<int>, s: int, e: int, q: int, cs: CharSet)
    requires Shape(m, f, s, e) && IsAppend(m, m', f, e, q, cs)
    ensures Shape(m', f + {q}, s, q)
  {
  }

  lemma Append(m: Machine, m': Machine, f: set<int>, s: int, e: int, r: Regex, q: int, cs: CharSet)
    requires Fragment(m, f, s, e, r) && IsAppend(m, m', f, e, q, cs)
    ensures Fragment(m', f + {q}, s, q, Cat(r, Chars(cs)))
  {
    AppendShape(m, m', f, s, e, q, cs);
    forall w ensures Path(m', s, w, q) <==> Matches(Cat(r, Chars(cs)), w) {
      if Matches(Cat(r, Chars(cs)), w) {
        var i := SplitCat(r, Chars(cs), w);
        LiftPath(m, m', f, e, s, w[..i]);
        assert Moves(m', e, w[i..], q);
        OneMove(m', e, w[i..], q);
        Compose(m', s, w[..i], e, w[i..], q);
        assert w[..i] + w[i..] == w;
      }
      if Path(m', s, w, q) {
        var k: nat :| PathIn(m', s, w, q, k);
        var i, j := Exit(m, m', f, e, s, w, q, k);
        assert Path(m, s, w[..i], e);
        LastEdge(m', e, q, w[i..], k - j);
        JoinCat(r, Chars(cs), w, i);
      }
    }
  }

  lemma LastEdge(m: Machine, e: int, q: int, w: seq<int>, k: nat)
    requires 0 <= e < |m| && 0 <= q < |m| && e != q && m[e].edge == CCL && m[e].next == q && Dead(m[q])
    requires PathIn(m, e, w, q, k)
    ensures |w| == 1 && w[0] >= 0 && m[e].bitset.Test(w[0])
  {
    var i, x := FirstOf(m, e, w, q, k);
    DeadEnd(m, q, w[i..], q, k - 1);
    assert w[..i] == w;
  }

  // ------------------------------------------------------------------ rules

  /** One rule in the machine: the chain node `c` that leads to it, its fragment, what it
      says and the address of its action. */
  datatype Part = Part(c: int, f: set<int>, s: int, e: int, rule: Rule, accept: int)
  {
    function Foot(): set<int> { f + {c} }
  }

  predicate RuleShape(m: Machine, p: Part) {
    && Closed(m, p.f) && p.s in p.f && p.e in p.f && p.c !in p.f && Dead(m[p.e])
    && p.accept != NONE && m[p.e].accept == p.accept && m[p.e].anchor == p.rule.anchor
    && forall n | n in p.f :: (m[n].accept != NONE ==> n == p.e) && (m[n].Labelled() ==> m[n].next != NONE)
  }

  /** A fragment whose end accepts. */
  ghost predicate IsRule(m: Machine, p: Part) {
    RuleShape(m, p) && Accepts(m, p.s, p.e, p.rule.regex)
  }

  lemma Accepting(m: Machine, m': Machine, p: Part)
    requires Fragment(m, p.f, p.s, p.e, p.rule.regex) && p.c !in p.f && p.accept != NONE && Agree(m, m', p.f - {p.e})
    requires 0 <= p.e < |m'| && m'[p.e] == m[p.e].(accept := p.accept, anchor := p.rule.anchor)
    ensures IsRule(m', p)
  {
    forall w ensures Path(m', p.s, w, p.e) <==> Matches(p.rule.regex, w) {
      if Path(m, p.s, w, p.e) { LiftPath(m, m', p.f, p.e, p.s, w); }
      if Path(m', p.s, w, p.e) { LiftPath(m', m, p.f, p.e, p.s, w); }
    }
  }

  lemma RuleKept(m: Machine, m': Machine, p: Part)
    requires IsRule(m, p) && Agree(m, m', p.f)
    ensures IsRule(m', p)
  {
    forall w ensures Path(m', p.s, w, p.e) <==> Matches(p.rule.regex, w) {
      if Path(m, p.s, w, p.e) { LiftPath(m, m', p.f, p.e, p.s, w); }
      if Path(m', p.s, w, p.e) { LiftPath(m', m, p.f, p.e, p.s, w); }
    }
  }

  // ------------------------------------------------------------ the machine

  function Feet(parts: seq<Part>): set<int> {
    if parts == [] then {} else Feet(parts[..|parts| - 1]) + parts[|parts| - 1].Foot()
  }

  lemma {:induction false} FootIn(parts: seq<Part>, i: nat)
    requires i < |parts|
    ensures parts[i].Foot() <= Feet(parts)
  {
    if i < |parts| - 1 {
      FootIn(parts[..|parts| - 1], i);
    }
  }

  /** The chain node of rule `i` leads to the rule and to the next chain node. */
  predicate Linked(m: Machine, parts: seq<Part>, i: nat)
    requires i < |parts|
  {
    && 0 <= parts[i].c < |m| && m[parts[i].c].edge == EPSILON && m[parts[i].c].accept == NONE
    && m[parts[i].c].next == parts[i].s
    && m[parts[i].c].next2 == if i + 1 < |parts| then parts[i + 1].c else NONE
  }

  ghost predicate Chain(m: Machine, parts: seq<Part>) {
    && (forall i | 0 <= i < |parts| :: IsRule(m, parts[i]))
    && (forall i | 0 <= i < |parts| :: Linked(m, parts, i))
    && (forall i, j | 0 <= i < j < |parts| :: parts[i].Foot() !! parts[j].Foot())
  }

  /** One more rule at the end of the chain; of the other nodes only the last one of the
      chain has changed. */
  lemma Link(m: Machine, m': Machine, parts: seq<Part>, p: Part)
    requires |parts| > 0 && Chain(m, parts) && Feet(parts) !! p.Foot() && IsRule(m', p) && Linked(m', [p], 0)
    requires var last := parts[|parts| - 1].c;
      Agree(m, m', Feet(parts) - {last}) && 0 <= last < |m'| && m'[last] == m[last].(next2 := p.c)
    ensures Chain(m', parts + [p])
  {
    hide Path, Matches, RuleShape, Accepts, Closed;
    var all, n := parts + [p], |parts|;
    forall i | 0 <= i < |all| ensures IsRule(m', all[i]) {
      if i < n {
        FootIn(parts, i);
        assert parts[n - 1].c !in parts[i].f by { ChainNodeOutside(m, parts, i, n - 1); }
        RuleKept(m, m', parts[i]);
      }
    }
    forall i | 0 <= i < |all| ensures Linked(m', all, i) {
      if i < n {
        FootIn(parts, i);
        assert Linked(m, parts, i);
        assert i < n - 1 ==> parts[i].c in parts[i].Foot() && parts[n - 1].c in parts[n - 1].Foot();
      } else {
        assert Linked(m', [p], 0);
      }
    }
    forall i, j | 0 <= i < j < |all| ensures all[i].Foot() !! all[j].Foot() {
      FootIn(parts, i);
    }
  }

  lemma ChainNodeOutside(m: Machine, parts: seq<Part>, i: nat, j: nat)
    requires Chain(m, parts) && i <= j < |parts|
    ensures parts[j].c !in parts[i].f
  {
    assert IsRule(m, parts[i]);
    assert parts[j].c in parts[j].Foot() && parts[i].f <= parts[i].Foot();
  }

  // ------------------------------------------------- what the machine accepts

  /** Rule `j` accepts the word `w` in the node `t`. */
  ghost predicate AcceptsIn(parts: seq<Part>, i: nat, j: int, w: seq<int>, t: int) {
    i <= j < |parts| && t == parts[j].e && Matches(parts[j].rule.regex, w)
  }

  /** From the chain node of rule `i` an accepting node can be reached only as the end of a
      later rule whose expression the word matches. */
  lemma {:induction false} ChainSound(m: Machine, parts: seq<Part>, i: nat, w: seq<int>, t: int, k: nat)
    returns (j: nat)
    requires Chain(m, parts) && i < |parts| && PathIn(m, parts[i].c, w, t, k) && 0 <= t < |m| && m[t].accept != NONE
    ensures AcceptsIn(parts, i, j, w, t)
    decreases k
  {
    hide Matches, Accepts;
    assert Linked(m, parts, i) && IsRule(m, parts[i]);
    var i0, q := FirstOf(m, parts[i].c, w, t, k);
    assert w[i0..] == w;
    if q == parts[i].s {
      InFragment(m, parts[i].f, q, w, t, k - 1);
      j := i;
      RuleAccepts(m, parts[i], w, k - 1);
    } else {
      j := ChainSound(m, parts, i + 1, w, t, k - 1);
    }
  }

  lemma RuleAccepts(m: Machine, p: Part, w: seq<int>, k: nat)
    requires IsRule(m, p) && PathIn(m, p.s, w, p.e, k)
    ensures Matches(p.rule.regex, w)
  {
    assert Path(m, p.s, w, p.e);
  }

  /** A path from a closed set stays in it. */
  lemma {:induction false} InFragment(m: Machine, f: set<int>, n: int, w: seq<int>, t: int, k: nat)
    requires Closed(m, f) && n in f && PathIn(m, n, w, t, k)
    ensures t in f
    decreases k
  {
    if k > 0 {
      var i, q := FirstOf(m, n, w, t, k);
      MoveStays(m, f, n, w[..i], q);
      InFragment(m, f, q, w[i..], t, k - 1);
    }
  }

  lemma {:induction false} ChainComplete(m: Machine, parts: seq<Part>, i: nat, j: nat, w: seq<int>)
    requires Chain(m, parts) && i <= j < |parts| && Matches(parts[j].rule.regex, w)
    ensures Path(m, parts[i].c, w, parts[j].e)
    decreases j - i
  {
    hide Matches, Path;
    assert Linked(m, parts, i);
    var q := if i == j then parts[i].s else parts[i + 1].c;
    if i == j {
      assert IsRule(m, parts[i]);
      assert Path(m, q, w, parts[j].e);
    } else {
      assert Linked(m, parts, i + 1);
      ChainComplete(m, parts, i + 1, j, w);
    }
    assert Moves(m, parts[i].c, [], q);
    OneMove(m, parts[i].c, [], q);
    Compose(m, parts[i].c, [], q, w, parts[j].e);
    assert [] + w == w;
  }

  /** The machine reaches an accepting node on a word exactly if that node is the end of a
      rule whose expression the word matches. */
  ghost predicate Recognizes(m: Machine, start: int, parts: seq<Part>) {
    forall w, t | 0 <= t < |m| && m[t].accept != NONE ::
      Path(m, start, w, t) <==> exists j :: AcceptsIn(parts, 0, j, w, t)
  }

  lemma ChainRecognizes(m: Machine, parts: seq<Part>)
    requires Chain(m, parts) && |parts| > 0
    ensures Recognizes(m, parts[0].c, parts)
  {
    hide Matches, IsRule, Chain;
    forall w, t | 0 <= t < |m| && m[t].accept != NONE
      ensures Path(m, parts[0].c, w, t) <==> exists j :: AcceptsIn(parts, 0, j, w, t)
    {
      if Path(m, parts[0].c, w, t) {
        var k: nat :| PathIn(m, parts[0].c, w, t, k);
        var j := ChainSound(m, parts, 0, w, t, k);
      }
      if j: int :| AcceptsIn(parts, 0, j, w, t) {
        ChainComplete(m, parts, 0, j, w);
      }
    }
  }

  // ----------------------------------------------------- nodes that are in use

  /** Cutting off nodes that no node links to changes no path. */
  lemma {:induction false} PrefixPath(m: Machine, n: nat, s: int, w: seq<int>, t: int, k: nat)
    requires n <= |m| && MachineOk(m[..n]) && 0 <= s < n
    ensures PathIn(m, s, w, t, k) <==> PathIn(m[..n], s, w, t, k)
    decreases k
  {
    if k > 0 {
      if PathIn(m, s, w, t, k) {
        var i, q := FirstOf(m, s, w, t, k);
        assert m[..n][s] == m[s] && NodeOk(n, m[..n][s]);
        PrefixPath(m, n, q, w[i..], t, k - 1);
        assert FirstMove(m[..n], s, w, t, k, i, q);
      }
      if PathIn(m[..n], s, w, t, k) {
        var i, q := FirstOf(m[..n], s, w, t, k);
        assert m[..n][s] == m[s] && NodeOk(n, m[..n][s]);
        PrefixPath(m, n, q, w[i..], t, k - 1);
        assert FirstMove(m, s, w, t, k, i, q);
      }
    }
  }

  lemma PrefixRecognizes(m: Machine, n: nat, start: int, parts: seq<Part>)
    requires n <= |m| && MachineOk(m[..n]) && 0 <= start < n && Recognizes(m, start, parts)
    ensures Recognizes(m[..n], start, parts)
  {
    hide Matches, AcceptsIn;
    forall w, t | 0 <= t < n && m[..n][t].accept != NONE
      ensures Path(m[..n], start, w, t) <==> exists j :: AcceptsIn(parts, 0, j, w, t)
    {
      assert m[..n][t] == m[t];
      if Path(m[..n], start, w, t) {
        var k: nat :| PathIn(m[..n], start, w, t, k);
        PrefixPath(m, n, start, w, t, k);
      }
      if Path(m, start, w, t) {
        var k: nat :| PathIn(m, start, w, t, k);
        PrefixPath(m, n, start, w, t, k);
      }
    }
  }

  lemma {:induction false} FindFoot(parts: seq<Part>, n: int)
    requires n in Feet(parts)
    ensures exists i :: 0 <= i < |parts| && n in parts[i].Foot()
  {
    var last := |parts| - 1;
    if n in parts[last].Foot() {
    } else {
      FindFoot(parts[..last], n);
      var i :| 0 <= i < |parts[..last]| && n in parts[..last][i].Foot();
      assert n in parts[i].Foot();
    }
  }

  /** Every node of the machine links only to other nodes of it. */
  lemma FeetOk(m: Machine, parts: seq<Part>, n: int)
    requires Chain(m, parts) && n in Feet(parts)
    ensures 0 <= n < |m| && (m[n].Labelled() ==> m[n].next != NONE)
    ensures (m[n].next == NONE || m[n].next in Feet(parts)) && (m[n].next2 == NONE || m[n].next2 in Feet(parts))
  {
    hide Accepts, Feet;
    FindFoot(parts, n);
    var i :| 0 <= i < |parts| && n in parts[i].Foot();
    FootIn(parts, i);
    assert IsRule(m, parts[i]) && Linked(m, parts, i);
    if n == parts[i].c && i + 1 < |parts| {
      FootIn(parts, i + 1);
      assert parts[i + 1].c in parts[i + 1].Foot();
    }
  }

  // ----------------------------------------------------- small facts about parts

  lemma RuleOutside(m: Machine, p: Part)
    requires IsRule(m, p)
    ensures p.c !in p.f && p.s in p.f && p.e in p.f
  {
  }

  lemma LastLink(m: Machine, parts: seq<Part>)
    requires |parts| > 0 && Chain(m, parts)
    ensures Linked(m, parts, |parts| - 1)
  {
  }

  lemma FeetSnoc(parts: seq<Part>, p: Part)
    ensures Feet(parts + [p]) == Feet(parts) + p.Foot()
  {
    assert (parts + [p])[..|parts|] == parts;
  }

  /** The accepting nodes are the ends of the rules, each with its own action. */
  ghost predicate AcceptsParts(m: Machine, parts: seq<Part>) {
    && (forall i | 0 <= i < |parts| :: 0 <= parts[i].e < |m| && m[parts[i].e].accept == parts[i].accept)
    && (forall i | 0 <= i < |parts| :: m[parts[i].e].anchor == parts[i].rule.anchor)
    && (forall i, j | 0 <= i < j < |parts| :: parts[i].e != parts[j].e)
    && (forall n | 0 <= n < |m| && m[n].accept != NONE :: exists i :: 0 <= i < |parts| && n == parts[i].e)
  }

  lemma PartsAccept(m: Machine, n: nat, parts: seq<Part>)
    requires Chain(m, parts) && n <= |m| && forall x | x in Feet(parts) :: x < n
    requires forall x | 0 <= x < n && x !in Feet(parts) :: m[x].accept == NONE
    ensures AcceptsParts(m[..n], parts)
  {
    hide Accepts, Feet;
    forall i | 0 <= i < |parts|
      ensures 0 <= parts[i].e < n && m[parts[i].e].accept == parts[i].accept
      ensures m[parts[i].e].anchor == parts[i].rule.anchor && parts[i].e in parts[i].Foot()
    {
      assert IsRule(m, parts[i]);
      FootIn(parts, i);
    }
    forall x | 0 <= x < n && m[x].accept != NONE ensures exists i :: 0 <= i < |parts| && x == parts[i].e {
      FindFoot(parts, x);
      var i :| 0 <= i < |parts| && x in parts[i].Foot();
      assert IsRule(m, parts[i]) && Linked(m, parts, i);
    }
  }
}
