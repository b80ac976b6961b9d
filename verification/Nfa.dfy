/** Nondeterministic automata as compiler/lex/nfa.h lays them out, and their paths. */
module Nfa {

  const EPSILON: int := -1
  const CCL: int := -2
  const EMPTY: int := -3
  const NONE: int := -1
  const NFA_MAX: nat := 768

  /** A character class with its complement flag. */
  datatype CharSet = CharSet(chars: set<int>, compl: bool)
  {
    /** SET_TEST. */
    predicate Test(c: int) { (c in chars) != compl }
  }

  /** `next` and `next2` are indices into the state array, or NONE. `accept` is the
      address of the action string, or NONE. */
  datatype Node = Node(edge: int, bitset: CharSet, next: int, next2: int, accept: int, anchor: nat)
  {
    /** There is a transition to `next` on character `c`. */
    predicate On(c: int) { edge == c || (edge == CCL && bitset.Test(c)) }

    predicate Labelled() { edge >= 0 || edge == CCL }
  }

  type Machine = seq<Node>

  predicate NodeOk(n: nat, node: Node) {
    && NONE <= node.next < n && NONE <= node.next2 < n
    && (node.Labelled() ==> node.next != NONE)
  }

  predicate MachineOk(m: Machine) {
    forall i | 0 <= i < |m| :: NodeOk(|m|, m[i])
  }

  /** The words the automaton reads: characters 0..127. */
  predicate IsWord(w: seq<int>) {
    forall i | 0 <= i < |w| :: 0 <= w[i] < 128
  }

  /** One move from state `s` to `t`, reading `w` (nothing or one character). */
  predicate Moves(m: Machine, s: int, w: seq<int>, t: int) {
    0 <= s < |m| && t != NONE &&
    if m[s].edge == EPSILON then w == [] && (t == m[s].next || t == m[s].next2)
    else |w| == 1 && w[0] >= 0 && m[s].On(w[0]) && t == m[s].next
  }

  /** `k` moves lead from `s` to `t`, reading `w`. */
  ghost predicate PathIn(m: Machine, s: int, w: seq<int>, t: int, k: nat)
    decreases k
  {
    if k == 0 then s == t && w == []
    else exists i, q :: FirstMove(m, s, w, t, k, i, q)
  }

  /** The first of the moves reads `w[..i]` and leads to `q`. */
  ghost predicate FirstMove(m: Machine, s: int, w: seq<int>, t: int, k: nat, i: nat, q: int)
    requires k > 0
    decreases k, 0
  {
    i <= |w| && Moves(m, s, w[..i], q) && PathIn(m, q, w[i..], t, k - 1)
  }

  ghost predicate Path(m: Machine, s: int, w: seq<int>, t: int) {
    exists k: nat :: PathIn(m, s, w, t, k)
  }

  /** A path that is not empty has a first move. */
  lemma FirstOf(m: Machine, s: int, w: seq<int>, t: int, k: nat) returns (i: nat, q: int)
    requires PathIn(m, s, w, t, k) && (k > 0 || s != t || w != [])
    ensures k > 0 && FirstMove(m, s, w, t, k, i, q)
  {
    i, q :| FirstMove(m, s, w, t, k, i, q);
  }

  lemma {:induction false} PathConcat(m: Machine, s: int, u: seq<int>, q: int, j: nat, v: seq<int>, t: int, k: nat)
    requires PathIn(m, s, u, q, j) && PathIn(m, q, v, t, k)
    ensures PathIn(m, s, u + v, t, j + k)
    decreases j
  {
    if j == 0 {
      assert u + v == v;
    } else {
      var i: nat, r :| FirstMove(m, s, u, q, j, i, r);
      PathConcat(m, r, u[i..], q, j - 1, v, t, k);
      assert (u + v)[..i] == u[..i] && (u + v)[i..] == u[i..] + v;
      assert FirstMove(m, s, u + v, t, j + k, i, r);
    }
  }

  lemma Compose(m: Machine, s: int, u: seq<int>, q: int, v: seq<int>, t: int)
    requires Path(m, s, u, q) && Path(m, q, v, t)
    ensures Path(m, s, u + v, t)
  {
    var j: nat :| PathIn(m, s, u, q, j);
    var k: nat :| PathIn(m, q, v, t, k);
    PathConcat(m, s, u, q, j, v, t, k);
  }

  lemma OneMove(m: Machine, s: int, w: seq<int>, t: int)
    requires Moves(m, s, w, t)
    ensures Path(m, s, w, t)
  {
    assert w[..|w|] == w && w[|w|..] == [];
    assert PathIn(m, t, [], t, 0);
    assert FirstMove(m, s, w, t, 1, |w|, t);
    assert PathIn(m, s, w, t, 1);
  }

  lemma Stay(m: Machine, s: int)
    ensures Path(m, s, [], s)
  {
    assert PathIn(m, s, [], s, 0);
  }
}
