/** Epsilon closure and moves on sets of NFA states (compiler/lex/terp.c). */
module Closures {
  import opened SetFacts
  import opened Nfa

  const INT_MAX: int := 0x7fff_ffff

  /** What an accepting state says: the address of the action and the anchors. */
  datatype Accept = Accept(action: int, anchor: nat)

  predicate InMachine(m: Machine, s: set<int>) {
    forall n | n in s :: 0 <= n < |m|
  }

  /** `n` can be reached from `s` without reading. */
  ghost predicate From(m: Machine, s: set<int>, n: int) {
    exists x :: x in s && Path(m, x, [], n)
  }

  /** `t` is what can be reached from `s` without reading. */
  ghost predicate Reaches(m: Machine, s: set<int>, t: set<int>) {
    forall n :: n in t <==> From(m, s, n)
  }

  predicate IsLowest(m: Machine, s: set<int>, n: int)
    requires InMachine(m, s)
  {
    n in s && m[n].accept != NONE && forall k | k in s && m[k].accept != NONE :: n <= k
  }

  /** `a` is what the lowest-numbered accepting state of `s` says, NONE if none accepts. */
  ghost predicate IsAccept(m: Machine, s: set<int>, a: Accept)
    requires InMachine(m, s)
  {
    if forall n | n in s :: m[n].accept == NONE then a.action == NONE
    else exists n :: IsLowest(m, s, n) && a == Accept(m[n].accept, m[n].anchor)
  }

  // ------------------------------------------------------------------ sizes

  predicate Distinct(s: seq<int>) {
    forall i, j | 0 <= i < j < |s| :: s[i] != s[j]
  }

  lemma SetBound(s: set<int>, n: nat)
    requires forall x | x in s :: 0 <= x < n
    ensures |s| <= n
  {
    forall x | x in s ensures x in Below(n) {
    }
    SubsetSize(s, Below(n));
  }

  /** A sequence of distinct states is no longer than the machine. */
  lemma DistinctBound(s: seq<int>, n: nat)
    requires Distinct(s) && forall i | 0 <= i < |s| :: 0 <= s[i] < n
    ensures |s| <= n
  {
    DistinctSize(s);
    var all := set x | x in s;
    SetBound(all, n);
  }

  // ----------------------------------------------------------- epsilon moves

  predicate EpsilonNext(m: Machine, i: int, n: int)
    requires 0 <= i < |m|
  {
    m[i].edge == EPSILON && n != NONE && (n == m[i].next || n == m[i].next2)
  }

  /** `s` contains where its states go without reading. */
  ghost predicate EpsilonClosed(m: Machine, s: set<int>) {
    InMachine(m, s) && forall i, n | i in s && EpsilonNext(m, i, n) :: n in s
  }

  lemma EpsilonStep(m: Machine, s: set<int>, i: int, n: int)
    requires 0 <= i < |m| && From(m, s, i) && EpsilonNext(m, i, n)
    ensures From(m, s, n)
  {
    var x :| x in s && Path(m, x, [], i);
    OneMove(m, i, [], n);
    Compose(m, x, [], i, [], n);
    var none: seq<int> := [];
    assert none + none == none;
  }

  lemma {:induction false} StaysInside(m: Machine, s: set<int>, x: int, n: int, k: nat)
    requires EpsilonClosed(m, s) && x in s && PathIn(m, x, [], n, k)
    ensures n in s
    decreases k
  {
    if k > 0 {
      var i, q := FirstOf(m, x, [], n, k);
      assert EpsilonNext(m, x, q);
      StaysInside(m, s, q, n, k - 1);
    }
  }

  /** A closed set that contains `s` and only what `s` reaches is what `s` reaches. */
  lemma ReachesIf(m: Machine, s: set<int>, t: set<int>)
    requires s <= t && EpsilonClosed(m, t)
    requires forall n | n in t :: From(m, s, n)
    ensures Reaches(m, s, t)
  {
    forall x, n | x in s && Path(m, x, [], n) ensures n in t {
      var k: nat :| PathIn(m, x, [], n, k);
      StaysInside(m, t, x, n, k);
    }
  }

  // ---------------------------------------------------------------- e_closure

  /** `out` so far: the states on the stack, whose moves have still to be followed, and the
      states `done`. The moves of `i` (if it is a state) are being followed right now. */
  ghost predicate Closing(m: Machine, input: set<int>, out: set<int>, stack: seq<int>, done: set<int>, i: int) {
    && input <= out && InMachine(m, out) && done <= out && Distinct(stack)
    && (forall j | 0 <= j < |stack| :: stack[j] in out && stack[j] !in done && stack[j] != i)
    && (forall n | n in out :: n in done || n in stack || n == i)
    && i !in done && (i != NONE ==> i in out)
    && (forall n | n in out :: From(m, input, n))
    && (forall j, n | j in done && EpsilonNext(m, j, n) :: n in out)
  }

  lemma Room(m: Machine, out: set<int>, stack: seq<int>, n: int)
    requires InMachine(m, out) && Distinct(stack) && (forall i | 0 <= i < |stack| :: stack[i] in out)
    requires n !in out && 0 <= n < |m|
    ensures |stack| < |m| && Distinct(stack + [n])
  {
    DistinctBound(stack + [n], |m|);
  }

  /** One of the two links of the state whose moves are being followed. */
  method Follow(m: Machine, ghost input: set<int>, stack: array<int>, tos: nat, out: set<int>, ghost done: set<int>,
        ghost i: int, n: int)
    returns (tos': nat, out': set<int>)
    requires MachineOk(m) && |m| <= NFA_MAX == stack.Length && tos <= NFA_MAX
    requires Closing(m, input, out, stack[..tos], done, i) && i != NONE && m[i].edge == EPSILON
    requires (n == m[i].next || n == m[i].next2)
    modifies stack
    ensures tos' <= NFA_MAX && out <= out' && Closing(m, input, out', stack[..tos'], done, i)
    ensures (n != NONE ==> n in out')
  {
    hide From;
    tos', out' := tos, out;
    if n != NONE && n !in out {
      assert NodeOk(|m|, m[i]) && EpsilonNext(m, i, n);
      EpsilonStep(m, input, i, n);
      Room(m, out, stack[..tos], n);
      stack[tos] := n;
      tos', out' := tos + 1, out + {n};
      assert stack[..tos'] == old(stack[..tos]) + [n];
    }
  }

  /** What has been noted about the accepting states among `done`. */
  predicate Noted(m: Machine, done: set<int>, num: int, a: Accept)
    requires InMachine(m, done)
  {
    if num == INT_MAX then a.action == NONE && forall n | n in done :: m[n].accept == NONE
    else IsLowest(m, done, num) && a == Accept(m[num].accept, m[num].anchor)
  }

  lemma Popped(m: Machine, input: set<int>, out: set<int>, stack: seq<int>, done: set<int>, i: int)
    requires Closing(m, input, out, stack + [i], done, NONE)
    ensures Closing(m, input, out, stack, done, i) && 0 <= i < |m| && i !in done && i != NONE
  {
    hide From;
    var all := stack + [i];
    assert all[|stack|] == i;
    assert forall j | 0 <= j < |stack| :: all[j] == stack[j];
  }

  lemma Followed(m: Machine, input: set<int>, out: set<int>, stack: seq<int>, done: set<int>, i: int)
    requires Closing(m, input, out, stack, done, i) && i != NONE
    requires forall n | EpsilonNext(m, i, n) :: n in out
    ensures Closing(m, input, out, stack, done + {i}, NONE)
  {
    hide From;
  }

  /** Every member of the input goes on the stack first. */
  method PushAll(m: Machine, input: set<int>) returns (stack: array<int>, tos: nat)
    requires InMachine(m, input) && |m| <= NFA_MAX
    ensures fresh(stack) && stack.Length == NFA_MAX && tos <= NFA_MAX
    ensures Distinct(stack[..tos]) && forall x :: x in stack[..tos] <==> x in input
  {
    stack := new int[NFA_MAX];
    tos := 0;
    for i := 0 to |m|
      invariant tos <= i && (forall j | 0 <= j < tos :: stack[j] < i) && Distinct(stack[..tos])
      invariant forall x :: x in stack[..tos] <==> x in input && x < i
    {
      if i in input {
        stack[tos] := i;
        tos := tos + 1;
        assert stack[..tos] == stack[..tos - 1] + [i];
      }
    }
  }

  lemma AtStart(m: Machine, input: set<int>, stack: seq<int>)
    requires InMachine(m, input) && Distinct(stack) && forall x :: x in stack <==> x in input
    ensures Closing(m, input, input, stack, {}, NONE)
  {
    assert forall j | 0 <= j < |stack| :: stack[j] in stack;
    forall n | n in input ensures From(m, input, n) {
      Stay(m, n);
    }
  }

  method EClosure(m: Machine, input: set<int>) returns (out: set<int>, a: Accept)
    requires MachineOk(m) && |m| <= NFA_MAX && InMachine(m, input)
    ensures InMachine(m, out) && Reaches(m, input, out) && EpsilonClosed(m, out) && IsAccept(m, out, a)
  {
    hide From, Distinct, Closing;
    var stack, tos := PushAll(m, input);
    AtStart(m, input, stack[..tos]);
    ghost var done := {};
    var num := INT_MAX;
    out, a := input, Accept(NONE, 0);
    while tos > 0
      invariant tos <= NFA_MAX && Closing(m, input, out, stack[..tos], done, NONE)
      invariant InMachine(m, done) && Noted(m, done, num, a)
      decreases |m| - |done|
    {
      tos := tos - 1;
      var i := stack[tos];
      assert stack[..tos + 1] == stack[..tos] + [i];
      Popped(m, input, out, stack[..tos], done, i);
      if m[i].accept != NONE && i < num {
        num, a := i, Accept(m[i].accept, m[i].anchor);
      }
      if m[i].edge == EPSILON {
        tos, out := Follow(m, input, stack, tos, out, done, i, m[i].next);
        tos, out := Follow(m, input, stack, tos, out, done, i, m[i].next2);
      }
      Followed(m, input, out, stack[..tos], done, i);
      SetBound(done + {i}, |m|);
      done := done + {i};
    }
    AtEnd(m, input, out, done);
  }

  lemma AtEnd(m: Machine, input: set<int>, out: set<int>, done: set<int>)
    requires Closing(m, input, out, [], done, NONE)
    ensures out == done && InMachine(m, out) && Reaches(m, input, out) && EpsilonClosed(m, out)
  {
    hide From;
    forall n | n in out ensures n in done {
    }
    assert out <= done;
    ReachesIf(m, input, out);
  }

  // -------------------------------------------------------------------- move

  /** move: where the states of `s` go on the character `c`; null if nowhere, which is the
      empty set here. */
  method Move(m: Machine, s: set<int>, c: int) returns (out: set<int>)
    requires MachineOk(m) && InMachine(m, s) && c >= 0
    ensures InMachine(m, out)
    ensures forall n :: n in out <==> exists i :: i in s && m[i].On(c) && n == m[i].next
  {
    out := {};
    var i := |m|;
    while i > 0
      invariant 0 <= i <= |m| && InMachine(m, out)
      invariant forall n :: n in out <==> exists j :: j in s && j >= i && m[j].On(c) && n == m[j].next
    {
      i := i - 1;
      if i in s && m[i].On(c) {
        assert NodeOk(|m|, m[i]);
        out := out + {m[i].next};
      }
    }
  }
}
