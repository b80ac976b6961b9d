/** The tree of unfinished states (add_unfinished and get_unfinished in
    compiler/parser/yystate.c): an unbalanced search tree whose nodes come from an array
    and are used again through a free list. It implements a set of state numbers from which
    the least is taken. */
module Unfinished {
  import LrStates
  import opened SetFacts

  const NULL: int := -1

  // --------------------------------------------------------------------- trees

  datatype Shape = Empty | Node(l: Shape, at: int, num: int, r: Shape)

  function Keys(t: Shape): set<int> {
    match t
    case Empty => {}
    case Node(l, _, num, r) => Keys(l) + {num} + Keys(r)
  }

  function Nodes(t: Shape): set<int> {
    match t
    case Empty => {}
    case Node(l, at, _, r) => Nodes(l) + {at} + Nodes(r)
  }

  predicate Ordered(t: Shape) {
    match t
    case Empty => true
    case Node(l, _, num, r) =>
      Ordered(l) && Ordered(r) && (forall k | k in Keys(l) :: k < num) && forall k | k in Keys(r) :: num < k
  }

  /** No node is used twice. */
  predicate Apart(t: Shape) {
    match t
    case Empty => true
    case Node(l, at, _, r) => Apart(l) && Apart(r) && at !in Nodes(l) && at !in Nodes(r) && Nodes(l) !! Nodes(r)
  }

  datatype Memory = Memory(num: seq<int>, left: seq<int>, right: seq<int>)

  /** The pointers from `p` on form the tree `t`. */
  predicate Linked(m: Memory, t: Shape, p: int) {
    match t
    case Empty => p == NULL
    case Node(l, at, num, r) =>
      && p == at && 0 <= at < |m.num| == |m.left| == |m.right| && m.num[at] == num
      && Linked(m, l, m.left[at]) && Linked(m, r, m.right[at])
  }

  function Inserted(t: Shape, at: int, k: int): Shape {
    match t
    case Empty => Node(Empty, at, k, Empty)
    case Node(l, a, num, r) =>
      if k == num then t
      else if k < num then Node(Inserted(l, at, k), a, num, r) else Node(l, a, num, Inserted(r, at, k))
  }

  function Least(t: Shape): Shape
    requires t.Node?
  {
    if t.l.Empty? then t else Least(t.l)
  }

  function WithoutLeast(t: Shape): Shape
    requires t.Node?
  {
    if t.l.Empty? then t.r else t.(l := WithoutLeast(t.l))
  }

  lemma {:induction false} InsertedIs(t: Shape, at: int, k: int)
    requires Ordered(t)
    ensures Ordered(Inserted(t, at, k)) && Keys(Inserted(t, at, k)) == Keys(t) + {k}
    ensures if k in Keys(t) then Inserted(t, at, k) == t
            else
              Nodes(Inserted(t, at, k)) == Nodes(t) + {at} &&
              (Apart(t) && at !in Nodes(t) ==> Apart(Inserted(t, at, k)))
  {
    if t.Node? {
      if k < t.num {
        InsertedIs(t.l, at, k);
      } else if k > t.num {
        InsertedIs(t.r, at, k);
      }
    }
  }

  lemma {:induction false} LeastIs(t: Shape)
    requires t.Node? && Ordered(t)
    ensures var s := Least(t);
      && s.Node? && s.num in Keys(t) && (forall k | k in Keys(t) :: s.num <= k) && s.at in Nodes(t)
      && Ordered(WithoutLeast(t)) && Keys(WithoutLeast(t)) == Keys(t) - {s.num}
      && (Apart(t) ==> Apart(WithoutLeast(t)) && Nodes(WithoutLeast(t)) == Nodes(t) - {s.at})
  {
    if t.l.Node? {
      LeastIs(t.l);
    }
  }

  // --------------------------------------------------------------------- paths

  datatype Turn = GoLeft | GoRight

  /** A pointer: the root or a link of a node. */
  datatype Slot = Root | LeftOf(i: int) | RightOf(i: int)

  function Child(t: Shape, d: Turn): Shape
    requires t.Node?
  {
    if d == GoLeft then t.l else t.r
  }

  function WithChild(t: Shape, d: Turn, s: Shape): Shape
    requires t.Node?
  {
    if d == GoLeft then t.(l := s) else t.(r := s)
  }

  predicate IsPath(t: Shape, path: seq<Turn>) {
    path == [] || (t.Node? && IsPath(Child(t, path[0]), path[1..]))
  }

  function Sub(t: Shape, path: seq<Turn>): Shape
    requires IsPath(t, path)
  {
    if path == [] then t else Sub(Child(t, path[0]), path[1..])
  }

  function Graft(t: Shape, path: seq<Turn>, s: Shape): Shape
    requires IsPath(t, path)
  {
    if path == [] then s else WithChild(t, path[0], Graft(Child(t, path[0]), path[1..], s))
  }

  function SlotOf(t: Shape, path: seq<Turn>): Slot
    requires IsPath(t, path)
  {
    if path == [] then Root
    else if |path| == 1 then if path[0] == GoLeft then LeftOf(t.at) else RightOf(t.at)
    else SlotOf(Child(t, path[0]), path[1..])
  }

  /** One step further down. */
  lemma {:induction false} PathSnoc(t: Shape, path: seq<Turn>, d: Turn, s: Shape)
    requires IsPath(t, path) && Sub(t, path).Node?
    ensures IsPath(t, path + [d]) && Sub(t, path + [d]) == Child(Sub(t, path), d)
    ensures SlotOf(t, path + [d]) == if d == GoLeft then LeftOf(Sub(t, path).at) else RightOf(Sub(t, path).at)
    ensures Graft(t, path + [d], s) == Graft(t, path, WithChild(Sub(t, path), d, s))
    decreases path
  {
    if path == [] {
      assert ([] + [d])[1..] == [];
    } else {
      assert (path + [d])[1..] == path[1..] + [d];
      PathSnoc(Child(t, path[0]), path[1..], d, s);
    }
  }

  lemma {:induction false} GraftSame(t: Shape, path: seq<Turn>)
    requires IsPath(t, path)
    ensures Graft(t, path, Sub(t, path)) == t
    decreases path
  {
    if path != [] { GraftSame(Child(t, path[0]), path[1..]); }
  }

  lemma {:induction false} GraftAt(t: Shape, path: seq<Turn>, s: Shape)
    requires IsPath(t, path)
    ensures IsPath(Graft(t, path, s), path) && Sub(Graft(t, path, s), path) == s
    decreases path
  {
    if path != [] { GraftAt(Child(t, path[0]), path[1..], s); }
  }

  lemma {:induction false} SubNodes(t: Shape, path: seq<Turn>)
    requires IsPath(t, path)
    ensures Nodes(Sub(t, path)) <= Nodes(t)
    decreases path
  {
    if path != [] { SubNodes(Child(t, path[0]), path[1..]); }
  }

  /** Memory that agrees on the nodes of a tree holds the same tree. */
  predicate AgreeOn(m: Memory, m': Memory, s: set<int>) {
    |m'.num| == |m.num| && |m'.left| == |m.left| && |m'.right| == |m.right| &&
    forall i | i in s && 0 <= i < |m.num| && i < |m.left| && i < |m.right| ::
      m'.num[i] == m.num[i] && m'.left[i] == m.left[i] && m'.right[i] == m.right[i]
  }

  lemma {:induction false} LinkedKept(m: Memory, m': Memory, t: Shape, p: int)
    requires Linked(m, t, p) && AgreeOn(m, m', Nodes(t))
    ensures Linked(m', t, p)
  {
    if t.Node? {
      LinkedKept(m, m', t.l, m.left[t.at]);
      LinkedKept(m, m', t.r, m.right[t.at]);
    }
  }

  function Assigned(m: Memory, slot: Slot, p: int): Memory {
    match slot
    case Root => m
    case LeftOf(i) => if 0 <= i < |m.left| then m.(left := m.left[i := p]) else m
    case RightOf(i) => if 0 <= i < |m.right| then m.(right := m.right[i := p]) else m
  }

  /** Another tree has been hung up at the end of the path. */
  lemma {:induction false} GraftLinked(m: Memory, m': Memory, t: Shape, p: int, path: seq<Turn>, s: Shape, q: int)
    requires Linked(m, t, p) && Apart(t) && IsPath(t, path) && Linked(m', s, q)
    requires AgreeOn(Assigned(m, SlotOf(t, path), q), m', Nodes(t) - Nodes(Sub(t, path)))
    ensures Linked(m', Graft(t, path, s), if path == [] then q else p)
    decreases path
  {
    hide AgreeOn, Assigned, Apart, SlotOf, Nodes;
    if path != [] {
      var d := path[0];
      var r := if d == GoLeft then m.left[t.at] else m.right[t.at];
      OtherSide(m, m', t, p, path, q);
      AtTop(m, m', t, p, path, q);
      if |path| > 1 {
        GraftLinked(m, m', Child(t, d), r, path[1..], s, q);
      } else {
        assert path[1..] == [];
      }
    }
  }

  /** The first node of the path. */
  lemma AtTop(m: Memory, m': Memory, t: Shape, p: int, path: seq<Turn>, q: int)
    requires Linked(m, t, p) && Apart(t) && IsPath(t, path) && path != []
    requires AgreeOn(Assigned(m, SlotOf(t, path), q), m', Nodes(t) - Nodes(Sub(t, path)))
    ensures Apart(Child(t, path[0]))
    ensures |path| > 1 ==>
      AgreeOn(Assigned(m, SlotOf(Child(t, path[0]), path[1..]), q), m', Nodes(Child(t, path[0])) - Nodes(Sub(t, path)))
    ensures |m'.num| == |m'.left| == |m'.right| == |m.num| && m'.num[t.at] == t.num
    ensures m'.left[t.at] == if path == [GoLeft] then q else m.left[t.at]
    ensures m'.right[t.at] == if path == [GoRight] then q else m.right[t.at]
  {
    SubNodes(Child(t, path[0]), path[1..]);
    if |path| > 1 { SlotIn(Child(t, path[0]), path[1..]); }
  }

  /** The subtree beside the path is untouched. */
  lemma OtherSide(m: Memory, m': Memory, t: Shape, p: int, path: seq<Turn>, q: int)
    requires Linked(m, t, p) && Apart(t) && IsPath(t, path) && path != []
    requires AgreeOn(Assigned(m, SlotOf(t, path), q), m', Nodes(t) - Nodes(Sub(t, path)))
    ensures if path[0] == GoLeft then Linked(m', t.r, m.right[t.at]) else Linked(m', t.l, m.left[t.at])
  {
    var d := path[0];
    var c, o := Child(t, d), Child(t, if d == GoLeft then GoRight else GoLeft);
    SubNodes(c, path[1..]);
    if |path| > 1 {
      SlotIn(c, path[1..]);
    }
    assert AgreeOn(m, m', Nodes(o));
    LinkedKept(m, m', o, if d == GoLeft then m.right[t.at] else m.left[t.at]);
  }

  lemma {:induction false} SlotIn(t: Shape, path: seq<Turn>)
    requires IsPath(t, path) && path != []
    ensures !SlotOf(t, path).Root? && SlotOf(t, path).i in Nodes(t)
    decreases path
  {
    if |path| > 1 { SlotIn(Child(t, path[0]), path[1..]); }
  }

  // ------------------------------------------------------------------ free nodes

  /** The free list, linked through the left pointers. */
  predicate FreeList(m: Memory, free: seq<int>, p: int)
    decreases free
  {
    if free == [] then p == NULL else p == free[0] && 0 <= p < |m.left| && FreeList(m, free[1..], m.left[p])
  }

  predicate Distinct(free: seq<int>) {
    forall i, j | 0 <= i < j < |free| :: free[i] != free[j]
  }

  lemma {:induction false} FreeKept(m: Memory, m': Memory, free: seq<int>, p: int)
    requires FreeList(m, free, p) && |m'.left| == |m.left|
    requires forall i | i in free && 0 <= i < |m.left| :: m'.left[i] == m.left[i]
    ensures FreeList(m', free, p)
    decreases free
  {
    if free != [] { FreeKept(m, m', free[1..], m.left[p]); }
  }

  predicate Below(n: int, i: int) { 0 <= i < n }

  function Upto(n: nat): set<int> { set i | 0 <= i < n && Below(n, i) }

  lemma {:induction false} UptoSize(n: nat)
    ensures |Upto(n)| == n
  {
    if n > 0 {
      UptoSize(n - 1);
      assert Below(n, n - 1) && (forall i | Below(n - 1, i) :: Below(n, i));
      assert Upto(n) == Upto(n - 1) + {n - 1};
    }
  }

  lemma SizeOfThree<T>(a: set<T>, x: T, b: set<T>)
    requires a !! b && x !in a && x !in b
    ensures |a + {x} + b| == |a| + 1 + |b|
  {
  }

  lemma {:induction false} TreeSize(t: Shape)
    requires Ordered(t) && Apart(t)
    ensures |Keys(t)| == |Nodes(t)|
  {
    if t.Node? {
      TreeSize(t.l);
      TreeSize(t.r);
      forall k | k in Keys(t.l) ensures k !in Keys(t.r) {
      }
      SizeOfThree(Keys(t.l), t.num, Keys(t.r));
      SizeOfThree(Nodes(t.l), t.at, Nodes(t.r));
    }
  }

  /** Every node that has been used is either in the tree or on the free list. */
  ghost predicate Partition(t: Shape, free: seq<int>, nextAlloc: nat) {
    && Apart(t) && Distinct(free) && (forall i | i in free :: i !in Nodes(t))
    && (forall i :: i in Nodes(t) || i in free <==> 0 <= i < nextAlloc)
  }

  lemma {:induction false} AllInTree(t: Shape, nextAlloc: nat)
    requires Partition(t, [], nextAlloc) && Ordered(t)
    ensures |Keys(t)| == nextAlloc
  {
    TreeSize(t);
    UptoSize(nextAlloc);
    forall i ensures i in Nodes(t) <==> i in Upto(nextAlloc) {
      assert Below(nextAlloc, i) <==> 0 <= i < nextAlloc;
    }
    assert Nodes(t) == Upto(nextAlloc);
  }

  // ------------------------------------------------------------------ operations

  class Tree {
    const num: array<int>
    const left: array<int>
    const right: array<int>
    var root: int
    var available: int
    var nextAlloc: nat
    ghost var t: Shape
    ghost var free: seq<int>

    ghost function M(): Memory
      reads num, left, right
    {
      Memory(num[..], left[..], right[..])
    }

    ghost predicate Arrays() {
      num.Length == left.Length == right.Length == LrStates.MAXUNFINISHED && num != left && left != right &&
      num != right
    }

    ghost predicate Valid()
      reads this, num, left, right
    {
      && Arrays() && nextAlloc <= LrStates.MAXUNFINISHED
      && Linked(M(), t, root) && Ordered(t) && FreeList(M(), free, available) && Partition(t, free, nextAlloc)
    }

    twostate predicate Same()
      reads this
    {
      unchanged(`root) && unchanged(`available) && unchanged(`nextAlloc) && unchanged(`t) && unchanged(`free)
    }

    ghost function Members(): set<int>
      reads `t
    {
      Keys(t)
    }

    constructor ()
      ensures Valid() && Members() == {} && fresh(num) && fresh(left) && fresh(right)
    {
      num := new int[LrStates.MAXUNFINISHED];
      left := new int[LrStates.MAXUNFINISHED];
      right := new int[LrStates.MAXUNFINISHED];
      root, available, nextAlloc := NULL, NULL, 0;
      t, free := Empty, [];
      new;
      NothingUsed();
    }

    lemma NothingUsed()
      requires Arrays() && t == Empty && free == [] && root == available == NULL && nextAlloc == 0
      ensures Valid() && Members() == {}
    {
      forall i ensures i in Nodes(t) || i in free <==> 0 <= i < nextAlloc {
      }
    }

    /** Storing a pointer. */
    method Put(slot: Slot, p: int)
      requires Arrays() && (slot.Root? || 0 <= slot.i < left.Length)
      modifies `root, left, right
      ensures M() == Assigned(old(M()), slot, p) && root == if slot.Root? then p else old(root)
    {
      match slot
      case Root => root := p;
      case LeftOf(i) => left[i] := p;
      case RightOf(i) => right[i] := p;
    }

    /** add_unfinished. It fails exactly if the state is new and every node is in the tree. */
    method Add(k: int) returns (ok: bool)
      requires Valid()
      modifies this, num, left, right
      ensures ok <==> k in old(Members()) || |old(Members())| < LrStates.MAXUNFINISHED
      ensures Valid() && Members() == if ok then old(Members()) + {k} else old(Members())
    {
      ghost var path: seq<Turn> := [];
      var parent := Root;
      var p := root;
      InsertedIs(t, 0, k);
      while p != NULL && k != num[p]
        invariant Valid() && M() == old(M()) && Same()
        invariant IsPath(t, path) && Linked(M(), Sub(t, path), p) && parent == SlotOf(t, path)
        invariant forall at :: Inserted(t, at, k) == Graft(t, path, Inserted(Sub(t, path), at, k))
        decreases Sub(t, path)
      {
        var d := if k < num[p] then GoLeft else GoRight;
        PathSnoc(t, path, d, Empty);
        forall at ensures Inserted(t, at, k) == Graft(t, path + [d], Inserted(Child(Sub(t, path), d), at, k)) {
          PathSnoc(t, path, d, Inserted(Child(Sub(t, path), d), at, k));
        }
        parent := if k < num[p] then LeftOf(p) else RightOf(p);
        p := if k < num[p] then left[p] else right[p];
        path := path + [d];
      }
      if p != NULL {
        Found(t, path, k);
        return true;
      }
      Missing(t, path, k);
      ok := Hang(parent, path, k);
    }

    /** A new node is hung up at the end of the path. */
    method Hang(parent: Slot, ghost path: seq<Turn>, k: int) returns (ok: bool)
      requires Valid() && IsPath(t, path) && Sub(t, path) == Empty && parent == SlotOf(t, path) && k !in Keys(t)
      requires forall at :: Inserted(t, at, k) == Graft(t, path, Node(Empty, at, k, Empty))
      modifies this, num, left, right
      ensures ok <==> |old(Members())| < LrStates.MAXUNFINISHED
      ensures Valid() && Members() == if ok then old(Members()) + {k} else old(Members())
    {
      hide Linked, FreeList, Partition, Inserted, Keys, Nodes, Ordered, Graft, Assigned;
      ghost var m, r0, free0, next0 := M(), root, free, nextAlloc;
      SlotThere(m, t, root, path, free, nextAlloc);
      var at;
      if available != NULL {
        at := available;
        FreeFirst(m, t, free, available, nextAlloc);
        Put(parent, at);
        NotAssigned(m, parent, at, at);
        available := left[available];
        free := free[1..];
      } else {
        NoneFree(m, t, free, available, nextAlloc);
        if nextAlloc >= LrStates.MAXUNFINISHED { return false; }
        at := nextAlloc;
        Put(parent, at);
        nextAlloc := nextAlloc + 1;
      }
      num[at], left[at], right[at] := k, NULL, NULL;
      ok := true;
      Hung(m, M(), t, r0, path, at, k, free0, free, available, next0, nextAlloc);
      t := Inserted(t, at, k);
    }

    /** get_unfinished: the state with the least number is taken out. */
    method Get() returns (found: bool, k: int)
      requires Valid()
      modifies this, left, right
      ensures Valid() && found == (old(Members()) != {})
      ensures found ==>
        k in old(Members()) && (forall i | i in old(Members()) :: k <= i) && Members() == old(Members()) - {k}
      ensures !found ==> Members() == {}
    {
      if root == NULL {
        NoTree(M(), t);
        return false, 0;
      }
      ghost var path: seq<Turn> := [];
      var parent := Root;
      var p := root;
      while left[p] != NULL
        invariant p != NULL && Valid() && M() == old(M()) && Same()
        invariant IsPath(t, path) && Linked(M(), Sub(t, path), p) && parent == SlotOf(t, path)
        invariant t.Node? && Least(t) == Least(Sub(t, path))
        invariant WithoutLeast(t) == Graft(t, path, WithoutLeast(Sub(t, path)))
        decreases Sub(t, path)
      {
        PathSnoc(t, path, GoLeft, WithoutLeast(Sub(t, path).l));
        parent := LeftOf(p);
        p := left[p];
        path := path + [GoLeft];
      }
      k := num[p];
      found := true;
      LeastIs(t);
      LeastAt(M(), t, path, p);
      TakeOut(parent, path, p);
    }

    /** The node at the end of the path becomes the first free one. */
    method TakeOut(parent: Slot, ghost path: seq<Turn>, p: nat)
      requires Valid() && t.Node? && IsPath(t, path) && parent == SlotOf(t, path) && Sub(t, path).Node?
      requires p < right.Length && Linked(M(), Sub(t, path).r, right[p]) && Sub(t, path).l == Empty
      requires Least(t) == Sub(t, path) && p == Sub(t, path).at
      requires WithoutLeast(t) == Graft(t, path, Sub(t, path).r)
      modifies this, left, right
      ensures Valid() && t == WithoutLeast(old(t))
    {
      hide Linked, FreeList, Partition, Keys, Nodes, Ordered, Graft, Assigned, WithoutLeast, Sub, SlotOf, IsPath;
      ghost var m, r0, free0, a0 := M(), root, free, available;
      SlotThere(m, t, root, path, free, nextAlloc);
      LeastIs(t);
      Put(parent, right[p]);
      left[p] := available;
      available := p;
      free := [p] + free;
      TakenOut(m, M(), t, r0, path, p, free0, a0, nextAlloc);
      t := WithoutLeast(t);
    }
  }

  lemma Found(t: Shape, path: seq<Turn>, k: int)
    requires IsPath(t, path) && Sub(t, path).Node? && Sub(t, path).num == k
    ensures k in Keys(t)
    decreases path
  {
    if path != [] { Found(Child(t, path[0]), path[1..], k); }
  }

  lemma Missing(t: Shape, path: seq<Turn>, k: int)
    requires Ordered(t) && IsPath(t, path) && Sub(t, path) == Empty
    requires Inserted(t, 0, k) == Graft(t, path, Node(Empty, 0, k, Empty))
    ensures k !in Keys(t)
  {
    InsertedIs(t, 0, k);
    GraftAt(t, path, Node(Empty, 0, k, Empty));
  }

  lemma SlotThere(m: Memory, t: Shape, p: int, path: seq<Turn>, free: seq<int>, next: nat)
    requires IsPath(t, path) && Partition(t, free, next)
    ensures var s := SlotOf(t, path); if path == [] then s.Root? else !s.Root? && 0 <= s.i < next && s.i in Nodes(t)
  {
    if path != [] { SlotIn(t, path); }
  }

  lemma FreeFirst(m: Memory, t: Shape, free: seq<int>, available: int, next: nat)
    requires FreeList(m, free, available) && Partition(t, free, next) && available != NULL
    ensures free != [] && available == free[0] && available !in Nodes(t) && 0 <= available < next
    ensures available < |m.left| && FreeList(m, free[1..], m.left[available])
    ensures Ordered(t) ==> |Keys(t)| < next
  {
    assert free[0] in free;
    if Ordered(t) {
      TreeSize(t);
      UptoSize(next);
      forall i | i in Nodes(t) + {free[0]} ensures i in Upto(next) {
        assert Below(next, i);
      }
      SubsetSize(Nodes(t) + {free[0]}, Upto(next));
    }
  }

  lemma NotAssigned(m: Memory, slot: Slot, p: int, i: int)
    requires 0 <= i < |m.left| && (slot.Root? || slot.i != i)
    ensures |Assigned(m, slot, p).left| == |m.left| && Assigned(m, slot, p).left[i] == m.left[i]
  {
  }

  lemma NoneFree(m: Memory, t: Shape, free: seq<int>, available: int, next: nat)
    requires FreeList(m, free, available) && Partition(t, free, next) && available == NULL && Ordered(t)
    ensures free == [] && |Keys(t)| == next && next !in Nodes(t)
  {
    AllInTree(t, next);
  }

  lemma NoTree(m: Memory, t: Shape)
    requires Linked(m, t, NULL)
    ensures Keys(t) == {}
  {
  }

  lemma LinkedNull(m: Memory, t: Shape)
    requires Linked(m, t, NULL)
    ensures t == Empty
  {
  }

  /** At the end of the path to the left is the least member. */
  lemma LeastAt(m: Memory, t: Shape, path: seq<Turn>, p: int)
    requires t.Node? && IsPath(t, path) && Linked(m, Sub(t, path), p) && p != NULL && m.left[p] == NULL
    requires Least(t) == Least(Sub(t, path))
    ensures Sub(t, path).Node? && Sub(t, path).l == Empty && Least(t) == Sub(t, path) && p == Least(t).at
    ensures m.num[p] == Least(t).num
    ensures Linked(m, Sub(t, path).r, m.right[p]) && WithoutLeast(Sub(t, path)) == Sub(t, path).r
  {
    var s := Sub(t, path);
    assert s.Node?;
    LinkedNull(m, s.l);
  }

  lemma {:induction false} SlotOutside(t: Shape, path: seq<Turn>)
    requires Apart(t) && IsPath(t, path) && path != []
    ensures !SlotOf(t, path).Root? && SlotOf(t, path).i !in Nodes(Sub(t, path))
    decreases path
  {
    SubNodes(Child(t, path[0]), path[1..]);
    if |path| > 1 { SlotOutside(Child(t, path[0]), path[1..]); }
  }

  /** The least member has been taken out, and its node is the first free one. */
  lemma TakenOut(m: Memory, m': Memory, t: Shape, root: int, path: seq<Turn>, p: int, free: seq<int>, available: int,
        next: nat)
    requires Linked(m, t, root) && Ordered(t) && t.Node? && IsPath(t, path) && Least(t) == Sub(t, path)
    requires Sub(t, path).Node? && p == Sub(t, path).at && Sub(t, path).l == Empty
    requires WithoutLeast(t) == Graft(t, path, Sub(t, path).r)
    requires Partition(t, free, next) && FreeList(m, free, available)
    requires 0 <= p < |m.num| == |m.left| == |m.right| && Linked(m, Sub(t, path).r, m.right[p])
    requires var a := Assigned(m, SlotOf(t, path), m.right[p]); p < |a.left| && m' == a.(left := a.left[p := available])
    ensures Linked(m', WithoutLeast(t), if path == [] then m.right[p] else root)
    ensures FreeList(m', [p] + free, p) && Partition(WithoutLeast(t), [p] + free, next)
  {
    hide Ordered, Linked, Graft, IsPath, SlotOf, Sub, WithoutLeast, FreeList;
    SubNodes(t, path);
    Unhooked(m, m', t, root, path, p, available);
    SlotThere(m, t, root, path, free, next);
    FreeAgain(m, m', free, available, p);
    LeastFree(t, free, next);
  }

  lemma Unhooked(m: Memory, m': Memory, t: Shape, root: int, path: seq<Turn>, p: int, available: int)
    requires Linked(m, t, root) && Apart(t) && IsPath(t, path) && Sub(t, path).Node? && p == Sub(t, path).at
    requires 0 <= p < |m.num| == |m.left| == |m.right| && Linked(m, Sub(t, path).r, m.right[p])
    requires var a := Assigned(m, SlotOf(t, path), m.right[p]); p < |a.left| && m' == a.(left := a.left[p := available])
    ensures Linked(m', Graft(t, path, Sub(t, path).r), if path == [] then m.right[p] else root)
  {
    hide Linked, Graft, IsPath, SlotOf, Sub;
    var sub := Sub(t, path);
    SubApart(t, path);
    if path != [] { SlotOutside(t, path); }
    RootSlot(t, path);
    LinkedKept(m, m', sub.r, m.right[p]);
    GraftLinked(m, m', t, root, path, sub.r, m.right[p]);
  }

  lemma RootSlot(t: Shape, path: seq<Turn>)
    requires IsPath(t, path)
    ensures SlotOf(t, path).Root? <==> path == []
  {
    if path != [] { SlotIn(t, path); }
  }

  lemma LeastFree(t: Shape, free: seq<int>, next: nat)
    requires t.Node? && Ordered(t) && Partition(t, free, next) && Least(t).Node?
    ensures Partition(WithoutLeast(t), [Least(t).at] + free, next)
  {
    LeastIs(t);
    hide Ordered, Apart, Nodes, WithoutLeast, Least, Keys;
    var p := Least(t).at;
    forall i ensures i in Nodes(WithoutLeast(t)) || i in [p] + free <==> 0 <= i < next {
      assert i in [p] + free <==> i == p || i in free;
    }
  }

  lemma {:induction false} SubApart(t: Shape, path: seq<Turn>)
    requires Apart(t) && IsPath(t, path)
    ensures Apart(Sub(t, path))
    decreases path
  {
    if path != [] { SubApart(Child(t, path[0]), path[1..]); }
  }

  lemma FreeAgain(m: Memory, m': Memory, free: seq<int>, available: int, p: int)
    requires FreeList(m, free, available) && 0 <= p < |m.left| == |m'.left| && m'.left[p] == available
    requires forall i | i in free && 0 <= i < |m.left| :: m'.left[i] == m.left[i]
    ensures FreeList(m', [p] + free, p)
  {
    FreeKept(m, m', free, available);
    assert ([p] + free)[1..] == free;
  }

  /** The new node is in place. */
  lemma Hung(m: Memory, m': Memory, t: Shape, root: int, path: seq<Turn>, at: int, k: int, free: seq<int>,
        free': seq<int>,
             available: int, next: nat, next': nat)
    requires Linked(m, t, root) && Ordered(t) && IsPath(t, path) && Sub(t, path) == Empty && k !in Keys(t)
    requires Partition(t, free, next) && (free != [] || at == next) && (free != [] ==> at == free[0])
    requires free' == (if free == [] then [] else free[1..]) && next' == (if free == [] then next + 1 else next)
    requires Inserted(t, at, k) == Graft(t, path, Node(Empty, at, k, Empty))
    requires 0 <= at < |m.num| == |m.left| == |m.right| && FreeList(m, free', available)
    requires var a := Assigned(m, SlotOf(t, path), at);
      m' == Memory(a.num[at := k], a.left[at := NULL], a.right[at := NULL])
    ensures var t' := Inserted(t, at, k);
      && Linked(m', t', if path == [] then at else root) && Ordered(t') && Keys(t') == Keys(t) + {k}
      && Partition(t', free', next')
    ensures FreeList(m', free', available)
  {
    hide Linked, Ordered, Graft, IsPath, SlotOf, Sub, Inserted, FreeList, Keys, Nodes, Apart;
    assert free != [] ==> free[0] in free;
    InsertedIs(t, at, k);
    SlotThere(m, t, root, path, free, next);
    FreeKept(m, m', free', available);
    NewLeaf(m', at, k);
    GraftLinked(m, m', t, root, path, Node(Empty, at, k, Empty), at);
    LeafUsed(t, Inserted(t, at, k), at, free, free', next, next');
  }

  lemma NewLeaf(m: Memory, at: int, k: int)
    requires 0 <= at < |m.num| == |m.left| == |m.right| && m.num[at] == k && m.left[at] == m.right[at] == NULL
    ensures Linked(m, Node(Empty, at, k, Empty), at)
  {
  }

  lemma LeafUsed(t: Shape, t': Shape, at: int, free: seq<int>, free': seq<int>, next: nat, next': nat)
    requires Partition(t, free, next) && (free != [] || at == next) && (free != [] ==> at == free[0])
    requires free' == (if free == [] then [] else free[1..]) && next' == (if free == [] then next + 1 else next)
    requires Nodes(t') == Nodes(t) + {at} && Apart(t')
    ensures Partition(t', free', next')
  {
    hide Nodes, Apart;
    forall i ensures i in Nodes(t') || i in free' <==> 0 <= i < next' {
      assert i in free <==> i in free' || (free != [] && i == at);
    }
  }
}
