/** The marker of the collector (gc/gc-7.2/mark.c): a state machine over mark bits, a
    bounded mark stack and a scan pointer, run in a stopped world by one thread. */
module Marker {
  import opened MarkHeap

  datatype MarkState = None | PushRescuers | PushUncollectable | RootsPushed | PartiallyInvalid | Invalid

  /** Sizes in mark stack entries, in words and in bytes. */
  const INITIAL_MARK_STACK_SIZE: nat := 4096
  const MARK_STACK_DISCARDS: nat := 512
  const SPLIT_RANGE_WORDS: nat := 128
  const HBLKSIZE: int := 4096
  const WORD_BYTES: int := 8

  /** The objects that ranges on the mark stack still refer to. */
  function Pending(stack: seq<Words>): set<Obj> {
    set i, o | 0 <= i < |stack| && o in Pointers(stack[i]) :: o
  }

  function Load(stack: seq<Words>): nat {
    if stack == [] then 0 else Load(stack[..|stack| - 1]) + 1 + |stack[|stack| - 1]|
  }

  lemma PendingSnoc(stack: seq<Words>, e: Words)
    ensures Pending(stack + [e]) == Pending(stack) + Pointers(e)
  {
    var longer := stack + [e];
    assert longer[|stack|] == e;
    assert forall i | 0 <= i < |stack| :: longer[i] == stack[i];
  }

  lemma PendingPrefix(stack: seq<Words>, n: nat)
    requires n <= |stack|
    ensures Pending(stack[..n]) <= Pending(stack)
  {
  }

  lemma PointersConcat(a: Words, b: Words)
    ensures Pointers(a + b) == Pointers(a) + Pointers(b)
  {
    var c := a + b;
    assert forall i | 0 <= i < |a| :: c[i] == a[i];
    assert forall i | 0 <= i < |b| :: c[|a| + i] == b[i];
  }

  lemma SameMarks(a: set<Obj>, b: set<Obj>, c: set<Obj>)
    requires a <= b <= c
    ensures a == c ==> a == b == c
  {
  }

  lemma MarksShrinkRest(all: set<Obj>, a: set<Obj>, b: set<Obj>)
    requires a <= b <= all
    ensures a == b || all - b < all - a
  {
    if all - b == all - a {
      assert b == all - (all - b) == all - (all - a) == a;
    }
  }

  // ------------------------------------------------------- the marker's state

  /** The marker's variables as one value. `base` is what marking started from: the
      roots and whatever was marked already. */
  datatype View = View(heap: Heap, base: set<Obj>, marks: set<Obj>, stack: seq<Words>, stackSize: nat,
                       state: MarkState, scan: nat, objectsAreMarked: bool)
  {
    /** Marked, or referred to by the mark stack. */
    ghost function Frontier(): set<Obj> { marks + Pending(stack) }

    ghost predicate Wf() {
      && heap.Valid() && marks <= heap.Objects()
      && (forall i | 0 <= i < |stack| :: heap.WordsOk(stack[i]))
      && |stack| <= stackSize && INITIAL_MARK_STACK_SIZE <= stackSize
      && Sound()
    }

    /** Nothing is marked or stacked that cannot be reached. */
    ghost predicate Sound()
      requires heap.Valid()
    {
      forall o | o in Frontier() :: Reachable(heap, base, o)
    }

    /** Invariant I of gc_pmark.h for one object: all it points to is marked or stacked. */
    ghost predicate Covered(o: Obj)
      requires Wf() && o in marks
    {
      heap.Targets(o) <= Frontier()
    }

    /** All marked objects of block `b` are covered. */
    ghost predicate BlockCovered(b: nat)
      requires Wf()
    {
      forall o | o in marks && heap.home[o] == b :: Covered(o)
    }

    /** What holds in each state; compare the comments beside MS_NONE ... MS_INVALID. */
    ghost predicate StateInvariant()
      requires Wf()
    {
      match state
      case None => stack == []
      case PushRescuers => CoveredBelow()
      case PushUncollectable => forall o | o in marks && !Covered(o) ::
        heap.BlockOf(o).kind == Uncollectable && heap.BlockOf(o).addr >= scan
      case RootsPushed => (forall o | o in marks :: Covered(o)) && heap.RootTargets() <= Frontier()
      case PartiallyInvalid => objectsAreMarked && CoveredBelow()
      case Invalid => !objectsAreMarked ==> scan == 0 && forall o | o in marks :: heap.BlockOf(o).KeepsMarks()
    }

    /** Marked objects below the scan pointer are covered. */
    ghost predicate CoveredBelow()
      requires Wf()
    {
      forall o | o in marks && !Covered(o) :: heap.BlockOf(o).addr >= scan
    }

    ghost predicate Valid() {
      Wf() && StateInvariant() && heap.RootTargets() <= base <= heap.RootTargets() + marks
    }

    /** How far a state is from the end of a mark phase in which nothing new is marked. */
    function Rank(): nat {
      match state
      case None => 0
      case RootsPushed => 0
      case PushRescuers => 1
      case PartiallyInvalid => 1
      case Invalid => if !objectsAreMarked then 5 else if scan == 0 then 2 else 3
      case PushUncollectable => 4
    }

    /** Marking is over and the marked objects are exactly those reachable from `base`. */
    ghost predicate Complete()
      requires heap.Valid()
    {
      state == None && stack == [] && forall o :: o in marks <==> Reachable(heap, base, o)
    }
  }

  /** `b` is closer to the end of the mark phase than `a`. */
  ghost predicate Progress(a: View, b: View) {
    && b.heap == a.heap && b.base == a.base && b.state != None && a.marks <= b.marks
    && (a.marks != b.marks || b.Rank() < a.Rank() ||
        (b.Rank() == a.Rank() &&
         (BlocksLeft(b.heap.blocks, b.scan) < BlocksLeft(a.heap.blocks, a.scan) ||
          (b.scan == a.scan && Load(b.stack) < Load(a.stack)))))
  }

  /** The effect of every pushing operation: marks and coverage grow, unless the stack
      overflows, and then the state says so. Without a new mark nothing overflows that
      had room to begin with. */
  ghost predicate Grew(a: View, b: View) {
    && a.Wf() && b.Wf()
    && b.heap == a.heap && b.base == a.base && b.scan == a.scan && b.stackSize == a.stackSize
    && a.marks <= b.marks && (a.objectsAreMarked ==> b.objectsAreMarked)
    && (b.state == a.state || b.state == Invalid)
    && (b.state != Invalid ==> a.Frontier() <= b.Frontier() && forall o | o in b.marks && o !in a.marks :: b.Covered(o))
  }

  lemma GrewRefl(a: View)
    requires a.Wf()
    ensures Grew(a, a)
  {
  }

  lemma GrewFacts(a: View, b: View)
    requires Grew(a, b)
    ensures a.Wf() && b.Wf() && b.heap == a.heap && b.stackSize == a.stackSize
    ensures a.marks <= b.marks <= b.heap.Objects() && (b.state == a.state || b.state == Invalid)
  {
  }

  lemma GrewTrans(a: View, b: View, c: View)
    requires Grew(a, b) && Grew(b, c)
    ensures Grew(a, c)
  {
    hide View.Wf, Heap.Targets, View.Frontier;
  }

  /** What was covered stays covered. */
  lemma GrewKeeps(a: View, b: View, o: Obj)
    requires Grew(a, b) && o in a.marks && a.Covered(o) && b.state != Invalid
    ensures b.Covered(o)
  {
    hide View.Wf, Heap.Targets, View.Frontier;
  }

  lemma BlockSmall(v: View, b: nat)
    requires v.Wf() && b < |v.heap.blocks|
    ensures |v.heap.blocks[b].objs| <= MAX_OBJS
  {
  }

  /** The state in which GC_clear_marks leaves the marker. */
  lemma ClearedValid(v: View)
    requires v.heap.Valid() && v.marks <= v.heap.Objects() && v.stack == [] && INITIAL_MARK_STACK_SIZE <= v.stackSize
    requires v.state == Invalid && v.scan == 0 && v.base == v.heap.RootTargets() + v.marks
    requires forall o | o in v.marks :: v.heap.BlockOf(o).KeepsMarks()
    ensures v.Valid()
  {
    hide Heap.Valid, Heap.Targets, Heap.RootTargets, Reachable;
    ReachBase(v.heap, v.base);
    assert v.Frontier() == v.marks;
  }

  class Marker {
    var heap: Heap
    var marks: set<Obj>
    var stack: seq<Words>
    var stackSize: nat
    var state: MarkState
    var scan: nat
    var objectsAreMarked: bool
    var tooSmall: bool
    ghost var base: set<Obj>

    ghost function V(): View
      reads this
    {
      View(heap, base, marks, stack, stackSize, state, scan, objectsAreMarked)
    }

    // ------------------------------------------------------------ mark and push

    /** PUSH_OBJ: on overflow the topmost entries are dropped and the state is invalid. */
    method PushObj(o: Obj)
      requires V().Wf() && o in marks
      modifies `stack, `state, `tooSmall
      ensures Grew(old(V()), V())
      ensures state != Invalid ==> V().Covered(o)
      ensures |old(stack)| < stackSize ==> state == old(state) && |stack| <= |old(stack)| + 1
    {
      hide Reachable, Heap.Targets, Heap.Valid, Heap.WordsOk, Pending, Pointers;
      ReachStep(heap, base, o);
      TargetsAre(heap, o);
      if !heap.BlockOf(o).PointerFree() {
        if |stack| >= stackSize {
          state := Invalid;
          tooSmall := true;
          PendingPrefix(stack, |stack| - MARK_STACK_DISCARDS);
          stack := stack[..|stack| - MARK_STACK_DISCARDS];
        }
        PendingSnoc(stack, heap.fields[o]);
        stack := stack + [heap.fields[o]];
      }
    }

    /** PUSH_CONTENTS: mark what a word points to and push it, if it was not marked. */
    method PushContents(w: Word)
      requires V().Wf() && heap.WordOk(w) && (w.To? ==> Reachable(heap, base, w.o))
      modifies `marks, `stack, `state, `tooSmall
      ensures Grew(old(V()), V())
      ensures w.To? ==> w.o in marks
      ensures |old(stack)| < stackSize ==> |stack| <= |old(stack)| + 1
      ensures marks == old(marks) ==> stack == old(stack) && state == old(state)
    {
      hide Reachable, Heap.Valid, Heap.Targets, Pending;
      if w.To? && w.o !in marks {
        marks := marks + {w.o};
        PushObj(w.o);
      }
    }

    /** The scan of one range by GC_mark_from. */
    method ScanWords(ws: Words)
      requires V().Wf() && heap.WordsOk(ws) && forall o | o in Pointers(ws) :: Reachable(heap, base, o)
      modifies `marks, `stack, `state, `tooSmall
      ensures Grew(old(V()), V())
      ensures Pointers(ws) <= marks
      ensures marks == old(marks) ==> stack == old(stack) && state == old(state)
    {
      hide Reachable, Heap.Targets, Heap.Valid, Pending, View.Frontier;
      ghost var start := V();
      GrewRefl(start);
      for i := 0 to |ws|
        invariant Grew(start, V()) && Pointers(ws[..i]) <= marks
        invariant marks == old(marks) ==> stack == old(stack) && state == old(state)
      {
        assert ws[i].To? ==> ws[i].o in Pointers(ws);
        ghost var a := V();
        PushContents(ws[i]);
        GrewTrans(start, a, V());
        assert ws[..i + 1] == ws[..i] + [ws[i]];
        PointersConcat(ws[..i], [ws[i]]);
      }
      assert ws[..|ws|] == ws;
    }

    /** GC_mark_from: works on the top of the stack until its credit is used up. */
    method MarkFrom()
      requires V().Wf()
      modifies `marks, `stack, `state, `tooSmall, `objectsAreMarked
      ensures Grew(old(V()), V()) && objectsAreMarked
      ensures marks == old(marks) ==>
        state == old(state) && (stack == old(stack) == [] || Load(stack) < Load(old(stack)))
    {
      ghost var start := V();
      objectsAreMarked := true;
      WfMarked(start, V());
      hide View.Wf, Grew, Load, Heap.Valid, Reachable;
      var credit := HBLKSIZE;
      while stack != [] && credit >= 0
        invariant Grew(start, V()) && V().Wf() && objectsAreMarked && heap == start.heap && start.marks <= marks
        invariant marks == old(marks) ==>
                    state == old(state) &&
                    ((stack == old(stack) && credit == HBLKSIZE) || Load(stack) < Load(old(stack)))
        decreases heap.Objects() - marks, Load(stack)
      {
        ghost var a := V();
        var used := MarkTop();
        GrewFacts(a, V());
        GrewTrans(start, a, V());
        SameMarks(start.marks, a.marks, marks);
        MarksShrinkRest(heap.Objects(), a.marks, marks);
        credit := credit - used;
      }
    }

    /** One turn of GC_mark_from, which returns the number of bytes scanned. A long range
        is split: its head is scanned, the rest stays on the stack. */
    method MarkTop() returns (used: nat)
      requires V().Wf() && stack != []
      modifies `marks, `stack, `state, `tooSmall
      ensures Grew(old(V()), V())
      ensures marks == old(marks) ==> state == old(state) && Load(stack) < Load(old(stack))
    {
      hide Reachable, Heap.Targets, Heap.Valid;
      var n := |stack| - 1;
      var e := stack[n];
      assert stack == stack[..n] + [e];
      PendingSnoc(stack[..n], e);
      if |e| >= SPLIT_RANGE_WORDS {
        var head, rest := e[..SPLIT_RANGE_WORDS - 1], e[SPLIT_RANGE_WORDS - 1..];
        assert e == head + rest;
        PointersConcat(head, rest);
        PendingSnoc(stack[..n], rest);
        stack := stack[..n] + [rest];
        ScanWords(head);
        used := WORD_BYTES * |head|;
      } else {
        stack := stack[..n];
        ScanWords(e);
        used := WORD_BYTES * |e|;
      }
    }

    // ------------------------------------------------------- scanning the heap

    /** GC_push_marked: push the marked objects of a block, or in blocks of small objects
        push what they point to. */
    method PushMarked(b: nat)
      requires V().Wf() && b < |heap.blocks|
      modifies `marks, `stack, `state, `tooSmall, `objectsAreMarked
      ensures Grew(old(V()), V())
      ensures state != Invalid ==> V().BlockCovered(b)
      ensures marks == old(marks) && |old(stack)| + MAX_OBJS <= stackSize ==> state == old(state)
      ensures state != old(state) ==> objectsAreMarked
    {
      var block := heap.blocks[b];
      if block.PointerFree() || (forall k | 0 <= k < |block.objs| :: block.objs[k] !in marks) {
        NothingToPush(V(), b);
        return;
      }
      hide View.Wf, View.Frontier, Grew;
      objectsAreMarked := true;
      WfMarked(old(V()), V());
      if block.direct {
        PushFields(b);
      } else {
        PushObjects(b);
      }
      GrewTrans(old(V()), old(V()).(objectsAreMarked := true), V());
    }

    method PushObjects(b: nat)
      requires V().Wf() && b < |heap.blocks|
      modifies `stack, `state, `tooSmall
      ensures Grew(old(V()), V())
      ensures state != Invalid ==> V().BlockCovered(b)
      ensures |old(stack)| + MAX_OBJS <= stackSize ==> state == old(state)
    {
      hide Grew, View.Wf, View.Covered, View.BlockCovered, View.Frontier, Heap.Valid, Reachable, PrefixCovered, Load;
      var objs := heap.blocks[b].objs;
      ghost var start := V();
      BlockSmall(start, b);
      GrewRefl(start);
      NothingCovered(start, objs, marks);
      for k := 0 to |objs|
        invariant Grew(start, V()) && V().Wf() && heap == start.heap && stackSize == start.stackSize
        invariant state != Invalid ==> PrefixCovered(V(), objs[..k], marks)
        invariant |start.stack| + MAX_OBJS <= stackSize ==> state == start.state && |stack| <= |start.stack| + k
      {
        if objs[k] in marks {
          ghost var a := V();
          PushObj(objs[k]);
          GrewFacts(a, V());
          GrewTrans(start, a, V());
          PrefixKeeps(a, V(), objs[..k], marks);
        }
        PrefixSnoc(V(), objs, k, marks);
      }
      if state != Invalid {
        assert objs[..|objs|] == objs;
        BlockFromObjects(V(), b, marks);
      }
    }

    /** The unrolled versions for small objects. An object that becomes marked during the
        walk may or may not be visited, depending on its place in the block. */
    method PushFields(b: nat)
      requires V().Wf() && b < |heap.blocks| && !heap.blocks[b].PointerFree()
      modifies `marks, `stack, `state, `tooSmall
      ensures Grew(old(V()), V())
      ensures state != Invalid ==> V().BlockCovered(b)
      ensures marks == old(marks) ==> state == old(state)
    {
      var objs := heap.blocks[b].objs;
      ghost var start := V();
      GrewRefl(start);
      var before := marks;
      hide Grew, View.Wf, View.Covered, Heap.Targets, Heap.Valid, Pointers, Reachable, PrefixCovered;
      for k := 0 to |objs|
        invariant Grew(start, V()) && V().Wf() && heap == start.heap && before <= marks
        invariant state != Invalid ==> PrefixCovered(V(), objs[..k], before)
        invariant marks == before ==> state == start.state
      {
        var visit: bool := *;
        if objs[k] in before || (objs[k] in marks && visit) {
          ghost var a := V();
          FieldsOf(a, b, k);
          ScanWords(heap.fields[objs[k]]);
          GrewFacts(a, V());
          GrewTrans(start, a, V());
          PrefixKeeps(a, V(), objs[..k], before);
          NowCovered(V(), objs[k]);
          SameMarks(before, a.marks, marks);
        }
        PrefixSnoc(V(), objs, k, before);
      }
      if state != Invalid {
        assert objs[..|objs|] == objs;
        BlockFromObjects(V(), b, before);
      }
    }

    /** GC_push_next_marked: the first block in use at or above `h`; returns the address
        just past it, or 0 if there is none. */
    method PushNextMarked(h: nat) returns (next: nat)
      requires V().Wf()
      modifies `marks, `stack, `state, `tooSmall, `objectsAreMarked
      ensures Grew(old(V()), V())
      ensures Passed(V(), h, next)
      ensures next != 0 ==> BlocksLeft(heap.blocks, next) < BlocksLeft(heap.blocks, h)
      ensures marks == old(marks) && |old(stack)| + MAX_OBJS <= stackSize ==> state == old(state)
      ensures state != old(state) ==> objectsAreMarked
    {
      var b := NextUsed(heap.blocks, h);
      NextUsedIs(heap.blocks, h);
      if b < 0 {
        NoneLeft(V(), h);
        return 0;
      }
      next := heap.blocks[b].addr + heap.blocks[b].pages;
      BlockPassed(heap, h, b);
      hide View.Wf, View.Frontier, Heap.Valid;
      PushMarked(b);
      if state != Invalid {
        PassedOne(V(), h, b);
      }
    }

    /** GC_push_next_marked_uncollectable: the same, for blocks of uncollectable objects. */
    method PushNextMarkedUncollectable(h: nat) returns (next: nat)
      requires V().Wf()
      modifies `marks, `stack, `state, `tooSmall, `objectsAreMarked
      ensures Grew(old(V()), V())
      ensures PassedKind(V(), h, next)
      ensures next != 0 ==> BlocksLeft(heap.blocks, next) < BlocksLeft(heap.blocks, h)
      ensures marks == old(marks) && |old(stack)| + MAX_OBJS <= stackSize ==> state == old(state)
      ensures state != old(state) ==> objectsAreMarked
    {
      var at := h;
      GrewRefl(V());
      while true
        invariant V() == old(V()) && at >= h && BlocksLeft(heap.blocks, at) <= BlocksLeft(heap.blocks, h)
        invariant forall i | 0 <= i < |heap.blocks| && h <= heap.blocks[i].addr < at ::
          heap.blocks[i].kind != Uncollectable
        decreases BlocksLeft(heap.blocks, at)
      {
        var b := NextUsed(heap.blocks, at);
        NextUsedIs(heap.blocks, at);
        if b < 0 { return 0; }
        next := heap.blocks[b].addr + heap.blocks[b].pages;
        BlockPassed(heap, at, b);
        if heap.blocks[b].kind == Uncollectable {
          PushBlockOfKind(h, at, b);
          return;
        }
        at := next;
      }
    }

    method PushBlockOfKind(ghost h: nat, ghost at: nat, b: nat)
      requires V().Wf() && b < |heap.blocks| && b == NextUsed(heap.blocks, at) && at >= h
      requires forall i | 0 <= i < |heap.blocks| && h <= heap.blocks[i].addr < at ::
        heap.blocks[i].kind != Uncollectable
      modifies `marks, `stack, `state, `tooSmall, `objectsAreMarked
      ensures Grew(old(V()), V())
      ensures PassedKind(V(), h, heap.blocks[b].addr + heap.blocks[b].pages)
      ensures marks == old(marks) && |old(stack)| + MAX_OBJS <= stackSize ==> state == old(state)
      ensures state != old(state) ==> objectsAreMarked
    {
      ghost var blocks := heap.blocks;
      PushMarked(b);
      if state != Invalid {
        PassedOne(V(), at, b);
      }
    }

    /** No entry is free, and there is a root area that has to be pushed. */
    predicate NoRoomForArea()
      reads `stack, `stackSize, `heap
    {
      |stack| >= stackSize && exists i | 0 <= i < |heap.roots| :: heap.roots[i].Area?
    }

    /** GC_push_roots. The area ranges are pushed without a check for room other than an
        abort; everything else is marked and pushed one object at a time. */
    method PushRoots() returns (aborted: bool)
      requires V().Wf() && heap.RootTargets() <= base
      modifies `marks, `stack, `state, `tooSmall
      ensures Grew(old(V()), V())
      ensures !aborted && state != Invalid ==> heap.RootTargets() <= V().Frontier()
      ensures aborted ==> NoRoomForArea()
      ensures |old(stack)| + |heap.roots| <= stackSize ==> !aborted
      ensures marks == old(marks) ==> state == old(state)
    {
      hide View.Wf, View.Frontier, Heap.Valid;
      var roots := heap.roots;
      ghost var start := V();
      GrewRefl(start);
      RootsPrefix(roots, 0);
      for i := 0 to |roots|
        invariant Grew(start, V())
        invariant state != Invalid ==> AllRootPointers(roots[..i]) <= V().Frontier()
        invariant marks == old(marks) ==> state == old(state)
        invariant |old(stack)| + |roots| <= stackSize ==> |stack| <= |old(stack)| + i
      {
        ghost var a := V();
        aborted := PushRoot(i);
        GrewTrans(start, a, V());
        SameMarks(start.marks, a.marks, marks);
        if aborted { return; }
        RootsPrefix(roots, i);
      }
      assert roots[..|roots|] == roots;
      aborted := false;
    }

    /** GC_push_all. */
    method PushAll(ws: Words) returns (aborted: bool)
      requires V().Wf() && heap.WordsOk(ws) && forall o | o in Pointers(ws) :: Reachable(heap, base, o)
      modifies `stack
      ensures Grew(old(V()), V())
      ensures aborted <==> |old(stack)| >= stackSize
      ensures !aborted ==> Pointers(ws) <= V().Frontier()
      ensures stack == if aborted then old(stack) else old(stack) + [ws]
    {
      hide Heap.Valid, Reachable, Heap.Targets, Pending, Pointers;
      if |stack| >= stackSize {
        GrewRefl(V());
        return true;
      }
      PendingSnoc(stack, ws);
      stack := stack + [ws];
      aborted := false;
    }

    method PushRoot(i: nat) returns (aborted: bool)
      requires V().Wf() && heap.RootTargets() <= base && i < |heap.roots|
      modifies `marks, `stack, `state, `tooSmall
      ensures Grew(old(V()), V())
      ensures !aborted && state != Invalid ==> RootPointers(heap.roots[i]) <= V().Frontier()
      ensures aborted <==> heap.roots[i].Area? && |old(stack)| >= stackSize
      ensures aborted ==> stack == old(stack)
      ensures |old(stack)| < stackSize ==> |stack| <= |old(stack)| + 1
      ensures marks == old(marks) ==> state == old(state)
    {
      aborted := false;
      var root := heap.roots[i];
      assert heap.RootOk(root);
      RootReachable(V(), i);
      hide Heap.Valid, Reachable;
      match root {
        case Area(ws) =>
          aborted := PushAll(ws);
        case Single(w) =>
          hide Heap.Targets, Pending;
          assert w.To? ==> [w][0].o in Pointers([w]);
          PushContents(w);
        case FreeListHeader(o) =>
          assert heap.Targets(o) == {};
          hide Heap.Targets, Pending;
          marks := marks + {o};
      }
    }

    // -------------------------------------------------------- the state machine

    /** alloc_mark_stack: `got` says whether memory for the larger stack was found. */
    method AllocMarkStack(n: nat, got: bool)
      requires stack == []
      modifies `tooSmall, `stackSize
      ensures !tooSmall && stackSize == if got then n else old(stackSize)
    {
      tooSmall := false;
      if got { stackSize := n; }
    }

    /** GC_clear_marks, with the mark stack empty as its callers leave it. */
    method ClearMarks()
      requires heap.Valid() && marks <= heap.Objects() && stack == [] && INITIAL_MARK_STACK_SIZE <= stackSize
      modifies `marks, `objectsAreMarked, `state, `scan, `base
      ensures V().Valid() && state == Invalid
      ensures marks == set o |
        o in old(marks) && (heap.BlockOf(o).kind == Uncollectable || heap.BlockOf(o).kind == AUncollectable)
      ensures base == heap.RootTargets() + marks
    {
      marks := set o | o in marks && heap.BlockOf(o).KeepsMarks();
      objectsAreMarked := false;
      state := Invalid;
      scan := 0;
      base := heap.RootTargets() + marks;
      hide *;
      ClearedValid(V());
    }

    /** No collection is under way; some objects may be marked. */
    ghost predicate AtRest()
      reads this
    {
      && state == None && heap.Valid() && marks <= heap.Objects()
      && stack == [] && INITIAL_MARK_STACK_SIZE <= stackSize
    }

    /** GC_initiate_gc. It aborts when a collection is already under way. */
    method InitiateGC() returns (aborted: bool)
      requires V().Valid() || AtRest()
      modifies `state, `scan, `base
      ensures aborted <==> old(state) != None && old(state) != Invalid
      ensures !aborted ==> V().Valid() && state != None
      ensures old(state) == Invalid ==> base == old(base)
      ensures old(state) == None ==> base == heap.RootTargets() + marks
    {
      aborted := false;
      if state == None {
        state := PushRescuers;
        base := heap.RootTargets() + marks;
        ReachBase(heap, base);
      } else if state != Invalid {
        return true;
      }
      scan := 0;
    }

    /** GC_mark_some: a small amount of marking. Returns whether the mark phase is over. */
    method MarkSome(got: bool) returns (done: bool, aborted: bool)
      requires V().Valid()
      modifies this
      ensures heap == old(heap) && base == old(base)
      ensures !aborted ==> V().Valid()
      ensures done ==> !aborted && V().Complete()
      ensures !done && !aborted && old(state) != None ==> Progress(old(V()), V())
      ensures aborted ==> NoRoomForArea()
      ensures old(state) == None ==> !done && V() == old(V())
    {
      hide View.Valid, View.Wf, Heap.Valid, Progress, View.Complete;
      match state {
        case None => return false, false;
        case PushRescuers => aborted := SomePushRescuers(); done := false;
        case PushUncollectable => aborted := SomePushUncollectable(); done := false;
        case RootsPushed => done := SomeRootsPushed(got); aborted := false;
        case Invalid => aborted := SomeInvalid(got); done := false;
        case PartiallyInvalid => aborted := SomeInvalid(got); done := false;
      }
    }

    method SomeMarking()
      requires V().Valid() && state != None && stack != [] && (objectsAreMarked || state != Invalid)
      modifies `marks, `stack, `state, `tooSmall, `objectsAreMarked
      ensures V().Valid() && Progress(old(V()), V())
    {
      ghost var a := V();
      hide View.Valid, View.StateInvariant;
      assert V().Wf() by { ValidWf(V()); }
      MarkFrom();
      StillValid(a, V());
      MarkingProgress(a, V());
    }

    method SomePushRescuers() returns (aborted: bool)
      requires V().Valid() && state == PushRescuers
      modifies this
      ensures heap == old(heap) && base == old(base)
      ensures !aborted ==> V().Valid() && Progress(old(V()), V())
      ensures aborted ==> NoRoomForArea()
    {
      hide View.Valid, View.StateInvariant, View.CoveredBelow, View.Wf, View.Frontier, Heap.Valid, Passed, Progress;
      ghost var a := V();
      if |stack| > stackSize - INITIAL_MARK_STACK_SIZE / 2 {
        tooSmall := true;
        assert V() == a;
        StackRoom(a);
        SomeMarking();
        return false;
      }
      ValidWf(V());
      var next := PushNextMarked(scan);
      ScanValid(a, V(), next);
      scan := next;
      aborted := false;
      if scan == 0 {
        aborted := FinishScan(a);
      } else {
        ScanProgress(a, V());
      }
    }

    /** The end of a scan of the heap: the roots are pushed. */
    method FinishScan(ghost a: View) returns (aborted: bool)
      requires V().Valid() && (state == Invalid || AllCovered(V())) && scan == 0
      requires a.heap == heap && a.base == base && a.marks <= marks && a.state != None && a.Rank() > 0
      requires state == Invalid ==> objectsAreMarked && a.marks != marks
      modifies `marks, `stack, `state, `tooSmall, `objectsAreMarked
      ensures !aborted ==> V().Valid() && Progress(a, V())
      ensures aborted ==> NoRoomForArea()
    {
      hide View.Valid, View.StateInvariant, View.Frontier, View.Wf, Heap.Valid, Heap.RootTargets;
      ghost var b := V();
      ValidWf(b);
      aborted := PushRoots();
      if aborted { return; }
      ghost var c := V();
      objectsAreMarked := true;
      RootsCovered(b, c);
      SameMarks(a.marks, b.marks, c.marks);
      if state != Invalid {
        state := RootsPushed;
      }
    }

    method SomePushUncollectable() returns (aborted: bool)
      requires V().Valid() && state == PushUncollectable
      modifies this
      ensures heap == old(heap) && base == old(base)
      ensures !aborted ==> V().Valid() && Progress(old(V()), V())
      ensures aborted ==> NoRoomForArea()
    {
      ghost var a := V();
      if |stack| - 1 >= stackSize / 4 {
        SomeMarking();
        return false;
      }
      hide View.Valid, View.StateInvariant, PassedKind;
      ValidWf(V());
      var next := PushNextMarkedUncollectable(scan);
      ScanKindValid(a, V(), next);
      scan := next;
      aborted := false;
      if scan == 0 {
        aborted := FinishScan(a);
      } else {
        ScanProgress(a, V());
      }
    }

    method SomeRootsPushed(got: bool) returns (done: bool)
      requires V().Valid() && state == RootsPushed
      modifies this
      ensures heap == old(heap) && base == old(base)
      ensures V().Valid() && (if done then V().Complete() else Progress(old(V()), V()))
    {
      if stack != [] {
        SomeMarking();
        return false;
      }
      AllReached(V());
      state := None;
      if tooSmall {
        AllocMarkStack(2 * stackSize, got);
      }
      done := true;
    }

    method SomeInvalid(got: bool) returns (aborted: bool)
      requires V().Valid() && (state == Invalid || state == PartiallyInvalid)
      modifies this
      ensures heap == old(heap) && base == old(base)
      ensures !aborted ==> V().Valid() && Progress(old(V()), V())
      ensures aborted ==> NoRoomForArea()
    {
      ghost var a := V();
      aborted := false;
      if !objectsAreMarked {
        state := PushUncollectable;
        return;
      }
      if stack != [] {
        SomeMarking();
        return;
      }
      if scan == 0 && state == Invalid {
        if tooSmall {
          AllocMarkStack(2 * stackSize, got);
        }
        state := PartiallyInvalid;
      }
      BecomesPartial(a, V());
      aborted := ScanInvalid(a);
    }

    /** The next block of the scan that follows an overflow. */
    method ScanInvalid(ghost a: View) returns (aborted: bool)
      requires V().Valid() && stack == [] && objectsAreMarked && a.objectsAreMarked
      requires a.heap == heap && a.base == base && a.marks == marks && a.scan == scan
      requires a.state == Invalid || a.state == PartiallyInvalid
      requires state == if scan == 0 then PartiallyInvalid else a.state
      modifies this
      ensures heap == old(heap) && base == old(base)
      ensures !aborted ==> V().Valid() && Progress(a, V())
      ensures aborted ==> NoRoomForArea()
    {
      ghost var b := V();
      hide View.Valid, View.StateInvariant, Passed;
      ValidWf(b);
      aborted := false;
      var next := PushNextMarked(scan);
      ScanValid(b, V(), next);
      scan := next;
      if scan == 0 && state == PartiallyInvalid {
        aborted := FinishScan(a);
      } else {
        InvalidProgress(a, b, V());
      }
    }

    /** GC_stopped_mark without a reason to stop: mark until GC_mark_some says that the
        mark phase is over. It aborts if a collection is under way, or for a root area. */
    method StoppedMark(got: bool) returns (aborted: bool)
      requires V().Valid() || AtRest()
      modifies this
      ensures heap == old(heap)
      ensures !aborted ==>
        V().Complete() && base == if old(state) == None then heap.RootTargets() + old(marks) else old(base)
      ensures !aborted ==> PointersMarked(heap, marks)
      ensures old(state) != None && old(state) != Invalid ==> aborted
      ensures aborted && (old(state) == None || old(state) == Invalid) ==> NoRoomForArea()
    {
      aborted := InitiateGC();
      if aborted { return; }
      hide View.Wf, View.Valid, View.Complete, BlocksLeft, Load, Heap.Valid, View.Rank;
      while true
        invariant heap == old(heap) && V().Valid() && state != None
        invariant base == if old(state) == None then heap.RootTargets() + old(marks) else old(base)
        decreases heap.Objects() - marks, V().Rank(), BlocksLeft(heap.blocks, scan), Load(stack)
      {
        ghost var a := V();
        var done;
        done, aborted := MarkSome(got);
        if aborted { return; }
        if done {
          CompleteClosed(V());
          return;
        }
        ValidWf(V());
        MarksShrinkRest(heap.Objects(), a.marks, marks);
      }
    }
  }

  lemma ValidWf(v: View)
    requires v.Valid()
    ensures v.Wf() && v.heap.Valid() && v.marks <= v.heap.Objects() && v.heap.RootTargets() <= v.base
    ensures |v.stack| <= v.stackSize && INITIAL_MARK_STACK_SIZE <= v.stackSize
  {
  }

  /** At the end what a marked object points to is marked, unless its kind says that it has no pointers. */
  lemma CompleteClosed(v: View)
    requires v.heap.Valid() && v.Complete()
    ensures PointersMarked(v.heap, v.marks)
  {
    hide Reachable, Pointers;
    forall o |
      o in v.marks && o in v.heap.home && (v.heap.BlockOf(o).kind == Normal || v.heap.BlockOf(o).kind == Uncollectable)
      ensures o in v.heap.fields && Pointers(v.heap.fields[o]) <= v.marks
    {
      ReachStep(v.heap, v.base, o);
      TargetsAre(v.heap, o);
    }
  }

  ghost predicate PointersMarked(h: Heap, marks: set<Obj>) {
    h.Valid() && forall o |
      o in marks && o in h.home && (h.BlockOf(o).kind == Normal || h.BlockOf(o).kind == Uncollectable) ::
      o in h.fields && Pointers(h.fields[o]) <= marks
  }

  ghost predicate AllCovered(v: View)
    requires v.Wf()
  {
    forall o | o in v.marks :: v.Covered(o)
  }

  /** Every block at or above `h` is covered, or lies at or above `next`. */
  ghost predicate Passed(v: View, h: nat, next: nat)
    requires v.Wf()
  {
    v.state != Invalid ==>
      forall o | o in v.marks && !v.Covered(o) && v.heap.BlockOf(o).addr >= h ::
        next != 0 && v.heap.BlockOf(o).addr >= next
  }

  ghost predicate PassedKind(v: View, h: nat, next: nat)
    requires v.Wf()
  {
    v.state != Invalid ==>
      forall o |
        o in v.marks && !v.Covered(o) && v.heap.BlockOf(o).kind == Uncollectable && v.heap.BlockOf(o).addr >= h ::
        next != 0 && v.heap.BlockOf(o).addr >= next
  }

  /** The number of blocks in use from an address on. */
  function BlocksLeft(blocks: seq<Block>, h: nat): nat {
    NextUsedIs(blocks, h);
    var b := NextUsed(blocks, h);
    if b < 0 then 0 else |blocks| - b
  }

  lemma BlockPassed(h: Heap, at: nat, b: nat)
    requires h.Valid() && b < |h.blocks| && b == NextUsed(h.blocks, at)
    ensures var next := h.blocks[b].addr + h.blocks[b].pages;
      && next > at && BlocksLeft(h.blocks, next) < BlocksLeft(h.blocks, at)
      && forall i | 0 <= i < |h.blocks| && at <= h.blocks[i].addr < next :: i == b
  {
    NextUsedIs(h.blocks, at);
    NextUsedIs(h.blocks, h.blocks[b].addr + h.blocks[b].pages);
  }

  lemma NoneLeft(v: View, h: nat)
    requires v.Wf() && NextUsed(v.heap.blocks, h) < 0
    ensures Grew(v, v) && Passed(v, h, 0)
  {
    NextUsedIs(v.heap.blocks, h);
  }

  lemma PassedOne(v: View, at: nat, b: nat)
    requires v.Wf() && b < |v.heap.blocks| && b == NextUsed(v.heap.blocks, at) && v.BlockCovered(b)
    ensures Passed(v, at, v.heap.blocks[b].addr + v.heap.blocks[b].pages)
  {
    BlockPassed(v.heap, at, b);
  }

  lemma RootsPrefix(roots: seq<Root>, i: nat)
    requires i <= |roots|
    ensures AllRootPointers(roots[..0]) == {}
    ensures i < |roots| ==> AllRootPointers(roots[..i + 1]) == AllRootPointers(roots[..i]) + RootPointers(roots[i])
  {
    if i < |roots| {
      assert forall j | 0 <= j < i :: roots[..i + 1][j] == roots[..i][j];
      assert roots[..i + 1][i] == roots[i];
    }
  }

  lemma RootReachable(v: View, i: nat)
    requires v.Wf() && i < |v.heap.roots| && v.heap.RootTargets() <= v.base
    ensures forall o | o in RootPointers(v.heap.roots[i]) :: Reachable(v.heap, v.base, o)
  {
    assert RootPointers(v.heap.roots[i]) <= v.heap.RootTargets();
    ReachBase(v.heap, v.base);
  }

  lemma NowCovered(v: View, o: Obj)
    requires v.Wf() && o in v.marks && v.heap.Targets(o) <= v.marks
    ensures v.Covered(o)
  {
  }

  lemma FieldsOf(v: View, b: nat, k: nat)
    requires v.Wf() && b < |v.heap.blocks| && !v.heap.blocks[b].PointerFree() && k < |v.heap.blocks[b].objs|
    requires v.heap.blocks[b].objs[k] in v.marks
    ensures var o := v.heap.blocks[b].objs[k];
      && o in v.heap.home && v.heap.WordsOk(v.heap.fields[o]) && v.heap.Targets(o) == Pointers(v.heap.fields[o])
      && forall q | q in v.heap.Targets(o) :: Reachable(v.heap, v.base, q)
  {
    ReachStep(v.heap, v.base, v.heap.blocks[b].objs[k]);
  }

  lemma WfMarked(a: View, b: View)
    requires a.Wf() && b == a.(objectsAreMarked := true)
    ensures Grew(a, b)
  {
  }

  lemma NothingToPush(v: View, b: nat)
    requires v.Wf() && b < |v.heap.blocks|
    requires v.heap.blocks[b].PointerFree() || forall k | 0 <= k < |v.heap.blocks[b].objs| ::
      v.heap.blocks[b].objs[k] !in v.marks
    ensures Grew(v, v) && v.BlockCovered(b)
  {
    forall o | o in v.marks && v.heap.home[o] == b ensures v.Covered(o) {
      assert o in v.heap.blocks[b].objs;
    }
  }

  /** The objects of a list that were marked at some point are covered. */
  ghost predicate PrefixCovered(v: View, objs: seq<Obj>, before: set<Obj>)
    requires v.Wf()
  {
    forall j | 0 <= j < |objs| && objs[j] in before && objs[j] in v.marks :: v.Covered(objs[j])
  }

  lemma NothingCovered(v: View, objs: seq<Obj>, before: set<Obj>)
    requires v.Wf()
    ensures PrefixCovered(v, objs[..0], before)
  {
  }

  lemma PrefixKeeps(a: View, b: View, objs: seq<Obj>, before: set<Obj>)
    requires Grew(a, b) && before <= a.marks && (a.state != Invalid ==> PrefixCovered(a, objs, before))
    ensures b.state != Invalid ==> PrefixCovered(b, objs, before)
  {
    hide View.Wf, View.Covered;
    if b.state != Invalid {
      forall j | 0 <= j < |objs| && objs[j] in before ensures b.Covered(objs[j]) {
        GrewKeeps(a, b, objs[j]);
      }
    }
  }

  lemma PrefixSnoc(v: View, objs: seq<Obj>, k: nat, before: set<Obj>)
    requires v.Wf() && k < |objs| && v.state != Invalid ==> PrefixCovered(v, objs[..k], before)
    requires v.Wf() && k < |objs| && v.state != Invalid && objs[k] in before && objs[k] in v.marks ==>
      v.Covered(objs[k])
    ensures v.Wf() && k < |objs| && v.state != Invalid ==> PrefixCovered(v, objs[..k + 1], before)
  {
    hide View.Wf, View.Covered;
  }

  /** A block is covered if its objects that were marked before are, and so are all
      objects marked since. */
  lemma BlockFromObjects(v: View, b: nat, before: set<Obj>)
    requires v.Wf() && b < |v.heap.blocks|
    requires forall o | o in v.marks && o !in before :: v.Covered(o)
    requires PrefixCovered(v, v.heap.blocks[b].objs, before)
    ensures v.BlockCovered(b)
  {
    forall o | o in v.marks && o in before && v.heap.home[o] == b ensures v.Covered(o) {
      var objs := v.heap.blocks[b].objs;
      assert o in objs;
      var j :| 0 <= j < |objs| && objs[j] == o;
    }
  }

  // ----------------------------------------------- what the operations preserve

  /** Pushing keeps the invariant of the state it is done in. */
  lemma StillValid(a: View, b: View)
    requires a.Valid() && a.state != None && Grew(a, b) && (b.state == Invalid ==> b.objectsAreMarked)
    ensures b.Valid() && b.state != None
  {
    hide View.Wf, View.Frontier, Heap.Targets, Heap.Valid;
    if b.state != Invalid {
      forall o | o in b.marks && !b.Covered(o) ensures o in a.marks && !a.Covered(o) {
        if o in a.marks && a.Covered(o) {
          GrewKeeps(a, b, o);
        }
      }
    }
  }

  lemma MarkingProgress(a: View, b: View)
    requires Grew(a, b) && b.state != None && b.objectsAreMarked
    requires a.objectsAreMarked || a.state != Invalid
    requires b.marks == a.marks ==> b.state == a.state && Load(b.stack) < Load(a.stack)
    ensures Progress(a, b)
  {
  }

  /** A scan step leaves everything below the new scan pointer covered. */
  lemma ScanValid(a: View, b: View, next: nat)
    requires a.Valid() && Grew(a, b) && Passed(b, a.scan, next) && (b.state == Invalid ==> b.objectsAreMarked)
    requires a.state == PushRescuers || a.state == PartiallyInvalid || a.state == Invalid
    ensures var c := b.(scan := next); c.Valid() && (c.state == Invalid || next != 0 || AllCovered(c))
  {
    var c := b.(scan := next);
    SameWf(b, c);
    hide View.Wf, View.Frontier, Heap.Targets, Heap.Valid;
    if b.state != Invalid {
      forall o | o in c.marks && !c.Covered(o) ensures next != 0 && c.heap.BlockOf(o).addr >= next {
        CoveredElsewhere(b, c, o);
        if o in a.marks && a.Covered(o) {
          GrewKeeps(a, b, o);
        }
      }
    }
  }

  lemma ScanKindValid(a: View, b: View, next: nat)
    requires a.Valid() && Grew(a, b) && PassedKind(b, a.scan, next) && a.state == PushUncollectable
    requires b.state == Invalid ==> b.objectsAreMarked
    ensures var c := b.(scan := next); c.Valid() && (c.state == Invalid || next != 0 || AllCovered(c))
  {
    var c := b.(scan := next);
    SameWf(b, c);
    hide View.Wf, View.Frontier, Heap.Targets, Heap.Valid;
    if b.state != Invalid {
      forall o | o in c.marks && !c.Covered(o)
        ensures next != 0 && c.heap.BlockOf(o).kind == Uncollectable && c.heap.BlockOf(o).addr >= next
      {
        CoveredElsewhere(b, c, o);
        if o in a.marks && a.Covered(o) {
          GrewKeeps(a, b, o);
        }
      }
    }
  }

  /** Coverage does not depend on the scan pointer or the state. */
  lemma CoveredElsewhere(b: View, c: View, o: Obj)
    requires b.Wf() && c.Wf() && c.heap == b.heap && c.marks == b.marks && c.stack == b.stack && o in b.marks
    ensures b.Covered(o) <==> c.Covered(o)
  {
  }

  lemma StackRoom(v: View)
    requires v.Valid()
    ensures INITIAL_MARK_STACK_SIZE <= v.stackSize
  {
  }

  lemma SameWf(c: View, d: View)
    requires c.Wf() && d == c.(objectsAreMarked := d.objectsAreMarked, state := d.state, scan := d.scan)
    ensures d.Wf() && d.Frontier() == c.Frontier()
  {
    hide Heap.Valid, Reachable, Heap.WordsOk, Pending;
  }

  lemma RootsCovered(b: View, c: View)
    requires b.Valid() && Grew(b, c) && (b.state == Invalid || AllCovered(b))
    requires c.state != Invalid ==> c.heap.RootTargets() <= c.Frontier()
    ensures var d := c.(objectsAreMarked := true);
      if c.state == Invalid then d.Valid() else d.(state := RootsPushed).Valid()
  {
    var d := c.(objectsAreMarked := true);
    var e := d.(state := RootsPushed);
    SameWf(c, d);
    SameWf(c, e);
    hide View.Wf, Heap.Targets, Heap.Valid, View.Frontier, Heap.RootTargets;
    if c.state != Invalid {
      forall o | o in e.marks ensures e.Covered(o) {
        if o in b.marks {
          GrewKeeps(b, c, o);
        }
        CoveredElsewhere(c, e, o);
      }
    }
  }

  /** A scan may start over from any state in which the heap was marked before. */
  lemma BecomesPartial(a: View, b: View)
    requires a.Valid() && a.objectsAreMarked && a.stack == []
    requires a.state == Invalid || a.state == PartiallyInvalid
    requires b == a.(state := b.state, stackSize := b.stackSize) && b.stackSize >= a.stackSize
    requires b.state == if a.scan == 0 then PartiallyInvalid else a.state
    ensures b.Valid()
  {
    assert b.Wf();
    hide View.Wf, View.Frontier, Heap.Targets, Heap.Valid;
    forall o | o in b.marks ensures a.Covered(o) <==> b.Covered(o) {
      CoveredElsewhere(a, b, o);
    }
  }

  lemma ScanProgress(a: View, c: View)
    requires c.heap == a.heap && c.base == a.base && a.marks <= c.marks && c.state != None
    requires c.marks == a.marks ==> c.state == a.state
    requires a.state == PushRescuers || a.state == PushUncollectable
    requires BlocksLeft(c.heap.blocks, c.scan) < BlocksLeft(a.heap.blocks, a.scan)
    ensures Progress(a, c)
  {
  }

  /** `a` is the state on entry, `b` the one the scan starts in, `c` the one after it. */
  lemma InvalidProgress(a: View, b: View, c: View)
    requires c.heap == a.heap && c.base == a.base && a.marks == b.marks <= c.marks
    requires a.objectsAreMarked && c.objectsAreMarked && b.scan == a.scan
    requires a.state == Invalid || a.state == PartiallyInvalid
    requires b.state == if a.scan == 0 then PartiallyInvalid else a.state
    requires c.state == Invalid || (c.state == b.state && c.scan != 0)
    requires c.marks == a.marks ==> c.state == b.state
    requires c.scan != 0 ==> BlocksLeft(c.heap.blocks, c.scan) < BlocksLeft(a.heap.blocks, a.scan)
    ensures Progress(a, c)
  {
  }

  /** With the roots pushed and the stack empty, the marked objects are the reachable ones. */
  lemma AllReached(v: View)
    requires v.Valid() && v.state == RootsPushed && v.stack == []
    ensures forall o :: o in v.marks <==> Reachable(v.heap, v.base, o)
  {
    assert Pending(v.stack) == {};
    assert v.Frontier() == v.marks;
    assert forall p | p in v.marks :: v.Covered(p);
    forall o | Reachable(v.heap, v.base, o) ensures o in v.marks {
      var n: nat :| ReachableIn(v.heap, v.base, o, n);
      ClosedContains(v.heap, v.base, v.marks, o, n);
    }
  }
}
