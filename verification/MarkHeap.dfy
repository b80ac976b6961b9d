/** The heap as the marker of the collector sees it (gc/gc-7.2/mark.c): blocks of
    objects, the pointers objects hold, and the roots. */
module MarkHeap {

  type Obj = nat

  /** A word of memory: either not a pointer into the heap, or one to an object. */
  datatype Word = Other | To(o: Obj)

  type Words = seq<Word>

  /** A static root area is pushed as one range; a word of the stack or of a register
      is marked and pushed at once; the header block of a free list is only marked. */
  datatype Root = Area(words: Words) | Single(w: Word) | FreeListHeader(o: Obj)

  datatype Kind = PtrFree | Normal | Uncollectable | AUncollectable

  /** A block in use. `direct` blocks hold small objects whose fields are pushed without
      pushing the object itself. */
  datatype Block = Block(addr: nat, pages: nat, kind: Kind, direct: bool, objs: seq<Obj>)
  {
    predicate PointerFree() { kind == PtrFree || kind == AUncollectable }
    predicate KeepsMarks() { kind == Uncollectable || kind == AUncollectable }
  }

  /** At most this many objects fit in one heap block. */
  const MAX_OBJS: nat := 512

  datatype Heap = Heap(blocks: seq<Block>, home: map<Obj, nat>, fields: map<Obj, Words>, roots: seq<Root>)
  {
    function Objects(): set<Obj> { home.Keys }

    function BlockOf(o: Obj): Block
      requires Valid() && o in home
    {
      blocks[home[o]]
    }

    predicate WordOk(w: Word) { w.To? ==> w.o in home }

    predicate WordsOk(ws: Words) { forall i | 0 <= i < |ws| :: WordOk(ws[i]) }

    predicate RootOk(r: Root) {
      match r
      case Area(ws) => WordsOk(ws)
      case Single(w) => WordOk(w)
      case FreeListHeader(o) => o in home && home[o] < |blocks| && blocks[home[o]].PointerFree()
    }

    predicate Valid() {
      && (forall i | 0 <= i < |blocks| :: blocks[i].addr > 0 && blocks[i].pages > 0 && |blocks[i].objs| <= MAX_OBJS)
      && (forall i, j | 0 <= i < j < |blocks| :: blocks[i].addr + blocks[i].pages <= blocks[j].addr)
      && (forall o | o in home :: home[o] < |blocks| && o in blocks[home[o]].objs)
      && (forall i, k | 0 <= i < |blocks| && 0 <= k < |blocks[i].objs| ::
            blocks[i].objs[k] in home && home[blocks[i].objs[k]] == i)
      && (forall o | o in home :: o in fields && WordsOk(fields[o]))
      && (forall i | 0 <= i < |roots| :: RootOk(roots[i]))
    }

    /** The objects that the words of an object refer to; the marker does not look into
        blocks without pointers. */
    function Targets(o: Obj): set<Obj>
      requires Valid() && o in home
    {
      if BlockOf(o).PointerFree() then {} else Pointers(fields[o])
    }

    function RootTargets(): set<Obj> { AllRootPointers(roots) }
  }

  function Pointers(ws: Words): set<Obj> {
    set i | 0 <= i < |ws| && ws[i].To? :: ws[i].o
  }

  function RootPointers(r: Root): set<Obj> {
    match r
    case Area(ws) => Pointers(ws)
    case Single(w) => Pointers([w])
    case FreeListHeader(o) => {o}
  }

  function AllRootPointers(rs: seq<Root>): set<Obj> {
    set i, o | 0 <= i < |rs| && o in RootPointers(rs[i]) :: o
  }

  /** `o` can be reached from `base` by following `n` pointers. */
  ghost predicate ReachableIn(h: Heap, base: set<Obj>, o: Obj, n: nat)
    requires h.Valid()
    decreases n
  {
    if n == 0 then o in base
    else exists p :: p in h.home && ReachableIn(h, base, p, n - 1) && o in h.Targets(p)
  }

  ghost predicate Reachable(h: Heap, base: set<Obj>, o: Obj)
    requires h.Valid()
  {
    exists n: nat :: ReachableIn(h, base, o, n)
  }

  lemma ReachBase(h: Heap, base: set<Obj>)
    requires h.Valid()
    ensures forall o | o in base :: Reachable(h, base, o)
  {
    forall o | o in base ensures Reachable(h, base, o) {
      assert ReachableIn(h, base, o, 0);
    }
  }

  lemma ReachStep(h: Heap, base: set<Obj>, p: Obj)
    requires h.Valid() && p in h.home && Reachable(h, base, p)
    ensures forall o | o in h.Targets(p) :: Reachable(h, base, o)
  {
    var n: nat :| ReachableIn(h, base, p, n);
    forall o | o in h.Targets(p) ensures Reachable(h, base, o) {
      assert ReachableIn(h, base, o, n + 1);
    }
  }

  /** A set that contains the base and is closed under pointers contains everything
      reachable. */
  lemma {:induction false} ClosedContains(h: Heap, base: set<Obj>, s: set<Obj>, o: Obj, n: nat)
    requires h.Valid() && base <= s && s <= h.Objects() && forall p | p in s :: h.Targets(p) <= s
    requires ReachableIn(h, base, o, n)
    ensures o in s
    decreases n
  {
    hide Heap.Valid, Heap.Targets, Heap.Objects;
    if n != 0 {
      var p :| p in h.home && ReachableIn(h, base, p, n - 1) && o in h.Targets(p);
      ClosedContains(h, base, s, p, n - 1);
    }
  }

  /** What pushing an object puts on the stack. */
  lemma TargetsAre(h: Heap, o: Obj)
    requires h.Valid() && o in h.home
    ensures o in h.fields && h.WordsOk(h.fields[o])
    ensures h.Targets(o) == if h.BlockOf(o).PointerFree() then {} else Pointers(h.fields[o])
  {
  }

  // -------------------------------------------------------------- used blocks

  /** GC_next_used_block: the first block in use at or above an address. */
  function NextUsed(blocks: seq<Block>, addr: nat): int {
    if blocks == [] then -1
    else if blocks[0].addr >= addr then 0
    else
      var r := NextUsed(blocks[1..], addr);
      if r < 0 then -1 else r + 1
  }

  lemma {:induction false} NextUsedIs(blocks: seq<Block>, addr: nat)
    ensures var r := NextUsed(blocks, addr);
      && -1 <= r < |blocks|
      && (r >= 0 ==> blocks[r].addr >= addr)
      && (forall i | 0 <= i < (if r < 0 then |blocks| else r) :: blocks[i].addr < addr)
  {
    if blocks != [] && blocks[0].addr < addr {
      NextUsedIs(blocks[1..], addr);
    }
  }
}
