/** The page index of the collector's heap: headers of blocks, forwarding counts inside
    allocated blocks, nothing inside free ones (gc/gc-7.2/headers.c). */
module HeapIndex {

  const HBLKSIZE: nat := 4096
  const MAX_JUMP: nat := HBLKSIZE - 1

  /** OBJ_SZ_TO_BLOCKS. */
  function Blocks(sz: nat): nat {
    (sz + HBLKSIZE - 1) / HBLKSIZE
  }

  /** What the index holds for a page: nothing, the distance to an earlier page of the same
      block, or the header of a block with its size in bytes. */
  datatype Entry = Nil | Count(k: nat) | Hdr(sz: nat, free: bool)
  {
    function Pages(): nat { if Hdr? then Blocks(sz) else 0 }
  }

  type Index = seq<Entry>

  predicate IsHdr(ix: Index, p: int) { 0 <= p < |ix| && ix[p].Hdr? }

  predicate IsFree(ix: Index, p: int) { IsHdr(ix, p) && ix[p].free }

  predicate Allocated(ix: Index, p: int) { IsHdr(ix, p) && !ix[p].free }

  /** The page after block `p`. */
  function End(ix: Index, p: int): int
    requires IsHdr(ix, p)
  {
    p + ix[p].Pages()
  }

  /** The entry `d` pages behind the header `e`. */
  function Inside(e: Entry, d: nat): Entry {
    if e.Hdr? && e.free then Nil else Count(if d > MAX_JUMP then MAX_JUMP else d)
  }

  predicate BlockOk(ix: Index, p: int)
    requires IsHdr(ix, p)
  {
    && p > 0 && ix[p].Pages() > 0 && End(ix, p) <= |ix|
    && (ix[p].free ==> ix[p].sz == HBLKSIZE * ix[p].Pages())
    && forall q | p < q < End(ix, p) :: ix[q] == Inside(ix[p], q - p)
  }

  predicate Covers(ix: Index, p: int, q: int) {
    IsHdr(ix, p) && p <= q < End(ix, p)
  }

  ghost predicate Covered(ix: Index, q: int) {
    exists p :: Covers(ix, p, q)
  }

  /** The blocks tile the pages of the heap; outside there is nothing. */
  ghost predicate Tiled(ix: Index, heap: set<int>) {
    && (forall p | IsHdr(ix, p) :: BlockOk(ix, p))
    && (forall q | 0 <= q < |ix| :: q in heap <==> Covered(ix, q))
    && (forall q | 0 <= q < |ix| && q !in heap :: ix[q] == Nil)
  }

  /** No two adjacent blocks are free. */
  ghost predicate Coalesced(ix: Index) {
    forall p, r | IsFree(ix, p) && IsFree(ix, r) :: End(ix, p) != r
  }

  // ------------------------------------------------------------------- lemmas

  /** No page belongs to two blocks. */
  lemma OneCovers(ix: Index, heap: set<int>, p: int, r: int, q: int)
    requires Tiled(ix, heap) && Covers(ix, p, q) && Covers(ix, r, q)
    ensures p == r
  {
    assert BlockOk(ix, p) && BlockOk(ix, r);
  }

  /** From a page inside an allocated block the counts lead back towards its first page. */
  lemma CountsLeadBack(ix: Index, heap: set<int>, p: int, q: int)
    requires Tiled(ix, heap) && Allocated(ix, p) && Covers(ix, p, q) && q != p
    ensures ix[q].Count? && 0 < ix[q].k <= MAX_JUMP && Covers(ix, p, q - ix[q].k)
  {
    assert BlockOk(ix, p);
  }

  /** The page that the forwarding counts lead to from page `q`. */
  function FirstPage(ix: Index, q: int): int
    requires 0 <= q < |ix|
    decreases q
  {
    if ix[q].Count? && 0 < ix[q].k <= q then FirstPage(ix, q - ix[q].k) else q
  }

  /** From every page of an allocated block they lead to its header. */
  lemma {:induction false} FirstPageIs(ix: Index, heap: set<int>, p: int, q: int)
    requires Tiled(ix, heap) && Allocated(ix, p) && Covers(ix, p, q) && q < |ix|
    ensures FirstPage(ix, q) == p
    decreases q
  {
    hide Tiled;
    if q != p {
      CountsLeadBack(ix, heap, p, q);
      FirstPageIs(ix, heap, p, q - ix[q].k);
    }
  }

  predicate Within(a: int, m: nat, q: int) { a <= q < a + m }

  function Range(a: int, m: nat): set<int> { set q | a <= q < a + m && Within(a, m, q) }

  /** The pages from `a` on rewritten as one block with the header `e`. */
  function Put(ix: Index, a: nat, e: Entry): (r: Index)
    requires e.Hdr? && a + e.Pages() <= |ix|
    ensures |r| == |ix|
    ensures forall q | 0 <= q < |ix| ::
      r[q] == if q == a && e.Pages() > 0 then e else if a < q < a + e.Pages() then Inside(e, q - a) else ix[q]
  {
    seq(|ix|, q requires 0 <= q < |ix| =>
      if q == a && e.Pages() > 0 then e else if a < q < a + e.Pages() then Inside(e, q - a) else ix[q])
  }

  /** No block crosses the limits of the pages from `a` to `b`. */
  ghost predicate Whole(ix: Index, a: int, b: int) {
    forall p | IsHdr(ix, p) :: End(ix, p) <= a || (a <= p && End(ix, p) <= b) || b <= p
  }

  lemma PutTiled(ix: Index, heap: set<int>, a: nat, e: Entry)
    requires Tiled(ix, heap) && e.Hdr? && 0 < a && a + e.Pages() <= |ix| && e.Pages() > 0
    requires Whole(ix, a, a + e.Pages()) && (e.free ==> e.sz == HBLKSIZE * e.Pages())
    ensures Tiled(Put(ix, a, e), heap + Range(a, e.Pages()))
  {
    hide Covered, Blocks;
    var m := e.Pages();
    var ix', heap' := Put(ix, a, e), heap + Range(a, m);
    forall p | IsHdr(ix', p) ensures BlockOk(ix', p) {
      if p != a {
        assert IsHdr(ix, p) && BlockOk(ix, p);
      }
    }
    forall q | 0 <= q < |ix| ensures q in heap' <==> Covered(ix', q) {
      PutCovers(ix, heap, a, e, q);
    }
  }

  lemma PutCovers(ix: Index, heap: set<int>, a: nat, e: Entry, q: int)
    requires Tiled(ix, heap) && e.Hdr? && 0 < a && a + e.Pages() <= |ix| && e.Pages() > 0
    requires Whole(ix, a, a + e.Pages()) && 0 <= q < |ix|
    ensures Covered(Put(ix, a, e), q) <==> Covered(ix, q) || a <= q < a + e.Pages()
  {
    hide Tiled, Blocks;
    var m := e.Pages();
    var ix' := Put(ix, a, e);
    if a <= q < a + m {
      assert Covers(ix', a, q);
    } else {
      if p :| Covers(ix, p, q) {
        assert Covers(ix', p, q);
      }
      if p :| Covers(ix', p, q) {
        assert Covers(ix, p, q);
      }
    }
  }

  /** A free block cut short: the pages behind it leave the heap. */
  lemma CutTiled(ix: Index, heap: set<int>, h: nat, m: nat)
    requires Tiled(ix, heap) && IsFree(ix, h) && 0 < m < ix[h].Pages()
    ensures Tiled(ix[h := Hdr(HBLKSIZE * m, true)], heap - Range(h + m, ix[h].Pages() - m))
  {
    var ix' := ix[h := Hdr(HBLKSIZE * m, true)];
    var heap' := heap - Range(h + m, ix[h].Pages() - m);
    assert ix'[h].Pages() == m;
    hide Blocks, Covered;
    assert BlockOk(ix, h);
    forall p | IsHdr(ix', p) ensures BlockOk(ix', p) {
      assert IsHdr(ix, p) && BlockOk(ix, p);
    }
    forall q | 0 <= q < |ix| ensures q in heap' <==> Covered(ix', q) {
      CutCovers(ix, heap, h, m, q);
    }
  }

  lemma CutCovers(ix: Index, heap: set<int>, h: nat, m: nat, q: int)
    requires Tiled(ix, heap) && IsFree(ix, h) && 0 < m < ix[h].Pages() && Blocks(HBLKSIZE * m) == m && 0 <= q < |ix|
    ensures Covered(ix[h := Hdr(HBLKSIZE * m, true)], q) <==> Covered(ix, q) && !(h + m <= q < End(ix, h))
  {
    hide Blocks;
    var ix' := ix[h := Hdr(HBLKSIZE * m, true)];
    if p :| Covers(ix, p, q) && !(h + m <= q < End(ix, h)) {
      assert Covers(ix', p, q);
    }
    if p :| Covers(ix', p, q) {
      assert Covers(ix, p, q);
      if h + m <= q < End(ix, h) {
        OneCovers(ix, heap, p, h, q);
      }
    }
  }
}
