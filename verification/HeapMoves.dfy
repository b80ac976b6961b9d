/** Merging, splitting and allocating blocks: what each does to the tiling of the heap
    (gc/gc-7.2/allchblk.c). */
module HeapMoves {
  import opened HeapIndex

  /** Only the entries of the blocks `p` and `r` have changed. */
  ghost predicate OnlyAt(ix: Index, ix': Index, p: int, r: int) {
    |ix| == |ix'| && forall q | q != p && q != r && (IsHdr(ix, q) || IsHdr(ix', q)) ::
      IsHdr(ix, q) && IsHdr(ix', q) && ix[q] == ix'[q]
  }

  lemma FreeSize(ix: Index, heap: set<int>, p: int)
    requires Tiled(ix, heap) && IsFree(ix, p)
    ensures 0 < p && ix[p].Pages() > 0 && End(ix, p) <= |ix| && ix[p].sz == HBLKSIZE * ix[p].Pages()
    ensures forall q | p < q < End(ix, p) :: ix[q] == Nil
  {
    assert BlockOk(ix, p);
  }

  lemma BlocksOf(m: nat)
    ensures Blocks(HBLKSIZE * m) == m
  {
  }

  /** A page inside a block is in the heap and has no header of its own. */
  lemma InsideBlock(ix: Index, heap: set<int>, p: int, q: int)
    requires Tiled(ix, heap) && IsHdr(ix, p) && p < q < End(ix, p)
    ensures 0 <= p && q < |ix| && !ix[q].Hdr? && q in heap
  {
    hide Entry.Pages;
    assert BlockOk(ix, p);
    assert Covers(ix, p, q) && Covered(ix, q);
  }

  /** A range of pages that consists of whole blocks. */
  lemma WholeRange(ix: Index, heap: set<int>, a: int, b: int)
    requires Tiled(ix, heap) && 0 <= a <= b <= |ix|
    requires (a < |ix| ==> ix[a].Hdr? || a !in heap) && (b < |ix| ==> ix[b].Hdr? || b !in heap)
    ensures Whole(ix, a, b)
  {
    hide Tiled, Blocks, Entry.Pages;
    forall p | IsHdr(ix, p) ensures End(ix, p) <= a || (a <= p && End(ix, p) <= b) || b <= p {
      if p < a < End(ix, p) { InsideBlock(ix, heap, p, a); }
      if p < b < End(ix, p) { InsideBlock(ix, heap, p, b); }
    }
  }

  /** The page after a block is a header or is not in the heap. */
  lemma EndIsHeader(ix: Index, heap: set<int>, p: int)
    requires Tiled(ix, heap) && IsHdr(ix, p)
    ensures End(ix, p) <= |ix| && (End(ix, p) < |ix| ==> ix[End(ix, p)].Hdr? || End(ix, p) !in heap)
  {
    hide Tiled, Blocks, Entry.Pages;
    BlockSize(ix, heap, p);
    var e := End(ix, p);
    if e < |ix| && e in heap {
      var r := Owner(ix, heap, e);
      if r < e && r < p {
        InsideBlock(ix, heap, r, p);
      }
    }
  }

  lemma BlockSize(ix: Index, heap: set<int>, p: int)
    requires Tiled(ix, heap) && IsHdr(ix, p)
    ensures 0 < p < End(ix, p) <= |ix|
    ensures forall q | p < q < End(ix, p) :: !ix[q].Hdr?
  {
    hide Blocks, Entry.Pages;
    assert BlockOk(ix, p);
  }

  lemma Owner(ix: Index, heap: set<int>, q: int) returns (p: int)
    requires Tiled(ix, heap) && q in heap && 0 <= q < |ix|
    ensures Covers(ix, p, q)
  {
    hide Blocks, Entry.Pages;
    p :| Covers(ix, p, q);
  }

  /** The union of a block's pages with the heap. */
  lemma InHeap(ix: Index, heap: set<int>, p: int)
    requires Tiled(ix, heap) && IsHdr(ix, p)
    ensures heap + Range(p, ix[p].Pages()) == heap
  {
    hide Blocks;
    assert BlockOk(ix, p);
    forall q | q in Range(p, ix[p].Pages()) ensures q in heap {
      assert Covers(ix, p, q) && Covered(ix, q);
    }
  }

  // -------------------------------------------------------------------- merging

  function Merge(ix: Index, p: nat, r: nat): Index
    requires IsHdr(ix, p) && IsHdr(ix, r)
  {
    ix[p := Hdr(ix[p].sz + ix[r].sz, true)][r := Nil]
  }

  /** A header with whole pages. */
  lemma HdrPages(m: nat, free: bool)
    ensures Hdr(HBLKSIZE * m, free).Pages() == m
  {
  }

  lemma Merged(ix: Index, heap: set<int>, p: nat, r: nat)
    requires Tiled(ix, heap) && IsFree(ix, p) && IsFree(ix, r) && End(ix, p) == r
    ensures var ix' := Merge(ix, p, r);
      && Tiled(ix', heap) && OnlyAt(ix, ix', p, r) && IsFree(ix', p) && !IsHdr(ix', r)
      && ix'[p].sz == ix[p].sz + ix[r].sz && End(ix', p) == End(ix, r)
  {
    hide Tiled, Blocks, Entry.Pages, Put;
    FreeSize(ix, heap, p);
    FreeSize(ix, heap, r);
    HdrPages(ix[p].Pages() + ix[r].Pages(), true);
    MergedTiled(ix, heap, p, r, ix[p].Pages(), ix[r].Pages());
  }

  lemma MergedTiled(ix: Index, heap: set<int>, p: nat, r: nat, m: nat, k: nat)
    requires Tiled(ix, heap) && IsFree(ix, p) && IsFree(ix, r) && End(ix, p) == r && m == ix[p].Pages()
    requires k == ix[r].Pages()
    ensures Tiled(Merge(ix, p, r), heap)
  {
    hide Tiled, Blocks, Entry.Pages, Put;
    FreeSize(ix, heap, p);
    FreeSize(ix, heap, r);
    var e := Hdr(ix[p].sz + ix[r].sz, true);
    HdrPages(m + k, true);
    EndIsHeader(ix, heap, r);
    var b := End(ix, r);
    assert b == p + e.Pages() && ix[p].Hdr? && |ix| >= b;
    WholeRange(ix, heap, p, b);
    PutTiled(ix, heap, p, e);
    InHeap(ix, heap, p);
    InHeap(ix, heap, r);
    RangeSum(heap, p, m, k);
    MergeIsPut(ix, heap, p, r, e);
  }

  lemma MergeIsPut(ix: Index, heap: set<int>, p: nat, r: nat, e: Entry)
    requires Tiled(ix, heap) && IsFree(ix, p) && IsFree(ix, r) && End(ix, p) == r
    requires e == Hdr(ix[p].sz + ix[r].sz, true) && p + e.Pages() == End(ix, r) <= |ix|
    ensures Put(ix, p, e) == Merge(ix, p, r)
  {
    FreeSize(ix, heap, p);
    FreeSize(ix, heap, r);
    hide Tiled, Blocks, Entry.Pages;
    forall q | 0 <= q < |ix| ensures Put(ix, p, e)[q] == Merge(ix, p, r)[q] {
    }
  }

  lemma RangeSum(heap: set<int>, p: int, m: nat, k: nat)
    requires heap + Range(p, m) == heap && heap + Range(p + m, k) == heap
    ensures heap + Range(p, m + k) == heap
  {
    forall q | q in Range(p, m + k) ensures q in heap {
      if q < p + m {
        assert q in heap + Range(p, m);
      } else {
        assert q in heap + Range(p + m, k);
      }
    }
  }

  // ------------------------------------------------------------------ splitting

  /** Block `h` cut after `d` pages. */
  function SplitAt(ix: Index, h: nat, d: nat): Index
    requires IsHdr(ix, h) && h + d < |ix| && HBLKSIZE * d <= ix[h].sz
  {
    ix[h := Hdr(HBLKSIZE * d, true)][h + d := Hdr(ix[h].sz - HBLKSIZE * d, true)]
  }

  lemma SplitTiled(ix: Index, heap: set<int>, h: nat, d: nat)
    requires Tiled(ix, heap) && IsFree(ix, h) && 0 < d < ix[h].Pages()
    ensures h + d < |ix| && HBLKSIZE * d <= ix[h].sz
    ensures var ix' := SplitAt(ix, h, d);
      && Tiled(ix', heap) && OnlyAt(ix, ix', h, h + d) && IsFree(ix', h) && IsFree(ix', h + d) && !IsHdr(ix, h + d)
      && End(ix', h) == h + d && End(ix', h + d) == End(ix, h) && ix'[h + d].Pages() == ix[h].Pages() - d
  {
    hide Tiled, Blocks, Entry.Pages, Put;
    FreeSize(ix, heap, h);
    HdrPages(ix[h].Pages() - d, true);
    HdrPages(d, true);
    CutAndPut(ix, heap, h, d, ix[h].Pages() - d);
  }

  lemma CutAndPut(ix: Index, heap: set<int>, h: nat, d: nat, rest: nat)
    requires Tiled(ix, heap) && IsFree(ix, h) && 0 < d < ix[h].Pages() && rest == ix[h].Pages() - d
    requires h + d < |ix| && HBLKSIZE * d <= ix[h].sz
    ensures Tiled(SplitAt(ix, h, d), heap)
  {
    hide Tiled, Blocks, Entry.Pages, Put;
    FreeSize(ix, heap, h);
    var e := Hdr(ix[h].sz - HBLKSIZE * d, true);
    BlocksOf(d);
    var cut := ix[h := Hdr(HBLKSIZE * d, true)];
    var heap1 := heap - Range(h + d, rest);
    CutTiled(ix, heap, h, d);
    HdrPages(rest, true);
    CutWhole(ix, cut, heap, heap1, h, d);
    assert End(ix, h) == h + d + e.Pages() && HBLKSIZE * rest == e.sz;
    InHeap(ix, heap, h);
    HeapBack(heap, h, d, ix[h].Pages());
    SplitIsPut(ix, heap, h, d, cut, e);
    PutTiled(cut, heap1, h + d, e);
  }

  lemma SplitIsPut(ix: Index, heap: set<int>, h: nat, d: nat, cut: Index, e: Entry)
    requires Tiled(ix, heap) && IsFree(ix, h) && 0 < d < ix[h].Pages() && HBLKSIZE * d <= ix[h].sz
    requires cut == ix[h := Hdr(HBLKSIZE * d, true)] && e == Hdr(ix[h].sz - HBLKSIZE * d, true)
    requires h + d + e.Pages() == End(ix, h) <= |ix|
    ensures Put(cut, h + d, e) == SplitAt(ix, h, d)
  {
    FreeSize(ix, heap, h);
    hide Tiled, Blocks, Entry.Pages;
    forall q | 0 <= q < |ix| ensures Put(cut, h + d, e)[q] == SplitAt(ix, h, d)[q] {
    }
  }

  lemma CutWhole(ix: Index, cut: Index, heap: set<int>, heap1: set<int>, h: nat, d: nat)
    requires Tiled(ix, heap) && IsFree(ix, h) && 0 < d < ix[h].Pages() && Blocks(HBLKSIZE * d) == d
    requires cut == ix[h := Hdr(HBLKSIZE * d, true)]
    ensures Whole(cut, h + d, End(ix, h))
  {
    hide Blocks, Covered;
    assert BlockOk(ix, h);
    forall p | IsHdr(cut, p)
      ensures End(cut, p) <= h + d || (h + d <= p && End(cut, p) <= End(ix, h)) || End(ix, h) <= p
    {
      assert IsHdr(ix, p) && BlockOk(ix, p);
      if p != h && p < End(ix, h) && h < End(ix, p) {
        if p < h { OneCovers(ix, heap, p, h, h); } else { OneCovers(ix, heap, p, h, p); }
      }
    }
  }

  lemma HeapBack(heap: set<int>, h: int, d: nat, m: nat)
    requires heap + Range(h, m) == heap && d <= m
    ensures heap - Range(h + d, m - d) + Range(h + d, m - d) == heap
  {
    forall q | q in Range(h + d, m - d) ensures q in heap {
      assert q in heap + Range(h, m);
    }
  }

  // ----------------------------------------------------------------- allocating

  /** A block rewritten with a header of as many pages. */
  lemma SamePages(ix: Index, heap: set<int>, h: nat, e: Entry)
    requires Tiled(ix, heap) && IsHdr(ix, h) && e.Hdr? && e.Pages() == ix[h].Pages()
    requires (e.free ==> e.sz == HBLKSIZE * e.Pages())
    ensures h + e.Pages() <= |ix|
    ensures var ix' := Put(ix, h, e);
      Tiled(ix', heap) && OnlyAt(ix, ix', h, h) && IsHdr(ix', h) && ix'[h] == e && End(ix', h) == End(ix, h)
  {
    hide Blocks, Entry.Pages;
    assert BlockOk(ix, h);
    EndIsHeader(ix, heap, h);
    WholeRange(ix, heap, h, End(ix, h));
    PutTiled(ix, heap, h, e);
    InHeap(ix, heap, h);
    SameOnly(ix, heap, h, e);
    hide Tiled;
  }

  lemma SameOnly(ix: Index, heap: set<int>, h: nat, e: Entry)
    requires Tiled(ix, heap) && IsHdr(ix, h) && e.Hdr? && e.Pages() == ix[h].Pages() > 0 && h + e.Pages() <= |ix|
    ensures OnlyAt(ix, Put(ix, h, e), h, h)
  {
    hide Blocks, Entry.Pages;
    assert BlockOk(ix, h);
  }

  /** Pages outside the heap become a free block. */
  lemma GrownTiled(ix: Index, heap: set<int>, p: nat, m: nat)
    requires Tiled(ix, heap) && 0 < p && 0 < m && p + m <= |ix| && forall q | p <= q < p + m :: q !in heap
    ensures Hdr(HBLKSIZE * m, true).Pages() == m
    ensures var ix' := Put(ix, p, Hdr(HBLKSIZE * m, true));
      Tiled(ix', heap + Range(p, m)) && OnlyAt(ix, ix', p, p) && IsFree(ix', p) && End(ix', p) == p + m && !IsHdr(ix, p)
  {
    HdrPages(m, true);
    hide Blocks, Entry.Pages;
    forall q | IsHdr(ix, q) ensures End(ix, q) <= p || p + m <= q {
      assert BlockOk(ix, q);
      assert Covers(ix, q, q) && Covered(ix, q);
      if q < p < End(ix, q) { InsideBlock(ix, heap, q, p); }
    }
    PutTiled(ix, heap, p, Hdr(HBLKSIZE * m, true));
  }
}
