/** The walks over the blocks in use (GC_apply_to_all_blocks and GC_next_used_block in
    gc/gc-7.2/headers.c), one bottom index of BOTTOM_SZ pages after the other. A bottom index
    that does not exist is one that holds nothing. */
module HeapWalks {
  import opened HeapIndex
  import opened HeapMoves
  import Allchblk
  import M = MarkHeap

  const BOTTOM_SZ: nat := 1024

  /** `r` is the first block in use at or after page `h`, 0 if there is none. */
  ghost predicate IsNextUsed(ix: Index, h: nat, r: nat) {
    if r == 0 then forall p | Allocated(ix, p) :: p < h
    else Allocated(ix, r) && h <= r && forall p | Allocated(ix, p) && h <= p :: r <= p
  }

  /** No block in use begins at `h` or later, but before `q`. */
  ghost predicate NoneFrom(ix: Index, h: nat, q: int) {
    forall p | Allocated(ix, p) && h <= p :: q <= p
  }

  /** GC_next_used_block. */
  method NextUsedBlock(ix: Index, ghost heap: set<int>, h: nat) returns (r: nat)
    requires Tiled(ix, heap)
    ensures IsNextUsed(ix, h, r)
  {
    hide Tiled, Entry.Pages;
    var bi, j := h / BOTTOM_SZ, h % BOTTOM_SZ;
    while bi * BOTTOM_SZ < |ix|
      invariant 0 <= j < BOTTOM_SZ && h <= bi * BOTTOM_SZ + j && NoneFrom(ix, h, bi * BOTTOM_SZ + j)
      decreases |ix| - bi * BOTTOM_SZ
    {
      while j < BOTTOM_SZ && bi * BOTTOM_SZ + j < |ix|
        invariant 0 <= j && h <= bi * BOTTOM_SZ + j && NoneFrom(ix, h, bi * BOTTOM_SZ + j)
        decreases |ix| - j
      {
        var p := bi * BOTTOM_SZ + j;
        if !ix[p].Hdr? {
          j := j + 1;
        } else if !ix[p].free {
          HeaderPositive(ix, heap, p);
          return p;
        } else {
          FreeSkipped(ix, heap, h, p);
          j := j + ix[p].sz / HBLKSIZE;
        }
      }
      j := 0;
      bi := bi + 1;
    }
    r := 0;
  }

  lemma HeaderPositive(ix: Index, heap: set<int>, p: nat)
    requires Tiled(ix, heap) && IsHdr(ix, p)
    ensures p > 0
  {
    assert BlockOk(ix, p);
  }

  /** No block begins inside a free block. */
  lemma FreeSkipped(ix: Index, heap: set<int>, h: nat, p: nat)
    requires Tiled(ix, heap) && IsFree(ix, p) && NoneFrom(ix, h, p)
    ensures ix[p].sz / HBLKSIZE > 0 && NoneFrom(ix, h, p + ix[p].sz / HBLKSIZE)
  {
    hide Entry.Pages;
    assert BlockOk(ix, p);
    assert ix[p].sz / HBLKSIZE == ix[p].Pages();
    forall q | Allocated(ix, q) && h <= q ensures p + ix[p].Pages() <= q {
      if q < End(ix, p) {
        assert BlockOk(ix, q);
        OneCovers(ix, heap, p, q, q);
      }
    }
  }

  /** The blocks in use among the pages from `lo` to `hi`, each of them once. */
  ghost predicate Visited(ix: Index, lo: int, hi: int, v: seq<nat>) {
    && (forall p :: p in v <==> Allocated(ix, p) && lo <= p < hi)
    && forall i, j | 0 <= i < j < |v| :: v[i] != v[j]
  }

  /** GC_apply_to_all_blocks: the blocks to which the function is applied, in this order. */
  method ApplyToAllBlocks(ix: Index, ghost heap: set<int>) returns (v: seq<nat>)
    requires Tiled(ix, heap)
    ensures Visited(ix, 0, |ix|, v)
  {
    hide Tiled, Entry.Pages;
    v := [];
    var bi := 0;
    while bi * BOTTOM_SZ < |ix|
      invariant 0 <= bi && Visited(ix, 0, bi * BOTTOM_SZ, v)
      decreases |ix| - bi * BOTTOM_SZ
    {
      var w := ApplyToBottom(ix, heap, bi * BOTTOM_SZ);
      VisitedJoin(ix, 0, bi * BOTTOM_SZ, (bi + 1) * BOTTOM_SZ, v, w);
      v := v + w;
      bi := bi + 1;
    }
  }

  lemma VisitedJoin(ix: Index, a: int, b: int, c: int, v: seq<nat>, w: seq<nat>)
    requires a <= b <= c && Visited(ix, a, b, v) && Visited(ix, b, c, w)
    ensures Visited(ix, a, c, v + w)
  {
    forall i, j | 0 <= i < j < |v + w| ensures (v + w)[i] != (v + w)[j] {
      if i < |v| <= j {
        assert v[i] in v && w[j - |v|] in w;
      }
    }
  }

  /** One page that is no block in use, or is the next to be visited. */
  lemma VisitedPage(ix: Index, p: nat, hi: int, w: seq<nat>)
    requires Visited(ix, p + 1, hi, w) && p < hi
    ensures Visited(ix, p, hi, if Allocated(ix, p) then w + [p] else w)
  {
    if Allocated(ix, p) {
      forall i | 0 <= i < |w| ensures w[i] != p {
        assert w[i] in w;
      }
    }
  }

  /** One bottom index, from its last entry down. */
  method ApplyToBottom(ix: Index, ghost heap: set<int>, lo: nat) returns (w: seq<nat>)
    requires Tiled(ix, heap)
    ensures Visited(ix, lo, lo + BOTTOM_SZ, w)
  {
    hide Tiled, Entry.Pages;
    w := [];
    var j := BOTTOM_SZ - 1;
    while j >= 0
      invariant Visited(ix, lo + j + 1, lo + BOTTOM_SZ, w) && j < BOTTOM_SZ && forall p | p in w :: lo <= p
      decreases j
    {
      var p := lo + j;
      VisitedPage(ix, p, lo + BOTTOM_SZ, w);
      if p >= |ix| || ix[p].Nil? {
        j := j - 1;
      } else if ix[p].Hdr? {
        if !ix[p].free { w := w + [p]; }
        j := j - 1;
      } else {
        Allchblk.CountInside(ix, heap, p);
        j := j - ix[p].k;
      }
    }
  }

  /** On a list of the blocks in use in ascending order, the search of the marker finds the
      same block. */
  lemma SameWalk(ix: Index, blocks: seq<M.Block>, h: nat)
    requires forall i, j | 0 <= i < j < |blocks| :: blocks[i].addr < blocks[j].addr
    requires forall i | 0 <= i < |blocks| :: Allocated(ix, blocks[i].addr) && blocks[i].addr > 0
    requires forall p | Allocated(ix, p) :: exists i :: 0 <= i < |blocks| && blocks[i].addr == p
    ensures var k := M.NextUsed(blocks, h);
      -1 <= k < |blocks| && IsNextUsed(ix, h, if k < 0 then 0 else blocks[k].addr)
  {
    M.NextUsedIs(blocks, h);
  }
}
