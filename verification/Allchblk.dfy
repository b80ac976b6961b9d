/** The allocator of heap blocks (gc/gc-7.2/allchblk.c, with the index of headers.c). */
module Allchblk {
  import opened HeapIndex
  import opened HeapMoves
  import opened FreeLists
  import opened HeapStates

  const FL_UNKNOWN: int := -1

  /** What an allocation depends on besides the heap: whether black-listed pages matter for
      this kind of object, whether only its first page counts, and the black list itself: the
      pages at which no object may begin, and those which no object may contain. */
  datatype Policy = Policy(checked: bool, ignoreOffPage: bool, findLeak: bool, blLimit: nat,
    first: nat -> bool, listed: nat -> bool)
  {
    /** `n` pages from `p` on are not black-listed. */
    predicate Clean(p: nat, n: nat) {
      !first(p) && forall q: nat | p <= q < p + n :: !listed(q)
    }

    /** How many pages of an object count. */
    function Counted(k: nat): nat {
      if ignoreOffPage then 1 else k
    }
  }

  /** GC_is_black_listed: 0, or the next page where it makes sense to try. */
  method IsBlackListed(pl: Policy, h: nat, len: nat) returns (next: nat)
    requires len >= HBLKSIZE
    ensures next == 0 <==> pl.Clean(h, len / HBLKSIZE)
    ensures next != 0 ==> h < next && forall s: nat | h <= s < next :: !pl.Clean(s, len / HBLKSIZE)
  {
    if pl.first(h) { return h + 1; }
    var nblocks := len / HBLKSIZE;
    var i := 0;
    while i < nblocks
      invariant i <= nblocks && forall q: nat | h <= q < h + i :: !pl.listed(q)
    {
      if pl.listed(h + i) { return h + i + 1; }
      i := i + 1;
    }
    next := 0;
  }

  /** The free block `p` has the right size for `k` pages, and the black list leaves room in it
      or does not matter because both the object and what is left over are very large. */
  ghost predicate Serves(ix: Index, p: int, k: nat, maySplit: bool, pl: Policy) {
    && IsFree(ix, p) && (ix[p].Pages() == k || (maySplit && ix[p].Pages() > k))
    && (!pl.checked || (exists s: nat | p <= s && s + k <= End(ix, p) :: pl.Clean(s, pl.Counted(k)))
        || (HBLKSIZE * k > pl.blLimit && ix[p].sz - HBLKSIZE * k > pl.blLimit))
  }

  /** The next block of a list, if it is the better one. */
  ghost predicate Better(ix: Index, p: int, k: nat, pl: Policy) {
    IsFree(ix, p) && k <= ix[p].Pages() && pl.Clean(p, k)
  }

  /** An object of `k` pages may be put at `s`: none may not begin there, and no page that counts is
      black-listed. */
  ghost predicate Usable(pl: Policy, s: nat, k: nat) {
    !pl.first(s) && forall q: nat | s <= q < s + (if pl.ignoreOffPage then 1 else k) :: !pl.listed(q)
  }

  /** Page `h` is the right place for `k` pages in the free block `p`: its beginning, if the black list does
      not matter; otherwise the first usable page, or the beginning of a block that has none, if both the
      object and what is left over are very large. */
  ghost predicate WellPlaced(ix: Index, p: int, h: nat, k: nat, maySplit: bool, pl: Policy) {
    && IsFree(ix, p) && p <= h && h + k <= End(ix, p) && (maySplit || (h == p && ix[p].Pages() == k))
    && (!pl.checked ==> h == p)
    && (pl.checked ==>
          || (Usable(pl, h, k) && forall s: nat | p <= s < h :: !Usable(pl, s, k))
          || (h == p && (forall s: nat | p <= s && s + k <= End(ix, p) :: !Usable(pl, s, k)) &&
              HBLKSIZE * k > pl.blLimit && ix[p].sz - HBLKSIZE * k > pl.blLimit))
  }

  /** The place is in a block of list `n`. */
  ghost predicate TookFrom(ix: Index, fl: seq<seq<int>>, n: nat, h: nat, k: nat, maySplit: bool, pl: Policy) {
    exists p :: OnList(fl, n, p) && WellPlaced(ix, p, h, k, maySplit, pl)
  }

  /** The same, and no block in front of it in the list serves, unless the one that is taken is better. */
  ghost predicate TookFirst(ix: Index, l: seq<int>, h: nat, k: nat, maySplit: bool, pl: Policy) {
    exists j: nat :: j < |l| && WellPlaced(ix, l[j], h, k, maySplit, pl) && PassedOn(ix, l, j, k, maySplit, pl)
  }

  ghost predicate NoneServes(ix: Index, fl: seq<seq<int>>, n: nat, k: nat, maySplit: bool, pl: Policy) {
    forall p | OnList(fl, n, p) :: !Serves(ix, p, k, maySplit, pl)
  }

  lemma TookBefore(ix: Index, fl: seq<seq<int>>, ix': Index, fl': seq<seq<int>>, n: nat, h: nat, k: nat,
        maySplit: bool, pl: Policy)
    requires Fewer(ix, fl, ix', fl') && TookFrom(ix', fl', n, h, k, maySplit, pl)
    ensures TookFrom(ix, fl, n, h, k, maySplit, pl)
  {
    hide OnList, Usable, Entry.Pages;
    var p :| OnList(fl', n, p) && WellPlaced(ix', p, h, k, maySplit, pl);
    assert End(ix, p) == End(ix', p);
    assert WellPlaced(ix, p, h, k, maySplit, pl);
  }

  /** If a list is as it was, no block of it serves now or then. */
  lemma NoneAtStart(ix: Index, fl: seq<seq<int>>, ix': Index, fl': seq<seq<int>>, n: nat, k: nat, maySplit: bool,
        pl: Policy)
    requires Fewer(ix, fl, ix', fl') && NoneServes(ix', fl', n, k, maySplit, pl)
    requires forall p | OnList(fl, n, p) && Serves(ix, p, k, maySplit, pl) :: OnList(fl', n, p)
    ensures NoneServes(ix, fl, n, k, maySplit, pl)
  {
    hide OnList, Serves;
    forall p | OnList(fl, n, p) ensures !Serves(ix, p, k, maySplit, pl) {
      if OnList(fl', n, p) { SameServes(ix, ix', p, k, maySplit, pl); }
    }
  }

  lemma BetterServes(ix: Index, p: int, k: nat, pl: Policy)
    requires Better(ix, p, k, pl) && k > 0
    ensures Serves(ix, p, k, true, pl)
  {
    hide Entry.Pages;
    assert pl.Clean(p, pl.Counted(k));
  }

  /** What is on the lists now was there before, and is the same block. */
  ghost predicate Fewer(ix: Index, fl: seq<seq<int>>, ix': Index, fl': seq<seq<int>>) {
    forall m, p | OnList(fl', m, p) :: OnList(fl, m, p) && IsFree(ix, p) && IsFree(ix', p) && ix'[p] == ix[p]
  }

  lemma FewerTrans(a: Index, fa: seq<seq<int>>, b: Index, fb: seq<seq<int>>, c: Index, fc: seq<seq<int>>)
    requires Fewer(a, fa, b, fb) && Fewer(b, fb, c, fc)
    ensures Fewer(a, fa, c, fc)
  {
    hide OnList;
  }

  lemma SameServes(ix: Index, ix': Index, p: int, k: nat, maySplit: bool, pl: Policy)
    requires IsFree(ix, p) && IsFree(ix', p) && ix'[p] == ix[p]
    ensures Serves(ix', p, k, maySplit, pl) <==> Serves(ix, p, k, maySplit, pl)
    ensures Better(ix', p, k, pl) <==> Better(ix, p, k, pl)
  {
    hide Entry.Pages, Policy.Clean;
    assert End(ix, p) == End(ix', p);
  }

  /** Where the place comes from. A block of exactly the right size on list `home` is taken if one serves;
      otherwise it is split off a block of the first list from `start` to `limit` that has one. */
  ghost predicate Outcome(ix: Index, fl: seq<seq<int>>, home: nat, start: nat, limit: nat, k: nat, pl: Policy, h: nat) {
    if h == 0 then
      && NoneServes(ix, fl, home, k, false, pl)
      && forall i: nat | start <= i <= limit :: NoneServes(ix, fl, i, k, true, pl)
    else
      || TookFrom(ix, fl, home, h, k, false, pl)
      || (NoneServes(ix, fl, home, k, false, pl) &&
          exists i: nat :: start <= i <= limit && TookFrom(ix, fl, i, h, k, true, pl) &&
            forall j: nat | start <= j < i :: NoneServes(ix, fl, j, k, true, pl))
  }

  /** What the search says about a block of a list: go on, allocate from page `at` of it, or
      give it up. */
  datatype Verdict = Skip | TakeFrom(at: nat) | Drop

  class Heap {
    var dropCount: nat         // how many blocks were found to be completely black-listed
    var index: Index           // what GET_HDR finds for a page
    var freelist: seq<int>     // GC_hblkfreelist
    var hbPrev: seq<int>       // hb_prev and hb_next of the header of a page's block
    var hbNext: seq<int>
    var freeBytes: seq<int>    // GC_free_bytes
    var largeFreeBytes: int    // GC_large_free_bytes
    ghost var fl: seq<seq<int>>
    ghost var heap: set<int>

    ghost function L(): Lists
      reads `freelist, `hbPrev, `hbNext, `freeBytes
    {
      Lists(freelist, hbPrev, hbNext, freeBytes)
    }

    ghost predicate Valid()
      reads `index, `freelist, `hbPrev, `hbNext, `freeBytes, `fl, `heap, `largeFreeBytes
    {
      Inv(index, L(), fl, heap, largeFreeBytes)
    }

    constructor (pages: nat)
      ensures Valid() && heap == {} && |index| == pages
    {
      index := seq(pages, _ => Nil);
      freelist, freeBytes := seq(N_HBLK_FLS + 1, _ => 0), seq(N_HBLK_FLS + 1, _ => 0);
      hbPrev, hbNext := seq(pages, _ => 0), seq(pages, _ => 0);
      largeFreeBytes, dropCount := 0, 0;
      fl, heap := seq(N_HBLK_FLS + 1, _ => []), {};
      new;
      TotalZero(freeBytes);
    }

    /** GC_remove_from_fl. */
    method RemoveFromFl(p: nat, n: int) returns (ghost k: nat)
      requires ListsOk(index, L(), fl) && IsHdr(index, p)
      requires OnList(fl, if n == FL_UNKNOWN then Home(index, p) else n, p)
      modifies `freelist, `hbPrev, `hbNext, `freeBytes, `fl
      ensures ListsOk(index, L(), fl) && Total(freeBytes) == Total(old(freeBytes)) - index[p].sz
      ensures forall j, q :: OnList(fl, j, q) <==> OnList(old(fl), j, q) && q != p
      ensures var i := if n == FL_UNKNOWN then Home(index, p) else n;
        k < |old(fl)[i]| && old(fl)[i][k] == p && fl == old(fl)[i := Without(old(fl)[i], k)]
    {
      hide LinksOk, BytesOk, Entry.Pages, Chained;
      var i := if n == FL_UNKNOWN then FlFromBlocks(index[p].Pages()) else n;
      k := Place(fl, i, p);
      ghost var v := L();
      RemovedLists(index, v, fl, i, k);
      hide OnList;
      var prev, next := hbPrev[p], hbNext[p];
      if prev == 0 {
        freelist := freelist[i := next];
      } else {
        hbNext := hbNext[prev := next];
      }
      freeBytes := freeBytes[i := freeBytes[i] - index[p].sz];
      if next != 0 {
        hbPrev := hbPrev[next := prev];
      }
      fl := fl[i := Without(fl[i], k)];
      assert L() == Removed(v, i, p, index[p].sz);
    }

    /** GC_add_to_fl. */
    method AddToFl(h: nat)
      requires ListsOk(index, L(), fl) && IsHdr(index, h) && h > 0 && forall j :: !OnList(fl, j, h)
      modifies `index, `freelist, `hbPrev, `hbNext, `freeBytes, `fl
      ensures index == old(index)[h := Hdr(old(index)[h].sz, true)] && ListsOk(index, L(), fl)
      ensures Total(freeBytes) == Total(old(freeBytes)) + index[h].sz
      ensures forall j, q :: OnList(fl, j, q) <==> OnList(old(fl), j, q) || (j == Home(index, h) && q == h)
    {
      hide LinksOk, BytesOk, Entry.Pages, Chained, OnList;
      ghost var v := L();
      AddedLists(index, v, fl, h);
      var i := FlFromBlocks(index[h].Pages());
      var second := freelist[i];
      freelist := freelist[i := h];
      freeBytes := freeBytes[i := freeBytes[i] + index[h].sz];
      hbNext := hbNext[h := second];
      hbPrev := hbPrev[h := 0];
      if second != 0 {
        hbPrev := hbPrev[second := h];
      }
      fl := fl[i := [h] + fl[i]];
      assert L() == Added(v, i, h, index[h].sz);
      HomeSame(index, h);
      index := index[h := Hdr(index[h].sz, true)];
    }

    /** GC_prev_block: the last block that begins at `h` or before it. */
    method PrevBlock(h: nat) returns (p: nat)
      requires Tiled(index, heap) && h < |index|
      ensures p != 0 ==> IsHdr(index, p) && p <= h
      ensures forall q | IsHdr(index, q) && q <= h :: p != 0 && q <= p
    {
      hide Entry.Pages, Covered;
      var j: int := h;
      while j >= 0
        invariant j <= h && forall q | IsHdr(index, q) && q <= h :: q <= j
      {
        match index[j]
        case Nil => j := j - 1;
        case Count(k) =>
          CountInside(index, heap, j);
          j := j - k;
        case Hdr(_, _) =>
          assert BlockOk(index, j);
          return j;
      }
      p := 0;
    }

    /** GC_free_block_ending_at, 0 if there is none. */
    method FreeBlockEndingAt(h: nat) returns (p: nat)
      requires Tiled(index, heap) && 0 < h < |index| && index[h].Hdr?
      ensures p != 0 ==> IsFree(index, p) && End(index, p) == h
      ensures p == 0 ==> forall q | IsFree(index, q) :: End(index, q) != h
    {
      hide Tiled, Entry.Pages;
      var r: int := h - 1;
      while index[r].Count?
        invariant 0 <= r < h && (r == h - 1 || index[h - 1].Count?) && forall q | IsHdr(index, q) && q < h :: q <= r
        decreases r
      {
        CountInside(index, heap, r);
        r := r - index[r].k;
      }
      if index[r].Hdr? {
        BlockSize(index, heap, r);
        LastBefore(index, heap, r, h);
        if r < h - 1 { CountAllocated(index, heap, h - 1, r); }
        if h < End(index, r) { InsideBlock(index, heap, r, h); }
        if index[r].free { return r; }
        return 0;
      }
      p := PrevBlock(h - 1);
      if p != 0 {
        BlockSize(index, heap, p);
        LastBefore(index, heap, p, h);
        if index[p].free && p + index[p].Pages() == h { return p; }
      }
      if p == 0 { NoneBefore(index, heap, h); }
      p := 0;
    }

    /** GC_remove_counts: nothing is left inside the block. */
    method RemoveCounts(h: nat, pages: nat)
      requires 0 < pages && h + pages <= |index|
      modifies `index
      ensures |index| == |old(index)|
      ensures forall q | 0 <= q < |index| :: index[q] == if h < q < h + pages then Nil else old(index)[q]
    {
      for q := h + 1 to h + pages
        invariant h < q && |index| == |old(index)|
        invariant forall r | 0 <= r < |index| :: index[r] == if h < r < q then Nil else old(index)[r]
      {
        index := index[q := Nil];
      }
    }

    /** GC_install_counts: the distances to the first page, as far as they can be given. */
    method InstallCounts(h: nat, pages: nat)
      requires 0 < pages && h + pages <= |index|
      modifies `index
      ensures |index| == |old(index)|
      ensures forall q | 0 <= q < |index| ::
        index[q] == if h < q < h + pages then Count(if q - h > MAX_JUMP then MAX_JUMP else q - h) else old(index)[q]
    {
      for q := h + 1 to h + pages
        invariant h < q && |index| == |old(index)|
        invariant forall r | 0 <= r < |index| ::
          index[r] == if h < r < q then Count(if r - h > MAX_JUMP then MAX_JUMP else r - h) else old(index)[r]
      {
        var i := q - h;
        index := index[q := Count(if i > MAX_JUMP then MAX_JUMP else i)];
      }
    }

    /** The part of GC_freehblk that merges the block with a free successor. */
    method MergeSuccessor(h: nat)
      requires Freeing(index, L(), fl, heap, h)
      modifies `index, `freelist, `hbPrev, `hbNext, `freeBytes, `fl
      ensures Freeing(index, L(), fl, heap, h) && NoNext(index, h) && |index| == |old(index)|
      ensures index[h].sz + Total(freeBytes) == old(index[h].sz) + Total(old(freeBytes))
      ensures old(NoPrev(index, h)) ==> NoPrev(index, h)
      ensures forall q | q < h && IsFree(old(index), q) :: IsFree(index, q) && End(index, q) == End(old(index), q)
      ensures forall q | Allocated(old(index), q) :: Allocated(index, q) && index[q] == old(index)[q]
    {
      hide Tiled, Entry.Pages, ListsOk, ListedBut, CoalescedBut, NoPrev, OnList;
      BlockSize(index, heap, h);
      var next := h + index[h].Pages();
      if next < |index| && index[next].Hdr? && index[next].free {
        ghost var v, f := L(), fl;
        OnItsList(index, fl, h, next);
        ghost var _ := RemoveFromFl(next, FL_UNKNOWN);
        FreeingMerged(index, v, f, L(), fl, heap, h, next, h);
        index := Merge(index, h, next);
      } else {
        assert End(index, h) == next && !IsFree(index, next);
      }
    }

    /** The part that merges it with a free predecessor. */
    method MergePredecessor(h: nat, prev: nat)
      requires Freeing(index, L(), fl, heap, h) && NoNext(index, h) && IsFree(index, prev) && End(index, prev) == h
      modifies `index, `freelist, `hbPrev, `hbNext, `freeBytes, `fl
      ensures Freeing(index, L(), fl, heap, prev) && NoNext(index, prev) && NoPrev(index, prev)
      ensures |index| == |old(index)|
      ensures index[prev].sz + Total(freeBytes) == old(index[h].sz) + Total(old(freeBytes))
      ensures !IsHdr(index, h)
      ensures forall q | Allocated(old(index), q) :: Allocated(index, q) && index[q] == old(index)[q]
    {
      hide Tiled, Entry.Pages, ListsOk, ListedBut, CoalescedBut, NoPrev, NoNext, OnList;
      BlockSize(index, heap, prev);
      ghost var v, f := L(), fl;
      OnItsList(index, fl, h, prev);
      ghost var _ := RemoveFromFl(prev, FL_UNKNOWN);
      FreeingMerged(index, v, f, L(), fl, heap, prev, h, h);
      index := Merge(index, prev, h);
    }

    /** GC_freehblk: the block becomes free and is merged with free neighbours. `heap1` is
        the heap with its pages. */
    method FreeHblk(h: nat, ghost heap1: set<int>)
      requires Allocated(index, h) && h + index[h].Pages() <= |index| && !IsFree(index, 0)
      requires var ix := Put(index, h, Hdr(HBLKSIZE * index[h].Pages(), true));
        Tiled(ix, heap1) && OnlyAt(index, ix, h, h) && IsFree(ix, h)
      requires Coalesced(index) && ListsOk(index, L(), fl) && Listed(index, fl, 0, -1)
      requires largeFreeBytes == Total(freeBytes)
      modifies this
      ensures Valid() && heap == heap1 && |index| == |old(index)| && Kept(old(index), index, h) && !Allocated(index, h)
    {
      hide Tiled, Entry.Pages, ListsOk, Listed, ListedBut, CoalescedBut, Coalesced, NoNext, OnList, OnlyAt;
      var size := HBLKSIZE * index[h].Pages();
      ghost var was := index;
      HdrPages(index[h].Pages(), true);
      RemoveCounts(h, index[h].Pages());
      index := index[h := Hdr(size, true)];
      PutFree(was, h, index);
      heap := heap1;
      FreedStart(was, index, L(), fl, h);
      var hbp := h;
      BlockSize(index, heap, h);
      var prev := FreeBlockEndingAt(h);
      MergeSuccessor(h);
      BlockSize(index, heap, h);
      if prev != 0 {
        MergePredecessor(h, prev);
        hbp := prev;
      }
      largeFreeBytes := largeFreeBytes + size;
      AllCoalesced(index, heap, hbp);
      ghost var ix, f := index, fl;
      NotListed(index, fl, hbp);
      BlockSize(index, heap, hbp);
      AddToFl(hbp);
      assert index == ix;
      NoPageZero(index, heap);
      ListedDone(ix, index, f, fl, hbp, hbp) by { SameIndex(ix, hbp); }
    }

    /** GC_get_first_part: the block leaves its list `i`, and what it does not need of its
        pages becomes a free block. */
    method GetFirstPart(h: nat, k: nat, i: nat)
      requires Ready(index, L(), fl, heap, h, i) && 0 < k <= index[h].Pages()
      modifies `index, `freelist, `hbPrev, `hbNext, `freeBytes, `fl
      ensures h + k <= |old(index)| && (k < old(index)[h].Pages() ==> h + k < |old(index)|)
      ensures HBLKSIZE * k <= old(index)[h].sz
      ensures index == RestMade(old(index), h, k)
      ensures ListsOk(index, L(), fl) && ListedBut(index, fl, h, h)
      ensures Total(freeBytes) == Total(old(freeBytes)) - HBLKSIZE * k
    {
      hide Tiled, Entry.Pages, ListsOk, CoalescedBut, NoNext, OnList;
      FreeSize(index, heap, h);
      ReadyListed(index, fl, h, i);
      ghost var _ := RemoveFromFl(h, i);
      ReadyRemoved(index, old(fl), fl, h, i, heap);
      if index[h].Pages() == k { return; }
      var rest := h + k;
      ghost var ix := index;
      index := index[rest := Hdr(index[h].sz - HBLKSIZE * k, false)];
      RestListed(ix, index, L(), fl, heap, h, rest, index[rest].sz);
      ghost var f := fl;
      AddToFl(rest);
      RestAdded(ix, index, f, fl, h, rest, heap);
    }

    /** The rest of GC_allochblk_nth when a block has been chosen: it is taken from list `i`,
        its counts are installed and its header is set up. */
    method Take(h: nat, k: nat, sz: nat, i: nat)
      requires Ready(index, L(), fl, heap, h, i) && 0 < k <= index[h].Pages() && Hdr(sz, false).Pages() == k
      requires largeFreeBytes == Total(freeBytes)
      modifies this
      ensures Valid() && heap == old(heap) && |index| == |old(index)| && index[h] == Hdr(sz, false)
      ensures Kept(old(index), index, h)
      ensures largeFreeBytes == old(largeFreeBytes) - HBLKSIZE * k
    {
      hide Tiled, Entry.Pages, ListsOk, ListedBut, Listed, Coalesced, OnList, OnlyAt, Ready, Put, Taken;
      ghost var ix := index;
      ReadyFacts(ix, L(), fl, heap, h, i);
      GetFirstPart(h, k, i);
      ghost var mid := index;
      InstallCounts(h, k);
      index := index[h := Hdr(sz, false)];
      largeFreeBytes := largeFreeBytes - HBLKSIZE * k;
      TakenIs(ix, heap, h, k, sz, index);
      TakenOk(ix, heap, h, k, sz);
      TakenCoalesced(ix, old(L()), old(fl), heap, h, i, k, sz, index);
      RestShape(ix, index, heap, h, k, sz);
      NoPageZero(index, heap);
      TakenListed(ix, mid, index, L(), fl, h);
      TakenKept(ix, index, heap, h, k, sz);
    }

    /** GC_split_block: the pages of `h` from the `d`-th on take its place on list `i`, and
        `h`, now smaller, goes to its own. */
    method SplitBlock(h: nat, d: nat, i: nat)
      requires Valid() && OnList(fl, i, h) && IsFree(index, h) && 0 < d < index[h].Pages()
      modifies `index, `freelist, `hbPrev, `hbNext, `freeBytes, `fl
      ensures h + d < |old(index)| && HBLKSIZE * d <= old(index)[h].sz && index == SplitAt(old(index), h, d)
      ensures Ready(index, L(), fl, heap, h + d, i) && Kept(old(index), index, h)
      ensures Total(freeBytes) == Total(old(freeBytes))
    {
      hide Tiled, Entry.Pages, ListsOk, Listed, Coalesced, Ready, OnList, Total, SplitAt, Chained;
      ghost var ix, v, f := index, L(), fl;
      ListsSizes(ix, v, fl);
      FreeSize(index, heap, h);
      SplitTiled(index, heap, h, d);
      ghost var k := Place(fl, i, h);
      var n := h + d;
      var prev, next := hbPrev[h], hbNext[h];
      NotHeader(ix, fl, n);
      SplitEntries(ix, h, d);
      ReplacedLists(ix, SplitAt(ix, h, d), v, f, i, k, n, HBLKSIZE * d);
      hbPrev := hbPrev[n := prev];
      hbNext := hbNext[n := next];
      if prev != 0 {
        hbNext := hbNext[prev := n];
      } else {
        freelist := freelist[i := n];
      }
      if next != 0 {
        hbPrev := hbPrev[next := n];
      }
      freeBytes := freeBytes[i := freeBytes[i] - HBLKSIZE * d];
      fl := fl[i := fl[i][k := n]];
      assert L() == Replaced(v, i, h, n, HBLKSIZE * d);
      SplitLists(h, d, i, n, ix, v, f);
    }

    /** The headers of the two parts, and the list of the first. */
    method SplitLists(h: nat, d: nat, i: nat, n: nat, ghost ix: Index, ghost v: Lists, ghost f: seq<seq<int>>)
      requires h + d == n < |ix| && IsFree(ix, h) && HBLKSIZE * d <= ix[h].sz && index == ix && 0 < h && 0 < d
      requires ListsOk(SplitAt(ix, h, d), L(), fl) && i < |fl|
      requires Inv(ix, v, f, heap, Total(v.bytes)) && OnList(f, i, h) && d < ix[h].Pages()
      requires forall j, a :: OnList(fl, j, a) <==> (OnList(f, j, a) && a != h) || (j == i && a == n)
      requires Total(freeBytes) == Total(v.bytes) - HBLKSIZE * d
      modifies `index, `freelist, `hbPrev, `hbNext, `freeBytes, `fl
      ensures index == SplitAt(ix, h, d) && Ready(index, L(), fl, heap, n, i) && Kept(ix, index, h)
      ensures Total(freeBytes) == Total(v.bytes)
    {
      hide Tiled, Entry.Pages, ListsOk, Listed, Coalesced, Ready, OnList, Total;
      index := index[n := Hdr(index[h].sz - HBLKSIZE * d, false)];
      index := index[h := Hdr(HBLKSIZE * d, true)];
      SameSizes(SplitAt(ix, h, d), index, L(), fl);
      ListsSizes(index, L(), fl);
      AddToFl(h);
      ghost var before := index;
      index := index[n := Hdr(index[n].sz, true)];
      assert index == SplitAt(ix, h, d);
      SameSizes(before, index, L(), fl);
      ListsSizes(index, L(), fl);
      SplitReady(ix, index, v, f, L(), fl, heap, Total(v.bytes), h, d, i);
    }

    /** The part of GC_allochblk_nth that gives up a block which is completely black-listed:
        it is dropped page by page, as small objects. */
    method DropBlock(h: nat, n: nat) returns (ghost k: nat)
      requires Valid() && OnList(fl, n, h) && IsFree(index, h) && n < |fl|
      modifies this
      ensures Valid() && heap == old(heap) && Dropped(old(index), index, h) && Kept(old(index), index, h)
      ensures k < |old(fl)[n]| && old(fl)[n][k] == h && fl == old(fl)[n := Without(old(fl)[n], k)]
      ensures largeFreeBytes == old(largeFreeBytes) - old(index)[h].sz
    {
      hide Tiled, Entry.Pages, ListsOk, Listed, ListedBut, Coalesced, OnList, Total;
      ghost var ix := index;
      var total, limit := index[h].sz, h + index[h].Pages();
      FreeSize(index, heap, h);
      ReadyFrom(index, L(), fl, heap, largeFreeBytes, h, n);
      largeFreeBytes := largeFreeBytes - total;
      k := RemoveFromFl(h, n);
      DropListed(ix, old(fl), fl, h, heap);
      for q := h to limit
        invariant |index| == |ix| && ListsOk(ix, L(), fl) && fl == old(fl)[n := Without(old(fl)[n], k)]
        invariant largeFreeBytes == Total(freeBytes) == old(largeFreeBytes) - total && heap == old(heap)
        invariant ListedBut(ix, fl, h, h)
        invariant forall r | 0 <= r < |ix| :: index[r] == if h <= r < q then Hdr(HBLKSIZE, false) else ix[r]
      {
        index := index[q := Hdr(HBLKSIZE, false)];
      }
      DroppedInv(ix, index, L(), fl, heap, h, largeFreeBytes);
    }

    /** GC_add_to_heap: `m` pages from `p` on that the system has given. Pages near address
        zero, and the last page of the address space, are not used. */
    method AddToHeap(p0: nat, m0: nat)
      requires Valid() && p0 + m0 <= |index| && forall q | p0 <= q < p0 + m0 :: q !in heap
      modifies this
      ensures Valid() && |index| == |old(index)|
      ensures var p := if p0 < 2 then 2 else p0;
        var e := if p0 + m0 == |index| then p0 + m0 - 1 else p0 + m0;
        heap == if p < e then old(heap) + Range(p, e - p) else old(heap)
      ensures forall q | Allocated(old(index), q) :: Allocated(index, q) && index[q] == old(index)[q]
    {
      hide Tiled, Entry.Pages, ListsOk, Listed, Coalesced, OnList, Put;
      var p, m := p0, m0;
      while p < 2 && m > 0
        invariant 0 <= m && p + m == p0 + m0 && p0 <= p && (p > p0 ==> p <= 2)
      {
        p, m := p + 1, m - 1;
      }
      if m == 0 { return; }
      if p + m == |index| {
        m := m - 1;
        if m == 0 { return; }
      }
      ghost var ix := index;
      GrownTiled(ix, heap, p, m);
      NoPageZero(ix, heap);
      NewHeader(ix, L(), fl, p, m);
      index := index[p := Hdr(HBLKSIZE * m, false)];
      FreeHblk(p, heap + Range(p, m));
    }

    /** The decisions of the loop of GC_allochblk_nth, for the block `h` and an object that
        needs `k` pages. */
    method Judge(h: nat, k: nat, maySplit: bool, pl: Policy) returns (v: Verdict)
      requires Tiled(index, heap) && IsFree(index, h) && k > 0 && h < |hbNext|
      requires 0 <= hbNext[h] && (hbNext[h] != 0 ==> IsFree(index, hbNext[h]))
      modifies `dropCount
      ensures v.TakeFrom? ==> h <= v.at && v.at + k <= End(index, h)
      ensures v.TakeFrom? && !maySplit ==> v.at == h && index[h].Pages() == k
      ensures v.TakeFrom? ==> WellPlaced(index, h, v.at, k, maySplit, pl)
      ensures v.Skip? && Serves(index, h, k, maySplit, pl) ==>
        maySplit && hbNext[h] != 0 && Better(index, hbNext[h], k, pl)
      ensures v.Drop? ==> pl.checked && k == 1 && !Serves(index, h, k, maySplit, pl)
    {
      hide Tiled, Entry.Pages, Policy.Clean, Usable;
      CleanUsable(pl, k);
      FreeSize(index, heap, h);
      var needed, avail := HBLKSIZE * k, index[h].sz;
      assert needed / HBLKSIZE == k;
      if avail < needed { return Skip; }
      if avail != needed {
        if !maySplit { return Skip; }
        var next := hbNext[h];
        if next != 0 {
          FreeSize(index, heap, next);
          var nextSize := index[next].sz;
          if nextSize < avail && nextSize >= needed {
            var b := IsBlackListed(pl, next, needed);
            if b == 0 { return Skip; }
          }
        }
      }
      if !pl.checked { return TakeFrom(h); }
      var last, searchEnd := h, h + (index[h].Pages() - k);
      var eff := if pl.ignoreOffPage then HBLKSIZE else needed;
      assert eff / HBLKSIZE == pl.Counted(k);
      var b := IsBlackListed(pl, last, eff);
      while last <= searchEnd && b != 0
        invariant h <= last && (last <= searchEnd ==> (b == 0 <==> pl.Clean(last, pl.Counted(k))))
        invariant last <= searchEnd && b != 0 ==>
          b > last && forall s: nat | last <= s < b :: !pl.Clean(s, pl.Counted(k))
        invariant forall s: nat | h <= s < last :: !pl.Clean(s, pl.Counted(k))
        decreases searchEnd - last
      {
        last := b;
        if last <= searchEnd { b := IsBlackListed(pl, last, eff); }
      }
      var left := avail - HBLKSIZE * (last - h);
      if left >= needed { return TakeFrom(last); }
      if needed > pl.blLimit && avail - needed > pl.blLimit { return TakeFrom(h); }
      if left == 0 && needed == HBLKSIZE && !pl.findLeak {
        dropCount := dropCount + 1;
        if dropCount % 4 == 0 { return Drop; }
      }
      v := Skip;
    }

    /** The chosen pages are split off if need be, and allocated. */
    method TakeAt(h: nat, at: nat, k: nat, sz: nat, n: nat)
      requires Valid() && OnList(fl, n, h) && IsFree(index, h) && h <= at && at + k <= End(index, h)
      requires k > 0 && Hdr(sz, false).Pages() == k
      modifies this
      ensures Valid() && heap == old(heap) && |index| == |old(index)| && IsHdr(index, at) && index[at] == Hdr(sz, false)
      ensures forall q | Allocated(old(index), q) :: Allocated(index, q) && index[q] == old(index)[q]
      ensures !Allocated(old(index), at)
    {
      hide Tiled, Entry.Pages, OnList, Coalesced, ListsOk, Listed;
      ghost var ix := index;
      if at != h {
        if h < at < End(index, h) { InsideBlock(index, heap, h, at); }
        SplitBlock(h, at - h, n);
        SplitPages(ix, heap, h, at - h);
      } else {
        ReadyFrom(index, L(), fl, heap, largeFreeBytes, h, n);
      }
      Take(at, k, sz, n);
    }

    /** The head of a list. */
    lemma ListHead(n: nat)
      requires Valid() && n <= N_HBLK_FLS
      ensures n < |fl| && n < |freelist| && freelist[n] == Nth(fl[n], 0)
    {
      hide Tiled, Entry.Pages, BytesOk, Coalesced;
      assert Chained(freelist[n], fl[n], hbPrev, hbNext);
    }

    lemma Later(n: nat, pos: nat)
      requires Valid() && n < |fl| && pos < |fl[n]|
      ensures AllDistinct(fl) && (hbPrev[fl[n][pos]] != 0 <==> pos > 0)
    {
      hide Tiled, Entry.Pages, BytesOk, Coalesced;
      AtPlace(n, pos);
      if pos > 0 { AtPlace(n, pos - 1); }
    }

    /** A page on a list, and its neighbours there. */
    lemma AtPlace(n: nat, pos: nat)
      requires Valid() && n < |fl| && pos < |fl[n]|
      ensures var h := fl[n][pos];
        && 0 < h < |hbNext| && h < |hbPrev| && IsFree(index, h) && OnList(fl, n, h) && Tiled(index, heap)
        && hbNext[h] == Nth(fl[n], pos + 1) && hbPrev[h] == Nth(fl[n], pos - 1)
        && 0 <= hbNext[h] && (hbNext[h] != 0 ==> IsFree(index, hbNext[h])) && 0 <= hbPrev[h]
    {
      hide Tiled, Entry.Pages, BytesOk, Coalesced, Chained;
      NthLinks(L(), fl, |index|, n, pos);
      assert OnList(fl, n, fl[n][pos]);
      if pos + 1 < |fl[n]| {
        assert OnList(fl, n, fl[n][pos + 1]);
      }
    }

    /** GC_allochblk_nth: the right place in the first suitable block of list `n`, or 0 if no block that has
        been on the list serves. Only blocks that have been given up leave the list. */
    method AllochblkNth(sz: nat, n: nat, maySplit: bool, pl: Policy) returns (h: nat)
      requires Valid() && sz > 0 && n <= N_HBLK_FLS
      modifies this
      ensures Valid() && heap == old(heap) && |index| == |old(index)|
      ensures forall q | Allocated(old(index), q) :: Allocated(index, q) && index[q] == old(index)[q]
      ensures h != 0 ==> IsHdr(index, h) && index[h] == Hdr(sz, false) && !Allocated(old(index), h)
      ensures h != 0 ==> TookFrom(old(index), old(fl), n, h, Blocks(sz), maySplit, pl)
      ensures h != 0 && !(pl.checked && Blocks(sz) == 1) ==>
        n < |old(fl)| && TookFirst(old(index), old(fl)[n], h, Blocks(sz), maySplit, pl)
      ensures h == 0 ==> NoneServes(old(index), old(fl), n, Blocks(sz), maySplit, pl)
      ensures h == 0 ==> forall p | OnList(fl, n, p) :: !Serves(index, p, Blocks(sz), maySplit, pl)
      ensures h == 0 ==> Fewer(old(index), old(fl), index, fl) && OnlyList(old(fl), fl, n)
      ensures h == 0 && !(pl.checked && Blocks(sz) == 1) ==> index == old(index) && fl == old(fl)
      decreases |fl[n]|
    {
      hide Valid, Tiled, Entry.Pages, OnList, Blocks, Serves, Better, Fewer, WellPlaced;
      ghost var ix, f := index, fl;
      var k := Blocks(sz);
      BlocksPositive(sz);
      ListHead(n);
      AllFree();
      var hbp := freelist[n];
      ghost var pos := 0;
      while hbp != 0
        invariant Valid() && heap == old(heap) && |index| == |ix| && n < |fl| && pos <= |fl[n]| <= |f[n]|
        invariant hbp == Nth(fl[n], pos)
        invariant forall q | Allocated(ix, q) :: Allocated(index, q) && index[q] == ix[q]
        invariant !(pl.checked && k == 1) ==> index == ix && fl == f
        invariant Fewer(ix, f, index, fl) && Passed(n, pos, k, maySplit, pl) && OnlyList(f, fl, n)
        invariant forall p | OnList(f, n, p) && Serves(ix, p, k, maySplit, pl) :: OnList(fl, n, p)
        decreases |fl[n]|, |fl[n]| - pos
      {
        AtPlace(n, pos);
        var v := Judge(hbp, k, maySplit, pl);
        match v
        case Skip =>
          PassedOne(n, pos, k, maySplit, pl);
          hbp := hbNext[hbp];
          pos := pos + 1;
        case TakeFrom(at) =>
          h := at;
          assert TookFrom(index, fl, n, h, k, maySplit, pl);
          TookBefore(ix, f, index, fl, n, h, k, maySplit, pl);
          TakeAt(hbp, at, k, sz, n);
          return;
        case Drop =>
          var prev := hbPrev[hbp];
          Later(n, pos);
          AllFree();
          ghost var was, before := index, fl;
          assert !Serves(was, before[n][pos], k, maySplit, pl);
          ghost var k0 := DropBlock(hbp, n);
          SamePlace(before, n, pos, k0);
          DropFewer(was, before, index, fl, heap, n, pos);
          StillServing(ix, f, was, before, fl, n, pos, k, maySplit, pl);
          FewerTrans(ix, f, was, before, index, fl);
          if prev == 0 {
            ghost var mid, fm := index, fl;
            h := AllochblkNth(sz, n, maySplit, pl);
            if h == 0 {
              NoneAtStart(ix, f, mid, fm, n, k, maySplit, pl);
              FewerTrans(ix, f, mid, fm, index, fl);
            } else {
              TookBefore(ix, f, mid, fm, n, h, k, maySplit, pl);
            }
            return;
          }
          PassedDrop(was, before, index, fl, n, pos, k, maySplit, pl);
          WithoutAt(before[n], pos, pos - 1);
          AtPlace(n, pos - 1);
          hbp := hbNext[prev];
      }
      h := 0;
      if pos < |fl[n]| { AtPlace(n, pos); }
      forall p | OnList(fl, n, p) ensures !Serves(index, p, k, maySplit, pl) {
        var j := Place(fl, n, p);
        assert !Serves(index, fl[n][j], k, maySplit, pl);
      }
      NoneAtStart(ix, f, index, fl, n, k, maySplit, pl);
    }

    /** The first `pos` blocks of list `n` do not serve, or the next one is better. */
    ghost predicate Passed(n: nat, pos: nat, k: nat, maySplit: bool, pl: Policy)
      requires n < |fl|
      reads `index, `fl
    {
      PassedOn(index, fl[n], pos, k, maySplit, pl)
    }

    lemma PassedOne(n: nat, pos: nat, k: nat, maySplit: bool, pl: Policy)
      requires Valid() && n < |fl| && pos < |fl[n]| && k > 0 && Passed(n, pos, k, maySplit, pl) && fl[n][pos] < |hbNext|
      requires var next := Nth(fl[n], pos + 1);
        Serves(index, fl[n][pos], k, maySplit, pl) ==> maySplit && next != 0 && Better(index, next, k, pl)
      ensures Passed(n, pos + 1, k, maySplit, pl)
    {
      hide Valid, Serves, Better;
      if maySplit && Better(index, fl[n][pos], k, pl) { BetterServes(index, fl[n][pos], k, pl); }
    }

    lemma AllFree()
      requires Valid()
      ensures Fewer(index, fl, index, fl)
    {
      hide Tiled, Entry.Pages, BytesOk, Coalesced, Chained, LinksOk;
    }

    /** GC_enough_large_bytes_left: the last list from which on there are enough free bytes
        for large objects. */
    method EnoughLargeBytesLeft(allocd: nat, max: nat) returns (n: nat)
      requires |freeBytes| == N_HBLK_FLS + 1
      ensures n <= N_HBLK_FLS
      ensures n > 0 ==> allocd + Total(freeBytes[n..]) >= max
      ensures forall i | n < i <= N_HBLK_FLS :: allocd + Total(freeBytes[i..]) < max
    {
      hide *;
      var bytes: int := allocd;
      n := N_HBLK_FLS;
      TotalNone(freeBytes, n + 1);
      while true
        invariant n <= N_HBLK_FLS && bytes == allocd + Total(freeBytes[n + 1..])
        invariant forall i | n < i <= N_HBLK_FLS :: allocd + Total(freeBytes[i..]) < max
        decreases n
      {
        TotalFront(freeBytes, n);
        bytes := bytes + freeBytes[n];
        if bytes >= max || n == 0 { return; }
        n := n - 1;
      }
    }

    /** GC_allochblk: an exact fit first; then, on the lists up to `splitLimit`, blocks that
        have to be split. It fails only if no block on these lists serves. */
    method Allochblk(sz: nat, splitLimit: nat, pl: Policy) returns (h: nat)
      requires Valid() && sz > 0 && splitLimit <= N_HBLK_FLS
      modifies this
      ensures Valid() && heap == old(heap) && |index| == |old(index)|
      ensures forall q | Allocated(old(index), q) :: Allocated(index, q) && index[q] == old(index)[q]
      ensures h != 0 ==> IsHdr(index, h) && index[h] == Hdr(sz, false) && !Allocated(old(index), h)
      ensures h != 0 ==> sz <= HBLKSIZE * (End(index, h) - h) < sz + HBLKSIZE
      ensures var home := FlFromBlocks(Blocks(sz));
        var next := if home < UNIQUE_THRESHOLD then home + 1 else home;
        Outcome(old(index), old(fl), home, next, splitLimit, Blocks(sz), pl, h)
      ensures h == 0 ==> var k, home := Blocks(sz), FlFromBlocks(Blocks(sz));
        && (forall p | OnList(fl, home, p) :: !Serves(index, p, k, false, pl))
        && (forall i, p | home <= i <= splitLimit && OnList(fl, i, p) :: !Serves(index, p, k, true, pl))
        && Fewer(old(index), old(fl), index, fl)
      ensures h == 0 && !(pl.checked && Blocks(sz) == 1) ==> index == old(index) && fl == old(fl)
    {
      hide Valid, Tiled, Entry.Pages, Blocks, Serves, Fewer, FlFromBlocks, TookFrom, NoneServes;
      ghost var ix, f, k := index, fl, Blocks(sz);
      OneBlock();
      BlocksPositive(sz);
      var start := FlFromBlocks(Blocks(sz));
      ghost var home := start;
      h := AllochblkNth(sz, start, false, pl);
      if h != 0 { return; }
      if start < UNIQUE_THRESHOLD { start := start + 1; }
      var i := start;
      while i <= splitLimit
        invariant Valid() && heap == old(heap) && |index| == |ix|
        invariant forall q | Allocated(ix, q) :: Allocated(index, q) && index[q] == ix[q]
        invariant forall p | OnList(fl, home, p) :: !Serves(index, p, k, false, pl)
        invariant forall j, p | start <= j < i && OnList(fl, j, p) :: !Serves(index, p, k, true, pl)
        invariant |fl| == |f| && forall m | i <= m < |f| :: fl[m] == f[m]
        invariant NoneServes(ix, f, home, k, false, pl)
        invariant forall j: nat | start <= j < i :: NoneServes(ix, f, j, k, true, pl)
        invariant Fewer(ix, f, index, fl)
        invariant !(pl.checked && k == 1) ==> index == ix && fl == f
      {
        ghost var was, before := index, fl;
        assert forall j, p | home <= j <= home && OnList(before, j, p) :: j == home && !Serves(was, p, k, false, pl);
        h := AllochblkNth(sz, i, true, pl);
        if h != 0 {
          TookBefore(ix, f, was, before, i, h, k, true, pl);
          return;
        }
        NoneAtStart(ix, f, was, before, i, k, true, pl);
        StillNone(was, before, index, fl, home, home, k, false, pl);
        StillNone(was, before, index, fl, start, i - 1, k, true, pl);
        FewerTrans(ix, f, was, before, index, fl);
        i := i + 1;
      }
      h := 0;
      forall p | OnList(fl, home, p) && home < UNIQUE_THRESHOLD ensures !Serves(index, p, k, true, pl) {
        ExactList(k, p, pl);
      }
    }

    /** On a list below the threshold all blocks are exact matches. */
    lemma ExactList(k: nat, p: int, pl: Policy)
      requires Valid() && FlFromBlocks(k) < UNIQUE_THRESHOLD && OnList(fl, FlFromBlocks(k), p)
      ensures Serves(index, p, k, true, pl) <==> Serves(index, p, k, false, pl)
    {
      hide Tiled, Entry.Pages, ListsOk, Coalesced, OnList, FlFromBlocks;
      assert FlFromBlocks(index[p].Pages()) == FlFromBlocks(k);
      SmallList(k);
      SameList(k, index[p].Pages());
      SameList(index[p].Pages(), k);
    }
  }

  /** A single page has a list of its own. */
  lemma OneBlock()
    ensures FlFromBlocks(1) < UNIQUE_THRESHOLD
  {
  }

  lemma SmallList(k: nat)
    requires FlFromBlocks(k) < UNIQUE_THRESHOLD
    ensures k < UNIQUE_THRESHOLD
  {
  }

  /** What did not serve still does not. */
  lemma StillNone(ix: Index, fl: seq<seq<int>>, ix': Index, fl': seq<seq<int>>, lo: nat, hi: int, k: nat,
        maySplit: bool, pl: Policy)
    requires Fewer(ix, fl, ix', fl')
    requires forall j, p | lo <= j <= hi && OnList(fl, j, p) :: !Serves(ix, p, k, maySplit, pl)
    ensures forall j, p | lo <= j <= hi && OnList(fl', j, p) :: !Serves(ix', p, k, maySplit, pl)
  {
    hide OnList, Serves, Entry.Pages;
    forall j, p | lo <= j <= hi && OnList(fl', j, p) ensures !Serves(ix', p, k, maySplit, pl) {
      SameServes(ix, ix', p, k, maySplit, pl);
    }
  }

  /** Other lists have not been touched. */
  predicate OnlyList(fl: seq<seq<int>>, fl': seq<seq<int>>, n: nat) {
    |fl| == |fl'| && forall m | 0 <= m < |fl| && m != n :: fl'[m] == fl[m]
  }

  lemma CleanUsable(pl: Policy, k: nat)
    ensures forall s: nat :: Usable(pl, s, k) <==> pl.Clean(s, pl.Counted(k))
  {
  }

  /** A block that is given up did not serve. */
  lemma StillServing(ix: Index, f: seq<seq<int>>, was: Index, before: seq<seq<int>>, fl': seq<seq<int>>, n: nat,
        pos: nat, k: nat, maySplit: bool, pl: Policy)
    requires n < |before| && pos < |before[n]| && Fewer(ix, f, was, before)
    requires fl' == before[n := Without(before[n], pos)] && !Serves(was, before[n][pos], k, maySplit, pl)
    requires forall p | OnList(f, n, p) && Serves(ix, p, k, maySplit, pl) :: OnList(before, n, p)
    ensures forall p | OnList(f, n, p) && Serves(ix, p, k, maySplit, pl) :: OnList(fl', n, p)
  {
    hide Serves, Entry.Pages;
    forall p | OnList(f, n, p) && Serves(ix, p, k, maySplit, pl) ensures OnList(fl', n, p) {
      assert OnList(before, n, p);
      SameServes(ix, was, p, k, maySplit, pl);
      var j := Place(before, n, p);
      assert j != pos;
      WithoutAt(before[n], pos, if j < pos then j else j - 1);
    }
  }

  ghost predicate PassedOn(ix: Index, l: seq<int>, pos: nat, k: nat, maySplit: bool, pl: Policy) {
    pos <= |l| && forall j | 0 <= j < pos ::
      !Serves(ix, l[j], k, maySplit, pl) || (maySplit && pos < |l| && Better(ix, l[pos], k, pl))
  }

  /** A block that has been given up was not the better one. */
  lemma PassedDrop(ix: Index, fl: seq<seq<int>>, ix': Index, fl': seq<seq<int>>, n: nat, pos: nat, k: nat,
        maySplit: bool, pl: Policy)
    requires n < |fl| && pos < |fl[n]| && k > 0 && PassedOn(ix, fl[n], pos, k, maySplit, pl)
    requires fl' == fl[n := Without(fl[n], pos)] && Fewer(ix, fl, ix', fl') && !Serves(ix, fl[n][pos], k, maySplit, pl)
    ensures PassedOn(ix', fl'[n], pos, k, maySplit, pl)
  {
    hide Serves, Better, Entry.Pages;
    if maySplit && Better(ix, fl[n][pos], k, pl) { BetterServes(ix, fl[n][pos], k, pl); }
    forall j | 0 <= j < pos ensures !Serves(ix', fl'[n][j], k, maySplit, pl) {
      WithoutAt(fl[n], pos, j);
      assert OnList(fl', n, fl'[n][j]);
      SameServes(ix, ix', fl[n][j], k, maySplit, pl);
    }
  }

  lemma DropFewer(ix: Index, fl: seq<seq<int>>, ix': Index, fl': seq<seq<int>>, heap: set<int>, n: nat, pos: nat)
    requires Fewer(ix, fl, ix, fl) && AllDistinct(fl) && n < |fl| && pos < |fl[n]|
    requires fl' == fl[n := Without(fl[n], pos)]
    requires Tiled(ix, heap) && IsFree(ix, fl[n][pos]) && Dropped(ix, ix', fl[n][pos])
    ensures Fewer(ix, fl, ix', fl')
  {
    hide Tiled, Entry.Pages;
    var h := fl[n][pos];
    DroppedTiled(ix, ix', heap, h);
    forall m, p | OnList(fl', m, p) ensures OnList(fl, m, p) && p != h {
      var j := Place(fl', m, p);
      if m == n { WithoutAt(fl[n], pos, j); }
    }
  }

  lemma TotalNone(b: seq<int>, n: nat)
    requires n == |b|
    ensures Total(b[n..]) == 0
  {
    assert b[n..] == [];
  }

  lemma {:induction false} TotalFront(b: seq<int>, n: nat)
    requires n < |b|
    ensures Total(b[n..]) == b[n] + Total(b[n + 1..])
    decreases |b|
  {
    var k := |b| - 1;
    if n == k {
      assert b[n..] == [b[n]] && b[n + 1..] == [] && [b[n]][..0] == [];
    } else {
      assert b[n..][..|b[n..]| - 1] == b[..k][n..] && b[n + 1..][..|b[n + 1..]| - 1] == b[..k][n + 1..];
      TotalFront(b[..k], n);
    }
  }

  /** An allocated block, freed, meets what GC_freehblk expects of a block. */
  lemma FreeAllowed(ix: Index, v: Lists, fl: seq<seq<int>>, heap: set<int>, large: int, h: nat)
    requires Inv(ix, v, fl, heap, large) && Allocated(ix, h)
    ensures h + ix[h].Pages() <= |ix| && Hdr(HBLKSIZE * ix[h].Pages(), true).Pages() == ix[h].Pages() && !IsFree(ix, 0)
    ensures var ix' := Put(ix, h, Hdr(HBLKSIZE * ix[h].Pages(), true));
      Tiled(ix', heap) && OnlyAt(ix, ix', h, h) && IsFree(ix', h)
  {
    hide Tiled, Entry.Pages, ListsOk, Listed, Coalesced, Put, OnlyAt;
    HdrPages(ix[h].Pages(), true);
    SamePages(ix, heap, h, Hdr(HBLKSIZE * ix[h].Pages(), true));
    NoPageZero(ix, heap);
  }

  lemma SplitPages(ix: Index, heap: set<int>, h: nat, d: nat)
    requires Tiled(ix, heap) && IsFree(ix, h) && 0 < d < ix[h].Pages()
    ensures h + d < |ix| && HBLKSIZE * d <= ix[h].sz && IsHdr(SplitAt(ix, h, d), h + d)
    ensures SplitAt(ix, h, d)[h + d].Pages() == ix[h].Pages() - d
  {
    hide Tiled, Entry.Pages;
    SplitTiled(ix, heap, h, d);
  }

  lemma BlocksPositive(sz: nat)
    requires sz > 0
    ensures Blocks(sz) > 0 && Hdr(sz, false).Pages() == Blocks(sz)
    ensures sz <= HBLKSIZE * Blocks(sz) < sz + HBLKSIZE
  {
  }

  lemma SamePlace(fl: seq<seq<int>>, n: nat, pos: nat, k: nat)
    requires AllDistinct(fl) && n < |fl| && pos < |fl[n]| && k < |fl[n]| && fl[n][k] == fl[n][pos]
    ensures k == pos
  {
  }

  lemma ListsSizes(ix: Index, v: Lists, fl: seq<seq<int>>)
    requires ListsOk(ix, v, fl)
    ensures |v.heads| == |v.bytes| == |fl| == N_HBLK_FLS + 1 && |v.prev| == |v.next| == |ix|
  {
  }

  lemma NotHeader(ix: Index, fl: seq<seq<int>>, n: int)
    requires Listed(ix, fl, 0, -1) && !IsHdr(ix, n)
    ensures forall j :: !OnList(fl, j, n)
  {
  }

  lemma SplitEntries(ix: Index, h: nat, d: nat)
    requires IsHdr(ix, h) && h + d < |ix| && HBLKSIZE * d <= ix[h].sz
    ensures IsHdr(SplitAt(ix, h, d), h + d) && SplitAt(ix, h, d)[h + d].sz + HBLKSIZE * d == ix[h].sz
  {
  }

  lemma DropListed(ix: Index, fl: seq<seq<int>>, fl': seq<seq<int>>, h: int, heap: set<int>)
    requires Listed(ix, fl, 0, -1) && Tiled(ix, heap)
    requires forall j, q :: OnList(fl', j, q) <==> OnList(fl, j, q) && q != h
    ensures ListedBut(ix, fl', h, h)
  {
    NoPageZero(ix, heap);
    hide Tiled, Entry.Pages, OnList;
  }

  /** A header in front of pages that the heap does not have yet. */
  lemma NewHeader(ix: Index, v: Lists, fl: seq<seq<int>>, p: nat, m: nat)
    requires ListsOk(ix, v, fl) && Listed(ix, fl, 0, -1) && Coalesced(ix) && p < |ix| && !IsHdr(ix, p)
    requires !IsFree(ix, 0) && m > 0
    requires p + m <= |ix| && Hdr(HBLKSIZE * m, true).Pages() == m
    requires OnlyAt(ix, Put(ix, p, Hdr(HBLKSIZE * m, true)), p, p)
    ensures var ix' := ix[p := Hdr(HBLKSIZE * m, false)];
      && ix'[p].Pages() == m && ListsOk(ix', v, fl) && Listed(ix', fl, 0, -1) && Coalesced(ix') && !IsFree(ix', 0)
      && Put(ix', p, Hdr(HBLKSIZE * m, true)) == Put(ix, p, Hdr(HBLKSIZE * m, true))
      && OnlyAt(ix', Put(ix', p, Hdr(HBLKSIZE * m, true)), p, p)
  {
    assert Hdr(HBLKSIZE * m, false).Pages() == m by { HdrPages(m, false); }
    hide Entry.Pages, ListsOk, OnList;
    var ix' := ix[p := Hdr(HBLKSIZE * m, false)];
    forall q | q != p && (IsHdr(ix, q) || IsHdr(ix', q))
      ensures IsHdr(ix, q) && IsHdr(ix', q) && ix[q] == ix'[q] && End(ix, q) == End(ix', q)
    {
    }
    forall j, q | OnList(fl, j, q) ensures Sz(ix, q) == Sz(ix', q) {
    }
    OffLists(ix, ix', v, fl);
    assert forall q :: IsFree(ix', q) <==> IsFree(ix, q);
    assert forall a, b | IsFree(ix', a) && IsFree(ix', b) :: End(ix', a) == End(ix, a);
    assert Put(ix', p, Hdr(HBLKSIZE * m, true)) == Put(ix, p, Hdr(HBLKSIZE * m, true));
  }

  lemma ReadyListed(ix: Index, fl: seq<seq<int>>, h: int, i: int)
    requires Listed(ix, fl, h, i) && IsFree(ix, h) && 0 <= i
    ensures OnList(fl, i, h)
  {
  }

  lemma ReadyRemoved(ix: Index, fl: seq<seq<int>>, fl': seq<seq<int>>, h: int, i: int, heap: set<int>)
    requires Listed(ix, fl, h, i) && forall j, q :: OnList(fl', j, q) <==> OnList(fl, j, q) && q != h
    ensures ListedBut(ix, fl', h, h)
  {
    hide Entry.Pages, OnList;
  }

  lemma RestAdded(ix: Index, ix': Index, fl: seq<seq<int>>, fl': seq<seq<int>>, h: nat, r: nat, heap: set<int>)
    requires ListedBut(ix, fl, h, h) && Tiled(ix, heap) && IsFree(ix, h) && h < r < End(ix, h)
    requires |ix'| == |ix| && r < |ix| && IsFree(ix', r) && ix' == ix[r := ix'[r]]
    requires forall j, q :: OnList(fl', j, q) <==> OnList(fl, j, q) || (j == Home(ix', r) && q == r)
    ensures ListedBut(ix', fl', h, h)
  {
    hide Tiled, Entry.Pages, OnList;
    InsideBlock(ix, heap, h, r);
    forall j, q ensures OnList(fl', j, q) <==> IsFree(ix', q) && q != h && 0 <= j && j == Home(ix', q) {
    }
  }

  lemma ReadyFacts(ix: Index, v: Lists, fl: seq<seq<int>>, heap: set<int>, h: int, i: int)
    requires Ready(ix, v, fl, heap, h, i)
    ensures Tiled(ix, heap) && IsFree(ix, h) && 0 < h
  {
    hide Entry.Pages, ListsOk, Listed, CoalescedBut, NoNext;
    BlockSize(ix, heap, h);
  }

  lemma TakenKept(ix: Index, ix': Index, heap: set<int>, h: nat, k: nat, sz: nat)
    requires IsFree(ix, h) && HBLKSIZE * k <= ix[h].sz && TakenShape(ix, ix', heap, h, k, sz)
    ensures Kept(ix, ix', h) && ix'[h] == Hdr(sz, false) && |ix'| == |ix|
  {
    hide Tiled, Entry.Pages;
  }

  lemma SameIndex(ix: Index, p: int)
    ensures OnlyAt(ix, ix, p, p)
  {
  }

  lemma NotListed(ix: Index, fl: seq<seq<int>>, p: int)
    requires ListedBut(ix, fl, p, p)
    ensures forall j :: !OnList(fl, j, p)
  {
  }

  /** The counts removed and the header set: the block has been rewritten. */
  lemma PutFree(was: Index, h: nat, ix: Index)
    requires IsHdr(was, h) && was[h].Pages() > 0 && h + was[h].Pages() <= |was| == |ix|
    requires Hdr(HBLKSIZE * was[h].Pages(), true).Pages() == was[h].Pages()
    requires ix[h] == Hdr(HBLKSIZE * was[h].Pages(), true)
    requires forall q | 0 <= q < |ix| && q != h :: ix[q] == if h < q < h + was[h].Pages() then Nil else was[q]
    ensures ix == Put(was, h, Hdr(HBLKSIZE * was[h].Pages(), true))
  {
    hide Entry.Pages;
  }

  /** Counts are found only inside allocated blocks. */
  lemma CountAllocated(ix: Index, heap: set<int>, j: int, r: int)
    requires Tiled(ix, heap) && 0 <= j < |ix| && ix[j].Count?
    requires IsHdr(ix, r) && r <= j && forall q | IsHdr(ix, q) && q <= j :: q <= r
    ensures Allocated(ix, r)
  {
    hide Entry.Pages;
    assert j in heap && Covered(ix, j);
    var p := Owner(ix, heap, j);
    assert BlockOk(ix, p);
    if p < r { InsideBlock(ix, heap, p, r); }
  }

  lemma NoneBefore(ix: Index, heap: set<int>, h: int)
    requires Tiled(ix, heap) && forall q | IsHdr(ix, q) :: q >= h
    ensures forall q | IsHdr(ix, q) :: End(ix, q) != h
  {
    hide Tiled, Entry.Pages;
    forall q | IsHdr(ix, q) ensures End(ix, q) != h {
      BlockSize(ix, heap, q);
    }
  }

  lemma HomeSame(ix: Index, h: nat)
    requires IsHdr(ix, h)
    ensures var ix' := ix[h := Hdr(ix[h].sz, true)];
      Home(ix', h) == Home(ix, h) && ix'[h].sz == ix[h].sz
  {
  }

  lemma {:induction false} TotalZero(b: seq<int>)
    requires forall i | 0 <= i < |b| :: b[i] == 0
    ensures Total(b) == 0
  {
    if b != [] {
      TotalZero(b[..|b| - 1]);
    }
  }

  /** A count leads back within the block, and no block begins in between. */
  lemma CountInside(ix: Index, heap: set<int>, j: int)
    requires Tiled(ix, heap) && 0 <= j < |ix| && ix[j].Count?
    ensures 0 < ix[j].k <= j && forall q | IsHdr(ix, q) && q <= j :: q <= j - ix[j].k
  {
    hide Entry.Pages;
    assert j in heap && Covered(ix, j);
    var p := Owner(ix, heap, j);
    assert BlockOk(ix, p);
    forall q | IsHdr(ix, q) && q <= j ensures q <= j - ix[j].k {
      if p < q { InsideBlock(ix, heap, p, q); }
    }
  }

  /** If `r` is the last block that begins before `h`, no other can end at `h`. */
  lemma LastBefore(ix: Index, heap: set<int>, r: int, h: int)
    requires Tiled(ix, heap) && IsHdr(ix, r) && r < h && forall q | IsHdr(ix, q) && q < h :: q <= r
    ensures forall q | IsHdr(ix, q) && End(ix, q) == h :: q == r
  {
    hide Tiled, Entry.Pages;
    BlockSize(ix, heap, r);
    forall q | IsHdr(ix, q) && End(ix, q) == h ensures q == r {
      BlockSize(ix, heap, q);
    }
  }
}
