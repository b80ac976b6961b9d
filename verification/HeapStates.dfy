/** The state of the block allocator as a value, and what its steps do to it
    (gc/gc-7.2/allchblk.c). */
module HeapStates {
  import opened HeapIndex
  import opened HeapMoves
  import opened FreeLists

  /** The list a free block belongs on. */
  function Home(ix: Index, p: int): nat
    requires IsHdr(ix, p)
  {
    FlFromBlocks(ix[p].Pages())
  }

  /** Exactly the free blocks are on the lists, each on its own; only `x` is on list `i`
      instead, or on none if `i` is negative. */
  ghost predicate Listed(ix: Index, fl: seq<seq<int>>, x: int, i: int) {
    forall j, q :: OnList(fl, j, q) <==> IsFree(ix, q) && 0 <= j && j == (if q == x then i else Home(ix, q))
  }

  /** The byte counts are the true sums. */
  ghost predicate BytesOk(ix: Index, v: Lists, fl: seq<seq<int>>) {
    |v.bytes| == |fl| && forall i | 0 <= i < |fl| :: v.bytes[i] == SumSz(ix, fl[i])
  }

  ghost predicate ListsOk(ix: Index, v: Lists, fl: seq<seq<int>>) {
    LinksOk(v, fl, |ix|) && BytesOk(ix, v, fl)
  }

  /** The heap between two operations. */
  ghost predicate Inv(ix: Index, v: Lists, fl: seq<seq<int>>, heap: set<int>, large: int) {
    && Tiled(ix, heap) && Coalesced(ix) && ListsOk(ix, v, fl) && Listed(ix, fl, 0, -1) && large == Total(v.bytes)
  }

  /** What other callers rely on: allocated blocks have not been touched. */
  ghost predicate Kept(ix: Index, ix': Index, p: int) {
    |ix| == |ix'| && forall q | q != p && Allocated(ix, q) :: Allocated(ix', q) && ix'[q] == ix[q]
  }

  // -------------------------------------------------------------- list operations

  lemma RemovedLists(ix: Index, v: Lists, fl: seq<seq<int>>, i: nat, k: nat)
    requires ListsOk(ix, v, fl) && i < |fl| && k < |fl[i]| && IsHdr(ix, fl[i][k])
    ensures var p := fl[i][k];
      && 0 <= p < |v.prev| == |v.next| && 0 <= v.prev[p] < |v.next| && 0 <= v.next[p] < |v.prev| && i < |v.heads|
      && i < |v.bytes|
      && var w, f := Removed(v, i, p, ix[p].sz), fl[i := Without(fl[i], k)];
      && ListsOk(ix, w, f) && Total(w.bytes) == Total(v.bytes) - ix[p].sz
      && forall j, q :: OnList(f, j, q) <==> OnList(fl, j, q) && q != p
  {
    hide LinksOk, SumSz, Total, AllDistinct;
    LinksShape(v, fl, |ix|);
    NthLinks(v, fl, |ix|, i, k);
    RemovedOk(v, fl, |ix|, i, k, ix[fl[i][k]].sz);
    SumWithout(ix, fl[i], k);
    TotalUpdate(v.bytes, i, v.bytes[i] - ix[fl[i][k]].sz);
  }

  lemma AddedLists(ix: Index, v: Lists, fl: seq<seq<int>>, p: nat)
    requires ListsOk(ix, v, fl) && IsHdr(ix, p) && p > 0 && forall j :: !OnList(fl, j, p)
    ensures var i, ix' := Home(ix, p), ix[p := Hdr(ix[p].sz, true)];
      && i < |v.heads| && i < |v.bytes| && |v.prev| == |v.next| == |ix| && 0 <= v.heads[i] < |v.prev| && i < |fl|
      && var w, f := Added(v, i, p, ix[p].sz), fl[i := [p] + fl[i]];
      && ListsOk(ix', w, f) && Total(w.bytes) == Total(v.bytes) + ix[p].sz
      && forall j, q :: OnList(f, j, q) <==> OnList(fl, j, q) || (j == i && q == p)
  {
    hide LinksOk, SumSz, Total, AllDistinct, Entry.Pages;
    LinksShape(v, fl, |ix|);
    var i, ix' := Home(ix, p), ix[p := Hdr(ix[p].sz, true)];
    HeadLink(v, fl, |ix|, i);
    AddedOk(v, fl, |ix|, i, p, ix[p].sz);
    SumWith(ix, fl[i], p);
    TotalUpdate(v.bytes, i, v.bytes[i] + ix[p].sz);
    var f := fl[i := [p] + fl[i]];
    forall j | 0 <= j < |f| ensures SumSz(ix, f[j]) == SumSz(ix', f[j]) {
      SumSame(ix, ix', f[j]);
    }
  }

  /** The sums do not change with the index entries of blocks that are on no list. */
  lemma OffLists(ix: Index, ix': Index, v: Lists, fl: seq<seq<int>>)
    requires ListsOk(ix, v, fl) && |ix| == |ix'| && forall j, q | OnList(fl, j, q) :: Sz(ix, q) == Sz(ix', q)
    ensures ListsOk(ix', v, fl)
  {
    hide LinksOk, SumSz, Sz;
    forall i | 0 <= i < |fl| ensures SumSz(ix', fl[i]) == SumSz(ix, fl[i]) {
      forall k | 0 <= k < |fl[i]| ensures Sz(ix, fl[i][k]) == Sz(ix', fl[i][k]) {
        assert OnList(fl, i, fl[i][k]);
      }
      SumSame(ix, ix', fl[i]);
    }
  }

  // ------------------------------------------------------------------ coalescing

  /** No two adjacent blocks are free, `x` apart. */
  ghost predicate CoalescedBut(ix: Index, x: int) {
    forall p, r | IsFree(ix, p) && IsFree(ix, r) && p != x && r != x :: End(ix, p) != r
  }

  ghost predicate NoNext(ix: Index, x: int)
    requires IsHdr(ix, x)
  {
    forall r | IsFree(ix, r) :: End(ix, x) != r
  }

  ghost predicate NoPrev(ix: Index, x: int) {
    forall p | IsFree(ix, p) && p != x :: End(ix, p) != x
  }

  lemma AllCoalesced(ix: Index, heap: set<int>, x: int)
    requires Tiled(ix, heap) && IsHdr(ix, x) && CoalescedBut(ix, x) && NoNext(ix, x) && NoPrev(ix, x)
    ensures Coalesced(ix)
  {
    hide Tiled, Entry.Pages, Blocks;
    BlockSize(ix, heap, x);
  }

  lemma MergedNext(ix: Index, heap: set<int>, p: nat, r: nat)
    requires Tiled(ix, heap) && IsFree(ix, p) && IsFree(ix, r) && End(ix, p) == r && CoalescedBut(ix, p)
    ensures var ix' := Merge(ix, p, r);
      IsHdr(ix', p) && CoalescedBut(ix', p) && NoNext(ix', p) && (NoPrev(ix, p) ==> NoPrev(ix', p))
  {
    hide Tiled, Entry.Pages, Blocks, Merge;
    Merged(ix, heap, p, r);
    BlockSize(ix, heap, p);
    BlockSize(ix, heap, r);
    var ix' := Merge(ix, p, r);
    forall q | IsFree(ix', q) && q != p
      ensures q != r && IsFree(ix, q) && ix'[q] == ix[q] && End(ix', q) == End(ix, q)
    {
    }
  }

  lemma MergedPrev(ix: Index, heap: set<int>, p: nat, r: nat)
    requires Tiled(ix, heap) && IsFree(ix, p) && IsFree(ix, r) && End(ix, p) == r && CoalescedBut(ix, r)
    requires NoNext(ix, r)
    ensures var ix' := Merge(ix, p, r);
      IsHdr(ix', p) && CoalescedBut(ix', p) && NoNext(ix', p) && NoPrev(ix', p)
  {
    hide Tiled, Entry.Pages, Blocks, Merge;
    Merged(ix, heap, p, r);
    BlockSize(ix, heap, p);
    BlockSize(ix, heap, r);
    var ix' := Merge(ix, p, r);
    forall q | IsFree(ix', q) && q != p
      ensures q != r && IsFree(ix, q) && ix'[q] == ix[q] && End(ix', q) == End(ix, q)
    {
    }
  }

  // ------------------------------------------------------------ the lists follow

  /** Exactly the free blocks other than `p` and `r` are on the lists. */
  ghost predicate ListedBut(ix: Index, fl: seq<seq<int>>, p: int, r: int) {
    forall j, q :: OnList(fl, j, q) <==> IsFree(ix, q) && q != p && q != r && 0 <= j && j == Home(ix, q)
  }

  /** The entries of `p` and `r`, which are on no list, have changed. */
  lemma ListedAfter(ix: Index, ix': Index, v: Lists, fl: seq<seq<int>>, p: int, r: int)
    requires ListsOk(ix, v, fl) && ListedBut(ix, fl, p, r) && OnlyAt(ix, ix', p, r)
    ensures ListsOk(ix', v, fl) && ListedBut(ix', fl, p, r)
  {
    hide ListsOk, Entry.Pages, OnList;
    forall j, q | OnList(fl, j, q) ensures Sz(ix, q) == Sz(ix', q) {
    }
    OffLists(ix, ix', v, fl);
    forall j, q ensures OnList(fl, j, q) <==> IsFree(ix', q) && q != p && q != r && 0 <= j && j == Home(ix', q) {
      if q != p && q != r && (IsHdr(ix, q) || IsHdr(ix', q)) {
        assert ix[q] == ix'[q];
      }
    }
  }

  /** A block is freed: it is on no list yet. */
  lemma FreedStart(ix: Index, ix': Index, v: Lists, fl: seq<seq<int>>, p: int)
    requires ListsOk(ix, v, fl) && Listed(ix, fl, 0, -1) && Coalesced(ix) && !IsFree(ix, 0) && !IsFree(ix, p)
    requires OnlyAt(ix, ix', p, p)
    ensures ListsOk(ix', v, fl) && ListedBut(ix', fl, p, p) && CoalescedBut(ix', p) && Kept(ix, ix', p)
  {
    hide ListsOk, Entry.Pages, OnList;
    forall j, q ensures OnList(fl, j, q) <==> IsFree(ix, q) && q != p && 0 <= j && j == Home(ix, q) {
    }
    ListedAfter(ix, ix', v, fl, p, p);
    forall a, b | IsFree(ix', a) && IsFree(ix', b) && a != p && b != p ensures End(ix', a) != b {
      assert IsFree(ix, a) && IsFree(ix, b) && End(ix, a) == End(ix', a);
    }
  }

  /** The last step: the block is put on its list. */
  lemma ListedDone(ix: Index, ix': Index, fl: seq<seq<int>>, fl': seq<seq<int>>, p: int, r: int)
    requires ListedBut(ix, fl, p, r) && IsFree(ix', p) && !IsFree(ix, 0) && !IsFree(ix', 0)
    requires (r == p || !IsHdr(ix, r)) && OnlyAt(ix, ix', p, p)
    requires forall j, q :: OnList(fl', j, q) <==> OnList(fl, j, q) || (j == Home(ix', p) && q == p)
    ensures Listed(ix', fl', 0, -1)
  {
    hide Entry.Pages, OnList;
    forall j, q ensures OnList(fl', j, q) <==> IsFree(ix', q) && 0 <= j && j == (if q == 0 then -1 else Home(ix', q)) {
      if q != p && (IsHdr(ix, q) || IsHdr(ix', q)) {
        assert ix[q] == ix'[q];
      }
    }
  }

  /** While block `p` is being freed: it is free already, but on no list. */
  ghost predicate Freeing(ix: Index, v: Lists, fl: seq<seq<int>>, heap: set<int>, p: int) {
    Tiled(ix, heap) && IsFree(ix, p) && ListsOk(ix, v, fl) && ListedBut(ix, fl, p, p) && CoalescedBut(ix, p)
  }

  lemma NoPageZero(ix: Index, heap: set<int>)
    requires Tiled(ix, heap)
    ensures !IsHdr(ix, 0)
  {
    hide Entry.Pages;
  }

  /** A free block that is not being freed is on its list. */
  lemma OnItsList(ix: Index, fl: seq<seq<int>>, p: int, r: int)
    requires ListedBut(ix, fl, p, p) && IsFree(ix, r) && r != p
    ensures OnList(fl, Home(ix, r), r)
  {
    hide OnList, Entry.Pages;
  }

  /** Blocks `p` and `r`, of which `x` is being freed, become one; the other has been taken
      off its list. */
  lemma FreeingMerged(ix: Index, v: Lists, fl: seq<seq<int>>, v': Lists, fl': seq<seq<int>>, heap: set<int>, p: nat,
        r: nat, x: int)
    requires Freeing(ix, v, fl, heap, x) && IsFree(ix, p) && IsFree(ix, r) && End(ix, p) == r && (x == p || x == r)
    requires ListsOk(ix, v', fl') && forall j, q :: OnList(fl', j, q) <==> OnList(fl, j, q) && q != p + r - x
    requires x == r ==> NoNext(ix, r)
    ensures var ix' := Merge(ix, p, r);
      && Freeing(ix', v', fl', heap, p) && NoNext(ix', p) && ix'[p].sz == ix[p].sz + ix[r].sz && !IsHdr(ix', r)
      && (x == p && NoPrev(ix, p) ==> NoPrev(ix', p)) && (x == r ==> NoPrev(ix', p)) && OnlyAt(ix, ix', p, r)
      && (forall q | q < p && IsFree(ix, q) :: IsFree(ix', q) && End(ix', q) == End(ix, q))
  {
    hide Tiled, Entry.Pages, ListsOk, OnList, Merge;
    Merged(ix, heap, p, r);
    if x == p {
      MergedNext(ix, heap, p, r);
    } else {
      MergedPrev(ix, heap, p, r);
    }
    var ix' := Merge(ix, p, r);
    assert ListedBut(ix, fl', p, r);
    ListedAfter(ix, ix', v', fl', p, r);
  }

  // ----------------------------------------------------------------- allocation

  /** Block `h` is free, on list `i`, and about to be allocated. */
  ghost predicate Ready(ix: Index, v: Lists, fl: seq<seq<int>>, heap: set<int>, h: int, i: int) {
    && Tiled(ix, heap) && IsFree(ix, h) && ListsOk(ix, v, fl) && Listed(ix, fl, h, i)
    && CoalescedBut(ix, h) && NoNext(ix, h) && 0 <= i < |fl|
  }

  lemma ReadyFrom(ix: Index, v: Lists, fl: seq<seq<int>>, heap: set<int>, large: int, h: int, i: int)
    requires Inv(ix, v, fl, heap, large) && OnList(fl, i, h)
    ensures Ready(ix, v, fl, heap, h, i) && i == Home(ix, h) && IsFree(ix, h)
  {
    hide Tiled, Entry.Pages, ListsOk, Chained;
    assert IsFree(ix, h) && i == Home(ix, h);
    NoPageZero(ix, heap);
    hide OnList;
    BlockSize(ix, heap, h);
  }

  /** A free block ends in one place only. */
  lemma EndsOnce(ix: Index, heap: set<int>, a: int, b: int)
    requires Tiled(ix, heap) && IsHdr(ix, a) && IsHdr(ix, b) && End(ix, a) == End(ix, b)
    ensures a == b
  {
    hide Tiled, Entry.Pages;
    BlockSize(ix, heap, a);
    BlockSize(ix, heap, b);
  }

  /** The index after the first `k` pages of block `h` have become an object of `sz` bytes. */
  function Taken(ix: Index, h: nat, k: nat, sz: nat): Index
    requires IsHdr(ix, h) && 0 < k <= ix[h].Pages() && h + k <= |ix| && (k < ix[h].Pages() ==> h + k < |ix|)
    requires HBLKSIZE * k <= ix[h].sz && Hdr(sz, false).Pages() == k
  {
    Put(if k < ix[h].Pages() then SplitAt(ix, h, k) else ix, h, Hdr(sz, false))
  }

  /** What taking the first `k` pages does. */
  ghost predicate TakenShape(ix: Index, ix': Index, heap: set<int>, h: nat, k: nat, sz: nat)
    requires IsHdr(ix, h) && HBLKSIZE * k <= ix[h].sz
  {
    && Tiled(ix', heap) && OnlyAt(ix, ix', h, if k < ix[h].Pages() then h + k else h)
    && IsHdr(ix', h) && ix'[h] == Hdr(sz, false) && End(ix', h) == h + k
    && (k < ix[h].Pages() ==>
          (IsFree(ix', h + k) && End(ix', h + k) == End(ix, h) && !IsHdr(ix, h + k) &&
           ix'[h + k] == Hdr(ix[h].sz - HBLKSIZE * k, true)))
  }

  lemma TakenOk(ix: Index, heap: set<int>, h: nat, k: nat, sz: nat)
    requires Tiled(ix, heap) && IsFree(ix, h) && 0 < k <= ix[h].Pages() && Hdr(sz, false).Pages() == k
    ensures h + k <= |ix| && (k < ix[h].Pages() ==> h + k < |ix|) && HBLKSIZE * k <= ix[h].sz
    ensures TakenShape(ix, Taken(ix, h, k, sz), heap, h, k, sz)
  {
    hide Tiled, Entry.Pages, Blocks, Put, OnlyAt;
    FreeSize(ix, heap, h);
    if k < ix[h].Pages() {
      SplitTiled(ix, heap, h, k);
      SamePages(SplitAt(ix, h, k), heap, h, Hdr(sz, false));
      OnlyTwice(ix, SplitAt(ix, h, k), Taken(ix, h, k, sz), h, h + k);
    } else {
      SamePages(ix, heap, h, Hdr(sz, false));
    }
  }

  lemma OnlyTwice(a: Index, b: Index, c: Index, h: int, r: int)
    requires OnlyAt(a, b, h, r) && OnlyAt(b, c, h, h) && h != r && IsHdr(b, r)
    ensures OnlyAt(a, c, h, r) && IsHdr(c, r) && c[r] == b[r]
  {
  }

  lemma TakenCoalesced(ix: Index, v: Lists, fl: seq<seq<int>>, heap: set<int>, h: nat, i: int, k: nat, sz: nat,
        ix': Index)
    requires Ready(ix, v, fl, heap, h, i) && 0 < k <= ix[h].Pages() && HBLKSIZE * k <= ix[h].sz
    requires TakenShape(ix, ix', heap, h, k, sz)
    ensures Coalesced(ix')
  {
    hide Tiled, Entry.Pages, Blocks, ListsOk, Listed;
    var r := h + k;
    forall q | IsFree(ix', q) && !(k < ix[h].Pages() && q == r)
      ensures q != h && IsFree(ix, q) && End(ix', q) == End(ix, q) && End(ix, h) != q
    {
    }
    forall a, b | IsFree(ix', a) && IsFree(ix', b) ensures End(ix', a) != b {
      BlockSize(ix', heap, a);
      if End(ix', a) == r {
        EndsOnce(ix', heap, a, h);
      }
    }
  }

  /** While the header of `h` still says what it said before, the rest is on its list. */
  lemma TakenListed(ix: Index, mid: Index, ix': Index, v: Lists, fl: seq<seq<int>>, h: int)
    requires ListsOk(mid, v, fl) && ListedBut(mid, fl, h, h) && OnlyAt(mid, ix', h, h) && !IsFree(ix', h)
    requires !IsFree(ix', 0)
    ensures ListsOk(ix', v, fl) && Listed(ix', fl, 0, -1)
  {
    hide Entry.Pages, ListsOk, OnList, OnlyAt;
    ListedAfter(mid, ix', v, fl, h, h);
    forall j, q ensures OnList(fl, j, q) <==> IsFree(ix', q) && 0 <= j && j == (if q == 0 then -1 else Home(ix', q)) {
    }
  }

  /** The index when the rest of block `h` has its header but `h` still has the old one. */
  function RestMade(ix: Index, h: nat, k: nat): Index
    requires IsHdr(ix, h) && HBLKSIZE * k <= ix[h].sz && h + k <= |ix| && (k < ix[h].Pages() ==> h + k < |ix|)
  {
    if k < ix[h].Pages() then ix[h + k := Hdr(ix[h].sz - HBLKSIZE * k, true)] else ix
  }

  lemma RestShape(ix: Index, ix': Index, heap: set<int>, h: nat, k: nat, sz: nat)
    requires Tiled(ix, heap) && IsFree(ix, h) && 0 < k <= ix[h].Pages() && h + k <= |ix|
    requires (k < ix[h].Pages() ==> h + k < |ix|)
    requires HBLKSIZE * k <= ix[h].sz && TakenShape(ix, ix', heap, h, k, sz)
    ensures OnlyAt(RestMade(ix, h, k), ix', h, h)
  {
    hide Tiled, Entry.Pages, Blocks;
  }

  /** The entries after install_counts and setup_header. */
  function TakenEntry(ix: Index, h: nat, k: nat, sz: nat, q: int): Entry
    requires 0 <= q < |ix|
  {
    if q == h then Hdr(sz, false) else if h < q < h + k then Inside(Hdr(sz, false), q - h) else ix[q]
  }

  /** Counts and header together rewrite the first pages. */
  lemma TakenIs(ix: Index, heap: set<int>, h: nat, k: nat, sz: nat, ix': Index)
    requires Tiled(ix, heap) && IsFree(ix, h) && 0 < k <= ix[h].Pages() && Hdr(sz, false).Pages() == k
    requires h + k <= |ix| && (k < ix[h].Pages() ==> h + k < |ix|) && HBLKSIZE * k <= ix[h].sz && |ix'| == |ix|
    requires forall q | 0 <= q < |ix| :: ix'[q] == TakenEntry(RestMade(ix, h, k), h, k, sz, q)
    ensures ix' == Taken(ix, h, k, sz)
  {
    hide Tiled, Entry.Pages, Blocks;
    var t := Taken(ix, h, k, sz);
    forall q | 0 <= q < |ix| ensures t[q] == ix'[q] {
    }
  }

  /** The rest of a block that is being taken gets a header and goes on its list. */
  lemma RestListed(ix: Index, mid: Index, v: Lists, fl: seq<seq<int>>, heap: set<int>, h: nat, r: nat, sz: nat)
    requires ListsOk(ix, v, fl) && ListedBut(ix, fl, h, h) && Tiled(ix, heap) && IsFree(ix, h) && h < r < End(ix, h)
    requires |mid| == |ix| && r < |ix| && mid == ix[r := Hdr(sz, false)]
    ensures ListsOk(mid, v, fl) && ListedBut(mid, fl, h, r) && forall j :: !OnList(fl, j, r)
  {
    hide Tiled, Entry.Pages, ListsOk, OnList;
    InsideBlock(ix, heap, h, r);
    ListedAfter(ix, mid, v, fl, h, r);
  }

  // ------------------------------------------------------ splitting a listed block

  lemma SumReplace(ix: Index, ix': Index, l: seq<int>, k: nat, q: int)
    requires k < |l| && forall j | 0 <= j < |l| && j != k :: Sz(ix, l[j]) == Sz(ix', l[j])
    ensures SumSz(ix', l[k := q]) == SumSz(ix, l) - Sz(ix, l[k]) + Sz(ix', q)
  {
    assert l == l[..k] + ([l[k]] + l[k + 1..]) && l[k := q] == l[..k] + ([q] + l[k + 1..]);
    SumConcat(ix, l[..k], [l[k]] + l[k + 1..]);
    SumConcat(ix', l[..k], [q] + l[k + 1..]);
    SumWith(ix, l[k + 1..], l[k]);
    SumWith(ix', l[k + 1..], q);
    SumSame(ix, ix', l[..k]);
    SumSame(ix, ix', l[k + 1..]);
  }

  /** `r` has taken the place of `h` on list `i`, and both have their new sizes. */
  lemma ReplacedLists(ix: Index, ix': Index, v: Lists, fl: seq<seq<int>>, i: nat, k: nat, r: nat, d: nat)
    requires ListsOk(ix, v, fl) && i < |fl| && k < |fl[i]| && IsHdr(ix, fl[i][k]) && 0 < r < |ix|
    requires forall j :: !OnList(fl, j, r)
    requires OnlyAt(ix, ix', fl[i][k], r) && IsHdr(ix', r) && ix'[r].sz + d == ix[fl[i][k]].sz
    ensures var p := fl[i][k];
      && 0 <= p < |v.prev| == |v.next| && 0 <= v.prev[p] < |v.next| && 0 <= v.next[p] < |v.prev| && i < |v.heads|
      && i < |v.bytes| && r < |v.prev|
      && var w, f := Replaced(v, i, p, r, d), fl[i := fl[i][k := r]];
      && ListsOk(ix', w, f) && Total(w.bytes) == Total(v.bytes) - d
      && forall j, a :: OnList(f, j, a) <==> (OnList(fl, j, a) && a != p) || (j == i && a == r)
  {
    hide LinksOk, SumSz, Total, AllDistinct, OnList;
    LinksShape(v, fl, |ix|);
    var p := fl[i][k];
    NthLinks(v, fl, |ix|, i, k);
    ReplacedOk(v, fl, |ix|, i, k, r, d);
    TotalUpdate(v.bytes, i, v.bytes[i] - d);
    var f := fl[i := fl[i][k := r]];
    forall j, l | 0 <= j < |fl| && 0 <= l < |fl[j]| && !(j == i && l == k)
      ensures Sz(ix, fl[j][l]) == Sz(ix', fl[j][l])
    {
      Apart(fl, j, l, i, k);
      NotThere(fl, r, j, l);
    }
    SumReplace(ix, ix', fl[i], k, r);
    forall j | 0 <= j < |f| && j != i ensures SumSz(ix', f[j]) == SumSz(ix, fl[j]) {
      SumSame(ix, ix', fl[j]);
    }
  }

  lemma SameSizes(ix: Index, ix': Index, v: Lists, fl: seq<seq<int>>)
    requires ListsOk(ix, v, fl) && |ix| == |ix'| && forall q :: Sz(ix, q) == Sz(ix', q)
    ensures ListsOk(ix', v, fl)
  {
    OffLists(ix, ix', v, fl);
  }

  lemma SplitReady(ix: Index, ix': Index, v: Lists, fl: seq<seq<int>>, v': Lists, fl': seq<seq<int>>, heap: set<int>,
        large: int, h: nat, d: nat, i: nat)
    requires Inv(ix, v, fl, heap, large) && OnList(fl, i, h) && IsFree(ix, h) && 0 < d < ix[h].Pages()
    requires h + d < |ix| && HBLKSIZE * d <= ix[h].sz && ix' == SplitAt(ix, h, d) && ListsOk(ix', v', fl') && i < |fl'|
    requires forall j, a :: OnList(fl', j, a) <==>
      (OnList(fl, j, a) && a != h) || (j == i && a == h + d) || (IsHdr(ix', h) && j == Home(ix', h) && a == h)
    ensures Ready(ix', v', fl', heap, h + d, i) && Kept(ix, ix', h)
  {
    hide Tiled, Entry.Pages, Blocks, ListsOk, OnList, SplitAt;
    SplitTiled(ix, heap, h, d);
    BlockSize(ix, heap, h);
    NoPageZero(ix, heap);
    var r := h + d;
    forall q | q != h && q != r && (IsHdr(ix, q) || IsHdr(ix', q))
      ensures IsHdr(ix, q) && IsHdr(ix', q) && ix[q] == ix'[q] && End(ix, q) == End(ix', q)
    {
    }
    forall j, q ensures OnList(fl', j, q) <==> IsFree(ix', q) && 0 <= j && j == (if q == r then i else Home(ix', q)) {
    }
    BlockSize(ix', heap, r);
    forall b | IsFree(ix', b)
      ensures End(ix', r) != b && forall a | IsFree(ix', a) && a != r && b != r :: End(ix', a) != b
    {
      assert b == r || IsFree(ix, b);
      forall a | IsFree(ix', a) && a != r && b != r ensures End(ix', a) != b {
        assert IsFree(ix, a);
      }
    }
  }

  // ------------------------------------------------------------------- dropping

  /** All pages of the free block `h` have become small allocated blocks. */
  ghost predicate Dropped(ix: Index, ix': Index, h: nat)
    requires IsHdr(ix, h)
  {
    |ix'| == |ix| && forall q | 0 <= q < |ix| :: ix'[q] == if h <= q < End(ix, h) then Hdr(HBLKSIZE, false) else ix[q]
  }

  lemma DroppedTiled(ix: Index, ix': Index, heap: set<int>, h: nat)
    requires Tiled(ix, heap) && IsFree(ix, h) && Dropped(ix, ix', h)
    ensures Tiled(ix', heap) && (forall q | IsFree(ix', q) :: q != h && IsFree(ix, q) && ix[q] == ix'[q])
    ensures forall q | IsHdr(ix, q) && q != h :: IsHdr(ix', q) && ix'[q] == ix[q]
  {
    hide Blocks, Covered;
    assert BlockOk(ix, h);
    BlocksOf(1);
    forall p | IsHdr(ix', p) ensures BlockOk(ix', p) {
      DroppedBlock(ix, ix', heap, h, p);
    }
    forall q | 0 <= q < |ix| ensures q in heap <==> Covered(ix', q)
      ensures h <= q < End(ix, h) ==> q in heap
    {
      DroppedCovers(ix, ix', heap, h, q);
      if h <= q < End(ix, h) { HeapHas(ix, heap, h, q); }
    }
    forall q | IsHdr(ix, q) && q != h ensures !(h <= q < End(ix, h)) {
      if h < q < End(ix, h) { InsideBlock(ix, heap, h, q); }
    }
  }

  lemma DroppedBlock(ix: Index, ix': Index, heap: set<int>, h: nat, p: int)
    requires Tiled(ix, heap) && IsFree(ix, h) && Dropped(ix, ix', h) && IsHdr(ix', p)
    requires Hdr(HBLKSIZE, false).Pages() == 1
    ensures BlockOk(ix', p)
  {
    hide Tiled, Entry.Pages, Blocks;
    BlockSize(ix, heap, h);
    if !(h <= p < End(ix, h)) {
      BlockSize(ix, heap, p);
      if p < h < End(ix, p) { InsideBlock(ix, heap, p, h); }
      TiledBlock(ix, heap, p);
    }
  }

  lemma TiledBlock(ix: Index, heap: set<int>, p: int)
    requires Tiled(ix, heap) && IsHdr(ix, p)
    ensures BlockOk(ix, p)
  {
  }

  lemma DroppedCovers(ix: Index, ix': Index, heap: set<int>, h: nat, q: int)
    requires Tiled(ix, heap) && IsFree(ix, h) && Dropped(ix, ix', h) && 0 <= q < |ix|
    requires Hdr(HBLKSIZE, false).Pages() == 1
    ensures q in heap <==> Covered(ix', q)
  {
    hide Tiled, Entry.Pages, Blocks;
    BlockSize(ix, heap, h);
    if h <= q < End(ix, h) {
      assert Covers(ix', q, q);
      HeapHas(ix, heap, h, q);
    } else {
      if q in heap {
        var p := Owner(ix, heap, q);
        if h <= p < End(ix, h) && p != h { InsideBlock(ix, heap, h, p); }
        assert Covers(ix', p, q);
      }
      if p :| Covers(ix', p, q) {
        if !(h <= p < End(ix, h)) {
          HeapHas(ix, heap, p, q);
        }
      }
    }
  }

  lemma HeapHas(ix: Index, heap: set<int>, p: int, q: int)
    requires Tiled(ix, heap) && Covers(ix, p, q)
    ensures q in heap
  {
    hide Entry.Pages, Blocks;
    assert BlockOk(ix, p) && Covered(ix, q);
  }

  lemma DroppedInv(ix: Index, ix': Index, v: Lists, fl: seq<seq<int>>, heap: set<int>, h: nat, large: int)
    requires Tiled(ix, heap) && IsFree(ix, h) && Dropped(ix, ix', h) && ListsOk(ix, v, fl) && ListedBut(ix, fl, h, h)
    requires Coalesced(ix)
    requires large == Total(v.bytes)
    ensures Inv(ix', v, fl, heap, large) && Kept(ix, ix', h)
  {
    hide Tiled, Entry.Pages, ListsOk, OnList;
    DroppedTiled(ix, ix', heap, h);
    NoPageZero(ix, heap);
    forall j, q | OnList(fl, j, q) ensures Sz(ix, q) == Sz(ix', q) {
    }
    OffLists(ix, ix', v, fl);
    forall j, q ensures OnList(fl, j, q) <==> IsFree(ix', q) && 0 <= j && j == (if q == 0 then -1 else Home(ix', q)) {
    }
    forall a, b | IsFree(ix', a) && IsFree(ix', b) ensures End(ix', a) != b {
      assert End(ix', a) == End(ix, a);
    }
  }
}
