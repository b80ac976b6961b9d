/** The free lists of heap blocks: doubly linked through the headers, one list for each
    class of sizes, with a byte count (GC_add_to_fl and GC_remove_from_fl in
    gc/gc-7.2/allchblk.c). */
module FreeLists {
  import opened HeapIndex

  const UNIQUE_THRESHOLD: nat := 32
  const HUGE_THRESHOLD: nat := 256
  const FL_COMPRESSION: nat := 8
  const N_HBLK_FLS: nat := (HUGE_THRESHOLD - UNIQUE_THRESHOLD) / FL_COMPRESSION + UNIQUE_THRESHOLD

  /** GC_hblk_fl_from_blocks. */
  function FlFromBlocks(blocks: nat): (i: nat)
    ensures i <= N_HBLK_FLS
  {
    if blocks <= UNIQUE_THRESHOLD then blocks
    else if blocks >= HUGE_THRESHOLD then N_HBLK_FLS
    else (blocks - UNIQUE_THRESHOLD) / FL_COMPRESSION + UNIQUE_THRESHOLD
  }

  /** Larger blocks are on later lists. Below the threshold a list holds one size only, and
      otherwise sizes that differ by less than FL_COMPRESSION, but for the last. */
  lemma SameList(a: nat, b: nat)
    ensures a <= b ==> FlFromBlocks(a) <= FlFromBlocks(b)
    ensures FlFromBlocks(a) == FlFromBlocks(b) && a < UNIQUE_THRESHOLD ==> a == b
    ensures FlFromBlocks(a) == FlFromBlocks(b) < N_HBLK_FLS ==> a < b + FL_COMPRESSION && b < a + FL_COMPRESSION
  {
  }

  /** The page in place `k` of a list, 0 at either end. */
  function Nth(l: seq<int>, k: int): int {
    if 0 <= k < |l| then l[k] else 0
  }

  /** The links of the list `l`. */
  predicate Chained(head: int, l: seq<int>, prev: seq<int>, next: seq<int>) {
    && head == Nth(l, 0)
    && forall k | 0 <= k < |l| ::
         0 < l[k] < |prev| && l[k] < |next| && prev[l[k]] == Nth(l, k - 1) && next[l[k]] == Nth(l, k + 1)
  }

  /** The free lists as values. */
  datatype Lists = Lists(heads: seq<int>, prev: seq<int>, next: seq<int>, bytes: seq<int>)

  /** No page is on two lists, or twice on one. */
  ghost predicate AllDistinct(fl: seq<seq<int>>) {
    forall i, k, j, l |
      0 <= i < |fl| && 0 <= k < |fl[i]| && 0 <= j < |fl| && 0 <= l < |fl[j]| && fl[i][k] == fl[j][l] ::
      i == j && k == l
  }

  lemma Apart(fl: seq<seq<int>>, i: int, k: int, j: int, l: int)
    requires AllDistinct(fl) && 0 <= i < |fl| && 0 <= k < |fl[i]| && 0 <= j < |fl| && 0 <= l < |fl[j]|
    ensures fl[i][k] == fl[j][l] <==> i == j && k == l
  {
  }

  /** `fl` says what is on the lists. */
  ghost predicate LinksOk(v: Lists, fl: seq<seq<int>>, n: nat) {
    && |v.heads| == |v.bytes| == |fl| == N_HBLK_FLS + 1 && |v.prev| == |v.next| == n
    && (forall i | 0 <= i < |fl| :: Chained(v.heads[i], fl[i], v.prev, v.next))
    && AllDistinct(fl)
  }

  ghost predicate OnList(fl: seq<seq<int>>, i: int, p: int) {
    0 <= i < |fl| && p in fl[i]
  }

  // ------------------------------------------------------------------ removal

  function Without(l: seq<int>, k: nat): seq<int>
    requires k < |l|
  {
    l[..k] + l[k + 1..]
  }

  /** GC_remove_from_fl, as values: `p` is in place `k` of list `i` and has `sz` bytes. */
  function Removed(v: Lists, i: nat, p: nat, sz: nat): Lists
    requires i < |v.heads| && i < |v.bytes| && p < |v.prev| == |v.next| && 0 <= v.prev[p] < |v.next|
    requires 0 <= v.next[p] < |v.prev|
  {
    Lists(
      if v.prev[p] == 0 then v.heads[i := v.next[p]] else v.heads,
      if v.next[p] != 0 then v.prev[v.next[p] := v.prev[p]] else v.prev,
      if v.prev[p] != 0 then v.next[v.prev[p] := v.next[p]] else v.next,
      v.bytes[i := v.bytes[i] - sz])
  }

  lemma NthLinks(v: Lists, fl: seq<seq<int>>, n: nat, i: nat, k: nat)
    requires LinksOk(v, fl, n) && i < |fl| && k < |fl[i]|
    ensures var p := fl[i][k];
      0 < p < n && v.prev[p] == Nth(fl[i], k - 1) && v.next[p] == Nth(fl[i], k + 1) && 0 <= v.prev[p] < n &&
      0 <= v.next[p] < n
  {
    assert Chained(v.heads[i], fl[i], v.prev, v.next);
  }

  lemma ChainLinks(v: Lists, fl: seq<seq<int>>, n: nat, i: nat)
    requires LinksOk(v, fl, n) && i < |fl|
    ensures v.heads[i] == Nth(fl[i], 0) && AllDistinct(fl) && |v.prev| == |v.next| == n
    ensures forall k | 0 <= k < |fl[i]| ::
      0 < fl[i][k] < n && v.prev[fl[i][k]] == Nth(fl[i], k - 1) && v.next[fl[i][k]] == Nth(fl[i], k + 1)
  {
    assert Chained(v.heads[i], fl[i], v.prev, v.next);
  }

  lemma ChainedIf(head: int, l: seq<int>, prev: seq<int>, next: seq<int>)
    requires head == Nth(l, 0) && |prev| == |next|
    requires forall k | 0 <= k < |l| :: 0 < l[k] < |prev| && prev[l[k]] == Nth(l, k - 1) && next[l[k]] == Nth(l, k + 1)
    ensures Chained(head, l, prev, next)
  {
  }

  lemma RemovedSame(v: Lists, fl: seq<seq<int>>, n: nat, i: nat, k: nat, sz: nat)
    requires LinksOk(v, fl, n) && i < |fl| && k < |fl[i]|
    ensures var p := fl[i][k];
      && p < n && 0 <= v.prev[p] < n && 0 <= v.next[p] < n
      && Chained(Removed(v, i, p, sz).heads[i], Without(fl[i], k), Removed(v, i, p, sz).prev, Removed(v, i, p, sz).next)
  {
    NthLinks(v, fl, n, i, k);
    ChainLinks(v, fl, n, i);
    hide AllDistinct, Chained;
    var l' := Without(fl[i], k);
    var w := Removed(v, i, fl[i][k], sz);
    forall j | 0 <= j < |l'|
      ensures 0 < l'[j] < n && w.prev[l'[j]] == Nth(l', j - 1) && w.next[l'[j]] == Nth(l', j + 1)
    {
      RemovedAt(v, fl, n, i, k, sz, j);
    }
    WithoutNth(fl[i], k, 0);
    assert w.heads[i] == Nth(l', 0);
    hide LinksOk, Removed;
    ChainedIf(w.heads[i], l', w.prev, w.next);
  }

  lemma WithoutNth(l: seq<int>, k: nat, j: int)
    requires k < |l|
    ensures Nth(Without(l, k), j) == if j < k then Nth(l, j) else Nth(l, j + 1)
  {
  }

  /** The links of a page that stays, after a removal. */
  lemma RemovedLinks(v: Lists, i: nat, p: nat, sz: nat, a: int)
    requires i < |v.heads| && i < |v.bytes| && p < |v.prev| == |v.next| && 0 <= v.prev[p] < |v.next|
    requires 0 <= v.next[p] < |v.prev|
    requires 0 < a < |v.prev|
    ensures Removed(v, i, p, sz).prev[a] == if a == v.next[p] then v.prev[p] else v.prev[a]
    ensures Removed(v, i, p, sz).next[a] == if a == v.prev[p] then v.next[p] else v.next[a]
  {
  }

  lemma LinksShape(v: Lists, fl: seq<seq<int>>, n: nat)
    requires LinksOk(v, fl, n)
    ensures |v.heads| == |v.bytes| == |fl| == N_HBLK_FLS + 1 && |v.prev| == |v.next| == n && AllDistinct(fl)
  {
  }

  lemma WithoutAt(l: seq<int>, k: nat, j: nat)
    requires k < |l| && j < |Without(l, k)|
    ensures |Without(l, k)| == |l| - 1 && Without(l, k)[j] == l[if j < k then j else j + 1]
    ensures Nth(l, k - 1) == (if k > 0 then l[k - 1] else 0) && Nth(l, k + 1) == (if k + 1 < |l| then l[k + 1] else 0)
  {
  }

  /** Which pages are the neighbours of the page in place `k` of list `i`. */
  lemma Neighbours(v: Lists, fl: seq<seq<int>>, n: nat, i: nat, k: nat, j: nat, l: nat)
    requires LinksOk(v, fl, n) && i < |fl| && k < |fl[i]| && j < |fl| && l < |fl[j]|
    ensures var p, a := fl[i][k], fl[j][l];
      && 0 < p < n && 0 < a < n
      && (a == v.next[p] <==> j == i && l == k + 1) && (a == v.prev[p] <==> j == i && l + 1 == k)
  {
    NthLinks(v, fl, n, i, k);
    NthLinks(v, fl, n, j, l);
    if k > 0 { Apart(fl, i, k - 1, j, l); }
    if k + 1 < |fl[i]| { Apart(fl, i, k + 1, j, l); }
    hide AllDistinct, Chained;
  }

  lemma RemovedAt(v: Lists, fl: seq<seq<int>>, n: nat, i: nat, k: nat, sz: nat, j: nat)
    requires LinksOk(v, fl, n) && i < |fl| && k < |fl[i]| && j < |Without(fl[i], k)|
    ensures var p, l := fl[i][k], Without(fl[i], k);
      && p < n && 0 <= v.prev[p] < n && 0 <= v.next[p] < n && 0 < l[j] < n
      && Removed(v, i, p, sz).prev[l[j]] == Nth(l, j - 1) && Removed(v, i, p, sz).next[l[j]] == Nth(l, j + 1)
  {
    hide *;
    LinksShape(v, fl, n);
    var l := fl[i];
    WithoutAt(l, k, j);
    var j0 := if j < k then j else j + 1;
    NthLinks(v, fl, n, i, k);
    NthLinks(v, fl, n, i, j0);
    Neighbours(v, fl, n, i, k, i, j0);
    RemovedLinks(v, i, l[k], sz, l[j0]);
    WithoutNth(l, k, j - 1);
    WithoutNth(l, k, j + 1);
  }

  lemma RemovedOther(v: Lists, fl: seq<seq<int>>, n: nat, i: nat, k: nat, sz: nat, j: nat)
    requires LinksOk(v, fl, n) && i < |fl| && k < |fl[i]| && j < |fl| && j != i
    ensures var p := fl[i][k];
      && p < n && 0 <= v.prev[p] < n && 0 <= v.next[p] < n
      && Chained(Removed(v, i, p, sz).heads[j], fl[j], Removed(v, i, p, sz).prev, Removed(v, i, p, sz).next)
  {
    hide *;
    LinksShape(v, fl, n);
    NthLinks(v, fl, n, i, k);
    ChainLinks(v, fl, n, j);
    var w := Removed(v, i, fl[i][k], sz);
    RemovedSizes(v, i, fl[i][k], sz);
    RemovedHeads(v, i, fl[i][k], sz, j);
    forall l | 0 <= l < |fl[j]| ensures w.prev[fl[j][l]] == v.prev[fl[j][l]] && w.next[fl[j][l]] == v.next[fl[j][l]] {
      Neighbours(v, fl, n, i, k, j, l);
      RemovedLinks(v, i, fl[i][k], sz, fl[j][l]);
    }
    ChainedIf(w.heads[j], fl[j], w.prev, w.next);
  }

  lemma RemovedHeads(v: Lists, i: nat, p: nat, sz: nat, j: nat)
    requires i < |v.heads| && i < |v.bytes| && p < |v.prev| == |v.next| && 0 <= v.prev[p] < |v.next|
    requires 0 <= v.next[p] < |v.prev|
    requires j < |v.heads| && j != i
    ensures |Removed(v, i, p, sz).heads| == |v.heads| && Removed(v, i, p, sz).heads[j] == v.heads[j]
  {
  }

  lemma RemovedSizes(v: Lists, i: nat, p: nat, sz: nat)
    requires i < |v.heads| && i < |v.bytes| && p < |v.prev| == |v.next| && 0 <= v.prev[p] < |v.next|
    requires 0 <= v.next[p] < |v.prev|
    ensures var w := Removed(v, i, p, sz);
      |w.prev| == |w.next| == |v.prev| && |w.heads| == |v.heads| && |w.bytes| == |v.bytes|
  {
  }

  lemma RemovedOk(v: Lists, fl: seq<seq<int>>, n: nat, i: nat, k: nat, sz: nat)
    requires LinksOk(v, fl, n) && i < |fl| && k < |fl[i]|
    ensures var p := fl[i][k];
      && p < n && 0 <= v.prev[p] < n && 0 <= v.next[p] < n
      && LinksOk(Removed(v, i, p, sz), fl[i := Without(fl[i], k)], n)
      && forall j, q :: OnList(fl[i := Without(fl[i], k)], j, q) <==> OnList(fl, j, q) && q != p
  {
    NthLinks(v, fl, n, i, k);
    RemovedSame(v, fl, n, i, k, sz);
    hide Chained, AllDistinct;
    var p, fl' := fl[i][k], fl[i := Without(fl[i], k)];
    var w := Removed(v, i, p, sz);
    forall j | 0 <= j < |fl'| ensures Chained(w.heads[j], fl'[j], w.prev, w.next) {
      if j != i {
        RemovedOther(v, fl, n, i, k, sz, j);
      }
    }
    RemovedDistinct(v, fl, n, i, k);
    RemovedMembers(v, fl, n, i, k);
  }

  lemma RemovedDistinct(v: Lists, fl: seq<seq<int>>, n: nat, i: nat, k: nat)
    requires LinksOk(v, fl, n) && i < |fl| && k < |fl[i]|
    ensures AllDistinct(fl[i := Without(fl[i], k)])
  {
    hide Chained;
    var f := fl[i := Without(fl[i], k)];
    forall a, b, c, d | 0 <= a < |f| && 0 <= b < |f[a]| && 0 <= c < |f| && 0 <= d < |f[c]| && f[a][b] == f[c][d]
      ensures a == c && b == d
    {
      var b0 := if a == i && b >= k then b + 1 else b;
      var d0 := if c == i && d >= k then d + 1 else d;
      assert f[a][b] == fl[a][b0] && f[c][d] == fl[c][d0];
    }
  }

  lemma RemovedMembers(v: Lists, fl: seq<seq<int>>, n: nat, i: nat, k: nat)
    requires LinksOk(v, fl, n) && i < |fl| && k < |fl[i]|
    ensures forall j, q :: OnList(fl[i := Without(fl[i], k)], j, q) <==> OnList(fl, j, q) && q != fl[i][k]
  {
    hide Chained;
    var f := fl[i := Without(fl[i], k)];
    forall j, q ensures OnList(f, j, q) <==> OnList(fl, j, q) && q != fl[i][k] {
      if OnList(f, j, q) {
        var b :| 0 <= b < |f[j]| && f[j][b] == q;
        var b0 := if j == i && b >= k then b + 1 else b;
        assert fl[j][b0] == q;
      }
      if OnList(fl, j, q) && q != fl[i][k] {
        var b :| 0 <= b < |fl[j]| && fl[j][b] == q;
        assert f[j][if j == i && b > k then b - 1 else b] == q;
      }
    }
  }

  // ------------------------------------------------------------------ addition

  /** GC_add_to_fl, as values. */
  function Added(v: Lists, i: nat, p: nat, sz: nat): Lists
    requires i < |v.heads| && i < |v.bytes| && p < |v.prev| == |v.next| && 0 <= v.heads[i] < |v.prev|
  {
    var second := v.heads[i];
    var prev := v.prev[p := 0];
    Lists(v.heads[i := p], if second != 0 then prev[second := p] else prev, v.next[p := second],
      v.bytes[i := v.bytes[i] + sz])
  }

  lemma HeadLink(v: Lists, fl: seq<seq<int>>, n: nat, i: nat)
    requires LinksOk(v, fl, n) && i < |fl| && n > 0
    ensures 0 <= v.heads[i] < n && v.heads[i] == Nth(fl[i], 0)
  {
    assert Chained(v.heads[i], fl[i], v.prev, v.next);
  }

  lemma AddedOk(v: Lists, fl: seq<seq<int>>, n: nat, i: nat, p: nat, sz: nat)
    requires LinksOk(v, fl, n) && i < |fl| && 0 < p < n && forall j :: !OnList(fl, j, p)
    ensures 0 <= v.heads[i] < n && LinksOk(Added(v, i, p, sz), fl[i := [p] + fl[i]], n)
    ensures forall j, q :: OnList(fl[i := [p] + fl[i]], j, q) <==> OnList(fl, j, q) || (j == i && q == p)
  {
    HeadLink(v, fl, n, i);
    var f := fl[i := [p] + fl[i]];
    var w := Added(v, i, p, sz);
    forall j | 0 <= j < |f| ensures Chained(w.heads[j], f[j], w.prev, w.next) {
      AddedChained(v, fl, n, i, p, sz, j);
    }
    AddedDistinct(v, fl, n, i, p);
    forall j, q ensures OnList(f, j, q) <==> OnList(fl, j, q) || (j == i && q == p) {
      assert j == i && 0 <= j < |f| ==> (q in f[j] <==> q == p || q in fl[i]);
    }
  }

  /** The links of a page after an addition. */
  lemma AddedLinks(v: Lists, i: nat, p: nat, sz: nat, a: int)
    requires i < |v.heads| && i < |v.bytes| && p < |v.prev| == |v.next| && 0 <= v.heads[i] < |v.prev| && v.heads[i] != p
    requires 0 < a < |v.prev|
    ensures var w := Added(v, i, p, sz);
      && |w.prev| == |w.next| == |v.prev| && |w.heads| == |v.heads| && |w.bytes| == |v.bytes|
      && w.prev[a] == (if a == v.heads[i] then p else if a == p then 0 else v.prev[a])
      && w.next[a] == (if a == p then v.heads[i] else v.next[a])
      && w.heads[i] == p && forall j | 0 <= j < |v.heads| && j != i :: w.heads[j] == v.heads[j]
  {
  }

  lemma Longer(l: seq<int>, p: int, k: int)
    ensures Nth([p] + l, k) == if k == 0 then p else Nth(l, k - 1)
    ensures k < 0 ==> Nth([p] + l, k) == 0
  {
  }

  lemma NotThere(fl: seq<seq<int>>, p: int, j: nat, k: nat)
    requires (forall j :: !OnList(fl, j, p)) && j < |fl| && k < |fl[j]|
    ensures fl[j][k] != p
  {
    assert fl[j][k] in fl[j] && !OnList(fl, j, p);
  }

  /** A page that was on a list before, after an addition. */
  lemma AddedOld(v: Lists, fl: seq<seq<int>>, n: nat, i: nat, p: nat, sz: nat, j: nat, k: nat)
    requires LinksOk(v, fl, n) && i < |fl| && 0 < p < n && (forall j :: !OnList(fl, j, p)) && j < |fl| && k < |fl[j]|
    ensures 0 <= v.heads[i] < n && v.heads[i] != p && 0 < fl[j][k] < n
    ensures var a, w := fl[j][k], Added(v, i, p, sz);
      && |w.prev| == |w.next| == n && |w.heads| == |v.heads|
      && w.prev[a] == (if j == i && k == 0 then p else Nth(fl[j], k - 1)) && w.next[a] == Nth(fl[j], k + 1)
  {
    hide *;
    LinksShape(v, fl, n);
    HeadLink(v, fl, n, i);
    NthLinks(v, fl, n, j, k);
    NotThere(fl, p, j, k);
    HeadIs(fl, i);
    if fl[i] != [] {
      NotThere(fl, p, i, 0);
      Apart(fl, j, k, i, 0);
    }
    AddedLinks(v, i, p, sz, fl[j][k]);
  }

  lemma HeadIs(fl: seq<seq<int>>, i: nat)
    requires i < |fl|
    ensures Nth(fl[i], 0) == if fl[i] == [] then 0 else fl[i][0]
  {
  }

  lemma AddedChained(v: Lists, fl: seq<seq<int>>, n: nat, i: nat, p: nat, sz: nat, j: nat)
    requires LinksOk(v, fl, n) && i < |fl| && 0 < p < n && (forall j :: !OnList(fl, j, p)) && j < |fl|
    requires 0 <= v.heads[i] < n
    ensures j < |Added(v, i, p, sz).heads|
    ensures var w := Added(v, i, p, sz);
      Chained(w.heads[j], fl[i := [p] + fl[i]][j], w.prev, w.next)
  {
    hide *;
    LinksShape(v, fl, n);
    HeadLink(v, fl, n, i);
    HeadLink(v, fl, n, j);
    var f := fl[i := [p] + fl[i]][j];
    var w := Added(v, i, p, sz);
    HeadIs(fl, i);
    if fl[i] != [] { NotThere(fl, p, i, 0); }
    AddedLinks(v, i, p, sz, p);
    Longer(fl[i], p, 0);
    Longer(fl[i], p, -1);
    Longer(fl[i], p, 1);
    forall k | 0 <= k < |f| ensures 0 < f[k] < n && w.prev[f[k]] == Nth(f, k - 1) && w.next[f[k]] == Nth(f, k + 1) {
      if j != i {
        AddedOld(v, fl, n, i, p, sz, j, k);
      } else if k > 0 {
        assert f[k] == fl[j][k - 1];
        AddedOld(v, fl, n, i, p, sz, j, k - 1);
        Longer(fl[j], p, k - 1);
        Longer(fl[j], p, k + 1);
      }
    }
    ChainedIf(w.heads[j], f, w.prev, w.next);
  }

  lemma AddedDistinct(v: Lists, fl: seq<seq<int>>, n: nat, i: nat, p: nat)
    requires LinksOk(v, fl, n) && i < |fl| && forall j :: !OnList(fl, j, p)
    ensures AllDistinct(fl[i := [p] + fl[i]])
  {
    hide Chained;
    var f := fl[i := [p] + fl[i]];
    forall a, b | 0 <= a < |fl| && 0 <= b < |fl[a]| ensures fl[a][b] != p {
      assert fl[a][b] in fl[a] && !OnList(fl, a, p);
    }
    forall a, b, c, d | 0 <= a < |f| && 0 <= b < |f[a]| && 0 <= c < |f| && 0 <= d < |f[c]| && f[a][b] == f[c][d]
      ensures a == c && b == d
    {
      if a == i { assert b > 0 ==> f[a][b] == fl[a][b - 1]; } else { assert f[a][b] == fl[a][b]; }
      if c == i { assert d > 0 ==> f[c][d] == fl[c][d - 1]; } else { assert f[c][d] == fl[c][d]; }
    }
  }

  /** The place of a page on its list. */
  lemma Place(fl: seq<seq<int>>, i: int, p: int) returns (k: nat)
    requires OnList(fl, i, p)
    ensures 0 <= i < |fl| && k < |fl[i]| && fl[i][k] == p
  {
    var j :| 0 <= j < |fl[i]| && fl[i][j] == p;
    k := j;
  }

  // --------------------------------------------------------------- replacement

  /** GC_split_block, as values: `q` takes the place of `p`. */
  function Replaced(v: Lists, i: nat, p: nat, q: nat, sz: nat): Lists
    requires i < |v.heads| && i < |v.bytes| && p < |v.prev| == |v.next| && q < |v.prev|
    requires 0 <= v.prev[p] < |v.next| && 0 <= v.next[p] < |v.prev|
  {
    var prev, next := v.prev[p], v.next[p];
    var prevs, nexts := v.prev[q := prev], v.next[q := next];
    Lists(
      if prev == 0 then v.heads[i := q] else v.heads,
      if next != 0 then prevs[next := q] else prevs,
      if prev != 0 then nexts[prev := q] else nexts,
      v.bytes[i := v.bytes[i] - sz])
  }

  lemma ReplacedLinks(v: Lists, i: nat, p: nat, q: nat, sz: nat, a: int)
    requires i < |v.heads| && i < |v.bytes| && p < |v.prev| == |v.next| && q < |v.prev|
    requires 0 <= v.prev[p] < |v.next| && 0 <= v.next[p] < |v.prev| && 0 < a < |v.prev| && q != v.prev[p]
    requires q != v.next[p]
    ensures var w := Replaced(v, i, p, q, sz);
      && |w.prev| == |w.next| == |v.prev| && |w.heads| == |v.heads| && |w.bytes| == |v.bytes|
      && w.prev[a] == (if a == v.next[p] then q else if a == q then v.prev[p] else v.prev[a])
      && w.next[a] == (if a == v.prev[p] then q else if a == q then v.next[p] else v.next[a])
      && w.heads[i] == (if v.prev[p] == 0 then q else v.heads[i])
      && forall j | 0 <= j < |v.heads| && j != i :: w.heads[j] == v.heads[j]
  {
  }

  lemma UpdateNth(l: seq<int>, k: nat, q: int, j: int)
    requires k < |l|
    ensures Nth(l[k := q], j) == if j == k then q else Nth(l, j)
    ensures Nth(l, k) == l[k]
  {
  }

  lemma NthZero(l: seq<int>, k: int)
    requires forall j | 0 <= j < |l| :: l[j] != 0
    ensures Nth(l, k) == 0 <==> !(0 <= k < |l|)
  {
  }

  lemma NotZero(v: Lists, fl: seq<seq<int>>, n: nat, i: nat)
    requires LinksOk(v, fl, n) && i < |fl|
    ensures forall j | 0 <= j < |fl[i]| :: fl[i][j] != 0
  {
    ChainLinks(v, fl, n, i);
  }

  lemma ReplacedAt(v: Lists, fl: seq<seq<int>>, n: nat, i: nat, k: nat, q: nat, sz: nat, j: nat, l: nat,
        list: seq<int>, w: Lists)
    requires LinksOk(v, fl, n) && i < |fl| && k < |fl[i]| && 0 < q < n && (forall j :: !OnList(fl, j, q))
    requires j < |fl| && l < |fl[j]| && list == if j == i then fl[i][k := q] else fl[j]
    requires fl[i][k] < n && 0 <= v.prev[fl[i][k]] < n && 0 <= v.next[fl[i][k]] < n
    requires w == Replaced(v, i, fl[i][k], q, sz)
    ensures |w.prev| == |w.next| == n && 0 < list[l] < n
    ensures w.prev[list[l]] == Nth(list, l - 1) && w.next[list[l]] == Nth(list, l + 1)
  {
    hide *;
    LinksShape(v, fl, n);
    NthLinks(v, fl, n, i, k);
    NthLinks(v, fl, n, j, l);
    Neighbours(v, fl, n, i, k, j, l);
    NotThere(fl, q, j, l);
    NotNeighbour(v, fl, n, i, k, q);
    ReplacedLinks(v, i, fl[i][k], q, sz, list[l]);
    UpdateNth(fl[i], k, q, l - 1);
    UpdateNth(fl[i], k, q, l + 1);
  }

  lemma NotNeighbour(v: Lists, fl: seq<seq<int>>, n: nat, i: nat, k: nat, q: nat)
    requires LinksOk(v, fl, n) && i < |fl| && k < |fl[i]| && 0 < q < n && (forall j :: !OnList(fl, j, q))
    ensures v.prev[fl[i][k]] != q && v.next[fl[i][k]] != q
  {
    NthLinks(v, fl, n, i, k);
    if k > 0 { NotThere(fl, q, i, k - 1); }
    if k + 1 < |fl[i]| { NotThere(fl, q, i, k + 1); }
  }

  lemma ReplacedOk(v: Lists, fl: seq<seq<int>>, n: nat, i: nat, k: nat, q: nat, sz: nat)
    requires LinksOk(v, fl, n) && i < |fl| && k < |fl[i]| && 0 < q < n && forall j :: !OnList(fl, j, q)
    ensures var p, f := fl[i][k], fl[i := fl[i][k := q]];
      && p < n && 0 <= v.prev[p] < n && 0 <= v.next[p] < n
      && LinksOk(Replaced(v, i, p, q, sz), f, n)
      && forall j, a :: OnList(f, j, a) <==> (OnList(fl, j, a) && a != p) || (j == i && a == q)
  {
    hide *;
    LinksShape(v, fl, n);
    var p, f := fl[i][k], fl[i := fl[i][k := q]];
    NthLinks(v, fl, n, i, k);
    NotNeighbour(v, fl, n, i, k, q);
    ReplacedLinks(v, i, p, q, sz, q);
    var w := Replaced(v, i, p, q, sz);
    forall j | 0 <= j < |f| ensures Chained(w.heads[j], f[j], w.prev, w.next) {
      forall l | 0 <= l < |f[j]|
        ensures 0 < f[j][l] < n && w.prev[f[j][l]] == Nth(f[j], l - 1) && w.next[f[j][l]] == Nth(f[j], l + 1)
      {
        ReplacedAt(v, fl, n, i, k, q, sz, j, l, f[j], w);
      }
      HeadLink(v, fl, n, j);
      UpdateNth(fl[i], k, q, 0);
      NotZero(v, fl, n, i);
      NthZero(fl[i], k - 1);
      ChainedIf(w.heads[j], f[j], w.prev, w.next);
    }
    ReplacedDistinct(fl, i, k, q);
    ReplacedMembers(fl, i, k, q);
    LinksIf(w, f, n);
  }

  lemma LinksIf(v: Lists, fl: seq<seq<int>>, n: nat)
    requires |v.heads| == |v.bytes| == |fl| == N_HBLK_FLS + 1 && |v.prev| == |v.next| == n && AllDistinct(fl)
    requires forall i | 0 <= i < |fl| :: Chained(v.heads[i], fl[i], v.prev, v.next)
    ensures LinksOk(v, fl, n)
  {
  }

  lemma ReplacedDistinct(fl: seq<seq<int>>, i: nat, k: nat, q: nat)
    requires AllDistinct(fl) && i < |fl| && k < |fl[i]| && forall j :: !OnList(fl, j, q)
    ensures AllDistinct(fl[i := fl[i][k := q]])
  {
    var f := fl[i := fl[i][k := q]];
    forall a, b | 0 <= a < |fl| && 0 <= b < |fl[a]| ensures fl[a][b] != q {
      NotThere(fl, q, a, b);
    }
  }

  lemma ReplacedMembers(fl: seq<seq<int>>, i: nat, k: nat, q: nat)
    requires AllDistinct(fl) && i < |fl| && k < |fl[i]|
    ensures forall j, a ::
      OnList(fl[i := fl[i][k := q]], j, a) <==> (OnList(fl, j, a) && a != fl[i][k]) || (j == i && a == q)
    requires forall j :: !OnList(fl, j, q)
  {
    var f := fl[i := fl[i][k := q]];
    forall j, a ensures OnList(f, j, a) <==> (OnList(fl, j, a) && a != fl[i][k]) || (j == i && a == q) {
      if OnList(f, j, a) {
        var b :| 0 <= b < |f[j]| && f[j][b] == a;
        if !(j == i && b == k) {
          assert fl[j][b] == a;
          Apart(fl, j, b, i, k);
        }
      }
      if OnList(fl, j, a) && a != fl[i][k] {
        var b :| 0 <= b < |fl[j]| && fl[j][b] == a;
        assert f[j][b] == a;
      }
      if j == i && a == q {
        assert f[i][k] == q;
      }
    }
  }

  // --------------------------------------------------------------------- bytes

  /** The bytes of the blocks on a list. */
  function SumSz(ix: Index, l: seq<int>): int {
    if l == [] then 0 else SumSz(ix, l[..|l| - 1]) + if IsHdr(ix, l[|l| - 1]) then ix[l[|l| - 1]].sz else 0
  }

  function Sz(ix: Index, p: int): nat { if IsHdr(ix, p) then ix[p].sz else 0 }

  lemma {:induction false} SumConcat(ix: Index, a: seq<int>, b: seq<int>)
    ensures SumSz(ix, a + b) == SumSz(ix, a) + SumSz(ix, b)
  {
    if b == [] {
      assert a + b == a;
    } else {
      assert (a + b)[..|a + b| - 1] == a + b[..|b| - 1];
      SumConcat(ix, a, b[..|b| - 1]);
    }
  }

  lemma SumWithout(ix: Index, l: seq<int>, k: nat)
    requires k < |l|
    ensures SumSz(ix, Without(l, k)) == SumSz(ix, l) - Sz(ix, l[k])
  {
    SumConcat(ix, l[..k], l[k + 1..]);
    SumConcat(ix, l[..k] + [l[k]], l[k + 1..]);
    assert l == l[..k] + [l[k]] + l[k + 1..] && (l[..k] + [l[k]])[..k] == l[..k];
  }

  lemma SumWith(ix: Index, l: seq<int>, p: int)
    ensures SumSz(ix, [p] + l) == SumSz(ix, l) + Sz(ix, p)
  {
    SumConcat(ix, [p], l);
    assert [p][..0] == [];
  }

  lemma {:induction false} SumSame(ix: Index, ix': Index, l: seq<int>)
    requires forall k | 0 <= k < |l| :: Sz(ix, l[k]) == Sz(ix', l[k])
    ensures SumSz(ix, l) == SumSz(ix', l)
  {
    if l != [] {
      SumSame(ix, ix', l[..|l| - 1]);
      assert Sz(ix, l[|l| - 1]) == Sz(ix', l[|l| - 1]);
    }
  }

  function Total(b: seq<int>): int {
    if b == [] then 0 else Total(b[..|b| - 1]) + b[|b| - 1]
  }

  lemma {:induction false} TotalUpdate(b: seq<int>, i: nat, x: int)
    requires i < |b|
    ensures Total(b[i := x]) == Total(b) - b[i] + x
  {
    var k := |b| - 1;
    if i < k {
      assert b[i := x][..k] == b[..k][i := x];
      TotalUpdate(b[..k], i, x);
    } else {
      assert b[i := x][..k] == b[..k];
    }
  }
}
