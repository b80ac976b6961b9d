/** The order of the closure items, and the Shell sort that puts them in it (item_cmp in
    compiler/parser/yystate.c, sys_ssort in compiler/lib/syslib.c). */
module LrSort {
  import opened Grammars
  import opened LrItems
  import opened LrClosure

  /** RIGH_OF_DOT: 0 at the end of a production. */
  function RightOfDot(c: Core): int {
    if c.AtEnd() then 0 else c.Next()
  }

  /** item_cmp. */
  function Cmp(x: Core, y: Core): int {
    if RightOfDot(x) != RightOfDot(y) then RightOfDot(x) - RightOfDot(y)
    else if x.prod.num != y.prod.num then x.prod.num - y.prod.num
    else x.dot - y.dot
  }

  predicate ItemLeq(x: Item, y: Item) { Cmp(x.core, y.core) <= 0 }

  lemma Total(x: Item, y: Item)
    ensures ItemLeq(x, y) || ItemLeq(y, x)
  {
  }

  lemma Transitive(x: Item, y: Item, z: Item)
    requires ItemLeq(x, y) && ItemLeq(y, z)
    ensures ItemLeq(x, z)
  {
  }

  ghost predicate Sorted(s: Items) {
    forall i, j | 0 <= i < j < |s| :: ItemLeq(s[i], s[j])
  }

  /** The first `i + 1` items are in order, except that item `h` may have to move down. */
  ghost predicate Sinking(s: Items, i: nat, h: nat) {
    && h <= i < |s|
    && (forall p, q | 0 <= p < q <= i && q != h :: ItemLeq(s[p], s[q]))
    && (forall q | h < q <= i :: ItemLeq(s[h], s[q]))
  }

  lemma SinkOne(s: Items, i: nat, h: nat)
    requires Sinking(s, i, h) && h > 0 && !ItemLeq(s[h - 1], s[h])
    ensures Sinking(s[h - 1 := s[h]][h := s[h - 1]], i, h - 1)
  {
    hide ItemLeq;
    Total(s[h - 1], s[h]);
  }

  lemma Sunk(s: Items, i: nat, h: nat)
    requires Sinking(s, i, h) && (h > 0 ==> ItemLeq(s[h - 1], s[h]))
    ensures Sorted(s[..i + 1])
  {
    hide ItemLeq;
    forall p | 0 <= p < h ensures ItemLeq(s[p], s[h]) {
      if p < h - 1 {
        Transitive(s[p], s[h - 1], s[h]);
      }
    }
  }

  /** The inner loop of the sort moves item `i` down by steps of `gap`. */
  method Sink(a: array<Item>, i: nat, gap: nat)
    requires 0 < gap <= i < a.Length
    modifies a
    ensures multiset(a[..]) == multiset(old(a[..]))
    ensures gap == 1 && old(Sorted(a[..i])) ==> Sorted(a[..i + 1])
  {
    hide ItemLeq, Sorted;
    var j: int := i - gap;
    if Sorted(a[..i]) { StartSinking(a[..], i); }
    while j >= 0
      invariant 0 <= j + gap <= i
      invariant multiset(a[..]) == multiset(old(a[..]))
      invariant gap == 1 && old(Sorted(a[..i])) ==> Sinking(a[..], i, j + 1)
      decreases j + gap
    {
      if Cmp(a[j].core, a[j + gap].core) <= 0 {
        assert ItemLeq(a[j], a[j + gap]) by { ItemLeqIs(a[j], a[j + gap]); }
        break;
      }
      ItemLeqIs(a[j], a[j + gap]);
      if gap == 1 && old(Sorted(a[..i])) { SinkOne(a[..], i, j + 1); }
      ghost var s := a[..];
      a[j], a[j + gap] := a[j + gap], a[j];
      assert a[..] == s[j := s[j + gap]][j + gap := s[j]];
      j := j - gap;
    }
    if gap == 1 && old(Sorted(a[..i])) { Sunk(a[..], i, j + 1); }
  }

  lemma ItemLeqIs(x: Item, y: Item)
    ensures ItemLeq(x, y) <==> Cmp(x.core, y.core) <= 0
  {
  }

  lemma StartSinking(s: Items, i: nat)
    requires i < |s| && Sorted(s[..i])
    ensures Sinking(s, i, i)
  {
    hide ItemLeq;
    forall p, q | 0 <= p < q <= i && q != i ensures ItemLeq(s[p], s[q]) {
      assert ItemLeq(s[..i][p], s[..i][q]);
    }
  }

  /** The gaps 1, 4, 13, 40 and so on. */
  predicate IsGap(gap: nat) {
    gap == 0 || (gap % 3 == 1 && IsGap(gap / 3))
  }

  /** sys_ssort. */
  method SSort(a: array<Item>)
    modifies a
    ensures multiset(a[..]) == multiset(old(a[..])) && Sorted(a[..])
  {
    var gap := 1;
    while gap <= a.Length
      invariant gap > 0 && IsGap(gap) && gap / 3 <= a.Length
      decreases a.Length - gap
    {
      gap := 3 * gap + 1;
    }
    gap := gap / 3;
    hide Sorted;
    assert gap == 0 ==> Sorted(a[..]) by { OneSorted(a[..]); }
    while gap > 0
      invariant 0 <= gap <= a.Length && IsGap(gap) && multiset(a[..]) == multiset(old(a[..]))
      invariant gap == 0 ==> Sorted(a[..])
      decreases gap
    {
      OneSorted(a[..gap]);
      for i := gap to a.Length
        invariant gap <= i
        invariant multiset(a[..]) == multiset(old(a[..]))
        invariant gap == 1 && i <= a.Length ==> Sorted(a[..i])
      {
        Sink(a, i, gap);
      }
      assert a[..a.Length] == a[..];
      gap := gap / 3;
    }
  }

  lemma OneSorted(s: Items)
    ensures |s| <= 1 ==> Sorted(s)
  {
  }
}
