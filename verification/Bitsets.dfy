/** The sets of compiler/lib/set.c: arrays of 32-bit words that grow. Only sets that have not
    been complemented are meant. */
module Bitsets {

  type Word = bv32

  const WORD_BITS: nat := 32
  const DEFWORDS: nat := 16

  function Or(a: Word, b: Word): Word { a | b }

  function And(a: Word, b: Word): Word { a & b }

  function Xor(a: Word, b: Word): Word { a ^ b }

  function Mask(i: nat): Word
    requires i < WORD_BITS
  {
    1 << i
  }

  predicate Bit(w: Word, i: nat)
    requires i < WORD_BITS
  {
    And(w, Mask(i)) != 0
  }

  // ------------------------------------------------------------------- one word

  lemma MaskOne(i: nat, j: nat)
    requires i < WORD_BITS && j < WORD_BITS
    ensures Bit(Mask(i), j) <==> i == j
  {
  }

  lemma OneHot(a: Word, i: nat)
    requires i < WORD_BITS
    ensures Mask(i) != 0 && (And(a, Mask(i)) == 0 || And(a, Mask(i)) == Mask(i))
  {
  }

  lemma OrMask(a: Word, b: Word, m: Word)
    ensures And(Or(a, b), m) == Or(And(a, m), And(b, m))
  {
  }

  lemma AndMask(a: Word, b: Word, m: Word)
    ensures And(And(a, b), m) == And(And(a, m), And(b, m)) && And(0, m) == 0
  {
  }

  lemma XorMask(a: Word, b: Word, m: Word)
    ensures And(Xor(a, b), m) == Xor(And(a, m), And(b, m))
  {
  }

  lemma Idempotent(m: Word)
    ensures Or(m, m) == m && And(m, m) == m && Xor(m, m) == 0
    ensures Or(m, 0) == m && And(m, 0) == 0 && Xor(m, 0) == m && Or(0, m) == m && And(0, m) == 0 && Xor(0, m) == m
  {
  }

  lemma TwoMasked(x: Word, y: Word, m: Word)
    requires (x == 0 || x == m) && (y == 0 || y == m) && m != 0
    ensures (Or(x, y) != 0 <==> x != 0 || y != 0) && (And(x, y) != 0 <==> x != 0 && y != 0)
    ensures (Xor(x, y) != 0 <==> (x != 0) != (y != 0))
  {
    hide Or, And, Xor;
    Idempotent(m);
    Idempotent(0);
  }

  lemma OpBits(a: Word, b: Word, i: nat)
    requires i < WORD_BITS
    ensures Bit(Or(a, b), i) <==> Bit(a, i) || Bit(b, i)
    ensures Bit(And(a, b), i) <==> Bit(a, i) && Bit(b, i)
    ensures Bit(Xor(a, b), i) <==> (Bit(a, i) != Bit(b, i))
    ensures !Bit(0, i)
  {
    hide Mask, Or, And, Xor;
    OneHot(a, i);
    OneHot(b, i);
    OrMask(a, b, Mask(i));
    AndMask(a, b, Mask(i));
    XorMask(a, b, Mask(i));
    TwoMasked(And(a, Mask(i)), And(b, Mask(i)), Mask(i));
  }

  lemma NoBits(w: Word)
    requires forall i | 0 <= i < WORD_BITS :: !Bit(w, i)
    ensures w == 0
  {
    assert !Bit(w, 0) && !Bit(w, 1) && !Bit(w, 2) && !Bit(w, 3) && !Bit(w, 4) && !Bit(w, 5) && !Bit(w, 6) && !Bit(w, 7);
    assert !Bit(w, 8) && !Bit(w, 9) && !Bit(w, 10) && !Bit(w, 11) && !Bit(w, 12) && !Bit(w, 13) && !Bit(w, 14);
    assert !Bit(w, 15);
    assert !Bit(w, 16) && !Bit(w, 17) && !Bit(w, 18) && !Bit(w, 19) && !Bit(w, 20) && !Bit(w, 21) && !Bit(w, 22);
    assert !Bit(w, 23);
    assert !Bit(w, 24) && !Bit(w, 25) && !Bit(w, 26) && !Bit(w, 27) && !Bit(w, 28) && !Bit(w, 29) && !Bit(w, 30);
    assert !Bit(w, 31);
  }

  /** A word that is not zero has a bit. */
  lemma SomeBit(w: Word) returns (i: nat)
    requires w != 0
    ensures i < WORD_BITS && Bit(w, i)
  {
    hide Bit;
    i := 0;
    while i < WORD_BITS && !Bit(w, i)
      invariant i <= WORD_BITS && forall j | 0 <= j < i :: !Bit(w, j)
    {
      i := i + 1;
    }
    if i == WORD_BITS { NoBits(w); }
  }

  /** `a` has a bit that `b` does not have. */
  lemma OddBit(a: Word, b: Word) returns (i: nat)
    requires And(a, b) != a
    ensures i < WORD_BITS && Bit(a, i) && !Bit(b, i)
  {
    hide Bit, Xor, And;
    OddWord(a, b);
    i := SomeBit(And(a, Xor(a, b)));
    OpBits(a, Xor(a, b), i);
    OpBits(a, b, i);
  }

  lemma OddWord(a: Word, b: Word)
    requires And(a, b) != a
    ensures And(a, Xor(a, b)) != 0
  {
  }

  // ---------------------------------------------------------------- many words

  predicate Has(m: seq<Word>, x: int) {
    0 <= x < WORD_BITS * |m| && Bit(m[x / WORD_BITS], x % WORD_BITS)
  }

  function MembersOf(m: seq<Word>): set<int> {
    set x | 0 <= x < WORD_BITS * |m| && Has(m, x)
  }

  lemma MemberIs(m: seq<Word>, x: int)
    ensures x in MembersOf(m) <==> Has(m, x)
  {
  }

  datatype Op = UnionOp | IntersectOp | DifferenceOp | AssignOp

  function Combine(op: Op, a: Word, b: Word): Word {
    match op
    case UnionOp => Or(a, b)
    case IntersectOp => And(a, b)
    case DifferenceOp => Xor(a, b)
    case AssignOp => b
  }

  /** The header calls _DIFFERENCE_OP the members of one set that are not in the other; what
      set_op computes is the symmetric difference. */
  function Result(op: Op, a: set<int>, b: set<int>): set<int> {
    match op
    case UnionOp => a + b
    case IntersectOp => a * b
    case DifferenceOp => (a - b) + (b - a)
    case AssignOp => b
  }

  function WordAt(m: seq<Word>, k: nat): Word {
    if k < |m| then m[k] else 0
  }

  lemma HasAt(m: seq<Word>, x: int)
    requires x >= 0
    ensures Has(m, x) <==> Bit(WordAt(m, x / WORD_BITS), x % WORD_BITS)
  {
    hide Bit;
    OpBits(0, 0, x % WORD_BITS);
    assert x < WORD_BITS * |m| <==> x / WORD_BITS < |m|;
  }

  /** Word by word, missing words counting as 0. */
  lemma CombineIs(op: Op, a: seq<Word>, b: seq<Word>, r: seq<Word>)
    requires |r| >= |a| && |r| >= |b| && forall k | 0 <= k < |r| :: r[k] == Combine(op, WordAt(a, k), WordAt(b, k))
    ensures MembersOf(r) == Result(op, MembersOf(a), MembersOf(b))
  {
    hide Bit, Has, Or, And, Xor;
    forall x ensures x in MembersOf(r) <==> x in Result(op, MembersOf(a), MembersOf(b)) {
      MemberIs(r, x);
      MemberIs(a, x);
      MemberIs(b, x);
      if x >= 0 {
        HasAt(r, x);
        HasAt(a, x);
        HasAt(b, x);
        CombineAt(op, a, b, r, x);
      } else {
        NotBelow(a, x);
        NotBelow(b, x);
        NotBelow(r, x);
      }
    }
  }

  lemma NotBelow(m: seq<Word>, x: int)
    requires x < 0
    ensures !Has(m, x)
  {
  }

  lemma CombineAt(op: Op, a: seq<Word>, b: seq<Word>, r: seq<Word>, x: nat)
    requires |r| >= |a| && |r| >= |b| && forall k | 0 <= k < |r| :: r[k] == Combine(op, WordAt(a, k), WordAt(b, k))
    ensures var p, q := Bit(WordAt(a, x / WORD_BITS), x % WORD_BITS), Bit(WordAt(b, x / WORD_BITS), x % WORD_BITS);
      Bit(WordAt(r, x / WORD_BITS), x % WORD_BITS) <==>
        match op case UnionOp => p || q case IntersectOp => p && q case DifferenceOp => p != q case AssignOp => q
  {
    hide Bit, Or, And, Xor;
    OpBits(WordAt(a, x / WORD_BITS), WordAt(b, x / WORD_BITS), x % WORD_BITS);
    OpBits(0, 0, x % WORD_BITS);
  }

  /** Maps that agree, missing words counting as 0, have the same members. */
  lemma SameMembers(a: seq<Word>, b: seq<Word>)
    requires forall k: nat :: WordAt(a, k) == WordAt(b, k)
    ensures MembersOf(a) == MembersOf(b)
  {
    hide Bit, Has;
    forall x ensures x in MembersOf(a) <==> x in MembersOf(b) {
      MemberIs(a, x);
      MemberIs(b, x);
      if x >= 0 {
        HasAt(a, x);
        HasAt(b, x);
      } else {
        NotBelow(a, x);
        NotBelow(b, x);
      }
    }
  }

  /** Different words make a difference. */
  lemma OtherMembers(a: seq<Word>, b: seq<Word>, k: nat)
    requires And(WordAt(a, k), WordAt(b, k)) != WordAt(a, k)
    ensures !(MembersOf(a) <= MembersOf(b))
  {
    hide Bit, Has, And;
    var i := OddBit(WordAt(a, k), WordAt(b, k));
    var x := WORD_BITS * k + i;
    assert x / WORD_BITS == k && x % WORD_BITS == i;
    HasAt(a, x);
    HasAt(b, x);
    MemberIs(a, x);
    MemberIs(b, x);
  }

  /** A subset has its words within the other's. */
  lemma WithinMembers(a: seq<Word>, b: seq<Word>)
    requires forall k: nat :: And(WordAt(a, k), WordAt(b, k)) == WordAt(a, k)
    ensures MembersOf(a) <= MembersOf(b)
  {
    hide Bit, Has, And;
    forall x | x in MembersOf(a) ensures x in MembersOf(b) {
      MemberIs(a, x);
      MemberIs(b, x);
      if x < 0 { NotBelow(a, x); }
      HasAt(a, x);
      HasAt(b, x);
      OpBits(WordAt(a, x / WORD_BITS), WordAt(b, x / WORD_BITS), x % WORD_BITS);
    }
  }

  lemma AndDiffers(a: Word, b: Word)
    requires a != b
    ensures And(a, b) != a || And(b, a) != b
  {
  }

  // ------------------------------------------------------------------ operations

  /** Word `k` is the first that differs; a word that is missing counts as 0. */
  predicate FirstDifference(a: seq<Word>, b: seq<Word>, k: nat) {
    WordAt(a, k) != WordAt(b, k) && forall i | 0 <= i < k :: WordAt(a, i) == WordAt(b, i)
  }

  class BitSet {
    var words: array<Word>

    ghost function Members(): set<int>
      reads this, words
    {
      MembersOf(words[..])
    }

    constructor ()
      ensures Members() == {} && words.Length == DEFWORDS && fresh(words)
    {
      words := new Word[DEFWORDS](_ => 0);
      new;
      SameMembers(words[..], []);
    }

    /** enlarge: more words, no more members. */
    method Enlarge(need: nat)
      modifies this
      ensures Members() == old(Members())
      ensures words.Length == if need <= old(words.Length) then old(words.Length) else need
      ensures words == old(words) || fresh(words)
      ensures forall k: nat :: WordAt(words[..], k) == old(WordAt(words[..], k))
      ensures need <= old(words.Length) ==> words == old(words)
    {
      hide MembersOf;
      if need <= words.Length { return; }
      var m := new Word[need](k requires 0 <= k < need reads this, words => if k < words.Length then words[k] else 0);
      SameMembers(m[..], words[..]);
      words := m;
    }

    /** SET_ADD: the words grows by as many words as _ROUND says. */
    method Add(x: nat)
      modifies this, words
      ensures Members() == old(Members()) + {x}
      ensures words == old(words) || fresh(words)
    {
      if x >= WORD_BITS * words.Length {
        Enlarge((x / WORD_BITS + 16) / 16 * 16);
      }
      ghost var m := words[..];
      ghost var w := x / WORD_BITS;
      words[x / WORD_BITS] := Or(words[x / WORD_BITS], Mask(x % WORD_BITS));
      AddIs(m, words[..], x);
    }

    /** SET_MEMBER. */
    method Member(x: nat) returns (r: bool)
      ensures r <==> x in Members()
    {
      if x >= WORD_BITS * words.Length { return false; }
      r := And(words[x / WORD_BITS], Mask(x % WORD_BITS)) != 0;
    }

    /** set_op; the two sets may be the same one. */
    method SetOp(op: Op, src: BitSet)
      modifies this, words
      ensures Members() == Result(op, old(Members()), old(src.Members()))
      ensures words == old(words) || fresh(words)
    {
      hide MembersOf, Or, And, Xor, Result;
      ghost var a, b := words[..], src.words[..];
      var ssize := src.words.Length;
      Enlarge(ssize);
      assert forall k: nat :: WordAt(words[..], k) == WordAt(a, k);
      Words(op, src, a, b);
      if op == IntersectOp || op == AssignOp {
        Rest(op, ssize, a, b);
      } else {
        forall k | |b| <= k < words.Length ensures WordAt(a, k) == Combine(op, WordAt(a, k), WordAt(b, k)) {
          Idempotent(WordAt(a, k));
        }
      }
      CombineIs(op, a, b, words[..]);
    }

    /** The first loop of each operation: the words that both sets have. */
    method Words(op: Op, src: BitSet, ghost a: seq<Word>, ghost b: seq<Word>)
      requires src.words.Length <= words.Length && |a| <= words.Length && b == src.words[..]
      requires forall k: nat :: WordAt(words[..], k) == WordAt(a, k)
      modifies words
      ensures forall k | 0 <= k < words.Length ::
        words[k] == if k < |b| then Combine(op, WordAt(a, k), WordAt(b, k)) else WordAt(a, k)
    {
      hide Combine;
      assert forall k | 0 <= k < words.Length :: WordAt(words[..], k) == words[k];
      for i := 0 to src.words.Length
        invariant |b| == src.words.Length <= words.Length
        invariant forall k | i <= k < |b| :: src.words[k] == b[k]
        invariant forall k | 0 <= k < words.Length ::
          words[k] == if k < i then Combine(op, WordAt(a, k), WordAt(b, k)) else WordAt(a, k)
      {
        words[i] := Combine(op, words[i], src.words[i]);
      }
    }

    /** The second loop of intersection and assignment: no words are left of the other set. */
    method Rest(ghost op: Op, from: nat, ghost a: seq<Word>, ghost b: seq<Word>)
      requires from == |b| <= words.Length && (op == IntersectOp || op == AssignOp)
      requires forall k | 0 <= k < words.Length ::
        words[k] == if k < |b| then Combine(op, WordAt(a, k), WordAt(b, k)) else WordAt(a, k)
      modifies words
      ensures forall k | 0 <= k < words.Length :: words[k] == Combine(op, WordAt(a, k), WordAt(b, k))
    {
      hide And, Or, Xor;
      for i := from to words.Length
        invariant forall k | 0 <= k < words.Length ::
          words[k] == if k < |b| then Combine(op, WordAt(a, k), WordAt(b, k)) else if k < i then 0 else WordAt(a, k)
      {
        words[i] := 0;
      }
      forall k | |b| <= k < words.Length ensures 0 == Combine(op, WordAt(a, k), WordAt(b, k)) {
        Idempotent(WordAt(a, k));
      }
    }

    /** set_compare, which is 0 exactly for equal sets. Otherwise the first word that differs
        decides: words are compared as unsigned numbers and their difference is returned as a
        signed one, and if only one set has the word it is the greater set. */
    method Compare(other: BitSet) returns (r: int)
      ensures r == 0 <==> Members() == other.Members()
      ensures r != 0 ==> exists k: nat ::
        && FirstDifference(words[..], other.words[..], k)
        && (k >= other.words.Length ==> r == 1) && (k >= words.Length ==> r == -1)
    {
      hide MembersOf, And, Or, Xor;
      ghost var a, b := words[..], other.words[..];
      var common := if words.Length < other.words.Length then words.Length else other.words.Length;
      for j := 0 to common
        invariant forall k | 0 <= k < j :: words[k] == other.words[k]
      {
        if words[j] != other.words[j] {
          Differ(a, b, j);
          assert FirstDifference(a, b, j);
          r := Difference(words[j], other.words[j]);
          return;
        }
      }
      var i := common;
      while i < words.Length
        invariant common <= i && (i <= words.Length || i == common)
        invariant forall k | 0 <= k < i :: WordAt(a, k) == WordAt(b, k)
      {
        if words[i] != 0 {
          Differ(a, b, i);
          assert FirstDifference(a, b, i);
          return 1;
        }
        i := i + 1;
      }
      while i < other.words.Length
        invariant common <= i && (i <= other.words.Length || i == words.Length)
        invariant forall k | 0 <= k < i :: WordAt(a, k) == WordAt(b, k)
      {
        if other.words[i] != 0 {
          Differ(a, b, i);
          assert FirstDifference(a, b, i);
          return -1;
        }
        i := i + 1;
      }
      SameMembers(a, b);
      r := 0;
    }

    /** set_subset: whether `cmp` is a subset. */
    method Subset(cmp: BitSet) returns (r: bool)
      ensures r <==> cmp.Members() <= Members()
    {
      hide MembersOf, And, Or, Xor;
      ghost var a, b := cmp.words[..], words[..];
      var common := if cmp.words.Length > words.Length then words.Length else cmp.words.Length;
      for j := 0 to common
        invariant forall k | 0 <= k < j :: And(cmp.words[k], words[k]) == cmp.words[k]
      {
        if And(cmp.words[j], words[j]) != cmp.words[j] {
          OtherMembers(a, b, j);
          return false;
        }
      }
      for j := common to cmp.words.Length
        invariant forall k | common <= k < j :: cmp.words[k] == 0
      {
        if cmp.words[j] != 0 {
          AndNone(cmp.words[j]);
          OtherMembers(a, b, j);
          return false;
        }
      }
      forall k: nat ensures And(WordAt(a, k), WordAt(b, k)) == WordAt(a, k) {
        AndNone(WordAt(b, k));
      }
      WithinMembers(a, b);
      r := true;
    }
  }

  /** The static variables of set_next_member. */
  class Cursor {
    var last: BitSet?
    var current: nat

    constructor ()
      ensures last == null
    {
      last, current := null, 0;
    }

    /** set_next_member(NULL). */
    method Reset()
      modifies this
      ensures last == null
    {
      last := null;
    }

    /** set_next_member: the least member that has not been passed, or -1. */
    method Next(s: BitSet) returns (r: int)
      modifies this
      ensures last == s
      ensures var from := if old(last) == s then old(current) else 0;
        if r >= 0 then
          r in s.Members() && from <= r && current == r + 1 && (forall x | x in s.Members() && from <= x :: r <= x)
        else r == -1 && (forall x | x in s.Members() :: x < from) && forall x | x in s.Members() :: x < current
    {
      hide MembersOf, Bit;
      ghost var from := if last == s then current else 0;
      if s != last {
        last, current := s, 0;
        Skip(s);
      }
      ghost var first := current;
      while current < WORD_BITS * s.words.Length
        invariant last == s && from <= current && first <= current
        invariant forall x | x in s.Members() && from <= x :: current <= x
        decreases WORD_BITS * s.words.Length - current
      {
        current := current + 1;
        var in_ := s.Member(current - 1);
        if in_ { return current - 1; }
      }
      current := current + 1;
      forall x | x in s.Members() ensures x < current - 1 {
        MemberIs(s.words[..], x);
      }
      r := -1;
    }

    /** Zero words in front are skipped. */
    method Skip(s: BitSet)
      requires current == 0
      modifies `current
      ensures forall x | x in s.Members() :: current <= x
    {
      hide Bit;
      var i := 0;
      while i < s.words.Length && s.words[i] == 0
        invariant i <= s.words.Length && current == WORD_BITS * i && forall k | 0 <= k < i :: s.words[k] == 0
      {
        current := current + WORD_BITS;
        i := i + 1;
      }
      forall x | x in s.Members() ensures current <= x {
        MemberIs(s.words[..], x);
        HasAt(s.words[..], x);
        OpBits(0, 0, x % WORD_BITS);
      }
    }
  }

  predicate Ascending(a: seq<int>) {
    forall i, j | 0 <= i < j < |a| :: a[i] < a[j]
  }

  /** The members below `n`, in ascending order. */
  ghost predicate Listed(list: seq<int>, s: set<int>, n: int) {
    Ascending(list) && forall x :: x in list <==> x in s && x < n
  }

  lemma ListedMore(list: seq<int>, s: set<int>, i: int, n: int)
    requires Listed(list, s, i) && i in s && i < n && forall x | x in s && i < x :: n <= x
    ensures Listed(list + [i], s, n)
  {
    forall j, k | 0 <= j < k < |list + [i]| ensures (list + [i])[j] < (list + [i])[k] {
      assert list[j] in list;
    }
    forall x ensures x in list + [i] <==> x in s && x < n {
      assert x in list + [i] <==> x in list || x == i;
    }
  }

  /** The loop of set_print: the members in ascending order. */
  method ListMembers(s: BitSet, c: Cursor) returns (list: seq<int>)
    modifies c
    ensures Ascending(list) && forall x :: x in list <==> x in s.Members()
  {
    hide MembersOf, Ascending;
    c.Reset();
    list := [];
    forall x | x in s.Members() ensures 0 <= x < WORD_BITS * s.words.Length {
      Bound(s.words[..], x);
    }
    NoneListed(s.Members(), 0);
    var i := c.Next(s);
    NoneListed(s.Members(), if i >= 0 then i else WORD_BITS * s.words.Length);
    while i >= 0
      invariant c.last == s && -1 <= i < WORD_BITS * s.words.Length
      invariant i >= 0 ==> i in s.Members() && c.current == i + 1
      invariant Listed(list, s.Members(), if i >= 0 then i else WORD_BITS * s.words.Length)
      decreases WORD_BITS * s.words.Length - c.current, i
    {
      ghost var was := i;
      list := list + [i];
      i := c.Next(s);
      ListedMore(list[..|list| - 1], s.Members(), was, if i >= 0 then i else WORD_BITS * s.words.Length);
      assert list[..|list| - 1] + [was] == list;
    }
  }

  lemma NoneListed(s: set<int>, n: int)
    requires forall x | x in s :: n <= x
    ensures Listed([], s, n)
  {
  }

  lemma Bound(m: seq<Word>, x: int)
    requires x in MembersOf(m)
    ensures 0 <= x < WORD_BITS * |m|
  {
  }

  /** The difference of two words, as an int. */
  method Difference(a: Word, b: Word) returns (r: int)
    ensures r == 0 <==> a == b
  {
    if a != b { MinusZero(a, b); }
    var d := a - b;
    r := if d as int < 0x8000_0000 then d as int else d as int - 0x1_0000_0000;
  }

  lemma AndNone(a: Word)
    ensures And(a, 0) == 0 && And(0, a) == 0
  {
  }

  lemma Differ(a: seq<Word>, b: seq<Word>, k: nat)
    requires WordAt(a, k) != WordAt(b, k)
    ensures MembersOf(a) != MembersOf(b)
  {
    hide MembersOf, And;
    AndDiffers(WordAt(a, k), WordAt(b, k));
    if And(WordAt(a, k), WordAt(b, k)) != WordAt(a, k) {
      OtherMembers(a, b, k);
    } else {
      OtherMembers(b, a, k);
    }
  }

  lemma MinusZero(a: Word, b: Word)
    requires a != b
    ensures a - b != 0
  {
  }

  lemma AddIs(m: seq<Word>, r: seq<Word>, x: nat)
    requires x < WORD_BITS * |m| && r == m[x / WORD_BITS := Or(m[x / WORD_BITS], Mask(x % WORD_BITS))]
    ensures MembersOf(r) == MembersOf(m) + {x}
  {
    hide Bit, Has, Or, And, Mask;
    forall y ensures y in MembersOf(r) <==> y in MembersOf(m) || y == x {
      MemberIs(r, y);
      MemberIs(m, y);
      if y >= 0 {
        HasAt(r, y);
        HasAt(m, y);
        if y / WORD_BITS == x / WORD_BITS {
          OpBits(m[x / WORD_BITS], Mask(x % WORD_BITS), y % WORD_BITS);
          MaskOne(x % WORD_BITS, y % WORD_BITS);
        }
      } else {
        NotBelow(r, y);
        NotBelow(m, y);
      }
    }
  }
}
