/** How many members a set has (set_num_ele in compiler/lib/set.c). */
module BitCounts {
  import opened SetFacts
  import opened Bitsets

  // ------------------------------------------------------------------- one byte

  /** The table of set_num_ele, one line of it after the other: how many bits a byte has. */
  const NBITS: seq<seq<nat>> := [
    [0, 1, 1, 2, 1, 2, 2, 3, 1, 2, 2, 3, 2, 3, 3, 4],
    [1, 2, 2, 3, 2, 3, 3, 4, 2, 3, 3, 4, 3, 4, 4, 5],
    [1, 2, 2, 3, 2, 3, 3, 4, 2, 3, 3, 4, 3, 4, 4, 5],
    [2, 3, 3, 4, 3, 4, 4, 5, 3, 4, 4, 5, 4, 5, 5, 6],
    [1, 2, 2, 3, 2, 3, 3, 4, 2, 3, 3, 4, 3, 4, 4, 5],
    [2, 3, 3, 4, 3, 4, 4, 5, 3, 4, 4, 5, 4, 5, 5, 6],
    [2, 3, 3, 4, 3, 4, 4, 5, 3, 4, 4, 5, 4, 5, 5, 6],
    [3, 4, 4, 5, 4, 5, 5, 6, 4, 5, 5, 6, 5, 6, 6, 7],
    [1, 2, 2, 3, 2, 3, 3, 4, 2, 3, 3, 4, 3, 4, 4, 5],
    [2, 3, 3, 4, 3, 4, 4, 5, 3, 4, 4, 5, 4, 5, 5, 6],
    [2, 3, 3, 4, 3, 4, 4, 5, 3, 4, 4, 5, 4, 5, 5, 6],
    [3, 4, 4, 5, 4, 5, 5, 6, 4, 5, 5, 6, 5, 6, 6, 7],
    [2, 3, 3, 4, 3, 4, 4, 5, 3, 4, 4, 5, 4, 5, 5, 6],
    [3, 4, 4, 5, 4, 5, 5, 6, 4, 5, 5, 6, 5, 6, 6, 7],
    [3, 4, 4, 5, 4, 5, 5, 6, 4, 5, 5, 6, 5, 6, 6, 7],
    [4, 5, 5, 6, 5, 6, 6, 7, 5, 6, 6, 7, 6, 7, 7, 8]]

  function One(b: bool): nat { if b then 1 else 0 }

  function Ones4(x: bv4): nat { One(x & 1 != 0) + One(x & 2 != 0) + One(x & 4 != 0) + One(x & 8 != 0) }

  function Ones8(b: bv8): nat {
    One(b & 1 != 0) + One(b & 2 != 0) + One(b & 4 != 0) + One(b & 8 != 0)
    + One(b & 16 != 0) + One(b & 32 != 0) + One(b & 64 != 0) + One(b & 128 != 0)
  }

  lemma InTable(b: int)
    requires 0 <= b < 256
    ensures |NBITS| == 16 && forall h | 0 <= h < 16 :: |NBITS[h]| == 16
    ensures 0 <= b / 16 < 16
  {
  }

  /** The table entry of a byte. */
  function NBitsOf(b: bv8): nat {
    InTable(b as int);
    NBITS[b as int / 16][b as int % 16]
  }

  lemma TableRows(h: bv4, l: bv4)
    ensures |NBITS| == 16 && |NBITS[h as int]| == 16 && NBITS[h as int][l as int] == Ones4(h) + Ones4(l)
  {
    NibbleRow(l);
    NibbleRow(h);
    assert NBITS[h as int][l as int] == NBITS[0][h as int] + NBITS[0][l as int];
  }

  lemma NibbleRow(x: bv4)
    ensures |NBITS| == 16 && |NBITS[0]| == 16 && NBITS[0][x as int] == Ones4(x)
  {
  }

  lemma NBitsRight(b: bv8)
    ensures NBitsOf(b) == Ones8(b)
  {
    var h, l := (b >> 4) as bv4, (b & 15) as bv4;
    TableRows(h, l);
    Halves(b);
  }

  lemma Halves(b: bv8)
    ensures var h, l := (b >> 4) as bv4, (b & 15) as bv4;
      b as int / 16 == h as int && b as int % 16 == l as int && Ones8(b) == Ones4(h) + Ones4(l)
  {
  }

  /** Byte `k` of a word. */
  function ByteOf(w: Word, k: nat): bv8
    requires k < 4
  {
    if k == 0 then (w & 0xFF) as bv8 else if k == 1 then ((w >> 8) & 0xFF) as bv8
    else if k == 2 then ((w >> 16) & 0xFF) as bv8 else ((w >> 24) & 0xFF) as bv8
  }

  /** How many of the first `n` bits are set. */
  function Ones(w: Word, n: nat): nat
    requires n <= WORD_BITS
  {
    if n == 0 then 0 else Ones(w, n - 1) + One(Bit(w, n - 1))
  }

  lemma ByteMasks0(w: Word)
    ensures w & 0x1 != 0 <==> ((w & 0xFF) as bv8) & 1 != 0
    ensures w & 0x2 != 0 <==> ((w & 0xFF) as bv8) & 2 != 0
    ensures w & 0x4 != 0 <==> ((w & 0xFF) as bv8) & 4 != 0
    ensures w & 0x8 != 0 <==> ((w & 0xFF) as bv8) & 8 != 0
    ensures w & 0x10 != 0 <==> ((w & 0xFF) as bv8) & 16 != 0
    ensures w & 0x20 != 0 <==> ((w & 0xFF) as bv8) & 32 != 0
    ensures w & 0x40 != 0 <==> ((w & 0xFF) as bv8) & 64 != 0
    ensures w & 0x80 != 0 <==> ((w & 0xFF) as bv8) & 128 != 0
  {
  }

  lemma ByteBits0(w: Word)
    ensures Bit(w, 0) <==> ByteOf(w, 0) & 1 != 0
    ensures Bit(w, 1) <==> ByteOf(w, 0) & 2 != 0
    ensures Bit(w, 2) <==> ByteOf(w, 0) & 4 != 0
    ensures Bit(w, 3) <==> ByteOf(w, 0) & 8 != 0
    ensures Bit(w, 4) <==> ByteOf(w, 0) & 16 != 0
    ensures Bit(w, 5) <==> ByteOf(w, 0) & 32 != 0
    ensures Bit(w, 6) <==> ByteOf(w, 0) & 64 != 0
    ensures Bit(w, 7) <==> ByteOf(w, 0) & 128 != 0
  {
    Masks0();
    hide Mask;
    ByteMasks0(w);
  }

  lemma Masks0()
    ensures Mask(0) == 0x1 && Mask(1) == 0x2 && Mask(2) == 0x4 && Mask(3) == 0x8
    ensures Mask(4) == 0x10 && Mask(5) == 0x20 && Mask(6) == 0x40 && Mask(7) == 0x80
  {
  }

  lemma ByteMasks1(w: Word)
    ensures w & 0x100 != 0 <==> (((w >> 8) & 0xFF) as bv8) & 1 != 0
    ensures w & 0x200 != 0 <==> (((w >> 8) & 0xFF) as bv8) & 2 != 0
    ensures w & 0x400 != 0 <==> (((w >> 8) & 0xFF) as bv8) & 4 != 0
    ensures w & 0x800 != 0 <==> (((w >> 8) & 0xFF) as bv8) & 8 != 0
    ensures w & 0x1000 != 0 <==> (((w >> 8) & 0xFF) as bv8) & 16 != 0
    ensures w & 0x2000 != 0 <==> (((w >> 8) & 0xFF) as bv8) & 32 != 0
    ensures w & 0x4000 != 0 <==> (((w >> 8) & 0xFF) as bv8) & 64 != 0
    ensures w & 0x8000 != 0 <==> (((w >> 8) & 0xFF) as bv8) & 128 != 0
  {
  }

  lemma ByteBits1(w: Word)
    ensures Bit(w, 8) <==> ByteOf(w, 1) & 1 != 0
    ensures Bit(w, 9) <==> ByteOf(w, 1) & 2 != 0
    ensures Bit(w, 10) <==> ByteOf(w, 1) & 4 != 0
    ensures Bit(w, 11) <==> ByteOf(w, 1) & 8 != 0
    ensures Bit(w, 12) <==> ByteOf(w, 1) & 16 != 0
    ensures Bit(w, 13) <==> ByteOf(w, 1) & 32 != 0
    ensures Bit(w, 14) <==> ByteOf(w, 1) & 64 != 0
    ensures Bit(w, 15) <==> ByteOf(w, 1) & 128 != 0
  {
    Masks1();
    hide Mask;
    ByteMasks1(w);
  }

  lemma Masks1()
    ensures Mask(8) == 0x100 && Mask(9) == 0x200 && Mask(10) == 0x400 && Mask(11) == 0x800
    ensures Mask(12) == 0x1000 && Mask(13) == 0x2000 && Mask(14) == 0x4000 && Mask(15) == 0x8000
  {
  }

  lemma ByteMasks2(w: Word)
    ensures w & 0x10000 != 0 <==> (((w >> 16) & 0xFF) as bv8) & 1 != 0
    ensures w & 0x20000 != 0 <==> (((w >> 16) & 0xFF) as bv8) & 2 != 0
    ensures w & 0x40000 != 0 <==> (((w >> 16) & 0xFF) as bv8) & 4 != 0
    ensures w & 0x80000 != 0 <==> (((w >> 16) & 0xFF) as bv8) & 8 != 0
    ensures w & 0x100000 != 0 <==> (((w >> 16) & 0xFF) as bv8) & 16 != 0
    ensures w & 0x200000 != 0 <==> (((w >> 16) & 0xFF) as bv8) & 32 != 0
    ensures w & 0x400000 != 0 <==> (((w >> 16) & 0xFF) as bv8) & 64 != 0
    ensures w & 0x800000 != 0 <==> (((w >> 16) & 0xFF) as bv8) & 128 != 0
  {
  }

  lemma ByteBits2(w: Word)
    ensures Bit(w, 16) <==> ByteOf(w, 2) & 1 != 0
    ensures Bit(w, 17) <==> ByteOf(w, 2) & 2 != 0
    ensures Bit(w, 18) <==> ByteOf(w, 2) & 4 != 0
    ensures Bit(w, 19) <==> ByteOf(w, 2) & 8 != 0
    ensures Bit(w, 20) <==> ByteOf(w, 2) & 16 != 0
    ensures Bit(w, 21) <==> ByteOf(w, 2) & 32 != 0
    ensures Bit(w, 22) <==> ByteOf(w, 2) & 64 != 0
    ensures Bit(w, 23) <==> ByteOf(w, 2) & 128 != 0
  {
    Masks2();
    hide Mask;
    ByteMasks2(w);
  }

  lemma Masks2()
    ensures Mask(16) == 0x10000 && Mask(17) == 0x20000 && Mask(18) == 0x40000 && Mask(19) == 0x80000
    ensures Mask(20) == 0x100000 && Mask(21) == 0x200000 && Mask(22) == 0x400000 && Mask(23) == 0x800000
  {
  }

  lemma ByteMasks3(w: Word)
    ensures w & 0x1000000 != 0 <==> (((w >> 24) & 0xFF) as bv8) & 1 != 0
    ensures w & 0x2000000 != 0 <==> (((w >> 24) & 0xFF) as bv8) & 2 != 0
    ensures w & 0x4000000 != 0 <==> (((w >> 24) & 0xFF) as bv8) & 4 != 0
    ensures w & 0x8000000 != 0 <==> (((w >> 24) & 0xFF) as bv8) & 8 != 0
    ensures w & 0x10000000 != 0 <==> (((w >> 24) & 0xFF) as bv8) & 16 != 0
    ensures w & 0x20000000 != 0 <==> (((w >> 24) & 0xFF) as bv8) & 32 != 0
    ensures w & 0x40000000 != 0 <==> (((w >> 24) & 0xFF) as bv8) & 64 != 0
    ensures w & 0x80000000 != 0 <==> (((w >> 24) & 0xFF) as bv8) & 128 != 0
  {
  }

  lemma ByteBits3(w: Word)
    ensures Bit(w, 24) <==> ByteOf(w, 3) & 1 != 0
    ensures Bit(w, 25) <==> ByteOf(w, 3) & 2 != 0
    ensures Bit(w, 26) <==> ByteOf(w, 3) & 4 != 0
    ensures Bit(w, 27) <==> ByteOf(w, 3) & 8 != 0
    ensures Bit(w, 28) <==> ByteOf(w, 3) & 16 != 0
    ensures Bit(w, 29) <==> ByteOf(w, 3) & 32 != 0
    ensures Bit(w, 30) <==> ByteOf(w, 3) & 64 != 0
    ensures Bit(w, 31) <==> ByteOf(w, 3) & 128 != 0
  {
    Masks3();
    hide Mask;
    ByteMasks3(w);
  }

  lemma Masks3()
    ensures Mask(24) == 0x1000000 && Mask(25) == 0x2000000 && Mask(26) == 0x4000000 && Mask(27) == 0x8000000
    ensures Mask(28) == 0x10000000 && Mask(29) == 0x20000000 && Mask(30) == 0x40000000 && Mask(31) == 0x80000000
  {
  }

  lemma ByteBits(w: Word, k: nat)
    requires k < 4
    ensures forall j | 0 <= j < 8 :: Bit(w, 8 * k + j) <==> ByteBit(ByteOf(w, k), j)
  {
    hide Bit, ByteOf;
    if k == 0 {
      ByteBits0(w);
    } else if k == 1 {
      ByteBits1(w);
    } else if k == 2 {
      ByteBits2(w);
    } else {
      ByteBits3(w);
    }
  }

  predicate ByteBit(b: bv8, j: nat)
    requires j < 8
  {
    if j == 0 then b & 1 != 0 else if j == 1 then b & 2 != 0
    else if j == 2 then b & 4 != 0 else if j == 3 then b & 8 != 0
    else if j == 4 then b & 16 != 0 else if j == 5 then b & 32 != 0 else if j == 6 then b & 64 != 0 else b & 128 != 0
  }

  lemma Ones8Is(b: bv8)
    ensures Ones8(b) == One(ByteBit(b, 0)) + One(ByteBit(b, 1)) + One(ByteBit(b, 2)) + One(ByteBit(b, 3))
                        + One(ByteBit(b, 4)) + One(ByteBit(b, 5)) + One(ByteBit(b, 6)) + One(ByteBit(b, 7))
  {
  }

  lemma OnesOfByte(w: Word, k: nat)
    requires k < 4
    ensures Ones(w, 8 * k + 8) == Ones(w, 8 * k) + Ones8(ByteOf(w, k))
  {
    hide Bit, ByteOf, One, Ones, Ones8, ByteBit;
    Ones8Is(ByteOf(w, k));
    OnesNext(w, k, 0);
    OnesNext(w, k, 1);
    OnesNext(w, k, 2);
    OnesNext(w, k, 3);
    OnesNext(w, k, 4);
    OnesNext(w, k, 5);
    OnesNext(w, k, 6);
    OnesNext(w, k, 7);
  }

  lemma OnesNext(w: Word, k: nat, j: nat)
    requires k < 4 && j < 8
    ensures Ones(w, 8 * k + j + 1) == Ones(w, 8 * k + j) + One(ByteBit(ByteOf(w, k), j))
  {
    hide Bit, ByteOf, ByteBit;
    ByteBits(w, k);
  }

  // ------------------------------------------------------------------ whole sets

  /** The bits of the first `p` bytes. */
  function OnesUpTo(m: seq<Word>, p: nat): nat
    requires p <= 4 * |m|
  {
    if p == 0 then 0 else OnesUpTo(m, p - 1) + Ones8(ByteOf(m[(p - 1) / 4], (p - 1) % 4))
  }

  /** The members that the first `n` bits of word `k` stand for. */
  function WordMembers(w: Word, k: nat, n: nat): set<int>
    requires n <= WORD_BITS
  {
    if n == 0 then {} else WordMembers(w, k, n - 1) + if Bit(w, n - 1) then {WORD_BITS * k + n - 1} else {}
  }

  lemma {:induction false} WordMembersAre(w: Word, k: nat, n: nat)
    requires n <= WORD_BITS
    ensures |WordMembers(w, k, n)| == Ones(w, n)
    ensures forall x ::
      x in WordMembers(w, k, n) <==> WORD_BITS * k <= x < WORD_BITS * k + n && Bit(w, x - WORD_BITS * k)
  {
    hide Bit;
    if n > 0 {
      WordMembersAre(w, k, n - 1);
      var before, last := WordMembers(w, k, n - 1), WORD_BITS * k + n - 1;
      OneMore(before, last);
      forall x ensures x in WordMembers(w, k, n) <==> x in before || (x == last && Bit(w, n - 1)) {
      }
    }
  }

  lemma OnesOfWord(m: seq<Word>, k: nat)
    requires k < |m|
    ensures OnesUpTo(m, 4 * k + 4) == OnesUpTo(m, 4 * k) + Ones(m[k], WORD_BITS)
  {
    hide ByteOf, Ones, Ones8, OnesUpTo;
    OnesOfByte(m[k], 0);
    OnesOfByte(m[k], 1);
    OnesOfByte(m[k], 2);
    OnesOfByte(m[k], 3);
    UpToNext(m, k, 0);
    UpToNext(m, k, 1);
    UpToNext(m, k, 2);
    UpToNext(m, k, 3);
    NoOnes(m[k]);
  }

  lemma NoOnes(w: Word)
    ensures Ones(w, 0) == 0
  {
  }

  lemma UpToNext(m: seq<Word>, k: nat, i: nat)
    requires k < |m| && i < 4
    ensures OnesUpTo(m, 4 * k + i + 1) == OnesUpTo(m, 4 * k + i) + Ones8(ByteOf(m[k], i))
  {
    hide Ones8, ByteOf;
  }

  lemma {:induction false} OnesPrefix(m: seq<Word>, n: nat, p: nat)
    requires n <= |m| && p <= 4 * n
    ensures OnesUpTo(m[..n], p) == OnesUpTo(m, p)
  {
    hide Ones8, ByteOf;
    if p > 0 { OnesPrefix(m, n, p - 1); }
  }

  /** A set has as many members as its bytes have bits. */
  lemma {:induction false} CountIsSize(m: seq<Word>)
    ensures OnesUpTo(m, 4 * |m|) == |MembersOf(m)|
  {
    hide Bit, Ones, WordMembers, OnesUpTo;
    if m == [] {
      NoneUpTo(m);
      assert MembersOf(m) == {};
    } else {
      var k := |m| - 1;
      CountIsSize(m[..k]);
      OnesPrefix(m, k, 4 * k);
      OnesOfWord(m, k);
      WordMembersAre(m[k], k, WORD_BITS);
      LastWord(m, k);
      var a, b := MembersOf(m[..k]), WordMembers(m[k], k, WORD_BITS);
      assert |a + b| == |a| + |b|;
    }
  }

  lemma NoneUpTo(m: seq<Word>)
    ensures OnesUpTo(m, 0) == 0
  {
  }

  lemma LastWord(m: seq<Word>, k: nat)
    requires |m| == k + 1
    ensures MembersOf(m) == MembersOf(m[..k]) + WordMembers(m[k], k, WORD_BITS)
    ensures MembersOf(m[..k]) !! WordMembers(m[k], k, WORD_BITS)
  {
    hide Bit, WordMembers;
    WordMembersAre(m[k], k, WORD_BITS);
    forall x ensures x in MembersOf(m) <==> x in MembersOf(m[..k]) || x in WordMembers(m[k], k, WORD_BITS) {
      if 0 <= x < WORD_BITS * k {
        assert m[..k][x / WORD_BITS] == m[x / WORD_BITS];
      } else if WORD_BITS * k <= x < WORD_BITS * |m| {
        assert x / WORD_BITS == k && x % WORD_BITS == x - WORD_BITS * k;
      }
    }
  }

  /** set_num_ele: the table entries of all bytes, which make the number of members. */
  method NumEle(s: BitSet) returns (count: nat)
    ensures count == |s.Members()|
    ensures count == 0 <==> s.Members() == {}
  {
    hide Ones8, ByteOf, NBitsOf, MembersOf;
    count := 0;
    NoneUpTo(s.words[..]);
    for p := 0 to 4 * s.words.Length
      invariant count == OnesUpTo(s.words[..], p)
    {
      var b := ByteOf(s.words[p / 4], p % 4);
      NBitsRight(b);
      count := count + NBitsOf(b);
    }
    CountIsSize(s.words[..]);
  }
}
