/** The input buffer of the generated scanners (compiler/lib/input.c): a window that slides
    over the text of the file. */
module Input {

  const MAX_LOOKAHEAD: int := 16
  const MAX_LEXEME_LEN: int := 1024
  const BUFSIZE: int := MAX_LEXEME_LEN * 3 + 2 * MAX_LOOKAHEAD
  const NEWLINE: int := 10
  const EOF: int := -1

  datatype Got = Char(c: int) | End | TooLong | Fatal
  datatype Flushed = Flushed | AtEnd | Full | Failed

  // ------------------------------------------------------------- what it stands for

  /** How often `c` is among the first `n` characters. */
  function Count(text: seq<int>, n: nat, c: int): nat
    requires n <= |text|
  {
    if n == 0 then 0 else Count(text, n - 1, c) + if text[n - 1] == c then 1 else 0
  }

  /** The whole text and positions in it: the next character, the marks of the lexeme and
      the start of the previous lexeme, if it is marked. */
  datatype Stream = Stream(whole: seq<int>, at: int, start: int, end: int, prev: int)
  {
    /** The first call of ii_advance puts a newline in front of the text. */
    function Begun(): Stream { Stream([NEWLINE] + whole, 0, 0, 0, -1) }

    function Left(): int { if prev >= 0 then prev else start }
  }

  lemma CountNext(text: seq<int>, n: nat, c: int)
    requires n < |text|
    ensures Count(text, n + 1, c) == Count(text, n, c) + if text[n] == c then 1 else 0
  {
  }

  lemma CountNone(text: seq<int>, c: int)
    ensures Count(text, 0, c) == 0
  {
  }

  /** The lines that going back from `j` to `i` takes off the line number. */
  function Lost(text: seq<int>, i: nat, j: nat): nat
    requires i <= j <= |text|
    decreases j - i
  {
    if i == j then 0 else Lost(text, i + 1, j) + if text[i] == NEWLINE || text[i] == 0 then 1 else 0
  }

  lemma LostStep(text: seq<int>, i: nat, j: nat)
    requires i < j <= |text|
    ensures Lost(text, i, j) == Lost(text, i + 1, j) + if text[i] == NEWLINE || text[i] == 0 then 1 else 0
  {
  }

  lemma {:induction false} LostIs(text: seq<int>, i: nat, j: nat)
    requires i <= j <= |text|
    ensures Lost(text, i, j) ==
      Count(text, j, NEWLINE) - Count(text, i, NEWLINE) + Count(text, j, 0) - Count(text, i, 0)
    decreases j - i
  {
    if i < j {
      LostIs(text, i + 1, j);
      CountNext(text, i, NEWLINE);
      CountNext(text, i, 0);
    }
  }

  lemma {:induction false} NoNulls(text: seq<int>, n: nat)
    requires n <= |text|
    ensures 0 !in text ==> forall k: nat | k <= n :: Count(text, k, 0) == 0
  {
    if n > 0 { NoNulls(text, n - 1); }
  }

  class Buffer {
    const buf: array<int>
    var endBuf: nat
    var next: nat
    var smark: nat
    var emark: nat
    var pmark: int
    var lineno: int
    var mline: int
    var eofRead: bool
    var called: bool
    /** What the file still holds. */
    var rest: seq<int>
    ghost var whole: seq<int>
    /** Where in the text the buffer begins, and from where on it holds the text. */
    ghost var off: int
    ghost var lo: nat
    ghost var line0: int

    ghost function V(): Stream
      reads `whole, `off, `next, `smark, `emark, `pmark
    {
      Stream(whole, next + off, smark + off, emark + off, if pmark >= 0 then pmark + off else -1)
    }

    ghost predicate Window()
      reads buf, `endBuf, `rest, `whole, `off, `lo
    {
      && buf.Length == BUFSIZE && lo <= endBuf <= BUFSIZE && 0 <= lo + off && off + endBuf + |rest| == |whole|
      && (forall p | lo <= p < endBuf :: buf[p] == whole[p + off])
      && (forall i | 0 <= i < |rest| :: rest[i] == whole[endBuf + off + i])
    }

    ghost predicate Marks()
      reads `endBuf, `next, `smark, `emark, `pmark, `lo
    {
      lo <= smark <= emark <= next <= endBuf && pmark <= smark && (pmark >= 0 ==> lo <= pmark)
    }

    /** Once the buffer has been filled there are always enough characters to look at, and
        little room is left in it. */
    ghost predicate Filled()
      reads `endBuf, `next, `eofRead, `called, `rest, `lo, `smark, `off, `lineno, `mline
    {
      && (eofRead ==> rest == [] && lo == 0)
      && (lo == 0 && !eofRead ==> endBuf - next >= MAX_LOOKAHEAD && endBuf > BUFSIZE - MAX_LEXEME_LEN)
      && (lo > 0 ==> lo == smark == next && endBuf == BUFSIZE && BUFSIZE - 1 <= next && lo + off == 0)
      && (!called ==> next == BUFSIZE && lo == next && lineno == mline)
    }

    ghost predicate Lines()
      reads `lineno, `mline, `whole, `off, `next, `emark, `line0
    {
      0 !in whole ==>
        && 0 <= emark + off <= |whole| && 0 <= next + off <= |whole|
        && lineno == line0 + Count(whole, next + off, NEWLINE) && mline == line0 + Count(whole, emark + off, NEWLINE)
    }

    ghost predicate Valid()
      reads this, buf
    {
      Window() && Marks() && Filled() && Lines()
    }

    constructor (file: seq<int>)
      ensures Valid() && V() == Stream(file, 0, 0, 0, -1) && !called && fresh(buf)
    {
      buf := new int[BUFSIZE](_ => 0);
      endBuf, next, smark, emark := BUFSIZE, BUFSIZE, BUFSIZE, BUFSIZE;
      pmark := -1;
      lineno, mline, line0 := 1, 1, 1;
      eofRead, called := false, false;
      rest, whole, off, lo := file, file, -BUFSIZE, BUFSIZE;
    }

    /** ii_newfile, when the new file can be opened. */
    method NewFile(file: seq<int>)
      requires Valid()
      modifies this
      ensures Valid() && V() == Stream(file, 0, 0, 0, -1) && called == old(called) && lineno == 1
    {
      LengthOf();
      hide Count, Window, Marks, Filled, Lines, Valid, V;
      Forget();
      rest := file;
      whole, off, lo, line0 := file, -BUFSIZE, BUFSIZE, 1;
      assert buf[next..] == [] && whole == [] + rest;
      NothingRead();
    }

    /** The pointers of an empty buffer. */
    method Forget()
      modifies `next, `smark, `emark, `endBuf, `pmark, `eofRead, `lineno, `mline
      ensures next == smark == emark == endBuf == BUFSIZE && pmark == -1 && !eofRead && lineno == mline == 1
    {
      eofRead := false;
      next, smark, emark, endBuf := BUFSIZE, BUFSIZE, BUFSIZE, BUFSIZE;
      pmark := -1;
      lineno, mline := 1, 1;
    }

    lemma LengthOf()
      requires Valid()
      ensures buf.Length == BUFSIZE
    {
    }

    /** Before anything has been read the marks are at the end of the buffer. */
    lemma NothingRead()
      requires buf.Length == BUFSIZE == endBuf && lo == next == smark == emark && lo + off == 0
      requires BUFSIZE - 1 <= next <= BUFSIZE
      requires pmark == -1 && !eofRead && (!called ==> next == BUFSIZE)
      requires whole == buf[next..] + rest
      requires line0 == lineno == mline
      ensures Valid() && V() == Stream(whole, 0, 0, 0, -1)
    {
      CountNone(whole, NEWLINE);
    }

    // ------------------------------------------------------------------ marks

    method MarkStart()
      requires Valid()
      modifies `smark, `emark, `mline
      ensures Valid() && V() == old(V()).(start := old(V()).at, end := old(V()).at)
    {
      hide Count, Window;
      mline := lineno;
      emark := next;
      smark := next;
    }

    method MarkEnd()
      requires Valid()
      modifies `emark, `mline
      ensures Valid() && V() == old(V()).(end := old(V()).at)
    {
      hide Count, Window;
      mline := lineno;
      emark := next;
    }

    /** False if the lexeme is empty. */
    method MoveStart() returns (ok: bool)
      requires Valid()
      modifies `smark
      ensures Valid() && ok == (old(V()).start < old(V()).end)
      ensures V() == if ok then old(V()).(start := old(V()).start + 1) else old(V())
    {
      hide Count, Window;
      if smark >= emark { return false; }
      smark := smark + 1;
      ok := true;
    }

    method MoveBack()
      requires Valid()
      modifies `next, `lineno
      ensures Valid() && V() == old(V()).(at := old(V()).end)
    {
      hide Count, Window;
      lineno := mline;
      next := emark;
    }

    method MarkPrev()
      requires Valid()
      modifies `pmark
      ensures Valid() && V() == old(V()).(prev := old(V()).start)
    {
      hide Count, Window;
      pmark := smark;
    }

    /** ii_text and ii_length. */
    method Text() returns (t: seq<int>)
      requires Valid()
      ensures 0 <= V().start <= V().end <= |whole| && t == whole[V().start..V().end]
    {
      hide Lines, Filled;
      t := buf[smark..emark];
    }

    // ---------------------------------------------------------------- reading

    /** ii_fillbuf for a regular file: a short read means the end. It returns the number of
        bytes read. */
    method FillBuf(from: nat) returns (got: nat)
      requires buf.Length == BUFSIZE && from <= BUFSIZE
      modifies buf, `endBuf, `eofRead, `rest
      ensures var need := Fits(from);
        && got == (if need <= |old(rest)| then need else |old(rest)|)
        && rest == old(rest)[got..] && endBuf == (if need == 0 then old(endBuf) else from + got)
        && eofRead == (old(eofRead) || got < need)
      ensures from + got <= BUFSIZE && (forall p | 0 <= p < from :: buf[p] == old(buf[p]))
      ensures forall p | 0 <= p < got :: buf[from + p] == old(rest)[p]
    {
      FitsRoom(from);
      hide Fits;
      var need := Fits(from);
      if need == 0 { return 0; }
      got := if need <= |rest| then need else |rest|;
      forall i | 0 <= i < got {
        buf[from + i] := rest[i];
      }
      rest := rest[got..];
      endBuf := from + got;
      if got < need { eofRead := true; }
    }

    /** The left edge of the text that must not be lost. */
    function Edge(): int
      reads `pmark, `smark
    {
      if pmark >= 0 then pmark else smark
    }

    /** There may be too few characters to look at. */
    predicate Danger()
      reads `eofRead, `next, `endBuf
    {
      !eofRead && next >= endBuf - MAX_LOOKAHEAD
    }

    /** What fits behind `from`. */
    static function Fits(from: int): int { (BUFSIZE - from) / MAX_LEXEME_LEN * MAX_LEXEME_LEN }

    static lemma FitsRoom(from: int)
      requires 0 <= from <= BUFSIZE
      ensures 0 <= Fits(from) <= BUFSIZE - from && (Fits(from) > 0 <==> BUFSIZE - from >= MAX_LEXEME_LEN)
      ensures BUFSIZE - from - Fits(from) < MAX_LEXEME_LEN
    {
    }

    twostate predicate Kept()
      reads `next, `endBuf, `smark, `pmark, `eofRead, `rest
    {
      unchanged(`next) && unchanged(`endBuf) && unchanged(`smark) && unchanged(`pmark) && unchanged(`eofRead) &&
      unchanged(`rest)
    }

    /** The text from `left` on is at the beginning of the buffer, and as much as fits has been read. */
    twostate predicate Refilled(left: int)
      reads `next, `endBuf, `smark, `pmark, `eofRead, `rest
    {
      var copy := old(endBuf) - left;
      var got := if Fits(copy) <= |old(rest)| then Fits(copy) else |old(rest)|;
      && 0 <= got <= |old(rest)| && next == old(next) - left && smark == old(smark) - left
      && pmark == (if old(pmark) >= 0 then old(pmark) - left else old(pmark))
      && endBuf == copy + got && rest == old(rest)[got..] && eofRead == (got < Fits(copy))
    }

    /** The text from the left edge on has been moved, and nothing could be read behind it. */
    twostate predicate Emptied()
      reads `next, `endBuf, `smark, `emark, `pmark, `eofRead, `rest, `whole, `off
    {
      && unchanged(`next) && unchanged(`smark) && unchanged(`emark) && unchanged(`pmark) && unchanged(`off)
      && unchanged(`whole) && rest == [] == old(rest) && eofRead && endBuf == old(endBuf) - old(Edge())
    }

    /** ii_flush. A flush that is forced when there is no room gives up the marked text. */
    method Flush(force: bool) returns (f: Flushed)
      requires Valid() && called
      modifies buf, this
      ensures f.Failed? || (Valid() && whole == old(whole) && called && lineno == old(lineno))
      ensures f.AtEnd? <==> old(eofRead && next >= endBuf)
      ensures f.Full? <==> !force && old(Danger() && Edge() < MAX_LEXEME_LEN)
      ensures f.Failed? <==> (old(!eofRead && (force || Danger())) &&
                              if old(Edge()) >= MAX_LEXEME_LEN then old(rest) == []
                              else force && (old(rest) == [] || BUFSIZE - old(endBuf) + old(next) < MAX_LEXEME_LEN))
      ensures f.Failed? ==> rest == old(rest)
      ensures f.Failed? && !force ==> Emptied()
      ensures f.Full? ==> lo == old(lo) && Kept()
      ensures f.Full? ==> V() == old(V()) && V().at - V().Left() > MAX_LEXEME_LEN
      ensures f.AtEnd? ==> V() == old(V()) && V().at == |whole|
      ensures f.Flushed? && !force ==> if old(Danger()) then Refilled(old(Edge())) else Kept()
      ensures f.Flushed? ==> next < endBuf && (eofRead || endBuf - next > MAX_LOOKAHEAD)
      ensures f.Flushed? ==>
        V() == old(V()) || (force && V() == Stream(whole, old(V()).at, old(V()).at, old(V()).at, old(V()).at))
    {
      hide Count;
      if eofRead && next >= endBuf { return AtEnd; }
      if eofRead { return Flushed; }
      if next >= endBuf - MAX_LOOKAHEAD || force {
        var left := if pmark >= 0 then if smark < pmark then smark else pmark else smark;
        if left < MAX_LEXEME_LEN {
          if !force { return Full; }
          MarkStart();
          MarkPrev();
          left := smark;
        }
        var ok := Shift(left);
        if !ok { return Failed; }
      }
      f := Flushed;
    }

    /** The text from `left` on is moved to the beginning of the buffer, and the buffer filled. */
    method Shift(left: nat) returns (ok: bool)
      requires Valid() && called && !eofRead && left == if pmark >= 0 then pmark else smark
      modifies buf, this
      ensures ok ==> Valid() && V() == old(V()) && whole == old(whole) && called && lineno == old(lineno)
      ensures ok ==> next < endBuf && (eofRead || endBuf - next > MAX_LOOKAHEAD)
      ensures ok <==> old(rest) != [] && BUFSIZE - (old(endBuf) - left) >= MAX_LEXEME_LEN
      ensures ok ==> Refilled(left)
      ensures !ok ==> rest == old(rest)
      ensures !ok && BUFSIZE - (old(endBuf) - left) >= MAX_LEXEME_LEN ==> Emptied()
    {
      hide Count, Lines, V, Fits;
      FitsRoom(endBuf - left);
      var copy := endBuf - left;
      MoveText(left, copy);
      label L:
      var got := FillBuf(copy);
      if got == 0 { return false; }
      Rebase(left);
      ok := true;
      forall p | 0 <= p < endBuf ensures buf[p] == whole[p + off] {
        if p < copy {
          assert buf[p] == old@L(buf[p]);
        } else {
          assert buf[copy + (p - copy)] == old(rest)[p - copy];
        }
      }
    }

    /** The pointers follow the text. */
    method Rebase(left: nat)
      requires left <= smark <= emark <= next && (pmark >= 0 ==> left <= pmark)
      modifies `pmark, `smark, `emark, `next, `off, `lo
      ensures pmark == (if old(pmark) >= 0 then old(pmark) - left else old(pmark)) && smark == old(smark) - left
      ensures emark == old(emark) - left && next == old(next) - left && off == old(off) + left && lo == 0
      ensures V() == old(V()) && (old(Lines()) ==> Lines())
    {
      hide Count;
      if pmark >= 0 { pmark := pmark - left; }
      smark := smark - left;
      emark := emark - left;
      next := next - left;
      off := off + left;
      lo := 0;
    }

    /** memmove of the text to the beginning of the buffer. */
    method MoveText(left: nat, copy: nat)
      requires left + copy <= buf.Length
      modifies buf
      ensures forall p | 0 <= p < copy :: buf[p] == old(buf[p + left])
    {
      forall i | 0 <= i < copy {
        buf[i] := buf[i + left];
      }
    }

    /** ii_advance. It ends the program exactly if it has to read when nothing is left to be read, and
        the buffer is full exactly if it would have to give up marked text, which is then longer
        than a lexeme may be. */
    method Advance() returns (r: Got)
      requires Valid()
      modifies buf, this
      ensures var s := if old(called) then old(V()) else old(V()).Begun();
        match r
        case Char(c) => Valid() && called && s.at < |s.whole| && c == s.whole[s.at] && V() == s.(at := s.at + 1)
        case End => Valid() && V() == s && s.at == |s.whole|
        case TooLong => Valid() && V() == s && s.at - s.Left() > MAX_LEXEME_LEN
        case Fatal => true
      ensures r.End? <==> old(called && eofRead && next >= endBuf)
      ensures r.TooLong? <==> old(called && Danger() && Edge() < MAX_LEXEME_LEN)
      ensures r.Fatal? <==> old(rest) == [] && old(!called || (Danger() && Edge() >= MAX_LEXEME_LEN))
      ensures r.Fatal? ==> rest == [] && (old(called) ==> Emptied())
      ensures r.TooLong? ==> called && lo == old(lo) && Kept()
      ensures r.Char? && old(called && !Danger()) ==>
        next == old(next) + 1 && endBuf == old(endBuf) && rest == old(rest) && eofRead == old(eofRead)
      ensures r.Char? && old(!called) ==>
        && next == 1 && smark == 0 && pmark < 0 && endBuf - 1 <= |old(rest)| && rest == old(rest)[endBuf - 1..]
        && endBuf == 1 + (if Fits(1) <= |old(rest)| then Fits(1) else |old(rest)|) && eofRead == (|old(rest)| < Fits(1))
      ensures r.Char? ==> lo == 0
    {
      hide Count, Window, Lines;
      if !called { Begin(); }
      if eofRead && next >= endBuf {
        NoneLeft();
        return End;
      }
      if !eofRead {
        var f := Flush(false);
        if f == Failed { return Fatal; }
        if f == Full { return TooLong; }
      }
      assert lo == 0;
      var c := Step();
      r := Char(c);
    }

    // -------------------------------------------------------- looking and going back

    /** ii_look: the `n`-th character ahead, or, for `n` below 1, behind. Up to the lookahead
        distance it is right, once something has been read. */
    method Look(n: int) returns (c: int)
      requires Valid()
      ensures lo == 0 && 1 <= n <= MAX_LOOKAHEAD ==>
        c == if V().at + n - 1 < |whole| then whole[V().at + n - 1] else EOF
      ensures lo == 0 && 1 - next <= n <= 0 ==> 0 <= V().at + n - 1 < |whole| && c == whole[V().at + n - 1]
      ensures n < 1 - next ==> c == 0
      ensures n > endBuf - next ==> c == if eofRead then EOF else 0
    {
      hide Lines;
      if n > endBuf - next { return if eofRead then EOF else 0; }
      if n - 1 < 0 - next { return 0; }
      c := buf[next + n - 1];
    }

    /** ii_pushback: back to the start of the lexeme at most. A null character counts as a
        line on the way back, though it does not on the way forth. */
    method Pushback(n: int) returns (ok: bool)
      requires Valid()
      modifies `next, `lineno, `emark, `mline
      ensures Valid() && ok == (V().at > V().start)
      ensures var s := old(V());
        var at := if n <= 0 then s.at else if s.at - n > s.start then s.at - n else s.start;
        && V() == s.(at := at, end := if at < s.end then at else s.end)
        && 0 <= at <= s.at <= |whole|
        && lineno == old(lineno) - (Count(whole, s.at, NEWLINE) - Count(whole, at, NEWLINE)) -
            (Count(whole, s.at, 0) - Count(whole, at, 0))
    {
      hide Count, Window, Filled, Lines, Lost, Marks, Valid;
      var k := n;
      Place();
      LostIs(whole, next + off, next + off);
      while k > 0 && next > smark
        invariant smark <= next <= old(next) && emark == old(emark) && mline == old(mline) && Window()
        invariant next == if k >= n then old(next) else old(next) - n + (if k > 0 then k else 0)
        invariant 0 <= next + off <= old(next) + off <= |whole|
        invariant lineno == old(lineno) - Lost(whole, next + off, old(next) + off)
      {
        k := k - 1;
        next := next - 1;
        InWindow();
        LostStep(whole, next + off, old(next) + off);
        if buf[next] == NEWLINE || buf[next] == 0 { lineno := lineno - 1; }
      }
      LostIs(whole, next + off, old(next) + off);
      if next < emark {
        emark := next;
        mline := lineno;
      }
      WentBack();
      ok := next > smark;
    }

    /** Between the start of the lexeme and where the reading was the buffer is valid. */
    twostate lemma WentBack()
      requires old(Valid()) && Window()
      requires unchanged(`smark) && unchanged(`pmark) && unchanged(`endBuf) && unchanged(`eofRead) && unchanged(`called)
      requires unchanged(`rest) && unchanged(`lo) && unchanged(`off) && unchanged(`whole) && unchanged(`line0)
      requires smark <= next <= old(next) && 0 <= next + off <= old(next) + off <= |whole|
      requires lineno == old(lineno) - Lost(whole, next + off, old(next) + off)
      requires if next < old(emark) then emark == next && mline == lineno
        else emark == old(emark) && mline == old(mline)
      ensures Valid()
    {
      hide Count, Window, Lost;
      LostIs(whole, next + off, old(next) + off);
      NoNulls(whole, old(next) + off);
    }

    lemma Place()
      requires Valid()
      ensures Window() && lo <= smark <= emark <= next <= endBuf && 0 <= smark + off && next + off <= |whole|
    {
    }

    lemma InWindow()
      requires Window() && lo <= next < endBuf
      ensures 0 <= next + off < |whole| && next < buf.Length && buf[next] == whole[next + off]
    {
    }

    /** ii_lineno, for a text without null characters. */
    method Lineno() returns (n: int)
      requires Valid()
      ensures 0 !in whole ==> 0 <= V().at <= |whole| && n == line0 + Count(whole, V().at, NEWLINE)
    {
      n := lineno;
    }

    /** The next character is taken. */
    method Step() returns (c: int)
      requires Valid() && next < endBuf && lo == 0 && called && (eofRead || endBuf - next > MAX_LOOKAHEAD)
      modifies `next, `lineno
      ensures Valid() && 0 <= old(V()).at < |whole| && c == whole[old(V()).at]
      ensures V() == old(V()).(at := old(V()).at + 1)
    {
      c := Current();
      hide Count, Window;
      CountNext(whole, next + off, NEWLINE);
      if c == NEWLINE { lineno := lineno + 1; }
      next := next + 1;
    }

    method Current() returns (c: int)
      requires Valid() && next < endBuf
      ensures 0 <= next + off < |whole| && c == whole[next + off] && next + off == V().at
    {
      hide Count;
      c := buf[next];
    }

    lemma NoneLeft()
      requires Valid() && eofRead && next >= endBuf
      ensures V().at == |whole|
    {
    }

    method Begin()
      requires Valid() && !called
      modifies buf, this
      ensures Valid() && V() == old(V()).Begun() && called && rest == old(rest) && !eofRead && !old(eofRead)
      ensures endBuf == BUFSIZE && next == smark == BUFSIZE - 1 && pmark == -1
    {
      OnlyBegun();
      hide Count, Window, Marks, Filled, Lines, Valid, V;
      PushNewline();
      called := true;
      whole, lo, line0 := [NEWLINE] + whole, next, lineno;
      off := off + 1;
      assert buf[next..] == [NEWLINE];
      NothingRead();
      BegunIs(old(V()), V());
    }

    /** A newline goes into the empty buffer; reading it will not change the line number. */
    method PushNewline()
      requires buf.Length == BUFSIZE && lineno == mline
      modifies buf, `next, `smark, `emark, `pmark, `lineno, `mline
      ensures next == smark == emark == BUFSIZE - 1 && pmark == -1 && buf[next] == NEWLINE
      ensures mline == lineno == old(lineno) - 1
    {
      next, smark, emark := BUFSIZE - 1, BUFSIZE - 1, BUFSIZE - 1;
      pmark := -1;
      buf[next] := NEWLINE;
      lineno := lineno - 1;
      mline := mline - 1;
    }

    lemma BegunIs(s: Stream, t: Stream)
      requires t == Stream([NEWLINE] + s.whole, 0, 0, 0, -1)
      ensures t == s.Begun()
    {
    }

    lemma OnlyBegun()
      requires Valid() && !called
      ensures buf.Length == BUFSIZE == endBuf && rest == whole && lineno == mline && !eofRead && off == -BUFSIZE
      ensures emark == BUFSIZE
      ensures V().whole == whole
    {
      hide Count;
    }
  }

  /** A file that fills the buffer exactly: 3072 characters are read at once, so the end of the file
      is not noticed, and the program ends although the last 16 characters have not been read. */
  method FullRead(file: seq<int>) returns (n: nat, last: Got)
    requires |file| == 3 * MAX_LEXEME_LEN
    ensures last == Fatal && n == |file| + 1 - MAX_LOOKAHEAD
  {
    var b := new Buffer(file);
    last := b.Advance();
    n := 0;
    while last.Char?
      invariant last.Char? ==>
        b.Valid() && b.called && n + 1 == b.next && b.endBuf == |file| + 1 && b.rest == [] && !b.eofRead
      invariant last.Char? ==> b.smark <= n && b.pmark < 0 && b.next <= b.endBuf - MAX_LOOKAHEAD
      invariant !last.Char? ==> last == Fatal && n == |file| + 1 - MAX_LOOKAHEAD
      decreases if last.Char? then |file| - n + 1 else 0
    {
      n := n + 1;
      b.MarkStart();
      last := b.Advance();
    }
  }
}
