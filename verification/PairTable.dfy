/** Table compression (sys_pairs and the yy_next routine sys_pnext emits,
    compiler/lib/syslib.c). Table cells are bytes in the generated parser. */
module PairTable {
  import opened Options

  /** The value a table entry has once it is stored in an unsigned char. */
  function Byte(v: int): nat { v % 256 }

  /** The failure transition as the generated code sees it: (YY_TTYPE)(-1). */
  const YYF: nat := 255

  /** What sys_pairs prints: one initialised array for some of the rows, and the index
      array, which names a row array or holds NULL. */
  datatype Compressed = Compressed(rows: map<nat, seq<nat>>, index: seq<Option<nat>>)
  {
    /** Every array the index names has been defined. */
    predicate Linked() {
      forall i | 0 <= i < |index| && index[i].Some? :: index[i].value in rows
    }
  }

  // ------------------------------------------------------------- specification

  function Row(table: array2<int>, i: nat): seq<int>
    requires i < table.Length0
    reads table
  {
    seq(table.Length1, j requires 0 <= j < table.Length1 reads table => table[i, j])
  }

  /** The number of transitions in a row. */
  function Count(row: seq<int>): nat {
    if row == [] then 0
    else Count(row[..|row| - 1]) + if row[|row| - 1] != -1 then 1 else 0
  }

  function PairsOf(row: seq<int>): seq<nat> {
    if row == [] then []
    else
      var j := |row| - 1;
      PairsOf(row[..j]) + if row[j] != -1 then [Byte(j), Byte(row[j])] else []
  }

  function Bytes(row: seq<int>): (b: seq<nat>)
    ensures |b| == |row| && forall j | 0 <= j < |row| :: b[j] == Byte(row[j])
  {
    if row == [] then [] else Bytes(row[..|row| - 1]) + [Byte(row[|row| - 1])]
  }

  function Encode(row: seq<int>, threshold: int): seq<nat> {
    if Count(row) > threshold then [0] + Bytes(row)
    else [Byte(Count(row))] + PairsOf(row)
  }

  /** The search of yy_next through `n` character/next-state pairs from `p`. */
  function Search(cells: seq<nat>, p: nat, n: nat, c: nat): nat
    requires p + 2 * n <= |cells|
    decreases n
  {
    if n == 0 then YYF
    else if c == cells[p] then cells[p + 1]
    else Search(cells, p + 2, n - 1, c)
  }

  /** Direct indexing of the uncompressed table, seen through the byte type. */
  function Direct(row: seq<int>, c: nat): nat
    requires c < |row|
  {
    Byte(row[c])
  }

  // ------------------------------------------------------------------- lemmas

  lemma {:induction false} PairsLength(row: seq<int>)
    ensures |PairsOf(row)| == 2 * Count(row) && Count(row) <= |row|
  {
    if row != [] {
      PairsLength(row[..|row| - 1]);
    }
  }

  predicate HasKey(cells: seq<nat>, p: nat, n: nat, c: nat)
    requires p + 2 * n <= |cells|
  {
    exists k | 0 <= k < n :: cells[p + 2 * k] == c
  }

  /** Searching a longer list of pairs: the first part decides unless it fails to match. */
  lemma {:induction false} SearchSnoc(cells: seq<nat>, p: nat, n: nat, x: nat, y: nat, c: nat)
    requires p + 2 * n == |cells|
    ensures Search(cells + [x, y], p, n + 1, c) ==
      if HasKey(cells, p, n, c) then Search(cells, p, n, c) else if c == x then y else YYF
    decreases n
  {
    var longer := cells + [x, y];
    if n == 0 {
      assert longer[p] == x && longer[p + 1] == y;
      assert Search(longer, p, 1, c) == if c == x then y else Search(longer, p + 2, 0, c);
    } else if cells[p] == c {
      assert cells[p + 2 * 0] == c;
    } else {
      SearchSnoc(cells, p + 2, n - 1, x, y, c);
      KeyLater(cells, p, n, c);
    }
  }

  lemma KeyLater(cells: seq<nat>, p: nat, n: nat, c: nat)
    requires n > 0 && p + 2 * n <= |cells| && cells[p] != c
    ensures HasKey(cells, p, n, c) <==> HasKey(cells, p + 2, n - 1, c)
  {
    if k :| 0 <= k < n && cells[p + 2 * k] == c {
      assert cells[p + 2 + 2 * (k - 1)] == c;
    }
    if k :| 0 <= k < n - 1 && cells[p + 2 + 2 * k] == c {
      assert cells[p + 2 * (k + 1)] == c;
    }
  }

  lemma KeySnoc(cells: seq<nat>, p: nat, n: nat, x: nat, y: nat, c: nat)
    requires p + 2 * n == |cells|
    ensures HasKey(cells + [x, y], p, n + 1, c) <==> HasKey(cells, p, n, c) || c == x
  {
    var longer := cells + [x, y];
    assert longer[p + 2 * n] == x;
    if k :| 0 <= k < n && cells[p + 2 * k] == c {
      assert longer[p + 2 * k] == c;
    }
    if k :| 0 <= k < n + 1 && longer[p + 2 * k] == c && k != n {
      assert cells[p + 2 * k] == c;
    }
  }

  /** Looking a column up in the pair list gives the row's entry. */
  lemma {:induction false} PairsFind(row: seq<int>, h: nat, c: nat)
    requires |row| <= 255 && c < 256
    ensures |PairsOf(row)| == 2 * Count(row)
    ensures HasKey([h] + PairsOf(row), 1, Count(row), c) <==> c < |row| && row[c] != -1
    ensures Search([h] + PairsOf(row), 1, Count(row), c) == if c < |row| then Byte(row[c]) else YYF
  {
    PairsLength(row);
    hide Search, HasKey;
    if row == [] {
      assert [h] + PairsOf(row) == [h];
      SearchNone([h], 1, c);
    } else {
      var j := |row| - 1;
      var init := row[..j];
      var cells := [h] + PairsOf(init);
      PairsFind(init, h, c);
      if row[j] == -1 {
        assert [h] + PairsOf(row) == cells;
      } else {
        SearchSnoc(cells, 1, Count(init), Byte(j), Byte(row[j]), c);
        KeySnoc(cells, 1, Count(init), Byte(j), Byte(row[j]), c);
        assert cells + [Byte(j), Byte(row[j])] == [h] + PairsOf(row);
      }
    }
  }

  lemma SearchNone(cells: seq<nat>, p: nat, c: nat)
    requires p <= |cells|
    ensures Search(cells, p, 0, c) == YYF && !HasKey(cells, p, 0, c)
  {
  }

  /** Decoding an encoded row equals direct indexing, whatever the threshold. */
  lemma RoundTrip(row: seq<int>, threshold: int, c: nat)
    requires c < |row| <= 255 && Count(row) > 0
    ensures var cells := Encode(row, threshold);
      if cells[0] == 0 then |cells| == 1 + |row| && cells[1 + c] == Direct(row, c)
      else 1 + 2 * cells[0] <= |cells| && Search(cells, 1, cells[0], c) == Direct(row, c)
  {
    hide Bytes, PairsOf, Search, HasKey, Count;
    PairsLength(row);
    if Count(row) <= threshold {
      PairsFind(row, Byte(Count(row)), c);
    }
  }

  lemma {:induction false} CountZero(row: seq<int>)
    ensures Count(row) == 0 <==> forall j | 0 <= j < |row| :: row[j] == -1
  {
    if row != [] {
      CountZero(row[..|row| - 1]);
    }
  }

  // --------------------------------------------------------------- operations

  method CountRow(table: array2<int>, i: nat) returns (n: nat)
    requires i < table.Length0
    ensures n == Count(Row(table, i))
  {
    n := 0;
    for j := 0 to table.Length1
      invariant n == Count(Row(table, i)[..j])
    {
      assert Row(table, i)[..j + 1][..j] == Row(table, i)[..j];
      if table[i, j] != -1 { n := n + 1; }
    }
    assert Row(table, i)[..table.Length1] == Row(table, i);
  }

  /** The cells printed for one row. */
  method EmitRow(table: array2<int>, i: nat, n: nat, threshold: int) returns (cells: seq<nat>)
    requires i < table.Length0 && n == Count(Row(table, i))
    ensures cells == Encode(Row(table, i), threshold)
  {
    hide Row, Count, Bytes, PairsOf;
    ghost var row := Row(table, i);
    RowLength(table, i);
    EncodeNone();
    assert row[..0] == [];
    cells := if n > threshold then [0] else [Byte(n)];
    for j := 0 to table.Length1
      invariant cells ==
        if n > threshold then [0] + Bytes(row[..j])
        else [Byte(n)] + PairsOf(row[..j])
    {
      RowAt(table, i, j);
      EncodeSnoc(row[..j], row[..j + 1]);
      if n > threshold {
        cells := cells + [Byte(table[i, j])];
      } else if table[i, j] != -1 {
        cells := cells + [Byte(j), Byte(table[i, j])];
      }
    }
    assert row[..table.Length1] == row;
  }

  lemma EncodeNone()
    ensures Bytes([]) == [] && PairsOf([]) == []
  {
  }

  lemma EncodeSnoc(row: seq<int>, longer: seq<int>)
    requires longer != [] && longer[..|longer| - 1] == row
    ensures Bytes(longer) == Bytes(row) + [Byte(longer[|row|])]
    ensures PairsOf(longer) == PairsOf(row) + if longer[|row|] != -1 then [Byte(|row|), Byte(longer[|row|])] else []
  {
  }

  lemma RowLength(table: array2<int>, i: nat)
    requires i < table.Length0
    ensures |Row(table, i)| == table.Length1
  {
  }

  ghost predicate Emitted(table: array2<int>, threshold: int, c: Compressed)
    reads table
  {
    && (forall i | 0 <= i < table.Length0 ::
          if Count(Row(table, i)) == 0 then i !in c.rows
          else i in c.rows && c.rows[i] == Encode(Row(table, i), threshold))
    && (forall i | i in c.rows :: i < table.Length0)
    && |c.index| == table.Length0 > 0
    && (forall i | 0 <= i < table.Length0 ::
          c.index[i] == if Count(Row(table, i)) > 0 || i == table.Length0 - 1 then Some(i) else None)
  }

  /** The array declarations. */
  method EmitRows(table: array2<int>, threshold: int) returns (rows: map<nat, seq<nat>>)
    ensures forall i: nat | i < table.Length0 ::
              if Count(Row(table, i)) == 0 then i !in rows
              else i in rows && rows[i] == Encode(Row(table, i), threshold)
    ensures forall i | i in rows :: i < table.Length0
  {
    rows := map[];
    for i := 0 to table.Length0
      invariant forall k: nat | k < i ::
          if Count(Row(table, k)) == 0 then k !in rows
          else k in rows && rows[k] == Encode(Row(table, k), threshold)
      invariant forall k | k in rows :: k < i
    {
      var n := CountRow(table, i);
      if n > 0 {
        var cells := EmitRow(table, i, n, threshold);
        rows := rows[i := cells];
      }
    }
  }

  /** The index array; its last element is printed without looking at the row. */
  method EmitIndex(table: array2<int>) returns (index: seq<Option<nat>>)
    requires table.Length0 > 0
    ensures |index| == table.Length0
    ensures forall i: nat | i < table.Length0 ::
              index[i] == if Count(Row(table, i)) > 0 || i == table.Length0 - 1 then Some(i) else None
  {
    index := [];
    for i := 0 to table.Length0 - 1
      invariant |index| == i
      invariant forall k: nat | k < i :: index[k] == if Count(Row(table, k)) > 0 then Some(k) else None
    {
      var n := CountRow(table, i);
      index := index + [if n > 0 then Some(i) else None];
    }
    index := index + [Some(table.Length0 - 1)];
  }

  method Pairs(table: array2<int>, threshold: int) returns (c: Compressed)
    requires table.Length0 > 0
    ensures Emitted(table, threshold, c)
  {
    var rows := EmitRows(table, threshold);
    var index := EmitIndex(table);
    c := Compressed(rows, index);
  }

  /** The printed tables fit together exactly when the last row has a transition. */
  lemma LinkedExactly(table: array2<int>, threshold: int, c: Compressed)
    requires Emitted(table, threshold, c)
    ensures c.Linked() <==> Count(Row(table, table.Length0 - 1)) > 0
  {
    assert c.index[table.Length0 - 1] == Some(table.Length0 - 1);
  }

  lemma RowAt(table: array2<int>, i: nat, j: nat)
    requires i < table.Length0 && j < table.Length1
    ensures |Row(table, i)| == table.Length1 && Row(table, i)[j] == table[i, j]
  {
  }

  /** The array that the index names for a state, if the row has transitions. */
  lemma EncodedRow(table: array2<int>, threshold: int, c: Compressed, i: nat, j: nat) returns (cells: seq<nat>)
    requires Emitted(table, threshold, c) && c.Linked() && table.Length1 <= 255
    requires i < table.Length0 && j < table.Length1 && c.index[i].Some?
    ensures c.index[i].value in c.rows && cells == c.rows[c.index[i].value] && cells != []
    ensures if cells[0] == 0 then |cells| == 1 + table.Length1 && cells[1 + j] == Byte(table[i, j])
            else 1 + 2 * cells[0] <= |cells| && Search(cells, 1, cells[0], j) == Byte(table[i, j])
  {
    RowAt(table, i, j);
    cells := c.rows[c.index[i].value];
    RoundTrip(Row(table, i), threshold, j);
    hide Encode, PairsOf, Row;
  }

  /** The emitted yy_next on the emitted tables: it returns the table entry. */
  method Next(c: Compressed, curState: nat, sym: nat, ghost table: array2<int>, ghost threshold: int) returns (r: nat)
    requires Emitted(table, threshold, c) && c.Linked() && table.Length1 <= 255
    requires curState < table.Length0 && sym < table.Length1
    ensures r == Byte(table[curState, sym])
  {
    hide Encode, PairsOf, Row, Count;
    ghost var row := Row(table, curState);
    RowAt(table, curState, sym);
    CountZero(row);
    if c.index[curState].Some? {
      ghost var encoded := EncodedRow(table, threshold, c, curState, sym);
      var cells := c.rows[c.index[curState].value];
      var i := cells[0];
      var p := 1;
      if i == 0 { return cells[p + sym]; }
      while i > 0
        invariant 0 <= i && p + 2 * i <= |cells|
        invariant Search(cells, p, i, sym) == Byte(row[sym])
      {
        i := i - 1;
        if sym == cells[p] { return cells[p + 1]; }
        p := p + 2;
      }
    }
    return YYF;
  }
}
