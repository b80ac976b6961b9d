/** The printed action and goto tables (print_tab in compiler/parser/yystate.c): of equal rows
    only the first is printed, and the index array names it for all of them. */
module RowSharing {
  import opened Options
  import opened LrStates

  type Row = seq<Act>

  /** The tables as printed: the row arrays by number, and the index array. */
  datatype Printed = Printed(rows: map<nat, Row>, index: seq<Option<nat>>)
  {
    /** The row that the generated parser finds for a state; a null pointer is a row without
        transitions. */
    function RowOf(s: nat): Row
      requires s < |index| && (index[s].Some? ==> index[s].value in rows)
    {
      if index[s].None? then [] else rows[index[s].value]
    }
  }

  /** An element of the table: a chain, or in a redundant element the row it duplicates. */
  datatype Cell = Chain(row: Row) | SameAs(i: nat)

  /** Rows marked as redundant duplicate an earlier row that is not; the others keep their
      chains. */
  ghost predicate Marked(table: seq<Row>, cells: seq<Cell>) {
    && |cells| == |table|
    && forall j | 0 <= j < |cells| ::
         match cells[j]
         case Chain(row) => row == table[j]
         case SameAs(i) => i < j && cells[i] == Chain(table[j]) && table[i] == table[j] && table[j] != []
  }

  /** Only rows before `n` are duplicated. */
  predicate NamesBelow(cells: seq<Cell>, n: int) {
    forall j | 0 <= j < |cells| && cells[j].SameAs? :: cells[j].i < n
  }

  /** Later rows equal to row `i` have all been marked. */
  ghost predicate Unique(table: seq<Row>, cells: seq<Cell>, i: int, upto: int)
    requires |cells| == |table|
  {
    0 <= i < |cells| && cells[i].Chain? && cells[i].row != [] ==>
      forall j | i < j < upto && j < |cells| && cells[j].Chain? :: cells[j].row != cells[i].row
  }

  /** The inner comparison: element by element, to the end of both chains. */
  method SameChains(a: Row, b: Row) returns (same: bool)
    ensures same <==> a == b
  {
    var k := 0;
    while k < |a| && k < |b|
      invariant k <= |a| && k <= |b| && a[..k] == b[..k]
    {
      if a[k].to != b[k].to || a[k].sym != b[k].sym { return false; }
      assert a[k] == b[k];
      k := k + 1;
    }
    same := k == |a| && k == |b|;
    assert a[..|a|] == a && b[..|b|] == b;
  }

  /** The double loop that finds the duplicates, in place. */
  method MarkRedundant(cells: array<Cell>, ghost table: seq<Row>)
    requires |table| == cells.Length && forall i | 0 <= i < |table| :: cells[i] == Chain(table[i])
    modifies cells
    ensures Marked(table, cells[..]) && forall i | 0 <= i < |table| :: Unique(table, cells[..], i, |table|)
  {
    for i := 0 to cells.Length
      invariant Marked(table, cells[..]) && NamesBelow(cells[..], i)
      invariant forall k | 0 <= k < i :: Unique(table, cells[..], k, |table|)
    {
      if cells[i].Chain? {
        MarkCopies(cells, i, table);
      }
    }
  }

  method MarkCopies(cells: array<Cell>, i: nat, ghost table: seq<Row>)
    requires i < cells.Length && cells[i].Chain? && Marked(table, cells[..]) && NamesBelow(cells[..], i)
    requires forall k | 0 <= k < i :: Unique(table, cells[..], k, |table|)
    modifies cells
    ensures Marked(table, cells[..]) && NamesBelow(cells[..], i + 1)
    ensures forall k | 0 <= k < i + 1 :: Unique(table, cells[..], k, |table|)
  {
    var row := cells[i].row;
    for j := i + 1 to cells.Length
      invariant Marked(table, cells[..]) && NamesBelow(cells[..], i + 1) && cells[i] == Chain(row)
      invariant Unique(table, cells[..], i, j)
      invariant forall k | 0 <= k < i :: Unique(table, cells[..], k, |table|)
    {
      ghost var before := cells[..];
      if cells[j].Chain? && cells[j].row != [] && row != [] {
        var same := SameChains(row, cells[j].row);
        if same {
          cells[j] := SameAs(i);
          StillMarked(table, before, cells[..], i, j);
        }
      }
    }
  }

  lemma StillMarked(table: seq<Row>, a: seq<Cell>, b: seq<Cell>, i: nat, j: nat)
    requires Marked(table, a) && NamesBelow(a, i + 1) && i < j < |a| && a[i] == a[j] && a[i].Chain? && a[i].row != []
    requires b == a[j := SameAs(i)] && (forall k | 0 <= k < i :: Unique(table, a, k, |table|)) && Unique(table, a, i, j)
    ensures Marked(table, b) && NamesBelow(b, i + 1)
    ensures (forall k | 0 <= k < i :: Unique(table, b, k, |table|)) && Unique(table, b, i, j + 1)
  {
    forall k | 0 <= k < i ensures Unique(table, b, k, |table|) {
      assert Unique(table, a, k, |table|);
    }
  }

  /** The row arrays and the index array. */
  method Print(cells: array<Cell>, ghost table: seq<Row>) returns (p: Printed)
    requires Marked(table, cells[..]) && forall i | 0 <= i < |table| :: Unique(table, cells[..], i, |table|)
    ensures |p.index| == |table|
    ensures forall s | 0 <= s < |table| :: (p.index[s].Some? ==> p.index[s].value in p.rows) && p.RowOf(s) == table[s]
    ensures forall s, t | s in p.rows && t in p.rows && p.rows[s] == p.rows[t] :: s == t
  {
    var rows: map<nat, Row> := map[];
    for i := 0 to cells.Length
      invariant forall k :: k in rows <==> 0 <= k < i && cells[k].Chain? && cells[k].row != []
      invariant forall k | k in rows :: rows[k] == cells[k].row
    {
      if cells[i].Chain? && cells[i].row != [] {
        rows := rows[i := cells[i].row];
      }
    }
    var index: seq<Option<nat>> := [];
    for i := 0 to cells.Length
      invariant |index| == i
      invariant forall k | 0 <= k < i ::
        index[k] == if cells[k].SameAs? then Some(cells[k].i) else if cells[k].row != [] then Some(k) else None
    {
      index := index + [if cells[i].SameAs? then Some(cells[i].i) else if cells[i].row != [] then Some(i) else None];
    }
    p := Printed(rows, index);
    forall s, t | s in rows && t in rows && rows[s] == rows[t] ensures s == t {
      assert Unique(table, cells[..], s, |table|) && Unique(table, cells[..], t, |table|);
    }
  }

  /** print_tab: every state finds its own row, and no row is printed twice. */
  method PrintTab(table: seq<Row>) returns (p: Printed)
    ensures |p.index| == |table|
    ensures forall s | 0 <= s < |table| :: (p.index[s].Some? ==> p.index[s].value in p.rows) && p.RowOf(s) == table[s]
    ensures forall s, t | s in p.rows && t in p.rows && p.rows[s] == p.rows[t] :: s == t
  {
    var cells := new Cell[|table|](i requires 0 <= i < |table| => Chain(table[i]));
    MarkRedundant(cells, table);
    p := Print(cells, table);
  }
}
