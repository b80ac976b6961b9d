/** LLAMA from grammar to parser: the stages in the order main.c and llcode.c run them. */
module Llama {
  import opened Grammars
  import opened Symbols
  import opened First
  import opened Follow
  import opened Select
  import opened LLTable
  import opened LLDriver
  import opened LLTheorems
  import opened LLExact
  import PairTable

  /** The push lists of one chain of productions: `make_pushtab`. */
  method AddPushRows(table: map<nat, seq<Symbol>>, chain: seq<Production>) returns (t: map<nat, seq<Symbol>>)
    requires forall p | p in chain :: |p.rhs| <= MAXRHS
    requires forall p, q | p in chain && q in chain && p.num == q.num :: p == q
    ensures t.Keys == table.Keys + set p | p in chain :: p.num
    ensures forall p | p in chain :: p.num in t && t[p.num] == Reverse(p.rhs) + [0]
    ensures forall k | k in table && (forall p | p in chain :: p.num != k) :: k in t && t[k] == table[k]
  {
    t := table;
    for i := 0 to |chain|
      invariant t.Keys == table.Keys + set p | p in chain[..i] :: p.num
      invariant forall p | p in chain[..i] :: p.num in t && t[p.num] == Reverse(p.rhs) + [0]
      invariant forall k | k in table && (forall p | p in chain :: p.num != k) :: k in t && t[k] == table[k]
    {
      var row := MakePushRow(chain[i]);
      t := t[chain[i].num := row];
      assert chain[..i + 1] == chain[..i] + [chain[i]];
    }
    assert chain[..|chain|] == chain;
  }

  /** The push table holds every production's list, and nothing else. */
  ghost predicate PushTable(g: Grammar, t: map<nat, seq<Symbol>>) {
    && (forall x, p | p in g.Prods(x) :: p.num in t && t[p.num] == Reverse(p.rhs) + [0])
    && (forall k | k in t :: exists x, p | p in g.Prods(x) :: p.num == k)
  }

  method MakePushTable(g: Grammar) returns (t: map<nat, seq<Symbol>>)
    requires g.Valid()
    ensures PushTable(g, t)
  {
    t := map[];
    for k := 0 to |g.symtab|
      invariant forall j, p | 0 <= j < k && p in g.Prods(g.symtab[j]) :: p.num in t && t[p.num] == Reverse(p.rhs) + [0]
      invariant forall n | n in t :: exists x, p | p in g.Prods(x) :: p.num == n
    {
      var x := g.symtab[k];
      forall p | p in g.Prods(x) ensures |p.rhs| <= MAXRHS {
        assert g.ValidProduction(x, p);
      }
      t := AddPushRows(t, g.Prods(x));
    }
    forall x, p | p in g.Prods(x) ensures p.num in t && t[p.num] == Reverse(p.rhs) + [0] {
      assert g.ValidProduction(x, p) && x in g.symtab;
    }
  }

  /** The table as it is printed without compression. */
  method Uncompressed(dtran: array2<int>) returns (next: seq<seq<nat>>)
    ensures Decoded(dtran, next)
  {
    next := [];
    for i := 0 to dtran.Length0
      invariant |next| == i
      invariant forall k | 0 <= k < i :: |next[k]| == dtran.Length1 &&
                  forall j | 0 <= j < dtran.Length1 :: next[k][j] == PairTable.Byte(dtran[k, j])
    {
      var row: seq<nat> := [];
      for j := 0 to dtran.Length1
        invariant |row| == j && forall k | 0 <= k < j :: row[k] == PairTable.Byte(dtran[i, k])
      {
        row := row + [PairTable.Byte(dtran[i, j])];
      }
      next := next + [row];
    }
  }

  /** All stages. The tables are those the theorems speak of, and the compressed table decodes to
      the uncompressed one. Without a reported conflict the grammar is LL(1); for reduced grammars
      without false starts, conflicts are reported exactly if it is not. */
  method Generate(g: Grammar, threshold: int, synch: seq<Symbol>)
    returns (t: Tables, yyd: PairTable.Compressed, errors: nat, dtran: array2<int>,
      ghost f: Sets, ghost w: Sets, ghost select: Selects)
    requires Usable(g)
    ensures Analysed(g, f, w, select) && Generated(g, select, t) && t.synch == synch
    ensures Least(g, f) && FollowLeast(g, f, w)
    ensures errors == 0 <==> ConflictFree(g, select)
    ensures errors == 0 ==> IsLL1(g)
    ensures NoFalseStart(g) && Reduced(g) ==> (errors == 0 <==> IsLL1(g))
    ensures PairTable.Emitted(dtran, threshold, yyd)
    ensures dtran.Length1 == t.currTerm + 1 <= 255 && Decoded(dtran, t.next)
  {
    var st := new SymbolTable(g);
    ComputeFirst(st);
    w := ComputeFollow(st);
    LLSelect(st);
    f, select := st.first, st.select;
    forall x ensures Selected(g, f, NoEpsilon(g, w), select, x) {
      assert Selected(st.g, st.first, st.follow, st.select, x);
    }
    SelectsInRow(g, f, w, select);
    dtran, errors := MakeDtran(st);
    yyd := PairTable.Pairs(dtran, threshold);
    var next := Uncompressed(dtran);
    var pushtab := MakePushTable(g);
    t := Tables(g.currTerm, next, pushtab, synch);
    TablesGenerated(g, select, t, dtran);
    Reported(g, f, w, select);
  }

  /** What the conflicts mean for the grammar. */
  lemma Reported(g: Grammar, f: Sets, w: Sets, select: Selects)
    requires Usable(g) && Analysed(g, f, w, select) && Least(g, f) && FollowLeast(g, f, w)
    ensures ConflictFree(g, select) ==> IsLL1(g)
    ensures NoFalseStart(g) && Reduced(g) ==> (ConflictFree(g, select) <==> IsLL1(g))
  {
    UsableFacts(g);
    hide Usable, Analysed, Least, FollowLeast, NoFalseStart, Reduced, ConflictFree, IsLL1;
    if ConflictFree(g, select) { NoConflictIsLL1(g, f, w, select); }
    if NoFalseStart(g) && Reduced(g) { ConflictsExact(g, f, w, select); }
  }

  lemma SelectsInRow(g: Grammar, f: Sets, w: Sets, select: Selects)
    requires Usable(g) && InRange(g, f) && InRange(g, w)
    requires forall x :: Selected(g, f, NoEpsilon(g, w), select, x)
    ensures SelectsFit(g, select)
  {
    hide Usable, Grammar.Valid, InRange, NoEpsilon, SelectOf;
    UsableFacts(g);
    forall x, p, t | p in g.Prods(x) && t in Tokens(select, p) ensures 0 <= t <= g.currTerm {
      assert Selected(g, f, NoEpsilon(g, w), select, x);
      SelectInRow(g, f, w, x, p);
    }
  }

  ghost predicate Decoded(dtran: array2<int>, next: seq<seq<nat>>)
    reads dtran
  {
    && |next| == dtran.Length0
    && (forall i | 0 <= i < |next| :: |next[i]| == dtran.Length1)
    && (forall i, j | 0 <= i < |next| && 0 <= j < dtran.Length1 :: next[i][j] == PairTable.Byte(dtran[i, j]))
  }

  lemma TablesGenerated(g: Grammar, select: Selects, t: Tables, dtran: array2<int>)
    requires Usable(g) && TableIs(g, dtran, select) && t.currTerm == g.currTerm
    requires PushTable(g, t.pushtab) && Decoded(dtran, t.next)
    ensures Generated(g, select, t)
  {
    hide Usable, Grammar.Valid;
    forall x | MINNONTERM <= x <= g.currNonterm ensures x in g.symtab {
      UsableSymbol(g, x);
    }
    assert t.Valid() by {
      forall i, j | 0 <= i < |t.next| && 0 <= j <= t.currTerm
        ensures t.next[i][j] == PairTable.YYF || t.next[i][j] in t.pushtab
      {
        EntryPushed(g, select, t, dtran, i, j);
      }
      forall k | k in t.pushtab ensures t.ValidPush(t.pushtab[k]) {
        var x, p :| p in g.Prods(x) && p.num == k;
        PushListValid(g, t, x, p);
      }
    }
  }

  lemma EntryPushed(g: Grammar, select: Selects, t: Tables, dtran: array2<int>, i: nat, j: nat)
    requires Usable(g) && TableIs(g, dtran, select) && PushTable(g, t.pushtab) && Decoded(dtran, t.next)
    requires i < |t.next| && j <= g.currTerm
    ensures t.next[i][j] == PairTable.YYF || t.next[i][j] in t.pushtab
  {
    hide Usable, Grammar.Valid, EntryOf;
    var x := i + MINNONTERM;
    UsableSymbol(g, x);
    assert dtran[x - MINNONTERM, j] == EntryOf(select, g.Prods(x), j);
    EntryFound(select, g.Prods(x), j);
    if EntryOf(select, g.Prods(x), j) != -1 {
      var k :| 0 <= k < |g.Prods(x)| && EntryOf(select, g.Prods(x), j) == g.Prods(x)[k].num;
      UsableProduction(g, x, g.Prods(x)[k]);
    }
  }

  lemma PushListValid(g: Grammar, t: Tables, x: Symbol, p: Production)
    requires Usable(g) && p in g.Prods(x) && t.currTerm == g.currTerm && |t.next| == g.currNonterm - MINNONTERM + 1
    ensures t.ValidPush(Reverse(p.rhs) + [0])
  {
    UsableProduction(g, x, p);
    hide Usable;
    var row := Reverse(p.rhs) + [0];
    ReverseAt(p.rhs);
    forall i | 0 <= i < |row| - 1 ensures t.ValidObject(row[i]) {
      assert row[i] == p.rhs[|p.rhs| - 1 - i];
      assert g.ValidSymbol(p.rhs[|p.rhs| - 1 - i]);
    }
  }
}
