/** The steps of compiler/lex/mindfa.c on the numbers of the groups: which state is in which group
    after each of its loops. */
module MinSteps {
  import opened Nfa
  import opened Tables

  /** The group of each state, and how many groups there are. */
  datatype Groups = Groups(ing: seq<int>, n: nat)

  /** The test of minimize: two entries that do not separate their states. */
  predicate Alike(ing: seq<int>, a: int, b: int) {
    a == b || (0 <= a < |ing| && 0 <= b < |ing| && ing[a] == ing[b])
  }

  predicate AlikeOn(t: Table, ing: seq<int>, s: int, r: int, c: int)
    requires TableOk(t) && 0 <= s < |t.rows| && 0 <= r < |t.rows| && 0 <= c < MAX_CHARS
  {
    assert RowOk(t.rows[s], |t.rows|) && RowOk(t.rows[r], |t.rows|);
    Alike(ing, t.rows[s][c], t.rows[r][c])
  }

  predicate AlikeRows(t: Table, ing: seq<int>, s: int, r: int)
    requires TableOk(t) && 0 <= s < |t.rows| && 0 <= r < |t.rows|
  {
    forall c | 0 <= c < MAX_CHARS :: AlikeOn(t, ing, s, r, c)
  }

  /** The last state before `j` with the action of state `i`, or -1. */
  function EarlierSame(t: Table, i: nat, j: nat): (r: int)
    requires j <= i < |t.accepts|
    ensures -1 <= r < j
    ensures r >= 0 ==> t.accepts[r].action == t.accepts[i].action
    ensures r < 0 ==> forall k | 0 <= k < j :: t.accepts[k].action != t.accepts[i].action
  {
    if j == 0 then -1 else if t.accepts[i].action == t.accepts[j - 1].action then j - 1 else EarlierSame(t, i, j - 1)
  }

  /** init_groups, for the first `i` states. */
  function Placed(t: Table, ing: seq<int>, i: nat): (p: Groups)
    requires i <= |t.accepts| <= |ing|
    ensures |p.ing| == |ing|
  {
    if i == 0 then Groups(ing, 0)
    else
      var p, j := Placed(t, ing, i - 1), EarlierSame(t, i - 1, i - 1);
      if j >= 0 then Groups(p.ing[i - 1 := p.ing[j]], p.n) else Groups(p.ing[i - 1 := p.n], p.n + 1)
  }

  /** The first member of a group from state `s` on, or the number of states. */
  function FirstIn(t: Table, ing: seq<int>, g: int, s: nat): (first: nat)
    requires s <= |t.rows| <= |ing|
    ensures s <= first <= |t.rows| && (forall r | s <= r < first :: ing[r] != g)
    ensures first < |t.rows| ==> ing[first] == g
    decreases |t.rows| - s
  {
    if s == |t.rows| || ing[s] == g then s else FirstIn(t, ing, g, s + 1)
  }

  /** The states from `next` on that leave group `g` for group `h`. */
  function SplitFrom(t: Table, ing: seq<int>, g: int, first: nat, h: int, next: nat): (ing': seq<int>)
    requires TableOk(t) && first < |t.rows| <= |ing| && next <= |t.rows|
    ensures |ing'| == |ing|
    decreases |t.rows| - next
  {
    if next == |t.rows| then ing
    else if ing[next] == g && !AlikeRows(t, ing, first, next) then
      SplitFrom(t, ing[next := h], g, first, h, next + 1)
    else SplitFrom(t, ing, g, first, h, next + 1)
  }

  /** One turn of the for loop of minimize. */
  function SplitOf(t: Table, p: Groups, g: int): (p': Groups)
    requires TableOk(t) && |t.rows| <= |p.ing|
    ensures |p'.ing| == |p.ing| && p'.n >= p.n
  {
    var first := FirstIn(t, p.ing, g, 0);
    if first == |t.rows| then p
    else
      var ing := SplitFrom(t, p.ing, g, first, p.n, first + 1);
      if ing == p.ing then p else Groups(ing, p.n + 1)
  }

  /** The for loop of minimize from group `g` on. There are at most as many groups as states. */
  function PassFrom(t: Table, p: Groups, g: nat): (p': Groups)
    requires TableOk(t) && |t.rows| <= |p.ing|
    ensures |p'.ing| == |p.ing| && p'.n >= p.n
    decreases |t.rows| - g
  {
    if g >= p.n || g >= |t.rows| then p else PassFrom(t, SplitOf(t, p, g), g + 1)
  }

  /** The loop around it. */
  function Refined(t: Table, p: Groups): (p': Groups)
    requires TableOk(t) && |t.rows| <= |p.ing|
    ensures |p'.ing| == |p.ing|
    decreases |t.rows| - p.n
  {
    var p' := PassFrom(t, p, 0);
    if p'.n == p.n || p'.n > |t.rows| then p' else Refined(t, p')
  }

  /** The array before min_dfa. */
  function Zeros(): (ing: seq<int>)
    ensures |ing| == DFA_MAX
  {
    seq(DFA_MAX, _ => 0)
  }

  /** min_dfa, with what is in its array at first. */
  function Grouped(t: Table, ing: seq<int>): (p: Groups)
    requires TableOk(t) && |t.rows| <= |ing|
    ensures |p.ing| == |ing|
  {
    Refined(t, Placed(t, ing, |t.rows|))
  }
}
