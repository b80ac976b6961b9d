/** Whole runs of the scanner: where it starts anew, what it passes over, and exactly which tables
    make it pass over a lexeme on some file. */
module LexRuns {
  import opened Nfa
  import opened Closures
  import opened Tables
  import opened Lexer

  const NEWLINE: int := 10

  /** The driver takes the lexeme: it is the longest, and its state is not taken for "none". */
  predicate Taken(t: Table, text: seq<int>, h: nat, i: nat)
    requires TableOk(t) && IsWord(text)
  {
    h <= i <= |text| && Longest(t, text, h, i) && Run(t, 0, text[h..i]) != 0
  }

  /** The next start after `h` is `i`. */
  ghost predicate Link(t: Table, text: seq<int>, h: nat, hs0: set<nat>, i: nat, hs: set<nat>)
    requires TableOk(t) && IsWord(text)
  {
    (Taken(t, text, h, i) && hs == hs0 + {h}) || (Passed(t, text, h, i) && hs == hs0)
  }

  /** A run from the beginning of the text starts anew at `i`; `hs` are the starts of the lexemes
      taken on the way. */
  ghost predicate StartedWith(t: Table, text: seq<int>, i: nat, hs: set<nat>)
    requires TableOk(t) && IsWord(text)
    decreases i
  {
    if i == 0 then hs == {}
    else exists h: nat, hs0 :: h < i && StartedWith(t, text, h, hs0) && Link(t, text, h, hs0, i, hs)
  }

  ghost predicate Started(t: Table, text: seq<int>, i: nat)
    requires TableOk(t) && IsWord(text)
  {
    exists hs :: StartedWith(t, text, i, hs)
  }

  /** No action is taken for the start `i`, and the character at `k` is dropped with it: the
      automaton has not failed before. */
  predicate Dropped(t: Table, text: seq<int>, i: nat, k: nat)
    requires TableOk(t) && IsWord(text)
  {
    i <= k < |text| && NoAction(t, text, i) && Run(t, 0, text[i..k]) != F
  }

  /** On no file is a character dropped at which a lexeme begins. */
  ghost predicate NeverMisses(t: Table)
    requires TableOk(t)
  {
    forall file, i: nat, k: nat, e: nat |
      IsWord(file) && Started(t, [NEWLINE] + file, i) && Dropped(t, [NEWLINE] + file, i, k) ::
      !AcceptsAt(t, [NEWLINE] + file, k, e)
  }

  // ------------------------------------------------------------ what the table shows

  predicate Says(t: Table, q: int)
    requires TableOk(t) && F <= q < |t.rows|
  {
    q != F && t.accepts[q].action != NONE
  }

  function After(t: Table, q: int, c: int): (r: int)
    requires TableOk(t) && F <= q < |t.rows| && 0 <= c < MAX_CHARS
    ensures F <= r < |t.rows|
  {
    if q == F then F else assert RowOk(t.rows[q], |t.rows|); t.rows[q][c]
  }

  /** A second run of the automaton, begun inside the one of the driver: its state, and whether
      it has accepted. */
  datatype Inner = NotYet | Inner(q: int, hit: bool)

  /** The state of the driver, whether its last accepting state was another than 0, and the states
      that lexemes taken earlier would have led to by now. */
  datatype Point = Point(p: int, noted: bool, later: set<int>, inner: Inner)

  predicate PointOk(t: Table, n: Point)
    requires TableOk(t)
  {
    F <= n.p < |t.rows| && (forall s | s in n.later :: 0 <= s < |t.rows|) &&
    (n.inner.Inner? ==> F <= n.inner.q < |t.rows|)
  }

  predicate Quiet(t: Table, s: set<int>)
    requires TableOk(t) && forall q | q in s :: 0 <= q < |t.rows|
  {
    forall q | q in s :: !Says(t, q)
  }

  ghost function AfterAll(t: Table, s: set<int>, c: int): (r: set<int>)
    requires TableOk(t) && (forall q | q in s :: 0 <= q < |t.rows|) && 0 <= c < MAX_CHARS
    ensures forall q | q in r :: 0 <= q < |t.rows|
    ensures forall q :: q in r <==> q != F && exists o :: o in s && q == After(t, o, c)
  {
    set o | o in s && After(t, o, c) != F :: After(t, o, c)
  }

  function NotedAfter(t: Table, noted: bool, p: int): bool
    requires TableOk(t) && F <= p < |t.rows|
  {
    if Says(t, p) then p != 0 else noted
  }

  /** One more character, after which earlier lexemes still end where they did. The driver goes on,
      or fails with nothing noted and starts anew; a second run may begin. */
  ghost predicate Reads(t: Table, n: Point, c: int, m: Point)
    requires TableOk(t)
  {
    && PointOk(t, n) && 0 <= c < MAX_CHARS && m.later == AfterAll(t, n.later, c) && Quiet(t, m.later)
    && var p := After(t, n.p, c);
      && (p == F ==> !n.noted)
      && if m.inner == NotYet then
           n.inner == NotYet && n.p != F &&
           if p == F then m.p == 0 && !m.noted else m.p == p && m.noted == NotedAfter(t, n.noted, p)
         else
           && m.p == p && m.noted == NotedAfter(t, n.noted, p)
           && if n.inner == NotYet then n.p != F && m.inner == Inner(After(t, 0, c), Says(t, After(t, 0, c)))
              else m.inner == Inner(After(t, n.inner.q, c), n.inner.hit || Says(t, After(t, n.inner.q, c)))
  }

  /** The driver's lexeme ends here. */
  predicate Takes(t: Table, n: Point, m: Point)
    requires TableOk(t)
  {
    PointOk(t, n) && n.inner == NotYet && Says(t, n.p) && n.p != 0 && m == Point(0, false, n.later + {n.p}, NotYet)
  }

  ghost predicate Steps(t: Table, o: Point, m: Point)
    requires TableOk(t)
  {
    Takes(t, o, m) || exists c :: Reads(t, o, c, m)
  }

  const INITIAL: Point := Point(0, false, {}, NotYet)

  /** What can be reached by reading a newline and then taking `n` steps. */
  ghost predicate ReachedIn(t: Table, m: Point, n: nat)
    requires TableOk(t)
    decreases n
  {
    if n == 0 then Reads(t, INITIAL, NEWLINE, m)
    else exists o :: ReachedIn(t, o, n - 1) && Steps(t, o, m)
  }

  /** The driver has nothing noted although the second run has accepted. */
  predicate Missed(n: Point) { n.inner.Inner? && n.inner.hit && !n.noted }

  /** No such point of the finite graph can be reached. */
  ghost predicate MissFree(t: Table)
    requires TableOk(t)
  {
    forall m, n: nat | ReachedIn(t, m, n) :: !Missed(m)
  }

  // ----------------------------------------------------------- one more character

  lemma SameBefore(t: Table, w: seq<int>, c: int, i: nat, j: nat)
    requires TableOk(t) && IsWord(w) && 0 <= c < MAX_CHARS && i <= j <= |w|
    ensures IsWord(w + [c]) && (w + [c])[i..j] == w[i..j]
    ensures AcceptsAt(t, w + [c], i, j) <==> AcceptsAt(t, w, i, j)
  {
    assert (w + [c])[i..j] == w[i..j];
  }

  lemma RunNext(t: Table, w: seq<int>, c: int, i: nat)
    requires TableOk(t) && IsWord(w) && 0 <= c < MAX_CHARS && i <= |w|
    ensures IsWord(w + [c]) && Run(t, 0, (w + [c])[i..]) == After(t, Run(t, 0, w[i..]), c)
    ensures AcceptsAt(t, w + [c], i, |w| + 1) <==> Says(t, Run(t, 0, (w + [c])[i..]))
  {
    assert (w + [c])[i..] == w[i..] + [c] && (w + [c])[i..|w| + 1] == (w + [c])[i..];
    RunSnoc(t, 0, w[i..], c);
  }

  /** Whether the driver would take an action if the text ended here. */
  lemma ActionNext(t: Table, w: seq<int>, c: int, i: nat)
    requires TableOk(t) && IsWord(w) && 0 <= c < MAX_CHARS && i <= |w|
    ensures IsWord(w + [c])
    ensures !NoAction(t, w + [c], i) <==> NotedAfter(t, !NoAction(t, w, i), Run(t, 0, (w + [c])[i..]))
  {
    var v := w + [c];
    hide Run;
    RunNext(t, w, c, i);
    var p := Run(t, 0, v[i..]);
    forall j: nat | j <= |w| ensures AcceptsAt(t, v, i, j) <==> AcceptsAt(t, w, i, j) {
      if i <= j { SameBefore(t, w, c, i, j); }
    }
    assert v[i..|v|] == v[i..];
    if Says(t, p) {
      assert Longest(t, v, i, |v|);
      forall k | 0 <= k <= |v| && Longest(t, v, i, k) ensures k == |v| {
      }
    } else {
      forall k | 0 <= k <= |v| ensures Longest(t, v, i, k) <==> k <= |w| && Longest(t, w, i, k) {
      }
      forall k: nat | i <= k <= |w| ensures v[i..k] == w[i..k] {
      }
    }
  }

  /** Passages that are over stay what they are. */
  lemma PassedNext(t: Table, w: seq<int>, c: int, h: nat, i: nat)
    requires TableOk(t) && IsWord(w) && 0 <= c < MAX_CHARS && h < i <= |w|
    ensures IsWord(w + [c]) && (Passed(t, w + [c], h, i) <==> Passed(t, w, h, i))
  {
    SameBefore(t, w, c, h, i);
    SameBefore(t, w, c, h, i - 1);
    ActionNext(t, w, c, h);
    if Run(t, 0, w[h..i]) == F {
      NoMore(t, w + [c], h, i, |w| + 1);
      assert (w + [c])[h..|w| + 1] == (w + [c])[h..];
    }
  }

  /** A lexeme stays the longest as long as nothing longer is accepted. */
  lemma TakenNext(t: Table, w: seq<int>, c: int, h: nat, i: nat)
    requires TableOk(t) && IsWord(w) && 0 <= c < MAX_CHARS && h <= i <= |w|
    ensures IsWord(w + [c])
    ensures Taken(t, w + [c], h, i) <==> Taken(t, w, h, i) && !Says(t, Run(t, 0, (w + [c])[h..]))
  {
    hide Run;
    RunNext(t, w, c, h);
    SameBefore(t, w, c, h, i);
    forall k: nat | i < k <= |w| ensures AcceptsAt(t, w + [c], h, k) <==> AcceptsAt(t, w, h, k) {
      SameBefore(t, w, c, h, k);
    }
  }

  lemma {:induction false} StartsBefore(t: Table, w: seq<int>, i: nat, hs: set<nat>)
    requires TableOk(t) && IsWord(w) && StartedWith(t, w, i, hs)
    ensures i <= |w| && forall h | h in hs :: h < i
    decreases i
  {
    if i > 0 {
      var h: nat, hs0 :| h < i && StartedWith(t, w, h, hs0) && Link(t, w, h, hs0, i, hs);
      StartsBefore(t, w, h, hs0);
    }
  }

  ghost predicate AllQuiet(t: Table, w: seq<int>, hs: set<nat>)
    requires TableOk(t) && IsWord(w)
  {
    forall h | h in hs && h <= |w| :: !Says(t, Run(t, 0, w[h..]))
  }

  /** A start before the new character is one with it exactly if no earlier lexeme gets longer. */
  lemma {:induction false} StartedNext(t: Table, w: seq<int>, c: int, i: nat, hs: set<nat>)
    requires TableOk(t) && IsWord(w) && 0 <= c < MAX_CHARS && i <= |w|
    ensures IsWord(w + [c])
    ensures StartedWith(t, w + [c], i, hs) <==> StartedWith(t, w, i, hs) && AllQuiet(t, w + [c], hs)
    decreases i
  {
    hide Run, Taken, Passed, Says;
    var v := w + [c];
    assert IsWord(v) by { RunNext(t, w, c, i); }
    if i > 0 {
      if StartedWith(t, v, i, hs) {
        var h: nat, hs0 :| h < i && StartedWith(t, v, h, hs0) && Link(t, v, h, hs0, i, hs);
        StartedNext(t, w, c, h, hs0);
        TakenNext(t, w, c, h, i);
        PassedNext(t, w, c, h, i);
      }
      if StartedWith(t, w, i, hs) && AllQuiet(t, v, hs) {
        var h: nat, hs0 :| h < i && StartedWith(t, w, h, hs0) && Link(t, w, h, hs0, i, hs);
        StartedNext(t, w, c, h, hs0);
        TakenNext(t, w, c, h, i);
        PassedNext(t, w, c, h, i);
      }
    }
  }

  // ------------------------------------------------------------- points and texts

  ghost function LaterOf(t: Table, w: seq<int>, hs: set<nat>): (r: set<int>)
    requires TableOk(t) && IsWord(w)
    ensures forall q :: q in r <==> q != F && exists h :: h in hs && h <= |w| && q == Run(t, 0, w[h..])
  {
    set h | h in hs && h <= |w| && Run(t, 0, w[h..]) != F :: Run(t, 0, w[h..])
  }

  /** The point says how the run from `i` stands at the end of `w`. */
  ghost predicate Tracks(t: Table, w: seq<int>, i: nat, hs: set<nat>, m: Point)
    requires TableOk(t) && IsWord(w)
  {
    && StartedWith(t, w, i, hs) && i <= |w| && m.p == Run(t, 0, w[i..]) && m.noted == !NoAction(t, w, i)
    && m.later == LaterOf(t, w, hs)
  }

  ghost predicate Hit(t: Table, w: seq<int>, k: nat)
    requires TableOk(t) && IsWord(w)
  {
    exists e: nat :: AcceptsAt(t, w, k, e)
  }

  /** The second run began at `k`. */
  ghost predicate InnerAt(t: Table, w: seq<int>, i: nat, k: nat, m: Point)
    requires TableOk(t) && IsWord(w)
  {
    i <= k < |w| && Run(t, 0, w[i..k]) != F && m.inner == Inner(Run(t, 0, w[k..]), Hit(t, w, k))
  }

  lemma LaterNext(t: Table, w: seq<int>, c: int, hs: set<nat>)
    requires TableOk(t) && IsWord(w) && 0 <= c < MAX_CHARS && forall h | h in hs :: h <= |w|
    ensures IsWord(w + [c]) && (forall q | q in LaterOf(t, w, hs) :: 0 <= q < |t.rows|)
    ensures LaterOf(t, w + [c], hs) == AfterAll(t, LaterOf(t, w, hs), c)
    ensures Quiet(t, LaterOf(t, w + [c], hs)) <==> AllQuiet(t, w + [c], hs)
  {
    hide Run;
    var v := w + [c];
    assert IsWord(v) by { RunNext(t, w, c, 0); }
    forall h | h in hs ensures Run(t, 0, v[h..]) == After(t, Run(t, 0, w[h..]), c) {
      RunNext(t, w, c, h);
    }
  }

  lemma HitNext(t: Table, w: seq<int>, c: int, k: nat)
    requires TableOk(t) && IsWord(w) && 0 <= c < MAX_CHARS && k <= |w|
    ensures IsWord(w + [c])
    ensures Hit(t, w + [c], k) <==> Hit(t, w, k) || Says(t, Run(t, 0, (w + [c])[k..]))
  {
    hide Run;
    RunNext(t, w, c, k);
    forall e: nat | e <= |w| ensures AcceptsAt(t, w + [c], k, e) <==> AcceptsAt(t, w, k, e) {
      if k <= e { SameBefore(t, w, c, k, e); }
    }
    if Says(t, Run(t, 0, (w + [c])[k..])) { assert AcceptsAt(t, w + [c], k, |w| + 1); }
    if e: nat :| AcceptsAt(t, w, k, e) { assert AcceptsAt(t, w + [c], k, e); }
  }

  /** The run from `i`, if it is the driver's, after one more character. */
  lemma RunsOn(t: Table, w: seq<int>, c: int, i: nat, hs: set<nat>, o: Point)
    requires TableOk(t) && IsWord(w) && 0 <= c < MAX_CHARS && Tracks(t, w, i, hs, o)
    requires (o.inner.Inner? ==> F <= o.inner.q < |t.rows|)
    ensures IsWord(w + [c]) && PointOk(t, o) && forall h | h in hs :: h < i
    ensures Run(t, 0, (w + [c])[i..]) == After(t, o.p, c)
    ensures (!NoAction(t, w + [c], i)) == NotedAfter(t, o.noted, After(t, o.p, c))
    ensures LaterOf(t, w + [c], hs) == AfterAll(t, o.later, c)
    ensures StartedWith(t, w + [c], i, hs) <==> Quiet(t, AfterAll(t, o.later, c))
  {
    hide Run, NoAction, StartedWith, AfterAll;
    assert PointOk(t, o);
    hide LaterOf;
    StartsBefore(t, w, i, hs);
    RunNext(t, w, c, i);
    ActionNext(t, w, c, i);
    LaterNext(t, w, c, hs);
    StartedNext(t, w, c, i, hs);
  }

  /** The driver fails, with nothing noted, and starts anew behind the character. */
  lemma Anew(t: Table, w: seq<int>, c: int, i: nat, hs: set<nat>)
    requires TableOk(t) && IsWord(w) && 0 <= c < MAX_CHARS && i <= |w| && IsWord(w + [c])
    requires Run(t, 0, w[i..]) != F && Run(t, 0, (w + [c])[i..]) == F && NoAction(t, w + [c], i)
    ensures Passed(t, w + [c], i, |w| + 1)
    ensures StartedWith(t, w + [c], i, hs) ==> StartedWith(t, w + [c], |w| + 1, hs)
  {
    var v := w + [c];
    assert v[i..|v|] == v[i..] && v[i..|v| - 1] == w[i..];
    assert Link(t, v, i, hs, |v|, hs);
  }

  lemma NothingYet(t: Table, w: seq<int>)
    requires TableOk(t) && IsWord(w)
    ensures NoAction(t, w, |w|) && w[|w|..] == [] && Run(t, 0, []) == 0
  {
  }

  // ------------------------------------------------------ from points to texts

  /** A text on which the run stands at this point. */
  ghost predicate Realized(t: Table, w: seq<int>, i: nat, hs: set<nat>, k: nat, m: Point)
    requires TableOk(t) && IsWord(w)
  {
    Tracks(t, w, i, hs, m) && if m.inner == NotYet then m.p != F else InnerAt(t, w, i, k, m)
  }

  lemma RealizeRead(t: Table, w: seq<int>, i: nat, hs: set<nat>, k: nat, o: Point, c: int, m: Point)
    returns (i': nat, k': nat)
    requires TableOk(t) && IsWord(w) && Realized(t, w, i, hs, k, o) && Reads(t, o, c, m)
    ensures IsWord(w + [c]) && Realized(t, w + [c], i', hs, k', m)
  {
    hide Run, NoAction, StartedWith, AfterAll, LaterOf, Quiet, Hit;
    var v := w + [c];
    RunsOn(t, w, c, i, hs, o);
    i', k' := i, k;
    if m.inner == NotYet {
      if After(t, o.p, c) == F {
        i' := |v|;
        Anew(t, w, c, i, hs);
        NothingYet(t, v);
      }
    } else if o.inner == NotYet {
      k' := |w|;
      NothingYet(t, w);
      NoHit(t, w);
      RunNext(t, w, c, |w|);
      HitNext(t, w, c, |w|);
      assert v[i..|w|] == w[i..];
    } else {
      RunNext(t, w, c, k);
      HitNext(t, w, c, k);
      assert v[i..k] == w[i..k];
    }
  }

  lemma NoHit(t: Table, w: seq<int>)
    requires TableOk(t) && IsWord(w)
    ensures !Hit(t, w, |w|)
  {
  }

  lemma RealizeTake(t: Table, w: seq<int>, i: nat, hs: set<nat>, k: nat, o: Point, m: Point)
    requires TableOk(t) && IsWord(w) && Realized(t, w, i, hs, k, o) && Takes(t, o, m)
    ensures Realized(t, w, |w|, hs + {i}, k, m)
  {
    TakenHere(t, w, i, hs);
    NothingYet(t, w);
    hide Run, NoAction;
    assert w[i..|w|] == w[i..];
    assert LaterOf(t, w, hs + {i}) == LaterOf(t, w, hs) + {o.p};
  }

  lemma TakenHere(t: Table, w: seq<int>, i: nat, hs: set<nat>)
    requires TableOk(t) && IsWord(w) && i <= |w| && StartedWith(t, w, i, hs)
    requires Says(t, Run(t, 0, w[i..])) && Run(t, 0, w[i..]) != 0
    ensures i < |w| && Taken(t, w, i, |w|) && StartedWith(t, w, |w|, hs + {i})
  {
    assert w[i..|w|] == w[i..];
    assert w[|w|..] == [];
    assert Link(t, w, i, hs, |w|, hs + {i});
  }

  /** Every point that can be reached has a text. */
  lemma {:induction false} Realize(t: Table, m: Point, n: nat) returns (w: seq<int>, i: nat, hs: set<nat>, k: nat)
    requires TableOk(t) && ReachedIn(t, m, n)
    ensures IsWord(w) && w != [] && w[0] == NEWLINE && Realized(t, w, i, hs, k, m)
    decreases n
  {
    hide Realized, Reads, Takes;
    if n == 0 {
      InitialRealized(t);
      i, k := RealizeRead(t, [], 0, {}, 0, INITIAL, NEWLINE, m);
      w, hs := [] + [NEWLINE], {};
    } else {
      var o :| ReachedIn(t, o, n - 1) && Steps(t, o, m);
      w, i, hs, k := Realize(t, o, n - 1);
      if Takes(t, o, m) {
        RealizeTake(t, w, i, hs, k, o, m);
        i, hs := |w|, hs + {i};
      } else {
        var c :| Reads(t, o, c, m);
        i, k := RealizeRead(t, w, i, hs, k, o, c, m);
        w := w + [c];
      }
    }
  }

  lemma InitialRealized(t: Table)
    requires TableOk(t)
    ensures IsWord([]) && Realized(t, [], 0, {}, 0, INITIAL)
  {
    var w: seq<int> := [];
    NothingYet(t, w);
    assert w[0..] == [];
    assert LaterOf(t, w, {}) == {};
  }

  // ------------------------------------------------------ from texts to points

  ghost predicate Reachable(t: Table, w: seq<int>, m: Point)
    requires TableOk(t)
  {
    if w == [] then m == INITIAL else exists n: nat :: ReachedIn(t, m, n)
  }

  lemma ReachRead(t: Table, w: seq<int>, o: Point, c: int, m: Point)
    requires TableOk(t) && Reachable(t, w, o) && Reads(t, o, c, m) && (w == [] ==> c == NEWLINE)
    ensures Reachable(t, w + [c], m)
  {
    hide Reads;
    if w == [] {
      FirstReached(t, m);
    } else {
      var n: nat :| ReachedIn(t, o, n);
      NextReached(t, o, n, c, m);
    }
  }

  lemma NextReached(t: Table, o: Point, n: nat, c: int, m: Point)
    requires TableOk(t) && ReachedIn(t, o, n) && Reads(t, o, c, m)
    ensures ReachedIn(t, m, n + 1)
  {
    hide Reads;
    assert Steps(t, o, m);
  }

  lemma FirstReached(t: Table, m: Point)
    requires TableOk(t) && Reads(t, INITIAL, NEWLINE, m)
    ensures ReachedIn(t, m, 0)
  {
  }

  lemma ReachTake(t: Table, w: seq<int>, o: Point, m: Point)
    requires TableOk(t) && w != [] && Reachable(t, w, o) && Takes(t, o, m)
    ensures Reachable(t, w, m)
  {
    hide Reads, Takes;
    var n: nat :| ReachedIn(t, o, n);
    assert Steps(t, o, m);
    assert ReachedIn(t, m, n + 1);
  }

  ghost predicate FromNewline(w: seq<int>) { IsWord(w) && (w == [] || w[0] == NEWLINE) }

  lemma LastOf(w: seq<int>) returns (v: seq<int>, c: int)
    requires FromNewline(w) && w != []
    ensures w == v + [c] && FromNewline(v) && 0 <= c < MAX_CHARS && (v == [] ==> c == NEWLINE)
  {
    v, c := w[..|w| - 1], w[|w| - 1];
  }

  /** Where a run of the driver stands can be reached in the table. */
  lemma {:induction false} Trace(t: Table, w: seq<int>, i: nat, hs: set<nat>) returns (m: Point)
    requires TableOk(t) && FromNewline(w) && StartedWith(t, w, i, hs) && i <= |w| && Run(t, 0, w[i..]) != F
    ensures Tracks(t, w, i, hs, m) && m.inner == NotYet && Reachable(t, w, m)
    decreases |w|, i
  {
    hide Run, Reads, Takes, Reachable, Taken, Passed, NoAction;
    m := Point(Run(t, 0, w[i..]), !NoAction(t, w, i), LaterOf(t, w, hs), NotYet);
    if i < |w| {
      var v, c := LastOf(w);
      StartedNext(t, v, c, i, hs);
      RunNext(t, v, c, i);
      var o := Trace(t, v, i, hs);
      RunsOn(t, v, c, i, hs, o);
      ReadsOn(t, o, c, m);
      ReachRead(t, v, o, c, m);
    } else if i == 0 {
      InitialRealized(t);
      InitialReachable(t, w, hs, m);
    } else {
      NothingYet(t, w);
      var h: nat, hs0 :| h < i && StartedWith(t, w, h, hs0) && Link(t, w, h, hs0, i, hs);
      if Taken(t, w, h, i) && hs == hs0 + {h} {
        TakenSays(t, w, h);
        var o := Trace(t, w, h, hs0);
        TakesOn(t, w, h, hs0, o, m);
        ReachTake(t, w, o, m);
      } else {
        m := TracePassed(t, w, h, hs);
      }
    }
  }

  lemma InitialReachable(t: Table, w: seq<int>, hs: set<nat>, m: Point)
    requires TableOk(t) && w == [] && StartedWith(t, w, 0, hs)
    requires m == Point(Run(t, 0, w[0..]), !NoAction(t, w, 0), LaterOf(t, w, hs), NotYet)
    ensures Reachable(t, w, m)
  {
    NothingYet(t, w);
    assert w[0..] == [] && LaterOf(t, w, hs) == {};
  }

  lemma ReadsOn(t: Table, o: Point, c: int, m: Point)
    requires TableOk(t) && PointOk(t, o) && 0 <= c < MAX_CHARS && o.inner == NotYet && After(t, o.p, c) != F
    requires Quiet(t, AfterAll(t, o.later, c))
    requires m == Point(After(t, o.p, c), NotedAfter(t, o.noted, After(t, o.p, c)), AfterAll(t, o.later, c), NotYet)
    ensures Reads(t, o, c, m)
  {
  }

  lemma TakenSays(t: Table, w: seq<int>, h: nat)
    requires TableOk(t) && IsWord(w) && Taken(t, w, h, |w|)
    ensures Says(t, Run(t, 0, w[h..])) && Run(t, 0, w[h..]) != 0
  {
    assert w[h..|w|] == w[h..];
  }

  lemma TakesOn(t: Table, w: seq<int>, h: nat, hs: set<nat>, o: Point, m: Point)
    requires TableOk(t) && IsWord(w) && Tracks(t, w, h, hs, o) && o.inner == NotYet && Taken(t, w, h, |w|)
    requires m == Point(Run(t, 0, w[|w|..]), !NoAction(t, w, |w|), LaterOf(t, w, hs + {h}), NotYet)
    ensures Takes(t, o, m)
  {
    TakenSays(t, w, h);
    NothingYet(t, w);
    hide Run, NoAction, Taken;
    assert LaterOf(t, w, hs + {h}) == LaterOf(t, w, hs) + {o.p};
  }

  lemma {:induction false} TracePassed(t: Table, w: seq<int>, h: nat, hs: set<nat>) returns (m: Point)
    requires TableOk(t) && FromNewline(w) && h < |w| && StartedWith(t, w, h, hs) && Passed(t, w, h, |w|)
    ensures Tracks(t, w, |w|, hs, m) && m.inner == NotYet && Reachable(t, w, m)
    decreases |w|, 0
  {
    var v, c := LastOf(w);
    assert w[h..|w| - 1] == v[h..] && w[h..|w|] == w[h..];
    hide Run, Reads, Reachable, NoAction;
    StartedNext(t, v, c, h, hs);
    RunNext(t, v, c, h);
    var o := Trace(t, v, h, hs);
    RunsOn(t, v, c, h, hs, o);
    NothingYet(t, w);
    Anew(t, v, c, h, hs);
    m := Point(0, false, AfterAll(t, o.later, c), NotYet);
    assert Reads(t, o, c, m) by { FailsOn(t, o, c, m); }
    ReachRead(t, v, o, c, m);
  }

  lemma FailsOn(t: Table, o: Point, c: int, m: Point)
    requires TableOk(t) && PointOk(t, o) && 0 <= c < MAX_CHARS && o.inner == NotYet && o.p != F
    requires After(t, o.p, c) == F && !o.noted
    requires Quiet(t, AfterAll(t, o.later, c)) && m == Point(0, false, AfterAll(t, o.later, c), NotYet)
    ensures Reads(t, o, c, m)
  {
  }

  /** The same with a second run, which began at `k`. */
  lemma {:induction false} TraceInner(t: Table, w: seq<int>, i: nat, hs: set<nat>, k: nat) returns (m: Point)
    requires TableOk(t) && FromNewline(w) && StartedWith(t, w, i, hs) && i <= k < |w| && Run(t, 0, w[i..k]) != F
    requires Run(t, 0, w[i..]) == F ==> NoAction(t, w, i)
    ensures Tracks(t, w, i, hs, m) && InnerAt(t, w, i, k, m) && Reachable(t, w, m)
    decreases |w|
  {
    hide Run, Reads, Reachable, NoAction, StartedWith, Hit;
    var v, c := LastOf(w);
    StartedNext(t, v, c, i, hs);
    RunNext(t, v, c, i);
    ActionNext(t, v, c, i);
    RunNext(t, v, c, k);
    HitNext(t, v, c, k);
    assert w[i..k] == v[i..k];
    m := Point(Run(t, 0, w[i..]), !NoAction(t, w, i), LaterOf(t, w, hs), Inner(Run(t, 0, w[k..]), Hit(t, w, k)));
    var o;
    if k == |v| {
      assert v[i..k] == v[i..];
      o := Trace(t, v, i, hs);
      NothingYet(t, v);
      NoHit(t, v);
    } else {
      o := TraceInner(t, v, i, hs, k);
    }
    RunsOn(t, v, c, i, hs, o);
    InnerReads(t, o, c, m);
    ReachRead(t, v, o, c, m);
  }

  lemma InnerReads(t: Table, o: Point, c: int, m: Point)
    requires TableOk(t) && PointOk(t, o) && 0 <= c < MAX_CHARS && (After(t, o.p, c) == F ==> !o.noted)
    requires Quiet(t, AfterAll(t, o.later, c)) && m.later == AfterAll(t, o.later, c)
    requires m.p == After(t, o.p, c) && m.noted == NotedAfter(t, o.noted, m.p)
    requires if o.inner == NotYet then o.p != F && m.inner == Inner(After(t, 0, c), Says(t, After(t, 0, c)))
             else m.inner == Inner(After(t, o.inner.q, c), o.inner.hit || Says(t, After(t, o.inner.q, c)))
    ensures Reads(t, o, c, m)
  {
  }

  // ------------------------------------------------------------------ the theorem

  /** The driver misses a lexeme on some file exactly if the table lets a point be reached at
      which it has nothing noted although a second run has accepted. */
  lemma MissesExactly(t: Table)
    requires TableOk(t)
    ensures NeverMisses(t) <==> MissFree(t)
  {
    hide Run, Started, Dropped, AcceptsAt, ReachedIn, Missed;
    if NeverMisses(t) {
      forall m, n: nat | ReachedIn(t, m, n) ensures !Missed(m) {
        if Missed(m) { MissedText(t, m, n); }
      }
    }
    if MissFree(t) {
      forall file, i: nat, k: nat, e: nat
        | IsWord(file) && Started(t, [NEWLINE] + file, i) && Dropped(t, [NEWLINE] + file, i, k)
        ensures !AcceptsAt(t, [NEWLINE] + file, k, e)
      {
        if AcceptsAt(t, [NEWLINE] + file, k, e) {
          var m, n := MissedPoint(t, [NEWLINE] + file, i, k, e);
        }
      }
    }
  }

  lemma MissedText(t: Table, m: Point, n: nat)
    requires TableOk(t) && ReachedIn(t, m, n) && Missed(m)
    ensures !NeverMisses(t)
  {
    var w, i, hs, k := Realize(t, m, n);
    hide Run, ReachedIn, LaterOf;
    var e: nat :| AcceptsAt(t, w, k, e);
    assert Started(t, w, i) && Dropped(t, w, i, k);
    assert w == [NEWLINE] + w[1..];
    assert IsWord(w[1..]);
  }

  lemma MissedPoint(t: Table, w: seq<int>, i: nat, k: nat, e: nat) returns (m: Point, n: nat)
    requires TableOk(t) && FromNewline(w) && Started(t, w, i) && Dropped(t, w, i, k) && AcceptsAt(t, w, k, e)
    ensures ReachedIn(t, m, n) && Missed(m)
  {
    var hs :| StartedWith(t, w, i, hs);
    hide Run, ReachedIn, LaterOf, StartedWith;
    m := TraceInner(t, w, i, hs, k);
    assert Hit(t, w, k);
    n :| ReachedIn(t, m, n);
  }

  // ---------------------------------------------------------------- the driver's calls

  /** In the run from the beginning the character at `k` is dropped. */
  ghost predicate OnTheWay(t: Table, text: seq<int>, k: nat)
    requires TableOk(t) && IsWord(text)
  {
    exists i: nat :: Started(t, text, i) && Dropped(t, text, i, k)
  }

  lemma {:induction false} PassedStarts(t: Table, text: seq<int>, a: nat, b: nat)
    requires TableOk(t) && IsWord(text) && Started(t, text, a) && PassedAll(t, text, a, b)
    ensures a <= b && Started(t, text, b)
    ensures forall k: nat | a <= k < b :: OnTheWay(t, text, k)
    decreases b
  {
    hide Run, StartedWith;
    if a != b {
      var m: nat :| a <= m < b && PassedAll(t, text, a, m) && Passed(t, text, m, b);
      PassedStarts(t, text, a, m);
      var hs :| StartedWith(t, text, m, hs);
      StartedBy(t, text, m, hs, b, hs);
      forall k: nat | m <= k < b ensures OnTheWay(t, text, k) {
        NotFailedBefore(t, text, m, k, b);
        assert Dropped(t, text, m, k);
      }
    }
  }

  lemma StartedBy(t: Table, text: seq<int>, h: nat, hs0: set<nat>, i: nat, hs: set<nat>)
    requires TableOk(t) && IsWord(text) && h < i && StartedWith(t, text, h, hs0) && Link(t, text, h, hs0, i, hs)
    ensures Started(t, text, i)
  {
    assert StartedWith(t, text, i, hs);
  }

  lemma NotFailedBefore(t: Table, text: seq<int>, m: nat, k: nat, b: nat)
    requires TableOk(t) && IsWord(text) && m <= k < b <= |text| && Run(t, 0, text[m..b - 1]) != F
    ensures Run(t, 0, text[m..k]) != F
  {
    if Run(t, 0, text[m..k]) == F { NoMore(t, text, m, k, b - 1); }
  }

  /** One call of yylex in a run from the beginning of a file. If the table is miss-free, no lexeme
      begins anywhere in what is passed over before the action, or up to the end of the input. */
  method NextAction(s: Scanner) returns (r: Result)
    requires s.Valid() && Started(s.t, s.text, s.next) && FromNewline(s.text)
    modifies s
    ensures s.Valid() && old(s.next) <= r.start <= |s.text| && Started(s.t, s.text, r.start)
    ensures r.Action? ==> Taken(s.t, s.text, r.start, r.end) && s.next == r.end && Started(s.t, s.text, s.next)
    ensures r.EndOfInput? ==> s.next == |s.text| && (r.start < |s.text| ==> Dropped(s.t, s.text, r.start, |s.text| - 1))
    ensures MissFree(s.t) ==> forall k: nat, e: nat |
              old(s.next) <= k < (if r.Action? then r.start else |s.text|) :: !AcceptsAt(s.t, s.text, k, e)
  {
    hide Run, MissFree, AcceptsAt, PassedAll, Longest, NoAction, StartedWith;
    r := s.Yylex();
    PassedStarts(s.t, s.text, old(s.next), r.start);
    if r.Action? {
      TakenStarts(s.t, s.text, r.start, r.end);
    } else {
      ToTheEnd(s.t, s.text, r.start);
    }
    if MissFree(s.t) {
      forall k: nat, e: nat | old(s.next) <= k < (if r.Action? then r.start else |s.text|)
        ensures !AcceptsAt(s.t, s.text, k, e)
      {
        DroppedFrom(s.t, s.text, old(s.next), r.start, k);
        var i: nat :| Started(s.t, s.text, i) && Dropped(s.t, s.text, i, k);
        NothingThere(s.t, s.text, i, k, e);
      }
    }
  }

  lemma DroppedFrom(t: Table, text: seq<int>, a: nat, b: nat, k: nat)
    requires TableOk(t) && IsWord(text) && a <= k && Started(t, text, b)
    requires forall k: nat | a <= k < b :: OnTheWay(t, text, k)
    requires k >= b ==> forall k | b <= k < |text| :: Dropped(t, text, b, k)
    requires k < |text|
    ensures OnTheWay(t, text, k)
  {
    hide Started, Dropped;
  }

  lemma TakenStarts(t: Table, text: seq<int>, i: nat, j: nat)
    requires TableOk(t) && IsWord(text) && i <= j <= |text| && Started(t, text, i)
    requires Longest(t, text, i, j) && Run(t, 0, text[i..j]) != 0
    ensures Taken(t, text, i, j) && Started(t, text, j)
  {
    hide Run;
    var hs :| StartedWith(t, text, i, hs);
    StartedBy(t, text, i, hs, j, hs + {i});
  }

  lemma ToTheEnd(t: Table, text: seq<int>, i: nat)
    requires TableOk(t) && IsWord(text) && i <= |text| && NoAction(t, text, i) && Run(t, 0, text[i..]) != F
    ensures forall k | i <= k < |text| :: Dropped(t, text, i, k)
  {
    hide NoAction;
    assert text[i..|text|] == text[i..];
    forall k | i <= k < |text| ensures Dropped(t, text, i, k) {
      if Run(t, 0, text[i..k]) == F { NoMore(t, text, i, k, |text|); }
    }
  }

  lemma NothingThere(t: Table, text: seq<int>, i: nat, k: nat, e: nat)
    requires TableOk(t) && FromNewline(text) && MissFree(t) && Started(t, text, i) && Dropped(t, text, i, k)
    ensures !AcceptsAt(t, text, k, e)
  {
    hide Run, Started, Dropped, AcceptsAt, ReachedIn, Missed;
    if AcceptsAt(t, text, k, e) { var m, n := MissedPoint(t, text, i, k, e); }
  }

  // ------------------------------------------------------------------- an example

  /** The table of the one rule ab. */
  function Example(): Table {
    Table([seq(MAX_CHARS, c => if c == 97 then 1 else F), seq(MAX_CHARS, c => if c == 98 then 2 else F),
      seq(MAX_CHARS, c => F)],
          [Accept(NONE, 0), Accept(NONE, 0), Accept(1, 0)])
  }

  lemma ExampleRuns()
    ensures TableOk(Example())
    ensures var t := Example();
      && Run(t, 0, []) == 0 && Run(t, 0, [10]) == F && Run(t, 0, [97]) == 1 && Run(t, 0, [97, 97]) == F
      && Run(t, 0, [97, 98]) == 2
    ensures var t := Example(); !Says(t, 0) && !Says(t, 1) && Says(t, 2)
  {
    var t := Example();
    assert TableOk(t);
    assert [10][1..] == [] && [97][1..] == [] && [97, 97][1..] == [97] && [97, 98][1..] == [98] && [98][1..] == [];
    assert Run(t, 1, [97]) == Run(t, F, []) && Run(t, 1, [98]) == Run(t, 2, []);
  }

  /** On the file aab the lexeme ab is dropped with the first two characters, although no state is
      mistaken for another. */
  lemma AabIsMissed()
    ensures var t, text := Example(), [NEWLINE] + [97, 97, 98];
      && TableOk(t) && IsWord(text) && Started(t, text, 1) && Dropped(t, text, 1, 2) && AcceptsAt(t, text, 2, 4)
      && !NeverMisses(t) && !MissFree(t) && !Says(t, 0)
  {
    ExampleRuns();
    var t, file := Example(), [97, 97, 98];
    var text := [NEWLINE] + file;
    assert IsWord(file) && IsWord(text);
    hide Example, Run;
    assert text[0..0] == [] && text[0..1] == [10] && text[1..1] == [] && text[1..2] == [97] && text[1..3] == [97, 97];
    assert text[2..4] == [97, 98];
    ExampleSilent(t, text, 0, 1);
    ExampleSilent(t, text, 1, 3);
    assert StartedWith(t, text, 0, {});
    assert Link(t, text, 0, {}, 1, {});
    StartedBy(t, text, 0, {}, 1, {});
    MissesExactly(t);
  }

  /** A run that fails at `j`, before anything has been accepted, leads to no action. */
  lemma ExampleSilent(t: Table, text: seq<int>, i: nat, j: nat)
    requires TableOk(t) && IsWord(text) && i < j <= |text| && Run(t, 0, text[i..j]) == F
    requires forall k | i < k < j :: !Says(t, Run(t, 0, text[i..k]))
    ensures NoAction(t, text, i)
  {
    hide Run;
    forall k | 0 <= k <= |text| ensures !AcceptsAt(t, text, i, k) {
      if j <= k { NoMore(t, text, i, j, k); }
    }
  }
}
