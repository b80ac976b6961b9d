/** What error recovery does to the configuration of the emitted LL parser. */
module LLRecovery {
  import opened Grammars
  import opened LLDriver
  import PairTable

  /** `sym` is on the list of synchronisation tokens, which its first entry that is not positive ends. */
  predicate Synchronises(list: seq<Symbol>, sym: Symbol) {
    exists i :: 0 <= i < |list| && list[i] == sym && forall j | 0 <= j <= i :: list[j] > 0
  }

  /** The token on top of the stack is not the next one, or the table has no entry. */
  predicate InError(t: Tables, c: Config)
    requires ValidConfig(t, c) && c.stack != []
  {
    var tos := c.stack[0];
    if IsAct(tos) then false
    else if 1 <= tos <= t.currTerm then c.input == [] || c.input[0] != tos
    else t.next[tos - MINNONTERM][c.Lookahead()] == 255
  }

  /** The `k`-th symbol of the stack is the first one to synchronise on. */
  predicate FirstSynch(t: Tables, c: Config, k: nat) {
    k < |c.stack| && Synchronises(t.synch, c.stack[k]) && forall j | 0 <= j < k :: !Synchronises(t.synch, c.stack[j])
  }

  /** Token `i` is the first one that is `tok`. */
  predicate FirstToken(input: seq<Symbol>, tok: Symbol, i: nat) {
    i < |input| && input[i] == tok && forall j | 0 <= j < i :: input[j] != tok
  }

  lemma {:induction false} SynchronisesIs(list: seq<Symbol>, sym: Symbol)
    ensures InSynch(list, sym) <==> Synchronises(list, sym)
  {
    if list != [] && list[0] > 0 && list[0] != sym {
      var rest := list[1..];
      SynchronisesIs(rest, sym);
      if i :| 0 <= i < |list| && list[i] == sym && forall j | 0 <= j <= i :: list[j] > 0 {
        assert rest[i - 1] == sym && forall j | 0 <= j <= i - 1 :: rest[j] == list[j + 1];
      }
      if i :| 0 <= i < |rest| && rest[i] == sym && forall j | 0 <= j <= i :: rest[j] > 0 {
        assert list[i + 1] == sym && forall j | 0 < j <= i + 1 :: list[j] == rest[j - 1];
      }
    }
  }

  /** Popping uncovers the first symbol to synchronise on. */
  lemma {:induction false} Popped(list: seq<Symbol>, stack: seq<Symbol>) returns (k: nat)
    ensures k <= |stack| && PopToSynch(list, stack) == stack[k..]
    ensures (forall j | 0 <= j < k :: !Synchronises(list, stack[j])) && (k < |stack| ==> Synchronises(list, stack[k]))
  {
    hide Synchronises, InSynch;
    k := 0;
    if stack != [] {
      SynchronisesIs(list, stack[0]);
      if !InSynch(list, stack[0]) {
        k := Popped(list, stack[1..]);
        forall j | 0 <= j < k + 1 ensures !Synchronises(list, stack[j]) {
          assert j > 0 ==> stack[j] == stack[1..][j - 1];
        }
        k := k + 1;
      }
    }
  }

  /** Skipping stops at the first such token. */
  lemma {:induction false} Skipped(input: seq<Symbol>, tok: Symbol) returns (i: nat)
    requires forall j | 0 <= j < |input| :: input[j] != EOI
    ensures i <= |input| && SkipTo(input, tok) == input[i..]
    ensures (forall j | 0 <= j < i :: input[j] != tok) && (i < |input| ==> input[i] == tok)
  {
    i := 0;
    if input != [] && input[0] != tok {
      i := Skipped(input[1..], tok);
      forall j | 0 <= j < i + 1 ensures input[j] != tok {
        assert j > 0 ==> input[j] == input[1..][j - 1];
      }
      i := i + 1;
    }
  }

  /** The parser goes on after an error. */
  ghost predicate Recovers(t: Tables, c: Config, c': Config, k: nat, i: nat) {
    && FirstSynch(t, c, k) && FirstToken(c.input, c.stack[k], i)
    && c' == Config(c.stack[k..], c.input[i..], c.consumed, c.errors + 1)
  }

  /** An error leaves the longest part of the stack with a synchronisation token on top, and the longest
      part of the input that begins with that token; nothing else changes but the count. The parser gives
      up exactly if there is no such part of the stack, or of the input, or the errors are too many. */
  lemma ErrorMove(t: Tables, act: Config -> int, depth: nat, c: Config)
    requires ValidConfig(t, c) && c.stack != [] && InError(t, c)
    ensures match Move(t, act, depth, c)
            case Running(c') => c.errors < YYMAXERR && exists k, i: nat :: Recovers(t, c, c', k, i)
            case Aborted =>
              || c.errors >= YYMAXERR || (forall k: nat :: !FirstSynch(t, c, k))
              || exists k: nat :: FirstSynch(t, c, k) && forall i: nat :: !FirstToken(c.input, c.stack[k], i)
            case _ => false
  {
    hide Synchronises, InSynch;
    var k := Popped(t.synch, c.stack);
    if c.errors < YYMAXERR && k < |c.stack| {
      assert FirstSynch(t, c, k) && c.stack[k..][0] == c.stack[k];
      var i := Skipped(c.input, c.stack[k]);
      if i < |c.input| {
        assert FirstToken(c.input, c.stack[k], i) && c.input[i..][0] == c.input[i] > 0;
        assert Recovers(t, c, Config(c.stack[k..], c.input[i..], c.consumed, c.errors + 1), k, i);
      } else {
        assert c.input[i..] == [];
      }
    }
  }

  /** It aborts for no other reason, and the next turn after a recovery matches a token. */
  lemma RecoveryExactly(t: Tables, act: Config -> int, depth: nat, c: Config, k: nat, i: nat)
    requires ValidConfig(t, c) && c.stack != [] && InError(t, c) && t.currTerm <= MAXTERM
    requires c.errors < YYMAXERR && FirstSynch(t, c, k) && FirstToken(c.input, c.stack[k], i)
    ensures var c' := Config(c.stack[k..], c.input[i..], c.consumed, c.errors + 1);
      && Move(t, act, depth, c) == Running(c') && ValidConfig(t, c')
      && Move(t, act, depth, c') ==
         Running(Config(c.stack[k + 1..], c.input[i + 1..], c.consumed + [c.stack[k]], c.errors + 1))
  {
    hide Synchronises, InSynch, PopToSynch, SkipTo;
    var k' := Popped(t.synch, c.stack);
    assert k' == k;
    var i' := Skipped(c.input, c.stack[k]);
    assert i' == i;
    assert c.stack[k..][0] == c.stack[k] && c.input[i..][0] == c.input[i] && 1 <= c.input[i] <= t.currTerm;
    assert c.stack[k..][1..] == c.stack[k + 1..] && c.input[i..][1..] == c.input[i + 1..];
  }

  /** In a run: two turns after such an error the parser is behind the token. */
  lemma RunRecovers(t: Tables, act: Config -> int, depth: nat, c: Config, k: nat, i: nat, fuel: nat)
    requires ValidConfig(t, c) && c.stack != [] && InError(t, c) && t.currTerm <= MAXTERM && fuel >= 2
    requires c.errors < YYMAXERR && FirstSynch(t, c, k) && FirstToken(c.input, c.stack[k], i)
    ensures var c2 := Config(c.stack[k + 1..], c.input[i + 1..], c.consumed + [c.stack[k]], c.errors + 1);
      ValidConfig(t, c2) && Run(t, act, depth, c, fuel) == Run(t, act, depth, c2, fuel - 2)
  {
    hide Move;
    RecoveryExactly(t, act, depth, c, k, i);
    var c1 := Config(c.stack[k..], c.input[i..], c.consumed, c.errors + 1);
    MoveValid(t, act, depth, c1);
  }
}
