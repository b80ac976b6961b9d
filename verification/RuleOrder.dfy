/** Which of several matching rules gives the action. The accepting node with the lowest number wins,
    and nodes are recycled: the order of the rules is kept exactly if their last nodes keep it. */
module RuleOrder {
  import opened Options
  import opened Nfa
  import opened Regex
  import opened Layouts
  import opened LayoutFacts
  import opened LexGen

  /** Both rules match the word. */
  ghost predicate Both(lines: seq<Line>, unix: bool, i: int, j: int, w: seq<int>) {
    RuleMatches(lines, unix, i, w) && RuleMatches(lines, unix, j, w)
  }

  ghost predicate OnlyThese(lines: seq<Line>, unix: bool, i: int, j: int, w: seq<int>) {
    Both(lines, unix, i, j, w) && forall k | RuleMatches(lines, unix, k, w) :: k == i || k == j
  }

  /** Rule `j` is the first in the input that matches the word. */
  ghost predicate First(lines: seq<Line>, unix: bool, w: seq<int>, j: int) {
    RuleMatches(lines, unix, j, w) && forall i | RuleMatches(lines, unix, i, w) :: j <= i
  }

  /** A rule is chosen for each word that some rule matches, and no two are. */
  lemma SomeChosen(lines: seq<Line>, unix: bool, w: seq<int>)
    requires Fits(lines, unix) && SomeRule(lines, unix, w)
    ensures exists j :: Chosen(lines, unix, w, j)
  {
    hide RuleMatches, Fits, EndOf;
    var j :| RuleMatches(lines, unix, j, w);
    RuleInRange(lines, unix, j, w);
    LeastEnd(lines, unix, w, j, |lines|);
  }

  /** Among the first `n` rules and rule `j` one has the lowest end. */
  lemma {:induction false} LeastEnd(lines: seq<Line>, unix: bool, w: seq<int>, j: nat, n: nat)
    requires Fits(lines, unix) && j < |lines| && RuleMatches(lines, unix, j, w) && n <= |lines|
    requires forall i: nat | n <= i < |lines| && RuleMatches(lines, unix, i, w) ::
      EndOf(lines, unix, j) <= EndOf(lines, unix, i)
    ensures exists j' :: Chosen(lines, unix, w, j')
    decreases n
  {
    hide RuleMatches, Fits, EndOf;
    if n == 0 {
      assert Chosen(lines, unix, w, j);
    } else if RuleMatches(lines, unix, n - 1, w) && EndOf(lines, unix, n - 1) < EndOf(lines, unix, j) {
      LeastEnd(lines, unix, w, n - 1, n - 1);
    } else {
      LeastEnd(lines, unix, w, j, n - 1);
    }
  }

  lemma OneChosen(lines: seq<Line>, unix: bool, w: seq<int>, i: int, j: int)
    requires Chosen(lines, unix, w, i) && Chosen(lines, unix, w, j)
    ensures i == j
  {
    hide Fits, EndOf, Matches, ParseRule;
    if i < j {
      EndsDiffer(lines, unix, i, j);
    } else if j < i {
      EndsDiffer(lines, unix, j, i);
    }
  }

  /** Of two rules that match, the one with the lower end wins over the other. */
  lemma LowerEndWins(lines: seq<Line>, unix: bool, i: nat, j: nat, w: seq<int>)
    requires Fits(lines, unix) && i < |lines| && j < |lines| && Both(lines, unix, i, j, w)
    requires EndOf(lines, unix, i) < EndOf(lines, unix, j)
    ensures !Chosen(lines, unix, w, j)
    ensures OnlyThese(lines, unix, i, j, w) ==> Chosen(lines, unix, w, i)
  {
    hide RuleMatches, Fits, EndOf;
  }

  /** The earlier of two rules is chosen for every word that these two match exactly if there is no
      such word or its last node is the lower one. */
  lemma EarlierWins(lines: seq<Line>, unix: bool, i: nat, j: nat)
    requires Fits(lines, unix) && i < j < |lines|
    ensures (forall w | OnlyThese(lines, unix, i, j, w) :: Chosen(lines, unix, w, i)) <==>
      (forall w :: !OnlyThese(lines, unix, i, j, w)) || EndOf(lines, unix, i) < EndOf(lines, unix, j)
  {
    hide RuleMatches, Fits, EndOf, Chosen, OnlyThese;
    EndsDiffer(lines, unix, i, j);
    forall w | OnlyThese(lines, unix, i, j, w)
      ensures Chosen(lines, unix, w, i) <==> EndOf(lines, unix, i) < EndOf(lines, unix, j)
    {
      Turned(lines, unix, i, j, w);
      if EndOf(lines, unix, i) < EndOf(lines, unix, j) {
        LowerEndWins(lines, unix, i, j, w);
      } else {
        LowerEndWins(lines, unix, j, i, w);
      }
    }
  }

  lemma Turned(lines: seq<Line>, unix: bool, i: int, j: int, w: seq<int>)
    requires OnlyThese(lines, unix, i, j, w)
    ensures OnlyThese(lines, unix, j, i, w) && Both(lines, unix, i, j, w) && Both(lines, unix, j, i, w)
  {
    hide RuleMatches;
  }

  /** The first rule that matches is chosen, for all words. */
  ghost predicate OrderKept(lines: seq<Line>, unix: bool) {
    forall w, j | First(lines, unix, w, j) :: Chosen(lines, unix, w, j)
  }

  /** Rule `j` ends below the earlier rule `i`, and for `w` no rule before them stands above both. */
  ghost predicate Overtakes(lines: seq<Line>, unix: bool, i: nat, j: nat, w: seq<int>)
    requires Fits(lines, unix)
  {
    i < j < |lines| && EndOf(lines, unix, j) < EndOf(lines, unix, i) &&
    First(lines, unix, w, i) && RuleMatches(lines, unix, j, w)
  }

  /** The order of the rules is kept exactly if no rule ends below an earlier one that is the first to
      match a word of both. */
  lemma OrderExactly(lines: seq<Line>, unix: bool)
    requires Fits(lines, unix)
    ensures OrderKept(lines, unix) <==> forall i: nat, j: nat, w :: !Overtakes(lines, unix, i, j, w)
  {
    hide RuleMatches, Fits, EndOf;
    if OrderKept(lines, unix) {
      forall i: nat, j: nat, w ensures !Overtakes(lines, unix, i, j, w) {
        assert First(lines, unix, w, i) ==> Chosen(lines, unix, w, i);
      }
    }
    if !OrderKept(lines, unix) {
      var w, j :| First(lines, unix, w, j) && !Chosen(lines, unix, w, j);
      RuleInRange(lines, unix, j, w);
      var i: nat :| i < |lines| && RuleMatches(lines, unix, i, w) && EndOf(lines, unix, i) < EndOf(lines, unix, j);
      assert Overtakes(lines, unix, j, i, w);
    }
  }

  /** Each rule finds at most one spare node. */
  predicate FewSpare(lines: seq<Line>, unix: bool)
    requires Fits(lines, unix)
  {
    forall j | 0 < j < |lines| ::
      WellFormed(lines, unix, j) && LayRules(lines, unix, j).Left? && |LayRules(lines, unix, j).store.spare| <= 1
  }

  /** Then nothing is recycled for the end of a rule, and the order is kept. */
  lemma FewSpareKeepOrder(lines: seq<Line>, unix: bool)
    requires Fits(lines, unix) && FewSpare(lines, unix)
    ensures OrderKept(lines, unix)
  {
    hide RuleMatches, Fits, EndOf, LayRules;
    forall i: nat, j: nat, w ensures !Overtakes(lines, unix, i, j, w) {
      if Overtakes(lines, unix, i, j, w) { EndAbove(lines, unix, i, j); }
    }
    OrderExactly(lines, unix);
  }
}
