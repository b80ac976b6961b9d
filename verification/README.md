# Compiler generators and collector: a verified model

The repository holds two compiler generators, LeX and LLAMA/OCCS, their support library, and a
copy of the Boehm collector. This project models their algorithms in Dafny, in the form the C code
has (loops over arrays, tables and linked nodes, objects whose methods change their fields), and
proves what those algorithms are for:

* **LLAMA** (`Grammars`, `Symbols`, `First`, `Follow`, `Select`, `LLTable`, `PairTable`, `LLDriver`,
  `Llama`, and the theorems in `FirstTheorems`, `FollowTheorems`, `LLTheorems`, `LLExact`,
  `LLForever`, `LLRecovery`). The FIRST and FOLLOW fixpoints end in the least sets closed under the code's rules and
  miss nothing that can be derived. A grammar without reported conflicts is LL(1) in the sense of its
  derivations; the converse holds for reduced grammars without false starts, and the sets are exact
  precisely for grammars without false starts. The compressed table decodes to the table. The emitted
  parser accepts only sentences of the grammar, and accepts every sentence of a grammar without
  conflicts without ever calling its error recovery. What recovery does to stack and input is stated
  exactly.
* **OCCS** (`LrItems`, `LrClosure`, `LrSort`, `LrList`, `LrKernel`, `LrStates`, `LrSteps`, `LrTurns`,
  `LrGroups`, `Lalr`, `LrTheorems`, `LrLimits`, `Reductions`, `Occs`, `RowSharing`, and the theorems in
  `LrForms`, `LrParser`, `LrProgram`). The worklist
  builder makes exactly the states of the canonical LR(1) automaton merged by kernel, with exactly one
  transition where the canonical automaton has one, and lookaheads that are exactly the merged
  canonical ones. The action table has an entry exactly where one of those states shifts or reduces.
  The builder gives up only for a limit that the canonical automaton of the grammar exceeds, and gets
  to its end only if no limit on sizes is exceeded. The items of the states are those that right
  sentential forms call for. A parser on the tables accepts nothing but sentences, and exactly the
  sentences of the grammar as it was written if no conflict is reported.
* **The input of both** (`Opts`, `Patch`, `PatchedGrammar`). Bracketed optional and repeated parts of
  a right-hand side, nested to any depth, mean what they say after they have become nonterminals. The
  patch that turns embedded actions into nonterminals keeps every nonterminal's language.
* **LeX** (`Nfa`, `Regex`, `Fragments`, `NfaRules`, `Layouts`, `LayoutFacts`, `Thompson`, `Closures`,
  `Tables`, `Subset`, `MinSteps`, `MinDfa`, `Minimal`, `NotMinimal`, `Lexer`, `LexGen`, `RuleOrder`,
  `RecycledEnd`, `Notation`, `LexRuns`, `LexInput`). Rules go through Thompson's construction with its destructive
  merging and recycling of nodes, the subset construction, the in-place partition refinement and the
  longest-match driver, which reads the printed tables and the sliding buffer. Every stage keeps the
  meaning on all words, and the stages compose, from the notation of the rules on: what is read back
  from any written rule, anchors, classes and operators included, means what was written. The automaton is a function of the rules: from it
  come the exact conditions under which the program gives up, the rule whose action a word gets, and
  when that is the first one in the file. The table is minimal exactly if the splits of the
  refinement are fair. The tables for which the driver never drops a lexeme in any run over any file
  are characterised by a finite graph that the table spans.
* **Data structures** (`Input`, `Unfinished`, `Bitsets`, `BitCounts`, `PairTable`, `SetFacts`). The
  sliding input buffer is a window on the text. The search tree with recycled nodes is a set from
  which the least member is taken, and the LALR(1) builder uses it. The growing arrays of words are
  finite sets, counted byte by byte.
* **The collector** (`MarkHeap`, `Marker`; `HeapIndex`, `FreeLists`, `HeapMoves`, `HeapStates`,
  `Allchblk`, `HeapWalks`). Marking is complete however often the mark stack overflows. The heap stays
  tiled, coalesced, listed and counted through every allocation, split, merge and extension. An
  allocation fails only if no block on the lists it may use serves, black-listed pages included.

Limits of the C code (`NFA_MAX`, `DFA_MAX`, `MAXCLOSE`, `MAXKERNEL`, `MAXEPSILON`, `MAXSTATE`,
`MAXUNFINISHED`, `MAXNONTERM`, `MAXPROD`, the parse stack, the mark stack) are results of the
operations, whose contracts say when they are met.

Where the code differs from the textbook or from its own comments, the model follows the code:

* A nonterminal A with the production A → B c gets EPSILON in FIRST(A) when B is nullable
  (`compiler/parser/first.c:83-93`). EPSILON is right everywhere exactly if no nonterminal that does
  not vanish has a production whose first symbol, actions apart, does
  (`LLExact.ExactlyWithoutFalseStarts`). For S → A | ε, A → B c, B → b | ε a conflict is reported
  although the grammar is LL(1) (`LLExact.ReportedThoughLL1`), and for A → B A, B → ε the parser
  never stops on the empty text (`LLForever.RunsForever`).
* After a failure the scanner skips through the character on which it failed, and its state 0 also
  stands for "nothing accepted yet". With the single rule ab the lexeme in aab is dropped
  (`LexRuns.AabIsMissed`). `LexRuns.MissesExactly` says for which tables nothing is ever dropped.
* Of several rules that match, the one whose last node has the lowest number gives the action. Nodes
  are recycled, so this need not be the first in the file, although `compiler/lex/terp.c:69-70` says
  so: of the rules x?(y?(z?(a))) and a the second wins on a (`RecycledEnd.LaterRuleWins`).
  `RuleOrder.OrderExactly` says for which rules the order is kept.
* The refinement of `compiler/lex/mindfa.c:102-159` uses group numbers that the split under way has
  given, and can separate states with the same row (`NotMinimal.ExampleUnfair`).
  `Minimal.Minimized` says exactly when the result is minimal.
* In the printed pair tables the index array names the last row even if nothing was printed for it
  (`PairTable.LinkedExactly`).
* Going back over a null character takes one off the line number, though reading it did not add one
  (`Input.Buffer.Pushback`). The program ends when the buffer has to be filled and the file is
  exhausted without that having been noticed: `Input.Buffer.Advance` says exactly when, and
  `Input.FullRead` that a file of 3072 characters is such a case. An empty file is another
  (`LexInput.BufferedScanner.Start`).
* `set.h` calls `_DIFFERENCE_OP` the members of one set that are not in the other, `set.c` computes
  the symmetric difference; the model follows `set.c` (`Bitsets.Result`).
* `patch` runs after the FIRST sets have been made, so the lookaheads come from the FIRST sets of the
  grammar as it was written (`Occs.DoFile`).

`dafny verify dfyconfig.toml` checks the whole project.

## Model

| member | source | states |
|---|---|---|
| Grammars.DerivesLeftmost | compiler/parser/llout.c:817-890 | a string derived in any order is also produced by leftmost moves (drop an action, match a terminal, expand the first nonterminal), the only moves a stack parser has |
| Grammars.LeftmostDerives | compiler/parser/llout.c:817-890 | conversely, what leftmost moves produce is derived in the usual sense |
| First.FirstRhs | compiler/parser/first.c:32-52 | adds FIRST of a right-hand side and says whether all of it is nullable |
| First.Pass | compiler/parser/first.c:64-101 | a pass that adds something brings the finite measure down; one that adds nothing has reached a closed family; no pass goes beyond the least one |
| First.ComputeFirst | compiler/parser/first.c:17-25 | the loop ends, with the least family of sets closed under the rules of the code |
| FirstTheorems.FirstIsComplete | compiler/parser/first.c:17-101 | if x derives a string whose first terminal, after actions only, is t, then t is in FIRST(x); if x derives the empty string, EPSILON is |
| FirstTheorems.LeftmostFirst | compiler/parser/first.c:32-52 | the next terminal of whatever a string produces is in the set of the string; a string that produces nothing is nullable |
| Follow.InitPosition | compiler/parser/llfollow.c:62-96 | one position of a right-hand side obeys the first FOLLOW rule afterwards; nothing beyond the least family has been added |
| Follow.CloseProduction | compiler/parser/llfollow.c:105-132 | one production obeys the second FOLLOW rule afterwards, scanning from its right end as far as symbols are nullable |
| Follow.ComputeFollow | compiler/parser/llfollow.c:22-45 | the loops end, with the least family closed under both rules, EPSILON removed |
| FollowTheorems.FollowIsComplete | compiler/parser/llfollow.c:22-141 | if the goal derives ... x t ..., with actions only between, t is in FOLLOW(x); if only actions follow x, end of input is |
| Select.LLSelect | compiler/parser/llselect.c:16-39 | every production has its SELECT set |
| Select.SelectIsComplete | compiler/parser/llselect.c:30-39 | if a parser with x and `rest` still to produce can go on with production p on some remaining input, the next token is in SELECT(p) |
| LLTable.EntryFound | compiler/parser/llcode.c:80-103 | the entry is the first production of the chain that the token selects, and -1 exactly if there is none |
| LLTable.FillRow | compiler/parser/llcode.c:80-103 | the row holds the production each token selects, all other rows are untouched, and an error is counted exactly if two productions of the nonterminal share a token |
| LLTable.MakeDtran | compiler/parser/llcode.c:154-213 | the whole table is right, and no conflict is counted exactly if the SELECT sets of each nonterminal are disjoint |
| LLTable.MakePushRow | compiler/parser/llcode.c:110-128 | the push list is the right-hand side back to front, ended by 0 |
| PairTable.RoundTrip | compiler/lib/syslib.c:441-567 | for every row with a transition, every threshold and every column, decoding the printed row gives the entry of the table |
| PairTable.PairsFind | compiler/lib/syslib.c:441-567 | searching the pairs of a row finds a column exactly if the row has a transition there, and then its value |
| PairTable.Pairs | compiler/lib/syslib.c:441-531 | rows without transitions are left out, the others are printed as pairs or as arrays depending on the threshold, and the index array names them |
| PairTable.LinkedExactly | compiler/lib/syslib.c:508-528 | every array that the index names has been printed exactly if the last row has a transition |
| PairTable.Next | compiler/lib/syslib.c:537-567 | the emitted yy_next on the emitted tables returns the byte of the table entry |
| LLDriver.MoveValid | compiler/parser/llout.c:817-890 | no turn of the parser leaves the configurations that its tables cover |
| LLDriver.Parser.PushAll | compiler/parser/llout.c:584-594 | a push list ends up on the stack in order, or the stack is full, exactly if it does not fit |
| LLDriver.Parser.Synch | compiler/parser/llout.c:754-785 | pops to a synchronisation token and skips input to it, or gives up, exactly as the specification of recovery says |
| LLRecovery.ErrorMove | compiler/parser/llout.c:754-785 | an error leaves the longest part of the stack that begins with a synchronisation token and the longest part of the input that begins with that token, one error more, and nothing else changed; it ends the parse only if there is no such part of stack or input or the errors are more than YYMAXERR |
| LLRecovery.RecoveryExactly | compiler/parser/llout.c:754-785 | conversely, if there are such parts and the errors are not too many the parser goes on with them, and its next turn matches the token |
| LLRecovery.RunRecovers | compiler/parser/llout.c:817-890 | two turns after such an error a run is behind the synchronisation token |
| LLDriver.Parser.Turn | compiler/parser/llout.c:817-890 | one turn of the loop on the array stack is one move of the parser's state machine |
| LLDriver.Parser.Parse | compiler/parser/llout.c:791-898 | the loop over the stack array and the compressed table computes the run of the state machine |
| LLTheorems.EntryMeaning | compiler/parser/llcode.c:80-103 | an entry of the table names a production of its row that the token selects |
| LLTheorems.RunSound | compiler/parser/llout.c:817-890 | along every run without errors, what has been consumed followed by the stack is derived from the start symbol, and no token is lost |
| LLTheorems.Soundness | compiler/parser/llout.c:817-890 | what the parser accepts without an error is a sentence of the grammar |
| LLTheorems.RightEntry | compiler/parser/llcode.c:80-103 | without conflicts the entry for the nonterminal on top is the production that the rest of a sentence needs |
| LLTheorems.RunComplete | compiler/parser/llout.c:822-890 | with the entries of a table without conflicts, a parser that can still produce its input in n moves empties its stack within n turns, with no new error |
| LLTheorems.Completeness | compiler/parser/llout.c:822-890 | for every sentence of a grammar without conflicts, the parser ends with an empty stack, the sentence consumed and no error, unless an action stops it or the stack is too shallow |
| LLExact.ExactlyWithoutFalseStarts | compiler/parser/first.c:83-93 | FIRST has EPSILON for exactly the nonterminals that derive the empty string, if and only if no production of any other nonterminal begins, after actions, with one of them |
| LLExact.FirstIsSound | compiler/parser/first.c:32-101 | in a reduced grammar without false starts, every token in FIRST of a string is the first of some text the string produces |
| LLExact.NoConflictIsLL1 | compiler/parser/llcode.c:80-103 | if no conflict is counted, one token of lookahead decides between any two productions of a nonterminal in every left-sentential form |
| LLExact.ClashUndecided | compiler/parser/llcode.c:92-100 | in a reduced grammar without false starts, two productions that share a token can both go on with texts that begin with the same token |
| LLExact.ConflictsExact | compiler/parser/llcode.c:80-103 | for reduced grammars without false starts, conflicts are counted exactly for those that are not LL(1) |
| LLExact.ReportedThoughLL1 | compiler/parser/first.c:83-93 | a usable LL(1) grammar for which a conflict is counted; it has a false start |
| LLForever.RunsForever | compiler/parser/llout.c:817-890 | for the grammar A: B A; B: ; the parser on the empty text is still running after any number of turns, and the text is not a sentence |
| Llama.Generate | compiler/parser/llcode.c:57-70 | all stages together give tables that the theorems speak of, with the synchronisation list that was given; if no conflict is reported the grammar is LL(1) in terms of its derivations, and for reduced grammars without false starts the converse holds as well |
| Grammars.LeftmostSplit | compiler/parser/acts.c:251-266 | what a concatenation produces falls into what its parts produce, move by move |
| Opts.ProducesConcat | compiler/parser/acts.c:251-266 | a concatenation produces exactly the concatenations of what its parts produce |
| Opts.StarMeaning | compiler/parser/acts.c:251-266 | the nonterminal of a repeated group, left-recursive or right-recursive, produces exactly the repetitions of its body |
| Opts.Meaning | compiler/parser/acts.c:251-266 | a right-hand side with its groups turned into nonterminals, nested to any depth, produces exactly what was written |
| Opts.GroupSentences | compiler/parser/acts.c:251-266 | the sentences of the nonterminal that a group has become are exactly what the group stands for: nothing or the body, or any number of bodies |
| Opts.BecomesKept | compiler/parser/acts.c:267-295 | later productions of other nonterminals change nothing about groups that have been closed |
| Opts.Acts.StartOpt | compiler/parser/acts.c:267-277 | a new nonterminal on the stack, with an empty production and one for the body, all others untouched; it fails exactly if the stack, the nonterminals or the production numbers are used up |
| Opts.Acts.EndOpt | compiler/parser/acts.c:279-295 | the nonterminal gets the productions of its kind of group and takes the group's place outside, all others untouched; it fails exactly if one of the two right-hand sides is full |
| Opts.Acts.AddToRhs | compiler/parser/acts.c:201-245 | the current production gets one more symbol, exactly if there is room |
| Opts.RightSide | compiler/parser/parser.lma:111-119 | reading a right-hand side makes one that stands for what was written, now and in every later grammar that leaves the new nonterminals alone; it fails exactly if symbols, nesting, nonterminals or production numbers do not suffice |
| Patch.SameProducts | compiler/parser/yypatch.c:92-145 | strings that are the same but for actions and the nonterminals that replace them produce the same texts in corresponding grammars |
| Patch.Patcher.PatchRhs | compiler/parser/yypatch.c:107-143 | no action is left in the right-hand side, which is otherwise unchanged, and each new nonterminal has an empty production with a number of its own; all other symbols stay where they are; it fails exactly if the actions before the last symbol are more than the nonterminals left |
| Patch.Patcher.DoPatch | compiler/parser/yypatch.c:92-145 | all productions of the nonterminal are patched, those of other nonterminals are not touched; it fails exactly if their actions need more nonterminals than are left |
| PatchedGrammar.PatchAll | compiler/parser/yypatch.c:49-82 | the resulting grammar corresponds to the old one production by production, without actions; FIRST sets stay, the new nonterminals have EPSILON; it fails exactly if the grammar's actions need more nonterminals than there are |
| PatchedGrammar.PatchedPlain | compiler/parser/yypatch.c:92-145 | production numbers are still unique, all symbols are known, and no action is left |
| PatchedGrammar.SameLanguage | compiler/parser/yypatch.c:92-145 | every nonterminal of the old grammar has the same sentences as before |
| LrItems.LookOrigin | compiler/parser/yystate.c:567-640 | a lookahead of the closure comes from one kernel lookahead or is there whatever the kernel lookaheads are |
| LrClosure.Lookaheads | compiler/parser/yystate.c:599-606 | the lookaheads an item gives to the items it opens are those of the canonical construction with the same first_rhs |
| LrClosure.DoClose | compiler/parser/yystate.c:567-610 | afterwards every production that the item opens has an item with at least its lookaheads, all of them derived; "did something" means that the measure went down; it fails only if the closure opens more than `MAXCLOSE` items |
| LrClosure.Closure | compiler/parser/yystate.c:620-640 | the loop ends with every kernel and closure item served, and nothing that the canonical closure does not have; it fails only if the closure opens more than `MAXCLOSE` items |
| LrList.ClosureComplete | compiler/parser/yystate.c:620-640 | a list in which every item is served has all items and all lookaheads of the canonical closure |
| LrList.ListMade | compiler/parser/yystate.c:620-674 | closure and kclosure together list exactly the canonical closure, each item once; if the list is too long, so is the canonical closure |
| LrSort.SSort | compiler/lib/syslib.c:388-409 | Shell's sort with the item order leaves a sorted permutation |
| LrKernel.SortedList | compiler/parser/yystate.c:846-854 | the closed list, sorted by the symbol to the right of the dot, then by production and dot; it fails exactly if the canonical closure has more than `MAXCLOSE` items to list |
| LrKernel.SortedSame | compiler/parser/yystate.c:263-290 | kernels sorted strictly by production and dot are equal as sets exactly if they are equal item by item, which is what state_cmp compares |
| LrKernel.GroupKernel | compiler/parser/yystate.c:862-878 | the items with one symbol to the right of the dot, with their dots moved, are exactly the canonical successor on that symbol, lookaheads included |
| LrKernel.GroupOk | compiler/parser/yystate.c:874-878 | moving the dots keeps the kernel strictly sorted |
| Lalr.Builder.FindState | compiler/parser/yystate.c:241-290 | finds the state with the same kernel if there is one |
| Lalr.Builder.NewState | compiler/parser/yystate.c:359-401 | a new state is added exactly if no state has the kernel; it fails exactly if the kernel is too large, or new and there are `MAXSTATE` states, and then nothing has changed |
| Lalr.Builder.MergeLookaheads | compiler/parser/yystate.c:789-809 | the lookaheads of the kernel become the unions, and the result says exactly whether any has grown |
| Lalr.Builder.MoveEps | compiler/parser/yystate.c:504-529 | the epsilon items go to the state with all their lookaheads, old and new; it fails exactly if the canonical closure has more than `MAXEPSILON` of them |
| Lalr.Builder.AddUnfinished | compiler/parser/yystate.c:415-449 | one more member in the tree of unfinished states; it fails exactly if it is new and all nodes are in use |
| Lalr.Builder.GetUnfinished | compiler/parser/yystate.c:455-479 | takes the unfinished state with the least number out of the tree |
| Lalr.Builder.Turn | compiler/parser/yystate.c:837-916 | processing a state keeps the invariant: sound lookaheads, one transition per symbol, and every state finished or waiting; the measure goes down; it gives up only for a limit that the canonical automaton exceeds |
| Lalr.Builder.Lr | compiler/parser/yystate.c:815-919 | the loop ends; if it gives up, the canonical LR(1) automaton of the grammar exceeds the limit it names, and if it does not, every propagation has been absorbed and no limit on sizes is exceeded |
| LrTheorems.FollowsRepresents | compiler/parser/yystate.c:815-919 | reading any string leads from state 0 to a state with the kernel of the canonical LR(1) state after that string, and to none if there is none |
| LrTheorems.LookaheadsExact | compiler/parser/yystate.c:815-919 | the lookaheads of every kernel item and of every epsilon item are exactly the union over all canonical LR(1) states with that kernel |
| LrTheorems.StatesExact | compiler/parser/yystate.c:815-919 | every state merges some reachable canonical states, every one of those is merged into some state, and no two states share a kernel |
| LrTheorems.EdgesExact | compiler/parser/yystate.c:862-911 | each state has a transition on exactly the symbols that the canonical closure can move over, one each, to the state with that kernel, and never to state 0 |
| LrTheorems.SameKernelSameState | compiler/parser/yystate.c:241-290 | two states with the same set of kernel items are one |
| LrForms.FormHasItem | compiler/parser/yystate.c:567-640 | if the goal derives u A r by rightmost moves and r can produce z, the canonical state after u has every production of A with the first token of z, or end of input, as lookahead |
| LrForms.ItemsExact | compiler/parser/yystate.c:567-640 | an item has a lookahead in the canonical state after u if a right sentential form calls for it there; and only then, if the grammar is reduced and its FIRST sets have nothing that cannot come first |
| LrForms.ClosedComplete | compiler/parser/first.c:17-101 | the FIRST sets miss nothing that can really come first |
| LrParser.FormReduces | compiler/parser/yystate.c:815-919 | if the goal derives u A v by rightmost moves, v tokens, the LALR(1) state after u and a right-hand side of A has that complete item with the first token of v as lookahead |
| LrParser.FormFollows | compiler/parser/yystate.c:815-919 | and there is such a state |
| LrParser.ReducesForForm | compiler/parser/yystate.c:815-919 | conversely, in a reduced grammar whose FIRST sets have nothing that cannot come first, each lookahead of a complete item is called for by a right sentential form whose front leads to the state |
| LrParser.ReadsRest | compiler/parser/yystate.c:1302-1338 | with tables without conflicts, what is left of a production behind the dot is shifted and reduced if the input begins with a text that it produces and the lookahead is that of the item |
| LrParser.AcceptsSentences | compiler/parser/yystate.c:1302-1338 | a parser on tables without conflicts accepts every sentence of the goal |
| LrParser.AcceptsOnlySentences | compiler/parser/yystate.c:1302-1338 | what a parser on the tables accepts is a sentence of the goal that has been read to its end, whatever conflicts have been resolved |
| LrProgram.StillComplete | compiler/parser/main.c:241-287 | the FIRST sets of the grammar as it was written miss nothing in the patched one |
| LrProgram.StillTruthful | compiler/parser/main.c:241-287 | and have nothing wrong if they had nothing wrong before |
| LrProgram.ReportedExactly | compiler/parser/yystate.c:947-975 | if every conflict is to be said, none is counted exactly if no state has two things to do on a token |
| LrProgram.ProgramAccepts | compiler/parser/yystate.c:185-235 | the parser on the tables of a grammar without conflicts accepts exactly the sentences of the grammar as it was written |
| LrLimits.StatesExceed | compiler/parser/yystate.c:377-401 | a kernel that no state has, beside n states, means more than n different canonical kernels |
| LrLimits.EpsExceeds | compiler/parser/yystate.c:504-529 | more leading epsilon items than `MAXEPSILON` means that some canonical closure has more |
| LrLimits.NothingExceeded | compiler/parser/yystate.c:815-919 | when the builder has got to its end, no canonical kernel, closure or set of epsilon items is beyond its limit, and there are no more than `MAXSTATE` different kernels |
| Reductions.WithoutShift | compiler/parser/yystate.c:921-979 | where nothing is shifted, the reducing production with the least number is chosen, and an entry exists exactly if some item reduces |
| Reductions.WithShift | compiler/parser/yystate.c:921-979 | a shift stays unless some item's precedence wins; then the least production from the first winner on is chosen |
| Reductions.QuietExactly | compiler/parser/yystate.c:947-975 | while the items of a state are added, no conflict is counted exactly if there is nothing to choose between |
| Occs.ChosenByPrecedence | compiler/parser/yystate.c:957-966 | where a shift meets one reduction, the entry is the reduction if the production has the higher level, the shift if the token has it or one of them has none, and for equal levels the shift exactly for tokens that associate to the right |
| Reductions.AcceptOnly | compiler/parser/yystate.c:921-979 | the entry 0, accept, is made only by an item of production 0 |
| Reductions.ReduceOneItem | compiler/parser/yystate.c:921-979 | every lookahead of a complete item is resolved against what the table had, all other entries are kept; reduce/reduce and shift/reduce conflicts are counted exactly where there are some to report |
| Reductions.AddReductions | compiler/parser/yystate.c:986-1007 | the entries of a state are what all its kernel and epsilon items, one after the other, make of its shifts; no conflict is counted exactly if none is to be reported |
| Occs.MakeParseTables | compiler/parser/yystate.c:185-235 | a finished automaton and its action table; if there is none, the goal symbol has not exactly one production, or the canonical automaton exceeds the limit that is named |
| Occs.DoFile | compiler/parser/main.c:241-287 | FIRST sets, patch and tables in the order of the program: the tables are those of the patched grammar with the FIRST sets of the one that was written; if there are none, the actions are too many, there is not one start production, or the canonical automaton exceeds the limit that is named |
| Occs.ShiftIsEdge | compiler/parser/yystate.c:692-722 | a positive entry is a transition of the automaton, and a missing one says that there is none |
| Occs.ReducesExactly | compiler/parser/yystate.c:986-1007 | an item of the state reduces on a terminal exactly if a merged canonical state completes an item before it |
| Occs.ErrorExactly | compiler/parser/yystate.c:921-1017 | an entry is missing exactly if no merged canonical state moves over the terminal and none completes an item before it |
| RowSharing.MarkRedundant | compiler/parser/yystate.c:1348-1371 | duplicates name an earlier equal row, and the rows that stay differ from each other |
| RowSharing.PrintTab | compiler/parser/yystate.c:1348-1405 | through the index array every state finds a row equal to its own chain, and no row is printed twice |
| Unfinished.InsertedIs | compiler/parser/yystate.c:415-449 | insertion keeps the tree ordered, adds exactly the one key, and uses no node twice |
| Unfinished.LeastIs | compiler/parser/yystate.c:455-479 | the leftmost node has the least key, and the tree without it is ordered and has exactly the other keys |
| Unfinished.GraftLinked | compiler/parser/yystate.c:417-430 | storing through the pointer at the end of a search path changes the subtree there and nothing else |
| Unfinished.Hung | compiler/parser/yystate.c:432-445 | the pointers then form the tree with the new node, the free list is intact, and every used node is in exactly one of the two |
| Unfinished.TakenOut | compiler/parser/yystate.c:471-473 | the pointers then form the tree without its least node, which is the first free one |
| Unfinished.Tree.Add | compiler/parser/yystate.c:415-449 | the set gets one more member; it fails exactly if the member is new and all nodes are in the tree |
| Unfinished.Tree.Get | compiler/parser/yystate.c:455-479 | the least member is taken out, or the set is empty |
| Input.Buffer.Advance | compiler/lib/input.c:137-156 | the next character of the text, or its end; the marks stay where they are in the text; exactly when it reports the end, a lexeme that is too long, or ends the program |
| Input.Buffer.Flush | compiler/lib/input.c:184-221 | a flush that is not forced changes nothing about text, position and marks, and leaves more than the lookahead distance unread unless the file has been read; exactly when it is at the end, full or ends the program |
| Input.Buffer.Shift | compiler/lib/input.c:184-244 | moving the text and filling the buffer keeps the window on the text; it succeeds exactly if something is left to be read and there is room for a read |
| Input.FullRead | compiler/lib/input.c:184-244 | a file of exactly 3072 characters, read lexeme by lexeme, ends the program 16 characters before its end |
| Input.Buffer.FillBuf | compiler/lib/input.c:223-244 | as many characters as fit in multiples of the lexeme length, or what is left |
| Input.Buffer.Look | compiler/lib/input.c:246-251 | once something has been read, looking 1 to 16 characters ahead gives the true character, or EOF behind the end |
| Input.Buffer.Pushback | compiler/lib/input.c:253-266 | back by that many characters but not beyond the start of the lexeme, whose end follows; exactly how the line number changes |
| Input.Buffer.Lineno | compiler/lib/input.c:96-96 | for a text without null characters the line number is the number of newlines read |
| Input.Buffer.Text | compiler/lib/input.c:92-94 | the text between the marks |
| Input.Buffer.NewFile | compiler/lib/input.c:69-90 | a further file is a text of its own from its first character on, whatever has been read or marked in the one before |
| Input.Buffer.MoveStart | compiler/lib/input.c:118-122 | the start mark moves one character towards the end mark, and stays exactly if they are together |
| Input.Buffer.MoveBack | compiler/lib/input.c:124-128 | reading goes on at the end mark |
| Bitsets.OddBit | compiler/lib/set.c:208-239 | the word test of set_subset fails exactly if there is a bit that is missing |
| Bitsets.CombineIs | compiler/lib/set.c:248-286 | word operations, missing words counting as zero, are the set operations |
| Bitsets.BitSet.Enlarge | compiler/lib/set.c:69-88 | growing changes no membership |
| Bitsets.BitSet.Add | compiler/lib/set.c:90-96 | exactly one more member, however large it is |
| BitCounts.NBitsRight | compiler/lib/set.c:98-117 | each entry of the table is the number of bits of its byte |
| BitCounts.CountIsSize | compiler/lib/set.c:118-130 | the bits of all bytes of the array are as many as the set has members |
| BitCounts.NumEle | compiler/lib/set.c:98-130 | the loop over the bytes returns the size of the set, which is 0 exactly for the empty set |
| Bitsets.BitSet.SetOp | compiler/lib/set.c:248-286 | union, intersection, symmetric difference and assignment of sets of any widths |
| Bitsets.BitSet.Compare | compiler/lib/set.c:158-187 | zero exactly for sets with the same members, whatever their widths; otherwise the first differing word decides, for the set that alone has it |
| Bitsets.BitSet.Subset | compiler/lib/set.c:208-239 | true exactly for a subset, whatever the widths |
| Bitsets.Cursor.Next | compiler/lib/set.c:321-345 | the least member that has not been passed, or -1 |
| Bitsets.ListMembers | compiler/lib/set.c:353-369 | repeated calls list exactly the members, in ascending order |
| Fragments.Exit | compiler/lex/nfa.c:577-594 | a path leaves a fragment whose end has been changed only through that end |
| Fragments.Concatenate | compiler/lex/nfa.c:577-594 | copying the start of one fragment over the end of another gives a fragment of the concatenation, since no edge enters a start or leaves an end |
| Fragments.Alternate | compiler/lex/nfa.c:523-548 | two fragments joined in front and behind accept the union |
| Fragments.Close | compiler/lex/nfa.c:599-626 | a fragment with the edges of an operator accepts its repetitions: any number, at least one, or at most one |
| Thompson.Builder.New | compiler/lex/nfa.c:264-283 | a blank node that is not in use, recycled or fresh |
| Thompson.Builder.NoneLeft | compiler/lex/nfa.c:264-283 | there is none exactly if NFA_MAX - 1 nodes are in use |
| Thompson.Builder.Discard | compiler/lex/nfa.c:285-293 | the node is blank and may be used again, no other node changes; it fails exactly if the stack of such nodes is full |
| Thompson.Builder.InUse | compiler/lex/nfa.c:264-293 | the counter of states is the number of nodes in use |
| Thompson.Builder.AppendFactor | compiler/lex/nfa.c:577-594 | the next factor is merged into the fragment and its start is recycled; other fragments are untouched |
| Thompson.Builder.Expr | compiler/lex/nfa.c:523-548 | the fragment built accepts exactly the language of the expression that has been read, and nodes in use elsewhere are untouched; array, stack and end nodes are those that the layout of the expression gives; of what the grammar allows it rejects exactly what needs more nodes, or more recycled nodes, than there are |
| Thompson.Builder.CatExpr | compiler/lex/nfa.c:577-594 | the same for a concatenation |
| Thompson.Builder.Factor | compiler/lex/nfa.c:599-626 | the same for a factor with its operator |
| Thompson.Builder.Term | compiler/lex/nfa.c:664-716 | the same for a character, a class or a group |
| Thompson.Builder.DoDash | compiler/lex/nfa.c:628-656 | the set of a class is what the ranges between the brackets denote |
| Thompson.Builder.RuleOf | compiler/lex/nfa.c:464-504 | one rule with its anchors: its fragment accepts the language of the line, and its end has the action; of the rules that parse it rejects exactly those whose nodes or action do not fit |
| Thompson.Builder.NextRule | compiler/lex/nfa.c:436-454 | one more rule at the end of the chain, the rules before it as they were |
| Notation.ExprReads | compiler/lex/nfa.c:523-626 | an expression that is written with the operators and as few parentheses as its structure needs is read back with the same words |
| Notation.RuleReads | compiler/lex/nfa.c:464-504 | a rule is read back with its words, a line feed in front and a newline character behind where it is anchored, and with its anchors |
| Notation.ClassReads | compiler/lex/nfa.c:628-716 | a class is read as the characters that are listed, those between the ends of its ranges, or, if negated, all but these and newlines; an empty one as the blank and everything below it |
| Notation.TableDenotes | compiler/lex/dfa.c:159-204 | a table for a file of written rules accepts exactly the words that some rule stands for |
| Notation.OneCharacterRule | compiler/lex/terp.c:110-136 | a table for one rule with a single character, a dot or a class accepts exactly the characters that it is meant for |
| Notation.OneCharacterTokens | compiler/lex/nfa.c:664-716 | the tokens of such a rule, spelled out |
| Layouts.ActionFits | compiler/lex/nfa.c:380-416 | the text of an action lies behind its line number and in front of the next one, and the program gives up exactly if it would not lie within the memory |
| Layouts.SameAction | compiler/lex/nfa.c:380-416 | two rules have the same action exactly if each from the first to the second passes it on with a bar |
| Thompson.Builder.Thompson | compiler/lex/nfa.c:718-739 | the automaton is the one that the layout of the rules gives, each rule with the last node that it names; from node 0 an accepting node is reached exactly by the words of its rule; rules that all parse are rejected exactly if their nodes or actions do not fit, for the limit that is met first |
| LayoutFacts.LayMakes | compiler/lex/nfa.c:264-293 | the nodes at the ends of an expression were not in use before and are afterwards, what was in use stays in use, and no node below all spare and fresh ones is taken |
| LayoutFacts.EndsDiffer | compiler/lex/nfa.c:436-454 | no two rules end in the same node |
| LayoutFacts.EndAbove | compiler/lex/nfa.c:264-293 | a rule ends above an earlier one if the spare nodes that it finds are above that one's end, and so if the rules before it have left at most one spare node |
| RuleOrder.SomeChosen | compiler/lex/terp.c:69-72 | for each word that some rule matches, one of them has the lowest last node |
| RuleOrder.OneChosen | compiler/lex/terp.c:69-72 | it is the only one |
| RuleOrder.LowerEndWins | compiler/lex/terp.c:69-72 | of two rules that match, the one with the higher last node never gives the action |
| RuleOrder.EarlierWins | compiler/lex/terp.c:69-72 | the earlier of two rules gives the action for all words that just these two match, if and only if there are no such words or its last node is the lower one |
| RuleOrder.OrderExactly | compiler/lex/terp.c:69-72 | the first matching rule of the file gives the action for all words, if and only if no rule ends below an earlier one that is the first to match some word of both |
| RuleOrder.FewSpareKeepOrder | compiler/lex/nfa.c:264-293 | it does if each rule finds at most one spare node |
| RecycledEnd.EndsTurned | compiler/lex/nfa.c:264-293 | the rules x?(y?(z?(a))) and a end in the nodes 14 and 13 |
| RecycledEnd.LaterRuleWins | compiler/lex/terp.c:69-72 | both match a, and the second gives the action |
| NfaRules.ChainSound | compiler/lex/nfa.c:436-454 | an accepting node is reached along the chain only by a word of its own rule |
| NfaRules.ChainComplete | compiler/lex/nfa.c:436-454 | every word of every rule leads from the start to the end of that rule |
| Closures.EClosure | compiler/lex/terp.c:33-103 | exactly the nodes that the input reaches by epsilon edges, and the action of the lowest accepting one |
| Closures.Move | compiler/lex/terp.c:110-136 | exactly the nodes one edge on the character leads to |
| Subset.RunSet | compiler/lex/dfa.c:100-149 | on every word the table fails exactly where the node set is empty, and otherwise is in the state of the node set |
| Subset.Maker.MakeTrans | compiler/lex/dfa.c:100-149 | the worklist ends with all states marked, pairwise different, and a row for each; it gives up exactly if words lead the automaton to more than `DFA_MAX` different sets of nodes |
| Subset.FinishedSimulates | compiler/lex/dfa.c:100-204 | a finished table says about every word what the automaton says: failure, or the action of the lowest accepting node |
| Subset.Dfa | compiler/lex/dfa.c:159-204 | the table returned simulates the automaton, and some word leads to each of its rows; there is none exactly if the automaton has more than `DFA_MAX` different sets of nodes |
| MinDfa.RunQuotient | compiler/lex/mindfa.c:64-159 | the small table follows the large one group by group on every word |
| MinDfa.MergedAlike | compiler/lex/mindfa.c:102-159 | states that end up in one group behave alike on every word |
| MinDfa.GroupToSpare | compiler/lex/mindfa.c:102-159 | when a group has a member to split off there are fewer groups than states, so the array has room |
| MinDfa.Minimizer.InitGroups | compiler/lex/mindfa.c:33-62 | the states are partitioned by action, no group is empty, and the groups have the numbers that the specification of the steps gives |
| MinDfa.Minimizer.Split | compiler/lex/mindfa.c:120-152 | one turn of the for loop leaves a valid partition with the numbers that the specification of the steps gives; if no group is new nothing has changed, and the rows of the group go to the same groups |
| MinDfa.Minimizer.FixDtran | compiler/lex/mindfa.c:64-100 | the rows of the groups' first states, renumbered by group |
| MinDfa.Minimizer.Minimize | compiler/lex/mindfa.c:102-178 | it ends, and the smaller table fails and accepts as the larger one does; its rows are those of a stable partition with the numbers that the specification of the steps gives |
| Minimal.SplitExactly | compiler/lex/mindfa.c:120-152 | if groups keep equivalent states together, they still do after a split, if and only if no state that leaves because of a number given in this split has an equivalent one that stays |
| Minimal.NoEdgeInside | compiler/lex/mindfa.c:132-141 | a split of a group without edges from members to members is always fair in this sense |
| Minimal.GroupedExactly | compiler/lex/mindfa.c:102-159 | the groups at the end keep all equivalent states together if and only if all splits of the run are fair |
| Minimal.ReducedIs | compiler/lex/mindfa.c:64-100 | in the small table words tell any two states apart if and only if its groups keep equivalent states together |
| Minimal.ReducedSmallest | compiler/lex/mindfa.c:161-178 | a table without idle states in which words tell any two states apart is the smallest of its meaning |
| Minimal.SmallestReduced | compiler/lex/mindfa.c:161-178 | conversely, in a smallest table words tell any two states apart |
| Minimal.Minimized | compiler/lex/mindfa.c:165-178 | for every table: the result has the same meaning, and it has no equivalent states if and only if all splits are fair; for a table without idle states it is then, and only then, the smallest of this meaning |
| NotMinimal.ExampleUnfair | compiler/lex/mindfa.c:132-141 | a table of four states without idle ones, two of them equivalent, for which a split is not fair |
| Lexer.Scanner.Yylex | compiler/parser/lexyy.c:1414-1719 | on the printed table, each action is for the longest prefix that leads to an accepting state, and the position is restored to just after it; before it, passages are passed over, each through the first character on which the automaton fails, at whose start no action is taken |
| LexInput.BufferedScanner.Start | compiler/parser/lexyy.c:1424-1429 | the first read puts the newline in front of the file; it ends the program exactly for an empty file |
| LexInput.BufferedScanner.Yylex | compiler/parser/lexyy.c:1414-1719 | on the sliding buffer and the printed table the driver finds what it finds on the text itself; if it stops otherwise, there may be too few characters to look at and the text read for the lexeme leaves no room to move, or a read that was due near the end of the text found nothing; once the end of the file has been noticed it does not stop |
| LexRuns.MissesExactly | compiler/parser/lexyy.c:1432-1504 | in no run from the beginning of any file is a character dropped at which a lexeme begins, if and only if the finite graph of the table (the state of the driver, what it has noted, where earlier lexemes would lead by now, and a second run begun inside) has no reachable point where the second run has accepted and nothing is noted |
| LexRuns.NextAction | compiler/parser/lexyy.c:1414-1719 | one call in a run from the beginning of a file; if the table is free of such points no lexeme begins anywhere in what it passes over |
| LexRuns.AabIsMissed | compiler/parser/lexyy.c:1492-1500 | with the one rule ab, the lexeme in aab is dropped, although state 0 does not accept |
| LexGen.SaysRule | compiler/lex/nfa.c:436-454 | the automaton accepts a word exactly if a rule matches it, with the action of the matching rule whose last node is the lowest |
| LexGen.StagesCompose | compiler/lex/mindfa.c:165-178 | construction, simulation and minimisation together: the last table answers for the rules, with the action of the matching rule whose last node is the lowest |
| LexGen.FailsForGood | compiler/parser/lexyy.c:1432-1504 | once the table has failed no continuation is matched by any state |
| LexGen.Generate | compiler/lex/dfa.c:159-204 | from the lines of rules to a table that implements them on all words, minimal exactly if the splits are fair; there is a table if and only if all rules parse, their nodes and actions fit, and the automaton that they give has no more than `DFA_MAX` sets of nodes; a rule is reported only if one does not parse; each action comes with the anchor of a rule that has it |
| LexGen.AnchorPinned | compiler/lex/nfa.c:464-504 | if all rules with an action have the same anchor, the table has it |
| LexGen.Print | compiler/lex/lex.c:171-179 | the printed pair table decodes to the table; its arrays fit together exactly if the last row has a transition |
| LexGen.ScannerRight | compiler/parser/lexyy.c:1414-1719 | if no rule matches the empty word: a lexeme, before anchors are trimmed from it, is the longest that any rule matches at its start, with the action of the matching rule whose last node is the lowest; where no action is taken, no rule matches anything that begins there |
| LexGen.NothingMissed | compiler/parser/lexyy.c:1432-1504 | with a table free of missed lexemes, no rule matches anything that begins at a character dropped in a run from the beginning of a file |
| MarkHeap.ClosedContains | gc/gc-7.2/mark.c:1842-1853 | a set of objects that has the roots and is closed under pointers has everything that can be reached |
| Marker.Marker.PushObj | gc/gc-7.2/mark.c:585-602 | the object is covered, or the stack overflowed, entries were dropped and the state is invalid; nothing unreachable is stacked |
| Marker.Marker.MarkFrom | gc/gc-7.2/mark.c:618-902 | marking from the stack loses no pending object unless it overflows; without new marks the stack gets lighter |
| Marker.Marker.PushMarked | gc/gc-7.2/mark.c:1771-1819 | all marked objects of the block are covered, or the state is invalid |
| Marker.Marker.PushNextMarked | gc/gc-7.2/mark.c:1842-1853 | the blocks between the old and the new scan pointer are covered, or the state is invalid |
| Marker.Marker.PushNextMarkedUncollectable | gc/gc-7.2/mark.c:1890-1907 | the same for blocks of uncollectable objects |
| Marker.Marker.PushRoots | gc/gc-7.2/mark_rts.c:719-785 | everything the roots point to is marked or stacked, or the state is invalid; it aborts only if a root area finds the stack full, and not if there is an entry for every root |
| Marker.Marker.AllocMarkStack | gc/gc-7.2/mark.c:1235-1288 | the stack has the larger size if memory was found, the old one otherwise |
| Marker.Marker.ClearMarks | gc/gc-7.2/mark.c:227-233 | exactly the marks of uncollectable objects, with and without pointers, are left, and a full scan will follow |
| Marker.Marker.InitiateGC | gc/gc-7.2/mark.c:241-260 | a collection starts in the state that its marks call for, or aborts if one is under way |
| Marker.Marker.MarkSome | gc/gc-7.2/mark.c:309-430 | keeps the invariant of the state it is in; when it returns TRUE, exactly the objects that can be reached are marked, however many overflows there were; otherwise it has made progress, or a root area found the stack full |
| Marker.Marker.StoppedMark | gc/gc-7.2/alloc.c:580-682 | calling it until it returns TRUE ends, with exactly the reachable objects marked, and so everything that marked objects with pointers, uncollectable ones among them, point to; it aborts only if a collection is under way or a root area finds the stack full |
| Marker.StillValid | gc/gc-7.2/mark.c:585-602 | growing marks and stack keep the invariant of every state, and an overflow only leads to the invalid state |
| Marker.ScanValid | gc/gc-7.2/mark.c:309-430 | a scan step leaves everything marked below the new scan pointer covered |
| Marker.AllReached | gc/gc-7.2/mark.c:309-430 | with the roots pushed and the stack empty, the marked objects are exactly those that can be reached |
| HeapIndex.OneCovers | gc/gc-7.2/headers.c:258-306 | no page belongs to two blocks |
| HeapIndex.CountsLeadBack | gc/gc-7.2/headers.c:274-288 | from a page inside an allocated block the count leads to an earlier page of the same block |
| HeapIndex.FirstPageIs | gc/gc-7.2/headers.c:274-306 | from every page of an allocated block the counts lead to its first page |
| HeapWalks.NextUsedBlock | gc/gc-7.2/headers.c:338-372 | the first block in use at or after a page, or 0 if there is none |
| HeapWalks.ApplyToAllBlocks | gc/gc-7.2/headers.c:310-336 | the walk with its jumps by forwarding counts meets exactly the blocks in use, each once |
| HeapWalks.SameWalk | gc/gc-7.2/headers.c:338-372 | on the blocks in use in ascending order, as the marker has them, the search finds the block that the index gives |
| FreeLists.SameList | gc/gc-7.2/allchblk.c:98-105 | larger blocks are on later lists; below the threshold a list holds one size, and otherwise sizes less than FL_COMPRESSION apart, but for the last list |
| FreeLists.RemovedOk | gc/gc-7.2/allchblk.c:293-329 | unlinking a block leaves doubly linked lists of exactly the other blocks |
| FreeLists.AddedOk | gc/gc-7.2/allchblk.c:365-392 | linking a block in front leaves doubly linked lists with exactly one more block |
| FreeLists.ReplacedOk | gc/gc-7.2/allchblk.c:542-571 | a block put in the place of another takes over its links in both directions |
| HeapMoves.MergedTiled | gc/gc-7.2/allchblk.c:835-896 | two free neighbours written as one block tile the same heap |
| HeapMoves.SplitTiled | gc/gc-7.2/allchblk.c:542-571 | a free block written as two tiles the same heap, with the sizes adding up |
| HeapMoves.GrownTiled | gc/gc-7.2/alloc.c:1042-1099 | pages outside the heap, written as a free block, tile the larger heap |
| Allchblk.Heap.RemoveFromFl | gc/gc-7.2/allchblk.c:293-329 | exactly this block leaves its list, and the list's bytes and the total go down by its size |
| Allchblk.Heap.AddToFl | gc/gc-7.2/allchblk.c:365-392 | exactly this block joins the list for its size, and the counts go up by its size |
| Allchblk.Heap.PrevBlock | gc/gc-7.2/headers.c:374-403 | the last block that begins at or before a page, or 0 if there is none |
| Allchblk.Heap.FreeBlockEndingAt | gc/gc-7.2/allchblk.c:334-359 | the free block that ends there, or 0 exactly if there is none |
| Allchblk.Heap.InstallCounts | gc/gc-7.2/headers.c:274-288 | the pages inside the block say how far it is to its first page, up to the largest count; others are untouched |
| Allchblk.Heap.RemoveCounts | gc/gc-7.2/headers.c:300-306 | nothing is left inside the block; other pages are untouched |
| Allchblk.Heap.FreeHblk | gc/gc-7.2/allchblk.c:835-896 | the heap is valid again: tiled, no two adjacent blocks free, every free block on the list for its size, all sums true; other allocated blocks are untouched |
| Allchblk.FreeAllowed | gc/gc-7.2/allchblk.c:835-896 | every allocated block of a valid heap may be freed |
| Allchblk.Heap.GetFirstPart | gc/gc-7.2/allchblk.c:501-526 | the pages that are not needed become a free block on its list, and the free bytes go down by what is taken |
| Allchblk.Heap.SplitBlock | gc/gc-7.2/allchblk.c:542-571 | the second part takes the place of the block on its list and the first goes to the list for its size; no byte is lost |
| Allchblk.Heap.DropBlock | gc/gc-7.2/allchblk.c:760-790 | a block that is all black-listed leaves the free lists page by page; the heap stays valid |
| Allchblk.IsBlackListed | gc/gc-7.2/blacklst.c:228-254 | 0 exactly if the pages are clean; otherwise no page before the one returned is a clean place to begin |
| Allchblk.Heap.AllochblkNth | gc/gc-7.2/allchblk.c:652-826 | an allocated block in a valid heap with all other allocated blocks untouched: the first usable page of a free block of the list, where no object may begin on a page that is listed as such and no page that counts is black-listed, or the beginning of a block without such a page if the object and what is left over are very large; without dropping, the first block that serves or a better one behind it; it fails exactly if no block of the list serves, and only blocks that have been given up are gone |
| Allchblk.Heap.Allochblk | gc/gc-7.2/allchblk.c:587-640 | the same over all lists: a block of exactly the right size is taken if one serves, otherwise a part of a block from the first list up to the split limit that has one; it fails exactly if there is none; the pages are as many as the object needs |
| Allchblk.Heap.EnoughLargeBytesLeft | gc/gc-7.2/allchblk.c:66-88 | the last list from which on there are enough free bytes |
| Allchblk.Heap.AddToHeap | gc/gc-7.2/alloc.c:1042-1099 | the heap has exactly the new pages more, but for page 0 and the last one of the address space, and is valid |

## Left out

- LLDriver.Parser.Parse: a bound on the number of turns stands for the endless loop, because the loop need not end (LLForever.RunsForever); the theorems say from which bound on the outcome no longer changes.
- LLTheorems.Completeness: production numbers above 254 do not fit the one-byte table type and are excluded, as is a goal symbol other than the first nonterminal.
- LLTheorems.Soundness: the parser accepts as soon as its stack is empty and does not look whether all input has been read, so what is left of the input is part of the statement.
- FirstTheorems.FirstIsComplete: one direction for all grammars; LLExact says for which grammars the other holds.
- LrTheorems.LookaheadsExact: the lookaheads are compared with canonical LR(1) states built from the same first_rhs, which can be larger than the textbook ones; the goal symbol must be on no right-hand side.
- Lalr.Builder.Lr: that the tree of unfinished states is full is related to the canonical automaton in one direction only (it has more than MAXUNFINISHED kernels), since it depends on the order of the work.
- Lalr.Builder.FindState: the hash table is a search, as its order does not matter; items are values and their free list is not modelled.
- Lalr.Builder.MoveEps: when every item of a closed list is an epsilon item, the source reads one pointer past the list; the model stops there.
- LrParser.AcceptsSentences: the parser is the one that the comments in front of the printed tables describe, as its template is not part of the repository's C files; the start production has the number 0, as the first one that is read.
- RowSharing.PrintTab: the search through a printed row is that of the parser template, which is not part of the repository's C files.
- Patch.Patcher.PatchRhs: an action symbol stands in one place, as acts.c makes a new one for each action; the order of the symbol table afterwards is arbitrary.
- Opts.Acts.StartOpt: the source does not check its stack of eight entries; the model fails there. Names, forward references, precedence and %prec are left out.
- Input.Buffer.FillBuf: files are regular, so that a short read means the end; read errors, ii_term, ii_unput and ii_input are left out.
- Bitsets.BitSet.Compare: if both sets have the first word that differs, the result is the signed form of an unsigned difference, and its sign is not stated.
- Bitsets.Cursor.Next: for a set without members the source reads one word past its array before it looks at the bound.
- set_test, set_hash, set_invert and complemented sets: set_test does not do what its name says, and what the others do only matters for complemented sets.
- Thompson.Builder.Term: empty alternatives and groups, for which the source uses pointers it has not set, are rejected as malformed, as are an unterminated class and text between an expression and its action.
- Thompson.Builder.Factor: tokens come from a scanner that is not modelled, so macros and quoting are left out; warnings count as errors because the error routine ends the program.
- Subset.Dfa: words are over the characters 0 to 127.
- MinDfa.Minimizer.Minimize: anchors are not compared, as in the source, so the meaning that is kept and the number of states that is least are those of failures and actions.
- Lexer.Scanner.Yylex: yymore, the trimming of anchored lexemes and a further file from the end-of-file hook are left out; the text begins with the newline that ii_advance puts in front.
- LexInput.BufferedScanner.Yylex: it stops at a lexeme that is too long, where the source goes on after it has given up what it has read.
- Marker.Marker.MarkFrom: objects whose pointers are described by bitmaps, by procedures or one by one, the order of prefetching, and parallel and incremental marking are left out.
- Allchblk.Heap.AllochblkNth: which pages are black-listed, the split limit and the decision to give up large blocks are parameters; unmapping, header allocation that fails, address overflow and MAX_HEAP_SECTS are left out.
- HeapIndex.FirstPageIs: the two-level table of headers is one array indexed by page, in which a bottom index that does not exist is empty, and mark bits and descriptors are not part of the headers.
- The actions of the parsers are opaque: the value stack, debugging output and the action code are not modelled.
- The LR parser template, error recovery quality, debugging windows, printing, command lines, file search, and the rest of the collector (finalization, threads, dynamic loading, debug headers, platform code).
