# automata-programs in Dafny

This project models the four conversions of the automata-programs repository:

- **q1.py**: regular expression to NFA by Thompson's construction.
  - Insert the explicit concatenation operator `.`.
  - Convert to postfix with a shunting-yard pass.
  - Run a stack machine that combines NFA fragments.
  - Modules: `Regex` (regex.dfy) and `Thompson` (thompson.dfy).
- **q2.py**: NFA to DFA by the subset construction.
  - Every subset of the NFA states is built, listed by bit mask.
  - No epsilon closure is taken.
  - Module: `Subset` (subset.dfy).
- **q3.py**: DFA to regular expression by state elimination.
  - The DFA becomes a generalised NFA with a fresh start and a fresh final node.
  - Its states are ripped out one at a time.
  - Module: `Elimination` (elimination.dfy).
- **q4.py**: DFA minimisation.
  - Drop the states that cannot be reached from the start states.
  - Mark the distinguishable pairs (the Myhill-Nerode table).
  - Join the unmarked pairs in a list-based disjoint-set structure.
  - Rebuild the automaton over the classes.
  - Modules: `DisjointSet` (dsu.dfy), `Reach` (reach.dfy), `Marking` (marking.dfy) and `Minimize` (minimize.dfy).

`Common` (common.dfy) holds `Option`, `Result`, `Symbol` (a string) and the epsilon symbol `"$"`.

Objects that the source updates in place are classes: `Thompson.Nfa`, `Subset.Nfa` and `Subset.Dfa`, `Elimination.Dfa`, `DisjointSet.Dsu` and `Minimize.Dfa`. Each of their methods is proved against a function over values. Code that only computes a value is modelled as functions and lemmas. The source's loops are methods with loop invariants, with two exceptions in q3: `get_predecessors` and `get_successors` (q3.py:54-68) are the set comprehensions `Elimination.Predecessors` and `Elimination.Successors`, and the loops of `get_re` that fill `temp_trans` and `new_trans` (q3.py:120-132) are map comprehensions inside `Elimination.EliminateRound`.

Error paths are modelled:

| module | source error | model |
|---|---|---|
| Regex | a `)` with no open `(` (the source peeks at an empty stack) | `Failure(UnmatchedClose)` |
| Thompson | an operator that finds too few automata | `MissingOperand` |
| Thompson | a final stack that does not hold one automaton (the source's assert) | `NotOneAutomaton` |
| Marking, Minimize | a missing move read while marking (the source's `KeyError`) | `None` |

The main results:

- **q1.**
  - The dots are inserted exactly where the source inserts them.
  - The shunting-yard loops compute exactly a functional definition, `Postfix`.
  - It fails iff the parentheses are not well nested.
  - It keeps every operand in order and every operator.
  - Between parentheses the operator stack binds strictly more tightly towards the top. For any operands, `.` binds more tightly than `+`, equal operators associate to the left, and parentheses group.
  - The NFA has `2·operands + #'*' + #'+'` states.
- **q2.** The DFA's states are the powerset, with `[]` first, and with no duplicates when the NFA lists each state once. Its transition rows hold the union of the NFA moves, and its finals are the subsets that hold an NFA final.
- **q3.**
  - Each elimination keeps the table total over the remaining nodes.
  - It changes only predecessor/successor entries, and only to non-`ϕ` labels.
  - At the end only the start→final entry remains.
  - Balanced parentheses are preserved, so the result is well nested for q1's parser.
- **q4.**
  - The search lists states in the source's breadth-first order and keeps exactly the reachable ones.
  - Marking is sound: a marked pair accepts different words.
  - Marking is complete at its fixpoint: an unmarked pair accepts the same words.
  - The disjoint sets are exactly the language classes.
  - A class meets the final states iff all its states are final.
  - Each rebuilt transition sends every state of its source class into its target class. This holds for the states that have a move on the transition's letter, provided every transition's letter is among the DFA's letters.

## Model

| member | source | states |
|---|---|---|
| Regex.PrecedenceOf | q1.py:4-14 | precedence is 4 exactly for `*`, 3 for `.`, 2 for `+` and 1 otherwise |
| Regex.CheckConcat | q1.py:105-109 | a dot goes between c1 and c2 iff c1 can end an operand (alnum, `)`, `*`, `$`) and c2 can start one (alnum, `(`, `$`) |
| Regex.AddConcatenationOperator | q1.py:111-118 | the loop yields the dotted string: each character, then a dot where CheckConcat holds for it and its successor |
| Regex.DotPlacement | q1.py:111-118 | each input character sits at its place in the output and is followed by a dot exactly when CheckConcat holds |
| Regex.InsertedDotsRemoved | q1.py:111-118 | removing the dots from the output gives back a dot-free input (only dots are inserted) |
| Regex.DottedNesting | q1.py:111-118 | dot insertion changes neither depth nor well-nestedness |
| Regex.DottedCounts | q1.py:111-118 | the output differs from the input only by dots |
| Regex.WellNestedPrefixes | q1.py:126-131 | well nested iff no prefix closes more parentheses than it opens |
| Regex.NestedStep | q1.py:126-131 | `(` raises and `)` lowers the depth; a string stays well nested iff its depth stays non-negative |
| Regex.EmitOperand | q1.py:124-125 | emitting an operand keeps every character accounted for |
| Regex.PushOperator | q1.py:126-127 | pushing `(` or an operator keeps every character accounted for |
| Regex.PopToOutput | q1.py:129-130 | popping the stack to the output keeps every character accounted for |
| Regex.DropOpen | q1.py:131 | dropping the matching `(` for a `)` keeps every character accounted for |
| Regex.AccountedDepth | q1.py:128-131 | while every character is accounted for, no prefix has negative depth |
| Regex.TighterSplit | q1.py:133-135 | the operator loop stops at the first entry from the top that is `(` or binds more loosely than c; everything above it binds at least as tightly |
| Regex.OpenSplit | q1.py:129-131 | the `)` loop stops just above the nearest `(`; it finds none exactly when the stack holds no `(` |
| Regex.ShuntAllStuck | q1.py:128-131 | once a prefix fails at an unmatched `)`, the whole conversion fails |
| Regex.ShuntAccounted | q1.py:123-136 | one character succeeds iff the depth stays non-negative, and keeps every character accounted for |
| Regex.ShuntAllNested | q1.py:123-136 | the character loop runs to the end iff the input is well nested, and then every character is accounted for |
| Regex.PostfixFacts | q1.py:120-141 | the postfix form exists iff the input is well nested; it has no `)`, one `(` per unclosed `(`, every other character of the input, and the operands in input order |
| Regex.ShuntAllOrdered | q1.py:132-136 | between parentheses, the operator stack always binds strictly more tightly towards the top |
| Regex.ShuntPush | q1.py:132-136 | an operator that finds nothing binding at least as tightly is pushed and nothing is emitted |
| Regex.ShuntPopOne | q1.py:132-136 | an operator pops a top operator binding at least as tightly to the output, then is pushed |
| Regex.ShuntCloseOne | q1.py:128-131 | a `)` pops the operators above its `(` to the output and drops the `(` |
| Regex.PostfixConcatBeforeUnion | q1.py:120-141 | for any operands x, y, z, `x+y.z` converts to `xyz.+`: `.` binds more tightly than `+` |
| Regex.PostfixLeftAssociative | q1.py:120-141 | for any operands x, y, z, `x+y+z` converts to `xy+z+`: equal operators associate to the left |
| Regex.PostfixParenthesised | q1.py:120-141 | for any operands x, y, z, `(x+y).z` converts to `xy+z.`: parentheses override precedence |
| Regex.PostfixUnmatchedClose | q1.py:128-131 | for any operand x, `x)` has no postfix form |
| Regex.PopToOpen | q1.py:129-130 | pops to the output, in stack order, exactly the operators above the nearest `(` (OpenSplit), leaving the stack below them |
| Regex.PopTighter | q1.py:133-135 | pops to the output, in stack order, exactly the operators above TighterSplit, leaving the stack below them |
| Regex.ReadChar | q1.py:123-136 | one character turns output and stack into what Shunt gives, and reports false exactly when Shunt fails |
| Regex.Scan | q1.py:123-136 | the character loop ends with the output and stack of ShuntAll, and runs to the end exactly when ShuntAll succeeds |
| Regex.Flush | q1.py:138-139 | the final loop appends the stack to the output, top first |
| Regex.FlushedOutput | q1.py:138-141 | with the stack empty, the output has no `)`, one `(` per unclosed `(`, every other character of the input, and the operands in order |
| Regex.InfixToPostfix | q1.py:120-141 | returns exactly Postfix of the input, failing iff it is not well nested; the output has no `)`, one `(` per unclosed `(`, the same operators, and the operands in input order |
| Thompson.SingleWellFormed | q1.py:41-43 | a single-symbol NFA is well formed, with the one edge 0 -c-> 1 |
| Thompson.SingleState | q1.py:41-43 | builds a fresh NFA whose value is the two-state fragment |
| Thompson.Nfa.constructor | q1.py:19-24 | the object holds the given automaton |
| Thompson.StarFacts | q1.py:46-57 | star adds one state that is both start and final; old edges are kept and the new ones are epsilon |
| Thompson.ApplyStar | q1.py:46-57 | mutates the NFA in place into Star of its old value |
| Thompson.AppendEdgesFrom | q1.py:74-77 | appends one epsilon edge from src to each target |
| Thompson.ShiftInPlace | q1.py:62-66 | renumbers the second NFA's states by delta, in place |
| Thompson.UnionFacts | q1.py:60-78 | union has n1+n2+1 states, a new start, both finals, and no symbol edge beyond the operands' edges |
| Thompson.UnionLayout | q1.py:73-77 | union's edge list is nfa1's edges, then nfa2's shifted edges, then a '$' edge from the new state to each start state of nfa1 and then to each shifted start state of nfa2, in order |
| Thompson.ApplyUnion | q1.py:60-78 | shifts the second NFA in place and returns a fresh NFA equal to Union of the old values |
| Thompson.EdgesAcrossMembers | q1.py:95-97 | the added edges are exactly epsilon edges from a final of nfa1 to a start of nfa2 |
| Thompson.ConcatFacts | q1.py:81-98 | concatenation has n1+n2 states, nfa1's starts and shifted nfa2 finals, and links every final of nfa1 to every start of nfa2 |
| Thompson.ApplyConcatenation | q1.py:81-98 | shifts the second NFA in place and returns a fresh NFA equal to Concat of the old values |
| Thompson.StepFacts | q1.py:160-173 | one postfix character succeeds iff the stack is high enough, and keeps every fragment well formed |
| Thompson.StarTop | q1.py:163-165 | applies star to the top object and the stack's values follow Step |
| Thompson.CombineTop | q1.py:166-173 | pops two objects, pushes their union or concatenation, and the values follow Step |
| Thompson.StepStack | q1.py:160-173 | the object stack's values follow Step, and fail exactly when Step fails |
| Thompson.RunFacts | q1.py:159-173 | the stack machine succeeds iff the independent height count does; fragments are well formed; state count equals StateCost |
| Thompson.RunStuck | q1.py:164-173 | once a prefix lacks operands the whole run fails |
| Thompson.EvalFacts | q1.py:159-176 | one automaton iff the height is 1; MissingOperand iff the height count fails |
| Thompson.StateCostCount | q1.py:41-98 | the states built are two per operand plus one per `*` and `+` |
| Thompson.BuildFromPostfix | q1.py:159-176 | the object-level loop gives exactly Eval of the postfix form, including its errors |
| Thompson.CollectLetters | q1.py:146-150 | the letters are the operand characters of the regex, each once |
| Thompson.ReToNfa | q1.py:144-176 | fails with UnmatchedParenthesis iff the regex is not well nested; otherwise its postfix form is Postfix of the dotted regex and the result equals Eval of it; state count is 2·operands + #`*` + #`+` |
| Subset.MovesSpec | q2.py:13-20 | the move dict has key (f,l) iff some transition has it, and its set is exactly those transitions' targets |
| Subset.Nfa.constructor | q2.py:5-11 | fields are the input and move is built by MakeMovements, so the object is Valid (move matches the transition list) |
| Subset.Nfa.MakeMovements | q2.py:13-20 | move equals the union of targets per (state, letter) |
| Subset.SubsetMembers | q2.py:33-36 | the subset for mask idx holds exactly the states whose bit is set |
| Subset.SubsetOf | q2.py:33-36 | the loop builds the subset of bit mask idx, in state order |
| Subset.Powerset | q2.py:32-37 | there are 2^n subsets |
| Subset.EmptySubsetFirst | q2.py:32-37 | the first subset is the empty one |
| Subset.BitsDiffer | q2.py:35 | two different masks below 2^n differ in some bit below n |
| Subset.SubsetsDistinct | q2.py:32-37 | without duplicate NFA states, no subset is listed twice |
| Subset.Dfa.constructor | q2.py:23-28 | an empty DFA |
| Subset.Dfa.InitializeFromNfa | q2.py:30-40 | states become the powerset, letters are copied, and the one start state is the NFA's start list |
| Subset.DestSpec | q2.py:62-65 | a state is in the destination iff some state of the subset has a transition to it on ch |
| Subset.Destination | q2.py:62-65 | the loop computes the union of the moves of the subset on ch |
| Subset.RowsOf | q2.py:61-66 | one row per letter, in letter order |
| Subset.RowAt | q2.py:59-66 | row i·\|letters\|+k is (subset i, letter k, its destination) |
| Subset.RowsLength | q2.py:59-66 | there are \|subsets\|·\|letters\| rows |
| Subset.TransitionRows | q2.py:59-66 | the nested loop builds exactly the rows, subset-major |
| Subset.FinalSubsetsSpec | q2.py:69-74 | a subset is final iff it holds an NFA final state, and no final is listed twice |
| Subset.ContainsFinal | q2.py:71-74 | the inner loop with break finds whether the subset holds a final state |
| Subset.FinalStates | q2.py:69-74 | the loop keeps the final subsets in order |
| Subset.NfaToDfa | q2.py:52-75 | for an NFA whose move table matches its transitions, the DFA is the powerset, its rows are the unions of the moves of those transitions, and its finals are the subsets holding an NFA final |
| Elimination.Dfa.constructor | q3.py:5-11 | fields are the input and the table is empty |
| Elimination.LabelJoin | q3.py:21-25 | an edge label is ϕ iff no transition joins the two states, else the symbols joined by `+` in transition order |
| Elimination.LabelBalanced | q3.py:21-25 | labels built from balanced symbols are balanced |
| Elimination.PhiTable | q3.py:16-19 | a ϕ entry for every pair of states and nothing else |
| Elimination.AddSymbols | q3.py:21-25 | every state pair gets the Label of its transitions; keys are unchanged |
| Elimination.BuiltGnfa | q3.py:13-41 | the three stages of make_gnfa together give exactly the table Gnfa describes |
| Elimination.AddEnds | q3.py:27-41 | adds start→final ϕ, start→s and s→final entries, leaving the state pairs as they were |
| Elimination.KeysShape | q3.py:16-41 | the keys are exactly rows {start}∪states times columns states∪{final} |
| Elimination.Gnfa | q3.py:13-41 | the generalised NFA table is total over rows start∪states and columns states∪final |
| Elimination.GnfaFacts | q3.py:31-41 | start→final is ϕ; start→s is `$` iff s is a start state; s→final is `$` iff s is final |
| Elimination.GnfaBalanced | q3.py:13-41 | with balanced symbols every entry is balanced |
| Elimination.Dfa.MakeGnfa | q3.py:13-41 | the table built in place equals Gnfa of the fields |
| Elimination.NeighboursSpec | q3.py:54-68 | predecessors are the other rows with a non-ϕ entry into rip; successors the other columns with one out of rip; final is never a predecessor nor start a successor |
| Elimination.Brackets | q3.py:70-75 | the bracketed label is empty iff the label is ϕ |
| Elimination.BalancedWrap | q3.py:70-75 | bracketing a balanced label keeps it balanced |
| Elimination.ReducedFactors | q3.py:78-106 | the four cases are (r1)(r2)*(r3) with an optional star factor and an optional `+r4` |
| Elimination.ReducedFacts | q3.py:78-106 | the new label of a predecessor is never ϕ, and balanced labels give a balanced label |
| Elimination.Eliminate | q3.py:115-133 | ripping a state leaves the table total over the remaining rows and columns |
| Elimination.EliminateFacts | q3.py:119-133 | only predecessor×successor entries change, each to the reduced label, never ϕ; balance is kept |
| Elimination.EliminateRound | q3.py:115-133 | the round (temp table, then removal of rip's row and column) equals Eliminate |
| Elimination.EliminateAll | q3.py:115-133 | ripping the listed states leaves the table total over what remains |
| Elimination.EliminateStates | q3.py:115-133 | the loop over the states equals EliminateAll |
| Elimination.AllEliminated | q3.py:109-135 | after ripping every state only the start→final entry is left |
| Elimination.EliminateAllBalanced | q3.py:115-133 | ripping states keeps every entry balanced |
| Elimination.ResultBalanced | q3.py:109-135 | with balanced symbols the resulting regex has balanced parentheses, so it is well nested for q1's parser |
| Elimination.Dfa.GetRe | q3.py:109-135 | returns the only remaining entry, start→final, of the fully eliminated table |
| DisjointSet.Dsu.constructor | q4.py:7-8 | one singleton per distinct node, forming a partition of the nodes |
| DisjointSet.IndexFrom | q4.py:10-15 | the first set from i on holding x, or None when none does |
| DisjointSet.IndexOfSpec | q4.py:10-15 | found iff x is an element; the set found holds x and is its only set |
| DisjointSet.Dsu.GetIndex | q4.py:10-15 | the nested loop returns the index of the first set holding the item |
| DisjointSet.Dsu.Find | q4.py:17-21 | the set holding the item, or None |
| DisjointSet.Dsu.FindSet | q4.py:23-25 | the 1-based index of the item's set, or None |
| DisjointSet.Joined | q4.py:32-33 | appending set j to set i and deleting j leaves one set fewer |
| DisjointSet.JoinedPartition | q4.py:32-33 | the join keeps a partition |
| DisjointSet.JoinedElements | q4.py:32-33 | the join keeps the elements |
| DisjointSet.JoinSets | q4.py:27-33 | fails exactly when one item is present and the other is not |
| DisjointSet.JoinSetsFacts | q4.py:27-33 | with both items present, the result is a partition of the same elements with both in one set; no change if already together, else one set fewer |
| DisjointSet.JoinSetsTogether | q4.py:27-33 | a, b are together afterwards iff they were, or each was with x or with y |
| DisjointSet.Dsu.Join | q4.py:27-33 | the list is updated to JoinSets, or unchanged when it fails, and stays a partition |
| DisjointSet.Dsu.Get | q4.py:35-36 | returns the list of sets |
| DisjointSet.SameItemsSameSet | q4.py:138 | in a partition two sets with equal sorted contents are the same set |
| Reach.MovesSpec | q4.py:48-52 | the move dict has a key iff some transition has it, and maps it to the last such transition's target |
| Reach.MoveOrderSpec | q4.py:48-52 | the dict's key order lists each key once |
| Minimize.Dfa.constructor | q4.py:40-46 | fields are the input and the move dict is built |
| Minimize.Dfa.MakeMovements | q4.py:48-52 | move and its key order equal Moves and MoveOrder of the transitions |
| Reach.VisitOrderFacts | q4.py:69-72 | a visit lists every target of curr; each state it adds is new, one move from curr, and a target of the move table |
| Reach.Visit | q4.py:69-72 | the letter loop extends the search list to VisitOrder (unseen targets appended in letter order) and appends the same states to the queue |
| Reach.SearchFacts | q4.py:65-72 | visiting the rest of the list keeps the start states first, ends closed under the moves, and adds only new states reached by an edge from an earlier one |
| Reach.SearchOrderFacts | q4.py:65-72 | the whole search from the start states is closed under the moves and discovers each later state by an edge from an earlier one |
| Reach.Bfs | q4.py:65-72 | the queue loop gives exactly SearchOrder: start states first, then each visited state's unseen targets in queue order |
| Reach.BfsExact | q4.py:63-74 | a state is kept iff it is reachable from the start states |
| Reach.BfsNoNewDuplicates | q4.py:65-72 | the search lists no state twice beyond the start states' own duplicates |
| Reach.FilterSpec | q4.py:75 | a final state is kept iff it is reachable |
| Reach.FilterIn | q4.py:75 | the comprehension keeps the listed entries in order |
| Minimize.Dfa.RemoveUnreachable | q4.py:63-75 | states become SearchOrder of the start states, which are exactly the reachable ones; finals are filtered to them in their old order |
| Marking.PairsSpec | q4.py:82 | the pairs of a with a later entry |
| Marking.CombosSpec | q4.py:82 | the pairs are exactly (xs[a], xs[b]) with a < b |
| Marking.CombosCover | q4.py:82 | pair members are states; two different states form a pair in one order |
| Marking.InitialMarksSpec | q4.py:81-86 | a pair is marked at first iff exactly one state is final |
| Marking.InitialMarking | q4.py:81-86 | the loop computes the first marks |
| Marking.InitialSound | q4.py:81-86 | the first marks are told apart by the empty word |
| Marking.EquivalentTrans | q4.py:89-109 | language equivalence is reflexive, symmetric and transitive |
| Marking.Separate | q4.py:98-99 | a letter leading to a distinguishable pair makes the pair distinguishable |
| Marking.CheckPairSpec | q4.py:95-101 | marks iff some letter leads to a marked pair; passes iff every letter leads to an unmarked one; fails only on a missing move |
| Marking.Check | q4.py:95-101 | the letter loop with break computes CheckPair |
| Marking.PassGrows | q4.py:91-101 | a pass only appends new pairs |
| Marking.PassStable | q4.py:89-103 | after a pass that marks nothing, every pair is marked or passes its check |
| Marking.PassSound | q4.py:91-101 | a pass keeps the marks sound |
| Marking.PassProgress | q4.py:89-103 | a pass that marks something shrinks the unmarked pairs |
| Marking.PassStuck | q4.py:96-97 | a missing move in a prefix of a pass makes the pass fail |
| Marking.RunPass | q4.py:91-101 | the loop over pairs computes Pass |
| Marking.Propagate | q4.py:89-103 | the outer loop computes the fixpoint Fix |
| Marking.FixFacts | q4.py:89-103 | the fixpoint keeps earlier marks, is stable, and stays sound |
| Marking.FixMembers | q4.py:89-103 | marks are always pairs of states |
| Marking.PassTotal | q4.py:96-97 | with every move of the states defined, a pass does not fail |
| Marking.FixTotal | q4.py:96-97 | with every move of the states defined, marking does not fail |
| Marking.Agree | q4.py:89-103 | at a stable marking containing the first marks, unseparated states accept the same words |
| Marking.MarkingExact | q4.py:79-103 | on closed states, a pair is marked iff its states accept different words |
| Minimize.SingletonsEquivalent | q4.py:106 | singletons only put a state with itself |
| Minimize.JoinEquivalent | q4.py:107-109 | joining equivalent states keeps each set made of equivalent states |
| Minimize.JoinStep | q4.py:107-109 | one join keeps a partition of equivalent states, puts the pair together and separates nothing |
| Minimize.MergeComplete | q4.py:105-109 | sets of equivalent states that join every unmarked pair are the language classes |
| Minimize.Merge | q4.py:105-109 | the DSU loop yields a partition of the states whose sets are exactly the language classes |
| Minimize.ClassesMeetingSpec | q4.py:112-126 | a class is kept iff one of its states is listed |
| Minimize.SelectClasses | q4.py:112-126 | the loop with break keeps, in order, the classes meeting the list |
| Minimize.FinalClassesUniform | q4.py:120-126 | a class meets the final states iff all its states are final, and misses them iff none is |
| Minimize.ClassOf | q4.py:144-146 | dsu.find gives a class that holds the state |
| Minimize.AllListed | q4.py:144-146 | every kept state is in some class, so find never returns None |
| Minimize.RebuildUnique | q4.py:136-141 | no class gets two transitions on one letter |
| Minimize.RebuildLifted | q4.py:128-147 | every rebuilt transition is a move between kept states, lifted to their classes |
| Minimize.RebuildCovers | q4.py:128-147 | every move between kept states has a transition from its class on its letter |
| Minimize.RebuildTransitions | q4.py:128-147 | the loop (with its duplicate check) computes Rebuild |
| Minimize.ClassMovesAgree | q4.py:143-147 | states of one class move on a letter to states of one class |
| Minimize.TransitionsFollowClasses | q4.py:128-147 | when every transition's letter is among the letters, every state of a transition's source class that has a move on its letter lands in the target class |
| Minimize.MinimizeReachable | q4.py:79-149 | fails iff marking reads a missing move (never when every move is defined); else the classes, start, final and transitions as MinimalOf states |
| Minimize.Dfa.Minimize | q4.py:77-149 | removes unreachable states, then returns the minimised automaton over the language classes, or None on a missing move |

## Left out

- Input and output (JSON files, `sys.argv`, `get_dict`, `map_state`'s `'Q'+n` naming; q1.py:26-37, q1.py:178-200, q2.py:42-49, q2.py:78-98, q3.py:44-51, q3.py:137-159, q4.py:54-61, q4.py:152-173) is not modelled.
- `isalnum` is modelled for ASCII letters and digits only. Python also accepts other Unicode letters and digits.
- Thompson.ReToNfa: the letters are listed in first-occurrence order. The source uses `list(set(...))`, whose order is unspecified.
- Thompson.ReToNfa: the language of the built NFA is not proved equal to that of the regex. The model proves only the fragment structure, well-formedness and the state count.
- Regex.InfixToPostfix: an unmatched `(` is left on the stack, flushed into the postfix form and then ignored by the stack machine, as in the source. The model keeps that behaviour rather than rejecting the input.
- Subset.Destination: a destination is a set. The source's `list(to_states)` order is unspecified.
- Elimination: the source names its fresh nodes `'Q#'+str(n)`. The model uses distinct tags `GnfaStart` and `GnfaFinal`, so a state literally named that way does not collide. The empty row of the final node is not kept.
- Elimination: predecessors and successors are sets. The order of the source's loops over them cannot change the result, because each entry is written once from the old table.
- Elimination.EliminateRound: the loops of `get_re` that fill `temp_trans` and `new_trans` (q3.py:120-132), and the loops of `get_predecessors` and `get_successors` (q3.py:54-68, modelled by `Elimination.Predecessors` and `Elimination.Successors`), are map and set comprehensions, not loops. The model does not capture the order of their writes or the update of `temp_trans` in place. That order cannot change the result, because each entry is written once and is read only from the old table.
- Elimination.Dfa.GetRe: requires every transition endpoint to be a state and the state list to have no duplicates. With a bad endpoint or a repeated state the source raises `KeyError`, and the model does not follow that path.
- Elimination.Dfa.MakeGnfa: requires every transition endpoint to be a state. Otherwise the source raises `KeyError`.
- Elimination: `deepcopy` of the table is not modelled, because tables are values.
- DisjointSet.Dsu.constructor: the order of the singletons is left open, because the source builds them from `set(nodes)`.
- Marking: a missing move counts as a dead state in the language semantics (`Run` gives None).
- Minimize.Dfa.Minimize: the classes are returned as a `MinDfa` value. The source overwrites the object's fields with lists of lists, which would change their types. The object keeps the reachable states and the filtered final states.
- Minimize.Rebuild: the source's `sorted(a) == sorted(b)` is modelled as multiset equality, which holds exactly when the sorted lists are equal.
