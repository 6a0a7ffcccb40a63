# NFA → DFA converter, modelled in Dafny

This project models the conversion core of a small dashboard that turns an
ε-NFA into a DFA and then minimises that DFA. The model covers:

- **core.py.**
  - `epsilon_closure_of`: a stack-based traversal of the empty moves.
  - `remove_epsilon`: the ε-free NFA and its accepting states.
  - `nfa_to_dfa`: the subset construction, with a worklist and a dead state added only when needed.
  - `minimize_dfa`: Moore-style partition refinement, block labels and the quotient automaton.
  - `parse_list`.
- **NFA_DFA.py.**
  - Reading an NFA from an uploaded table.
  - Reading an NFA from the manual form.
  - The `elif` validation chain.
  - The dashboard's own copies of the two LaTeX table builders.
- **latex.py.** The two LaTeX table builders.
- **utils.py.** `parse_list`.

Each loop of the source is a `method` with a `while` or `for` loop, proved
against a specification function or predicate. The specifications are:

- `EpsClosure`, reachability by empty-move paths.
- `NoEpsMove`, which is close, step, close.
- `DMove`, the subset move.
- `Key`, `SplitsBy` and `Stable` for the block signatures.
- `NfaTable` and `DfaTable` for the LaTeX text.

On top of these, the project proves laws about the specifications:

- closure laws;
- partition invariants;
- round trips of the comma-list parser;
- that each of the three stages keeps the language of the automaton (`EAccepts`, `NAccepts`, `DAccepts`, `MAccepts`);
- that the whole validated pipeline keeps the language.

Modules, one per file:

- `Strings` (strings.dfy): Python's `strip`, `split`, `join`, `replace`, `in` and `sorted` on strings, and `parse_list`.
- `Automata` (automata.dfy): states, symbols, relations, empty-move reachability, and `DState = Subset(..) | Dead`.
- `EpsilonClosure` (closure.dfy): `epsilon_closure_of` and the closure laws.
- `EpsilonRemoval` (removal.dfy): `remove_epsilon`.
- `SubsetConstruction` (subset.dfy): `nfa_to_dfa`.
- `Minimization` (minimize.dfy): `minimize_dfa`.
- `Languages` (language.dfy): acceptance on each automaton, and the proofs that each stage keeps the language.
- `Input` (input.dfy): upload parsing, manual-form parsing and validation.
- `Pipeline` (pipeline.dfy): validate, then convert; the ε symbol of the manual form.
- `LatexFrame` (frame.dfy): the common frame of every LaTeX table.
- `LatexTables` (latex.dfy): latex.py.
- `UiLatex` (ui_latex.dfy): the LaTeX builders of NFA_DFA.py:88-147.

Modelling choices:

- The empty-move symbol is a parameter `eps`. Two constants are fixed:
  - `Automata.Epsilon` is the `"ε"` that core.py tests for.
  - `Input.UiEpsilon` is the symbol the manual form offers, exactly as NFA_DFA.py:196 spells it.
- The dead state `frozenset({"q_D"})` is the constructor `DState.Dead`, so it cannot collide with a subset of NFA states.
- A partition is a `seq<set<DState>>`, and a minimised state is the index of its block. The label the source gives a block is computed next to it (`labels[i] == GroupLabel(blocks[i])`).
- Minimality is stated as the Myhill-Nerode property: two states share a block exactly when they accept the same words (`Minimization.KeepsEquivalent`, `Languages.MergedIffEquivalent`). It is proved for a total DFA, one with a move on every symbol from every state. `nfa_to_dfa` always builds such a DFA (dead state included), so `Pipeline.Convert` states it without conditions.
- An uploaded row is a map from column name to `str()` of the cell.
- The manual form is a map from `(state, symbol)` to the text of its box. A box that is never filled reads as `""`.
- A DFA-table value (`LatexFrame.Value`) is one of:
  - a `str`;
  - a `frozenset`;
  - a `set`;
  - a `set` holding one `frozenset`.
- `remove_epsilon` iterates over the alphabet as given, so it also builds moves on the ε symbol when that symbol is listed in the alphabet (core.py:30). The subset construction then drops ε itself (core.py:52).

## Model

| member | source | states |
|---|---|---|
| Strings.Strip | utils.py:9 | `x.strip()` has no leading or trailing whitespace and is no longer than `x` |
| Strings.StripSlice | utils.py:9 | `x.strip()` is the contiguous part of `x` that starts after its leading whitespace |
| Strings.StripSpaces | utils.py:9 | what `strip` drops on either side is whitespace |
| Strings.StripEmpty | utils.py:9 | `x.strip()` is empty exactly when `x` is all whitespace (the `if x.strip()` filter) |
| Strings.StripOfStripped | utils.py:9 | stripping text that is already stripped changes nothing |
| Strings.TrimLeftSpec | utils.py:9 | the left trim is a suffix, what it drops is whitespace, and it starts with a non-space |
| Strings.TrimRightSpec | utils.py:9 | the right trim is a prefix, what it drops is whitespace, and it ends with a non-space |
| Strings.SplitPieces | utils.py:9 | no piece of a split holds the separator |
| Strings.JoinSplit | utils.py:9 | `",".join(s.split(","))` is `s` |
| Strings.SplitJoin | utils.py:9 | `",".join(xs).split(",")` is `xs` when no item holds a comma |
| Strings.SplitAppend | utils.py:9 | a separator between `a` and `b` splits them independently |
| Strings.StripNonEmpty | utils.py:9 | the comprehension keeps only non-empty stripped items, never more than it is given |
| Strings.StripNonEmptyAppend | utils.py:9 | the comprehension keeps left-to-right order across a concatenation |
| Strings.ParseList | utils.py:8-9 | every item is non-empty, stripped and comma-free, and there are no more items than comma pieces |
| Strings.ParseListAppend | utils.py:8-9 | items keep their left-to-right order: `parse_list(a + "," + b) == parse_list(a) + parse_list(b)` |
| Strings.ParseListEmpty | utils.py:8-9 | the list is empty exactly when the input holds only whitespace and commas |
| Strings.SplitBlank | utils.py:9 | every piece is blank exactly when the text holds only whitespace and separators |
| Strings.ParseListOfJoin | utils.py:8-9 | comma-joining clean items and parsing them gives the items back |
| Strings.ParseListRoundTrip | utils.py:8-9 | `parse_list(",".join(parse_list(r))) == parse_list(r)` |
| Strings.StrippedFixed | utils.py:9 | the filter keeps a list of non-empty stripped items unchanged |
| Strings.Contains | NFA_DFA.py:176 | `p in s` holds exactly when `p` occurs in `s` at some position |
| Strings.ContainsChar | NFA_DFA.py:178 | `"*" in s` holds exactly when the character occurs |
| Strings.RemoveAll | NFA_DFA.py:175 | `s.replace(p, "")` is no longer than `s` and only holds characters of `s` |
| Strings.RemoveAllAbsent | NFA_DFA.py:175 | replacing a pattern that does not occur changes nothing |
| Strings.RemoveAllChar | NFA_DFA.py:175 | after `.replace("*", "")` no `*` is left |
| Strings.StrLeTotal | core.py:113 | string order, as `sorted` uses it, is total |
| Strings.StrLeAntisymmetric | core.py:113 | string order is antisymmetric |
| Strings.StrLeTransitive | core.py:113 | string order is transitive |
| Strings.Insert | core.py:119 | inserting into a sorted list keeps it sorted and adds exactly that item |
| Strings.SortSeq | core.py:119 | `sorted(xs)` is sorted and a permutation of `xs` |
| Strings.SortedUnique | core.py:119 | two sorted lists with the same items are equal, so `sorted` does not depend on visiting order |
| Strings.SortedElems | latex.py:19 | `sorted(s)` of a set lists each member once, in increasing order |
| Automata.Succ | core.py:16 | `enfa.get((s, a), set())` only yields destinations of the relation |
| Automata.EpsClosure | core.py:11-20 | the closure of `s` is exactly the states reachable from `s` by a path of empty moves |
| Automata.ReachableTrans | core.py:11-20 | empty-move reachability is transitive |
| Automata.ClosedHoldsReachable | core.py:11-20 | a set closed under empty moves holds everything reachable from its members |
| Automata.Without | core.py:52 | `[a for a in alphabet if a != eps]` keeps exactly the other symbols, and is shorter when `eps` occurs |
| Automata.WithoutSnoc | core.py:52 | filtering one more symbol appends it exactly when it is not `eps` |
| EpsilonClosure.EpsilonClosureOf | core.py:11-20 | the stack loop returns exactly the set of states reachable from `state` by empty moves, and it terminates |
| EpsilonClosure.ClosureCharacterized | core.py:11-20 | a closed set of reachable states that holds `s` is the closure of `s` |
| EpsilonClosure.ClosureHasState | core.py:13 | the closure holds the state itself |
| EpsilonClosure.ClosureClosed | core.py:16-19 | the closure is closed under empty moves |
| EpsilonClosure.ClosureLeast | core.py:11-20 | the closure lies inside every closed set that holds `s` |
| EpsilonClosure.ClosureTransitive | core.py:11-20 | for `t` in `closure(s)`, `closure(t)` is contained in `closure(s)` |
| EpsilonClosure.ClosureIdempotent | core.py:11-20 | closing a closure again changes nothing |
| EpsilonRemoval.StepFrom | core.py:31-33 | the `dests.update` loop yields the union of the `a`-moves of the given states |
| EpsilonRemoval.CloseAll | core.py:35-37 | the `closure_dests.update` loop yields the union of the closures of `dests` |
| EpsilonRemoval.ClosuresOf | core.py:24 | `closures` has exactly the listed states as keys, each mapped to its closure |
| EpsilonRemoval.MoveStep | core.py:38-39 | storing a move only when it is non-empty extends the stored moves by one symbol |
| EpsilonRemoval.AddMoves | core.py:30-39 | the inner loop adds the non-empty ε-free moves of one state, and no others |
| EpsilonRemoval.RemoveEpsilon | core.py:23-40 | `nfa_no_e[(s, a)]` is the closure of the `a`-successors of `closure(s)`, and is present exactly when non-empty; `s` is in `nfa_finals` exactly when `closure(s)` meets the accepting states |
| SubsetConstruction.DMove | core.py:56-66 | the move of a subset is the union of its members' moves, or the dead state when that union is empty |
| SubsetConstruction.Expand | core.py:55-67 | the inner loop records the move of `S` on every symbol and appends each new non-empty subset once to `dfa_states` and to the worklist; the dead flag is raised exactly when one of these moves is empty |
| SubsetConstruction.ExploredStep | core.py:53-67 | one round moves the popped subset from the worklist to the explored subsets, and every recorded move is the subset move into a listed state |
| SubsetConstruction.RoundKeeps | core.py:53-67 | one round keeps the worklist invariant; it either discovers a new subset or shrinks the worklist, so the loop ends |
| SubsetConstruction.Round | core.py:53-67 | popping and expanding the last unmarked subset keeps the worklist invariant |
| SubsetConstruction.Explore | core.py:44-67 | the worklist loop starts from `{start}`, lists subsets without repeats, and records the move of every listed subset on every symbol |
| SubsetConstruction.GrowthStep | core.py:61-63 | appended subsets are new, so fewer subsets of the finite universe stay undiscovered |
| SubsetConstruction.AddDead | core.py:69-72 | the dead state is appended last and loops on every symbol; no other move changes |
| SubsetConstruction.FinalsOf | core.py:73-75 | `S` is accepting exactly when it holds an accepting NFA state |
| SubsetConstruction.DeadNeeded | core.py:65-67 | the dead flag is raised exactly when some explored subset has an empty move |
| SubsetConstruction.DeadAppended | core.py:69-72 | with the dead state appended, every listed state has exactly one move on every non-ε symbol, into a listed state |
| SubsetConstruction.NfaToDfa | core.py:43-76 | the result starts with `{start}`, has no repeats, and is total on the non-ε symbols with every target listed; the dead state is present exactly when some union was empty, and then comes last; an alphabet of only ε gives `[{start}]`; finals are the subsets meeting the NFA finals |
| Minimization.PartitionSize | core.py:95-108 | a partition into non-empty disjoint blocks has no more blocks than states, which bounds the number of rounds |
| Minimization.BlockOf | core.py:89-93 | `get_partition` finds a block exactly when the state is in one, and the state is in the block it finds |
| Minimization.BlockOfUnique | core.py:89-93 | in a disjoint partition the block found is the only one holding the state |
| Minimization.GetPartition | core.py:89-93 | the loop returns the index of the first block holding the target, and `None` for a missing move or a target in no block |
| Minimization.Key | core.py:101 | the signature has one entry per symbol |
| Minimization.KeyOf | core.py:101 | the loop computes the signature from the block indices at the start of the round, with `None` for a missing move |
| Minimization.FileOne | core.py:102 | `splitter.setdefault(key, set()).add(s)` files `s` under its own signature, in first-seen order |
| Minimization.FiledSplits | core.py:99-105 | the filed blocks split the group exactly by signature |
| Minimization.SplitGroup | core.py:99-102 | the parts of a group are non-empty, disjoint, cover it, and hold exactly the states sharing a signature |
| Minimization.ExtendPartition | core.py:105-107 | appending the split of one block keeps a disjoint cover |
| Minimization.PassStep | core.py:98-107 | one more group keeps the pass invariant, and a group that does not split is appended unchanged |
| Minimization.RefineOnce | core.py:96-108 | one round keeps a disjoint cover and only splits blocks by signature; two states of one block with the same signature stay together; a round that changes something has more blocks, and one that changes nothing leaves every block stable |
| Minimization.ClassesStep | core.py:99-106 | filing one more block by signature keeps each signature class of the blocks seen so far inside one new block |
| Minimization.RefinesSeparates | core.py:84-88 | splitting never mixes accepting and non-accepting states |
| Minimization.InitialPartition | core.py:82-88 | the initial blocks, at most two, are a disjoint cover of the states that keeps accepting and non-accepting states apart; each block is the accepting states or the other states |
| Minimization.EquivalentFinal | core.py:82-88 | two states that accept the same words are both accepting or both not |
| Minimization.EquivalentMove | core.py:101 | on a total DFA, the moves of two equivalent states on one symbol lead to equivalent states |
| Minimization.EquivalentKey | core.py:101 | when no block separates equivalent states, equivalent states have the same signature |
| Minimization.InitialKeepsEquivalent | core.py:82-88 | the accepting / non-accepting split separates no equivalent states |
| Minimization.RoundKeepsEquivalent | core.py:96-108 | on a total DFA, a round of splitting by signature separates no equivalent states that were together |
| Minimization.Refine | core.py:94-108 | the `while changed` loop ends with a stable disjoint cover in which every block is wholly final or wholly non-final; on a total DFA no block separates two states that accept the same words |
| Minimization.LabelListRemove | core.py:119 | the labels of a group do not depend on the order its states are visited in |
| Minimization.LabelOf | core.py:115-119 | the loop computes the block label: a single state's own label, or `{`, the sorted labels joined by `,`, and `}` |
| Minimization.StateMapOf | core.py:115-121 | `state_map` maps exactly the states of the blocks, each to its own block |
| Minimization.StableMove | core.py:127-133 | in a stable partition two states of one block move on each symbol into the same block, or both have no move |
| Minimization.BlockMoves | core.py:128-133 | the moves of a block, taken from any representative, agree with those of every member |
| Minimization.MinTransitions | core.py:126-133 | `min_trans` has a move of block `i` on `a` exactly when the members of `i` do, and it leads to the block of their targets |
| Minimization.MinimizeDfa | core.py:79-134 | the ε-free alphabet; a stable disjoint cover separating finals; `labels[i]` is the source's name for block `i`; the start's block is the start; the accepting blocks are those made of finals; the moves are the block moves; on a total DFA, states that accept the same words share a block |
| Languages.ClosedMeetsFinals | core.py:27-29 | a closed set of states meets `nfa_finals` exactly when it meets the accepting states |
| Languages.StepNoE | core.py:30-39 | from a closed set, one ε-free step is one step of the ε-NFA followed by closing |
| Languages.NReachClosed | core.py:23-40 | from a closed set, the two automata reach the same states on every word |
| Languages.EmptyWordRemoval | core.py:27-29 | on the empty word, `s` accepts without ε exactly when its closure meets the accepting states |
| Languages.RemovalKeepsLanguage | core.py:23-40 | from a listed state, the ε-free NFA accepts a word over the alphabet exactly when the ε-NFA does |
| Languages.MembersMove | core.py:56-66 | one move of the subset automaton is one step of the NFA |
| Languages.SubsetRun | core.py:43-76 | from a listed subset, the DFA runs on every word over the non-ε symbols and ends in the subset the NFA reaches |
| Languages.SubsetKeepsLanguage | core.py:43-76 | the subset automaton accepts exactly the words the ε-free NFA accepts |
| Languages.QuotientRun | core.py:126-133 | the minimised automaton follows the DFA block by block |
| Languages.QuotientKeepsLanguage | core.py:79-134 | from the block of any DFA state, the minimised automaton accepts exactly the words the DFA accepts |
| Languages.MergedIffEquivalent | core.py:79-134 | when no block separates equivalent states, two states share a block exactly when they accept the same words (the Myhill-Nerode quotient) |
| Input.StateName | NFA_DFA.py:167 | a state name carries no `*`, and an unmarked cell is its own name |
| Input.ParseCell | NFA_DFA.py:181-184 | a cell gives an entry exactly when its trimmed text is not blank, the phi marker or `nan` in any case; its names are non-empty, trimmed and comma-free |
| Input.ParseCellOfJoin | NFA_DFA.py:181-184 | a comma list of clean names reads back as the set of those names |
| Input.LastTrue | NFA_DFA.py:176-177 | finds the last marked position, or reports that none is marked |
| Input.MarkedFinals | NFA_DFA.py:178-179 | the accepting names are exactly those of the rows marked `*`, at most one per row |
| Input.AddRow | NFA_DFA.py:180-184 | one row sets the move of its state on each symbol whose cell gives an entry, and changes nothing else |
| Input.ReadRows | NFA_DFA.py:173-184 | the loop ends with the last arrow-marked row as start, the `*` rows as finals, and each move from the last row that fills it |
| Input.ParseUpload | NFA_DFA.py:164-187 | a missing `State` column or an empty sheet is an error. Otherwise: the states are the rows' names in order; the alphabet is the other columns; start is the last arrow-marked row, or the first row when none (or an empty name) is marked; finals are the `*` rows in order; each move is the last row's cell |
| Input.BoxTargets | NFA_DFA.py:199 | a filled box gives trimmed, comma-free names |
| Input.BoxTargetsBlank | NFA_DFA.py:199 | the set holds the empty name exactly when some comma piece is blank, as after a trailing comma |
| Input.ReadBox | NFA_DFA.py:197-199 | a box with non-blank trimmed text stores its pieces; a blank one stores nothing |
| Input.AddBoxes | NFA_DFA.py:196-199 | the boxes of one state set exactly its filled moves on the given symbols |
| Input.ReadBoxes | NFA_DFA.py:195-199 | every filled box of a listed state and a symbol of the alphabet or ε becomes a move, and nothing else does |
| Input.ParseManual | NFA_DFA.py:188-199 | states, alphabet and finals come from `parse_list`, start is the trimmed text, and the moves are the filled boxes |
| Input.Validate | NFA_DFA.py:202-211 | there is no message exactly when the NFA is valid; each message is given exactly when its check is the first to fail |
| Input.BlankPieceRejected | NFA_DFA.py:199-207 | a filled box with a blank piece makes validation fail |
| Pipeline.DfaKeepsLanguage | NFA_DFA.py:214-215 | on a valid NFA, ε-removal followed by the subset construction keeps the language |
| Pipeline.Convert | NFA_DFA.py:214-221 | on a valid NFA, both the DFA and the minimised DFA accept exactly the words over the non-ε symbols that the ε-NFA accepts; two DFA states share a minimised state exactly when they accept the same words |
| Pipeline.Run | NFA_DFA.py:202-221 | the run stops exactly when the NFA is invalid, with the start message exactly when the start is not a state; otherwise the minimised DFA keeps the language under core.py's `"ε"` and merges exactly the equivalent DFA states |
| Pipeline.BoxOfOneState | NFA_DFA.py:197-199 | a box holding one plain name stands for that state alone |
| Pipeline.MisencodedEpsilonIgnored | NFA_DFA.py:196 | a move entered in the form's ε box makes the empty word accepted by the user's automaton but not by the one core.py reads |
| Pipeline.EpsilonBoxRead | core.py:16 | with the form offering core.py's own `"ε"`, the same box is an empty move and the empty word is accepted |
| LatexFrame.Columns | latex.py:9 | `"c\|" * n` is `n` copies of `c` each followed by `\|` |
| LatexFrame.TableEnds | latex.py:6-24 | every table begins with `\begin{table}[H]` and ends with `\end{table}` |
| LatexFrame.TableColumns | latex.py:9 | every table declares its column count |
| LatexFrame.TableCaption | latex.py:23 | every table holds its caption |
| LatexFrame.LineEnd | latex.py:20 | a line ends with its terminator, and a control-space terminator does not end with a row break |
| LatexTables.Head | latex.py:13-17 | the start state gets `$\rightarrow$ ` in front, then a final gets `*` in front, so a start-final state begins `*$\rightarrow$ ` |
| LatexTables.NfaRowText | latex.py:13-20 | one row line: the head, ` & `, the cells, and the row terminator |
| LatexTables.AppendNfaRows | latex.py:12-21 | the loop appends one row line per state, in order |
| LatexTables.NfaToLatex | latex.py:6-25 | the text is the frame, with `len(alphabet) + 1` columns, the header, one row per state and the caption |
| LatexTables.NfaCellReadsBack | latex.py:19 | an absent move prints an empty cell and a present one its sorted destinations; the upload parser reads either back as the same move |
| LatexTables.NfaRowsInOrder | latex.py:12-21 | there is exactly one row per state, in input order, headed by its name and markers |
| LatexTables.DfaCells | latex.py:42 | one cell per non-ε symbol |
| LatexTables.DfaRowText | latex.py:35-43 | computes the row line of a state that the table specification gives |
| LatexTables.AppendDfaRows | latex.py:34-44 | the loop appends one row line per state, in order |
| LatexTables.DfaToLatex | latex.py:27-48 | the text is the frame, with `len(alphabet) + 1` columns, the ε-free header, one row per state and the caption |
| LatexTables.DfaColumnsMatch | latex.py:30-33 | a line has as many cells as the tabular has columns exactly when the alphabet has no ε |
| LatexTables.NfaLinesLackBreak | latex.py:11-20 | as written, no line of the NFA table ends with a LaTeX row break |
| LatexTables.NfaLinesBreak | latex.py:11-20 | corrected, every line of the NFA table ends with a row break |
| LatexTables.DfaLinesLackBreak | latex.py:33-43 | as written, no line of the DFA table ends with a LaTeX row break |
| LatexTables.DfaLinesBreak | latex.py:33-43 | corrected, every line of the DFA table ends with a row break |
| UiLatex.Label | NFA_DFA.py:96-100 | the arrow glyph goes in front of the start state and `*` after a final one, around the name |
| UiLatex.NfaCell | NFA_DFA.py:103-107 | a move to no state prints `$\phi$` |
| UiLatex.NfaEntries | NFA_DFA.py:101-107 | the loop yields one cell per symbol, in order |
| UiLatex.NfaRowText | NFA_DFA.py:95-108 | one row line, ended by a LaTeX row break |
| UiLatex.AppendNfaRows | NFA_DFA.py:95-108 | the loop appends one row line per state, in order |
| UiLatex.NfaToLatex | NFA_DFA.py:88-113 | the text is the frame, the header with the form's ε typeset as `$\epsilon$`, one row per state and the caption |
| UiLatex.NfaCellAgrees | NFA_DFA.py:103-107 | a move that leads somewhere prints its sorted `,`-joined destinations (one destination bare), as latex.py does; one that leads nowhere prints `$\phi$` where latex.py leaves the cell empty |
| UiLatex.NfaLinesBreak | NFA_DFA.py:93-108 | every line of the dashboard's NFA table ends with a LaTeX row break |
| UiLatex.DestCell | NFA_DFA.py:133-141 | a missing or empty destination prints `$\phi$` |
| UiLatex.DfaEntries | NFA_DFA.py:129-141 | the loop yields one cell per symbol, skips the form's ε, and unwraps a set holding one frozenset |
| UiLatex.DfaRowText | NFA_DFA.py:123-142 | one row line: the `, `-joined sorted label with its markers, then the cells |
| UiLatex.AppendDfaRows | NFA_DFA.py:123-142 | the loop appends one row line per state, in order |
| UiLatex.DfaToLatex | NFA_DFA.py:115-147 | the text is the frame, the header without ε, one row per state and the caption |
| UiLatex.LabelDestinationScrambled | NFA_DFA.py:136-138 | as written, the destination string is iterated one character at a time, so a move to a state named by two or more characters prints a cell that is not that state's name |
| UiLatex.CorrectedDestNamesRow | NFA_DFA.py:133-139 | corrected, every destination cell is the row label of the state it leads to |
| UiLatex.EditionsAgreeOffStrings | NFA_DFA.py:133-141 | the two readings differ only on destinations that are strings |
| UiLatex.DfaRowsLackBreak | NFA_DFA.py:121-142 | as written, the header ends with a row break but no row does |
| UiLatex.DfaRowsBreak | NFA_DFA.py:121-142 | corrected, every row ends with a row break, as the header does |

## Left out

- Graphviz drawing (graph.py, NFA_DFA.py:12-85) is not part of this model: it only calls a foreign library.
- The Streamlit widgets are left out, because they are UI only. That covers page layout, `st.error`/`st.stop`, download buttons and the `st.dataframe` tables (NFA_DFA.py:150-161, 225-341). Stopping the run is the `Stopped` outcome of `Pipeline.Run`.
- `pd.read_excel`, `df_to_excel_bytes` and `BytesIO` are left out as file I/O. A sheet is given as its column names and its rows of `str()` cell texts.
- The text boxes of the manual form are a parameter map from `(state, symbol)` to the text typed. The I/O that fills it is left out.
- Minimization.MinimizeDfa requires the start, and every target of a move, to be a state or an accepting state. The source fails on a start that is not a state (`state_map[start_state]`, core.py:124). Its `state_map.get(dst, dst)` fallback for a target outside every block (core.py:133) is not modelled.
- Label collisions between blocks are not modelled: the minimised states are block indices, and `labels` gives the source's names. Collisions between a subset and the dead state `"q_D"` are not modelled either: the dead state is its own constructor.
- CPython's `repr` of a frozenset, used by `str()` in latex.py:42, is left out. It is a parameter `repr` of the latex.py DFA builder.
- Python's `str.lower()` is modelled on ASCII letters only (`Strings.IsNanText`), which is all the test against `"nan"` needs.
- The dictionary iteration order that decides the order of `splitter.values()` (core.py:105) is modelled as first-seen order of the keys. The order of `for s in group` over a set is modelled as an arbitrary choice.
- The order of `next(iter(group))` (core.py:117, 129) is an arbitrary member. The model proves that the result does not depend on which member is chosen.

## Findings

| source | as written | input that shows it | evidently intended | confidence | as-written member | corrected member |
|---|---|---|---|---|---|---|
| latex.py:11, 20, 33, 43 and NFA_DFA.py:142 | each line ends with `" \\ \\hline\n"`, which is a control space `\ `, not the row break `\\` | any table with a state, e.g. states `[q0]` | every header and row line ends with a LaTeX row break `\\`, as NFA_DFA.py:93, 108 and 121 write it | not executed | LatexTables.NfaLinesLackBreak, LatexTables.DfaLinesLackBreak, UiLatex.DfaRowsLackBreak | LatexTables.NfaLinesBreak, LatexTables.DfaLinesBreak, UiLatex.DfaRowsBreak |
| NFA_DFA.py:136-138 | a destination that is a string (every minimised state is one) is iterated character by character, sorted, and joined by `, ` | a move to the minimised state `"q1"` prints `1, q` | the destination cell names the state, as its row label does | not executed | UiLatex.LabelDestinationScrambled | UiLatex.CorrectedDestNamesRow |
| NFA_DFA.py:196 | the manual form files empty moves under a mis-encoded ε that core.py (core.py:16) does not read as the empty move | states `q0, q1`, finals `q1`, the box δ(q0, ε) holding `q1`: the empty word is accepted by the automaton entered but rejected by the conversion | the form offers core.py's `"ε"`, so the box is an empty move | not executed | Pipeline.MisencodedEpsilonIgnored | Pipeline.EpsilonBoxRead |
