# LL(1) parser generator and table-driven recogniser

This project models the core of `LL1Parser`, a small LL(1) parser generator in Python, and
proves properties of the model in Dafny. The class reads a grammar and classifies its
symbols into non-terminals and terminals. It computes FIRST and FOLLOW sets by fixed-point
iteration and fills the LL(1) parse table. It then recognises token sequences with a stack
machine driven by that table.

The model follows the shape of the Python class. `LL1.LL1Parser` is a Dafny class with the
same seven fields as the Python object. Its methods update those fields in place with the
same loops: one method per loop level where a single method would be too large for the
verifier. Each method is proved against specification functions in the other modules:

- `Symbols`: symbols as strings, with "ε" and "$" as the two reserved markers; Python's
  string order; sequence helpers.
- `Grammars`: ingesting grammar lines (`Merged`, `Heads`) and classifying symbols
  (`Classifies`).
- `FirstSets`: `FirstOfSeq`, the specification of `_compute_first_for_sequence`, and the
  least fixed point `IsLeastFirst` that `compute_first_sets` reaches.
- `FollowSets`: the two FOLLOW rules per occurrence and the least fixed point
  `IsLeastFollow`.
- `ParseTables`: which cells a production writes (`Targets`), which production a cell ends up
  holding (`LastWriter`), and how many conflict warnings a cell draws (`Overwrites` of
  `Writes`).
- `Driver`: one decision of the recogniser (`Decide`, `Successor`), a run of the loop as a
  function (`Run`), and the trace a run produces.
- `LL1`: the class itself.

The FIRST and FOLLOW loops are proved to terminate. Each measure is the set of
(non-terminal, symbol) pairs that could still be added, and every growing update removes at
least one pair. The result of each loop is proved to be the least closed assignment, and
that assignment is unique.

Two behaviours of the table fill matter for ambiguous grammars:

- A conflicting cell keeps the last production written into it (lines 154 and 160), not
  the first. `ParseTables.AmbiguousCell` works this out for `S -> a | a b`.
- A warning fires on every write into a filled cell (lines 152-153 and 157-158). That
  includes a second write by the same production through its FOLLOW loop.

`build_parse_table` starts from an empty table (line 138) and sets every (non-terminal,
terminal) cell to None (lines 141-143). Afterwards the table's keys are exactly that grid,
so no cell of an earlier table survives a rebuild.

## Model

| member | source | states |
|---|---|---|
| LL1.LL1Parser.constructor | LL1Parser.py:5-12 | a fresh parser has an empty grammar, no non-terminals, no terminals, empty sets and table, and no start symbol, and satisfies the object invariant |
| LL1.LL1Parser.ReadGrammar | LL1Parser.py:36-50 | the grammar is the old grammar with the lines merged in order; the head list is the old list extended by new heads; the result is true exactly when the grammar is non-empty; then the start symbol is the first head and the terminals classify the grammar; on false, start symbol and terminals are untouched |
| LL1.LL1Parser.MergeLines | LL1Parser.py:23-42 | after the loop over the lines, grammar and head list equal the specification `Merged` and `Heads` of all lines, and the keys stay exactly the listed heads, each listed once |
| LL1.LL1Parser.MergeLine | LL1Parser.py:36-42 | one line creates its head's entry when missing and appends the line's bodies; the head is appended to the list only when new |
| Grammars.MergedBodies | LL1Parser.py:36-39 | a repeated head keeps its earlier bodies and gets the bodies of every later line for it appended in line order |
| Grammars.MergedKeys | LL1Parser.py:36-39 | the grammar's heads after ingestion are the old heads plus the head of every line |
| Grammars.HeadsSpec | LL1Parser.py:41-42 | the head list has no repeats, keeps the old entries as a prefix, and holds exactly the old heads and the heads of the new lines |
| Grammars.HeadsPrefix | LL1Parser.py:41-42 | first-seen order: the list after any prefix of the lines is a prefix of the final list |
| Grammars.FirstHeadIsStart | LL1Parser.py:48 | on a fresh parser the first entry of the head list, which becomes the start symbol, is the head of the first line |
| LL1.LL1Parser.FindTerminals | LL1Parser.py:52-62 | the terminals are exactly the body symbols that are neither "ε" nor heads, each once and in string order, followed by "$" |
| Grammars.BodySymbolsOfAll | LL1Parser.py:54-57 | visiting the heads in list order and their productions collects exactly the symbols occurring in some body |
| Grammars.ClassifiedMarkers | LL1Parser.py:58-62 | the classified terminal list never holds "ε" and always holds "$" |
| Grammars.ClassifiesUnique | LL1Parser.py:61-62 | the terminal list is determined by the grammar and its heads: two classifications of the same grammar are equal |
| LL1.SortSymbols | LL1Parser.py:61 | `sorted(list(s))`: the result lists every element of the set once, in string order |
| Symbols.SortedUnique | LL1Parser.py:61 | a set has exactly one sorted listing without repeats |
| Symbols.LexTotal | LL1Parser.py:61 | Python's string order is total |
| Symbols.LexTrans | LL1Parser.py:61 | Python's string order is transitive |
| Symbols.LexAntisym | LL1Parser.py:61 | Python's string order is antisymmetric |
| Symbols.LeastExists | LL1Parser.py:61 | every non-empty set of symbols has a least element in string order |
| LL1.LL1Parser.FirstForSequence | LL1Parser.py:80-104 | the left-to-right scan with its three early exits computes `FirstOfSeq` of the sequence under the current FIRST sets and terminals |
| FirstSets.FirstOfSeqMembers | LL1Parser.py:80-104 | x is in FIRST of a sequence exactly when the scan reaches some position, passing only symbols with "ε" in their FIRST set, whose symbol contributes x: "ε" itself, a terminal, a FIRST element other than "ε", or "ε" when the passed symbol is last; so the empty sequence has the empty set |
| FirstSets.FirstOfSeqWithin | LL1Parser.py:80-104 | FIRST of a sequence stays inside any set holding "ε", every terminal and every current FIRST set |
| FirstSets.FirstOfSeqMonotone | LL1Parser.py:80-104 | FIRST of a sequence only grows when the FIRST sets it reads grow |
| LL1.LL1Parser.ComputeFirstSets | LL1Parser.py:64-78 | the loop terminates with the least closed FIRST sets: one per non-terminal, each containing FIRST of every production of its head, contained in every other such assignment, and inside terminals plus "ε" |
| LL1.LL1Parser.FirstPass | LL1Parser.py:70-76 | one pass over all heads never grows the missing pairs, removes at least one when it reports a change, and leaves every head closed when it reports none |
| LL1.LL1Parser.FirstPassHead | LL1Parser.py:71-76 | the productions of one head, in order, keep the invariant and shrink the missing pairs on change; no change means the head is closed |
| FirstSets.FirstUpdateSound | LL1Parser.py:74-76 | an update FIRST(a) += FIRST(p) for a production p of a keeps the sets below every closed assignment and inside the universe |
| FirstSets.FirstStep | LL1Parser.py:74-76 | an update that adds something keeps the loop invariant and strictly shrinks the termination measure |
| FirstSets.LeastFirstUnique | LL1Parser.py:64-78 | the FIRST sets are determined by the grammar: two least closed assignments are equal |
| Symbols.GrowShrinksMissing | LL1Parser.py:74-76 | growing one set by elements it lacked strictly shrinks the pairs still missing, the termination measure of both fixed-point loops |
| LL1.LL1Parser.ComputeFollowSets | LL1Parser.py:106-134 | the loop terminates with the least closed FOLLOW sets: "$" in the start symbol's set, both rules closed at every occurrence of a non-terminal, contained in every other such assignment; no FOLLOW set holds "ε" |
| LL1.LL1Parser.FollowPass | LL1Parser.py:113-132 | one pass keeps the invariant, shrinks the missing pairs on change, and leaves every head closed under both rules when it reports none |
| LL1.LL1Parser.FollowPassHead | LL1Parser.py:114-132 | the productions of one head, in order, keep the invariant; no change means every production of the head is closed |
| LL1.LL1Parser.FollowPassProduction | LL1Parser.py:116-132 | every non-terminal occurrence of one production, left to right; no change means both rules hold at each occurrence |
| LL1.LL1Parser.FollowOccurrence | LL1Parser.py:117-132 | rule 1 and rule 2 at one occurrence keep the invariant and shrink the measure on change; no change means both rules hold there |
| FollowSets.FollowSeedLeast | LL1Parser.py:108-109 | the seed (empty sets, "$" for the start symbol) is below every closed assignment |
| FollowSets.FollowSeed | LL1Parser.py:108-109 | the seed satisfies the loop invariant |
| FollowSets.RuleOneSound | LL1Parser.py:122-126 | adding FIRST(β) without "ε" to FOLLOW(B) keeps the sets below every closed assignment |
| FollowSets.RuleTwoSound | LL1Parser.py:128-132 | adding FOLLOW(A) to FOLLOW(B), when FIRST(β) holds "ε" or B is last, keeps the sets below every closed assignment |
| FollowSets.RuleOneStep | LL1Parser.py:122-126 | a rule-1 update that adds something keeps the invariant and strictly shrinks the measure |
| FollowSets.RuleTwoStep | LL1Parser.py:128-132 | a rule-2 update that adds something keeps the invariant and strictly shrinks the measure |
| FollowSets.FollowDone | LL1Parser.py:112-134 | invariant plus closure at loop exit give the least closed FOLLOW sets, free of "ε" |
| FollowSets.LeastFollowUnique | LL1Parser.py:106-134 | the FOLLOW sets are determined by the grammar and the FIRST sets |
| FollowSets.FollowUniverseTerminals | LL1Parser.py:106-134 | when FIRST sets lie in terminals plus "ε", every possible FOLLOW element is a terminal or "$" |
| LL1.AnalysisReady | LL1Parser.py:148-160 | when the FIRST sets lie in terminals plus "ε", the FOLLOW sets lie in their universe and every head has a FOLLOW set, every cell a production targets is a (non-terminal, terminal) cell of the table, and every head that reads its FOLLOW set has one, so the table fill never reads a missing key |
| LL1.LL1Parser.Analyse | LL1Parser.py:284-290 | after a grammar was read, computing FIRST sets, then FOLLOW sets, then the table meets every demand of the table fill; it leaves the least FIRST sets, the least FOLLOW sets and the table described for `BuildParseTable` |
| LL1.LL1Parser.BuildParseTable | LL1Parser.py:136-162 | the table's keys are exactly the (non-terminal, terminal) cells; each holds the last production of its head that targets it, None when none does; the warnings name each cell as many times as it was written minus one |
| LL1.LL1Parser.ClearTable | LL1Parser.py:138-143 | the table is reset; its keys are then exactly the (non-terminal, terminal) cells, all empty |
| LL1.LL1Parser.FillHead | LL1Parser.py:147-160 | the productions of one head fill its row with last writers and warn about overwrites; other rows are untouched |
| LL1.LL1Parser.WriteProduction | LL1Parser.py:148-160 | one production is written into FIRST(p) without "ε", then into FOLLOW(a) when FIRST(p) holds "ε"; its cells then hold the last writer of the productions so far, and its warnings are the overwrites it adds |
| LL1.LL1Parser.FillCells | LL1Parser.py:150-160 | writing a production into a set of cells of its row sets exactly those cells and warns once for each that was filled before |
| ParseTables.LastWriterSpec | LL1Parser.py:146-160 | a cell is empty exactly when no production of its head targets it; otherwise it holds a production that targets it and no later production does |
| ParseTables.WritesPositive | LL1Parser.py:146-160 | a cell is written at least once exactly when some production targets it |
| ParseTables.LastWriterNone | LL1Parser.py:152-159 | a cell is still empty exactly when it has not been written |
| ParseTables.HitsTargets | LL1Parser.py:150-160 | a production writes a cell at least once exactly when the cell is one of its targets |
| ParseTables.NoWarningIffLL1 | LL1Parser.py:152-159 | a cell draws no conflict warning exactly when no production writes it through both FIRST and FOLLOW and no two productions target it |
| ParseTables.LL1AtMostOnce | LL1Parser.py:152-159 | under the LL(1) condition a cell is written at most once |
| ParseTables.AtMostOnceLL1 | LL1Parser.py:152-159 | a cell written at most once meets the LL(1) condition |
| ParseTables.AmbiguousCell | LL1Parser.py:150-160 | for `S -> a \| a b` the cell (S, a) is written twice, draws one warning, keeps the later production `a b`, and violates the LL(1) condition |
| ParseTables.CellStep | LL1Parser.py:148-160 | the FIRST loop and the FOLLOW loop of one production leave a cell holding the last writer and draw exactly the overwrites that production adds |
| LL1.LL1Parser.ParseInput | LL1Parser.py:164-213 | the steps and verdict are the run of the recogniser from stack ["$", start] on the tokens plus "$"; there are at most `fuel` steps; it accepts exactly when the last step is Accept; it stops only at Accept, an error or the fuel bound; the first step shows the initial stack and input, and consecutive steps follow the table |
| LL1.LL1Parser.Recognise | LL1Parser.py:169-211 | the while loop with its breaks records exactly the steps and the verdict of `Run` |
| LL1.LL1Parser.Iterate | LL1Parser.py:174-209 | one iteration decides Accept, Match, Mismatch, ApplyRule or NoRule from the top and the current token as `Decide` does, and moves to the state `Successor` gives |
| LL1.PushReversed | LL1Parser.py:203-204 | pushing `reversed(body)` appends the body reversed, so its first symbol ends on top |
| Symbols.Reverse | LL1Parser.py:203 | the reversed sequence has the same length and element i is element \|s\|-1-i of the original |
| Driver.ExpandReadsBody | LL1Parser.py:200-204 | applying a production pops the head and, read from the top down, the stack shows the body and then what was below the head |
| Driver.RunAccepted | LL1Parser.py:173-187 | a run records at most one step per unit of fuel and accepts exactly when its last step is Accept |
| Driver.MatchKeepsShape | LL1Parser.py:188-192 | a match pops a terminal equal to the current token, never the bottom "$", and never moves the pointer past the final "$" |
| Driver.ApplyKeepsShape | LL1Parser.py:197-205 | a rule applies only to a non-terminal top with a filled cell for the current token, and keeps "$" at the bottom |
| Driver.RunUnfold | LL1Parser.py:173-211 | a halting action ends the run with its step; any other action records its step and the run continues from the successor state |
| Driver.RunStops | LL1Parser.py:173-211 | from a well-shaped state the stack never empties, so a run ends only with Accept, an error, or when the fuel is used up |
| Driver.RunTrace | LL1Parser.py:173-211 | the trace starts with the initial stack and input, every step keeps "$" at the bottom and at the end of the input, and each step follows from the previous one by the table's decision |

## Left out

- File reading and line handling are not modelled: the missing-file error, comment and
  blank lines, lines without `->`, and splitting on `|` and whitespace (lines 16-34).
  `ReadGrammar` takes the lines already split into a head and its bodies.
- Printed diagnostics are not modelled as output. `ReadGrammar`'s error messages become its
  false result, and the conflict warnings of `build_parse_table` become the returned
  sequence of cells.
- `display_first_sets`, `display_follow_sets`, `display_parse_table` and
  `display_parsing_steps` are presentation, so they are not modelled. Of `main`, only the
  order of calls after a grammar was read is modelled (`Analyse`); its prompts and menu are
  I/O.
- `input_string.split()` is not modelled: `ParseInput` takes the tokens already split.
- The trace records hold the stack and remaining input as symbol sequences and the action as
  a datatype, not as the joined strings and messages shown to the user.
- ParseInput: the Python loop has no bound, and a left-recursive grammar makes it run for
  ever. The model takes a fuel bound on the number of iterations, so non-termination shows
  up as a run that used all its fuel.
- ParseInput: requires a start symbol. With none, the Python code fails when it joins the
  stack `['$', None]` into a string. The model has no symbol standing for `None`.
- BuildParseTable: the order of the warnings is not modelled, because it follows Python's
  set iteration order. The contract states how many warnings each cell draws, as a multiset
  of cells.
- WriteProduction: the FIRST loop is given FIRST(p) without "ε", instead of skipping "ε"
  inside the loop. This writes the same cells.
- The Python lists for productions are shared between the grammar and the table cells.
  The model uses values, so that aliasing is not modelled; no code path mutates a
  production after ingestion.
- LL1.LL1Parser.BuildParseTable: requires `TableReady()`, which excludes two KeyError paths
  of the Python code. One is `self.follow_sets[non_terminal]` at line 157 for a head
  without a FOLLOW set. The other is `self.parse_table[(non_terminal, terminal)]` at lines
  152 and 158 for a cell that was never created. Either can happen when
  `build_parse_table` runs before `compute_follow_sets`. `Analyse` shows that the order
  of calls in `main` meets the precondition.
- LL1.LL1Parser.ComputeFollowSets: requires a start symbol that is one of the heads. With
  no grammar read, the start symbol is `None` and line 109 raises a KeyError on
  `self.follow_sets[None]`. `main` never calls it then, because it returns when
  `read_grammar` fails (line 279).
- LL1.LL1Parser.ComputeFirstSets, LL1.LL1Parser.ComputeFollowSets: require the grammar's
  keys to equal the head list. The source only needs every listed head to be a key (lines
  72 and 115). Equality holds in every state a parser reaches, since `ReadGrammar` keeps it
  as part of `Valid()`.
