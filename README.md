# rusted_cart core in Dafny

`rusted_cart` builds a yes/no identification key for the mushroom dataset. It uses a greedy
CART-style tree builder. Every record carries a label (`'p'` for poisonous) and 22 one-letter
attribute codes, called facets.

The builder keeps a stack of groups still to split, starting with the whole input under page 1.
It pops a group and tries every candidate question. A candidate is a facet together with a
non-empty proper subset of the values that facet takes in the group. The builder keeps the
first candidate whose answer has the least Gini impurity. That answer is the sum of the two
sides' `2·(p/l)·((l−p)/l)`. A side whose impurity is zero is a leaf. Any other side is pushed
under the next page number.

This project models that core, `src/main.rs`:

- `records.dfy`: records, facets, the poisonous label and purity.
- `impurity.dfy`: `Node::new`, `Answer::new` and the Gini score, in exact `real` arithmetic.
- `facet_values.dfy`: `facet_vals`, as ordered-set insertion.
- `questions.dfy`: `Question` and `Question::answer`, a stable two-way partition.
- `generation.dfy`: the candidate questions of lines 30–38, facet by facet and size by size.
- `selection.dfy`: the running minimum of lines 29–51, as methods with loops.
- `tree_builder.dfy`: the `while let` loop of `main`, as a method over the stack and the page
  counter. Each page the source prints becomes a `PageEntry` record.

Four behaviours of the code shape the model:

- `Iterator::partition` keeps the input order on each side. `PartitionStable` proves that the
  model's partition keeps it too.
- Every group on the stack after the first is impure, because only impure sides are pushed.
  A group whose records agree on every facet but not on the label still has no candidate
  question (`NoCandidatesIff`), and the code then panics (line 65). `BuildTree` states where
  a panic happens. It is either page 1, holding the whole input with nothing written, or the
  side that a written page sent to the latest announced page not yet written. That group is
  impure, smaller than the input, and agrees on every facet.
- The page counter starts at 2 and is incremented before use. Page 2 is therefore never
  issued, and the first goto names page 3. `BuildTree` proves that the announced pages are
  3, 4, 5, … in the order they are announced, and that a finished run has written, for every
  goto, the page it names, splitting exactly the rows of that side (lines 59-61).
- `half_nodes.pop()` (line 28) takes the last push first. Each page after the first therefore
  splits the side sent to the highest-numbered page that is announced but not yet written.
  `BuildTree` states this for every run, finished or panicked.

## Model

| member | source | states |
|---|---|---|
| Records.Poisonous | src/main.rs:315-317 | a record is poisonous when its label is `'p'`; no ensures of its own, its properties are those of `PoisonCountExtremes` |
| Impurity.PoisonCount | src/main.rs:284 | the number of poisonous rows, at most the number of rows (`PoisonCountExtremes` and `PoisonCountAppend` give the rest) |
| Impurity.Gini | src/main.rs:278-282 | the Gini formula `2·(p/l)·((l−p)/l)` in exact reals for `0 ≤ p ≤ l`, `0 < l`; no ensures of its own, bounded by `GiniBounds` |
| Impurity.NewNode | src/main.rs:277-291 | `Node::new`: the rows, their poisonous count and their Gini score; no ensures of its own, its properties are those of `NodeImpurity` |
| Impurity.NewAnswer | src/main.rs:209-219 | `Answer::new`: both nodes and the sum of their impurities; no ensures of its own, its properties are those of `AnswerImpurity` and `AnswerSwapSymmetric` |
| Impurity.PoisonCountExtremes | src/main.rs:284 | the poisonous count is 0 iff no row is poisonous, and equals the row count iff every row is |
| Impurity.PoisonCountAppend | src/main.rs:284 | counting poisonous rows distributes over concatenation |
| Impurity.GiniBounds | src/main.rs:278-282 | `2·(p/l)·((l−p)/l)` lies in [0, 1/2] and is 0 iff p = 0 or p = l |
| Impurity.GiniHalfIff | src/main.rs:278-282 | the formula reaches its maximum 1/2 exactly at an even split, `2p = l` |
| Impurity.GiniBelowHalf | src/main.rs:278-282 | away from an even split the formula stays strictly below 1/2 |
| Impurity.HalfOnlyAtHalf | src/main.rs:278-282 | the two-class formula written over the poisonous share x reaches 1/2 exactly at x = 1/2 |
| Impurity.NodeImpurity | src/main.rs:277-291 | a node's impurity lies in [0, 1/2], is 0 iff all its rows carry the same label, and is 1/2 iff exactly half of them are poisonous |
| Impurity.AnswerImpurity | src/main.rs:209-219 | a split's impurity lies in [0, 1] and is 0 iff both sides are pure |
| Impurity.AnswerSwapSymmetric | src/main.rs:209-219 | swapping the yes and no groups leaves the split's impurity unchanged |
| Impurity.ScenarioNodes | src/main.rs:234-251 | the all-poisonous and all-edible groups of ten score 0; the alternating group scores 1/2 |
| Impurity.ImpurityScenario | src/main.rs:253-266 | poisons vs edibles scores 0 and beats poisons vs mixed (1/2) in either order; poisons vs mixed equals mixed vs poisons |
| FacetValues.FacetVals | src/main.rs:70-77 | the facet's values in the group collected into an ordered set; no ensures of its own, characterised by `FacetValsSpec` |
| FacetValues.InsertSorted | src/main.rs:74 | inserting into a strictly increasing sequence keeps it strictly increasing and adds exactly the new value |
| FacetValues.FacetValsSpec | src/main.rs:70-77 | the listed values are strictly increasing, are exactly the facet's values in the group, and are no more numerous than the records (so an empty group gives none) |
| Questions.Holds | src/main.rs:90 | the test `vals.contains(&mush.attrs[facet])`; no ensures of its own, used by `PartitionSides` |
| Questions.Partition | src/main.rs:88-90 | the two sides together have as many records as the input |
| Questions.PartitionSides | src/main.rs:88-90 | a record is on the yes side iff it is in the input and its facet value is in `vals`, and on the no side iff it is in the input and its value is not |
| Questions.PartitionPermutes | src/main.rs:88-90 | the two sides together are a permutation of the input, and their poisonous counts add up |
| Questions.PartitionStable | src/main.rs:88-90 | each side is a subsequence of the input, keeping its order |
| Questions.ComplementSwaps | src/main.rs:88-90 | when every record's value at the facet lies in `vals`, asking for the complement of the question's set within `vals` swaps the yes and no sides |
| Questions.Ask | src/main.rs:87-92 | for a question that splits the group, both sides are non-empty and smaller than the group |
| Questions.AskSides | src/main.rs:91 | proof helper that unfolds `Ask`: the answer's nodes are the scored sides and together hold the whole group |
| Questions.PartitionExample | src/main.rs:167-195 | asking "facet 0 in {a, b, c}" of the test's five records puts the first three on the yes side and the last two on the no side |
| Questions.AnswerExample | src/main.rs:195-197 | that question splits the five records; its answer has 3 yes rows and 2 no rows |
| Generation.Combinations | src/main.rs:34 | the k-element combinations of the facet's values; no ensures of its own, characterised by `CombinationsExact` |
| Generation.ProperSubsets | src/main.rs:33-34 | the combinations of sizes 1 to n−1 in turn; no ensures of its own, characterised by `ProperSubsetsExact` |
| Generation.FacetQuestions | src/main.rs:31-38 | one question per proper subset of a facet's values; no ensures of its own, characterised by `FacetQuestionsExact` and `FacetQuestionsEmpty` |
| Generation.Candidates | src/main.rs:30-38 | the questions of facets 0 to n−1, facet by facet; no ensures of its own, characterised by `CandidateIff` and `FacetBlock` |
| Generation.AllCandidates | src/main.rs:30-38 | the questions of all 22 facets; no ensures of its own, characterised by `CandidatesExact`, `CandidateSplits` and `NoCandidatesIff` |
| Generation.CombinationsExact | src/main.rs:34 | over distinct values, the k-combinations are exactly the k-element subsets |
| Generation.ProperSubsetsExact | src/main.rs:33-34 | over sorted distinct values, the sizes 1 to n−1 together give exactly the non-empty proper subsets |
| Generation.FacetQuestionsExact | src/main.rs:31-38 | a question is generated for a facet iff it names that facet and asks a non-empty proper subset of the facet's values in the group |
| Generation.CandidateIff | src/main.rs:30-38 | a question is among the candidates of facets below n iff its facet is below n and its set is a non-empty proper subset of that facet's values |
| Generation.CandidatesExact | src/main.rs:30-38 | a question is a candidate iff its set is a non-empty proper subset of its facet's values |
| Generation.CandidateSplits | src/main.rs:30-38 | every candidate leaves both sides of the group non-empty |
| Generation.ComplementCandidate | src/main.rs:30-38 | the complement of a candidate's set within the facet's values gives a candidate too |
| Generation.ComplementSameImpurity | src/main.rs:30-38 | a candidate and its complement are both candidates, split the group into the same two sides swapped, and score the same impurity (lines 209-219) |
| Generation.FacetQuestionsEmpty | src/main.rs:31-34 | a facet yields no question iff it takes at most one value in the group |
| Generation.NoCandidatesIff | src/main.rs:30-38 | a group has no candidate iff all its records agree on every facet |
| Generation.FacetBlock | src/main.rs:30-38 | a facet's questions follow those of the earlier facets in the candidate order |
| Selection.FirstMinIndex | src/main.rs:43-49 | the position the strict-`<` running minimum ends on, below `n`; characterised by `FirstMinIndexMinimal` and `FirstMinimalUnique` |
| Selection.FirstMinIndexMinimal | src/main.rs:43-49 | the strict-`<` scan finds an entry no larger than any other and strictly smaller than every earlier one |
| Selection.FirstMinimalUnique | src/main.rs:43-49 | that position is unique |
| Selection.Step | src/main.rs:43-49 | one comparison keeps the running first minimum over one more candidate |
| Selection.ScanFacet | src/main.rs:40-50 | scanning one facet's questions extends the running first minimum over them |
| Selection.ScanFacetAt | src/main.rs:30-50 | the pass for one facet extends the running first minimum over that facet's block of candidates |
| Selection.SelectBest | src/main.rs:29-51 | the result is empty iff there is no candidate; otherwise it is the first least-impurity candidate, its answer and that answer's impurity |
| Selection.SelectedIsFirstBest | src/main.rs:43-49 | the kept answer's impurity is no higher than any candidate's and strictly lower than every earlier candidate's |
| TreeBuilder.Follow | src/main.rs:55-63 | a zero-impurity side is done; any other side gets page `next_page + 1` and is pushed with its rows |
| TreeBuilder.ChoosePage | src/main.rs:29-66 | no entry iff the group has no candidate; otherwise the entry asks the first best question, both sides lead as their impurity says, and the stack and counter grow by the impure sides, yes first |
| TreeBuilder.PagePurity | src/main.rs:55-63 | on a chosen page, a side is done iff its rows are pure; an impure side always gets a page |
| TreeBuilder.WrittenPurity | src/main.rs:55-63 | on every page written, exactly the impure sides lead to further pages |
| TreeBuilder.OpenedByChoice | src/main.rs:24-28 | once a page is written, some question splits the whole input |
| TreeBuilder.BuildingInit | src/main.rs:23-26 | the loop starts with the whole input under page 1 and the counter at 2 |
| TreeBuilder.WeightStep | src/main.rs:28-61 | replacing the popped group by its impure sides strictly lowers the stack's weight |
| TreeBuilder.NumberedStep | src/main.rs:26-61 | the pages a step announces continue the run 3, 4, 5, … |
| TreeBuilder.WriteStep | src/main.rs:28-66 | writing the popped group's page keeps the loop invariant and lowers the stack's weight |
| TreeBuilder.BuildingDone | src/main.rs:28 | with the stack empty, the pages written are page 1 and every page announced |
| TreeBuilder.LinkedStep | src/main.rs:28-61 | every group left on the stack, and every group a step pushes, is a side that a written page sends to that group's page |
| TreeBuilder.ResolvedStep | src/main.rs:28-61 | every goto written is still on the stack with that side's rows, or its page has been written for exactly those rows |
| TreeBuilder.ResolvedDone | src/main.rs:28 | with the stack empty, every goto names a written page splitting that side's rows |
| TreeBuilder.PoppedGroup | src/main.rs:28 | the popped group is the input under page 1 before anything is written, or a side a written page sent to a page not yet written, and that page is the latest announced and unwritten |
| TreeBuilder.OrderedStep | src/main.rs:28 | proof helper that unfolds one step of `Ordered`: a page written first, or written for the group `pop()` returns, keeps every page in stack order |
| TreeBuilder.OrderedAll | src/main.rs:28 | each page after the first splits a side that an earlier page sent to it, is not yet written, and has the highest number among the pages announced and not yet written |
| TreeBuilder.BuildTree | src/main.rs:18-67 | every page asks its group's first best question and leads as its impurities say; page 1 splits the input; page numbers are distinct; gotos name 3, 4, 5, … in order; pages are written in stack order, each after the first splitting the side sent to the latest announced page not yet written; a finished run writes exactly page 1 and the announced pages, and each goto's page splits exactly that side's rows; a panic happens at a candidate-free group that is either the input at page 1 with nothing written, or the impure, smaller side that a written page sent to the latest announced page not yet written; an input without candidates panics at once |

## Left out

- Reading the CSV file (`mushes`, lines 7–16) is I/O. The input records are a parameter of
  `BuildTree`.
- Printing (`println!` and the `Display` impls, lines 20, 54–62, 95–112, 222–230, 294–304) and
  `test_question_fmt` are left out. Each printed page becomes a `PageEntry` record.
- The `FACETS` name table (lines 124–165) is used only for printing.
- The `parent_idx` field of `Answer` is never read, so the model drops it.
- Enumeration order: `permutator::Combination` is not part of this model. `Combinations` lists
  the k-subsets in a fixed order of its own (lexicographic by position). The tie-break
  ("first seen wins") is stated relative to that order. The set of candidates does not depend
  on the order.
- Impurity uses exact `real` arithmetic instead of `f64`. Rounding, `EPSILON` (line 261) and NaN
  are not modelled. Rounding can decide the comparison at line 44 differently. Two candidates
  that tie in exact arithmetic need not tie in `f64`, and the reverse. The candidate the code
  keeps at lines 43-49 can therefore differ from the one `SelectBest` keeps, and so can a side's
  test for zero impurity at line 56.
- Impurity.NewNode: requires a non-empty group. The source would compute 0/0 = NaN on an empty
  group, but every generated question leaves both sides non-empty (`CandidateSplits`).
- Questions.Ask: requires the question to split the group, for the same reason.
- Impurity.NewAnswer: requires both sides non-empty, as for `NewNode`; every candidate's answer
  has two non-empty sides (`CandidateSplits`).
- The integer widths (`usize`) of the page counter and poisonous counts are not modelled.
  Dafny's integers are unbounded.
