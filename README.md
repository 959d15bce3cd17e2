# Diagonal Sudoku solver by constraint propagation and search

This project models `solution.py`, a solver for diagonal Sudoku. A puzzle is an 81-character
string. The solver turns it into a grid that maps each of the 81 boxes to a string of candidate
digits. It then applies three in-place inference rules until they stop making progress:

- elimination;
- only choice;
- naked twins.

If boxes are still undetermined, it searches depth-first: it takes the box with the fewest
candidates and tries each of its digits on a copy of the grid. Every change made through
`assign_value` that leaves a box with one digit is recorded as a snapshot in the module-level
`assignments` list. The digit a branch writes into its copy (`new_soduku[s] = value`) is written
directly and is not recorded.

The project has two layers.

- **Functional layer.** Each step is a function over `State(values, trace)`. `values` is the grid
  and `trace` is the `assignments` list. Each loop of the source is a fold over the same sequence
  in the same order. The properties are proved as lemmas about these functions.
- **Imperative layer.** The solver as the source runs it, in module `Solution`:
  - a `Board` object per values dictionary, updated in place;
  - a `Solver` object holding the `assignments` list;
  - one method per loop.

  Each method's postcondition says it leaves exactly the state that the functional definition
  gives.

Conventions:

- Boxes are the indices 0..80 in row-major order. `A1` is 0 and `I9` is 80. Index order is the
  order of the box names, so `min` over `(len, name)` pairs becomes "fewest candidates, then
  lowest index".
- A candidate string is a `seq<char>`. `str.replace(d, '')` becomes `Remove`.

The modules are:

- `Topology`: `cross`, `boxes`, the 29 units (rows, columns, squares and both diagonals),
  `unitlist`, `units` and `peers`.
- `Candidates`: grids, `assign_value`, and the orders "no box gained a candidate" (`Narrows`) and
  "the trace only grew" (`Progress`).
- `Elimination`, `OnlyChoice`, `NakedTwins`: the three rules.
- `Solutions`: filled grids, what it is for a grid to be a solution of another, and the facts
  about units and digits that solutions share.
- `Reduce`: `reduce_puzzle`.
- `Search`: `search`.
- `Solve`: `grid_values`, `solve`, and the two directions of its promise: a returned grid is a
  solution of the puzzle, and a puzzle that has a solution is never answered with False.

Each rule is proved to lose no solution: every filled grid of digits 1-9 with no two peers alike
that the input allows is still allowed by the output. A filled grid with no two peers alike is a
fixed point of each rule, of `reduce_puzzle` and of `search`.
- `Solution`: the imperative solver.

## Model

| member | source | states |
|---|---|---|
| Topology.Cross | solution.py:6-8 | `cross(rs, cs)` has `len(rs)*len(cs)` boxes: exactly those in a row of `rs` and a column of `cs`, all distinct when `rs` and `cs` are |
| Topology.CrossStep | solution.py:6-8 | the boxes of the first row followed by those of the other rows are the boxes of all the rows, distinct when rows and columns are |
| Topology.Line | solution.py:6-8 | the boxes `cross` builds for one row are exactly that row's boxes in the given columns, one per column |
| Topology.RowUnits | solution.py:13 | definition of `row_units`: row r is `cross` of that row with all nine columns; its shape is stated by `RowUnitShape` |
| Topology.ColumnUnits | solution.py:14 | definition of `column_units`: column c is `cross` of all rows with that column; its shape is stated by `ColumnUnitShape` |
| Topology.SquareUnits | solution.py:15 | definition of `square_units`: `cross` of each band of three rows with each band of three columns, row bands outermost; its shape is stated by `SquareUnitShape` |
| Topology.Diagonal | solution.py:17 | definition of `diag1`: A1, B2, ..., I9; its shape is stated by `DiagonalShape` |
| Topology.AntiDiagonal | solution.py:18 | definition of `diag2`: A9, B8, ..., I1; its shape is stated by `DiagonalShape` |
| Topology.UnitList | solution.py:20 | definition of `unitlist` as the concatenation in source order; its parts and shape are stated by `UnitListParts` and `UnitListShape` |
| Topology.RowUnitShape | solution.py:13 | each row unit has 9 distinct boxes, exactly those of its row |
| Topology.ColumnUnitShape | solution.py:14 | each column unit has 9 distinct boxes, exactly those of its column |
| Topology.SquareUnitShape | solution.py:15 | each square unit has 9 distinct boxes, exactly those of its 3x3 square |
| Topology.DiagonalShape | solution.py:17-18 | each diagonal unit has 9 distinct boxes, exactly those on that diagonal |
| Topology.UnitListParts | solution.py:20 | `unitlist` has 29 units: rows, columns, squares, main diagonal, anti-diagonal, in that order |
| Topology.UnitShape | solution.py:11-20 | unit k of `unitlist` has 9 distinct boxes, and a box belongs to it exactly when it meets that unit's row, column, square or diagonal condition |
| Topology.UnitListShape | solution.py:11-20 | every one of the 29 units has 9 distinct boxes and the membership described by `InUnit` |
| Topology.Containing | solution.py:21 | `units[s]` holds exactly the units of `unitlist` that contain `s` |
| Topology.UnitsOf | solution.py:21 | definition of `units[s]`: the units of `unitlist` that hold s, in order; stated by `Containing` and `UnitsOfBox` |
| Topology.UnitsOfBox | solution.py:21 | every box lies in exactly 3 units, plus one for each diagonal it lies on |
| Topology.RowsContaining | solution.py:13 | a box lies in exactly one row unit |
| Topology.ColumnsContaining | solution.py:14 | a box lies in exactly one column unit |
| Topology.SquaresContaining | solution.py:15 | a box lies in exactly one square unit |
| Topology.Flatten | solution.py:22 | `sum(units[s], [])` holds exactly the boxes of some unit of `s` |
| Topology.Peers | solution.py:22 | definition of `peers[s]`: the boxes of `sum(units[s], [])` as a set, minus s; stated by `PeersByUnit` and `PeersCharacterized` |
| Topology.PeersByUnit | solution.py:22 | c is a peer of s exactly when c differs from s and some unit holds both |
| Topology.PeersCharacterized | solution.py:22 | c is a peer of s exactly when c differs from s and they share a row, column, square or diagonal |
| Topology.SharedUnit | solution.py:22 | two boxes that share a row, column, square or diagonal lie in a common unit of `unitlist` |
| Topology.InUnitShares | solution.py:22 | two boxes of one unit share a row, column, square or diagonal |
| Topology.PeersSymmetric | solution.py:22 | no box is its own peer, and the peer relation is symmetric |
| Topology.UnitMembersArePeers | solution.py:22 | any two different boxes of one unit are peers |
| Topology.PeerList | solution.py:22 | the peers of a box in the order they are visited: exactly the peer set, increasing |
| Topology.CellsFrom | solution.py:58 | a set of boxes listed in increasing order, holding exactly the boxes of the set |
| Candidates.Remove | solution.py:64 | `value.replace(d, '')` keeps every other character and drops d; it never grows, and it returns the value unchanged when d is absent |
| Candidates.Assign | solution.py:25-38 | `assign_value` changes nothing when the box already holds the value; otherwise only that box changes, to the value; the trace is extended, by exactly one snapshot of the new grid, iff the value changed and has one character |
| Candidates.AssignIdempotent | solution.py:25-38 | repeating the same `assign_value` call changes neither grid nor trace |
| Candidates.RemoveProgress | solution.py:64 | removing a digit from a box through `assign_value` adds no candidate anywhere and only extends the trace |
| Candidates.PlaceProgress | solution.py:132 | setting a box to one of its own digits adds no candidate anywhere and only extends the trace |
| Candidates.ProgressTransitive | solution.py:25-38 | "no box gained a candidate and the trace only grew" composes across steps |
| Candidates.NarrowSingleton | solution.py:180 | a box narrowed from a single digit holds that digit or nothing |
| Candidates.CountSolved | solution.py:148 | the count of boxes with one candidate is at most the number of boxes, and equals it iff every box has one |
| Candidates.SolvedCount | solution.py:148 | the determined-box count is at most 81, and is 81 exactly when every box is determined |
| Candidates.CountSolvedMonotone | solution.py:148 | the count never falls when no determined box becomes undetermined, and rises when some undetermined box becomes determined |
| Candidates.SolvedCountMonotone | solution.py:160-162 | when no box gained a candidate and none is empty, determined boxes stay as they were and the count does not fall |
| Candidates.TotalUpdate | solution.py:189 | overwriting one box changes the total number of candidates by the difference in that box's length |
| Candidates.TotalMonotone | solution.py:187-190 | a grid with no longer box has no more candidates in total |
| Candidates.NarrowsTotal | solution.py:177 | a step that adds no candidate does not raise the total number of candidates |
| Solutions.SolutionNotEmpty | solution.py:163-165 | a grid that some filled grid narrows has no empty box, so the sanity check of `reduce_puzzle` does not fire on it |
| Solutions.AssignKeeps | solution.py:25-38 | an `assign_value` whose new value still allows a solution's digit in that box keeps that solution |
| Solutions.SolutionDigit | solution.py:187 | the digit a solution puts in a box is one of that box's candidates, so the branch loop tries it |
| Solutions.PeerDigits | solution.py:22 | two peers of a filled grid with no two peers alike hold different digits |
| Solutions.UnitDigits | solution.py:20-22 | the digits of a unit of a grid with no two peers alike are 9 different digits |
| Solutions.NineDigits | solution.py:20-22 | nine different digits from '123456789' are all nine of them |
| Solutions.UnitComplete | solution.py:20-22 | a determined grid of digits 1-9 with no two peers alike holds every digit in every unit |
| Elimination.Strip | solution.py:114 | definition of one `assign_value(values, peer, values[peer].replace(d, ''))`; stated by `StripAllEffect` and `StripJustified` |
| Elimination.StripAll | solution.py:113-114 | definition of the loop over a box's peers, in increasing order; stated by `StripAllEffect` |
| Elimination.EliminateAt | solution.py:112-114 | definition of one turn of the loop over boxes; stated by `EliminateAtEffect` |
| Elimination.EliminateFrom | solution.py:111-114 | definition of the turns for boxes k..80; stated by `EliminateFromProgress` and `ClearsFrom` |
| Elimination.Eliminate | solution.py:103-116 | definition of `eliminate`; stated by `EliminateProgress`, `EliminateClearsPeers`, `EliminateJustified`, `EliminateKeeps` and `EliminateFixed` |
| Elimination.StripAllEffect | solution.py:113-114 | removing d from each box of a list leaves exactly those boxes without d and every other box as it was, with the trace only extended |
| Elimination.EliminateAtEffect | solution.py:112-114 | visiting a box with one digit d removes d from every peer and changes no other box; visiting any other box changes nothing |
| Elimination.EliminateFromProgress | solution.py:111-114 | the visits of boxes k..80 add no candidate and only extend the trace |
| Elimination.EliminateProgress | solution.py:103-116 | `eliminate` adds no candidate anywhere and only extends the trace |
| Elimination.ClearsFrom | solution.py:111-114 | a box still holding d after visits k..80 that held d before them, with k at most its index, leaves d in none of its peers |
| Elimination.EliminateClearsPeers | solution.py:103-116 | a box holding one digit d before and after `eliminate` leaves d in none of its peers |
| Elimination.StripLossJustified | solution.py:114 | a candidate a box lacks after a determined box's digit is removed from one of its peers is explained by a peer holding exactly that candidate, or nothing |
| Elimination.StripPeerJustified | solution.py:114 | removing a determined box's digit from a peer keeps every lost candidate explained by a peer that holds exactly that digit, or nothing |
| Elimination.StripRemovalOnly | solution.py:114 | removing a digit keeps every changed box a box that lost some candidate |
| Elimination.StripJustified | solution.py:114 | one removal keeps all three facts (narrowed, changed only by losing candidates, losses explained by peers), and the determined box keeps its digit |
| Elimination.StripAllJustified | solution.py:113-114 | the removals for one determined box keep the three facts |
| Elimination.EliminateAtJustified | solution.py:112-114 | the visit of one box keeps the three facts |
| Elimination.EliminateFromJustified | solution.py:111-114 | the visits of boxes k..80 keep the three facts |
| Elimination.EliminateJustified | solution.py:103-116 | `eliminate` adds no candidate; every box it changes lost a candidate; and every candidate lost is explained by a peer that ends up holding exactly that digit, or nothing |
| Elimination.StripFixed | solution.py:114 | removing from a determined box a digit it does not hold changes nothing, the trace included |
| Elimination.StripAllFixed | solution.py:113-114 | removing d from boxes that are determined and lack d changes nothing |
| Elimination.PeerLacksDigit | solution.py:114 | in a filled grid with no two peers alike, a peer of a box is determined and lacks that box's digit |
| Elimination.PeersLackDigit | solution.py:113-114 | the same for every peer a box's turn visits |
| Elimination.EliminateAtFixed | solution.py:112-114 | in a filled grid with no two peers alike, a box's turn changes nothing |
| Elimination.EliminateFromFixed | solution.py:111-114 | the turns for boxes k..80 change nothing in such a grid |
| Elimination.EliminateFixed | solution.py:103-116 | a filled grid with no two peers alike passes through `eliminate` unchanged, with nothing recorded |
| Elimination.StripKeeps | solution.py:114 | removing a determined box's digit from one of its peers keeps every solution of the grid |
| Elimination.StripAllKeeps | solution.py:113-114 | removing it from any list of its peers keeps every solution |
| Elimination.EliminateFromKeeps | solution.py:111-114 | the turns for boxes k..80 keep every solution |
| Elimination.EliminateKeeps | solution.py:103-116 | `eliminate` loses no solution: every filled grid with no two peers alike that its input allows, its output allows |
| OnlyChoice.ChooseDigit | solution.py:130-132 | definition of one digit's turn: assign d to the only box of the unit that holds it; stated by `ChooseDigitChosen`, `ChooseDigitJustified` and `ChooseDigitKeeps` |
| OnlyChoice.ChooseDigits | solution.py:129-132 | definition of the loop over '123456789' for one unit; stated by `ChooseDigitsChosen` and `ChooseDigitsPlaces` |
| OnlyChoice.OnlyChoiceFrom | solution.py:127-132 | definition of the turns for units k..28; stated by `OnlyChoiceFromChosen` and `OnlyChoiceFromPlaces` |
| OnlyChoice.OnlyChoice | solution.py:118-134 | definition of `only_choice`; stated by `OnlyChoiceProgress`, `OnlyChoiceJustified`, `OnlyChoiceCompletes`, `OnlyChoiceKeeps` and `OnlyChoiceFixed` |
| OnlyChoice.Places | solution.py:130 | `dplaces` holds exactly the boxes of the unit that contain d, without repeats when the unit has none |
| OnlyChoice.ChosenNarrows | solution.py:132 | a grid whose changed boxes each became one of their own digits adds no candidate and keeps every determined box |
| OnlyChoice.ChosenTransitive | solution.py:127-132 | "each changed box became one of its own digits" composes across steps |
| OnlyChoice.ChooseDigitChosen | solution.py:130-132 | one digit's turn changes at most one box, to a digit it held |
| OnlyChoice.ChooseDigitsChosen | solution.py:129-132 | the loop over the digits for one unit changes boxes only to digits they held |
| OnlyChoice.OnlyChoiceFromChosen | solution.py:127-132 | the turns for units k..28 change boxes only to digits they held |
| OnlyChoice.OnlyChoiceProgress | solution.py:118-134 | `only_choice` adds no candidate; every box is unchanged or set to a single digit it held |
| OnlyChoice.OnlyPlaceNarrows | solution.py:130-131 | a box that is the only place for d in a unit stays so as candidates are removed, while it keeps d |
| OnlyChoice.HomedNarrows | solution.py:130-131 | a box that is the only place for d in some unit stays so while it keeps d |
| OnlyChoice.PlaceJustified | solution.py:131-132 | setting the only place of d in a unit to d keeps every changed box explained |
| OnlyChoice.SinglePlace | solution.py:130-131 | when `dplaces` has one entry, that box holds d and is the only box of the unit that does |
| OnlyChoice.ChooseDigitJustified | solution.py:130-132 | one digit's turn keeps every changed box explained |
| OnlyChoice.ChooseDigitsJustified | solution.py:129-132 | the loop over the digits of one unit keeps every changed box explained |
| OnlyChoice.OnlyChoiceFromJustified | solution.py:127-132 | the turns for units k..28 keep every changed box explained |
| OnlyChoice.OnlyChoiceJustified | solution.py:118-134 | every box `only_choice` changes is set to one digit it held, and at the end it is the only box of some unit that holds that digit |
| OnlyChoice.PlacedKept | solution.py:132 | once d is placed in a unit, or gone from it, it stays so under steps that only set boxes to their own digits |
| OnlyChoice.ChooseDigitsPlaces | solution.py:129-132 | if box b is the only place for d in a unit when that unit's digit loop starts, the loop leaves b holding exactly d, or d gone from the unit |
| OnlyChoice.VisitPlaces | solution.py:127-132 | the turn for unit k places d in its only box in that unit, or d is gone from the unit |
| OnlyChoice.OnlyChoiceFromPlaces | solution.py:127-132 | if b is the only place for d in unit k when the turns for units i..28 start (i at most k), the turns leave b holding exactly d, or d gone from unit k |
| OnlyChoice.OnlyChoiceCompletes | solution.py:118-134 | if b is the only place for d in a unit of the input, `only_choice` leaves b holding exactly d, or d gone from the whole unit |
| OnlyChoice.ChooseDigitFixed | solution.py:130-132 | in a grid of determined boxes, a digit's only place already holds just that digit, so the turn changes nothing |
| OnlyChoice.ChooseDigitsFixed | solution.py:129-132 | the loop over the digits of a unit changes nothing in such a grid |
| OnlyChoice.OnlyChoiceFromFixed | solution.py:127-132 | the turns for units k..28 change nothing in such a grid |
| OnlyChoice.OnlyChoiceFixed | solution.py:118-134 | a grid of determined boxes passes through `only_choice` unchanged, with nothing recorded |
| OnlyChoice.SolutionPlace | solution.py:130-131 | when d has a single place left in a unit, every filled grid of digits 1-9 with no two peers alike that the grid allows puts d there |
| OnlyChoice.ChooseDigitKeeps | solution.py:130-132 | one digit's turn keeps every such solution |
| OnlyChoice.ChooseDigitsKeeps | solution.py:129-132 | the loop over digits 1-9 for one unit keeps every such solution |
| OnlyChoice.OnlyChoiceFromKeeps | solution.py:127-132 | the turns for units k..28 keep every such solution |
| OnlyChoice.OnlyChoiceKeeps | solution.py:118-134 | `only_choice` loses no filled grid of digits 1-9 with no two peers alike that its input allows |
| NakedTwins.PairsWith | solution.py:52 | the pairs made for one box are exactly (box1, box2) for the listed peers box2 with the same value |
| NakedTwins.PairsFrom | solution.py:50-52 | the pairs for boxes k..80 are exactly the peer pairs with equal two-digit values and the first box at least k |
| NakedTwins.TwinPairs | solution.py:50-52 | `naked_twins` lists exactly the ordered pairs of peers that hold the same two-digit value |
| NakedTwins.TwinPairsSymmetric | solution.py:50-52 | every pair is listed both ways round |
| NakedTwins.CommonPeers | solution.py:58 | the common peers of two boxes are exactly the boxes that are peers of both, and never either box |
| NakedTwins.StripDigits | solution.py:63-64 | definition of the loop over box1's digits for one peer; stated by `StripDigitsEffect` |
| NakedTwins.ClearPeers | solution.py:61-64 | definition of the loop over a pair's common peers, skipping the twins; stated by `ClearPeersEffect` |
| NakedTwins.ClearPair | solution.py:56-64 | definition of one pair's turn; stated by `ClearPairEffect`, `ClearPairClears` and `ClearPairKeeps` |
| NakedTwins.ClearPairs | solution.py:55-64 | definition of the loop over the twin pairs; stated by `ClearPairsProgress`, `ClearPairsClears` and `ClearPairsKeeps` |
| NakedTwins.NakedTwins | solution.py:40-65 | definition of `naked_twins`; stated by `NakedTwinsProgress`, `NakedTwinsJustified`, `NakedTwinsClears`, `NakedTwinsKeeps` and `NakedTwinsFixed` |
| NakedTwins.StripDigitsEffect | solution.py:63-64 | stripping the digits of box1 from a peer leaves it with exactly its other digits, changes no other box, and only extends the trace |
| NakedTwins.ClearPeersEffect | solution.py:61-64 | the loop over a pair's common peers removes box1's digits from every listed box other than the twins, keeps box1, changes nothing else, and only extends the trace |
| NakedTwins.ClearPairEffect | solution.py:56-64 | one pair's turn removes box1's digits from every common peer of the twins and changes nothing else |
| NakedTwins.ClearPairsProgress | solution.py:55-64 | the turns over the pairs add no candidate and only extend the trace |
| NakedTwins.NakedTwinsProgress | solution.py:40-65 | `naked_twins` adds no candidate anywhere and only extends the trace |
| NakedTwins.ClearPairJustified | solution.py:56-64 | a pair's turn keeps every lost candidate explained by a listed pair whose common peer lost it and whose first box held it |
| NakedTwins.ClearPairsJustified | solution.py:55-64 | the turns over listed pairs keep every loss explained |
| NakedTwins.NakedTwinsJustified | solution.py:40-65 | a candidate `naked_twins` removes from box j was a digit of a twin x, whose twin y holds the same two-digit value, with j a peer of both |
| NakedTwins.ClearedNarrows | solution.py:63-64 | once no common peer of x and y holds a digit of x, that stays true as candidates are removed |
| NakedTwins.ClearPairClears | solution.py:56-64 | after a pair's turn, no common peer of the twins holds a digit of box1 |
| NakedTwins.ClearPairsKeepsCleared | solution.py:55-64 | later turns keep a pair cleared |
| NakedTwins.ClearPairsClears | solution.py:55-64 | every listed pair is cleared by the end of the loop |
| NakedTwins.NakedTwinsClears | solution.py:40-65 | for twins x and y of the input, after `naked_twins` no common peer of theirs holds any digit left in x |
| NakedTwins.NoTwins | solution.py:50-52 | a grid of determined boxes has no twin pairs |
| NakedTwins.NakedTwinsFixed | solution.py:40-65 | a grid of determined boxes passes through `naked_twins` unchanged, with nothing recorded |
| NakedTwins.TwoDigits | solution.py:52 | a two-character value holding two different digits holds nothing else |
| NakedTwins.TwinDigits | solution.py:52 | the two digits of twins are exactly the digits any solution of the grid puts in the two twins |
| NakedTwins.CommonPeerKeeps | solution.py:58-64 | a common peer of twins keeps its solution digit, which the first twin does not hold |
| NakedTwins.ClearPairKeeps | solution.py:56-64 | one pair's turn keeps every solution of the grid |
| NakedTwins.ClearPairsKeeps | solution.py:55-64 | the turns over pairs listed from an earlier grid keep every solution |
| NakedTwins.NakedTwinsKeeps | solution.py:40-65 | `naked_twins` loses no solution: every filled grid with no two peers alike that its input allows, its output allows |
| Reduce.Pass | solution.py:150-157 | definition of one pass: `eliminate`, then `only_choice`, then `naked_twins`; stated by `PassProgress`, `PassKeeps` and `PassFixed` |
| Reduce.PassProgress | solution.py:150-157 | one pass of the three rules adds no candidate and only extends the trace |
| Reduce.ReducePuzzle | solution.py:136-166 | `reduce_puzzle` reports success exactly when no box of its final grid is empty; it terminates because a non-stalled pass without an empty box raises the determined-box count, which cannot pass 81 |
| Reduce.ReduceProgress | solution.py:136-166 | `reduce_puzzle` adds no candidate and only extends the trace |
| Reduce.ReduceFailsOnEmpty | solution.py:164-165 | a grid with an empty box fails on the first pass |
| Reduce.ReduceStalls | solution.py:146-166 | a successful reduction ends with a pass that did not change the determined-box count, from a state reached from the input |
| Reduce.SolvedKept | solution.py:148-162 | narrowing a grid of determined boxes, without emptying a box, leaves it as it was |
| Reduce.EliminateFixedPeer | solution.py:111-114 | in a grid `eliminate` leaves unchanged, the digit of a determined box is in none of its peers |
| Reduce.EliminateFixedClear | solution.py:111-114 | in a grid `eliminate` leaves unchanged, no determined box shares its digit with a peer |
| Reduce.ClearSolved | solution.py:111-114 | a grid of determined boxes whose digits are in none of their peers has no two peers alike |
| Reduce.StalledUnchanged | solution.py:160-162 | a stalled pass that ends with every box determined started from that very grid, and its `eliminate` changed nothing |
| Reduce.EliminateFixedSolved | solution.py:111-114 | a grid of determined boxes that `eliminate` leaves unchanged has no two peers holding the same digit |
| Reduce.StalledSolved | solution.py:160-166 | a stalled pass ending with every box determined changed nothing, and no two peers hold the same digit |
| Reduce.ReduceSolvedValid | solution.py:136-166 | when `reduce_puzzle` succeeds with every box determined, no two peers hold the same digit |
| Reduce.PassFixed | solution.py:150-157 | a filled grid with no two peers alike passes through a pass unchanged |
| Reduce.ReduceFixed | solution.py:136-166 | `reduce_puzzle` returns a filled grid with no two peers alike as it is, succeeding, with nothing recorded |
| Reduce.PassKeeps | solution.py:150-157 | a pass keeps every filled grid of digits 1-9 with no two peers alike that its input allows |
| Reduce.ReduceKeeps | solution.py:136-166 | when the input allows such a grid, `reduce_puzzle` succeeds and its result still allows that grid |
| Search.FewestFrom | solution.py:184 | among boxes k..80, the box with more than one candidate that has the fewest, ties going to the lowest index; -1 exactly when there is none |
| Search.BranchBox | solution.py:184 | the branching box has more than one candidate, and no box with more than one has fewer, or as many with a lower index |
| Search.Undetermined | solution.py:180-184 | a reduced grid with no empty box that is not solved has a box with more than one candidate, so the `min` is defined |
| Search.Search | solution.py:168-192 | `search` only extends the trace; it returns False exactly when the reduction of its own grid fails, and returns None only when that reduced grid is not solved |
| Search.TryBranches | solution.py:187-192 | the branch loop only extends the trace and never returns False |
| Search.TryBranchesStep | solution.py:187-192 | the loop goes on past a digit only when the search on that digit's copy returned no grid |
| Search.BranchNarrows | solution.py:188-189 | a copy with the branching box set to one of its digits adds no candidate |
| Solutions.SolutionWidens | solution.py:188-190 | a solution of a narrower grid is a solution of the wider one |
| Search.SearchSound | solution.py:168-192 | every grid `search` returns has every box determined, no two peers alike, and each box a digit the input allowed there |
| Search.TryBranchesSound | solution.py:187-192 | every grid returned by the branch loop is such a solution of the grid being branched on |
| Search.SearchFixed | solution.py:176-181 | `search` returns a filled grid with no two peers alike at once, as it is, with nothing recorded |
| Search.BranchKeeps | solution.py:188-189 | setting the branching box to a solution's digit keeps that solution |
| Search.SolutionBranch | solution.py:188-190 | the search on the copy that takes the solution's digit returns a grid |
| Search.TryBranchesComplete | solution.py:187-192 | the branch loop returns a grid when the digits left to try include the digit of a solution |
| Search.SearchComplete | solution.py:168-192 | `search` returns a grid whenever its input allows a filled grid of digits 1-9 with no two peers alike; it never returns False or None then |
| Solve.Convert | solution.py:80-84 | definition of what one character appends: '123456789' for '.', the digit for 1-9, nothing otherwise; stated by `ParsedShape` |
| Solve.ParsedValues | solution.py:78-85 | definition of the list the loop builds; stated by `ParsedShape`, `ParseEncoded` and `EncodeParsed` |
| Solve.Parsed | solution.py:78-87 | definition of `grid_values`: the length assertion, then the list; stated by `GridValues` |
| Solve.ParsedShape | solution.py:78-85 | the list built from the characters holds only '123456789' or single digits 1-9; it is never longer than the string, and is as long exactly when every character is '.' or a digit |
| Solve.ParsedWellFormed | solution.py:78-85 | every value the loop appends is '123456789' or a single digit 1-9 |
| Solve.ParsedLength | solution.py:78-85 | the loop appends at most one value per character, and exactly one for each character iff all are '.' or digits |
| Solve.ParseEncoded | solution.py:78-85 | parsing the puzzle string of a well-formed grid gives that grid back |
| Solve.EncodeParsed | solution.py:78-85 | a string of '.' and digits is the puzzle string of what it parses to |
| Solve.GridValues | solution.py:68-87 | `grid_values` fails the length assertion when the string is not 81 characters long, and otherwise returns the values built from its characters |
| Solve.SolveErrors | solution.py:194-205 | `solve` fails the length assertion exactly when the string is not 81 characters long, and fails on a missing box exactly when one of the characters is neither '.' nor a digit |
| Solve.Solve | solution.py:194-205 | definition of `solve`: `grid_values`, then `search`; stated by `SolveErrors`, `SolveSound`, `SolveComplete`, `SolveDecides` and `SolveFixed` |
| Solve.BoxSound | solution.py:78-87 | a solution of the parsed puzzle holds a digit 1-9 in every box, and each given digit in its box |
| Solve.BoxesSound | solution.py:78-87 | every box of a solution of the parsed puzzle holds a digit 1-9, and each given digit is kept |
| Solve.PuzzleSolution | solution.py:194-205 | a solution of the parsed puzzle keeps the given digits and holds every digit 1-9 once in each of the 29 units |
| Solve.SolveSound | solution.py:194-205 | a grid `solve` returns is a solved diagonal Sudoku: digits 1-9, every digit once per unit, no two peers alike, and every given digit kept |
| Solve.GivenWithin | solution.py:78-87 | each parsed box allows the digit of any grid that completes the puzzle |
| Solve.SolveComplete | solution.py:194-205 | a puzzle of '.' and digits that some filled grid of digits 1-9 with no two peers alike completes, keeping the given digits, is solved: `solve` returns a grid, not False ("False if no solution exists", line 201) |
| Solve.SolveDecides | solution.py:194-205 | on 81 characters of '.' and digits, `solve` returns a grid exactly when a completing grid exists, and the grid it returns completes the puzzle |
| Solve.SolveFixed | solution.py:194-205 | the puzzle string of a solved diagonal Sudoku is returned solved, as that very grid, with nothing recorded |
| Solution.Board.constructor | solution.py:188 | a new values dictionary holds the given grid |
| Solution.Solver.constructor | solution.py:1 | the assignments list starts empty |
| Solution.Solver.AssignValue | solution.py:25-38 | `assign_value` leaves the board and the assignments list as `Assign` describes |
| Solution.Solver.StripPeers | solution.py:113-114 | the loop over a determined box's peers leaves the state the fold of removals describes |
| Solution.Solver.Eliminate | solution.py:103-116 | `eliminate`, run in place over the boxes, leaves the state the functional `eliminate` describes |
| Solution.Solver.ChooseInUnit | solution.py:129-132 | the loop over the digits for one unit leaves the state the functional loop describes |
| Solution.Solver.OnlyChoice | solution.py:118-134 | `only_choice`, run in place over the units, leaves the state the functional `only_choice` describes |
| Solution.Solver.StripDigits | solution.py:63-64 | the loop over box1's digits for one peer leaves the state the functional loop describes |
| Solution.Solver.ClearPeers | solution.py:61-64 | the loop over a pair's common peers leaves the state the functional loop describes |
| Solution.Solver.ClearTwins | solution.py:55-64 | the loop over the twin pairs leaves the state the functional loop describes |
| Solution.Solver.NakedTwins | solution.py:40-65 | `naked_twins`, run in place, leaves the state the functional `naked_twins` describes |
| Solution.Solver.ReducePuzzle | solution.py:136-166 | the `while not stalled` loop returns False exactly where the functional `reduce_puzzle` does, and leaves the board as that function's final state |
| Solution.Solver.Search | solution.py:168-192 | `search` on a board returns what the functional `search` returns, leaves the same assignments list, and leaves the board reduced in place as the functional `reduce_puzzle` leaves it |
| Solution.Solver.TryBranches | solution.py:187-192 | the branch loop returns what the functional loop returns and leaves the same assignments list |
| Solution.Solver.Branch | solution.py:188-190 | one branch runs `search` on a fresh copy with the chosen box set directly, without recording the choice |
| Solution.Solver.Solve | solution.py:194-205 | `solve` returns the outcome and trace of the functional `solve`, and leaves the assignments list untouched when it fails |

## Left out

- `display` (solution.py:89-101) is console output and is not modelled.
- The `__main__` block is not modelled. It prints the result and hands the assignments list to a visualiser that is not part of this model.
- Python iterates a `set` in hash order. That order decides the order in which `eliminate` visits a box's peers and `naked_twins` visits twins and common peers. The model fixes it to increasing box order. Because that order is fixed, the exact trace of snapshots is specific to it.
- Solve: a string of 81 characters containing characters other than '.' and 1-9 gives fewer than 81 values. The first pass then fails with a KeyError. The model reports `Err(MissingBox)` at once and does not model the snapshots that pass may append before it raises.
- Object identity is modelled only as far as the source relies on it:
  - `reduce_puzzle` updates its argument in place;
  - each branch of `search` works on a fresh copy;
  - every snapshot is a value copy.

  Aliasing of one dictionary by several names is not modelled.
- The order of a dictionary's keys is taken to be the order of `boxes`, the order `grid_values` creates them in. Copies keep that order.

Where the code and its prose description differ, the model follows the code:

- The diagonal units are always part of `unitlist`.
- `grid_values` silently skips characters other than '.' and 1-9 and checks only the raw string's length.
- The naked-twins common peers are recomputed for each pair.
