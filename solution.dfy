/** The solver as the source runs it: each values dictionary is an object updated in
    place, and assign_value appends its snapshots to the assignments list. Every method
    is proved to leave exactly the state that the functional definition of the same step
    describes. */
module Solution {
  import opened Topology
  import opened Candidates
  import Elim = Elimination
  import Choice = OnlyChoice
  import Twins = NakedTwins
  import Reduction = Reduce
  import Branching = Search
  import Puzzle = Solve

  /** A values dictionary. */
  class Board {
    var values: Grid

    constructor(v: Grid)
      ensures values == v
    {
      values := v;
    }
  }

  /** The solver's module-level state: the assignments list. */
  class Solver {
    var assignments: seq<Grid>

    constructor()
      ensures assignments == []
    {
      assignments := [];
    }

    /** The grid of `b` together with the trace recorded so far. */
    ghost function StateOf(b: Board): State
      reads this, b
    {
      State(b.values, assignments)
    }

    /** assign_value(values, box, value) */
    method AssignValue(b: Board, box: Cell, value: Cands)
      modifies this, b
      ensures StateOf(b) == Assign(old(StateOf(b)), box, value)
    {
      if b.values[box] == value {
        return;
      }
      b.values := b.values[box := value];
      if |value| == 1 {
        assignments := assignments + [b.values];
      }
    }

    /** The inner loop of eliminate for one determined box: its digit `d` is removed from
        each box of `ps` in turn. */
    method StripPeers(b: Board, ps: seq<Cell>, d: char)
      modifies this, b
      ensures StateOf(b) == Elim.StripAll(old(StateOf(b)), ps, d)
    {
      for k := 0 to |ps|
        invariant Elim.StripAll(StateOf(b), ps[k..], d) == Elim.StripAll(old(StateOf(b)), ps, d)
      {
        assert ps[k..][1..] == ps[k + 1..];
        AssignValue(b, ps[k], Remove(b.values[ps[k]], d));
      }
    }

    /** eliminate(values) */
    method Eliminate(b: Board)
      modifies this, b
      ensures StateOf(b) == Elim.Eliminate(old(StateOf(b)))
    {
      for box := 0 to 81
        invariant Elim.EliminateFrom(StateOf(b), box) == Elim.Eliminate(old(StateOf(b)))
      {
        ghost var start := StateOf(b);
        assert Elim.EliminateFrom(start, box) == Elim.EliminateFrom(Elim.EliminateAt(start, box), box + 1);
        if |b.values[box]| == 1 {
          var digit := b.values[box][0];
          StripPeers(b, PeerList(box), digit);
        }
      }
    }

    /** The inner loop of only_choice for one unit: each digit found in exactly one of its
        boxes is assigned there. */
    method ChooseInUnit(b: Board, unit: seq<Cell>)
      modifies this, b
      ensures StateOf(b) == Choice.ChooseDigits(old(StateOf(b)), unit, AllDigits)
    {
      for i := 0 to |AllDigits|
        invariant Choice.ChooseDigits(StateOf(b), unit, AllDigits[i..])
                  == Choice.ChooseDigits(old(StateOf(b)), unit, AllDigits)
      {
        assert AllDigits[i..][1..] == AllDigits[i + 1..];
        var d := AllDigits[i];
        var dplaces := Choice.Places(b.values, unit, d);
        if |dplaces| == 1 {
          AssignValue(b, dplaces[0], [d]);
        }
      }
    }

    /** only_choice(values) */
    method OnlyChoice(b: Board)
      modifies this, b
      ensures StateOf(b) == Choice.OnlyChoice(old(StateOf(b)))
    {
      var units := UnitList();
      for k := 0 to |units|
        invariant Choice.OnlyChoiceFrom(StateOf(b), k) == Choice.OnlyChoice(old(StateOf(b)))
      {
        ghost var start := StateOf(b);
        assert Choice.OnlyChoiceFrom(start, k)
               == Choice.OnlyChoiceFrom(Choice.ChooseDigits(start, units[k], AllDigits), k + 1);
        ChooseInUnit(b, units[k]);
      }
    }

    /** The innermost loop of naked_twins: the digits `ds` are removed from `peer` one by one. */
    method StripDigits(b: Board, peer: Cell, ds: seq<char>)
      modifies this, b
      ensures StateOf(b) == Twins.StripDigits(old(StateOf(b)), peer, ds)
    {
      for j := 0 to |ds|
        invariant Twins.StripDigits(StateOf(b), peer, ds[j..]) == Twins.StripDigits(old(StateOf(b)), peer, ds)
      {
        assert ds[j..][1..] == ds[j + 1..];
        AssignValue(b, peer, Remove(b.values[peer], ds[j]));
      }
    }

    /** The loop of naked_twins over the common peers `ps` of one pair of twins. */
    method ClearPeers(b: Board, box1: Cell, box2: Cell, ps: seq<Cell>)
      modifies this, b
      ensures StateOf(b) == Twins.ClearPeers(old(StateOf(b)), box1, box2, ps)
    {
      for k := 0 to |ps|
        invariant Twins.ClearPeers(StateOf(b), box1, box2, ps[k..])
                  == Twins.ClearPeers(old(StateOf(b)), box1, box2, ps)
      {
        assert ps[k..][1..] == ps[k + 1..];
        var peer := ps[k];
        if peer != box1 && peer != box2 {
          StripDigits(b, peer, b.values[box1]);
        }
      }
    }

    /** naked_twins(values) */
    method NakedTwins(b: Board)
      modifies this, b
      ensures StateOf(b) == Twins.NakedTwins(old(StateOf(b)))
    {
      var twins := Twins.TwinPairs(b.values);
      ClearTwins(b, twins);
    }

    /** The loop of naked_twins over the twin pairs found on entry. */
    method ClearTwins(b: Board, twins: seq<Twins.Pair>)
      modifies this, b
      ensures StateOf(b) == Twins.ClearPairs(old(StateOf(b)), twins)
    {
      for t := 0 to |twins|
        invariant Twins.ClearPairs(StateOf(b), twins[t..]) == Twins.ClearPairs(old(StateOf(b)), twins)
      {
        assert twins[t..][1..] == twins[t + 1..];
        var box1, box2 := twins[t].0, twins[t].1;
        ClearPeers(b, box1, box2, Twins.CommonPeers(box1, box2));
      }
    }

    /** reduce_puzzle(values): false where the source returns False; the board holds the
        reduced grid either way, since the source reduces its argument in place. */
    method ReducePuzzle(b: Board) returns (ok: bool)
      modifies this, b
      ensures (StateOf(b), ok) == Reduction.ReducePuzzle(old(StateOf(b)))
    {
      var stalled := false;
      while !stalled
        invariant !stalled ==> Reduction.ReducePuzzle(StateOf(b)) == Reduction.ReducePuzzle(old(StateOf(b)))
        invariant stalled ==> (StateOf(b), true) == Reduction.ReducePuzzle(old(StateOf(b)))
        decreases 81 - SolvedCount(b.values) + (if stalled then 0 else 1)
      {
        ghost var start := StateOf(b);
        var solvedValuesBefore := SolvedCount(b.values);
        Eliminate(b);
        OnlyChoice(b);
        NakedTwins(b);
        var solvedValuesAfter := SolvedCount(b.values);
        stalled := solvedValuesBefore == solvedValuesAfter;
        if HasEmpty(b.values) {
          return false;
        }
        Reduction.PassProgress(start);
        SolvedCountMonotone(start.values, b.values);
      }
      return true;
    }

    /** search(values): the board is reduced in place; if a box is still undetermined, the
        one with the fewest candidates is branched on. */
    method Search(b: Board) returns (result: Branching.Outcome)
      modifies this, b
      ensures Branching.Run(result, assignments) == Branching.Search(old(StateOf(b)))
      ensures b.values == Reduction.ReducePuzzle(old(StateOf(b))).0.values
      decreases Total(b.values), 1, 0
    {
      // The board is not the solver, so the branches below leave it as reduced.
      assert b as object != this as object;
      ghost var entry := StateOf(b);
      var ok := ReducePuzzle(b);
      if !ok {
        return Branching.Failed;
      }
      if AllSolved(b.values) {
        return Branching.Solved(b.values);
      }
      Branching.Undetermined(b.values);
      Reduction.ReduceProgress(entry);
      NarrowsTotal(entry.values, b.values);
      var s := Branching.BranchBox(b.values);
      result := TryBranches(b.values, s, b.values[s]);
    }

    /** The loop of search over the digits `ds` of box s, each tried on a fresh copy of
        `v`; the first grid found is returned. */
    method TryBranches(v: Grid, s: Cell, ds: seq<char>) returns (result: Branching.Outcome)
      requires |v[s]| > 1
      modifies this
      ensures Branching.Run(result, assignments) == Branching.TryBranches(v, s, ds, old(assignments))
      decreases Total(v), 0, |ds|
    {
      for i := 0 to |ds|
        invariant Branching.TryBranches(v, s, ds[i..], assignments)
                  == Branching.TryBranches(v, s, ds, old(assignments))
      {
        Branching.TryBranchesStep(v, s, ds, i, assignments);
        var attempt := Branch(v, s, ds[i]);
        if attempt.Solved? {
          return attempt;
        }
        assert Branching.TryBranches(v, s, ds[i + 1..], assignments)
               == Branching.TryBranches(v, s, ds, old(assignments));
      }
      assert ds[|ds|..] == [];
      return Branching.Exhausted;
    }

    /** One turn of that loop: new_sudoku = values.copy(); new_sudoku[s] = value; then
        search(new_sudoku). */
    method Branch(v: Grid, s: Cell, d: char) returns (attempt: Branching.Outcome)
      requires |v[s]| > 1
      modifies this
      ensures Branching.Run(attempt, assignments) == Branching.Search(State(v[s := [d]], old(assignments)))
      decreases Total(v), 0, 0
    {
      var newSudoku := new Board(v);
      newSudoku.values := newSudoku.values[s := [d]];
      TotalUpdate(v, s, [d]);
      attempt := Search(newSudoku);
    }

    /** solve(grid); an error leaves the assignments list as it was. */
    method Solve(grid: string) returns (r: Puzzle.Result<Branching.Outcome>)
      modifies this
      ensures r.Err? ==> Puzzle.Solve(grid, old(assignments)) == Puzzle.Err(r.error)
                         && assignments == old(assignments)
      ensures r.Ok? ==> Puzzle.Solve(grid, old(assignments)) == Puzzle.Ok(Branching.Run(r.value, assignments))
    {
      var parsed := Puzzle.GridValues(grid);
      if parsed.Err? {
        return Puzzle.Err(parsed.error);
      }
      var vs := parsed.value;
      Puzzle.ParsedShape(grid);
      if |vs| < 81 {
        return Puzzle.Err(Puzzle.MissingBox);
      }
      var values := new Board(vs);
      var outcome := Search(values);
      return Puzzle.Ok(outcome);
    }
  }
}
