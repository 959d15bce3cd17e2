/** search: reduce, then branch on the undetermined box with the fewest candidates,
    trying its digits in order on copies of the grid. */
module Search {
  import opened Topology
  import opened Candidates
  import opened Solutions
  import opened Reduce

  /** What search returns: a grid, False (reduction emptied a box) or None (every branch
      failed). */
  datatype Outcome = Solved(grid: Grid) | Failed | Exhausted

  /** The outcome together with the trace as it stands afterwards. */
  datatype Run = Run(outcome: Outcome, trace: seq<Grid>)

  /** The box with the fewest candidates among boxes i..80 with more than one, the
      lowest-numbered on a tie; -1 if there is none. */
  function FewestFrom(v: Grid, i: nat): (s: int)
    requires i <= 81
    ensures s == -1 <==> forall j :: i <= j < 81 ==> |v[j]| <= 1
    ensures s != -1 ==> i <= s < 81 && |v[s]| > 1
    ensures s != -1 ==> forall j :: i <= j < 81 && |v[j]| > 1 ==>
                          |v[s]| < |v[j]| || (|v[s]| == |v[j]| && s <= j)
    decreases 81 - i
  {
    if i == 81 then -1
    else
      var rest := FewestFrom(v, i + 1);
      if |v[i]| <= 1 then rest
      else if rest == -1 || |v[i]| <= |v[rest]| then i
      else rest
  }

  /** n, s = min((len(values[s]), s) for s in boxes if len(values[s]) > 1): the box
      with the fewest candidates above one, ties going to the first in box order. */
  function BranchBox(v: Grid): (s: Cell)
    requires exists i :: 0 <= i < 81 && |v[i]| > 1
    ensures |v[s]| > 1
    ensures forall j :: 0 <= j < 81 && |v[j]| > 1 ==> |v[s]| < |v[j]| || (|v[s]| == |v[j]| && s <= j)
  {
    FewestFrom(v, 0)
  }

  /** A grid with no empty box and an undetermined one has a box with more than one
      candidate. */
  lemma Undetermined(v: Grid)
    requires !HasEmpty(v) && !AllSolved(v)
    ensures exists i :: 0 <= i < 81 && |v[i]| > 1
  {
    var i :| 0 <= i < 81 && |v[i]| != 1;
    assert v[i] != [];
  }

  lemma PrefixTransitive(a: seq<Grid>, b: seq<Grid>, c: seq<Grid>)
    requires a <= b && b <= c
    ensures a <= c
  {
    assert c[..|a|] == b[..|a|];
  }

  /** search(values). The reduced grid is returned when every box is determined;
      otherwise the branches are tried in turn. Failed comes only from the reduction
      of this very grid, Exhausted only after branching. */
  function Search(st: State): (r: Run)
    ensures st.trace <= r.trace
    ensures r.outcome.Failed? <==> !ReducePuzzle(st).1
    ensures r.outcome.Exhausted? ==> !AllSolved(ReducePuzzle(st).0.values)
    decreases Total(st.values), 1, 0
  {
    var (red, ok) := ReducePuzzle(st);
    ReduceProgress(st);
    if !ok then Run(Failed, red.trace)
    else if AllSolved(red.values) then Run(Solved(red.values), red.trace)
    else
      Undetermined(red.values);
      NarrowsTotal(st.values, red.values);
      var s := BranchBox(red.values);
      var r := TryBranches(red.values, s, red.values[s], red.trace);
      PrefixTransitive(st.trace, red.trace, r.trace);
      r
  }

  /** for value in values[s]: try search on a copy with box s set to value (directly,
      not through assign_value, so the choice itself is not recorded); the first grid
      found is returned, and None when every digit fails. */
  function TryBranches(v: Grid, s: Cell, ds: seq<char>, trace: seq<Grid>): (r: Run)
    requires |v[s]| > 1
    ensures trace <= r.trace
    ensures !r.outcome.Failed?
    decreases Total(v), 0, |ds|
  {
    if ds == [] then Run(Exhausted, trace)
    else
      TotalUpdate(v, s, [ds[0]]);
      var attempt := Search(State(v[s := [ds[0]]], trace));
      if attempt.outcome.Solved? then attempt
      else
        var r := TryBranches(v, s, ds[1..], attempt.trace);
        PrefixTransitive(trace, attempt.trace, r.trace);
        r
  }

  /** One turn of the branch loop: the first digit is tried, and the loop goes on with
      the rest only if that attempt found no grid. */
  lemma TryBranchesStep(v: Grid, s: Cell, ds: seq<char>, i: nat, trace: seq<Grid>)
    requires |v[s]| > 1 && i < |ds|
    ensures var attempt := Search(State(v[s := [ds[i]]], trace));
            TryBranches(v, s, ds[i..], trace)
            == if attempt.outcome.Solved? then attempt else TryBranches(v, s, ds[i + 1..], attempt.trace)
  {
    assert ds[i..][1..] == ds[i + 1..];
  }

  /** Setting a box to one of its own digits narrows the grid. */
  lemma BranchNarrows(v: Grid, s: Cell, d: char)
    requires d in v[s]
    ensures Narrows(v, v[s := [d]])
  {
  }

  /** Any grid search returns is a solution of the grid it was given. */
  lemma {:induction false} SearchSound(st: State)
    ensures Search(st).outcome.Solved? ==> SolutionOf(Search(st).outcome.grid, st.values)
    decreases Total(st.values), 1, 0
  {
    var (red, ok) := ReducePuzzle(st);
    ReduceProgress(st);
    if ok {
      if AllSolved(red.values) {
        ReduceSolvedValid(st);
      } else {
        Undetermined(red.values);
        NarrowsTotal(st.values, red.values);
        var s := BranchBox(red.values);
        var r := TryBranches(red.values, s, red.values[s], red.trace);
        assert Search(st) == r;
        TryBranchesSound(red.values, s, red.values[s], red.trace);
        if r.outcome.Solved? {
          SolutionWidens(r.outcome.grid, st.values, red.values);
        }
      }
    }
  }

  lemma {:induction false} TryBranchesSound(v: Grid, s: Cell, ds: seq<char>, trace: seq<Grid>)
    requires |v[s]| > 1
    requires forall c :: c in ds ==> c in v[s]
    ensures TryBranches(v, s, ds, trace).outcome.Solved? ==> SolutionOf(TryBranches(v, s, ds, trace).outcome.grid, v)
    decreases Total(v), 0, |ds|
  {
    if ds != [] {
      TotalUpdate(v, s, [ds[0]]);
      var w := v[s := [ds[0]]];
      var attempt := Search(State(w, trace));
      assert TryBranches(v, s, ds, trace)
        == if attempt.outcome.Solved? then attempt else TryBranches(v, s, ds[1..], attempt.trace);
      SearchSound(State(w, trace));
      if attempt.outcome.Solved? {
        assert ds[0] in ds;
        BranchNarrows(v, s, ds[0]);
        SolutionWidens(attempt.outcome.grid, v, w);
      } else {
        assert forall c :: c in ds[1..] ==> c in ds;
        TryBranchesSound(v, s, ds[1..], attempt.trace);
      }
    }
  }

  // ----- a filled grid

  /** search returns a solved grid with no two peers alike as it is, and records
      nothing. */
  lemma SearchFixed(st: State)
    requires AllSolved(st.values) && NoPeerConflict(st.values)
    ensures Search(st) == Run(Solved(st.values), st.trace)
  {
    ReduceFixed(st);
  }

  // ----- nothing is missed

  lemma InTail<T>(x: T, ds: seq<T>)
    requires x in ds && x != ds[0]
    ensures x in ds[1..]
  {
    var i :| 0 <= i < |ds| && ds[i] == x;
    assert ds[1..][i - 1] == x;
  }

  /** Setting the branching box to a solution's digit keeps that solution. */
  lemma BranchKeeps(v: Grid, s: Cell, g: Grid)
    requires SolutionOf(g, v)
    ensures SolutionOf(g, v[s := [g[s][0]]])
  {
    var w := v[s := [g[s][0]]];
    SingleCandidate(g[s]);
    forall j | 0 <= j < 81 ensures Within(g[j], w[j]) {
      if j != s {
        assert Within(g[j], v[j]);
      }
    }
  }

  /** When a solved diagonal Sudoku narrows the grid, search returns a grid: False and
      None come only from grids that have no solution. */
  lemma {:induction false} SearchComplete(st: State, g: Grid)
    requires Complete(g) && SolutionOf(g, st.values)
    ensures Search(st).outcome.Solved?
    decreases Total(st.values), 1, 0
  {
    var (red, ok) := ReducePuzzle(st);
    ReduceKeeps(st, g);
    ReduceProgress(st);
    if !AllSolved(red.values) {
      SolutionNotEmpty(g, red.values);
      Undetermined(red.values);
      NarrowsTotal(st.values, red.values);
      var s := BranchBox(red.values);
      assert Search(st) == TryBranches(red.values, s, red.values[s], red.trace);
      SolutionDigit(g, red.values, s);
      TryBranchesComplete(red.values, s, red.values[s], red.trace, g);
    }
  }

  lemma {:induction false} TryBranchesComplete(v: Grid, s: Cell, ds: seq<char>, trace: seq<Grid>, g: Grid)
    requires |v[s]| > 1
    requires Complete(g) && SolutionOf(g, v) && g[s][0] in ds
    ensures TryBranches(v, s, ds, trace).outcome.Solved?
    decreases Total(v), 0, |ds|
  {
    var attempt := Search(State(v[s := [ds[0]]], trace));
    assert TryBranches(v, s, ds, trace)
      == if attempt.outcome.Solved? then attempt else TryBranches(v, s, ds[1..], attempt.trace);
    if ds[0] == g[s][0] {
      SolutionBranch(v, s, trace, g);
    } else if !attempt.outcome.Solved? {
      InTail(g[s][0], ds);
      TryBranchesComplete(v, s, ds[1..], attempt.trace, g);
    }
  }

  /** The branch that sets box s to the solution's digit finds a grid. */
  lemma {:induction false} SolutionBranch(v: Grid, s: Cell, trace: seq<Grid>, g: Grid)
    requires |v[s]| > 1
    requires Complete(g) && SolutionOf(g, v)
    ensures Search(State(v[s := [g[s][0]]], trace)).outcome.Solved?
    decreases Total(v), 0, 0
  {
    var w := v[s := [g[s][0]]];
    assert Total(w) < Total(v) by {
      TotalUpdate(v, s, [g[s][0]]);
    }
    assert SolutionOf(g, w) by {
      BranchKeeps(v, s, g);
    }
    SearchComplete(State(w, trace), g);
  }
}
