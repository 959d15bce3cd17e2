/** reduce_puzzle: the three strategies applied in turn until a pass adds no determined
    box, or a box runs out of candidates. */
module Reduce {
  import opened Topology
  import opened Candidates
  import opened Solutions
  import Elimination
  import OnlyChoice
  import NakedTwins

  /** One turn of reduce_puzzle's loop: eliminate, then only_choice, then naked_twins. */
  function Pass(st: State): State {
    NakedTwins.NakedTwins(OnlyChoice.OnlyChoice(Elimination.Eliminate(st)))
  }

  /** A pass never adds a candidate and only appends to the trace. */
  lemma PassProgress(st: State)
    ensures Progress(st, Pass(st))
  {
    var e := Elimination.Eliminate(st);
    var o := OnlyChoice.OnlyChoice(e);
    Elimination.EliminateProgress(st);
    OnlyChoice.OnlyChoiceProgress(e);
    NakedTwins.NakedTwinsProgress(o);
    ProgressTransitive(st, e, o);
    ProgressTransitive(st, o, Pass(st));
  }

  /** reduce_puzzle(values): the state after the last pass, and false exactly when the
      source returns False (a box left with no candidate). A pass that leaves no box
      empty and changes the number of determined boxes can only have raised it, so the
      loop ends within 81 passes. */
  function ReducePuzzle(st: State): (r: (State, bool))
    ensures r.1 <==> !HasEmpty(r.0.values)
    decreases 81 - SolvedCount(st.values)
  {
    var next := Pass(st);
    if HasEmpty(next.values) then (next, false)
    else if SolvedCount(next.values) == SolvedCount(st.values) then (next, true)
    else
      PassProgress(st);
      SolvedCountMonotone(st.values, next.values);
      ReducePuzzle(next)
  }

  lemma {:induction false} ReduceProgress(st: State)
    ensures Progress(st, ReducePuzzle(st).0)
    decreases 81 - SolvedCount(st.values)
  {
    var next := Pass(st);
    PassProgress(st);
    if !HasEmpty(next.values) && SolvedCount(next.values) != SolvedCount(st.values) {
      SolvedCountMonotone(st.values, next.values);
      ReduceProgress(next);
      ProgressTransitive(st, next, ReducePuzzle(next).0);
    }
  }

  /** A grid that already has an empty box fails on the first pass. */
  lemma ReduceFailsOnEmpty(st: State)
    requires HasEmpty(st.values)
    ensures ReducePuzzle(st) == (Pass(st), false)
  {
    PassProgress(st);
    var i :| 0 <= i < 81 && st.values[i] == [];
    assert Pass(st).values[i] == [];
  }

  /** The pass that ended the loop did not change the number of determined boxes. */
  ghost predicate StalledAt(s: State, r: State) {
    Pass(s) == r && SolvedCount(s.values) == SolvedCount(r.values)
  }

  /** When reduce_puzzle succeeds, its result came from a state s, reached from the
      input, on which one more pass added no determined box. */
  lemma {:induction false} ReduceStalls(st: State)
    requires ReducePuzzle(st).1
    ensures exists s :: Progress(st, s) && StalledAt(s, ReducePuzzle(st).0)
    decreases 81 - SolvedCount(st.values)
  {
    var next := Pass(st);
    PassProgress(st);
    if SolvedCount(next.values) == SolvedCount(st.values) {
      assert Progress(st, st) && StalledAt(st, next);
    } else {
      SolvedCountMonotone(st.values, next.values);
      ReduceStalls(next);
      var s :| Progress(next, s) && StalledAt(s, ReducePuzzle(next).0);
      ProgressTransitive(st, next, s);
    }
  }

  /** A grid whose boxes stay determined through a pass of narrowing steps is not changed
      by any of them. */
  lemma SolvedKept(a: Grid, b: Grid)
    requires AllSolved(a) && Narrows(a, b) && !HasEmpty(b)
    ensures b == a
  {
    SolvedCountMonotone(a, b);
  }

  /** A stalled pass whose result has every box determined started from that very grid,
      and its eliminate step changed nothing. */
  lemma StalledUnchanged(s: State, r: State)
    requires StalledAt(s, r) && AllSolved(r.values)
    ensures AllSolved(s.values)
    ensures Elimination.Eliminate(s).values == s.values && r.values == s.values
  {
    var e := Elimination.Eliminate(s);
    var o := OnlyChoice.OnlyChoice(e);
    Elimination.EliminateProgress(s);
    OnlyChoice.OnlyChoiceProgress(e);
    NakedTwins.NakedTwinsProgress(o);
    ProgressTransitive(e, o, r);
    assert !HasEmpty(e.values) by {
      forall i | 0 <= i < 81 ensures e.values[i] != [] {
        assert |r.values[i]| <= |e.values[i]|;
      }
    }
    SolvedKept(s.values, e.values);
    SolvedKept(e.values, r.values);
  }

  /** If eliminate leaves a grid unchanged, the digit of a determined box is in none of
      its peers: eliminate would have removed it there. */
  lemma EliminateFixedPeer(s: State, i: Cell, p: Cell)
    requires Elimination.Eliminate(s).values == s.values
    requires |s.values[i]| == 1 && p in Peers(i)
    ensures s.values[i][0] !in s.values[p]
  {
    SingleCandidate(s.values[i]);
    Elimination.EliminateClearsPeers(s, i, s.values[i][0]);
  }

  /** No peer of a box holding one digit holds that digit. */
  ghost predicate PeersClear(v: Grid) {
    forall i: Cell, p: Cell :: p in Peers(i) && |v[i]| == 1 ==> v[i][0] !in v[p]
  }

  /** A grid that eliminate leaves unchanged has every determined digit cleared from the
      peers of its box. */
  lemma EliminateFixedClear(s: State)
    requires Elimination.Eliminate(s).values == s.values
    ensures PeersClear(s.values)
  {
    forall i: Cell, p: Cell | p in Peers(i) && |s.values[i]| == 1 ensures s.values[i][0] !in s.values[p] {
      EliminateFixedPeer(s, i, p);
    }
  }

  /** In a grid of determined boxes whose digits are cleared from their peers, no two
      peers share a digit. */
  lemma ClearSolved(v: Grid)
    requires AllSolved(v) && PeersClear(v)
    ensures NoPeerConflict(v)
  {
    forall i: Cell, p: Cell | p in Peers(i) ensures v[p] != v[i] {
      assert v[i][0] in v[i] && v[i][0] !in v[p];
    }
  }

  /** If eliminate leaves a grid of determined boxes unchanged, no two peers share a digit. */
  lemma EliminateFixedSolved(s: State)
    requires AllSolved(s.values) && Elimination.Eliminate(s).values == s.values
    ensures NoPeerConflict(s.values)
  {
    EliminateFixedClear(s);
    ClearSolved(s.values);
  }

  /** A stalled pass over a grid of determined boxes changes nothing, and leaves no two
      peers with the same digit. */
  lemma StalledSolved(s: State, r: State)
    requires StalledAt(s, r) && AllSolved(r.values)
    ensures r.values == s.values
    ensures NoPeerConflict(r.values)
  {
    StalledUnchanged(s, r);
    EliminateFixedSolved(s);
  }

  /** When reduce_puzzle succeeds with every box determined, no two peers share a digit. */
  lemma ReduceSolvedValid(st: State)
    requires ReducePuzzle(st).1 && AllSolved(ReducePuzzle(st).0.values)
    ensures NoPeerConflict(ReducePuzzle(st).0.values)
  {
    ReduceStalls(st);
    var s :| Progress(st, s) && StalledAt(s, ReducePuzzle(st).0);
    StalledSolved(s, ReducePuzzle(st).0);
  }

  // ----- a filled grid

  /** A solved grid with no two peers alike passes through a pass unchanged. */
  lemma PassFixed(st: State)
    requires AllSolved(st.values) && NoPeerConflict(st.values)
    ensures Pass(st) == st
  {
    Elimination.EliminateFixed(st);
    OnlyChoice.OnlyChoiceFixed(st);
    NakedTwins.NakedTwinsFixed(st);
  }

  /** reduce_puzzle leaves a solved grid with no two peers alike exactly as it was,
      records nothing, and succeeds. */
  lemma ReduceFixed(st: State)
    requires AllSolved(st.values) && NoPeerConflict(st.values)
    ensures ReducePuzzle(st) == (st, true)
  {
    PassFixed(st);
    SolvedCountMonotone(st.values, st.values);
    assert !HasEmpty(st.values) by {
      forall i | 0 <= i < 81 ensures st.values[i] != [] {
        assert |st.values[i]| == 1;
      }
    }
  }

  // ----- a solution survives

  lemma PassKeeps(st: State, g: Grid)
    requires Complete(g) && SolutionOf(g, st.values)
    ensures SolutionOf(g, Pass(st).values)
  {
    var e := Elimination.Eliminate(st);
    var o := OnlyChoice.OnlyChoice(e);
    Elimination.EliminateKeeps(st, g);
    OnlyChoice.OnlyChoiceKeeps(e, g);
    NakedTwins.NakedTwinsKeeps(o, g);
  }

  /** When a solved diagonal Sudoku narrows the grid, reduce_puzzle succeeds and that
      Sudoku still narrows what it leaves: a False from reduce_puzzle means the grid
      has no solution. */
  lemma {:induction false} ReduceKeeps(st: State, g: Grid)
    requires Complete(g) && SolutionOf(g, st.values)
    ensures ReducePuzzle(st).1
    ensures SolutionOf(g, ReducePuzzle(st).0.values)
    decreases 81 - SolvedCount(st.values)
  {
    var next := Pass(st);
    PassKeeps(st, g);
    SolutionNotEmpty(g, next.values);
    if SolvedCount(next.values) != SolvedCount(st.values) {
      PassProgress(st);
      SolvedCountMonotone(st.values, next.values);
      ReduceKeeps(next, g);
    }
  }
}
