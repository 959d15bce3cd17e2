/** Filled grids: every box one digit, no two peers alike. What search returns, and
    what a solution of a puzzle is. */
module Solutions {
  import opened Topology
  import opened Candidates

  /** No two peers hold the same candidate string. */
  predicate NoPeerConflict(v: Grid) {
    forall i: Cell, p: Cell :: p in Peers(i) ==> v[p] != v[i]
  }

  /** What a grid returned by search is: every box determined, no two peers sharing a
      digit, and each digit one that the same box of the input allowed. */
  ghost predicate SolutionOf(g: Grid, v: Grid) {
    AllSolved(g) && NoPeerConflict(g) && Narrows(v, g)
  }

  /** A solution of a narrower grid is a solution of the wider one. */
  lemma SolutionWidens(g: Grid, v: Grid, w: Grid)
    requires Narrows(v, w) && SolutionOf(g, w)
    ensures SolutionOf(g, v)
  {
    forall i | 0 <= i < 81 ensures Within(g[i], v[i]) {
      assert Within(g[i], w[i]) && Within(w[i], v[i]);
    }
  }

  /** The digit of a determined box. */
  function DigitOf(g: Grid, x: Cell): char
    requires AllSolved(g)
  {
    g[x][0]
  }

  /** A solved diagonal Sudoku: every box one digit 1-9, and no two peers alike. */
  ghost predicate Complete(g: Grid) {
    AllSolved(g) && NoPeerConflict(g) && forall x: Cell :: DigitOf(g, x) in AllDigits
  }

  /** A grid that a filled grid narrows has no empty box. */
  lemma SolutionNotEmpty(g: Grid, v: Grid)
    requires AllSolved(g) && Narrows(v, g)
    ensures !HasEmpty(v)
  {
    forall i | 0 <= i < 81 ensures v[i] != [] {
      assert g[i][0] in g[i] && Within(g[i], v[i]);
    }
  }

  /** An assignment that still allows a solution's digit in the box it writes keeps that
      solution. */
  lemma AssignKeeps(st: State, p: Cell, value: Cands, g: Grid)
    requires SolutionOf(g, st.values) && Within(g[p], value)
    ensures SolutionOf(g, Assign(st, p, value).values)
  {
    var w := Assign(st, p, value).values;
    forall j | 0 <= j < 81 ensures Within(g[j], w[j]) {
      if j != p {
        assert w[j] == st.values[j] && Within(g[j], st.values[j]);
      }
    }
  }

  /** The digit a solution puts in a box is a candidate of that box. */
  lemma SolutionDigit(g: Grid, v: Grid, x: Cell)
    requires AllSolved(g) && Narrows(v, g)
    ensures g[x][0] in v[x]
  {
    assert Within(g[x], v[x]) && g[x][0] in g[x];
  }

  /** Two peers of a filled grid with no two peers alike hold different digits. */
  lemma PeerDigits(g: Grid, x: Cell, y: Cell)
    requires AllSolved(g) && NoPeerConflict(g) && y in Peers(x)
    ensures g[x][0] != g[y][0]
  {
    SingleCandidate(g[x]);
    SingleCandidate(g[y]);
  }

  /** Every unit holds each digit 1-9 exactly once. */
  ghost predicate UnitsComplete(g: Grid) {
    forall k, d :: 0 <= k < |UnitList()| && d in AllDigits ==>
      exists x: Cell :: x in UnitList()[k] && g[x] == [d]
  }

  /** n different members of a list of n different items are all of them. */
  lemma FillsAll<T>(ds: seq<T>, all: seq<T>)
    requires |ds| == |all| && Distinct(ds) && Distinct(all)
    requires forall i :: 0 <= i < |ds| ==> ds[i] in all
    ensures forall d :: d in all ==> d in ds
  {
    DistinctCard(ds);
    DistinctCard(all);
    var found := set c | c in ds;
    var everything := set c | c in all;
    assert found <= everything by {
      forall c | c in found ensures c in everything {
        var i :| 0 <= i < |ds| && ds[i] == c;
      }
    }
    var missing := everything - found;
    assert everything == found + missing && found !! missing;
    assert |missing| == 0;
    forall d | d in all ensures d in ds {
      assert d in everything && d !in missing;
    }
  }

  /** Nine different digits 1-9 are all of them. */
  lemma NineDigits(ds: seq<char>)
    requires |ds| == 9 && Distinct(ds)
    requires forall i :: 0 <= i < 9 ==> ds[i] in AllDigits
    ensures forall d :: d in AllDigits ==> d in ds
  {
    assert Distinct(AllDigits);
    FillsAll(ds, AllDigits);
  }

  /** The digits of unit k of a solution, in the unit's order, are all different. */
  lemma UnitDigits(g: Grid, k: nat) returns (ds: seq<char>)
    requires AllSolved(g) && NoPeerConflict(g)
    requires k < |UnitList()|
    ensures |ds| == 9 && Distinct(ds)
    ensures forall i :: 0 <= i < 9 ==> UnitList()[k][i] in UnitList()[k] && g[UnitList()[k][i]] == [ds[i]]
  {
    UnitShape(k);
    var u := UnitList()[k];
    ds := seq(9, i requires 0 <= i < 9 => DigitOf(g, u[i]));
    forall i | 0 <= i < 9 ensures u[i] in u && g[u[i]] == [ds[i]] {
      SingleCandidate(g[u[i]]);
    }
    forall i, j | 0 <= i < j < 9 ensures ds[i] != ds[j] {
      UnitMembersArePeers(k, u[i], u[j]);
    }
  }

  /** The nine digits of a unit of a solution are different digits 1-9, so they are all
      of them. */
  lemma UnitComplete(g: Grid, k: nat, d: char)
    requires AllSolved(g) && NoPeerConflict(g)
    requires forall x: Cell :: DigitOf(g, x) in AllDigits
    requires k < |UnitList()| && d in AllDigits
    ensures exists x: Cell :: x in UnitList()[k] && g[x] == [d]
  {
    var ds := UnitDigits(g, k);
    var u := UnitList()[k];
    forall i | 0 <= i < 9 ensures ds[i] in AllDigits {
      assert g[u[i]] == [ds[i]] && DigitOf(g, u[i]) == ds[i];
    }
    NineDigits(ds);
    var i :| 0 <= i < 9 && ds[i] == d;
    assert u[i] in u && g[u[i]] == [d];
  }

}
