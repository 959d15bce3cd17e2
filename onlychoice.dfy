/** The only-choice strategy (only_choice): a digit that fits in just one box of a unit
    is placed there. */
module OnlyChoice {
  import opened Topology
  import opened Candidates
  import opened Solutions

  /** [box for box in unit if d in values[box]]: the boxes of the unit that can still
      hold d, in the unit's order. */
  function Places(v: Grid, unit: seq<Cell>, d: char): (ps: seq<Cell>)
    ensures forall b: Cell :: b in ps <==> b in unit && d in v[b]
    ensures Distinct(unit) ==> Distinct(ps)
  {
    if unit == [] then []
    else
      var rest := Places(v, unit[1..], d);
      assert forall b :: b in unit <==> b == unit[0] || b in unit[1..] by {
        assert unit == [unit[0]] + unit[1..];
      }
      assert Distinct(unit) ==> unit[0] !in unit[1..] && Distinct(unit[1..]) by {
        if Distinct(unit) {
          forall j | 0 <= j < |unit[1..]| ensures unit[1..][j] != unit[0] {
            assert unit[1..][j] == unit[j + 1];
          }
        }
      }
      assert Distinct(unit) && d in v[unit[0]] ==> Distinct([unit[0]] + rest) by {
        if Distinct(unit) && d in v[unit[0]] {
          forall i, j | 0 <= i < j < |[unit[0]] + rest| ensures ([unit[0]] + rest)[i] != ([unit[0]] + rest)[j] {
            if i == 0 {
              assert ([unit[0]] + rest)[j] == rest[j - 1] && rest[j - 1] in rest;
            }
          }
        }
      }
      (if d in v[unit[0]] then [unit[0]] else []) + rest
  }

  /** A sequence of distinct elements that holds b and nothing else has length 1. */
  lemma SingleElement(s: seq<Cell>, b: Cell)
    requires Distinct(s) && b in s
    requires forall i :: 0 <= i < |s| ==> s[i] == b
    ensures |s| == 1
  {
    DistinctCard<Cell>(s);
    var all := set x: Cell | x in s;
    assert all == {b} by {
      forall x | x in all ensures x == b {
        var i :| 0 <= i < |s| && s[i] == x;
      }
    }
    assert |all| == 1;
  }

  /** One turn of the loop over digits: if d has exactly one place left in the unit, that
      box is set to d. */
  function ChooseDigit(st: State, unit: seq<Cell>, d: char): State {
    var places := Places(st.values, unit, d);
    if |places| == 1 then Assign(st, places[0], [d]) else st
  }

  /** The loop over the digits `ds` for one unit, in order. */
  function ChooseDigits(st: State, unit: seq<Cell>, ds: seq<char>): State
    decreases |ds|
  {
    if ds == [] then st else ChooseDigits(ChooseDigit(st, unit, ds[0]), unit, ds[1..])
  }

  /** The turns of the loop over unitlist for the units numbered k and above. */
  function OnlyChoiceFrom(st: State, k: nat): State
    requires k <= |UnitList()|
    decreases |UnitList()| - k
  {
    if k == |UnitList()| then st else OnlyChoiceFrom(ChooseDigits(st, UnitList()[k], AllDigits), k + 1)
  }

  /** only_choice(values): every unit in list order, every digit 1-9 in order. */
  function OnlyChoice(st: State): State {
    OnlyChoiceFrom(st, 0)
  }

  // ----- what a step may change

  /** Every box of `b` is the box of `a`, or a single digit that the box of `a` held. */
  ghost predicate Chosen(a: Grid, b: Grid) {
    forall j :: 0 <= j < 81 ==> b[j] == a[j] || (|b[j]| == 1 && b[j][0] in a[j])
  }

  lemma ChosenTransitive(a: Grid, b: Grid, c: Grid)
    requires Chosen(a, b) && Chosen(b, c)
    ensures Chosen(a, c)
  {
    forall j | 0 <= j < 81 ensures c[j] == a[j] || (|c[j]| == 1 && c[j][0] in a[j]) {
      if c[j] != b[j] && b[j] != a[j] {
        SingleCandidate(b[j]);
      }
    }
  }

  /** A change of only_choice sets a box to one of its own digits, so a box that holds
      a single digit keeps it, and no box gains a candidate. */
  lemma ChosenNarrows(a: Grid, b: Grid)
    requires Chosen(a, b)
    ensures Narrows(a, b)
    ensures forall j :: 0 <= j < 81 && |a[j]| == 1 ==> b[j] == a[j]
  {
    forall j | 0 <= j < 81 && |a[j]| == 1 ensures b[j] == a[j] {
      SingleCandidate(a[j]);
    }
  }

  lemma ChooseDigitChosen(st: State, unit: seq<Cell>, d: char)
    ensures Chosen(st.values, ChooseDigit(st, unit, d).values)
    ensures Progress(st, ChooseDigit(st, unit, d))
  {
    var places := Places(st.values, unit, d);
    if |places| == 1 {
      assert places[0] in places;
      PlaceProgress(st, places[0], d);
    }
  }

  lemma {:induction false} ChooseDigitsChosen(st: State, unit: seq<Cell>, ds: seq<char>)
    ensures Chosen(st.values, ChooseDigits(st, unit, ds).values)
    ensures Progress(st, ChooseDigits(st, unit, ds))
    decreases |ds|
  {
    if ds != [] {
      var next := ChooseDigit(st, unit, ds[0]);
      ChooseDigitChosen(st, unit, ds[0]);
      ChooseDigitsChosen(next, unit, ds[1..]);
      ChosenTransitive(st.values, next.values, ChooseDigits(next, unit, ds[1..]).values);
      ProgressTransitive(st, next, ChooseDigits(next, unit, ds[1..]));
    }
  }

  lemma {:induction false} OnlyChoiceFromChosen(st: State, k: nat)
    requires k <= |UnitList()|
    ensures Chosen(st.values, OnlyChoiceFrom(st, k).values)
    ensures Progress(st, OnlyChoiceFrom(st, k))
    decreases |UnitList()| - k
  {
    if k < |UnitList()| {
      var next := ChooseDigits(st, UnitList()[k], AllDigits);
      ChooseDigitsChosen(st, UnitList()[k], AllDigits);
      OnlyChoiceFromChosen(next, k + 1);
      ChosenTransitive(st.values, next.values, OnlyChoiceFrom(next, k + 1).values);
      ProgressTransitive(st, next, OnlyChoiceFrom(next, k + 1));
    }
  }

  /** only_choice never adds a candidate and only appends to the trace; every box it
      changes ends up holding exactly one of the digits it held before. */
  lemma OnlyChoiceProgress(st: State)
    ensures Progress(st, OnlyChoice(st))
    ensures forall j :: 0 <= j < 81 ==>
      OnlyChoice(st).values[j] == st.values[j]
      || (|OnlyChoice(st).values[j]| == 1 && OnlyChoice(st).values[j][0] in st.values[j])
  {
    OnlyChoiceFromChosen(st, 0);
  }

  // ----- why a box was changed

  /** In unit k, no box other than j can hold d. */
  ghost predicate OnlyPlace(v: Grid, k: nat, j: Cell, d: char)
    requires k < |UnitList()|
  {
    j in UnitList()[k] && forall x: Cell :: x in UnitList()[k] && x != j ==> d !in v[x]
  }

  /** Some unit has box j as the only place for d. */
  ghost predicate Homed(v: Grid, j: Cell, d: char) {
    exists k :: 0 <= k < |UnitList()| && OnlyPlace(v, k, j, d)
  }

  /** Every box changed between `a` and `b` holds a single digit it held in `a`, and is
      in `b` the only place for that digit in one of its units. */
  ghost predicate ChoiceJustified(a: Grid, b: Grid) {
    forall j: Cell :: b[j] == a[j] || (|b[j]| == 1 && b[j][0] in a[j] && Homed(b, j, b[j][0]))
  }

  lemma OnlyPlaceNarrows(v: Grid, w: Grid, k: nat, j: Cell, d: char)
    requires k < |UnitList()| && Narrows(v, w) && OnlyPlace(v, k, j, d)
    ensures OnlyPlace(w, k, j, d)
  {
  }

  lemma HomedNarrows(v: Grid, w: Grid, j: Cell, d: char)
    requires Narrows(v, w) && Homed(v, j, d)
    ensures Homed(w, j, d)
  {
    var k :| 0 <= k < |UnitList()| && OnlyPlace(v, k, j, d);
    OnlyPlaceNarrows(v, w, k, j, d);
  }

  /** Setting box p to digit d, when p is then the only place for d in unit k, keeps
      every change justified. */
  lemma PlaceJustified(a: Grid, v: Grid, w: Grid, k: nat, p: Cell, d: char)
    requires k < |UnitList()|
    requires ChoiceJustified(a, v) && Narrows(v, w)
    requires forall j: Cell :: j != p ==> w[j] == v[j]
    requires d in v[p] && w[p] == [d] && OnlyPlace(w, k, p, d)
    ensures ChoiceJustified(a, w)
  {
    forall j: Cell ensures w[j] == a[j] || (|w[j]| == 1 && w[j][0] in a[j] && Homed(w, j, w[j][0])) {
      if w[j] != a[j] {
        if j == p {
          assert Homed(w, j, d);
          if v[j] != a[j] {
            SingleCandidate(v[j]);
          }
        } else {
          HomedNarrows(v, w, j, v[j][0]);
        }
      }
    }
  }

  /** The one box where d is found in unit k is the only place for d there. */
  lemma SinglePlace(v: Grid, k: nat, d: char)
    requires k < |UnitList()| && |Places(v, UnitList()[k], d)| == 1
    ensures var p := Places(v, UnitList()[k], d)[0]; d in v[p] && OnlyPlace(v, k, p, d)
  {
    var places := Places(v, UnitList()[k], d);
    var p := places[0];
    assert places == [p];
    assert p in places;
    forall x: Cell | x in UnitList()[k] && x != p ensures d !in v[x] {
      assert x !in places;
    }
  }

  lemma ChooseDigitJustified(a: Grid, st: State, k: nat, d: char)
    requires k < |UnitList()|
    requires ChoiceJustified(a, st.values)
    ensures ChoiceJustified(a, ChooseDigit(st, UnitList()[k], d).values)
  {
    var v, w := st.values, ChooseDigit(st, UnitList()[k], d).values;
    if |Places(v, UnitList()[k], d)| == 1 {
      var p := Places(v, UnitList()[k], d)[0];
      SinglePlace(v, k, d);
      ChooseDigitChosen(st, UnitList()[k], d);
      ChosenNarrows(v, w);
      OnlyPlaceNarrows(v, w, k, p, d);
      PlaceJustified(a, v, w, k, p, d);
    }
  }

  lemma {:induction false} ChooseDigitsJustified(a: Grid, st: State, k: nat, ds: seq<char>)
    requires k < |UnitList()|
    requires ChoiceJustified(a, st.values)
    ensures ChoiceJustified(a, ChooseDigits(st, UnitList()[k], ds).values)
    decreases |ds|
  {
    if ds != [] {
      ChooseDigitJustified(a, st, k, ds[0]);
      ChooseDigitsJustified(a, ChooseDigit(st, UnitList()[k], ds[0]), k, ds[1..]);
    }
  }

  lemma {:induction false} OnlyChoiceFromJustified(a: Grid, st: State, k: nat)
    requires k <= |UnitList()|
    requires ChoiceJustified(a, st.values)
    ensures ChoiceJustified(a, OnlyChoiceFrom(st, k).values)
    decreases |UnitList()| - k
  {
    if k < |UnitList()| {
      ChooseDigitsJustified(a, st, k, AllDigits);
      OnlyChoiceFromJustified(a, ChooseDigits(st, UnitList()[k], AllDigits), k + 1);
    }
  }

  /** only_choice changes a box only by setting it to a digit it held, and only when that
      box is, at the end of the pass, the one place left for that digit in one of its
      units. */
  lemma OnlyChoiceJustified(st: State)
    ensures ChoiceJustified(st.values, OnlyChoice(st).values)
  {
    OnlyChoiceFromJustified(st.values, st, 0);
  }

  // ----- what the pass is sure to achieve

  /** d is in no box of unit k. */
  ghost predicate Absent(v: Grid, k: nat, d: char)
    requires k < |UnitList()|
  {
    forall x: Cell :: x in UnitList()[k] ==> d !in v[x]
  }

  /** The outcome promised for a digit whose only place in unit k is box b: b is set to
      it, or the digit has vanished from the unit altogether. */
  ghost predicate Placed(v: Grid, k: nat, b: Cell, d: char)
    requires k < |UnitList()|
  {
    v[b] == [d] || Absent(v, k, d)
  }

  lemma PlacedKept(v: Grid, w: Grid, k: nat, b: Cell, d: char)
    requires k < |UnitList()| && Chosen(v, w) && Placed(v, k, b, d)
    ensures Placed(w, k, b, d)
  {
    ChosenNarrows(v, w);
  }

  lemma {:induction false} ChooseDigitsPlaces(st: State, k: nat, b: Cell, d: char, ds: seq<char>)
    requires k < |UnitList()| && d in ds
    requires OnlyPlace(st.values, k, b, d)
    ensures Placed(ChooseDigits(st, UnitList()[k], ds).values, k, b, d)
    decreases |ds|
  {
    var unit := UnitList()[k];
    var next := ChooseDigit(st, unit, ds[0]);
    ChooseDigitChosen(st, unit, ds[0]);
    ChosenNarrows(st.values, next.values);
    if ds[0] == d {
      var places := Places(st.values, unit, d);
      assert Placed(next.values, k, b, d) by {
        if d in st.values[b] {
          UnitShape(k);
          assert b in places;
          forall i | 0 <= i < |places| ensures places[i] == b {
            assert places[i] in places;
          }
          SingleElement(places, b);
        } else {
          forall x: Cell | x in unit ensures d !in next.values[x] {
          }
        }
      }
      ChooseDigitsChosen(next, unit, ds[1..]);
      PlacedKept(next.values, ChooseDigits(next, unit, ds[1..]).values, k, b, d);
    } else {
      OnlyPlaceNarrows(st.values, next.values, k, b, d);
      ChooseDigitsPlaces(next, k, b, d, ds[1..]);
    }
  }

  /** Visiting unit k, and every unit after it, leaves d placed in b or gone from k. */
  lemma VisitPlaces(st: State, k: nat, b: Cell, d: char)
    requires k < |UnitList()| && d in AllDigits
    requires OnlyPlace(st.values, k, b, d)
    ensures Placed(OnlyChoiceFrom(st, k).values, k, b, d)
  {
    var next := ChooseDigits(st, UnitList()[k], AllDigits);
    ChooseDigitsPlaces(st, k, b, d, AllDigits);
    OnlyChoiceFromChosen(next, k + 1);
    PlacedKept(next.values, OnlyChoiceFrom(next, k + 1).values, k, b, d);
  }

  lemma {:induction false} OnlyChoiceFromPlaces(st: State, i: nat, k: nat, b: Cell, d: char)
    requires i <= k < |UnitList()| && d in AllDigits
    requires OnlyPlace(st.values, k, b, d)
    ensures Placed(OnlyChoiceFrom(st, i).values, k, b, d)
    decreases k - i
  {
    if i == k {
      VisitPlaces(st, k, b, d);
    } else {
      var next := ChooseDigits(st, UnitList()[i], AllDigits);
      ChooseDigitsChosen(st, UnitList()[i], AllDigits);
      ChosenNarrows(st.values, next.values);
      OnlyPlaceNarrows(st.values, next.values, k, b, d);
      OnlyChoiceFromPlaces(next, i + 1, k, b, d);
    }
  }

  /** A digit 1-9 whose only place in some unit is box b before only_choice ends up
      placed in b, unless an earlier placement took its last place in that unit. */
  lemma OnlyChoiceCompletes(st: State, k: nat, b: Cell, d: char)
    requires k < |UnitList()| && d in AllDigits
    requires OnlyPlace(st.values, k, b, d)
    ensures OnlyChoice(st).values[b] == [d]
            || forall x: Cell :: x in UnitList()[k] ==> d !in OnlyChoice(st).values[x]
  {
    OnlyChoiceFromPlaces(st, 0, k, b, d);
  }

  // ----- a filled grid

  /** In a grid of determined boxes, the only place of a digit already holds just that
      digit, so nothing is assigned and nothing recorded. */
  lemma ChooseDigitFixed(st: State, unit: seq<Cell>, d: char)
    requires AllSolved(st.values)
    ensures ChooseDigit(st, unit, d) == st
  {
    var places := Places(st.values, unit, d);
    if |places| == 1 {
      var p := places[0];
      assert p in places;
      SingleCandidate(st.values[p]);
    }
  }

  lemma {:induction false} ChooseDigitsFixed(st: State, unit: seq<Cell>, ds: seq<char>)
    requires AllSolved(st.values)
    ensures ChooseDigits(st, unit, ds) == st
    decreases |ds|
  {
    if ds != [] {
      ChooseDigitFixed(st, unit, ds[0]);
      ChooseDigitsFixed(st, unit, ds[1..]);
    }
  }

  lemma {:induction false} OnlyChoiceFromFixed(st: State, k: nat)
    requires k <= |UnitList()|
    requires AllSolved(st.values)
    ensures OnlyChoiceFrom(st, k) == st
    decreases |UnitList()| - k
  {
    if k < |UnitList()| {
      ChooseDigitsFixed(st, UnitList()[k], AllDigits);
      OnlyChoiceFromFixed(st, k + 1);
    }
  }

  /** A grid of determined boxes passes through only_choice unchanged, and nothing is
      recorded. */
  lemma OnlyChoiceFixed(st: State)
    requires AllSolved(st.values)
    ensures OnlyChoice(st) == st
  {
    OnlyChoiceFromFixed(st, 0);
  }

  // ----- a solution survives

  /** The only place of a digit 1-9 in a unit is where every solved diagonal Sudoku the
      grid allows puts that digit, so setting it there keeps each of them. */
  lemma ChooseDigitKeeps(st: State, k: nat, d: char, g: Grid)
    requires k < |UnitList()| && d in AllDigits
    requires Complete(g) && SolutionOf(g, st.values)
    ensures SolutionOf(g, ChooseDigit(st, UnitList()[k], d).values)
  {
    var places := Places(st.values, UnitList()[k], d);
    if |places| == 1 {
      SolutionPlace(st.values, k, d, g);
      AssignKeeps(st, places[0], [d], g);
    }
  }

  /** When d has one place left in unit k, that is where the solution puts it. */
  lemma SolutionPlace(v: Grid, k: nat, d: char, g: Grid)
    requires k < |UnitList()| && d in AllDigits
    requires Complete(g) && SolutionOf(g, v)
    requires |Places(v, UnitList()[k], d)| == 1
    ensures g[Places(v, UnitList()[k], d)[0]] == [d]
  {
    var places := Places(v, UnitList()[k], d);
    UnitComplete(g, k, d);
    var x: Cell :| x in UnitList()[k] && g[x] == [d];
    assert Within(g[x], v[x]) && g[x][0] in g[x];
    assert x in places;
    var i :| 0 <= i < |places| && places[i] == x;
    assert i == 0;
  }

  lemma {:induction false} ChooseDigitsKeeps(st: State, k: nat, ds: seq<char>, g: Grid)
    requires k < |UnitList()| && forall d :: d in ds ==> d in AllDigits
    requires Complete(g) && SolutionOf(g, st.values)
    ensures SolutionOf(g, ChooseDigits(st, UnitList()[k], ds).values)
    decreases |ds|
  {
    if ds != [] {
      assert ds[0] in ds;
      ChooseDigitKeeps(st, k, ds[0], g);
      assert forall d :: d in ds[1..] ==> d in ds;
      ChooseDigitsKeeps(ChooseDigit(st, UnitList()[k], ds[0]), k, ds[1..], g);
    }
  }

  lemma {:induction false} OnlyChoiceFromKeeps(st: State, k: nat, g: Grid)
    requires k <= |UnitList()|
    requires Complete(g) && SolutionOf(g, st.values)
    ensures SolutionOf(g, OnlyChoiceFrom(st, k).values)
    decreases |UnitList()| - k
  {
    if k < |UnitList()| {
      ChooseDigitsKeeps(st, k, AllDigits, g);
      OnlyChoiceFromKeeps(ChooseDigits(st, UnitList()[k], AllDigits), k + 1, g);
    }
  }

  /** Every solved diagonal Sudoku the grid allows is still allowed after only_choice. */
  lemma OnlyChoiceKeeps(st: State, g: Grid)
    requires Complete(g) && SolutionOf(g, st.values)
    ensures SolutionOf(g, OnlyChoice(st).values)
  {
    OnlyChoiceFromKeeps(st, 0, g);
  }
}
