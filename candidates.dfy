/** The candidate grid: for every box, the string of digits still possible there,
    together with the trace of snapshots that assign_value records. */
module Candidates {
  import opened Topology

  /** The candidate string of one box, e.g. "123456789", "27" or "5". */
  type Cands = seq<char>

  /** The values dictionary: one candidate string per box, indexed by box number. */
  type Grid = g: seq<Cands> | |g| == 81 witness seq(81, i => "")

  const AllDigits: Cands := "123456789"

  /** values[box].replace(d, ''): every occurrence of digit d dropped, the rest kept in order. */
  function Remove(s: Cands, d: char): (r: Cands)
    ensures forall c :: c in r <==> c in s && c != d
    ensures |r| <= |s|
    ensures d !in s ==> r == s
  {
    if s == [] then []
    else
      assert forall c :: c in s <==> c == s[0] || c in s[1..] by {
        assert s == [s[0]] + s[1..];
      }
      (if s[0] == d then [] else [s[0]]) + Remove(s[1..], d)
  }

  /** Candidate string b is drawn from a: no digit that a lacks, and no longer. */
  predicate Within(b: Cands, a: Cands) {
    (forall c :: c in b ==> c in a) && |b| <= |a|
  }

  /** The solver's whole mutable state: the grid and the list of recorded snapshots
      (the module-level `assignments` list, here explicit). */
  datatype State = State(values: Grid, trace: seq<Grid>)

  /** assign_value: a no-op when the box already holds `value`; otherwise the box is
      overwritten, and a snapshot of the new grid is recorded iff `value` has one digit. */
  function Assign(st: State, box: Cell, value: Cands): (r: State)
    ensures st.values[box] == value ==> r == st
    ensures r.values[box] == value
    ensures forall j :: 0 <= j < 81 && j != box ==> r.values[j] == st.values[j]
    ensures st.trace <= r.trace
    ensures |r.trace| == |st.trace| + 1 <==> st.values[box] != value && |value| == 1
    ensures |r.trace| <= |st.trace| + 1
    ensures |r.trace| == |st.trace| + 1 ==> r.trace[|st.trace|] == r.values
  {
    if st.values[box] == value then st
    else
      var v := st.values[box := value];
      State(v, if |value| == 1 then st.trace + [v] else st.trace)
  }

  /** Repeating an assignment changes neither the grid nor the trace. */
  lemma AssignIdempotent(st: State, box: Cell, value: Cands)
    ensures Assign(Assign(st, box, value), box, value) == Assign(st, box, value)
  {
  }

  /** No box gains a candidate: each box's new string is drawn from its old one. */
  ghost predicate Narrows(a: Grid, b: Grid) {
    forall i :: 0 <= i < 81 ==> Within(b[i], a[i])
  }

  /** A later state of one run: no box gained a candidate and the trace only grew. */
  ghost predicate Progress(a: State, b: State) {
    Narrows(a.values, b.values) && a.trace <= b.trace
  }

  lemma NarrowsTransitive(a: Grid, b: Grid, c: Grid)
    requires Narrows(a, b) && Narrows(b, c)
    ensures Narrows(a, c)
  {
    forall i | 0 <= i < 81 ensures Within(c[i], a[i]) {
      assert Within(c[i], b[i]) && Within(b[i], a[i]);
    }
  }

  lemma ProgressTransitive(a: State, b: State, c: State)
    requires Progress(a, b) && Progress(b, c)
    ensures Progress(a, c)
  {
    assert a.trace <= c.trace by {
      assert c.trace[..|b.trace|] == b.trace;
      assert c.trace[..|a.trace|] == b.trace[..|a.trace|];
    }
  }

  /** Removing one digit from one box is progress. */
  lemma RemoveProgress(st: State, box: Cell, d: char)
    ensures Progress(st, Assign(st, box, Remove(st.values[box], d)))
  {
  }

  /** Setting a box to one of its own candidates is progress. */
  lemma PlaceProgress(st: State, box: Cell, d: char)
    requires d in st.values[box]
    ensures Progress(st, Assign(st, box, [d]))
  {
  }

  /** A box with one candidate is that candidate alone. */
  lemma SingleCandidate(s: Cands)
    requires |s| == 1
    ensures s == [s[0]]
  {
  }

  /** What may become of a box holding one digit d, once no candidate has been added:
      it keeps d or becomes empty. */
  lemma NarrowSingleton(s: Cands, d: char)
    requires Within(s, [d])
    ensures s == [] || s == [d]
  {
    if s != [] {
      assert s[0] in s;
    }
  }

  /** len(values[box]) == 0 for some box: the contradiction signal. */
  predicate HasEmpty(v: Grid) {
    exists i :: 0 <= i < 81 && v[i] == []
  }

  /** Every box is determined. */
  predicate AllSolved(v: Grid) {
    forall i :: 0 <= i < 81 ==> |v[i]| == 1
  }

  /** The number of boxes of `cs` holding exactly one candidate. */
  function CountSolved(cs: seq<Cands>): (n: nat)
    ensures n <= |cs|
    ensures n == |cs| <==> forall i :: 0 <= i < |cs| ==> |cs[i]| == 1
  {
    if cs == [] then 0
    else (if |cs[0]| == 1 then 1 else 0) + CountSolved(cs[1..])
  }

  /** len([box for box in values.keys() if len(values[box]) == 1]) */
  function SolvedCount(v: Grid): (n: nat)
    ensures n <= 81
    ensures n == 81 <==> AllSolved(v)
  {
    CountSolved(v)
  }

  /** If every one-candidate box of `a` still holds one candidate in `b`, `b` has at
      least as many; one more such box makes it strictly more. */
  lemma {:induction false} CountSolvedMonotone(a: seq<Cands>, b: seq<Cands>)
    requires |a| == |b|
    requires forall i :: 0 <= i < |a| && |a[i]| == 1 ==> |b[i]| == 1
    ensures CountSolved(a) <= CountSolved(b)
    ensures (exists i :: 0 <= i < |a| && |a[i]| != 1 && |b[i]| == 1) ==> CountSolved(a) < CountSolved(b)
  {
    if a != [] {
      CountSolvedMonotone(a[1..], b[1..]);
      if exists i :: 0 <= i < |a| && |a[i]| != 1 && |b[i]| == 1 {
        var i :| 0 <= i < |a| && |a[i]| != 1 && |b[i]| == 1;
        if i > 0 {
          assert a[1..][i - 1] == a[i] && b[1..][i - 1] == b[i];
        }
      }
    }
  }

  /** When narrowing leaves no box empty, every determined box stays determined, so the
      number of determined boxes cannot fall. */
  lemma SolvedCountMonotone(a: Grid, b: Grid)
    requires Narrows(a, b) && !HasEmpty(b)
    ensures SolvedCount(a) <= SolvedCount(b)
    ensures forall i :: 0 <= i < 81 && |a[i]| == 1 ==> b[i] == a[i]
  {
    forall i | 0 <= i < 81 && |a[i]| == 1 ensures b[i] == a[i] {
      SingleCandidate(a[i]);
      NarrowSingleton(b[i], a[i][0]);
    }
    CountSolvedMonotone(a, b);
  }

  /** The total number of candidates left in `cs`: the measure that search decreases. */
  function Total(cs: seq<Cands>): nat {
    if cs == [] then 0 else |cs[0]| + Total(cs[1..])
  }

  lemma {:induction false} TotalUpdate(cs: seq<Cands>, i: nat, x: Cands)
    requires i < |cs|
    ensures Total(cs[i := x]) + |cs[i]| == Total(cs) + |x|
  {
    if i > 0 {
      assert cs[i := x][1..] == cs[1..][i - 1 := x];
      TotalUpdate(cs[1..], i - 1, x);
    }
  }

  lemma {:induction false} TotalMonotone(a: seq<Cands>, b: seq<Cands>)
    requires |a| == |b|
    requires forall i :: 0 <= i < |a| ==> |b[i]| <= |a[i]|
    ensures Total(b) <= Total(a)
  {
    if a != [] {
      TotalMonotone(a[1..], b[1..]);
    }
  }

  /** Narrowing never adds to the total number of candidates. */
  lemma NarrowsTotal(a: Grid, b: Grid)
    requires Narrows(a, b)
    ensures Total(b) <= Total(a)
  {
    TotalMonotone(a, b);
  }
}
