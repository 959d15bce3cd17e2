/** grid_values and solve: from an 81-character puzzle string to search's outcome. */
module Solve {
  import opened Topology
  import opened Candidates
  import opened Solutions
  import opened Reduce
  import opened Search

  /** The two ways solve raises instead of returning: grid_values' length assertion, and
      the KeyError that a grid with fewer than 81 parsed boxes runs into. */
  datatype Error = GridLength | MissingBox

  datatype Result<T> = Ok(value: T) | Err(error: Error)

  /** The value one character of the puzzle adds to the list: '.' becomes '123456789',
      a digit 1-9 stays as it is, and anything else adds nothing. */
  function Convert(c: char): seq<Cands> {
    if c == '.' then [AllDigits] else if c in AllDigits then [[c]] else []
  }

  /** The list built by grid_values' loop over the characters of g. */
  function ParsedValues(g: string): (vs: seq<Cands>)
    decreases |g|
  {
    if g == [] then [] else ParsedValues(g[..|g| - 1]) + Convert(g[|g| - 1])
  }

  /** grid_values(grid): the length assertion, then the parsed values paired with the
      boxes in order (the list is never longer than the 81 characters it came from, so
      zip keeps all of it; box i of the result is values[i]). */
  function Parsed(grid: string): Result<seq<Cands>> {
    if |grid| != 81 then Err(GridLength) else Ok(ParsedValues(grid))
  }

  /** A character grid_values turns into a box. */
  predicate Meaningful(c: char) {
    c == '.' || c in AllDigits
  }

  /** Every box is open ("123456789") or a single digit 1-9. */
  predicate WellFormed(vs: seq<Cands>) {
    forall i :: 0 <= i < |vs| ==> vs[i] == AllDigits || (|vs[i]| == 1 && vs[i][0] in AllDigits)
  }

  /** The puzzle string of a well-formed grid: '.' for an open box, the digit otherwise. */
  function Encode(vs: seq<Cands>): (g: string)
    requires WellFormed(vs)
    ensures |g| == |vs|
  {
    seq(|vs|, i requires 0 <= i < |vs| => if vs[i] == AllDigits then '.' else vs[i][0])
  }

  /** The parsed list is well formed, one entry per meaningful character. */
  lemma ParsedShape(g: string)
    ensures WellFormed(ParsedValues(g))
    ensures |ParsedValues(g)| <= |g|
    ensures |ParsedValues(g)| == |g| <==> forall i :: 0 <= i < |g| ==> Meaningful(g[i])
  {
    ParsedWellFormed(g);
    ParsedLength(g);
  }

  lemma {:induction false} ParsedWellFormed(g: string)
    ensures WellFormed(ParsedValues(g))
    decreases |g|
  {
    if g != [] {
      var init := g[..|g| - 1];
      ParsedWellFormed(init);
      var vs, last := ParsedValues(init), Convert(g[|g| - 1]);
      assert forall i :: 0 <= i < |vs + last| ==> (vs + last)[i] == if i < |vs| then vs[i] else last[i - |vs|];
    }
  }

  lemma {:induction false} ParsedLength(g: string)
    ensures |ParsedValues(g)| <= |g|
    ensures |ParsedValues(g)| == |g| <==> forall i :: 0 <= i < |g| ==> Meaningful(g[i])
    decreases |g|
  {
    if g != [] {
      var init := g[..|g| - 1];
      ParsedLength(init);
      assert |Convert(g[|g| - 1])| == if Meaningful(g[|g| - 1]) then 1 else 0;
      assert forall i :: 0 <= i < |init| ==> init[i] == g[i];
    }
  }

  /** Parsing the string of a well-formed grid gives that grid back. */
  lemma {:induction false} ParseEncoded(vs: seq<Cands>)
    requires WellFormed(vs)
    ensures ParsedValues(Encode(vs)) == vs
    decreases |vs|
  {
    if vs != [] {
      var init := vs[..|vs| - 1];
      assert WellFormed(init);
      assert Encode(vs)[..|vs| - 1] == Encode(init);
      ParseEncoded(init);
      var last := vs[|vs| - 1];
      if last == AllDigits {
        assert Convert(Encode(vs)[|vs| - 1]) == [last];
      } else {
        assert last == [last[0]];
        assert Convert(Encode(vs)[|vs| - 1]) == [last];
      }
      assert vs == init + [last];
    }
  }

  /** Encoding what was parsed from a string of meaningful characters gives the string back. */
  lemma {:induction false} EncodeParsed(g: string)
    requires forall i :: 0 <= i < |g| ==> Meaningful(g[i])
    ensures WellFormed(ParsedValues(g)) && Encode(ParsedValues(g)) == g
    decreases |g|
  {
    ParsedShape(g);
    if g != [] {
      var init := g[..|g| - 1];
      EncodeParsed(init);
      ParsedShape(init);
      var vs := ParsedValues(g);
      assert vs[..|g| - 1] == ParsedValues(init);
      forall i | 0 <= i < |g| ensures Encode(vs)[i] == g[i] {
        if i < |g| - 1 {
          assert vs[i] == ParsedValues(init)[i];
          assert Encode(ParsedValues(init))[i] == init[i];
        }
      }
    }
  }

  /** grid_values(grid) as the loop the source runs: append a value per meaningful
      character, then check the length of the raw string. */
  method GridValues(grid: string) returns (r: Result<seq<Cands>>)
    ensures r == Parsed(grid)
  {
    var values: seq<Cands> := [];
    for i := 0 to |grid|
      invariant values == ParsedValues(grid[..i])
    {
      assert grid[..i + 1][..i] == grid[..i];
      var c := grid[i];
      if c == '.' {
        values := values + [AllDigits];
      } else if c in AllDigits {
        values := values + [[c]];
      }
    }
    assert grid[..|grid|] == grid;
    if |grid| != 81 {
      return Err(GridLength);
    }
    return Ok(values);
  }

  /** solve(grid), starting from the trace recorded so far. A list shorter than 81 leaves
      boxes without a key, and the first pass then raises KeyError: only_choice looks up
      every box of every row. */
  function Solve(grid: string, trace: seq<Grid>): Result<Run> {
    match Parsed(grid)
    case Err(e) => Err(e)
    case Ok(vs) =>
      ParsedShape(grid);
      if |vs| < 81 then Err(MissingBox) else Ok(Search.Search(State(vs, trace)))
  }

  /** solve fails on the length assertion exactly when the string is not 81 characters
      long, and on a missing box exactly when one of them is neither '.' nor a digit. */
  lemma SolveErrors(grid: string, trace: seq<Grid>)
    ensures Solve(grid, trace) == Err(GridLength) <==> |grid| != 81
    ensures Solve(grid, trace) == Err(MissingBox)
            <==> |grid| == 81 && exists i :: 0 <= i < 81 && !Meaningful(grid[i])
  {
    ParsedShape(grid);
  }

  /** Box x of a solution of the parsed puzzle holds a digit 1-9, the given one if any. */
  lemma BoxSound(grid: string, g: Grid, x: Cell)
    requires |grid| == 81 && |ParsedValues(grid)| == 81
    requires AllSolved(g) && Narrows(ParsedValues(grid), g)
    ensures DigitOf(g, x) in AllDigits
    ensures grid[x] in AllDigits ==> g[x] == [grid[x]]
  {
    var vs := ParsedValues(grid);
    ParsedShape(grid);
    EncodeParsed(grid);
    assert Within(g[x], vs[x]) && g[x][0] in g[x];
    assert Encode(vs)[x] == grid[x];
    if grid[x] in AllDigits {
      assert vs[x] == [grid[x]];
      NarrowSingleton(g[x], grid[x]);
    }
  }

  /** Every box of a solution of the parsed puzzle holds a digit 1-9, the given one if any. */
  lemma BoxesSound(grid: string, g: Grid)
    requires |grid| == 81 && |ParsedValues(grid)| == 81
    requires AllSolved(g) && Narrows(ParsedValues(grid), g)
    ensures forall x: Cell :: DigitOf(g, x) in AllDigits
    ensures forall x: Cell :: grid[x] in AllDigits ==> g[x] == [grid[x]]
  {
    forall x: Cell ensures DigitOf(g, x) in AllDigits && (grid[x] in AllDigits ==> g[x] == [grid[x]]) {
      BoxSound(grid, g, x);
    }
  }

  /** A solution of the parsed puzzle is a solution of the puzzle: every box a digit
      1-9, each unit holding every digit once, no two peers alike, and every given digit
      kept. */
  lemma PuzzleSolution(grid: string, g: Grid)
    requires |grid| == 81 && |ParsedValues(grid)| == 81
    requires SolutionOf(g, ParsedValues(grid))
    ensures forall x: Cell :: DigitOf(g, x) in AllDigits
    ensures forall x: Cell :: grid[x] in AllDigits ==> g[x] == [grid[x]]
    ensures UnitsComplete(g)
  {
    BoxesSound(grid, g);
    forall k, d | 0 <= k < |UnitList()| && d in AllDigits
      ensures exists x: Cell :: x in UnitList()[k] && g[x] == [d]
    {
      UnitComplete(g, k, d);
    }
  }

  /** A grid solve returns is a solution of the puzzle. */
  lemma SolveSound(grid: string, trace: seq<Grid>, g: Grid)
    requires Solve(grid, trace).Ok? && Solve(grid, trace).value.outcome == Solved(g)
    ensures AllSolved(g) && NoPeerConflict(g)
    ensures forall x: Cell :: DigitOf(g, x) in AllDigits
    ensures forall x: Cell :: grid[x] in AllDigits ==> g[x] == [grid[x]]
    ensures UnitsComplete(g)
  {
    var vs := ParsedValues(grid);
    ParsedShape(grid);
    assert Solve(grid, trace).value == Search.Search(State(vs, trace));
    SearchSound(State(vs, trace));
    PuzzleSolution(grid, g);
  }

  /** g solves the puzzle string: a filled grid of digits 1-9 with no two peers alike that
      keeps every given digit. */
  ghost predicate Completes(grid: string, g: Grid) {
    |grid| == 81 && Complete(g) && forall x: Cell :: grid[x] in AllDigits ==> g[x] == [grid[x]]
  }

  /** The parsed box x allows the digit of any grid that completes the puzzle. */
  lemma GivenWithin(grid: string, g: Grid, x: Cell)
    requires Completes(grid, g) && |ParsedValues(grid)| == 81
    requires WellFormed(ParsedValues(grid)) && Encode(ParsedValues(grid)) == grid
    ensures Within(g[x], ParsedValues(grid)[x])
  {
    var vs := ParsedValues(grid);
    assert Encode(vs)[x] == grid[x];
    SingleCandidate(g[x]);
    assert DigitOf(g, x) in AllDigits;
    if vs[x] != AllDigits {
      SingleCandidate(vs[x]);
      assert g[x] == [grid[x]];
    }
  }

  /** A puzzle of 81 meaningful characters that some filled grid completes is solved:
      solve then never returns False. */
  lemma SolveComplete(grid: string, trace: seq<Grid>, g: Grid)
    requires forall i :: 0 <= i < |grid| ==> Meaningful(grid[i])
    requires Completes(grid, g)
    ensures Solve(grid, trace).Ok? && Solve(grid, trace).value.outcome.Solved?
  {
    var vs := ParsedValues(grid);
    ParsedShape(grid);
    EncodeParsed(grid);
    forall x: Cell ensures Within(g[x], vs[x]) {
      GivenWithin(grid, g, x);
    }
    assert Solve(grid, trace) == Ok(Search.Search(State(vs, trace)));
    SearchComplete(State(vs, trace), g);
  }

  /** On a puzzle of 81 meaningful characters solve returns a solved grid exactly when
      one exists, and then the grid it returns completes the puzzle. */
  lemma SolveDecides(grid: string, trace: seq<Grid>)
    requires |grid| == 81 && forall i :: 0 <= i < |grid| ==> Meaningful(grid[i])
    ensures Solve(grid, trace).Ok?
    ensures Solve(grid, trace).value.outcome.Solved? <==> exists g: Grid :: Completes(grid, g)
    ensures Solve(grid, trace).value.outcome.Solved? ==> Completes(grid, Solve(grid, trace).value.outcome.grid)
  {
    SolveErrors(grid, trace);
    var r := Solve(grid, trace);
    if r.value.outcome.Solved? {
      SolveSound(grid, trace, r.value.outcome.grid);
      assert Completes(grid, r.value.outcome.grid);
    }
    if g: Grid :| Completes(grid, g) {
      SolveComplete(grid, trace, g);
    }
  }

  /** The string of a filled grid of digits 1-9 with no two peers alike is solved at once,
      to that grid, and nothing is added to the trace. */
  lemma SolveFixed(g: Grid, trace: seq<Grid>)
    requires Complete(g)
    ensures WellFormed(g)
    ensures Solve(Encode(g), trace) == Ok(Run(Solved(g), trace))
  {
    forall i | 0 <= i < 81 ensures |g[i]| == 1 && g[i][0] in AllDigits {
      assert DigitOf(g, i) in AllDigits;
    }
    ParseEncoded(g);
    SearchFixed(State(g, trace));
  }
}
