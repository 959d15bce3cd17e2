/** The naked-twins strategy (naked_twins): two peers holding the same two candidates
    take those two digits between them, so no box that is a peer of both can hold
    either. */
module NakedTwins {
  import opened Topology
  import opened Candidates
  import opened Solutions
  import Elimination

  /** A twin pair [box1, box2]. */
  type Pair = (Cell, Cell)

  /** [[b1, b2] for b2 in ps if values[b1] == values[b2]] */
  function PairsWith(v: Grid, b1: Cell, ps: seq<Cell>): (pairs: seq<Pair>)
    ensures forall x: Cell, y: Cell :: (x, y) in pairs <==> x == b1 && y in ps && v[y] == v[b1]
  {
    if ps == [] then []
    else
      assert forall y :: y in ps <==> y == ps[0] || y in ps[1..] by {
        assert ps == [ps[0]] + ps[1..];
      }
      (if v[b1] == v[ps[0]] then [(b1, ps[0])] else []) + PairsWith(v, b1, ps[1..])
  }

  /** The pairs found for the potential twins numbered b and above. */
  function PairsFrom(v: Grid, b: nat): (pairs: seq<Pair>)
    requires b <= 81
    ensures forall x: Cell, y: Cell :: (x, y) in pairs <==>
      b <= x && |v[x]| == 2 && y in Peers(x) && v[y] == v[x]
    decreases 81 - b
  {
    if b == 81 then []
    else (if |v[b]| == 2 then PairsWith(v, b, PeerList(b)) else []) + PairsFrom(v, b + 1)
  }

  /** naked_twins' list: every box with two candidates (potential_twins, in box order),
      paired with each of its peers (in increasing order) that holds the same string. */
  function TwinPairs(v: Grid): (pairs: seq<Pair>)
    ensures forall x: Cell, y: Cell :: (x, y) in pairs <==> |v[x]| == 2 && y in Peers(x) && v[y] == v[x]
  {
    PairsFrom(v, 0)
  }

  /** Every pair is listed both ways round. */
  lemma TwinPairsSymmetric(v: Grid, x: Cell, y: Cell)
    ensures (x, y) in TwinPairs(v) <==> (y, x) in TwinPairs(v)
  {
    PeersSymmetric(x, y);
  }

  /** list(set(peers[box1]).intersection(peers[box2])), in increasing order. Neither twin
      is a peer of itself, so neither is in the list. */
  function CommonPeers(b1: Cell, b2: Cell): (ps: seq<Cell>)
    ensures forall c: Cell :: c in ps <==> c in Peers(b1) && c in Peers(b2)
    ensures b1 !in ps && b2 !in ps
  {
    PeersSymmetric(b1, b2);
    PeersSymmetric(b2, b1);
    CellsFrom(Peers(b1) * Peers(b2), 0)
  }

  /** for d in ds: values = assign_value(values, peer, values[peer].replace(d, '')) */
  function StripDigits(st: State, peer: Cell, ds: seq<char>): State
    decreases |ds|
  {
    if ds == [] then st else StripDigits(Elimination.Strip(st, peer, ds[0]), peer, ds[1..])
  }

  /** The loop over the peers `ps` for the pair (b1, b2): each peer that is not one of
      the twins loses the digits that b1 holds at that moment. */
  function ClearPeers(st: State, b1: Cell, b2: Cell, ps: seq<Cell>): State
    decreases |ps|
  {
    if ps == [] then st
    else
      var next := if ps[0] != b1 && ps[0] != b2 then StripDigits(st, ps[0], st.values[b1]) else st;
      ClearPeers(next, b1, b2, ps[1..])
  }

  /** One turn of the loop over the twin pairs. */
  function ClearPair(st: State, b1: Cell, b2: Cell): State {
    ClearPeers(st, b1, b2, CommonPeers(b1, b2))
  }

  /** The loop over the twin pairs `pairs`, in order. */
  function ClearPairs(st: State, pairs: seq<Pair>): State
    decreases |pairs|
  {
    if pairs == [] then st else ClearPairs(ClearPair(st, pairs[0].0, pairs[0].1), pairs[1..])
  }

  /** naked_twins(values): the pairs are found once, on the grid as it is on entry, and
      then cleared one after another on the grid as it evolves. */
  function NakedTwins(st: State): State {
    ClearPairs(st, TwinPairs(st.values))
  }

  // ----- what each loop does

  /** Stripping the digits ds from a box leaves it with exactly its other digits. */
  lemma {:induction false} StripDigitsEffect(st: State, peer: Cell, ds: seq<char>)
    ensures Progress(st, StripDigits(st, peer, ds))
    ensures forall c :: c in StripDigits(st, peer, ds).values[peer] <==> c in st.values[peer] && c !in ds
    ensures forall j: Cell :: j != peer ==> StripDigits(st, peer, ds).values[j] == st.values[j]
    decreases |ds|
  {
    if ds != [] {
      var next := Elimination.Strip(st, peer, ds[0]);
      RemoveProgress(st, peer, ds[0]);
      StripDigitsEffect(next, peer, ds[1..]);
      ProgressTransitive(st, next, StripDigits(next, peer, ds[1..]));
      assert forall c :: c in ds <==> c == ds[0] || c in ds[1..] by {
        assert ds == [ds[0]] + ds[1..];
      }
    }
  }

  /** Clearing the peers ps for (b1, b2) leaves b1 as it was and takes from each listed
      box other than the twins exactly the digits of b1. */
  lemma {:induction false} ClearPeersEffect(st: State, b1: Cell, b2: Cell, ps: seq<Cell>)
    ensures Progress(st, ClearPeers(st, b1, b2, ps))
    ensures ClearPeers(st, b1, b2, ps).values[b1] == st.values[b1]
    ensures forall j: Cell, c :: j in ps && j != b1 && j != b2 ==>
      (c in ClearPeers(st, b1, b2, ps).values[j] <==> c in st.values[j] && c !in st.values[b1])
    ensures forall j: Cell :: j !in ps || j == b1 || j == b2 ==>
      ClearPeers(st, b1, b2, ps).values[j] == st.values[j]
    decreases |ps|
  {
    if ps != [] {
      var p := ps[0];
      var next := if p != b1 && p != b2 then StripDigits(st, p, st.values[b1]) else st;
      StripDigitsEffect(st, p, st.values[b1]);
      ClearPeersEffect(next, b1, b2, ps[1..]);
      ProgressTransitive(st, next, ClearPeers(next, b1, b2, ps[1..]));
      assert forall j :: j in ps <==> j == p || j in ps[1..] by {
        assert ps == [p] + ps[1..];
      }
    }
  }

  /** Clearing one pair takes the digits of b1 from every common peer of the twins and
      changes no other box. */
  lemma ClearPairEffect(st: State, b1: Cell, b2: Cell)
    ensures Progress(st, ClearPair(st, b1, b2))
    ensures ClearPair(st, b1, b2).values[b1] == st.values[b1]
    ensures forall j: Cell, c :: j in Peers(b1) && j in Peers(b2) ==>
      (c in ClearPair(st, b1, b2).values[j] <==> c in st.values[j] && c !in st.values[b1])
    ensures forall j: Cell :: !(j in Peers(b1) && j in Peers(b2)) ==> ClearPair(st, b1, b2).values[j] == st.values[j]
  {
    ClearPeersEffect(st, b1, b2, CommonPeers(b1, b2));
  }

  lemma {:induction false} ClearPairsProgress(st: State, pairs: seq<Pair>)
    ensures Progress(st, ClearPairs(st, pairs))
    decreases |pairs|
  {
    if pairs != [] {
      var next := ClearPair(st, pairs[0].0, pairs[0].1);
      ClearPairEffect(st, pairs[0].0, pairs[0].1);
      ClearPairsProgress(next, pairs[1..]);
      ProgressTransitive(st, next, ClearPairs(next, pairs[1..]));
    }
  }

  /** naked_twins never adds a candidate and only appends to the trace. */
  lemma NakedTwinsProgress(st: State)
    ensures Progress(st, NakedTwins(st))
  {
    ClearPairsProgress(st, TwinPairs(st.values));
  }

  // ----- what may be removed

  /** Digit c of box j may be lost to a pair of `pairs`: j is a peer of both twins and c
      is a digit of the first twin in `a`. */
  ghost predicate TwinLoss(a: Grid, pairs: seq<Pair>, j: Cell, c: char) {
    exists x: Cell, y: Cell :: (x, y) in pairs && j in Peers(x) && j in Peers(y) && c in a[x]
  }

  /** Every candidate lost between `a` and `b` is a TwinLoss. */
  ghost predicate TwinJustified(a: Grid, pairs: seq<Pair>, b: Grid) {
    forall j: Cell, c :: c in a[j] && c !in b[j] ==> TwinLoss(a, pairs, j, c)
  }

  lemma ClearPairJustified(a: Grid, pairs: seq<Pair>, st: State, x: Cell, y: Cell)
    requires (x, y) in pairs
    requires Narrows(a, st.values) && TwinJustified(a, pairs, st.values)
    ensures TwinJustified(a, pairs, ClearPair(st, x, y).values)
  {
    var v, w := st.values, ClearPair(st, x, y).values;
    ClearPairEffect(st, x, y);
    forall j: Cell, c | c in a[j] && c !in w[j] ensures TwinLoss(a, pairs, j, c) {
      if c in v[j] {
        assert j in Peers(x) && j in Peers(y) && c in a[x];
      }
    }
  }

  lemma {:induction false} ClearPairsJustified(a: Grid, pairs: seq<Pair>, st: State, todo: seq<Pair>)
    requires forall q :: q in todo ==> q in pairs
    requires Narrows(a, st.values) && TwinJustified(a, pairs, st.values)
    ensures TwinJustified(a, pairs, ClearPairs(st, todo).values)
    decreases |todo|
  {
    if todo != [] {
      var next := ClearPair(st, todo[0].0, todo[0].1);
      assert todo[0] in todo;
      ClearPairJustified(a, pairs, st, todo[0].0, todo[0].1);
      ClearPairEffect(st, todo[0].0, todo[0].1);
      assert forall q :: q in todo[1..] ==> q in todo;
      ClearPairsJustified(a, pairs, next, todo[1..]);
    }
  }

  /** naked_twins removes a candidate c from box j only when the grid it started from
      had twins x and y (peers holding the same two digits, c among them) of which j is
      a common peer. */
  lemma NakedTwinsJustified(st: State, j: Cell, c: char)
    requires c in st.values[j] && c !in NakedTwins(st).values[j]
    ensures exists x: Cell, y: Cell ::
      |st.values[x]| == 2 && y in Peers(x) && st.values[y] == st.values[x]
      && j in Peers(x) && j in Peers(y) && c in st.values[x]
  {
    var pairs := TwinPairs(st.values);
    ClearPairsJustified(st.values, pairs, st, pairs);
    var x: Cell, y: Cell :| (x, y) in pairs && j in Peers(x) && j in Peers(y) && c in st.values[x];
  }

  // ----- what is sure to be removed

  /** No common peer of x and y holds a digit that x holds. */
  ghost predicate Cleared(v: Grid, x: Cell, y: Cell) {
    forall j: Cell, c :: j in Peers(x) && j in Peers(y) && c in v[x] ==> c !in v[j]
  }

  lemma ClearedNarrows(v: Grid, w: Grid, x: Cell, y: Cell)
    requires Narrows(v, w) && Cleared(v, x, y)
    ensures Cleared(w, x, y)
  {
  }

  lemma ClearPairClears(st: State, x: Cell, y: Cell)
    ensures Cleared(ClearPair(st, x, y).values, x, y)
  {
    ClearPairEffect(st, x, y);
  }

  lemma ClearPairsKeepsCleared(st: State, pairs: seq<Pair>, x: Cell, y: Cell)
    requires Cleared(st.values, x, y)
    ensures Cleared(ClearPairs(st, pairs).values, x, y)
  {
    ClearPairsProgress(st, pairs);
    ClearedNarrows(st.values, ClearPairs(st, pairs).values, x, y);
  }

  lemma {:induction false} ClearPairsClears(st: State, pairs: seq<Pair>, x: Cell, y: Cell)
    requires (x, y) in pairs
    ensures Cleared(ClearPairs(st, pairs).values, x, y)
    decreases |pairs|
  {
    var next := ClearPair(st, pairs[0].0, pairs[0].1);
    assert ClearPairs(st, pairs) == ClearPairs(next, pairs[1..]);
    if pairs[0] == (x, y) {
      ClearPairClears(st, x, y);
      ClearPairsKeepsCleared(next, pairs[1..], x, y);
    } else {
      var i :| 0 <= i < |pairs| && pairs[i] == (x, y);
      assert pairs[1..][i - 1] == (x, y);
      ClearPairsClears(next, pairs[1..], x, y);
    }
  }

  /** After naked_twins, for every pair of twins found on entry, no box that is a peer of
      both holds any digit the first twin still holds. */
  lemma NakedTwinsClears(st: State, x: Cell, y: Cell, j: Cell)
    requires |st.values[x]| == 2 && y in Peers(x) && st.values[y] == st.values[x]
    requires j in Peers(x) && j in Peers(y)
    ensures forall c :: c in NakedTwins(st).values[x] ==> c !in NakedTwins(st).values[j]
  {
    ClearPairsClears(st, TwinPairs(st.values), x, y);
  }

  // ----- a filled grid

  /** A grid of determined boxes has no box with two candidates, so no twins. */
  lemma NoTwins(v: Grid)
    requires AllSolved(v)
    ensures TwinPairs(v) == []
  {
    var pairs := TwinPairs(v);
    if pairs != [] {
      var (x, y) := pairs[0];
      assert false;
    }
  }

  /** A grid of determined boxes passes through naked_twins unchanged, and nothing is
      recorded. */
  lemma NakedTwinsFixed(st: State)
    requires AllSolved(st.values)
    ensures NakedTwins(st) == st
  {
    NoTwins(st.values);
  }

  // ----- a solution survives

  /** A two-character string holding two different characters holds nothing else. */
  lemma TwoDigits(s: Cands, a: char, b: char)
    requires |s| == 2 && a in s && b in s && a != b
    ensures forall c :: c in s ==> c == a || c == b
  {
    assert s == [s[0], s[1]];
  }

  /** Twins of the grid `v0` that a solution narrows hold, between them, exactly the two
      digits the solution puts in the twins. */
  lemma TwinDigits(v0: Grid, x: Cell, y: Cell, g: Grid)
    requires |v0[x]| == 2 && y in Peers(x) && v0[y] == v0[x]
    requires SolutionOf(g, v0)
    ensures forall c :: c in v0[x] ==> c == g[x][0] || c == g[y][0]
  {
    assert Within(g[x], v0[x]) && g[x][0] in g[x];
    assert Within(g[y], v0[y]) && g[y][0] in g[y];
    PeerDigits(g, x, y);
    TwoDigits(v0[x], g[x][0], g[y][0]);
  }

  /** A common peer j of twins x and y keeps its solution digit when the digits x holds
      are removed from it. */
  lemma CommonPeerKeeps(v0: Grid, v: Grid, x: Cell, y: Cell, j: Cell, g: Grid)
    requires |v0[x]| == 2 && y in Peers(x) && v0[y] == v0[x]
    requires Narrows(v0, v) && SolutionOf(g, v)
    requires j in Peers(x) && j in Peers(y)
    ensures g[j][0] in v[j] && g[j][0] !in v[x]
  {
    SolutionWidens(g, v0, v);
    TwinDigits(v0, x, y, g);
    PeerDigits(g, x, j);
    PeerDigits(g, y, j);
    assert Within(g[j], v[j]) && g[j][0] in g[j];
    assert Within(v[x], v0[x]);
  }

  lemma ClearPairKeeps(v0: Grid, st: State, x: Cell, y: Cell, g: Grid)
    requires |v0[x]| == 2 && y in Peers(x) && v0[y] == v0[x]
    requires Narrows(v0, st.values) && SolutionOf(g, st.values)
    ensures SolutionOf(g, ClearPair(st, x, y).values)
  {
    var v, w := st.values, ClearPair(st, x, y).values;
    ClearPairEffect(st, x, y);
    forall j | 0 <= j < 81 ensures Within(g[j], w[j]) {
      if j in Peers(x) && j in Peers(y) {
        CommonPeerKeeps(v0, v, x, y, j, g);
        SingleCandidate(g[j]);
        assert g[j][0] in w[j];
      } else {
        assert w[j] == v[j] && Within(g[j], v[j]);
      }
    }
  }

  lemma {:induction false} ClearPairsKeeps(v0: Grid, st: State, pairs: seq<Pair>, g: Grid)
    requires forall q :: q in pairs ==> |v0[q.0]| == 2 && q.1 in Peers(q.0) && v0[q.1] == v0[q.0]
    requires Narrows(v0, st.values) && SolutionOf(g, st.values)
    ensures SolutionOf(g, ClearPairs(st, pairs).values)
    decreases |pairs|
  {
    if pairs != [] {
      var q := pairs[0];
      var next := ClearPair(st, q.0, q.1);
      assert q in pairs;
      ClearPairKeeps(v0, st, q.0, q.1, g);
      ClearPairEffect(st, q.0, q.1);
      NarrowsTransitive(v0, st.values, next.values);
      assert forall r :: r in pairs[1..] ==> r in pairs;
      ClearPairsKeeps(v0, next, pairs[1..], g);
    }
  }

  /** Every solution of the grid is a solution of what naked_twins leaves: the twins
      take their two digits between them in any solution, so no common peer needs one. */
  lemma NakedTwinsKeeps(st: State, g: Grid)
    requires SolutionOf(g, st.values)
    ensures SolutionOf(g, NakedTwins(st).values)
  {
    var pairs := TwinPairs(st.values);
    forall q | q in pairs ensures |st.values[q.0]| == 2 && q.1 in Peers(q.0) && st.values[q.1] == st.values[q.0] {
      assert (q.0, q.1) in pairs;
    }
    ClearPairsKeeps(st.values, st, pairs, g);
  }
}
