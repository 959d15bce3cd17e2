/** The elimination strategy (eliminate): every determined box removes its digit
    from each of its peers. */
module Elimination {
  import opened Topology
  import opened Candidates
  import opened Solutions

  /** values = assign_value(values, box, values[box].replace(d, '')) */
  function Strip(st: State, box: Cell, d: char): State {
    Assign(st, box, Remove(st.values[box], d))
  }

  /** Strip digit d from each box of `boxes` in turn. */
  function StripAll(st: State, boxes: seq<Cell>, d: char): State
    decreases |boxes|
  {
    if boxes == [] then st else StripAll(Strip(st, boxes[0], d), boxes[1..], d)
  }

  /** One turn of eliminate's loop: if `box` holds one digit when it is visited, that
      digit is removed from each of its peers (visited in increasing order). The box is
      not its own peer, so the digit read from it stays the same throughout. */
  function EliminateAt(st: State, box: Cell): State {
    if |st.values[box]| == 1 then StripAll(st, PeerList(box), st.values[box][0]) else st
  }

  /** The turns of eliminate's loop for boxes `box`, ..., 80. */
  function EliminateFrom(st: State, box: nat): State
    requires box <= 81
    decreases 81 - box
  {
    if box == 81 then st else EliminateFrom(EliminateAt(st, box), box + 1)
  }

  /** eliminate(values): one visit of every box, in box order. */
  function Eliminate(st: State): State {
    EliminateFrom(st, 0)
  }

  // ----- what one turn does

  lemma {:induction false} StripAllEffect(st: State, boxes: seq<Cell>, d: char)
    ensures Progress(st, StripAll(st, boxes, d))
    ensures forall j: Cell :: StripAll(st, boxes, d).values[j]
                              == if j in boxes then Remove(st.values[j], d) else st.values[j]
    decreases |boxes|
  {
    if boxes != [] {
      var next := Strip(st, boxes[0], d);
      RemoveProgress(st, boxes[0], d);
      StripAllEffect(next, boxes[1..], d);
      ProgressTransitive(st, next, StripAll(next, boxes[1..], d));
      assert forall j: Cell :: j in boxes <==> j == boxes[0] || j in boxes[1..] by {
        assert boxes == [boxes[0]] + boxes[1..];
      }
    }
  }

  /** Visiting a box that holds the single digit d removes d from every peer of that box
      and leaves every other box, the visited one included, as it was. Visiting a box
      with any other number of candidates changes nothing. */
  lemma EliminateAtEffect(st: State, box: Cell)
    ensures Progress(st, EliminateAt(st, box))
    ensures |st.values[box]| != 1 ==> EliminateAt(st, box) == st
    ensures |st.values[box]| == 1 ==>
      forall j: Cell :: EliminateAt(st, box).values[j]
                        == if j in Peers(box) then Remove(st.values[j], st.values[box][0]) else st.values[j]
  {
    if |st.values[box]| == 1 {
      StripAllEffect(st, PeerList(box), st.values[box][0]);
    }
  }

  lemma {:induction false} EliminateFromProgress(st: State, box: nat)
    requires box <= 81
    ensures Progress(st, EliminateFrom(st, box))
    decreases 81 - box
  {
    if box < 81 {
      var next := EliminateAt(st, box);
      EliminateAtEffect(st, box);
      EliminateFromProgress(next, box + 1);
      ProgressTransitive(st, next, EliminateFrom(next, box + 1));
    }
  }

  /** eliminate never adds a candidate to any box, and only appends to the trace. */
  lemma EliminateProgress(st: State)
    ensures Progress(st, Eliminate(st))
  {
    EliminateFromProgress(st, 0);
  }

  // ----- what the whole pass achieves

  lemma {:induction false} ClearsFrom(st: State, box: nat, i: Cell, d: char)
    requires box <= i
    requires st.values[i] == [d]
    requires EliminateFrom(st, box).values[i] == [d]
    ensures forall p :: p in Peers(i) ==> d !in EliminateFrom(st, box).values[p]
    decreases 81 - box
  {
    var next := EliminateAt(st, box);
    EliminateAtEffect(st, box);
    EliminateFromProgress(next, box + 1);
    if box == i {
      forall p | p in Peers(i) ensures d !in EliminateFrom(st, box).values[p] {
        assert d !in next.values[p];
      }
    } else {
      NarrowSingleton(next.values[i], d);
      ClearsFrom(next, box + 1, i, d);
    }
  }

  /** A box that holds the single digit d before eliminate and still holds it afterwards
      was visited while it held d, so afterwards none of its peers has d as a candidate. */
  lemma EliminateClearsPeers(st: State, i: Cell, d: char)
    requires st.values[i] == [d]
    requires Eliminate(st).values[i] == [d]
    ensures forall p :: p in Peers(i) ==> d !in Eliminate(st).values[p]
  {
    ClearsFrom(st, 0, i, d);
  }

  /** Boxes of `b` differ from those of `a` only by lost candidates. */
  ghost predicate RemovalOnly(a: Grid, b: Grid) {
    forall j: Cell :: b[j] == a[j] || exists c :: c in a[j] && c !in b[j]
  }

  /** Every candidate a box lost between `a` and `b` is the digit of one of its peers
      that in `b` holds exactly that digit, or nothing at all. */
  ghost predicate PeerJustified(a: Grid, b: Grid) {
    forall j: Cell, c :: c in a[j] && c !in b[j] ==> LossJustified(b, j, c)
  }

  /** Some peer of box j holds exactly digit c in `b`, or nothing at all. */
  ghost predicate LossJustified(b: Grid, j: Cell, c: char) {
    exists p :: p in Peers(j) && (b[p] == [c] || b[p] == [])
  }

  ghost predicate Justified(a: Grid, b: Grid) {
    Narrows(a, b) && RemovalOnly(a, b) && PeerJustified(a, b)
  }

  /** A box holding one digit or none still does so after a digit is removed from it. */
  lemma RemoveKeepsFew(s: Cands, c: char, d: char)
    requires s == [c] || s == []
    ensures Remove(s, d) == [c] || Remove(s, d) == []
  {
    var r := Remove(s, d);
    if r != [] {
      assert r[0] in r;
    }
  }

  /** A candidate c missing from box j after d is removed from p, a peer of the box i
      that holds exactly d, is explained by a peer of j. */
  lemma StripLossJustified(a: Grid, st: State, i: Cell, p: Cell, d: char, j: Cell, c: char)
    requires PeerJustified(a, st.values)
    requires st.values[i] == [d] && p in Peers(i)
    requires c in a[j] && c !in Strip(st, p, d).values[j]
    ensures LossJustified(Strip(st, p, d).values, j, c)
  {
    var v, w := st.values, Strip(st, p, d).values;
    if c in v[j] {
      assert j == p && c == d;
      PeersSymmetric(i, p);
      assert i in Peers(j) && w[i] == [c];
    } else {
      var q :| q in Peers(j) && (v[q] == [c] || v[q] == []);
      if q == p {
        RemoveKeepsFew(v[q], c, d);
      }
      assert w[q] == [c] || w[q] == [];
    }
  }

  lemma StripPeerJustified(a: Grid, st: State, i: Cell, p: Cell, d: char)
    requires PeerJustified(a, st.values)
    requires st.values[i] == [d] && p in Peers(i)
    ensures PeerJustified(a, Strip(st, p, d).values)
  {
    var w := Strip(st, p, d).values;
    forall j: Cell, c | c in a[j] && c !in w[j] ensures LossJustified(w, j, c) {
      StripLossJustified(a, st, i, p, d, j, c);
    }
  }

  lemma StripRemovalOnly(a: Grid, st: State, p: Cell, d: char)
    requires RemovalOnly(a, st.values) && Narrows(a, st.values)
    ensures RemovalOnly(a, Strip(st, p, d).values)
  {
    var v, w := st.values, Strip(st, p, d).values;
    forall j: Cell ensures w[j] == a[j] || exists c :: c in a[j] && c !in w[j] {
      if j == p && v[j] == a[j] && w[j] != a[j] {
        assert d in a[j] && d !in w[j];
      }
    }
  }

  lemma StripJustified(a: Grid, st: State, i: Cell, p: Cell, d: char)
    requires Justified(a, st.values)
    requires st.values[i] == [d] && p in Peers(i)
    ensures Justified(a, Strip(st, p, d).values)
    ensures Strip(st, p, d).values[i] == [d]
  {
    RemoveProgress(st, p, d);
    NarrowsTransitive(a, st.values, Strip(st, p, d).values);
    PeersSymmetric(i, p);
    StripPeerJustified(a, st, i, p, d);
    StripRemovalOnly(a, st, p, d);
  }

  lemma {:induction false} StripAllJustified(a: Grid, st: State, i: Cell, boxes: seq<Cell>, d: char)
    requires Justified(a, st.values)
    requires st.values[i] == [d]
    requires forall p :: p in boxes ==> p in Peers(i)
    ensures Justified(a, StripAll(st, boxes, d).values)
    decreases |boxes|
  {
    if boxes != [] {
      StripJustified(a, st, i, boxes[0], d);
      StripAllJustified(a, Strip(st, boxes[0], d), i, boxes[1..], d);
    }
  }

  lemma {:induction false} EliminateFromJustified(a: Grid, st: State, box: nat)
    requires box <= 81
    requires Justified(a, st.values)
    ensures Justified(a, EliminateFrom(st, box).values)
    decreases 81 - box
  {
    if box < 81 {
      EliminateAtJustified(a, st, box);
      EliminateFromJustified(a, EliminateAt(st, box), box + 1);
    }
  }

  lemma EliminateAtJustified(a: Grid, st: State, box: Cell)
    requires Justified(a, st.values)
    ensures Justified(a, EliminateAt(st, box).values)
  {
    var v := st.values;
    if |v[box]| == 1 {
      SingleCandidate(v[box]);
      StripAllJustified(a, st, box, PeerList(box), v[box][0]);
    }
  }

  /** eliminate changes a box only by removing candidates, and each candidate a box loses
      is the digit of one of its peers that ends the pass holding exactly that digit, or
      nothing: boxes with no such peer are left as they were. */
  lemma EliminateJustified(st: State)
    ensures Narrows(st.values, Eliminate(st).values)
    ensures RemovalOnly(st.values, Eliminate(st).values)
    ensures PeerJustified(st.values, Eliminate(st).values)
  {
    EliminateFromJustified(st.values, st, 0);
  }

  // ----- a filled grid

  /** Removing d from a box holding one other digit changes nothing, the trace included. */
  lemma StripFixed(st: State, p: Cell, d: char)
    requires |st.values[p]| == 1 && d !in st.values[p]
    ensures Strip(st, p, d) == st
  {
  }

  lemma {:induction false} StripAllFixed(st: State, boxes: seq<Cell>, d: char)
    requires forall p :: p in boxes ==> |st.values[p]| == 1 && d !in st.values[p]
    ensures StripAll(st, boxes, d) == st
    decreases |boxes|
  {
    if boxes != [] {
      StripFixed(st, boxes[0], d);
      StripAllFixed(st, boxes[1..], d);
    }
  }

  /** In a filled grid with no two peers alike, no peer of a box holds that box's digit. */
  lemma PeersLackDigit(v: Grid, box: Cell)
    requires AllSolved(v) && NoPeerConflict(v)
    ensures forall p :: p in PeerList(box) ==> |v[p]| == 1 && v[box][0] !in v[p]
  {
    forall p | p in PeerList(box) ensures |v[p]| == 1 && v[box][0] !in v[p] {
      PeerLacksDigit(v, box, p);
    }
  }

  lemma PeerLacksDigit(v: Grid, box: Cell, p: Cell)
    requires AllSolved(v) && NoPeerConflict(v) && p in Peers(box)
    ensures |v[p]| == 1 && v[box][0] !in v[p]
  {
    PeerDigits(v, box, p);
    SingleCandidate(v[p]);
  }

  lemma EliminateAtFixed(st: State, box: Cell)
    requires AllSolved(st.values) && NoPeerConflict(st.values)
    ensures EliminateAt(st, box) == st
  {
    PeersLackDigit(st.values, box);
    StripAllFixed(st, PeerList(box), st.values[box][0]);
  }

  lemma {:induction false} EliminateFromFixed(st: State, box: nat)
    requires box <= 81
    requires AllSolved(st.values) && NoPeerConflict(st.values)
    ensures EliminateFrom(st, box) == st
    decreases 81 - box
  {
    if box < 81 {
      EliminateAtFixed(st, box);
      EliminateFromFixed(st, box + 1);
    }
  }

  /** A filled grid with no two peers alike passes through eliminate unchanged, and
      nothing is recorded. */
  lemma EliminateFixed(st: State)
    requires AllSolved(st.values) && NoPeerConflict(st.values)
    ensures Eliminate(st) == st
  {
    EliminateFromFixed(st, 0);
  }

  // ----- a solution survives

  /** Removing the digit of a box from a peer keeps every solution of the grid that
      agrees with that box. */
  lemma StripKeeps(st: State, i: Cell, p: Cell, g: Grid)
    requires SolutionOf(g, st.values)
    requires |st.values[i]| == 1 && p in Peers(i)
    ensures SolutionOf(g, Strip(st, p, st.values[i][0]).values)
  {
    var v, d := st.values, st.values[i][0];
    var w := Strip(st, p, d).values;
    assert Within(g[i], v[i]) && Within(g[p], v[p]);
    SingleCandidate(v[i]);
    NarrowSingleton(g[i], d);
    assert g[i][0] in g[i];
    PeerDigits(g, i, p);
    var e := g[p][0];
    assert e in g[p] && e in v[p] && e != d;
    assert e in w[p];
    SingleCandidate(g[p]);
    forall j | 0 <= j < 81 ensures Within(g[j], w[j]) {
      if j != p {
        assert w[j] == v[j] && Within(g[j], v[j]);
      }
    }
  }

  lemma {:induction false} StripAllKeeps(st: State, i: Cell, boxes: seq<Cell>, g: Grid)
    requires SolutionOf(g, st.values)
    requires |st.values[i]| == 1
    requires forall p :: p in boxes ==> p in Peers(i)
    ensures SolutionOf(g, StripAll(st, boxes, st.values[i][0]).values)
    decreases |boxes|
  {
    if boxes != [] {
      var next := Strip(st, boxes[0], st.values[i][0]);
      StripKeeps(st, i, boxes[0], g);
      PeersSymmetric(i, boxes[0]);
      assert next.values[i] == st.values[i];
      StripAllKeeps(next, i, boxes[1..], g);
    }
  }

  lemma {:induction false} EliminateFromKeeps(st: State, box: nat, g: Grid)
    requires box <= 81
    requires SolutionOf(g, st.values)
    ensures SolutionOf(g, EliminateFrom(st, box).values)
    decreases 81 - box
  {
    if box < 81 {
      if |st.values[box]| == 1 {
        StripAllKeeps(st, box, PeerList(box), g);
      }
      EliminateFromKeeps(EliminateAt(st, box), box + 1, g);
    }
  }

  /** Every solution of the grid is a solution of what eliminate leaves: a removed digit
      is a peer's digit, which no solution agreeing with that peer can use. */
  lemma EliminateKeeps(st: State, g: Grid)
    requires SolutionOf(g, st.values)
    ensures SolutionOf(g, Eliminate(st).values)
  {
    EliminateFromKeeps(st, 0, g);
  }
}
