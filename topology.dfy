/** The fixed constraint graph of the solver: boxes, units and peers.
    A box is numbered row-major, so the box in row r (A..I) and column c (1..9)
    is 9 * r + c; numeric order is the order of the box names 'A1' < 'A2' < ... < 'I9'. */
module Topology {

  type Cell = i: int | 0 <= i < 81

  function Row(c: Cell): nat { c / 9 }
  function Col(c: Cell): nat { c % 9 }

  /** The rows 'ABCDEFGHI' and the columns '123456789', as indices. */
  function Rows(): seq<int> { seq(9, i => i) }
  function Cols(): seq<int> { seq(9, i => i) }
  /** The row bands ('ABC', 'DEF', 'GHI') and column bands ('123', '456', '789'). */
  function Bands(): seq<seq<int>> { seq(3, b => seq(3, i => 3 * b + i)) }

  predicate InRange(xs: seq<int>) { forall i :: 0 <= i < |xs| ==> 0 <= xs[i] < 9 }

  predicate Distinct<T(==)>(xs: seq<T>) { forall i, j :: 0 <= i < j < |xs| ==> xs[i] != xs[j] }

  /** A sequence of distinct elements has as many elements as its set. */
  lemma {:induction false} DistinctCard<T>(s: seq<T>)
    requires Distinct(s)
    ensures |(set x | x in s)| == |s|
  {
    if s != [] {
      var rest := s[1..];
      assert Distinct(rest) by {
        forall i, j | 0 <= i < j < |rest| ensures rest[i] != rest[j] {
          assert rest[i] == s[i + 1] && rest[j] == s[j + 1];
        }
      }
      DistinctCard(rest);
      var all, tail := set x | x in s, set x | x in rest;
      assert s[0] !in tail by {
        forall j | 0 <= j < |rest| ensures rest[j] != s[0] {
          assert rest[j] == s[j + 1];
        }
      }
      assert all == tail + {s[0]} by {
        assert s == [s[0]] + rest;
      }
    }
  }

  lemma DistinctConcat<T>(a: seq<T>, b: seq<T>)
    requires Distinct(a) && Distinct(b)
    requires forall x :: x in a ==> x !in b
    ensures Distinct(a + b)
  {
    forall i, j | 0 <= i < j < |a + b| ensures (a + b)[i] != (a + b)[j] {
      if i < |a| && j >= |a| {
        assert (a + b)[i] in a && (a + b)[j] in b;
      }
    }
  }

  lemma CellCoordinates(r: int, c: int)
    requires 0 <= r < 9 && 0 <= c < 9
    ensures 0 <= 9 * r + c < 81
    ensures (9 * r + c) / 9 == r && (9 * r + c) % 9 == c
  {
  }

  /** The boxes of row `r` whose column is in `cs`, in the order of `cs`. */
  function Line(r: int, cs: seq<int>): (line: seq<Cell>)
    requires 0 <= r < 9 && InRange(cs)
    ensures |line| == |cs|
    ensures forall x: Cell :: x in line <==> Row(x) == r && Col(x) in cs
    ensures Distinct(cs) ==> Distinct(line)
  {
    if cs == [] then []
    else
      CellCoordinates(r, cs[0]);
      var rest := Line(r, cs[1..]);
      assert forall x: Cell :: Col(x) in cs <==> Col(x) == cs[0] || Col(x) in cs[1..] by {
        assert cs == [cs[0]] + cs[1..];
      }
      assert Distinct(cs) ==> Distinct([9 * r + cs[0]] + rest) by {
        if Distinct(cs) {
          assert cs[0] !in cs[1..];
          DistinctConcat([9 * r + cs[0]], rest);
        }
      }
      [9 * r + cs[0]] + rest
  }

  lemma MulStep(a: nat, b: nat)
    ensures (a + 1) * b == b + a * b
  {
  }

  /** cross(a, b): every row of `rs` combined with every column of `cs`, rows outermost. */
  function Cross(rs: seq<int>, cs: seq<int>): (boxes: seq<Cell>)
    requires InRange(rs) && InRange(cs)
    ensures |boxes| == |rs| * |cs|
    ensures forall x: Cell :: x in boxes <==> Row(x) in rs && Col(x) in cs
    ensures Distinct(rs) && Distinct(cs) ==> Distinct(boxes)
  {
    if rs == [] then []
    else
      var line := Line(rs[0], cs);
      var rest := Cross(rs[1..], cs);
      CrossStep(rs, cs, line, rest);
      line + rest
  }

  /** The boxes of the first row of `rs`, followed by those of the other rows, are the
      boxes of all of them. */
  lemma CrossStep(rs: seq<int>, cs: seq<int>, line: seq<Cell>, rest: seq<Cell>)
    requires InRange(rs) && InRange(cs) && rs != []
    requires |line| == |cs| && |rest| == |rs[1..]| * |cs|
    requires forall x: Cell :: x in line <==> Row(x) == rs[0] && Col(x) in cs
    requires forall x: Cell :: x in rest <==> Row(x) in rs[1..] && Col(x) in cs
    requires Distinct(cs) ==> Distinct(line)
    requires Distinct(rs[1..]) && Distinct(cs) ==> Distinct(rest)
    ensures |line + rest| == |rs| * |cs|
    ensures forall x: Cell :: x in line + rest <==> Row(x) in rs && Col(x) in cs
    ensures Distinct(rs) && Distinct(cs) ==> Distinct(line + rest)
  {
    assert forall x: Cell :: Row(x) in rs <==> Row(x) == rs[0] || Row(x) in rs[1..] by {
      assert rs == [rs[0]] + rs[1..];
    }
    MulStep(|rs[1..]|, |cs|);
    if Distinct(rs) && Distinct(cs) {
      assert rs[0] !in rs[1..];
      DistinctConcat(line, rest);
    }
  }

  function RowUnits(): seq<seq<Cell>> { seq(9, r requires 0 <= r < 9 => Cross([r], Cols())) }
  function ColumnUnits(): seq<seq<Cell>> { seq(9, c requires 0 <= c < 9 => Cross(Rows(), [c])) }
  function SquareUnits(): seq<seq<Cell>> { seq(9, k requires 0 <= k < 9 => Cross(Bands()[k / 3], Bands()[k % 3])) }
  /** The main diagonal A1, B2, ..., I9. */
  function Diagonal(): seq<Cell> { seq(9, i requires 0 <= i < 9 => 9 * i + i) }
  /** The anti-diagonal A9, B8, ..., I1. */
  function AntiDiagonal(): seq<Cell> { seq(9, i requires 0 <= i < 9 => 9 * i + (8 - i)) }

  /** unitlist: rows, columns, squares, then the two diagonals, which are always present. */
  function UnitList(): seq<seq<Cell>> { RowUnits() + ColumnUnits() + SquareUnits() + [Diagonal()] + [AntiDiagonal()] }

  predicate SameSquare(a: Cell, b: Cell) { Row(a) / 3 == Row(b) / 3 && Col(a) / 3 == Col(b) / 3 }
  predicate OnDiagonal(a: Cell) { Row(a) == Col(a) }
  predicate OnAntiDiagonal(a: Cell) { Row(a) + Col(a) == 8 }

  /** What it takes for a box to lie in unit number k of the unit list. */
  predicate InUnit(k: nat, x: Cell) {
    if k < 9 then Row(x) == k
    else if k < 18 then Col(x) == k - 9
    else if k < 27 then Row(x) / 3 == (k - 18) / 3 && Col(x) / 3 == (k - 18) % 3
    else if k == 27 then OnDiagonal(x)
    else k == 28 && OnAntiDiagonal(x)
  }

  lemma BandMembership(b: nat, x: int)
    requires b < 3 && 0 <= x < 9
    ensures InRange(Bands()[b]) && Distinct(Bands()[b])
    ensures x in Bands()[b] <==> x / 3 == b
  {
    if x / 3 == b {
      assert Bands()[b][x - 3 * b] == x;
    }
  }

  lemma DiagonalMembership(x: Cell)
    ensures x in Diagonal() <==> OnDiagonal(x)
    ensures x in AntiDiagonal() <==> OnAntiDiagonal(x)
  {
    if OnDiagonal(x) {
      assert Diagonal()[Row(x)] == x;
    }
    if OnAntiDiagonal(x) {
      assert AntiDiagonal()[Row(x)] == x;
    }
  }

  lemma RowUnitShape(r: nat)
    requires r < 9
    ensures |RowUnits()[r]| == 9 && Distinct(RowUnits()[r])
    ensures forall x: Cell :: x in RowUnits()[r] <==> Row(x) == r
  {
    assert RowUnits()[r] == Cross([r], Cols());
    forall x: Cell ensures Col(x) in Cols() {
      assert Cols()[Col(x)] == Col(x);
    }
  }

  lemma ColumnUnitShape(c: nat)
    requires c < 9
    ensures |ColumnUnits()[c]| == 9 && Distinct(ColumnUnits()[c])
    ensures forall x: Cell :: x in ColumnUnits()[c] <==> Col(x) == c
  {
    assert ColumnUnits()[c] == Cross(Rows(), [c]);
    forall x: Cell ensures Row(x) in Rows() {
      assert Rows()[Row(x)] == Row(x);
    }
  }

  lemma SquareUnitShape(j: nat)
    requires j < 9
    ensures |SquareUnits()[j]| == 9 && Distinct(SquareUnits()[j])
    ensures forall x: Cell :: x in SquareUnits()[j] <==> Row(x) / 3 == j / 3 && Col(x) / 3 == j % 3
  {
    assert SquareUnits()[j] == Cross(Bands()[j / 3], Bands()[j % 3]);
    forall x: Cell ensures x in SquareUnits()[j] <==> Row(x) / 3 == j / 3 && Col(x) / 3 == j % 3 {
      BandMembership(j / 3, Row(x));
      BandMembership(j % 3, Col(x));
    }
  }

  lemma DiagonalShape()
    ensures |Diagonal()| == 9 && Distinct(Diagonal())
    ensures |AntiDiagonal()| == 9 && Distinct(AntiDiagonal())
    ensures forall x: Cell :: x in Diagonal() <==> OnDiagonal(x)
    ensures forall x: Cell :: x in AntiDiagonal() <==> OnAntiDiagonal(x)
  {
    forall x: Cell ensures (x in Diagonal() <==> OnDiagonal(x)) && (x in AntiDiagonal() <==> OnAntiDiagonal(x)) {
      DiagonalMembership(x);
    }
    forall i, j | 0 <= i < j < 9 ensures Diagonal()[i] != Diagonal()[j] && AntiDiagonal()[i] != AntiDiagonal()[j] {
      CellCoordinates(i, i);
      CellCoordinates(i, 8 - i);
    }
  }

  lemma UnitListParts()
    ensures |UnitList()| == 29
    ensures forall k :: 0 <= k < 9 ==> UnitList()[k] == RowUnits()[k]
    ensures forall k :: 9 <= k < 18 ==> UnitList()[k] == ColumnUnits()[k - 9]
    ensures forall k :: 18 <= k < 27 ==> UnitList()[k] == SquareUnits()[k - 18]
    ensures UnitList()[27] == Diagonal() && UnitList()[28] == AntiDiagonal()
  {
    assert |RowUnits()| == 9 && |ColumnUnits()| == 9 && |SquareUnits()| == 9;
  }

  /** Unit number k of the unit list: 9 distinct boxes, exactly those InUnit(k, _) describes. */
  lemma UnitShape(k: nat)
    requires k < 29
    ensures |UnitList()| == 29
    ensures |UnitList()[k]| == 9 && Distinct(UnitList()[k])
    ensures forall x: Cell :: x in UnitList()[k] <==> InUnit(k, x)
  {
    UnitListParts();
    if k < 9 {
      RowUnitShape(k);
    } else if k < 18 {
      ColumnUnitShape(k - 9);
    } else if k < 27 {
      SquareUnitShape(k - 18);
    } else {
      DiagonalShape();
    }
  }

  /** There are 29 units, and each has 9 distinct boxes. */
  lemma {:induction false} UnitListShape()
    ensures |UnitList()| == 29
    ensures forall k :: 0 <= k < 29 ==> |UnitList()[k]| == 9 && Distinct(UnitList()[k])
    ensures forall k, x: Cell :: 0 <= k < 29 ==> (x in UnitList()[k] <==> InUnit(k, x))
  {
    forall k | 0 <= k < 29
      ensures |UnitList()[k]| == 9 && Distinct(UnitList()[k])
      ensures forall x: Cell :: x in UnitList()[k] <==> InUnit(k, x)
    {
      UnitShape(k);
    }
  }

  /** units[s]: the units of `units` that contain s, in their order. */
  function Containing(s: Cell, units: seq<seq<Cell>>): (us: seq<seq<Cell>>)
    ensures forall u :: u in us <==> u in units && s in u
  {
    if units == [] then []
    else
      assert forall u :: u in units <==> u == units[0] || u in units[1..] by {
        assert units == [units[0]] + units[1..];
      }
      (if s in units[0] then [units[0]] else []) + Containing(s, units[1..])
  }

  function UnitsOf(s: Cell): seq<seq<Cell>> { Containing(s, UnitList()) }

  lemma {:induction false} ContainingConcat(s: Cell, a: seq<seq<Cell>>, b: seq<seq<Cell>>)
    ensures |Containing(s, a + b)| == |Containing(s, a)| + |Containing(s, b)|
  {
    if a == [] {
      assert a + b == b;
    } else {
      assert (a + b)[0] == a[0];
      assert (a + b)[1..] == a[1..] + b;
      ContainingConcat(s, a[1..], b);
    }
  }

  /** Units other than number k of `us` do not hold s: only one unit of `us` contains s. */
  lemma {:induction false} ContainingOne(s: Cell, us: seq<seq<Cell>>, k: nat)
    requires k < |us| && s in us[k]
    requires forall j :: 0 <= j < |us| && j != k ==> s !in us[j]
    ensures |Containing(s, us)| == 1
  {
    if k == 0 {
      ContainingNone(s, us[1..]);
    } else {
      ContainingOne(s, us[1..], k - 1);
    }
  }

  lemma {:induction false} ContainingNone(s: Cell, us: seq<seq<Cell>>)
    requires forall j :: 0 <= j < |us| ==> s !in us[j]
    ensures Containing(s, us) == []
  {
    if us != [] {
      ContainingNone(s, us[1..]);
    }
  }

  lemma RowsContaining(s: Cell)
    ensures |Containing(s, RowUnits())| == 1
  {
    forall r | 0 <= r < 9 ensures s in RowUnits()[r] <==> r == Row(s) { RowUnitShape(r); }
    ContainingOne(s, RowUnits(), Row(s));
  }

  lemma ColumnsContaining(s: Cell)
    ensures |Containing(s, ColumnUnits())| == 1
  {
    forall c | 0 <= c < 9 ensures s in ColumnUnits()[c] <==> c == Col(s) { ColumnUnitShape(c); }
    ContainingOne(s, ColumnUnits(), Col(s));
  }

  lemma SquaresContaining(s: Cell)
    ensures |Containing(s, SquareUnits())| == 1
  {
    var n := 3 * (Row(s) / 3) + Col(s) / 3;
    forall j | 0 <= j < 9 ensures s in SquareUnits()[j] <==> j == n {
      SquareUnitShape(j);
      SquareNumber(j, Row(s) / 3, Col(s) / 3);
    }
    ContainingOne(s, SquareUnits(), n);
  }

  /** Every box lies in exactly one row, one column and one square, and in each diagonal
      it is on: 3 units, 4 on one diagonal, 5 for the centre box E5, which is on both. */
  lemma UnitsOfBox(s: Cell)
    ensures |UnitsOf(s)| == 3 + (if OnDiagonal(s) then 1 else 0) + (if OnAntiDiagonal(s) then 1 else 0)
  {
    var rcs := RowUnits() + ColumnUnits() + SquareUnits();
    assert UnitList() == rcs + [Diagonal()] + [AntiDiagonal()];
    RowsContaining(s);
    ColumnsContaining(s);
    SquaresContaining(s);
    ContainingConcat(s, RowUnits(), ColumnUnits());
    ContainingConcat(s, RowUnits() + ColumnUnits(), SquareUnits());
    DiagonalShape();
    SingleUnit(s, Diagonal());
    SingleUnit(s, AntiDiagonal());
    ContainingConcat(s, rcs, [Diagonal()]);
    ContainingConcat(s, rcs + [Diagonal()], [AntiDiagonal()]);
  }

  lemma SquareNumber(j: nat, a: nat, b: nat)
    requires j < 9 && a < 3 && b < 3
    ensures (j / 3 == a && j % 3 == b) <==> j == 3 * a + b
  {
  }

  lemma SingleUnit(s: Cell, u: seq<Cell>)
    ensures |Containing(s, [u])| == if s in u then 1 else 0
  {
    assert [u][1..] == [];
  }

  /** sum(units[s], []): the boxes of all units in order, with repetitions. */
  function Flatten(us: seq<seq<Cell>>): (cs: seq<Cell>)
    ensures forall c :: c in cs <==> exists u :: u in us && c in u
  {
    if us == [] then []
    else
      assert forall u :: u in us <==> u == us[0] || u in us[1..] by {
        assert us == [us[0]] + us[1..];
      }
      us[0] + Flatten(us[1..])
  }

  /** peers[s]: every box that shares a unit with s, except s itself. */
  function Peers(s: Cell): set<Cell> {
    (set c: Cell | c in Flatten(UnitsOf(s))) - {s}
  }

  /** Two distinct boxes share a row, a column, a square or a diagonal. */
  predicate SharesUnit(a: Cell, b: Cell) {
    || Row(a) == Row(b)
    || Col(a) == Col(b)
    || SameSquare(a, b)
    || (OnDiagonal(a) && OnDiagonal(b))
    || (OnAntiDiagonal(a) && OnAntiDiagonal(b))
  }

  lemma SharedMembership(s: Cell, c: Cell, us: seq<seq<Cell>>)
    ensures c in Flatten(Containing(s, us)) <==> exists k :: 0 <= k < |us| && s in us[k] && c in us[k]
  {
    if c in Flatten(Containing(s, us)) {
      var u :| u in Containing(s, us) && c in u;
      var k :| 0 <= k < |us| && us[k] == u;
    }
    if exists k :: 0 <= k < |us| && s in us[k] && c in us[k] {
      var k :| 0 <= k < |us| && s in us[k] && c in us[k];
      assert us[k] in Containing(s, us);
    }
  }

  /** A peer of s is a box other than s that lies with s in some unit. */
  lemma PeersByUnit(s: Cell, c: Cell)
    ensures c in Peers(s) <==> c != s && exists k :: 0 <= k < |UnitList()| && s in UnitList()[k] && c in UnitList()[k]
  {
    PeerSetMembership(s, c, UnitsOf(s));
    SharedMembership(s, c, UnitList());
  }

  lemma PeerSetMembership(s: Cell, c: Cell, us: seq<seq<Cell>>)
    ensures c in (set x: Cell | x in Flatten(us)) - {s} <==> c != s && c in Flatten(us)
  {
  }

  /** The unit number that witnesses SharesUnit(s, c). */
  function SharedUnit(s: Cell, c: Cell): (k: nat)
    requires SharesUnit(s, c)
    ensures k < 29 && InUnit(k, s) && InUnit(k, c)
  {
    if Row(s) == Row(c) then Row(s)
    else if Col(s) == Col(c) then 9 + Col(s)
    else if SameSquare(s, c) then 18 + 3 * (Row(s) / 3) + Col(s) / 3
    else if OnDiagonal(s) && OnDiagonal(c) then 27
    else 28
  }

  lemma InUnitShares(k: nat, s: Cell, c: Cell)
    requires k < 29 && InUnit(k, s) && InUnit(k, c)
    ensures SharesUnit(s, c)
  {
  }

  /** Peers in the geometric terms of the puzzle. */
  lemma PeersCharacterized(s: Cell, c: Cell)
    ensures c in Peers(s) <==> c != s && SharesUnit(s, c)
  {
    PeersByUnit(s, c);
    if c != s && SharesUnit(s, c) {
      var k := SharedUnit(s, c);
      UnitShape(k);
      assert s in UnitList()[k] && c in UnitList()[k];
    }
    if c in Peers(s) {
      var k :| 0 <= k < |UnitList()| && s in UnitList()[k] && c in UnitList()[k];
      UnitShape(k);
      InUnitShares(k, s, c);
    }
  }

  /** peers is irreflexive and symmetric. */
  lemma PeersSymmetric(a: Cell, b: Cell)
    ensures a !in Peers(a)
    ensures b in Peers(a) <==> a in Peers(b)
  {
    PeersCharacterized(a, b);
    PeersCharacterized(b, a);
  }

  /** Two distinct boxes of one unit are peers. */
  lemma UnitMembersArePeers(k: nat, a: Cell, b: Cell)
    requires k < |UnitList()| && a in UnitList()[k] && b in UnitList()[k] && a != b
    ensures b in Peers(a)
  {
    PeersByUnit(a, b);
  }

  predicate Increasing(cs: seq<Cell>) { forall i, j :: 0 <= i < j < |cs| ==> cs[i] < cs[j] }

  /** The boxes of P numbered k or more, in increasing order. */
  function CellsFrom(P: set<Cell>, k: nat): (cs: seq<Cell>)
    requires k <= 81
    ensures forall c: Cell :: c in cs <==> c in P && c >= k
    ensures Increasing(cs)
    decreases 81 - k
  {
    if k == 81 then []
    else
      var rest := CellsFrom(P, k + 1);
      forall j | 0 <= j < |rest| ensures rest[j] > k {
        assert rest[j] in rest;
      }
      if k in P then [k] + rest else rest
  }

  /** The peers of s in increasing order: the order in which this model visits the set peers[s]. */
  function PeerList(s: Cell): (ps: seq<Cell>)
    ensures forall c: Cell :: c in ps <==> c in Peers(s)
    ensures Increasing(ps)
  {
    CellsFrom(Peers(s), 0)
  }
}
