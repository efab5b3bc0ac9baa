/**
  Sudoku boards: cells, rows, columns and boxes, and how completing a board is
  an exact cover problem.
*/
module SudokuGrid {
  import opened ExactCover

  const CELLS: nat := 81

  datatype Kind = Row | Col | Box

  /** The row, column or box that a cell lies in. */
  function UnitOf(k: Kind, i: nat): nat {
    match k
    case Row => i / 9
    case Col => i % 9
    case Box => i / 9 / 3 * 3 + i % 9 / 3
  }

  /** The t-th cell of a unit. */
  function CellAt(k: Kind, u: nat, t: nat): nat {
    match k
    case Row => 9 * u + t
    case Col => 9 * t + u
    case Box => 9 * (u / 3 * 3 + t / 3) + (u % 3 * 3 + t % 3)
  }

  /** The place of a cell within its unit. */
  function PlaceIn(k: Kind, i: nat): nat {
    match k
    case Row => i % 9
    case Col => i / 9
    case Box => i / 9 % 3 * 3 + i % 9 % 3
  }

  lemma Split9(q: nat, r: nat)
    requires r < 9
    ensures (9 * q + r) / 9 == q && (9 * q + r) % 9 == r
  {
  }

  lemma Split3(q: nat, r: nat)
    requires r < 3
    ensures (q * 3 + r) / 3 == q && (q * 3 + r) % 3 == r
  {
  }

  lemma UnitCells(k: Kind, u: nat, t: nat)
    requires u < 9 && t < 9
    ensures CellAt(k, u, t) < CELLS && UnitOf(k, CellAt(k, u, t)) == u && PlaceIn(k, CellAt(k, u, t)) == t
  {
    match k
    case Row => Split9(u, t);
    case Col => Split9(t, u);
    case Box =>
      Split9(u / 3 * 3 + t / 3, u % 3 * 3 + t % 3);
      Split3(u / 3, t / 3);
      Split3(u % 3, t % 3);
  }

  lemma CellPlace(k: Kind, i: nat)
    requires i < CELLS
    ensures UnitOf(k, i) < 9 && PlaceIn(k, i) < 9 && CellAt(k, UnitOf(k, i), PlaceIn(k, i)) == i
  {
    match k
    case Row =>
    case Col =>
    case Box =>
      var r, c := i / 9, i % 9;
      Split3(r / 3, c / 3);
      Split3(r % 3, c % 3);
  }

  ghost predicate IsBoard(b: seq<int>) {
    |b| == CELLS && forall i :: 0 <= i < CELLS ==> 0 <= b[i] <= 9
  }

  /** A solved board: digits 1 to 9, and no digit twice in a row, column or box. */
  ghost predicate Solved(g: seq<int>) {
    && |g| == CELLS
    && (forall i :: 0 <= i < CELLS ==> 1 <= g[i] <= 9)
    && forall k: Kind, i, j :: 0 <= i < j < CELLS && UnitOf(k, i) == UnitOf(k, j) ==> g[i] != g[j]
  }

  ghost predicate Extends(g: seq<int>, b: seq<int>) {
    |g| == |b| && forall i :: 0 <= i < |b| && b[i] != 0 ==> g[i] == b[i]
  }

  /** Digit v occurs in unit u. */
  ghost predicate Has(b: seq<int>, k: Kind, u: int, v: int) {
    exists i :: 0 <= i < |b| && UnitOf(k, i) == u && b[i] == v
  }

  /** Every unit holds every digit. */
  ghost predicate Complete(g: seq<int>) {
    forall k: Kind, u, v :: 0 <= u < 9 && 1 <= v <= 9 ==> Has(g, k, u, v)
  }

  // ----- nine cells, nine digits -----

  function Values(xs: seq<int>): set<int> {
    set i | 0 <= i < |xs| :: xs[i]
  }

  lemma {:induction false} ValuesSize(xs: seq<int>)
    ensures |Values(xs)| <= |xs|
    ensures AllDifferent(xs) <==> |Values(xs)| == |xs|
  {
    if xs != [] {
      var pre, last := xs[..|xs| - 1], xs[|xs| - 1];
      ValuesSize(pre);
      assert Values(xs) == Values(pre) + {last} by {
        forall x | x in Values(xs) ensures x in Values(pre) + {last} {
          var i :| 0 <= i < |xs| && xs[i] == x;
          if i < |pre| { assert pre[i] == x; }
        }
        forall x | x in Values(pre) ensures x in Values(xs) {
          var i :| 0 <= i < |pre| && pre[i] == x;
          assert xs[i] == x;
        }
      }
      if last in Values(pre) {
        assert Values(pre) + {last} == Values(pre);
        var i :| 0 <= i < |pre| && pre[i] == last;
        assert xs[i] == xs[|xs| - 1];
      } else {
        forall i, j | 0 <= i < j < |xs| && AllDifferent(pre) ensures xs[i] != xs[j] {
          if j < |pre| { assert pre[i] != pre[j]; } else { assert pre[i] in Values(pre); }
        }
        if AllDifferent(xs) {
          assert forall i, j :: 0 <= i < j < |pre| ==> pre[i] == xs[i] && pre[j] == xs[j];
        }
      }
    }
  }

  function Digits(): (ds: set<int>)
    ensures |ds| == 9
  {
    {1, 2, 3, 4, 5, 6, 7, 8, 9}
  }

  lemma SubsetFull<T>(x: set<T>, y: set<T>)
    requires x <= y && |x| >= |y|
    ensures x == y
  {
    if x != y {
      var v :| v in y && v !in x;
      SubsetSize(x, y - {v});
    }
  }

  ghost predicate AllDifferent(xs: seq<int>) {
    forall i, j :: 0 <= i < j < |xs| ==> xs[i] != xs[j]
  }

  ghost predicate AllDigits(xs: seq<int>) {
    forall v :: 1 <= v <= 9 ==> v in xs
  }

  /** Nine digits are all different exactly when all nine digits occur. */
  lemma Pigeonhole(xs: seq<int>)
    requires |xs| == 9 && forall i :: 0 <= i < 9 ==> 1 <= xs[i] <= 9
    ensures AllDifferent(xs) <==> AllDigits(xs)
  {
    hide AllDifferent, Values, Digits;
    ValuesSize(xs);
    ValuesAreDigits(xs);
    if AllDifferent(xs) {
      SubsetFull(Values(xs), Digits());
    }
    if AllDigits(xs) {
      SubsetSize(Digits(), Values(xs));
    }
  }

  lemma ValuesAreDigits(xs: seq<int>)
    requires forall i :: 0 <= i < |xs| ==> 1 <= xs[i] <= 9
    ensures Values(xs) <= Digits() && (AllDigits(xs) <==> Digits() <= Values(xs))
  {
    forall v ensures v in Values(xs) <==> v in xs {}
    forall v ensures v in Digits() <==> 1 <= v <= 9 {}
  }

  /** The digits of one unit, in order of place. */
  ghost function UnitDigits(g: seq<int>, k: Kind, u: nat): (xs: seq<int>)
    requires |g| == CELLS && u < 9
    ensures |xs| == 9 && forall t :: 0 <= t < 9 ==> CellAt(k, u, t) < CELLS && xs[t] == g[CellAt(k, u, t)]
  {
    assert forall t :: 0 <= t < 9 ==> CellAt(k, u, t) < CELLS by {
      forall t | 0 <= t < 9 ensures CellAt(k, u, t) < CELLS { UnitCells(k, u, t); }
    }
    seq(9, t requires 0 <= t < 9 => g[CellAt(k, u, t)])
  }

  lemma UnitHas(g: seq<int>, k: Kind, u: nat, v: int)
    requires |g| == CELLS && u < 9
    ensures Has(g, k, u, v) <==> v in UnitDigits(g, k, u)
  {
    var xs := UnitDigits(g, k, u);
    if i :| 0 <= i < |g| && UnitOf(k, i) == u && g[i] == v {
      CellPlace(k, i);
      assert xs[PlaceIn(k, i)] == v;
    }
    if t :| 0 <= t < 9 && xs[t] == v {
      UnitCells(k, u, t);
      assert UnitOf(k, CellAt(k, u, t)) == u && g[CellAt(k, u, t)] == v;
    }
  }

  /** No repeats and nothing missing are the same thing on a full board. */
  lemma SolvedIffComplete(g: seq<int>)
    requires |g| == CELLS && forall i :: 0 <= i < CELLS ==> 1 <= g[i] <= 9
    ensures Solved(g) <==> Complete(g)
  {
    if Solved(g) {
      forall k: Kind, u, v | 0 <= u < 9 && 1 <= v <= 9 ensures Has(g, k, u, v) {
        var xs := UnitDigits(g, k, u);
        forall a, b | 0 <= a < b < 9 ensures xs[a] != xs[b] {
          UnitCells(k, u, a);
          UnitCells(k, u, b);
          var i, j := CellAt(k, u, a), CellAt(k, u, b);
          assert i != j;
          assert if i < j then g[i] != g[j] else g[j] != g[i];
        }
        Pigeonhole(xs);
        UnitHas(g, k, u, v);
      }
    }
    if Complete(g) {
      forall k: Kind, i, j | 0 <= i < j < CELLS && UnitOf(k, i) == UnitOf(k, j) ensures g[i] != g[j] {
        CellPlace(k, i);
        CellPlace(k, j);
        var u := UnitOf(k, i);
        var xs := UnitDigits(g, k, u);
        forall v | 1 <= v <= 9 ensures v in xs {
          UnitHas(g, k, u, v);
        }
        Pigeonhole(xs);
        assert xs[PlaceIn(k, i)] == g[i] && xs[PlaceIn(k, j)] == g[j];
        assert PlaceIn(k, i) != PlaceIn(k, j);
      }
    }
  }

  // ----- the exact cover problem of a board -----

  function Base(k: Kind): nat {
    match k
    case Row => 100
    case Col => 200
    case Box => 300
  }

  /** The name of the column "digit v occurs in unit u"; a column "cell i is filled" is named i. */
  function Name(k: Kind, u: nat, v: nat): nat {
    Base(k) + u * 10 + v
  }

  /** The four columns hit by writing v into cell i. */
  function Names(i: nat, v: nat): set<int> {
    {i as int, Name(Row, UnitOf(Row, i), v), Name(Col, UnitOf(Col, i), v), Name(Box, UnitOf(Box, i), v)}
  }

  function NameSeq(i: nat, v: nat): (xs: seq<nat>)
    ensures |xs| == 4 && forall x :: x in Names(i, v) <==> x >= 0 && x in xs
  {
    [i, Name(Row, UnitOf(Row, i), v), Name(Col, UnitOf(Col, i), v), Name(Box, UnitOf(Box, i), v)]
  }

  lemma NameSeqParts(i: nat, v: nat)
    requires i < CELLS && 1 <= v <= 9
    ensures var xs := NameSeq(i, v); xs[0] == i && forall k :: 1 <= k < 4 ==> 100 <= xs[k] < 400 && xs[k] % 10 == v
  {
    forall k: Kind ensures var x := Name(k, UnitOf(k, i), v); 100 <= x < 400 && x % 10 == v {
      CellPlace(k, i);
      NameParts(k, UnitOf(k, i), v);
    }
  }

  lemma NameSeqDistinct(i: nat, v: nat)
    requires i < CELLS && 1 <= v <= 9
    ensures var xs := NameSeq(i, v); forall j, k :: 0 <= j < k < 4 ==> xs[j] != xs[k]
  {
    NameSeqParts(i, v);
    forall k: Kind, k': Kind ensures k != k' ==> Name(k, UnitOf(k, i), v) != Name(k', UnitOf(k', i), v) {
      CellPlace(k, i);
      CellPlace(k', i);
      if Name(k, UnitOf(k, i), v) == Name(k', UnitOf(k', i), v) {
        NameInjective(k, UnitOf(k, i), v, k', UnitOf(k', i), v);
      }
    }
  }

  lemma NameParts(k: Kind, u: nat, v: nat)
    requires u < 9 && 1 <= v <= 9
    ensures 100 <= Name(k, u, v) < 400 && Name(k, u, v) % 10 == v
  {
    assert Name(k, u, v) == (10 * (Rank(k) + 1) + u) * 10 + v;
  }

  lemma NameInjective(k: Kind, u: nat, v: nat, k': Kind, u': nat, v': nat)
    requires u < 9 && 1 <= v <= 9 && u' < 9 && 1 <= v' <= 9 && Name(k, u, v) == Name(k', u', v')
    ensures k == k' && u == u' && v == v'
  {
  }

  /** Digit v may go into the empty cell i. */
  ghost predicate Candidate(b: seq<int>, i: int, v: int) {
    0 <= i < |b| && b[i] == 0 && 1 <= v <= 9 && forall k: Kind :: !Has(b, k, UnitOf(k, i), v)
  }

  ghost predicate MissingDigit(b: seq<int>, k: Kind, u: int, v: int) {
    0 <= u < 9 && 1 <= v <= 9 && !Has(b, k, u, v)
  }

  ghost predicate IsColumn(b: seq<int>, x: int) {
    || (0 <= x < |b| && b[x] == 0)
    || exists k: Kind, u, v :: MissingDigit(b, k, u, v) && x == Name(k, u, v)
  }

  /** Writing the digits of the chosen rows, in order. */
  function Fill(cell: seq<nat>, val: seq<nat>, board: seq<int>, rs: seq<nat>): (b: seq<int>)
    ensures |b| == |board|
  {
    if rs == [] then board
    else
      var b, r := Fill(cell, val, board, rs[..|rs| - 1]), rs[|rs| - 1];
      if r < |cell| && r < |val| && cell[r] < |b| then b[cell[r] := val[r]] else b
  }

  /** q is the exact cover problem of board b, its rows being the candidates. */
  ghost predicate Encodes(b: seq<int>, q: Problem, cell: seq<nat>, val: seq<nat>) {
    && IsBoard(b)
    && (forall x :: x in q.cols <==> IsColumn(b, x))
    && |q.rows| == |cell| == |val|
    && (forall r :: 0 <= r < |cell| ==> Candidate(b, cell[r], val[r]) && q.rows[r] == Names(cell[r], val[r]))
    && (forall i, v :: Candidate(b, i, v) ==> exists r :: 0 <= r < |cell| && cell[r] == i && val[r] == v)
  }

  lemma RowHits(i: nat, v: nat, x: int)
    requires i < CELLS && 1 <= v <= 9
    ensures x < 100 ==> (x in Names(i, v) <==> x == i)
    ensures forall k: Kind, u: nat, w: nat :: u < 9 && 1 <= w <= 9 ==>
      (Name(k, u, w) in Names(i, v) <==> UnitOf(k, i) == u && v == w)
  {
    forall k: Kind ensures UnitOf(k, i) < 9 && 100 <= Name(k, UnitOf(k, i), v) {
      CellPlace(k, i);
      NameParts(k, UnitOf(k, i), v);
    }
    forall k: Kind, u: nat, w: nat | u < 9 && 1 <= w <= 9
      ensures Name(k, u, w) in Names(i, v) <==> UnitOf(k, i) == u && v == w
    {
      NameParts(k, u, w);
      if Name(k, u, w) in Names(i, v) {
        var k' :| Name(k, u, w) == Name(k', UnitOf(k', i), v);
        NameInjective(k, u, w, k', UnitOf(k', i), v);
      }
    }
  }

  /** Where the filled board differs from the given one, some chosen row says so; and the last one to say so wins. */
  lemma {:induction false} FillAt(cell: seq<nat>, val: seq<nat>, b: seq<int>, rs: seq<nat>, x: nat) returns (t: int)
    requires x < |b| && |cell| == |val| && forall i :: 0 <= i < |rs| ==> rs[i] < |cell|
    ensures -1 <= t < |rs|
    ensures t == -1 ==> Fill(cell, val, b, rs)[x] == b[x] && forall i :: 0 <= i < |rs| ==> cell[rs[i]] != x
    ensures t >= 0 ==> cell[rs[t]] == x && Fill(cell, val, b, rs)[x] == val[rs[t]]
  {
    if rs == [] {
      t := -1;
    } else {
      var last := |rs| - 1;
      var pre := rs[..last];
      if cell[rs[last]] == x {
        t := last;
      } else {
        t := FillAt(cell, val, b, pre, x);
        assert t >= 0 ==> pre[t] == rs[t];
        forall i | t == -1 && 0 <= i < |rs| ensures cell[rs[i]] != x {
          if i < last { assert pre[i] == rs[i]; }
        }
      }
    }
  }

  /** In an exact cover the row that names cell x decides what is written there. */
  lemma FillDigit(b: seq<int>, q: Problem, cell: seq<nat>, val: seq<nat>, rs: seq<nat>, t: nat)
    requires Encodes(b, q, cell, val) && Covers(q, {}, rs) && t < |rs|
    ensures rs[t] < |cell| && Fill(cell, val, b, rs)[cell[rs[t]]] == val[rs[t]]
  {
    forall i | 0 <= i < |rs| ensures rs[i] < |cell| {
      assert Active(q, {}, rs[i]);
    }
    var x := cell[rs[t]];
    var t' := FillAt(cell, val, b, rs, x);
    assert Hits(q, rs, t, x);
    assert t' >= 0 ==> Hits(q, rs, t', x);
  }

  /** Soundness: an exact cover, written to the board, solves it. */
  lemma {:induction false} CoverSolves(b: seq<int>, q: Problem, cell: seq<nat>, val: seq<nat>, rs: seq<nat>)
    requires Encodes(b, q, cell, val) && Covers(q, {}, rs)
    ensures var g := Fill(cell, val, b, rs); Solved(g) && Extends(g, b)
  {
    hide Solved, Encodes, Covers, Complete, IsBoard;
    var g := Fill(cell, val, b, rs);
    EncodedBoard(b, q, cell, val);
    forall x | 0 <= x < CELLS ensures 1 <= g[x] <= 9 && (b[x] != 0 ==> g[x] == b[x]) {
      FilledCell(b, q, cell, val, rs, x);
    }
    FilledUnits(b, q, cell, val, rs);
    SolvedIffComplete(g);
  }

  lemma EncodedBoard(b: seq<int>, q: Problem, cell: seq<nat>, val: seq<nat>)
    requires Encodes(b, q, cell, val)
    ensures IsBoard(b) && |b| == CELLS
  {
  }

  /** Each cell holds a digit, and its given if it has one. */
  lemma FilledCell(b: seq<int>, q: Problem, cell: seq<nat>, val: seq<nat>, rs: seq<nat>, x: nat)
    requires Encodes(b, q, cell, val) && Covers(q, {}, rs) && x < CELLS
    ensures var g := Fill(cell, val, b, rs); 1 <= g[x] <= 9 && (b[x] != 0 ==> g[x] == b[x])
  {
    hide Has;
    forall i | 0 <= i < |rs| ensures rs[i] < |cell| {
      assert Active(q, {}, rs[i]);
    }
    var t := FillAt(cell, val, b, rs, x);
    if t == -1 && b[x] == 0 {
      assert IsColumn(b, x);
      var i :| Hits(q, rs, i, x);
      RowHits(cell[rs[i]], val[rs[i]], x);
    }
  }

  lemma FilledUnits(b: seq<int>, q: Problem, cell: seq<nat>, val: seq<nat>, rs: seq<nat>)
    requires Encodes(b, q, cell, val) && Covers(q, {}, rs)
    requires var g := Fill(cell, val, b, rs); forall x :: 0 <= x < CELLS && b[x] != 0 ==> g[x] == b[x]
    ensures Complete(Fill(cell, val, b, rs))
  {
    var g := Fill(cell, val, b, rs);
    forall i | 0 <= i < |rs| ensures rs[i] < |cell| {
      assert Active(q, {}, rs[i]);
    }
    forall k: Kind, u, v | 0 <= u < 9 && 1 <= v <= 9 ensures Has(g, k, u, v) {
      if Has(b, k, u, v) {
        var i :| 0 <= i < |b| && UnitOf(k, i) == u && b[i] == v;
        assert g[i] == v;
      } else {
        assert MissingDigit(b, k, u, v);
        var x := Name(k, u, v);
        assert IsColumn(b, x);
        var t :| Hits(q, rs, t, x);
        RowHits(cell[rs[t]], val[rs[t]], x);
        FillDigit(b, q, cell, val, rs, t);
        assert g[cell[rs[t]]] == v;
      }
    }
  }

  /** The empty cells below n, in order. */
  function Empties(b: seq<int>, n: nat): (es: seq<nat>)
    requires n <= |b|
    ensures forall t :: 0 <= t < |es| ==> es[t] < n && b[es[t]] == 0
    ensures forall i :: 0 <= i < n && b[i] == 0 ==> i in es
    ensures forall s, t :: 0 <= s < t < |es| ==> es[s] < es[t]
  {
    if n == 0 then []
    else if b[n - 1] == 0 then Empties(b, n - 1) + [n - 1]
    else Empties(b, n - 1)
  }

  lemma Differ(g: seq<int>, k: Kind, i: nat, j: nat)
    requires Solved(g) && i < CELLS && j < CELLS && UnitOf(k, i) == UnitOf(k, j) && i != j
    ensures g[i] != g[j]
  {
    var lo, hi := if i < j then i else j, if i < j then j else i;
    assert UnitOf(k, lo) == UnitOf(k, hi);
  }

  /** A digit of a solution never clashes with the givens. */
  lemma SolutionCandidate(b: seq<int>, g: seq<int>, i: nat)
    requires IsBoard(b) && Solved(g) && Extends(g, b) && i < CELLS && b[i] == 0
    ensures Candidate(b, i, g[i])
  {
    forall k: Kind, j | 0 <= j < |b| && UnitOf(k, j) == UnitOf(k, i) ensures b[j] != g[i] {
      if j != i { Differ(g, k, i, j); }
    }
  }

  lemma {:induction false} ChooseRows(b: seq<int>, q: Problem, cell: seq<nat>, val: seq<nat>, g: seq<int>, n: nat)
      returns (rs: seq<nat>)
    requires Encodes(b, q, cell, val) && Solved(g) && Extends(g, b) && n <= |Empties(b, CELLS)|
    ensures |rs| == n
    ensures forall t :: 0 <= t < n ==>
      rs[t] < |cell| && cell[rs[t]] == Empties(b, CELLS)[t]
      && val[rs[t]] == g[Empties(b, CELLS)[t]]
  {
    if n == 0 {
      rs := [];
    } else {
      var i := Empties(b, CELLS)[n - 1];
      var pre := ChooseRows(b, q, cell, val, g, n - 1);
      SolutionCandidate(b, g, i);
      var r :| 0 <= r < |cell| && cell[r] == i && val[r] == g[i];
      rs := pre + [r];
    }
  }

  /** Each column of the problem is hit by some digit of the solution in an empty cell. */
  lemma SolutionHits(b: seq<int>, g: seq<int>, x: int) returns (t: nat)
    requires IsBoard(b) && Solved(g) && Extends(g, b) && IsColumn(b, x)
    ensures t < |Empties(b, CELLS)| && x in Names(Empties(b, CELLS)[t], g[Empties(b, CELLS)[t]])
  {
    var es := Empties(b, CELLS);
    var i: nat;
    if 0 <= x < |b| && b[x] == 0 {
      i := x;
    } else {
      SolvedIffComplete(g);
      var k: Kind, u, v :| MissingDigit(b, k, u, v) && x == Name(k, u, v);
      assert Has(g, k, u, v);
      var i0 :| 0 <= i0 < |g| && UnitOf(k, i0) == u && g[i0] == v;
      i := i0;
      assert b[i] == 0;
      RowHits(i, v, x);
    }
    var t0 :| 0 <= t0 < |es| && es[t0] == i;
    t := t0;
  }

  /** In a solution two different cells never hit the same column. */
  lemma SameHit(g: seq<int>, i: nat, j: nat, x: int)
    requires Solved(g) && i < CELLS && j < CELLS && x in Names(i, g[i]) && x in Names(j, g[j])
    ensures i == j
  {
    RowHits(i, g[i], x);
    RowHits(j, g[j], x);
    if x >= 100 && i != j {
      var k: Kind :| x == Name(k, UnitOf(k, i), g[i]);
      CellPlace(k, i);
      Differ(g, k, i, j);
    }
  }

  /** Completeness: every solution of the board is an exact cover. */
  lemma {:induction false} SolutionCovers(b: seq<int>, q: Problem, cell: seq<nat>, val: seq<nat>, g: seq<int>)
    requires Encodes(b, q, cell, val) && Solved(g) && Extends(g, b)
    ensures Solvable(q, {})
  {
    var es := Empties(b, CELLS);
    var rs := ChooseRows(b, q, cell, val, g, |es|);
    hide Solved, Extends, IsColumn, Candidate, Names;
    forall x | x in q.cols ensures exists t :: Hits(q, rs, t, x) {
      var t := SolutionHits(b, g, x);
      assert Hits(q, rs, t, x);
    }
    forall x, s, t | Hits(q, rs, s, x) && Hits(q, rs, t, x) ensures s == t {
      SameHit(g, es[s], es[t], x);
      assert es[s] == es[t];
    }
    assert Covers(q, {}, rs);
  }

  /** The board has a solution exactly when the cover problem has one. */
  lemma SolvableIffSolution(b: seq<int>, q: Problem, cell: seq<nat>, val: seq<nat>)
    requires Encodes(b, q, cell, val)
    ensures Solvable(q, {}) <==> exists g :: Solved(g) && Extends(g, b)
  {
    if Solvable(q, {}) {
      var rs :| Covers(q, {}, rs);
      CoverSolves(b, q, cell, val, rs);
    }
    if g :| Solved(g) && Extends(g, b) {
      SolutionCovers(b, q, cell, val, g);
    }
  }

  // ----- givens that clash -----

  /** How many cells are empty. */
  function Zeros(xs: seq<int>): nat {
    if xs == [] then 0 else Zeros(xs[..|xs| - 1]) + if xs[|xs| - 1] == 0 then 1 else 0
  }

  /** The givens among the digits of a unit, in order. */
  function Givens(xs: seq<int>): (ys: seq<int>)
    ensures |ys| + Zeros(xs) == |xs| && forall v :: v in ys <==> v in xs && v != 0
  {
    if xs == [] then []
    else
      var last := xs[|xs| - 1];
      assert xs == xs[..|xs| - 1] + [last];
      Givens(xs[..|xs| - 1]) + if last != 0 then [last] else []
  }

  /** Givens repeat exactly if two of their places hold the same digit. */
  lemma {:induction false} GivensClash(xs: seq<int>, s: nat, t: nat)
    requires s < t < |xs| && xs[s] == xs[t] != 0
    ensures !AllDifferent(Givens(xs))
  {
    var n := |xs| - 1;
    var pre, ys := Givens(xs[..n]), Givens(xs);
    if t < n {
      GivensClash(xs[..n], s, t);
      assert forall i :: 0 <= i < |pre| ==> ys[i] == pre[i];
    } else {
      assert xs[..n][s] == xs[s] && xs[s] in xs[..n] && xs[s] in pre;
      var i :| 0 <= i < |pre| && pre[i] == xs[s];
      assert ys[i] == ys[|pre|];
    }
  }

  function MissingDigits(xs: seq<int>): set<int> {
    Digits() - Values(Givens(xs))
  }

  lemma GivenDigits(ys: seq<int>)
    requires forall v :: v in ys ==> 1 <= v <= 9
    ensures |Digits() - Values(ys)| == 9 - |Values(ys)|
    ensures forall v :: v in Digits() - Values(ys) <==> 1 <= v <= 9 && v !in ys
  {
    hide Digits;
    DigitRange();
    forall v ensures v in Values(ys) <==> v in ys {}
    assert forall v :: v in Values(ys) ==> v in ys && v in Digits();
    assert Values(ys) + (Digits() - Values(ys)) == Digits();
  }

  lemma DigitRange()
    ensures forall v :: v in Digits() <==> 1 <= v <= 9
  {
  }

  /**
    A unit never has more empty cells than digits to place, and as many exactly if its
    givens do not clash: then, and only then, can it be completed by counting.
  */
  lemma UnitCounting(b: seq<int>, k: Kind, u: nat)
    requires IsBoard(b) && u < 9
    ensures var xs := UnitDigits(b, k, u);
      && (forall v :: v in MissingDigits(xs) <==> MissingDigit(b, k, u, v))
      && Zeros(xs) <= |MissingDigits(xs)|
      && (Zeros(xs) == |MissingDigits(xs)| <==> AllDifferent(Givens(xs)))
  {
    hide Givens, Zeros, AllDifferent, Has;
    var ys := Givens(UnitDigits(b, k, u));
    ValuesSize(ys);
    GivenDigits(ys);
    forall v ensures v in MissingDigits(UnitDigits(b, k, u)) <==> MissingDigit(b, k, u, v) {
      UnitHas(b, k, u, v);
    }
  }

  /** Two equal givens in one row, column or box. */
  ghost predicate Clash(b: seq<int>) {
    exists k: Kind, i, j :: 0 <= i < j < |b| && i < CELLS && j < CELLS && UnitOf(k, i) == UnitOf(k, j)
      && b[i] == b[j] != 0
  }

  /**
    Conflicting givens leave some unit with fewer empty cells than digits to place, so
    the cover problem has no solution, although nothing in it mentions the conflict.
  */
  lemma ConflictingGivens(b: seq<int>, q: Problem, cell: seq<nat>, val: seq<nat>)
    requires Encodes(b, q, cell, val) && Clash(b)
    ensures exists k: Kind, u :: 0 <= u < 9 && Zeros(UnitDigits(b, k, u)) < |MissingDigits(UnitDigits(b, k, u))|
    ensures !Solvable(q, {}) && forall g :: Solved(g) ==> !Extends(g, b)
  {
    hide Encodes, Solvable, Givens, Zeros;
    assert IsBoard(b) by { EncodedBoard(b, q, cell, val); }
    var k: Kind, i, j :|
      0 <= i < j < |b| && i < CELLS && j < CELLS && UnitOf(k, i) == UnitOf(k, j) && b[i] == b[j] != 0;
    var u := UnitOf(k, i);
    CellPlace(k, i);
    CellPlace(k, j);
    var xs, s, t := UnitDigits(b, k, u), PlaceIn(k, i), PlaceIn(k, j);
    assert s != t && xs[s] == xs[t] != 0;
    GivensClash(xs, if s < t then s else t, if s < t then t else s);
    UnitCounting(b, k, u);
    SolvableIffSolution(b, q, cell, val);
  }

  // ----- the columns made so far, in the order they are made -----

  function Rank(k: Kind): nat {
    match k
    case Row => 0
    case Col => 1
    case Box => 2
  }

  /** "v occurs in unit u of kind k" comes before step (i, w, t): units first, then digits, then kinds. */
  predicate Earlier(k: Kind, u: int, v: int, i: int, w: int, t: int) {
    u < i || (u == i && (v < w || (v == w && Rank(k) < t)))
  }

  ghost predicate MadeColumn(b: seq<int>, x: int, i: int, w: int, t: int) {
    || (0 <= x < |b| && b[x] == 0)
    || exists k: Kind, u, v :: MissingDigit(b, k, u, v) && x == Name(k, u, v) && Earlier(k, u, v, i, w, t)
  }

  ghost predicate ColumnsUpTo(ix: seq<int>, b: seq<int>, i: int, w: int, t: int) {
    forall x :: 0 <= x < |ix| ==> (ix[x] != -1 <==> MadeColumn(b, x, i, w, t))
  }

  lemma NotMadeYet(b: seq<int>, k: Kind, u: nat, v: nat)
    requires |b| == CELLS && u < 9 && 1 <= v <= 9
    ensures 100 <= Name(k, u, v) < 400 && !MadeColumn(b, Name(k, u, v), u, v, Rank(k))
  {
    NameParts(k, u, v);
    forall k': Kind, u', v' | MissingDigit(b, k', u', v') && Name(k, u, v) == Name(k', u', v')
      ensures !Earlier(k', u', v', u, v, Rank(k))
    {
      NameInjective(k, u, v, k', u', v');
    }
  }

  lemma MadeNext(b: seq<int>, k: Kind, u: nat, v: nat, x: int)
    requires u < 9 && 1 <= v <= 9
    ensures MadeColumn(b, x, u, v, Rank(k) + 1) <==>
      MadeColumn(b, x, u, v, Rank(k)) || (MissingDigit(b, k, u, v) && x == Name(k, u, v))
  {
    if k': Kind, u', v' :|
      MissingDigit(b, k', u', v') && x == Name(k', u', v')
      && Earlier(k', u', v', u, v, Rank(k) + 1) {
      assert Earlier(k', u', v', u, v, Rank(k)) || (u' == u && v' == v && k' == k);
    }
    if k': Kind, u', v' :| MissingDigit(b, k', u', v') && x == Name(k', u', v') && Earlier(k', u', v', u, v, Rank(k)) {
      assert Earlier(k', u', v', u, v, Rank(k) + 1);
    }
    if MissingDigit(b, k, u, v) {
      assert Earlier(k, u, v, u, v, Rank(k) + 1);
    }
  }

  /** All three kinds done for (u, v): on to the next digit; all digits done: on to the next unit. */
  lemma MadeCarry(b: seq<int>, u: nat, v: nat, x: int)
    ensures MadeColumn(b, x, u, v, 3) <==> MadeColumn(b, x, u, v + 1, 0)
    ensures MadeColumn(b, x, u, 10, 0) <==> MadeColumn(b, x, u + 1, 1, 0)
    ensures MadeColumn(b, x, 9, 1, 0) <==> IsColumn(b, x)
    ensures MadeColumn(b, x, 0, 1, 0) <==> 0 <= x < |b| && b[x] == 0
  {
    forall k: Kind, u', v' | MissingDigit(b, k, u', v') ensures
      && (Earlier(k, u', v', u, v, 3) <==> Earlier(k, u', v', u, v + 1, 0))
      && (Earlier(k, u', v', u, 10, 0) <==> Earlier(k, u', v', u + 1, 1, 0))
      && Earlier(k, u', v', 9, 1, 0) && !Earlier(k, u', v', 0, 1, 0)
    {
    }
  }

  /** One more cell read. */
  lemma HasNext(b: seq<int>, i: nat)
    requires i < |b|
    ensures forall k: Kind, u, v :: Has(b[..i + 1], k, u, v) <==>
      Has(b[..i], k, u, v) || (u == UnitOf(k, i) && v == b[i])
    ensures i + 1 == |b| ==> b[..i + 1] == b
  {
    forall k: Kind, u, v ensures Has(b[..i + 1], k, u, v) <==>
      Has(b[..i], k, u, v) || (u == UnitOf(k, i) && v == b[i])
    {
      if j :| 0 <= j < i + 1 && UnitOf(k, j) == u && b[..i + 1][j] == v {
        if j < i { assert b[..i][j] == v; }
      }
      if j :| 0 <= j < i && UnitOf(k, j) == u && b[..i][j] == v {
        assert b[..i + 1][j] == v;
      }
      assert b[..i + 1][i] == b[i];
    }
  }

  lemma NextDigit(ix: seq<int>, b: seq<int>, i: nat, v: nat)
    requires ColumnsUpTo(ix, b, i, v, 3)
    ensures ColumnsUpTo(ix, b, i, v + 1, 0)
  {
    forall x | 0 <= x < |ix| ensures ix[x] != -1 <==> MadeColumn(b, x, i, v + 1, 0) {
      MadeCarry(b, i, v, x);
    }
  }

  lemma NextUnit(ix: seq<int>, b: seq<int>, i: nat)
    requires ColumnsUpTo(ix, b, i, 10, 0)
    ensures ColumnsUpTo(ix, b, i + 1, 1, 0)
  {
    forall x | 0 <= x < |ix| ensures ix[x] != -1 <==> MadeColumn(b, x, i + 1, 1, 0) {
      MadeCarry(b, i, 1, x);
    }
  }

  lemma AllColumns(ix: seq<int>, b: seq<int>)
    requires ColumnsUpTo(ix, b, 9, 1, 0)
    ensures forall x :: 0 <= x < |ix| ==> (ix[x] != -1 <==> IsColumn(b, x))
  {
    forall x | 0 <= x < |ix| ensures ix[x] != -1 <==> IsColumn(b, x) {
      MadeCarry(b, 9, 1, x);
    }
  }

  /** The candidates made so far: all of the cells below i, and of cell i those below v. */
  ghost predicate CandidatesUpTo(b: seq<int>, cell: seq<nat>, val: seq<nat>, i: int, v: int) {
    && |cell| == |val|
    && forall j, w :: Candidate(b, j, w) && (j < i || (j == i && w < v)) ==>
       exists r :: 0 <= r < |cell| && cell[r] == j && val[r] == w
  }

  lemma NextCandidate(b: seq<int>, cell: seq<nat>, val: seq<nat>, cell': seq<nat>, val': seq<nat>, i: nat, v: nat)
    requires CandidatesUpTo(b, cell, val, i, v)
    requires if Candidate(b, i, v) then cell' == cell + [i] && val' == val + [v] else cell' == cell && val' == val
    ensures CandidatesUpTo(b, cell', val', i, v + 1)
  {
    forall j, w | Candidate(b, j, w) && (j < i || (j == i && w < v + 1))
      ensures exists r :: 0 <= r < |cell'| && cell'[r] == j && val'[r] == w
    {
      if j == i && w == v {
        assert cell'[|cell|] == i && val'[|cell|] == v;
      } else {
        var r :| 0 <= r < |cell| && cell[r] == j && val[r] == w;
        assert cell'[r] == j && val'[r] == w;
      }
    }
  }

  lemma NextCell(b: seq<int>, cell: seq<nat>, val: seq<nat>, i: nat)
    requires CandidatesUpTo(b, cell, val, i, 10) || (i < |b| && b[i] != 0 && CandidatesUpTo(b, cell, val, i, 1))
    ensures CandidatesUpTo(b, cell, val, i + 1, 1)
  {
  }
}
