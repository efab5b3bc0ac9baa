/**
  The dancing links solver: an array of nodes relinked in place, and the
  backtracking search over it.
*/
module DancingLinks {
  import opened Rings
  import opened ExactCover
  import opened LinkedMatrix
  import opened SudokuGrid
  import MatrixBuilder

  const MAX_NODES: nat := 1 + 81 * 4 + 9 * 9 * 9 * 4
  const MAX_COLUMNS: nat := 400

  class SudokuSolver {
    const nodes: array<Node>
    const inout: array<int>
    const columns: array<int>
    var root: nat
    var stack: seq<nat>
    var curNode: nat
    ghost var matrix: Matrix
    ghost var view: View
    ghost var hdr: seq<nat>
    ghost var cov: set<nat>

    ghost function St(): State
      reads this, nodes
    {
      State(nodes[..], view, hdr, cov)
    }

    // ----- building the matrix of a board -----

    /** The columns and rows built so far are linked in, and found by name. */
    ghost predicate Building()
      reads this, nodes, columns
    {
      && Inv(matrix, St()) && cov == {} && root == matrix.root && stack == []
      && nodes.Length == MAX_NODES && columns.Length == MAX_COLUMNS && columns != inout
      && curNode <= MAX_NODES && MatrixBuilder.Below(matrix, curNode)
      && MatrixBuilder.Indexed(columns[..], nodes[..], matrix.cols)
    }

    method NewColumn(name: int) returns (c: nat)
      requires curNode < nodes.Length && Closed(nodes[..])
      modifies nodes, `curNode
      ensures c == old(curNode) && curNode == c + 1
      ensures nodes[..] == MatrixBuilder.NewColumn(old(nodes[..]), c, name)
    {
      c := curNode;
      curNode := curNode + 1;
      nodes[c] := Node(c, c, c, c, c, name, 0);
    }

    method PutLeft(at: nat, n: nat)
      requires Closed(nodes[..]) && at < nodes.Length && n < nodes.Length
      modifies nodes
      ensures nodes[..] == MatrixBuilder.PutLeft(old(nodes[..]), at, n)
    {
      nodes[n] := nodes[n].(left := nodes[at].left);
      nodes[n] := nodes[n].(right := at);
      var l := nodes[at].left;
      nodes[l] := nodes[l].(right := n);
      nodes[at] := nodes[at].(left := n);
    }

    method PutUp(at: nat, n: nat)
      requires Closed(nodes[..]) && at < nodes.Length && n < nodes.Length
      modifies nodes
      ensures nodes[..] == MatrixBuilder.PutUp(old(nodes[..]), at, n)
    {
      nodes[n] := nodes[n].(up := nodes[at].up);
      nodes[n] := nodes[n].(down := at);
      var u := nodes[at].up;
      nodes[u] := nodes[u].(down := n);
      nodes[at] := nodes[at].(up := n);
      nodes[at] := nodes[at].(size := nodes[at].size + 1);
      nodes[n] := nodes[n].(col := at);
    }

    method AppendColumn(name: nat)
      requires Building() && name < MAX_COLUMNS && columns[name] == -1 && curNode < MAX_NODES
      modifies nodes, columns, `curNode, `matrix, `view, `hdr
      ensures Building() && curNode == old(curNode) + 1
      ensures columns[..] == old(columns[..])[name := old(curNode)]
      ensures matrix == MatrixBuilder.AddColumn(old(matrix), old(curNode))
    {
      hide Inv, LinkedMatrix.Coverable, MatrixBuilder.Below, MatrixBuilder.Indexed, MatrixBuilder.LinkDone;
      ghost var m, a, n := matrix, St(), curNode;
      MatrixBuilder.AddColumnInv(m, a, n, name);
      ghost var b := MatrixBuilder.ColumnState(m, a, n, name);
      MatrixBuilder.AddColumnIndexed(m, a.nodes, b.nodes, columns[..], n, name);
      var c := NewColumn(name);
      PutLeft(root, c);
      columns[name] := c;
      matrix, view, hdr := MatrixBuilder.AddColumn(m, n), b.view, b.hdr;
    }

    method NewRow(col: nat) returns (r: nat)
      requires col < columns.Length && 0 <= columns[col] < nodes.Length
      requires curNode < nodes.Length && Closed(nodes[..])
      modifies nodes, `curNode
      ensures r == old(curNode) && curNode == r + 1
      ensures nodes[..] == MatrixBuilder.NewRow(old(nodes[..]), r, columns[col], col)
    {
      r := curNode;
      curNode := curNode + 1;
      nodes[r] := Node(r, r, r, r, columns[col], col, 0);
      PutUp(columns[col], r);
    }

    /** Makes four new nodes, one in each of the columns named by "v goes into cell i", and strings them together. */
    method MakeRow(i: nat, v: nat, ghost cs: seq<nat>)
      requires Closed(nodes[..]) && curNode + 4 <= nodes.Length && |cs| == 4 && i < CELLS
      requires forall k :: 0 <= k < 4 ==>
        NameSeq(i, v)[k] < columns.Length && columns[NameSeq(i, v)[k]] == cs[k] && cs[k] < nodes.Length
      modifies nodes, `curNode
      ensures nodes[..] == MatrixBuilder.LinkRow(old(nodes[..]), old(curNode), cs, NameSeq(i, v))
      ensures curNode == old(curNode) + 4
    {
      hide MatrixBuilder.NewRow, MatrixBuilder.PutLeft, MatrixBuilder.LinkRow, Closed;
      ghost var xs := NameSeq(i, v);
      MatrixBuilder.LinkFour(nodes[..], curNode, cs, xs);
      assert xs[0] == i && xs[1] == Name(Row, i / 9, v) && xs[2] == Name(Col, i % 9, v)
          && xs[3] == Name(Box, i / 9 / 3 * 3 + i % 9 / 3, v);
      var n0 := NewRow(i);
      var nr := NewRow(Name(Row, i / 9, v));
      var nc := NewRow(Name(Col, i % 9, v));
      var nb := NewRow(Name(Box, i / 9 / 3 * 3 + i % 9 / 3, v));
      PutLeft(n0, nr);
      PutLeft(n0, nc);
      PutLeft(n0, nb);
    }

    /** Adds the row "v goes into cell i" to the matrix. */
    method AddCandidate(i: nat, v: nat, ghost board: seq<int>)
      requires Building() && MatrixBuilder.RowsFor(matrix, columns[..], board) && Labelled(matrix, nodes[..], CELLS)
      requires i < CELLS && 1 <= v <= 9 && Candidate(board, i, v) && MatrixBuilder.HasColumns(columns[..], i, v)
      requires curNode + 4 <= MAX_NODES
      modifies nodes, `curNode, `matrix, `view
      ensures Building() && MatrixBuilder.RowsFor(matrix, columns[..], board) && Labelled(matrix, nodes[..], CELLS)
      ensures curNode == old(curNode) + 4 && columns[..] == old(columns[..])
      ensures matrix == MatrixBuilder.AddRow(old(matrix), old(curNode), MatrixBuilder.HeaderSeq(columns[..], i, v), i,
        v)
    {
      hide Inv, MatrixBuilder.Below, MatrixBuilder.Indexed, MatrixBuilder.AddRow, MatrixBuilder.Keeps,
        MatrixBuilder.Labels,
           MatrixBuilder.RowsFor, MatrixBuilder.AddAll, Labelled, Candidate, WF, RowsOK, NameSeq, UnitOf, Closed,
           MatrixBuilder.RowFits, MatrixBuilder.HeaderSeq, MatrixBuilder.LinkRow, MatrixBuilder.HasColumns;
      ghost var m, a, n := matrix, St(), curNode;
      ghost var ix, cs, xs := columns[..], MatrixBuilder.HeaderSeq(columns[..], i, v), NameSeq(i, v);
      MatrixBuilder.CandidateFits(m, a, ix, n, i, v);
      MatrixBuilder.AddRowInv(m, a, n, cs, xs, i, v);
      ghost var t := MatrixBuilder.LinkRow(a.nodes, n, cs, xs);
      MatrixBuilder.AddRowRowsFor(m, ix, board, n, i, v);
      MatrixBuilder.AddRowLabelled(m, a.nodes, t, n, cs, i, v);
      MatrixBuilder.KeepsIndexed(m, ix, a.nodes, t, n);
      MatrixBuilder.AddRowCols(m, n, cs, i, v);
      MakeRow(i, v, cs);
      ghost var b := MatrixBuilder.RowState(a, n, cs, xs);
      matrix, view := MatrixBuilder.AddRow(m, n, cs, i, v), b.view;
      assert St() == b;
    }

    /** The named exact cover problem that the matrix built so far stands for. */
    ghost function NamedProblem(): Problem
      reads this, columns
    {
      MatrixBuilder.Named(matrix, columns[..])
    }

    /** The matrix stands for the exact cover problem of the board, up to the names of the columns. */
    ghost predicate Represents(board: seq<int>)
      reads this, nodes, columns
    {
      && Encodes(board, NamedProblem(), matrix.cell, matrix.val)
      && Renaming(ToProblem(matrix), NamedProblem(), MatrixBuilder.NameMap(matrix, nodes[..]))
    }

    constructor (board: array<int>)
      requires IsBoard(board[..])
      ensures fresh(nodes) && fresh(columns) && inout == board && inout[..] == old(board[..])
      ensures Valid() && cov == {} && stack == [] && Represents(inout[..])
    {
      hide Inv, MatrixBuilder.Below, MatrixBuilder.Indexed, MatrixBuilder.RowsFor, Labelled, CandidatesUpTo,
        ColumnsUpTo,
           Marks, Encodes, Renaming, MatrixBuilder.NameMap, MatrixBuilder.Named, MatrixBuilder.NewColumn;
      nodes := new Node[MAX_NODES](_ => Node(0, 0, 0, 0, 0, 0, 0));
      columns := new int[MAX_COLUMNS](_ => -1);
      inout := board;
      root, stack, curNode := 0, [], 0;
      matrix := MatrixBuilder.EmptyMatrix();
      view, hdr, cov := map[], [0], {};
      new;
      ghost var s0 := nodes[..];
      assert Closed(s0);
      root := NewColumn(0);
      MatrixBuilder.EmptyBuilt(s0, 0, columns[..]);
      var rows, cols, boxes := MarkGivens(board);
      AppendCellColumns();
      AppendUnitColumns(rows, cols, boxes);
      MatrixBuilder.NoRowsYet(matrix, nodes[..], columns[..], inout[..]);
      AppendRows(rows, cols, boxes);
      MatrixBuilder.Represented(matrix, St(), columns[..], board[..]);
    }

    /** Which digits each row, column and box already holds. */
    static method MarkGivens(board: array<int>) returns (rows: array2<bool>, cols: array2<bool>, boxes: array2<bool>)
      requires IsBoard(board[..])
      ensures fresh(rows) && fresh(cols) && fresh(boxes) && rows != cols && rows != boxes && cols != boxes
      ensures Marks(rows, board[..], Row, CELLS) && Marks(cols, board[..], Col, CELLS)
        && Marks(boxes, board[..], Box, CELLS)
    {
      rows := new bool[CELLS, 10]((_, _) => false);
      cols := new bool[CELLS, 10]((_, _) => false);
      boxes := new bool[CELLS, 10]((_, _) => false);
      var i := 0;
      while i < CELLS
        invariant 0 <= i <= CELLS
        invariant Marks(rows, board[..], Row, i) && Marks(cols, board[..], Col, i) && Marks(boxes, board[..], Box, i)
      {
        var row := i / 9;
        var col := i % 9;
        var box := row / 3 * 3 + col / 3;
        var val := board[i];
        CellPlace(Row, i);
        CellPlace(Col, i);
        CellPlace(Box, i);
        rows[row, val] := true;
        cols[col, val] := true;
        boxes[box, val] := true;
        HasNext(board[..], i);
        i := i + 1;
      }
    }

    /** mark[u, v] says whether v is among the givens of unit u in the cells below n. */
    static ghost predicate Marks(mark: array2<bool>, b: seq<int>, k: Kind, n: nat)
      requires n <= |b|
      reads mark
    {
      && mark.Length0 == CELLS && mark.Length1 == 10
      && forall u, v :: 0 <= u < 9 && 0 <= v < 10 ==> (mark[u, v] <==> Has(b[..n], k, u, v))
    }

    /** One column for each empty cell. */
    method AppendCellColumns()
      requires Building() && IsBoard(inout[..]) && curNode == 1 && matrix.rows == []
      requires forall x :: 0 <= x < MAX_COLUMNS ==> columns[x] == -1
      modifies nodes, columns, `curNode, `matrix, `view, `hdr
      ensures Building() && curNode <= 1 + CELLS && MatrixBuilder.SameRowsM(matrix, old(matrix))
      ensures ColumnsUpTo(columns[..], inout[..], 0, 1, 0)
    {
      ghost var b := inout[..];
      hide MatrixBuilder.SameRowsM;
      MatrixBuilder.SameRowsMRefl(matrix);
      var i := 0;
      while i < CELLS
        invariant 0 <= i <= CELLS && Building() && curNode <= 1 + i && inout[..] == b
        invariant MatrixBuilder.SameRowsM(matrix, old(matrix))
        invariant forall x :: 0 <= x < MAX_COLUMNS ==> (columns[..][x] != -1 <==> x < i && b[x] == 0)
      {
        if inout[i] == 0 {
          assert columns[..][i] == -1;
          ghost var m := matrix;
          AppendColumn(i);
          MatrixBuilder.SameRowsMStep(m, old(matrix), curNode - 1);
        }
        i := i + 1;
      }
      forall x | 0 <= x < MAX_COLUMNS ensures columns[..][x] != -1 <==> MadeColumn(b, x, 0, 1, 0) {
        MadeCarry(b, 0, 1, x);
      }
    }

    /** Appends the column "v occurs in unit i of kind k" unless a given says so already. */
    method AppendIfMissing(k: Kind, mark: array2<bool>, i: nat, v: nat)
      requires Building() && IsBoard(inout[..]) && i < 9 && 1 <= v <= 9
      requires Marks(mark, inout[..], k, CELLS) && ColumnsUpTo(columns[..], inout[..], i, v, Rank(k))
        && curNode < MAX_NODES
      modifies nodes, columns, `curNode, `matrix, `view, `hdr
      ensures Building() && curNode <= old(curNode) + 1 && MatrixBuilder.SameRowsM(matrix, old(matrix))
      ensures ColumnsUpTo(columns[..], inout[..], i, v, Rank(k) + 1)
    {
      hide Building, MatrixBuilder.SameRowsM, MatrixBuilder.AddColumn, MadeColumn;
      ghost var b, m, ix := inout[..], matrix, columns[..];
      MatrixBuilder.SameRowsMRefl(m);
      Sizes();
      assert b[..CELLS] == b;
      NotMadeYet(b, k, i, v);
      if !mark[i, v] {
        assert ix[Name(k, i, v)] == -1;
        AppendColumn(Name(k, i, v));
        MatrixBuilder.SameRowsMStep(m, m, curNode - 1);
        Sizes();
      }
      forall x | 0 <= x < MAX_COLUMNS ensures columns[..][x] != -1 <==> MadeColumn(b, x, i, v, Rank(k) + 1) {
        MadeNext(b, k, i, v, x);
      }
    }

    lemma Sizes()
      requires Building()
      ensures nodes.Length == MAX_NODES && columns.Length == MAX_COLUMNS && columns != inout && curNode <= MAX_NODES
    {
    }

    /** One column for each digit that a row, column or box still lacks. */
    method AppendUnitColumns(rows: array2<bool>, cols: array2<bool>, boxes: array2<bool>)
      requires Building() && IsBoard(inout[..]) && curNode <= 1 + CELLS && ColumnsUpTo(columns[..], inout[..], 0, 1, 0)
      requires Marks(rows, inout[..], Row, CELLS) && Marks(cols, inout[..], Col, CELLS)
        && Marks(boxes, inout[..], Box, CELLS)
      modifies nodes, columns, `curNode, `matrix, `view, `hdr
      ensures Building() && curNode <= 1 + 4 * CELLS && MatrixBuilder.SameRowsM(matrix, old(matrix))
      ensures ColumnsUpTo(columns[..], inout[..], 9, 1, 0)
    {
      hide Building, ColumnsUpTo, Marks;
      ghost var b := inout[..];
      MatrixBuilder.SameRowsMRefl(matrix);
      Sizes();
      var i := 0;
      while i < 9
        invariant 0 <= i <= 9 && Building() && columns != inout && inout[..] == b
        invariant curNode <= 1 + CELLS + 27 * i && MatrixBuilder.SameRowsM(matrix, old(matrix))
        invariant ColumnsUpTo(columns[..], b, i, 1, 0)
        invariant Marks(rows, b, Row, CELLS) && Marks(cols, b, Col, CELLS) && Marks(boxes, b, Box, CELLS)
      {
        var v := 1;
        while v < 10
          invariant 1 <= v <= 10 && Building() && columns != inout && inout[..] == b
          invariant curNode <= 1 + CELLS + 27 * i + 3 * (v - 1) && MatrixBuilder.SameRowsM(matrix, old(matrix))
          invariant ColumnsUpTo(columns[..], b, i, v, 0)
          invariant Marks(rows, b, Row, CELLS) && Marks(cols, b, Col, CELLS) && Marks(boxes, b, Box, CELLS)
        {
          AppendIfMissing(Row, rows, i, v);
          AppendIfMissing(Col, cols, i, v);
          AppendIfMissing(Box, boxes, i, v);
          NextDigit(columns[..], b, i, v);
          v := v + 1;
        }
        NextUnit(columns[..], b, i);
        i := i + 1;
      }
    }

    /** One row for each digit that may go into each empty cell. */
    method AppendRows(rows: array2<bool>, cols: array2<bool>, boxes: array2<bool>)
      requires Building() && IsBoard(inout[..]) && curNode <= 1 + 4 * CELLS
        && ColumnsUpTo(columns[..], inout[..], 9, 1, 0)
      requires Marks(rows, inout[..], Row, CELLS) && Marks(cols, inout[..], Col, CELLS)
        && Marks(boxes, inout[..], Box, CELLS)
      requires MatrixBuilder.RowsFor(matrix, columns[..], inout[..]) && Labelled(matrix, nodes[..], CELLS)
      modifies nodes, `curNode, `matrix, `view
      ensures Building() && columns[..] == old(columns[..]) && inout[..] == old(inout[..])
      ensures MatrixBuilder.RowsFor(matrix, columns[..], inout[..]) && Labelled(matrix, nodes[..], CELLS)
      ensures CandidatesUpTo(inout[..], matrix.cell, matrix.val, CELLS, 1)
    {
      hide Building, MatrixBuilder.RowsFor, Labelled, ColumnsUpTo, CandidatesUpTo, Marks;
      ghost var b := inout[..];
      MatrixBuilder.NoCandidatesYet(matrix, columns[..], b);
      Sizes();
      var i := 0;
      while i < CELLS
        invariant 0 <= i <= CELLS && Building() && columns[..] == old(columns[..])
        invariant curNode <= 1 + 4 * CELLS + 36 * i
        invariant MatrixBuilder.RowsFor(matrix, columns[..], b) && Labelled(matrix, nodes[..], CELLS)
        invariant CandidatesUpTo(b, matrix.cell, matrix.val, i, 1)
        invariant Marks(rows, b, Row, CELLS) && Marks(cols, b, Col, CELLS) && Marks(boxes, b, Box, CELLS)
      {
        if inout[i] == 0 {
          var row := i / 9;
          var col := i % 9;
          var box := row / 3 * 3 + col / 3;
          var v := 1;
          while v < 10
            invariant 1 <= v <= 10 && Building() && columns[..] == old(columns[..])
            invariant curNode <= 1 + 4 * CELLS + 36 * i + 4 * (v - 1)
            invariant MatrixBuilder.RowsFor(matrix, columns[..], b) && Labelled(matrix, nodes[..], CELLS)
            invariant CandidatesUpTo(b, matrix.cell, matrix.val, i, v)
            invariant Marks(rows, b, Row, CELLS) && Marks(cols, b, Col, CELLS) && Marks(boxes, b, Box, CELLS)
          {
            MarksSay(rows, cols, boxes, b, i, v);
            ghost var m := matrix;
            if !(rows[row, v] || cols[col, v] || boxes[box, v]) {
              MatrixBuilder.CandidateColumns(columns[..], b, i, v);
              AddCandidate(i, v, b);
              MatrixBuilder.AddRowLabels(m, curNode - 4, MatrixBuilder.HeaderSeq(columns[..], i, v), i, v);
            }
            NextCandidate(b, m.cell, m.val, matrix.cell, matrix.val, i, v);
            v := v + 1;
          }
        }
        NextCell(b, matrix.cell, matrix.val, i);
        i := i + 1;
      }
    }

    static lemma MarksSay(rows: array2<bool>, cols: array2<bool>, boxes: array2<bool>, b: seq<int>, i: nat, v: nat)
      requires IsBoard(b) && i < CELLS && b[i] == 0 && 1 <= v <= 9
      requires Marks(rows, b, Row, CELLS) && Marks(cols, b, Col, CELLS) && Marks(boxes, b, Box, CELLS)
      ensures i / 9 / 3 * 3 + i % 9 / 3 < 9
      ensures rows.Length0 == cols.Length0 == boxes.Length0 == CELLS
        && rows.Length1 == cols.Length1 == boxes.Length1 == 10
      ensures !(rows[i / 9, v] || cols[i % 9, v] || boxes[i / 9 / 3 * 3 + i % 9 / 3, v]) <==> Candidate(b, i, v)
    {
      assert b[..CELLS] == b;
      CellPlace(Box, i);
      assert rows[i / 9, v] <==> Has(b, Row, UnitOf(Row, i), v);
      assert cols[i % 9, v] <==> Has(b, Col, UnitOf(Col, i), v);
      assert boxes[i / 9 / 3 * 3 + i % 9 / 3, v] <==> Has(b, Box, UnitOf(Box, i), v);
    }

    // The pointer writes of cover and uncover, one node at a time.

    method UnlinkColumn(c: nat)
      requires c < nodes.Length && Closed(nodes[..])
      modifies nodes
      ensures nodes[..] == UnlinkHeader(old(nodes[..]), c)
    {
      var r := nodes[c].right;
      nodes[r] := nodes[r].(left := nodes[c].left);
      var l := nodes[c].left;
      nodes[l] := nodes[l].(right := nodes[c].right);
    }

    method RelinkColumn(c: nat)
      requires c < nodes.Length && Closed(nodes[..])
      modifies nodes
      ensures nodes[..] == RelinkHeader(old(nodes[..]), c)
    {
      var r := nodes[c].right;
      nodes[r] := nodes[r].(left := c);
      var l := nodes[c].left;
      nodes[l] := nodes[l].(right := c);
    }

    method UnlinkNode(j: nat)
      requires j < nodes.Length && Closed(nodes[..])
      modifies nodes
      ensures nodes[..] == Unlink(old(nodes[..]), j)
    {
      var d := nodes[j].down;
      nodes[d] := nodes[d].(up := nodes[j].up);
      var u := nodes[j].up;
      nodes[u] := nodes[u].(down := nodes[j].down);
      var h := nodes[j].col;
      nodes[h] := nodes[h].(size := nodes[h].size - 1);
    }

    method RelinkNode(j: nat)
      requires j < nodes.Length && Closed(nodes[..])
      modifies nodes
      ensures nodes[..] == Relink(old(nodes[..]), j)
    {
      var h := nodes[j].col;
      nodes[h] := nodes[h].(size := nodes[h].size + 1);
      var d := nodes[j].down;
      nodes[d] := nodes[d].(up := j);
      var u := nodes[j].up;
      nodes[u] := nodes[u].(down := j);
    }

    /** Takes column c out of the header list, and every row of c out of the other columns. */
    method Cover(c: nat)
      requires Coverable(matrix, St(), c)
      modifies nodes, `view, `hdr, `cov
      ensures Coverable(matrix, old(St()), c) && St() == CoverState(matrix, old(St()), c)
      ensures Inv(matrix, St())
    {
      hide Inv, Walkable, CoverState, NodesOK, Fits, Targets, Others, UnlinkAll, Mid, RowNodes, SameRows, SameColumns,
        Closed, Unlink, UnlinkHeader;
      ghost var m, a := matrix, St();
      CoverInv(m, a, c);
      CoverWalkable(m, a, c);
      MidEnds(m, a, c);
      ghost var s1, v, rs := UnlinkHeader(a.nodes, c), a.view, Body(a.view, c);
      ghost var ts := Targets(m, rs);

      UnlinkColumn(c);
      OuterLinks(m, s1, v, c, rs, ts, 0, 0);
      ghost var i := 0;
      var row := nodes[c].down;
      while row != c
        invariant 0 <= i <= |rs|
        invariant row == Stop(c, rs, i)
        invariant Done(m, rs, i, 0) <= |ts| && nodes[..] == Mid(s1, ts, Done(m, rs, i, 0))
        decreases |rs| - i
      {
        ghost var q, os := 0, Others(m, row);
        InnerLinks(m, s1, v, c, rs, ts, i, 0);
        var j := nodes[row].right;
        while j != row
          invariant 0 <= q <= |os|
          invariant j == Stop(row, os, q)
          invariant Done(m, rs, i, q) <= |ts| && nodes[..] == Mid(s1, ts, Done(m, rs, i, q))
          decreases |os| - q
        {
          InnerLinks(m, s1, v, c, rs, ts, i, q);
          MidStep(m, s1, v, c, rs, ts, Done(m, rs, i, q));
          UnlinkNode(j);
          j := nodes[j].right;
          q := q + 1;
        }
        InnerLinks(m, s1, v, c, rs, ts, i, q);
        OuterLinks(m, s1, v, c, rs, ts, Done(m, rs, i, q), i);
        row := nodes[row].down;
        i := i + 1;
      }
      OuterLinks(m, s1, v, c, rs, ts, 0, i);
      ghost var b := CoverState(m, a, c);
      view, hdr, cov := b.view, b.hdr, b.cov;
    }

    /** Undoes Cover(c): given the state a from before, restores it exactly. */
    method Uncover(c: nat, ghost a: State)
      requires Coverable(matrix, a, c) && St() == CoverState(matrix, a, c)
      modifies nodes, `view, `hdr, `cov
      ensures St() == a
    {
      hide Inv, Walkable, CoverState, NodesOK, Fits, Targets, Others, UnlinkAll, Mid, RowNodes, SameRows, SameColumns,
        Closed, Relink, UnlinkHeader, RelinkHeader;
      ghost var m := matrix;
      HeaderEnds(m, a, c);
      CoverWalkable(m, a, c);
      MidEnds(m, a, c);
      ghost var s1, v, rs := UnlinkHeader(a.nodes, c), a.view, Body(a.view, c);
      ghost var ts := Targets(m, rs);

      OuterLinks(m, s1, v, c, rs, ts, |ts|, 0);
      ghost var i := |rs|;
      var row := nodes[c].up;
      while row != c
        invariant 0 <= i <= |rs|
        invariant row == if i == 0 then c else rs[i - 1]
        invariant Done(m, rs, i, 0) <= |ts| && nodes[..] == Mid(s1, ts, Done(m, rs, i, 0))
        decreases i
      {
        i := i - 1;
        ghost var os := Others(m, row);
        ghost var q := |os|;
        InnerLinks(m, s1, v, c, rs, ts, i, q);
        var j := nodes[row].left;
        while j != row
          invariant 0 <= q <= |os|
          invariant j == if q == 0 then row else os[q - 1]
          invariant Done(m, rs, i, q) <= |ts| && nodes[..] == Mid(s1, ts, Done(m, rs, i, q))
          decreases q
        {
          q := q - 1;
          InnerLinks(m, s1, v, c, rs, ts, i, q);
          MidStep(m, s1, v, c, rs, ts, Done(m, rs, i, q));
          RelinkNode(j);
          j := nodes[j].left;
        }
        InnerLinks(m, s1, v, c, rs, ts, i, if q > 0 then q - 1 else 0);
        InnerLinks(m, s1, v, c, rs, ts, i, 0);
        OuterLinks(m, s1, v, c, rs, ts, Done(m, rs, i, 0), i);
        row := nodes[row].up;
      }
      OuterLinks(m, s1, v, c, rs, ts, 0, if i > 0 then i - 1 else 0);
      RelinkColumn(c);
      view, hdr, cov := a.view, a.hdr, a.cov;
    }

    /**
      What holds between calls of solve: the matrix is linked in, minus the covered columns, and the
      stack holds row nodes.
    */
    ghost predicate Valid()
      reads this, nodes
    {
      && Inv(matrix, St()) && root == matrix.root
      && Labelled(matrix, nodes[..], inout.Length)
      && StackOK(matrix, stack)
    }

    /** An uncovered column; if it has more than one row left, no uncovered column has fewer. */
    method GetMinColumn() returns (c: nat)
      requires Inv(matrix, St()) && root == matrix.root && nodes[root].right != root
      ensures c in matrix.cols && c !in cov && c < nodes.Length
      ensures nodes[c].size <= 1 || forall d :: d in matrix.cols && d !in cov ==>
        d < nodes.Length
        && nodes[c].size <= nodes[d].size
    {
      hide Inv;
      ghost var m := matrix;
      NoneLeft(m, St());
      HeaderWalk(m, St(), 1);
      c := nodes[root].right;
      var minSize := nodes[c].size;
      if minSize > 1 {
        ghost var i := 2;
        HeaderWalk(m, St(), i);
        var cc := nodes[c].right;
        while cc != root
          invariant 2 <= i <= |hdr| && cc == Stop(root, hdr, i)
          invariant c in hdr && c != root && c < nodes.Length && minSize == nodes[c].size
          invariant forall k :: 1 <= k < i ==> hdr[k] < nodes.Length && minSize <= nodes[hdr[k]].size
          decreases |hdr| - i
        {
          HeaderWalk(m, St(), i);
          HeaderWalk(m, St(), i + 1);
          if minSize > nodes[cc].size {
            c := cc;
            minSize := nodes[cc].size;
            if minSize <= 1 {
              break;
            }
          }
          cc := nodes[cc].right;
          i := i + 1;
        }
        HeaderWalk(m, St(), i);
        forall d | minSize > 1 && d in m.cols && d !in cov ensures d < nodes.Length && minSize <= nodes[d].size {
          var k :| 0 <= k < |hdr| && hdr[k] == d;
        }
      }
    }

    /** Reads the cell and the digit of a row off the names of its nodes, starting anywhere in the row. */
    method ReadRow(start: nat) returns (cell: int, val: int)
      requires WF(matrix) && Fits(matrix, nodes[..]) && Labelled(matrix, nodes[..], inout.Length)
      requires start in matrix.rowOf
      ensures cell == matrix.cell[matrix.rowOf[start]] && val == matrix.val[matrix.rowOf[start]]
    {
      ghost var m, r := matrix, matrix.rowOf[start];
      ghost var row, k := m.rows[r], m.posOf[start];
      assert HRing(nodes[..], row);
      hide WF, Fits, Distinct;
      cell, val := -1, -1;
      var n := start;
      ghost var i := k;
      while cell == -1 || val == -1
        invariant 0 <= i < |row| && n == row[i]
        invariant cell == -1 || cell == m.cell[r]
        invariant val == -1 || val == m.val[r]
        invariant || (cell == -1 && val == -1 && i == k)
                  || (k == 0 && i == 1 && cell != -1 && val == -1)
                  || (k > 0 && val != -1 && cell == -1 && (i > k || i == 0))
                  || (cell != -1 && val != -1)
        decreases if cell != -1 && val != -1 then 0 else if k == 0 then 3 - i else if i == 0 then 1 else |row| - i + 1
      {
        assert m.rows[r][i] == n;
        assert nodes[..][row[i]].right == row[Next(i, |row|)];
        if nodes[n].name < 100 {
          cell := nodes[n].name;
        } else {
          val := nodes[n].name % 10;
        }
        n := nodes[n].right;
        i := Next(i, |row|);
      }
    }

    /** Writes the chosen rows to the board. */
    method WriteBoard()
      requires WF(matrix) && Fits(matrix, nodes[..]) && Labelled(matrix, nodes[..], inout.Length)
      requires StackOK(matrix, stack)
      modifies inout
      ensures inout[..] == FillRows(matrix, old(inout[..]), RowsOf(matrix, stack))
    {
      hide WF, Fits, Labelled;
      ghost var rs, b := RowsOf(matrix, stack), inout[..];
      var i := 0;
      assert rs[..0] == [];
      while i < |stack|
        invariant 0 <= i <= |stack|
        invariant inout[..] == FillRows(matrix, b, rs[..i])
      {
        LabelledCell(matrix, nodes[..], inout.Length, stack[i]);
        var cell, val := ReadRow(stack[i]);
        assert rs[..i + 1][..i] == rs[..i];
        inout[cell] := val;
        i := i + 1;
      }
      assert rs[..i] == rs;
    }

    /** Searches for rows that cover the uncovered columns exactly; on failure everything is as it was. */
    method Solve() returns (found: bool)
      requires Valid()
      modifies nodes, inout, `stack, `view, `hdr, `cov
      ensures found <==> Solvable(ToProblem(matrix), old(cov))
      ensures !found ==> St() == old(St()) && stack == old(stack) && inout[..] == old(inout[..])
      ensures found ==> StackOK(matrix, stack) && old(stack) <= stack
      ensures found ==> Covers(ToProblem(matrix), old(cov), RowsOf(matrix, stack[|old(stack)|..]))
      ensures found ==> inout[..] == FillRows(matrix, old(inout[..]), RowsOf(matrix, stack))
      decreases |Elements(matrix.cols) - cov|, 1
    {
      hide Inv, WF, Fits, Labelled, CoverState, Covers, Solvable, ToProblem, Elements, Body, HitsOf;
      ghost var m, p, a0, stack0 := matrix, ToProblem(matrix), St(), stack;
      NoneLeft(m, a0);
      InvFits(m, a0);
      if nodes[root].left == root {
        WriteBoard();
        AllCovered(m, a0);
        assert stack[|stack0|..] == [];
        return true;
      }

      var c := GetMinColumn();
      Cover(c);
      ghost var a1 := St();
      CoverNames(m, a0, c);
      LabelledSame(m, a0.nodes, a1.nodes, inout.Length);
      ghost var rs := Body(a0.view, c);
      CoveredList(m, a0, c, 0);
      ghost var i := 0;
      var row := nodes[c].down;
      while row != c
        invariant 0 <= i <= |rs| && row == Stop(c, rs, i)
        invariant St() == a1 && stack == stack0 && inout[..] == old(inout[..])
        invariant forall t :: 0 <= t < i ==> !Solvable(p, a0.cov + HitsOf(m, rs[t]))
        decreases |rs| - i
      {
        CoveredList(m, a0, c, i);
        found := TryRow(row, c, a0);
        if found {
          TakenRow(m, a0, c, row, stack0, stack);
          return true;
        }
        i := i + 1;
        row := nodes[row].down;
      }
      CoveredList(m, a0, c, i);
      Uncover(c, a0);
      AllTried(m, a0, c);
      return false;
    }

    /** Covers the other columns of row's row, one inside the other. */
    method CoverRow(row: nat)
      requires Inv(matrix, St()) && row in matrix.rowOf && Uncovered(matrix, cov, OtherCols(matrix, row))
      modifies nodes, `view, `hdr, `cov
      ensures St() == CoverAll(matrix, old(St()), OtherCols(matrix, row))
    {
      hide Inv, CoverState, CoverAll, Uncovered, Others, Coverable, Elements;
      ghost var m, a := matrix, St();
      ghost var cs, os := OtherCols(m, row), Others(m, row);
      ghost var q := 0;
      assert cs[..0] == [] && CoverAll(m, a, []) == a by { CoverAllNil(m, a); }
      NestRow(m, a, cs, row, 0, 0);
      var j := nodes[row].right;
      while j != row
        invariant 0 <= q <= |os| && j == Stop(row, os, q)
        invariant St() == CoverAll(m, a, cs[..q])
        decreases |os| - q
      {
        NestRow(m, a, cs, row, q, q);
        CoverAllStep(m, a, cs, q);
        Cover(nodes[j].col);
        NestRow(m, a, cs, row, q + 1, q);
        j := nodes[j].right;
        q := q + 1;
      }
      NestRow(m, a, cs, row, q, q);
      assert cs[..q] == cs;
    }

    /**
      Undoes CoverRow(row) by uncovering the same columns in reverse: given the state a from before,
      restores it exactly.
    */
    method UncoverRow(row: nat, ghost a: State)
      requires Inv(matrix, a) && row in matrix.rowOf && Uncovered(matrix, a.cov, OtherCols(matrix, row))
      requires St() == CoverAll(matrix, a, OtherCols(matrix, row))
      modifies nodes, `view, `hdr, `cov
      ensures St() == a
    {
      hide Inv, CoverState, CoverAll, Uncovered, Others, Coverable, Elements;
      ghost var m := matrix;
      ghost var cs, os := OtherCols(m, row), Others(m, row);
      ghost var q := |os|;
      assert cs[..q] == cs;
      NestRow(m, a, cs, row, q, 0);
      var j := nodes[row].left;
      while j != row
        invariant 0 <= q <= |os| && j == if q == 0 then row else os[q - 1]
        invariant St() == CoverAll(m, a, cs[..q])
        decreases q
      {
        NestRow(m, a, cs, row, q, q - 1);
        q := q - 1;
        CoverAllStep(m, a, cs, q);
        Uncover(nodes[j].col, CoverAll(m, a, cs[..q]));
        NestRow(m, a, cs, row, q, q);
        j := nodes[j].left;
      }
      NestRow(m, a, cs, row, q, if q > 0 then q - 1 else 0);
      assert cs[..q] == [] && CoverAll(m, a, []) == a by { CoverAllNil(m, a); }
    }

    /**
      Chooses row node `row` of column c, just covered: covers its other columns, solves the rest, and
      undoes all that on failure.
    */
    method TryRow(row: nat, c: nat, ghost a0: State) returns (found: bool)
      requires Coverable(matrix, a0, c) && St() == CoverState(matrix, a0, c) && row in Body(a0.view, c)
      requires root == matrix.root && Labelled(matrix, nodes[..], inout.Length) && StackOK(matrix, stack)
      modifies nodes, inout, `stack, `view, `hdr, `cov
      ensures found <==> Solvable(ToProblem(matrix), a0.cov + HitsOf(matrix, row))
      ensures !found ==> St() == old(St()) && stack == old(stack) && inout[..] == old(inout[..])
      ensures found ==> StackOK(matrix, stack) && old(stack) + [row] <= stack
      ensures found ==> Covers(ToProblem(matrix), a0.cov + HitsOf(matrix, row),
        RowsOf(matrix, stack[|old(stack)| + 1..]))
      ensures found ==> inout[..] == FillRows(matrix, old(inout[..]), RowsOf(matrix, stack))
      decreases |Elements(matrix.cols) - a0.cov|, 0
    {
      hide Inv, WF, Fits, Labelled, CoverState, CoverAll, Uncovered, Covers, Solvable, ToProblem, Elements, Others,
        HitsOf, Body, FillRows;
      ghost var m, a1, stack0 := matrix, St(), stack;
      ChooseRow(m, a0, c, row);
      CoverInv(m, a0, c);
      Smaller(m.cols, a0.cov, c, HitsOf(m, row));
      CoverAllInv(m, a1, OtherCols(m, row));
      stack := stack + [row];
      CoverRow(row);
      LabelledSame(m, a1.nodes, nodes[..], inout.Length);
      found := Solve();
      if found {
        assert stack0 + [row] <= stack;
        assert stack[|stack0 + [row]|..] == stack[|stack0| + 1..];
        return;
      }
      stack := stack[..|stack| - 1];
      UncoverRow(row, a1);
    }
  }

  const NO_SOLUTION := "NoSolution"

  /** The board written in a puzzle: one character per cell, '0' for an empty one. */
  function BoardOf(puzzle: string): (b: seq<int>)
    ensures |b| == |puzzle|
  {
    seq(|puzzle|, i requires 0 <= i < |puzzle| => puzzle[i] as int - '0' as int)
  }

  ghost predicate HasSolution(b: seq<int>) {
    exists g :: Solved(g) && Extends(g, b)
  }

  /** Reads the puzzle into a board and checks that it holds digits only. */
  /** A cell holds a digit exactly if its character is that digit. */
  lemma CellIsDigit(puzzle: string, i: nat, d: nat)
    requires i < |puzzle| && d <= 9
    ensures BoardOf(puzzle)[i] == d <==> puzzle[i] == "0123456789"[d]
  {
    var digits := "0123456789";
    assert forall k :: 0 <= k < 10 ==> digits[k] as int == 48 + k;
  }

  method ReadPuzzle(puzzle: string) returns (board: array<int>, valid: bool)
    requires |puzzle| == CELLS
    ensures fresh(board) && board[..] == BoardOf(puzzle) && (valid <==> IsBoard(BoardOf(puzzle)))
  {
    board := new int[CELLS](_ => 0);
    valid := true;
    var i := 0;
    while i < CELLS
      invariant 0 <= i <= CELLS
      invariant board[..i] == BoardOf(puzzle)[..i]
      invariant valid <==> forall k :: 0 <= k < i ==> 0 <= BoardOf(puzzle)[k] <= 9
    {
      board[i] := puzzle[i] as int - '0' as int;
      valid := valid && 0 <= board[i] <= 9;
      i := i + 1;
    }
    assert board[..i] == board[..];
  }

  method WriteResult(board: array<int>) returns (result: string)
    requires board.Length == CELLS && forall i :: 0 <= i < CELLS ==> 0 <= board[i] <= 9
    ensures BoardOf(result) == board[..]
  {
    result := [];
    var i := 0;
    while i < CELLS
      invariant 0 <= i <= CELLS && |result| == i
      invariant BoardOf(result) == board[..i]
    {
      result := result + [(board[i] + '0' as int) as char];
      i := i + 1;
    }
    assert board[..i] == board[..];
  }

  /**
    The whole program: a solved board that keeps the givens whenever there is one,
    and "NoSolution" otherwise, be it for a bad character, for givens that clash
    or for givens that cannot be completed.
  */
  method SolveSudoku(puzzle: string) returns (result: string)
    requires |puzzle| == CELLS
    ensures IsBoard(BoardOf(puzzle)) && HasSolution(BoardOf(puzzle)) ==>
      Solved(BoardOf(result)) && Extends(BoardOf(result), BoardOf(puzzle))
    ensures !(IsBoard(BoardOf(puzzle)) && HasSolution(BoardOf(puzzle))) ==> result == NO_SOLUTION
    ensures Clash(BoardOf(puzzle)) ==> result == NO_SOLUTION
  {
    hide Encodes, Renaming, Covers, Solvable, Labelled, Inv, IsBoard, StackOK;
    result := NO_SOLUTION;
    var board, valid := ReadPuzzle(puzzle);
    if valid {
      ghost var b := BoardOf(puzzle);
      var s := new SudokuSolver(board);
      ghost var m := s.matrix;
      ghost var p, q, f := ToProblem(m), s.NamedProblem(), MatrixBuilder.NameMap(m, s.nodes[..]);
      SolvableIffSolution(b, q, m.cell, m.val);
      RenamedSolvable(p, q, f);
      var found := s.Solve();
      if found {
        assert s.stack[0..] == s.stack;
        RenameCovers(p, q, f, RowsOf(m, s.stack));
        CoverSolves(b, q, m.cell, m.val, RowsOf(m, s.stack));
        assert Solved(board[..]);
        result := WriteResult(board);
      }
    }
  }

  lemma RenamedSolvable(p: Problem, q: Problem, f: map<int, int>)
    requires Renaming(p, q, f)
    ensures Solvable(p, {}) <==> Solvable(q, {})
  {
    if Solvable(p, {}) {
      var rs :| Covers(p, {}, rs);
      RenameCovers(p, q, f, rs);
    }
    if Solvable(q, {}) {
      var rs :| Covers(q, {}, rs);
      RenameCovers(p, q, f, rs);
    }
  }
}
