/**
  Building the linked matrix: new columns are put at the end of the header list,
  new row nodes at the bottom of their column, and the nodes of a row are strung
  together left to right.
*/
module MatrixBuilder {
  import opened Rings
  import opened ExactCover
  import opened LinkedMatrix
  import SudokuGrid

  /** Puts node n to the left of node at, that is, at the end of at's horizontal ring. */
  function PutLeft(s: Store, at: nat, n: nat): (t: Store)
    requires Closed(s) && at < |s| && n < |s|
    ensures Closed(t) && SameColumns(s, t)
  {
    var s1 := SetRight(SetLeft(s, n, s[at].left), n, at);
    SetLeft(SetRight(s1, s1[at].left, n), at, n)
  }

  function SetCol(s: Store, i: nat, x: nat): Store
    requires i < |s|
  { s[i := s[i].(col := x)] }

  /** Puts node n above the header at, that is, at the bottom of the column. */
  function PutUp(s: Store, at: nat, n: nat): (t: Store)
    requires Closed(s) && at < |s| && n < |s|
    ensures Closed(t) && |t| == |s|
  {
    var s1 := SetDown(SetUp(s, n, s[at].up), n, at);
    var s2 := SetUp(SetDown(s1, s1[at].up, n), at, n);
    SetCol(AddSize(s2, at, 1), n, at)
  }

  function NewColumn(s: Store, c: nat, name: int): (t: Store)
    requires Closed(s) && c < |s|
    ensures Closed(t) && |t| == |s|
  { s[c := Node(c, c, c, c, c, name, 0)] }

  function NewRow(s: Store, n: nat, d: nat, name: int): (t: Store)
    requires Closed(s) && n < |s| && d < |s|
    ensures Closed(t) && |t| == |s|
  { PutUp(s[n := Node(n, n, n, n, d, name, 0)], d, n) }

  // ----- appending to a ring -----

  ghost predicate PutLeftDone(s: Store, t: Store, at: nat, n: nat)
    requires at < |s|
  {
    && |t| == |s|
    && forall x :: 0 <= x < |s| ==>
         && t[x].left == (if x == at then n else if x == n then s[at].left else s[x].left)
         && t[x].right == (if x == n then at else if x == s[at].left then n else s[x].right)
  }

  lemma PutLeftAt(s: Store, at: nat, n: nat)
    requires Closed(s) && at < |s| && n < |s| && at != n && s[at].left != n
    ensures PutLeftDone(s, PutLeft(s, at, n), at, n)
  {
  }

  lemma AppendIndex(ring: seq<nat>, n: nat, k: nat)
    requires Distinct(ring) && |ring| > 0 && n !in ring && k <= |ring|
    ensures var r := ring + [n]; var len := |ring|;
      && r[Next(k, len + 1)] == (if k == len then ring[0] else if k == len - 1 then n else ring[Next(k, len)])
      && r[Prev(k, len + 1)] == (if k == len then ring[len - 1] else if k == 0 then n else ring[Prev(k, len)])
      && ring[Prev(0, len)] == ring[len - 1]
      && (k < len ==>
         r[k] == ring[k] && ring[k] != n && (ring[k] == ring[len - 1] <==> k == len - 1)
         && (ring[k] == ring[0] <==> k == 0))
  {
  }

  lemma AppendDistinct(ring: seq<nat>, n: nat)
    requires Distinct(ring) && n !in ring
    ensures Distinct(ring + [n])
  {
  }

  lemma AppendHRing(s: Store, t: Store, ring: seq<nat>, n: nat)
    requires HRing(s, ring) && |ring| > 0 && n !in ring && n < |s| && PutLeftDone(s, t, ring[0], n)
    ensures HRing(t, ring + [n])
  {
    var r := ring + [n];
    assert s[ring[0]].left == ring[Prev(0, |ring|)];
    forall k | 0 <= k < |r|
      ensures r[k] < |t| && t[r[k]].right == r[Next(k, |r|)] && t[r[k]].left == r[Prev(k, |r|)]
    {
      AppendIndex(ring, n, k);
      if k < |ring| {
        assert s[ring[k]].right == ring[Next(k, |ring|)];
      }
    }
  }

  /** A new node n at the bottom of column d. */
  ghost predicate NewRowDone(s: Store, t: Store, n: nat, d: nat, name: int)
    requires n < |s| && d < |s|
  {
    && |t| == |s|
    && t[n].left == n && t[n].right == n && t[n].name == name && t[n].col == d
    && t[n].up == s[d].up && t[n].down == d
    && forall x :: 0 <= x < |s| && x != n ==>
         && t[x].left == s[x].left && t[x].right == s[x].right && t[x].col == s[x].col && t[x].name == s[x].name
         && t[x].up == (if x == d then n else s[x].up)
         && t[x].down == (if x == s[d].up then n else s[x].down)
         && t[x].size == s[x].size + if x == d then 1 else 0
  }

  lemma NewRowAt(s: Store, n: nat, d: nat, name: int)
    requires Closed(s) && n < |s| && d < |s| && n != d && s[d].up != n
    ensures NewRowDone(s, NewRow(s, n, d, name), n, d, name)
  {
  }

  lemma AppendColumn(s: Store, t: Store, ring: seq<nat>, d: nat, n: nat, name: int)
    requires ColumnOK(s, ring, d) && n !in ring && n < |s| && NewRowDone(s, t, n, d, name)
    ensures ColumnOK(t, ring + [n], d)
  {
    hide Distinct;
    var r := ring + [n];
    assert s[ring[0]].up == ring[Prev(0, |ring|)] && s[ring[0]].col == d;
    AppendDistinct(ring, n);
    forall k | 0 <= k < |r|
      ensures r[k] < |t| && t[r[k]].down == r[Next(k, |r|)] && t[r[k]].up == r[Prev(k, |r|)] && t[r[k]].col == d
    {
      AppendIndex(ring, n, k);
      if k < |ring| {
        assert s[ring[k]].down == ring[Next(k, |ring|)];
      }
    }
  }

  lemma OtherColumn(s: Store, t: Store, ring: seq<nat>, d: nat, d0: nat, n: nat, name: int)
    requires ColumnOK(s, ring, d) && n !in ring && n < |s| && d0 < |s| && NewRowDone(s, t, n, d0, name)
    requires d != d0 && d0 !in ring && s[d0].up !in ring
    ensures ColumnOK(t, ring, d)
  {
    assert s[ring[0]].col == d;
    forall k | 0 <= k < |ring|
      ensures t[ring[k]].down == ring[Next(k, |ring|)] && t[ring[k]].up == ring[Prev(k, |ring|)] && t[ring[k]].col == d
    {
      assert s[ring[k]].down == ring[Next(k, |ring|)];
    }
  }

  function AddTo(v: View, d: nat, n: nat): View {
    if d in v then v[d := v[d] + [n]] else v
  }

  lemma ColumnTail(s: Store, ring: seq<nat>, d: nat)
    requires ColumnOK(s, ring, d)
    ensures d < |s| && s[d].col == d && s[d].up < |s| && s[d].up in ring && s[s[d].up].col == d
  {
    assert s[ring[0]].up == ring[Prev(0, |ring|)];
    assert s[ring[Prev(0, |ring|)]].col == d;
    assert s[ring[0]].col == d;
  }

  lemma NotInOther(s: Store, ring: seq<nat>, d: nat, x: nat)
    requires ColumnOK(s, ring, d) && x < |s| && s[x].col != d
    ensures x !in ring
  {
    forall i | 0 <= i < |ring| ensures ring[i] != x {
      assert s[ring[i]].col == d;
    }
  }

  lemma AddToView(m: Matrix, v: View, d: nat, n: nat)
    requires ViewOK(m, v) && d in v
    requires n in m.rowOf && n in m.colOf && m.colOf[n] == d && n !in v && n !in v[d]
    ensures ViewOK(m, AddTo(v, d, n)) && forall e :: e in v ==> n !in v[e]
  {
    var w := AddTo(v, d, n);
    forall e, x | e in w && x in w[e] && x != e ensures x in m.rowOf && x in m.colOf && m.colOf[x] == e {
      assert x in v[e] || (e == d && x == n);
    }
  }

  /** One new node keeps every column in order. */
  lemma NewRowStep(m: Matrix, s: Store, v: View, d: nat, n: nat, name: int)
    requires Closed(s) && ColumnsOK(m, s, v) && d in v && n < |s|
    requires n in m.rowOf && n in m.colOf && m.colOf[n] == d && n !in v && n !in v[d]
    ensures d < |s| && n != d && s[d].up != n
    ensures ColumnsOK(m, NewRow(s, n, d, name), AddTo(v, d, n))
  {
    hide Closed, ViewOK, ColumnOK, NewRow, NewRowDone;
    AddToView(m, v, d, n);
    ColumnTail(s, v[d], d);
    NewRowAt(s, n, d, name);
    var t, w := NewRow(s, n, d, name), AddTo(v, d, n);
    forall e | e in v ensures ColumnOK(t, w[e], e) {
      if e == d {
        AppendColumn(s, t, v[d], d, n, name);
      } else {
        NotInOther(s, v[e], e, d);
        NotInOther(s, v[e], e, s[d].up);
        OtherColumn(s, t, v[e], e, d, n, name);
      }
    }
  }

  // ----- a whole column, a whole row -----

  /** All nodes of the structure are below cur. */
  ghost predicate Below(m: Matrix, cur: nat) {
    && m.root < cur
    && (forall c :: c in m.cols ==> c < cur)
    && (forall n :: n in m.rowOf ==> n < cur)
  }

  function AddColumn(m: Matrix, c: nat): Matrix {
    m.(cols := m.cols + [c])
  }

  function LinkColumn(s: Store, root: nat, c: nat, name: int): (t: Store)
    requires Closed(s) && root < |s| && c < |s|
    ensures Closed(t) && |t| == |s|
  {
    PutLeft(NewColumn(s, c, name), root, c)
  }

  function ColumnState(m: Matrix, a: State, c: nat, name: int): State
    requires Closed(a.nodes) && m.root < |a.nodes| && c < |a.nodes|
  {
    State(LinkColumn(a.nodes, m.root, c, name), a.view[c := [c]], a.hdr + [c], a.cov)
  }

  lemma AddColumnWF(m: Matrix, c: nat)
    requires WF(m) && Below(m, c)
    ensures WF(AddColumn(m, c)) && Below(AddColumn(m, c), c + 1)
  {
    var m' := AddColumn(m, c);
    var hs := [m.root] + m.cols;
    assert [m'.root] + m'.cols == hs + [c];
    forall i | 0 <= i < |hs| ensures hs[i] < c {
      if i > 0 { assert m.cols[i - 1] in m.cols; }
    }
    hide NodesOK, RowsOK, HitsOK;
    assert Distinct(hs + [c]);
    assert NodesOK(m') && RowsOK(m') && HitsOK(m') by { AddColumnRows(m, c); }
  }

  lemma AddColumnRows(m: Matrix, c: nat)
    requires NodesOK(m) && RowsOK(m) && HitsOK(m) && Below(m, c)
    ensures NodesOK(AddColumn(m, c)) && RowsOK(AddColumn(m, c)) && HitsOK(AddColumn(m, c))
  {
  }

  /** A new header c at the end of the header list. */
  ghost predicate LinkDone(s: Store, t: Store, root: nat, c: nat, name: int)
    requires root < |s| && c < |s|
  {
    && |t| == |s|
    && t[c] == Node(s[root].left, root, c, c, c, name, 0)
    && forall x :: 0 <= x < |s| && x != c ==>
         && t[x].left == (if x == root then c else s[x].left)
         && t[x].right == (if x == s[root].left then c else s[x].right)
         && t[x].up == s[x].up && t[x].down == s[x].down && t[x].col == s[x].col && t[x].name == s[x].name
            && t[x].size == s[x].size
  }

  lemma LinkColumnAt(s: Store, root: nat, c: nat, name: int)
    requires Closed(s) && root < |s| && c < |s| && root != c && s[root].left != c
    ensures LinkDone(s, LinkColumn(s, root, c, name), root, c, name)
  {
    PutLeftAt(NewColumn(s, c, name), root, c);
  }

  lemma AddColumnFits(m: Matrix, s: Store, t: Store, c: nat, name: int)
    requires Fits(m, s) && NodesOK(m) && RowsOK(m) && Below(m, c) && c < |s|
    requires Closed(t) && LinkDone(s, t, m.root, c, name)
    requires s[m.root].left == m.root || s[m.root].left in m.cols
    ensures Fits(AddColumn(m, c), t)
  {
    forall r | 0 <= r < |m.rows| ensures HRing(t, m.rows[r]) {
      var row := m.rows[r];
      assert HRing(s, row);
      forall k | 0 <= k < |row| ensures t[row[k]].left == s[row[k]].left && t[row[k]].right == s[row[k]].right {
        assert m.rows[r][k] in m.rowOf;
      }
    }
  }

  lemma ColumnUntouched(s: Store, t: Store, ring: seq<nat>, d: nat, root: nat, c: nat, name: int)
    requires ColumnOK(s, ring, d) && root < |s| && c < |s| && LinkDone(s, t, root, c, name)
    requires forall k :: 0 <= k < |ring| ==> ring[k] < c
    ensures ColumnOK(t, ring, d)
  {
  }

  lemma AddColumnColumns(m: Matrix, s: Store, t: Store, v: View, c: nat, name: int)
    requires ColumnsOK(m, s, v) && Below(m, c) && c < |s| && m.root < |s| && LinkDone(s, t, m.root, c, name)
    requires ViewBelow(v, c)
    ensures ColumnsOK(AddColumn(m, c), t, v[c := [c]])
  {
    hide LinkDone, ColumnOK;
    forall d | d in v ensures d != c && ColumnOK(t, v[d], d) {
      ColumnUntouched(s, t, v[d], d, m.root, c, name);
      assert v[d][0] == d;
    }
    EmptyColumn(s, t, m.root, c, name);
  }

  lemma EmptyColumn(s: Store, t: Store, root: nat, c: nat, name: int)
    requires root < |s| && c < |s| && LinkDone(s, t, root, c, name)
    ensures ColumnOK(t, [c], c)
  {
  }

  ghost predicate ViewBelow(v: View, cur: nat) {
    forall d, k :: d in v && 0 <= k < |v[d]| ==> v[d][k] < cur
  }

  lemma ViewIsBelow(m: Matrix, v: View, cur: nat)
    requires ViewOK(m, v) && Below(m, cur)
    ensures ViewBelow(v, cur)
  {
    forall d, k | d in v && 0 <= k < |v[d]| ensures v[d][k] < cur {
      var x := v[d][k];
      assert x in v[d] && d in m.cols;
      assert x == d || x in m.rowOf;
    }
  }

  lemma HeadersBelow(m: Matrix, s: Store, hdr: seq<nat>, cur: nat)
    requires HeadersOK(m, s, hdr, {}) && Below(m, cur)
    ensures forall i :: 0 <= i < |hdr| ==> hdr[i] < cur
    ensures m.root < |s| && (s[m.root].left == m.root || s[m.root].left in m.cols) && s[m.root].left < cur
  {
    forall i | 0 <= i < |hdr| ensures hdr[i] == m.root || hdr[i] in m.cols {
      assert hdr[i] in hdr;
    }
    assert s[hdr[0]].left == hdr[Prev(0, |hdr|)];
  }

  lemma AddColumnHeaders(m: Matrix, s: Store, hdr: seq<nat>, c: nat, name: int)
    requires Closed(s) && HeadersOK(m, s, hdr, {}) && c < |s| && forall i :: 0 <= i < |hdr| ==> hdr[i] < c
    ensures m.root < |s| && HeadersOK(AddColumn(m, c), LinkColumn(s, m.root, c, name), hdr + [c], {})
  {
    var s1 := NewColumn(s, c, name);
    assert hdr[0] == m.root;
    assert HRing(s1, hdr);
    assert s[hdr[0]].left == hdr[Prev(0, |hdr|)];
    PutLeftAt(s1, m.root, c);
    AppendHRing(s1, PutLeft(s1, m.root, c), hdr, c);
    assert forall x :: x in hdr + [c] <==> x in hdr || x == c;
  }

  /** A new column: an empty list below a header at the end of the header list. */
  lemma AddColumnInv(m: Matrix, a: State, c: nat, name: int)
    requires Inv(m, a) && a.cov == {} && Below(m, c) && c < |a.nodes|
    ensures Closed(a.nodes) && m.root < |a.nodes|
    ensures Inv(AddColumn(m, c), ColumnState(m, a, c, name)) && Below(AddColumn(m, c), c + 1)
    ensures LinkDone(a.nodes, ColumnState(m, a, c, name).nodes, m.root, c, name)
  {
    hide WF, Fits, ViewOK, ViewBelow, HeadersOK, Lists, Below, LinkDone, LinkColumn;
    AddColumnRange(m, a, c);
    var m', b := AddColumn(m, c), ColumnState(m, a, c, name);
    ViewIsBelow(m, a.view, c);
    HeadersBelow(m, a.nodes, a.hdr, c);
    LinkColumnAt(a.nodes, m.root, c, name);
    AddColumnWF(m, c);
    AddColumnFits(m, a.nodes, b.nodes, c, name);
    AddColumnColumns(m, a.nodes, b.nodes, a.view, c, name);
    AddColumnHeaders(m, a.nodes, a.hdr, c, name);
    AddColumnLists(m, a.view, c);
  }

  lemma AddColumnRange(m: Matrix, a: State, c: nat)
    requires Inv(m, a) && a.cov == {} && Below(m, c)
    ensures WF(m) && NodesOK(m) && RowsOK(m) && Fits(m, a.nodes) && Closed(a.nodes) && m.root < |a.nodes| && m.root < c
    ensures ColumnsOK(m, a.nodes, a.view) && ViewOK(m, a.view) && Lists(m, a.view, {})
      && HeadersOK(m, a.nodes, a.hdr, {})
  {
  }

  lemma AddColumnLists(m: Matrix, v: View, c: nat)
    requires NodesOK(m) && Lists(m, v, {}) && Below(m, c)
    ensures Lists(AddColumn(m, c), v[c := [c]], {})
  {
  }

  // ----- rows -----

  function NewNodes(n: nat, len: nat): (ns: seq<nat>)
    ensures |ns| == len && forall k :: 0 <= k < len ==> ns[k] == n + k
  {
    seq(len, k requires 0 <= k < len => n + k)
  }

  function NewSet(n: nat, len: nat): (ns: set<nat>)
    ensures forall x :: x in ns <==> n <= x < n + len
  {
    forall x: nat | n <= x < n + len ensures x in NewNodes(n, len) {
      assert NewNodes(n, len)[x - n] == x;
    }
    set x | x in NewNodes(n, len)
  }

  /** Gives the nodes n, n + 1, ... the values vals. */
  function Extend(f: map<nat, nat>, n: nat, vals: seq<nat>): (g: map<nat, nat>)
    ensures forall x :: x in g <==> x in f || n <= x < n + |vals|
    ensures forall x :: n <= x < n + |vals| ==> g[x] == vals[x - n]
    ensures forall x :: x in f && !(n <= x < n + |vals|) ==> g[x] == f[x]
  {
    f + (map x | x in NewSet(n, |vals|) :: vals[x - n])
  }

  function ExtendAt(f: map<(nat, int), nat>, r: nat, n: nat, cs: seq<nat>): (g: map<(nat, int), nat>)
    ensures forall q, c :: q != r ==> ((q, c) in g <==> (q, c) in f) && ((q, c) in f ==> g[(q, c)] == f[(q, c)])
    ensures forall c :: c in cs ==> (r, c as int) in g && g[(r, c as int)] == n + IndexOf(cs, c)
  {
    f + (map c | c in cs :: (r, c as int) := n + IndexOf(cs, c))
  }

  function IntSet(cs: seq<nat>): (s: set<int>)
    ensures forall d :: d in s <==> d >= 0 && d in cs
  {
    set c | c in cs :: c as int
  }

  function Repeat(x: nat, len: nat): (xs: seq<nat>)
    ensures |xs| == len && forall i :: 0 <= i < len ==> xs[i] == x
  {
    seq(len, _ => x)
  }

  /** Row |m.rows|, made of the nodes n, n + 1, ..., one in each of the columns cs. */
  function AddRow(m: Matrix, n: nat, cs: seq<nat>, cell: nat, val: nat): Matrix {
    var r: nat := |m.rows|;
    Matrix(m.root, m.cols, m.rows + [NewNodes(n, |cs|)],
           Extend(m.rowOf, n, Repeat(r, |cs|)),
           Extend(m.posOf, n, NewNodes(0, |cs|)),
           Extend(m.colOf, n, cs),
           m.hits + [IntSet(cs)],
           ExtendAt(m.nodeAt, r, n, cs),
           m.cell + [cell], m.val + [val])
  }

  ghost predicate RowAddable(m: Matrix, n: nat, cs: seq<nat>) {
    Below(m, n) && Distinct(cs) && forall c :: c in cs ==> c in m.cols
  }

  /** Where an old or a new node of the extended matrix sits. */
  lemma NodePlace(m: Matrix, n: nat, cs: seq<nat>, cell: nat, val: nat, x: nat)
    requires NodesOK(m) && (x in m.rowOf ==> x < n)
    ensures var m' := AddRow(m, n, cs, cell, val);
      && (x in m'.rowOf <==> x in m.rowOf || n <= x < n + |cs|)
      && (x in m'.rowOf ==>
          x in m'.posOf && x in m'.colOf
          && if x < n then m'.rowOf[x] == m.rowOf[x] < |m.rows| && m'.posOf[x] == m.posOf[x]
             && m'.colOf[x] == m.colOf[x]
             else m'.rowOf[x] == |m.rows| && m'.posOf[x] == x - n && m'.colOf[x] == cs[x - n])
  {
    hide Extend, ExtendAt, IntSet, Repeat, NewNodes;
  }

  lemma AddRowNodes(m: Matrix, n: nat, cs: seq<nat>, cell: nat, val: nat)
    requires NodesOK(m) && RowAddable(m, n, cs)
    ensures NodesOK(AddRow(m, n, cs, cell, val))
  {
    hide Extend, ExtendAt, IntSet, Repeat, NewNodes, Distinct;
    var m' := AddRow(m, n, cs, cell, val);
    assert m'.cols == m.cols && m'.root == m.root && m'.rowOf.Keys == m'.posOf.Keys == m'.colOf.Keys;
    forall x | x in m'.rowOf ensures
      && m'.rowOf[x] < |m'.rows| && m'.posOf[x] < |m'.rows[m'.rowOf[x]]|
      && m'.rows[m'.rowOf[x]][m'.posOf[x]] == x
      && m'.colOf[x] in m'.cols && x !in m'.cols && x != m'.root
    {
      NodePlace(m, n, cs, cell, val, x);
      if x < n {
        assert m'.rows[m.rowOf[x]] == m.rows[m.rowOf[x]];
      } else {
        assert m'.rows[|m.rows|] == NewNodes(n, |cs|);
        assert cs[x - n] in cs;
      }
    }
  }

  lemma AddRowBelow(m: Matrix, n: nat, cs: seq<nat>, cell: nat, val: nat)
    requires RowAddable(m, n, cs)
    ensures Below(AddRow(m, n, cs, cell, val), n + |cs|)
  {
    hide Extend, ExtendAt, IntSet, Repeat, NewNodes, Distinct;
  }

  lemma AddRowRows(m: Matrix, n: nat, cs: seq<nat>, cell: nat, val: nat)
    requires NodesOK(m) && RowsOK(m) && RowAddable(m, n, cs)
    ensures RowsOK(AddRow(m, n, cs, cell, val))
  {
    hide Extend, ExtendAt, IntSet, Repeat, NewNodes;
    var m' := AddRow(m, n, cs, cell, val);
    forall r, k | 0 <= r < |m'.rows| && 0 <= k < |m'.rows[r]| ensures
      && m'.rows[r][k] in m'.rowOf && m'.rowOf[m'.rows[r][k]] == r
      && m'.rows[r][k] in m'.posOf && m'.posOf[m'.rows[r][k]] == k
    {
      if r < |m.rows| { assert m.rows[r][k] < n; }
    }
  }

  /** The hits of an old row, and those of the new one. */
  lemma HitPlace(m: Matrix, n: nat, cs: seq<nat>, cell: nat, val: nat, r: nat, c: int)
    requires |m.hits| == |m.rows| && r <= |m.rows| && Distinct(cs)
    ensures var m' := AddRow(m, n, cs, cell, val);
      && |m'.hits| == |m'.rows| == |m.rows| + 1
      && if r < |m.rows| then
           m'.hits[r] == m.hits[r]
           && ((r, c) in m.nodeAt ==> (r, c) in m'.nodeAt && m'.nodeAt[(r, c)] == m.nodeAt[(r, c)])
         else
           (c in m'.hits[r] <==> c >= 0 && c in cs)
           && (c >= 0 && c in cs ==> (r, c) in m'.nodeAt && m'.nodeAt[(r, c)] == n + IndexOf(cs, c))
  {
    hide Extend, ExtendAt, IntSet, Repeat, NewNodes;
    assert (m.hits + [IntSet(cs)])[|m.rows|] == IntSet(cs);
  }

  lemma AddRowHitsNode(m: Matrix, n: nat, cs: seq<nat>, cell: nat, val: nat, x: nat)
    requires NodesOK(m) && HitsOK(m) && Below(m, n) && Distinct(cs)
    requires x in AddRow(m, n, cs, cell, val).rowOf
    ensures var m' := AddRow(m, n, cs, cell, val);
      && x in m'.colOf && m'.rowOf[x] < |m'.hits| && m'.colOf[x] in m'.hits[m'.rowOf[x]]
      && (m'.rowOf[x], m'.colOf[x]) in m'.nodeAt && m'.nodeAt[(m'.rowOf[x], m'.colOf[x])] == x
  {
    hide AddRow, Distinct;
    NodePlace(m, n, cs, cell, val, x);
    if x < n {
      HitPlace(m, n, cs, cell, val, m.rowOf[x], m.colOf[x]);
    } else {
      HitPlace(m, n, cs, cell, val, |m.rows|, cs[x - n]);
      IndexOfAt(cs, x - n);
    }
  }

  lemma AddRowHitsCol(m: Matrix, n: nat, cs: seq<nat>, cell: nat, val: nat, r: nat, c: int)
    requires NodesOK(m) && HitsOK(m) && Below(m, n) && Distinct(cs)
    requires r < |AddRow(m, n, cs, cell, val).hits| && c in AddRow(m, n, cs, cell, val).hits[r]
    ensures var m' := AddRow(m, n, cs, cell, val);
      && (r, c) in m'.nodeAt && m'.nodeAt[(r, c)] in m'.rowOf && m'.nodeAt[(r, c)] in m'.colOf
      && m'.rowOf[m'.nodeAt[(r, c)]] == r && m'.colOf[m'.nodeAt[(r, c)]] == c
  {
    hide AddRow, Distinct;
    HitPlace(m, n, cs, cell, val, 0, 0);
    HitPlace(m, n, cs, cell, val, r, c);
    var x := if r < |m.rows| then m.nodeAt[(r, c)] else n + IndexOf(cs, c);
    NodePlace(m, n, cs, cell, val, x);
  }

  lemma AddRowHits(m: Matrix, n: nat, cs: seq<nat>, cell: nat, val: nat)
    requires NodesOK(m) && HitsOK(m) && RowAddable(m, n, cs) && NodesOK(AddRow(m, n, cs, cell, val))
    ensures HitsOK(AddRow(m, n, cs, cell, val))
  {
    hide AddRow, Distinct, Below, NodesOK;
    var m' := AddRow(m, n, cs, cell, val);
    HitPlace(m, n, cs, cell, val, 0, 0);
    forall x | x in m'.rowOf ensures
      && x in m'.colOf && m'.rowOf[x] < |m'.hits| && m'.colOf[x] in m'.hits[m'.rowOf[x]]
      && (m'.rowOf[x], m'.colOf[x]) in m'.nodeAt && m'.nodeAt[(m'.rowOf[x], m'.colOf[x])] == x
    {
      AddRowHitsNode(m, n, cs, cell, val, x);
    }
    forall r: nat, c | 0 <= r < |m'.hits| && c in m'.hits[r] ensures
      && (r, c) in m'.nodeAt && m'.nodeAt[(r, c)] in m'.rowOf && m'.nodeAt[(r, c)] in m'.colOf
      && m'.rowOf[m'.nodeAt[(r, c)]] == r && m'.colOf[m'.nodeAt[(r, c)]] == c
    {
      AddRowHitsCol(m, n, cs, cell, val, r, c);
    }
  }

  lemma IndexOfAt(cs: seq<nat>, k: nat)
    requires Distinct(cs) && k < |cs|
    ensures IndexOf(cs, cs[k]) == k
  {
  }

  lemma AddRowWF(m: Matrix, n: nat, cs: seq<nat>, cell: nat, val: nat)
    requires WF(m) && RowAddable(m, n, cs)
    ensures WF(AddRow(m, n, cs, cell, val)) && Below(AddRow(m, n, cs, cell, val), n + |cs|)
  {
    hide NodesOK, RowsOK, HitsOK, RowAddable, Below, Distinct;
    AddRowNodes(m, n, cs, cell, val);
    AddRowBelow(m, n, cs, cell, val);
    AddRowRows(m, n, cs, cell, val);
    AddRowHits(m, n, cs, cell, val);
  }

  // ----- linking the nodes of a new row -----

  function AddAll(v: View, n: nat, cs: seq<nat>, k: nat): View
    requires k <= |cs|
  {
    if k == 0 then v else AddTo(AddAll(v, n, cs, k - 1), cs[k - 1], n + k - 1)
  }

  /** The store after the first k nodes of the row have been put into their columns. */
  function MakeNodes(s: Store, n: nat, cs: seq<nat>, names: seq<int>, k: nat): (t: Store)
    requires Closed(s) && k <= |cs| == |names| && n + k <= |s| && forall i :: 0 <= i < |cs| ==> cs[i] < |s|
    ensures Closed(t) && |t| == |s|
  {
    if k == 0 then s else NewRow(MakeNodes(s, n, cs, names, k - 1), n + k - 1, cs[k - 1], names[k - 1])
  }

  /** The store after the first k nodes of the row have been strung together. */
  function StringUp(s: Store, n: nat, k: nat): (t: Store)
    requires Closed(s) && n + k <= |s|
    ensures Closed(t) && SameColumns(s, t)
  {
    if k <= 1 then s else PutLeft(StringUp(s, n, k - 1), n, n + k - 1)
  }

  function LinkRow(s: Store, n: nat, cs: seq<nat>, names: seq<int>): (t: Store)
    requires Closed(s) && |cs| == |names| && n + |cs| <= |s| && forall i :: 0 <= i < |cs| ==> cs[i] < |s|
    ensures Closed(t) && |t| == |s|
  {
    StringUp(MakeNodes(s, n, cs, names, |cs|), n, |cs|)
  }

  /** The nodes below n keep their rows, columns and names. */
  ghost predicate Keeps(s: Store, t: Store, n: nat) {
    && |t| == |s|
    && forall x :: 0 <= x < |s| && x < n ==>
         t[x].left == s[x].left && t[x].right == s[x].right && t[x].col == s[x].col && t[x].name == s[x].name
  }

  /** The nodes n, n + 1, ... carry the names and belong to the columns they were made for. */
  ghost predicate Labels(t: Store, n: nat, cs: seq<nat>, names: seq<int>, k: nat)
    requires k <= |cs| == |names|
  {
    n + k <= |t| && forall i :: n <= i < n + k ==> t[i].col == cs[i - n] && t[i].name == names[i - n]
  }

  ghost predicate Alone(t: Store, n: nat, k: nat) {
    n + k <= |t| && forall i :: n <= i < n + k ==> t[i].left == i && t[i].right == i
  }

  lemma AddAllKeys(v: View, n: nat, cs: seq<nat>, k: nat)
    requires k <= |cs|
    ensures AddAll(v, n, cs, k).Keys == v.Keys
  {
    if k > 0 { AddAllKeys(v, n, cs, k - 1); }
  }

  lemma AddAllMembers(v: View, n: nat, cs: seq<nat>, k: nat, d: nat, x: nat)
    requires k <= |cs| && d in v
    ensures d in AddAll(v, n, cs, k)
    ensures x in AddAll(v, n, cs, k)[d] <==> x in v[d] || (n <= x < n + k && cs[x - n] == d)
  {
    AddAllKeys(v, n, cs, k);
    if k > 0 {
      AddAllMembers(v, n, cs, k - 1, d, x);
      AddAllKeys(v, n, cs, k - 1);
    }
  }

  lemma NewRowKeeps(s: Store, t: Store, t': Store, n: nat, cs: seq<nat>, names: seq<int>, k: nat)
    requires 0 < k <= |cs| == |names| && n + k <= |s| && cs[k - 1] < |t|
    requires Keeps(s, t, n) && Labels(t, n, cs, names, k - 1) && Alone(t, n, k - 1)
    requires NewRowDone(t, t', n + k - 1, cs[k - 1], names[k - 1])
    ensures Keeps(s, t', n) && Labels(t', n, cs, names, k) && Alone(t', n, k)
  {
  }

  lemma {:induction false} MakeNodesStep(m: Matrix, s: Store, v: View, n: nat, cs: seq<nat>, names: seq<int>, k: nat)
    requires Closed(s) && k <= |cs| == |names| && n + |cs| <= |s|
    requires ColumnsOK(m, s, v) && ViewBelow(v, n) && forall i :: 0 <= i < |cs| ==> cs[i] in v && cs[i] < n
    requires forall i :: n <= i < n + |cs| ==> i in m.rowOf && i in m.colOf && m.colOf[i] == cs[i - n] && i !in v
    ensures ColumnsOK(m, MakeNodes(s, n, cs, names, k), AddAll(v, n, cs, k))
    ensures var t := MakeNodes(s, n, cs, names, k); Keeps(s, t, n) && Labels(t, n, cs, names, k) && Alone(t, n, k)
  {
    hide ColumnsOK, ViewOK, Closed, Keeps, Labels, Alone, NewRowDone, NewRow, AddTo;
    if k > 0 {
      MakeNodesStep(m, s, v, n, cs, names, k - 1);
      var t, w := MakeNodes(s, n, cs, names, k - 1), AddAll(v, n, cs, k - 1);
      var d, x := cs[k - 1], n + (k - 1);
      AddAllKeys(v, n, cs, k - 1);
      AddAllMembers(v, n, cs, k - 1, d, x);
      NotBelow(v, n, d, x);
      NewRowStep(m, t, w, d, x, names[k - 1]);
      NewRowAt(t, x, d, names[k - 1]);
      NewRowKeeps(s, t, NewRow(t, x, d, names[k - 1]), n, cs, names, k);
    } else {
      MakeNone(s, n, cs, names);
    }
  }

  lemma MakeNone(s: Store, n: nat, cs: seq<nat>, names: seq<int>)
    requires |cs| == |names| && n <= |s|
    ensures Keeps(s, s, n) && Labels(s, n, cs, names, 0) && Alone(s, n, 0)
  {
  }

  lemma NotBelow(v: View, n: nat, d: nat, x: nat)
    requires ViewBelow(v, n) && d in v && x >= n
    ensures x !in v[d]
  {
  }

  lemma StringOne(s: Store, t: Store, t': Store, n: nat, k: nat, len: nat)
    requires 1 < k <= len && n + len <= |t| && Keeps(s, t, n) && HRing(t, NewNodes(n, k - 1))
    requires forall i :: n + k - 1 <= i < n + len ==> t[i].left == i && t[i].right == i
    requires SameColumns(t, t') && PutLeftDone(t, t', n, n + k - 1)
    ensures HRing(t', NewNodes(n, k)) && Keeps(s, t', n) && forall i :: n + k <= i < n + len ==>
      t'[i].left == i
      && t'[i].right == i
  {
    var ring, x := NewNodes(n, k - 1), n + k - 1;
    assert ring[0] == n && t[ring[0]].left == ring[Prev(0, |ring|)];
    AppendHRing(t, t', ring, x);
    assert NewNodes(n, k) == ring + [x];
  }

  lemma {:induction false} StringUpStep(s: Store, n: nat, k: nat, len: nat)
    requires Closed(s) && 1 <= k <= len && n + len <= |s| && Alone(s, n, len)
    ensures var t := StringUp(s, n, k);
      HRing(t, NewNodes(n, k)) && Keeps(s, t, n) && forall i :: n + k <= i < n + len ==>
        t[i].left == i
        && t[i].right == i
  {
    hide Closed, PutLeft, PutLeftDone, HRing, NewNodes, SameColumns;
    if k > 1 {
      hide Keeps, Alone;
      StringUpStep(s, n, k - 1, len);
      var t := StringUp(s, n, k - 1);
      RingHead(t, n, k - 1);
      PutLeftAt(t, n, n + k - 1);
      StringOne(s, t, PutLeft(t, n, n + k - 1), n, k, len);
    } else {
      RingOfOne(s, n);
    }
  }

  /** The head of the string so far is tied to one of its own nodes. */
  lemma RingHead(t: Store, n: nat, k: nat)
    requires k >= 1 && HRing(t, NewNodes(n, k))
    ensures n < |t| && t[n].left < n + k
  {
    var ring := NewNodes(n, k);
    assert ring[0] == n && t[ring[0]].left == ring[Prev(0, |ring|)];
  }

  lemma RingOfOne(t: Store, n: nat)
    requires n < |t| && t[n].left == n && t[n].right == n
    ensures HRing(t, NewNodes(n, 1))
  {
    assert NewNodes(n, 1) == [n];
  }

  lemma ViewExtend(m: Matrix, v: View, n: nat, cs: seq<nat>, cell: nat, val: nat)
    requires NodesOK(m) && ViewOK(m, v) && Below(m, n)
    ensures ViewOK(AddRow(m, n, cs, cell, val), v)
  {
    hide Extend, ExtendAt, IntSet, Repeat, NewNodes, Distinct;
  }

  lemma KeepsHeaders(m: Matrix, s: Store, t: Store, hdr: seq<nat>, n: nat)
    requires HeadersOK(m, s, hdr, {}) && Keeps(s, t, n) && forall i :: 0 <= i < |hdr| ==> hdr[i] < n
    ensures HeadersOK(m, t, hdr, {})
  {
  }

  lemma KeepsRows(m: Matrix, s: Store, t: Store, n: nat)
    requires RowsOK(m) && Below(m, n) && Fits(m, s) && Keeps(s, t, n)
    ensures forall r :: 0 <= r < |m.rows| ==> HRing(t, m.rows[r])
  {
    forall r | 0 <= r < |m.rows| ensures HRing(t, m.rows[r]) {
      var row := m.rows[r];
      assert HRing(s, row);
      forall k | 0 <= k < |row| ensures row[k] < n {
        assert m.rows[r][k] in m.rowOf;
      }
    }
  }

  lemma AddRowFits(m: Matrix, s: Store, t: Store, n: nat, cs: seq<nat>, names: seq<int>, cell: nat, val: nat)
    requires NodesOK(m) && RowsOK(m) && Below(m, n) && Fits(m, s) && Keeps(s, t, n) && Closed(t)
    requires |cs| == |names| && Labels(t, n, cs, names, |cs|) && HRing(t, NewNodes(n, |cs|))
    ensures Fits(AddRow(m, n, cs, cell, val), t)
  {
    hide Extend, ExtendAt, IntSet, Repeat, NewNodes, Distinct, HRing;
    KeepsRows(m, s, t, n);
    var m' := AddRow(m, n, cs, cell, val);
    forall x | x in m'.colOf ensures x < |t| && t[x].col == m'.colOf[x] {
      NodePlace(m, n, cs, cell, val, x);
    }
  }

  lemma AddRowLists(m: Matrix, v: View, n: nat, cs: seq<nat>, cell: nat, val: nat)
    requires NodesOK(m) && |m.hits| == |m.rows| && Lists(m, v, {}) && RowAddable(m, n, cs)
      && forall i :: 0 <= i < |cs| ==> cs[i] in v
    ensures Lists(AddRow(m, n, cs, cell, val), AddAll(v, n, cs, |cs|), {})
  {
    hide Extend, ExtendAt, IntSet, Repeat, NewNodes, Distinct, AddAll, NodesOK;
    var m' := AddRow(m, n, cs, cell, val);
    AddAllKeys(v, n, cs, |cs|);
    forall x | x in m'.rowOf && x in m'.colOf
      ensures m'.colOf[x] in v && 0 <= m'.rowOf[x] < |m'.hits| && x in AddAll(v, n, cs, |cs|)[m'.colOf[x]]
    {
      NodePlace(m, n, cs, cell, val, x);
      AddAllMembers(v, n, cs, |cs|, m'.colOf[x], x);
    }
  }

  ghost predicate RowFits(m: Matrix, a: State, n: nat, cs: seq<nat>, names: seq<int>) {
    && Inv(m, a) && a.cov == {} && RowAddable(m, n, cs)
    && 1 <= |cs| == |names| && n + |cs| <= |a.nodes|
    && forall i :: 0 <= i < |cs| ==> cs[i] < |a.nodes|
  }

  /** The state after a new row: every column it hits lists one node more. */
  function RowState(a: State, n: nat, cs: seq<nat>, names: seq<int>): State
    requires Closed(a.nodes) && |cs| == |names| && n + |cs| <= |a.nodes| && forall i :: 0 <= i < |cs| ==>
      cs[i] < |a.nodes|
  {
    State(LinkRow(a.nodes, n, cs, names), AddAll(a.view, n, cs, |cs|), a.hdr, a.cov)
  }

  lemma RowRange(m: Matrix, a: State, n: nat, cs: seq<nat>, names: seq<int>, cell: nat, val: nat)
    requires RowFits(m, a, n, cs, names)
    ensures WF(m) && NodesOK(m) && RowsOK(m) && |m.hits| == |m.rows| && Fits(m, a.nodes) && Closed(a.nodes)
      && Below(m, n)
    ensures ColumnsOK(m, a.nodes, a.view) && ViewOK(m, a.view) && Lists(m, a.view, {})
      && HeadersOK(m, a.nodes, a.hdr, {})
    ensures forall i :: 0 <= i < |cs| ==> cs[i] in a.view && cs[i] < n && cs[i] < |a.nodes|
    ensures RowAddable(m, n, cs)
  {
    forall i | 0 <= i < |cs| ensures cs[i] in a.view && cs[i] < n {
      assert cs[i] in cs;
    }
  }

  lemma NewNodesPlaced(m: Matrix, v: View, n: nat, cs: seq<nat>, cell: nat, val: nat)
    requires NodesOK(m) && ViewOK(m, v) && Below(m, n)
    ensures var m' := AddRow(m, n, cs, cell, val);
      forall i :: n <= i < n + |cs| ==> i in m'.rowOf && i in m'.colOf && m'.colOf[i] == cs[i - n] && i !in v
  {
    hide AddRow, NodesOK;
    forall i | n <= i < n + |cs|
      ensures var m' := AddRow(m, n, cs, cell, val);
        i in m'.rowOf && i in m'.colOf && m'.colOf[i] == cs[i - n] && i !in v
    {
      NodePlace(m, n, cs, cell, val, i);
    }
  }

  lemma NamesStrung(t: Store, t': Store, n: nat, cs: seq<nat>, names: seq<int>, k: nat)
    requires k <= |cs| == |names| && Labels(t, n, cs, names, k) && SameColumns(t, t')
    ensures Labels(t', n, cs, names, k)
  {
  }

  lemma KeepsTrans(s: Store, t: Store, u: Store, n: nat)
    requires Keeps(s, t, n) && Keeps(t, u, n)
    ensures Keeps(s, u, n)
  {
  }

  /** A row of well-chosen columns can be made: what the parts below need, and no more. */
  ghost predicate RowRoom(s: Store, v: View, n: nat, cs: seq<nat>, names: seq<int>) {
    && Closed(s) && 1 <= |cs| == |names| && n + |cs| <= |s| && ViewBelow(v, n)
    && forall i :: 0 <= i < |cs| ==> cs[i] in v && cs[i] < n && cs[i] < |s|
  }

  lemma RoomForRow(m: Matrix, a: State, n: nat, cs: seq<nat>, names: seq<int>)
    requires RowFits(m, a, n, cs, names)
    ensures RowRoom(a.nodes, a.view, n, cs, names)
  {
    hide WF, NodesOK, RowsOK, Fits, ColumnsOK, ViewOK, Lists, HeadersOK, RowAddable, Below, Closed, ViewBelow,
      RowFits, Inv;
    RowSizes(m, a, n, cs, names);
    RowRange(m, a, n, cs, names, 0, 0);
    ViewIsBelow(m, a.view, n);
  }

  /** The nodes: every column in order, with the new nodes in it. */
  lemma AddRowColumns(m: Matrix, s: Store, v: View, n: nat, cs: seq<nat>, names: seq<int>, cell: nat, val: nat)
    requires RowRoom(s, v, n, cs, names) && NodesOK(m) && ColumnsOK(m, s, v) && Below(m, n)
    ensures var t := MakeNodes(s, n, cs, names, |cs|);
      && ColumnsOK(AddRow(m, n, cs, cell, val), t, AddAll(v, n, cs, |cs|))
      && Keeps(s, t, n) && Labels(t, n, cs, names, |cs|) && Alone(t, n, |cs|)
  {
    hide NodesOK, ViewOK, Below, Closed, Keeps, Labels, Alone, ViewBelow, MakeNodes, AddAll, AddRow, ColumnOK;
    ViewExtend(m, v, n, cs, cell, val);
    NewNodesPlaced(m, v, n, cs, cell, val);
    ExtendColumns(m, AddRow(m, n, cs, cell, val), s, v);
    MakeNodesStep(AddRow(m, n, cs, cell, val), s, v, n, cs, names, |cs|);
  }

  /** The strings: the nodes become a ring, and nothing vertical changes. */
  lemma AddRowStrings(m: Matrix, s: Store, t: Store, w: View, n: nat, cs: seq<nat>, names: seq<int>)
    requires Closed(t) && 1 <= |cs| == |names| && n + |cs| <= |t|
    requires ColumnsOK(m, t, w) && Keeps(s, t, n) && Labels(t, n, cs, names, |cs|) && Alone(t, n, |cs|)
    ensures var u := StringUp(t, n, |cs|);
      && ColumnsOK(m, u, w) && Keeps(s, u, n) && Labels(u, n, cs, names, |cs|) && HRing(u, NewNodes(n, |cs|))
  {
    hide *;
    StringUpStep(t, n, |cs|, |cs|);
    KeepsTrans(s, t, StringUp(t, n, |cs|), n);
    NamesStrung(t, StringUp(t, n, |cs|), n, cs, names, |cs|);
    SameColumnsOK(m, t, StringUp(t, n, |cs|), w);
  }

  /** The lists: rows, headers and hits of the extended matrix. */
  lemma AddRowRest(m: Matrix, a: State, u: Store, n: nat, cs: seq<nat>, names: seq<int>, cell: nat, val: nat)
    requires RowFits(m, a, n, cs, names) && Closed(u) && Keeps(a.nodes, u, n)
    requires Labels(u, n, cs, names, |cs|) && HRing(u, NewNodes(n, |cs|))
    ensures var m' := AddRow(m, n, cs, cell, val);
      && WF(m') && Fits(m', u) && HeadersOK(m', u, a.hdr, {}) && Lists(m', AddAll(a.view, n, cs, |cs|), {})
      && Below(m', n + |cs|)
  {
    hide WF, NodesOK, RowsOK, Fits, ColumnsOK, ViewOK, Lists, HeadersOK, RowAddable, Below, Closed, Keeps, Labels,
         AddAll, HRing, NewNodes, RowFits, Inv, AddRow;
    RowSizes(m, a, n, cs, names);
    RowRange(m, a, n, cs, names, cell, val);
    AddRowFits(m, a.nodes, u, n, cs, names, cell, val);
    HeadersBelow(m, a.nodes, a.hdr, n);
    KeepsHeaders(m, a.nodes, u, a.hdr, n);
    AddRowCols(m, n, cs, cell, val);
    KeepsHeadersM(m, AddRow(m, n, cs, cell, val), u, a.hdr);
    AddRowLists(m, a.view, n, cs, cell, val);
    AddRowWF(m, n, cs, cell, val);
  }

  lemma MakeInv(m: Matrix, u: Store, w: View, hdr: seq<nat>)
    requires WF(m) && Fits(m, u) && ColumnsOK(m, u, w) && Lists(m, w, {}) && HeadersOK(m, u, hdr, {})
    ensures Inv(m, State(u, w, hdr, {}))
  {
    hide WF, Fits, ColumnsOK, Lists, HeadersOK;
  }

  /** A new row keeps the invariant. */
  lemma AddRowInv(m: Matrix, a: State, n: nat, cs: seq<nat>, names: seq<int>, cell: nat, val: nat)
    requires RowFits(m, a, n, cs, names)
    ensures Closed(a.nodes)
    ensures Inv(AddRow(m, n, cs, cell, val), RowState(a, n, cs, names)) && Below(AddRow(m, n, cs, cell, val), n + |cs|)
    ensures Keeps(a.nodes, LinkRow(a.nodes, n, cs, names), n)
      && Labels(LinkRow(a.nodes, n, cs, names), n, cs, names, |cs|)
  {
    hide WF, NodesOK, RowsOK, Fits, ColumnsOK, ViewOK, Lists, HeadersOK, RowAddable, Below, Closed, Keeps, Labels,
      Alone,
         ViewBelow, MakeNodes, StringUp, AddAll, SameColumns, HRing, NewNodes, RowFits, Inv, AddRow;
    RowSizes(m, a, n, cs, names);
    RowRange(m, a, n, cs, names, cell, val);
    RoomForRow(m, a, n, cs, names);
    var m', w := AddRow(m, n, cs, cell, val), AddAll(a.view, n, cs, |cs|);
    AddRowColumns(m, a.nodes, a.view, n, cs, names, cell, val);
    var t := MakeNodes(a.nodes, n, cs, names, |cs|);
    AddRowStrings(m', a.nodes, t, w, n, cs, names);
    var u := StringUp(t, n, |cs|);
    AddRowRest(m, a, u, n, cs, names, cell, val);
    MakeInv(m', u, w, a.hdr);
  }

  lemma RowSizes(m: Matrix, a: State, n: nat, cs: seq<nat>, names: seq<int>)
    requires RowFits(m, a, n, cs, names)
    ensures a.cov == {} && 1 <= |cs| == |names| && n + |cs| <= |a.nodes| && Inv(m, a)
  {
  }

  lemma ExtendColumns(m: Matrix, m': Matrix, s: Store, v: View)
    requires ColumnsOK(m, s, v) && ViewOK(m', v)
    ensures ColumnsOK(m', s, v)
  {
  }

  lemma KeepsHeadersM(m: Matrix, m': Matrix, s: Store, hdr: seq<nat>)
    requires HeadersOK(m, s, hdr, {}) && m'.root == m.root && m'.cols == m.cols
    ensures HeadersOK(m', s, hdr, {})
  {
  }

  // ----- columns by name -----

  /** ix finds the header of each column by its name, -1 standing for no such column. */
  ghost predicate Indexed(ix: seq<int>, s: Store, cols: seq<nat>) {
    && (forall x :: 0 <= x < |ix| && ix[x] != -1 ==> 0 <= ix[x] < |s| && ix[x] in cols && s[ix[x]].name == x)
    && (forall c :: c in cols ==> c < |s| && 0 <= s[c].name < |ix| && ix[s[c].name] == c)
  }

  function HeaderAt(ix: seq<int>, x: nat): nat {
    if x < |ix| && ix[x] >= 0 then ix[x] else 0
  }

  lemma AddColumnIndexed(m: Matrix, s: Store, t: Store, ix: seq<int>, c: nat, name: nat)
    requires m.root < |s| && c < |s| && Below(m, c) && LinkDone(s, t, m.root, c, name)
    requires Indexed(ix, s, m.cols) && name < |ix| && ix[name] == -1
    ensures Indexed(ix[name := c], t, AddColumn(m, c).cols)
  {
    forall d | d in AddColumn(m, c).cols ensures d < |t| && 0 <= t[d].name < |ix| && ix[name := c][t[d].name] == d {
      if d != c { assert d in m.cols; }
    }
  }

  lemma KeepsIndexed(m: Matrix, ix: seq<int>, s: Store, t: Store, n: nat)
    requires Indexed(ix, s, m.cols) && Keeps(s, t, n) && Below(m, n)
    ensures Indexed(ix, t, m.cols)
  {
  }

  /** The headers of the columns hit by writing v into cell i. */
  function HeaderSeq(ix: seq<int>, i: nat, v: nat): (hs: seq<nat>)
    ensures |hs| == 4
  {
    var xs := SudokuGrid.NameSeq(i, v);
    [HeaderAt(ix, xs[0]), HeaderAt(ix, xs[1]), HeaderAt(ix, xs[2]), HeaderAt(ix, xs[3])]
  }

  ghost predicate HasColumns(ix: seq<int>, i: nat, v: nat) {
    forall k :: 0 <= k < 4 ==> SudokuGrid.NameSeq(i, v)[k] < |ix| && ix[SudokuGrid.NameSeq(i, v)[k]] != -1
  }

  lemma HeadersOfCandidate(m: Matrix, s: Store, ix: seq<int>, i: nat, v: nat)
    requires Indexed(ix, s, m.cols) && i < 81 && 1 <= v <= 9 && HasColumns(ix, i, v)
    ensures var hs, xs := HeaderSeq(ix, i, v), SudokuGrid.NameSeq(i, v);
      && Distinct(hs) && (forall c :: c in hs ==> c in m.cols && c < |s|)
      && forall k :: 0 <= k < 4 ==> ix[xs[k]] == hs[k] && s[hs[k]].name == xs[k]
  {
    SudokuGrid.NameSeqDistinct(i, v);
    var hs, xs := HeaderSeq(ix, i, v), SudokuGrid.NameSeq(i, v);
    forall k | 0 <= k < 4 ensures ix[xs[k]] == hs[k] && hs[k] in m.cols && hs[k] < |s| && s[hs[k]].name == xs[k] {
    }
  }

  /** The rows built so far are candidates of the board, labelled and linked to their four columns. */
  ghost predicate RowsFor(m: Matrix, ix: seq<int>, board: seq<int>) {
    && |m.cell| == |m.val| == |m.rows| == |m.hits|
    && forall r :: 0 <= r < |m.rows| ==>
         && SudokuGrid.Candidate(board, m.cell[r], m.val[r])
         && HasColumns(ix, m.cell[r], m.val[r])
         && m.hits[r] == IntSet(HeaderSeq(ix, m.cell[r], m.val[r]))
  }

  lemma AddRowRowsFor(m: Matrix, ix: seq<int>, board: seq<int>, n: nat, i: nat, v: nat)
    requires RowsFor(m, ix, board) && SudokuGrid.Candidate(board, i, v) && HasColumns(ix, i, v)
    ensures RowsFor(AddRow(m, n, HeaderSeq(ix, i, v), i, v), ix, board)
  {
    hide Extend, ExtendAt, IntSet, Repeat, NewNodes, HeaderSeq, HasColumns, SudokuGrid.Candidate;
  }

  lemma AddRowLabelled(m: Matrix, s: Store, t: Store, n: nat, cs: seq<nat>, i: nat, v: nat)
    requires Labelled(m, s, 81) && RowsOK(m) && Below(m, n) && Keeps(s, t, n) && i < 81 && 1 <= v <= 9
    requires |cs| == 4 && Labels(t, n, cs, SudokuGrid.NameSeq(i, v), 4)
    ensures Labelled(AddRow(m, n, cs, i, v), t, 81)
  {
    hide Extend, ExtendAt, IntSet, Repeat, NewNodes;
    SudokuGrid.NameSeqParts(i, v);
    var m' := AddRow(m, n, cs, i, v);
    forall r, k | 0 <= r < |m'.rows| && 0 <= k < |m'.rows[r]| ensures
      && m'.rows[r][k] < |t|
      && (k == 0 ==> t[m'.rows[r][k]].name == m'.cell[r] && m'.cell[r] < 100)
      && (k > 0 ==> t[m'.rows[r][k]].name >= 100 && t[m'.rows[r][k]].name % 10 == m'.val[r])
    {
      if r < |m.rows| { assert m.rows[r][k] in m.rowOf; } else { assert t[n + k].name == SudokuGrid.NameSeq(i, v)[k]; }
    }
  }

  /** A candidate of the board can be added to the matrix. */
  lemma CandidateFits(m: Matrix, a: State, ix: seq<int>, n: nat, i: nat, v: nat)
    requires Inv(m, a) && a.cov == {} && Below(m, n) && n + 4 <= |a.nodes| && Indexed(ix, a.nodes, m.cols)
    requires i < 81 && 1 <= v <= 9 && HasColumns(ix, i, v)
    ensures RowFits(m, a, n, HeaderSeq(ix, i, v), SudokuGrid.NameSeq(i, v)) && RowsOK(m) && Closed(a.nodes)
    ensures var hs, xs := HeaderSeq(ix, i, v), SudokuGrid.NameSeq(i, v);
      forall k :: 0 <= k < 4 ==> xs[k] < |ix| && ix[xs[k]] == hs[k] && hs[k] < |a.nodes|
  {
    hide HeaderSeq, Indexed;
    HeadersOfCandidate(m, a.nodes, ix, i, v);
    var hs := HeaderSeq(ix, i, v);
    forall k | 0 <= k < 4 ensures hs[k] < |a.nodes| {
      assert hs[k] in hs;
    }
  }

  lemma AddRowCols(m: Matrix, n: nat, cs: seq<nat>, cell: nat, val: nat)
    ensures AddRow(m, n, cs, cell, val).cols == m.cols && AddRow(m, n, cs, cell, val).root == m.root
  {
  }

  /** The calls that make a row of four nodes, one after the other. */
  lemma LinkFour(s: Store, n: nat, cs: seq<nat>, xs: seq<int>)
    requires Closed(s) && |cs| == |xs| == 4 && n + 4 <= |s| && forall i :: 0 <= i < 4 ==> cs[i] < |s|
    ensures var s1 := NewRow(s, n, cs[0], xs[0]);
      var s2 := NewRow(s1, n + 1, cs[1], xs[1]);
      var s3 := NewRow(s2, n + 2, cs[2], xs[2]);
      var s4 := NewRow(s3, n + 3, cs[3], xs[3]);
      LinkRow(s, n, cs, xs) == PutLeft(PutLeft(PutLeft(s4, n, n + 1), n, n + 2), n, n + 3)
  {
    hide NewRow, PutLeft, Closed;
    var s1 := NewRow(s, n, cs[0], xs[0]);
    var s2 := NewRow(s1, n + 1, cs[1], xs[1]);
    var s3 := NewRow(s2, n + 2, cs[2], xs[2]);
    var s4 := NewRow(s3, n + 3, cs[3], xs[3]);
    assert MakeNodes(s, n, cs, xs, 0) == s;
    assert MakeNodes(s, n, cs, xs, 1) == s1;
    assert MakeNodes(s, n, cs, xs, 2) == s2;
    assert MakeNodes(s, n, cs, xs, 3) == s3;
    assert MakeNodes(s, n, cs, xs, 4) == s4;
    assert StringUp(s4, n, 1) == s4;
    assert StringUp(s4, n, 2) == PutLeft(s4, n, n + 1);
    assert StringUp(s4, n, 3) == PutLeft(PutLeft(s4, n, n + 1), n, n + 2);
  }

  // ----- the matrix as a whole -----

  function EmptyMatrix(): Matrix {
    Matrix(0, [], [], map[], map[], map[], [], map[], [], [])
  }

  /** A root on its own is the matrix with no columns and no rows. */
  lemma EmptyBuilt(s0: Store, root: nat, ix: seq<int>)
    requires Closed(s0) && |s0| > 0 && root == 0 && forall x :: 0 <= x < |ix| ==> ix[x] == -1
    ensures var s, m := NewColumn(s0, 0, 0), EmptyMatrix();
      && Inv(m, State(s, map[], [0], {})) && Below(m, 1) && Indexed(ix, s, m.cols)
  {
    assert HRing(NewColumn(s0, 0, 0), [0]);
  }

  lemma NoRowsYet(m: Matrix, s: Store, ix: seq<int>, b: seq<int>)
    requires SameRowsM(m, EmptyMatrix())
    ensures RowsFor(m, ix, b) && Labelled(m, s, 81)
  {
  }

  lemma NoCandidatesYet(m: Matrix, ix: seq<int>, b: seq<int>)
    requires RowsFor(m, ix, b)
    ensures SudokuGrid.CandidatesUpTo(b, m.cell, m.val, 0, 1)
  {
  }

  ghost predicate SameRowsM(m: Matrix, m0: Matrix) {
    m.rows == m0.rows && m.cell == m0.cell && m.val == m0.val && m.hits == m0.hits
  }

  lemma SameRowsMRefl(m: Matrix)
    ensures SameRowsM(m, m)
  {
  }

  lemma SameRowsMStep(m: Matrix, m0: Matrix, c: nat)
    requires SameRowsM(m, m0)
    ensures SameRowsM(AddColumn(m, c), m0)
  {
  }

  ghost function Named(m: Matrix, ix: seq<int>): Problem {
    Problem(set x | 0 <= x < |ix| && ix[x] != -1,
            seq(|m.cell|, r requires 0 <= r < |m.cell| => if r < |m.val| then SudokuGrid.Names(m.cell[r], m.val[r])
              else {}))
  }

  ghost function NameMap(m: Matrix, s: Store): map<int, int> {
    map c: int | c >= 0 && c in m.cols && c < |s| :: s[c].name
  }

  lemma AddRowLabels(m: Matrix, n: nat, cs: seq<nat>, cell: nat, val: nat)
    ensures AddRow(m, n, cs, cell, val).cell == m.cell + [cell] && AddRow(m, n, cs, cell, val).val == m.val + [val]
  {
  }

  /** The four columns of a candidate have all been made. */
  lemma CandidateColumns(ix: seq<int>, b: seq<int>, i: nat, v: nat)
    requires |b| == 81 && |ix| == 400 && SudokuGrid.ColumnsUpTo(ix, b, 9, 1, 0) && SudokuGrid.Candidate(b, i, v)
    ensures HasColumns(ix, i, v)
  {
    SudokuGrid.AllColumns(ix, b);
    SudokuGrid.NameSeqParts(i, v);
    forall k: SudokuGrid.Kind ensures SudokuGrid.IsColumn(b, SudokuGrid.Name(k, SudokuGrid.UnitOf(k, i), v)) {
      SudokuGrid.CellPlace(k, i);
      assert SudokuGrid.MissingDigit(b, k, SudokuGrid.UnitOf(k, i), v);
    }
    assert SudokuGrid.IsColumn(b, i);
  }

  lemma NameMapAt(m: Matrix, s: Store, ix: seq<int>, c: int)
    requires Indexed(ix, s, m.cols)
    ensures c in NameMap(m, s) <==> c >= 0 && c in m.cols
    ensures c in NameMap(m, s) ==> NameMap(m, s)[c] == s[c].name && 0 <= s[c].name < |ix| && ix[s[c].name] == c
  {
  }

  lemma NamedColumns(m: Matrix, s: Store, ix: seq<int>)
    requires Indexed(ix, s, m.cols)
    ensures Named(m, ix).cols == Image(ToProblem(m).cols, NameMap(m, s))
  {
    var f := NameMap(m, s);
    forall x | x in Named(m, ix).cols ensures x in Image(ToProblem(m).cols, f) {
      NameMapAt(m, s, ix, ix[x]);
      assert ix[x] in ToProblem(m).cols;
    }
    forall x | x in Image(ToProblem(m).cols, f) ensures x in Named(m, ix).cols {
      var c :| c in ToProblem(m).cols && c in f && f[c] == x;
      NameMapAt(m, s, ix, c);
    }
  }

  lemma NamedRow(m: Matrix, s: Store, ix: seq<int>, i: nat, v: nat)
    requires Indexed(ix, s, m.cols) && i < 81 && 1 <= v <= 9 && HasColumns(ix, i, v)
    ensures SudokuGrid.Names(i, v) == Image(IntSet(HeaderSeq(ix, i, v)), NameMap(m, s))
  {
    var f, hs, xs := NameMap(m, s), HeaderSeq(ix, i, v), SudokuGrid.NameSeq(i, v);
    HeadersOfCandidate(m, s, ix, i, v);
    hide HeaderSeq, NameMap, SudokuGrid.NameSeq, SudokuGrid.Names, Indexed;
    forall k | 0 <= k < 4 ensures hs[k] in f && f[hs[k]] == xs[k] {
      assert hs[k] in hs;
      NameMapAt(m, s, ix, hs[k]);
    }
    forall x | x in SudokuGrid.Names(i, v) ensures x in Image(IntSet(hs), f) {
      var k :| 0 <= k < 4 && xs[k] == x;
      assert hs[k] in hs;
    }
    forall x | x in Image(IntSet(hs), f) ensures x in SudokuGrid.Names(i, v) {
      var c :| c in IntSet(hs) && c in f && f[c] == x;
      var k :| 0 <= k < 4 && hs[k] == c;
      assert xs[k] in xs;
    }
  }

  /** The finished matrix is the exact cover problem of the board, with its columns named. */
  lemma Represented(m: Matrix, a: State, ix: seq<int>, b: seq<int>)
    requires Inv(m, a) && Indexed(ix, a.nodes, m.cols) && |ix| == 400 && SudokuGrid.IsBoard(b)
    requires RowsFor(m, ix, b) && SudokuGrid.ColumnsUpTo(ix, b, 9, 1, 0)
      && SudokuGrid.CandidatesUpTo(b, m.cell, m.val, 81, 1)
    ensures SudokuGrid.Encodes(b, Named(m, ix), m.cell, m.val)
    ensures Renaming(ToProblem(m), Named(m, ix), NameMap(m, a.nodes))
  {
    hide Inv, Indexed, HasColumns, HeaderSeq, IntSet, NameMap, SudokuGrid.Names;
    var q, f := Named(m, ix), NameMap(m, a.nodes);
    ProblemOfInv(m, a);
    SudokuGrid.AllColumns(ix, b);
    ColumnRange(b);
    NamedColumns(m, a.nodes, ix);
    forall r | 0 <= r < |m.rows| ensures q.rows[r] == Image(ToProblem(m).rows[r], f) {
      NamedRow(m, a.nodes, ix, m.cell[r], m.val[r]);
    }
    forall c, d | c in f && d in f && f[c] == f[d] ensures c == d {
      NameMapAt(m, a.nodes, ix, c);
      NameMapAt(m, a.nodes, ix, d);
    }
    forall c ensures c in f <==> c in ToProblem(m).cols {
      NameMapAt(m, a.nodes, ix, c);
    }
    assert f.Keys == ToProblem(m).cols;
  }

  lemma ProblemOfInv(m: Matrix, a: State)
    requires Inv(m, a)
    ensures WellFormed(ToProblem(m))
  {
    ProblemWF(m);
  }

  lemma ColumnRange(b: seq<int>)
    requires |b| == 81
    ensures forall x :: SudokuGrid.IsColumn(b, x) ==> 0 <= x < 400
  {
    forall x | SudokuGrid.IsColumn(b, x) ensures 0 <= x < 400 {
      if !(0 <= x < |b|) {
        var k: SudokuGrid.Kind, u, v :| SudokuGrid.MissingDigit(b, k, u, v) && x == SudokuGrid.Name(k, u, v);
        SudokuGrid.NameParts(k, u, v);
      }
    }
  }
}
