/**
  An exact cover matrix threaded through the node store, and what covering a
  column does to it.  Everything here is about values; the class SudokuSolver
  performs the same surgeries in place.
*/
module LinkedMatrix {
  import opened Rings
  import opened ExactCover
  import SudokuGrid

  /**
    The part of the structure that never changes after construction.
    rows[r] lists the nodes of row r in ring order; rowOf and posOf invert it;
    colOf gives each row node its column header.  hits[r] is the set of columns
    row r hits, and nodeAt finds the node through which it does.  Row r stands
    for putting val[r] into cell[r].
  */
  datatype Matrix = Matrix(root: nat, cols: seq<nat>, rows: seq<seq<nat>>,
                           rowOf: map<nat, nat>, posOf: map<nat, nat>, colOf: map<nat, nat>,
                           hits: seq<set<int>>, nodeAt: map<(nat, int), nat>,
                           cell: seq<nat>, val: seq<nat>)

  /** view[d] is the vertical ring of column d, d itself first. */
  type View = map<nat, seq<nat>>

  /** hdr is the ring of headers, root first; cov the set of covered columns. */
  datatype State = State(nodes: Store, view: View, hdr: seq<nat>, cov: set<nat>)

  /** Row nodes know their place and are no headers. */
  ghost predicate NodesOK(m: Matrix) {
    && m.rowOf.Keys == m.posOf.Keys == m.colOf.Keys
    && forall n :: n in m.rowOf ==>
         && m.rowOf[n] < |m.rows| && m.posOf[n] < |m.rows[m.rowOf[n]]|
         && m.rows[m.rowOf[n]][m.posOf[n]] == n
         && m.colOf[n] in m.cols && n !in m.cols && n != m.root
  }

  ghost predicate RowsOK(m: Matrix) {
    && |m.cell| == |m.val| == |m.rows|
    && forall r, k :: 0 <= r < |m.rows| && 0 <= k < |m.rows[r]| ==>
         && m.rows[r][k] in m.rowOf && m.rowOf[m.rows[r][k]] == r
         && m.rows[r][k] in m.posOf && m.posOf[m.rows[r][k]] == k
  }

  /** A row hits a column through exactly one node. */
  ghost predicate HitsOK(m: Matrix)
    requires NodesOK(m)
  {
    && |m.hits| == |m.rows|
    && (forall n :: n in m.rowOf ==>
          && m.colOf[n] in m.hits[m.rowOf[n]]
          && (m.rowOf[n], m.colOf[n]) in m.nodeAt && m.nodeAt[(m.rowOf[n], m.colOf[n])] == n)
    && (forall r, c :: 0 <= r < |m.hits| && c in m.hits[r] ==>
          && (r, c) in m.nodeAt && m.nodeAt[(r, c)] in m.rowOf
          && m.rowOf[m.nodeAt[(r, c)]] == r && m.colOf[m.nodeAt[(r, c)]] == c)
  }

  ghost predicate WF(m: Matrix) {
    NodesOK(m) && RowsOK(m) && HitsOK(m) && Distinct([m.root] + m.cols)
  }

  ghost function ToProblem(m: Matrix): Problem {
    Problem(set c | c in m.cols :: c as int, m.hits)
  }

  lemma ProblemWF(m: Matrix)
    requires WF(m)
    ensures WellFormed(ToProblem(m))
  {
    forall r, c | 0 <= r < |m.hits| && c in m.hits[r] ensures c in ToProblem(m).cols {
      var n := m.nodeAt[(r, c)];
      assert m.colOf[n] in m.cols;
    }
  }

  // ----- the store represents the matrix -----

  ghost predicate Fits(m: Matrix, s: Store) {
    && Closed(s)
    && m.root < |s|
    && (forall c :: c in m.cols ==> c < |s| && s[c].col == c)
    && (forall n :: n in m.colOf ==> n < |s| && s[n].col == m.colOf[n])
    && (forall r :: 0 <= r < |m.rows| ==> HRing(s, m.rows[r]))
  }

  /** Column d: a ring that starts at the header, holds nodes of column d only, and whose length the header knows. */
  ghost predicate ColumnOK(s: Store, ring: seq<nat>, d: nat) {
    && VRing(s, ring) && |ring| > 0 && ring[0] == d
    && s[d].size == |ring| - 1
    && forall k {:trigger s[ring[k]]} :: 0 <= k < |ring| ==> s[ring[k]].col == d
  }

  /** Column lists start at their header, repeat nothing and hold row nodes of that column. */
  ghost predicate ViewOK(m: Matrix, v: View) {
    && (forall d :: d in v <==> d in m.cols)
    && (forall d :: d in v ==> Distinct(v[d]) && |v[d]| > 0 && v[d][0] == d)
    && (forall d, n :: d in v && n in v[d] && n != d ==> n in m.rowOf && n in m.colOf && m.colOf[n] == d)
  }

  ghost predicate ColumnsOK(m: Matrix, s: Store, v: View) {
    && ViewOK(m, v)
    && forall d :: d in v ==> ColumnOK(s, v[d], d)
  }

  /** An uncovered column lists exactly its nodes in rows that are still candidates. */
  ghost predicate Lists(m: Matrix, v: View, cov: set<nat>)
  {
    forall n :: n in m.rowOf && n in m.colOf && m.colOf[n] !in cov ==>
      && m.colOf[n] in v && 0 <= m.rowOf[n] < |m.hits|
      && (n in v[m.colOf[n]] <==> m.hits[m.rowOf[n]] !! cov)
  }

  ghost predicate HeadersOK(m: Matrix, s: Store, hdr: seq<nat>, cov: set<nat>) {
    && HRing(s, hdr) && |hdr| > 0 && hdr[0] == m.root
    && (forall c :: c in hdr <==> c == m.root || (c in m.cols && c !in cov))
  }

  /** The invariant between calls of cover and uncover. */
  ghost predicate Inv(m: Matrix, a: State) {
    && WF(m) && Fits(m, a.nodes)
    && ColumnsOK(m, a.nodes, a.view)
    && Lists(m, a.view, a.cov)
    && HeadersOK(m, a.nodes, a.hdr, a.cov)
    && forall c :: c in a.cov ==> c in m.cols
  }

  /** Column c is there to be covered. */
  ghost predicate Coverable(m: Matrix, a: State, c: nat) {
    Inv(m, a) && c in m.cols && c !in a.cov
  }

  // ----- what cover visits -----

  /** What follows position k on the way round a ring. */
  function Around(row: seq<nat>, k: nat): seq<nat>
    requires k < |row|
  {
    row[k + 1..] + row[..k]
  }

  /** Where the q-th stop on the way round sits in the ring. */
  function StopIndex(n: nat, k: nat, q: nat): nat
    requires k < n && q < n - 1
  {
    if q < n - k - 1 then k + 1 + q else q - (n - k - 1)
  }

  /** The q-th stop on the way round, the start itself at the end. */
  function Stop(start: nat, os: seq<nat>, q: nat): nat {
    if q < |os| then os[q] else start
  }

  lemma AroundStops(row: seq<nat>, k: nat, q: nat)
    requires k < |row| && q < |row| - 1
    ensures var n, os, i := |row|, Around(row, k), StopIndex(|row|, k, q);
      && |os| == n - 1 && i < n && i != k && os[q] == row[i]
      && row[Next(i, n)] == Stop(row[k], os, q + 1)
      && row[Prev(i, n)] == if q == 0 then row[k] else os[q - 1]
  {
  }

  lemma AroundEnds(row: seq<nat>, k: nat)
    requires k < |row|
    ensures var n, os := |row|, Around(row, k);
      && row[Next(k, n)] == Stop(row[k], os, 0)
      && row[Prev(k, n)] == if os == [] then row[k] else os[|os| - 1]
  {
  }

  /** The other nodes of n's row, rightwards from n. */
  function Others(m: Matrix, n: nat): seq<nat> {
    if n in m.rowOf && n in m.posOf && m.rowOf[n] < |m.rows| && m.posOf[n] < |m.rows[m.rowOf[n]]|
    then Around(m.rows[m.rowOf[n]], m.posOf[n]) else []
  }

  lemma OthersMembers(m: Matrix, n: nat, j: nat)
    requires WF(m) && n in m.rowOf
    ensures j in Others(m, n) <==> j in m.rowOf && m.rowOf[j] == m.rowOf[n] && j != n
  {
    var r, k, os := m.rowOf[n], m.posOf[n], Others(m, n);
    var row := m.rows[r];
    if q :| 0 <= q < |os| && os[q] == j {
      AroundStops(row, k, q);
      assert m.rows[r][StopIndex(|row|, k, q)] == j;
    }
    if j in m.rowOf && m.rowOf[j] == r && j != n {
      var i := m.posOf[j];
      assert i != k;
      assert os[if i > k then i - k - 1 else |row| - k - 1 + i] == j;
    }
  }

  ghost predicate RowNodes(m: Matrix, rs: seq<nat>) {
    forall i :: 0 <= i < |rs| ==> rs[i] in m.rowOf
  }

  /** The nodes cover unlinks when its outer loop runs over rs, in order. */
  function Targets(m: Matrix, rs: seq<nat>): seq<nat> {
    if rs == [] then [] else Targets(m, rs[..|rs| - 1]) + Others(m, rs[|rs| - 1])
  }

  lemma {:induction false} TargetsMembers(m: Matrix, rs: seq<nat>, j: nat)
    requires WF(m) && RowNodes(m, rs)
    ensures j in Targets(m, rs) <==>
      j in m.rowOf && exists i :: 0 <= i < |rs| && m.rowOf[rs[i]] == m.rowOf[j] && rs[i] != j
  {
    hide WF, Others;
    if rs != [] {
      var last := |rs| - 1;
      TargetsMembers(m, rs[..last], j);
      OthersMembers(m, rs[last], j);
      if i :| 0 <= i < |rs[..last]| && j in m.rowOf && m.rowOf[rs[..last][i]] == m.rowOf[j] && rs[..last][i] != j {
        assert rs[i] == rs[..last][i];
      }
      if i :| 0 <= i < |rs| && j in m.rowOf && m.rowOf[rs[i]] == m.rowOf[j] && rs[i] != j {
        if i < last { assert rs[..last][i] == rs[i]; }
      }
    }
  }

  // ----- unlinking a list of nodes, and putting them back -----

  function UnlinkAll(s: Store, ns: seq<nat>): (t: Store)
    requires Closed(s) && forall i :: 0 <= i < |ns| ==> ns[i] < |s|
    ensures Closed(t) && SameRows(s, t)
  {
    if ns == [] then s else Unlink(UnlinkAll(s, ns[..|ns| - 1]), ns[|ns| - 1])
  }

  /** Puts the nodes back last one first. */
  function RelinkAll(s: Store, ns: seq<nat>): (t: Store)
    requires Closed(s) && forall i :: 0 <= i < |ns| ==> ns[i] < |s|
    ensures Closed(t) && SameRows(s, t)
    decreases |ns|
  {
    if ns == [] then s else RelinkAll(Relink(s, ns[|ns| - 1]), ns[..|ns| - 1])
  }

  function IndexOf(xs: seq<nat>, x: nat): (i: nat)
    requires x in xs
    ensures i < |xs| && xs[i] == x
  {
    if xs[0] == x then 0 else 1 + IndexOf(xs[1..], x)
  }

  function Drop(v: View, d: nat, j: nat): View {
    if d in v && j in v[d] then v[d := Without(v[d], IndexOf(v[d], j))] else v
  }

  function DropAll(m: Matrix, v: View, ns: seq<nat>): View {
    if ns == [] then v
    else
      var w, last := DropAll(m, v, ns[..|ns| - 1]), ns[|ns| - 1];
      if last in m.colOf then Drop(w, m.colOf[last], last) else w
  }

  /** j is linked into its column, between two other nodes. */
  predicate Linked(s: Store, j: nat)
    requires j < |s| && Closed(s)
  {
    s[j].up != j && s[j].down != j && s[s[j].up].down == j && s[s[j].down].up == j
  }

  lemma RingLinked(s: Store, ring: seq<nat>, i: nat)
    requires Closed(s) && VRing(s, ring) && 0 < i < |ring|
    ensures Linked(s, ring[i])
  {
    var n := |ring|;
    assert s[ring[i]].up == ring[Prev(i, n)] && s[ring[i]].down == ring[Next(i, n)];
    assert s[ring[Prev(i, n)]].down == ring[Next(Prev(i, n), n)];
    assert s[ring[Next(i, n)]].up == ring[Prev(Next(i, n), n)];
  }

  /** Another column does not notice. */
  lemma UnlinkElsewhere(s: Store, t: Store, ring: seq<nat>, d: nat, j: nat)
    requires Closed(s) && ColumnOK(s, ring, d) && j < |s| && Linked(s, j)
    requires Unlinked(s, t, j) && SameRows(s, t)
    requires s[j].col != d && s[s[j].up].col == s[j].col && s[s[j].down].col == s[j].col
    ensures ColumnOK(t, ring, d)
  {
    forall k | 0 <= k < |ring|
      ensures t[ring[k]].down == ring[Next(k, |ring|)] && t[ring[k]].up == ring[Prev(k, |ring|)]
    {
      assert s[ring[k]].col == d;
    }
    assert s[ring[0]].col == d;
  }

  lemma UnlinkOwnColumn(s: Store, t: Store, ring: seq<nat>, d: nat, i: nat)
    requires Closed(s) && ColumnOK(s, ring, d) && 0 < i < |ring|
    requires Unlinked(s, t, ring[i]) && SameRows(s, t)
    ensures ColumnOK(t, Without(ring, i), d)
  {
    UnlinkRing(s, t, ring, i);
    var r := Without(ring, i);
    forall k | 0 <= k < |r| ensures t[r[k]].col == d {
      assert r[k] == ring[if k < i then k else k + 1];
    }
    assert s[ring[i]].col == d;
    assert r[0] == ring[0];
  }

  /** w lists what v lists, less the nodes ns. */
  ghost predicate Dropped(v: View, w: View, ns: seq<nat>) {
    && v.Keys == w.Keys
    && forall d, n {:trigger n in w[d]} :: d in w ==> (n in w[d] <==> n in v[d] && n !in ns)
  }

  lemma DroppedTrans(u: View, v: View, w: View, ns: seq<nat>, j: nat)
    requires Dropped(u, v, ns) && Dropped(v, w, [j])
    ensures Dropped(u, w, ns + [j])
  {
  }

  lemma DropStep(m: Matrix, v: View, d0: nat, j: nat)
    requires ViewOK(m, v) && d0 in v && j in v[d0] && j !in v
    ensures ViewOK(m, Drop(v, d0, j)) && Dropped(v, Drop(v, d0, j), [j])
  {
    var i := IndexOf(v[d0], j);
    WithoutDistinct(v[d0], i);
    forall d, n | d in v ensures n in Drop(v, d0, j)[d] <==> n in v[d] && n !in [j] {
      WithoutMembers(v[d0], i, n);
      assert j in v[d] ==> m.colOf[j] == d;
    }
  }

  lemma SameRowsFits(m: Matrix, s: Store, t: Store)
    requires Fits(m, s) && SameRows(s, t) && Closed(t)
    ensures Fits(m, t)
  {
    forall r | 0 <= r < |m.rows| ensures HRing(t, m.rows[r]) {
      assert HRing(s, m.rows[r]);
    }
  }

  /** Unlinking one listed node keeps every column in order. */
  lemma UnlinkStep(m: Matrix, s: Store, v: View, d0: nat, j: nat)
    requires Closed(s) && ColumnsOK(m, s, v)
    requires d0 in v && j in v[d0] && j !in v
    ensures j < |s| && Linked(s, j)
    ensures ColumnsOK(m, Unlink(s, j), Drop(v, d0, j))
  {
    var i := IndexOf(v[d0], j);
    assert ColumnOK(s, v[d0], d0);
    RingLinked(s, v[d0], i);
    var t, w := Unlink(s, j), Drop(v, d0, j);
    assert s[v[d0][i]].col == d0 && s[s[j].up].col == d0 && s[s[j].down].col == d0;
    UnlinkAt(s, j);
    DropStep(m, v, d0, j);
    forall d | d in w ensures ColumnOK(t, w[d], d) {
      assert ColumnOK(s, v[d], d);
      if d == d0 {
        UnlinkOwnColumn(s, t, v[d0], d0, i);
      } else {
        UnlinkElsewhere(s, t, v[d], d, j);
      }
    }
  }

  /** ns can be unlinked one after the other: row nodes, all different, each in the list of its column. */
  ghost predicate Removable(m: Matrix, v: View, ns: seq<nat>) {
    && Distinct(ns)
    && forall i :: 0 <= i < |ns| ==>
         ns[i] in m.colOf && m.colOf[ns[i]] in v && ns[i] in v[m.colOf[ns[i]]] && ns[i] !in v
  }

  lemma RemovableInit(m: Matrix, v: View, ns: seq<nat>)
    requires Removable(m, v, ns) && ns != []
    ensures var pre, last := ns[..|ns| - 1], ns[|ns| - 1];
            Removable(m, v, pre) && last !in pre && ns == pre + [last]
  {
    var pre := ns[..|ns| - 1];
    assert forall i :: 0 <= i < |pre| ==> pre[i] == ns[i];
  }

  lemma {:induction false} DropAllStep(m: Matrix, v: View, ns: seq<nat>)
    requires ViewOK(m, v) && Removable(m, v, ns)
    ensures ViewOK(m, DropAll(m, v, ns)) && Dropped(v, DropAll(m, v, ns), ns)
  {
    if ns != [] {
      var last, pre := ns[|ns| - 1], ns[..|ns| - 1];
      RemovableInit(m, v, ns);
      DropAllStep(m, v, pre);
      var w := DropAll(m, v, pre);
      assert last in w[m.colOf[last]];
      DropStep(m, w, m.colOf[last], last);
      DroppedTrans(v, w, Drop(w, m.colOf[last], last), pre, last);
    }
  }

  /** A column none of whose nodes is taken out keeps its list. */
  lemma {:induction false} DropAllElsewhere(m: Matrix, v: View, ns: seq<nat>, d: nat)
    requires d in v
    requires forall i :: 0 <= i < |ns| ==> ns[i] in m.colOf && m.colOf[ns[i]] != d
    ensures d in DropAll(m, v, ns) && DropAll(m, v, ns)[d] == v[d]
  {
    if ns != [] {
      DropAllElsewhere(m, v, ns[..|ns| - 1], d);
    }
  }

  lemma {:induction false} UnlinkAllStep(m: Matrix, s: Store, v: View, ns: seq<nat>)
    requires Fits(m, s) && ColumnsOK(m, s, v) && Removable(m, v, ns)
    ensures forall i :: 0 <= i < |ns| ==> ns[i] < |s|
    ensures ColumnsOK(m, UnlinkAll(s, ns), DropAll(m, v, ns))
  {
    if ns != [] {
      var last, pre := ns[|ns| - 1], ns[..|ns| - 1];
      RemovableInit(m, v, ns);
      DropAllStep(m, v, pre);
      UnlinkAllStep(m, s, v, pre);
      UnlinkStep(m, UnlinkAll(s, pre), DropAll(m, v, pre), m.colOf[last], last);
    }
  }

  /** Right before its turn, each node is linked into its column. */
  lemma LastLinked(m: Matrix, s: Store, v: View, ns: seq<nat>)
    requires Fits(m, s) && ColumnsOK(m, s, v) && Removable(m, v, ns) && ns != []
    ensures forall i :: 0 <= i < |ns| ==> ns[i] < |s|
    ensures var pre, last := ns[..|ns| - 1], ns[|ns| - 1];
            Linked(UnlinkAll(s, pre), last) && Relink(UnlinkAll(s, ns), last) == UnlinkAll(s, pre)
  {
    var last, pre := ns[|ns| - 1], ns[..|ns| - 1];
    RemovableInit(m, v, ns);
    DropAllStep(m, v, pre);
    UnlinkAllStep(m, s, v, pre);
    UnlinkStep(m, UnlinkAll(s, pre), DropAll(m, v, pre), m.colOf[last], last);
    RelinkUndoesUnlink(UnlinkAll(s, pre), last);
  }

  /** Putting the nodes back in the reverse order restores every link and every size. */
  lemma {:induction false} RelinkAllUndoes(m: Matrix, s: Store, v: View, ns: seq<nat>)
    requires Fits(m, s) && ColumnsOK(m, s, v) && Removable(m, v, ns)
    ensures forall i :: 0 <= i < |ns| ==> ns[i] < |s|
    ensures RelinkAll(UnlinkAll(s, ns), ns) == s
    decreases |ns|
  {
    if ns != [] {
      LastLinked(m, s, v, ns);
      RemovableInit(m, v, ns);
      RelinkAllUndoes(m, s, v, ns[..|ns| - 1]);
    }
  }

  // ----- covering a column -----

  lemma RemovablePrefix(m: Matrix, v: View, ns: seq<nat>, k: nat)
    requires Removable(m, v, ns) && k <= |ns|
    ensures Removable(m, v, ns[..k])
  {
    assert forall i :: 0 <= i < k ==> ns[..k][i] == ns[i];
  }

  ghost predicate DistinctRows(m: Matrix, rs: seq<nat>)
    requires RowNodes(m, rs)
  {
    forall i, j :: 0 <= i < j < |rs| ==> m.rowOf[rs[i]] != m.rowOf[rs[j]]
  }

  lemma OthersDistinct(m: Matrix, n: nat)
    requires WF(m) && n in m.rowOf
    ensures Distinct(Others(m, n))
  {
    var r, k, os := m.rowOf[n], m.posOf[n], Others(m, n);
    var row := m.rows[r];
    forall q | 0 <= q < |os| ensures os[q] in m.posOf && m.posOf[os[q]] == StopIndex(|row|, k, q) {
      AroundStops(row, k, q);
      assert os[q] == m.rows[r][StopIndex(|row|, k, q)];
    }
  }

  lemma DistinctConcat(xs: seq<nat>, ys: seq<nat>)
    requires Distinct(xs) && Distinct(ys) && forall x :: x in xs ==> x !in ys
    ensures Distinct(xs + ys)
  {
    forall i, j | 0 <= i < j < |xs + ys| ensures (xs + ys)[i] != (xs + ys)[j] {
      if i < |xs| <= j {
        assert xs[i] in xs && ys[j - |xs|] in ys;
      }
    }
  }

  lemma {:induction false} TargetsDistinct(m: Matrix, rs: seq<nat>)
    requires WF(m) && RowNodes(m, rs) && DistinctRows(m, rs)
    ensures Distinct(Targets(m, rs))
  {
    if rs != [] {
      var last := |rs| - 1;
      var pre := rs[..last];
      TargetsDistinct(m, pre);
      OthersDistinct(m, rs[last]);
      forall j | j in Targets(m, pre) ensures j !in Others(m, rs[last]) {
        TargetsMembers(m, pre, j);
        OthersMembers(m, rs[last], j);
        var i :| 0 <= i < |pre| && m.rowOf[pre[i]] == m.rowOf[j];
        assert pre[i] == rs[i];
      }
      DistinctConcat(Targets(m, pre), Others(m, rs[last]));
    }
  }

  /** The row nodes below header c. */
  function Body(v: View, c: nat): seq<nat> {
    if c in v && |v[c]| > 0 then v[c][1..] else []
  }

  lemma BodyRows(m: Matrix, v: View, c: nat)
    requires WF(m) && ViewOK(m, v) && c in v
    ensures RowNodes(m, Body(v, c)) && DistinctRows(m, Body(v, c))
    ensures forall n :: n in Body(v, c) <==> n in v[c] && n != c
    ensures forall n :: n in Body(v, c) ==> m.colOf[n] == c
  {
    var b := Body(v, c);
    forall i | 0 <= i < |b| ensures b[i] in m.rowOf && m.colOf[b[i]] == c && b[i] != c {
      assert b[i] == v[c][i + 1];
    }
    forall n | n in v[c] && n != c ensures n in b {
      var k :| 0 <= k < |v[c]| && v[c][k] == n;
      assert b[k - 1] == n;
    }
    forall i, j | 0 <= i < j < |b| ensures m.rowOf[b[i]] != m.rowOf[b[j]] {
      assert b[i] == v[c][i + 1] && b[j] == v[c][j + 1];
    }
  }

  /** A node of an uncovered column in a candidate row is listed, and no other column of its row is covered. */
  lemma CandidateNode(m: Matrix, v: View, cov: set<nat>, n: nat, j: nat)
    requires WF(m) && Lists(m, v, cov) && n in m.rowOf && m.colOf[n] !in cov
    requires m.colOf[n] in v && n in v[m.colOf[n]]
    requires j in m.rowOf && m.rowOf[j] == m.rowOf[n] && j != n
    ensures m.colOf[j] != m.colOf[n] && m.colOf[j] in v && j in v[m.colOf[j]]
  {
    hide RowsOK;
    assert m.nodeAt[(m.rowOf[n], m.colOf[n])] == n && m.nodeAt[(m.rowOf[j], m.colOf[j])] == j;
    assert m.hits[m.rowOf[n]] !! cov;
  }

  /** Everything cover is about to unlink is there to be unlinked, and lies outside column c. */
  lemma TargetsRemovable(m: Matrix, v: View, cov: set<nat>, c: nat)
    requires WF(m) && ViewOK(m, v) && Lists(m, v, cov) && c in v && c !in cov
    ensures RowNodes(m, Body(v, c))
    ensures Removable(m, v, Targets(m, Body(v, c)))
    ensures forall j :: j in Targets(m, Body(v, c)) ==> j in m.colOf && m.colOf[j] != c
  {
    hide WF, Targets, Body, ViewOK, Lists, Distinct, DistinctRows;
    BodyRows(m, v, c);
    var rs := Body(v, c);
    var ts := Targets(m, rs);
    TargetsDistinct(m, rs);
    NoColumns(m, v);
    forall j | j in ts ensures j in m.rowOf && j in m.colOf && m.colOf[j] != c && m.colOf[j] in v
      && j in v[m.colOf[j]] {
      TargetsMembers(m, rs, j);
      var i :| 0 <= i < |rs| && m.rowOf[rs[i]] == m.rowOf[j] && rs[i] != j;
      assert rs[i] in rs;
      CandidateNode(m, v, cov, rs[i], j);
    }
  }

  lemma NoColumns(m: Matrix, v: View)
    requires WF(m) && ViewOK(m, v)
    ensures m.rowOf.Keys == m.colOf.Keys && forall n :: n in m.rowOf ==> n !in v
  {
  }

  /** What cover does to the state, provided c is an uncovered column. */
  ghost function CoverState(m: Matrix, a: State, c: nat): State {
    var ts := Targets(m, Body(a.view, c));
    if Coverable(m, a, c) then
      TargetsRemovable(m, a.view, a.cov, c);
      State(UnlinkAll(UnlinkHeader(a.nodes, c), ts), DropAll(m, a.view, ts), Without(a.hdr, IndexOf(a.hdr, c)),
        a.cov + {c})
    else a
  }

  lemma SameColumnsOK(m: Matrix, s: Store, t: Store, v: View)
    requires ColumnsOK(m, s, v) && SameColumns(s, t)
    ensures ColumnsOK(m, t, v)
  {
    forall d | d in v ensures ColumnOK(t, v[d], d) {
      assert ColumnOK(s, v[d], d);
    }
  }

  lemma WithoutMembersAll(xs: seq<nat>, i: nat)
    requires i < |xs| && Distinct(xs)
    ensures forall x :: x in Without(xs, i) <==> x in xs && x != xs[i]
  {
    forall x ensures x in Without(xs, i) <==> x in xs && x != xs[i] {
      WithoutMembers(xs, i, x);
    }
  }

  lemma HeaderNeighbours(s: Store, hdr: seq<nat>, i: nat)
    requires HRing(s, hdr) && 0 < i < |hdr|
    ensures var c := hdr[i];
      && c < |s| && s[c].left < |s| && s[c].right < |s|
      && s[c].left != c && s[c].right != c && s[s[c].left].right == c && s[s[c].right].left == c
      && s[c].left in hdr && s[c].right in hdr
  {
    var n := |hdr|;
    assert s[hdr[i]].right == hdr[Next(i, n)] && s[hdr[i]].left == hdr[Prev(i, n)];
    assert s[hdr[Next(i, n)]].left == hdr[Prev(Next(i, n), n)];
    assert s[hdr[Prev(i, n)]].right == hdr[Next(Prev(i, n), n)];
  }

  /** The headers around an uncovered column agree that it is there, and close up when it is unlinked. */
  lemma UnlinkHeaderRingOK(m: Matrix, s: Store, hdr: seq<nat>, cov: set<nat>, c: nat)
    requires Closed(s) && HeadersOK(m, s, hdr, cov) && c in m.cols && c !in cov && c != m.root
    ensures c < |s| && s[c].left != c && s[c].right != c && s[s[c].left].right == c && s[s[c].right].left == c
    ensures s[c].left in hdr && s[c].right in hdr
    ensures var i := IndexOf(hdr, c); i > 0 && HeadersOK(m, UnlinkHeader(s, c), Without(hdr, i), cov + {c})
  {
    var i := IndexOf(hdr, c);
    HeaderNeighbours(s, hdr, i);
    UnlinkHeaderAt(s, c);
    UnlinkHeaderRing(s, UnlinkHeader(s, c), hdr, i);
    WithoutMembersAll(hdr, i);
  }

  /** Row rings do not pass through headers, so unlinking a header leaves them alone. */
  lemma UnlinkHeaderFits(m: Matrix, s: Store, c: nat)
    requires NodesOK(m) && RowsOK(m) && Fits(m, s) && c < |s|
    requires forall x :: (x == s[c].left || x == s[c].right) ==> x == m.root || x in m.cols
    ensures Fits(m, UnlinkHeader(s, c))
  {
    var t := UnlinkHeader(s, c);
    UnlinkHeaderAt(s, c);
    forall r | 0 <= r < |m.rows| ensures HRing(t, m.rows[r]) {
      var row := m.rows[r];
      assert HRing(s, row);
      forall k | 0 <= k < |row| ensures t[row[k]].left == s[row[k]].left && t[row[k]].right == s[row[k]].right {
        assert m.rows[r][k] in m.rowOf;
      }
    }
  }

  lemma RootIsNoColumn(m: Matrix, c: nat)
    requires Distinct([m.root] + m.cols) && c in m.cols
    ensures c != m.root
  {
    var k :| 0 <= k < |m.cols| && m.cols[k] == c;
    assert ([m.root] + m.cols)[0] == m.root && ([m.root] + m.cols)[k + 1] == c;
  }

  lemma UnlinkHeaderStep(m: Matrix, a: State, c: nat)
    requires Coverable(m, a, c)
    ensures var s, t, i := a.nodes, UnlinkHeader(a.nodes, c), IndexOf(a.hdr, c);
      && i > 0 && Fits(m, t) && ColumnsOK(m, t, a.view) && HeadersOK(m, t, Without(a.hdr, i), a.cov + {c})
      && RelinkHeader(t, c) == s
  {
    RootIsNoColumn(m, c);
    UnlinkHeaderRingOK(m, a.nodes, a.hdr, a.cov, c);
    UnlinkHeaderFits(m, a.nodes, c);
    SameColumnsOK(m, a.nodes, UnlinkHeader(a.nodes, c), a.view);
    RelinkHeaderUndoesUnlinkHeader(a.nodes, c);
  }

  lemma TargetHit(m: Matrix, rs: seq<nat>, c: nat, n: nat)
    requires WF(m) && RowNodes(m, rs) && n in m.rowOf && m.colOf[n] != c
    requires forall i :: 0 <= i < |rs| ==> m.colOf[rs[i]] == c
    ensures n in Targets(m, rs) <==> c in m.hits[m.rowOf[n]] && m.nodeAt[(m.rowOf[n], c)] in rs
  {
    TargetsMembers(m, rs, n);
    if c in m.hits[m.rowOf[n]] && m.nodeAt[(m.rowOf[n], c)] in rs {
      var i :| 0 <= i < |rs| && rs[i] == m.nodeAt[(m.rowOf[n], c)];
    }
    if i :| 0 <= i < |rs| && m.rowOf[rs[i]] == m.rowOf[n] && rs[i] != n {
      assert m.nodeAt[(m.rowOf[rs[i]], m.colOf[rs[i]])] == rs[i];
    }
  }

  /** After covering c, the remaining columns list exactly the rows that do not hit c either. */
  lemma CoverLists(m: Matrix, v: View, w: View, cov: set<nat>, c: nat)
    requires WF(m) && ViewOK(m, v) && Lists(m, v, cov) && c in v && c !in cov
    requires RowNodes(m, Body(v, c)) && Dropped(v, w, Targets(m, Body(v, c)))
    ensures Lists(m, w, cov + {c})
  {
    hide Targets, Others, Body, RowsOK, Distinct, DistinctRows, ViewOK;
    var rs := Body(v, c);
    BodyRows(m, v, c);
    forall n | n in m.rowOf && m.colOf[n] !in cov + {c}
      ensures m.colOf[n] in w && (n in w[m.colOf[n]] <==> m.hits[m.rowOf[n]] !! cov + {c})
    {
      var d, r := m.colOf[n], m.rowOf[n];
      assert d in w;
      assert n in w[d] <==> n in v[d] && n !in Targets(m, rs);
      assert n in v[d] <==> m.hits[r] !! cov;
      TargetHit(m, rs, c, n);
    }
  }

  lemma CoverColumns(m: Matrix, a: State, c: nat)
    requires Coverable(m, a, c)
    ensures var b := CoverState(m, a, c); Fits(m, b.nodes) && ColumnsOK(m, b.nodes, b.view)
    ensures CoverState(m, a, c).view[c] == a.view[c]
  {
    var s1 := UnlinkHeader(a.nodes, c);
    TargetsRemovable(m, a.view, a.cov, c);
    var ts := Targets(m, Body(a.view, c));
    UnlinkHeaderStep(m, a, c);
    UnlinkAllStep(m, s1, a.view, ts);
    SameRowsFits(m, s1, UnlinkAll(s1, ts));
    DropAllElsewhere(m, a.view, ts, c);
  }

  lemma SameRowsHeaders(m: Matrix, s: Store, t: Store, hdr: seq<nat>, cov: set<nat>)
    requires HeadersOK(m, s, hdr, cov) && SameRows(s, t)
    ensures HeadersOK(m, t, hdr, cov)
  {
  }

  lemma CoverHeaders(m: Matrix, a: State, c: nat)
    requires Coverable(m, a, c)
    ensures var b := CoverState(m, a, c); HeadersOK(m, b.nodes, b.hdr, b.cov)
  {
    var s1 := UnlinkHeader(a.nodes, c);
    TargetsRemovable(m, a.view, a.cov, c);
    var ts := Targets(m, Body(a.view, c));
    UnlinkHeaderStep(m, a, c);
    SameRowsHeaders(m, s1, UnlinkAll(s1, ts), Without(a.hdr, IndexOf(a.hdr, c)), a.cov + {c});
  }

  /** Covering keeps the invariant, and freezes the list of the covered column. */
  lemma CoverInv(m: Matrix, a: State, c: nat)
    requires Coverable(m, a, c)
    ensures Inv(m, CoverState(m, a, c))
    ensures CoverState(m, a, c).cov == a.cov + {c} && c in a.view && c in CoverState(m, a, c).view
      && CoverState(m, a, c).view[c] == a.view[c]
  {
    CoverColumns(m, a, c);
    CoverHeaders(m, a, c);
    TargetsRemovable(m, a.view, a.cov, c);
    var ts := Targets(m, Body(a.view, c));
    DropAllStep(m, a.view, ts);
    CoverLists(m, a.view, DropAll(m, a.view, ts), a.cov, c);
  }

  /** Uncovering: relink the unlinked nodes last one first, then the header. */
  ghost function UncoverNodes(s: Store, ts: seq<nat>, c: nat): Store
    requires Closed(s) && c < |s| && forall i :: 0 <= i < |ts| ==> ts[i] < |s|
  {
    RelinkHeader(RelinkAll(s, ts), c)
  }

  /** Uncover undoes cover link for link and size for size. */
  lemma UncoverUndoesCover(m: Matrix, a: State, c: nat)
    requires Coverable(m, a, c)
    ensures RowNodes(m, Body(a.view, c))
    ensures var ts, b := Targets(m, Body(a.view, c)), CoverState(m, a, c).nodes;
      Closed(b) && c < |b| && (forall i :: 0 <= i < |ts| ==> ts[i] < |b|) && UncoverNodes(b, ts, c) == a.nodes
  {
    var s1 := UnlinkHeader(a.nodes, c);
    TargetsRemovable(m, a.view, a.cov, c);
    var ts := Targets(m, Body(a.view, c));
    UnlinkHeaderStep(m, a, c);
    RelinkAllUndoes(m, s1, a.view, ts);
  }

  // ----- where the loops of cover and uncover are -----

  lemma {:induction false} TargetsSplit(m: Matrix, rs: seq<nat>, i: nat)
    requires i <= |rs|
    ensures |Targets(m, rs[..i])| <= |Targets(m, rs)|
    ensures Targets(m, rs)[..|Targets(m, rs[..i])|] == Targets(m, rs[..i])
  {
    hide Others;
    if i == |rs| {
      assert rs[..i] == rs;
    } else {
      var last := |rs| - 1;
      TargetsSplit(m, rs[..last], i);
      assert rs[..last][..i] == rs[..i];
    }
  }

  /** The position in the list of targets when q of the others of rs[i] are done. */
  function Done(m: Matrix, rs: seq<nat>, i: nat, q: nat): nat {
    if i <= |rs| then |Targets(m, rs[..i])| + q else 0
  }

  lemma PrefixStep(ts: seq<nat>, pre: seq<nat>, os: seq<nat>, q: nat)
    requires |pre + os| <= |ts| && ts[..|pre + os|] == pre + os && q < |os|
    ensures ts[|pre| + q] == os[q]
  {
    assert ts[..|pre + os|][|pre| + q] == (pre + os)[|pre| + q];
  }

  lemma TargetAt(m: Matrix, rs: seq<nat>, i: nat, q: nat)
    requires NodesOK(m) && RowNodes(m, rs) && i < |rs| && q <= |Others(m, rs[i])|
    ensures var k, ts := Done(m, rs, i, q), Targets(m, rs);
      && k <= |ts|
      && (q < |Others(m, rs[i])| ==> k < |ts| && ts[k] == Others(m, rs[i])[q])
      && (q == |Others(m, rs[i])| ==> k == Done(m, rs, i + 1, 0))
  {
    hide NodesOK, RowNodes, Others;
    var two, os, pre := Targets(m, rs[..i + 1]), Others(m, rs[i]), Targets(m, rs[..i]);
    TargetsSplit(m, rs, i + 1);
    assert two == pre + os by {
      assert rs[..i + 1][..i] == rs[..i];
    }
    if q < |os| {
      PrefixStep(Targets(m, rs), pre, os, q);
    }
  }

  lemma RingAround(s: Store, row: seq<nat>, k: nat)
    requires HRing(s, row) && k < |row|
    ensures var n, os := row[k], Around(row, k);
      n < |s| && s[n].right == Stop(n, os, 0) && s[n].left == if os == [] then n else os[|os| - 1]
  {
    assert s[row[k]].right == row[Next(k, |row|)] && s[row[k]].left == row[Prev(k, |row|)];
    AroundEnds(row, k);
  }

  lemma RingStop(s: Store, row: seq<nat>, k: nat, q: nat)
    requires HRing(s, row) && k < |row| && q < |Around(row, k)|
    ensures var n, os := row[k], Around(row, k);
      && os[q] < |s| && os[q] != n
      && s[os[q]].right == Stop(n, os, q + 1) && s[os[q]].left == if q == 0 then n else os[q - 1]
  {
    var i := StopIndex(|row|, k, q);
    AroundStops(row, k, q);
    assert s[row[i]].right == row[Next(i, |row|)] && s[row[i]].left == row[Prev(i, |row|)];
  }

  lemma RowWalk(m: Matrix, s: Store, n: nat)
    requires NodesOK(m) && Fits(m, s) && n in m.rowOf
    ensures var os := Others(m, n);
      n < |s| && s[n].right == Stop(n, os, 0) && s[n].left == if os == [] then n else os[|os| - 1]
  {
    RingAround(s, m.rows[m.rowOf[n]], m.posOf[n]);
  }

  lemma RowStop(m: Matrix, s: Store, n: nat, q: nat)
    requires NodesOK(m) && RowsOK(m) && Fits(m, s) && n in m.rowOf && q < |Others(m, n)|
    ensures var os := Others(m, n);
      && os[q] in m.colOf && os[q] < |s| && os[q] != n && s[os[q]].col == m.colOf[os[q]]
      && s[os[q]].right == Stop(n, os, q + 1) && s[os[q]].left == if q == 0 then n else os[q - 1]
  {
    var r, k := m.rowOf[n], m.posOf[n];
    RingStop(s, m.rows[r], k, q);
    AroundStops(m.rows[r], k, q);
    assert m.rows[r][StopIndex(|m.rows[r]|, k, q)] in m.rowOf;
  }

  /** In the middle of cover or uncover, rows and the list of c itself still read as before. */
  lemma Midway(m: Matrix, s1: Store, v: View, ns: seq<nat>, c: nat)
    requires Fits(m, s1) && ColumnsOK(m, s1, v) && Removable(m, v, ns) && c in v
    requires forall i :: 0 <= i < |ns| ==> m.colOf[ns[i]] != c
    ensures forall i :: 0 <= i < |ns| ==> ns[i] < |s1|
    ensures Fits(m, UnlinkAll(s1, ns)) && ColumnOK(UnlinkAll(s1, ns), v[c], c)
  {
    UnlinkAllStep(m, s1, v, ns);
    SameRowsFits(m, s1, UnlinkAll(s1, ns));
    DropAllElsewhere(m, v, ns, c);
  }

  lemma UnlinkOneMore(s: Store, ts: seq<nat>, k: nat)
    requires Closed(s) && k < |ts| && forall i :: 0 <= i < |ts| ==> ts[i] < |s|
    ensures UnlinkAll(s, ts[..k + 1]) == Unlink(UnlinkAll(s, ts[..k]), ts[k])
  {
    assert ts[..k + 1][..k] == ts[..k];
  }

  lemma ColumnWalk(s: Store, ring: seq<nat>, c: nat, i: nat)
    requires ColumnOK(s, ring, c) && i < |ring|
    ensures var rs := ring[1..];
      && c < |s| && s[c].down == Stop(c, rs, 0) && s[c].up == (if rs == [] then c else rs[|rs| - 1])
      && (i < |rs| ==> rs[i] < |s| && rs[i] != c && s[rs[i]].down == Stop(c, rs, i + 1) && s[rs[i]].up == if i == 0
         then c else rs[i - 1])
  {
    var n := |ring|;
    assert s[ring[0]].down == ring[Next(0, n)] && s[ring[0]].up == ring[Prev(0, n)];
    if i + 1 < n {
      assert s[ring[i + 1]].down == ring[Next(i + 1, n)] && s[ring[i + 1]].up == ring[Prev(i + 1, n)];
    }
  }

  /** All that cover and uncover need to know about the columns and rows they walk through. */
  ghost predicate Walkable(m: Matrix, s1: Store, v: View, c: nat, rs: seq<nat>, ts: seq<nat>) {
    && NodesOK(m) && RowsOK(m) && Fits(m, s1) && ColumnsOK(m, s1, v)
    && c in v && |v[c]| > 0 && rs == Body(v, c) && RowNodes(m, rs)
    && ts == Targets(m, rs) && Removable(m, v, ts)
    && forall i :: 0 <= i < |ts| ==> m.colOf[ts[i]] != c
  }

  lemma CoverWalkable(m: Matrix, a: State, c: nat)
    requires Coverable(m, a, c)
    ensures c < |a.nodes| && RowNodes(m, Body(a.view, c))
    ensures var s1, rs := UnlinkHeader(a.nodes, c), Body(a.view, c); Walkable(m, s1, a.view, c, rs, Targets(m, rs))
  {
    TargetsRemovable(m, a.view, a.cov, c);
    UnlinkHeaderStep(m, a, c);
  }

  ghost function Mid(s1: Store, ts: seq<nat>, k: nat): Store {
    if k <= |ts| && Closed(s1) && (forall i :: 0 <= i < |ts| ==> ts[i] < |s1|) then UnlinkAll(s1, ts[..k]) else s1
  }

  lemma MidOK(m: Matrix, s1: Store, v: View, c: nat, rs: seq<nat>, ts: seq<nat>, k: nat)
    requires Walkable(m, s1, v, c, rs, ts) && k <= |ts|
    ensures var t := Mid(s1, ts, k); Closed(t) && |t| == |s1| && Fits(m, t) && ColumnOK(t, v[c], c)
    ensures forall i :: 0 <= i < |ts| ==> ts[i] < |s1|
  {
    hide NodesOK, RowsOK, ColumnsOK, ColumnOK, Targets, UnlinkAll;
    RemovablePrefix(m, v, ts, k);
    Midway(m, s1, v, ts, c);
    Midway(m, s1, v, ts[..k], c);
  }

  /** The links followed by the outer loop, when k targets are unlinked. */
  lemma OuterLinks(m: Matrix, s1: Store, v: View, c: nat, rs: seq<nat>, ts: seq<nat>, k: nat, i: nat)
    requires Walkable(m, s1, v, c, rs, ts) && k <= |ts| && i <= |rs|
    ensures var t := Mid(s1, ts, k);
      && Closed(t) && |t| == |s1| && c < |t|
      && t[c].down == Stop(c, rs, 0) && t[c].up == (if rs == [] then c else rs[|rs| - 1])
      && (i < |rs| ==> rs[i] < |t| && rs[i] != c && t[rs[i]].down == Stop(c, rs, i + 1) && t[rs[i]].up == if i == 0
         then c else rs[i - 1])
  {
    hide NodesOK, RowsOK, ColumnsOK, ColumnOK, Fits, Removable, Targets, Mid;
    MidOK(m, s1, v, c, rs, ts, k);
    ColumnWalk(Mid(s1, ts, k), v[c], c, i);
  }

  /** The links followed by the inner loop at the q-th of the others of rs[i]. */
  lemma InnerLinks(m: Matrix, s1: Store, v: View, c: nat, rs: seq<nat>, ts: seq<nat>, i: nat, q: nat)
    requires Walkable(m, s1, v, c, rs, ts) && i < |rs| && q <= |Others(m, rs[i])|
    ensures var k, n, os := Done(m, rs, i, q), rs[i], Others(m, rs[i]);
      var t := Mid(s1, ts, k);
      && k <= |ts| && Closed(t) && |t| == |s1| && n < |t|
      && t[n].right == Stop(n, os, 0) && t[n].left == (if os == [] then n else os[|os| - 1])
      && (q == |os| ==> k == Done(m, rs, i + 1, 0))
      && (q < |os| ==> k < |ts| && os[q] == ts[k] && os[q] < |t| && os[q] != n
                       && t[os[q]].right == Stop(n, os, q + 1) && t[os[q]].left == if q == 0 then n else os[q - 1])
  {
    hide NodesOK, RowsOK, ColumnsOK, ColumnOK, Fits, Removable, Targets, Mid, Others, Done;
    var k := Done(m, rs, i, q);
    TargetAt(m, rs, i, q);
    MidOK(m, s1, v, c, rs, ts, k);
    RowWalk(m, Mid(s1, ts, k), rs[i]);
    if q < |Others(m, rs[i])| {
      RowStop(m, Mid(s1, ts, k), rs[i], q);
    }
  }

  /** One more target unlinked, or put back. */
  lemma MidStep(m: Matrix, s1: Store, v: View, c: nat, rs: seq<nat>, ts: seq<nat>, k: nat)
    requires Walkable(m, s1, v, c, rs, ts) && k < |ts|
    ensures var t, u := Mid(s1, ts, k), Mid(s1, ts, k + 1);
      && Closed(t) && Closed(u) && ts[k] < |t| && |u| == |t| && u == Unlink(t, ts[k]) && Relink(u, ts[k]) == t
      && u[ts[k]].right == t[ts[k]].right && u[ts[k]].left == t[ts[k]].left
  {
    hide NodesOK, RowsOK, ColumnsOK, ColumnOK, Fits, Removable, Targets, Unlink, Relink, UnlinkAll, Linked;
    MidOK(m, s1, v, c, rs, ts, k);
    MidOK(m, s1, v, c, rs, ts, k + 1);
    UnlinkOneMore(s1, ts, k);
    RemovablePrefix(m, v, ts, k + 1);
    LastLinked(m, s1, v, ts[..k + 1]);
    assert ts[..k + 1][..k] == ts[..k];
    assert SameRows(Mid(s1, ts, k), Mid(s1, ts, k + 1));
  }

  lemma HeaderEnds(m: Matrix, a: State, c: nat)
    requires Coverable(m, a, c)
    ensures c < |a.nodes| && Closed(a.nodes) && c in a.hdr
    ensures RelinkHeader(UnlinkHeader(a.nodes, c), c) == a.nodes
  {
    CoverWalkable(m, a, c);
    UnlinkHeaderStep(m, a, c);
    hide *;
  }

  /** Where cover starts and where it ends. */
  lemma MidEnds(m: Matrix, a: State, c: nat)
    requires Coverable(m, a, c)
    ensures c < |a.nodes| && Closed(a.nodes) && c in a.view && |a.view[c]| > 0 && NodesOK(m)
      && RowNodes(m, Body(a.view, c))
    ensures var s1, rs := UnlinkHeader(a.nodes, c), Body(a.view, c);
      var ts := Targets(m, rs);
      && Mid(s1, ts, 0) == s1
      && Done(m, rs, 0, 0) == 0 && Done(m, rs, |rs|, 0) == |ts|
      && CoverState(m, a, c).nodes == Mid(s1, ts, |ts|)
  {
    hide Inv, Fits, NodesOK, RowNodes, RowsOK, ColumnsOK, Removable, SameRows, SameColumns, Unlink;
    HeaderEnds(m, a, c);
    CoverWalkable(m, a, c);
    var s1, rs := UnlinkHeader(a.nodes, c), Body(a.view, c);
    var ts := Targets(m, rs);
    MidOK(m, s1, a.view, c, rs, ts, 0);
    assert rs[..|rs|] == rs && ts[..|ts|] == ts && rs[..0] == [];
  }

  // ----- covering a whole row -----

  ghost predicate SameNames(s: Store, t: Store) {
    |s| == |t| && forall i :: 0 <= i < |s| ==> s[i].name == t[i].name
  }

  lemma CoverNames(m: Matrix, a: State, c: nat)
    requires Coverable(m, a, c)
    ensures SameNames(a.nodes, CoverState(m, a, c).nodes)
  {
    hide Inv, Targets;
    MidEnds(m, a, c);
    CoverWalkable(m, a, c);
    TargetsInStore(m, a, c);
  }

  lemma TargetsInStore(m: Matrix, a: State, c: nat)
    requires Coverable(m, a, c)
    ensures c < |a.nodes| && Closed(a.nodes) && RowNodes(m, Body(a.view, c))
    ensures var s1, ts := UnlinkHeader(a.nodes, c), Targets(m, Body(a.view, c));
      (forall i :: 0 <= i < |ts| ==> ts[i] < |s1|) && CoverState(m, a, c).nodes == UnlinkAll(s1, ts)
  {
    CoverWalkable(m, a, c);
    var s1, rs := UnlinkHeader(a.nodes, c), Body(a.view, c);
    MidOK(m, s1, a.view, c, rs, Targets(m, rs), 0);
  }

  /** Covers the columns cs one inside the other. */
  ghost function CoverAll(m: Matrix, a: State, cs: seq<nat>): State {
    if cs == [] then a
    else
      var b, c := CoverAll(m, a, cs[..|cs| - 1]), cs[|cs| - 1];
      CoverState(m, b, c)
  }

  ghost predicate Uncovered(m: Matrix, cov: set<nat>, cs: seq<nat>) {
    Distinct(cs) && forall i :: 0 <= i < |cs| ==> cs[i] in m.cols && cs[i] !in cov
  }

  function Elements(cs: seq<nat>): set<nat> {
    set i | 0 <= i < |cs| :: cs[i]
  }

  lemma {:induction false} CoverAllInv(m: Matrix, a: State, cs: seq<nat>)
    requires Inv(m, a) && Uncovered(m, a.cov, cs)
    ensures Inv(m, CoverAll(m, a, cs)) && CoverAll(m, a, cs).cov == a.cov + Elements(cs)
    ensures SameNames(a.nodes, CoverAll(m, a, cs).nodes)
  {
    hide Inv, CoverState;
    if cs != [] {
      var pre, c := cs[..|cs| - 1], cs[|cs| - 1];
      assert forall i :: 0 <= i < |pre| ==> pre[i] == cs[i];
      CoverAllInv(m, a, pre);
      assert Elements(cs) == Elements(pre) + {c};
      var b := CoverAll(m, a, pre);
      CoverInv(m, b, c);
      CoverNames(m, b, c);
      MidEnds(m, b, c);
    }
  }

  /** One more level of the nest. */
  lemma CoverAllStep(m: Matrix, a: State, cs: seq<nat>, k: nat)
    requires Inv(m, a) && Uncovered(m, a.cov, cs) && k < |cs|
    ensures var b := CoverAll(m, a, cs[..k]);
      && Coverable(m, b, cs[k]) && CoverAll(m, a, cs[..k + 1]) == CoverState(m, b, cs[k])
  {
    hide Inv, CoverState;
    var pre := cs[..k];
    assert cs[..k + 1][..k] == pre;
    assert forall i :: 0 <= i < |pre| ==> pre[i] == cs[i];
    CoverAllInv(m, a, pre);
  }

  /** The columns that choosing row node n covers besides n's own. */
  function OtherCols(m: Matrix, n: nat): (cs: seq<nat>)
    ensures |cs| == |Others(m, n)|
  {
    seq(|Others(m, n)|, q requires 0 <= q < |Others(m, n)| => ColOf(m, Others(m, n)[q]))
  }

  function ColOf(m: Matrix, n: nat): nat {
    if n in m.colOf then m.colOf[n] else 0
  }

  /** The columns hit by the row of node n. */
  function HitsOf(m: Matrix, n: nat): set<int> {
    if n in m.rowOf && m.rowOf[n] < |m.hits| then m.hits[m.rowOf[n]] else {}
  }

  lemma OtherColsAre(m: Matrix, n: nat)
    requires WF(m) && n in m.rowOf
    ensures var cs, hit := OtherCols(m, n), m.hits[m.rowOf[n]];
      && Distinct(cs) && m.colOf[n] !in cs
      && (forall d :: d in cs ==> d in hit && d in m.cols)
      && (forall d :: d in hit ==> d == m.colOf[n] || (d >= 0 && d in Elements(cs)))
  {
    var cs, os, r := OtherCols(m, n), Others(m, n), m.rowOf[n];
    OthersDistinct(m, n);
    forall q | 0 <= q < |os| ensures os[q] in m.rowOf && m.rowOf[os[q]] == r && os[q] != n
      && m.nodeAt[(r, cs[q])] == os[q] {
      OthersMembers(m, n, os[q]);
    }
    assert m.nodeAt[(r, m.colOf[n])] == n;
    forall d | d in m.hits[r] && d != m.colOf[n] ensures d >= 0 && d in Elements(cs) {
      OthersMembers(m, n, m.nodeAt[(r, d)]);
      var q :| 0 <= q < |os| && os[q] == m.nodeAt[(r, d)];
      assert cs[q] == d;
    }
  }

  /** The rows listed below an uncovered column are candidates that hit it. */
  lemma ListedCandidate(m: Matrix, a: State, c: nat, n: nat)
    requires Coverable(m, a, c) && n in Body(a.view, c)
    ensures n in m.rowOf && n in m.colOf && m.colOf[n] == c && m.rowOf[n] < |m.hits|
    ensures c in m.hits[m.rowOf[n]] && m.hits[m.rowOf[n]] !! a.cov
  {
    BodyRows(m, a.view, c);
  }

  lemma RowSplit(cov: set<nat>, c: nat, cs: seq<nat>, hit: set<int>)
    requires c in hit && hit !! cov
    requires forall d :: d in cs ==> d in hit && d != c
    requires forall d :: d in hit ==> d == c || (d >= 0 && d in Elements(cs))
    ensures forall d :: d in cs ==> d !in cov + {c}
    ensures cov + {c} + Elements(cs) == cov + hit
  {
    forall x | x in Elements(cs) ensures x in hit {
      assert x in cs;
    }
    forall x | x in cov + hit ensures x in cov + {c} + Elements(cs) {
      if x in hit && x != c { assert x in Elements(cs); }
    }
  }

  lemma InvWF(m: Matrix, a: State)
    requires Inv(m, a)
    ensures WF(m)
  {
  }

  /**
    Choosing row node n of an uncovered column c: its other columns can be covered after c, and then
    the whole row is.
  */
  lemma ChooseRow(m: Matrix, a: State, c: nat, n: nat)
    requires Coverable(m, a, c) && n in Body(a.view, c)
    ensures n in m.rowOf && m.rowOf[n] < |m.hits| && Active(ToProblem(m), a.cov, m.rowOf[n]) && c in HitsOf(m, n)
    ensures Uncovered(m, a.cov + {c}, OtherCols(m, n))
    ensures a.cov + {c} + Elements(OtherCols(m, n)) == a.cov + HitsOf(m, n)
  {
    hide Inv, WF, OtherCols, Elements, Distinct;
    InvWF(m, a);
    ListedCandidate(m, a, c, n);
    OtherColsAre(m, n);
    RowSplit(a.cov, c, OtherCols(m, n), m.hits[m.rowOf[n]]);
  }

  lemma InvView(m: Matrix, a: State)
    requires Inv(m, a)
    ensures ViewOK(m, a.view)
  {
  }

  /** Every candidate row that hits c is in the list of c. */
  lemma CandidateListed(m: Matrix, a: State, c: nat, r: int)
    requires Coverable(m, a, c)
    requires Active(ToProblem(m), a.cov, r) && c in m.hits[r]
    ensures exists t :: 0 <= t < |Body(a.view, c)| && HitsOf(m, Body(a.view, c)[t]) == m.hits[r]
  {
    hide Fits, ColumnsOK, HeadersOK, RowsOK, Body;
    var n := m.nodeAt[(r, c)];
    InvView(m, a);
    BodyRows(m, a.view, c);
    assert n in Body(a.view, c);
    var t :| 0 <= t < |Body(a.view, c)| && Body(a.view, c)[t] == n;
  }

  /** No column left in the header list: all are covered. */
  lemma NoneLeft(m: Matrix, a: State)
    requires Inv(m, a)
    ensures |a.hdr| >= 1 && m.root < |a.nodes| && m.root !in m.cols
    ensures a.nodes[m.root].left == m.root <==> |a.hdr| == 1
    ensures a.nodes[m.root].right == m.root <==> |a.hdr| == 1
    ensures |a.hdr| == 1 <==> ToProblem(m).cols <= a.cov
  {
    if m.root in m.cols { RootIsNoColumn(m, m.root); }
    assert a.nodes[a.hdr[0]].right == a.hdr[Next(0, |a.hdr|)] && a.nodes[a.hdr[0]].left == a.hdr[Prev(0, |a.hdr|)];
    if |a.hdr| > 1 {
      assert a.hdr[1] in a.hdr && a.hdr[1] != a.hdr[0];
      assert a.hdr[1] in ToProblem(m).cols;
    }
    if c :| c in m.cols && c !in a.cov {
      assert c in a.hdr;
      RootIsNoColumn(m, c);
    }
  }

  /** The i-th stop of the walk along the header list. */
  lemma HeaderWalk(m: Matrix, a: State, i: nat)
    requires Inv(m, a) && 1 <= i <= |a.hdr|
    ensures var h := a.hdr;
      && m.root < |a.nodes| && h[i - 1] < |a.nodes| && a.nodes[h[i - 1]].right == Stop(m.root, h, i)
      && h[0] == m.root
      && (i < |h| ==> h[i] < |a.nodes| && h[i] != m.root && h[i] in m.cols && h[i] !in a.cov)
    ensures forall c :: c in a.hdr <==> c == m.root || (c in m.cols && c !in a.cov)
  {
    var h := a.hdr;
    assert a.nodes[h[i - 1]].right == h[Next(i - 1, |h|)];
    if i < |h| { assert h[i] in h; }
  }

  // ----- reading the answer off -----

  /** The names of row r say which digit goes where: its first node names the cell, the others end in the digit. */
  ghost predicate Labelled(m: Matrix, s: Store, cells: nat) {
    && |m.cell| == |m.val| == |m.rows|
    && (forall r :: 0 <= r < |m.rows| ==> |m.rows[r]| >= 2 && m.cell[r] < cells)
    && (forall r, k :: 0 <= r < |m.rows| && 0 <= k < |m.rows[r]| ==>
          && m.rows[r][k] < |s|
          && (k == 0 ==> s[m.rows[r][k]].name == m.cell[r] && m.cell[r] < 100)
          && (k > 0 ==> s[m.rows[r][k]].name >= 100 && s[m.rows[r][k]].name % 10 == m.val[r]))
  }

  lemma LabelledSame(m: Matrix, s: Store, t: Store, cells: nat)
    requires Labelled(m, s, cells) && SameNames(s, t)
    ensures Labelled(m, t, cells)
  {
  }

  ghost predicate StackOK(m: Matrix, stack: seq<nat>) {
    forall i :: 0 <= i < |stack| ==> stack[i] in m.rowOf
  }

  /** The rows chosen by the nodes on the stack. */
  function RowsOf(m: Matrix, stack: seq<nat>): (rs: seq<nat>)
    ensures |rs| == |stack|
  {
    seq(|stack|, i requires 0 <= i < |stack| => if stack[i] in m.rowOf then m.rowOf[stack[i]] else 0)
  }

  /** The board after writing the digits of the rows rs, in order. */
  function FillRows(m: Matrix, board: seq<int>, rs: seq<nat>): seq<int> {
    SudokuGrid.Fill(m.cell, m.val, board, rs)
  }

  lemma LabelledCell(m: Matrix, s: Store, cells: nat, n: nat)
    requires WF(m) && Labelled(m, s, cells) && n in m.rowOf
    ensures m.rowOf[n] < |m.cell| && m.rowOf[n] < |m.val| && m.cell[m.rowOf[n]] < cells
  {
  }

  // ----- small consequences of the invariant that the search uses -----

  lemma InvFits(m: Matrix, a: State)
    requires Inv(m, a)
    ensures WF(m) && Fits(m, a.nodes)
  {
  }

  lemma AllCovered(m: Matrix, a: State)
    requires Inv(m, a) && ToProblem(m).cols <= a.cov
    ensures Covers(ToProblem(m), a.cov, []) && Solvable(ToProblem(m), a.cov)
  {
    CoversNothing(ToProblem(m), a.cov);
  }

  /** After covering c its list still reads as before. */
  lemma CoveredList(m: Matrix, a: State, c: nat, i: nat)
    requires Coverable(m, a, c)
    ensures c in a.view && |a.view[c]| > 0
    ensures var s, rs := CoverState(m, a, c).nodes, Body(a.view, c);
      && c < |s| && s[c].down == Stop(c, rs, 0)
      && (i < |rs| ==> rs[i] < |s| && rs[i] != c && s[rs[i]].down == Stop(c, rs, i + 1))
  {
    hide CoverState, Inv;
    CoverInv(m, a, c);
    InvColumn(m, a, c);
    var b := CoverState(m, a, c);
    InvColumn(m, b, c);
    ColumnWalk(b.nodes, b.view[c], c, if i < |Body(a.view, c)| then i else 0);
  }

  lemma InvColumn(m: Matrix, a: State, c: nat)
    requires Inv(m, a) && c in m.cols
    ensures c in a.view && ColumnOK(a.nodes, a.view[c], c)
  {
  }

  lemma CoverAllNil(m: Matrix, a: State)
    ensures CoverAll(m, a, []) == a
  {
  }

  /** The way along n's row in the state a: right of n comes stop 0, left of n the last stop. */
  ghost predicate RowEnds(m: Matrix, s: Store, n: nat) {
    var os := Others(m, n);
    n < |s| && s[n].right == Stop(n, os, 0) && s[n].left == if os == [] then n else os[|os| - 1]
  }

  ghost predicate RowPlace(m: Matrix, s: Store, n: nat, q: nat) {
    var os := Others(m, n);
    q < |os| ==>
      (&& os[q] < |s| && os[q] != n && s[os[q]].col == ColOf(m, os[q])
       && s[os[q]].right == Stop(n, os, q + 1) && s[os[q]].left == if q == 0 then n else os[q - 1])
  }

  lemma InvRow(m: Matrix, a: State, n: nat, q: nat)
    requires Inv(m, a) && n in m.rowOf
    ensures RowEnds(m, a.nodes, n) && RowPlace(m, a.nodes, n, q)
  {
    hide Fits;
    RowWalk(m, a.nodes, n);
    if q < |Others(m, n)| {
      RowStop(m, a.nodes, n, q);
    }
  }

  /** While the other columns of n's row are covered, k of them so far, the row itself still reads as before. */
  lemma NestRow(m: Matrix, a: State, cs: seq<nat>, n: nat, k: nat, q: nat)
    requires Inv(m, a) && Uncovered(m, a.cov, cs) && n in m.rowOf && k <= |cs|
    ensures var s := CoverAll(m, a, cs[..k]).nodes; RowEnds(m, s, n) && RowPlace(m, s, n, q)
  {
    hide Inv, CoverAll, Uncovered, RowEnds, RowPlace;
    UncoveredPrefix(m, a.cov, cs, k);
    CoverAllInv(m, a, cs[..k]);
    InvRow(m, CoverAll(m, a, cs[..k]), n, q);
  }

  lemma UncoveredPrefix(m: Matrix, cov: set<nat>, cs: seq<nat>, k: nat)
    requires Uncovered(m, cov, cs) && k <= |cs|
    ensures Uncovered(m, cov, cs[..k])
  {
    assert forall i :: 0 <= i < k ==> cs[..k][i] == cs[i];
  }

  /** Fewer columns remain after choosing a row. */
  lemma Smaller(cols: seq<nat>, cov: set<nat>, c: nat, hit: set<int>)
    requires c in cols && c !in cov && c in hit
    ensures |Elements(cols) - (cov + hit)| < |Elements(cols) - cov|
  {
    var big, small := Elements(cols) - cov, Elements(cols) - (cov + hit);
    var k :| 0 <= k < |cols| && cols[k] == c;
    assert c in big && c !in small && small <= big;
    SubsetSize(small, big - {c});
  }

  /** The chosen row followed by rows that cover the rest is a cover, read off the stack. */
  lemma TakenRow(m: Matrix, a: State, c: nat, n: nat, before: seq<nat>, after: seq<nat>)
    requires Coverable(m, a, c) && n in Body(a.view, c) && before + [n] <= after
    requires Covers(ToProblem(m), a.cov + HitsOf(m, n), RowsOf(m, after[|before| + 1..]))
    ensures Covers(ToProblem(m), a.cov, RowsOf(m, after[|before|..])) && Solvable(ToProblem(m), a.cov)
  {
    hide Inv, WF, Covers;
    InvWF(m, a);
    ChooseRow(m, a, c, n);
    ProblemWF(m);
    CoversExtend(ToProblem(m), a.cov, m.rowOf[n], RowsOf(m, after[|before| + 1..]));
    assert after[|before|..] == [n] + after[|before| + 1..];
    assert RowsOf(m, after[|before|..]) == [m.rowOf[n]] + RowsOf(m, after[|before| + 1..]);
  }

  /** If no listed row leads to a cover, there is none. */
  lemma AllTried(m: Matrix, a: State, c: nat)
    requires Coverable(m, a, c)
    requires forall t :: 0 <= t < |Body(a.view, c)| ==> !Solvable(ToProblem(m), a.cov + HitsOf(m, Body(a.view, c)[t]))
    ensures !Solvable(ToProblem(m), a.cov)
  {
    InvWF(m, a);
    ProblemWF(m);
    var p := ToProblem(m);
    hide Inv, WF, Solvable;
    Branch(p, a.cov, c);
    forall r | Active(p, a.cov, r) && c in p.rows[r] ensures !Solvable(p, a.cov + p.rows[r]) {
      CandidateListed(m, a, c, r);
    }
  }
}
