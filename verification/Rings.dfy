/**
  The node store of the solver: an array of nodes whose links are indices into
  that array, and the circular doubly linked rings threaded through it.

  A ring is described by the sequence of its nodes.  Vertical rings (`up`/`down`)
  are the columns of the matrix, horizontal rings (`left`/`right`) are its rows
  and the list of column headers.
*/
module Rings {

  datatype Node = Node(left: nat, right: nat, up: nat, down: nat, col: nat, name: int, size: int)

  type Store = seq<Node>

  // ----- single pointer writes -----

  function SetLeft(s: Store, i: nat, x: nat): (t: Store)
    requires i < |s|
    ensures SameColumns(s, t) && (Closed(s) && x < |s| ==> Closed(t))
  { s[i := s[i].(left := x)] }

  function SetRight(s: Store, i: nat, x: nat): (t: Store)
    requires i < |s|
    ensures SameColumns(s, t) && (Closed(s) && x < |s| ==> Closed(t))
  { s[i := s[i].(right := x)] }

  function SetUp(s: Store, i: nat, x: nat): (t: Store)
    requires i < |s|
    ensures SameRows(s, t) && (Closed(s) && x < |s| ==> Closed(t))
  { s[i := s[i].(up := x)] }

  function SetDown(s: Store, i: nat, x: nat): (t: Store)
    requires i < |s|
    ensures SameRows(s, t) && (Closed(s) && x < |s| ==> Closed(t))
  { s[i := s[i].(down := x)] }

  function AddSize(s: Store, i: nat, x: int): (t: Store)
    requires i < |s|
    ensures SameRows(s, t) && (Closed(s) ==> Closed(t))
  { s[i := s[i].(size := s[i].size + x)] }

  /** Every link stays inside the store. */
  ghost predicate Closed(s: Store) {
    forall i :: 0 <= i < |s| ==>
      s[i].left < |s| && s[i].right < |s| && s[i].up < |s| && s[i].down < |s| && s[i].col < |s|
  }

  /** Only vertical links and sizes differ. */
  ghost predicate SameRows(s: Store, t: Store) {
    && |s| == |t|
    && forall i :: 0 <= i < |s| ==>
         s[i].left == t[i].left && s[i].right == t[i].right && s[i].col == t[i].col && s[i].name == t[i].name
  }

  /** Only horizontal links differ. */
  ghost predicate SameColumns(s: Store, t: Store) {
    && |s| == |t|
    && forall i :: 0 <= i < |s| ==>
         s[i].up == t[i].up && s[i].down == t[i].down && s[i].size == t[i].size && s[i].col == t[i].col
           && s[i].name == t[i].name
  }

  // ----- rings -----

  function Next(i: nat, n: nat): nat
    requires i < n
  { if i + 1 == n then 0 else i + 1 }

  function Prev(i: nat, n: nat): nat
    requires i < n
  { if i == 0 then n - 1 else i - 1 }

  ghost predicate Distinct(xs: seq<nat>) {
    forall i, j :: 0 <= i < j < |xs| ==> xs[i] != xs[j]
  }

  ghost predicate VRing(s: Store, ring: seq<nat>) {
    && Distinct(ring)
    && (forall i :: 0 <= i < |ring| ==> ring[i] < |s|)
    && forall i {:trigger s[ring[i]]} :: 0 <= i < |ring| ==>
         s[ring[i]].down == ring[Next(i, |ring|)] && s[ring[i]].up == ring[Prev(i, |ring|)]
  }

  ghost predicate HRing(s: Store, ring: seq<nat>) {
    && Distinct(ring)
    && (forall i :: 0 <= i < |ring| ==> ring[i] < |s|)
    && forall i {:trigger s[ring[i]]} :: 0 <= i < |ring| ==>
         s[ring[i]].right == ring[Next(i, |ring|)] && s[ring[i]].left == ring[Prev(i, |ring|)]
  }

  function Without(xs: seq<nat>, i: nat): seq<nat>
    requires i < |xs|
  { xs[..i] + xs[i + 1..] }

  lemma WithoutMembers(xs: seq<nat>, i: nat, x: nat)
    requires i < |xs| && Distinct(xs)
    ensures x in Without(xs, i) <==> x in xs && x != xs[i]
  {
    var ys := Without(xs, i);
    if x in xs && x != xs[i] {
      var k :| 0 <= k < |xs| && xs[k] == x;
      assert ys[if k < i then k else k - 1] == x;
    }
  }

  // ----- the four pointer surgeries of the algorithm -----

  /** Takes header c out of the header ring; c keeps its own links. */
  function UnlinkHeader(s: Store, c: nat): (t: Store)
    requires c < |s| && Closed(s)
    ensures Closed(t) && SameColumns(s, t)
  {
    var s1 := SetLeft(s, s[c].right, s[c].left);
    SetRight(s1, s1[c].left, s1[c].right)
  }

  function RelinkHeader(s: Store, c: nat): (t: Store)
    requires c < |s| && Closed(s)
    ensures Closed(t) && SameColumns(s, t)
  {
    var s1 := SetLeft(s, s[c].right, c);
    SetRight(s1, s1[c].left, c)
  }

  /** Takes node j out of its column; j keeps its own links. */
  function Unlink(s: Store, j: nat): (t: Store)
    requires j < |s| && Closed(s)
    ensures Closed(t) && SameRows(s, t)
  {
    var s1 := SetUp(s, s[j].down, s[j].up);
    var s2 := SetDown(s1, s1[j].up, s1[j].down);
    AddSize(s2, s2[j].col, -1)
  }

  function Relink(s: Store, j: nat): (t: Store)
    requires j < |s| && Closed(s)
    ensures Closed(t) && SameRows(s, t)
  {
    var s1 := AddSize(s, s[j].col, 1);
    var s2 := SetUp(s1, s1[j].down, j);
    SetDown(s2, s2[j].up, j)
  }

  /** What the three writes of Unlink amount to, node by node. */
  ghost predicate Unlinked(s: Store, t: Store, j: nat)
    requires j < |s|
  {
    && |t| == |s|
    && forall x :: 0 <= x < |s| ==>
         && t[x].down == (if x == s[j].up then s[j].down else s[x].down)
         && t[x].up == (if x == s[j].down then s[j].up else s[x].up)
         && t[x].size == s[x].size - if x == s[j].col then 1 else 0
  }

  ghost predicate HeaderUnlinked(s: Store, t: Store, c: nat)
    requires c < |s|
  {
    && |t| == |s|
    && forall x :: 0 <= x < |s| ==>
         && t[x].right == (if x == s[c].left then s[c].right else s[x].right)
         && t[x].left == (if x == s[c].right then s[c].left else s[x].left)
  }

  lemma UnlinkAt(s: Store, j: nat)
    requires j < |s| && Closed(s)
    ensures Unlinked(s, Unlink(s, j), j)
  {
  }

  lemma UnlinkHeaderAt(s: Store, c: nat)
    requires c < |s| && Closed(s)
    ensures HeaderUnlinked(s, UnlinkHeader(s, c), c)
  {
  }

  lemma RelinkAt(s: Store, j: nat, x: nat)
    requires j < |s| && x < |s| && Closed(s) && s[j].down != j
    ensures var t := Relink(s, j);
      && t[x].down == (if x == s[j].up then j else s[x].down)
      && t[x].up == (if x == s[j].down then j else s[x].up)
      && t[x].size == s[x].size + if x == s[j].col then 1 else 0
  {
  }

  lemma RelinkUndoesUnlink(s: Store, j: nat)
    requires j < |s| && Closed(s)
    requires s[j].up != j && s[j].down != j
    requires s[s[j].up].down == j && s[s[j].down].up == j
    ensures Relink(Unlink(s, j), j) == s
  {
    var t := Unlink(s, j);
    UnlinkAt(s, j);
    assert t[j].up == s[j].up && t[j].down == s[j].down && t[j].col == s[j].col;
    forall x | 0 <= x < |s| ensures Relink(t, j)[x] == s[x] {
      RelinkAt(t, j, x);
    }
  }

  lemma RelinkHeaderUndoesUnlinkHeader(s: Store, c: nat)
    requires c < |s| && Closed(s)
    requires s[c].left != c && s[c].right != c
    requires s[s[c].left].right == c && s[s[c].right].left == c
    ensures RelinkHeader(UnlinkHeader(s, c), c) == s
  {
  }

  /** Index arithmetic of taking position i out of a ring of n places. */
  lemma RingWithout(ring: seq<nat>, i: nat, k: nat)
    requires Distinct(ring) && 0 < i < |ring| && k < |ring| - 1
    ensures var k0 := if k < i then k else k + 1;
            var r := Without(ring, i);
            var n := |ring|;
            && r[k] == ring[k0] && ring[k0] != ring[i]
            && r[Next(k, n - 1)] == (if k0 == Prev(i, n) then ring[Next(i, n)] else ring[Next(k0, n)])
            && r[Prev(k, n - 1)] == (if k0 == Next(i, n) then ring[Prev(i, n)] else ring[Prev(k0, n)])
            && (ring[k0] == ring[Prev(i, n)] <==> k0 == Prev(i, n))
            && (ring[k0] == ring[Next(i, n)] <==> k0 == Next(i, n))
  {
  }

  lemma UnlinkRing(s: Store, t: Store, ring: seq<nat>, i: nat)
    requires VRing(s, ring) && 0 < i < |ring| && Unlinked(s, t, ring[i])
    ensures VRing(t, Without(ring, i))
  {
    var r := Without(ring, i);
    WithoutDistinct(ring, i);
    forall k | 0 <= k < |r|
      ensures r[k] < |t| && t[r[k]].down == r[Next(k, |r|)] && t[r[k]].up == r[Prev(k, |r|)]
    {
      RingWithout(ring, i, k);
    }
  }

  lemma UnlinkHeaderRing(s: Store, t: Store, ring: seq<nat>, i: nat)
    requires HRing(s, ring) && 0 < i < |ring| && HeaderUnlinked(s, t, ring[i])
    ensures HRing(t, Without(ring, i))
  {
    hide Without;
    var r := Without(ring, i);
    WithoutDistinct(ring, i);
    forall k | 0 <= k < |r|
      ensures r[k] < |t| && t[r[k]].right == r[Next(k, |r|)] && t[r[k]].left == r[Prev(k, |r|)]
    {
      RingWithout(ring, i, k);
    }
  }

  /** Removing a node keeps the rest of a ring distinct. */
  lemma WithoutDistinct(xs: seq<nat>, i: nat)
    requires i < |xs| && Distinct(xs)
    ensures Distinct(Without(xs, i)) && |Without(xs, i)| == |xs| - 1
  {
  }
}
