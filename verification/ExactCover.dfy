/**
  The exact cover problem, with no pointers in sight: which rows of a 0/1 matrix
  hit every column exactly once.
*/
module ExactCover {

  /** rows[r] is the set of columns that row r hits. */
  datatype Problem = Problem(cols: set<int>, rows: seq<set<int>>)

  ghost predicate WellFormed(p: Problem) {
    forall r :: 0 <= r < |p.rows| ==> p.rows[r] <= p.cols
  }

  /** Row r is still a candidate once the columns in cov are dealt with. */
  predicate Active(p: Problem, cov: set<int>, r: int) {
    0 <= r < |p.rows| && p.rows[r] !! cov
  }

  ghost predicate Hits(p: Problem, rs: seq<nat>, i: int, c: int) {
    0 <= i < |rs| && rs[i] < |p.rows| && c in p.rows[rs[i]]
  }

  /** The rows rs hit each column outside cov exactly once and no column of cov. */
  ghost predicate Covers(p: Problem, cov: set<int>, rs: seq<nat>) {
    && (forall i :: 0 <= i < |rs| ==> Active(p, cov, rs[i]))
    && (forall c :: c in p.cols && c !in cov ==> exists i :: Hits(p, rs, i, c))
    && (forall c, i, j :: Hits(p, rs, i, c) && Hits(p, rs, j, c) ==> i == j)
  }

  ghost predicate Solvable(p: Problem, cov: set<int>) {
    exists rs :: Covers(p, cov, rs)
  }

  /** Nothing left to cover: the empty selection is a cover, and the only one up to rows that hit nothing. */
  lemma CoversNothing(p: Problem, cov: set<int>)
    requires p.cols <= cov
    ensures Covers(p, cov, [])
  {
  }

  /** Choosing row r first and then covering what is left covers everything. */
  lemma {:induction false} CoversExtend(p: Problem, cov: set<int>, r: nat, rs: seq<nat>)
    requires WellFormed(p) && Active(p, cov, r) && Covers(p, cov + p.rows[r], rs)
    ensures Covers(p, cov, [r] + rs)
  {
    var all := [r] + rs;
    forall c | c in p.cols && c !in cov ensures exists i :: Hits(p, all, i, c) {
      if c in p.rows[r] {
        assert Hits(p, all, 0, c);
      } else {
        var i :| Hits(p, rs, i, c);
        assert Hits(p, all, i + 1, c);
      }
    }
    forall c, i, j | Hits(p, all, i, c) && Hits(p, all, j, c) ensures i == j {
      if i > 0 { assert Hits(p, rs, i - 1, c); }
      if j > 0 { assert Hits(p, rs, j - 1, c); }
    }
  }

  /** Conversely, any cover contains exactly one row hitting c; take it out and the rest covers what is left. */
  lemma {:induction false} CoversSplit(p: Problem, cov: set<int>, c: int, rs: seq<nat>) returns (r: nat, rest: seq<nat>)
    requires WellFormed(p) && Covers(p, cov, rs) && c in p.cols && c !in cov
    ensures Active(p, cov, r) && c in p.rows[r] && Covers(p, cov + p.rows[r], rest)
  {
    var i :| Hits(p, rs, i, c);
    r, rest := rs[i], rs[..i] + rs[i + 1..];
    forall k | 0 <= k < |rest| ensures Active(p, cov + p.rows[r], rest[k]) {
      var k0 := if k < i then k else k + 1;
      assert rest[k] == rs[k0] && Active(p, cov, rs[k0]);
      forall x | x in p.rows[r] ensures x !in p.rows[rs[k0]] {
        assert Hits(p, rs, i, x);
        assert !Hits(p, rs, k0, x);
      }
    }
    forall x | x in p.cols && x !in cov + p.rows[r] ensures exists k :: Hits(p, rest, k, x) {
      var k0 :| Hits(p, rs, k0, x);
      assert k0 != i;
      assert Hits(p, rest, if k0 < i then k0 else k0 - 1, x);
    }
    forall x, j, k | Hits(p, rest, j, x) && Hits(p, rest, k, x) ensures j == k {
      assert Hits(p, rs, if j < i then j else j + 1, x);
      assert Hits(p, rs, if k < i then k else k + 1, x);
    }
  }

  /** The branching step of the search loses nothing and invents nothing, whichever uncovered column is chosen. */
  lemma Branch(p: Problem, cov: set<int>, c: int)
    requires WellFormed(p) && c in p.cols && c !in cov
    ensures Solvable(p, cov) <==>
            exists r :: Active(p, cov, r) && c in p.rows[r] && Solvable(p, cov + p.rows[r])
  {
    if Solvable(p, cov) {
      var rs :| Covers(p, cov, rs);
      var r, rest := CoversSplit(p, cov, c, rs);
    }
    if r :| Active(p, cov, r) && c in p.rows[r] && Solvable(p, cov + p.rows[r]) {
      var rs :| Covers(p, cov + p.rows[r], rs);
      CoversExtend(p, cov, r, rs);
    }
  }

  // ----- renaming columns -----

  function Image(cs: set<int>, f: map<int, int>): set<int> {
    set c | c in cs && c in f :: f[c]
  }

  ghost predicate Renaming(p: Problem, q: Problem, f: map<int, int>) {
    && WellFormed(p) && f.Keys == p.cols && |q.rows| == |p.rows|
    && (forall c, d :: c in f && d in f && f[c] == f[d] ==> c == d)
    && q.cols == Image(p.cols, f)
    && forall r :: 0 <= r < |p.rows| ==> q.rows[r] == Image(p.rows[r], f)
  }

  lemma RenameHits(p: Problem, q: Problem, f: map<int, int>, rs: seq<nat>, i: int, c: int)
    requires Renaming(p, q, f) && c in p.cols
    ensures Hits(p, rs, i, c) <==> Hits(q, rs, i, f[c])
  {
  }

  /** Exact covers do not depend on what the columns are called. */
  lemma {:induction false} RenameCovers(p: Problem, q: Problem, f: map<int, int>, rs: seq<nat>)
    requires Renaming(p, q, f)
    ensures Covers(p, {}, rs) <==> Covers(q, {}, rs)
  {
    forall i, c | c in p.cols ensures Hits(p, rs, i, c) <==> Hits(q, rs, i, f[c]) {
      RenameHits(p, q, f, rs, i, c);
    }
    if Covers(p, {}, rs) {
      forall d | d in q.cols ensures exists i :: Hits(q, rs, i, d) {
        var c :| c in p.cols && f[c] == d;
        var i :| Hits(p, rs, i, c);
        assert Hits(q, rs, i, f[c]);
      }
      forall d, i, j | Hits(q, rs, i, d) && Hits(q, rs, j, d) ensures i == j {
        var c :| c in p.rows[rs[i]] && c in f && f[c] == d;
        assert Hits(p, rs, i, c) && Hits(p, rs, j, c);
      }
      assert forall i :: 0 <= i < |rs| ==> Active(p, {}, rs[i]) ==> Active(q, {}, rs[i]);
    }
    if Covers(q, {}, rs) {
      forall c | c in p.cols ensures exists i :: Hits(p, rs, i, c) {
        assert f[c] in q.cols;
        var i :| Hits(q, rs, i, f[c]);
        assert Hits(p, rs, i, c);
      }
      forall c, i, j | Hits(p, rs, i, c) && Hits(p, rs, j, c) ensures i == j {
        assert Hits(q, rs, i, f[c]) && Hits(q, rs, j, f[c]);
      }
      assert forall i :: 0 <= i < |rs| ==> Active(q, {}, rs[i]) ==> Active(p, {}, rs[i]);
    }
  }

  lemma {:induction false} SubsetSize<T>(x: set<T>, y: set<T>)
    requires x <= y
    ensures |x| <= |y|
  {
    if x != {} {
      var e :| e in x;
      SubsetSize(x - {e}, y - {e});
    }
  }
}
