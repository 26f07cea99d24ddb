/** Paths, reachability and strongly connected components of a graph. */
module Graphs {

  function Successors<T(==)>(g: map<T, seq<T>>, v: T): seq<T> {
    if v in g then g[v] else []
  }

  ghost predicate IsPath<T>(g: map<T, seq<T>>, p: seq<T>) {
    |p| > 0 && forall i, j :: 0 <= i && j == i + 1 < |p| ==> p[j] in Successors(g, p[i])
  }

  /** There is a (possibly empty) chain of edges from u to v. */
  ghost predicate Reach<T(!new)>(g: map<T, seq<T>>, u: T, v: T) {
    exists p :: IsPath(g, p) && p[0] == u && p[|p| - 1] == v
  }

  lemma ReachSelf<T(!new)>(g: map<T, seq<T>>, u: T)
    ensures Reach(g, u, u)
  {
    assert IsPath(g, [u]);
  }

  lemma ReachEdge<T(!new)>(g: map<T, seq<T>>, u: T, v: T)
    requires v in Successors(g, u)
    ensures Reach(g, u, v)
  {
    var p := [u, v];
    assert IsPath(g, p) && p[0] == u && p[|p| - 1] == v;
  }

  lemma ReachTrans<T(!new)>(g: map<T, seq<T>>, u: T, v: T, w: T)
    requires Reach(g, u, v) && Reach(g, v, w)
    ensures Reach(g, u, w)
  {
    var p :| IsPath(g, p) && p[0] == u && p[|p| - 1] == v;
    var q :| IsPath(g, q) && q[0] == v && q[|q| - 1] == w;
    var r := p + q[1..];
    assert IsPath(g, r) by {
      forall i, j | 0 <= i && j == i + 1 < |r| ensures r[j] in Successors(g, r[i]) {
        if j < |p| {
          assert r[i] == p[i] && r[j] == p[j];
        } else {
          assert r[i] == q[i - (|p| - 1)] && r[j] == q[j - (|p| - 1)];
        }
      }
    }
    assert r[0] == u && r[|r| - 1] == w;
  }

  /** s contains every successor of its members. */
  ghost predicate Closed<T(!new)>(g: map<T, seq<T>>, s: set<T>) {
    forall x, y :: x in s && y in Successors(g, x) ==> y in s
  }

  lemma ReachStaysInClosed<T(!new)>(g: map<T, seq<T>>, s: set<T>, u: T, v: T)
    requires Closed(g, s) && u in s && Reach(g, u, v)
    ensures v in s
  {
    var p :| IsPath(g, p) && p[0] == u && p[|p| - 1] == v;
    var i := 0;
    while i < |p| - 1
      invariant 0 <= i < |p| && p[i] in s
    {
      assert p[i + 1] in Successors(g, p[i]);
      i := i + 1;
    }
  }

  ghost predicate Distinct<T>(s: seq<T>) {
    forall i, j :: 0 <= i < j < |s| ==> s[i] != s[j]
  }

  /** u and v lie on a common cycle (or are equal). */
  ghost predicate SameClass<T(!new)>(g: map<T, seq<T>>, u: T, v: T) {
    Reach(g, u, v) && Reach(g, v, u)
  }

  /** c lists, without repetition, one whole strongly connected class. */
  ghost predicate IsComponent<T(!new)>(g: map<T, seq<T>>, c: seq<T>) {
    |c| > 0 && Distinct(c)
    && forall x, y {:trigger SameClass(g, x, y)} :: x in c ==> (y in c <==> SameClass(g, x, y))
  }

  /** All nodes that occur in some tuple. */
  ghost function Members<T>(result: seq<seq<T>>): set<T> {
    set i, x | 0 <= i < |result| && x in result[i] :: x
  }
}
