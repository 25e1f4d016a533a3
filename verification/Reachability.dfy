/** Reachability in a finite graph along paths all of whose nodes pass a filter. */
module Reachability {
  ghost predicate Edge<T>(edges: map<T, set<T>>, older s: T, older t: T) {
    s in edges && t in edges[s]
  }

  /** A path from a start node: every node on it passes, and each has an edge to the next. */
  ghost predicate Path<T>(older path: seq<T>, edges: map<T, set<T>>, starts: set<T>, pass: set<T>)
    decreases |path|
  {
    && path != []
    && var n := |path| - 1;
    && path[n] in pass
    && if n == 0 then path[0] in starts else Path(path[..n], edges, starts, pass) && Edge(edges, path[n - 1], path[n])
  }

  ghost predicate Reached<T>(s: T, edges: map<T, set<T>>, starts: set<T>, pass: set<T>) {
    exists path :: Path(path, edges, starts, pass) && path[|path| - 1] == s
  }

  /** s holds every passing start, and every passing successor of its nodes. */
  ghost predicate Closed<T>(s: set<T>, edges: map<T, set<T>>, starts: set<T>, pass: set<T>) {
    && (forall e | e in starts && e in pass :: e in s)
    && (forall x, y | x in s && Edge(edges, x, y) && y in pass :: y in s)
  }

  lemma StartReached<T>(e: T, edges: map<T, set<T>>, starts: set<T>, pass: set<T>)
    requires e in starts && e in pass
    ensures Reached(e, edges, starts, pass)
  {
    assert Path([e], edges, starts, pass) && [e][0] == e;
  }

  lemma StepReached<T>(s: T, t: T, edges: map<T, set<T>>, starts: set<T>, pass: set<T>)
    requires Reached(s, edges, starts, pass) && Edge(edges, s, t) && t in pass
    ensures Reached(t, edges, starts, pass)
  {
    var path :| Path(path, edges, starts, pass) && path[|path| - 1] == s;
    var longer := path + [t];
    assert longer[..|path|] == path;
    assert Path(longer, edges, starts, pass) && longer[|longer| - 1] == t;
  }

  lemma {:induction false} PathStaysIn<T>(path: seq<T>, s: set<T>, edges: map<T, set<T>>, starts: set<T>, pass: set<T>)
    requires Path(path, edges, starts, pass) && Closed(s, edges, starts, pass)
    ensures path[|path| - 1] in s
    decreases |path|
  {
    var n := |path| - 1;
    if n > 0 {
      PathStaysIn(path[..n], s, edges, starts, pass);
    }
  }

  /** A closed set of reached nodes is the set of reached nodes. */
  lemma ClosedIsReached<T>(s: set<T>, edges: map<T, set<T>>, starts: set<T>, pass: set<T>)
    requires Closed(s, edges, starts, pass)
    requires forall x | x in s :: Reached(x, edges, starts, pass)
    ensures forall x :: x in s <==> Reached(x, edges, starts, pass)
  {
    forall x | Reached(x, edges, starts, pass) ensures x in s {
      var path :| Path(path, edges, starts, pass) && path[|path| - 1] == x;
      PathStaysIn(path, s, edges, starts, pass);
    }
  }

  /** The reached nodes only depend on the edges that leave reached nodes. */
  lemma SameReached<T>(x: T, edges: map<T, set<T>>, other: map<T, set<T>>, starts: set<T>, pass: set<T>)
    requires Reached(x, edges, starts, pass)
    requires forall s, t | Reached(s, edges, starts, pass) && Edge(edges, s, t) :: Edge(other, s, t)
    ensures Reached(x, other, starts, pass)
  {
    var path :| Path(path, edges, starts, pass) && path[|path| - 1] == x;
    SamePath(path, edges, other, starts, pass);
  }

  lemma {:induction false} SamePath<T>(path: seq<T>, edges: map<T, set<T>>, other: map<T, set<T>>, starts: set<T>,
                                       pass: set<T>)
    requires Path(path, edges, starts, pass)
    requires forall s, t | Reached(s, edges, starts, pass) && Edge(edges, s, t) :: Edge(other, s, t)
    ensures Path(path, other, starts, pass)
    decreases |path|
  {
    var n := |path| - 1;
    if n > 0 {
      SamePath(path[..n], edges, other, starts, pass);
      assert path[..n][n - 1] == path[n - 1];
      assert Reached(path[n - 1], edges, starts, pass);
    }
  }
}
