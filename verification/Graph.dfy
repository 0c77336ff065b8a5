/**
 Finite directed graphs given as a set of edges: walks, cycles and reachability.

 The one fact everything else rests on is `NoTrap`: in an acyclic graph no nonempty finite set
 of vertices can have an edge out of each member that stays inside the set.
 */
module Graph {

  type Edges<V(==)> = set<(V, V)>

  /** A walk visits at least one vertex and follows an edge at every step. */
  ghost predicate Walk<V>(edges: Edges<V>, path: seq<V>) {
    && |path| >= 1
    && forall i :: 0 <= i < |path| - 1 ==> (path[i], path[i + 1]) in edges
  }

  ghost predicate Acyclic<V(!new)>(edges: Edges<V>) {
    forall path: seq<V> :: Walk(edges, path) && |path| >= 2 ==> path[0] != path[|path| - 1]
  }

  /** `b` can be reached from `a` in zero or more steps. */
  ghost predicate Reaches<V(!new)>(edges: Edges<V>, a: V, b: V) {
    exists path: seq<V> :: Walk(edges, path) && path[0] == a && path[|path| - 1] == b
  }

  ghost function Reversed<V>(edges: Edges<V>): Edges<V> {
    set e | e in edges :: (e.1, e.0)
  }

  ghost function Backwards<V>(path: seq<V>): (r: seq<V>)
    ensures |r| == |path|
  {
    seq(|path|, i requires 0 <= i < |path| => path[|path| - 1 - i])
  }

  lemma ReachesSelf<V(!new)>(edges: Edges<V>, a: V)
    ensures Reaches(edges, a, a)
  {
    assert Walk(edges, [a]);
  }

  lemma ReachesThen<V(!new)>(edges: Edges<V>, a: V, b: V, c: V)
    requires Reaches(edges, a, b) && (b, c) in edges
    ensures Reaches(edges, a, c)
  {
    var path :| Walk(edges, path) && path[0] == a && path[|path| - 1] == b;
    assert Walk(edges, path + [c]);
  }

  lemma ThenReaches<V(!new)>(edges: Edges<V>, a: V, b: V, c: V)
    requires (a, b) in edges && Reaches(edges, b, c)
    ensures Reaches(edges, a, c)
  {
    var path :| Walk(edges, path) && path[0] == b && path[|path| - 1] == c;
    var longer := [a] + path;
    assert forall i :: 0 <= i < |longer| - 1 ==> (longer[i], longer[i + 1]) in edges;
    assert Walk(edges, longer);
  }

  lemma {:induction false} WalkBackwards<V>(edges: Edges<V>, path: seq<V>)
    requires Walk(Reversed(edges), path)
    ensures Walk(edges, Backwards(path))
  {
    var back := Backwards(path);
    forall i | 0 <= i < |back| - 1
      ensures (back[i], back[i + 1]) in edges
    {
      var j := |path| - 2 - i;
      assert (path[j], path[j + 1]) in Reversed(edges);
    }
  }

  lemma ReversedAcyclic<V(!new)>(edges: Edges<V>)
    requires Acyclic(edges)
    ensures Acyclic(Reversed(edges))
  {
    forall path: seq<V> | Walk(Reversed(edges), path) && |path| >= 2
      ensures path[0] != path[|path| - 1]
    {
      WalkBackwards(edges, path);
      assert Backwards(path)[0] == path[|path| - 1];
    }
  }

  /** Numbering the vertices so that every edge goes up rules out cycles. */
  lemma RankedIsAcyclic<V(!new)>(edges: Edges<V>, rank: map<V, int>)
    requires forall e <- edges :: e.0 in rank && e.1 in rank && rank[e.0] < rank[e.1]
    ensures Acyclic(edges)
  {
    forall path: seq<V> | Walk(edges, path) && |path| >= 2
      ensures path[0] != path[|path| - 1]
    {
      WalkClimbs(edges, rank, path);
    }
  }

  lemma {:induction false} WalkClimbs<V>(edges: Edges<V>, rank: map<V, int>, path: seq<V>)
    requires forall e <- edges :: e.0 in rank && e.1 in rank && rank[e.0] < rank[e.1]
    requires Walk(edges, path) && |path| >= 2
    ensures path[0] in rank && path[|path| - 1] in rank
    ensures rank[path[0]] < rank[path[|path| - 1]]
  {
    assert (path[0], path[1]) in edges;
    if |path| > 2 {
      WalkClimbs(edges, rank, path[1..]);
    }
  }

  /** From `v` some edge leads into `trap`. */
  ghost predicate CanStay<V>(edges: Edges<V>, trap: set<V>, v: V) {
    exists w :: w in trap && (v, w) in edges
  }

  ghost predicate Trap<V>(edges: Edges<V>, trap: set<V>) {
    forall v {:trigger CanStay(edges, trap, v)} :: v in trap ==> CanStay(edges, trap, v)
  }

  /** A walk of any length can be kept inside a trap. */
  lemma {:induction false} WalkInTrap<V>(edges: Edges<V>, trap: set<V>, start: V, steps: nat) returns (path: seq<V>)
    requires start in trap && Trap(edges, trap)
    ensures Walk(edges, path) && |path| == steps + 1
    ensures forall v <- path :: v in trap
  {
    if steps == 0 {
      path := [start];
    } else {
      var shorter := WalkInTrap(edges, trap, start, steps - 1);
      assert CanStay(edges, trap, shorter[|shorter| - 1]);
      var next :| next in trap && (shorter[|shorter| - 1], next) in edges;
      path := shorter + [next];
    }
  }

  /** Pigeonhole: a list longer than the set it draws from repeats a value. */
  lemma {:induction false} Repeats<V>(values: set<V>, list: seq<V>) returns (i: nat, j: nat)
    requires forall v <- list :: v in values
    requires |list| > |values|
    ensures i < j < |list| && list[i] == list[j]
    decreases |list|
  {
    var last := list[|list| - 1];
    var front := list[..|list| - 1];
    if k :| 0 <= k < |front| && front[k] == last {
      i, j := k, |list| - 1;
    } else {
      assert last in list;
      forall v | v in front
        ensures v in values - {last}
      {
        assert v in list;
      }
      i, j := Repeats(values - {last}, front);
    }
  }

  lemma NoTrap<V(!new)>(edges: Edges<V>, trap: set<V>)
    requires Acyclic(edges) && Trap(edges, trap)
    ensures trap == {}
  {
    if start :| start in trap {
      var path := WalkInTrap(edges, trap, start, |trap|);
      var i, j := Repeats(trap, path);
      var loop := path[i..j + 1];
      assert Walk(edges, loop) && |loop| >= 2;
      assert false;
    }
  }

  /** The same, for edges followed backwards. */
  lemma NoBackwardTrap<V(!new)>(edges: Edges<V>, trap: set<V>)
    requires Acyclic(edges)
    requires Trap(Reversed(edges), trap)
    ensures trap == {}
  {
    ReversedAcyclic(edges);
    NoTrap(Reversed(edges), trap);
  }
}
