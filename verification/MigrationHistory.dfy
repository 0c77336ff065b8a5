/**
 The migration-order check: every revision distinct, every parent known, one root, no cycle.

 `HistoryHeads` is the worklist check of scripts/check_migration_order.py with its in-place
 counters; what it decides is stated with the graph of `ParentEdges`, which knows nothing
 about counters.
 */
module MigrationHistory {
  import opened Graph
  import opened Sequences

  type Revision = string

  datatype Down = NoParent | OneParent(parent: Revision) | ParentTuple(parents: seq<Revision>)

  datatype Migration = Migration(path: string, revision: Revision, down: Down)

  datatype Error =
    | DuplicateRevision(revision: Revision, firstPath: string, secondPath: string)
    | UnknownParent(path: string, parent: Revision)
    | RootCount(count: nat)
    | Cycle
    | HeadCount(heads: set<Revision>)

  datatype Result<+T> = Ok(value: T) | Err(error: Error)

  function Parents(m: Migration): seq<Revision> {
    match m.down
    case NoParent => []
    case OneParent(p) => [p]
    case ParentTuple(ps) => ps
  }

  // ---------------------------------------------------------------- what is checked

  ghost predicate Distinct(ms: seq<Migration>) {
    forall i, j :: 0 <= i < j < |ms| ==> ms[i].revision != ms[j].revision
  }

  ghost function Revisions(ms: seq<Migration>): set<Revision> {
    set m | m in ms :: m.revision
  }

  ghost predicate Known(ms: seq<Migration>) {
    forall m <- ms, p <- Parents(m) :: p in Revisions(ms)
  }

  ghost function Roots(ms: seq<Migration>): set<Revision> {
    set m | m in ms && Parents(m) == [] :: m.revision
  }

  /** One edge from each parent to the revision that names it. */
  ghost function ParentEdges(ms: seq<Migration>): Edges<Revision> {
    set m, p | m in ms && p in Parents(m) :: (p, m.revision)
  }

  ghost predicate Valid(ms: seq<Migration>) {
    Distinct(ms) && Known(ms) && |Roots(ms)| == 1 && Acyclic(ParentEdges(ms))
  }

  /** The revisions nobody names as a parent. */
  ghost function Heads(ms: seq<Migration>): set<Revision> {
    set r | r in Revisions(ms) && forall m <- ms :: r !in Parents(m)
  }

  // ---------------------------------------------------------------- counting parents

  /** How many entries of a parent list are still outside `visited`. */
  ghost function Unvisited(parents: seq<Revision>, visited: set<Revision>): nat {
    if parents == [] then 0
    else Unvisited(parents[1..], visited) + if parents[0] in visited then 0 else 1
  }

  lemma {:induction false} VisitOne(parents: seq<Revision>, visited: set<Revision>, r: Revision)
    requires r !in visited
    ensures Unvisited(parents, visited) == Unvisited(parents, visited + {r}) + multiset(parents)[r]
  {
    if parents != [] {
      assert parents == [parents[0]] + parents[1..];
      VisitOne(parents[1..], visited, r);
    }
  }

  lemma {:induction false} UnvisitedZero(parents: seq<Revision>, visited: set<Revision>)
    ensures Unvisited(parents, visited) == 0 <==> forall p <- parents :: p in visited
    ensures visited == {} ==> Unvisited(parents, visited) == |parents|
  {
    if parents != [] {
      assert parents == [parents[0]] + parents[1..];
      UnvisitedZero(parents[1..], visited);
    }
  }

  // ---------------------------------------------------------------- loop helpers

  lemma {:induction false} DistinctSize(ms: seq<Migration>)
    requires Distinct(ms)
    ensures |Revisions(ms)| == |ms|
  {
    if ms == [] {
      assert Revisions(ms) == {};
    } else {
      var front, last := ms[..|ms| - 1], ms[|ms| - 1];
      DistinctSize(front);
      assert ms == front + [last];
      assert Revisions(ms) == Revisions(front) + {last.revision};
    }
  }

  // ---------------------------------------------------------------- the three passes

  /** How often `child` is listed under `p`; an absent key is an empty list. */
  ghost function Entries(children: map<Revision, seq<Revision>>, p: Revision, child: Revision): nat {
    if p in children then multiset(children[p])[child] else 0
  }

  ghost function Named(ms: seq<Migration>): set<Revision> {
    set m, p | m in ms && p in Parents(m) :: p
  }

  /** `children` holds one entry under a parent for each time a member of `ms` names it. */
  ghost predicate ListsChildren(ms: seq<Migration>, children: map<Revision, seq<Revision>>) {
    && (forall p, m :: m in ms ==> Entries(children, p, m.revision) == multiset(Parents(m))[p])
    && (forall p, c :: c !in Revisions(ms) ==> Entries(children, p, c) == 0)
    && children.Keys == Named(ms)
  }

  method IndexRevisions(ms: seq<Migration>) returns (r: Result<map<Revision, Migration>>)
    ensures r.Ok? <==> Distinct(ms)
    ensures r.Ok? ==> r.value.Keys == Revisions(ms) && forall m <- ms :: r.value[m.revision] == m
    ensures r.Err? ==> r.error.DuplicateRevision?
  {
    var byRevision: map<Revision, Migration> := map[];
    for i := 0 to |ms|
      invariant byRevision.Keys == Revisions(ms[..i])
      invariant forall k :: 0 <= k < i ==> byRevision[ms[k].revision] == ms[k]
      invariant Distinct(ms[..i])
    {
      var m := ms[i];
      assert ms[..i + 1] == ms[..i] + [m];
      if m.revision in byRevision {
        assert exists j :: 0 <= j < i && ms[j].revision == m.revision;
        return Err(DuplicateRevision(m.revision, byRevision[m.revision].path, m.path));
      }
      byRevision := byRevision[m.revision := m];
    }
    assert ms[..|ms|] == ms;
    r := Ok(byRevision);
  }

  /** List one migration under each parent it names. */
  method ListUnderParents(m: Migration, known: map<Revision, Migration>, before: map<Revision, seq<Revision>>)
    returns (r: Result<map<Revision, seq<Revision>>>)
    ensures r.Ok? <==> forall p <- Parents(m) :: p in known
    ensures r.Ok? ==> r.value.Keys == before.Keys + Elements(Parents(m))
    ensures r.Ok? ==> forall p, c ::
      Entries(r.value, p, c) == Entries(before, p, c) + if c == m.revision then multiset(Parents(m))[p] else 0
    ensures r.Err? ==> r.error.UnknownParent?
  {
    var children, parents := before, Parents(m);
    for j := 0 to |parents|
      invariant forall k :: 0 <= k < j ==> parents[k] in known
      invariant children.Keys == before.Keys + Elements(parents[..j])
      invariant forall p, c ::
        Entries(children, p, c) == Entries(before, p, c) + if c == m.revision then multiset(parents[..j])[p] else 0
    {
      var parent := parents[j];
      if parent !in known {
        return Err(UnknownParent(m.path, parent));
      }
      assert parents[..j + 1] == parents[..j] + [parent];
      var listed := if parent in children then children[parent] else [];
      children := children[parent := listed + [m.revision]];
    }
    assert parents[..|parents|] == parents;
    r := Ok(children);
  }

  lemma PrefixStep(ms: seq<Migration>, i: nat)
    requires i < |ms| && Distinct(ms)
    ensures ms[..i + 1] == ms[..i] + [ms[i]]
    ensures Roots(ms[..i + 1]) == Roots(ms[..i]) + if Parents(ms[i]) == [] then {ms[i].revision} else {}
    ensures Revisions(ms[..i + 1]) == Revisions(ms[..i]) + {ms[i].revision}
    ensures Named(ms[..i + 1]) == Named(ms[..i]) + Elements(Parents(ms[i]))
    ensures ms[i].revision !in Revisions(ms[..i]) && ms[i].revision !in Roots(ms[..i])
  {
    assert ms[..i + 1] == ms[..i] + [ms[i]];
  }

  lemma ListsOneMore(ms: seq<Migration>, i: nat,
                     before: map<Revision, seq<Revision>>, after: map<Revision, seq<Revision>>)
    requires i < |ms| && Distinct(ms) && ListsChildren(ms[..i], before)
    requires after.Keys == before.Keys + Elements(Parents(ms[i]))
    requires forall p, c ::
      Entries(after, p, c) == Entries(before, p, c) + if c == ms[i].revision then multiset(Parents(ms[i]))[p] else 0
    ensures ListsChildren(ms[..i + 1], after)
  {
    PrefixStep(ms, i);
    forall p, m | m in ms[..i + 1]
      ensures Entries(after, p, m.revision) == multiset(Parents(m))[p]
    {
      assert m == ms[i] || m in ms[..i];
    }
  }

  method CollectChildren(ms: seq<Migration>, known: map<Revision, Migration>)
    returns (r: Result<(map<Revision, seq<Revision>>, seq<Revision>)>)
    requires Distinct(ms) && known.Keys == Revisions(ms)
    ensures r.Ok? <==> Known(ms)
    ensures r.Ok? ==> ListsChildren(ms, r.value.0)
    ensures r.Ok? ==> NoRepeats(r.value.1) && Elements(r.value.1) == Roots(ms)
    ensures r.Err? ==> r.error.UnknownParent?
  {
    var children: map<Revision, seq<Revision>> := map[];
    var roots: seq<Revision> := [];
    for i := 0 to |ms|
      invariant forall k :: 0 <= k < i ==> forall p <- Parents(ms[k]) :: p in known
      invariant NoRepeats(roots) && Elements(roots) == Roots(ms[..i])
      invariant ListsChildren(ms[..i], children)
    {
      PrefixStep(ms, i);
      if Parents(ms[i]) == [] {
        assert ms[i].revision !in Elements(roots);
        assert Elements(roots + [ms[i].revision]) == Elements(roots) + {ms[i].revision};
        roots := roots + [ms[i].revision];
        ListsOneMore(ms, i, children, children);
      } else {
        var listed := ListUnderParents(ms[i], known, children);
        if listed.Err? {
          assert ms[i] in ms;
          return Err(listed.error);
        }
        ListsOneMore(ms, i, children, listed.value);
        children := listed.value;
      }
    }
    assert ms[..|ms|] == ms;
    r := Ok((children, roots));
  }

  /** Every counter is the number of its revision's parents still unvisited. */
  ghost predicate Counts(ms: seq<Migration>, remaining: map<Revision, nat>, visited: set<Revision>) {
    && remaining.Keys == Revisions(ms)
    && forall m <- ms :: remaining[m.revision] == Unvisited(Parents(m), visited)
  }

  /** `order` lists revisions once each, every one after all of its parents. */
  ghost predicate Topological(ms: seq<Migration>, order: seq<Revision>) {
    && NoRepeats(order)
    && Elements(order) <= Revisions(ms)
    && forall m <- ms, i :: 0 <= i < |order| && order[i] == m.revision ==> forall p <- Parents(m) :: p in order[..i]
  }

  lemma TakeOneMore(listed: seq<Revision>, k: nat)
    requires k < |listed|
    ensures multiset(listed[..k + 1]) == multiset(listed[..k]) + multiset{listed[k]}
    ensures multiset(listed[..k])[listed[k]] < multiset(listed)[listed[k]]
  {
    assert listed[..k + 1] == listed[..k] + [listed[k]];
    assert listed == listed[..k] + [listed[k]] + listed[k + 1..];
  }

  /** The worklist holds, once each, the revisions whose counter is zero and that are not done. */
  ghost predicate Queued(remaining: map<Revision, nat>, done: set<Revision>, ready: seq<Revision>) {
    && NoRepeats(ready)
    && (forall r <- ready :: r in remaining && r !in done)
    && (forall r <- remaining :: remaining[r] == 0 <==> r in done || r in ready)
  }

  /** Decrement the counter of every listed child, queueing those that reach zero. */
  method DecrementListed(listed: seq<Revision>, before: map<Revision, nat>,
                         waiting: seq<Revision>, ghost done: set<Revision>)
    returns (remaining: map<Revision, nat>, ready: seq<Revision>)
    requires Queued(before, done, waiting)
    requires forall c <- listed :: c in before
    requires forall r <- before :: multiset(listed)[r] <= before[r]
    ensures remaining.Keys == before.Keys
    ensures forall r <- before :: remaining[r] == before[r] - multiset(listed)[r]
    ensures Queued(remaining, done, ready)
  {
    remaining, ready := before, waiting;
    for k := 0 to |listed|
      invariant remaining.Keys == before.Keys
      invariant forall r <- before :: remaining[r] + multiset(listed[..k])[r] == before[r]
      invariant Queued(remaining, done, ready)
    {
      var child := listed[k];
      TakeOneMore(listed, k);
      remaining := remaining[child := remaining[child] - 1];
      if remaining[child] == 0 {
        ready := ready + [child];
      }
    }
    assert listed[..|listed|] == listed;
  }

  function Listed(children: map<Revision, seq<Revision>>, r: Revision): seq<Revision> {
    if r in children then children[r] else []
  }

  /** Visiting `current` lowers each counter by the entries `current` has for it. */
  lemma CountsAfterVisit(ms: seq<Migration>, children: map<Revision, seq<Revision>>, current: Revision,
                         before: map<Revision, nat>, visited: set<Revision>)
    requires Distinct(ms) && Counts(ms, before, visited) && ListsChildren(ms, children) && current !in visited
    ensures forall c <- Listed(children, current) :: c in before
    ensures forall m <- ms ::
      before[m.revision] == Unvisited(Parents(m), visited + {current}) + multiset(Listed(children, current))[m.revision]
    ensures forall r <- before :: multiset(Listed(children, current))[r] <= before[r]
  {
    forall m | m in ms
      ensures before[m.revision] == Unvisited(Parents(m), visited + {current}) + Entries(children, current, m.revision)
    {
      VisitOne(Parents(m), visited, current);
    }
    forall c | c in Listed(children, current)
      ensures c in before
    {
      assert Entries(children, current, c) > 0;
    }
  }

  lemma PopLast(remaining: map<Revision, nat>, done: set<Revision>, waiting: seq<Revision>, current: Revision)
    requires Queued(remaining, done, waiting + [current])
    ensures Queued(remaining, done + {current}, waiting)
  {
    var ready := waiting + [current];
    forall i, j | 0 <= i < j <= |waiting|
      ensures ready[i] != ready[j]
    {
    }
    assert forall i :: 0 <= i < |waiting| ==> waiting[i] == ready[i];
    assert ready[|waiting|] == current;
    forall r | r in waiting
      ensures r in remaining && r !in done + {current}
    {
      assert r in ready;
    }
  }

  /** One pop of the worklist: visit a queued revision and settle its children's counters. */
  method VisitOneRevision(ms: seq<Migration>, children: map<Revision, seq<Revision>>, current: Revision,
                          waiting: seq<Revision>, before: map<Revision, nat>, ghost visited: set<Revision>)
    returns (remaining: map<Revision, nat>, ready: seq<Revision>)
    requires Distinct(ms) && ListsChildren(ms, children)
    requires Counts(ms, before, visited) && Queued(before, visited, waiting + [current])
    ensures Counts(ms, remaining, visited + {current})
    ensures Queued(remaining, visited + {current}, ready)
  {
    assert (waiting + [current])[|waiting|] == current;
    CountsAfterVisit(ms, children, current, before, visited);
    PopLast(before, visited, waiting, current);
    assert Queued(before, visited + {current}, waiting);
    remaining, ready := DecrementListed(Listed(children, current), before, waiting, visited + {current});
  }

  lemma TopologicalStep(ms: seq<Migration>, order: seq<Revision>, remaining: map<Revision, nat>, current: Revision)
    requires Distinct(ms) && Topological(ms, order) && Counts(ms, remaining, Elements(order))
    requires current in remaining && remaining[current] == 0 && current !in order
    ensures Topological(ms, order + [current]) && Elements(order + [current]) == Elements(order) + {current}
  {
    var longer := order + [current];
    forall m, i | m in ms && 0 <= i < |longer| && longer[i] == m.revision
      ensures forall p <- Parents(m) :: p in longer[..i]
    {
      if i < |order| {
        assert longer[..i] == order[..i];
      } else {
        UnvisitedZero(Parents(m), Elements(order));
        assert longer[..i] == order;
      }
    }
  }

  /** The worklist pass. */
  method VisitAll(ms: seq<Migration>, children: map<Revision, seq<Revision>>, roots: seq<Revision>,
                  known: map<Revision, Migration>)
    returns (visited: set<Revision>, ghost order: seq<Revision>)
    requires Distinct(ms) && Known(ms) && ListsChildren(ms, children)
    requires known.Keys == Revisions(ms) && forall m <- ms :: known[m.revision] == m
    requires NoRepeats(roots) && Elements(roots) == Roots(ms)
    ensures Topological(ms, order) && Elements(order) == visited
    ensures forall m <- ms :: m.revision in visited || exists p :: p in Parents(m) && p !in visited
  {
    visited, order := {}, [];
    var ready := roots;
    var remaining: map<Revision, nat> := map r | r in known :: |Parents(known[r])|;
    InitialCounts(ms, known, remaining, roots);
    while ready != []
      invariant Topological(ms, order) && Elements(order) == visited
      invariant Counts(ms, remaining, visited) && visited <= Revisions(ms)
      invariant Queued(remaining, visited, ready)
      decreases Revisions(ms) - visited
    {
      var current := ready[|ready| - 1];
      var waiting := ready[..|ready| - 1];
      assert ready == waiting + [current];
      TopologicalStep(ms, order, remaining, current);
      remaining, ready := VisitOneRevision(ms, children, current, waiting, remaining, visited);
      visited, order := visited + {current}, order + [current];
    }
    forall m | m in ms && m.revision !in visited
      ensures exists p :: p in Parents(m) && p !in visited
    {
      UnvisitedZero(Parents(m), visited);
    }
  }

  lemma InitialCounts(ms: seq<Migration>, known: map<Revision, Migration>,
                      remaining: map<Revision, nat>, roots: seq<Revision>)
    requires Distinct(ms) && known.Keys == Revisions(ms) && forall m <- ms :: known[m.revision] == m
    requires remaining == map r | r in known :: |Parents(known[r])|
    requires NoRepeats(roots) && Elements(roots) == Roots(ms)
    ensures Counts(ms, remaining, {}) && Queued(remaining, {}, roots)
  {
    forall m | m in ms
      ensures remaining[m.revision] == Unvisited(Parents(m), {})
    {
      UnvisitedZero(Parents(m), {});
    }
    forall r | r in remaining
      ensures remaining[r] == 0 <==> r in roots
    {
      var m :| m in ms && m.revision == r;
      assert r in roots <==> r in Elements(roots);
    }
    forall r | r in roots
      ensures r in remaining
    {
      assert r in Elements(roots);
    }
  }

  // ---------------------------------------------------------------- the check itself

  /** A topological order of every revision rules out cycles. */
  lemma OrderedIsAcyclic(ms: seq<Migration>, order: seq<Revision>)
    requires Distinct(ms) && Known(ms) && Topological(ms, order) && Elements(order) == Revisions(ms)
    ensures Acyclic(ParentEdges(ms))
  {
    var rank: map<Revision, int> := map r | r in Elements(order) :: Position(order, r);
    forall e | e in ParentEdges(ms)
      ensures e.0 in rank && e.1 in rank && rank[e.0] < rank[e.1]
    {
      var m :| m in ms && e.0 in Parents(m) && e.1 == m.revision;
      assert m.revision in Elements(order);
      var i := Position(order, m.revision);
      assert e.0 in order[..i];
    }
    RankedIsAcyclic(ParentEdges(ms), rank);
  }

  ghost function Position(order: seq<Revision>, r: Revision): (i: nat)
    requires r in order
    ensures i < |order| && order[i] == r
    ensures forall j :: 0 <= j < |order| && order[j] == r && NoRepeats(order) ==> i == j
  {
    var i :| 0 <= i < |order| && order[i] == r;
    i
  }

  /** If every unvisited revision waits for an unvisited parent, an acyclic history leaves none. */
  lemma AcyclicIsVisited(ms: seq<Migration>, visited: set<Revision>)
    requires Known(ms) && Acyclic(ParentEdges(ms))
    requires forall m <- ms :: m.revision in visited || exists p :: p in Parents(m) && p !in visited
    ensures Revisions(ms) <= visited
  {
    var stuck := Revisions(ms) - visited;
    forall r | r in stuck
      ensures CanStay(Reversed(ParentEdges(ms)), stuck, r)
    {
      var m :| m in ms && m.revision == r;
      var p :| p in Parents(m) && p !in visited;
      assert (p, r) in ParentEdges(ms);
      assert (r, p) in Reversed(ParentEdges(ms));
    }
    NoBackwardTrap(ParentEdges(ms), stuck);
    assert forall r :: r in Revisions(ms) && r !in visited ==> r in stuck;
  }

  /** Accept exactly the valid histories and return their heads, or name the first fault found. */
  method HistoryHeads(ms: seq<Migration>) returns (r: Result<set<Revision>>)
    ensures r.Ok? <==> Valid(ms)
    ensures r.Ok? ==> r.value == Heads(ms)
    ensures r.Err? ==> (r.error.DuplicateRevision? <==> !Distinct(ms))
    ensures r.Err? ==> (r.error.UnknownParent? <==> Distinct(ms) && !Known(ms))
    ensures r.Err? ==> (r.error.RootCount? <==> Distinct(ms) && Known(ms) && |Roots(ms)| != 1)
    ensures r.Err? ==> (r.error.Cycle? <==>
      Distinct(ms) && Known(ms) && |Roots(ms)| == 1 && !Acyclic(ParentEdges(ms)))
    ensures r.Err? && r.error.RootCount? ==> r.error.count == |Roots(ms)|
  {
    var index := IndexRevisions(ms);
    if index.Err? {
      return Err(index.error);
    }
    var byRevision := index.value;
    var collected := CollectChildren(ms, byRevision);
    if collected.Err? {
      return Err(collected.error);
    }
    var (children, roots) := collected.value;
    ElementsSize(roots);
    if |roots| != 1 {
      return Err(RootCount(|roots|));
    }
    var visited; ghost var order;
    visited, order := VisitAll(ms, children, roots, byRevision);
    DistinctSize(ms);
    SubsetSize(visited, Revisions(ms));
    if Acyclic(ParentEdges(ms)) {
      AcyclicIsVisited(ms, visited);
    }
    if |visited| != |ms| {
      return Err(Cycle);
    }
    OrderedIsAcyclic(ms, order);
    r := Ok(byRevision.Keys - children.Keys);
    assert byRevision.Keys - children.Keys == Heads(ms);
  }

  method ValidateLinearHistory(ms: seq<Migration>) returns (r: Result<Revision>)
    ensures r.Ok? <==> Valid(ms) && |Heads(ms)| == 1
    ensures r.Ok? ==> Heads(ms) == {r.value}
    ensures r.Err? ==> (r.error.HeadCount? <==> Valid(ms))
    ensures r.Err? && Valid(ms) ==> r.error == HeadCount(Heads(ms))
  {
    var heads := HistoryHeads(ms);
    if heads.Err? {
      return Err(heads.error);
    }
    if |heads.value| != 1 {
      return Err(HeadCount(heads.value));
    }
    var head :| head in heads.value;
    SubsetSize({head}, heads.value);
    r := Ok(head);
  }

  // ---------------------------------------------------------------- what acceptance means

  ghost predicate Ancestor(ms: seq<Migration>, a: Revision, b: Revision) {
    Reaches(ParentEdges(ms), a, b)
  }

  /** Every revision of a valid history descends from its root. */
  lemma DescendsFromRoot(ms: seq<Migration>, root: Revision, r: Revision)
    requires Valid(ms) && root in Roots(ms) && r in Revisions(ms)
    ensures Ancestor(ms, root, r)
  {
    var edges := ParentEdges(ms);
    var lost := set x | x in Revisions(ms) && !Ancestor(ms, root, x);
    SubsetSize({root}, Roots(ms));
    forall x | x in lost
      ensures CanStay(Reversed(edges), lost, x)
    {
      var m :| m in ms && m.revision == x;
      if Parents(m) == [] {
        assert x in Roots(ms);
        ReachesSelf(edges, root);
        assert false;
      }
      var p := Parents(m)[0];
      assert (p, x) in edges;
      if Reaches(edges, root, p) {
        ReachesThen(edges, root, p, x);
        assert false;
      }
      assert (x, p) in Reversed(edges);
    }
    NoBackwardTrap(edges, lost);
    assert r !in lost;
  }

  /** With a single head, every revision is an ancestor of it. */
  lemma AncestorOfHead(ms: seq<Migration>, head: Revision, r: Revision)
    requires Valid(ms) && Heads(ms) == {head} && r in Revisions(ms)
    ensures Ancestor(ms, r, head)
  {
    var edges := ParentEdges(ms);
    var lost := set x | x in Revisions(ms) && !Ancestor(ms, x, head);
    forall x | x in lost
      ensures CanStay(edges, lost, x)
    {
      ReachesSelf(edges, head);
      assert x !in Heads(ms);
      var m :| m in ms && x in Parents(m);
      assert (x, m.revision) in edges;
      if Reaches(edges, m.revision, head) {
        ThenReaches(edges, x, m.revision, head);
        assert false;
      }
      assert m.revision in lost;
    }
    NoTrap(edges, lost);
    assert r !in lost;
  }
}
