/**
 Merging a branch into its base: the union of two migration directories, and what a branch
 may add when the merge result must keep a single head.
 */
module BranchMerge {
  import opened Graph
  import opened MigrationHistory
  import opened Sequences
  import Lexicographic

  /** A directory read into a dictionary by path; a later entry replaces an earlier one. */
  ghost function ByPath(ms: seq<Migration>): map<string, Migration> {
    if ms == [] then map[]
    else ByPath(ms[..|ms| - 1])[ms[|ms| - 1].path := ms[|ms| - 1]]
  }

  ghost predicate PathSorted(ms: seq<Migration>) {
    forall i, j :: 0 <= i < j < |ms| ==> Lexicographic.Less(ms[i].path, ms[j].path)
  }

  /** `merged` is the dictionary of `head` updated by that of `base`, listed in path order. */
  ghost predicate IsMerge(base: seq<Migration>, head: seq<Migration>, merged: seq<Migration>) {
    PathSorted(merged) && Lists(merged, ByPath(head) + ByPath(base))
  }

  ghost predicate Lists(ms: seq<Migration>, byPath: map<string, Migration>) {
    && (forall m <- ms :: m.path in byPath && byPath[m.path] == m)
    && (forall p <- byPath :: byPath[p] in ms)
  }

  lemma {:induction false} PathsAreKeys(ms: seq<Migration>)
    ensures forall p <- ByPath(ms) :: ByPath(ms)[p] in ms && ByPath(ms)[p].path == p
    ensures forall m <- ms :: m.path in ByPath(ms)
  {
    if ms != [] {
      PathsAreKeys(ms[..|ms| - 1]);
      assert ms == ms[..|ms| - 1] + [ms[|ms| - 1]];
    }
  }

  /** `dict.update` with one directory. */
  method UpdateByPath(before: map<string, Migration>, ms: seq<Migration>) returns (byPath: map<string, Migration>)
    ensures byPath == before + ByPath(ms)
  {
    byPath := before;
    for i := 0 to |ms|
      invariant byPath == before + ByPath(ms[..i])
    {
      assert ms[..i + 1][..i] == ms[..i];
      byPath := byPath[ms[i].path := ms[i]];
    }
    assert ms[..|ms|] == ms;
  }

  method ListInPathOrder(byPath: map<string, Migration>) returns (listing: seq<Migration>)
    requires forall p <- byPath :: byPath[p].path == p
    ensures PathSorted(listing) && Lists(listing, byPath)
  {
    listing := [];
    var pending := byPath.Keys;
    while pending != {}
      invariant pending <= byPath.Keys
      invariant forall m <- listing :: m.path in byPath && byPath[m.path] == m
      invariant forall p <- byPath :: p in pending || byPath[p] in listing
      invariant PathSorted(listing)
      invariant forall i, p :: 0 <= i < |listing| && p in pending ==> Lexicographic.Less(listing[i].path, p)
      decreases |pending|
    {
      var first := FirstPath(pending);
      listing, pending := listing + [byPath[first]], pending - {first};
    }
  }

  method MergeResult(base: seq<Migration>, head: seq<Migration>) returns (merged: seq<Migration>)
    ensures IsMerge(base, head, merged)
  {
    var byPath := UpdateByPath(map[], head);
    assert byPath == ByPath(head);
    byPath := UpdateByPath(byPath, base);
    PathsAreKeys(head);
    PathsAreKeys(base);
    merged := ListInPathOrder(byPath);
  }

  method FirstPath(paths: set<string>) returns (p: string)
    requires paths != {}
    ensures Lexicographic.Least(paths, p)
  {
    ghost var least := Lexicographic.HasLeast(paths);
    p :| p in paths && forall q <- paths :: q == p || Lexicographic.Less(p, q);
  }

  // ---------------------------------------------------------------- union and symmetry

  ghost predicate DistinctPaths(ms: seq<Migration>) {
    forall i, j :: 0 <= i < j < |ms| ==> ms[i].path != ms[j].path
  }

  ghost predicate SharedPathsAgree(a: seq<Migration>, b: seq<Migration>) {
    forall m <- a, n <- b :: m.path == n.path ==> m == n
  }

  lemma {:induction false} DistinctPathsKeepAll(ms: seq<Migration>)
    requires DistinctPaths(ms)
    ensures forall m <- ms :: m.path in ByPath(ms) && ByPath(ms)[m.path] == m
  {
    if ms != [] {
      var front, last := ms[..|ms| - 1], ms[|ms| - 1];
      DistinctPathsKeepAll(front);
      forall m | m in ms
        ensures m.path in ByPath(ms) && ByPath(ms)[m.path] == m
      {
        var i :| 0 <= i < |ms| && ms[i] == m;
        assert i < |front| ==> m in front;
      }
    }
  }

  /** Nothing is lost and nothing is invented. */
  lemma MergeIsUnion(base: seq<Migration>, head: seq<Migration>, merged: seq<Migration>)
    requires DistinctPaths(base) && DistinctPaths(head) && SharedPathsAgree(base, head)
    requires IsMerge(base, head, merged)
    ensures Elements(merged) == Elements(base) + Elements(head)
  {
    PathsAreKeys(head);
    PathsAreKeys(base);
    DistinctPathsKeepAll(head);
    DistinctPathsKeepAll(base);
    var byPath := ByPath(head) + ByPath(base);
    forall m | m in base || m in head
      ensures m in merged
    {
      assert m.path in byPath;
      assert byPath[m.path] == m;
    }
  }

  /** A set of files has only one listing in path order. */
  lemma {:induction false} SortedListingUnique(a: seq<Migration>, b: seq<Migration>)
    requires PathSorted(a) && PathSorted(b) && Elements(a) == Elements(b)
    ensures a == b
  {
    assert a != [] ==> a[0] in Elements(a);
    assert b != [] ==> b[0] in Elements(b);
    if a != [] {
      var i :| 0 <= i < |a| && a[i] == b[0];
      var j :| 0 <= j < |b| && b[j] == a[0];
      if i > 0 {
        if j > 0 {
          Lexicographic.Asymmetric(a[0].path, b[0].path);
        }
        Lexicographic.Irreflexive(a[0].path);
      }
      assert a[0] == b[0];
      TailElements(a);
      TailElements(b);
      SortedListingUnique(a[1..], b[1..]);
      assert a == [a[0]] + a[1..] && b == [b[0]] + b[1..];
    }
  }

  lemma TailElements(a: seq<Migration>)
    requires a != [] && PathSorted(a)
    ensures Elements(a[1..]) == Elements(a) - {a[0]}
  {
    assert a == [a[0]] + a[1..];
    forall i | 1 <= i < |a|
      ensures a[i] != a[0]
    {
      Lexicographic.Irreflexive(a[0].path);
    }
  }

  /** It does not matter which side is called the base. */
  lemma MergeSymmetric(base: seq<Migration>, head: seq<Migration>, one: seq<Migration>, other: seq<Migration>)
    requires DistinctPaths(base) && DistinctPaths(head) && SharedPathsAgree(base, head)
    requires IsMerge(base, head, one) && IsMerge(head, base, other)
    ensures one == other
  {
    MergeIsUnion(base, head, one);
    MergeIsUnion(head, base, other);
    SortedListingUnique(one, other);
  }

  // ---------------------------------------------------------------- what a branch may add

  /** A base with one head `baseHead`, extended to a merge result with one head `mergedHead`. */
  ghost predicate Accepted(base: seq<Migration>, merged: seq<Migration>, baseHead: Revision, mergedHead: Revision) {
    && Valid(base) && Heads(base) == {baseHead}
    && Valid(merged) && Heads(merged) == {mergedHead}
    && Elements(base) <= Elements(merged)
  }

  ghost function Added(base: seq<Migration>, merged: seq<Migration>): set<Migration> {
    Elements(merged) - Elements(base)
  }

  /** Each link's only parent is the link before it, and the first link's is `from`. */
  ghost predicate Chain(links: seq<Migration>, from: Revision) {
    forall i {:trigger Link(links, from, i)} :: 0 <= i < |links| ==> Link(links, from, i)
  }

  ghost predicate Link(links: seq<Migration>, from: Revision, i: nat)
    requires i < |links|
  {
    Parents(links[i]) == [Before(links, from, i)]
  }

  ghost function Before(links: seq<Migration>, from: Revision, i: nat): Revision
    requires i <= |links|
  {
    if i == 0 then from else links[i - 1].revision
  }

  ghost predicate NoMergeRevisions(added: set<Migration>) {
    forall m <- added :: |Parents(m)| <= 1
  }

  lemma SameRevision(ms: seq<Migration>, m: Migration, n: Migration)
    requires Distinct(ms) && m in ms && n in ms && m.revision == n.revision
    ensures m == n
  {
    var i :| 0 <= i < |ms| && ms[i] == m;
    var j :| 0 <= j < |ms| && ms[j] == n;
    assert i == j;
  }

  /** An added revision is new, and only added migrations build on it. */
  lemma AddedIsNew(base: seq<Migration>, merged: seq<Migration>, h: Revision, H: Revision, m: Migration, n: Migration)
    requires Accepted(base, merged, h, H) && m in Added(base, merged)
    ensures m.revision !in Revisions(base)
    ensures n in merged && m.revision in Parents(n) ==> n in Added(base, merged)
  {
    assert m in merged;
    if m.revision in Revisions(base) {
      var b :| b in base && b.revision == m.revision;
      assert b in Elements(base);
      SameRevision(merged, m, b);
    }
    assert n in base ==> forall p <- Parents(n) :: p in Revisions(base);
  }

  /** Whatever builds on the tip of a chain is an added migration. */
  lemma BuildsOnTip(base: seq<Migration>, merged: seq<Migration>, h: Revision, H: Revision,
                    links: seq<Migration>, m: Migration)
    requires Accepted(base, merged, h, H) && Elements(links) <= Added(base, merged)
    requires m in merged && Before(links, h, |links|) in Parents(m)
    ensures m in Added(base, merged)
  {
    if links == [] {
      assert h in Heads(base);
    } else {
      assert links[|links| - 1] in Elements(links);
      AddedIsNew(base, merged, h, H, links[|links| - 1], m);
    }
  }

  /** It is the next link, and is not already in the chain. */
  lemma NextLink(base: seq<Migration>, merged: seq<Migration>, h: Revision, H: Revision,
                 links: seq<Migration>, m: Migration)
    requires Accepted(base, merged, h, H) && NoMergeRevisions(Added(base, merged))
    requires Chain(links, h) && NoRepeats(links) && Elements(links) <= Added(base, merged)
    requires m in merged && Before(links, h, |links|) in Parents(m)
    ensures m in Added(base, merged) && Parents(m) == [Before(links, h, |links|)] && m !in links
  {
    BuildsOnTip(base, merged, h, H, links, m);
    if m in links {
      LinksAreBelowTip(base, merged, h, H, links, m);
    }
  }

  /** No link of a chain builds on the chain's own tip. */
  lemma LinksAreBelowTip(base: seq<Migration>, merged: seq<Migration>, h: Revision, H: Revision,
                         links: seq<Migration>, m: Migration)
    requires Accepted(base, merged, h, H)
    requires Chain(links, h) && NoRepeats(links) && Elements(links) <= Added(base, merged) && m in links
    ensures Before(links, h, |links|) !in Parents(m)
  {
    var i :| 0 <= i < |links| && links[i] == m;
    assert Link(links, h, i);
    var last := links[|links| - 1];
    assert last in Elements(links);
    AddedIsNew(base, merged, h, H, last, m);
    assert h in Heads(base);
    if i > 0 {
      assert links[i - 1] in Elements(links);
      if links[i - 1].revision == last.revision {
        SameRevision(merged, links[i - 1], last);
      }
    }
  }

  lemma AppendLink(links: seq<Migration>, from: Revision, m: Migration)
    requires Chain(links, from) && NoRepeats(links)
    requires Parents(m) == [Before(links, from, |links|)] && m !in links
    ensures Chain(links + [m], from) && NoRepeats(links + [m])
    ensures Elements(links + [m]) == Elements(links) + {m}
  {
    forall i | 0 <= i < |links + [m]|
      ensures Link(links + [m], from, i)
    {
      assert i < |links| ==> Link(links, from, i);
    }
  }

  /** A chain from the base head can be grown until it ends in the merged head. */
  lemma {:induction false} GrowChain(base: seq<Migration>, merged: seq<Migration>, h: Revision, H: Revision,
                                     links: seq<Migration>) returns (full: seq<Migration>)
    requires Accepted(base, merged, h, H) && NoMergeRevisions(Added(base, merged))
    requires Chain(links, h) && NoRepeats(links) && Elements(links) <= Added(base, merged)
    ensures Chain(full, h) && NoRepeats(full) && Elements(full) <= Added(base, merged)
    ensures Before(full, h, |full|) == H
    decreases |Added(base, merged) - Elements(links)|
  {
    var tip := Before(links, h, |links|);
    if tip == H {
      full := links;
    } else {
      TipIsRevision(base, merged, h, H, links);
      assert tip !in Heads(merged);
      var m :| m in merged && tip in Parents(m);
      NextLink(base, merged, h, H, links, m);
      AppendLink(links, h, m);
      var left := Added(base, merged) - Elements(links);
      assert m in left && Added(base, merged) - Elements(links + [m]) == left - {m};
      full := GrowChain(base, merged, h, H, links + [m]);
    }
  }

  lemma TipIsRevision(base: seq<Migration>, merged: seq<Migration>, h: Revision, H: Revision, links: seq<Migration>)
    requires Accepted(base, merged, h, H) && Elements(links) <= Added(base, merged)
    ensures Before(links, h, |links|) in Revisions(merged)
  {
    if links == [] {
      assert h in Heads(base);
      var b :| b in base && b.revision == h;
      assert b in Elements(base);
    } else {
      assert links[|links| - 1] in Elements(links);
    }
  }

  /** No link builds on a migration outside the chain. */
  lemma NoLinkOnOutsider(base: seq<Migration>, merged: seq<Migration>, h: Revision, H: Revision,
                         links: seq<Migration>, outsider: Migration, m: Migration)
    requires Accepted(base, merged, h, H) && Chain(links, h) && Elements(links) <= Added(base, merged)
    requires outsider in Added(base, merged) && outsider !in links && outsider.revision in Parents(m)
    ensures m !in links
  {
    AddedIsNew(base, merged, h, H, outsider, outsider);
    if i :| 0 <= i < |links| && links[i] == m {
      assert Link(links, h, i);
      assert h in Heads(base);
      assert i > 0 && links[i - 1] in Elements(links);
      SameRevision(merged, outsider, links[i - 1]);
      assert false;
    }
  }

  /** A walk that starts outside a finished chain never enters it. */
  lemma {:induction false} StaysOutside(base: seq<Migration>, merged: seq<Migration>, h: Revision, H: Revision,
                                        links: seq<Migration>, outsider: Migration, path: seq<Revision>)
    returns (end: Migration)
    requires Accepted(base, merged, h, H) && NoMergeRevisions(Added(base, merged))
    requires Chain(links, h) && Elements(links) <= Added(base, merged)
    requires outsider in Added(base, merged) && outsider !in links
    requires Walk(ParentEdges(merged), path) && path[0] == outsider.revision
    ensures end in Added(base, merged) && end !in links && end.revision == path[|path| - 1]
    decreases |path|
  {
    if |path| == 1 {
      end := outsider;
    } else {
      assert (path[0], path[1]) in ParentEdges(merged);
      var m :| m in merged && path[0] in Parents(m) && m.revision == path[1];
      AddedIsNew(base, merged, h, H, outsider, m);
      NoLinkOnOutsider(base, merged, h, H, links, outsider, m);
      end := StaysOutside(base, merged, h, H, links, m, path[1..]);
    }
  }

  lemma TipIsLastLink(base: seq<Migration>, merged: seq<Migration>, h: Revision, H: Revision,
                      links: seq<Migration>, m: Migration)
    requires Accepted(base, merged, h, H) && Elements(links) <= Added(base, merged)
    requires m in Added(base, merged) && m.revision == Before(links, h, |links|)
    ensures m in links
  {
    AddedIsNew(base, merged, h, H, m, m);
    assert h in Heads(base);
    var last := links[|links| - 1];
    assert last in Elements(links);
    SameRevision(merged, m, last);
  }

  /** `links` runs unbroken from `h` to `H` and holds exactly the added migrations. */
  ghost predicate Spans(links: seq<Migration>, h: Revision, H: Revision, added: set<Migration>) {
    Chain(links, h) && NoRepeats(links) && Elements(links) == added && Before(links, h, |links|) == H
  }

  /** Without merge revisions the branch adds one unbroken chain on the base head. */
  lemma {:induction false} AddedFormOneChain(base: seq<Migration>, merged: seq<Migration>, h: Revision, H: Revision)
    returns (links: seq<Migration>)
    requires Accepted(base, merged, h, H) && NoMergeRevisions(Added(base, merged))
    ensures Spans(links, h, H, Added(base, merged))
  {
    links := GrowChain(base, merged, h, H, []);
    forall m | m in Added(base, merged)
      ensures m in links
    {
      if m !in links {
        assert m in merged;
        AncestorOfHead(merged, H, m.revision);
        var path :| Walk(ParentEdges(merged), path) && path[0] == m.revision && path[|path| - 1] == H;
        var end := StaysOutside(base, merged, h, H, links, m, path);
        TipIsLastLink(base, merged, h, H, links, end);
      }
    }
    assert Elements(links) == Added(base, merged);
  }

  lemma {:induction false} ChainHasNoMerges(links: seq<Migration>, h: Revision, H: Revision, added: set<Migration>)
    requires Spans(links, h, H, added)
    ensures NoMergeRevisions(added)
  {
    forall m | m in added
      ensures |Parents(m)| <= 1
    {
      var i :| 0 <= i < |links| && links[i] == m;
      assert Link(links, h, i);
    }
  }

  /** One unbroken chain exactly when there is no merge revision. */
  lemma {:induction false} LinearIffNoMergeRevision(base: seq<Migration>, merged: seq<Migration>, h: Revision, H: Revision)
    requires Accepted(base, merged, h, H)
    ensures NoMergeRevisions(Added(base, merged)) <==> exists links :: Spans(links, h, H, Added(base, merged))
  {
    if NoMergeRevisions(Added(base, merged)) {
      var links := AddedFormOneChain(base, merged, h, H);
    }
    if links :| Spans(links, h, H, Added(base, merged)) {
      ChainHasNoMerges(links, h, H, Added(base, merged));
    }
  }

  // ---------------------------------------------------------------- extending the base head

  /** Every added migration is built, directly or not, on the base head. */
  ghost predicate ExtendsHead(base: seq<Migration>, merged: seq<Migration>, h: Revision) {
    forall m <- Added(base, merged) :: Ancestor(merged, h, m.revision)
  }

  /** An added migration all of whose parents are in the base names the base head among them. */
  ghost predicate EntersAtHead(base: seq<Migration>, merged: seq<Migration>, h: Revision) {
    forall m <- Added(base, merged) :: (forall p <- Parents(m) :: p in Revisions(base)) ==> h in Parents(m)
  }

  /** Past the base head there are only added revisions. */
  lemma {:induction false} BeyondHeadIsNew(base: seq<Migration>, merged: seq<Migration>, h: Revision, H: Revision,
                                           path: seq<Revision>)
    returns (m: Migration)
    requires Accepted(base, merged, h, H)
    requires Walk(ParentEdges(merged), path) && path[0] == h && |path| > 1
    ensures m in Added(base, merged) && m.revision == path[|path| - 1]
  {
    var before := path[|path| - 2];
    assert (before, path[|path| - 1]) in ParentEdges(merged);
    m :| m in merged && before in Parents(m) && m.revision == path[|path| - 1];
    if |path| == 2 {
      BuildsOnTip(base, merged, h, H, [], m);
    } else {
      var n := BeyondHeadIsNew(base, merged, h, H, path[..|path| - 1]);
      AddedIsNew(base, merged, h, H, n, m);
    }
  }

  /** A walk ends in a migration through one of its parents. */
  lemma EntersByParent(ms: seq<Migration>, path: seq<Revision>, m: Migration)
    requires Distinct(ms) && m in ms && Walk(ParentEdges(ms), path) && |path| > 1 && path[|path| - 1] == m.revision
    ensures path[|path| - 2] in Parents(m)
  {
    var i := |path| - 2;
    assert (path[i], path[i + 1]) in ParentEdges(ms);
    var n :| n in ms && path[i] in Parents(n) && n.revision == m.revision;
    SameRevision(ms, m, n);
  }

  lemma {:induction false} ExtendingEntersAtHead(base: seq<Migration>, merged: seq<Migration>, h: Revision, H: Revision,
                                                 m: Migration)
    requires Accepted(base, merged, h, H) && m in Added(base, merged) && Ancestor(merged, h, m.revision)
    requires forall p <- Parents(m) :: p in Revisions(base)
    ensures h in Parents(m)
  {
    AddedIsNew(base, merged, h, H, m, m);
    assert h in Heads(base);
    var path :| Walk(ParentEdges(merged), path) && path[0] == h && path[|path| - 1] == m.revision;
    assert |path| > 1 && m in merged;
    EntersByParent(merged, path, m);
    if |path| > 2 {
      var earlier := BeyondHeadIsNew(base, merged, h, H, path[..|path| - 1]);
      AddedIsNew(base, merged, h, H, earlier, earlier);
      assert false;
    }
  }

  lemma AncestorStep(ms: seq<Migration>, a: Revision, m: Migration, p: Revision)
    requires m in ms && p in Parents(m) && Ancestor(ms, a, p)
    ensures Ancestor(ms, a, m.revision)
  {
    assert (p, m.revision) in ParentEdges(ms);
    ReachesThen(ParentEdges(ms), a, p, m.revision);
  }

  /** An added migration that is not built on the base head has an added parent that is not, either. */
  lemma LostHasLostParent(base: seq<Migration>, merged: seq<Migration>, h: Revision, H: Revision, m: Migration)
    returns (n: Migration)
    requires Accepted(base, merged, h, H) && EntersAtHead(base, merged, h)
    requires m in Added(base, merged) && !Ancestor(merged, h, m.revision)
    ensures n in Added(base, merged) && n.revision in Parents(m) && !Ancestor(merged, h, n.revision)
  {
    assert m in merged;
    if h in Parents(m) {
      ReachesSelf(ParentEdges(merged), h);
      AncestorStep(merged, h, m, h);
      assert false;
    }
    var p :| p in Parents(m) && p !in Revisions(base);
    assert p in Revisions(merged);
    n :| n in merged && n.revision == p;
    if Ancestor(merged, h, p) {
      AncestorStep(merged, h, m, p);
      assert false;
    }
  }

  /** New migrations extend the base head exactly when each one that enters from the base enters at its head. */
  lemma {:induction false} ExtendsHeadIff(base: seq<Migration>, merged: seq<Migration>, h: Revision, H: Revision)
    requires Accepted(base, merged, h, H)
    ensures ExtendsHead(base, merged, h) <==> EntersAtHead(base, merged, h)
  {
    if ExtendsHead(base, merged, h) {
      forall m | m in Added(base, merged) && forall p <- Parents(m) :: p in Revisions(base)
        ensures h in Parents(m)
      {
        ExtendingEntersAtHead(base, merged, h, H, m);
      }
    }
    if EntersAtHead(base, merged, h) {
      var edges := ParentEdges(merged);
      var lost := set m | m in Added(base, merged) && !Ancestor(merged, h, m.revision) :: m.revision;
      forall x | x in lost
        ensures CanStay(Reversed(edges), lost, x)
      {
        var m :| m in Added(base, merged) && !Ancestor(merged, h, m.revision) && m.revision == x;
        var n := LostHasLostParent(base, merged, h, H, m);
        assert (n.revision, x) in edges;
        assert (x, n.revision) in Reversed(edges) && n.revision in lost;
      }
      NoBackwardTrap(edges, lost);
      assert forall m <- Added(base, merged) :: m.revision !in lost;
    }
  }

  /** Merge revisions or not, the old base head stays an ancestor of what gets deployed. */
  lemma BaseHeadSurvives(base: seq<Migration>, merged: seq<Migration>, h: Revision, H: Revision)
    requires Accepted(base, merged, h, H)
    ensures Ancestor(merged, h, H)
  {
    TipIsRevision(base, merged, h, H, []);
    AncestorOfHead(merged, H, h);
  }

  /** The merge keeps every file of the base. */
  lemma MergeKeepsBase(base: seq<Migration>, head: seq<Migration>, merged: seq<Migration>)
    requires DistinctPaths(base) && IsMerge(base, head, merged)
    ensures Elements(base) <= Elements(merged)
  {
    DistinctPathsKeepAll(base);
    forall m | m in base
      ensures m in merged
    {
      assert (ByPath(head) + ByPath(base))[m.path] == m;
    }
  }

  /** Resolve base and merge result; the branch itself is never required to be linear on its own. */
  method CheckBranch(base: seq<Migration>, head: seq<Migration>)
    returns (r: Result<(set<Revision>, Revision)>, merged: seq<Migration>)
    ensures IsMerge(base, head, merged)
    ensures r.Ok? <==> Valid(base) && Valid(merged) && |Heads(merged)| == 1
    ensures r.Ok? ==> r.value.0 == Heads(base) && Heads(merged) == {r.value.1}
    ensures r.Ok? && DistinctPaths(base) ==> forall h :: Heads(base) == {h} ==> Accepted(base, merged, h, r.value.1)
    ensures r.Err? && r.error.HeadCount? ==> Valid(base) && Valid(merged) && r.error.heads == Heads(merged)
  {
    merged := MergeResult(base, head);
    var baseHeads := HistoryHeads(base);
    if baseHeads.Err? {
      return Err(baseHeads.error), merged;
    }
    var mergedHead := ValidateLinearHistory(merged);
    if mergedHead.Err? {
      return Err(mergedHead.error), merged;
    }
    r := Ok((baseHeads.value, mergedHead.value));
    if DistinctPaths(base) {
      MergeKeepsBase(base, head, merged);
    }
  }

  /**
   What a passing check tells about the files: the base head is below the merged head, the branch
   extends it exactly when it enters there, and is one chain on it exactly when it adds no merge.
   */
  lemma {:induction false} PassingBranch(base: seq<Migration>, head: seq<Migration>, merged: seq<Migration>,
                                         h: Revision, H: Revision)
    requires DistinctPaths(base) && IsMerge(base, head, merged)
    requires Valid(base) && Heads(base) == {h} && Valid(merged) && Heads(merged) == {H}
    ensures Ancestor(merged, h, H)
    ensures ExtendsHead(base, merged, h) <==> EntersAtHead(base, merged, h)
    ensures NoMergeRevisions(Added(base, merged)) <==> exists links :: Spans(links, h, H, Added(base, merged))
  {
    MergeKeepsBase(base, head, merged);
    BaseHeadSurvives(base, merged, h, H);
    ExtendsHeadIff(base, merged, h, H);
    LinearIffNoMergeRevision(base, merged, h, H);
  }

  // A fork: `b` and `x` both revise the root `a`, and `m` merges them.
  const ROOT := Migration("1.py", "a", NoParent)
  const LEFT := Migration("2.py", "b", OneParent("a"))
  const SIDE := Migration("3.py", "x", OneParent("a"))
  const JOIN := Migration("4.py", "m", ParentTuple(["x", "b"]))

  lemma LineIsValid()
    ensures Valid([ROOT, LEFT]) && Heads([ROOT, LEFT]) == {"b"} && Revisions([ROOT, LEFT]) == {"a", "b"}
  {
    var ms := [ROOT, LEFT];
    assert Parents(ROOT) == [] && Parents(LEFT) == ["a"];
    assert ROOT in ms && LEFT in ms;
    assert forall m :: m in ms ==> m == ROOT || m == LEFT;
    assert Revisions(ms) == {"a", "b"};
    assert Roots(ms) == {"a"};
    assert ParentEdges(ms) == {("a", "b")};
    RankedIsAcyclic(ParentEdges(ms), map["a" := 0, "b" := 1]);
    assert "a" in Parents(LEFT);
  }

  lemma ForkMembers(m: Migration)
    ensures m in [ROOT, LEFT, SIDE, JOIN] <==> m == ROOT || m == LEFT || m == SIDE || m == JOIN
    ensures Parents(ROOT) == [] && Parents(LEFT) == Parents(SIDE) == ["a"] && Parents(JOIN) == ["x", "b"]
  {
  }

  lemma ForkRevisions()
    ensures Revisions([ROOT, LEFT, SIDE, JOIN]) == {"a", "b", "x", "m"}
    ensures Roots([ROOT, LEFT, SIDE, JOIN]) == {"a"}
  {
    forall m { ForkMembers(m); }
    assert ROOT.revision in Revisions([ROOT, LEFT, SIDE, JOIN]);
  }

  lemma ForkEdges(e: (Revision, Revision))
    ensures e in ParentEdges([ROOT, LEFT, SIDE, JOIN]) ==> e in {("a", "b"), ("a", "x"), ("x", "m"), ("b", "m")}
  {
    if e in ParentEdges([ROOT, LEFT, SIDE, JOIN]) {
      var m :| m in [ROOT, LEFT, SIDE, JOIN] && e.0 in Parents(m) && e.1 == m.revision;
      ForkMembers(m);
    }
  }

  lemma ForkIsValid()
    ensures Valid([ROOT, LEFT, SIDE, JOIN]) && Heads([ROOT, LEFT, SIDE, JOIN]) == {"m"}
  {
    var ms := [ROOT, LEFT, SIDE, JOIN];
    ForkRevisions();
    forall m { ForkMembers(m); }
    assert Known(ms) && Distinct(ms);
    assert Acyclic(ParentEdges(ms)) by {
      forall e { ForkEdges(e); }
      RankedIsAcyclic(ParentEdges(ms), map["a" := 0, "b" := 1, "x" := 2, "m" := 3]);
    }
    assert "a" in Parents(LEFT) && "x" in Parents(JOIN) && "b" in Parents(JOIN);
    assert Heads(ms) == {"m"};
  }

  /** With a merge revision a new migration may hang off an old one and still be accepted. */
  lemma SideBranchAccepted()
    ensures Accepted([ROOT, LEFT], [ROOT, LEFT, SIDE, JOIN], "b", "m")
    ensures SIDE in Added([ROOT, LEFT], [ROOT, LEFT, SIDE, JOIN])
    ensures Parents(SIDE) == ["a"] && "a" in Revisions([ROOT, LEFT]) && "a" != "b"
    ensures !ExtendsHead([ROOT, LEFT], [ROOT, LEFT, SIDE, JOIN], "b")
  {
    LineIsValid();
    ForkIsValid();
    assert SIDE in [ROOT, LEFT, SIDE, JOIN] && SIDE !in [ROOT, LEFT];
    forall m | m in [ROOT, LEFT]
      ensures m in [ROOT, LEFT, SIDE, JOIN]
    {
    }
    ExtendsHeadIff([ROOT, LEFT], [ROOT, LEFT, SIDE, JOIN], "b", "m");
  }
}
