/** Ascending lists of digests: sorted and deduplicated vectors, and the iteration order
    of ordered sets. */
module Ascending {
  import opened Basics

  predicate IsAscending(s: seq<Digest>) {
    forall i, j :: 0 <= i < j < |s| ==> s[i].rank < s[j].rank
  }

  /** No member occurs twice. */
  predicate Distinct(s: seq<Digest>) {
    |Members(s)| == |s|
  }

  lemma MembersEmpty(s: seq<Digest>)
    ensures Members(s) == {} <==> s == []
  {
    if s != [] {
      assert s[0] in Members(s);
    }
  }

  lemma MembersPush(s: seq<Digest>, x: Digest)
    ensures Members(s + [x]) == Members(s) + {x}
  {
  }

  lemma MembersConcat(s: seq<Digest>, t: seq<Digest>)
    ensures Members(s + t) == Members(s) + Members(t)
  {
  }

  lemma {:induction false} MembersBound(s: seq<Digest>)
    ensures |Members(s)| <= |s|
  {
    if s != [] {
      var n := |s| - 1;
      MembersBound(s[..n]);
      assert s == s[..n] + [s[n]];
      MembersPush(s[..n], s[n]);
    }
  }

  lemma DistinctPush(s: seq<Digest>, x: Digest)
    ensures Distinct(s + [x]) <==> Distinct(s) && x !in s
  {
    MembersPush(s, x);
    MembersBound(s);
    if x in s {
      assert Members(s) + {x} == Members(s);
    }
  }

  lemma DistinctPop(s: seq<Digest>)
    requires Distinct(s) && s != []
    ensures Distinct(s[1..]) && s[0] !in s[1..] && Members(s) == {s[0]} + Members(s[1..])
  {
    assert s == [s[0]] + s[1..];
    MembersConcat([s[0]], s[1..]);
    MembersBound(s[1..]);
    assert Members([s[0]]) == {s[0]};
  }

  lemma DistinctConcat(s: seq<Digest>, t: seq<Digest>)
    requires Distinct(s) && Distinct(t) && Members(s) !! Members(t)
    ensures Distinct(s + t)
  {
    MembersConcat(s, t);
  }

  /** Different positions hold different members. */
  lemma {:induction false} DistinctMeans(s: seq<Digest>)
    ensures Distinct(s) <==> forall i, j :: 0 <= i < j < |s| ==> s[i] != s[j]
  {
    if s != [] {
      var n := |s| - 1;
      DistinctMeans(s[..n]);
      assert s == s[..n] + [s[n]];
      DistinctPush(s[..n], s[n]);
    }
  }

  lemma {:induction false} MinExists(s: set<Digest>)
    requires s != {}
    ensures exists m :: m in s && forall x :: x in s ==> m.rank <= x.rank
  {
    var y :| y in s;
    if s != {y} {
      var rest := s - {y};
      assert rest != {};
      MinExists(rest);
      var m :| m in rest && forall x :: x in rest ==> m.rank <= x.rank;
      var least := if m.rank <= y.rank then m else y;
      assert least in s && forall x :: x in s ==> least.rank <= x.rank;
    }
  }

  /** The members of `s` in increasing order. */
  function Sorted(s: set<Digest>): (r: seq<Digest>)
    ensures Members(r) == s && |r| == |s|
    ensures IsAscending(r)
  {
    if s == {} then []
    else
      MinExists(s);
      var m :| m in s && forall x :: x in s ==> m.rank <= x.rank;
      AscendingCons(m, s, Sorted(s - {m}));
      [m] + Sorted(s - {m})
  }

  /** Ascending lists are determined by their members. */
  lemma {:induction false} AscendingUnique(a: seq<Digest>, b: seq<Digest>)
    requires IsAscending(a) && IsAscending(b) && Members(a) == Members(b)
    ensures a == b
    decreases |a|
  {
    MembersEmpty(a);
    MembersEmpty(b);
    if a != [] {
      assert a[0] in Members(b) && b[0] in Members(a);
      assert a == [a[0]] + a[1..] && b == [b[0]] + b[1..];
      assert Members(a[1..]) == Members(a) - {a[0]};
      assert Members(b[1..]) == Members(b) - {b[0]};
      AscendingUnique(a[1..], b[1..]);
    }
  }

  /** Sorting and deduplicating changes nothing exactly when the list is ascending. */
  lemma SortedFixpoint(s: seq<Digest>)
    ensures Sorted(Members(s)) == s <==> IsAscending(s)
  {
    if IsAscending(s) {
      AscendingUnique(Sorted(Members(s)), s);
    }
  }

  lemma AscendingCons(m: Digest, s: set<Digest>, rest: seq<Digest>)
    requires m in s && forall x :: x in s ==> m.rank <= x.rank
    requires Members(rest) == s - {m} && IsAscending(rest)
    ensures Members([m] + rest) == s && IsAscending([m] + rest)
    ensures |s| == 1 + |s - {m}|
  {
    MembersConcat([m], rest);
    assert Members([m]) == {m} && {m} + (s - {m}) == s;
    forall i, j | 0 <= i < j < |[m] + rest|
      ensures ([m] + rest)[i].rank < ([m] + rest)[j].rank
    {
      assert rest[j - 1] in Members(rest);
    }
  }
}

/** Append-only DAG (crates/exo-dag/src/dag.rs). */
module Dag {
  import opened Basics
  import opened Ascending

  datatype DagNode = DagNode(hash: Digest, parents: seq<Digest>, payloadHash: Digest, creator: Did,
                             timestamp: Timestamp, signature: Digest)

  datatype Hasher = Hasher(node: (seq<Digest>, Digest, Did, Timestamp) -> Digest, digest: seq<bv8> -> Digest,
                           sign: Digest -> Digest) {
    function NodeHash(parents: seq<Digest>, payloadHash: Digest, creator: Did, timestamp: Timestamp): Digest {
      node(parents, payloadHash, creator, timestamp)
    }
  }

  predicate Canonical(h: Hasher, n: DagNode) {
    n.hash == h.NodeHash(n.parents, n.payloadHash, n.creator, n.timestamp)
  }

  type Nodes = map<Digest, DagNode>
  type Children = map<Digest, set<Digest>>

  function ParentsOf(nodes: Nodes, x: Digest): seq<Digest> {
    if x in nodes then nodes[x].parents else []
  }

  // ---------------------------------------------------------------------
  // What every run of `append` keeps
  // ---------------------------------------------------------------------

  /** Node `k` of the history: stored under its canonical hash, with ascending parents that
      were all appended before it; only the first node has none. */
  ghost predicate EntryOk(h: Hasher, nodes: Nodes, order: seq<Digest>, k: nat)
    requires k < |order|
  {
    && order[k] in nodes
    && var n := nodes[order[k]];
       && n.hash == order[k] && Canonical(h, n) && IsAscending(n.parents)
       && (n.parents == [] <==> k == 0)
       && forall p :: p in n.parents ==> p in order[..k]
  }

  ghost predicate IsHistory(h: Hasher, nodes: Nodes, order: seq<Digest>) {
    && (forall i, j :: 0 <= i < j < |order| ==> order[i] != order[j])
    && (forall x :: x in nodes <==> x in order)
    && (forall k :: 0 <= k < |order| ==> EntryOk(h, nodes, order, k))
  }

  /** `children` is the exact inverse of the parent lists. */
  ghost predicate Inverse(nodes: Nodes, children: Children) {
    && children.Keys == nodes.Keys
    && (forall p, c :: p in nodes ==> (c in children[p] <==> c in nodes && p in nodes[c].parents))
  }

  /** `a` is reached from `x` over `n` parent edges. */
  ghost predicate AncestorIn(nodes: Nodes, a: Digest, x: Digest, n: nat)
    decreases n
  {
    if n == 0 then a == x else exists p :: p in ParentsOf(nodes, x) && AncestorIn(nodes, a, p, n - 1)
  }

  ghost predicate Ancestor(nodes: Nodes, a: Digest, x: Digest) {
    exists n: nat :: n > 0 && AncestorIn(nodes, a, x, n)
  }

  lemma PositionOf(order: seq<Digest>, x: Digest) returns (k: nat)
    requires x in order
    ensures k < |order| && order[k] == x
  {
    k :| 0 <= k < |order| && order[k] == x;
  }

  lemma ParentIsEarlier(h: Hasher, nodes: Nodes, order: seq<Digest>, k: nat, p: Digest)
    requires IsHistory(h, nodes, order) && k < |order| && p in ParentsOf(nodes, order[k])
    ensures exists j :: 0 <= j < k && order[j] == p
  {
    assert EntryOk(h, nodes, order, k);
    var j := PositionOf(order[..k], p);
    assert order[j] == p;
  }

  /** Ancestors were appended earlier. */
  lemma {:induction false} AncestorsAreEarlier(h: Hasher, nodes: Nodes, order: seq<Digest>, a: Digest, k: nat, n: nat)
    requires IsHistory(h, nodes, order) && k < |order| && AncestorIn(nodes, a, order[k], n)
    ensures n == 0 ==> a == order[k]
    ensures n > 0 ==> a in order[..k]
    decreases n
  {
    if n > 0 {
      var p :| p in ParentsOf(nodes, order[k]) && AncestorIn(nodes, a, p, n - 1);
      ParentIsEarlier(h, nodes, order, k, p);
      var j :| 0 <= j < k && order[j] == p;
      AncestorsAreEarlier(h, nodes, order, a, j, n - 1);
    }
  }

  /** No node is its own ancestor. */
  lemma NoCycles(h: Hasher, nodes: Nodes, order: seq<Digest>, x: Digest)
    requires IsHistory(h, nodes, order)
    ensures !Ancestor(nodes, x, x)
  {
    if Ancestor(nodes, x, x) {
      var n: nat :| n > 0 && AncestorIn(nodes, x, x, n);
      assert ParentsOf(nodes, x) != [];
      var k := PositionOf(order, x);
      AncestorsAreEarlier(h, nodes, order, x, k, n);
    }
  }

  /** The first node is an ancestor of every other node, and the only one without parents. */
  lemma {:induction false} OneGenesis(h: Hasher, nodes: Nodes, order: seq<Digest>, k: nat)
    requires IsHistory(h, nodes, order) && k < |order|
    ensures nodes[order[k]].parents == [] <==> k == 0
    ensures k > 0 ==> Ancestor(nodes, order[0], order[k])
  {
    assert EntryOk(h, nodes, order, k);
    if k > 0 {
      var p := nodes[order[k]].parents[0];
      assert p in nodes[order[k]].parents;
      var j := PositionOf(order[..k], p);
      OneGenesis(h, nodes, order, j);
      if j == 0 {
        assert AncestorIn(nodes, order[0], p, 0);
      }
      var n: nat :| AncestorIn(nodes, order[0], p, n);
      assert p in ParentsOf(nodes, order[k]) && AncestorIn(nodes, order[0], p, (n + 1) - 1);
      assert AncestorIn(nodes, order[0], order[k], n + 1);
    }
  }

  /** The last node appended is a tip. */
  lemma LastIsTip(h: Hasher, nodes: Nodes, children: Children, order: seq<Digest>)
    requires IsHistory(h, nodes, order) && Inverse(nodes, children) && order != []
    ensures order[|order| - 1] in nodes && children[order[|order| - 1]] == {}
  {
    var last := order[|order| - 1];
    forall c
      ensures c !in children[last]
    {
      if c in children[last] {
        var k := PositionOf(order, c);
        ParentIsEarlier(h, nodes, order, k, last);
      }
    }
  }

  lemma HistoryGrows(h: Hasher, nodes: Nodes, order: seq<Digest>, n: DagNode)
    requires IsHistory(h, nodes, order) && n.hash !in nodes
    requires Canonical(h, n) && IsAscending(n.parents) && (n.parents == [] <==> order == [])
    requires forall p :: p in n.parents ==> p in nodes
    ensures IsHistory(h, nodes[n.hash := n], order + [n.hash])
  {
    var more, order' := nodes[n.hash := n], order + [n.hash];
    forall k | 0 <= k < |order'|
      ensures EntryOk(h, more, order', k)
    {
      if k < |order| {
        assert EntryOk(h, nodes, order, k);
        assert order'[..k] == order[..k];
      } else {
        assert order'[..k] == order;
      }
    }
  }

  // ---------------------------------------------------------------------
  // Sets closed under parents
  // ---------------------------------------------------------------------

  lemma {:induction false} ClosedUnderAncestors(nodes: Nodes, s: set<Digest>, a: Digest, x: Digest, n: nat)
    requires forall v, p :: v in s && p in ParentsOf(nodes, v) ==> p in s
    requires x in s && AncestorIn(nodes, a, x, n)
    ensures a in s
    decreases n
  {
    if n > 0 {
      var p :| p in ParentsOf(nodes, x) && AncestorIn(nodes, a, p, n - 1);
      ClosedUnderAncestors(nodes, s, a, p, n - 1);
    }
  }

  lemma {:induction false} AncestorTrans(nodes: Nodes, a: Digest, b: Digest, x: Digest, n: nat)
    requires a in ParentsOf(nodes, b) && AncestorIn(nodes, b, x, n)
    ensures AncestorIn(nodes, a, x, n + 1)
    decreases n
  {
    if n == 0 {
      assert AncestorIn(nodes, a, a, 0);
    } else {
      var p :| p in ParentsOf(nodes, x) && AncestorIn(nodes, b, p, n - 1);
      AncestorTrans(nodes, a, b, p, n - 1);
    }
  }

  /** The parents of `x` that lie in `s`. */
  function ParentsIn(nodes: Nodes, s: set<Digest>, x: Digest): set<Digest> {
    Within(ParentsOf(nodes, x), s)
  }

  function Within(list: seq<Digest>, s: set<Digest>): set<Digest> {
    set p | p in list && p in s
  }

  /** A released set that contains everything whose parents it contains is complete: this
      is where Kahn's algorithm needs acyclicity. */
  lemma {:induction false} AllReleased(h: Hasher, nodes: Nodes, order: seq<Digest>, s: set<Digest>, done: set<Digest>, k: nat)
    requires IsHistory(h, nodes, order) && k < |order| && order[k] in s
    requires forall x :: x in s && ParentsIn(nodes, s, x) <= done ==> x in done
    ensures order[k] in done
  {
    forall p | p in ParentsIn(nodes, s, order[k])
      ensures p in done
    {
      ParentIsEarlier(h, nodes, order, k, p);
      var j :| 0 <= j < k && order[j] == p;
      AllReleased(h, nodes, order, s, done, j);
    }
  }

  /** Every parent inside the list comes before its child. */
  ghost predicate ParentsFirst(nodes: Nodes, s: set<Digest>, list: seq<Digest>) {
    forall i :: 0 <= i < |list| ==> FirstAt(nodes, s, list, i)
  }

  ghost predicate FirstAt(nodes: Nodes, s: set<Digest>, list: seq<Digest>, i: nat)
    requires i < |list|
  {
    ParentsIn(nodes, s, list[i]) <= Members(list[..i])
  }

  // ---------------------------------------------------------------------
  // Breadth-first search
  // ---------------------------------------------------------------------

  /** Adds the unvisited among `parents` to the queue. */
  method Visit(parents: seq<Digest>, visited0: set<Digest>, queue0: seq<Digest>)
    returns (visited: set<Digest>, queue: seq<Digest>)
    ensures visited == visited0 + Members(parents)
    ensures forall x :: x in queue <==> x in queue0 || (x in parents && x !in visited0)
    ensures visited == visited0 ==> queue == queue0
  {
    visited, queue := visited0, queue0;
    for i := 0 to |parents|
      invariant visited == visited0 + Members(parents[..i])
      invariant forall x :: x in queue <==> x in queue0 || (x in parents[..i] && x !in visited0)
      invariant visited == visited0 ==> queue == queue0
    {
      var p := parents[i];
      assert parents[..i + 1] == parents[..i] + [p];
      if p !in visited {
        visited := visited + {p};
        queue := queue + [p];
      }
    }
    assert parents[..|parents|] == parents;
  }

  /** Invariant of the search: what is visited are ancestors, and what is visited but no
      longer queued has all its parents visited. */
  ghost predicate Searching(nodes: Nodes, hash: Digest, visited: set<Digest>, queue: seq<Digest>) {
    && (forall x :: x in queue ==> x in visited)
    && (forall p :: p in ParentsOf(nodes, hash) ==> p in visited)
    && (forall a :: a in visited ==> Ancestor(nodes, a, hash))
    && (forall v, p :: v in visited && v !in queue && p in ParentsOf(nodes, v) ==> p in visited)
  }

  lemma SearchStart(nodes: Nodes, hash: Digest)
    ensures forall a :: a in ParentsOf(nodes, hash) ==> Ancestor(nodes, a, hash)
  {
    forall a | a in ParentsOf(nodes, hash)
      ensures Ancestor(nodes, a, hash)
    {
      assert AncestorIn(nodes, a, a, 0);
      assert AncestorIn(nodes, a, hash, 1);
    }
  }

  lemma SearchStep(nodes: Nodes, hash: Digest, visited: set<Digest>, queue: seq<Digest>, rest: seq<Digest>)
    requires queue != [] && Searching(nodes, hash, visited, queue)
    requires forall x :: x in rest <==> x in queue[1..] || (x in ParentsOf(nodes, queue[0]) && x !in visited)
    ensures Searching(nodes, hash, visited + Members(ParentsOf(nodes, queue[0])), rest)
  {
    var current := queue[0];
    assert queue == [current] + queue[1..];
    forall a | a in ParentsOf(nodes, current)
      ensures Ancestor(nodes, a, hash)
    {
      assert current in visited;
      var n: nat :| n > 0 && AncestorIn(nodes, current, hash, n);
      AncestorTrans(nodes, a, current, hash, n);
    }
  }

  lemma SearchEnd(nodes: Nodes, hash: Digest, visited: set<Digest>)
    requires Searching(nodes, hash, visited, [])
    ensures forall a :: a in visited <==> Ancestor(nodes, a, hash)
  {
    forall a | Ancestor(nodes, a, hash)
      ensures a in visited
    {
      var n: nat :| n > 0 && AncestorIn(nodes, a, hash, n);
      var p :| p in ParentsOf(nodes, hash) && AncestorIn(nodes, a, p, n - 1);
      ClosedUnderAncestors(nodes, visited, a, p, n - 1);
    }
  }

  /** The visited set of `ancestors`. Each queued hash is new, so the hashes that have left
      the queue, or were never in it, bound the search. */
  method ReachableParents(nodes: Nodes, hash: Digest, ghost h: Hasher, ghost order: seq<Digest>)
    returns (visited: set<Digest>)
    requires IsHistory(h, nodes, order)
    ensures forall a :: a in visited <==> Ancestor(nodes, a, hash)
  {
    var queue;
    visited, queue := Visit(ParentsOf(nodes, hash), {}, []);
    SearchStart(nodes, hash);
    while queue != []
      invariant Searching(nodes, hash, visited, queue)
      decreases nodes.Keys - visited, |queue|
    {
      var current := queue[0];
      ghost var visited0, queue0 := visited, queue;
      visited, queue := Visit(ParentsOf(nodes, current), visited, queue[1..]);
      SearchStep(nodes, hash, visited0, queue0, queue);
      if visited != visited0 {
        assert exists a :: a in visited && a !in visited0;
        var a :| a in visited && a !in visited0;
        AncestorIsNode(h, nodes, order, a, hash);
      }
    }
    SearchEnd(nodes, hash, visited);
  }

  lemma AncestorIsNode(h: Hasher, nodes: Nodes, order: seq<Digest>, a: Digest, x: Digest)
    requires IsHistory(h, nodes, order) && Ancestor(nodes, a, x)
    ensures a in nodes
  {
    var n: nat :| n > 0 && AncestorIn(nodes, a, x, n);
    assert ParentsOf(nodes, x) != [];
    var k := PositionOf(order, x);
    AncestorsAreEarlier(h, nodes, order, a, k, n);
  }

  ghost function AncestorSet(nodes: Nodes, x: Digest): set<Digest> {
    set a | a in nodes && Ancestor(nodes, a, x)
  }

  lemma AncestorsAreNodes(h: Hasher, nodes: Nodes, order: seq<Digest>, x: Digest)
    requires IsHistory(h, nodes, order)
    ensures forall a :: a in AncestorSet(nodes, x) <==> Ancestor(nodes, a, x)
  {
    forall a | Ancestor(nodes, a, x)
      ensures a in nodes
    {
      AncestorIsNode(h, nodes, order, a, x);
    }
  }

  // ---------------------------------------------------------------------
  // Kahn's algorithm
  // ---------------------------------------------------------------------

  type Degrees = map<Digest, nat>
  type Adjacency = map<Digest, seq<Digest>>

  /** The members of `seen` that have `p` as a parent. */
  function ChildrenIn(nodes: Nodes, seen: set<Digest>, p: Digest): set<Digest> {
    set x | x in seen && p in ParentsOf(nodes, x)
  }

  /** `adj[p]` lists, once each, the children of `p` in `seen`. */
  ghost predicate AdjacencyOf(nodes: Nodes, s: set<Digest>, seen: set<Digest>, adj: Adjacency) {
    && adj.Keys == s
    && (forall p :: p in s ==> Distinct(adj[p]) && Members(adj[p]) == ChildrenIn(nodes, seen, p))
  }

  /** `adj0` with `x` added under each of `parents` that lies in `s`. */
  function Linked(adj0: Adjacency, parents: seq<Digest>, x: Digest): (adj: Adjacency)
    ensures adj.Keys == adj0.Keys
  {
    map p | p in adj0 :: if p in parents then adj0[p] + [x] else adj0[p]
  }

  lemma LinkedPush(adj0: Adjacency, parents: seq<Digest>, p: Digest, x: Digest)
    requires p !in parents
    ensures Linked(adj0, parents + [p], x) ==
            if p in adj0 then Linked(adj0, parents, x)[p := Linked(adj0, parents, x)[p] + [x]] else Linked(adj0, parents, x)
  {
  }

  lemma WithinPush(parents: seq<Digest>, p: Digest, s: set<Digest>)
    requires p !in parents
    ensures |Within(parents + [p], s)| == |Within(parents, s)| + if p in s then 1 else 0
  {
    if p in s {
      assert Within(parents + [p], s) == Within(parents, s) + {p};
    } else {
      assert Within(parents + [p], s) == Within(parents, s);
    }
  }

  method AddNode(parents: seq<Digest>, s: set<Digest>, x: Digest, adj0: Adjacency) returns (degree: nat, adj: Adjacency)
    requires Distinct(parents) && adj0.Keys == s
    ensures adj == Linked(adj0, parents, x)
    ensures degree == |Within(parents, s)|
  {
    degree, adj := 0, adj0;
    for i := 0 to |parents|
      invariant adj == Linked(adj0, parents[..i], x)
      invariant degree == |Within(parents[..i], s)|
    {
      var p := parents[i];
      NextIsNew(parents, i);
      LinkedPush(adj0, parents[..i], p, x);
      WithinPush(parents[..i], p, s);
      if p in s {
        adj := adj[p := adj[p] + [x]];
        degree := degree + 1;
      }
    }
    assert parents[..|parents|] == parents;
  }

  lemma NextIsNew(list: seq<Digest>, i: nat)
    requires Distinct(list) && i < |list|
    ensures list[i] !in list[..i] && list[..i + 1] == list[..i] + [list[i]]
  {
    DistinctMeans(list);
  }

  /** In-degrees and adjacency inside `s`, for the hashes seen so far. */
  ghost predicate EdgesOf(nodes: Nodes, s: set<Digest>, seen: set<Digest>, inDegree: Degrees, adj: Adjacency) {
    && inDegree.Keys == seen
    && (forall x :: x in seen ==> inDegree[x] == |ParentsIn(nodes, s, x)|)
    && AdjacencyOf(nodes, s, seen, adj)
  }

  method BuildEdges(nodes: Nodes, s: set<Digest>) returns (inDegree: Degrees, adj: Adjacency)
    requires forall x :: x in s ==> Distinct(ParentsOf(nodes, x))
    ensures EdgesOf(nodes, s, s, inDegree, adj)
  {
    inDegree := map[];
    adj := map x | x in s :: [];
    EdgesStart(nodes, s, adj);
    var list := Sorted(s);
    for i := 0 to |list|
      invariant EdgesOf(nodes, s, Members(list[..i]), inDegree, adj)
    {
      var x := list[i];
      NextIsNew(list, i);
      MembersPush(list[..i], x);
      assert x in Members(list);
      EdgesGrow(nodes, s, Members(list[..i]), x, inDegree, adj);
      var degree;
      degree, adj := AddNode(ParentsOf(nodes, x), s, x, adj);
      inDegree := inDegree[x := degree];
    }
    assert list[..|list|] == list;
  }

  lemma EdgesStart(nodes: Nodes, s: set<Digest>, adj: Adjacency)
    requires adj.Keys == s && forall p :: p in s ==> adj[p] == []
    ensures EdgesOf(nodes, s, Members([]), map[], adj)
  {
  }

  lemma EdgesGrow(nodes: Nodes, s: set<Digest>, seen: set<Digest>, x: Digest, inDegree: Degrees, adj: Adjacency)
    requires EdgesOf(nodes, s, seen, inDegree, adj) && x !in seen
    ensures EdgesOf(nodes, s, seen + {x}, inDegree[x := |ParentsIn(nodes, s, x)|], Linked(adj, ParentsOf(nodes, x), x))
  {
    AdjacencyGrows(nodes, s, seen, x, adj);
  }

  lemma AdjacencyGrows(nodes: Nodes, s: set<Digest>, seen: set<Digest>, x: Digest, adj0: Adjacency)
    requires AdjacencyOf(nodes, s, seen, adj0) && x !in seen
    ensures AdjacencyOf(nodes, s, seen + {x}, Linked(adj0, ParentsOf(nodes, x), x))
  {
    var adj := Linked(adj0, ParentsOf(nodes, x), x);
    forall p | p in s
      ensures Distinct(adj[p]) && Members(adj[p]) == ChildrenIn(nodes, seen + {x}, p)
    {
      if p in ParentsOf(nodes, x) {
        assert x !in ChildrenIn(nodes, seen, p) && x !in adj0[p];
        DistinctPush(adj0[p], x);
        MembersPush(adj0[p], x);
        assert ChildrenIn(nodes, seen + {x}, p) == ChildrenIn(nodes, seen, p) + {x};
      } else {
        assert ChildrenIn(nodes, seen + {x}, p) == ChildrenIn(nodes, seen, p);
      }
    }
  }

  /** One degree less for every neighbour; the ones that reach zero are returned. */
  method Release(neighbors: seq<Digest>, inDegree0: Degrees) returns (inDegree: Degrees, batch: seq<Digest>)
    requires Distinct(neighbors) && forall x :: x in neighbors ==> x in inDegree0 && inDegree0[x] > 0
    ensures inDegree.Keys == inDegree0.Keys
    ensures forall x :: x in inDegree0 ==> inDegree0[x] == if x in neighbors then inDegree[x] + 1 else inDegree[x]
    ensures forall x :: x in batch <==> x in neighbors && inDegree[x] == 0
  {
    inDegree, batch := inDegree0, [];
    for i := 0 to |neighbors|
      invariant inDegree.Keys == inDegree0.Keys
      invariant forall x :: x in inDegree0 ==> inDegree0[x] == if x in neighbors[..i] then inDegree[x] + 1 else inDegree[x]
      invariant forall x :: x in batch <==> x in neighbors[..i] && inDegree[x] == 0
    {
      var x := neighbors[i];
      NextIsNew(neighbors, i);
      inDegree := inDegree[x := inDegree[x] - 1];
      if inDegree[x] == 0 {
        batch := batch + [x];
      }
    }
    assert neighbors[..|neighbors|] == neighbors;
  }

  /** Parents of `x` in `s` that have not been emitted yet. */
  function Waiting(nodes: Nodes, s: set<Digest>, done: set<Digest>, x: Digest): set<Digest> {
    set p | p in ParentsOf(nodes, x) && p in s && p !in done
  }

  /** The hashes that wait for nothing. */
  function Ready(nodes: Nodes, s: set<Digest>, done: set<Digest>): set<Digest> {
    set x | x in s && Waiting(nodes, s, done, x) == {}
  }

  ghost predicate Counts(nodes: Nodes, s: set<Digest>, done: set<Digest>, inDegree: Degrees) {
    inDegree.Keys == s && forall x :: x in s ==> inDegree[x] == |Waiting(nodes, s, done, x)|
  }

  /** Invariant of Kahn's loop: emitted and queued are exactly the hashes that wait for
      nothing, each once, and the emitted ones stand after their parents. */
  ghost predicate Kahn(nodes: Nodes, s: set<Digest>, result: seq<Digest>, queue: seq<Digest>) {
    && Distinct(result) && Distinct(queue) && Members(result) !! Members(queue)
    && Members(result) + Members(queue) == Ready(nodes, s, Members(result))
    && ParentsFirst(nodes, s, result)
  }

  /** The order in which Kahn's algorithm emits: the head of the queue, after which the hashes
      that now wait for nothing are queued in ascending order. It depends on the nodes and the
      set only, not on how the DAG was built. */
  function EmitFrom(nodes: Nodes, s: set<Digest>, done: set<Digest>, queue: seq<Digest>): seq<Digest>
    decreases s - done
  {
    if queue == [] || queue[0] !in s - done then []
    else
      var c := queue[0];
      var released := Ready(nodes, s, done + {c}) - Ready(nodes, s, done);
      [c] + EmitFrom(nodes, s, done + {c}, queue[1..] + Sorted(released))
  }

  function KahnOrder(nodes: Nodes, s: set<Digest>): seq<Digest> {
    EmitFrom(nodes, s, {}, Sorted(Ready(nodes, s, {})))
  }

  /** What emitting `c` releases: its children that were waiting for `c` alone. */
  lemma WaitingAfter(nodes: Nodes, s: set<Digest>, done: set<Digest>, c: Digest, x: Digest)
    requires c in s && c !in done
    ensures forall p :: p in Waiting(nodes, s, done + {c}, x) <==> p in Waiting(nodes, s, done, x) && p != c
    ensures c in Waiting(nodes, s, done, x) <==> c in ParentsOf(nodes, x)
    ensures |Waiting(nodes, s, done + {c}, x)| ==
            |Waiting(nodes, s, done, x)| - if c in ParentsOf(nodes, x) then 1 else 0
  {
    var w, w' := Waiting(nodes, s, done, x), Waiting(nodes, s, done + {c}, x);
    if c in w {
      assert w == w' + {c};
    } else {
      assert w == w';
    }
  }

  lemma CountsAfter(nodes: Nodes, s: set<Digest>, done: set<Digest>, c: Digest, adj: Adjacency, before: Degrees, after: Degrees)
    requires Counts(nodes, s, done, before) && c in s && c !in done && AdjacencyOf(nodes, s, s, adj)
    requires after.Keys == s
    requires forall x :: x in s ==> before[x] == if x in adj[c] then after[x] + 1 else after[x]
    ensures Counts(nodes, s, done + {c}, after)
  {
    forall x | x in s
      ensures after[x] == |Waiting(nodes, s, done + {c}, x)|
    {
      WaitingAfter(nodes, s, done, c, x);
      assert x in Members(adj[c]) <==> x in ChildrenIn(nodes, s, c);
    }
  }

  lemma NeighborsWait(nodes: Nodes, s: set<Digest>, done: set<Digest>, c: Digest, adj: Adjacency, inDegree: Degrees)
    requires Counts(nodes, s, done, inDegree) && c in s && c !in done && AdjacencyOf(nodes, s, s, adj)
    ensures Distinct(adj[c]) && forall x :: x in adj[c] ==> x in inDegree && inDegree[x] > 0
  {
    forall x | x in adj[c]
      ensures x in inDegree && inDegree[x] > 0
    {
      assert x in Members(adj[c]) && x in ChildrenIn(nodes, s, c);
      WaitingAfter(nodes, s, done, c, x);
      assert c in Waiting(nodes, s, done, x);
    }
  }

  /** The newly ready hashes are the batch. */
  lemma ReadyAfter(nodes: Nodes, s: set<Digest>, done: set<Digest>, c: Digest, adj: Adjacency, after: Degrees, batch: set<Digest>)
    requires c in s && c !in done && AdjacencyOf(nodes, s, s, adj) && Counts(nodes, s, done + {c}, after)
    requires forall x :: x in batch <==> x in adj[c] && x in s && after[x] == 0
    ensures Ready(nodes, s, done + {c}) == Ready(nodes, s, done) + batch
    ensures batch !! Ready(nodes, s, done)
  {
    forall x
      ensures x in Ready(nodes, s, done + {c}) <==> x in Ready(nodes, s, done) || x in batch
      ensures !(x in Ready(nodes, s, done) && x in batch)
    {
      WaitingAfter(nodes, s, done, c, x);
      assert x in Members(adj[c]) <==> x in ChildrenIn(nodes, s, c);
    }
  }

  lemma EmitKeepsOrder(nodes: Nodes, s: set<Digest>, result: seq<Digest>, c: Digest)
    requires ParentsFirst(nodes, s, result) && c in Ready(nodes, s, Members(result))
    ensures ParentsFirst(nodes, s, result + [c])
  {
    var list := result + [c];
    forall i | 0 <= i < |list|
      ensures FirstAt(nodes, s, list, i)
    {
      if i < |result| {
        assert FirstAt(nodes, s, result, i);
        assert list[..i] == result[..i];
      } else {
        assert list[..i] == result && list[i] == c;
        assert forall p :: p in ParentsIn(nodes, s, c) && p !in Members(result) ==> p in Waiting(nodes, s, Members(result), c);
      }
    }
  }

  /** Emitting the head of the queue and queueing what it releases keeps the invariant. */
  lemma KahnStep(nodes: Nodes, s: set<Digest>, result: seq<Digest>, queue: seq<Digest>, batch: set<Digest>)
    requires queue != [] && Kahn(nodes, s, result, queue)
    requires Ready(nodes, s, Members(result) + {queue[0]}) == Ready(nodes, s, Members(result)) + batch
    requires batch !! Ready(nodes, s, Members(result))
    ensures Kahn(nodes, s, result + [queue[0]], queue[1..] + Sorted(batch))
  {
    var c, done := queue[0], Members(result);
    DistinctPop(queue);
    DistinctPush(result, c);
    MembersPush(result, c);
    assert c !in done && c in Ready(nodes, s, done);
    EmitKeepsOrder(nodes, s, result, c);
    QueueAfter(done, c, queue[1..], Sorted(batch));
  }

  lemma QueueAfter(done: set<Digest>, c: Digest, rest: seq<Digest>, batch: seq<Digest>)
    requires Distinct(rest) && Distinct(batch) && c !in rest && c !in done && done !! Members(rest)
    requires Members(batch) !! done + {c} + Members(rest)
    ensures Distinct(rest + batch) && done + {c} !! Members(rest + batch)
    ensures (done + {c}) + Members(rest + batch) == done + ({c} + Members(rest)) + Members(batch)
  {
    MembersConcat(rest, batch);
    DistinctConcat(rest, batch);
  }

  /** One past the position in `list[..k]` of the last parent of `x` that lies in `s`, or 0. */
  function Since(nodes: Nodes, s: set<Digest>, list: seq<Digest>, x: Digest, k: nat): (r: nat)
    requires k <= |list|
    ensures r <= k
  {
    if k == 0 then 0 else if list[k - 1] in ParentsIn(nodes, s, x) then k else Since(nodes, s, list, x, k - 1)
  }

  /** `x` goes before `y`: its last parent stands earlier in `list`, or they share it and `x`
      has the smaller hash. */
  ghost predicate Earlier(nodes: Nodes, s: set<Digest>, list: seq<Digest>, x: Digest, y: Digest) {
    var a, b := Since(nodes, s, list, x, |list|), Since(nodes, s, list, y, |list|);
    a < b || (a == b && x.rank < y.rank)
  }

  /** `all` is ordered by the position of the last parent in `list`, then by hash. */
  ghost predicate ByLastParent(nodes: Nodes, s: set<Digest>, list: seq<Digest>, all: seq<Digest>) {
    forall i, j :: 0 <= i < j < |all| ==> Earlier(nodes, s, list, all[i], all[j])
  }

  lemma {:induction false} SincePrefix(nodes: Nodes, s: set<Digest>, list: seq<Digest>, more: seq<Digest>, x: Digest, k: nat)
    requires k <= |list|
    ensures Since(nodes, s, list + more, x, k) == Since(nodes, s, list, x, k)
  {
    if k > 0 {
      SincePrefix(nodes, s, list, more, x, k - 1);
    }
  }

  lemma {:induction false} SincePush(nodes: Nodes, s: set<Digest>, list: seq<Digest>, c: Digest, x: Digest)
    ensures Since(nodes, s, list + [c], x, |list| + 1) ==
            if c in ParentsIn(nodes, s, x) then |list| + 1 else Since(nodes, s, list, x, |list|)
  {
    SincePrefix(nodes, s, list, [c], x, |list|);
  }

  ghost predicate NoChildIn(nodes: Nodes, s: set<Digest>, list: seq<Digest>, c: Digest) {
    forall i :: 0 <= i < |list| ==> c !in ParentsIn(nodes, s, list[i])
  }

  ghost predicate AllChildren(nodes: Nodes, s: set<Digest>, list: seq<Digest>, c: Digest) {
    forall i :: 0 <= i < |list| ==> c in ParentsIn(nodes, s, list[i])
  }

  /** What is released by emitting `c` goes to the end of the order. */
  lemma {:induction false} OrderKept(nodes: Nodes, s: set<Digest>, list: seq<Digest>, c: Digest, all: seq<Digest>, batch: seq<Digest>)
    requires ByLastParent(nodes, s, list, all) && IsAscending(batch)
    requires NoChildIn(nodes, s, all, c) && AllChildren(nodes, s, batch, c)
    ensures ByLastParent(nodes, s, list + [c], all + batch)
  {
    var more := all + batch;
    forall i, j | 0 <= i < j < |more|
      ensures Earlier(nodes, s, list + [c], more[i], more[j])
    {
      SincePush(nodes, s, list, c, more[i]);
      SincePush(nodes, s, list, c, more[j]);
      assert j < |all| ==> Earlier(nodes, s, list, all[i], all[j]);
    }
  }

  /** Nothing emitted or queued has the head of the queue as a parent. */
  lemma {:induction false} HeadIsNoParent(nodes: Nodes, s: set<Digest>, result: seq<Digest>, queue: seq<Digest>, x: Digest)
    requires queue != [] && Kahn(nodes, s, result, queue) && (x in result || x in queue)
    ensures queue[0] !in ParentsIn(nodes, s, x)
  {
    KahnPop(nodes, s, result, queue);
    assert x in Members(result) + Members(queue);
    assert queue[0] !in Waiting(nodes, s, Members(result), x);
  }

  /** What emitting `c` releases has `c` as a parent. */
  lemma {:induction false} ReleasedByHead(nodes: Nodes, s: set<Digest>, done: set<Digest>, c: Digest, x: Digest)
    requires c in s && c !in done
    requires x in Ready(nodes, s, done + {c}) && x !in Ready(nodes, s, done)
    ensures c in ParentsIn(nodes, s, x)
  {
    WaitingAfter(nodes, s, done, c, x);
    var p :| p in Waiting(nodes, s, done, x);
  }

  /** Emitting the head of the queue keeps emitted and queued hashes in order. */
  lemma {:induction false} KahnOrdered(nodes: Nodes, s: set<Digest>, result: seq<Digest>, queue: seq<Digest>, batch: seq<Digest>)
    requires queue != [] && ByLastParent(nodes, s, result, result + queue) && IsAscending(batch)
    requires NoChildIn(nodes, s, result + queue, queue[0]) && AllChildren(nodes, s, batch, queue[0])
    ensures ByLastParent(nodes, s, result + [queue[0]], (result + [queue[0]]) + (queue[1..] + batch))
  {
    OrderKept(nodes, s, result, queue[0], result + queue, batch);
    Regroup(result, queue, batch);
  }

  lemma {:induction false} HeadIsNoParentOfAny(nodes: Nodes, s: set<Digest>, result: seq<Digest>, queue: seq<Digest>)
    requires queue != [] && Kahn(nodes, s, result, queue)
    ensures NoChildIn(nodes, s, result + queue, queue[0])
  {
    var all := result + queue;
    forall i | 0 <= i < |all|
      ensures queue[0] !in ParentsIn(nodes, s, all[i])
    {
      HeadIsNoParent(nodes, s, result, queue, all[i]);
    }
  }

  lemma {:induction false} BatchIsReleased(nodes: Nodes, s: set<Digest>, done: set<Digest>, c: Digest, batch: set<Digest>)
    requires c in s && c !in done
    requires Ready(nodes, s, done + {c}) == Ready(nodes, s, done) + batch && batch !! Ready(nodes, s, done)
    ensures AllChildren(nodes, s, Sorted(batch), c)
  {
    forall x | x in batch
      ensures c in ParentsIn(nodes, s, x)
    {
      ReleasedByHead(nodes, s, done, c, x);
    }
    SortedChildren(nodes, s, batch, c);
  }

  lemma {:induction false} SortedChildren(nodes: Nodes, s: set<Digest>, batch: set<Digest>, c: Digest)
    requires forall x :: x in batch ==> c in ParentsIn(nodes, s, x)
    ensures AllChildren(nodes, s, Sorted(batch), c)
  {
    var list := Sorted(batch);
    forall i | 0 <= i < |list|
      ensures c in ParentsIn(nodes, s, list[i])
    {
      assert list[i] in Members(list);
    }
  }

  lemma Regroup(a: seq<Digest>, b: seq<Digest>, c: seq<Digest>)
    requires b != []
    ensures (a + b) + c == (a + [b[0]]) + (b[1..] + c)
  {
  }

  lemma {:induction false} RootsOrdered(nodes: Nodes, s: set<Digest>, queue: seq<Digest>)
    requires IsAscending(queue)
    ensures ByLastParent(nodes, s, [], [] + queue)
  {
  }

  /** The order is determined: a list of the members of `s` with parents first, ordered by last
      parent and then by hash, is the only one. */
  lemma {:induction false} OrderUnique(nodes: Nodes, s: set<Digest>, a: seq<Digest>, b: seq<Digest>)
    requires Distinct(a) && Members(a) == s && ParentsFirst(nodes, s, a) && ByLastParent(nodes, s, a, a)
    requires Distinct(b) && Members(b) == s && ParentsFirst(nodes, s, b) && ByLastParent(nodes, s, b, b)
    ensures a == b
  {
    SamePrefix(nodes, s, a, b, |a|);
    assert a[..|a|] == a && b[..|b|] == b;
  }

  lemma {:induction false} SamePrefix(nodes: Nodes, s: set<Digest>, a: seq<Digest>, b: seq<Digest>, k: nat)
    requires Distinct(a) && Members(a) == s && ParentsFirst(nodes, s, a) && ByLastParent(nodes, s, a, a)
    requires Distinct(b) && Members(b) == s && ParentsFirst(nodes, s, b) && ByLastParent(nodes, s, b, b)
    requires k <= |a|
    ensures |a| == |b| && a[..k] == b[..k]
  {
    if k > 0 {
      SamePrefix(nodes, s, a, b, k - 1);
      var x, y := a[k - 1], b[k - 1];
      if x != y {
        NotBefore(nodes, s, a, b, k - 1);
        NotBefore(nodes, s, b, a, k - 1);
        assert false;
      }
      assert a[..k] == a[..k - 1] + [x] && b[..k] == b[..k - 1] + [y];
    }
  }

  /** Where two such lists first differ, the first list's entry goes before the second's, in
      terms of the common prefix. */
  lemma {:induction false} NotBefore(nodes: Nodes, s: set<Digest>, a: seq<Digest>, b: seq<Digest>, k: nat)
    requires Distinct(a) && Members(a) == s && ParentsFirst(nodes, s, a) && ByLastParent(nodes, s, a, a)
    requires Distinct(b) && Members(b) == s && ParentsFirst(nodes, s, b)
    requires k < |a| == |b| && a[..k] == b[..k] && a[k] != b[k]
    ensures Earlier(nodes, s, a[..k], a[k], b[k])
  {
    var x, y := a[k], b[k];
    assert y in Members(b) && y in Members(a);
    var j :| 0 <= j < |a| && a[j] == y;
    if j < k {
      assert b[j] == b[..k][j] == a[..k][j] == y;
      DistinctMeans(b);
    }
    assert Earlier(nodes, s, a, x, y);
    assert FirstAt(nodes, s, a, k) && FirstAt(nodes, s, b, k);
    SinceAll(nodes, s, a, k, x);
    SinceAll(nodes, s, a, k, y);
  }

  /** Once all parents of `x` have occurred, `Since` no longer changes. */
  lemma {:induction false} SinceAll(nodes: Nodes, s: set<Digest>, a: seq<Digest>, k: nat, x: Digest)
    requires k <= |a| && Distinct(a) && ParentsIn(nodes, s, x) <= Members(a[..k])
    ensures Since(nodes, s, a, x, |a|) == Since(nodes, s, a[..k], x, k)
  {
    DistinctMeans(a);
    SinceTail(nodes, s, a, k, x, |a|);
    assert a == a[..k] + a[k..];
    SincePrefix(nodes, s, a[..k], a[k..], x, k);
  }

  lemma {:induction false} SinceTail(nodes: Nodes, s: set<Digest>, a: seq<Digest>, k: nat, x: Digest, n: nat)
    requires k <= n <= |a| && ParentsIn(nodes, s, x) <= Members(a[..k])
    requires forall i, j :: 0 <= i < j < |a| ==> a[i] != a[j]
    ensures Since(nodes, s, a, x, n) == Since(nodes, s, a, x, k)
  {
    if k < n {
      SinceTail(nodes, s, a, k, x, n - 1);
      assert a[n - 1] !in a[..k];
    }
  }

  lemma KahnPop(nodes: Nodes, s: set<Digest>, result: seq<Digest>, queue: seq<Digest>)
    requires queue != [] && Kahn(nodes, s, result, queue)
    ensures queue[0] in s && queue[0] !in Members(result)
  {
    assert queue[0] in Members(queue);
  }

  lemma ParentsDistinct(h: Hasher, nodes: Nodes, order: seq<Digest>, x: Digest)
    requires IsHistory(h, nodes, order)
    ensures Distinct(ParentsOf(nodes, x))
  {
    if x in nodes {
      var k := PositionOf(order, x);
      assert EntryOk(h, nodes, order, k);
      DistinctMeans(nodes[x].parents);
    }
  }

  /** The loop's invariant: Kahn's, in the order of last parents, on the way to Kahn's order. */
  ghost predicate Sorting(nodes: Nodes, s: set<Digest>, result: seq<Digest>, queue: seq<Digest>) {
    && Kahn(nodes, s, result, queue)
    && ByLastParent(nodes, s, result, result + queue)
    && result + EmitFrom(nodes, s, Members(result), queue) == KahnOrder(nodes, s)
  }

  lemma {:induction false} SortingStep(nodes: Nodes, s: set<Digest>, result: seq<Digest>, queue: seq<Digest>, batch: set<Digest>)
    requires queue != [] && Sorting(nodes, s, result, queue)
    requires Ready(nodes, s, Members(result) + {queue[0]}) == Ready(nodes, s, Members(result)) + batch
    requires batch !! Ready(nodes, s, Members(result))
    ensures Sorting(nodes, s, result + [queue[0]], queue[1..] + Sorted(batch))
    ensures Members(result + [queue[0]]) == Members(result) + {queue[0]}
  {
    KahnStep(nodes, s, result, queue, batch);
    OrderStep(nodes, s, result, queue, batch);
    EmitSome(nodes, s, result, queue, batch);
    MembersPush(result, queue[0]);
  }

  lemma {:induction false} OrderStep(nodes: Nodes, s: set<Digest>, result: seq<Digest>, queue: seq<Digest>, batch: set<Digest>)
    requires queue != [] && Kahn(nodes, s, result, queue) && ByLastParent(nodes, s, result, result + queue)
    requires Ready(nodes, s, Members(result) + {queue[0]}) == Ready(nodes, s, Members(result)) + batch
    requires batch !! Ready(nodes, s, Members(result))
    ensures ByLastParent(nodes, s, result + [queue[0]], (result + [queue[0]]) + (queue[1..] + Sorted(batch)))
  {
    var c, list := queue[0], Sorted(batch);
    assert NoChildIn(nodes, s, result + queue, c) by {
      HeadIsNoParentOfAny(nodes, s, result, queue);
    }
    assert AllChildren(nodes, s, list, c) by {
      KahnPop(nodes, s, result, queue);
      BatchIsReleased(nodes, s, Members(result), c, batch);
    }
    KahnOrdered(nodes, s, result, queue, list);
  }

  lemma {:induction false} EmitSome(nodes: Nodes, s: set<Digest>, result: seq<Digest>, queue: seq<Digest>, batch: set<Digest>)
    requires queue != [] && Sorting(nodes, s, result, queue)
    requires Ready(nodes, s, Members(result) + {queue[0]}) == Ready(nodes, s, Members(result)) + batch
    requires batch !! Ready(nodes, s, Members(result))
    ensures (result + [queue[0]]) + EmitFrom(nodes, s, Members(result + [queue[0]]), queue[1..] + Sorted(batch)) ==
            KahnOrder(nodes, s)
  {
    KahnPop(nodes, s, result, queue);
    EmitStep(nodes, s, result, queue, batch);
  }

  lemma {:induction false} SortingStart(nodes: Nodes, s: set<Digest>)
    ensures Sorting(nodes, s, [], Sorted(Ready(nodes, s, {})))
  {
    var queue := Sorted(Ready(nodes, s, {}));
    KahnInit(nodes, s, queue);
    EmitStart(nodes, s, queue);
    RootsOrdered(nodes, s, queue);
  }

  /** Every hash once, parents before children, in Kahn's order: a queue that runs dry has
      emitted all. */
  method TopologicalSort(nodes: Nodes, hashes: seq<Digest>, ghost h: Hasher, ghost order: seq<Digest>)
    returns (result: seq<Digest>)
    requires IsHistory(h, nodes, order)
    ensures Distinct(result) && Members(result) == Members(hashes)
    ensures ParentsFirst(nodes, Members(hashes), result)
    ensures ByLastParent(nodes, Members(hashes), result, result)
    ensures result == KahnOrder(nodes, Members(hashes))
  {
    var s := Members(hashes);
    forall x | x in s ensures Distinct(ParentsOf(nodes, x)) { ParentsDistinct(h, nodes, order, x); }
    var inDegree, adj := BuildEdges(nodes, s);
    var queue := Sorted(set x | x in s && inDegree[x] == 0);
    result := [];
    InitialRoots(nodes, s, inDegree);
    SortingStart(nodes, s);
    while queue != []
      invariant Sorting(nodes, s, result, queue) && Counts(nodes, s, Members(result), inDegree)
      decreases s - Members(result)
    {
      var current := queue[0];
      ghost var done, before := Members(result), inDegree;
      KahnPop(nodes, s, result, queue);
      NeighborsWait(nodes, s, done, current, adj, inDegree);
      var batch;
      inDegree, batch := Release(adj[current], inDegree);
      CountsAfter(nodes, s, done, current, adj, before, inDegree);
      ReadyAfter(nodes, s, done, current, adj, inDegree, Members(batch));
      SortingStep(nodes, s, result, queue, Members(batch));
      result := result + [current];
      queue := queue[1..] + Sorted(Members(batch));
    }
    KahnEnd(h, nodes, order, s, result);
    assert result + [] == result;
  }

  lemma InitialRoots(nodes: Nodes, s: set<Digest>, inDegree: Degrees)
    requires inDegree.Keys == s && forall x :: x in s ==> inDegree[x] == |ParentsIn(nodes, s, x)|
    ensures Counts(nodes, s, Members([]), inDegree)
    ensures (set x | x in s && inDegree[x] == 0) == Ready(nodes, s, {})
  {
    assert Members<Digest>([]) == {};
    forall x | x in s
      ensures Waiting(nodes, s, {}, x) == ParentsIn(nodes, s, x)
    {
    }
  }

  lemma {:induction false} KahnInit(nodes: Nodes, s: set<Digest>, queue: seq<Digest>)
    requires Distinct(queue) && Members(queue) == Ready(nodes, s, {})
    ensures Kahn(nodes, s, [], queue)
  {
    assert Members<Digest>([]) == {};
    assert {} + Members(queue) == Ready(nodes, s, {});
  }

  lemma {:induction false} EmitStart(nodes: Nodes, s: set<Digest>, queue: seq<Digest>)
    ensures [] + EmitFrom(nodes, s, Members([]), queue) == EmitFrom(nodes, s, {}, queue)
  {
    assert Members<Digest>([]) == {};
  }

  lemma {:induction false} EmitUnfold(nodes: Nodes, s: set<Digest>, done: set<Digest>, queue: seq<Digest>, batch: set<Digest>)
    requires queue != [] && queue[0] in s && queue[0] !in done
    requires batch == Ready(nodes, s, done + {queue[0]}) - Ready(nodes, s, done)
    ensures EmitFrom(nodes, s, done, queue) ==
            [queue[0]] + EmitFrom(nodes, s, done + {queue[0]}, queue[1..] + Sorted(batch))
  {
  }

  lemma Assoc(a: seq<Digest>, c: Digest, b: seq<Digest>)
    ensures a + ([c] + b) == (a + [c]) + b
  {
  }

  lemma {:induction false} EmitStep(nodes: Nodes, s: set<Digest>, result: seq<Digest>, queue: seq<Digest>, batch: set<Digest>)
    requires queue != [] && queue[0] in s && queue[0] !in Members(result)
    requires Ready(nodes, s, Members(result) + {queue[0]}) == Ready(nodes, s, Members(result)) + batch
    requires batch !! Ready(nodes, s, Members(result))
    ensures result + EmitFrom(nodes, s, Members(result), queue) ==
            (result + [queue[0]]) + EmitFrom(nodes, s, Members(result + [queue[0]]), queue[1..] + Sorted(batch))
  {
    MembersPush(result, queue[0]);
    var c, done := queue[0], Members(result);
    assert Ready(nodes, s, done + {c}) - Ready(nodes, s, done) == batch;
    EmitUnfold(nodes, s, done, queue, batch);
    Assoc(result, c, EmitFrom(nodes, s, done + {c}, queue[1..] + Sorted(batch)));
  }

  lemma KahnEnd(h: Hasher, nodes: Nodes, order: seq<Digest>, s: set<Digest>, result: seq<Digest>)
    requires IsHistory(h, nodes, order) && Kahn(nodes, s, result, [])
    ensures Members(result) == s
  {
    var done := Members(result);
    assert done == Ready(nodes, s, done);
    forall x | x in s && ParentsIn(nodes, s, x) <= done
      ensures x in done
    {
      assert Waiting(nodes, s, done, x) == {};
    }
    forall x | x in s
      ensures x in done
    {
      if x in nodes {
        var k := PositionOf(order, x);
        AllReleased(h, nodes, order, s, done, k);
      } else {
        assert ParentsIn(nodes, s, x) == {};
      }
    }
  }

  // ---------------------------------------------------------------------
  // The code
  // ---------------------------------------------------------------------

  /** The DAG's own clock. Ticking past the 32-bit counter is excluded. */
  class HybridClock {
    var latest: Timestamp

    constructor (millis: u64)
      ensures latest == Timestamp(millis, 0)
    {
      latest := Timestamp(millis, 0);
    }

    method Tick() returns (t: Timestamp)
      requires latest.logical < U32_MAX
      modifies this
      ensures t == latest && old(latest).Before(latest) && latest.physicalMs == old(latest.physicalMs)
      ensures latest.logical == old(latest.logical) + 1
    {
      latest := Timestamp(latest.physicalMs, latest.logical + 1);
      t := latest;
    }

    method Advance(millis: u64) returns (t: Timestamp)
      requires millis > latest.physicalMs || latest.logical < U32_MAX
      modifies this
      ensures t == latest && old(latest).Before(latest) && millis <= latest.physicalMs
    {
      if millis > latest.physicalMs {
        latest := Timestamp(millis, 0);
      }
      t := Tick();
    }
  }

  datatype Error = EmptyParents | ParentNotFound(parent: Digest) | NodeAlreadyExists(node: Digest)
                 | InvalidSignature | CycleDetected

  /** The node an append builds: canonical, signed and stamped one tick after `latest`. */
  function NewNode(h: Hasher, parents: seq<Digest>, payload: seq<bv8>, creator: Did, latest: Timestamp): (n: DagNode)
    requires latest.logical < U32_MAX
    ensures Canonical(h, n) && IsAscending(n.parents) && Members(n.parents) == Members(parents)
    ensures n.payloadHash == h.digest(payload) && n.creator == creator && n.signature == h.sign(n.hash)
    ensures n.timestamp == Timestamp(latest.physicalMs, latest.logical + 1)
  {
    var sorted, payloadHash, timestamp := Sorted(Members(parents)), h.digest(payload), Timestamp(latest.physicalMs, latest.logical + 1);
    var hash := h.NodeHash(sorted, payloadHash, creator, timestamp);
    DagNode(hash, sorted, payloadHash, creator, timestamp, h.sign(hash))
  }

  /** What `verify_node` accepts. */
  ghost predicate Verifies(nodes: Nodes, h: Hasher, n: DagNode, verify: (Digest, Digest) -> bool) {
    && IsAscending(n.parents) && Canonical(h, n)
    && (forall p :: p in n.parents ==> p in nodes) && verify(n.hash, n.signature)
  }

  /** An appended node verifies whenever the verifier accepts the signature on its hash. */
  lemma {:induction false} AppendedVerifies(h: Hasher, nodes: Nodes, parents: seq<Digest>, payload: seq<bv8>, creator: Did,
                                            latest: Timestamp, verify: (Digest, Digest) -> bool)
    requires latest.logical < U32_MAX && forall p :: p in parents ==> p in nodes
    ensures var n := NewNode(h, parents, payload, creator, latest);
            Verifies(nodes[n.hash := n], h, n, verify) <==> verify(n.hash, h.sign(n.hash))
  {
    var n := NewNode(h, parents, payload, creator, latest);
    assert forall p :: p in n.parents <==> p in Members(n.parents);
  }

  /** `p` is the first of `parents` that is not a node. */
  ghost predicate FirstMissing(nodes: Nodes, parents: seq<Digest>, p: Digest) {
    exists i :: 0 <= i < |parents| && parents[i] == p && p !in nodes && forall k :: 0 <= k < i ==> parents[k] in nodes
  }

  class Dag {
    const h: Hasher
    var nodes: Nodes
    var children: Children
    /** The hashes in the order they were appended. */
    ghost var order: seq<Digest>

    ghost predicate Valid()
      reads this
    {
      IsHistory(h, nodes, order) && Inverse(nodes, children)
    }

    constructor (hasher: Hasher)
      ensures Valid() && nodes == map[] && order == [] && h == hasher
    {
      h, nodes, children, order := hasher, map[], map[], [];
    }

    method AddToParents(parents: seq<Digest>, hash: Digest)
      requires Inverse(nodes, children) && hash !in nodes
      requires forall p :: p in parents ==> p in nodes
      modifies this`children
      ensures children.Keys == nodes.Keys + {hash}
      ensures forall p :: p in nodes ==> children[p] == if p in parents then old(children)[p] + {hash} else old(children)[p]
      ensures children[hash] == {}
    {
      for i := 0 to |parents|
        invariant children.Keys == nodes.Keys
        invariant forall p :: p in nodes ==>
          children[p] == if p in parents[..i] then old(children)[p] + {hash} else old(children)[p]
      {
        var p := parents[i];
        assert parents[..i + 1] == parents[..i] + [p];
        children := children[p := children[p] + {hash}];
      }
      assert parents[..|parents|] == parents;
      children := children[hash := {}];
    }

    /** The loop that looks every parent up. */
    method MissingParent(parents: seq<Digest>) returns (missing: Option<Digest>)
      ensures missing.None? <==> forall p :: p in parents ==> p in nodes
      ensures missing.Some? ==> FirstMissing(nodes, parents, missing.value)
    {
      for i := 0 to |parents|
        invariant forall k :: 0 <= k < i ==> parents[k] in nodes
      {
        if parents[i] !in nodes {
          assert parents[i] in parents;
          return Some(parents[i]);
        }
      }
      return None;
    }

    /** A successful append adds exactly one node, with sorted, deduplicated parents, and never
        alters an existing one. A refused one changes nothing but the clock, which has already
        ticked when the hash turns out to exist. The errors are checked in the order of the
        clauses. */
    method Append(parents: seq<Digest>, payload: seq<bv8>, creator: Did, clock: HybridClock)
      returns (r: Result<DagNode, Error>)
      requires Valid() && clock.latest.logical < U32_MAX
      modifies this, clock
      ensures Valid()
      ensures r.Err? ==> nodes == old(nodes) && children == old(children) && order == old(order)
      ensures r.Ok? ==>
        && nodes == old(nodes)[r.value.hash := r.value] && order == old(order) + [r.value.hash]
        && r.value.hash !in old(nodes) && r.value.timestamp == clock.latest && old(clock.latest).Before(clock.latest)
      ensures r.Err? && r.error.ParentNotFound? ==> FirstMissing(old(nodes), parents, r.error.parent)
      ensures var node := NewNode(h, parents, payload, creator, old(clock.latest));
              if parents == [] && old(nodes) != map[] then r == Err(EmptyParents)
              else if exists p :: p in parents && p !in old(nodes) then r.Err? && r.error.ParentNotFound?
              else if node.hash in old(nodes) then r == Err(NodeAlreadyExists(node.hash))
              else r == Ok(node)
      ensures r.Err? && !r.error.NodeAlreadyExists? ==> clock.latest == old(clock.latest)
      ensures r.Err? && r.error.NodeAlreadyExists? ==>
        clock.latest == NewNode(h, parents, payload, creator, old(clock.latest)).timestamp
    {
      if |parents| == 0 && nodes != map[] {
        return Err(EmptyParents);
      }
      var missing := MissingParent(parents);
      if missing.Some? {
        return Err(ParentNotFound(missing.value));
      }
      var sortedParents := Sorted(Members(parents));
      var payloadHash := h.digest(payload);
      var timestamp := clock.Tick();
      var hash := h.NodeHash(sortedParents, payloadHash, creator, timestamp);
      if hash in nodes {
        return Err(NodeAlreadyExists(hash));
      }
      var node := DagNode(hash, sortedParents, payloadHash, creator, timestamp, h.sign(hash));
      EmptyTogether(h, nodes, order, parents);
      Insert(node);
      return Ok(node);
    }

    method Insert(node: DagNode)
      requires Valid() && node.hash !in nodes
      requires Canonical(h, node) && IsAscending(node.parents) && (node.parents == [] <==> order == [])
      requires forall p :: p in node.parents ==> p in nodes
      modifies this
      ensures Valid() && nodes == old(nodes)[node.hash := node] && order == old(order) + [node.hash]
    {
      HistoryGrows(h, nodes, order, node);
      ghost var children0 := children;
      AddToParents(node.parents, node.hash);
      InverseGrows(h, nodes, order, children0, children, node);
      nodes := nodes[node.hash := node];
      order := order + [node.hash];
    }

    /** The nodes that no node names as a parent; there is one unless the DAG is empty. */
    method Tips() returns (tips: seq<Digest>)
      requires Valid()
      ensures IsAscending(tips)
      ensures forall x :: x in tips <==> x in nodes && forall c :: c in nodes ==> x !in nodes[c].parents
      ensures nodes != map[] ==> tips != []
    {
      tips := Sorted(set x | x in nodes && children[x] == {});
      assert forall x :: x in tips <==> x in Members(tips);
      Childless(h, nodes, children, order);
    }

    /** Breadth-first search over parents, then a topological sort: the result is exactly
        the set of ancestors, each once, every parent before its child. */
    method Ancestors(hash: Digest) returns (result: seq<Digest>)
      requires Valid()
      ensures forall a :: a in result <==> Ancestor(nodes, a, hash)
      ensures forall i, j :: 0 <= i < j < |result| ==> result[i] != result[j]
      ensures forall i, p :: 0 <= i < |result| && p in ParentsOf(nodes, result[i]) ==> p in result[..i]
      ensures ByLastParent(nodes, AncestorSet(nodes, hash), result, result)
      ensures result == KahnOrder(nodes, AncestorSet(nodes, hash))
    {
      var visited := ReachableParents(nodes, hash, h, order);
      result := TopologicalSort(nodes, Sorted(visited), h, order);
      assert forall a :: a in result <==> a in Members(result);
      AncestorsAreNodes(h, nodes, order, hash);
      assert visited == AncestorSet(nodes, hash);
      DistinctMeans(result);
      forall i, p | 0 <= i < |result| && p in ParentsOf(nodes, result[i])
        ensures p in result[..i]
      {
        assert FirstAt(nodes, visited, result, i);
        assert result[i] in Members(result);
        ParentsAreAncestors(nodes, p, result[i], hash);
        assert p in Members(result[..i]);
      }
    }

    /** A node verifies exactly when its parents are ascending and present, its hash is
        canonical and its signature checks: in a DAG built by `append` the final cycle check
        never fires. */
    method VerifyNode(node: DagNode, verify: (Digest, Digest) -> bool) returns (r: Result<(), Error>)
      requires Valid()
      ensures r.Ok? <==>
        && IsAscending(node.parents) && Canonical(h, node)
        && (forall p :: p in node.parents ==> p in nodes) && verify(node.hash, node.signature)
      ensures r.Err? ==>
        if IsAscending(node.parents) && Canonical(h, node) && exists p :: p in node.parents && p !in nodes
        then r.error.ParentNotFound? && FirstMissing(nodes, node.parents, r.error.parent)
        else r.error == InvalidSignature
    {
      SortedFixpoint(node.parents);
      if Sorted(Members(node.parents)) != node.parents {
        return Err(InvalidSignature);
      }
      var expected := h.NodeHash(node.parents, node.payloadHash, node.creator, node.timestamp);
      if expected != node.hash {
        return Err(InvalidSignature);
      }
      var missing := MissingParent(node.parents);
      if missing.Some? {
        return Err(ParentNotFound(missing.value));
      }
      if !verify(node.hash, node.signature) {
        return Err(InvalidSignature);
      }
      if |node.parents| > 0 {
        var ancestors := Ancestors(node.hash);
        NoCycles(h, nodes, order, node.hash);
        if node.hash in ancestors {
          return Err(CycleDetected);
        }
      }
      return Ok(());
    }
  }

  lemma ParentsAreAncestors(nodes: Nodes, p: Digest, a: Digest, x: Digest)
    requires Ancestor(nodes, a, x) && p in ParentsOf(nodes, a)
    ensures Ancestor(nodes, p, x)
  {
    var n: nat :| n > 0 && AncestorIn(nodes, a, x, n);
    AncestorTrans(nodes, p, a, x, n);
  }

  lemma Childless(h: Hasher, nodes: Nodes, children: Children, order: seq<Digest>)
    requires IsHistory(h, nodes, order) && Inverse(nodes, children)
    ensures forall x :: x in nodes ==> (children[x] == {} <==> forall c :: c in nodes ==> x !in nodes[c].parents)
    ensures nodes != map[] ==> exists x :: x in nodes && children[x] == {}
  {
    forall x | x in nodes
      ensures children[x] == {} <==> forall c :: c in nodes ==> x !in nodes[c].parents
    {
      assert forall c :: c in children[x] <==> c in nodes && x in nodes[c].parents;
    }
    if nodes != map[] {
      EmptyTogether(h, nodes, order, []);
      LastIsTip(h, nodes, children, order);
    }
  }

  lemma EmptyTogether(h: Hasher, nodes: Nodes, order: seq<Digest>, parents: seq<Digest>)
    requires IsHistory(h, nodes, order)
    ensures nodes == map[] <==> order == []
    ensures Sorted(Members(parents)) == [] <==> parents == []
    ensures forall p :: p in Sorted(Members(parents)) <==> p in parents
  {
    if order != [] {
      assert order[0] in nodes;
    }
    var r := Sorted(Members(parents));
    assert forall p :: p in r <==> p in Members(r);
    assert forall p :: p in parents <==> p in Members(parents);
    if parents != [] {
      assert parents[0] in r;
    }
  }

  lemma InverseGrows(h: Hasher, nodes: Nodes, order: seq<Digest>, children: Children, more: Children, n: DagNode)
    requires IsHistory(h, nodes, order) && Inverse(nodes, children) && n.hash !in nodes
    requires more.Keys == nodes.Keys + {n.hash} && more[n.hash] == {} && n.hash !in n.parents
    requires forall p :: p in nodes ==> more[p] == if p in n.parents then children[p] + {n.hash} else children[p]
    ensures Inverse(nodes[n.hash := n], more)
  {
    var nodes' := nodes[n.hash := n];
    forall p, c | p in nodes'
      ensures c in more[p] <==> c in nodes' && p in nodes'[c].parents
    {
      if p == n.hash && c in nodes && p in nodes[c].parents {
        var k := PositionOf(order, c);
        ParentIsEarlier(h, nodes, order, k, p);
      }
    }
  }
}
