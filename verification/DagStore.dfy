/** Validated append to a node store (crates/exo-dag/src/append.rs over the in-memory
    store of crates/exo-dag/src/store.rs). The wall clock is a parameter. */
module DagStore {
  import opened Basics
  import opened Ascending
  import opened Dag

  const MAX_CLOCK_SKEW_MS: u64 := 500

  datatype StoreError = ClockSkew | MissingParent(parent: Digest) | CausalityViolation(cause: Digest) | NodeNotFound

  type ChildLists = map<Digest, seq<Digest>>

  datatype Store = Store(nodes: Nodes, children: ChildLists)

  const EMPTY := Store(map[], map[])

  function ContentHash(h: Hasher, n: DagNode): Digest {
    h.NodeHash(n.parents, n.payloadHash, n.creator, n.timestamp)
  }

  predicate SameContent(m: DagNode, n: DagNode) {
    m.parents == n.parents && m.payloadHash == n.payloadHash && m.creator == n.creator && m.timestamp == n.timestamp
  }

  ghost predicate CollisionFree(h: Hasher) {
    forall m, n :: ContentHash(h, m) == ContentHash(h, n) ==> SameContent(m, n)
  }

  // ---------------------------------------------------------------------
  // The steps
  // ---------------------------------------------------------------------

  function Horizon(now: u64): u64 {
    if now + MAX_CLOCK_SKEW_MS > U64_MAX then U64_MAX else now + MAX_CLOCK_SKEW_MS
  }

  /** The first parent that is missing or not older than `t`. */
  function ParentError(nodes: Nodes, parents: seq<Digest>, t: Timestamp): Option<StoreError> {
    if parents == [] then None
    else if parents[0] !in nodes then Some(MissingParent(parents[0]))
    else if t.AtMost(nodes[parents[0]].timestamp) then Some(CausalityViolation(parents[0]))
    else ParentError(nodes, parents[1..], t)
  }

  function AppendError(nodes: Nodes, n: DagNode, now: u64): Option<StoreError> {
    if n.timestamp.physicalMs > 0 && n.timestamp.physicalMs > Horizon(now) then Some(ClockSkew)
    else ParentError(nodes, n.parents, n.timestamp)
  }

  function Listed(children: ChildLists, p: Digest): seq<Digest> {
    if p in children then children[p] else []
  }

  function AddChild(children: ChildLists, parents: seq<Digest>, hash: Digest): ChildLists {
    if parents == [] then children
    else
      var n := |parents| - 1;
      var before := AddChild(children, parents[..n], hash);
      before[parents[n] := Listed(before, parents[n]) + [hash]]
  }

  function Put(s: Store, n: DagNode): Store {
    var children := AddChild(s.children, n.parents, n.hash);
    Store(s.nodes[n.hash := n], children[n.hash := Listed(children, n.hash)])
  }

  function AfterAppend(s: Store, n: DagNode, now: u64): Store {
    if AppendError(s.nodes, n, now).Some? then s else Put(s, n)
  }

  /** What `verify_stored_integrity` reports for a stored hash. */
  predicate Intact(h: Hasher, nodes: Nodes, x: Digest)
    requires x in nodes
  {
    (forall p :: p in nodes[x].parents ==> p in nodes) && ContentHash(h, nodes[x]) == nodes[x].hash
  }

  /** The stored hashes without a listed child, ascending. */
  function TipsOf(s: Store): seq<Digest> {
    Sorted(set x | x in s.nodes && Listed(s.children, x) == [])
  }

  class MemoryStore {
    var nodes: Nodes
    var children: ChildLists

    function Value(): Store
      reads this
    {
      Store(nodes, children)
    }

    constructor ()
      ensures Value() == EMPTY
    {
      nodes, children := map[], map[];
    }

    method PutNode(n: DagNode)
      modifies this
      ensures Value() == Put(old(Value()), n)
    {
      for i := 0 to |n.parents|
        invariant nodes == old(nodes) && children == AddChild(old(children), n.parents[..i], n.hash)
      {
        var p := n.parents[i];
        assert n.parents[..i + 1][..i] == n.parents[..i];
        children := children[p := (if p in children then children[p] else []) + [n.hash]];
      }
      assert n.parents[..|n.parents|] == n.parents;
      children := children[n.hash := if n.hash in children then children[n.hash] else []];
      nodes := nodes[n.hash := n];
    }

    method ValidatedAppend(n: DagNode, now: u64) returns (r: Result<(), StoreError>)
      modifies this
      ensures Value() == AfterAppend(old(Value()), n, now)
      ensures r == match AppendError(old(nodes), n, now) case Some(e) => Err(e) case None => Ok(())
    {
      if n.timestamp.physicalMs > 0 {
        if n.timestamp.physicalMs > Horizon(now) {
          return Err(ClockSkew);
        }
      }
      for i := 0 to |n.parents|
        invariant ParentError(nodes, n.parents[i..], n.timestamp) == ParentError(nodes, n.parents, n.timestamp)
      {
        var p := n.parents[i];
        assert n.parents[i..][0] == p && n.parents[i..][1..] == n.parents[i + 1..];
        if p !in nodes {
          return Err(MissingParent(p));
        }
        if n.timestamp.AtMost(nodes[p].timestamp) {
          return Err(CausalityViolation(p));
        }
      }
      PutNode(n);
      return Ok(());
    }

    method VerifyStoredIntegrity(h: Hasher, x: Digest) returns (r: Result<bool, StoreError>)
      ensures r == if x in nodes then Ok(Intact(h, nodes, x)) else Err(NodeNotFound)
    {
      if x !in nodes {
        return Err(NodeNotFound);
      }
      var n := nodes[x];
      for i := 0 to |n.parents|
        invariant forall k :: 0 <= k < i ==> n.parents[k] in nodes
      {
        if n.parents[i] !in nodes {
          assert n.parents[i] in n.parents;
          return Ok(false);
        }
      }
      return Ok(ContentHash(h, n) == n.hash);
    }

    method Tips() returns (tips: seq<Digest>)
      ensures tips == TipsOf(Value())
    {
      tips := Sorted(set x | x in nodes && (x !in children || |children[x]| == 0));
      assert (set x | x in nodes && (x !in children || |children[x]| == 0)) == (set x | x in nodes && Listed(children, x) == []);
    }
  }

  // ---------------------------------------------------------------------
  // Stores built by validated appends
  // ---------------------------------------------------------------------

  /** The store after appending the given nodes at the given wall-clock readings. */
  function StoreAfter(run: seq<(DagNode, u64)>): Store {
    if run == [] then EMPTY
    else
      var n := |run| - 1;
      AfterAppend(StoreAfter(run[..n]), run[n].0, run[n].1)
  }

  ghost predicate Closed(nodes: Nodes) {
    forall x :: x in nodes ==> nodes[x].hash == x && forall p :: p in nodes[x].parents ==> p in nodes
  }

  /** Every parent is stored and strictly older. */
  ghost predicate Causal(nodes: Nodes) {
    && Closed(nodes)
    && (forall x, p :: x in nodes && p in nodes[x].parents ==> nodes[p].timestamp.Before(nodes[x].timestamp))
  }

  ghost predicate AllCanonical(h: Hasher, nodes: Nodes) {
    forall x :: x in nodes ==> Canonical(h, nodes[x])
  }

  lemma {:induction false} AcceptedParents(nodes: Nodes, parents: seq<Digest>, t: Timestamp)
    ensures ParentError(nodes, parents, t).None? <==>
            forall p :: p in parents ==> p in nodes && nodes[p].timestamp.Before(t)
  {
    if parents != [] {
      AcceptedParents(nodes, parents[1..], t);
      assert forall p :: p in parents <==> p == parents[0] || p in parents[1..];
    }
  }

  /** A node is accepted exactly when it is at most the skew ahead of the wall clock and its
      parents are stored and older. */
  lemma AcceptedExactly(nodes: Nodes, n: DagNode, now: u64)
    ensures AppendError(nodes, n, now).None? <==>
            && n.timestamp.physicalMs <= now + 500
            && forall p :: p in n.parents ==> p in nodes && nodes[p].timestamp.Before(n.timestamp)
    ensures AppendError(nodes, n, now) == Some(ClockSkew) <==> n.timestamp.physicalMs > now + 500
  {
    AcceptedParents(nodes, n.parents, n.timestamp);
    NeverSkew(nodes, n.parents, n.timestamp);
  }

  /** Within the skew, the first parent that is not stored or not older gives the error. */
  lemma {:induction false} FirstBadParent(nodes: Nodes, n: DagNode, now: u64, i: nat)
    requires n.timestamp.physicalMs <= now + 500 && i < |n.parents|
    requires forall k :: 0 <= k < i ==> n.parents[k] in nodes && nodes[n.parents[k]].timestamp.Before(n.timestamp)
    requires !(n.parents[i] in nodes && nodes[n.parents[i]].timestamp.Before(n.timestamp))
    ensures AppendError(nodes, n, now) ==
            Some(if n.parents[i] in nodes then CausalityViolation(n.parents[i]) else MissingParent(n.parents[i]))
  {
    FirstBadInList(nodes, n.parents, n.timestamp, i);
  }

  lemma {:induction false} FirstBadInList(nodes: Nodes, parents: seq<Digest>, t: Timestamp, i: nat)
    requires i < |parents|
    requires forall k :: 0 <= k < i ==> parents[k] in nodes && nodes[parents[k]].timestamp.Before(t)
    requires !(parents[i] in nodes && nodes[parents[i]].timestamp.Before(t))
    ensures ParentError(nodes, parents, t) ==
            Some(if parents[i] in nodes then CausalityViolation(parents[i]) else MissingParent(parents[i]))
    decreases i
  {
    if i > 0 {
      FirstBadInList(nodes, parents[1..], t, i - 1);
    }
  }

  lemma {:induction false} NeverSkew(nodes: Nodes, parents: seq<Digest>, t: Timestamp)
    ensures ParentError(nodes, parents, t) != Some(ClockSkew)
  {
    if parents != [] {
      NeverSkew(nodes, parents[1..], t);
    }
  }

  /** Append `i` of the run stored `n`, at most the skew ahead of the clock then. */
  ghost predicate StoredBy(run: seq<(DagNode, u64)>, i: nat, n: DagNode) {
    i < |run| && run[i].0 == n && (var wall: int := run[i].1; n.timestamp.physicalMs <= wall + 500)
  }

  /** In every run, each stored node was appended when its timestamp was at most 500 ms ahead. */
  lemma {:induction false} RunsAreTimely(run: seq<(DagNode, u64)>, x: Digest)
    requires x in StoreAfter(run).nodes
    ensures exists i: nat :: StoredBy(run, i, StoreAfter(run).nodes[x])
    decreases |run|
  {
    var n := |run| - 1;
    var s, node := StoreAfter(run[..n]), StoreAfter(run).nodes[x];
    AcceptedExactly(s.nodes, run[n].0, run[n].1);
    if node == run[n].0 && AppendError(s.nodes, run[n].0, run[n].1).None? {
      assert StoredBy(run, n, node);
    } else {
      RunsAreTimely(run[..n], x);
      var i: nat :| StoredBy(run[..n], i, s.nodes[x]);
      assert StoredBy(run, i, node);
    }
  }

  /** An accepted append keeps the store causal exactly when the node is not its own parent
      and any stored child of its hash is newer than it. */
  lemma AppendCausalExactly(nodes: Nodes, n: DagNode, now: u64)
    requires Causal(nodes) && AppendError(nodes, n, now).None?
    ensures Causal(nodes[n.hash := n]) <==>
            && n.hash !in n.parents
            && forall c :: c in nodes && c != n.hash && n.hash in nodes[c].parents ==> n.timestamp.Before(nodes[c].timestamp)
  {
    AcceptedParents(nodes, n.parents, n.timestamp);
    var after := nodes[n.hash := n];
    if Causal(after) {
      forall c | c in nodes && c != n.hash && n.hash in nodes[c].parents
        ensures n.timestamp.Before(nodes[c].timestamp)
      {
        assert after[c] == nodes[c];
      }
      assert n.hash in after && after[n.hash] == n;
    }
  }

  /** The condition is needed: a node that reuses a stored hash with a later timestamp is
      accepted and leaves its child older than its parent. */
  lemma ReusedHashBreaksCausality(a: Digest, b: Digest, x: Digest, d: Did, now: u64)
    requires a != b
    ensures var run := [(DagNode(a, [], x, d, Timestamp(0, 1), x), now), (DagNode(b, [a], x, d, Timestamp(0, 2), x), now),
                        (DagNode(a, [], x, d, Timestamp(0, 3), x), now)];
            && AppendError(StoreAfter(run[..2]).nodes, run[2].0, now).None?
            && !Causal(StoreAfter(run).nodes)
  {
    var first := (DagNode(a, [], x, d, Timestamp(0, 1), x), now);
    var child := (DagNode(b, [a], x, d, Timestamp(0, 2), x), now);
    var again := (DagNode(a, [], x, d, Timestamp(0, 3), x), now);
    var run := [first, child, again];
    var one, two := [first], [first, child];
    assert run[..2] == two && two[..1] == one && |one[..0]| == 0;
    assert StoreAfter(one).nodes == map[a := first.0];
    assert |child.0.parents[1..]| == 0;
    assert ParentError(map[a := first.0], [a], Timestamp(0, 2)) == None;
    assert StoreAfter(two).nodes == map[a := first.0][b := child.0];
    var end := StoreAfter(run).nodes;
    assert end == map[a := first.0][b := child.0][a := again.0];
    assert a in end[b].parents;
  }

  lemma AppendKeepsCausal(h: Hasher, nodes: Nodes, n: DagNode, now: u64)
    requires CollisionFree(h) && Causal(nodes) && AllCanonical(h, nodes) && Canonical(h, n)
    requires AppendError(nodes, n, now).None?
    ensures Causal(nodes[n.hash := n]) && AllCanonical(h, nodes[n.hash := n])
    ensures n.hash in nodes ==> SameContent(nodes[n.hash], n)
  {
    AcceptedParents(nodes, n.parents, n.timestamp);
    if n.hash in nodes {
      assert ContentHash(h, nodes[n.hash]) == ContentHash(h, n);
      assert SameContent(nodes[n.hash], n);
    }
    AppendCausalExactly(nodes, n, now);
  }

  /** In every store built from nodes that carry their canonical hash, parents are strictly
      older than children. */
  lemma {:induction false} RunsAreCausal(h: Hasher, run: seq<(DagNode, u64)>)
    requires CollisionFree(h) && forall i :: 0 <= i < |run| ==> Canonical(h, run[i].0)
    ensures Causal(StoreAfter(run).nodes) && AllCanonical(h, StoreAfter(run).nodes)
    decreases |run|
  {
    if run != [] {
      var n := |run| - 1;
      RunsAreCausal(h, run[..n]);
      var nodes := StoreAfter(run[..n]).nodes;
      if AppendError(nodes, run[n].0, run[n].1).None? {
        AppendKeepsCausal(h, nodes, run[n].0, run[n].1);
      }
    }
  }

  /** Timestamps strictly increase from any ancestor to any descendant, so there is no cycle. */
  lemma {:induction false} AncestorsAreOlder(nodes: Nodes, a: Digest, x: Digest, n: nat)
    requires Causal(nodes) && x in nodes && n > 0 && AncestorIn(nodes, a, x, n)
    ensures a in nodes && nodes[a].timestamp.Before(nodes[x].timestamp) && a != x
    decreases n
  {
    var p :| p in ParentsOf(nodes, x) && AncestorIn(nodes, a, p, n - 1);
    if n > 1 {
      AncestorsAreOlder(nodes, a, p, n - 1);
    }
  }

  /** Parents never go missing, whatever is appended. */
  lemma {:induction false} RunsAreClosed(run: seq<(DagNode, u64)>)
    ensures Closed(StoreAfter(run).nodes)
    decreases |run|
  {
    if run != [] {
      var n := |run| - 1;
      RunsAreClosed(run[..n]);
      AcceptedParents(StoreAfter(run[..n]).nodes, run[n].0.parents, run[n].0.timestamp);
    }
  }

  /** Integrity of a stored node, exactly: for every run whatsoever it is reported true if and
      only if the stored node carries its canonical hash. */
  lemma IntegrityExactly(h: Hasher, run: seq<(DagNode, u64)>, x: Digest)
    requires x in StoreAfter(run).nodes
    ensures Intact(h, StoreAfter(run).nodes, x) <==> Canonical(h, StoreAfter(run).nodes[x])
  {
    RunsAreClosed(run);
  }

  lemma {:induction false} CanonicalRun(h: Hasher, run: seq<(DagNode, u64)>)
    requires forall i :: 0 <= i < |run| ==> Canonical(h, run[i].0)
    ensures AllCanonical(h, StoreAfter(run).nodes)
    decreases |run|
  {
    if run != [] {
      CanonicalRun(h, run[..|run| - 1]);
    }
  }

  /** Every node of a canonical run verifies, also after being appended again. */
  lemma {:induction false} CanonicalRunsAreIntact(h: Hasher, run: seq<(DagNode, u64)>, x: Digest)
    requires forall i :: 0 <= i < |run| ==> Canonical(h, run[i].0)
    requires x in StoreAfter(run).nodes
    ensures Intact(h, StoreAfter(run).nodes, x)
  {
    CanonicalRun(h, run);
    IntegrityExactly(h, run, x);
  }

  // ---------------------------------------------------------------------
  // Tips
  // ---------------------------------------------------------------------

  /** The child lists name, possibly more than once, exactly the children. */
  ghost predicate ChildrenMatch(s: Store) {
    forall p, c :: c in Listed(s.children, p) <==> c in s.nodes && p in s.nodes[c].parents
  }

  lemma {:induction false} AddChildMembers(children: ChildLists, parents: seq<Digest>, hash: Digest, p: Digest, c: Digest)
    ensures c in Listed(AddChild(children, parents, hash), p) <==> c in Listed(children, p) || (c == hash && p in parents)
    decreases |parents|
  {
    if parents != [] {
      var n := |parents| - 1;
      AddChildMembers(children, parents[..n], hash, p, c);
      assert parents == parents[..n] + [parents[n]];
    }
  }

  lemma PutKeepsChildren(s: Store, n: DagNode)
    requires ChildrenMatch(s) && (n.hash in s.nodes ==> SameContent(s.nodes[n.hash], n))
    ensures ChildrenMatch(Put(s, n))
  {
    forall p, c
      ensures c in Listed(Put(s, n).children, p) <==> c in Put(s, n).nodes && p in Put(s, n).nodes[c].parents
    {
      AddChildMembers(s.children, n.parents, n.hash, p, c);
    }
  }

  /** In every canonical run the child lists name exactly the children. */
  lemma {:induction false} CanonicalRunChildren(h: Hasher, run: seq<(DagNode, u64)>)
    requires CollisionFree(h) && forall i :: 0 <= i < |run| ==> Canonical(h, run[i].0)
    ensures ChildrenMatch(StoreAfter(run))
    decreases |run|
  {
    if run != [] {
      var n := |run| - 1;
      CanonicalRunChildren(h, run[..n]);
      RunsAreCausal(h, run[..n]);
      var s := StoreAfter(run[..n]);
      if AppendError(s.nodes, run[n].0, run[n].1).None? {
        AppendKeepsCausal(h, s.nodes, run[n].0, run[n].1);
        PutKeepsChildren(s, run[n].0);
      }
    }
  }

  /** Some stored node is at least as late as every other. */
  lemma {:induction false} LatestExists(nodes: Nodes, among: set<Digest>) returns (m: Digest)
    requires among != {} && among <= nodes.Keys
    ensures m in among && forall x :: x in among ==> nodes[x].timestamp.AtMost(nodes[m].timestamp)
    decreases |among|
  {
    var y :| y in among;
    m := y;
    var rest := among - {y};
    if rest != {} {
      var k := LatestExists(nodes, rest);
      m := if nodes[y].timestamp.Before(nodes[k].timestamp) then k else y;
    }
    assert forall x :: x in among ==> x == y || x in rest;
  }

  /** In every canonical run the tips are exactly the nodes that no stored node names as a
      parent, and there is one unless the store is empty. */
  lemma {:induction false} CanonicalRunTips(h: Hasher, run: seq<(DagNode, u64)>)
    requires CollisionFree(h) && forall i :: 0 <= i < |run| ==> Canonical(h, run[i].0)
    ensures var s := StoreAfter(run);
            && (forall x :: x in TipsOf(s) <==> x in s.nodes && forall c :: c in s.nodes ==> x !in s.nodes[c].parents)
            && (s.nodes != map[] ==> TipsOf(s) != [])
  {
    var s := StoreAfter(run);
    CanonicalRunChildren(h, run);
    RunsAreCausal(h, run);
    forall x
      ensures Listed(s.children, x) == [] <==> forall c :: c in s.nodes ==> x !in s.nodes[c].parents
    {
      NothingListed(s, x);
    }
    assert forall x :: x in TipsOf(s) <==> x in Members(TipsOf(s));
    if s.nodes != map[] {
      var m := LatestExists(s.nodes, s.nodes.Keys);
      assert m in TipsOf(s);
    }
  }

  lemma NothingListed(s: Store, x: Digest)
    requires ChildrenMatch(s)
    ensures Listed(s.children, x) == [] <==> forall c :: c in s.nodes ==> x !in s.nodes[c].parents
  {
    var listed := Listed(s.children, x);
    if listed != [] {
      assert listed[0] in listed;
      assert listed[0] in s.nodes && x in s.nodes[listed[0]].parents;
    }
  }
}
