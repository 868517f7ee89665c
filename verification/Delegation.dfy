/** Delegation registry and authority chains (crates/exo-authority/src/delegation.rs and
    chain.rs). */
module Delegation {
  import opened Basics

  type Permission = string

  datatype DelegateeKind = Human | AiAgent(modelId: string) | Unknown

  datatype Link = Link(delegator: Did, delegate: Did, scope: seq<Permission>, created: Timestamp,
                       expires: Option<Timestamp>, signature: Digest, depth: nat, kind: DelegateeKind)

  /** The signature every registered link carries. */
  const PLACEHOLDER: Digest := Digest(1)

  datatype Hasher = Hasher(digest: Link -> Digest) {
    /** A link's id covers everything but the signature. */
    function Id(l: Link): Digest { digest(l.(signature := ZERO)) }
  }

  /** Links with the same id have the same contents. */
  ghost predicate CollisionFree(h: Hasher) {
    forall k, l :: h.Id(k) == h.Id(l) ==> k.(signature := ZERO) == l.(signature := ZERO)
  }

  // ---------------------------------------------------------------------
  // The delegation graph
  // ---------------------------------------------------------------------

  type Links = map<Digest, Link>

  ghost predicate Edge(links: Links, a: Did, b: Did) {
    exists id :: id in links && links[id].delegator == a && links[id].delegate == b
  }

  /** `b` is reached from `a` over `n` registered links. */
  ghost predicate ReachIn(links: Links, a: Did, b: Did, n: nat)
    decreases n
  {
    if n == 0 then a == b else exists c :: Edge(links, a, c) && ReachIn(links, c, b, n - 1)
  }

  ghost predicate Reaches(links: Links, a: Did, b: Did) {
    exists n: nat :: ReachIn(links, a, b, n)
  }

  ghost predicate Acyclic(links: Links) {
    forall d, n: nat :: ReachIn(links, d, d, n) ==> n == 0
  }

  lemma ReachStep(links: Links, a: Did, c: Did, b: Did)
    requires Edge(links, a, c) && Reaches(links, c, b)
    ensures Reaches(links, a, b)
  {
    var n: nat :| ReachIn(links, c, b, n);
    assert ReachIn(links, a, b, n + 1);
  }

  lemma {:induction false} ReachTrans(links: Links, a: Did, b: Did, c: Did, n: nat)
    requires ReachIn(links, a, b, n) && Reaches(links, b, c)
    ensures Reaches(links, a, c)
    decreases n
  {
    if n > 0 {
      var d :| Edge(links, a, d) && ReachIn(links, d, b, n - 1);
      ReachTrans(links, d, b, c, n - 1);
      ReachStep(links, a, d, c);
    }
  }

  /** A path of a graph with one more edge is an old path or goes through that edge. */
  lemma {:induction false} SplitPath(before: Links, after: Links, from: Did, to: Did, a: Did, b: Did, n: nat)
    requires forall x, y :: Edge(after, x, y) ==> Edge(before, x, y) || (x == from && y == to)
    requires ReachIn(after, a, b, n)
    ensures ReachIn(before, a, b, n) || (Reaches(before, a, from) && Reaches(before, to, b))
    decreases n
  {
    if n > 0 {
      var c :| Edge(after, a, c) && ReachIn(after, c, b, n - 1);
      SplitPath(before, after, from, to, c, b, n - 1);
      if Edge(before, a, c) {
        if !ReachIn(before, c, b, n - 1) {
          ReachStep(before, a, c, from);
        }
      } else {
        assert ReachIn(before, a, from, 0);
        if ReachIn(before, c, b, n - 1) {
          assert Reaches(before, to, b);
        }
      }
    }
  }

  /** Adding an edge that closes no path keeps the graph acyclic. */
  lemma AddEdgeAcyclic(before: Links, after: Links, from: Did, to: Did)
    requires Acyclic(before) && !Reaches(before, to, from)
    requires forall x, y :: Edge(after, x, y) ==> Edge(before, x, y) || (x == from && y == to)
    ensures Acyclic(after)
  {
    forall d, n: nat | ReachIn(after, d, d, n)
      ensures n == 0
    {
      SplitPath(before, after, from, to, d, d, n);
      if !ReachIn(before, d, d, n) {
        var m: nat :| ReachIn(before, to, d, m);
        ReachTrans(before, to, d, from, m);
      }
    }
  }

  lemma {:induction false} SubPath(before: Links, after: Links, a: Did, b: Did, n: nat)
    requires forall x, y :: Edge(after, x, y) ==> Edge(before, x, y)
    requires ReachIn(after, a, b, n)
    ensures ReachIn(before, a, b, n)
    decreases n
  {
    if n > 0 {
      var c :| Edge(after, a, c) && ReachIn(after, c, b, n - 1);
      SubPath(before, after, c, b, n - 1);
    }
  }

  lemma RemoveEdgeAcyclic(before: Links, after: Links)
    requires Acyclic(before) && forall x, y :: Edge(after, x, y) ==> Edge(before, x, y)
    ensures Acyclic(after)
  {
    forall d, n: nat | ReachIn(after, d, d, n)
      ensures n == 0
    {
      SubPath(before, after, d, d, n);
    }
  }

  /** A set closed under edges contains everything reachable from its members. */
  lemma {:induction false} ClosedUnderReach(links: Links, s: set<Did>, a: Did, b: Did, n: nat)
    requires forall v, w :: v in s && Edge(links, v, w) ==> w in s
    requires a in s && ReachIn(links, a, b, n)
    ensures b in s
    decreases n
  {
    if n > 0 {
      var c :| Edge(links, a, c) && ReachIn(links, c, b, n - 1);
      ClosedUnderReach(links, s, c, b, n - 1);
    }
  }

  // ---------------------------------------------------------------------
  // Indexes
  // ---------------------------------------------------------------------

  type Index = map<Did, seq<Digest>>

  function IdsOf(index: Index, d: Did): seq<Digest> {
    if d in index then index[d] else []
  }

  function EndOf(l: Link, forward: bool): Did {
    if forward then l.delegator else l.delegate
  }

  /** The index lists, under each DID, exactly the links that start (or end) there. */
  ghost predicate Indexes(index: Index, links: Links, forward: bool) {
    forall d, id :: id in IdsOf(index, d) <==> id in links && EndOf(links[id], forward) == d
  }

  ghost predicate Registered(h: Hasher, links: Links) {
    forall id :: id in links ==> h.Id(links[id]) == id && links[id].signature == PLACEHOLDER
  }

  function Push(index: Index, d: Did, id: Digest): Index {
    index[d := IdsOf(index, d) + [id]]
  }

  function Retain(ids: seq<Digest>, gone: Digest): (r: seq<Digest>)
    ensures forall id :: id in r <==> id in ids && id != gone
  {
    if ids == [] then [] else (if ids[0] != gone then [ids[0]] else []) + Retain(ids[1..], gone)
  }

  lemma IndexedAt(index: Index, links: Links, forward: bool, d: Did, id: Digest)
    requires Indexes(index, links, forward)
    ensures id in IdsOf(index, d) <==> id in links && EndOf(links[id], forward) == d
  {
  }

  lemma PushIndexes(index: Index, links: Links, id: Digest, l: Link, forward: bool)
    requires Indexes(index, links, forward) && (id in links ==> links[id] == l)
    ensures Indexes(Push(index, EndOf(l, forward), id), links[id := l], forward)
  {
    var after := Push(index, EndOf(l, forward), id);
    forall d, i
      ensures i in IdsOf(after, d) <==> i in links[id := l] && EndOf(links[id := l][i], forward) == d
    {
      IndexedAt(index, links, forward, d, i);
      assert d == EndOf(l, forward) ==> IdsOf(after, d) == IdsOf(index, d) + [id];
    }
  }

  function Drop(index: Index, d: Did, gone: Digest): Index {
    if d in index then index[d := Retain(index[d], gone)] else index
  }

  lemma DropIndexes(index: Index, links: Links, gone: Digest, forward: bool)
    requires Indexes(index, links, forward) && gone in links
    ensures Indexes(Drop(index, EndOf(links[gone], forward), gone), links - {gone}, forward)
  {
    var d0 := EndOf(links[gone], forward);
    forall d, i
      ensures i in IdsOf(Drop(index, d0, gone), d) <==> i in links - {gone} && EndOf((links - {gone})[i], forward) == d
    {
      IndexedAt(index, links, forward, d, i);
      IndexedAt(index, links, forward, d, gone);
    }
  }

  /** The edges out of `a`, read off the forward index. */
  lemma EdgesByIndex(index: Index, links: Links, a: Did, b: Did)
    requires Indexes(index, links, true)
    ensures Edge(links, a, b) <==>
            exists i :: 0 <= i < |IdsOf(index, a)| && IdsOf(index, a)[i] in links && links[IdsOf(index, a)[i]].delegate == b
  {
    if Edge(links, a, b) {
      var id :| id in links && links[id].delegator == a && links[id].delegate == b;
      IndexedAt(index, links, true, a, id);
    }
    if exists i :: 0 <= i < |IdsOf(index, a)| && IdsOf(index, a)[i] in links && links[IdsOf(index, a)[i]].delegate == b {
      var i :| 0 <= i < |IdsOf(index, a)| && IdsOf(index, a)[i] in links && links[IdsOf(index, a)[i]].delegate == b;
      IndexedAt(index, links, true, a, IdsOf(index, a)[i]);
    }
  }

  // ---------------------------------------------------------------------
  // Bounded paths
  // ---------------------------------------------------------------------

  const DEFAULT_MAX_DEPTH: nat := 5

  ghost predicate ReachWithin(links: Links, a: Did, b: Did, m: nat) {
    exists n: nat :: 1 <= n <= m && ReachIn(links, a, b, n)
  }

  lemma WithinStep(links: Links, a: Did, b: Did, m: nat)
    requires m > 0
    ensures ReachWithin(links, a, b, m) <==> exists c :: Edge(links, a, c) && (c == b || ReachWithin(links, c, b, m - 1))
  {
    if ReachWithin(links, a, b, m) {
      var n: nat :| 1 <= n <= m && ReachIn(links, a, b, n);
      var c :| Edge(links, a, c) && ReachIn(links, c, b, n - 1);
      assert n > 1 ==> ReachWithin(links, c, b, m - 1);
    }
    if exists c :: Edge(links, a, c) && (c == b || ReachWithin(links, c, b, m - 1)) {
      var c :| Edge(links, a, c) && (c == b || ReachWithin(links, c, b, m - 1));
      if c == b {
        assert ReachIn(links, c, b, 0);
        assert ReachIn(links, a, b, 1);
      } else {
        var n: nat :| 1 <= n <= m - 1 && ReachIn(links, c, b, n);
        assert ReachIn(links, a, b, n + 1);
      }
    }
  }

  ghost predicate Contiguous(trail: seq<Link>) {
    forall i :: 0 <= i < |trail| - 1 ==> trail[i].delegate == trail[i + 1].delegator
  }

  /** `trail` is a contiguous list of registered links that leads from `a` to `b`. */
  ghost predicate IsTrail(links: Links, trail: seq<Link>, a: Did, b: Did) {
    && |trail| > 0 && trail[0].delegator == a && trail[|trail| - 1].delegate == b
    && Contiguous(trail)
    && (forall i :: 0 <= i < |trail| ==> trail[i] in links.Values)
  }

  lemma TrailCons(links: Links, l: Link, rest: seq<Link>, b: Did)
    requires l in links.Values && IsTrail(links, rest, l.delegate, b)
    ensures IsTrail(links, [l] + rest, l.delegator, b)
  {
    var trail := [l] + rest;
    forall i | 0 <= i < |trail| - 1
      ensures trail[i].delegate == trail[i + 1].delegator
    {
      if i > 0 {
        assert trail[i] == rest[i - 1] && trail[i + 1] == rest[i - 1 + 1];
      }
    }
  }

  // ---------------------------------------------------------------------
  // Authority chains
  // ---------------------------------------------------------------------

  datatype Chain = Chain(links: seq<Link>, maxDepth: nat)

  datatype Error = CircularDelegation | NotFound | EmptyChain | DepthExceeded | ChainBroken(index: nat)
                 | InvalidSignature(at: nat) | ExpiredLink(at: nat) | ScopeWidening(at: nat)

  ghost predicate BuildsChain(links: seq<Link>, maxDepth: nat) {
    && 0 < |links| <= maxDepth && Contiguous(links)
    && (forall i :: 0 <= i < |links| ==> links[i].depth == i)
  }

  /** Link `i` has its depth and continues the link before it. */
  predicate Follows(links: seq<Link>, i: nat)
    requires i < |links|
  {
    links[i].depth == i && (i > 0 ==> links[i - 1].delegate == links[i].delegator)
  }

  ghost predicate FirstBreak(links: seq<Link>, i: nat) {
    i < |links| && !Follows(links, i) && forall k :: 0 <= k < i ==> Follows(links, k)
  }

  method BuildChainWithDepth(links: seq<Link>, maxDepth: nat) returns (r: Result<Chain, Error>)
    ensures r.Ok? <==> BuildsChain(links, maxDepth)
    ensures r.Ok? ==> r.value == Chain(links, maxDepth)
    ensures r == Err(EmptyChain) <==> links == []
    ensures r == Err(DepthExceeded) <==> |links| > 0 && |links| > maxDepth
    ensures r.Err? && links != [] && |links| <= maxDepth ==> r.error.ChainBroken? && FirstBreak(links, r.error.index)
  {
    if |links| == 0 {
      return Err(EmptyChain);
    }
    if |links| > maxDepth {
      return Err(DepthExceeded);
    }
    for i := 0 to |links|
      invariant forall k :: 0 <= k < i ==> links[k].depth == k
      invariant forall k :: 0 <= k < i - 1 ==> links[k].delegate == links[k + 1].delegator
      invariant forall k :: 0 <= k < i ==> Follows(links, k)
    {
      if links[i].depth != i {
        return Err(ChainBroken(i));
      }
      if i > 0 {
        if links[i - 1].delegate != links[i].delegator {
          assert links[i - 1].delegate != links[i - 1 + 1].delegator;
          return Err(ChainBroken(i));
        }
      }
    }
    return Ok(Chain(links, maxDepth));
  }

  function ScopeSet(l: Link): set<Permission> {
    set p | p in l.scope
  }

  /** What `verify_chain` accepts; `genuine` stands for signature verification with the
      delegator's resolved key. */
  ghost predicate Verified(chain: Chain, now: Timestamp, genuine: Link -> bool) {
    && 0 < |chain.links| <= chain.maxDepth
    && (forall i :: 0 <= i < |chain.links| ==> Admissible(chain.links[i], now, genuine))
    && (forall i :: 0 <= i < |chain.links| - 1 ==> ScopeSet(chain.links[i + 1]) <= ScopeSet(chain.links[i]))
  }

  predicate Admissible(l: Link, now: Timestamp, genuine: Link -> bool) {
    genuine(l) && (l.expires.Some? ==> !l.expires.value.IsExpired(now))
  }

  /** Link `i` is genuine, unexpired and grants nothing the link before it does not. */
  ghost predicate Passes(links: seq<Link>, i: nat, now: Timestamp, genuine: Link -> bool)
    requires i < |links|
  {
    && genuine(links[i]) && (links[i].expires.Some? ==> now.Before(links[i].expires.value))
    && (i > 0 ==> forall p :: p in links[i].scope ==> p in links[i - 1].scope)
  }

  /** `e` names the first link that does not pass, and the first check it fails. */
  ghost predicate FirstFault(links: seq<Link>, now: Timestamp, genuine: Link -> bool, e: Error) {
    && (e.InvalidSignature? || e.ExpiredLink? || e.ScopeWidening?)
    && e.at < |links| && (forall k :: 0 <= k < e.at ==> Passes(links, k, now, genuine)) && !Passes(links, e.at, now, genuine)
    && (e.InvalidSignature? <==> !genuine(links[e.at]))
    && (e.ExpiredLink? <==> genuine(links[e.at]) && links[e.at].expires.Some? && !now.Before(links[e.at].expires.value))
  }

  lemma ScopeIncluded(a: Link, b: Link)
    ensures ScopeSet(a) <= ScopeSet(b) <==> forall p :: p in a.scope ==> p in b.scope
  {
    forall p
      ensures p in a.scope <==> p in ScopeSet(a)
      ensures p in b.scope <==> p in ScopeSet(b)
    {
    }
  }

  /** What verification establishes, link by link. */
  lemma {:induction false} VerifiedExactly(chain: Chain, now: Timestamp, genuine: Link -> bool)
    ensures Verified(chain, now, genuine) <==>
            0 < |chain.links| <= chain.maxDepth && forall i :: 0 <= i < |chain.links| ==> Passes(chain.links, i, now, genuine)
  {
    var links := chain.links;
    if Verified(chain, now, genuine) {
      forall i | 0 <= i < |links|
        ensures Passes(links, i, now, genuine)
      {
        assert Admissible(links[i], now, genuine);
        if i > 0 {
          assert ScopeSet(links[i - 1 + 1]) <= ScopeSet(links[i - 1]);
          ScopeIncluded(links[i], links[i - 1]);
        }
      }
    }
    if forall i :: 0 <= i < |links| ==> Passes(links, i, now, genuine) {
      forall i | 0 <= i < |links|
        ensures Admissible(links[i], now, genuine)
      {
        assert Passes(links, i, now, genuine);
      }
      forall i | 0 <= i < |links| - 1
        ensures ScopeSet(links[i + 1]) <= ScopeSet(links[i])
      {
        var j := i + 1;
        assert Passes(links, j, now, genuine);
        ScopeIncluded(links[j], links[i]);
      }
    }
  }

  method VerifyChain(chain: Chain, now: Timestamp, genuine: Link -> bool) returns (r: Result<(), Error>)
    ensures r.Ok? <==> Verified(chain, now, genuine)
    ensures r == Err(EmptyChain) <==> chain.links == []
    ensures r == Err(DepthExceeded) <==> |chain.links| > 0 && |chain.links| > chain.maxDepth
    ensures r.Err? && chain.links != [] && |chain.links| <= chain.maxDepth ==> FirstFault(chain.links, now, genuine, r.error)
  {
    var links := chain.links;
    if |links| == 0 {
      return Err(EmptyChain);
    }
    if |links| > chain.maxDepth {
      return Err(DepthExceeded);
    }
    var prevScope: Option<set<Permission>> := None;
    for i := 0 to |links|
      invariant prevScope == if i == 0 then None else Some(ScopeSet(links[i - 1]))
      invariant forall k :: 0 <= k < i ==> Admissible(links[k], now, genuine)
      invariant forall k :: 0 <= k < i - 1 ==> ScopeSet(links[k + 1]) <= ScopeSet(links[k])
      invariant forall k :: 0 <= k < i ==> Passes(links, k, now, genuine)
    {
      assert Admissible(links[i], now, genuine) <==> genuine(links[i]) && (links[i].expires.Some? ==> !links[i].expires.value.IsExpired(now));
      if !genuine(links[i]) {
        return Err(InvalidSignature(i));
      }
      if links[i].expires.Some? && links[i].expires.value.IsExpired(now) {
        return Err(ExpiredLink(i));
      }
      var currentScope := ScopeSet(links[i]);
      if i > 0 {
        ScopeIncluded(links[i], links[i - 1]);
      }
      if prevScope.Some? && !(currentScope <= prevScope.value) {
        assert !(ScopeSet(links[i - 1 + 1]) <= ScopeSet(links[i - 1]));
        return Err(ScopeWidening(i));
      }
      prevScope := Some(currentScope);
    }
    return Ok(());
  }

  predicate HasPermission(chain: Chain, p: Permission) {
    forall i :: 0 <= i < |chain.links| ==> p in chain.links[i].scope
  }

  lemma {:induction false} ScopeNarrows(chain: Chain, i: nat, j: nat)
    requires forall k :: 0 <= k < |chain.links| - 1 ==> ScopeSet(chain.links[k + 1]) <= ScopeSet(chain.links[k])
    requires i <= j < |chain.links|
    ensures ScopeSet(chain.links[j]) <= ScopeSet(chain.links[i])
  {
    if i < j {
      ScopeNarrows(chain, i, j - 1);
      assert ScopeSet(chain.links[j - 1 + 1]) <= ScopeSet(chain.links[j - 1]);
    }
  }

  /** In a verified chain the last link alone decides what is permitted. */
  lemma LeafDecides(chain: Chain, now: Timestamp, genuine: Link -> bool, p: Permission)
    requires Verified(chain, now, genuine)
    ensures HasPermission(chain, p) <==> p in chain.links[|chain.links| - 1].scope
  {
    var n := |chain.links| - 1;
    if p in chain.links[n].scope {
      forall i | 0 <= i <= n
        ensures p in chain.links[i].scope
      {
        ScopeNarrows(chain, i, n);
        assert p in ScopeSet(chain.links[n]);
      }
    }
  }

  // ---------------------------------------------------------------------
  // The registry
  // ---------------------------------------------------------------------

  function Renumber(path: seq<Link>): (r: seq<Link>)
    ensures |r| == |path|
  {
    seq(|path|, i requires 0 <= i < |path| => path[i].(depth := i))
  }

  /** `depth` is one more than that of a link to `d`, or zero when there is none. */
  ghost predicate CountsOn(links: Links, d: Did, depth: nat) {
    if forall id :: id in links ==> links[id].delegate != d then depth == 0
    else exists id :: id in links && links[id].delegate == d && depth == links[id].depth + 1
  }

  class DelegationRegistry {
    const h: Hasher
    var links: Links
    var byDelegator: Index
    var byDelegate: Index

    ghost predicate Valid()
      reads this
    {
      && CollisionFree(h)
      && Registered(h, links)
      && Indexes(byDelegator, links, true)
      && Indexes(byDelegate, links, false)
      && Acyclic(links)
    }

    constructor (hasher: Hasher)
      requires CollisionFree(hasher)
      ensures Valid() && links == map[] && h == hasher
    {
      h, links, byDelegator, byDelegate := hasher, map[], map[], map[];
      new;
      assert forall a, b :: !Edge(links, a, b);
    }

    method HasPathInner(current: Did, target: Did, visited: set<Did>) returns (found: bool, after: set<Did>)
      requires Indexes(byDelegator, links, true) && target !in visited
      ensures visited <= after
      ensures found ==> Reaches(links, current, target)
      ensures !found ==> current in after && target !in after
      ensures !found ==> forall v, w :: v in after && v !in visited && Edge(links, v, w) ==> w in after
      decreases byDelegator.Keys - visited
    {
      if current == target {
        assert ReachIn(links, current, target, 0);
        return true, visited;
      }
      if current in visited {
        return false, visited;
      }
      after := visited + {current};
      var ids := IdsOf(byDelegator, current);
      for i := 0 to |ids|
        invariant visited + {current} <= after && target !in after
        invariant forall v, w :: v in after && v !in visited && v != current && Edge(links, v, w) ==> w in after
        invariant forall k :: 0 <= k < i && ids[k] in links ==> links[ids[k]].delegate in after
      {
        if ids[i] in links {
          var next := links[ids[i]].delegate;
          EdgesByIndex(byDelegator, links, current, next);
          assert current in byDelegator.Keys - visited;
          found, after := HasPathInner(next, target, after);
          if found {
            ReachStep(links, current, next, target);
            return;
          }
        }
      }
      forall w | Edge(links, current, w)
        ensures w in after
      {
        EdgesByIndex(byDelegator, links, current, w);
      }
      return false, after;
    }

    /** The visited-set search answers reachability exactly. */
    method HasPath(from: Did, to: Did) returns (found: bool)
      requires Indexes(byDelegator, links, true)
      ensures found <==> Reaches(links, from, to)
    {
      ghost var after;
      found, after := HasPathInner(from, to, {});
      if !found && Reaches(links, from, to) {
        ghost var n: nat :| ReachIn(links, from, to, n);
        ClosedUnderReach(links, after, from, to, n);
      }
    }

    function ComputeDepth(d: Did): nat
      reads this
    {
      var ids := IdsOf(byDelegate, d);
      if ids != [] && ids[0] in links then links[ids[0]].depth + 1 else 0
    }

    lemma DepthMeans(d: Did)
      requires Indexes(byDelegate, links, false)
      ensures CountsOn(links, d, ComputeDepth(d))
    {
      var ids := IdsOf(byDelegate, d);
      if ids != [] {
        IndexedAt(byDelegate, links, false, d, ids[0]);
      }
      forall id | id in links && links[id].delegate == d
        ensures ids != []
      {
        IndexedAt(byDelegate, links, false, d, id);
      }
    }

    /** The depth of a new link counts on from a link to its delegator. */
    method Delegate(from: Did, to: Did, scope: seq<Permission>, expires: Timestamp, now: Timestamp, kind: DelegateeKind)
      returns (r: Result<Link, Error>)
      requires Valid()
      modifies this
      ensures Valid()
      ensures r.Err? <==> Reaches(old(links), to, from)
      ensures r.Err? ==> r.error == CircularDelegation && links == old(links)
      ensures r.Ok? ==>
        && r.value == Link(from, to, scope, now, Some(expires), PLACEHOLDER, old(ComputeDepth(from)), kind)
        && links == old(links)[h.Id(r.value) := r.value]
      ensures r.Ok? ==> CountsOn(old(links), from, r.value.depth)
    {
      var circular := HasPath(to, from);
      if circular {
        return Err(CircularDelegation);
      }
      DepthMeans(from);
      var link := Link(from, to, scope, now, Some(expires), PLACEHOLDER, ComputeDepth(from), kind);
      Register(link);
      return Ok(link);
    }

    method Register(link: Link)
      requires Valid() && link.signature == PLACEHOLDER && !Reaches(links, link.delegate, link.delegator)
      modifies this
      ensures Valid() && links == old(links)[h.Id(link) := link]
    {
      var id := h.Id(link);
      assert id in links ==> links[id] == link by {
        assert id in links ==> links[id].(signature := ZERO) == link.(signature := ZERO);
      }
      PushIndexes(byDelegator, links, id, link, true);
      PushIndexes(byDelegate, links, id, link, false);
      AddEdgeAcyclic(links, links[id := link], link.delegator, link.delegate);
      links := links[id := link];
      byDelegator := Push(byDelegator, link.delegator, id);
      byDelegate := Push(byDelegate, link.delegate, id);
    }

    method RevokeDelegation(linkId: Digest) returns (r: Result<(), Error>)
      requires Valid()
      modifies this
      ensures Valid()
      ensures links == old(links) - {linkId}
      ensures r == if linkId in old(links) then Ok(()) else Err(NotFound)
    {
      if linkId !in links {
        return Err(NotFound);
      }
      var link := links[linkId];
      RemoveEdgeAcyclic(links, links - {linkId});
      DropIndexes(byDelegator, links, linkId, true);
      DropIndexes(byDelegate, links, linkId, false);
      links := links - {linkId};
      byDelegator := Drop(byDelegator, link.delegator, linkId);
      byDelegate := Drop(byDelegate, link.delegate, linkId);
      return Ok(());
    }

    /** Depth-bounded backtracking search. A failed branch leaves `path` as it was; a
        successful one appends a trail to the target. */
    method FindPathDfs(current: Did, target: Did, path: seq<Link>, depth: nat, maxDepth: nat)
      returns (found: bool, after: seq<Link>)
      requires Indexes(byDelegator, links, true) && depth <= maxDepth
      ensures found <==> ReachWithin(links, current, target, maxDepth - depth)
      ensures !found ==> after == path
      ensures found ==> path <= after && |after| - |path| <= maxDepth - depth &&
                        IsTrail(links, after[|path|..], current, target)
      decreases maxDepth - depth
    {
      after := path;
      if depth >= maxDepth {
        return false, after;
      }
      WithinStep(links, current, target, maxDepth - depth);
      var ids := IdsOf(byDelegator, current);
      for i := 0 to |ids|
        invariant after == path
        invariant forall k :: 0 <= k < i && ids[k] in links ==>
          links[ids[k]].delegate != target && !ReachWithin(links, links[ids[k]].delegate, target, maxDepth - depth - 1)
      {
        if ids[i] in links {
          var link := links[ids[i]];
          IndexedAt(byDelegator, links, true, current, ids[i]);
          assert Edge(links, current, link.delegate);
          after := after + [link];
          if link.delegate == target {
            assert after[|path|..] == [link];
            return true, after;
          }
          found, after := FindPathDfs(link.delegate, target, after, depth + 1, maxDepth);
          if found {
            assert after[|path|..] == [link] + after[|path| + 1..];
            TrailCons(links, link, after[|path| + 1..], target);
            return;
          }
          after := after[..|after| - 1];
        }
      }
      forall c | Edge(links, current, c)
        ensures c != target && !ReachWithin(links, c, target, maxDepth - depth - 1)
      {
        EdgesByIndex(byDelegator, links, current, c);
      }
      return false, after;
    }

    /** Sound and complete to depth 5: a chain is found exactly when 1 to 5 registered links
        lead from `from` to `to`; it is such a trail with its depths renumbered from 0. */
    method FindChain(from: Did, to: Did) returns (r: Option<Chain>)
      requires Indexes(byDelegator, links, true)
      ensures r.Some? <==> ReachWithin(links, from, to, DEFAULT_MAX_DEPTH)
      ensures r.Some? ==> BuildsChain(r.value.links, DEFAULT_MAX_DEPTH) && r.value.maxDepth == DEFAULT_MAX_DEPTH
      ensures r.Some? ==> exists trail :: IsTrail(links, trail, from, to) && r.value.links == Renumber(trail)
    {
      var found, path := FindPathDfs(from, to, [], 0, DEFAULT_MAX_DEPTH);
      if !found {
        return None;
      }
      assert path[0..] == path;
      var built := BuildChainWithDepth(Renumber(path), DEFAULT_MAX_DEPTH);
      assert Contiguous(Renumber(path));
      return Some(built.value);
    }
  }
}
