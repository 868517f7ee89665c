/** ASN-diverse peer selection (crates/exo-api/src/p2p.rs). References to candidates are
    their positions in the candidate list, so equal peers stay distinguishable. */
module PeerSelection {
  import opened Basics

  datatype PeerMetadata = PeerMetadata(id: Did, asn: Option<u32>, lastSeen: Timestamp)

  const UNKNOWN_ASN: u32 := 0

  function EffectiveAsn(p: PeerMetadata): u32 {
    match p.asn case Some(a) => a case None => UNKNOWN_ASN
  }

  /** Peers without a known ASN form one group, with those of ASN 0, and it comes first. */
  lemma GroupsMean(p: PeerMetadata, q: PeerMetadata)
    ensures EffectiveAsn(p) == EffectiveAsn(q) <==>
            p.asn == q.asn || (p.asn in {None, Some(0)} && q.asn in {None, Some(0)})
    ensures EffectiveAsn(p) < EffectiveAsn(q) <==>
            q.asn.Some? && q.asn.value > 0 && (p.asn.Some? ==> p.asn.value < q.asn.value)
  {
  }

  /** The positions in `list` whose peer belongs to `asn`, in order. */
  function OfAsn(peers: seq<PeerMetadata>, list: seq<nat>, asn: u32): seq<nat>
    requires forall i :: 0 <= i < |list| ==> list[i] < |peers|
  {
    if list == [] then []
    else
      var n := |list| - 1;
      OfAsn(peers, list[..n], asn) + if EffectiveAsn(peers[list[n]]) == asn then [list[n]] else []
  }

  /** The positions of `asn` among the first `n` candidates. */
  function Positions(peers: seq<PeerMetadata>, n: nat, asn: u32): seq<nat>
    requires n <= |peers|
  {
    if n == 0 then []
    else Positions(peers, n - 1, asn) + if EffectiveAsn(peers[n - 1]) == asn then [n - 1] else []
  }

  // ---------------------------------------------------------------------
  // Buckets: the ordered map from ASN to candidates
  // ---------------------------------------------------------------------

  datatype Bucket = Bucket(asn: u32, members: seq<nat>)

  ghost predicate Ordered(buckets: seq<Bucket>) {
    forall a, b :: 0 <= a < b < |buckets| ==> buckets[a].asn < buckets[b].asn
  }

  /** One non-empty bucket per ASN of the first `n` candidates, by increasing ASN, holding
      that ASN's candidates in order. */
  ghost predicate Grouped(peers: seq<PeerMetadata>, n: nat, buckets: seq<Bucket>)
    requires n <= |peers|
  {
    && Ordered(buckets)
    && (forall a :: 0 <= a < |buckets| ==> Holds(peers, n, buckets[a]))
    && (forall i :: 0 <= i < n ==> HasBucket(buckets, EffectiveAsn(peers[i])))
  }

  ghost predicate Holds(peers: seq<PeerMetadata>, n: nat, b: Bucket)
    requires n <= |peers|
  {
    b.members != [] && b.members == Positions(peers, n, b.asn)
  }

  ghost predicate HasBucket(buckets: seq<Bucket>, asn: u32) {
    exists a :: 0 <= a < |buckets| && buckets[a].asn == asn
  }

  lemma {:induction false} NoneOfAsn(peers: seq<PeerMetadata>, n: nat, asn: u32)
    requires n <= |peers| && forall i :: 0 <= i < n ==> EffectiveAsn(peers[i]) != asn
    ensures Positions(peers, n, asn) == []
  {
    if n > 0 {
      NoneOfAsn(peers, n - 1, asn);
    }
  }

  lemma KeepsBucket(buckets: seq<Bucket>, more: seq<Bucket>, asn: u32)
    requires HasBucket(buckets, asn)
    requires forall a :: 0 <= a < |buckets| ==> HasBucket(more, buckets[a].asn)
    ensures HasBucket(more, asn)
  {
  }

  /** Where an ASN is, or belongs. */
  method Locate(buckets: seq<Bucket>, asn: u32) returns (k: nat)
    requires Ordered(buckets)
    ensures k <= |buckets|
    ensures forall a :: 0 <= a < k ==> buckets[a].asn < asn
    ensures k < |buckets| ==> asn <= buckets[k].asn
  {
    k := 0;
    while k < |buckets| && buckets[k].asn < asn
      invariant k <= |buckets| && forall a :: 0 <= a < k ==> buckets[a].asn < asn
    {
      k := k + 1;
    }
  }

  /** `by_asn.entry(asn).or_default().push(n)`. */
  method AddCandidate(peers: seq<PeerMetadata>, n: nat, buckets: seq<Bucket>) returns (more: seq<Bucket>)
    requires n < |peers| && Grouped(peers, n, buckets)
    ensures Grouped(peers, n + 1, more)
  {
    var asn := EffectiveAsn(peers[n]);
    var k := Locate(buckets, asn);
    if k < |buckets| && buckets[k].asn == asn {
      more := buckets[k := Bucket(asn, buckets[k].members + [n])];
      PushedGroup(peers, n, buckets, k);
    } else {
      more := buckets[..k] + [Bucket(asn, [n])] + buckets[k..];
      InsertedGroup(peers, n, buckets, k);
    }
  }

  lemma HoldsStep(peers: seq<PeerMetadata>, n: nat, b: Bucket)
    requires n < |peers| && Holds(peers, n, b)
    ensures Holds(peers, n + 1, if b.asn == EffectiveAsn(peers[n]) then Bucket(b.asn, b.members + [n]) else b)
  {
  }

  lemma OrderedInsert(buckets: seq<Bucket>, k: nat, x: Bucket)
    requires Ordered(buckets) && k <= |buckets|
    requires forall a :: 0 <= a < k ==> buckets[a].asn < x.asn
    requires k < |buckets| ==> x.asn < buckets[k].asn
    ensures Ordered(buckets[..k] + [x] + buckets[k..])
    ensures forall a :: 0 <= a < |buckets| ==> buckets[a].asn != x.asn
  {
    var more := buckets[..k] + [x] + buckets[k..];
    forall a, b | 0 <= a < b < |more|
      ensures more[a].asn < more[b].asn
    {
      assert a < k ==> more[a] == buckets[a];
      assert a > k ==> more[a] == buckets[a - 1];
      assert b < k ==> more[b] == buckets[b];
      assert b > k ==> more[b] == buckets[b - 1];
    }
  }

  lemma HasAll(peers: seq<PeerMetadata>, n: nat, buckets: seq<Bucket>, more: seq<Bucket>)
    requires n < |peers| && (forall i :: 0 <= i < n ==> HasBucket(buckets, EffectiveAsn(peers[i])))
    requires forall a :: 0 <= a < |buckets| ==> HasBucket(more, buckets[a].asn)
    requires HasBucket(more, EffectiveAsn(peers[n]))
    ensures forall i :: 0 <= i < n + 1 ==> HasBucket(more, EffectiveAsn(peers[i]))
  {
    forall i | 0 <= i < n + 1
      ensures HasBucket(more, EffectiveAsn(peers[i]))
    {
      if i < n {
        KeepsBucket(buckets, more, EffectiveAsn(peers[i]));
      }
    }
  }

  lemma PushedGroup(peers: seq<PeerMetadata>, n: nat, buckets: seq<Bucket>, k: nat)
    requires n < |peers| && Grouped(peers, n, buckets) && k < |buckets| && buckets[k].asn == EffectiveAsn(peers[n])
    ensures Grouped(peers, n + 1, buckets[k := Bucket(buckets[k].asn, buckets[k].members + [n])])
  {
    var n', more := n + 1, buckets[k := Bucket(buckets[k].asn, buckets[k].members + [n])];
    forall a | 0 <= a < |more|
      ensures Holds(peers, n', more[a]) && HasBucket(more, buckets[a].asn)
    {
      HoldsStep(peers, n, buckets[a]);
      assert a != k ==> buckets[a].asn != buckets[k].asn;
      assert more[a].asn == buckets[a].asn;
    }
    HasAll(peers, n, buckets, more);
  }

  /** The first candidate of an ASN makes its bucket. */
  lemma NewBucketHolds(peers: seq<PeerMetadata>, n: nat, buckets: seq<Bucket>)
    requires n < |peers| && (forall i :: 0 <= i < n ==> HasBucket(buckets, EffectiveAsn(peers[i])))
    requires forall a :: 0 <= a < |buckets| ==> buckets[a].asn != EffectiveAsn(peers[n])
    ensures Holds(peers, n + 1, Bucket(EffectiveAsn(peers[n]), [n]))
  {
    forall i | 0 <= i < n
      ensures EffectiveAsn(peers[i]) != EffectiveAsn(peers[n])
    {
      assert HasBucket(buckets, EffectiveAsn(peers[i]));
    }
    NoneOfAsn(peers, n, EffectiveAsn(peers[n]));
  }

  lemma InsertedGroup(peers: seq<PeerMetadata>, n: nat, buckets: seq<Bucket>, k: nat)
    requires n < |peers| && Grouped(peers, n, buckets) && k <= |buckets|
    requires forall a :: 0 <= a < k ==> buckets[a].asn < EffectiveAsn(peers[n])
    requires k < |buckets| ==> EffectiveAsn(peers[n]) < buckets[k].asn
    ensures Grouped(peers, n + 1, buckets[..k] + [Bucket(EffectiveAsn(peers[n]), [n])] + buckets[k..])
  {
    var n', asn := n + 1, EffectiveAsn(peers[n]);
    var x := Bucket(asn, [n]);
    var more := buckets[..k] + [x] + buckets[k..];
    OrderedInsert(buckets, k, x);
    assert more[k] == x;
    forall a | 0 <= a < |buckets|
      ensures HasBucket(more, buckets[a].asn)
    {
      assert more[if a < k then a else a + 1] == buckets[a];
    }
    HasAll(peers, n, buckets, more);
    NewBucketHolds(peers, n, buckets);
    forall a | 0 <= a < |more|
      ensures Holds(peers, n', more[a])
    {
      if a != k {
        var b := if a < k then a else a - 1;
        assert more[a] == buckets[b];
        HoldsStep(peers, n, buckets[b]);
      }
    }
  }

  method GroupByAsn(peers: seq<PeerMetadata>) returns (buckets: seq<Bucket>)
    ensures Grouped(peers, |peers|, buckets)
  {
    buckets := [];
    for i := 0 to |peers|
      invariant Grouped(peers, i, buckets)
    {
      buckets := AddCandidate(peers, i, buckets);
    }
  }

  // ---------------------------------------------------------------------
  // Round-robin
  // ---------------------------------------------------------------------

  /** How many of bucket `b` the first `rounds` rounds take. */
  function Taken(b: Bucket, cap: nat, rounds: nat): nat {
    Min(|b.members|, Min(cap, rounds))
  }

  /** Rounds that bucket `a` has had when round `r` has reached bucket `j`. */
  function Rounds(r: nat, j: nat, a: nat): nat {
    if a < j then r + 1 else r
  }

  function Sum(buckets: seq<Bucket>, cap: nat, r: nat, j: nat, n: nat): nat
    requires n <= |buckets|
  {
    if n == 0 then 0 else Sum(buckets, cap, r, j, n - 1) + Taken(buckets[n - 1], cap, Rounds(r, j, n - 1))
  }

  /** All that the cap allows. */
  function Capacity(buckets: seq<Bucket>, cap: nat, n: nat): nat
    requires n <= |buckets|
  {
    if n == 0 then 0 else Capacity(buckets, cap, n - 1) + Min(|buckets[n - 1].members|, cap)
  }

  ghost predicate InRange(peers: seq<PeerMetadata>, list: seq<nat>) {
    forall i :: 0 <= i < |list| ==> list[i] < |peers|
  }

  /** The exact state when round `r` has reached bucket `j`: a prefix of every bucket. */
  ghost predicate Shape(peers: seq<PeerMetadata>, buckets: seq<Bucket>, cap: nat, selected: seq<nat>, r: nat, j: nat) {
    && InRange(peers, selected) && j <= |buckets|
    && |selected| == Sum(buckets, cap, r, j, |buckets|)
    && (forall a :: 0 <= a < |buckets| ==> PrefixAt(peers, buckets, cap, selected, r, j, a))
  }

  ghost predicate PrefixAt(peers: seq<PeerMetadata>, buckets: seq<Bucket>, cap: nat, selected: seq<nat>, r: nat, j: nat, a: nat)
    requires InRange(peers, selected) && a < |buckets|
  {
    OfAsn(peers, selected, buckets[a].asn) == buckets[a].members[..Taken(buckets[a], cap, Rounds(r, j, a))]
  }

  ghost predicate Full(buckets: seq<Bucket>, cap: nat, r: nat, j: nat) {
    forall a :: 0 <= a < |buckets| ==> Taken(buckets[a], cap, Rounds(r, j, a)) == Min(|buckets[a].members|, cap)
  }

  lemma {:induction false} SumStep(buckets: seq<Bucket>, cap: nat, r: nat, j: nat, n: nat)
    requires j < |buckets| && n <= |buckets|
    ensures Sum(buckets, cap, r, j + 1, n) == Sum(buckets, cap, r, j, n) +
            if j < n then Taken(buckets[j], cap, r + 1) - Taken(buckets[j], cap, r) else 0
  {
    if n > 0 {
      SumStep(buckets, cap, r, j, n - 1);
    }
  }

  lemma {:induction false} SumWrap(buckets: seq<Bucket>, cap: nat, r: nat, n: nat)
    requires n <= |buckets|
    ensures Sum(buckets, cap, r, |buckets|, n) == Sum(buckets, cap, r + 1, 0, n)
  {
    if n > 0 {
      SumWrap(buckets, cap, r, n - 1);
    }
  }

  lemma {:induction false} SumCapacity(buckets: seq<Bucket>, cap: nat, r: nat, j: nat, n: nat)
    requires n <= |buckets|
    ensures Sum(buckets, cap, r, j, n) <= Capacity(buckets, cap, n)
    ensures Full(buckets, cap, r, j) ==> Sum(buckets, cap, r, j, n) == Capacity(buckets, cap, n)
  {
    if n > 0 {
      SumCapacity(buckets, cap, r, j, n - 1);
    }
  }

  /** A bucket that is exhausted or capped is passed over. */
  lemma ShapeSkip(peers: seq<PeerMetadata>, buckets: seq<Bucket>, cap: nat, selected: seq<nat>, r: nat, j: nat)
    requires Shape(peers, buckets, cap, selected, r, j) && j < |buckets|
    requires r >= cap || r >= |buckets[j].members|
    ensures Shape(peers, buckets, cap, selected, r, j + 1)
  {
    SumStep(buckets, cap, r, j, |buckets|);
    var j' := j + 1;
    forall a | 0 <= a < |buckets|
      ensures PrefixAt(peers, buckets, cap, selected, r, j', a)
    {
      assert PrefixAt(peers, buckets, cap, selected, r, j, a);
    }
  }

  lemma {:induction false} PositionAsn(peers: seq<PeerMetadata>, n: nat, asn: u32, k: nat)
    requires n <= |peers| && k < |Positions(peers, n, asn)|
    ensures Positions(peers, n, asn)[k] < |peers| && EffectiveAsn(peers[Positions(peers, n, asn)[k]]) == asn
  {
    if k < |Positions(peers, n - 1, asn)| {
      PositionAsn(peers, n - 1, asn, k);
    }
  }

  lemma OfAsnPush(peers: seq<PeerMetadata>, list: seq<nat>, x: nat, asn: u32)
    requires InRange(peers, list) && x < |peers|
    ensures OfAsn(peers, list + [x], asn) == OfAsn(peers, list, asn) + if EffectiveAsn(peers[x]) == asn then [x] else []
  {
    assert (list + [x])[..|list|] == list;
  }

  /** Taking entry `r` of bucket `j` extends exactly that bucket's prefix. */
  lemma ShapeTake(peers: seq<PeerMetadata>, buckets: seq<Bucket>, cap: nat, selected: seq<nat>, r: nat, j: nat)
    requires Grouped(peers, |peers|, buckets) && Shape(peers, buckets, cap, selected, r, j) && j < |buckets|
    requires r < cap && r < |buckets[j].members|
    ensures Shape(peers, buckets, cap, selected + [buckets[j].members[r]], r, j + 1)
  {
    var x, j' := buckets[j].members[r], j + 1;
    assert Holds(peers, |peers|, buckets[j]);
    PositionAsn(peers, |peers|, buckets[j].asn, r);
    SumStep(buckets, cap, r, j, |buckets|);
    forall a | 0 <= a < |buckets|
      ensures PrefixAt(peers, buckets, cap, selected + [x], r, j', a)
    {
      assert a != j ==> buckets[a].asn != buckets[j].asn;
      PrefixTake(peers, buckets, cap, selected, r, j, a);
    }
  }

  lemma PrefixTake(peers: seq<PeerMetadata>, buckets: seq<Bucket>, cap: nat, selected: seq<nat>, r: nat, j: nat, a: nat)
    requires InRange(peers, selected) && j < |buckets| && a < |buckets| && PrefixAt(peers, buckets, cap, selected, r, j, a)
    requires r < cap && r < |buckets[j].members| && buckets[j].members[r] < |peers|
    requires EffectiveAsn(peers[buckets[j].members[r]]) == buckets[j].asn && (a != j ==> buckets[a].asn != buckets[j].asn)
    ensures PrefixAt(peers, buckets, cap, selected + [buckets[j].members[r]], r, j + 1, a)
  {
    OfAsnPush(peers, selected, buckets[j].members[r], buckets[a].asn);
    PrefixGrows(buckets[j].members, r);
  }

  lemma PrefixGrows(members: seq<nat>, r: nat)
    requires r < |members|
    ensures members[..r + 1] == members[..r] + [members[r]]
  {
  }

  lemma ShapeWrap(peers: seq<PeerMetadata>, buckets: seq<Bucket>, cap: nat, selected: seq<nat>, r: nat)
    requires Shape(peers, buckets, cap, selected, r, |buckets|)
    ensures Shape(peers, buckets, cap, selected, r + 1, 0)
  {
    SumWrap(buckets, cap, r, |buckets|);
    var r' := r + 1;
    forall a | 0 <= a < |buckets|
      ensures PrefixAt(peers, buckets, cap, selected, r', 0, a)
    {
      assert PrefixAt(peers, buckets, cap, selected, r, |buckets|, a);
    }
  }

  lemma {:induction false} ShapeStart(peers: seq<PeerMetadata>, buckets: seq<Bucket>, cap: nat, n: nat)
    requires n <= |buckets|
    ensures Sum(buckets, cap, 0, 0, n) == 0
  {
    if n > 0 {
      ShapeStart(peers, buckets, cap, n - 1);
    }
  }

  // ---------------------------------------------------------------------
  // Which candidates are chosen
  // ---------------------------------------------------------------------

  /** How many earlier candidates share the ASN of candidate `i`. */
  function Rank(peers: seq<PeerMetadata>, i: nat): nat
    requires i < |peers|
  {
    |Positions(peers, i, EffectiveAsn(peers[i]))|
  }

  /** Candidates are served by rank, and by ASN within a rank. */
  predicate Precedes(peers: seq<PeerMetadata>, i: nat, j: nat)
    requires i < |peers| && j < |peers|
  {
    || Rank(peers, i) < Rank(peers, j)
    || (Rank(peers, i) == Rank(peers, j) && EffectiveAsn(peers[i]) < EffectiveAsn(peers[j]))
  }

  /** The candidates served before candidate `i`. */
  function Ahead(peers: seq<PeerMetadata>, i: nat): set<nat>
    requires i < |peers|
  {
    set j: nat | j < |peers| && Precedes(peers, j, i)
  }

  /** Candidate `i` is within the cap of its ASN and fewer than `maxPeers` go before it. */
  predicate Chosen(peers: seq<PeerMetadata>, cap: nat, maxPeers: nat, i: nat)
    requires i < |peers|
  {
    Rank(peers, i) < cap && |Ahead(peers, i)| < maxPeers
  }

  /** Each position is served before those that follow it, so none occurs twice. */
  ghost predicate InOrder(peers: seq<PeerMetadata>, list: seq<nat>)
    requires InRange(peers, list)
  {
    forall x, y :: 0 <= x < y < |list| ==> Precedes(peers, list[x], list[y])
  }

  /** `selected` are exactly the chosen candidates, in serving order. */
  ghost predicate Selection(peers: seq<PeerMetadata>, cap: nat, maxPeers: nat, selected: seq<nat>) {
    && InRange(peers, selected)
    && (forall i :: 0 <= i < |peers| ==> (i in selected <==> Chosen(peers, cap, maxPeers, i)))
    && InOrder(peers, selected)
  }

  /** A candidate stands in its bucket at its rank. */
  lemma {:induction false} RankInBucket(peers: seq<PeerMetadata>, n: nat, i: nat)
    requires i < n <= |peers|
    ensures var ps := Positions(peers, n, EffectiveAsn(peers[i]));
            Rank(peers, i) < |ps| && ps[Rank(peers, i)] == i
  {
    if i < n - 1 {
      RankInBucket(peers, n - 1, i);
    }
  }

  lemma {:induction false} OfAsnMembers(peers: seq<PeerMetadata>, list: seq<nat>, x: nat)
    requires InRange(peers, list) && x < |peers|
    ensures x in OfAsn(peers, list, EffectiveAsn(peers[x])) <==> x in list
    decreases |list|
  {
    if list != [] {
      var n := |list| - 1;
      OfAsnMembers(peers, list[..n], x);
      assert list == list[..n] + [list[n]];
    }
  }

  lemma {:induction false} PositionRank(peers: seq<PeerMetadata>, n: nat, asn: u32, x: nat)
    requires n <= |peers| && x < |Positions(peers, n, asn)|
    ensures var i := Positions(peers, n, asn)[x]; i < |peers| && Rank(peers, i) == x
  {
    if x < |Positions(peers, n - 1, asn)| {
      PositionRank(peers, n - 1, asn, x);
    }
  }

  /** A prefix of a bucket holds the candidates of small rank. */
  lemma PrefixRank(peers: seq<PeerMetadata>, i: nat, t: nat)
    requires i < |peers| && t <= |Positions(peers, |peers|, EffectiveAsn(peers[i]))|
    ensures i in Positions(peers, |peers|, EffectiveAsn(peers[i]))[..t] <==> Rank(peers, i) < t
  {
    var ps := Positions(peers, |peers|, EffectiveAsn(peers[i]));
    RankInBucket(peers, |peers|, i);
    if i in ps[..t] {
      var x :| 0 <= x < t && ps[x] == i;
      PositionRank(peers, |peers|, EffectiveAsn(peers[i]), x);
    }
    if Rank(peers, i) < t {
      assert ps[..t][Rank(peers, i)] == i;
    }
  }

  /** Membership in a reached state. */
  lemma ShapeMembers(peers: seq<PeerMetadata>, buckets: seq<Bucket>, cap: nat, selected: seq<nat>, r: nat, j: nat, i: nat)
    returns (a: nat)
    requires Grouped(peers, |peers|, buckets) && Shape(peers, buckets, cap, selected, r, j) && i < |peers|
    ensures a < |buckets| && buckets[a].asn == EffectiveAsn(peers[i])
    ensures i in selected <==> Rank(peers, i) < cap && Rank(peers, i) < Rounds(r, j, a)
    ensures Rank(peers, i) < |buckets[a].members|
  {
    assert HasBucket(buckets, EffectiveAsn(peers[i]));
    a :| a < |buckets| && buckets[a].asn == EffectiveAsn(peers[i]);
    assert Holds(peers, |peers|, buckets[a]);
    assert PrefixAt(peers, buckets, cap, selected, r, j, a);
    OfAsnMembers(peers, selected, i);
    RankInBucket(peers, |peers|, i);
    PrefixRank(peers, i, Taken(buckets[a], cap, Rounds(r, j, a)));
  }

  /** Every selected candidate goes before every other one within the cap. */
  lemma SelectedFirst(peers: seq<PeerMetadata>, buckets: seq<Bucket>, cap: nat, selected: seq<nat>, r: nat, j: nat, i: nat, k: nat)
    requires Grouped(peers, |peers|, buckets) && Shape(peers, buckets, cap, selected, r, j)
    requires i < |peers| && i in selected && k < |peers| && k !in selected && Rank(peers, k) < cap
    ensures Precedes(peers, i, k)
  {
    var a := ShapeMembers(peers, buckets, cap, selected, r, j, i);
    var b := ShapeMembers(peers, buckets, cap, selected, r, j, k);
    assert a < b ==> buckets[a].asn < buckets[b].asn;
  }

  /** The next candidate taken comes after all selected ones. */
  lemma OrderTake(peers: seq<PeerMetadata>, buckets: seq<Bucket>, cap: nat, selected: seq<nat>, r: nat, j: nat)
    requires Grouped(peers, |peers|, buckets) && Shape(peers, buckets, cap, selected, r, j) && InOrder(peers, selected)
    requires j < |buckets| && r < cap && r < |buckets[j].members|
    ensures var more := selected + [buckets[j].members[r]]; InRange(peers, more) && InOrder(peers, more)
  {
    assert Holds(peers, |peers|, buckets[j]);
    PositionAsn(peers, |peers|, buckets[j].asn, r);
    PositionRank(peers, |peers|, buckets[j].asn, r);
    var k := buckets[j].members[r];
    var b := ShapeMembers(peers, buckets, cap, selected, r, j, k);
    assert b == j;
    forall x | 0 <= x < |selected|
      ensures Precedes(peers, selected[x], k)
    {
      SelectedFirst(peers, buckets, cap, selected, r, j, selected[x], k);
    }
  }

  lemma {:induction false} OrderedSize(peers: seq<PeerMetadata>, list: seq<nat>)
    requires InRange(peers, list) && InOrder(peers, list)
    ensures |Members(list)| == |list|
    decreases |list|
  {
    if list != [] {
      var n := |list| - 1;
      OrderedSize(peers, list[..n]);
      assert list == list[..n] + [list[n]];
      assert Members(list) == Members(list[..n]) + {list[n]};
    }
  }

  /** A finished round-robin has selected exactly the chosen candidates. */
  lemma ShapeIsSelection(peers: seq<PeerMetadata>, buckets: seq<Bucket>, cap: nat, maxPeers: nat, selected: seq<nat>, r: nat, j: nat)
    requires Grouped(peers, |peers|, buckets) && Reached(peers, buckets, cap, maxPeers, selected, r, j)
    requires |selected| == maxPeers || Full(buckets, cap, r, j)
    ensures Selection(peers, cap, maxPeers, selected)
  {
    forall i | 0 <= i < |peers|
      ensures i in selected <==> Chosen(peers, cap, maxPeers, i)
    {
      if i in selected {
        SelectedIsChosen(peers, buckets, cap, selected, r, j, i);
      } else if Rank(peers, i) < cap {
        SkippedIsLate(peers, buckets, cap, selected, r, j, i);
      }
    }
  }

  lemma SelectedIsChosen(peers: seq<PeerMetadata>, buckets: seq<Bucket>, cap: nat, selected: seq<nat>, r: nat, j: nat, i: nat)
    requires Grouped(peers, |peers|, buckets) && Shape(peers, buckets, cap, selected, r, j) && InOrder(peers, selected)
    requires i < |peers| && i in selected
    ensures Rank(peers, i) < cap && |Ahead(peers, i)| < |selected|
  {
    var a := ShapeMembers(peers, buckets, cap, selected, r, j, i);
    var all := Members(selected);
    forall k | k in Ahead(peers, i)
      ensures k in all - {i}
    {
      if k !in selected {
        SelectedFirst(peers, buckets, cap, selected, r, j, i, k);
      }
    }
    OrderedSize(peers, selected);
    SubsetSize(Ahead(peers, i), all - {i});
  }

  lemma SkippedIsLate(peers: seq<PeerMetadata>, buckets: seq<Bucket>, cap: nat, selected: seq<nat>, r: nat, j: nat, i: nat)
    requires Grouped(peers, |peers|, buckets) && Shape(peers, buckets, cap, selected, r, j) && InOrder(peers, selected)
    requires i < |peers| && i !in selected && Rank(peers, i) < cap
    ensures |Ahead(peers, i)| >= |selected| && !Full(buckets, cap, r, j)
  {
    var a := ShapeMembers(peers, buckets, cap, selected, r, j, i);
    var all := Members(selected);
    forall k | k in all
      ensures k in Ahead(peers, i)
    {
      SelectedFirst(peers, buckets, cap, selected, r, j, k, i);
    }
    OrderedSize(peers, selected);
    SubsetSize(all, Ahead(peers, i));
    assert Taken(buckets[a], cap, Rounds(r, j, a)) != Min(|buckets[a].members|, cap);
  }

  /** The state `round` has reached at bucket `k`. */
  ghost predicate Reached(peers: seq<PeerMetadata>, buckets: seq<Bucket>, cap: nat, maxPeers: nat, selected: seq<nat>, round: nat, k: nat) {
    Shape(peers, buckets, cap, selected, round, k) && InOrder(peers, selected) && |selected| <= maxPeers
  }

  lemma ReachedTake(peers: seq<PeerMetadata>, buckets: seq<Bucket>, cap: nat, maxPeers: nat, selected: seq<nat>, round: nat, k: nat)
    requires Grouped(peers, |peers|, buckets) && Reached(peers, buckets, cap, maxPeers, selected, round, k)
    requires k < |buckets| && round < cap && round < |buckets[k].members| && |selected| < maxPeers
    ensures Reached(peers, buckets, cap, maxPeers, selected + [buckets[k].members[round]], round, k + 1)
  {
    OrderTake(peers, buckets, cap, selected, round, k);
    ShapeTake(peers, buckets, cap, selected, round, k);
  }

  /** The inner loop: one candidate from each bucket that still has one. */
  method ServeRound(peers: seq<PeerMetadata>, buckets: seq<Bucket>, cap: nat, maxPeers: nat, before: seq<nat>, round: nat)
    returns (selected: seq<nat>, added: bool, ghost k: nat)
    requires Grouped(peers, |peers|, buckets) && Reached(peers, buckets, cap, maxPeers, before, round, 0)
    ensures Reached(peers, buckets, cap, maxPeers, selected, round, k)
    ensures |selected| == maxPeers || k == |buckets|
    ensures added <==> |selected| > |before|
    ensures !added && k == |buckets| ==> Full(buckets, cap, round, k)
  {
    selected, added, k := before, false, 0;
    for b := 0 to |buckets|
      invariant k == b && Reached(peers, buckets, cap, maxPeers, selected, round, b)
      invariant |selected| >= |before| && (added <==> |selected| > |before|)
      invariant !added ==> forall a :: 0 <= a < b ==> round >= cap || round >= |buckets[a].members|
    {
      if |selected| >= maxPeers {
        break;
      }
      if round < cap && round < |buckets[b].members| {
        ReachedTake(peers, buckets, cap, maxPeers, selected, round, b);
        selected := selected + [buckets[b].members[round]];
        added := true;
      } else {
        ShapeSkip(peers, buckets, cap, selected, round, b);
      }
      k := k + 1;
    }
  }

  /** The outer loop. It ends because a round that adds nothing stops it. */
  method RoundRobin(peers: seq<PeerMetadata>, buckets: seq<Bucket>, cap: nat, maxPeers: nat)
    returns (selected: seq<nat>, ghost r: nat, ghost j: nat)
    requires Grouped(peers, |peers|, buckets)
    ensures Reached(peers, buckets, cap, maxPeers, selected, r, j)
    ensures |selected| == maxPeers || Full(buckets, cap, r, j)
  {
    selected := [];
    var round := 0;
    ShapeStart(peers, buckets, cap, |buckets|);
    while true
      invariant 0 <= round && Reached(peers, buckets, cap, maxPeers, selected, round, 0)
      decreases maxPeers - |selected|
    {
      if |selected| >= maxPeers {
        return selected, round, 0;
      }
      var addedThisRound;
      ghost var k;
      selected, addedThisRound, k := ServeRound(peers, buckets, cap, maxPeers, selected, round);
      if !addedThisRound || |selected| >= maxPeers {
        return selected, round, k;
      }
      ShapeWrap(peers, buckets, cap, selected, round);
      round := round + 1;
    }
  }

  /** What was selected from one bucket. */
  ghost function Picked(peers: seq<PeerMetadata>, selected: seq<nat>, b: Bucket): seq<nat>
    requires InRange(peers, selected)
  {
    OfAsn(peers, selected, b.asn)
  }

  /** One ASN leads another by more than one only if the other is exhausted. */
  ghost predicate Balanced(peers: seq<PeerMetadata>, selected: seq<nat>, b: Bucket, c: Bucket)
    requires InRange(peers, selected)
  {
    |Picked(peers, selected, b)| > |Picked(peers, selected, c)| + 1 ==> Picked(peers, selected, c) == c.members
  }

  /** What the selection promises. */
  ghost predicate Diverse(peers: seq<PeerMetadata>, buckets: seq<Bucket>, cap: nat, maxPeers: nat, selected: seq<nat>) {
    // distinct candidates
    && InRange(peers, selected)
    && (forall i, j :: 0 <= i < j < |selected| ==> selected[i] != selected[j])
    // as many as the caps and the limit allow
    && |selected| == Min(maxPeers, Capacity(buckets, cap, |buckets|))
    // from each ASN a prefix of its candidates, within the cap
    && (forall a :: 0 <= a < |buckets| ==>
          Picked(peers, selected, buckets[a]) <= buckets[a].members && |Picked(peers, selected, buckets[a])| <= cap)
    && (forall a, b :: 0 <= a < |buckets| && 0 <= b < |buckets| ==> Balanced(peers, selected, buckets[a], buckets[b]))
    // a positive cap covers as many ASNs as there are, or as fit
    && (cap > 0 ==> forall a :: 0 <= a < |buckets| ==>
          (Picked(peers, selected, buckets[a]) != [] <==> a < Min(maxPeers, |buckets|)))
  }

  lemma {:induction false} SumCovers(buckets: seq<Bucket>, cap: nat, r: nat, j: nat, n: nat)
    requires n <= |buckets| && cap > 0 && forall a :: 0 <= a < |buckets| ==> |buckets[a].members| > 0
    ensures r == 0 ==> Sum(buckets, cap, r, j, n) == Min(j, n)
    ensures r > 0 ==> Sum(buckets, cap, r, j, n) >= n
  {
    if n > 0 {
      SumCovers(buckets, cap, r, j, n - 1);
    }
  }

  lemma PickedExactly(peers: seq<PeerMetadata>, buckets: seq<Bucket>, cap: nat, selected: seq<nat>, r: nat, j: nat, a: nat)
    requires Shape(peers, buckets, cap, selected, r, j) && a < |buckets|
    ensures var t := Taken(buckets[a], cap, Rounds(r, j, a));
            |Picked(peers, selected, buckets[a])| == t && Picked(peers, selected, buckets[a]) == buckets[a].members[..t]
  {
    assert PrefixAt(peers, buckets, cap, selected, r, j, a);
  }

  lemma ShapeIsBalanced(peers: seq<PeerMetadata>, buckets: seq<Bucket>, cap: nat, selected: seq<nat>, r: nat, j: nat, a: nat, b: nat)
    requires Shape(peers, buckets, cap, selected, r, j) && a < |buckets| && b < |buckets|
    ensures Balanced(peers, selected, buckets[a], buckets[b])
  {
    PickedExactly(peers, buckets, cap, selected, r, j, a);
    PickedExactly(peers, buckets, cap, selected, r, j, b);
  }

  lemma ShapeCovers(peers: seq<PeerMetadata>, buckets: seq<Bucket>, cap: nat, maxPeers: nat, selected: seq<nat>, r: nat, j: nat, a: nat)
    requires Grouped(peers, |peers|, buckets) && Shape(peers, buckets, cap, selected, r, j) && |selected| <= maxPeers
    requires |selected| == maxPeers || Full(buckets, cap, r, j)
    requires cap > 0 && a < |buckets|
    ensures Picked(peers, selected, buckets[a]) != [] <==> a < Min(maxPeers, |buckets|)
  {
    PickedExactly(peers, buckets, cap, selected, r, j, a);
    forall c | 0 <= c < |buckets|
      ensures |buckets[c].members| > 0
    {
      assert Holds(peers, |peers|, buckets[c]);
    }
    SumCovers(buckets, cap, r, j, |buckets|);
    if Full(buckets, cap, r, j) {
      assert Taken(buckets[a], cap, Rounds(r, j, a)) > 0;
      var last := |buckets| - 1;
      assert Taken(buckets[last], cap, Rounds(r, j, last)) > 0;
    }
  }

  /** The closed form of the round-robin has all the promised properties. */
  lemma ShapeIsDiverse(peers: seq<PeerMetadata>, buckets: seq<Bucket>, cap: nat, maxPeers: nat, selected: seq<nat>, r: nat, j: nat)
    requires Grouped(peers, |peers|, buckets) && Reached(peers, buckets, cap, maxPeers, selected, r, j)
    requires |selected| == maxPeers || Full(buckets, cap, r, j)
    ensures Diverse(peers, buckets, cap, maxPeers, selected)
  {
    SumCapacity(buckets, cap, r, j, |buckets|);
    forall a | 0 <= a < |buckets|
      ensures Picked(peers, selected, buckets[a]) <= buckets[a].members && |Picked(peers, selected, buckets[a])| <= cap
    {
      PickedExactly(peers, buckets, cap, selected, r, j, a);
    }
    forall a, b | 0 <= a < |buckets| && 0 <= b < |buckets|
      ensures Balanced(peers, selected, buckets[a], buckets[b])
    {
      ShapeIsBalanced(peers, buckets, cap, selected, r, j, a, b);
    }
    if cap > 0 {
      forall a | 0 <= a < |buckets|
        ensures Picked(peers, selected, buckets[a]) != [] <==> a < Min(maxPeers, |buckets|)
      {
        ShapeCovers(peers, buckets, cap, maxPeers, selected, r, j, a);
      }
    }
  }

  /** The candidates selected are exactly the chosen ones, in serving order, and together
      they are diverse. */
  method SelectDiversePeers(candidates: seq<PeerMetadata>, cap: nat, maxPeers: nat) returns (selected: seq<nat>)
    ensures Selection(candidates, cap, maxPeers, selected)
    ensures exists buckets :: Grouped(candidates, |candidates|, buckets) && Diverse(candidates, buckets, cap, maxPeers, selected)
  {
    var buckets := GroupByAsn(candidates);
    if |candidates| == 0 || maxPeers == 0 {
      EmptySelection(candidates, buckets, cap, maxPeers);
      return [];
    }
    ghost var r, j;
    selected, r, j := RoundRobin(candidates, buckets, cap, maxPeers);
    ShapeIsDiverse(candidates, buckets, cap, maxPeers, selected, r, j);
    ShapeIsSelection(candidates, buckets, cap, maxPeers, selected, r, j);
  }

  lemma EmptySelection(peers: seq<PeerMetadata>, buckets: seq<Bucket>, cap: nat, maxPeers: nat)
    requires Grouped(peers, |peers|, buckets) && (peers == [] || maxPeers == 0)
    ensures Diverse(peers, buckets, cap, maxPeers, []) && Selection(peers, cap, maxPeers, [])
  {
    ShapeStart(peers, buckets, cap, |buckets|);
    assert Reached(peers, buckets, cap, maxPeers, [], 0, 0);
    ShapeIsDiverse(peers, buckets, cap, maxPeers, [], 0, 0);
  }

  // ---------------------------------------------------------------------
  // Rotation
  // ---------------------------------------------------------------------

  /** `last_seen` lies more than `maxAge` before `now`; the subtraction saturates at zero. */
  predicate IsStale(p: PeerMetadata, now: Timestamp, maxAge: u64) {
    (if now.physicalMs >= p.lastSeen.physicalMs then now.physicalMs - p.lastSeen.physicalMs else 0) > maxAge
  }

  function StaleIds(peers: seq<PeerMetadata>, now: Timestamp, maxAge: u64): set<Did> {
    set p | p in peers && IsStale(p, now, maxAge) :: p.id
  }

  function Ids(peers: seq<PeerMetadata>): set<Did> {
    set p | p in peers :: p.id
  }

  function Keep(peers: seq<PeerMetadata>, gone: set<Did>): seq<PeerMetadata> {
    if peers == [] then []
    else (if peers[0].id !in gone then [peers[0]] else []) + Keep(peers[1..], gone)
  }

  function At(peers: seq<PeerMetadata>, list: seq<nat>): (r: seq<PeerMetadata>)
    requires InRange(peers, list)
    ensures |r| == |list|
  {
    seq(|list|, i requires 0 <= i < |list| => peers[list[i]])
  }

  lemma {:induction false} KeepMembers(peers: seq<PeerMetadata>, gone: set<Did>)
    ensures forall p :: p in Keep(peers, gone) <==> p in peers && p.id !in gone
  {
    if peers != [] {
      KeepMembers(peers[1..], gone);
    }
  }

  /** Removing peers by id removes at least one peer per id that occurs. */
  lemma {:induction false} KeepRemoves(peers: seq<PeerMetadata>, gone: set<Did>)
    requires gone <= Ids(peers)
    ensures |Keep(peers, gone)| + |gone| <= |peers|
    decreases |peers|
  {
    if peers == [] {
      assert gone == {};
    } else {
      var id, rest := peers[0].id, peers[1..];
      assert Ids(peers) == {id} + Ids(rest);
      if id !in gone || id in Ids(rest) {
        KeepRemoves(rest, gone);
      } else {
        KeepRemoves(rest, gone - {id});
        KeepSame(rest, gone, id);
      }
    }
  }

  lemma {:induction false} KeepSame(peers: seq<PeerMetadata>, gone: set<Did>, id: Did)
    requires id !in Ids(peers)
    ensures Keep(peers, gone) == Keep(peers, gone - {id})
  {
    if peers != [] {
      assert Ids(peers) == {peers[0].id} + Ids(peers[1..]);
      KeepSame(peers[1..], gone, id);
    }
  }

  /** The peers that stay. */
  function Kept(current: seq<PeerMetadata>, now: Timestamp, maxAge: u64): seq<PeerMetadata> {
    Keep(current, StaleIds(current, now, maxAge))
  }

  /** The candidates that do not carry the id of a peer that stays. */
  function Pool(current: seq<PeerMetadata>, candidates: seq<PeerMetadata>, now: Timestamp, maxAge: u64): seq<PeerMetadata> {
    Keep(candidates, Ids(Kept(current, now, maxAge)))
  }

  /** A rotation: the peers that stay, in order, then the selection from the pool, one for
      each evicted id at most. */
  ghost predicate Rotation(current: seq<PeerMetadata>, candidates: seq<PeerMetadata>, maxAge: u64, cap: nat, now: Timestamp,
                           rotated: seq<PeerMetadata>)
  {
    var pool, n := Pool(current, candidates, now, maxAge), |StaleIds(current, now, maxAge)|;
    exists selected :: Selection(pool, cap, n, selected) && rotated == Kept(current, now, maxAge) + At(pool, selected)
  }

  /** Evicts every peer whose id is stale and fills up with diverse candidates not kept. The
      peer set never grows, nothing kept is reordered, and no kept peer is selected again. */
  method RotatePeers(current: seq<PeerMetadata>, candidates: seq<PeerMetadata>, maxAge: u64, cap: nat, now: Timestamp)
    returns (evicted: set<Did>, rotated: seq<PeerMetadata>)
    ensures evicted == StaleIds(current, now, maxAge)
    ensures forall id :: id in evicted <==>
              exists p :: p in current && p.id == id && p.lastSeen.physicalMs + maxAge < now.physicalMs
    ensures Rotation(current, candidates, maxAge, cap, now, rotated)
    ensures |rotated| <= |current|
    ensures var kept := Kept(current, now, maxAge);
            && kept <= rotated
            && (forall p :: p in kept ==> !IsStale(p, now, maxAge))
            && (forall i :: |kept| <= i < |rotated| ==> rotated[i] in candidates && rotated[i].id !in Ids(kept))
    ensures cap > 0 && evicted != {} && Pool(current, candidates, now, maxAge) != [] ==>
            |rotated| > |Kept(current, now, maxAge)|
  {
    evicted := StaleIds(current, now, maxAge);
    var kept := Keep(current, evicted);
    KeepMembers(current, evicted);
    KeepRemoves(current, evicted);
    var pool := Keep(candidates, Ids(kept));
    KeepMembers(candidates, Ids(kept));
    var selected := SelectReplacements(pool, cap, |evicted|);
    rotated := kept + At(pool, selected);
    assert Selection(Pool(current, candidates, now, maxAge), cap, |StaleIds(current, now, maxAge)|, selected);
  }

  /** At most `n` replacements, and at least one where one is possible. */
  method SelectReplacements(pool: seq<PeerMetadata>, cap: nat, n: nat) returns (selected: seq<nat>)
    ensures Selection(pool, cap, n, selected) && |selected| <= n
    ensures cap > 0 && n > 0 && pool != [] ==> selected != []
  {
    selected := SelectDiversePeers(pool, cap, n);
    ghost var buckets :| Grouped(pool, |pool|, buckets) && Diverse(pool, buckets, cap, n, selected);
    if cap > 0 && n > 0 && pool != [] {
      assert HasBucket(buckets, EffectiveAsn(pool[0]));
      NotNone(pool, buckets, cap, n, selected);
    }
  }

  lemma NotNone(peers: seq<PeerMetadata>, buckets: seq<Bucket>, cap: nat, maxPeers: nat, selected: seq<nat>)
    requires Diverse(peers, buckets, cap, maxPeers, selected) && cap > 0 && maxPeers > 0 && |buckets| > 0
    ensures selected != []
  {
    assert Picked(peers, selected, buckets[0]) != [];
  }

  /** Some chosen peer of the pool is `p`. */
  ghost predicate Replaces(pool: seq<PeerMetadata>, cap: nat, n: nat, p: PeerMetadata) {
    exists i :: 0 <= i < |pool| && pool[i] == p && Chosen(pool, cap, n, i)
  }

  lemma SelectionMembers(pool: seq<PeerMetadata>, cap: nat, n: nat, selected: seq<nat>, p: PeerMetadata)
    requires Selection(pool, cap, n, selected)
    ensures p in At(pool, selected) <==> Replaces(pool, cap, n, p)
  {
    if p in At(pool, selected) {
      var x :| 0 <= x < |selected| && At(pool, selected)[x] == p;
      assert selected[x] in selected && Chosen(pool, cap, n, selected[x]);
    }
    if Replaces(pool, cap, n, p) {
      var i :| 0 <= i < |pool| && pool[i] == p && Chosen(pool, cap, n, i);
      var x :| 0 <= x < |selected| && selected[x] == i;
      assert At(pool, selected)[x] == p;
    }
  }

  /** Who is in the peer set after a rotation. */
  lemma RotatedExactly(current: seq<PeerMetadata>, candidates: seq<PeerMetadata>, maxAge: u64, cap: nat, now: Timestamp,
                       rotated: seq<PeerMetadata>, p: PeerMetadata)
    requires Rotation(current, candidates, maxAge, cap, now, rotated)
    ensures var evicted := StaleIds(current, now, maxAge);
            p in rotated <==> (p in current && p.id !in evicted) ||
                              Replaces(Pool(current, candidates, now, maxAge), cap, |evicted|, p)
  {
    var pool, n := Pool(current, candidates, now, maxAge), |StaleIds(current, now, maxAge)|;
    var selected :| Selection(pool, cap, n, selected) && rotated == Kept(current, now, maxAge) + At(pool, selected);
    KeepMembers(current, StaleIds(current, now, maxAge));
    SelectionMembers(pool, cap, n, selected, p);
  }

  /** Eviction is not always effective. A rotation leaves a stale peer, or a peer with an
      evicted id, in the set exactly when the pool offers one that is within the cap of its ASN
      and is served among the first replacements. */
  lemma EvictionFailsExactly(current: seq<PeerMetadata>, candidates: seq<PeerMetadata>, maxAge: u64, cap: nat, now: Timestamp,
                             rotated: seq<PeerMetadata>)
    requires Rotation(current, candidates, maxAge, cap, now, rotated)
    ensures var pool, evicted := Pool(current, candidates, now, maxAge), StaleIds(current, now, maxAge);
            && ((exists p :: p in rotated && IsStale(p, now, maxAge)) <==>
                exists i :: 0 <= i < |pool| && IsStale(pool[i], now, maxAge) && Chosen(pool, cap, |evicted|, i))
            && ((exists p :: p in rotated && p.id in evicted) <==>
                exists i :: 0 <= i < |pool| && pool[i].id in evicted && Chosen(pool, cap, |evicted|, i))
  {
    var pool, n := Pool(current, candidates, now, maxAge), |StaleIds(current, now, maxAge)|;
    forall p
      ensures p in rotated && (IsStale(p, now, maxAge) || p.id in StaleIds(current, now, maxAge)) ==>
              Replaces(pool, cap, n, p)
      ensures Replaces(pool, cap, n, p) ==> p in rotated
    {
      RotatedExactly(current, candidates, maxAge, cap, now, rotated, p);
    }
    forall i | 0 <= i < |pool| && Chosen(pool, cap, n, i)
      ensures pool[i] in rotated
    {
      assert Replaces(pool, cap, n, pool[i]);
    }
  }

  // ---------------------------------------------------------------------
  // The cap after a rotation
  // ---------------------------------------------------------------------

  /** How many peers belong to `asn`. */
  function CountAsn(peers: seq<PeerMetadata>, asn: u32): nat {
    if peers == [] then 0
    else
      var n := |peers| - 1;
      CountAsn(peers[..n], asn) + if EffectiveAsn(peers[n]) == asn then 1 else 0
  }

  lemma {:induction false} CountMeans(peers: seq<PeerMetadata>, n: nat, asn: u32)
    requires n <= |peers|
    ensures CountAsn(peers[..n], asn) == |Positions(peers, n, asn)|
  {
    if n > 0 {
      CountMeans(peers, n - 1, asn);
      assert peers[..n][..n - 1] == peers[..n - 1];
    }
  }

  /** Peers kept and peers selected add up. */
  lemma {:induction false} CountJoined(kept: seq<PeerMetadata>, pool: seq<PeerMetadata>, selected: seq<nat>, asn: u32)
    requires InRange(pool, selected)
    ensures CountAsn(kept + At(pool, selected), asn) == CountAsn(kept, asn) + |OfAsn(pool, selected, asn)|
    decreases |selected|
  {
    if selected == [] {
      assert kept + At(pool, selected) == kept;
    } else {
      var n := |selected| - 1;
      CountJoined(kept, pool, selected[..n], asn);
      var all := kept + At(pool, selected);
      assert all[..|all| - 1] == kept + At(pool, selected[..n]);
      assert all[|all| - 1] == pool[selected[n]];
    }
  }

  /** What was selected from one ASN has ranks 0, 1, 2, ... or larger ones, in order. */
  lemma {:induction false} OfAsnRanks(peers: seq<PeerMetadata>, list: seq<nat>, asn: u32, x: nat)
    requires InRange(peers, list) && InOrder(peers, list) && x < |OfAsn(peers, list, asn)|
    ensures var i := OfAsn(peers, list, asn)[x];
            i in list && i < |peers| && EffectiveAsn(peers[i]) == asn && Rank(peers, i) >= x
    decreases |list|
  {
    var n := |list| - 1;
    var front := OfAsn(peers, list[..n], asn);
    assert list == list[..n] + [list[n]];
    if x < |front| {
      OfAsnRanks(peers, list[..n], asn, x);
    } else if x > 0 {
      OfAsnRanks(peers, list[..n], asn, x - 1);
      var y :| 0 <= y < n && list[y] == front[x - 1];
      assert Precedes(peers, list[y], list[n]);
    }
  }

  /** Whoever precedes a chosen candidate of the same ASN is chosen. */
  lemma ChosenBelow(peers: seq<PeerMetadata>, cap: nat, n: nat, i: nat, j: nat)
    requires i < |peers| && j < |peers| && EffectiveAsn(peers[i]) == EffectiveAsn(peers[j])
    requires Chosen(peers, cap, n, i) && Rank(peers, j) <= Rank(peers, i)
    ensures Chosen(peers, cap, n, j)
  {
    SubsetSize(Ahead(peers, j), Ahead(peers, i));
  }

  /** A chosen candidate of rank `r` brings the `r` before it along. */
  lemma {:induction false} ChosenBringsAll(peers: seq<PeerMetadata>, cap: nat, n: nat, selected: seq<nat>, i: nat)
    requires Selection(peers, cap, n, selected) && i < |peers| && Chosen(peers, cap, n, i)
    ensures |OfAsn(peers, selected, EffectiveAsn(peers[i]))| > Rank(peers, i)
  {
    var asn, r := EffectiveAsn(peers[i]), Rank(peers, i);
    var ps, picked := Positions(peers, |peers|, asn), OfAsn(peers, selected, asn);
    RankInBucket(peers, |peers|, i);
    forall x | 0 <= x <= r
      ensures ps[x] in picked
    {
      PositionAsn(peers, |peers|, asn, x);
      PositionRank(peers, |peers|, asn, x);
      ChosenBelow(peers, cap, n, i, ps[x]);
      OfAsnMembers(peers, selected, ps[x]);
    }
    PositionsDistinct(peers, asn, r + 1);
    assert Members(ps[..r + 1]) <= Members(picked);
    SubsetSize(Members(ps[..r + 1]), Members(picked));
    MembersSize(picked);
  }

  lemma {:induction false} PositionsDistinct(peers: seq<PeerMetadata>, asn: u32, n: nat)
    requires n <= |Positions(peers, |peers|, asn)|
    ensures |Members(Positions(peers, |peers|, asn)[..n])| == n
  {
    if n > 0 {
      var ps := Positions(peers, |peers|, asn);
      PositionsDistinct(peers, asn, n - 1);
      assert Members(ps[..n]) == Members(ps[..n - 1]) + {ps[n - 1]};
      forall x | 0 <= x < n - 1
        ensures ps[x] != ps[n - 1]
      {
        PositionRank(peers, |peers|, asn, x);
        PositionRank(peers, |peers|, asn, n - 1);
      }
    }
  }

  lemma {:induction false} MembersSize(list: seq<nat>)
    ensures |Members(list)| <= |list|
  {
    if list != [] {
      var n := |list| - 1;
      MembersSize(list[..n]);
      assert Members(list) == Members(list[..n]) + {list[n]};
    }
  }

  /** Per-ASN count of the rotated set: the peers kept, plus the chosen ones, and more than
      `q` of those exactly when one of rank at least `q` is chosen. */
  lemma {:induction false} RotatedCount(kept: seq<PeerMetadata>, pool: seq<PeerMetadata>, cap: nat, n: nat, selected: seq<nat>,
                                        asn: u32, q: nat)
    requires Selection(pool, cap, n, selected)
    ensures CountAsn(kept + At(pool, selected), asn) > CountAsn(kept, asn) + q <==>
            exists i :: 0 <= i < |pool| && EffectiveAsn(pool[i]) == asn && Chosen(pool, cap, n, i) && Rank(pool, i) >= q
  {
    CountJoined(kept, pool, selected, asn);
    if |OfAsn(pool, selected, asn)| > q {
      OfAsnRanks(pool, selected, asn, q);
      var i := OfAsn(pool, selected, asn)[q];
      assert Chosen(pool, cap, n, i);
    }
    forall i | 0 <= i < |pool| && EffectiveAsn(pool[i]) == asn && Chosen(pool, cap, n, i)
      ensures |OfAsn(pool, selected, asn)| > Rank(pool, i)
    {
      ChosenBringsAll(pool, cap, n, selected, i);
    }
  }

  ghost predicate WithinCap(peers: seq<PeerMetadata>, cap: nat) {
    forall asn: u32 :: CountAsn(peers, asn) <= cap
  }

  /** Each chosen candidate of the pool still fits beside the peers kept from its ASN. */
  ghost predicate FitsBeside(kept: seq<PeerMetadata>, pool: seq<PeerMetadata>, cap: nat, n: nat) {
    forall i :: 0 <= i < |pool| && Chosen(pool, cap, n, i) ==> CountAsn(kept, EffectiveAsn(pool[i])) + Rank(pool, i) < cap
  }

  /** The cap is documented as the most peers allowed from one ASN. Rotation applies it to the
      replacements alone: the rotated set stays within it exactly when the peers kept do and
      each replacement fits beside those of its ASN. */
  lemma {:induction false} RotationWithinCapExactly(current: seq<PeerMetadata>, candidates: seq<PeerMetadata>, maxAge: u64, cap: nat,
                                                    now: Timestamp, rotated: seq<PeerMetadata>)
    requires Rotation(current, candidates, maxAge, cap, now, rotated)
    ensures var kept, pool := Kept(current, now, maxAge), Pool(current, candidates, now, maxAge);
            WithinCap(rotated, cap) <==> WithinCap(kept, cap) && FitsBeside(kept, pool, cap, |StaleIds(current, now, maxAge)|)
  {
    var kept, pool, n := Kept(current, now, maxAge), Pool(current, candidates, now, maxAge), |StaleIds(current, now, maxAge)|;
    var selected :| Selection(pool, cap, n, selected) && rotated == kept + At(pool, selected);
    forall asn: u32
      ensures CountAsn(kept, asn) <= CountAsn(rotated, asn)
    {
      CountJoined(kept, pool, selected, asn);
    }
    if WithinCap(rotated, cap) {
      forall i | 0 <= i < |pool| && Chosen(pool, cap, n, i)
        ensures CountAsn(kept, EffectiveAsn(pool[i])) + Rank(pool, i) < cap
      {
        RotatedCount(kept, pool, cap, n, selected, EffectiveAsn(pool[i]), Rank(pool, i));
      }
    }
    if WithinCap(kept, cap) && FitsBeside(kept, pool, cap, n) {
      forall asn: u32
        ensures CountAsn(rotated, asn) <= cap
      {
        RotatedCount(kept, pool, cap, n, selected, asn, cap - CountAsn(kept, asn));
      }
    }
  }

  /** It can leave the cap: one kept peer and one replacement of its ASN, with a cap of one. */
  lemma {:induction false} RotationExceedsCap(k: PeerMetadata, s: PeerMetadata, c: PeerMetadata, now: Timestamp, maxAge: u64,
                                              rotated: seq<PeerMetadata>)
    requires !IsStale(k, now, maxAge) && IsStale(s, now, maxAge)
    requires k.id != s.id && c.id != k.id && EffectiveAsn(c) == EffectiveAsn(k)
    requires Rotation([k, s], [c], maxAge, 1, now, rotated)
    ensures CountAsn(rotated, EffectiveAsn(k)) > 1
  {
    var pool := [c];
    OneStaleOfTwo(k, s, c, now, maxAge);
    var selected :| Selection(pool, 1, 1, selected) && rotated == [k] + At(pool, selected);
    assert Ahead(pool, 0) == {};
    assert Chosen(pool, 1, 1, 0);
    assert [k][..0] == [];
    RotatedCount([k], pool, 1, 1, selected, EffectiveAsn(k), 0);
  }

  lemma {:induction false} OneStaleOfTwo(k: PeerMetadata, s: PeerMetadata, c: PeerMetadata, now: Timestamp, maxAge: u64)
    requires !IsStale(k, now, maxAge) && IsStale(s, now, maxAge) && k.id != s.id && c.id != k.id
    ensures StaleIds([k, s], now, maxAge) == {s.id} && |StaleIds([k, s], now, maxAge)| == 1
    ensures Kept([k, s], now, maxAge) == [k] && Pool([k, s], [c], now, maxAge) == [c]
  {
    var current := [k, s];
    assert s in current && k in current;
    assert StaleIds(current, now, maxAge) == {s.id};
    KeepOne(k, [s], {s.id});
    KeepOne(s, [], {s.id});
    KeepOne(c, [], {k.id});
    assert [k][0] in [k] && Ids([k]) == {k.id};
  }

  lemma {:induction false} KeepOne(p: PeerMetadata, rest: seq<PeerMetadata>, gone: set<Did>)
    ensures Keep([p] + rest, gone) == (if p.id in gone then [] else [p]) + Keep(rest, gone)
    ensures rest == [] ==> Keep(rest, gone) == [] && [p] + rest == [p]
    ensures |rest| == 1 ==> [p] + rest == [p, rest[0]]
  {
    assert ([p] + rest)[1..] == rest;
  }

  /** A stale peer that is the only candidate comes straight back. */
  lemma EvictedPeerReturns(p: PeerMetadata, cap: nat, now: Timestamp, maxAge: u64, rotated: seq<PeerMetadata>)
    requires IsStale(p, now, maxAge) && cap > 0 && Rotation([p], [p], maxAge, cap, now, rotated)
    ensures p in rotated && p.id in StaleIds([p], now, maxAge)
  {
    StaleAlone(p, [p], now, maxAge);
    assert Ahead([p], 0) == {};
    assert Chosen([p], cap, 1, 0);
    assert Replaces([p], cap, 1, p);
    RotatedExactly([p], [p], maxAge, cap, now, rotated, p);
  }

  /** A stale peer offered behind another candidate of its ASN does not come back. */
  lemma EvictedPeerStaysAway(p: PeerMetadata, q: PeerMetadata, cap: nat, now: Timestamp, maxAge: u64, rotated: seq<PeerMetadata>)
    requires IsStale(p, now, maxAge) && q.id != p.id && EffectiveAsn(q) == EffectiveAsn(p)
    requires Rotation([p], [q, p], maxAge, cap, now, rotated)
    ensures p !in rotated
  {
    var pool := [q, p];
    StaleAlone(p, pool, now, maxAge);
    assert Positions(pool, 1, EffectiveAsn(p)) == [0];
    assert 0 in Ahead(pool, 1);
    SubsetSize({0}, Ahead(pool, 1));
    RotatedExactly([p], pool, maxAge, cap, now, rotated, p);
  }

  lemma StaleAlone(p: PeerMetadata, candidates: seq<PeerMetadata>, now: Timestamp, maxAge: u64)
    requires IsStale(p, now, maxAge)
    ensures StaleIds([p], now, maxAge) == {p.id} && Kept([p], now, maxAge) == []
    ensures Pool([p], candidates, now, maxAge) == candidates
  {
    assert StaleIds([p], now, maxAge) == {p.id};
    assert [p][1..] == [];
    assert Keep([p], {p.id}) == [];
    NoIds([]);
    KeepNothingGone(candidates);
  }

  lemma NoIds(peers: seq<PeerMetadata>)
    ensures peers == [] <==> Ids(peers) == {}
  {
    if peers != [] {
      assert peers[0] in peers && peers[0].id in Ids(peers);
    }
  }

  lemma {:induction false} KeepNothingGone(peers: seq<PeerMetadata>)
    ensures Keep(peers, {}) == peers
  {
    if peers != [] {
      KeepNothingGone(peers[1..]);
    }
  }
}
