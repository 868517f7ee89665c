/** Merkle Mountain Range (crates/exo-dag/src/mmr.rs): an append-only accumulator
    that keeps one perfect Merkle tree ("peak") per set bit of its length, each in
    a level-order array. */
module Mmr {
  import opened Basics

  /** The four domain-separated hash functions of the file. */
  datatype Hasher = Hasher(
    leaf: Digest -> Digest,
    node: (Digest, Digest) -> Digest,
    bag: seq<Digest> -> Digest,
    empty: Digest)
  {
    function Leaf(data: Digest): Digest { leaf(data) }
    function Node(left: Digest, right: Digest): Digest { node(left, right) }
    function Bag(peaks: seq<Digest>): Digest { bag(peaks) }
  }

  /** Injective, with disjoint ranges ("mmr:leaf:", "mmr:node:", "mmr:peaks:", "mmr:empty"). */
  ghost predicate CollisionFree(h: Hasher) {
    && (forall a, b :: h.Leaf(a) == h.Leaf(b) ==> a == b)
    && (forall a, b, c, d :: h.Node(a, b) == h.Node(c, d) ==> a == c && b == d)
    && (forall s, t :: h.Bag(s) == h.Bag(t) ==> s == t)
    && (forall a, b, c :: h.Leaf(a) != h.Node(b, c))
    && (forall a, s :: h.Leaf(a) != h.Bag(s))
    && (forall a, b, s :: h.Node(a, b) != h.Bag(s))
    && (forall a :: h.Leaf(a) != h.empty)
    && (forall a, b :: h.Node(a, b) != h.empty)
    && (forall s :: h.Bag(s) != h.empty)
  }

  datatype Peak = Peak(hash: Digest, height: nat, leafCount: nat, nodes: seq<Digest>)

  datatype Proof = Proof(siblings: seq<Digest>, peakIndex: nat, peaks: seq<Digest>)

  function BagPeaks(h: Hasher, peaks: seq<Digest>): Digest {
    if |peaks| == 0 then h.empty
    else if |peaks| == 1 then peaks[0]
    else h.Bag(peaks)
  }

  function Hashes(peaks: seq<Peak>): (r: seq<Digest>)
    ensures |r| == |peaks|
    ensures forall i :: 0 <= i < |peaks| ==> r[i] == peaks[i].hash
  {
    seq(|peaks|, i requires 0 <= i < |peaks| => peaks[i].hash)
  }

  // ---------------------------------------------------------------------
  // What a peak and a range of peaks are
  // ---------------------------------------------------------------------

  /** `p` is the perfect Merkle tree over `ls`, stored in level order: every inner
      entry hashes the two entries below it, the last entries are the hashed leaves. */
  ghost predicate PeakOf(h: Hasher, p: Peak, ls: seq<Digest>) {
    && |ls| == p.leafCount == Pow2(p.height)
    && |p.nodes| == 2 * p.leafCount - 1
    && p.hash == p.nodes[0]
    && (forall i :: 0 <= i < p.leafCount - 1 ==> Inner(h, p.nodes, i))
    && (forall j :: 0 <= j < p.leafCount ==> p.nodes[p.leafCount - 1 + j] == h.Leaf(ls[j]))
  }

  ghost predicate Inner(h: Hasher, nodes: seq<Digest>, i: nat)
    requires 2 * i + 2 < |nodes|
  {
    nodes[i] == h.Node(nodes[2 * i + 1], nodes[2 * i + 2])
  }

  /** Number of leaves under the first `k` peaks. */
  function Offset(peaks: seq<Peak>, k: nat): (r: nat)
    requires k <= |peaks|
  {
    if k == 0 then 0 else Offset(peaks, k - 1) + peaks[k - 1].leafCount
  }

  lemma {:induction false} OffsetMonotone(peaks: seq<Peak>, j: nat, k: nat)
    requires j <= k <= |peaks|
    ensures Offset(peaks, j) <= Offset(peaks, k)
  {
    if j < k {
      OffsetMonotone(peaks, j, k - 1);
    }
  }

  lemma {:induction false} OffsetPrefix(peaks: seq<Peak>, more: seq<Peak>, k: nat)
    requires k <= |peaks|
    ensures Offset(peaks + more, k) == Offset(peaks, k)
  {
    if k > 0 {
      OffsetPrefix(peaks, more, k - 1);
    }
  }

  /** The peaks partition the leaves, in order. */
  ghost predicate Covers(h: Hasher, peaks: seq<Peak>, leaves: seq<Digest>) {
    && Offset(peaks, |peaks|) == |leaves|
    && forall k :: 0 <= k < |peaks| ==> CoversAt(h, peaks, leaves, k)
  }

  ghost predicate CoversAt(h: Hasher, peaks: seq<Peak>, leaves: seq<Digest>, k: nat)
    requires k < |peaks|
  {
    && Offset(peaks, k + 1) <= |leaves|
    && PeakOf(h, peaks[k], leaves[Offset(peaks, k)..Offset(peaks, k + 1)])
  }

  ghost predicate Descending(peaks: seq<Peak>) {
    forall i, j :: 0 <= i < j < |peaks| ==> peaks[i].height > peaks[j].height
  }

  /** The invariant of every mountain range. */
  ghost predicate WellFormed(h: Hasher, peaks: seq<Peak>, leaves: seq<Digest>) {
    Covers(h, peaks, leaves) && Descending(peaks)
  }

  lemma {:induction false} CoversAtPrefix(h: Hasher, peaks: seq<Peak>, leaves: seq<Digest>, p: seq<Peak>, ls: seq<Digest>, k: nat)
    requires k < |peaks|
    requires Offset(peaks, k + 1) <= |leaves|
    ensures CoversAt(h, peaks + p, leaves + ls, k) == CoversAt(h, peaks, leaves, k)
  {
    OffsetPrefix(peaks, p, k);
    OffsetPrefix(peaks, p, k + 1);
    assert (leaves + ls)[Offset(peaks, k)..Offset(peaks, k + 1)] == leaves[Offset(peaks, k)..Offset(peaks, k + 1)];
  }

  lemma {:induction false} CoversAtLast(h: Hasher, peaks: seq<Peak>, leaves: seq<Digest>, p: Peak, ls: seq<Digest>)
    requires Offset(peaks, |peaks|) == |leaves| && |ls| == p.leafCount
    ensures Offset(peaks + [p], |peaks| + 1) == |leaves| + |ls|
    ensures CoversAt(h, peaks + [p], leaves + ls, |peaks|) == PeakOf(h, p, ls)
  {
    OffsetPrefix(peaks, [p], |peaks|);
    assert (leaves + ls)[|leaves|..|leaves| + |ls|] == ls;
  }

  lemma {:induction false} CoversAtFront(h: Hasher, peaks: seq<Peak>, leaves: seq<Digest>, p: Peak, ls: seq<Digest>)
    requires Offset(peaks, |peaks|) == |leaves|
    ensures forall k :: 0 <= k < |peaks| ==> CoversAt(h, peaks + [p], leaves + ls, k) == CoversAt(h, peaks, leaves, k)
  {
    forall k | 0 <= k < |peaks|
      ensures CoversAt(h, peaks + [p], leaves + ls, k) == CoversAt(h, peaks, leaves, k)
    {
      OffsetMonotone(peaks, k + 1, |peaks|);
      CoversAtPrefix(h, peaks, leaves, [p], ls, k);
    }
  }

  lemma CoversPush(h: Hasher, peaks: seq<Peak>, leaves: seq<Digest>, p: Peak, ls: seq<Digest>)
    requires Covers(h, peaks, leaves) && PeakOf(h, p, ls)
    ensures Covers(h, peaks + [p], leaves + ls)
  {
    CoversAtLast(h, peaks, leaves, p, ls);
    CoversAtFront(h, peaks, leaves, p, ls);
  }

  lemma {:induction false} CoversPop(h: Hasher, peaks: seq<Peak>, leaves: seq<Digest>)
    requires |peaks| > 0 && Covers(h, peaks, leaves)
    ensures Offset(peaks, |peaks| - 1) == |leaves| - peaks[|peaks| - 1].leafCount
    ensures Covers(h, peaks[..|peaks| - 1], leaves[..Offset(peaks, |peaks| - 1)])
    ensures PeakOf(h, peaks[|peaks| - 1], leaves[Offset(peaks, |peaks| - 1)..])
  {
    var n := |peaks| - 1;
    var front, p, cut := peaks[..n], peaks[n], Offset(peaks, n);
    assert peaks == front + [p];
    OffsetPrefix(front, [p], n);
    var ls, tail := leaves[..cut], leaves[cut..];
    assert leaves == ls + tail && |tail| == p.leafCount;
    CoversSplit(h, front, leaves[..cut], p, leaves[cut..]);
  }

  lemma {:induction false} CoversSplit(h: Hasher, peaks: seq<Peak>, leaves: seq<Digest>, p: Peak, ls: seq<Digest>)
    requires Covers(h, peaks + [p], leaves + ls) && Offset(peaks, |peaks|) == |leaves| && |ls| == p.leafCount
    ensures Covers(h, peaks, leaves) && PeakOf(h, p, ls)
  {
    CoversAtLast(h, peaks, leaves, p, ls);
    CoversAtFront(h, peaks, leaves, p, ls);
    assert CoversAt(h, peaks + [p], leaves + ls, |peaks|);
    forall k | 0 <= k < |peaks|
      ensures CoversAt(h, peaks, leaves, k)
    {
      assert CoversAt(h, peaks + [p], leaves + ls, k);
    }
  }

  // ---------------------------------------------------------------------
  // Merging: where `copy_subtree` puts each entry
  // ---------------------------------------------------------------------

  /** The source entry that a copy of the subtree at `si` onto `di` puts at `k`. */
  function Source(di: nat, si: nat, k: nat): (r: Option<nat>)
    ensures k < di ==> r.None?
    ensures r.Some? ==> r.value >= si
    decreases k
  {
    if k == di then Some(si)
    else if k < di || k == 0 then None
    else match Source(di, si, (k - 1) / 2)
      case None => None
      case Some(p) => Some(if k % 2 == 1 then 2 * p + 1 else 2 * p + 2)
  }

  /** A subtree is its root, its left subtree and its right subtree, disjointly. */
  lemma {:induction false} SourceSplit(di: nat, si: nat, k: nat)
    ensures k != di ==>
      && Source(di, si, k) == (if Source(2 * di + 1, 2 * si + 1, k).Some? then Source(2 * di + 1, 2 * si + 1, k)
                               else Source(2 * di + 2, 2 * si + 2, k))
      && (Source(2 * di + 1, 2 * si + 1, k).None? || Source(2 * di + 2, 2 * si + 2, k).None?)
    ensures Source(2 * di + 1, 2 * si + 1, di).None? && Source(2 * di + 2, 2 * si + 2, di).None?
    decreases k
  {
    if k > di {
      SourceSplit(di, si, (k - 1) / 2);
    }
  }

  /** Entry `k` after copying the subtree of `src` at `si` onto `dst` at `di`. */
  function Copied(dst: seq<Digest>, di: nat, src: seq<Digest>, si: nat, k: nat): Digest
    requires k < |dst|
  {
    match Source(di, si, k)
    case None => dst[k]
    case Some(j) => if j < |src| then src[j] else dst[k]
  }

  method CopySubtree(dst: array<Digest>, di: nat, src: seq<Digest>, si: nat)
    modifies dst
    ensures forall k :: 0 <= k < dst.Length ==> dst[k] == Copied(old(dst[..]), di, src, si, k)
    decreases |src| - si
  {
    if si >= |src| || di >= dst.Length {
      return;
    }
    dst[di] := src[si];
    CopySubtree(dst, 2 * di + 1, src, 2 * si + 1);
    CopySubtree(dst, 2 * di + 2, src, 2 * si + 2);
    forall k | 0 <= k < dst.Length
      ensures dst[k] == Copied(old(dst[..]), di, src, si, k)
    {
      SourceSplit(di, si, k);
    }
  }

  /** Entry `k` of the merged array is entry `j` of tree `b`, and of no other tree. */
  ghost predicate ComesFrom(b: nat, k: nat, j: nat)
    requires 1 <= b <= 2
  {
    Source(b, 0, k) == Some(j) && Source(3 - b, 0, k) == None
  }

  lemma ComesFromChild(b: nat, p: nat, q: nat, bit: nat)
    requires 1 <= b <= 2 && bit < 2 && p >= 1
    requires ComesFrom(b, p, q)
    ensures ComesFrom(b, 2 * p + 1 + bit, 2 * q + 1 + bit)
  {
    assert (2 * p + 1 + bit - 1) / 2 == p;
  }

  /** Level `d` of a tree copied under entry 1 or 2 lands on level `d + 1`: the left
      copy on its first half, the right copy on its second half. */
  lemma {:induction false} SourceLevel(b: nat, d: nat, m: nat)
    requires m < Pow2(d) && 1 <= b <= 2
    ensures ComesFrom(b, (1 + b) * Pow2(d) - 1 + m, Pow2(d) - 1 + m)
  {
    if d == 0 {
      assert Source(1, 0, 0) == None;
      assert ComesFrom(b, b, 0);
    } else {
      SourceLevel(b, d - 1, m / 2);
      ComesFromChild(b, (1 + b) * Pow2(d - 1) - 1 + m / 2, Pow2(d - 1) - 1 + m / 2, m % 2);
      assert Pow2(d) == 2 * Pow2(d - 1);
    }
  }

  /** Every positive entry lies on exactly one level below the root. */
  lemma {:induction false} LevelOf(k: nat) returns (d: nat, m: nat)
    ensures m < Pow2(d) && k == Pow2(d) - 1 + m
  {
    if k == 0 {
      d, m := 0, 0;
    } else {
      var e, n := LevelOf((k - 1) / 2);
      d, m := e + 1, 2 * n + (k - 1) % 2;
      assert Pow2(d) == 2 * Pow2(e);
    }
  }

  lemma Pow2Between(a: nat, b: nat)
    requires Pow2(a) < 2 * Pow2(b)
    ensures a <= b
  {
    if b < a {
      Pow2Monotone(b, a);
    }
  }

  /** Entry `k >= 1` of the merged array comes from the left (1) or the right (2) tree,
      inner entries from inner entries and leaves from leaves, in order. */
  lemma MergedEntry(n: nat, k: nat) returns (b: nat, j: nat)
    requires 1 <= k < 4 * Pow2(n) - 1
    ensures 1 <= b <= 2 && ComesFrom(b, k, j)
    ensures j < 2 * Pow2(n) - 1
    ensures k < 2 * Pow2(n) - 1 <==> j < Pow2(n) - 1
    ensures k >= 2 * Pow2(n) - 1 ==> k == b * Pow2(n) + j
    ensures k >= 2 * Pow2(n) - 1 ==> (b == 1 <==> k < 3 * Pow2(n) - 1)
  {
    var d, m := LevelOf(k);
    var e := d - 1;
    assert Pow2(d) == 2 * Pow2(e);
    Pow2Between(e, n);
    if e < n {
      Pow2Monotone(e, n);
    }
    b := if m < Pow2(e) then 1 else 2;
    m := m - (b - 1) * Pow2(e);
    j := Pow2(e) - 1 + m;
    SourceLevel(b, e, m);
  }

  method FromLeaf(leafHash: Digest) returns (p: Peak)
    ensures p == Peak(leafHash, 0, 1, [leafHash])
  {
    p := Peak(leafHash, 0, 1, [leafHash]);
  }

  method Merge(h: Hasher, left: Peak, right: Peak, ghost ls: seq<Digest>, ghost rs: seq<Digest>) returns (p: Peak)
    requires PeakOf(h, left, ls) && PeakOf(h, right, rs)
    requires left.height == right.height
    ensures p.height == left.height + 1
    ensures PeakOf(h, p, ls + rs)
  {
    var newHash := h.Node(left.hash, right.hash);
    var newLeafCount := left.leafCount + right.leafCount;
    var nodes := new Digest[2 * newLeafCount - 1](_ => ZERO);
    nodes[0] := newHash;
    CopySubtree(nodes, 1, left.nodes, 0);
    CopySubtree(nodes, 2, right.nodes, 0);
    p := Peak(newHash, left.height + 1, newLeafCount, nodes[..]);
    assert Joins(p.nodes, newHash, left.nodes, right.nodes);
    forall k | 0 <= k < p.leafCount - 1
      ensures Inner(h, p.nodes, k)
    {
      JoinedInner(h, left, right, ls, rs, p.nodes, k);
    }
    forall i | 0 <= i < p.leafCount
      ensures p.nodes[p.leafCount - 1 + i] == h.Leaf((ls + rs)[i])
    {
      JoinedLeaf(h, left, right, ls, rs, p.nodes, i);
    }
  }

  /** `nodes` holds `root` on top of the entries of the two trees. */
  ghost predicate Joins(nodes: seq<Digest>, root: Digest, left: seq<Digest>, right: seq<Digest>) {
    && |nodes| > 0 && nodes[0] == root
    && (forall k: nat, j: nat :: k < |nodes| && ComesFrom(1, k, j) && j < |left| ==> nodes[k] == left[j])
    && (forall k: nat, j: nat :: k < |nodes| && ComesFrom(2, k, j) && j < |right| ==> nodes[k] == right[j])
  }

  lemma JoinedEntry(nodes: seq<Digest>, root: Digest, left: seq<Digest>, right: seq<Digest>, b: nat, k: nat, j: nat)
    requires Joins(nodes, root, left, right) && 1 <= b <= 2
    requires k < |nodes| && ComesFrom(b, k, j) && j < |left| == |right|
    ensures nodes[k] == (if b == 1 then left else right)[j]
  {
  }

  lemma JoinedInner(h: Hasher, left: Peak, right: Peak, ls: seq<Digest>, rs: seq<Digest>, nodes: seq<Digest>, k: nat)
    requires PeakOf(h, left, ls) && PeakOf(h, right, rs) && left.height == right.height
    requires Joins(nodes, h.Node(left.hash, right.hash), left.nodes, right.nodes)
    requires |nodes| == 4 * left.leafCount - 1 && k < 2 * left.leafCount - 1
    ensures Inner(h, nodes, k)
  {
    if k == 0 {
      SourceLevel(1, 0, 0);
      SourceLevel(2, 0, 0);
      JoinedEntry(nodes, nodes[0], left.nodes, right.nodes, 1, 1, 0);
      JoinedEntry(nodes, nodes[0], left.nodes, right.nodes, 2, 2, 0);
    } else {
      var b, j := MergedEntry(left.height, k);
      assert Inner(h, if b == 1 then left.nodes else right.nodes, j);
      JoinedFamily(h, nodes, left.nodes, right.nodes, b, k, j);
    }
  }

  /** An inner entry of one tree keeps its children in the joined array. */
  lemma JoinedFamily(h: Hasher, nodes: seq<Digest>, left: seq<Digest>, right: seq<Digest>, b: nat, k: nat, j: nat)
    requires |nodes| > 0 && Joins(nodes, nodes[0], left, right) && |left| == |right|
    requires 1 <= b <= 2 && k > 0 && ComesFrom(b, k, j) && 2 * k + 2 < |nodes| && 2 * j + 2 < |left|
    requires Inner(h, if b == 1 then left else right, j)
    ensures Inner(h, nodes, k)
  {
    ComesFromChild(b, k, j, 0);
    ComesFromChild(b, k, j, 1);
    JoinedEntry(nodes, nodes[0], left, right, b, k, j);
    JoinedEntry(nodes, nodes[0], left, right, b, 2 * k + 1, 2 * j + 1);
    JoinedEntry(nodes, nodes[0], left, right, b, 2 * k + 2, 2 * j + 2);
  }

  lemma JoinedLeaf(h: Hasher, left: Peak, right: Peak, ls: seq<Digest>, rs: seq<Digest>, nodes: seq<Digest>, i: nat)
    requires PeakOf(h, left, ls) && PeakOf(h, right, rs) && left.height == right.height
    requires Joins(nodes, h.Node(left.hash, right.hash), left.nodes, right.nodes)
    requires |nodes| == 4 * left.leafCount - 1 && i < 2 * left.leafCount
    ensures nodes[2 * left.leafCount - 1 + i] == h.Leaf((ls + rs)[i])
  {
    var c := left.leafCount;
    var b, j := MergedEntry(left.height, 2 * c - 1 + i);
    assert b * c == if b == 1 then c else 2 * c;
    JoinedEntry(nodes, nodes[0], left.nodes, right.nodes, b, 2 * c - 1 + i, j);
  }

  // ---------------------------------------------------------------------
  // Proofs
  // ---------------------------------------------------------------------

  function SiblingOf(i: nat): nat
    requires i > 0
  {
    if i % 2 == 1 then i + 1 else i - 1
  }

  /** The siblings met on the way from entry `i` up to the root. */
  function Path(nodes: seq<Digest>, i: nat): seq<Digest> {
    if i == 0 then []
    else (if SiblingOf(i) < |nodes| then [nodes[SiblingOf(i)]] else []) + Path(nodes, (i - 1) / 2)
  }

  /** The verifier's walk from entry `i` with hash `current`. */
  function Climb(h: Hasher, current: Digest, i: nat, siblings: seq<Digest>): Digest
    requires i >= Pow2(|siblings|) - 1
    decreases |siblings|
  {
    if siblings == [] then current
    else
      var up := if i % 2 == 1 then h.Node(current, siblings[0]) else h.Node(siblings[0], current);
      Climb(h, up, (i - 1) / 2, siblings[1..])
  }

  /** The index inside a peak of the given height that a position stands for. */
  function Local(position: nat, height: nat): (r: nat)
    ensures r < Pow2(height)
  {
    position % Pow2(height)
  }

  /** What `verify_proof` accepts. */
  predicate Accepts(h: Hasher, root: Digest, leaf: Digest, position: nat, proof: Proof) {
    && proof.peakIndex < |proof.peaks|
    && (var d := |proof.siblings|;
        Climb(h, h.Leaf(leaf), Pow2(d) - 1 + Local(position, d), proof.siblings) == proof.peaks[proof.peakIndex])
    && BagPeaks(h, proof.peaks) == root
  }

  /** The peak that holds `position`. */
  ghost predicate Holds(peaks: seq<Peak>, position: nat, k: nat) {
    k < |peaks| && Offset(peaks, k) <= position < Offset(peaks, k + 1)
  }

  function ProofAt(peaks: seq<Peak>, position: nat, k: nat): Proof
    requires k < |peaks| && Offset(peaks, k) <= position && peaks[k].leafCount > 0
  {
    var local := position - Offset(peaks, k);
    Proof(Path(peaks[k].nodes, peaks[k].leafCount - 1 + local), k, Hashes(peaks))
  }

  /** Climbing a peak's own sibling path reproduces its root. */
  lemma {:induction false} ClimbPath(h: Hasher, p: Peak, ls: seq<Digest>, d: nat, i: nat)
    requires PeakOf(h, p, ls)
    requires i < |p.nodes| && Pow2(d) - 1 <= i < 2 * Pow2(d) - 1
    ensures |Path(p.nodes, i)| == d
    ensures Climb(h, p.nodes[i], i, Path(p.nodes, i)) == p.hash
    decreases d
  {
    if d > 0 {
      var up := (i - 1) / 2;
      ClimbPath(h, p, ls, d - 1, up);
      InnerEntry(h, p, ls, up);
      var s := p.nodes[SiblingOf(i)];
      assert Path(p.nodes, i) == [s] + Path(p.nodes, up);
      ClimbStep(h, p.nodes[i], i, s, Path(p.nodes, up));
    }
  }

  lemma {:induction false} ClimbStep(h: Hasher, current: Digest, i: nat, s: Digest, rest: seq<Digest>)
    requires i >= Pow2(|rest| + 1) - 1
    ensures (i - 1) / 2 >= Pow2(|rest|) - 1
    ensures Climb(h, current, i, [s] + rest) ==
            Climb(h, if i % 2 == 1 then h.Node(current, s) else h.Node(s, current), (i - 1) / 2, rest)
  {
    assert ([s] + rest)[1..] == rest;
  }

  lemma InnerEntry(h: Hasher, p: Peak, ls: seq<Digest>, i: nat)
    requires PeakOf(h, p, ls) && 2 * i + 1 < |p.nodes|
    ensures 2 * i + 2 < |p.nodes|
    ensures p.nodes[i] == h.Node(p.nodes[2 * i + 1], p.nodes[2 * i + 2])
  {
    assert Inner(h, p.nodes, i);
  }

  /** Everything before a peak is a multiple of its width. */
  lemma {:induction false} OffsetAligned(h: Hasher, peaks: seq<Peak>, leaves: seq<Digest>, j: nat, k: nat) returns (q: nat)
    requires WellFormed(h, peaks, leaves) && j <= k < |peaks|
    ensures Offset(peaks, j) == Pow2(peaks[k].height) * q
  {
    q := 0;
    if j > 0 {
      q := OffsetAligned(h, peaks, leaves, j - 1, k);
      assert CoversAt(h, peaks, leaves, j - 1);
      var r := Pow2Divides(peaks[k].height, peaks[j - 1].height);
      Distribute(Pow2(peaks[k].height), q, r);
      q := q + r;
    }
  }

  lemma {:induction false} Pow2Divides(a: nat, b: nat) returns (q: nat)
    requires a <= b
    ensures Pow2(b) == Pow2(a) * q
  {
    if a == b {
      q := 1;
    } else {
      q := Pow2Divides(a, b - 1);
      Distribute(Pow2(a), q, q);
      q := 2 * q;
    }
  }

  lemma Distribute(w: nat, q: nat, r: nat)
    ensures w * (q + r) == w * q + w * r
  {
  }

  /** `position % 2^height` is the index inside the peak. */
  lemma {:induction false} LocalIndex(h: Hasher, peaks: seq<Peak>, leaves: seq<Digest>, k: nat, local: nat)
    requires WellFormed(h, peaks, leaves) && k < |peaks| && local < Pow2(peaks[k].height)
    ensures (Offset(peaks, k) + local) % Pow2(peaks[k].height) == local
  {
    var q := OffsetAligned(h, peaks, leaves, k, k);
    MultipleMod(q, Pow2(peaks[k].height), local);
  }

  lemma LeafEntry(h: Hasher, peaks: seq<Peak>, leaves: seq<Digest>, k: nat, local: nat)
    requires Covers(h, peaks, leaves) && k < |peaks| && local < peaks[k].leafCount
    ensures Offset(peaks, k) + local < |leaves|
    ensures peaks[k].leafCount == Pow2(peaks[k].height) && |peaks[k].nodes| == 2 * peaks[k].leafCount - 1
    ensures peaks[k].nodes[peaks[k].leafCount - 1 + local] == h.Leaf(leaves[Offset(peaks, k) + local])
  {
    assert CoversAt(h, peaks, leaves, k);
  }

  lemma ClimbFromLeaf(h: Hasher, peaks: seq<Peak>, leaves: seq<Digest>, k: nat, local: nat)
    requires Covers(h, peaks, leaves) && k < |peaks| && local < peaks[k].leafCount
    ensures Offset(peaks, k) + local < |leaves| && peaks[k].leafCount == Pow2(peaks[k].height)
    ensures var path := Path(peaks[k].nodes, peaks[k].leafCount - 1 + local);
            && |path| == peaks[k].height
            && Climb(h, h.Leaf(leaves[Offset(peaks, k) + local]), peaks[k].leafCount - 1 + local, path) == peaks[k].hash
  {
    var p := peaks[k];
    LeafEntry(h, peaks, leaves, k, local);
    assert CoversAt(h, peaks, leaves, k);
    ClimbPath(h, p, leaves[Offset(peaks, k)..Offset(peaks, k + 1)], p.height, p.leafCount - 1 + local);
  }

  /** Round trip: in every well-formed range, the proof of every position is accepted
      against the root. */
  lemma ProofsAreAccepted(h: Hasher, peaks: seq<Peak>, leaves: seq<Digest>, position: nat, k: nat)
    requires WellFormed(h, peaks, leaves) && Holds(peaks, position, k)
    ensures position < |leaves|
    ensures peaks[k].leafCount > 0
    ensures Accepts(h, BagPeaks(h, Hashes(peaks)), leaves[position], position, ProofAt(peaks, position, k))
  {
    var local := position - Offset(peaks, k);
    ClimbFromLeaf(h, peaks, leaves, k, local);
    LocalIndex(h, peaks, leaves, k, local);
  }

  // ---------------------------------------------------------------------
  // Soundness: what an accepted proof says
  // ---------------------------------------------------------------------

  /** An accepted climb agrees with the tree entry by entry, on the path and beside it. */
  lemma {:induction false} ClimbDown(h: Hasher, p: Peak, ls: seq<Digest>, current: Digest, i: nat, siblings: seq<Digest>)
    requires CollisionFree(h) && PeakOf(h, p, ls)
    requires |siblings| <= p.height && Pow2(|siblings|) - 1 <= i < 2 * Pow2(|siblings|) - 1
    requires Climb(h, current, i, siblings) == p.hash
    ensures i < |p.nodes| && current == p.nodes[i] && siblings == Path(p.nodes, i)
    decreases |siblings|
  {
    if |siblings| < p.height {
      Pow2Monotone(|siblings|, p.height);
    }
    if siblings != [] {
      var up, s := (i - 1) / 2, siblings[0];
      assert siblings == [s] + siblings[1..];
      var next := if i % 2 == 1 then h.Node(current, s) else h.Node(s, current);
      ClimbStep(h, current, i, s, siblings[1..]);
      ClimbDown(h, p, ls, next, up, siblings[1..]);
      InnerEntry(h, p, ls, up);
      assert current == p.nodes[i] && s == p.nodes[SiblingOf(i)];
    }
  }

  lemma LeafNotInner(h: Hasher, p: Peak, ls: seq<Digest>, i: nat)
    requires CollisionFree(h) && PeakOf(h, p, ls) && p.leafCount - 1 <= i < |p.nodes|
    ensures forall a, b :: h.Node(a, b) != p.nodes[i]
  {
    var j := i - (p.leafCount - 1);
    assert p.nodes[p.leafCount - 1 + j] == h.Leaf(ls[j]);
  }

  /** A path longer than the tree would make an inner hash equal a leaf hash. */
  lemma {:induction false} ClimbTooLong(h: Hasher, p: Peak, ls: seq<Digest>, current: Digest, i: nat, siblings: seq<Digest>)
    requires CollisionFree(h) && PeakOf(h, p, ls)
    requires |siblings| > p.height && Pow2(|siblings|) - 1 <= i < 2 * Pow2(|siblings|) - 1
    ensures Climb(h, current, i, siblings) != p.hash
    decreases |siblings|
  {
    var up, s := (i - 1) / 2, siblings[0];
    assert siblings == [s] + siblings[1..];
    var next := if i % 2 == 1 then h.Node(current, s) else h.Node(s, current);
    ClimbStep(h, current, i, s, siblings[1..]);
    if |siblings| - 1 > p.height {
      ClimbTooLong(h, p, ls, next, up, siblings[1..]);
    } else if Climb(h, current, i, siblings) == p.hash {
      ClimbDown(h, p, ls, next, up, siblings[1..]);
      LeafNotInner(h, p, ls, up);
    }
  }

  /** A climb that starts at a leaf fits exactly the height of the tree. */
  lemma {:induction false} ClimbFits(h: Hasher, p: Peak, ls: seq<Digest>, leaf: Digest, local: nat, siblings: seq<Digest>)
    requires CollisionFree(h) && PeakOf(h, p, ls) && local < Pow2(|siblings|)
    requires Climb(h, h.Leaf(leaf), Pow2(|siblings|) - 1 + local, siblings) == p.hash
    ensures |siblings| == p.height && leaf == ls[local]
    ensures siblings == Path(p.nodes, p.leafCount - 1 + local)
  {
    var i := Pow2(|siblings|) - 1 + local;
    if |siblings| > p.height {
      ClimbTooLong(h, p, ls, h.Leaf(leaf), i, siblings);
    } else {
      ClimbDown(h, p, ls, h.Leaf(leaf), i, siblings);
      if |siblings| < p.height {
        Pow2Monotone(|siblings|, p.height);
        InnerEntry(h, p, ls, i);
      }
    }
  }

  ghost predicate TreeHash(h: Hasher, x: Digest) {
    (exists a :: x == h.Leaf(a)) || (exists a, b :: x == h.Node(a, b))
  }

  lemma {:induction false} ClimbIsTreeHash(h: Hasher, current: Digest, i: nat, siblings: seq<Digest>)
    requires i >= Pow2(|siblings|) - 1 && TreeHash(h, current)
    ensures TreeHash(h, Climb(h, current, i, siblings))
    decreases |siblings|
  {
    if siblings != [] {
      var s := siblings[0];
      var up := if i % 2 == 1 then h.Node(current, s) else h.Node(s, current);
      assert TreeHash(h, up);
      ClimbIsTreeHash(h, up, (i - 1) / 2, siblings[1..]);
    }
  }

  lemma PeakIsTreeHash(h: Hasher, peaks: seq<Peak>, leaves: seq<Digest>, k: nat)
    requires Covers(h, peaks, leaves) && k < |peaks|
    ensures TreeHash(h, peaks[k].hash)
  {
    assert CoversAt(h, peaks, leaves, k);
    var p := peaks[k];
    if p.leafCount == 1 {
      LeafEntry(h, peaks, leaves, k, 0);
    } else {
      assert Inner(h, p.nodes, 0);
    }
  }

  /** Bagging is injective on lists that contain a tree hash. */
  lemma BagBinds(h: Hasher, xs: seq<Digest>, ys: seq<Digest>, k: nat)
    requires CollisionFree(h) && BagPeaks(h, xs) == BagPeaks(h, ys)
    requires k < |xs| && TreeHash(h, xs[k])
    requires forall j :: 0 <= j < |ys| ==> TreeHash(h, ys[j])
    ensures xs == ys
  {
    if |xs| == 1 {
      assert BagPeaks(h, xs) == xs[0];
    }
    if |ys| == 1 {
      assert TreeHash(h, ys[0]);
    }
  }

  /** `proof` and `leaf` are those of the stored leaf at the named peak's offset plus
      `position % 2^height`. */
  ghost predicate NamesStoredLeaf(peaks: seq<Peak>, leaves: seq<Digest>, leaf: Digest, position: nat, proof: Proof) {
    var k := proof.peakIndex;
    && k < |peaks|
    && (var at := Offset(peaks, k) + Local(position, peaks[k].height);
        && at < |leaves|
        && leaf == leaves[at]
        && peaks[k].leafCount > 0
        && proof == ProofAt(peaks, at, k))
  }

  lemma AcceptedPeaks(h: Hasher, peaks: seq<Peak>, leaves: seq<Digest>, leaf: Digest, position: nat, proof: Proof)
    requires CollisionFree(h) && Covers(h, peaks, leaves)
    requires Accepts(h, BagPeaks(h, Hashes(peaks)), leaf, position, proof)
    ensures proof.peaks == Hashes(peaks)
  {
    var d := |proof.siblings|;
    assert TreeHash(h, h.Leaf(leaf));
    ClimbIsTreeHash(h, h.Leaf(leaf), Pow2(d) - 1 + Local(position, d), proof.siblings);
    forall j | 0 <= j < |peaks|
      ensures TreeHash(h, Hashes(peaks)[j])
    {
      PeakIsTreeHash(h, peaks, leaves, j);
    }
    BagBinds(h, proof.peaks, Hashes(peaks), proof.peakIndex);
  }

  lemma AcceptedNamesStoredLeaf(h: Hasher, peaks: seq<Peak>, leaves: seq<Digest>, leaf: Digest, position: nat, proof: Proof)
    requires CollisionFree(h) && WellFormed(h, peaks, leaves)
    requires Accepts(h, BagPeaks(h, Hashes(peaks)), leaf, position, proof)
    ensures NamesStoredLeaf(peaks, leaves, leaf, position, proof)
  {
    var k := proof.peakIndex;
    var local := Local(position, |proof.siblings|);
    AcceptedPeaks(h, peaks, leaves, leaf, position, proof);
    ClimbFitsPeak(h, peaks, leaves, k, leaf, local, proof.siblings);
    NamesIntro(peaks, leaves, leaf, position, proof, k, local);
  }

  lemma NamesIntro(peaks: seq<Peak>, leaves: seq<Digest>, leaf: Digest, position: nat, proof: Proof, k: nat, local: nat)
    requires proof.peakIndex == k < |peaks| && proof.peaks == Hashes(peaks) && peaks[k].leafCount > 0
    requires local == Local(position, peaks[k].height) && Offset(peaks, k) + local < |leaves|
    requires leaf == leaves[Offset(peaks, k) + local]
    requires proof.siblings == Path(peaks[k].nodes, peaks[k].leafCount - 1 + local)
    ensures NamesStoredLeaf(peaks, leaves, leaf, position, proof)
  {
  }

  lemma ClimbFitsPeak(h: Hasher, peaks: seq<Peak>, leaves: seq<Digest>, k: nat, leaf: Digest, local: nat, siblings: seq<Digest>)
    requires CollisionFree(h) && Covers(h, peaks, leaves) && k < |peaks| && local < Pow2(|siblings|)
    requires Climb(h, h.Leaf(leaf), Pow2(|siblings|) - 1 + local, siblings) == peaks[k].hash
    ensures |siblings| == peaks[k].height && peaks[k].leafCount == Pow2(peaks[k].height)
    ensures Offset(peaks, k) + local < |leaves| && leaf == leaves[Offset(peaks, k) + local]
    ensures siblings == Path(peaks[k].nodes, peaks[k].leafCount - 1 + local)
  {
    assert CoversAt(h, peaks, leaves, k);
    var ls := leaves[Offset(peaks, k)..Offset(peaks, k + 1)];
    ClimbFits(h, peaks[k], ls, leaf, local, siblings);
    assert ls[local] == leaves[Offset(peaks, k) + local];
  }

  lemma StoredLeafAccepted(h: Hasher, peaks: seq<Peak>, leaves: seq<Digest>, leaf: Digest, position: nat, proof: Proof)
    requires WellFormed(h, peaks, leaves) && NamesStoredLeaf(peaks, leaves, leaf, position, proof)
    ensures Accepts(h, BagPeaks(h, Hashes(peaks)), leaf, position, proof)
  {
    var k := proof.peakIndex;
    assert CoversAt(h, peaks, leaves, k);
    ClimbFromLeaf(h, peaks, leaves, k, Local(position, peaks[k].height));
  }

  /** Membership soundness, exactly: a proof is accepted against the root of a range if
      and only if it names a peak, carries the true peak hashes and the true sibling path
      of the leaf at that peak's offset plus `position % 2^height`, and the leaf is the
      one stored there. The position itself is not bound, only its remainder. */
  lemma AcceptedExactly(h: Hasher, peaks: seq<Peak>, leaves: seq<Digest>, leaf: Digest, position: nat, proof: Proof)
    requires CollisionFree(h) && WellFormed(h, peaks, leaves)
    ensures Accepts(h, BagPeaks(h, Hashes(peaks)), leaf, position, proof) <==>
            NamesStoredLeaf(peaks, leaves, leaf, position, proof)
  {
    if Accepts(h, BagPeaks(h, Hashes(peaks)), leaf, position, proof) {
      AcceptedNamesStoredLeaf(h, peaks, leaves, leaf, position, proof);
    }
    if NamesStoredLeaf(peaks, leaves, leaf, position, proof) {
      StoredLeafAccepted(h, peaks, leaves, leaf, position, proof);
    }
  }

  // ---------------------------------------------------------------------
  // The root determines the leaves
  // ---------------------------------------------------------------------

  lemma {:induction false} SameEntry(h: Hasher, p: Peak, ls: seq<Digest>, q: Peak, ms: seq<Digest>, i: nat)
    requires CollisionFree(h) && PeakOf(h, p, ls) && PeakOf(h, q, ms)
    requires p.hash == q.hash && i < |p.nodes| && i < |q.nodes|
    ensures p.nodes[i] == q.nodes[i]
    decreases i
  {
    if i > 0 {
      var up := (i - 1) / 2;
      SameEntry(h, p, ls, q, ms, up);
      InnerEntry(h, p, ls, up);
      InnerEntry(h, q, ms, up);
    }
  }

  lemma NotTaller(h: Hasher, p: Peak, ls: seq<Digest>, q: Peak, ms: seq<Digest>)
    requires CollisionFree(h) && PeakOf(h, p, ls) && PeakOf(h, q, ms) && p.hash == q.hash
    ensures p.height >= q.height
  {
    if p.height < q.height {
      Pow2Monotone(p.height, q.height);
      var i := p.leafCount - 1;
      SameEntry(h, p, ls, q, ms, i);
      LeafNotInner(h, p, ls, i);
      InnerEntry(h, q, ms, i);
    }
  }

  lemma SamePeak(h: Hasher, p: Peak, ls: seq<Digest>, q: Peak, ms: seq<Digest>)
    requires CollisionFree(h) && PeakOf(h, p, ls) && PeakOf(h, q, ms) && p.hash == q.hash
    ensures p == q && ls == ms
  {
    NotTaller(h, p, ls, q, ms);
    NotTaller(h, q, ms, p, ls);
    forall i | 0 <= i < |p.nodes|
      ensures p.nodes[i] == q.nodes[i]
    {
      SameEntry(h, p, ls, q, ms, i);
    }
    assert p.nodes == q.nodes;
    forall j | 0 <= j < |ls|
      ensures ls[j] == ms[j]
    {
      assert p.nodes[p.leafCount - 1 + j] == h.Leaf(ls[j]);
      assert q.nodes[q.leafCount - 1 + j] == h.Leaf(ms[j]);
    }
  }

  lemma {:induction false} SamePeaks(h: Hasher, ps: seq<Peak>, ls: seq<Digest>, qs: seq<Peak>, ms: seq<Digest>)
    requires CollisionFree(h) && Covers(h, ps, ls) && Covers(h, qs, ms)
    requires Hashes(ps) == Hashes(qs)
    ensures ps == qs && ls == ms
    decreases |ps|
  {
    assert |ps| == |Hashes(ps)| == |qs|;
    if |ps| > 0 {
      var n := |ps| - 1;
      var i, j := Offset(ps, n), Offset(qs, n);
      CoversPop(h, ps, ls);
      CoversPop(h, qs, ms);
      HashesPop(ps);
      HashesPop(qs);
      SamePeak(h, ps[n], ls[i..], qs[n], ms[j..]);
      SamePeaks(h, ps[..n], ls[..i], qs[..n], ms[..j]);
      Rejoin(ls, i, ms, j);
      Rejoin(ps, n, qs, n);
    }
  }

  lemma HashesPop(peaks: seq<Peak>)
    requires |peaks| > 0
    ensures Hashes(peaks)[..|peaks| - 1] == Hashes(peaks[..|peaks| - 1])
    ensures Hashes(peaks)[|peaks| - 1] == peaks[|peaks| - 1].hash
  {
  }

  lemma Rejoin<T>(a: seq<T>, i: nat, b: seq<T>, j: nat)
    requires i <= |a| && j <= |b| && a[..i] == b[..j] && a[i..] == b[j..]
    ensures a == b
  {
    assert a == a[..i] + a[i..] && b == b[..j] + b[j..];
  }

  /** Two ranges with the same root, of whatever lengths, hold the same leaves in the same order. */
  lemma RootBinds(h: Hasher, ps: seq<Peak>, ls: seq<Digest>, qs: seq<Peak>, ms: seq<Digest>)
    requires CollisionFree(h) && Covers(h, ps, ls) && Covers(h, qs, ms)
    requires BagPeaks(h, Hashes(ps)) == BagPeaks(h, Hashes(qs))
    ensures ls == ms && ps == qs
  {
    forall j | 0 <= j < |ps| ensures TreeHash(h, Hashes(ps)[j]) { PeakIsTreeHash(h, ps, ls, j); }
    forall j | 0 <= j < |qs| ensures TreeHash(h, Hashes(qs)[j]) { PeakIsTreeHash(h, qs, ms, j); }
    if |ps| > 0 {
      BagBinds(h, Hashes(ps), Hashes(qs), 0);
    } else if |qs| > 0 {
      BagBinds(h, Hashes(qs), Hashes(ps), 0);
    }
    SamePeaks(h, ps, ls, qs, ms);
  }

  // ---------------------------------------------------------------------
  // The reference: greedy split into perfect trees
  // ---------------------------------------------------------------------

  function PerfectRoot(h: Hasher, d: nat, ls: seq<Digest>): Digest
    requires |ls| == Pow2(d)
  {
    if d == 0 then h.Leaf(ls[0])
    else h.Node(PerfectRoot(h, d - 1, ls[..Pow2(d - 1)]), PerfectRoot(h, d - 1, ls[Pow2(d - 1)..]))
  }

  /** Index of the highest set bit. */
  function TopBit(n: nat): (d: nat)
    requires n > 0
    ensures Pow2(d) <= n < 2 * Pow2(d)
  {
    if n == 1 then 0 else 1 + TopBit(n / 2)
  }

  /** The set bits of `n`, highest first. */
  function BitsOf(n: nat): seq<nat> {
    if n == 0 then [] else [TopBit(n)] + BitsOf(n - Pow2(TopBit(n)))
  }

  /** The perfect trees of a leaf list: the largest power of two first, then the rest. */
  function ReferencePeaks(h: Hasher, ls: seq<Digest>): seq<Digest>
    decreases |ls|
  {
    if ls == [] then []
    else
      var d := TopBit(|ls|);
      [PerfectRoot(h, d, ls[..Pow2(d)])] + ReferencePeaks(h, ls[Pow2(d)..])
  }

  /** The leftmost entry `e` levels below entry `i`. */
  function Leftmost(i: nat, e: nat): nat
    decreases e
  {
    if e == 0 then i else Leftmost(2 * i + 1, e - 1)
  }

  lemma {:induction false} LeftmostShift(i: nat, e: nat)
    ensures Leftmost(i + 1, e) == Leftmost(i, e) + Pow2(e)
    ensures i <= Leftmost(i, e)
    decreases e
  {
    if e > 0 {
      LeftmostShift(2 * i + 1, e - 1);
      LeftmostShift(2 * i + 2, e - 1);
    }
  }

  lemma {:induction false} LeftmostLeaf(e: nat)
    ensures Leftmost(0, e) == Pow2(e) - 1
  {
    if e > 0 {
      LeftmostLeaf(e - 1);
      LeftmostShift(0, e - 1);
    }
  }

  lemma LeftmostChildren(i: nat, e: nat)
    requires e > 0
    ensures Leftmost(2 * i + 1, e - 1) == Leftmost(i, e) >= 2 * i + 1
    ensures Leftmost(2 * i + 2, e - 1) == Leftmost(i, e) + Pow2(e - 1)
  {
    LeftmostShift(2 * i + 1, e - 1);
  }

  /** Entry `i`, `e` levels above the leaves, is the root of the perfect tree below it. */
  lemma {:induction false} EntryIsPerfectRoot(h: Hasher, p: Peak, ls: seq<Digest>, i: nat, a: nat, e: nat)
    requires PeakOf(h, p, ls)
    requires Leftmost(i, e) == p.leafCount - 1 + a && a + Pow2(e) <= p.leafCount
    ensures i < |p.nodes| && p.nodes[i] == PerfectRoot(h, e, ls[a..a + Pow2(e)])
    decreases e
  {
    if e == 0 {
      assert p.nodes[p.leafCount - 1 + a] == h.Leaf(ls[a]);
    } else {
      var half := Pow2(e - 1);
      LeftmostChildren(i, e);
      InnerEntry(h, p, ls, i);
      EntryIsPerfectRoot(h, p, ls, 2 * i + 1, a, e - 1);
      EntryIsPerfectRoot(h, p, ls, 2 * i + 2, a + half, e - 1);
      PerfectSplit(h, e, ls, a);
    }
  }

  lemma PerfectSplit(h: Hasher, e: nat, ls: seq<Digest>, a: nat)
    requires e > 0 && a + Pow2(e) <= |ls|
    ensures PerfectRoot(h, e, ls[a..a + Pow2(e)]) ==
            h.Node(PerfectRoot(h, e - 1, ls[a..a + Pow2(e - 1)]),
                   PerfectRoot(h, e - 1, ls[a + Pow2(e - 1)..a + Pow2(e - 1) + Pow2(e - 1)]))
  {
    var s, half := ls[a..a + Pow2(e)], Pow2(e - 1);
    assert s[..half] == ls[a..a + half];
    assert s[half..] == ls[a + half..a + half + half];
  }

  lemma {:induction false} OffsetShift(peaks: seq<Peak>, k: nat)
    requires 0 < |peaks| && k < |peaks|
    ensures Offset(peaks, k + 1) == peaks[0].leafCount + Offset(peaks[1..], k)
  {
    if k > 0 {
      OffsetShift(peaks, k - 1);
    }
  }

  lemma CoversRest(h: Hasher, peaks: seq<Peak>, leaves: seq<Digest>)
    requires |peaks| > 0 && WellFormed(h, peaks, leaves)
    ensures peaks[0].leafCount <= |leaves|
    ensures PeakOf(h, peaks[0], leaves[..peaks[0].leafCount])
    ensures WellFormed(h, peaks[1..], leaves[peaks[0].leafCount..])
  {
    var c := peaks[0].leafCount;
    OffsetShift(peaks, |peaks| - 1);
    assert CoversAt(h, peaks, leaves, 0);
    assert leaves[0..c] == leaves[..c];
    forall k | 0 <= k < |peaks| - 1
      ensures CoversAt(h, peaks[1..], leaves[c..], k)
    {
      OffsetShift(peaks, k);
      OffsetShift(peaks, k + 1);
      assert CoversAt(h, peaks, leaves, k + 1);
      assert leaves[c..][Offset(peaks[1..], k)..Offset(peaks[1..], k + 1)] ==
             leaves[Offset(peaks, k + 1)..Offset(peaks, k + 2)];
    }
  }

  /** Distinct powers of two below 2^d sum to less than 2^d. */
  lemma {:induction false} SmallerThan(h: Hasher, peaks: seq<Peak>, leaves: seq<Digest>, d: nat)
    requires WellFormed(h, peaks, leaves)
    requires |peaks| > 0 ==> peaks[0].height < d
    ensures |leaves| < Pow2(d)
    decreases |peaks|
  {
    if |peaks| > 0 {
      CoversRest(h, peaks, leaves);
      SmallerThan(h, peaks[1..], leaves[peaks[0].leafCount..], peaks[0].height);
      Pow2Monotone(peaks[0].height, d);
    }
  }

  lemma TopBitUnique(n: nat, d: nat)
    requires Pow2(d) <= n < 2 * Pow2(d)
    ensures TopBit(n) == d
  {
    Pow2Between(TopBit(n), d);
    Pow2Between(d, TopBit(n));
  }

  lemma {:induction false} FirstPeak(h: Hasher, peaks: seq<Peak>, leaves: seq<Digest>)
    requires |peaks| > 0 && WellFormed(h, peaks, leaves)
    ensures |leaves| > 0 && TopBit(|leaves|) == peaks[0].height
    ensures Pow2(peaks[0].height) == peaks[0].leafCount <= |leaves|
    ensures peaks[0].hash == PerfectRoot(h, peaks[0].height, leaves[..peaks[0].leafCount])
    ensures WellFormed(h, peaks[1..], leaves[peaks[0].leafCount..])
  {
    var p := peaks[0];
    CoversRest(h, peaks, leaves);
    SmallerThan(h, peaks[1..], leaves[p.leafCount..], p.height);
    TopBitUnique(|leaves|, p.height);
    var ls := leaves[..p.leafCount];
    LeftmostLeaf(p.height);
    EntryIsPerfectRoot(h, p, ls, 0, 0, p.height);
    assert ls[0..0 + Pow2(p.height)] == ls;
  }

  /** The peak heights are the set bits of the length, highest first. */
  lemma {:induction false} HeightsAreBits(h: Hasher, peaks: seq<Peak>, leaves: seq<Digest>)
    requires WellFormed(h, peaks, leaves)
    ensures |peaks| == |BitsOf(|leaves|)|
    ensures forall k :: 0 <= k < |peaks| ==> peaks[k].height == BitsOf(|leaves|)[k]
    decreases |peaks|
  {
    if |peaks| > 0 {
      FirstPeak(h, peaks, leaves);
      HeightsAreBits(h, peaks[1..], leaves[peaks[0].leafCount..]);
      forall k | 1 <= k < |peaks|
        ensures peaks[k] == peaks[1..][k - 1]
      {
      }
    }
  }

  /** The merging array code computes the reference. */
  lemma {:induction false} PeaksAreReference(h: Hasher, peaks: seq<Peak>, leaves: seq<Digest>)
    requires WellFormed(h, peaks, leaves)
    ensures Hashes(peaks) == ReferencePeaks(h, leaves)
    decreases |peaks|
  {
    if |peaks| > 0 {
      FirstPeak(h, peaks, leaves);
      PeaksAreReference(h, peaks[1..], leaves[peaks[0].leafCount..]);
      assert Hashes(peaks) == [peaks[0].hash] + Hashes(peaks[1..]);
    }
  }

  lemma {:induction false} ReferencePeakCount(h: Hasher, ls: seq<Digest>)
    ensures |ReferencePeaks(h, ls)| == |BitsOf(|ls|)|
    decreases |ls|
  {
    if ls != [] {
      ReferencePeakCount(h, ls[Pow2(TopBit(|ls|))..]);
    }
  }

  /** What bagging yields: the empty hash, one perfect tree, or a bag of at least two. */
  lemma {:induction false} RootMeans(h: Hasher, ls: seq<Digest>)
    ensures var root := BagPeaks(h, ReferencePeaks(h, ls));
            && (ls == [] ==> root == h.empty)
            && (forall d: nat :: |ls| == Pow2(d) ==> root == PerfectRoot(h, d, ls))
            && (|BitsOf(|ls|)| >= 2 ==> root == h.Bag(ReferencePeaks(h, ls)))
  {
    ReferencePeakCount(h, ls);
    forall d: nat | |ls| == Pow2(d)
      ensures BagPeaks(h, ReferencePeaks(h, ls)) == PerfectRoot(h, d, ls)
    {
      TopBitUnique(|ls|, d);
      assert ls[..Pow2(d)] == ls && ls[Pow2(d)..] == [];
    }
  }

  // ---------------------------------------------------------------------
  // What an accepted proof says about its position
  // ---------------------------------------------------------------------

  /** A proof of one position is accepted for every position with the same remainder. */
  lemma {:induction false} OtherPositionsAccepted(h: Hasher, peaks: seq<Peak>, leaves: seq<Digest>, position: nat, k: nat, other: nat)
    requires WellFormed(h, peaks, leaves) && Holds(peaks, position, k)
    requires Local(other, peaks[k].height) == Local(position, peaks[k].height)
    ensures position < |leaves| && peaks[k].leafCount > 0
    ensures Accepts(h, BagPeaks(h, Hashes(peaks)), leaves[position], other, ProofAt(peaks, position, k))
  {
    ProofsAreAccepted(h, peaks, leaves, position, k);
    ClimbFromLeaf(h, peaks, leaves, k, position - Offset(peaks, k));
  }

  /** Hence a proof is no proof for its position: of three leaves, the last is accepted as the
      first. */
  lemma {:induction false} WrongPositionAccepted(h: Hasher, peaks: seq<Peak>, leaves: seq<Digest>)
    requires WellFormed(h, peaks, leaves) && |leaves| == 3
    ensures |peaks| == 2
    ensures Accepts(h, BagPeaks(h, Hashes(peaks)), leaves[2], 0, Proof([], 1, Hashes(peaks)))
  {
    HeightsAreBits(h, peaks, leaves);
    TopBitUnique(3, 1);
    TopBitUnique(1, 0);
    assert CoversAt(h, peaks, leaves, 0) && CoversAt(h, peaks, leaves, 1);
    OtherPositionsAccepted(h, peaks, leaves, 2, 1, 0);
  }

  /** An accepted proof speaks of the leaf at its own position exactly when the peak it names
      holds that position. */
  lemma {:induction false} SpeaksOfPositionExactly(h: Hasher, peaks: seq<Peak>, leaves: seq<Digest>, leaf: Digest, position: nat, proof: Proof)
    requires CollisionFree(h) && WellFormed(h, peaks, leaves)
    requires Accepts(h, BagPeaks(h, Hashes(peaks)), leaf, position, proof)
    ensures var k := proof.peakIndex;
            && k < |peaks|
            && (Offset(peaks, k) + Local(position, peaks[k].height) == position <==> Holds(peaks, position, k))
  {
    var k := proof.peakIndex;
    AcceptedExactly(h, peaks, leaves, leaf, position, proof);
    assert CoversAt(h, peaks, leaves, k);
    if Holds(peaks, position, k) {
      LocalIndex(h, peaks, leaves, k, position - Offset(peaks, k));
    }
  }

  /** Number of leaves under the first `k` peaks of a range of `n` leaves. */
  function Start(n: nat, k: nat): nat
    requires k <= |BitsOf(n)|
  {
    if k == 0 then 0 else Start(n, k - 1) + Pow2(BitsOf(n)[k - 1])
  }

  /** Peak `k` of a range of `n` leaves holds `position`: needs the length only. */
  predicate InPeak(n: nat, position: nat, k: nat) {
    k < |BitsOf(n)| && Start(n, k) <= position < Start(n, k + 1)
  }

  lemma {:induction false} OffsetIsStart(h: Hasher, peaks: seq<Peak>, leaves: seq<Digest>, k: nat)
    requires WellFormed(h, peaks, leaves) && k <= |peaks|
    ensures k <= |BitsOf(|leaves|)| && Offset(peaks, k) == Start(|leaves|, k)
    decreases k
  {
    HeightsAreBits(h, peaks, leaves);
    if k > 0 {
      OffsetIsStart(h, peaks, leaves, k - 1);
      assert CoversAt(h, peaks, leaves, k - 1);
    }
  }

  lemma {:induction false} HoldsIsInPeak(h: Hasher, peaks: seq<Peak>, leaves: seq<Digest>, position: nat, k: nat)
    requires WellFormed(h, peaks, leaves)
    ensures Holds(peaks, position, k) <==> InPeak(|leaves|, position, k)
  {
    HeightsAreBits(h, peaks, leaves);
    if k < |peaks| {
      OffsetIsStart(h, peaks, leaves, k);
      OffsetIsStart(h, peaks, leaves, k + 1);
    }
  }

  /** Every position is held by a peak. */
  lemma {:induction false} PeakOfPosition(peaks: seq<Peak>, position: nat, n: nat) returns (k: nat)
    requires n <= |peaks| && position < Offset(peaks, n)
    ensures Holds(peaks, position, k)
    decreases n
  {
    if position >= Offset(peaks, n - 1) {
      k := n - 1;
    } else {
      k := PeakOfPosition(peaks, position, n - 1);
    }
  }

  /** The verifier together with the check that the named peak holds the position. */
  ghost predicate AcceptedInPeak(h: Hasher, root: Digest, n: nat, leaf: Digest, position: nat, proof: Proof) {
    Accepts(h, root, leaf, position, proof) && InPeak(n, position, proof.peakIndex)
  }

  lemma {:induction false} CheckedLeafIsStored(h: Hasher, peaks: seq<Peak>, leaves: seq<Digest>, leaf: Digest, position: nat,
                                               proof: Proof)
    requires CollisionFree(h) && WellFormed(h, peaks, leaves)
    requires AcceptedInPeak(h, BagPeaks(h, Hashes(peaks)), |leaves|, leaf, position, proof)
    ensures position < |leaves| && leaf == leaves[position]
  {
    HoldsIsInPeak(h, peaks, leaves, position, proof.peakIndex);
    SpeaksOfPositionExactly(h, peaks, leaves, leaf, position, proof);
    AcceptedExactly(h, peaks, leaves, leaf, position, proof);
  }

  lemma {:induction false} StoredLeafIsChecked(h: Hasher, peaks: seq<Peak>, leaves: seq<Digest>, position: nat) returns (proof: Proof)
    requires WellFormed(h, peaks, leaves) && position < |leaves|
    ensures AcceptedInPeak(h, BagPeaks(h, Hashes(peaks)), |leaves|, leaves[position], position, proof)
  {
    var k := PeakOfPosition(peaks, position, |peaks|);
    HoldsIsInPeak(h, peaks, leaves, position, k);
    ProofsAreAccepted(h, peaks, leaves, position, k);
    proof := ProofAt(peaks, position, k);
  }

  /** With that check, which a caller who knows the length can make, a proof exists for
      exactly the leaf stored at the position. */
  lemma {:induction false} CheckedPositionIsBound(h: Hasher, peaks: seq<Peak>, leaves: seq<Digest>, leaf: Digest, position: nat)
    requires CollisionFree(h) && WellFormed(h, peaks, leaves)
    ensures (exists proof :: AcceptedInPeak(h, BagPeaks(h, Hashes(peaks)), |leaves|, leaf, position, proof)) <==>
            position < |leaves| && leaf == leaves[position]
  {
    var root := BagPeaks(h, Hashes(peaks));
    if exists proof :: AcceptedInPeak(h, root, |leaves|, leaf, position, proof) {
      var proof :| AcceptedInPeak(h, root, |leaves|, leaf, position, proof);
      CheckedLeafIsStored(h, peaks, leaves, leaf, position, proof);
    }
    if position < |leaves| && leaf == leaves[position] {
      var proof := StoredLeafIsChecked(h, peaks, leaves, position);
    }
  }

  // ---------------------------------------------------------------------
  // The code
  // ---------------------------------------------------------------------

  method ProofPath(p: Peak, localIndex: nat) returns (siblings: seq<Digest>)
    requires p.leafCount > 0 && (p.leafCount == 1 ==> localIndex == 0)
    ensures siblings == Path(p.nodes, p.leafCount - 1 + localIndex)
  {
    siblings := [];
    if p.leafCount <= 1 {
      return;
    }
    var i := p.leafCount - 1 + localIndex;
    while i > 0
      invariant i >= 0 && siblings + Path(p.nodes, i) == Path(p.nodes, p.leafCount - 1 + localIndex)
    {
      var sibling := if i % 2 == 1 then i + 1 else i - 1;
      ghost var above := Path(p.nodes, (i - 1) / 2);
      if sibling < |p.nodes| {
        assert siblings + ([p.nodes[sibling]] + above) == (siblings + [p.nodes[sibling]]) + above;
        siblings := siblings + [p.nodes[sibling]];
      } else {
        assert [] + above == above;
      }
      i := (i - 1) / 2;
    }
  }

  /** `1usize << depth` is defined for fewer than 64 siblings. */
  method VerifyProof(h: Hasher, root: Digest, leaf: Digest, position: nat, proof: Proof) returns (ok: bool)
    requires |proof.siblings| < 64
    ensures ok == Accepts(h, root, leaf, position, proof)
  {
    if |proof.peaks| == 0 || proof.peakIndex >= |proof.peaks| {
      return false;
    }
    var current := h.Leaf(leaf);
    var treeLeaves := Pow2(|proof.siblings|);
    var start := treeLeaves - 1 + position % treeLeaves;
    var i := start;
    for k := 0 to |proof.siblings|
      invariant i >= Pow2(|proof.siblings| - k) - 1
      invariant Climb(h, current, i, proof.siblings[k..]) == Climb(h, h.Leaf(leaf), start, proof.siblings)
    {
      var sibling := proof.siblings[k];
      assert proof.siblings[k..][1..] == proof.siblings[k + 1..];
      if i % 2 == 1 {
        current := h.Node(current, sibling);
      } else {
        current := h.Node(sibling, current);
      }
      i := (i - 1) / 2;
    }
    if current != proof.peaks[proof.peakIndex] {
      return false;
    }
    return BagPeaks(h, proof.peaks) == root;
  }

  /** Invariant of the merge loop: the range without its tail, and a peak over the tail
      that is no taller than any peak of the range. */
  ghost predicate Pending(h: Hasher, peaks: seq<Peak>, rest: seq<Digest>, p: Peak, tail: seq<Digest>) {
    && WellFormed(h, peaks, rest)
    && PeakOf(h, p, tail)
    && (forall k :: 0 <= k < |peaks| ==> peaks[k].height >= p.height)
  }

  lemma {:induction false} PendingPop(h: Hasher, peaks: seq<Peak>, rest: seq<Digest>, p: Peak, tail: seq<Digest>)
    requires Pending(h, peaks, rest, p, tail)
    requires |peaks| > 0 && peaks[|peaks| - 1].height == p.height
    ensures var n := |peaks| - 1; var cut := Offset(peaks, n);
            && cut <= |rest|
            && WellFormed(h, peaks[..n], rest[..cut])
            && PeakOf(h, peaks[n], rest[cut..])
            && (forall k :: 0 <= k < n ==> peaks[k].height >= p.height + 1)
  {
    CoversPop(h, peaks, rest);
  }

  /** One turn of the merge loop. */
  method MergeLast(h: Hasher, peaks: seq<Peak>, ghost rest: seq<Digest>, p: Peak, ghost tail: seq<Digest>)
    returns (merged: Peak, ghost rest': seq<Digest>, ghost tail': seq<Digest>)
    requires Pending(h, peaks, rest, p, tail)
    requires |peaks| > 0 && peaks[|peaks| - 1].height == p.height
    ensures rest' + tail' == rest + tail
    ensures Pending(h, peaks[..|peaks| - 1], rest', merged, tail')
  {
    PendingPop(h, peaks, rest, p, tail);
    ghost var cut := Offset(peaks, |peaks| - 1);
    rest', tail' := rest[..cut], rest[cut..] + tail;
    merged := Merge(h, peaks[|peaks| - 1], p, rest[cut..], tail);
    assert rest == rest[..cut] + rest[cut..];
  }

  lemma PendingPush(h: Hasher, peaks: seq<Peak>, rest: seq<Digest>, p: Peak, tail: seq<Digest>)
    requires Pending(h, peaks, rest, p, tail)
    requires |peaks| > 0 ==> peaks[|peaks| - 1].height != p.height
    ensures WellFormed(h, peaks + [p], rest + tail)
  {
    CoversPush(h, peaks, rest, p, tail);
  }

  class MerkleMountainRange {
    const h: Hasher
    var leaves: seq<Digest>
    var peaks: seq<Peak>

    ghost predicate Valid()
      reads this
    {
      WellFormed(h, peaks, leaves)
    }

    constructor (hasher: Hasher)
      ensures Valid() && leaves == [] && h == hasher
    {
      h := hasher;
      leaves := [];
      peaks := [];
    }

    method Append(leaf: Digest) returns (position: nat)
      requires Valid()
      modifies this
      ensures Valid()
      ensures leaves == old(leaves) + [leaf] && position == |old(leaves)|
    {
      position := |leaves|;
      leaves := leaves + [leaf];
      var newPeak := FromLeaf(h.Leaf(leaf));
      ghost var tail := [leaf];
      ghost var rest := old(leaves);
      while |peaks| > 0 && peaks[|peaks| - 1].height == newPeak.height
        invariant leaves == old(leaves) + [leaf] == rest + tail
        invariant Pending(h, peaks, rest, newPeak, tail)
        decreases |peaks|
      {
        newPeak, rest, tail := MergeLast(h, peaks, rest, newPeak, tail);
        peaks := peaks[..|peaks| - 1];
      }
      PendingPush(h, peaks, rest, newPeak, tail);
      peaks := peaks + [newPeak];
    }

    /** The root of a perfect tree when the leaves fill one, the bag of the perfect trees of
        the split when they fill several. */
    method Root() returns (root: Digest)
      requires Valid()
      ensures root == BagPeaks(h, Hashes(peaks)) == BagPeaks(h, ReferencePeaks(h, leaves))
      ensures leaves == [] ==> root == h.empty
      ensures forall d: nat :: |leaves| == Pow2(d) ==> root == PerfectRoot(h, d, leaves)
      ensures |BitsOf(|leaves|)| >= 2 ==> root == h.Bag(ReferencePeaks(h, leaves))
    {
      PeaksAreReference(h, peaks, leaves);
      RootMeans(h, leaves);
      root := BagPeaks(h, Hashes(peaks));
    }

    /** Finds the peak that holds `position`; the answer is accepted by the verifier. */
    method Prove(position: nat) returns (proof: Proof)
      requires Valid()
      ensures proof.peaks == Hashes(peaks)
      ensures position >= |leaves| ==> proof == Proof([], 0, Hashes(peaks))
      ensures position < |leaves| ==>
        AcceptedInPeak(h, BagPeaks(h, Hashes(peaks)), |leaves|, leaves[position], position, proof)
    {
      if position >= |leaves| {
        return Proof([], 0, Hashes(peaks));
      }
      var k, leafOffset := FindPeak(position);
      HoldsIsInPeak(h, peaks, leaves, position, k);
      ProofsAreAccepted(h, peaks, leaves, position, k);
      assert CoversAt(h, peaks, leaves, k);
      var siblings := ProofPath(peaks[k], position - leafOffset);
      proof := Proof(siblings, k, Hashes(peaks));
    }

    /** The peak that holds a position, and the leaves before it. */
    method FindPeak(position: nat) returns (k: nat, leafOffset: nat)
      requires Valid() && position < |leaves|
      ensures Holds(peaks, position, k) && leafOffset == Offset(peaks, k)
    {
      k, leafOffset := 0, 0;
      while k < |peaks| && position >= leafOffset + peaks[k].leafCount
        invariant k <= |peaks| && leafOffset == Offset(peaks, k) <= position
      {
        leafOffset := leafOffset + peaks[k].leafCount;
        k := k + 1;
      }
    }
  }
}
