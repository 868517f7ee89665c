/** Sparse Merkle tree (crates/exo-dag/src/smt.rs). The source fixes 32-byte keys and
    depth 256; here a key has `width` bytes and the tree has depth `8 * width`. */
module Smt {
  import opened Basics

  type Bytes = seq<bv8>

  datatype Hasher = Hasher(pair: (Digest, Digest) -> Digest, leaf: Bytes -> Digest, empty: Digest) {
    function Pair(left: Digest, right: Digest): Digest { pair(left, right) }
    function Leaf(value: Bytes): Digest { leaf(value) }
  }

  /** Pair and leaf hashing are injective and no value hashes to the empty leaf. The
      source does not separate leaves from inner nodes; the fixed depth makes that
      unnecessary. */
  ghost predicate CollisionFree(h: Hasher) {
    && (forall a, b, c, d :: h.Pair(a, b) == h.Pair(c, d) ==> a == c && b == d)
    && (forall v, w :: h.Leaf(v) == h.Leaf(w) ==> v == w)
    && (forall v :: h.Leaf(v) != h.empty)
  }

  // ---------------------------------------------------------------------
  // Keys and bits
  // ---------------------------------------------------------------------

  predicate Bit(b: bv8, i: nat)
    requires i < 8
  {
    (b >> i) & 1 == 1
  }

  predicate GetBit(key: Bytes, pos: nat)
    requires pos < 8 * |key|
  {
    Bit(key[pos / 8], 7 - pos % 8)
  }

  function Bits(key: Bytes): (r: seq<bool>)
    ensures |r| == 8 * |key|
  {
    seq(8 * |key|, i requires 0 <= i < 8 * |key| => GetBit(key, i))
  }

  lemma SetOneBit(b: bv8, i: nat, j: nat)
    requires i < 8 && j < 8
    ensures Bit(b | (1 << i), j) == (i == j || Bit(b, j))
    ensures !Bit(0, j)
  {
    assert i in {0, 1, 2, 3, 4, 5, 6, 7} && j in {0, 1, 2, 3, 4, 5, 6, 7};
  }

  lemma SameBits(b: bv8, c: bv8)
    requires forall i :: 0 <= i < 8 ==> Bit(b, i) == Bit(c, i)
    ensures b == c
  {
    assert Bit(b, 0) == Bit(c, 0) && Bit(b, 1) == Bit(c, 1) && Bit(b, 2) == Bit(c, 2) && Bit(b, 3) == Bit(c, 3);
    assert Bit(b, 4) == Bit(c, 4) && Bit(b, 5) == Bit(c, 5) && Bit(b, 6) == Bit(c, 6) && Bit(b, 7) == Bit(c, 7);
  }

  /** A key is determined by its bits. */
  lemma BitsInjective(k: Bytes, l: Bytes)
    requires Bits(k) == Bits(l)
    ensures k == l
  {
    assert |Bits(k)| == |Bits(l)|;
    forall i | 0 <= i < |k|
      ensures k[i] == l[i]
    {
      forall j | 0 <= j < 8
        ensures Bit(k[i], j) == Bit(l[i], j)
      {
        var pos := 8 * i + (7 - j);
        assert Bits(k)[pos] == GetBit(k, pos) && Bits(l)[pos] == GetBit(l, pos);
      }
      SameBits(k[i], l[i]);
    }
  }

  function SetBit(key: Bytes, pos: nat): (r: Bytes)
    requires pos < 8 * |key|
    ensures |r| == |key|
  {
    key[pos / 8 := key[pos / 8] | (1 << (7 - pos % 8))]
  }

  lemma GetAfterSet(key: Bytes, pos: nat, p: nat)
    requires pos < 8 * |key| && p < 8 * |key|
    ensures GetBit(SetBit(key, pos), p) == (p == pos || GetBit(key, p))
  {
    SetOneBit(key[pos / 8], 7 - pos % 8, 7 - p % 8);
  }

  /** The key after the first `n` bits have been written into zeroed bytes. */
  function KeyUpTo(width: nat, bits: seq<bool>, n: nat): (r: Bytes)
    requires n <= |bits|
    ensures |r| == width
  {
    if n == 0 then seq(width, _ => 0)
    else
      var key := KeyUpTo(width, bits, n - 1);
      if n - 1 < 8 * width && bits[n - 1] then SetBit(key, n - 1) else key
  }

  function KeyOf(width: nat, bits: seq<bool>): (r: Bytes)
    ensures |r| == width
  {
    KeyUpTo(width, bits, |bits|)
  }

  lemma {:induction false} KeyUpToBit(width: nat, bits: seq<bool>, n: nat, p: nat)
    requires n <= |bits| && p < 8 * width
    ensures GetBit(KeyUpTo(width, bits, n), p) == (p < n && bits[p])
  {
    if n == 0 {
      SetOneBit(0, 0, 7 - p % 8);
    } else {
      KeyUpToBit(width, bits, n - 1, p);
      if n - 1 < 8 * width && bits[n - 1] {
        GetAfterSet(KeyUpTo(width, bits, n - 1), n - 1, p);
      }
    }
  }

  /** `bits_to_key` and bit extraction are inverse to each other. */
  lemma KeyRoundTrip(width: nat, bits: seq<bool>, key: Bytes)
    requires |bits| == 8 * width && |key| == width
    ensures Bits(KeyOf(width, bits)) == bits
    ensures KeyOf(width, Bits(key)) == key
  {
    BitsOfKeyOf(width, bits);
    BitsOfKeyOf(width, Bits(key));
    BitsInjective(KeyOf(width, Bits(key)), key);
  }

  lemma BitsOfKeyOf(width: nat, bits: seq<bool>)
    requires |bits| == 8 * width
    ensures Bits(KeyOf(width, bits)) == bits
  {
    forall p | 0 <= p < |bits|
      ensures Bits(KeyOf(width, bits))[p] == bits[p]
    {
      KeyUpToBit(width, bits, |bits|, p);
    }
  }

  method BitsToKey(width: nat, bits: seq<bool>) returns (key: Bytes)
    ensures key == KeyOf(width, bits)
  {
    var bytes := new bv8[width](_ => 0);
    assert bytes[..] == KeyUpTo(width, bits, 0);
    var i := 0;
    while i < |bits| && i < 8 * width
      invariant i <= |bits| && bytes[..] == KeyUpTo(width, bits, i)
    {
      if bits[i] {
        ghost var before := bytes[..];
        bytes[i / 8] := bytes[i / 8] | (1 << (7 - i % 8));
        assert bytes[..] == SetBit(before, i);
      }
      i := i + 1;
    }
    ExtraBitsIgnored(width, bits, i, |bits|);
    key := bytes[..];
  }

  lemma {:induction false} ExtraBitsIgnored(width: nat, bits: seq<bool>, i: nat, n: nat)
    requires i <= n <= |bits| && (i < n ==> i >= 8 * width)
    ensures KeyUpTo(width, bits, i) == KeyUpTo(width, bits, n)
  {
    if i < n {
      ExtraBitsIgnored(width, bits, i, n - 1);
    }
  }

  // ---------------------------------------------------------------------
  // Node hashes: pruned as in the source, and the full tree
  // ---------------------------------------------------------------------

  type Leaves = map<Bytes, Bytes>

  /** A map whose keys all have `width` bytes. */
  ghost predicate Keyed(width: nat, leaves: Leaves) {
    forall k :: k in leaves ==> |k| == width
  }

  function DefaultHash(h: Hasher, level: nat): Digest {
    if level == 0 then h.empty else h.Pair(DefaultHash(h, level - 1), DefaultHash(h, level - 1))
  }

  method ComputeDefaultHash(h: Hasher, level: nat) returns (d: Digest)
    ensures d == DefaultHash(h, level)
  {
    d := h.empty;
    for i := 0 to level
      invariant d == DefaultHash(h, i)
    {
      d := h.Pair(d, d);
    }
  }

  predicate Matches(key: Bytes, prefix: seq<bool>) {
    |prefix| <= 8 * |key| && forall i :: 0 <= i < |prefix| ==> GetBit(key, i) == prefix[i]
  }

  predicate HasLeafWithPrefix(leaves: Leaves, prefix: seq<bool>) {
    exists k :: k in leaves && Matches(k, prefix)
  }

  /** The nested loop of `has_leaf_with_prefix`. */
  method SearchPrefix(leaves: Leaves, prefix: seq<bool>) returns (found: bool)
    requires forall k :: k in leaves ==> |prefix| <= 8 * |k|
    ensures found == HasLeafWithPrefix(leaves, prefix)
  {
    var keys := leaves.Keys;
    while keys != {}
      invariant keys <= leaves.Keys
      invariant forall k :: k in leaves && k !in keys ==> !Matches(k, prefix)
      decreases |keys|
    {
      var key :| key in keys;
      var i := 0;
      while i < |prefix| && GetBit(key, i) == prefix[i]
        invariant i <= |prefix| && forall j :: 0 <= j < i ==> GetBit(key, j) == prefix[j]
      {
        i := i + 1;
      }
      if i == |prefix| {
        return true;
      }
      keys := keys - {key};
    }
    return false;
  }

  /** What a leaf position hashes to. */
  function LeafHash(h: Hasher, leaves: Leaves, key: Bytes): Digest {
    if key in leaves then h.Leaf(leaves[key]) else h.empty
  }

  /** `compute_node`: subtrees without leaves are not visited. */
  function ComputeNode(h: Hasher, width: nat, leaves: Leaves, level: nat, path: seq<bool>): Digest
    decreases level
  {
    if level == 0 then
      if |path| == 8 * width then LeafHash(h, leaves, KeyOf(width, path)) else DefaultHash(h, 0)
    else if !HasLeafWithPrefix(leaves, path) then DefaultHash(h, level)
    else h.Pair(ComputeNode(h, width, leaves, level - 1, path + [false]),
                ComputeNode(h, width, leaves, level - 1, path + [true]))
  }

  /** The value stored under the key whose bits are `path`. */
  ghost function StoredAt(leaves: Leaves, path: seq<bool>): Option<Bytes> {
    if exists k :: k in leaves && Bits(k) == path then
      var k :| k in leaves && Bits(k) == path;
      Some(leaves[k])
    else None
  }

  lemma StoredAtKey(leaves: Leaves, key: Bytes)
    ensures StoredAt(leaves, Bits(key)) == Get(leaves, key)
  {
    forall k | k in leaves && Bits(k) == Bits(key)
      ensures k == key
    {
      BitsInjective(k, key);
    }
  }

  /** The hash at each leaf position of the full tree. */
  ghost function LeafAt(h: Hasher, leaves: Leaves): seq<bool> -> Digest {
    path => StartHash(h, StoredAt(leaves, path))
  }

  /** The full binary tree over given leaf hashes: no pruning, no key bytes. */
  ghost function FullNode(h: Hasher, leafAt: seq<bool> -> Digest, level: nat, path: seq<bool>): Digest
    decreases level
  {
    if level == 0 then leafAt(path)
    else h.Pair(FullNode(h, leafAt, level - 1, path + [false]), FullNode(h, leafAt, level - 1, path + [true]))
  }

  lemma PrefixMatches(path: seq<bool>, more: seq<bool>, k: Bytes)
    requires Matches(k, path + more)
    ensures Matches(k, path)
  {
    forall i | 0 <= i < |path|
      ensures GetBit(k, i) == path[i]
    {
      assert (path + more)[i] == path[i];
    }
  }

  lemma BitsMatch(k: Bytes)
    ensures Matches(k, Bits(k))
  {
  }

  /** A subtree without leaves hashes to the default of its level. */
  lemma {:induction false} EmptySubtree(h: Hasher, leaves: Leaves, level: nat, path: seq<bool>)
    requires !HasLeafWithPrefix(leaves, path)
    ensures FullNode(h, LeafAt(h, leaves), level, path) == DefaultHash(h, level)
    decreases level
  {
    if level == 0 {
      forall k | k in leaves
        ensures Bits(k) != path
      {
        BitsMatch(k);
      }
    } else {
      forall bit: bool
        ensures FullNode(h, LeafAt(h, leaves), level - 1, path + [bit]) == DefaultHash(h, level - 1)
      {
        if HasLeafWithPrefix(leaves, path + [bit]) {
          var k :| k in leaves && Matches(k, path + [bit]);
          PrefixMatches(path, [bit], k);
        } else {
          EmptySubtree(h, leaves, level - 1, path + [bit]);
        }
      }
    }
  }

  /** Pruning does not change any hash. */
  lemma {:induction false} PrunedIsFull(h: Hasher, width: nat, leaves: Leaves, level: nat, path: seq<bool>)
    requires level + |path| == 8 * width
    ensures ComputeNode(h, width, leaves, level, path) == FullNode(h, LeafAt(h, leaves), level, path)
    decreases level
  {
    if level == 0 {
      BitsOfKeyOf(width, path);
      StoredAtKey(leaves, KeyOf(width, path));
    } else {
      if HasLeafWithPrefix(leaves, path) {
        PrunedIsFull(h, width, leaves, level - 1, path + [false]);
        PrunedIsFull(h, width, leaves, level - 1, path + [true]);
      } else {
        EmptySubtree(h, leaves, level, path);
      }
    }
  }

  function Root(h: Hasher, width: nat, leaves: Leaves): Digest {
    if leaves == map[] then DefaultHash(h, 8 * width) else ComputeNode(h, width, leaves, 8 * width, [])
  }

  lemma RootIsFull(h: Hasher, width: nat, leaves: Leaves)
    ensures Root(h, width, leaves) == FullNode(h, LeafAt(h, leaves), 8 * width, [])
  {
    if leaves == map[] {
      EmptySubtree(h, leaves, 8 * width, []);
    } else {
      PrunedIsFull(h, width, leaves, 8 * width, []);
    }
  }

  // ---------------------------------------------------------------------
  // Proofs
  // ---------------------------------------------------------------------

  datatype MerkleProof = MerkleProof(siblings: seq<Digest>, key: Bytes, value: Option<Bytes>)

  function Get(leaves: Leaves, key: Bytes): Option<Bytes> {
    if key in leaves then Some(leaves[key]) else None
  }

  function Flip(path: seq<bool>): (r: seq<bool>)
    ensures |r| == |path|
  {
    if path == [] then [] else path[..|path| - 1] + [!path[|path| - 1]]
  }

  function SiblingHash(h: Hasher, width: nat, leaves: Leaves, key: Bytes, level: nat): Digest
    requires |key| == width && level <= 8 * width
  {
    ComputeNode(h, width, leaves, level, Flip(Bits(key)[..8 * width - level]))
  }

  /** One step up: the key's bit says on which side the path is. */
  function Combine(h: Hasher, bit: bool, below: Digest, beside: Digest): Digest {
    if bit then h.Pair(beside, below) else h.Pair(below, beside)
  }

  /** The hash reached from `start` after the first `n` siblings, leaf first. */
  function Climb(h: Hasher, bits: seq<bool>, start: Digest, siblings: seq<Digest>, n: nat): Digest
    requires n <= |siblings| == |bits|
  {
    if n == 0 then start
    else Combine(h, bits[|bits| - n], Climb(h, bits, start, siblings, n - 1), siblings[n - 1])
  }

  function StartHash(h: Hasher, value: Option<Bytes>): Digest {
    match value case Some(v) => h.Leaf(v) case None => DefaultHash(h, 0)
  }

  /** What `verify_proof` accepts; it looks at the proof's siblings only. */
  predicate Accepts(h: Hasher, root: Digest, key: Bytes, value: Option<Bytes>, proof: MerkleProof) {
    && |proof.siblings| == 8 * |key|
    && Climb(h, Bits(key), StartHash(h, value), proof.siblings, |proof.siblings|) == root
  }

  function SiblingsOf(h: Hasher, width: nat, leaves: Leaves, key: Bytes): (r: seq<Digest>)
    requires |key| == width
    ensures |r| == 8 * width
    ensures forall i :: 0 <= i < 8 * width ==> r[i] == SiblingHash(h, width, leaves, key, i)
  {
    seq(8 * width, i requires 0 <= i < 8 * width => SiblingHash(h, width, leaves, key, i))
  }

  function ProofOf(h: Hasher, width: nat, leaves: Leaves, key: Bytes): MerkleProof
    requires |key| == width
  {
    MerkleProof(SiblingsOf(h, width, leaves, key), key, Get(leaves, key))
  }

  /** The node on a path, `level` above the leaves, and the node beside it. */
  ghost function OnPath(h: Hasher, leafAt: seq<bool> -> Digest, bits: seq<bool>, level: nat): Digest
    requires level <= |bits|
  {
    FullNode(h, leafAt, level, bits[..|bits| - level])
  }

  ghost function BesidePath(h: Hasher, leafAt: seq<bool> -> Digest, bits: seq<bool>, level: nat): Digest
    requires level <= |bits|
  {
    FullNode(h, leafAt, level, Flip(bits[..|bits| - level]))
  }

  /** A node on the path hashes the node below it and that node's sibling. */
  lemma PathStep(h: Hasher, leafAt: seq<bool> -> Digest, bits: seq<bool>, level: nat)
    requires level < |bits|
    ensures OnPath(h, leafAt, bits, level + 1) ==
            Combine(h, bits[|bits| - (level + 1)], OnPath(h, leafAt, bits, level), BesidePath(h, leafAt, bits, level))
  {
    var d := |bits| - level;
    assert bits[..d] == bits[..d - 1] + [bits[d - 1]];
    assert Flip(bits[..d]) == bits[..d - 1] + [!bits[d - 1]];
  }

  lemma {:induction false} ClimbFollowsPath(h: Hasher, leafAt: seq<bool> -> Digest, bits: seq<bool>, siblings: seq<Digest>, n: nat)
    requires n <= |siblings| == |bits|
    requires forall i :: 0 <= i < |bits| ==> siblings[i] == BesidePath(h, leafAt, bits, i)
    ensures Climb(h, bits, OnPath(h, leafAt, bits, 0), siblings, n) == OnPath(h, leafAt, bits, n)
  {
    if n > 0 {
      ClimbFollowsPath(h, leafAt, bits, siblings, n - 1);
      PathStep(h, leafAt, bits, n - 1);
    }
  }

  lemma PathEnds(h: Hasher, width: nat, leaves: Leaves, key: Bytes)
    requires |key| == width
    ensures OnPath(h, LeafAt(h, leaves), Bits(key), 0) == StartHash(h, Get(leaves, key))
    ensures OnPath(h, LeafAt(h, leaves), Bits(key), 8 * width) == Root(h, width, leaves)
  {
    StoredAtKey(leaves, key);
    assert Bits(key)[..8 * width - 0] == Bits(key);
    RootIsFull(h, width, leaves);
  }

  /** Completeness: the proof of every key, present or absent, is accepted for its value. */
  lemma ProofsAreAccepted(h: Hasher, width: nat, leaves: Leaves, key: Bytes)
    requires |key| == width
    ensures var proof := ProofOf(h, width, leaves, key);
            && proof.key == key && proof.value == Get(leaves, key)
            && Accepts(h, Root(h, width, leaves), proof.key, proof.value, proof)
  {
    var bits, siblings := Bits(key), SiblingsOf(h, width, leaves, key);
    forall i | 0 <= i < |bits|
      ensures siblings[i] == BesidePath(h, LeafAt(h, leaves), bits, i)
    {
      PrunedIsFull(h, width, leaves, i, Flip(bits[..|bits| - i]));
    }
    PathEnds(h, width, leaves, key);
    ClimbFollowsPath(h, LeafAt(h, leaves), bits, siblings, 8 * width);
  }

  /** With injective pairing, a climb determines where it started and what it passed. */
  lemma {:induction false} ClimbInjective(h: Hasher, bits: seq<bool>, s: Digest, xs: seq<Digest>, t: Digest, ys: seq<Digest>, n: nat)
    requires CollisionFree(h) && n <= |xs| == |ys| == |bits|
    requires Climb(h, bits, s, xs, n) == Climb(h, bits, t, ys, n)
    ensures s == t && xs[..n] == ys[..n]
  {
    if n > 0 {
      ClimbInjective(h, bits, s, xs, t, ys, n - 1);
      assert xs[..n] == xs[..n - 1] + [xs[n - 1]];
      assert ys[..n] == ys[..n - 1] + [ys[n - 1]];
    }
  }

  /** Soundness, exactly: a proof is accepted if and only if the claimed value is the
      stored one (or the key is absent) and the siblings are the tree's own. */
  lemma AcceptedExactly(h: Hasher, width: nat, leaves: Leaves, key: Bytes, value: Option<Bytes>, proof: MerkleProof)
    requires CollisionFree(h) && |key| == width
    ensures Accepts(h, Root(h, width, leaves), key, value, proof) <==>
            value == Get(leaves, key) && proof.siblings == SiblingsOf(h, width, leaves, key)
  {
    ProofsAreAccepted(h, width, leaves, key);
    if Accepts(h, Root(h, width, leaves), key, value, proof) {
      var own := SiblingsOf(h, width, leaves, key);
      ClimbInjective(h, Bits(key), StartHash(h, value), proof.siblings, StartHash(h, Get(leaves, key)), own, 8 * width);
      assert proof.siblings[..8 * width] == proof.siblings && own[..8 * width] == own;
    }
  }

  /** Equal roots: equal maps. */
  lemma RootBinds(h: Hasher, width: nat, m: Leaves, n: Leaves)
    requires CollisionFree(h) && Keyed(width, m) && Keyed(width, n)
    requires Root(h, width, m) == Root(h, width, n)
    ensures m == n
  {
    forall k | k in m || k in n
      ensures Get(m, k) == Get(n, k)
    {
      ProofsAreAccepted(h, width, m, k);
      AcceptedExactly(h, width, n, k, Get(m, k), ProofOf(h, width, m, k));
    }
    forall k | k in m
      ensures k in n && m[k] == n[k]
    {
      assert Get(m, k) == Get(n, k);
    }
    forall k | k in n
      ensures k in m
    {
      assert Get(m, k) == Get(n, k);
    }
  }

  /** The loop of `verify_proof`. */
  method VerifyProof(h: Hasher, root: Digest, key: Bytes, value: Option<Bytes>, proof: MerkleProof) returns (ok: bool)
    ensures ok == Accepts(h, root, key, value, proof)
  {
    var depth := 8 * |key|;
    if |proof.siblings| != depth {
      return false;
    }
    var current := StartHash(h, value);
    for i := 0 to |proof.siblings|
      invariant current == Climb(h, Bits(key), StartHash(h, value), proof.siblings, i)
    {
      if GetBit(key, depth - 1 - i) {
        current := h.Pair(proof.siblings[i], current);
      } else {
        current := h.Pair(current, proof.siblings[i]);
      }
    }
    return current == root;
  }

  /** The loop of `prove`: one sibling per level, leaf first. */
  method CollectSiblings(h: Hasher, width: nat, leaves: Leaves, key: Bytes) returns (siblings: seq<Digest>)
    requires |key| == width
    ensures siblings == SiblingsOf(h, width, leaves, key)
  {
    siblings := [];
    for level := 1 to 8 * width + 1
      invariant |siblings| == level - 1
      invariant forall i :: 0 <= i < level - 1 ==> siblings[i] == SiblingHash(h, width, leaves, key, i)
    {
      siblings := siblings + [SiblingHash(h, width, leaves, key, level - 1)];
    }
  }

  datatype SmtError = EmptyValue

  class SparseMerkleTree {
    const h: Hasher
    const width: nat
    var leaves: Leaves

    ghost predicate Valid()
      reads this
    {
      Keyed(width, leaves)
    }

    constructor (hasher: Hasher, keyWidth: nat)
      ensures Valid() && leaves == map[] && h == hasher && width == keyWidth
    {
      h, width, leaves := hasher, keyWidth, map[];
    }

    /** Values are never empty; the returned root commits to the new map. */
    method Insert(key: Bytes, value: Bytes) returns (r: Result<Digest, SmtError>)
      requires Valid() && |key| == width
      modifies this
      ensures Valid()
      ensures value == [] ==> r == Err(EmptyValue) && leaves == old(leaves)
      ensures value != [] ==> leaves == old(leaves)[key := value] && r == Ok(Root(h, width, leaves))
    {
      if |value| == 0 {
        return Err(EmptyValue);
      }
      leaves := leaves[key := value];
      return Ok(Root(h, width, leaves));
    }

    /** One sibling per level, leaf first; the verifier accepts the result. */
    method Prove(key: Bytes) returns (proof: MerkleProof)
      requires |key| == width
      ensures proof == ProofOf(h, width, leaves, key)
      ensures proof.key == key && proof.value == Get(leaves, key)
      ensures Accepts(h, Root(h, width, leaves), proof.key, proof.value, proof)
    {
      var siblings := CollectSiblings(h, width, leaves, key);
      proof := MerkleProof(siblings, key, Get(leaves, key));
      ProofsAreAccepted(h, width, leaves, key);
    }
  }
}
