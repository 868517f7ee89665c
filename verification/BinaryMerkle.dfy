/** Binary Merkle root and proof (crates/exo-core/src/hash.rs). The root pairs an odd
    last node with itself on the fly; the proof pushes a duplicate onto the level. */
module BinaryMerkle {
  import opened Basics

  datatype Hasher = Hasher(pair: (Digest, Digest) -> Digest) {
    function Pair(left: Digest, right: Digest): Digest { pair(left, right) }
  }

  ghost predicate CollisionFree(h: Hasher) {
    forall a, b, c, d :: h.Pair(a, b) == h.Pair(c, d) ==> a == c && b == d
  }

  /** Entry `i` of a level, or the last one when `i` is one past an odd level. */
  function At(level: seq<Digest>, i: nat): Digest
    requires 0 < |level| && i <= |level|
  {
    if i < |level| then level[i] else level[|level| - 1]
  }

  function Next(h: Hasher, level: seq<Digest>): (r: seq<Digest>)
    ensures |r| == (|level| + 1) / 2
  {
    seq((|level| + 1) / 2, k requires 0 <= k < (|level| + 1) / 2 => h.Pair(level[2 * k], At(level, 2 * k + 1)))
  }

  function Root(h: Hasher, leaves: seq<Digest>): Digest
    decreases |leaves|
  {
    if leaves == [] then ZERO
    else if |leaves| == 1 then leaves[0]
    else Root(h, Next(h, leaves))
  }

  /** Number of levels above the leaves. */
  function Height(n: nat): nat {
    if n <= 1 then 0 else 1 + Height((n + 1) / 2)
  }

  /** The sibling of position `i`, where a position past the end of a level stands for
      the level's duplicated last node. */
  function Sibling(level: seq<Digest>, i: nat): Digest
    requires |level| > 1
  {
    var k := Mirror((|level| + 1) / 2, i / 2);
    if i % 2 == 0 then At(level, 2 * k + 1) else level[2 * k]
  }

  function Path(h: Hasher, leaves: seq<Digest>, i: nat): (r: seq<Digest>)
    ensures |r| == Height(|leaves|)
    decreases |leaves|
  {
    if |leaves| <= 1 then [] else [Sibling(leaves, i)] + Path(h, Next(h, leaves), i / 2)
  }

  /** The leaf that a verifier's index stands for in a list of `n` leaves. */
  function Mirror(n: nat, i: nat): (r: nat)
    ensures n > 0 ==> r < n
    ensures i < n ==> r == i
  {
    if n <= 1 then 0
    else
      var k := Mirror((n + 1) / 2, i / 2);
      if 2 * k + i % 2 < n then 2 * k + i % 2 else 2 * k
  }

  function Climb(h: Hasher, current: Digest, proof: seq<Digest>, i: nat): Digest
    decreases |proof|
  {
    if proof == [] then current else Climb(h, Up(h, current, proof[0], i), proof[1..], i / 2)
  }

  function Up(h: Hasher, current: Digest, sibling: Digest, i: nat): Digest {
    if i % 2 == 0 then h.Pair(current, sibling) else h.Pair(sibling, current)
  }

  predicate Accepts(h: Hasher, root: Digest, leaf: Digest, proof: seq<Digest>, i: nat) {
    Climb(h, leaf, proof, i) == root
  }

  /** `node` and `proof` are what stands at index `i` of a level and on its way to the root. */
  ghost predicate TrueAt(h: Hasher, level: seq<Digest>, node: Digest, proof: seq<Digest>, i: nat)
    requires level != []
  {
    node == level[Mirror(|level|, i)] && proof == Path(h, level, i)
  }

  // ---------------------------------------------------------------------
  // Theorems
  // ---------------------------------------------------------------------

  lemma MirrorStep(n: nat, i: nat)
    requires n > 1
    ensures var k := Mirror((n + 1) / 2, i / 2);
            && 2 * k < n
            && Mirror(n, i) == if i % 2 == 1 && 2 * k + 1 < n then 2 * k + 1 else 2 * k
  {
  }

  /** One level: the parent of a position hashes it with its sibling. */
  lemma ParentOf(h: Hasher, level: seq<Digest>, i: nat)
    requires |level| > 1
    ensures Next(h, level)[Mirror((|level| + 1) / 2, i / 2)] ==
            Up(h, level[Mirror(|level|, i)], Sibling(level, i), i)
  {
    MirrorStep(|level|, i);
    var k := Mirror((|level| + 1) / 2, i / 2);
    NextAt(h, level, k);
    ParentCases(h, level, i, k, Mirror(|level|, i));
  }

  lemma ParentCases(h: Hasher, level: seq<Digest>, i: nat, k: nat, m: nat)
    requires |level| > 1 && k == Mirror((|level| + 1) / 2, i / 2) && 2 * k < |level|
    requires m == if i % 2 == 1 && 2 * k + 1 < |level| then 2 * k + 1 else 2 * k
    ensures Up(h, level[m], Sibling(level, i), i) == h.Pair(level[2 * k], At(level, 2 * k + 1))
  {
  }

  lemma NextAt(h: Hasher, level: seq<Digest>, k: nat)
    requires 2 * k < |level|
    ensures Next(h, level)[k] == h.Pair(level[2 * k], At(level, 2 * k + 1))
  {
  }

  /** Agreement: the path of every position climbs to the root. */
  lemma {:induction false} PathReachesRoot(h: Hasher, leaves: seq<Digest>, i: nat)
    requires leaves != []
    ensures Accepts(h, Root(h, leaves), leaves[Mirror(|leaves|, i)], Path(h, leaves, i), i)
    decreases |leaves|
  {
    if |leaves| > 1 {
      PathReachesRoot(h, Next(h, leaves), i / 2);
      ParentOf(h, leaves, i);
      assert Path(h, leaves, i)[1..] == Path(h, Next(h, leaves), i / 2);
    }
  }

  /** Round trip: the proof of every leaf is accepted at its index. */
  lemma ProofsAreAccepted(h: Hasher, leaves: seq<Digest>, i: nat)
    requires i < |leaves|
    ensures Accepts(h, Root(h, leaves), leaves[i], Path(h, leaves, i), i)
  {
    PathReachesRoot(h, leaves, i);
  }

  /** With injective pairing, an accepted proof of full height is the true path, and its
      leaf the true leaf. */
  lemma {:induction false} ClimbIsForced(h: Hasher, leaves: seq<Digest>, leaf: Digest, proof: seq<Digest>, i: nat)
    requires CollisionFree(h) && leaves != [] && |proof| == Height(|leaves|)
    requires Accepts(h, Root(h, leaves), leaf, proof, i)
    ensures TrueAt(h, leaves, leaf, proof, i)
    decreases |leaves|
  {
    if |leaves| > 1 {
      ClimbIsForced(h, Next(h, leaves), Up(h, leaf, proof[0], i), proof[1..], i / 2);
      ParentOf(h, leaves, i);
      OneWayUp(h, leaves[Mirror(|leaves|, i)], Sibling(leaves, i), leaf, proof, i);
    }
  }

  /** A parent determines both children, on either side. */
  lemma OneWayUp(h: Hasher, node: Digest, sibling: Digest, leaf: Digest, proof: seq<Digest>, i: nat)
    requires CollisionFree(h) && proof != [] && Up(h, leaf, proof[0], i) == Up(h, node, sibling, i)
    ensures leaf == node && proof == [sibling] + proof[1..]
  {
  }

  /** Soundness for proofs of full tree height, exactly: index `i` admits one leaf and one
      proof; for `i < n` that leaf is `leaves[i]`. */
  lemma FullHeightExactly(h: Hasher, leaves: seq<Digest>, leaf: Digest, proof: seq<Digest>, i: nat)
    requires CollisionFree(h) && leaves != [] && |proof| == Height(|leaves|)
    ensures Accepts(h, Root(h, leaves), leaf, proof, i) <==> TrueAt(h, leaves, leaf, proof, i)
  {
    PathReachesRoot(h, leaves, i);
    if Accepts(h, Root(h, leaves), leaf, proof, i) {
      ClimbIsForced(h, leaves, leaf, proof, i);
    }
  }

  /** The empty list has the root of the one-leaf list of the zero digest. */
  function NonEmpty(leaves: seq<Digest>): (r: seq<Digest>)
    ensures r != [] && Height(|r|) == Height(|leaves|)
  {
    if leaves == [] then [ZERO] else leaves
  }

  /** The level of the tree that lies `height` levels below the root. */
  function LevelAt(h: Hasher, leaves: seq<Digest>, height: nat): (r: seq<Digest>)
    requires height <= Height(|leaves|)
    ensures r != [] && Height(|r|) == height
    decreases |leaves|
  {
    if height == Height(|leaves|) then NonEmpty(leaves) else LevelAt(h, Next(h, leaves), height)
  }

  lemma {:induction false} LevelKeepsRoot(h: Hasher, leaves: seq<Digest>, height: nat)
    requires height <= Height(|leaves|)
    ensures Root(h, LevelAt(h, leaves, height)) == Root(h, leaves)
    decreases |leaves|
  {
    if height < Height(|leaves|) {
      LevelKeepsRoot(h, Next(h, leaves), height);
    }
  }

  /** The verifier's index after `d` steps. */
  function Halved(i: nat, d: nat): nat {
    if d == 0 then i else Halved(i / 2, d - 1)
  }

  /** Climbing a proof is climbing its first `d` entries and then the rest. */
  lemma {:induction false} ClimbSplits(h: Hasher, current: Digest, proof: seq<Digest>, i: nat, d: nat)
    requires d <= |proof|
    ensures Climb(h, current, proof, i) == Climb(h, Climb(h, current, proof[..d], i), proof[d..], Halved(i, d))
    decreases d
  {
    if d == 0 {
      assert proof[0..] == proof;
    } else {
      ClimbSplits(h, Up(h, current, proof[0], i), proof[1..], i / 2, d - 1);
      assert proof[..d][1..] == proof[1..][..d - 1];
      assert proof[1..][d - 1..] == proof[d..];
    }
  }

  /** Soundness, exactly, for every list, index and proof. The verifier knows neither the
      leaf count nor the height. A proof of at most full height is accepted exactly for the
      true node and path of the level it is high enough for. A longer proof is accepted
      exactly when its surplus entries climb to a leaf whose true path the rest is. */
  lemma AcceptedExactly(h: Hasher, leaves: seq<Digest>, leaf: Digest, proof: seq<Digest>, i: nat)
    requires CollisionFree(h)
    ensures var top := Height(|leaves|);
            Accepts(h, Root(h, leaves), leaf, proof, i) <==>
            if |proof| <= top then TrueAt(h, LevelAt(h, leaves, |proof|), leaf, proof, i)
            else
              var d := |proof| - top;
              TrueAt(h, NonEmpty(leaves), Climb(h, leaf, proof[..d], i), proof[d..], Halved(i, d))
  {
    var top := Height(|leaves|);
    if |proof| <= top {
      LevelKeepsRoot(h, leaves, |proof|);
      FullHeightExactly(h, LevelAt(h, leaves, |proof|), leaf, proof, i);
    } else {
      var d := |proof| - top;
      ClimbSplits(h, leaf, proof, i, d);
      FullHeightExactly(h, NonEmpty(leaves), Climb(h, leaf, proof[..d], i), proof[d..], Halved(i, d));
    }
  }

  // ---------------------------------------------------------------------
  // What a root says about the list
  // ---------------------------------------------------------------------

  /** A level with all its duplications written out. */
  function FullWidth(level: seq<Digest>): (r: seq<Digest>)
    requires level != []
    ensures |r| == Pow2(Height(|level|))
  {
    seq(Pow2(Height(|level|)), i requires 0 <= i => level[Mirror(|level|, i)])
  }

  lemma {:induction false} HeightFits(n: nat)
    ensures n <= Pow2(Height(n))
  {
    if n > 1 {
      HeightFits((n + 1) / 2);
    }
  }

  /** The parent of full-width positions `2j` and `2j + 1`. */
  lemma ParentOfTwo(h: Hasher, level: seq<Digest>, j: nat)
    requires |level| > 1
    ensures Next(h, level)[Mirror((|level| + 1) / 2, j)] ==
            h.Pair(level[Mirror(|level|, 2 * j)], level[Mirror(|level|, 2 * j + 1)])
  {
    MirrorOfTwo(|level|, j);
    NextAt(h, level, Mirror((|level| + 1) / 2, j));
  }

  lemma MirrorOfTwo(n: nat, j: nat)
    requires n > 1
    ensures var k := Mirror((n + 1) / 2, j);
            2 * k < n && Mirror(n, 2 * j) == 2 * k && Mirror(n, 2 * j + 1) == if 2 * k + 1 < n then 2 * k + 1 else 2 * k
  {
    assert 2 * j / 2 == j && (2 * j + 1) / 2 == j;
  }

  lemma FullWidthStep(h: Hasher, level: seq<Digest>, j: nat)
    requires |level| > 1 && j < |FullWidth(Next(h, level))|
    ensures 2 * j + 1 < |FullWidth(level)|
    ensures FullWidth(Next(h, level))[j] == h.Pair(FullWidth(level)[2 * j], FullWidth(level)[2 * j + 1])
  {
    ParentOfTwo(h, level, j);
  }

  /** Levels that are equal at full width have one root. */
  lemma {:induction false} FullWidthDecidesRoot(h: Hasher, a: seq<Digest>, b: seq<Digest>)
    requires a != [] && b != [] && Height(|a|) == Height(|b|) && FullWidth(a) == FullWidth(b)
    ensures Root(h, a) == Root(h, b)
    decreases |a|
  {
    if |a| == 1 {
      assert FullWidth(a)[0] == FullWidth(b)[0];
    } else {
      var c, d := Next(h, a), Next(h, b);
      assert Height(|c|) == Height(|a|) - 1 && Height(|d|) == Height(|b|) - 1;
      forall j | 0 <= j < |FullWidth(c)|
        ensures FullWidth(c)[j] == FullWidth(d)[j]
      {
        FullWidthStep(h, a, j);
        FullWidthStep(h, b, j);
      }
      assert FullWidth(c) == FullWidth(d);
      FullWidthDecidesRoot(h, c, d);
    }
  }

  /** Levels of equal height with one root are equal at full width. */
  lemma RootDecidesFullWidth(h: Hasher, a: seq<Digest>, b: seq<Digest>)
    requires CollisionFree(h) && a != [] && b != [] && Height(|a|) == Height(|b|) && Root(h, a) == Root(h, b)
    ensures FullWidth(a) == FullWidth(b)
  {
    forall i | 0 <= i < Pow2(Height(|a|))
      ensures FullWidth(a)[i] == FullWidth(b)[i]
    {
      PathReachesRoot(h, a, i);
      FullHeightExactly(h, b, a[Mirror(|a|, i)], Path(h, a, i), i);
    }
  }

  /** Equal roots, exactly, for lists of any two lengths: the levels at the smaller of the two
      heights are equal once their duplications are written out. */
  lemma RootBinds(h: Hasher, a: seq<Digest>, b: seq<Digest>)
    requires CollisionFree(h)
    ensures var height := Min(Height(|a|), Height(|b|));
            Root(h, a) == Root(h, b) <==>
            FullWidth(LevelAt(h, a, height)) == FullWidth(LevelAt(h, b, height))
  {
    var height := Min(Height(|a|), Height(|b|));
    var c, d := LevelAt(h, a, height), LevelAt(h, b, height);
    LevelKeepsRoot(h, a, height);
    LevelKeepsRoot(h, b, height);
    if Root(h, a) == Root(h, b) {
      RootDecidesFullWidth(h, c, d);
    } else if FullWidth(c) == FullWidth(d) {
      FullWidthDecidesRoot(h, c, d);
    }
  }

  /** Lists of one length with the same root are equal. */
  lemma SameLengthBinds(h: Hasher, a: seq<Digest>, b: seq<Digest>)
    requires CollisionFree(h) && |a| == |b|
    ensures Root(h, a) == Root(h, b) <==> a == b
  {
    if Root(h, a) == Root(h, b) && a != [] {
      RootDecidesFullWidth(h, a, b);
      HeightFits(|a|);
      forall i | 0 <= i < |a|
        ensures a[i] == b[i]
      {
        assert FullWidth(a)[i] == FullWidth(b)[i];
      }
    }
  }

  /** Concrete cases: duplicating the last leaf of an odd list keeps the root, an inner node
      passes as a leaf of a shorter proof, and a leaf that is a hash can be opened further. */
  lemma LengthMatters(h: Hasher, a: Digest, b: Digest, c: Digest, d: Digest)
    ensures Root(h, [a, b, c]) == Root(h, [a, b, c, c])
    ensures Accepts(h, Root(h, [a, b, c, d]), h.Pair(a, b), [h.Pair(c, d)], 0)
    ensures Accepts(h, Root(h, [h.Pair(a, b)]), a, [b], 0)
  {
    assert Next(h, [a, b, c]) == Next(h, [a, b, c, c]) == [h.Pair(a, b), h.Pair(c, c)];
    assert Next(h, [a, b, c, d]) == [h.Pair(a, b), h.Pair(c, d)];
    var two := [h.Pair(a, b), h.Pair(c, d)];
    assert Next(h, two) == [h.Pair(two[0], two[1])];
    assert Root(h, two) == h.Pair(two[0], two[1]);
  }

  /** Duplicating the last leaf of any odd list of at least three leaves keeps the root. */
  lemma OddDuplication(h: Hasher, leaves: seq<Digest>)
    requires |leaves| % 2 == 1 && |leaves| > 1
    ensures Root(h, leaves + [leaves[|leaves| - 1]]) == Root(h, leaves)
  {
    var more := leaves + [leaves[|leaves| - 1]];
    assert Next(h, more) == Next(h, leaves);
  }

  // ---------------------------------------------------------------------
  // The loops
  // ---------------------------------------------------------------------

  /** The inner loop of `merkle_root`: an odd last node is paired with itself. */
  method PairLevel(h: Hasher, current: seq<Digest>) returns (next: seq<Digest>)
    ensures next == Next(h, current)
  {
    next := [];
    var i := 0;
    while i < |current|
      invariant i % 2 == 0 && 0 <= i <= |current| + 1
      invariant next == Next(h, current)[..i / 2]
    {
      var left := current[i];
      var right := if i + 1 < |current| then current[i + 1] else left;
      assert Next(h, current)[i / 2] == h.Pair(left, right);
      next := next + [h.Pair(left, right)];
      i := i + 2;
    }
  }

  /** The inner loop of `merkle_proof`, on a level already padded to even length. */
  method PairPadded(h: Hasher, current: seq<Digest>) returns (next: seq<Digest>)
    requires |current| % 2 == 0
    ensures next == Next(h, current)
  {
    next := [];
    var i := 0;
    while i < |current|
      invariant i % 2 == 0 && 0 <= i <= |current|
      invariant next == Next(h, current)[..i / 2]
    {
      assert Next(h, current)[i / 2] == h.Pair(current[i], current[i + 1]);
      next := next + [h.Pair(current[i], current[i + 1])];
      i := i + 2;
    }
  }

  method MerkleRoot(h: Hasher, leaves: seq<Digest>) returns (root: Digest)
    ensures root == Root(h, leaves)
  {
    if |leaves| == 0 {
      return ZERO;
    }
    if |leaves| == 1 {
      return leaves[0];
    }
    var current := leaves;
    while |current| > 1
      invariant current != [] && Root(h, current) == Root(h, leaves)
      decreases |current|
    {
      current := PairLevel(h, current);
    }
    return current[0];
  }

  datatype MerkleError = InvalidMerkleProof

  function Padded(level: seq<Digest>): (r: seq<Digest>)
    requires level != []
    ensures |r| % 2 == 0
  {
    if |level| % 2 != 0 then level + [level[|level| - 1]] else level
  }

  /** Padding a level and pairing an odd last node with itself come to the same. */
  lemma PaddedLevel(h: Hasher, level: seq<Digest>, i: nat)
    requires |level| > 1 && i < |level|
    ensures Next(h, Padded(level)) == Next(h, level)
    ensures var j := if i % 2 == 0 then i + 1 else i - 1;
            j < |Padded(level)| && Padded(level)[j] == Sibling(level, i)
  {
  }

  /** One iteration of `merkle_proof`. */
  method ProofLevel(h: Hasher, level: seq<Digest>, idx: nat) returns (sibling: Digest, next: seq<Digest>)
    requires |level| > 1 && idx < |level|
    ensures sibling == Sibling(level, idx) && next == Next(h, level)
  {
    PaddedLevel(h, level, idx);
    var current := level;
    if |current| % 2 != 0 {
      current := current + [current[|current| - 1]];
    }
    var siblingIdx := if idx % 2 == 0 then idx + 1 else idx - 1;
    sibling := current[siblingIdx];
    next := PairPadded(h, current);
  }

  lemma PathStep(h: Hasher, done: seq<Digest>, level: seq<Digest>, i: nat)
    requires |level| > 1
    ensures done + Path(h, level, i) == (done + [Sibling(level, i)]) + Path(h, Next(h, level), i / 2)
  {
  }

  method MerkleProof(h: Hasher, leaves: seq<Digest>, index: nat) returns (r: Result<seq<Digest>, MerkleError>)
    ensures index >= |leaves| ==> r == Err(InvalidMerkleProof)
    ensures index < |leaves| ==> r == Ok(Path(h, leaves, index))
  {
    if index >= |leaves| || |leaves| == 0 {
      return Err(InvalidMerkleProof);
    }
    if |leaves| == 1 {
      return Ok([]);
    }
    ghost var path := Path(h, leaves, index);
    var proof := [];
    var current, idx := leaves, index;
    while |current| > 1
      invariant 0 <= idx < |current|
      invariant proof + Path(h, current, idx) == path
      decreases |current|
    {
      PathStep(h, proof, current, idx);
      var sibling, next := ProofLevel(h, current, idx);
      proof := proof + [sibling];
      current, idx := next, idx / 2;
    }
    assert Path(h, current, idx) == [];
    assert proof + [] == proof;
    return Ok(proof);
  }

  method VerifyMerkleProof(h: Hasher, root: Digest, leaf: Digest, proof: seq<Digest>, index: nat) returns (ok: bool)
    ensures ok == Accepts(h, root, leaf, proof, index)
  {
    var current, idx := leaf, index;
    for k := 0 to |proof|
      invariant Climb(h, current, proof[k..], idx) == Climb(h, leaf, proof, index)
    {
      var sibling := proof[k];
      assert proof[k..][1..] == proof[k + 1..];
      if idx % 2 == 0 {
        current := h.Pair(current, sibling);
      } else {
        current := h.Pair(sibling, current);
      }
      idx := idx / 2;
    }
    return current == root;
  }
}
