/** The collision-free hypotheses of the soundness theorems can be met: explicit injective,
    domain-separated hash functions on unbounded digests. */
module HashWitness {
  import opened Basics
  import Mmr
  import Smt
  import BinaryMerkle
  import Dag
  import DagStore
  import Delegation
  import Bcts

  // ---------------------------------------------------------------------
  // Numbers that determine what they encode
  // ---------------------------------------------------------------------

  function IntCode(x: int): nat {
    if x >= 0 then 2 * x else -2 * x - 1
  }

  /** 2^m * (2n + 1): a positive number that determines both arguments. */
  function PairCode(m: nat, n: nat): nat {
    if m == 0 then 2 * n + 1 else 2 * PairCode(m - 1, n)
  }

  lemma {:induction false} PairCodeInjective(m: nat, n: nat, m': nat, n': nat)
    requires PairCode(m, n) == PairCode(m', n')
    ensures m == m' && n == n'
    decreases m
  {
    if m > 0 && m' > 0 {
      PairCodeInjective(m - 1, n, m' - 1, n');
    }
  }

  lemma {:induction false} PairCodePositive(m: nat, n: nat)
    ensures PairCode(m, n) > 0
  {
    if m > 0 {
      PairCodePositive(m - 1, n);
    }
  }

  function ListCode(s: seq<nat>): nat {
    if s == [] then 0 else PairCode(s[0], ListCode(s[1..]))
  }

  lemma {:induction false} ListCodeInjective(s: seq<nat>, t: seq<nat>)
    requires ListCode(s) == ListCode(t)
    ensures s == t
    decreases |s|
  {
    if s != [] {
      PairCodePositive(s[0], ListCode(s[1..]));
    }
    if t != [] {
      PairCodePositive(t[0], ListCode(t[1..]));
    }
    if s != [] && t != [] {
      PairCodeInjective(s[0], ListCode(s[1..]), t[0], ListCode(t[1..]));
      ListCodeInjective(s[1..], t[1..]);
      assert s == [s[0]] + s[1..] && t == [t[0]] + t[1..];
    }
  }

  ghost predicate Injective<T(!new)>(f: T -> nat) {
    forall x, y :: f(x) == f(y) ==> x == y
  }

  /** A list, by the codes of its entries. */
  function SeqCode<T>(f: T -> nat, s: seq<T>): nat {
    ListCode(seq(|s|, i requires 0 <= i < |s| => f(s[i])))
  }

  lemma SeqCodeInjective<T(!new)>(f: T -> nat, s: seq<T>, t: seq<T>)
    requires Injective(f) && SeqCode(f, s) == SeqCode(f, t)
    ensures s == t
  {
    var a, b := seq(|s|, i requires 0 <= i < |s| => f(s[i])), seq(|t|, i requires 0 <= i < |t| => f(t[i]));
    ListCodeInjective(a, b);
    assert |s| == |a| == |t|;
    forall i | 0 <= i < |s|
      ensures s[i] == t[i]
    {
      assert a[i] == f(s[i]) && b[i] == f(t[i]);
    }
  }

  function DigestCode(d: Digest): nat { IntCode(d.rank) }

  function CharCode(c: char): nat { c as int }

  function ByteCode(b: bv8): nat { b as nat }

  function TextCode(s: string): nat { SeqCode(CharCode, s) }

  function TimeCode(t: Timestamp): nat { PairCode(t.physicalMs, t.logical) }

  function ExpiryCode(e: Option<Timestamp>): nat {
    match e case None => 0 case Some(t) => TimeCode(t)
  }

  function KindCode(k: Delegation.DelegateeKind): nat {
    match k case Human => 0 case Unknown => 1 case AiAgent(id) => TextCode(id) + 2
  }

  function StateCode(s: Bcts.BctsState): nat {
    match s
    case Draft => 0 case Submitted => 1 case IdentityResolved => 2 case ConsentValidated => 3
    case Deliberated => 4 case Verified => 5 case Governed => 6 case Approved => 7 case Executed => 8
    case Recorded => 9 case Closed => 10 case Denied => 11 case Escalated => 12 case Remediated => 13
  }

  lemma TextCodeInjective()
    ensures Injective(TextCode)
  {
    assert Injective(CharCode);
    forall s, t | TextCode(s) == TextCode(t)
      ensures s == t
    {
      SeqCodeInjective(CharCode, s, t);
    }
  }

  lemma TimeCodeInjective()
    ensures Injective(TimeCode) && Injective(ExpiryCode)
  {
    forall t, u | TimeCode(t) == TimeCode(u)
      ensures t == u
    {
      PairCodeInjective(t.physicalMs, t.logical, u.physicalMs, u.logical);
    }
    forall t: Timestamp
      ensures TimeCode(t) > 0
    {
      PairCodePositive(t.physicalMs, t.logical);
    }
  }

  lemma DigestCodeInjective()
    ensures Injective(DigestCode)
  {
  }

  // ---------------------------------------------------------------------
  // Merkle structures
  // ---------------------------------------------------------------------

  function PairHash(a: Digest, b: Digest): Digest {
    Digest(4 * PairCode(DigestCode(a), DigestCode(b)) + 2)
  }

  const MMR_HASHER := Mmr.Hasher((a: Digest) => Digest(4 * DigestCode(a) + 1), PairHash,
                                 (s: seq<Digest>) => Digest(4 * SeqCode(DigestCode, s) + 3), ZERO)

  const SMT_HASHER := Smt.Hasher(PairHash, (v: Smt.Bytes) => Digest(4 * SeqCode(ByteCode, v) + 1), ZERO)

  const PAIR_HASHER := BinaryMerkle.Hasher(PairHash)

  lemma PairHashCollisionFree()
    ensures forall a, b, c, d :: PairHash(a, b) == PairHash(c, d) ==> a == c && b == d
    ensures BinaryMerkle.CollisionFree(PAIR_HASHER)
  {
    forall a, b, c, d | PairHash(a, b) == PairHash(c, d)
      ensures a == c && b == d
    {
      PairCodeInjective(DigestCode(a), DigestCode(b), DigestCode(c), DigestCode(d));
    }
  }

  lemma MmrDomains()
    ensures forall a, b, c :: MMR_HASHER.Leaf(a) != MMR_HASHER.Node(b, c)
    ensures forall a, s :: MMR_HASHER.Leaf(a) != MMR_HASHER.Bag(s)
    ensures forall a, b, s :: MMR_HASHER.Node(a, b) != MMR_HASHER.Bag(s)
  {
  }

  lemma MmrInjective()
    ensures forall a, b :: MMR_HASHER.Leaf(a) == MMR_HASHER.Leaf(b) ==> a == b
    ensures forall a, b, c, d :: MMR_HASHER.Node(a, b) == MMR_HASHER.Node(c, d) ==> a == c && b == d
    ensures forall s, t :: MMR_HASHER.Bag(s) == MMR_HASHER.Bag(t) ==> s == t
  {
    PairHashCollisionFree();
    forall s, t | MMR_HASHER.Bag(s) == MMR_HASHER.Bag(t)
      ensures s == t
    {
      DigestsCodeInjective(s, t);
    }
  }

  lemma MmrCollisionFree()
    ensures Mmr.CollisionFree(MMR_HASHER)
  {
    MmrDomains();
    MmrInjective();
  }

  lemma DigestsCodeInjective(s: seq<Digest>, t: seq<Digest>)
    requires SeqCode(DigestCode, s) == SeqCode(DigestCode, t)
    ensures s == t
  {
    DigestCodeInjective();
    SeqCodeInjective(DigestCode, s, t);
  }

  lemma SmtCollisionFree()
    ensures Smt.CollisionFree(SMT_HASHER)
  {
    PairHashCollisionFree();
    assert Injective(ByteCode);
    forall v, w | SMT_HASHER.Leaf(v) == SMT_HASHER.Leaf(w)
      ensures v == w
    {
      SeqCodeInjective(ByteCode, v, w);
    }
  }

  // ---------------------------------------------------------------------
  // Records
  // ---------------------------------------------------------------------

  function NodeCode(parents: seq<Digest>, payloadHash: Digest, creator: Did, timestamp: Timestamp): seq<nat> {
    [SeqCode(DigestCode, parents), DigestCode(payloadHash), TextCode(creator), TimeCode(timestamp)]
  }

  const DAG_HASHER := Dag.Hasher(
    (parents, payloadHash, creator, timestamp) => Digest(ListCode(NodeCode(parents, payloadHash, creator, timestamp))),
    (payload: seq<bv8>) => Digest(SeqCode(ByteCode, payload)),
    (d: Digest) => d)

  lemma DagCollisionFree()
    ensures DagStore.CollisionFree(DAG_HASHER)
  {
    TextCodeInjective();
    TimeCodeInjective();
    DigestCodeInjective();
    forall m, n | DagStore.ContentHash(DAG_HASHER, m) == DagStore.ContentHash(DAG_HASHER, n)
      ensures DagStore.SameContent(m, n)
    {
      var a, b := NodeCode(m.parents, m.payloadHash, m.creator, m.timestamp), NodeCode(n.parents, n.payloadHash, n.creator, n.timestamp);
      ListCodeInjective(a, b);
      assert a[0] == b[0] && a[1] == b[1] && a[2] == b[2] && a[3] == b[3];
      SeqCodeInjective(DigestCode, m.parents, n.parents);
    }
  }

  function LinkCode(l: Delegation.Link): seq<nat> {
    [TextCode(l.delegator), TextCode(l.delegate), SeqCode(TextCode, l.scope), TimeCode(l.created), ExpiryCode(l.expires),
     l.depth, KindCode(l.kind)]
  }

  const LINK_HASHER := Delegation.Hasher((l: Delegation.Link) => Digest(ListCode(LinkCode(l))))

  lemma LinkCodeDecides(k: Delegation.Link, l: Delegation.Link)
    requires LinkCode(k) == LinkCode(l)
    ensures k.(signature := ZERO) == l.(signature := ZERO)
  {
    TextCodeInjective();
    TimeCodeInjective();
    var a, b := LinkCode(k), LinkCode(l);
    assert a[0] == b[0] && a[1] == b[1] && a[2] == b[2] && a[3] == b[3] && a[4] == b[4] && a[5] == b[5] && a[6] == b[6];
    SeqCodeInjective(TextCode, k.scope, l.scope);
  }

  lemma DelegationCollisionFree()
    ensures Delegation.CollisionFree(LINK_HASHER)
  {
    forall k, l | LINK_HASHER.Id(k) == LINK_HASHER.Id(l)
      ensures k.(signature := ZERO) == l.(signature := ZERO)
    {
      ListCodeInjective(LinkCode(k.(signature := ZERO)), LinkCode(l.(signature := ZERO)));
      LinkCodeDecides(k.(signature := ZERO), l.(signature := ZERO));
    }
  }

  function ReceiptCode(x: Bcts.ReceiptInput): seq<nat> {
    [StateCode(x.from), StateCode(x.to), TimeCode(x.timestamp), TextCode(x.actor), DigestCode(x.prevHash)]
  }

  const RECEIPT_HASHER := Bcts.Hasher((x: Bcts.ReceiptInput) => Digest(ListCode(ReceiptCode(x))))

  lemma BctsCollisionFree()
    ensures Bcts.CollisionFree(RECEIPT_HASHER)
  {
    TextCodeInjective();
    TimeCodeInjective();
    DigestCodeInjective();
    forall x, y | RECEIPT_HASHER.Receipt(x) == RECEIPT_HASHER.Receipt(y)
      ensures x == y
    {
      var a, b := ReceiptCode(x), ReceiptCode(y);
      ListCodeInjective(a, b);
      assert a[0] == b[0] && a[1] == b[1] && a[2] == b[2] && a[3] == b[3] && a[4] == b[4];
    }
    forall x
      ensures RECEIPT_HASHER.Receipt(x) != ZERO
    {
      PairCodePositive(ReceiptCode(x)[0], ListCode(ReceiptCode(x)[1..]));
    }
  }
}
