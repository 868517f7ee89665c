/** DAG-BFT commitment (crates/exo-dag/src/consensus.rs): one replica as a step machine,
    and any number of replicas with the same validators side by side. */
module Consensus {
  import opened Basics

  datatype Config = Config(validators: set<Did>, faultTolerance: nat, roundTimeoutMs: u64)

  function NewConfig(validators: set<Did>, roundTimeoutMs: u64): Config {
    Config(validators, if |validators| == 0 then 0 else (|validators| - 1) / 3, roundTimeoutMs)
  }

  function QuorumSize(config: Config): nat {
    if |config.validators| == 0 then 0 else 2 * |config.validators| / 3 + 1
  }

  /** The quorum can be met without the faulty validators, and any two quorums share more
      than `faultTolerance` of them. */
  lemma QuorumBounds(validators: set<Did>, timeout: u64)
    requires validators != {}
    ensures var c := NewConfig(validators, timeout);
            && QuorumSize(c) <= |validators| - c.faultTolerance
            && 2 * QuorumSize(c) - |validators| > c.faultTolerance
            // the largest tolerance below a third, the smallest quorum above two thirds
            && 3 * c.faultTolerance < |validators| <= 3 * (c.faultTolerance + 1)
            && 3 * (QuorumSize(c) - 1) <= 2 * |validators| < 3 * QuorumSize(c)
  {
  }

  /** Without validators nothing can be committed. */
  lemma NoQuorum(s: State, node: Digest, timeout: u64)
    requires s.config == NewConfig({}, timeout)
    ensures s.config.faultTolerance == 0 && CheckCommit(s, node) == None
  {
  }

  datatype Vote = Vote(voter: Did, round: nat, nodeHash: Digest, signature: Digest)

  datatype Proposal = Proposal(proposer: Did, round: nat, nodeHash: Digest)

  datatype Certificate = Certificate(nodeHash: Digest, votes: seq<Vote>, round: nat)

  datatype Error = NotAValidator | InvalidRound | DuplicateVote

  type Ballots = map<nat, map<Digest, seq<Vote>>>

  datatype State = State(
    config: Config,
    currentRound: nat,
    committed: seq<Digest>,
    pending: Ballots,
    certificates: map<Digest, Certificate>,
    votedInRound: map<nat, set<Did>>)

  function Initial(config: Config): State {
    State(config, 0, [], map[], map[], map[])
  }

  function RoundBallots(pending: Ballots, round: nat): map<Digest, seq<Vote>> {
    if round in pending then pending[round] else map[]
  }

  function VotesFor(s: State, round: nat, node: Digest): seq<Vote> {
    var ballots := RoundBallots(s.pending, round);
    if node in ballots then ballots[node] else []
  }

  function VotedIn(s: State, round: nat): set<Did> {
    if round in s.votedInRound then s.votedInRound[round] else {}
  }

  // ---------------------------------------------------------------------
  // The steps of one replica
  // ---------------------------------------------------------------------

  function ProposeResult(s: State, node: Digest, proposer: Did): Result<Proposal, Error> {
    if proposer !in s.config.validators then Err(NotAValidator) else Ok(Proposal(proposer, s.currentRound, node))
  }

  function AfterPropose(s: State, node: Digest, proposer: Did): State {
    if ProposeResult(s, node, proposer).Err? then s
    else s.(pending := s.pending[s.currentRound :=
              RoundBallots(s.pending, s.currentRound)[node := VotesFor(s, s.currentRound, node)]])
  }

  function VoteResult(s: State, v: Vote): Result<(), Error> {
    if v.voter !in s.config.validators then Err(NotAValidator)
    else if v.round != s.currentRound then Err(InvalidRound)
    else if v.voter in VotedIn(s, v.round) then Err(DuplicateVote)
    else Ok(())
  }

  function AfterVote(s: State, v: Vote): State {
    if VoteResult(s, v).Err? then s
    else s.(
      votedInRound := s.votedInRound[v.round := VotedIn(s, v.round) + {v.voter}],
      pending := s.pending[v.round :=
        RoundBallots(s.pending, v.round)[v.nodeHash := VotesFor(s, v.round, v.nodeHash) + [v]]])
  }

  function CheckCommit(s: State, node: Digest): Option<Certificate> {
    var votes := VotesFor(s, s.currentRound, node);
    if QuorumSize(s.config) > 0 && |votes| >= QuorumSize(s.config) then Some(Certificate(node, votes, s.currentRound))
    else None
  }

  function AfterCommit(s: State, cert: Certificate): State {
    s.(committed := s.committed + [cert.nodeHash], certificates := s.certificates[cert.nodeHash := cert])
  }

  function AfterAdvance(s: State): State {
    s.(currentRound := s.currentRound + 1)
  }

  class ConsensusState {
    const config: Config
    var currentRound: nat
    var committed: seq<Digest>
    var pending: Ballots
    var certificates: map<Digest, Certificate>
    var votedInRound: map<nat, set<Did>>

    function Value(): State
      reads this
    {
      State(config, currentRound, committed, pending, certificates, votedInRound)
    }

    constructor (c: Config)
      ensures Value() == Initial(c)
    {
      config := c;
      currentRound, committed, pending, certificates, votedInRound := 0, [], map[], map[], map[];
    }

    method AdvanceRound()
      modifies this
      ensures Value() == AfterAdvance(old(Value()))
    {
      currentRound := currentRound + 1;
    }

    method Propose(node: Digest, proposer: Did) returns (r: Result<Proposal, Error>)
      modifies this
      ensures r == ProposeResult(old(Value()), node, proposer)
      ensures r == if proposer in config.validators then Ok(Proposal(proposer, currentRound, node)) else Err(NotAValidator)
      ensures Value() == AfterPropose(old(Value()), node, proposer)
    {
      if proposer !in config.validators {
        return Err(NotAValidator);
      }
      var proposal := Proposal(proposer, currentRound, node);
      var ballots := if currentRound in pending then pending[currentRound] else map[];
      if node !in ballots {
        ballots := ballots[node := []];
      }
      assert ballots == RoundBallots(pending, currentRound)[node := VotesFor(Value(), currentRound, node)];
      pending := pending[currentRound := ballots];
      return Ok(proposal);
    }

    method Vote(v: Vote) returns (r: Result<(), Error>)
      modifies this
      ensures r == VoteResult(old(Value()), v)
      ensures Value() == AfterVote(old(Value()), v)
    {
      if v.voter !in config.validators {
        return Err(NotAValidator);
      }
      if v.round != currentRound {
        return Err(InvalidRound);
      }
      var roundVoters := if v.round in votedInRound then votedInRound[v.round] else {};
      if v.voter in roundVoters {
        return Err(DuplicateVote);
      }
      votedInRound := votedInRound[v.round := roundVoters + {v.voter}];
      var ballots := if v.round in pending then pending[v.round] else map[];
      var votes := if v.nodeHash in ballots then ballots[v.nodeHash] else [];
      pending := pending[v.round := ballots[v.nodeHash := votes + [v]]];
      return Ok(());
    }

    method TryCommit(node: Digest) returns (cert: Option<Certificate>)
      ensures cert == CheckCommit(Value(), node)
    {
      var quorum := QuorumSize(config);
      if quorum == 0 {
        return None;
      }
      if currentRound in pending {
        if node in pending[currentRound] {
          var votes := pending[currentRound][node];
          if |votes| >= quorum {
            return Some(Certificate(node, votes, currentRound));
          }
        }
      }
      return None;
    }

    method IsFinalized(node: Digest) returns (finalized: bool)
      ensures finalized <==> node in certificates
    {
      finalized := node in certificates;
    }

    method Commit(cert: Certificate)
      modifies this
      ensures Value() == AfterCommit(old(Value()), cert)
    {
      committed := committed + [cert.nodeHash];
      certificates := certificates[cert.nodeHash := cert];
    }
  }

  // ---------------------------------------------------------------------
  // What every replica keeps
  // ---------------------------------------------------------------------

  ghost predicate GoodVote(s: State, v: Vote, round: nat, node: Digest) {
    v.voter in s.config.validators && v.voter in VotedIn(s, round) && v.round == round && v.nodeHash == node
  }

  /** Every counted vote is by a validator, for that round and node, and no validator is
      counted twice in a round. */
  ghost predicate HonestCount(s: State) {
    && (forall r: nat, a, i :: 0 <= i < |VotesFor(s, r, a)| ==> GoodVote(s, VotesFor(s, r, a)[i], r, a))
    && (forall r: nat, a, b, i, j ::
          (&& 0 <= i < |VotesFor(s, r, a)| && 0 <= j < |VotesFor(s, r, b)|
           && VotesFor(s, r, a)[i].voter == VotesFor(s, r, b)[j].voter)
          ==> a == b && i == j)
  }

  datatype Op = Propose(node: Digest, proposer: Did) | Cast(v: Vote) | TryCommit(target: Digest) | Advance

  /** A replica commits only what `check_commit` returns. */
  function Step(s: State, op: Op): State {
    match op
    case Propose(node, proposer) => AfterPropose(s, node, proposer)
    case Cast(v) => AfterVote(s, v)
    case Advance => AfterAdvance(s)
    case TryCommit(node) =>
      match CheckCommit(s, node) case Some(cert) => AfterCommit(s, cert) case None => s
  }

  lemma VotesAfterStep(s: State, op: Op, r: nat, a: Digest)
    ensures VotesFor(Step(s, op), r, a) ==
            if op.Cast? && VoteResult(s, op.v).Ok? && op.v.round == r && op.v.nodeHash == a
            then VotesFor(s, r, a) + [op.v] else VotesFor(s, r, a)
  {
  }

  lemma StepKeepsCount(s: State, op: Op)
    requires HonestCount(s)
    ensures HonestCount(Step(s, op))
  {
    var t := Step(s, op);
    forall r: nat, a, i | 0 <= i < |VotesFor(t, r, a)|
      ensures GoodVote(t, VotesFor(t, r, a)[i], r, a)
    {
      VotesAfterStep(s, op, r, a);
      assert i < |VotesFor(s, r, a)| ==> GoodVote(s, VotesFor(s, r, a)[i], r, a);
    }
    forall r: nat, a, b, i, j | 0 <= i < |VotesFor(t, r, a)| && 0 <= j < |VotesFor(t, r, b)| &&
                           VotesFor(t, r, a)[i].voter == VotesFor(t, r, b)[j].voter
      ensures a == b && i == j
    {
      VotesAfterStep(s, op, r, a);
      VotesAfterStep(s, op, r, b);
      assert i < |VotesFor(s, r, a)| ==> GoodVote(s, VotesFor(s, r, a)[i], r, a);
      assert j < |VotesFor(s, r, b)| ==> GoodVote(s, VotesFor(s, r, b)[j], r, b);
    }
  }

  // ---------------------------------------------------------------------
  // Any number of replicas
  // ---------------------------------------------------------------------

  /** All replicas, and every certificate any of them ever committed. */
  datatype System = System(replicas: seq<State>, log: seq<(nat, Certificate)>)

  function Start(config: Config, n: nat): System {
    System(seq(n, _ => Initial(config)), [])
  }

  function SystemStep(y: System, i: nat, op: Op): System
    requires i < |y.replicas|
  {
    var s := y.replicas[i];
    var certs := if op.TryCommit? && CheckCommit(s, op.target).Some? then [(i, CheckCommit(s, op.target).value)] else [];
    System(y.replicas[i := Step(s, op)], y.log + certs)
  }

  /** A run: each entry names a replica and its step. */
  function Execute(config: Config, n: nat, run: seq<(nat, Op)>): (y: System)
    requires forall k :: 0 <= k < |run| ==> run[k].0 < n
    ensures |y.replicas| == n
  {
    if run == [] then Start(config, n)
    else
      var m := |run| - 1;
      SystemStep(Execute(config, n, run[..m]), run[m].0, run[m].1)
  }

  ghost predicate CertifiedAt(y: System, config: Config, entry: (nat, Certificate)) {
    && entry.0 < |y.replicas|
    && entry.1.votes <= VotesFor(y.replicas[entry.0], entry.1.round, entry.1.nodeHash)
    && |entry.1.votes| >= QuorumSize(config) > 0
  }

  ghost predicate Consistent(y: System, config: Config) {
    && (forall i :: 0 <= i < |y.replicas| ==> y.replicas[i].config == config && HonestCount(y.replicas[i]))
    && (forall k :: 0 <= k < |y.log| ==> CertifiedAt(y, config, y.log[k]))
    && (forall i, a :: 0 <= i < |y.replicas| && a in y.replicas[i].certificates ==>
          y.replicas[i].certificates[a].nodeHash == a && (i, y.replicas[i].certificates[a]) in y.log)
  }

  lemma StepKeepsConsistent(y: System, config: Config, i: nat, op: Op)
    requires Consistent(y, config) && i < |y.replicas|
    ensures Consistent(SystemStep(y, i, op), config)
  {
    var z := SystemStep(y, i, op);
    StepKeepsCount(y.replicas[i], op);
    forall k | 0 <= k < |z.log|
      ensures CertifiedAt(z, config, z.log[k])
    {
      VotesAfterStep(y.replicas[i], op, z.log[k].1.round, z.log[k].1.nodeHash);
      if k < |y.log| {
        assert CertifiedAt(y, config, y.log[k]);
      }
    }
    forall j, a | 0 <= j < |z.replicas| && a in z.replicas[j].certificates
      ensures z.replicas[j].certificates[a].nodeHash == a && (j, z.replicas[j].certificates[a]) in z.log
    {
      if j == i && op.TryCommit? && op.target == a && CheckCommit(y.replicas[i], a).Some? {
        assert z.log[|y.log|] == (i, CheckCommit(y.replicas[i], a).value);
      } else {
        assert (j, y.replicas[j].certificates[a]) in y.log;
      }
    }
  }

  lemma {:induction false} RunsAreConsistent(config: Config, n: nat, run: seq<(nat, Op)>)
    requires forall k :: 0 <= k < |run| ==> run[k].0 < n
    ensures Consistent(Execute(config, n, run), config)
    decreases |run|
  {
    if run != [] {
      var m := |run| - 1;
      RunsAreConsistent(config, n, run[..m]);
      StepKeepsConsistent(Execute(config, n, run[..m]), config, run[m].0, run[m].1);
    }
  }

  function Voters(votes: seq<Vote>): set<Did> {
    set k | 0 <= k < |votes| :: votes[k].voter
  }

  lemma {:induction false} DistinctVoters(votes: seq<Vote>)
    requires forall i, j :: 0 <= i < j < |votes| ==> votes[i].voter != votes[j].voter
    ensures |Voters(votes)| == |votes|
  {
    if votes != [] {
      var n := |votes| - 1;
      DistinctVoters(votes[..n]);
      assert Voters(votes) == Voters(votes[..n]) + {votes[n].voter};
    }
  }

  /** A certificate carries at least a quorum of distinct validators. */
  lemma CertificateHasQuorum(y: System, config: Config, k: nat)
    requires Consistent(y, config) && k < |y.log|
    ensures var cert := y.log[k].1;
            && |Voters(cert.votes)| == |cert.votes| >= QuorumSize(config)
            && Voters(cert.votes) <= config.validators
            && Voters(cert.votes) <= Voters(VotesFor(y.replicas[y.log[k].0], cert.round, cert.nodeHash))
            && (forall i :: 0 <= i < |cert.votes| ==>
                  cert.votes[i].round == cert.round && cert.votes[i].nodeHash == cert.nodeHash)
  {
    assert CertifiedAt(y, config, y.log[k]);
    var s, cert := y.replicas[y.log[k].0], y.log[k].1;
    var votes := VotesFor(s, cert.round, cert.nodeHash);
    forall i | 0 <= i < |cert.votes|
      ensures cert.votes[i] == votes[i] && GoodVote(s, votes[i], cert.round, cert.nodeHash)
    {
    }
    DistinctVoters(cert.votes);
  }

  /** Validator `v` is counted for different nodes in one round, at any replicas. */
  ghost predicate Equivocates(y: System, round: nat, v: Did) {
    exists i, j, a, b :: 0 <= i < |y.replicas| && 0 <= j < |y.replicas| && a != b &&
      v in Voters(VotesFor(y.replicas[i], round, a)) && v in Voters(VotesFor(y.replicas[j], round, b))
  }

  lemma Overlap(p: set<Did>, q: set<Did>, all: set<Did>)
    requires p <= all && q <= all
    ensures |p * q| >= |p| + |q| - |all|
  {
    assert |p + q| + |p * q| == |p| + |q|;
    SubsetSize(p + q, all);
  }

  /** How many validators may equivocate before two quorums can miss each other. */
  function Margin(config: Config): int {
    2 * QuorumSize(config) - |config.validators|
  }

  /** Agreement: in every run of any number of replicas, if fewer than `Margin` validators
      equivocate in a round, all certificates of the round name one node. */
  lemma {:induction false} AgreementWithinMargin(config: Config, n: nat, run: seq<(nat, Op)>, faulty: set<Did>, k: nat, l: nat)
    requires forall m :: 0 <= m < |run| ==> run[m].0 < n
    requires var y := Execute(config, n, run);
             && k < |y.log| && l < |y.log| && y.log[k].1.round == y.log[l].1.round
             && (forall v :: Equivocates(y, y.log[k].1.round, v) ==> v in faulty)
    requires |faulty| < Margin(config)
    ensures var y := Execute(config, n, run);
            y.log[k].1.nodeHash == y.log[l].1.nodeHash
  {
    var y := Execute(config, n, run);
    RunsAreConsistent(config, n, run);
    CertificateHasQuorum(y, config, k);
    CertificateHasQuorum(y, config, l);
    var p, q := Voters(y.log[k].1.votes), Voters(y.log[l].1.votes);
    assert CertifiedAt(y, config, y.log[k]) && CertifiedAt(y, config, y.log[l]);
    Overlap(p, q, config.validators);
    if p * q <= faulty {
      SubsetSize(p * q, faulty);
    } else {
      var v :| v in p * q && v !in faulty;
      assert !Equivocates(y, y.log[k].1.round, v);
    }
  }

  /** The configured fault tolerance is within the margin. */
  lemma {:induction false} Agreement(validators: set<Did>, timeout: u64, n: nat, run: seq<(nat, Op)>, faulty: set<Did>, k: nat, l: nat)
    requires forall m :: 0 <= m < |run| ==> run[m].0 < n
    requires var y := Execute(NewConfig(validators, timeout), n, run);
             && k < |y.log| && l < |y.log| && y.log[k].1.round == y.log[l].1.round
             && (forall v :: Equivocates(y, y.log[k].1.round, v) ==> v in faulty)
    requires |faulty| <= NewConfig(validators, timeout).faultTolerance
    ensures var y := Execute(NewConfig(validators, timeout), n, run);
            y.log[k].1.nodeHash == y.log[l].1.nodeHash
  {
    var config := NewConfig(validators, timeout);
    var y := Execute(config, n, run);
    RunsAreConsistent(config, n, run);
    assert CertifiedAt(y, config, y.log[k]);
    QuorumBounds(validators, timeout);
    AgreementWithinMargin(config, n, run, faulty, k, l);
  }

  // ---------------------------------------------------------------------
  // What a run leaves in a replica
  // ---------------------------------------------------------------------

  /** The certificates that replica `i` committed, in order. */
  function CommittedBy(log: seq<(nat, Certificate)>, i: nat): seq<Certificate> {
    if log == [] then []
    else
      var m := |log| - 1;
      CommittedBy(log[..m], i) + if log[m].0 == i then [log[m].1] else []
  }

  /** Entry `k` is the last one that names `a`. */
  ghost predicate LastNaming(certs: seq<Certificate>, a: Digest, k: nat) {
    && k < |certs| && certs[k].nodeHash == a
    && forall l :: k < l < |certs| ==> certs[l].nodeHash != a
  }

  /** `committed` lists the nodes of `certs`, and each node is finalized by the last
      certificate that names it. */
  ghost predicate Records(s: State, certs: seq<Certificate>) {
    && |s.committed| == |certs| && (forall k :: 0 <= k < |certs| ==> s.committed[k] == certs[k].nodeHash)
    && (forall a :: a in s.certificates <==> exists k: nat :: LastNaming(certs, a, k))
    && (forall a, k: nat :: LastNaming(certs, a, k) ==> a in s.certificates && s.certificates[a] == certs[k])
  }

  lemma {:induction false} RecordsCommit(s: State, certs: seq<Certificate>, cert: Certificate)
    requires Records(s, certs)
    ensures Records(AfterCommit(s, cert), certs + [cert])
  {
    var more := certs + [cert];
    assert LastNaming(more, cert.nodeHash, |certs|);
    forall a, k: nat
      ensures a != cert.nodeHash ==> (LastNaming(more, a, k) <==> LastNaming(certs, a, k))
      ensures a == cert.nodeHash ==> (LastNaming(more, a, k) <==> k == |certs|)
    {
      if a != cert.nodeHash && LastNaming(more, a, k) {
        assert forall l :: k < l < |certs| ==> more[l] == certs[l];
      }
      if a == cert.nodeHash && k < |certs| {
        assert more[|certs|].nodeHash == a;
      }
    }
  }

  lemma {:induction false} CommittedPush(log: seq<(nat, Certificate)>, j: nat, cert: Certificate, i: nat)
    ensures CommittedBy(log + [(j, cert)], i) == CommittedBy(log, i) + if j == i then [cert] else []
  {
    assert (log + [(j, cert)])[..|log|] == log;
  }

  lemma {:induction false} StepRecords(y: System, j: nat, op: Op, i: nat)
    requires i < |y.replicas| && j < |y.replicas| && Records(y.replicas[i], CommittedBy(y.log, i))
    ensures var z := SystemStep(y, j, op); Records(z.replicas[i], CommittedBy(z.log, i))
  {
    var z := SystemStep(y, j, op);
    if op.TryCommit? && CheckCommit(y.replicas[j], op.target).Some? {
      var cert := CheckCommit(y.replicas[j], op.target).value;
      CommittedPush(y.log, j, cert, i);
      assert z.log == y.log + [(j, cert)];
      if i == j {
        RecordsCommit(y.replicas[i], CommittedBy(y.log, i), cert);
      } else {
        assert CommittedBy(z.log, i) == CommittedBy(y.log, i) && z.replicas[i] == y.replicas[i];
      }
    } else {
      assert z.log == y.log;
      assert z.replicas[i].committed == y.replicas[i].committed;
      assert z.replicas[i].certificates == y.replicas[i].certificates;
    }
  }

  /** In every run a replica has recorded exactly the certificates it committed. */
  lemma {:induction false} RunsRecordCommits(config: Config, n: nat, run: seq<(nat, Op)>, i: nat)
    requires i < n && forall k :: 0 <= k < |run| ==> run[k].0 < n
    ensures Records(Execute(config, n, run).replicas[i], CommittedBy(Execute(config, n, run).log, i))
    decreases |run|
  {
    if run != [] {
      var m := |run| - 1;
      RunsRecordCommits(config, n, run[..m], i);
      StepRecords(Execute(config, n, run[..m]), run[m].0, run[m].1, i);
    }
  }

  /** How often replica `i` has advanced. */
  function Advances(run: seq<(nat, Op)>, i: nat): nat {
    if run == [] then 0
    else
      var m := |run| - 1;
      Advances(run[..m], i) + if run[m] == (i, Advance) then 1 else 0
  }

  /** Step `m` casts vote `v` of a validator at replica `i` while that is in the vote's round. */
  ghost predicate Timely(config: Config, run: seq<(nat, Op)>, m: nat, i: nat, v: Vote) {
    m < |run| && run[m] == (i, Cast(v)) && v.voter in config.validators && v.round == Advances(run[..m], i)
  }

  /** ... and it is the validator's first such vote in the round. */
  ghost predicate FirstTimely(config: Config, run: seq<(nat, Op)>, m: nat, i: nat, v: Vote) {
    && Timely(config, run, m, i, v)
    && forall l: nat, w :: l < m && Timely(config, run, l, i, w) ==> w.voter != v.voter || w.round != v.round
  }

  /** Step `m` opens a ballot for `a`: a validator proposes it at replica `i` in round `r`. */
  ghost predicate Opens(config: Config, run: seq<(nat, Op)>, m: nat, i: nat, r: nat, a: Digest) {
    m < |run| && run[m].0 == i && run[m].1.Propose? && run[m].1.node == a && run[m].1.proposer in config.validators &&
    r == Advances(run[..m], i)
  }

  ghost predicate Voted(config: Config, run: seq<(nat, Op)>, i: nat, r: nat, p: Did) {
    exists m: nat, w :: Timely(config, run, m, i, w) && w.voter == p && w.round == r
  }

  ghost predicate Counted(config: Config, run: seq<(nat, Op)>, i: nat, v: Vote) {
    exists m: nat :: FirstTimely(config, run, m, i, v)
  }

  ghost predicate Open(config: Config, run: seq<(nat, Op)>, i: nat, r: nat, a: Digest) {
    || (exists m: nat :: Opens(config, run, m, i, r, a))
    || (exists v :: Counted(config, run, i, v) && v.round == r && v.nodeHash == a)
  }

  /** The state of a replica, in terms of the run alone. */
  ghost predicate Reflects(config: Config, run: seq<(nat, Op)>, i: nat, s: State) {
    && s.config == config
    && s.currentRound == Advances(run, i)
    && (forall r: nat, p :: p in VotedIn(s, r) <==> Voted(config, run, i, r, p))
    && (forall r: nat, a, v :: v in VotesFor(s, r, a) <==> Counted(config, run, i, v) && v.round == r && v.nodeHash == a)
    && (forall r: nat, a :: a in RoundBallots(s.pending, r) <==> Open(config, run, i, r, a))
  }

  /** One more step adds at most itself. */
  lemma {:induction false} LongerRun(config: Config, front: seq<(nat, Op)>, x: (nat, Op), i: nat)
    ensures Advances(front + [x], i) == Advances(front, i) + if x == (i, Advance) then 1 else 0
    ensures forall m: nat, v :: Timely(config, front + [x], m, i, v) <==>
              Timely(config, front, m, i, v) ||
              (m == |front| && x == (i, Cast(v)) && v.voter in config.validators && v.round == Advances(front, i))
    ensures forall m: nat, r, a :: Opens(config, front + [x], m, i, r, a) <==>
              Opens(config, front, m, i, r, a) ||
              (m == |front| && x.0 == i && x.1.Propose? && x.1.node == a && x.1.proposer in config.validators &&
               r == Advances(front, i))
  {
    var run := front + [x];
    assert run[..|front|] == front;
    forall m: nat | m <= |front|
      ensures run[..m] == front[..m]
    {
    }
  }

  /** The new step is the only one that can change who has voted and what counts. */
  lemma {:induction false} LongerCounts(config: Config, front: seq<(nat, Op)>, x: (nat, Op), i: nat)
    ensures var run, now := front + [x], Advances(front, i);
            var timely := x.0 == i && x.1.Cast? && x.1.v.voter in config.validators && x.1.v.round == now;
            && (forall r: nat, p :: Voted(config, run, i, r, p) <==>
                 Voted(config, front, i, r, p) || (timely && p == x.1.v.voter && r == now))
            && (forall v :: Counted(config, run, i, v) <==>
                 Counted(config, front, i, v) || (timely && v == x.1.v && !Voted(config, front, i, now, v.voter)))
  {
    var run, now := front + [x], Advances(front, i);
    LongerRun(config, front, x, i);
    forall r: nat, p
      ensures Voted(config, run, i, r, p) <==>
              Voted(config, front, i, r, p) ||
              (x.0 == i && x.1.Cast? && x.1.v.voter in config.validators && x.1.v.round == now && p == x.1.v.voter && r == now)
    {
      if x.0 == i && x.1.Cast? && x.1.v.voter in config.validators && x.1.v.round == now && p == x.1.v.voter && r == now {
        assert Timely(config, run, |front|, i, x.1.v);
      }
      if Voted(config, front, i, r, p) {
        var m: nat, w :| Timely(config, front, m, i, w) && w.voter == p && w.round == r;
        assert Timely(config, run, m, i, w);
      }
    }
    forall v
      ensures Counted(config, run, i, v) <==>
              Counted(config, front, i, v) ||
              (x == (i, Cast(v)) && v.voter in config.validators && v.round == now && !Voted(config, front, i, now, v.voter))
    {
      CountedLonger(config, front, x, i, v);
    }
  }

  lemma {:induction false} CountedLonger(config: Config, front: seq<(nat, Op)>, x: (nat, Op), i: nat, v: Vote)
    ensures Counted(config, front + [x], i, v) <==>
            Counted(config, front, i, v) ||
            (x == (i, Cast(v)) && v.voter in config.validators && v.round == Advances(front, i) &&
             !Voted(config, front, i, v.round, v.voter))
  {
    var run := front + [x];
    LongerRun(config, front, x, i);
    forall m: nat
      ensures m < |front| ==> (FirstTimely(config, run, m, i, v) <==> FirstTimely(config, front, m, i, v))
      ensures m == |front| ==> (FirstTimely(config, run, m, i, v) <==>
                Timely(config, run, m, i, v) && !Voted(config, front, i, v.round, v.voter))
    {
      assert forall l: nat, w :: l < |front| ==> (Timely(config, run, l, i, w) <==> Timely(config, front, l, i, w));
      assert forall l: nat, w :: Timely(config, front, l, i, w) ==> l < |front|;
    }
    if Counted(config, front, i, v) {
      var m: nat :| FirstTimely(config, front, m, i, v);
      assert FirstTimely(config, run, m, i, v);
    }
    if Counted(config, run, i, v) {
      var m: nat :| FirstTimely(config, run, m, i, v);
      assert m < |front| ==> FirstTimely(config, front, m, i, v);
    }
    if x == (i, Cast(v)) && v.voter in config.validators && v.round == Advances(front, i) &&
       !Voted(config, front, i, v.round, v.voter) {
      assert FirstTimely(config, run, |front|, i, v);
    }
  }

  lemma {:induction false} OpenLonger(config: Config, front: seq<(nat, Op)>, x: (nat, Op), i: nat, r: nat, a: Digest)
    ensures Open(config, front + [x], i, r, a) <==>
            || Open(config, front, i, r, a)
            || (x.0 == i && x.1.Propose? && x.1.node == a && x.1.proposer in config.validators && r == Advances(front, i))
            || (x.0 == i && x.1.Cast? && x.1.v.nodeHash == a && x.1.v.round == r && Counted(config, front + [x], i, x.1.v))
  {
    var run := front + [x];
    LongerRun(config, front, x, i);
    LongerCounts(config, front, x, i);
    if exists m: nat :: Opens(config, front, m, i, r, a) {
      var m: nat :| Opens(config, front, m, i, r, a);
      assert Opens(config, run, m, i, r, a);
    }
    if x.0 == i && x.1.Propose? && x.1.node == a && x.1.proposer in config.validators && r == Advances(front, i) {
      assert Opens(config, run, |front|, i, r, a);
    }
    if exists m: nat :: Opens(config, run, m, i, r, a) {
      var m: nat :| Opens(config, run, m, i, r, a);
      assert m < |front| ==> Opens(config, front, m, i, r, a);
    }
  }

  lemma VotedAfterStep(s: State, op: Op, r: nat)
    ensures VotedIn(Step(s, op), r) ==
            if op.Cast? && VoteResult(s, op.v).Ok? && op.v.round == r then VotedIn(s, r) + {op.v.voter} else VotedIn(s, r)
  {
  }

  lemma BallotsAfterStep(s: State, op: Op, r: nat, a: Digest)
    ensures a in RoundBallots(Step(s, op).pending, r) <==>
            || a in RoundBallots(s.pending, r)
            || (op.Propose? && ProposeResult(s, op.node, op.proposer).Ok? && op.node == a && s.currentRound == r)
            || (op.Cast? && VoteResult(s, op.v).Ok? && op.v.round == r && op.v.nodeHash == a)
  {
  }

  /** A step at replica `i` accepts a vote exactly when it is the first timely one. */
  lemma {:induction false} AcceptedVote(config: Config, front: seq<(nat, Op)>, i: nat, s: State, v: Vote)
    requires Reflects(config, front, i, s)
    ensures VoteResult(s, v).Ok? <==>
            v.voter in config.validators && v.round == Advances(front, i) && !Voted(config, front, i, v.round, v.voter)
    ensures Counted(config, front + [(i, Cast(v))], i, v) <==> Counted(config, front, i, v) || VoteResult(s, v).Ok?
  {
    LongerCounts(config, front, (i, Cast(v)), i);
  }

  /** Why a vote is refused: not a validator, else not in the replica's round, else the
      validator has already voted in it. */
  lemma {:induction false} RefusalsMean(config: Config, front: seq<(nat, Op)>, i: nat, s: State, v: Vote)
    requires Reflects(config, front, i, s)
    ensures VoteResult(s, v) == Err(NotAValidator) <==> v.voter !in config.validators
    ensures VoteResult(s, v) == Err(InvalidRound) <==> v.voter in config.validators && v.round != Advances(front, i)
    ensures VoteResult(s, v) == Err(DuplicateVote) <==>
            v.voter in config.validators && v.round == Advances(front, i) && Voted(config, front, i, v.round, v.voter)
  {
  }

  lemma {:induction false} StepVotes(config: Config, front: seq<(nat, Op)>, i: nat, s: State, op: Op, r: nat, a: Digest, v: Vote)
    requires Reflects(config, front, i, s)
    ensures v in VotesFor(Step(s, op), r, a) <==>
            Counted(config, front + [(i, op)], i, v) && v.round == r && v.nodeHash == a
  {
    VotesAfterStep(s, op, r, a);
    LongerCounts(config, front, (i, op), i);
    if op.Cast? {
      AcceptedVote(config, front, i, s, op.v);
    }
  }

  lemma {:induction false} StepBallots(config: Config, front: seq<(nat, Op)>, i: nat, s: State, op: Op, r: nat, a: Digest)
    requires Reflects(config, front, i, s)
    ensures a in RoundBallots(Step(s, op).pending, r) <==> Open(config, front + [(i, op)], i, r, a)
  {
    BallotsAfterStep(s, op, r, a);
    OpenLonger(config, front, (i, op), i, r, a);
    if op.Cast? {
      AcceptedVote(config, front, i, s, op.v);
    }
  }

  lemma {:induction false} StepVoted(config: Config, front: seq<(nat, Op)>, i: nat, s: State, op: Op, r: nat, p: Did)
    requires Reflects(config, front, i, s)
    ensures p in VotedIn(Step(s, op), r) <==> Voted(config, front + [(i, op)], i, r, p)
  {
    VotedAfterStep(s, op, r);
    LongerCounts(config, front, (i, op), i);
    if op.Cast? {
      AcceptedVote(config, front, i, s, op.v);
    }
  }

  /** A step at replica `i` keeps its state the reflection of the run. */
  lemma {:induction false} StepReflects(config: Config, front: seq<(nat, Op)>, i: nat, s: State, op: Op)
    requires Reflects(config, front, i, s)
    ensures Reflects(config, front + [(i, op)], i, Step(s, op))
  {
    LongerRun(config, front, (i, op), i);
    forall r: nat, a, v { StepVotes(config, front, i, s, op, r, a, v); }
    forall r: nat, a { StepBallots(config, front, i, s, op, r, a); }
    forall r: nat, p { StepVoted(config, front, i, s, op, r, p); }
  }

  lemma {:induction false} OtherStepReflects(config: Config, front: seq<(nat, Op)>, x: (nat, Op), i: nat, s: State)
    requires Reflects(config, front, i, s) && x.0 != i
    ensures Reflects(config, front + [x], i, s)
  {
    LongerRun(config, front, x, i);
    forall r: nat, p { OtherVoted(config, front, x, i, s, r, p); }
    forall r: nat, a, v { OtherVotes(config, front, x, i, s, r, a, v); }
    forall r: nat, a { OtherBallots(config, front, x, i, s, r, a); }
  }

  lemma {:induction false} OtherVoted(config: Config, front: seq<(nat, Op)>, x: (nat, Op), i: nat, s: State, r: nat, p: Did)
    requires Reflects(config, front, i, s) && x.0 != i
    ensures p in VotedIn(s, r) <==> Voted(config, front + [x], i, r, p)
  {
    LongerCounts(config, front, x, i);
  }

  lemma {:induction false} OtherVotes(config: Config, front: seq<(nat, Op)>, x: (nat, Op), i: nat, s: State, r: nat, a: Digest, v: Vote)
    requires Reflects(config, front, i, s) && x.0 != i
    ensures v in VotesFor(s, r, a) <==> Counted(config, front + [x], i, v) && v.round == r && v.nodeHash == a
  {
    LongerCounts(config, front, x, i);
  }

  lemma {:induction false} OtherBallots(config: Config, front: seq<(nat, Op)>, x: (nat, Op), i: nat, s: State, r: nat, a: Digest)
    requires Reflects(config, front, i, s) && x.0 != i
    ensures a in RoundBallots(s.pending, r) <==> Open(config, front + [x], i, r, a)
  {
    OpenLonger(config, front, x, i, r, a);
  }

  /** In every run a replica counts exactly the first timely vote of each validator in each
      round, holds a ballot exactly for what a validator proposed in the round or a counted
      vote names, and stands in the round it has advanced to. */
  lemma {:induction false} RunsReflect(config: Config, n: nat, run: seq<(nat, Op)>, i: nat)
    requires i < n && forall k :: 0 <= k < |run| ==> run[k].0 < n
    ensures Reflects(config, run, i, Execute(config, n, run).replicas[i])
    decreases |run|
  {
    if run != [] {
      var m := |run| - 1;
      RunsReflect(config, n, run[..m], i);
      assert run == run[..m] + [run[m]];
      var s := Execute(config, n, run[..m]).replicas[i];
      if run[m].0 == i {
        StepReflects(config, run[..m], i, s, run[m].1);
      } else {
        OtherStepReflects(config, run[..m], run[m], i, s);
      }
    }
  }

  // ---------------------------------------------------------------------
  // The margin is tight
  // ---------------------------------------------------------------------

  function Ballot(voter: Did, node: Digest): Vote {
    Vote(voter, 0, node, ZERO)
  }

  /** Distinct validators, enough for a quorum. */
  ghost predicate Sufficient(config: Config, voters: seq<Did>) {
    && (forall k :: 0 <= k < |voters| ==> voters[k] in config.validators)
    && (forall k, l :: 0 <= k < l < |voters| ==> voters[k] != voters[l])
    && |voters| >= QuorumSize(config) > 0
  }

  function CastAll(s: State, voters: seq<Did>, node: Digest): State {
    if voters == [] then s
    else
      var m := |voters| - 1;
      AfterVote(CastAll(s, voters[..m], node), Ballot(voters[m], node))
  }

  function Casts(i: nat, voters: seq<Did>, node: Digest): (r: seq<(nat, Op)>)
    ensures |r| == |voters|
  {
    seq(|voters|, k requires 0 <= k < |voters| => (i, Cast(Ballot(voters[k], node))))
  }

  /** Casting distinct validators' votes at one replica counts all of them for that node. */
  lemma {:induction false} CastAllCounts(config: Config, voters: seq<Did>, node: Digest)
    requires forall k :: 0 <= k < |voters| ==> voters[k] in config.validators
    requires forall k, l :: 0 <= k < l < |voters| ==> voters[k] != voters[l]
    ensures var s := CastAll(Initial(config), voters, node);
            && s.config == config && s.currentRound == 0
            && VotedIn(s, 0) == Members(voters)
            && |VotesFor(s, 0, node)| == |voters| && Voters(VotesFor(s, 0, node)) == Members(voters)
            && forall a :: a != node ==> VotesFor(s, 0, a) == []
    decreases |voters|
  {
    if voters != [] {
      var m := |voters| - 1;
      CastAllCounts(config, voters[..m], node);
      assert voters == voters[..m] + [voters[m]];
      var s := CastAll(Initial(config), voters[..m], node);
      assert VoteResult(s, Ballot(voters[m], node)).Ok?;
      forall a
        ensures VotesFor(AfterVote(s, Ballot(voters[m], node)), 0, a) ==
                VotesFor(s, 0, a) + if a == node then [Ballot(voters[m], node)] else []
      {
        VotesAfterStep(s, Cast(Ballot(voters[m], node)), 0, a);
      }
      VotersPush(VotesFor(s, 0, node), Ballot(voters[m], node));
    }
  }

  lemma VotersPush(votes: seq<Vote>, v: Vote)
    ensures Voters(votes + [v]) == Voters(votes) + {v.voter}
  {
    var more := votes + [v];
    assert more[|votes|] == v;
    assert forall k :: 0 <= k < |votes| ==> more[k] == votes[k];
  }

  lemma {:induction false} ExecutePush(config: Config, n: nat, run: seq<(nat, Op)>, x: (nat, Op))
    requires x.0 < n && forall k :: 0 <= k < |run| ==> run[k].0 < n
    ensures Execute(config, n, run + [x]) == SystemStep(Execute(config, n, run), x.0, x.1)
  {
    assert (run + [x])[..|run|] == run;
  }

  lemma CastsPush(run: seq<(nat, Op)>, i: nat, voters: seq<Did>, node: Digest)
    requires voters != []
    ensures var m := |voters| - 1;
            run + Casts(i, voters, node) == (run + Casts(i, voters[..m], node)) + [(i, Cast(Ballot(voters[m], node)))]
  {
  }

  lemma {:induction false} ExecuteCasts(config: Config, n: nat, run: seq<(nat, Op)>, i: nat, voters: seq<Did>, node: Digest)
    requires i < n && forall k :: 0 <= k < |run| ==> run[k].0 < n
    ensures var y := Execute(config, n, run);
            Execute(config, n, run + Casts(i, voters, node)) ==
            System(y.replicas[i := CastAll(y.replicas[i], voters, node)], y.log)
    decreases |voters|
  {
    if voters == [] {
      assert run + Casts(i, voters, node) == run;
    } else {
      var m := |voters| - 1;
      ExecuteCasts(config, n, run, i, voters[..m], node);
      var before, x := run + Casts(i, voters[..m], node), (i, Cast(Ballot(voters[m], node)));
      CastsPush(run, i, voters, node);
      ExecutePush(config, n, before, x);
      var y, z := Execute(config, n, run), Execute(config, n, before);
      assert z.replicas[i] == CastAll(y.replicas[i], voters[..m], node);
      assert SystemStep(z, i, x.1).replicas == y.replicas[i := CastAll(y.replicas[i], voters, node)];
    }
  }

  /** One replica collects votes for a node and commits it; the others do nothing. */
  function CommitRun(i: nat, voters: seq<Did>, node: Digest): (r: seq<(nat, Op)>)
    ensures forall k :: 0 <= k < |r| ==> r[k].0 == i
  {
    Casts(i, voters, node) + [(i, TryCommit(node))]
  }

  lemma {:induction false} ExecuteCommit(config: Config, n: nat, run: seq<(nat, Op)>, i: nat, voters: seq<Did>, node: Digest)
    requires i < n && forall k :: 0 <= k < |run| ==> run[k].0 < n
    requires Execute(config, n, run).replicas[i] == Initial(config)
    requires Sufficient(config, voters)
    ensures var y, z := Execute(config, n, run), Execute(config, n, run + CommitRun(i, voters, node));
            && (forall j :: 0 <= j < n && j != i ==> z.replicas[j] == y.replicas[j])
            && Voters(VotesFor(z.replicas[i], 0, node)) == Members(voters)
            && (forall a :: a != node ==> VotesFor(z.replicas[i], 0, a) == [])
            && |z.log| == |y.log| + 1 && z.log[..|y.log|] == y.log
            && z.log[|y.log|].0 == i && z.log[|y.log|].1.nodeHash == node && z.log[|y.log|].1.round == 0
  {
    var y := Execute(config, n, run);
    var cast := run + Casts(i, voters, node);
    ExecuteCasts(config, n, run, i, voters, node);
    assert run + CommitRun(i, voters, node) == cast + [(i, TryCommit(node))];
    ExecutePush(config, n, cast, (i, TryCommit(node)));
    CastAllCounts(config, voters, node);
    var s := CastAll(Initial(config), voters, node);
    assert CheckCommit(s, node).Some?;
    forall a
      ensures VotesFor(Step(s, TryCommit(node)), 0, a) == VotesFor(s, 0, a)
    {
      VotesAfterStep(s, TryCommit(node), 0, a);
    }
  }

  lemma {:induction false} Listing(s: set<Did>) returns (l: seq<Did>)
    ensures Members(l) == s && |l| == |s|
    ensures forall k, m :: 0 <= k < m < |l| ==> l[k] != l[m]
    decreases |s|
  {
    l := [];
    if s != {} {
      var x :| x in s;
      var rest := Listing(s - {x});
      assert forall k :: 0 <= k < |rest| ==> rest[k] in Members(rest);
      l := rest + [x];
      assert s == (s - {x}) + {x};
    }
  }

  lemma {:induction false} SubsetOfSize(s: set<Did>, k: nat) returns (t: set<Did>)
    requires k <= |s|
    ensures t <= s && |t| == k
    decreases k
  {
    t := {};
    if k > 0 {
      var x :| x in s;
      var rest := SubsetOfSize(s - {x}, k - 1);
      t := rest + {x};
    }
  }

  /** Two quorums that share exactly the given validators. */
  lemma TwoQuorums(config: Config, faulty: set<Did>) returns (p: set<Did>, q: set<Did>)
    requires faulty <= config.validators && |faulty| == Margin(config)
    ensures p <= config.validators && q <= config.validators && p * q == faulty
    ensures |p| == |q| == QuorumSize(config)
  {
    var rest := config.validators - faulty;
    assert config.validators == faulty + rest;
    var left := SubsetOfSize(rest, |config.validators| - QuorumSize(config));
    var right := rest - left;
    assert rest == left + right;
    p, q := faulty + left, faulty + right;
  }

  /** With two replicas that count votes for one node each, who equivocates voted at both. */
  lemma OneNodeEach(y: System, p: set<Did>, q: set<Did>, a: Digest, b: Digest, v: Did)
    requires |y.replicas| == 2 && Equivocates(y, 0, v)
    requires Voters(VotesFor(y.replicas[0], 0, a)) == p && forall c :: c != a ==> VotesFor(y.replicas[0], 0, c) == []
    requires Voters(VotesFor(y.replicas[1], 0, b)) == q && forall c :: c != b ==> VotesFor(y.replicas[1], 0, c) == []
    ensures v in p * q
  {
    var i, j, c, d :| 0 <= i < |y.replicas| && 0 <= j < |y.replicas| && c != d &&
      v in Voters(VotesFor(y.replicas[i], 0, c)) && v in Voters(VotesFor(y.replicas[j], 0, d));
    assert i == 0 ==> c == a;
    assert j == 0 ==> d == a;
    assert i == 1 ==> c == b;
    assert j == 1 ==> d == b;
  }

  /** Two replicas, each collecting its own quorum for its own node. */
  lemma {:induction false} SplitRun(config: Config, ps: seq<Did>, qs: seq<Did>, a: Digest, b: Digest)
    requires Sufficient(config, ps) && Sufficient(config, qs)
    ensures var y := Execute(config, 2, CommitRun(0, ps, a) + CommitRun(1, qs, b));
            && |y.log| == 2 && y.log[0].1.round == y.log[1].1.round == 0
            && y.log[0].1.nodeHash == a && y.log[1].1.nodeHash == b
            && Voters(VotesFor(y.replicas[0], 0, a)) == Members(ps)
            && (forall c :: c != a ==> VotesFor(y.replicas[0], 0, c) == [])
            && Voters(VotesFor(y.replicas[1], 0, b)) == Members(qs)
            && (forall c :: c != b ==> VotesFor(y.replicas[1], 0, c) == [])
  {
    var first := CommitRun(0, ps, a);
    assert [] + first == first;
    ExecuteCommit(config, 2, [], 0, ps, a);
    var x, y := Execute(config, 2, first), Execute(config, 2, first + CommitRun(1, qs, b));
    assert x.replicas[1] == Initial(config);
    ExecuteCommit(config, 2, first, 1, qs, b);
    assert y.replicas[0] == x.replicas[0];
    assert y.log[0] == y.log[..1][0] == x.log[0];
  }

  /** In this run of two replicas only `faulty` equivocate in round 0, and the round certifies
      both `a` and `b`. */
  ghost predicate Splits(config: Config, faulty: set<Did>, a: Digest, b: Digest, run: seq<(nat, Op)>) {
    && (forall m :: 0 <= m < |run| ==> run[m].0 < 2)
    && var y := Execute(config, 2, run);
       && |y.log| == 2 && y.log[0].1.round == y.log[1].1.round == 0
       && y.log[0].1.nodeHash == a && y.log[1].1.nodeHash == b
       && forall v :: Equivocates(y, 0, v) ==> v in faulty
  }

  /** The margin is tight: whichever validators make up the margin, some run of two replicas
      in which only they equivocate certifies any two nodes in one round. */
  lemma MarginIsTight(config: Config, faulty: set<Did>, a: Digest, b: Digest)
    requires config.validators != {} && faulty <= config.validators && |faulty| == Margin(config)
    ensures exists run :: Splits(config, faulty, a, b, run)
  {
    var p, q := TwoQuorums(config, faulty);
    var ps := Listing(p);
    var qs := Listing(q);
    assert forall k :: 0 <= k < |ps| ==> ps[k] in Members(ps);
    assert forall k :: 0 <= k < |qs| ==> qs[k] in Members(qs);
    SplitRun(config, ps, qs, a, b);
    var run := CommitRun(0, ps, a) + CommitRun(1, qs, b);
    var y := Execute(config, 2, run);
    forall v | Equivocates(y, 0, v)
      ensures v in faulty
    {
      OneNodeEach(y, p, q, a, b, v);
    }
    assert Splits(config, faulty, a, b, run);
  }
}
