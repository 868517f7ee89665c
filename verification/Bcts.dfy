/** Bailment-conditioned transaction (crates/exo-core/src/bcts.rs): a lifecycle state
    machine whose transitions form a hash-chained history. */
module Bcts {
  import opened Basics
  import Hlc

  datatype BctsState =
    | Draft | Submitted | IdentityResolved | ConsentValidated | Deliberated | Verified | Governed
    | Approved | Executed | Recorded | Closed | Denied | Escalated | Remediated

  function ValidTransitions(s: BctsState): seq<BctsState> {
    match s
    case Draft => [Submitted]
    case Submitted => [IdentityResolved, Denied]
    case IdentityResolved => [ConsentValidated, Denied]
    case ConsentValidated => [Deliberated, Denied]
    case Deliberated => [Verified, Denied, Escalated]
    case Verified => [Governed, Denied, Escalated]
    case Governed => [Approved, Denied, Escalated]
    case Approved => [Executed, Denied]
    case Executed => [Recorded, Escalated]
    case Recorded => [Closed, Escalated]
    case Closed => []
    case Denied => [Remediated]
    case Escalated => [Deliberated, Denied, Remediated]
    case Remediated => [Submitted]
  }

  predicate CanTransition(from: BctsState, to: BctsState) {
    to in ValidTransitions(from)
  }

  datatype Transition = Transition(from: BctsState, to: BctsState, timestamp: Timestamp, receiptHash: Digest, actor: Did)

  datatype ReceiptInput = ReceiptInput(from: BctsState, to: BctsState, timestamp: Timestamp, actor: Did, prevHash: Digest)

  datatype Hasher = Hasher(structured: ReceiptInput -> Digest) {
    function Receipt(input: ReceiptInput): Digest { structured(input) }
  }

  /** Receipt hashing is injective and never yields the all-zero digest. */
  ghost predicate CollisionFree(h: Hasher) {
    && (forall x, y :: h.Receipt(x) == h.Receipt(y) ==> x == y)
    && (forall x :: h.Receipt(x) != ZERO)
  }

  /** What the receipt of `t` is computed from. */
  function Input(t: Transition, prev: Digest): ReceiptInput {
    ReceiptInput(t.from, t.to, t.timestamp, t.actor, prev)
  }

  /** The receipt before transition `i`. */
  function ReceiptBefore(log: seq<Transition>, i: nat): Digest
    requires i <= |log|
  {
    if i == 0 then ZERO else log[i - 1].receiptHash
  }

  predicate Chained(h: Hasher, log: seq<Transition>) {
    forall i :: 0 <= i < |log| ==> ReceiptAt(h, log, i)
  }

  predicate ReceiptAt(h: Hasher, log: seq<Transition>, i: nat)
    requires i < |log|
  {
    log[i].receiptHash == h.Receipt(Input(log[i], ReceiptBefore(log, i)))
  }

  lemma ChainedPush(h: Hasher, log: seq<Transition>, t: Transition)
    ensures Chained(h, log + [t]) <==>
            Chained(h, log) && t.receiptHash == h.Receipt(Input(t, ReceiptBefore(log, |log|)))
  {
    var more := log + [t];
    assert forall i :: 0 <= i < |log| ==> ReceiptAt(h, more, i) == ReceiptAt(h, log, i);
    assert ReceiptAt(h, more, |log|) == (t.receiptHash == h.Receipt(Input(t, ReceiptBefore(log, |log|))));
  }

  datatype Error = InvalidTransition | ReceiptChainBroken(index: nat)

  /** What `verify_receipt_chain` accepts: every receipt recomputes, and agrees with the
      receipt chain as far as that reaches. */
  predicate ChainVerifies(h: Hasher, log: seq<Transition>, receipts: seq<Digest>) {
    Chained(h, log) && forall i :: 0 <= i < |log| && i < |receipts| ==> receipts[i] == log[i].receiptHash
  }

  /** Receipt `i` is the hash of transition `i` and of the receipt before it, and zero stands
      before the first. */
  predicate Receipted(h: Hasher, log: seq<Transition>, receipts: seq<Digest>, i: nat)
    requires i < |log| == |receipts|
  {
    var t, prev := log[i], if i == 0 then ZERO else receipts[i - 1];
    receipts[i] == t.receiptHash == h.Receipt(ReceiptInput(t.from, t.to, t.timestamp, t.actor, prev))
  }

  /** What verification demands of a log and as many receipts. */
  lemma {:induction false} VerifiesExactly(h: Hasher, log: seq<Transition>, receipts: seq<Digest>)
    requires |receipts| == |log|
    ensures ChainVerifies(h, log, receipts) <==> forall i :: 0 <= i < |log| ==> Receipted(h, log, receipts, i)
  {
    if ChainVerifies(h, log, receipts) {
      forall i | 0 <= i < |log|
        ensures Receipted(h, log, receipts, i)
      {
        assert ReceiptAt(h, log, i);
      }
    }
    if forall i :: 0 <= i < |log| ==> Receipted(h, log, receipts, i) {
      forall i | 0 <= i < |log|
        ensures ReceiptAt(h, log, i) && receipts[i] == log[i].receiptHash
      {
        assert Receipted(h, log, receipts, i);
        assert i > 0 ==> Receipted(h, log, receipts, i - 1);
      }
    }
  }

  class Transaction {
    const h: Hasher
    var state: BctsState
    var receiptChain: seq<Digest>
    var transitions: seq<Transition>

    ghost predicate Valid()
      reads this
    {
      && |receiptChain| == |transitions|
      && ChainVerifies(h, transitions, receiptChain)
      && Lifecycle(transitions, state)
    }

    constructor (hasher: Hasher)
      ensures Valid() && h == hasher && state == Draft && transitions == [] && receiptChain == []
    {
      h, state, receiptChain, transitions := hasher, Draft, [], [];
    }

    method ComputeReceipt(from: BctsState, to: BctsState, timestamp: Timestamp, actor: Did) returns (r: Digest)
      requires Valid()
      ensures r == h.Receipt(ReceiptInput(from, to, timestamp, actor, ReceiptBefore(transitions, |transitions|)))
    {
      var prev := if |receiptChain| == 0 then ZERO else receiptChain[|receiptChain| - 1];
      r := h.Receipt(ReceiptInput(from, to, timestamp, actor, prev));
    }

    /** A refused transition changes nothing, not even the clock. */
    method Advance(to: BctsState, actor: Did, clock: Hlc.HybridClock, wall: u64) returns (r: Result<Transition, Error>)
      requires Valid()
      modifies this, clock
      ensures Valid()
      ensures r.Ok? <==> CanTransition(old(state), to)
      ensures r.Err? ==> r.error == InvalidTransition && state == old(state) && transitions == old(transitions) &&
                         receiptChain == old(receiptChain) && clock.Current() == old(clock.Current())
      ensures r.Ok? ==>
        && state == to && transitions == old(transitions) + [r.value]
        && receiptChain == old(receiptChain) + [r.value.receiptHash]
        && clock.Current() == r.value.timestamp == Hlc.NowStep(old(clock.Current()), wall)
        && r.value.from == old(state) && r.value.to == to && r.value.actor == actor
      ensures BehindClock(old(transitions), old(clock.Current())) ==> BehindClock(transitions, clock.Current())
    {
      var from := state;
      if !CanTransition(from, to) {
        return Err(InvalidTransition);
      }
      var timestamp := clock.Now(wall);
      var receipt := ComputeReceipt(from, to, timestamp, actor);
      var transition := Transition(from, to, timestamp, receipt, actor);
      ChainedPush(h, transitions, transition);
      LifecyclePush(transitions, transition, to);
      StampKeepsBehind(transitions, old(clock.Current()), wall, transition);
      state := to;
      receiptChain := receiptChain + [receipt];
      transitions := transitions + [transition];
      return Ok(transition);
    }

    /** Every run of transitions passes verification. */
    method VerifyReceiptChain() returns (r: Result<(), Error>)
      ensures r.Ok? <==> ChainVerifies(h, transitions, receiptChain)
      ensures Valid() ==> r == Ok(())
    {
      var prev := ZERO;
      for i := 0 to |transitions|
        invariant prev == ReceiptBefore(transitions, i)
        invariant forall k :: 0 <= k < i ==> ReceiptAt(h, transitions, k)
        invariant forall k :: 0 <= k < i && k < |receiptChain| ==> receiptChain[k] == transitions[k].receiptHash
      {
        var t := transitions[i];
        assert ReceiptAt(h, transitions, i) <==> t.receiptHash == h.Receipt(Input(t, prev));
        var computed := h.Receipt(ReceiptInput(t.from, t.to, t.timestamp, t.actor, prev));
        if computed != t.receiptHash {
          return Err(ReceiptChainBroken(i));
        }
        if i < |receiptChain| && receiptChain[i] != computed {
          return Err(ReceiptChainBroken(i));
        }
        prev := computed;
      }
      return Ok(());
    }
  }

  // ---------------------------------------------------------------------
  // The order of timestamps
  // ---------------------------------------------------------------------

  /** Timestamps never go back. */
  predicate TimeOrdered(log: seq<Transition>) {
    forall i, j :: 0 <= i < j < |log| ==> log[i].timestamp.AtMost(log[j].timestamp)
  }

  /** The log is in time order and the clock is not behind it. */
  predicate BehindClock(log: seq<Transition>, clock: Timestamp) {
    TimeOrdered(log) && forall i :: 0 <= i < |log| ==> log[i].timestamp.AtMost(clock)
  }

  lemma {:induction false} StampKeepsBehind(log: seq<Transition>, clock: Timestamp, wall: u64, t: Transition)
    requires t.timestamp == Hlc.NowStep(clock, wall)
    ensures BehindClock(log, clock) ==> BehindClock(log + [t], t.timestamp)
  {
    Hlc.NowStrictExactly(clock, wall);
    if BehindClock(log, clock) {
      forall i | 0 <= i < |log|
        ensures log[i].timestamp.AtMost(t.timestamp)
      {
        Hlc.AtMostTransitive(log[i].timestamp, clock, t.timestamp);
      }
    }
  }

  /** Transition `i` was stamped by local event `at[i]` of clock `c` in a run of clocks. */
  ghost predicate StampedBy(log: seq<Transition>, run: seq<Hlc.Event>, at: seq<nat>, c: nat) {
    && |at| == |log|
    && (forall i :: 0 <= i < |at| ==> StampedAt(log[i], run, at[i], c))
    && (forall i, j :: 0 <= i < j < |at| ==> at[i] < at[j])
  }

  ghost predicate StampedAt(t: Transition, run: seq<Hlc.Event>, n: nat, c: nat) {
    n < |run| && run[n].Local? && run[n].clock == c && Hlc.Stamp(run, n) == Some(t.timestamp)
  }

  /** Transitions stamped by one clock, whatever else that clock does in between, never go
      back in time, and strictly advance unless the counter has reached its maximum. */
  lemma {:induction false} OneClockOrders(log: seq<Transition>, run: seq<Hlc.Event>, at: seq<nat>, c: nat)
    requires StampedBy(log, run, at, c)
    ensures TimeOrdered(log)
    ensures forall i, j :: 0 <= i < j < |log| && log[j].timestamp.logical < U32_MAX ==>
              log[i].timestamp.Before(log[j].timestamp)
  {
    forall i, j | 0 <= i < j < |log|
      ensures log[i].timestamp.AtMost(log[j].timestamp)
      ensures log[j].timestamp.logical < U32_MAX ==> log[i].timestamp.Before(log[j].timestamp)
    {
      assert StampedAt(log[i], run, at[i], c) && StampedAt(log[j], run, at[j], c);
      Hlc.SameClockOrder(run, at[i], at[j]);
    }
  }

  /** With any clock: a further transition keeps the order exactly when the clock's next
      reading is not before the last transition. */
  lemma {:induction false} StaysOrderedExactly(log: seq<Transition>, clock: Timestamp, wall: u64, t: Transition)
    requires TimeOrdered(log) && log != [] && t.timestamp == Hlc.NowStep(clock, wall)
    ensures TimeOrdered(log + [t]) <==> log[|log| - 1].timestamp.AtMost(Hlc.NowStep(clock, wall))
  {
    var more, n := log + [t], |log|;
    if log[n - 1].timestamp.AtMost(t.timestamp) {
      forall i | 0 <= i < n
        ensures more[i].timestamp.AtMost(t.timestamp)
      {
        Hlc.AtMostTransitive(log[i].timestamp, log[n - 1].timestamp, t.timestamp);
      }
    } else {
      assert more[n - 1] == log[n - 1] && more[n] == t;
    }
  }

  /** Two clocks break the order: the second transition, stamped by a fresh clock with an
      earlier wall reading, goes back in time, and the receipt chain still verifies. */
  lemma {:induction false} SecondClockGoesBack(h: Hasher, actor: Did, wall: u64, earlier: u64)
    requires earlier < wall
    ensures var s, t := Hlc.NowStep(Timestamp(0, 0), wall), Hlc.NowStep(Timestamp(0, 0), earlier);
            var a := h.Receipt(ReceiptInput(Draft, Submitted, s, actor, ZERO));
            var b := h.Receipt(ReceiptInput(Submitted, IdentityResolved, t, actor, a));
            var log := [Transition(Draft, Submitted, s, a, actor), Transition(Submitted, IdentityResolved, t, b, actor)];
            Lifecycle(log, IdentityResolved) && ChainVerifies(h, log, [a, b]) && t.Before(s) && !TimeOrdered(log)
  {
    var s, t := Hlc.NowStep(Timestamp(0, 0), wall), Hlc.NowStep(Timestamp(0, 0), earlier);
    var a := h.Receipt(ReceiptInput(Draft, Submitted, s, actor, ZERO));
    var b := h.Receipt(ReceiptInput(Submitted, IdentityResolved, t, actor, a));
    var first, second := Transition(Draft, Submitted, s, a, actor), Transition(Submitted, IdentityResolved, t, b, actor);
    assert [] + [first] == [first] && [first] + [second] == [first, second];
    ChainedPush(h, [], first);
    ChainedPush(h, [first], second);
    LifecyclePush([], first, Submitted);
    LifecyclePush([first], second, IdentityResolved);
    assert t.Before(s) && [first, second][0].timestamp == s && [first, second][1].timestamp == t;
  }

  // ---------------------------------------------------------------------
  // What the table forces on every run
  // ---------------------------------------------------------------------

  function StateBefore(log: seq<Transition>, i: nat): BctsState
    requires i <= |log|
  {
    if i == 0 then Draft else log[i - 1].to
  }

  /** `log` is a run of the lifecycle from Draft that now stands in `state`. */
  predicate Lifecycle(log: seq<Transition>, state: BctsState) {
    && (forall i :: 0 <= i < |log| ==> LegalAt(log, i))
    && state == StateBefore(log, |log|)
  }

  predicate LegalAt(log: seq<Transition>, i: nat)
    requires i < |log|
  {
    CanTransition(log[i].from, log[i].to) && log[i].from == StateBefore(log, i)
  }

  lemma LifecyclePush(log: seq<Transition>, t: Transition, state: BctsState)
    ensures Lifecycle(log + [t], state) <==>
            Lifecycle(log, t.from) && CanTransition(t.from, t.to) && state == t.to
  {
    var more := log + [t];
    assert forall i :: 0 <= i < |log| ==> LegalAt(more, i) == LegalAt(log, i);
    assert LegalAt(more, |log|) == (CanTransition(t.from, t.to) && t.from == StateBefore(log, |log|));
  }

  predicate PastConsent(s: BctsState) {
    s.Deliberated? || s.Verified? || s.Governed? || s.Approved? || s.Executed? || s.Recorded? || s.Closed? || s.Escalated?
  }

  /** Transition `i` enters Submitted, the next two resolve the identity and validate the
      consent, and nothing later enters Submitted again. */
  ghost predicate ConsentedSince(log: seq<Transition>, i: nat) {
    && i + 2 < |log|
    && log[i].to == Submitted && log[i + 1].to == IdentityResolved && log[i + 2].to == ConsentValidated
    && forall k :: i < k < |log| ==> log[k].to != Submitted
  }

  /** Which states lead to the guarded ones. */
  lemma Predecessors(from: BctsState, to: BctsState)
    requires CanTransition(from, to)
    ensures to == IdentityResolved ==> from == Submitted
    ensures to == ConsentValidated ==> from == IdentityResolved
    ensures PastConsent(to) ==> from == ConsentValidated || PastConsent(from)
  {
  }

  /** How far the submission made by transition `i` has come. */
  ghost predicate Progress(log: seq<Transition>, state: BctsState, i: nat) {
    && i < |log| && log[i].to == Submitted
    && (forall k :: i < k < |log| ==> log[k].to != Submitted)
    && (state == Submitted ==> i == |log| - 1)
    && (state == IdentityResolved ==> i == |log| - 2 && log[i + 1].to == IdentityResolved)
    && (state == ConsentValidated ==> i == |log| - 3 && ConsentedSince(log, i))
    && (PastConsent(state) ==> ConsentedSince(log, i))
  }

  lemma ProgressPush(log: seq<Transition>, t: Transition, i: nat)
    requires Progress(log, t.from, i) && t.to != Submitted
    requires t.to == IdentityResolved ==> t.from == Submitted
    requires t.to == ConsentValidated ==> t.from == IdentityResolved
    requires PastConsent(t.to) ==> t.from == ConsentValidated || PastConsent(t.from)
    ensures Progress(log + [t], t.to, i)
  {
    var more := log + [t];
    assert more[|log|] == t;
    assert forall k :: 0 <= k < |log| ==> more[k] == log[k];
  }

  lemma {:induction false} SubmissionProgress(log: seq<Transition>, state: BctsState) returns (i: nat)
    requires Lifecycle(log, state)
    requires PastConsent(state) || state in {Submitted, IdentityResolved, ConsentValidated}
    ensures Progress(log, state, i)
    decreases |log|
  {
    var n := |log| - 1;
    if state == Submitted {
      i := n;
    } else {
      assert log == log[..n] + [log[n]];
      LifecyclePush(log[..n], log[n], state);
      Predecessors(log[n].from, state);
      i := SubmissionProgress(log[..n], log[n].from);
      ProgressPush(log[..n], log[n], i);
    }
  }

  /** Any run standing in Deliberated through Closed, or in Escalated, resolved identity and
      then validated consent right after its last submission. */
  lemma ConsentBeforeDeliberation(log: seq<Transition>, state: BctsState)
    requires Lifecycle(log, state) && PastConsent(state)
    ensures exists i :: ConsentedSince(log, i)
  {
    var i := SubmissionProgress(log, state);
  }

  /** The seven last stages. */
  function Stage(k: nat): BctsState
    requires k < 7
  {
    if k == 0 then Deliberated else if k == 1 then Verified else if k == 2 then Governed else if k == 3 then Approved
    else if k == 4 then Executed else if k == 5 then Recorded else Closed
  }

  lemma OnlyPredecessor(from: BctsState, k: nat)
    requires 1 <= k < 7 && CanTransition(from, Stage(k))
    ensures from == Stage(k - 1)
  {
  }

  lemma {:induction false} StretchSoFar(log: seq<Transition>, k: nat, j: nat)
    requires j <= k < 7 && Lifecycle(log, Stage(k))
    ensures |log| > k && log[|log| - 1 - k + j].to == Stage(j)
  {
    assert Stage(k) != Draft;
    var n := |log| - 1;
    assert StateBefore(log, |log|) == log[n].to == Stage(k);
    if k > 0 {
      assert log == log[..n] + [log[n]];
      LifecyclePush(log[..n], log[n], Stage(k));
      OnlyPredecessor(log[n].from, k);
      if j < k {
        StretchSoFar(log[..n], k - 1, j);
        assert log[..n][n - k + j] == log[n - k + j];
      } else {
        StretchSoFar(log[..n], k - 1, 0);
      }
    }
  }

  /** Closed is final and is entered only through the seven stages in a row. */
  lemma ClosedOnlyThroughStretch(log: seq<Transition>)
    requires Lifecycle(log, Closed)
    ensures |log| >= 7
    ensures forall j :: 0 <= j < 7 ==> log[|log| - 7 + j].to == Stage(j)
    ensures forall s :: !CanTransition(Closed, s)
  {
    StretchSoFar(log, 6, 6);
    forall j | 0 <= j < 7
      ensures log[|log| - 7 + j].to == Stage(j)
    {
      StretchSoFar(log, 6, j);
    }
  }

  // ---------------------------------------------------------------------
  // Off the happy path
  // ---------------------------------------------------------------------

  /** From where a transaction can be denied, escalated or remediated, and what may follow an
      escalation. */
  lemma SideStates(s: BctsState)
    ensures CanTransition(s, Denied) <==>
            s in {Submitted, IdentityResolved, ConsentValidated, Deliberated, Verified, Governed, Approved, Escalated}
    ensures CanTransition(s, Escalated) <==> s in {Deliberated, Verified, Governed, Executed, Recorded}
    ensures CanTransition(s, Remediated) <==> s in {Denied, Escalated}
    ensures CanTransition(Escalated, s) <==> s in {Deliberated, Denied, Remediated}
  {
  }

  /** In every run a denial is followed by remediation and then a new submission, and by
      nothing else. */
  lemma {:induction false} DenialRestarts(log: seq<Transition>, state: BctsState, i: nat)
    requires Lifecycle(log, state) && i < |log| && log[i].to == Denied
    ensures i + 1 < |log| ==> log[i + 1].to == Remediated
    ensures i + 2 < |log| ==> log[i + 2].to == Submitted
    ensures i + 1 == |log| ==> state == Denied
  {
    if i + 1 < |log| {
      assert LegalAt(log, i + 1);
    }
    if i + 2 < |log| {
      assert LegalAt(log, i + 2);
    }
  }

  /** The step that leads towards Closed, and how many are left. */
  function Onward(s: BctsState): BctsState {
    match s
    case Draft => Submitted case Submitted => IdentityResolved case IdentityResolved => ConsentValidated
    case ConsentValidated => Deliberated case Deliberated => Verified case Verified => Governed case Governed => Approved
    case Approved => Executed case Executed => Recorded case Recorded => Closed case Closed => Closed
    case Denied => Remediated case Remediated => Submitted case Escalated => Deliberated
  }

  function Left(s: BctsState): nat {
    match s
    case Closed => 0 case Recorded => 1 case Executed => 2 case Approved => 3 case Governed => 4 case Verified => 5
    case Deliberated => 6 case ConsentValidated => 7 case Escalated => 7 case IdentityResolved => 8 case Submitted => 9
    case Draft => 10 case Remediated => 10 case Denied => 11
  }

  lemma {:induction false} OneStep(log: seq<Transition>, state: BctsState, to: BctsState) returns (t: Transition)
    requires Lifecycle(log, state) && CanTransition(state, to)
    ensures Lifecycle(log + [t], to)
  {
    t := Transition(state, to, Timestamp(0, 0), ZERO, "");
    LifecyclePush(log, t, to);
  }

  /** No run is stuck: every transaction can still be closed, within eleven steps. */
  lemma {:induction false} NeverStuck(log: seq<Transition>, state: BctsState) returns (more: seq<Transition>)
    requires Lifecycle(log, state)
    ensures Lifecycle(log + more, Closed) && |more| <= 11
    ensures |more| == Left(state)
    decreases Left(state)
  {
    if state == Closed {
      more := [];
      assert log + more == log;
    } else {
      var t := OneStep(log, state, Onward(state));
      var rest := NeverStuck(log + [t], Onward(state));
      more := [t] + rest;
      assert log + more == (log + [t]) + rest;
    }
  }

  /** Every state is reached by some run. */
  lemma {:induction false} EveryStateReachable(state: BctsState) returns (log: seq<Transition>)
    ensures Lifecycle(log, state)
    decreases if state == Remediated then 20 else if state == Denied || state == Escalated then 15 else 10 - Left(state)
  {
    if state == Draft {
      log := [];
    } else {
      var before := match state
        case Denied => Submitted case Remediated => Denied case Escalated => Deliberated
        case Submitted => Draft case IdentityResolved => Submitted case ConsentValidated => IdentityResolved
        case Deliberated => ConsentValidated case Verified => Deliberated case Governed => Verified case Approved => Governed
        case Executed => Approved case Recorded => Executed case Closed => Recorded;
      log := EveryStateReachable(before);
      var t := OneStep(log, before, state);
      log := log + [t];
    }
  }

  // ---------------------------------------------------------------------
  // The last receipt determines the history
  // ---------------------------------------------------------------------

  /** Two histories that verify and end in the same receipt are identical. */
  lemma {:induction false} ReceiptBindsHistory(h: Hasher, a: seq<Transition>, b: seq<Transition>)
    requires CollisionFree(h) && Chained(h, a) && Chained(h, b)
    requires ReceiptBefore(a, |a|) == ReceiptBefore(b, |b|)
    ensures a == b
    decreases |a|
  {
    if a != [] {
      LastReceipt(h, a);
    }
    if b != [] {
      LastReceipt(h, b);
    }
    if a != [] && b != [] {
      var m, n := |a| - 1, |b| - 1;
      assert Input(a[m], ReceiptBefore(a[..m], m)) == Input(b[n], ReceiptBefore(b[..n], n));
      ReceiptBindsHistory(h, a[..m], b[..n]);
      assert a == a[..m] + [a[m]] && b == b[..n] + [b[n]];
    }
  }

  lemma LastReceipt(h: Hasher, log: seq<Transition>)
    requires Chained(h, log) && log != []
    ensures Chained(h, log[..|log| - 1])
    ensures ReceiptBefore(log, |log|) == h.Receipt(Input(log[|log| - 1], ReceiptBefore(log[..|log| - 1], |log| - 1)))
  {
    var n := |log| - 1;
    assert log == log[..n] + [log[n]];
    ChainedPush(h, log[..n], log[n]);
  }
}
