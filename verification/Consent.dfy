/** Consent evaluation over time (crates/exo-consent/src/policy.rs, gatekeeper.rs and
    `is_active` of bailment.rs). */
module Consent {
  import opened Basics

  datatype BailmentType = Custody | Processing | Delegation | Emergency
  datatype BailmentStatus = Proposed | Active | Suspended | Terminated | Expired

  datatype Bailment = Bailment(id: string, bailor: Did, bailee: Did, kind: BailmentType,
                               expires: Option<Timestamp>, status: BailmentStatus)

  predicate IsActive(b: Bailment, now: Timestamp) {
    b.status == Active && (b.expires.Some? ==> !b.expires.value.IsExpired(now))
  }

  datatype Requirement = Requirement(actionType: string, requiredRole: string, minClearance: u32)

  datatype Policy = Policy(id: string, name: string, required: seq<Requirement>, denyByDefault: bool)

  datatype ActiveConsent = ActiveConsent(grantor: Did, actionType: string, role: string, clearance: u32, bailment: Bailment)

  datatype Reason = NoPolicy | RequirementNotMet(requirement: Requirement)

  datatype Decision = Granted(expires: Option<Timestamp>) | Denied(reason: Reason) | Escalated(to: Did)

  // ---------------------------------------------------------------------
  // The decision
  // ---------------------------------------------------------------------

  function Applicable(required: seq<Requirement>, action: string): seq<Requirement> {
    if required == [] then []
    else (if required[0].actionType == action then [required[0]] else []) + Applicable(required[1..], action)
  }

  /** Consent `c` counts towards `req` at `now`. */
  predicate Counts(c: ActiveConsent, req: Requirement, now: Timestamp) {
    && c.actionType == req.actionType && c.role == req.requiredRole && c.clearance >= req.minClearance
    && IsActive(c.bailment, now)
  }

  predicate Satisfied(consents: seq<ActiveConsent>, req: Requirement, now: Timestamp) {
    exists i :: 0 <= i < |consents| && Counts(consents[i], req, now)
  }

  predicate Escalates(c: ActiveConsent, req: Requirement, now: Timestamp) {
    c.actionType == req.actionType && c.bailment.kind == Delegation && IsActive(c.bailment, now)
  }

  /** The decision on an unmet requirement: the first delegation bailment escalates. */
  function Unmet(consents: seq<ActiveConsent>, req: Requirement, now: Timestamp): Decision {
    if consents == [] then Denied(RequirementNotMet(req))
    else if Escalates(consents[0], req, now) then Escalated(consents[0].bailment.bailor)
    else Unmet(consents[1..], req, now)
  }

  function Earlier(a: Option<Timestamp>, b: Timestamp): Option<Timestamp> {
    if a.None? || b.Before(a.value) then Some(b) else a
  }

  /** `acc` lowered by the expiries of the consents that count. */
  function Earliest(consents: seq<ActiveConsent>, req: Requirement, now: Timestamp, acc: Option<Timestamp>): Option<Timestamp>
    decreases |consents|
  {
    if consents == [] then acc
    else
      var c := consents[0];
      var next := if Counts(c, req, now) && c.bailment.expires.Some? then Earlier(acc, c.bailment.expires.value) else acc;
      Earliest(consents[1..], req, now, next)
  }

  function Decide(reqs: seq<Requirement>, consents: seq<ActiveConsent>, now: Timestamp, acc: Option<Timestamp>): Decision
    decreases |reqs|
  {
    if reqs == [] then Granted(acc)
    else if !Satisfied(consents, reqs[0], now) then Unmet(consents, reqs[0], now)
    else Decide(reqs[1..], consents, now, Earliest(consents, reqs[0], now, acc))
  }

  function Evaluate(policy: Policy, consents: seq<ActiveConsent>, action: string, now: Timestamp): Decision {
    var reqs := Applicable(policy.required, action);
    if reqs == [] then (if policy.denyByDefault then Denied(NoPolicy) else Granted(None))
    else Decide(reqs, consents, now, None)
  }

  /** The loops of `PolicyEngine::evaluate`. */
  method RunPolicy(policy: Policy, consents: seq<ActiveConsent>, action: string, now: Timestamp) returns (d: Decision)
    ensures d == Evaluate(policy, consents, action, now)
  {
    var applicable := Applicable(policy.required, action);
    if |applicable| == 0 {
      return if policy.denyByDefault then Denied(NoPolicy) else Granted(None);
    }
    var earliest: Option<Timestamp> := None;
    for r := 0 to |applicable|
      invariant Decide(applicable[r..], consents, now, earliest) == Decide(applicable, consents, now, None)
    {
      var req := applicable[r];
      assert applicable[r..][0] == req && applicable[r..][1..] == applicable[r + 1..];
      if !Satisfied(consents, req, now) {
        for i := 0 to |consents|
          invariant Unmet(consents[i..], req, now) == Unmet(consents, req, now)
        {
          assert consents[i..][1..] == consents[i + 1..];
          if Escalates(consents[i], req, now) {
            return Escalated(consents[i].bailment.bailor);
          }
        }
        return Denied(RequirementNotMet(req));
      }
      ghost var before := earliest;
      for i := 0 to |consents|
        invariant Earliest(consents[i..], req, now, earliest) == Earliest(consents, req, now, before)
      {
        var c := consents[i];
        assert consents[i..][0] == c && consents[i..][1..] == consents[i + 1..];
        if Counts(c, req, now) && c.bailment.expires.Some? {
          var exp := c.bailment.expires.value;
          earliest := match earliest
            case Some(cur) => if exp.Before(cur) then Some(exp) else Some(cur)
            case None => Some(exp);
        }
      }
    }
    return Granted(earliest);
  }

  // ---------------------------------------------------------------------
  // The gate
  // ---------------------------------------------------------------------

  datatype ConsentReg = ConsentReg(actionType: string, role: string, clearance: u32, bailment: Bailment)

  function AsConsent(r: ConsentReg): ActiveConsent {
    ActiveConsent(r.bailment.bailor, r.actionType, r.role, r.clearance, r.bailment)
  }

  function AsConsents(regs: seq<ConsentReg>): (r: seq<ActiveConsent>)
    ensures |r| == |regs| && forall i :: 0 <= i < |regs| ==> r[i] == AsConsent(regs[i])
  {
    seq(|regs|, i requires 0 <= i < |regs| => AsConsent(regs[i]))
  }

  /** The consents whose bailment is active at `now`, in order. */
  function ActiveOnly(consents: seq<ActiveConsent>, now: Timestamp): seq<ActiveConsent> {
    if consents == [] then []
    else (if IsActive(consents[0].bailment, now) then [consents[0]] else []) + ActiveOnly(consents[1..], now)
  }

  function Check(policy: Policy, regs: seq<ConsentReg>, action: string, now: Timestamp): Decision {
    Evaluate(policy, ActiveOnly(AsConsents(regs), now), action, now)
  }

  function Without(regs: seq<ConsentReg>, bailmentId: string): (r: seq<ConsentReg>)
    ensures forall x :: x in r <==> x in regs && x.bailment.id != bailmentId
  {
    if regs == [] then []
    else (if regs[0].bailment.id != bailmentId then [regs[0]] else []) + Without(regs[1..], bailmentId)
  }

  class ConsentGate {
    var policy: Policy
    var consents: map<Did, seq<ConsentReg>>

    constructor (p: Policy)
      ensures policy == p && consents == map[]
    {
      policy, consents := p, map[];
    }

    function Regs(actor: Did): seq<ConsentReg>
      reads this
    {
      if actor in consents then consents[actor] else []
    }

    method RegisterConsent(actor: Did, actionType: string, role: string, clearance: u32, bailment: Bailment)
      modifies this
      ensures policy == old(policy)
      ensures Regs(actor) == old(Regs(actor)) + [ConsentReg(actionType, role, clearance, bailment)]
      ensures forall d :: d != actor ==> Regs(d) == old(Regs(d))
    {
      consents := consents[actor := Regs(actor) + [ConsentReg(actionType, role, clearance, bailment)]];
    }

    /** Every consent backed by the bailment disappears, for every actor, and no other. */
    method RevokeByBailmentId(bailmentId: string)
      modifies this
      ensures policy == old(policy)
      ensures forall d :: Regs(d) == Without(old(Regs(d)), bailmentId)
    {
      consents := map d | d in consents :: Without(consents[d], bailmentId);
    }

    method CheckConsent(actor: Did, action: string, now: Timestamp) returns (d: Decision)
      ensures d == Check(policy, Regs(actor), action, now)
    {
      var active := ActiveOnly(AsConsents(Regs(actor)), now);
      d := RunPolicy(policy, active, action, now);
    }

    method SetPolicy(p: Policy)
      modifies this
      ensures policy == p && consents == old(consents)
    {
      policy := p;
    }
  }

  // ---------------------------------------------------------------------
  // Filtering first changes nothing
  // ---------------------------------------------------------------------

  lemma {:induction false} ActiveOnlyMembers(cs: seq<ActiveConsent>, now: Timestamp)
    ensures forall c :: c in ActiveOnly(cs, now) <==> c in cs && IsActive(c.bailment, now)
  {
    if cs != [] {
      ActiveOnlyMembers(cs[1..], now);
    }
  }

  lemma SatisfiedMembers(cs: seq<ActiveConsent>, req: Requirement, now: Timestamp)
    ensures Satisfied(cs, req, now) <==> exists c :: c in cs && Counts(c, req, now)
  {
  }

  lemma FilterSatisfied(cs: seq<ActiveConsent>, req: Requirement, now: Timestamp)
    ensures Satisfied(ActiveOnly(cs, now), req, now) == Satisfied(cs, req, now)
  {
    ActiveOnlyMembers(cs, now);
    SatisfiedMembers(cs, req, now);
    SatisfiedMembers(ActiveOnly(cs, now), req, now);
  }

  lemma {:induction false} FilterUnmet(cs: seq<ActiveConsent>, req: Requirement, now: Timestamp)
    ensures Unmet(ActiveOnly(cs, now), req, now) == Unmet(cs, req, now)
  {
    if cs != [] {
      FilterUnmet(cs[1..], req, now);
      if IsActive(cs[0].bailment, now) {
        assert ActiveOnly(cs, now)[1..] == ActiveOnly(cs[1..], now);
      } else {
        assert ActiveOnly(cs, now) == ActiveOnly(cs[1..], now);
      }
    }
  }

  lemma {:induction false} FilterEarliest(cs: seq<ActiveConsent>, req: Requirement, now: Timestamp, acc: Option<Timestamp>)
    ensures Earliest(ActiveOnly(cs, now), req, now, acc) == Earliest(cs, req, now, acc)
    decreases |cs|
  {
    if cs != [] {
      var c := cs[0];
      var next := if Counts(c, req, now) && c.bailment.expires.Some? then Earlier(acc, c.bailment.expires.value) else acc;
      FilterEarliest(cs[1..], req, now, next);
      if IsActive(c.bailment, now) {
        assert ActiveOnly(cs, now)[1..] == ActiveOnly(cs[1..], now);
      } else {
        assert ActiveOnly(cs, now) == ActiveOnly(cs[1..], now);
      }
    }
  }

  lemma {:induction false} FilterDecide(reqs: seq<Requirement>, cs: seq<ActiveConsent>, now: Timestamp, acc: Option<Timestamp>)
    ensures Decide(reqs, ActiveOnly(cs, now), now, acc) == Decide(reqs, cs, now, acc)
    decreases |reqs|
  {
    if reqs != [] {
      FilterSatisfied(cs, reqs[0], now);
      FilterUnmet(cs, reqs[0], now);
      FilterEarliest(cs, reqs[0], now, acc);
      FilterDecide(reqs[1..], cs, now, Earliest(cs, reqs[0], now, acc));
    }
  }

  /** Removing inactive consents before evaluation never changes the decision. */
  lemma PrefilterIrrelevant(policy: Policy, cs: seq<ActiveConsent>, action: string, now: Timestamp)
    ensures Evaluate(policy, ActiveOnly(cs, now), action, now) == Evaluate(policy, cs, action, now)
  {
    FilterDecide(Applicable(policy.required, action), cs, now, None);
  }

  // ---------------------------------------------------------------------
  // The reported expiry is the minimum
  // ---------------------------------------------------------------------

  /** `e` is an expiry of a consent that counts for one of the requirements. */
  ghost predicate IsExpiry(reqs: seq<Requirement>, cs: seq<ActiveConsent>, now: Timestamp, e: Timestamp) {
    exists c, req :: c in cs && req in reqs && Counts(c, req, now) && c.bailment.expires == Some(e)
  }

  /** `r` is the least of `acc` and the expiries of `cs` that count for `req`. */
  lemma {:induction false} EarliestIsLeast(cs: seq<ActiveConsent>, req: Requirement, now: Timestamp, acc: Option<Timestamp>)
    ensures var r := Earliest(cs, req, now, acc);
            && (r.None? ==> acc.None?)
            && (acc.Some? ==> r.Some? && r.value.AtMost(acc.value))
            && (forall c :: c in cs && Counts(c, req, now) && c.bailment.expires.Some? ==>
                  r.Some? && r.value.AtMost(c.bailment.expires.value))
            && (r.Some? ==> r == acc || IsExpiry([req], cs, now, r.value))
    decreases |cs|
  {
    if cs != [] {
      var c := cs[0];
      var next := if Counts(c, req, now) && c.bailment.expires.Some? then Earlier(acc, c.bailment.expires.value) else acc;
      EarliestIsLeast(cs[1..], req, now, next);
      var r := Earliest(cs, req, now, acc);
      if r.Some? && r != acc {
        if r == next {
          assert c in cs && req in [req] && Counts(c, req, now);
        } else {
          var d, q :| d in cs[1..] && q in [req] && Counts(d, q, now) && d.bailment.expires == Some(r.value);
          assert d in cs;
        }
      }
    }
  }

  /** A grant: every requirement is satisfied and the reported expiry is the earliest expiry
      of all consents that count. */
  lemma {:induction false} GrantMeans(reqs: seq<Requirement>, cs: seq<ActiveConsent>, now: Timestamp, acc: Option<Timestamp>)
    ensures Decide(reqs, cs, now, acc).Granted? <==> forall q :: q in reqs ==> Satisfied(cs, q, now)
    ensures Decide(reqs, cs, now, acc).Granted? ==>
      var r := Decide(reqs, cs, now, acc).expires;
      && (acc.Some? ==> r.Some? && r.value.AtMost(acc.value))
      && (forall c, q :: c in cs && q in reqs && Counts(c, q, now) && c.bailment.expires.Some? ==>
            r.Some? && r.value.AtMost(c.bailment.expires.value))
      && (r.Some? ==> r == acc || IsExpiry(reqs, cs, now, r.value))
    decreases |reqs|
  {
    if reqs != [] {
      var next := Earliest(cs, reqs[0], now, acc);
      assert forall q :: q in reqs <==> q == reqs[0] || q in reqs[1..];
      UnmetIsNoGrant(cs, reqs[0], now);
      EarliestIsLeast(cs, reqs[0], now, acc);
      GrantMeans(reqs[1..], cs, now, next);
    }
  }

  lemma {:induction false} UnmetIsNoGrant(cs: seq<ActiveConsent>, req: Requirement, now: Timestamp)
    ensures !Unmet(cs, req, now).Granted?
  {
    if cs != [] {
      UnmetIsNoGrant(cs[1..], req, now);
    }
  }

  /** The answer on an unmet requirement: the bailor of the first active delegation consent
      for the action, or a denial when there is none. */
  lemma {:induction false} UnmetMeans(cs: seq<ActiveConsent>, req: Requirement, now: Timestamp, i: nat)
    requires i <= |cs| && forall j :: 0 <= j < i ==> !Escalates(cs[j], req, now)
    ensures i < |cs| && Escalates(cs[i], req, now) ==> Unmet(cs, req, now) == Escalated(cs[i].bailment.bailor)
    ensures i == |cs| ==> Unmet(cs, req, now) == Denied(RequirementNotMet(req))
    decreases i
  {
    if i > 0 {
      UnmetMeans(cs[1..], req, now, i - 1);
    }
  }

  /** Without a grant, the first unmet requirement gives the answer. */
  lemma {:induction false} FirstUnmetDecides(reqs: seq<Requirement>, cs: seq<ActiveConsent>, now: Timestamp, acc: Option<Timestamp>, k: nat)
    requires k < |reqs| && !Satisfied(cs, reqs[k], now)
    requires forall i :: 0 <= i < k ==> Satisfied(cs, reqs[i], now)
    ensures Decide(reqs, cs, now, acc) == Unmet(cs, reqs[k], now)
    decreases |reqs|
  {
    if k > 0 {
      FirstUnmetDecides(reqs[1..], cs, now, Earliest(cs, reqs[0], now, acc), k - 1);
    }
  }

  // ---------------------------------------------------------------------
  // The gate, in terms of the registered fields
  // ---------------------------------------------------------------------

  lemma {:induction false} ApplicableMembers(required: seq<Requirement>, action: string)
    ensures forall q :: q in Applicable(required, action) <==> q in required && q.actionType == action
  {
    if required != [] {
      ApplicableMembers(required[1..], action);
      assert forall q :: q in required <==> q == required[0] || q in required[1..];
    }
  }

  /** A registration lets requirement `q` pass exactly when its bailment is active and
      unexpired, the action and role are the same and the clearance suffices. */
  lemma {:induction false} SatisfiedMeans(regs: seq<ConsentReg>, q: Requirement, now: Timestamp)
    ensures Satisfied(AsConsents(regs), q, now) <==>
            exists g :: g in regs && g.bailment.status == Active
              && (g.bailment.expires.Some? ==> now.Before(g.bailment.expires.value))
              && g.actionType == q.actionType && g.role == q.requiredRole && g.clearance >= q.minClearance
  {
    var cs := AsConsents(regs);
    forall g | g in regs
      ensures AsConsent(g) in cs
    {
      var i :| 0 <= i < |regs| && regs[i] == g;
      assert cs[i] == AsConsent(g);
    }
    if exists g :: g in regs && Counts(AsConsent(g), q, now) {
      var g :| g in regs && Counts(AsConsent(g), q, now);
      assert AsConsent(g) in cs;
    }
    if Satisfied(cs, q, now) {
      var i :| 0 <= i < |cs| && Counts(cs[i], q, now);
      assert regs[i] in regs && Counts(AsConsent(regs[i]), q, now);
    }
  }

  /** Who passes the gate. Without an applicable requirement the policy's default decides;
      otherwise every requirement for the action needs a registration that meets it. */
  lemma {:induction false} GateGrantsExactly(policy: Policy, regs: seq<ConsentReg>, action: string, now: Timestamp)
    ensures (forall q :: q in policy.required ==> q.actionType != action) ==>
              Check(policy, regs, action, now) == if policy.denyByDefault then Denied(NoPolicy) else Granted(None)
    ensures (exists q :: q in policy.required && q.actionType == action) ==>
              (Check(policy, regs, action, now).Granted? <==>
               forall q :: q in policy.required && q.actionType == action ==>
                 exists g :: g in regs && g.bailment.status == Active
                   && (g.bailment.expires.Some? ==> now.Before(g.bailment.expires.value))
                   && g.actionType == action && g.role == q.requiredRole && g.clearance >= q.minClearance)
  {
    var reqs := Applicable(policy.required, action);
    PrefilterIrrelevant(policy, AsConsents(regs), action, now);
    ApplicableMembers(policy.required, action);
    if reqs == [] {
      assert forall q :: q in policy.required && q.actionType == action ==> q in reqs;
    } else {
      assert reqs[0] in reqs;
      GrantMeans(reqs, AsConsents(regs), now, None);
      forall q: Requirement { SatisfiedMeans(regs, q, now); }
    }
  }

  /** Registration `i` delegates the action: an active, unexpired delegation bailment. */
  ghost predicate Delegates(g: ConsentReg, action: string, now: Timestamp) {
    && g.actionType == action && g.bailment.kind == Delegation && g.bailment.status == Active
    && (g.bailment.expires.Some? ==> now.Before(g.bailment.expires.value))
  }

  /** What the gate answers when some requirement for the action is not met: escalation to the
      bailor of the first registration that delegates the action, or a denial naming an
      unmet requirement. */
  lemma {:induction false} GateRefusesExactly(policy: Policy, regs: seq<ConsentReg>, action: string, now: Timestamp, i: nat)
    requires exists q :: q in policy.required && q.actionType == action
    requires !Check(policy, regs, action, now).Granted?
    requires i <= |regs| && forall j :: 0 <= j < i ==> !Delegates(regs[j], action, now)
    ensures i < |regs| && Delegates(regs[i], action, now) ==>
              Check(policy, regs, action, now) == Escalated(regs[i].bailment.bailor)
    ensures i == |regs| ==>
              exists q :: q in policy.required && q.actionType == action && !Satisfied(AsConsents(regs), q, now)
                && Check(policy, regs, action, now) == Denied(RequirementNotMet(q))
  {
    var reqs, cs := Applicable(policy.required, action), AsConsents(regs);
    PrefilterIrrelevant(policy, cs, action, now);
    ApplicableMembers(policy.required, action);
    assert reqs != [];
    GrantMeans(reqs, cs, now, None);
    var k := FirstUnmet(reqs, cs, now);
    FirstUnmetDecides(reqs, cs, now, None, k);
    assert reqs[k] in reqs;
    UnmetMeans(cs, reqs[k], now, i);
  }

  lemma {:induction false} FirstUnmet(reqs: seq<Requirement>, cs: seq<ActiveConsent>, now: Timestamp) returns (k: nat)
    requires exists q :: q in reqs && !Satisfied(cs, q, now)
    ensures k < |reqs| && !Satisfied(cs, reqs[k], now) && forall i :: 0 <= i < k ==> Satisfied(cs, reqs[i], now)
  {
    if Satisfied(cs, reqs[0], now) {
      k := FirstUnmet(reqs[1..], cs, now);
      k := k + 1;
    } else {
      k := 0;
    }
  }

  // ---------------------------------------------------------------------
  // Over time
  // ---------------------------------------------------------------------

  /** Bailments never become active by waiting. */
  lemma ActiveBackwards(b: Bailment, now: Timestamp, later: Timestamp)
    requires now.AtMost(later) && IsActive(b, later)
    ensures IsActive(b, now)
  {
  }

  /** If the same consents count at both times, a grant is the same grant. */
  lemma {:induction false} SameCounts(reqs: seq<Requirement>, cs: seq<ActiveConsent>, now: Timestamp, later: Timestamp, acc: Option<Timestamp>)
    requires forall c, q :: c in cs && q in reqs ==> (Counts(c, q, now) <==> Counts(c, q, later))
    requires Decide(reqs, cs, now, acc).Granted?
    ensures Decide(reqs, cs, later, acc) == Decide(reqs, cs, now, acc)
    decreases |reqs|
  {
    if reqs != [] {
      var q := reqs[0];
      UnmetIsNoGrant(cs, q, now);
      SatisfiedMembers(cs, q, now);
      SatisfiedMembers(cs, q, later);
      SameEarliest(cs, q, now, later, acc);
      SameCounts(reqs[1..], cs, now, later, Earliest(cs, q, now, acc));
    }
  }

  lemma {:induction false} SameEarliest(cs: seq<ActiveConsent>, req: Requirement, now: Timestamp, later: Timestamp, acc: Option<Timestamp>)
    requires forall c :: c in cs ==> (Counts(c, req, now) <==> Counts(c, req, later))
    ensures Earliest(cs, req, later, acc) == Earliest(cs, req, now, acc)
    decreases |cs|
  {
    if cs != [] {
      var c := cs[0];
      var next := if Counts(c, req, now) && c.bailment.expires.Some? then Earlier(acc, c.bailment.expires.value) else acc;
      SameEarliest(cs[1..], req, now, later, next);
    }
  }

  /** Before its expiry a grant is kept. */
  lemma KeptBefore(reqs: seq<Requirement>, cs: seq<ActiveConsent>, now: Timestamp, later: Timestamp)
    requires now.AtMost(later) && Decide(reqs, cs, now, None).Granted?
    requires var e := Decide(reqs, cs, now, None).expires; e.None? || later.Before(e.value)
    ensures Decide(reqs, cs, later, None) == Decide(reqs, cs, now, None)
  {
    GrantMeans(reqs, cs, now, None);
    forall c, q | c in cs && q in reqs
      ensures Counts(c, q, now) <==> Counts(c, q, later)
    {
      if Counts(c, q, later) {
        ActiveBackwards(c.bailment, now, later);
      }
    }
    SameCounts(reqs, cs, now, later, None);
  }

  /** No answer promises an expiry that has already passed. */
  lemma ExpiryIsAhead(reqs: seq<Requirement>, cs: seq<ActiveConsent>, now: Timestamp)
    requires Decide(reqs, cs, now, None).Granted? && Decide(reqs, cs, now, None).expires.Some?
    ensures now.Before(Decide(reqs, cs, now, None).expires.value)
  {
    GrantMeans(reqs, cs, now, None);
    var e := Decide(reqs, cs, now, None).expires.value;
    var c, q :| c in cs && q in reqs && Counts(c, q, now) && c.bailment.expires == Some(e);
    assert !e.IsExpired(now);
  }

  /** The promise of a grant, exactly: from the time of the decision on, the same answer is
      given at precisely the instants before the reported expiry; always, if there is none. */
  lemma ExpiryIsExact(policy: Policy, regs: seq<ConsentReg>, action: string, now: Timestamp, later: Timestamp)
    requires now.AtMost(later) && Check(policy, regs, action, now).Granted?
    ensures var d := Check(policy, regs, action, now);
            Check(policy, regs, action, later) == d <==> d.expires.None? || later.Before(d.expires.value)
  {
    var cs, reqs := AsConsents(regs), Applicable(policy.required, action);
    PrefilterIrrelevant(policy, cs, action, now);
    PrefilterIrrelevant(policy, cs, action, later);
    if reqs != [] {
      var d := Decide(reqs, cs, now, None);
      if d.expires.None? || later.Before(d.expires.value) {
        KeptBefore(reqs, cs, now, later);
      } else if Decide(reqs, cs, later, None) == d {
        ExpiryIsAhead(reqs, cs, later);
        assert false;
      }
    }
  }

  /** Waiting never turns a refusal or an escalation into a grant. */
  lemma NoLateGrant(policy: Policy, regs: seq<ConsentReg>, action: string, now: Timestamp, later: Timestamp)
    requires now.AtMost(later) && Check(policy, regs, action, later).Granted?
    ensures Check(policy, regs, action, now).Granted?
  {
    var cs, reqs := AsConsents(regs), Applicable(policy.required, action);
    PrefilterIrrelevant(policy, cs, action, now);
    PrefilterIrrelevant(policy, cs, action, later);
    GrantMeans(reqs, cs, now, None);
    GrantMeans(reqs, cs, later, None);
    forall q | q in reqs && reqs != []
      ensures Satisfied(cs, q, now)
    {
      var i :| 0 <= i < |cs| && Counts(cs[i], q, later);
      ActiveBackwards(cs[i].bailment, now, later);
    }
  }

  /** Revoking a bailment never turns another answer into a grant, and a grant that survives
      expires no earlier than before. */
  lemma RevocationNeverGrants(policy: Policy, regs: seq<ConsentReg>, bailmentId: string, action: string, now: Timestamp)
    requires Check(policy, Without(regs, bailmentId), action, now).Granted?
    ensures var before, after := Check(policy, regs, action, now), Check(policy, Without(regs, bailmentId), action, now);
            && before.Granted?
            && (after.expires.Some? ==> before.expires.Some? && before.expires.value.AtMost(after.expires.value))
  {
    var cs, ds, reqs := AsConsents(regs), AsConsents(Without(regs, bailmentId)), Applicable(policy.required, action);
    PrefilterIrrelevant(policy, cs, action, now);
    PrefilterIrrelevant(policy, ds, action, now);
    GrantMeans(reqs, cs, now, None);
    GrantMeans(reqs, ds, now, None);
    forall c | c in ds
      ensures c in cs
    {
      var i :| 0 <= i < |ds| && ds[i] == c;
      assert Without(regs, bailmentId)[i] in regs;
      var j :| 0 <= j < |regs| && regs[j] == Without(regs, bailmentId)[i];
      assert cs[j] == c;
    }
    forall q | q in reqs && reqs != []
      ensures Satisfied(cs, q, now)
    {
      SatisfiedMembers(cs, q, now);
      SatisfiedMembers(ds, q, now);
    }
  }
}
