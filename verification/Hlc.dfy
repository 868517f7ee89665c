/** Hybrid logical clock (crates/exo-core/src/hlc.rs). A wall-clock reading is a
    parameter of each operation. */
module Hlc {
  import opened Basics

  const MAX_DRIFT_MS: u64 := 60_000

  datatype ClockError = ClockDrift

  function Succ(n: u32): u32 {
    if n == U32_MAX then U32_MAX else n + 1
  }

  function MaxLogical(a: u32, b: u32): u32 {
    if a >= b then a else b
  }

  /** `wall.saturating_add(MAX_DRIFT_MS)`. */
  function Horizon(wall: u64): u64 {
    if wall + MAX_DRIFT_MS > U64_MAX then U64_MAX else wall + MAX_DRIFT_MS
  }

  function NowStep(c: Timestamp, wall: u64): Timestamp {
    if wall > c.physicalMs then Timestamp(wall, 0) else Timestamp(c.physicalMs, Succ(c.logical))
  }

  function UpdateStep(c: Timestamp, wall: u64, remote: Timestamp): Result<Timestamp, ClockError> {
    if remote.physicalMs > Horizon(wall) then Err(ClockDrift)
    else if wall > c.physicalMs && wall > remote.physicalMs then Ok(Timestamp(wall, 0))
    else if c.physicalMs == remote.physicalMs then
      Ok(Timestamp(c.physicalMs, Succ(MaxLogical(c.logical, remote.logical))))
    else if remote.physicalMs > c.physicalMs then Ok(Timestamp(remote.physicalMs, Succ(remote.logical)))
    else Ok(Timestamp(c.physicalMs, Succ(c.logical)))
  }

  class HybridClock {
    var physical: u64
    var logical: u32

    function Current(): Timestamp
      reads this
    {
      Timestamp(physical, logical)
    }

    constructor ()
      ensures Current() == Timestamp(0, 0)
    {
      physical, logical := 0, 0;
    }

    method Now(wall: u64) returns (t: Timestamp)
      modifies this
      ensures t == Current() == NowStep(old(Current()), wall)
    {
      if wall > physical {
        physical := wall;
        logical := 0;
      } else {
        logical := Succ(logical);
      }
      t := Timestamp(physical, logical);
    }

    /** A remote timestamp beyond the drift horizon is refused and changes nothing. */
    method Update(wall: u64, remote: Timestamp) returns (r: Result<Timestamp, ClockError>)
      modifies this
      ensures r == UpdateStep(old(Current()), wall, remote)
      ensures r.Ok? ==> Current() == r.value
      ensures r.Err? ==> Current() == old(Current())
      ensures r.Err? <==> remote.physicalMs > wall + MAX_DRIFT_MS
    {
      if remote.physicalMs > Horizon(wall) {
        return Err(ClockDrift);
      }
      if wall > physical && wall > remote.physicalMs {
        physical := wall;
        logical := 0;
      } else if physical == remote.physicalMs {
        logical := Succ(MaxLogical(logical, remote.logical));
      } else if remote.physicalMs > physical {
        physical := remote.physicalMs;
        logical := Succ(remote.logical);
      } else {
        logical := Succ(logical);
      }
      return Ok(Timestamp(physical, logical));
    }
  }

  // ---------------------------------------------------------------------
  // When the documented strictness holds
  // ---------------------------------------------------------------------

  /** `now` is documented to exceed every earlier timestamp of the clock. It does exactly
      when the wall clock has advanced or the counter is not at its maximum. */
  lemma NowStrictExactly(c: Timestamp, wall: u64)
    ensures c.AtMost(NowStep(c, wall))
    ensures c.Before(NowStep(c, wall)) <==> wall > c.physicalMs || c.logical < U32_MAX
  {
  }

  /** The counter that an accepted `update` advances is at its maximum. */
  predicate Saturated(c: Timestamp, wall: u64, remote: Timestamp) {
    && !(wall > c.physicalMs && wall > remote.physicalMs)
    && (|| (c.physicalMs >= remote.physicalMs && c.logical == U32_MAX)
        || (remote.physicalMs >= c.physicalMs && remote.logical == U32_MAX))
  }

  /** `update` is documented to exceed the local and the remote time. An accepted one does
      exactly when the counter it advances is not at its maximum. */
  lemma UpdateStrictExactly(c: Timestamp, wall: u64, remote: Timestamp)
    requires UpdateStep(c, wall, remote).Ok?
    ensures var t := UpdateStep(c, wall, remote).value;
            && c.AtMost(t) && remote.AtMost(t)
            && (c.Before(t) && remote.Before(t) <==> !Saturated(c, wall, remote))
  {
  }

  // ---------------------------------------------------------------------
  // The clock follows the wall
  // ---------------------------------------------------------------------

  /** `t` is a correct answer: not behind the wall, and after every given timestamp. */
  predicate Follows(t: Timestamp, wall: u64, seen: seq<Timestamp>) {
    t.physicalMs >= wall && forall i :: 0 <= i < |seen| ==> seen[i].Before(t)
  }

  /** `now` yields the least correct answer, or stays at the full counter. */
  lemma NowIsLeast(c: Timestamp, wall: u64)
    ensures var t := NowStep(c, wall);
            && t.physicalMs == (if wall > c.physicalMs then wall else c.physicalMs)
            && (c.Before(t) ==> Follows(t, wall, [c]) && forall u :: Follows(u, wall, [c]) ==> t.AtMost(u))
            && (!c.Before(t) ==> t == c && c.logical == U32_MAX)
  {
    assert forall u :: Follows(u, wall, [c]) ==> [c][0].Before(u);
  }

  /** An accepted `update` yields the least correct answer, or stays at the full counter of
      the later of the two times. */
  lemma UpdateIsLeast(c: Timestamp, wall: u64, remote: Timestamp)
    requires UpdateStep(c, wall, remote).Ok?
    ensures var t := UpdateStep(c, wall, remote).value;
            && (t.physicalMs == wall || t.physicalMs == c.physicalMs || t.physicalMs == remote.physicalMs)
            && t.physicalMs >= wall && t.physicalMs >= c.physicalMs && t.physicalMs >= remote.physicalMs
            && (!Saturated(c, wall, remote) ==>
                 Follows(t, wall, [c, remote]) && forall u :: Follows(u, wall, [c, remote]) ==> t.AtMost(u))
            && (Saturated(c, wall, remote) ==> t.logical == U32_MAX)
  {
    var t := UpdateStep(c, wall, remote).value;
    assert forall u :: Follows(u, wall, [c, remote]) ==> [c, remote][0].Before(u) && [c, remote][1].Before(u);
    UpdateStrictExactly(c, wall, remote);
  }

  // ---------------------------------------------------------------------
  // Every run of a network of clocks
  // ---------------------------------------------------------------------

  /** One event at clock `clock`: a local timestamp, the receipt of the timestamp of
      event `from`, or the receipt of a timestamp from outside the network. */
  datatype Event =
    | Local(clock: nat, wall: u64)
    | Receive(clock: nat, wall: u64, from: nat)
    | Foreign(clock: nat, wall: u64, remote: Timestamp)

  /** State of clock `c` before event `n`. */
  function ClockAt(run: seq<Event>, n: nat, c: nat): Timestamp
    requires n <= |run|
    decreases n, 0
  {
    if n == 0 then Timestamp(0, 0)
    else if run[n - 1].clock != c then ClockAt(run, n - 1, c)
    else match Stamp(run, n - 1)
      case Some(t) => t
      case None => ClockAt(run, n - 1, c)
  }

  /** The timestamp event `n` yields, unless its update is refused. */
  function Stamp(run: seq<Event>, n: nat): Option<Timestamp>
    requires n < |run|
    decreases n, 1
  {
    var c := ClockAt(run, n, run[n].clock);
    match run[n]
    case Local(_, wall) => Some(NowStep(c, wall))
    case Foreign(_, wall, remote) => Accepted(UpdateStep(c, wall, remote))
    case Receive(_, wall, from) =>
      if from < n && Stamp(run, from).Some? then Accepted(UpdateStep(c, wall, Stamp(run, from).value)) else None
  }

  function Accepted(r: Result<Timestamp, ClockError>): Option<Timestamp> {
    match r case Ok(t) => Some(t) case Err(_) => None
  }

  /** Happened-before in one step: same clock, or message sent and received. */
  predicate Precedes(run: seq<Event>, i: nat, j: nat) {
    && i < j < |run| && Stamp(run, i).Some? && Stamp(run, j).Some?
    && (run[i].clock == run[j].clock || (run[j].Receive? && run[j].from == i))
  }

  /** A happened-before chain: every event directly precedes the next. */
  predicate Chain(run: seq<Event>, chain: seq<nat>) {
    && |chain| >= 2
    && (forall k :: 0 <= k < |chain| ==> chain[k] < |run| && Stamp(run, chain[k]).Some?)
    && (forall k :: 0 <= k < |chain| - 1 ==> Precedes(run, chain[k], chain[k + 1]))
  }

  lemma AtMostTransitive(a: Timestamp, b: Timestamp, c: Timestamp)
    requires a.AtMost(b) && b.AtMost(c)
    ensures a.AtMost(c)
    ensures a.Before(b) || b.Before(c) ==> a.Before(c)
  {
  }

  /** An event never moves its clock back, and moves it forward unless its own counter
      ends at the maximum. */
  lemma {:induction false} StampAfterClock(run: seq<Event>, n: nat)
    requires n < |run| && Stamp(run, n).Some?
    ensures var c, t := ClockAt(run, n, run[n].clock), Stamp(run, n).value;
            c.AtMost(t) && (t.logical < U32_MAX ==> c.Before(t))
  {
    var c := ClockAt(run, n, run[n].clock);
    match run[n]
    case Local(_, wall) => NowStrictExactly(c, wall);
    case Foreign(_, wall, remote) => UpdateStrictExactly(c, wall, remote);
    case Receive(_, wall, from) => UpdateStrictExactly(c, wall, Stamp(run, from).value);
  }

  /** A clock that has done nothing stands where a new one does, so its first local timestamp
      is the wall time, or one tick after zero. */
  lemma {:induction false} FirstStamp(run: seq<Event>, n: nat)
    requires n < |run| && run[n].Local? && forall m :: 0 <= m < n ==> run[m].clock != run[n].clock
    ensures Stamp(run, n) == Some(if run[n].wall > 0 then Timestamp(run[n].wall, 0) else Timestamp(0, 1))
  {
    Untouched(run, n, run[n].clock);
  }

  lemma {:induction false} Untouched(run: seq<Event>, n: nat, c: nat)
    requires n <= |run| && forall m :: 0 <= m < n ==> run[m].clock != c
    ensures ClockAt(run, n, c) == Timestamp(0, 0)
  {
    if n > 0 {
      Untouched(run, n - 1, c);
    }
  }

  /** Clocks only move forward. */
  lemma {:induction false} ClockMonotone(run: seq<Event>, m: nat, n: nat, c: nat)
    requires m <= n <= |run|
    ensures ClockAt(run, m, c).AtMost(ClockAt(run, n, c))
    decreases n
  {
    if m < n {
      ClockMonotone(run, m, n - 1, c);
      if run[n - 1].clock == c && Stamp(run, n - 1).Some? {
        StampAfterClock(run, n - 1);
        AtMostTransitive(ClockAt(run, m, c), ClockAt(run, n - 1, c), ClockAt(run, n, c));
      }
    }
  }

  /** Later events of one clock have later timestamps, strictly unless the counter ends at
      its maximum. */
  lemma {:induction false} SameClockOrder(run: seq<Event>, i: nat, j: nat)
    requires i < j < |run| && run[i].clock == run[j].clock && Stamp(run, i).Some? && Stamp(run, j).Some?
    ensures var s, t := Stamp(run, i).value, Stamp(run, j).value;
            s.AtMost(t) && (t.logical < U32_MAX ==> s.Before(t))
  {
    var c, s, t := run[j].clock, Stamp(run, i).value, Stamp(run, j).value;
    assert ClockAt(run, i + 1, c) == s;
    ClockMonotone(run, i + 1, j, c);
    StampAfterClock(run, j);
    AtMostTransitive(s, ClockAt(run, j, c), t);
  }

  lemma {:induction false} PrecedesIsBefore(run: seq<Event>, i: nat, j: nat)
    requires Precedes(run, i, j) && Stamp(run, j).value.logical < U32_MAX
    ensures Stamp(run, i).value.Before(Stamp(run, j).value)
  {
    if run[i].clock == run[j].clock {
      SameClockOrder(run, i, j);
    } else {
      UpdateStrictExactly(ClockAt(run, j, run[j].clock), run[j].wall, Stamp(run, i).value);
    }
  }

  /** Causality: in every run of any number of clocks, happened-before implies a strictly
      smaller timestamp, as long as no counter on the chain is at its maximum. */
  lemma {:induction false} HappenedBeforeIsBefore(run: seq<Event>, chain: seq<nat>)
    requires Chain(run, chain)
    requires forall k :: 0 < k < |chain| ==> Stamp(run, chain[k]).value.logical < U32_MAX
    ensures Stamp(run, chain[0]).value.Before(Stamp(run, chain[|chain| - 1]).value)
    decreases |chain|
  {
    var n := |chain| - 1;
    PrecedesIsBefore(run, chain[n - 1], chain[n]);
    if n > 1 {
      var front := chain[..n];
      HappenedBeforeIsBefore(run, front);
      AtMostTransitive(Stamp(run, chain[0]).value, Stamp(run, chain[n - 1]).value, Stamp(run, chain[n]).value);
    }
  }

  /** A clock can be driven to its maximum by one accepted timestamp, and then repeats it. */
  lemma SaturatedClockRepeats(wall: u64)
    ensures var run := [Foreign(0, wall, Timestamp(wall, U32_MAX)), Local(0, wall)];
            Stamp(run, 0) == Stamp(run, 1) == Some(Timestamp(wall, U32_MAX))
  {
    var run := [Foreign(0, wall, Timestamp(wall, U32_MAX)), Local(0, wall)];
    assert ClockAt(run, 1, 0) == Stamp(run, 0).value;
  }

  /** The largest wall reading clock `c` has taken before event `n`. */
  function MaxWall(run: seq<Event>, n: nat, c: nat): nat
    requires n <= |run|
  {
    if n == 0 then 0
    else
      var before := MaxWall(run, n - 1, c);
      if run[n - 1].clock == c && run[n - 1].wall > before then run[n - 1].wall else before
  }

  /** No clock runs ahead of its own wall readings by more than the drift tolerance,
      whatever timestamps it receives. */
  lemma {:induction false} DriftBounded(run: seq<Event>, n: nat, c: nat)
    requires n <= |run|
    ensures ClockAt(run, n, c).physicalMs <= MaxWall(run, n, c) + MAX_DRIFT_MS
  {
    if n > 0 {
      DriftBounded(run, n - 1, c);
    }
  }
}
