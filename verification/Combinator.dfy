/** Combinator algebra (crates/exo-gatekeeper/src/combinator.rs): a small language of
    governance steps and its reduction engine. Error texts are not modelled. */
module Combinator {
  import opened Basics

  type Fields = map<string, string>

  datatype Predicate = Predicate(name: string, requiredKey: string, expectedValue: Option<string>) {
    predicate Evaluate(fields: Fields) {
      requiredKey in fields && (expectedValue.None? || fields[requiredKey] == expectedValue.value)
    }
  }

  datatype Combinator =
    | Identity
    | Sequence(steps: seq<Combinator>)
    | Parallel(branches: seq<Combinator>)
    | Choice(alternatives: seq<Combinator>)
    | Guard(inner: Combinator, guard: Predicate)
    | Transform(inner: Combinator, outputKey: string, outputValue: string)
    | Retry(inner: Combinator, maxRetries: u32)
    | Timeout(inner: Combinator, durationMs: u64)
    | Checkpoint(inner: Combinator, checkpointId: string)

  datatype Output = Output(fields: Fields, checkpoint: Option<string>) {
    function Set(key: string, value: string): Output {
      Output(fields[key := value], checkpoint)
    }

    /** Fields and checkpoint of `other` win. */
    function Merge(other: Output): Output {
      Output(fields + other.fields, if other.checkpoint.Some? then other.checkpoint else checkpoint)
    }
  }

  function FromInput(fields: Fields): Output {
    Output(fields, None)
  }

  /** Decimal rendering of a number. */
  function Decimal(n: nat): string {
    if n < 10 then [['0', '1', '2', '3', '4', '5', '6', '7', '8', '9'][n]]
    else Decimal(n / 10) + Decimal(n % 10)
  }

  const RETRY_KEY := "retry_attempts"
  const TIMEOUT_KEY := "timeout_budget_ms"

  // ---------------------------------------------------------------------
  // Meaning: None stands for every error
  // ---------------------------------------------------------------------

  function Eval(c: Combinator, input: Fields): Option<Output>
    decreases c, 0
  {
    match c
    case Identity => Some(FromInput(input))
    case Sequence(steps) => EvalSequence(steps, FromInput(input))
    case Parallel(branches) => EvalParallel(branches, input, FromInput(input))
    case Choice(alternatives) => EvalChoice(alternatives, input)
    case Guard(inner, guard) => if guard.Evaluate(input) then Eval(inner, input) else None
    case Transform(inner, key, value) => WithField(Eval(inner, input), key, value)
    case Retry(inner, maxRetries) => EvalAttempts(inner, 0, maxRetries, input)
    case Timeout(inner, duration) => WithField(Eval(inner, input), TIMEOUT_KEY, Decimal(duration))
    case Checkpoint(inner, id) =>
      match Eval(inner, input) case Some(o) => Some(Output(o.fields, Some(id))) case None => None
  }

  function WithField(r: Option<Output>, key: string, value: string): Option<Output> {
    match r case Some(o) => Some(o.Set(key, value)) case None => None
  }

  /** Attempts `attempt` to `maxRetries`, up to the first success, which is recorded. */
  function EvalAttempts(inner: Combinator, attempt: nat, maxRetries: u32, input: Fields): Option<Output>
    decreases inner, 1, maxRetries + 1 - attempt
  {
    if attempt > maxRetries then None
    else match Eval(inner, input)
      case Some(o) => Some(o.Set(RETRY_KEY, Decimal(attempt)))
      case None => EvalAttempts(inner, attempt + 1, maxRetries, input)
  }

  /** Each step runs on the fields of the step before it. */
  function EvalSequence(steps: seq<Combinator>, last: Output): Option<Output>
    decreases steps, 1
  {
    if steps == [] then Some(last)
    else match Eval(steps[0], last.fields)
      case Some(o) => EvalSequence(steps[1..], o)
      case None => None
  }

  /** Each branch runs on the original input. */
  function EvalParallel(branches: seq<Combinator>, input: Fields, merged: Output): Option<Output>
    decreases branches, 1
  {
    if branches == [] then Some(merged)
    else match Eval(branches[0], input)
      case Some(o) => EvalParallel(branches[1..], input, merged.Merge(o))
      case None => None
  }

  function EvalChoice(alternatives: seq<Combinator>, input: Fields): Option<Output>
    decreases alternatives, 1
  {
    if alternatives == [] then None
    else if Eval(alternatives[0], input).Some? then Eval(alternatives[0], input)
    else EvalChoice(alternatives[1..], input)
  }

  // ---------------------------------------------------------------------
  // The engine: the loops of `reduce`
  // ---------------------------------------------------------------------

  method Reduce(c: Combinator, input: Fields) returns (r: Option<Output>)
    ensures r == Eval(c, input)
    decreases c, 0
  {
    match c
    case Identity =>
      r := Some(FromInput(input));
    case Sequence(steps) =>
      r := ReduceSequence(steps, input);
    case Parallel(branches) =>
      r := ReduceParallel(branches, input);
    case Choice(alternatives) =>
      r := ReduceChoice(alternatives, input);
    case Guard(inner, guard) =>
      if !guard.Evaluate(input) {
        return None;
      }
      r := Reduce(inner, input);
    case Transform(inner, key, value) =>
      r := Reduce(inner, input);
      if r.Some? {
        r := Some(r.value.Set(key, value));
      }
    case Retry(inner, maxRetries) =>
      r := ReduceRetry(inner, maxRetries, input);
    case Timeout(inner, duration) =>
      r := Reduce(inner, input);
      if r.Some? {
        r := Some(r.value.Set(TIMEOUT_KEY, Decimal(duration)));
      }
    case Checkpoint(inner, id) =>
      r := Reduce(inner, input);
      if r.Some? {
        r := Some(Output(r.value.fields, Some(id)));
      }
  }

  method ReduceSequence(steps: seq<Combinator>, input: Fields) returns (r: Option<Output>)
    ensures r == EvalSequence(steps, FromInput(input))
    decreases steps, 1
  {
    var currentInput := input;
    var lastOutput := FromInput(input);
    for i := 0 to |steps|
      invariant currentInput == lastOutput.fields
      invariant EvalSequence(steps[i..], lastOutput) == EvalSequence(steps, FromInput(input))
    {
      assert steps[i..][0] == steps[i] && steps[i..][1..] == steps[i + 1..];
      var output := Reduce(steps[i], currentInput);
      if output.None? {
        return None;
      }
      currentInput := output.value.fields;
      lastOutput := output.value;
    }
    return Some(lastOutput);
  }

  method ReduceParallel(branches: seq<Combinator>, input: Fields) returns (r: Option<Output>)
    ensures r == EvalParallel(branches, input, FromInput(input))
    decreases branches, 1
  {
    var merged := FromInput(input);
    for i := 0 to |branches|
      invariant EvalParallel(branches[i..], input, merged) == EvalParallel(branches, input, FromInput(input))
    {
      assert branches[i..][0] == branches[i] && branches[i..][1..] == branches[i + 1..];
      var output := Reduce(branches[i], input);
      if output.None? {
        return None;
      }
      merged := merged.Merge(output.value);
    }
    return Some(merged);
  }

  method ReduceChoice(alternatives: seq<Combinator>, input: Fields) returns (r: Option<Output>)
    ensures r == EvalChoice(alternatives, input)
    decreases alternatives, 1
  {
    for i := 0 to |alternatives|
      invariant EvalChoice(alternatives[i..], input) == EvalChoice(alternatives, input)
    {
      assert alternatives[i..][0] == alternatives[i] && alternatives[i..][1..] == alternatives[i + 1..];
      r := Reduce(alternatives[i], input);
      if r.Some? {
        return r;
      }
    }
    return None;
  }

  method ReduceRetry(inner: Combinator, maxRetries: u32, input: Fields) returns (r: Option<Output>)
    ensures r == EvalAttempts(inner, 0, maxRetries, input)
    decreases inner, 1
  {
    for attempt := 0 to maxRetries + 1
      invariant EvalAttempts(inner, attempt, maxRetries, input) == EvalAttempts(inner, 0, maxRetries, input)
    {
      var output := Reduce(inner, input);
      if output.Some? {
        return Some(output.value.Set(RETRY_KEY, Decimal(attempt)));
      }
    }
    return None;
  }

  // ---------------------------------------------------------------------
  // Frame: what a program can change
  // ---------------------------------------------------------------------

  /** The keys a program writes, by its text. */
  function Writes(c: Combinator): set<string>
    decreases c, 0
  {
    match c
    case Identity => {}
    case Sequence(cs) => WritesAll(cs)
    case Parallel(cs) => WritesAll(cs)
    case Choice(cs) => WritesAll(cs)
    case Guard(inner, _) => Writes(inner)
    case Transform(inner, key, _) => Writes(inner) + {key}
    case Retry(inner, _) => Writes(inner) + {RETRY_KEY}
    case Timeout(inner, _) => Writes(inner) + {TIMEOUT_KEY}
    case Checkpoint(inner, _) => Writes(inner)
  }

  function WritesAll(cs: seq<Combinator>): set<string>
    decreases cs, 1
  {
    if cs == [] then {} else Writes(cs[0]) + WritesAll(cs[1..])
  }

  /** `after` keeps every key of `before` and differs from it on `writes` at most. */
  ghost predicate Framed(before: Fields, after: Fields, writes: set<string>) {
    && before.Keys <= after.Keys <= before.Keys + writes
    && (forall k :: k in before && k !in writes ==> after[k] == before[k])
  }

  /** Every successful reduction keeps all input keys and changes only keys the program writes. */
  lemma {:induction false} FrameTheorem(c: Combinator, input: Fields)
    ensures Eval(c, input).Some? ==> Framed(input, Eval(c, input).value.fields, Writes(c))
    decreases c, 0
  {
    match c
    case Identity =>
    case Sequence(cs) => FrameSequence(cs, FromInput(input));
    case Parallel(cs) => FrameParallel(cs, input, FromInput(input), {});
    case Choice(cs) => FrameChoice(cs, input);
    case Guard(inner, _) => FrameTheorem(inner, input);
    case Transform(inner, _, _) => FrameTheorem(inner, input);
    case Retry(inner, maxRetries) =>
      FrameTheorem(inner, input);
      RetryIsOneRun(inner, maxRetries, input);
    case Timeout(inner, _) => FrameTheorem(inner, input);
    case Checkpoint(inner, _) => FrameTheorem(inner, input);
  }

  lemma {:induction false} FrameSequence(cs: seq<Combinator>, last: Output)
    ensures EvalSequence(cs, last).Some? ==> Framed(last.fields, EvalSequence(cs, last).value.fields, WritesAll(cs))
    decreases cs, 1
  {
    if cs != [] {
      FrameTheorem(cs[0], last.fields);
      if Eval(cs[0], last.fields).Some? {
        FrameSequence(cs[1..], Eval(cs[0], last.fields).value);
      }
    }
  }

  lemma {:induction false} FrameParallel(cs: seq<Combinator>, input: Fields, merged: Output, done: set<string>)
    requires Framed(input, merged.fields, done)
    ensures EvalParallel(cs, input, merged).Some? ==>
            Framed(input, EvalParallel(cs, input, merged).value.fields, done + WritesAll(cs))
    decreases cs, 1
  {
    if cs != [] {
      FrameTheorem(cs[0], input);
      if Eval(cs[0], input).Some? {
        FrameParallel(cs[1..], input, merged.Merge(Eval(cs[0], input).value), done + Writes(cs[0]));
        assert done + Writes(cs[0]) + WritesAll(cs[1..]) == done + WritesAll(cs);
      }
    }
  }

  lemma {:induction false} FrameChoice(cs: seq<Combinator>, input: Fields)
    ensures EvalChoice(cs, input).Some? ==> Framed(input, EvalChoice(cs, input).value.fields, WritesAll(cs))
    decreases cs, 1
  {
    if cs != [] {
      FrameTheorem(cs[0], input);
      FrameChoice(cs[1..], input);
    }
  }

  // ---------------------------------------------------------------------
  // Equivalences
  // ---------------------------------------------------------------------

  lemma {:induction false} SequenceAppend(a: seq<Combinator>, b: seq<Combinator>, last: Output)
    ensures EvalSequence(a + b, last) ==
            match EvalSequence(a, last) case Some(o) => EvalSequence(b, o) case None => None
    decreases |a|
  {
    if a == [] {
      assert a + b == b;
    } else {
      assert (a + b)[0] == a[0] && (a + b)[1..] == a[1..] + b;
      if Eval(a[0], last.fields).Some? {
        SequenceAppend(a[1..], b, Eval(a[0], last.fields).value);
      }
    }
  }

  /** Splicing a nested sequence into its parent preserves success and fields, and preserves
      the whole outcome exactly unless the nested sequence is an empty last step after a
      step that set a checkpoint: the empty sequence forgets it. */
  lemma {:induction false} SpliceExactly(a: seq<Combinator>, b: seq<Combinator>, c: seq<Combinator>, input: Fields)
    ensures var nested, flat := Eval(Sequence(a + [Sequence(b)] + c), input), Eval(Sequence(a + b + c), input);
            var before := Eval(Sequence(a), input);
            && (nested.Some? <==> flat.Some?)
            && (nested.Some? ==> nested.value.fields == flat.value.fields)
            && (nested == flat <==> !(b == [] && c == [] && before.Some? && before.value.checkpoint.Some?))
  {
    var start := FromInput(input);
    assert a + [Sequence(b)] + c == a + ([Sequence(b)] + c) && a + b + c == a + (b + c);
    SequenceAppend(a, [Sequence(b)] + c, start);
    SequenceAppend(a, b + c, start);
    match EvalSequence(a, start) {
      case None =>
      case Some(o) =>
        SequenceAppend([Sequence(b)], c, o);
        SequenceAppend(b, c, o);
        assert EvalSequence([Sequence(b)], o) == EvalSequence(b, FromInput(o.fields));
        if b == [] && c != [] {
          assert EvalSequence(c, FromInput(o.fields)) == EvalSequence(c, o);
        }
    }
  }

  /** The exception occurs: one step with a checkpoint, then an empty sequence. */
  lemma SpliceForgetsCheckpoint(id: string, input: Fields)
    ensures var step := Checkpoint(Identity, id);
            && Eval(Sequence([step]), input) == Some(Output(input, Some(id)))
            && Eval(Sequence([step, Sequence([])]), input) == Some(Output(input, None))
  {
    var step := Checkpoint(Identity, id);
    var marked := Output(input, Some(id));
    assert Eval(step, input) == Some(marked);
    assert [step][1..] == [] && [step, Sequence([])][1..] == [Sequence([])] && [Sequence([])][1..] == [];
    assert EvalSequence([step], FromInput(input)) == EvalSequence([], marked);
    assert Eval(Sequence([]), input) == Some(FromInput(input));
    assert EvalSequence([Sequence([])], marked) == EvalSequence([], FromInput(input));
    assert EvalSequence([step, Sequence([])], FromInput(input)) == EvalSequence([Sequence([])], marked);
  }

  lemma {:induction false} FailedAttempts(inner: Combinator, attempt: nat, maxRetries: u32, input: Fields)
    requires Eval(inner, input).None?
    ensures EvalAttempts(inner, attempt, maxRetries, input).None?
    decreases maxRetries + 1 - attempt
  {
    if attempt <= maxRetries {
      FailedAttempts(inner, attempt + 1, maxRetries, input);
    }
  }

  /** Reduction is deterministic, so the first attempt decides: `Retry` is one run of its body
      with `retry_attempts` set to "0", whatever the limit. */
  lemma RetryIsOneRun(inner: Combinator, maxRetries: u32, input: Fields)
    ensures Eval(Retry(inner, maxRetries), input) == Eval(Transform(inner, "retry_attempts", "0"), input)
  {
    assert Decimal(0) == "0";
    if Eval(inner, input).None? {
      FailedAttempts(inner, 0, maxRetries, input);
    }
  }

  /** `Choice` is its first alternative that succeeds, and fails when none does. */
  lemma {:induction false} ChoiceIsFirstSuccess(cs: seq<Combinator>, input: Fields, k: nat)
    requires k <= |cs| && forall i :: 0 <= i < k ==> Eval(cs[i], input).None?
    ensures k < |cs| && Eval(cs[k], input).Some? ==> Eval(Choice(cs), input) == Eval(cs[k], input)
    ensures k == |cs| ==> Eval(Choice(cs), input).None?
    decreases k
  {
    if k > 0 {
      ChoiceIsFirstSuccess(cs[1..], input, k - 1);
      assert Eval(Choice(cs[1..]), input) == EvalChoice(cs[1..], input);
    }
  }

  // ---------------------------------------------------------------------
  // Guards, timeouts and checkpoints
  // ---------------------------------------------------------------------

  lemma {:induction false} TwoSteps(a: Combinator, b: Combinator, input: Fields)
    ensures Eval(Sequence([a, b]), input) ==
            match Eval(a, input) case Some(o) => Eval(b, o.fields) case None => None
  {
    assert [a, b][1..] == [b] && [b][1..] == [];
    assert Eval(Sequence([a, b]), input) == EvalSequence([a, b], FromInput(input));
    if Eval(a, input).Some? {
      var o := Eval(a, input).value;
      assert EvalSequence([a, b], FromInput(input)) == EvalSequence([b], o);
      if Eval(b, o.fields).Some? {
        assert EvalSequence([b], o) == EvalSequence([], Eval(b, o.fields).value);
      }
    }
  }

  /** A guard on a key that has just been written passes exactly for the value written. */
  lemma {:induction false} GuardAfterTransform(body: Combinator, name: string, k: string, v: string, w: string, input: Fields)
    ensures Eval(Sequence([Transform(Identity, k, v), Guard(body, Predicate(name, k, Some(w)))]), input) ==
            if w == v then Eval(body, input[k := v]) else None
  {
    assert Eval(Transform(Identity, k, v), input) == Some(Output(input[k := v], None));
    TwoSteps(Transform(Identity, k, v), Guard(body, Predicate(name, k, Some(w))), input);
  }

  /** A guard on a key that is neither in the input nor written before fails. */
  lemma {:induction false} GuardOnAbsentKey(steps: seq<Combinator>, body: Combinator, guard: Predicate, input: Fields)
    requires guard.requiredKey !in input && guard.requiredKey !in WritesAll(steps)
    ensures Eval(Sequence(steps + [Guard(body, guard)]), input).None?
  {
    SequenceAppend(steps, [Guard(body, guard)], FromInput(input));
    FrameSequence(steps, FromInput(input));
  }

  /** A guard without an expected value passes exactly when the key is there. */
  lemma GuardOnPresence(body: Combinator, name: string, k: string, input: Fields)
    ensures Eval(Guard(body, Predicate(name, k, None)), input) == if k in input then Eval(body, input) else None
  {
  }

  /** The number that a string of digits denotes. */
  function Number(s: string): nat
    requires forall i :: 0 <= i < |s| ==> '0' <= s[i] <= '9'
  {
    if s == "" then 0 else 10 * Number(s[..|s| - 1]) + (s[|s| - 1] - '0') as nat
  }

  /** Decimal rendering can be read back. */
  lemma {:induction false} DecimalRoundTrip(n: nat)
    ensures var s := Decimal(n);
            && s != "" && (forall i :: 0 <= i < |s| ==> '0' <= s[i] <= '9')
            && Number(s) == n
    decreases n
  {
    if n >= 10 {
      DecimalRoundTrip(n / 10);
      DecimalRoundTrip(n % 10);
      assert |Decimal(n % 10)| == 1;
      assert Decimal(n)[..|Decimal(n)| - 1] == Decimal(n / 10);
    } else {
      assert Decimal(n)[..0] == "";
    }
  }

  /** A later guard can read back the budget that a timeout has recorded. */
  lemma {:induction false} TimeoutRecordsBudget(body: Combinator, duration: u64, input: Fields)
    ensures Eval(Timeout(body, duration), input).Some? <==> Eval(body, input).Some?
    ensures Eval(Timeout(body, duration), input).Some? ==>
            var before, after := Eval(body, input).value, Eval(Timeout(body, duration), input).value;
            && "timeout_budget_ms" in after.fields
            && (var s := after.fields["timeout_budget_ms"]; (forall i :: 0 <= i < |s| ==> '0' <= s[i] <= '9') && Number(s) == duration)
            && (forall k :: k != "timeout_budget_ms" ==>
                 (k in after.fields <==> k in before.fields) && (k in before.fields ==> after.fields[k] == before.fields[k]))
            && after.checkpoint == before.checkpoint
  {
    DecimalRoundTrip(duration);
  }

  /** A checkpoint marks its own output and nothing that follows: before a further step it
      is neutral. */
  lemma {:induction false} CheckpointIsLocal(body: Combinator, id: string, next: Combinator, input: Fields)
    ensures Eval(Sequence([Checkpoint(body, id), next]), input) == Eval(Sequence([body, next]), input)
    ensures Eval(Checkpoint(body, id), input).Some? ==>
            Eval(Checkpoint(body, id), input) == Some(Output(FieldsOf(body, input), Some(id)))
  {
    TwoSteps(Checkpoint(body, id), next, input);
    TwoSteps(body, next, input);
  }

  // ---------------------------------------------------------------------
  // Order of parallel branches
  // ---------------------------------------------------------------------

  ghost predicate AllSucceed(cs: seq<Combinator>, input: Fields) {
    forall c :: c in cs ==> Eval(c, input).Some?
  }

  function FieldsOf(c: Combinator, input: Fields): Fields {
    match Eval(c, input) case Some(o) => o.fields case None => map[]
  }

  function CheckpointOf(c: Combinator, input: Fields): Option<string> {
    match Eval(c, input) case Some(o) => o.checkpoint case None => None
  }

  lemma {:induction false} ParallelSucceeds(cs: seq<Combinator>, input: Fields, merged: Output)
    ensures EvalParallel(cs, input, merged).Some? <==> AllSucceed(cs, input)
    decreases |cs|
  {
    if cs != [] {
      assert forall c :: c in cs <==> c == cs[0] || c in cs[1..];
      if Eval(cs[0], input).Some? {
        ParallelSucceeds(cs[1..], input, merged.Merge(Eval(cs[0], input).value));
      }
    }
  }

  /** Branch `i` is the last whose result has field `k`. */
  ghost predicate LastWith(cs: seq<Combinator>, input: Fields, k: string, i: nat) {
    && i < |cs| && k in FieldsOf(cs[i], input)
    && forall j :: i < j < |cs| ==> k !in FieldsOf(cs[j], input)
  }

  /** A merged field comes from the last branch that has it, or else from what was merged
      before. */
  lemma {:induction false} MergedField(cs: seq<Combinator>, input: Fields, merged: Output, k: string)
    requires AllSucceed(cs, input)
    ensures EvalParallel(cs, input, merged).Some?
    ensures var f := EvalParallel(cs, input, merged).value.fields;
            if forall c :: c in cs ==> k !in FieldsOf(c, input)
            then (k in f <==> k in merged.fields) && (k in f ==> f[k] == merged.fields[k])
            else exists i: nat :: LastWith(cs, input, k, i) && k in f && f[k] == FieldsOf(cs[i], input)[k]
    decreases |cs|
  {
    if cs != [] {
      assert forall c :: c in cs <==> c == cs[0] || c in cs[1..];
      MergedField(cs[1..], input, merged.Merge(Eval(cs[0], input).value), k);
      var f := EvalParallel(cs, input, merged).value.fields;
      if forall c :: c in cs[1..] ==> k !in FieldsOf(c, input) {
        assert k in FieldsOf(cs[0], input) ==> LastWith(cs, input, k, 0);
      } else {
        var i: nat :| LastWith(cs[1..], input, k, i) && k in f && f[k] == FieldsOf(cs[1..][i], input)[k];
        assert LastWith(cs, input, k, i + 1);
      }
    }
  }

  /** Branch `i` is the last that sets a checkpoint. */
  ghost predicate LastCheckpoint(cs: seq<Combinator>, input: Fields, i: nat) {
    && i < |cs| && CheckpointOf(cs[i], input).Some?
    && forall j :: i < j < |cs| ==> CheckpointOf(cs[j], input).None?
  }

  /** The merged checkpoint is that of the last branch that sets one, or else the one from
      before. */
  lemma {:induction false} MergedCheckpoint(cs: seq<Combinator>, input: Fields, merged: Output)
    requires AllSucceed(cs, input)
    ensures EvalParallel(cs, input, merged).Some?
    ensures var p := EvalParallel(cs, input, merged).value.checkpoint;
            if forall c :: c in cs ==> CheckpointOf(c, input).None? then p == merged.checkpoint
            else exists i: nat :: LastCheckpoint(cs, input, i) && p == CheckpointOf(cs[i], input)
    decreases |cs|
  {
    if cs != [] {
      assert forall c :: c in cs <==> c == cs[0] || c in cs[1..];
      MergedCheckpoint(cs[1..], input, merged.Merge(Eval(cs[0], input).value));
      var p := EvalParallel(cs, input, merged).value.checkpoint;
      if forall c :: c in cs[1..] ==> CheckpointOf(c, input).None? {
        assert CheckpointOf(cs[0], input).Some? ==> LastCheckpoint(cs, input, 0);
      } else {
        var i: nat :| LastCheckpoint(cs[1..], input, i) && p == CheckpointOf(cs[1..][i], input);
        assert LastCheckpoint(cs, input, i + 1);
      }
    }
  }

  function ParallelFields(cs: seq<Combinator>, input: Fields): Fields {
    FieldsOf(Parallel(cs), input)
  }

  /** Branch results agree wherever they overlap. */
  ghost predicate Compatible(cs: seq<Combinator>, input: Fields) {
    forall c, d, k :: c in cs && d in cs && k in FieldsOf(c, input) && k in FieldsOf(d, input) ==>
      FieldsOf(c, input)[k] == FieldsOf(d, input)[k]
  }

  /** No two branches set different checkpoints. */
  ghost predicate OneCheckpoint(cs: seq<Combinator>, input: Fields) {
    forall c, d :: c in cs && d in cs && CheckpointOf(c, input).Some? && CheckpointOf(d, input).Some? ==>
      CheckpointOf(c, input) == CheckpointOf(d, input)
  }

  lemma PermutationMembers(cs: seq<Combinator>, ds: seq<Combinator>)
    requires multiset(cs) == multiset(ds)
    ensures forall c :: c in cs <==> c in ds
  {
    assert forall c :: c in cs <==> c in multiset(cs);
    assert forall c :: c in ds <==> c in multiset(ds);
  }

  lemma CompatibleCommutes(cs: seq<Combinator>, ds: seq<Combinator>, input: Fields)
    requires multiset(cs) == multiset(ds) && AllSucceed(cs, input) && Compatible(cs, input)
    ensures ParallelFields(cs, input) == ParallelFields(ds, input)
  {
    PermutationMembers(cs, ds);
    var start := FromInput(input);
    ParallelSucceeds(cs, input, start);
    ParallelSucceeds(ds, input, start);
    var f, g := ParallelFields(cs, input), ParallelFields(ds, input);
    forall k
      ensures (k in f <==> k in g) && (k in f ==> f[k] == g[k])
    {
      MergedField(cs, input, start, k);
      MergedField(ds, input, start, k);
    }
  }

  lemma CheckpointCommutes(cs: seq<Combinator>, ds: seq<Combinator>, input: Fields)
    requires multiset(cs) == multiset(ds) && AllSucceed(cs, input) && OneCheckpoint(cs, input)
    ensures CheckpointOf(Parallel(cs), input) == CheckpointOf(Parallel(ds), input)
  {
    PermutationMembers(cs, ds);
    MergedCheckpoint(cs, input, FromInput(input));
    MergedCheckpoint(ds, input, FromInput(input));
  }

  /** Branch `c` moved to the end. */
  lemma MoveLast(cs: seq<Combinator>, c: Combinator) returns (ds: seq<Combinator>)
    requires c in cs
    ensures multiset(cs) == multiset(ds) && ds != [] && ds[|ds| - 1] == c
  {
    var i :| 0 <= i < |cs| && cs[i] == c;
    ds := cs[..i] + cs[i + 1..] + [c];
    assert cs == cs[..i] + [c] + cs[i + 1..];
  }

  /** The branches are documented as order-independent. Every order gives the same outcome,
      failure, fields and checkpoint alike, exactly when some branch fails, or the results
      agree wherever they overlap and no two branches set different checkpoints. */
  lemma ParallelOrderExactly(cs: seq<Combinator>, input: Fields)
    ensures (forall ds :: multiset(ds) == multiset(cs) ==> Eval(Parallel(ds), input) == Eval(Parallel(cs), input))
            <==> !AllSucceed(cs, input) || (Compatible(cs, input) && OneCheckpoint(cs, input))
  {
    if !AllSucceed(cs, input) || (Compatible(cs, input) && OneCheckpoint(cs, input)) {
      forall ds | multiset(ds) == multiset(cs)
        ensures Eval(Parallel(ds), input) == Eval(Parallel(cs), input)
      {
        SameOutcome(cs, ds, input);
      }
    } else if !Compatible(cs, input) {
      var c, d, k :| c in cs && d in cs && k in FieldsOf(c, input) && k in FieldsOf(d, input) &&
                     FieldsOf(c, input)[k] != FieldsOf(d, input)[k];
      var xs := LastWins(cs, c, k, input);
      var ys := LastWins(cs, d, k, input);
      assert Eval(Parallel(xs), input) != Eval(Parallel(ys), input);
    } else {
      var c, d :| c in cs && d in cs && CheckpointOf(c, input).Some? && CheckpointOf(d, input).Some? &&
                  CheckpointOf(c, input) != CheckpointOf(d, input);
      var xs := LastMarks(cs, c, input);
      var ys := LastMarks(cs, d, input);
      assert Eval(Parallel(xs), input) != Eval(Parallel(ys), input);
    }
  }

  lemma SameOutcome(cs: seq<Combinator>, ds: seq<Combinator>, input: Fields)
    requires multiset(cs) == multiset(ds)
    requires !AllSucceed(cs, input) || (Compatible(cs, input) && OneCheckpoint(cs, input))
    ensures Eval(Parallel(ds), input) == Eval(Parallel(cs), input)
  {
    PermutationMembers(cs, ds);
    ParallelSucceeds(cs, input, FromInput(input));
    ParallelSucceeds(ds, input, FromInput(input));
    if AllSucceed(cs, input) {
      CompatibleCommutes(cs, ds, input);
      CheckpointCommutes(cs, ds, input);
    }
  }

  /** Some order lets branch `c` decide field `k`. */
  lemma LastWins(cs: seq<Combinator>, c: Combinator, k: string, input: Fields) returns (ds: seq<Combinator>)
    requires AllSucceed(cs, input) && c in cs && k in FieldsOf(c, input)
    ensures multiset(ds) == multiset(cs)
    ensures k in ParallelFields(ds, input) && ParallelFields(ds, input)[k] == FieldsOf(c, input)[k]
  {
    ds := MoveLast(cs, c);
    PermutationMembers(cs, ds);
    MergedField(ds, input, FromInput(input), k);
    assert Eval(Parallel(ds), input) == EvalParallel(ds, input, FromInput(input));
  }

  /** Some order lets branch `c` decide the checkpoint. */
  lemma LastMarks(cs: seq<Combinator>, c: Combinator, input: Fields) returns (ds: seq<Combinator>)
    requires AllSucceed(cs, input) && c in cs && CheckpointOf(c, input).Some?
    ensures multiset(ds) == multiset(cs) && CheckpointOf(Parallel(ds), input) == CheckpointOf(c, input)
  {
    ds := MoveLast(cs, c);
    PermutationMembers(cs, ds);
    MergedCheckpoint(ds, input, FromInput(input));
    assert Eval(Parallel(ds), input) == EvalParallel(ds, input, FromInput(input));
  }

  /** A condition on the text: branches that write pairwise disjoint keys, none of them in
      the input, may be reordered without changing success or fields. */
  lemma DisjointBranchesCommute(cs: seq<Combinator>, ds: seq<Combinator>, input: Fields)
    requires multiset(cs) == multiset(ds)
    requires forall i, j :: 0 <= i < j < |cs| ==> Writes(cs[i]) !! Writes(cs[j])
    requires forall i :: 0 <= i < |cs| ==> Writes(cs[i]) !! input.Keys
    ensures Eval(Parallel(cs), input).Some? <==> Eval(Parallel(ds), input).Some?
    ensures ParallelFields(cs, input) == ParallelFields(ds, input)
  {
    PermutationMembers(cs, ds);
    ParallelSucceeds(cs, input, FromInput(input));
    ParallelSucceeds(ds, input, FromInput(input));
    if AllSucceed(cs, input) {
      forall c, d, k | c in cs && d in cs && k in FieldsOf(c, input) && k in FieldsOf(d, input)
        ensures FieldsOf(c, input)[k] == FieldsOf(d, input)[k]
      {
        FrameTheorem(c, input);
        FrameTheorem(d, input);
        var i :| 0 <= i < |cs| && cs[i] == c;
        var j :| 0 <= j < |cs| && cs[j] == d;
        assert i < j ==> Writes(cs[i]) !! Writes(cs[j]);
        assert j < i ==> Writes(cs[j]) !! Writes(cs[i]);
      }
      CompatibleCommutes(cs, ds, input);
    }
  }

  /** Order matters for fields: a branch that leaves a key alone still carries the input's
      value and overwrites an earlier branch's. */
  lemma OrderMatters()
    ensures var write, input := Transform(Identity, "k", "new"), map["k" := "old"];
            && ParallelFields([write, Identity], input) == map["k" := "old"]
            && ParallelFields([Identity, write], input) == map["k" := "new"]
  {
    var write, input := Transform(Identity, "k", "new"), map["k" := "old"];
    TwoBranches(write, Identity, input);
    TwoBranches(Identity, write, input);
  }

  /** Order matters for checkpoints: the later of two wins. */
  lemma CheckpointOrderMatters(p: string, q: string, input: Fields)
    ensures CheckpointOf(Parallel([Checkpoint(Identity, p), Checkpoint(Identity, q)]), input) == Some(q)
  {
    TwoBranches(Checkpoint(Identity, p), Checkpoint(Identity, q), input);
  }

  lemma TwoBranches(a: Combinator, b: Combinator, input: Fields)
    requires Eval(a, input).Some? && Eval(b, input).Some?
    ensures Eval(Parallel([a, b]), input) ==
            Some(FromInput(input).Merge(Eval(a, input).value).Merge(Eval(b, input).value))
  {
    var start := FromInput(input);
    var one := start.Merge(Eval(a, input).value);
    assert [a, b][1..] == [b] && [b][1..] == [];
    assert EvalParallel([b], input, one) == Some(one.Merge(Eval(b, input).value));
    assert Eval(Parallel([a, b]), input) == EvalParallel([a, b], input, start);
  }
}
