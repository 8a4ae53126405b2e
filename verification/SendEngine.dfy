/** The application layer's send engine: a blocking and a polled form of one retry policy. */
module SendEngine {
  import opened Octets
  import opened OutcomeRing

  /** `maxAttempts` is an 8-bit count. */
  datatype SendOptions = SendOptions(maxAttempts: nat, onBusy: bool, onTimeout: bool, onFailed: bool)

  predicate ValidOptions(o: SendOptions) { o.maxAttempts <= 255 }

  /** The recorded outcome of one send request. */
  datatype Outcome = Outcome(request: nat, result: Result<()>, attempts: nat)

  function MaxAttempts(o: SendOptions): nat { if o.maxAttempts == 0 then 1 else o.maxAttempts }

  predicate ShouldRetry(e: ErrorCode, o: SendOptions) {
    match e
    case Busy => o.onBusy
    case Timeout => o.onTimeout
    case TransmissionFailed => o.onFailed
    case _ => false
  }

  /** After attempt number `k` with this answer, no further attempt is made. */
  predicate Final(o: SendOptions, answer: Result<()>, k: nat) {
    answer.Ok? || k >= MaxAttempts(o) || !ShouldRetry(answer.error, o)
  }

  /** The retry policy: the first final answer in a script of per-attempt answers. */
  function Decided(o: SendOptions, script: seq<Result<()>>): (k: Option<nat>)
    ensures k.Some? ==> 1 <= k.value <= |script| && Final(o, script[k.value - 1], k.value)
    ensures k.Some? ==> forall i :: 0 <= i < k.value - 1 ==> !Final(o, script[i], i + 1)
    ensures k.None? ==> forall i :: 0 <= i < |script| ==> !Final(o, script[i], i + 1)
  {
    if script == [] then None
    else
      var n := |script| - 1;
      var before := Decided(o, script[..n]);
      if before.Some? then before else if Final(o, script[n], n + 1) then Some(n + 1) else None
  }

  /** A decision never needs more attempts than the options allow. */
  lemma DecidedInTime(o: SendOptions, script: seq<Result<()>>)
    ensures Decided(o, script).Some? ==> Decided(o, script).value <= MaxAttempts(o)
    ensures |script| >= MaxAttempts(o) ==> Decided(o, script).Some?
  {
    var k := Decided(o, script);
    if k.Some? && k.value > MaxAttempts(o) {
      assert Final(o, script[MaxAttempts(o) - 1], MaxAttempts(o));
    }
    if |script| >= MaxAttempts(o) && k.None? {
      assert Final(o, script[MaxAttempts(o) - 1], MaxAttempts(o));
    }
  }

  /** The decision depends only on the answers up to it. */
  lemma {:induction false} DecidedExtends(o: SendOptions, script: seq<Result<()>>, more: seq<Result<()>>)
    requires Decided(o, script).Some?
    ensures Decided(o, script + more) == Decided(o, script)
  {
    if more == [] {
      assert script + more == script;
    } else {
      var n := |more| - 1;
      DecidedExtends(o, script, more[..n]);
      assert (script + more)[..|script| + n] == script + more[..n];
    }
  }

  // ---------------------------------------------------------------------------
  // The polled operation
  // ---------------------------------------------------------------------------

  datatype Progress = Pending | Done(result: Result<()>)

  /** Answers of the transport layer to one poll, and to the begin of a retry if one is made. */
  datatype Poll = Poll(progress: Progress, retryBegin: Result<()>)

  datatype Op = Op(active: bool, request: nat, options: SendOptions, attempts: nat)

  const NO_OP := Op(false, 0, SendOptions(0, false, false, false), 0)

  /** Only BUSY, TIMEOUT and TRANSMISSION_FAILED are progress states; other errors come from the poll itself. */
  predicate IsProgressError(e: ErrorCode) { e == Busy || e == Timeout || e == TransmissionFailed }

  /** One poll of an active operation: the next state and the outcome it records, if it ends. */
  function PollStep(op: Op, poll: Poll): (Op, Option<Outcome>) {
    match poll.progress
    case Pending => (op, None)
    case Done(Ok(_)) => (NO_OP, Some(Outcome(op.request, poll.progress.result, op.attempts)))
    case Done(Err(e)) =>
      if IsProgressError(e) && op.attempts < MaxAttempts(op.options) && ShouldRetry(e, op.options) then
        match poll.retryBegin
        case Ok(_) => (op.(attempts := op.attempts + 1), None)
        case Err(b) => (NO_OP, Some(Outcome(op.request, Err(b), op.attempts)))
      else (NO_OP, Some(Outcome(op.request, Err(e), op.attempts)))
  }

  /** Errors that are not progress states are reported as a failed transmission. */
  function AsProgress(e: ErrorCode): ErrorCode { if IsProgressError(e) then e else TransmissionFailed }

  /** What the caller of the last poll is told: an error of the poll itself, or the recorded result. */
  function Reported(poll: Poll, outcome: Outcome): Result<Progress>
    requires poll.progress.Done?
  {
    match (poll.progress.result, outcome.result)
    case (Err(e), Err(recorded)) => if IsProgressError(e) then Ok(Done(Err(AsProgress(recorded)))) else Err(e)
    case _ => Ok(Done(outcome.result))
  }

  class Sender {
    const ring: Ring<Outcome>
    var op: Op
    ghost var recorded: seq<Outcome>

    ghost predicate Valid()
      reads this, ring
    {
      && ring.Valid()
      && (op.active ==> ValidOptions(op.options) && 1 <= op.attempts <= MaxAttempts(op.options))
    }

    constructor ()
      ensures Valid() && fresh(ring) && fresh(ring.slots) && op == NO_OP && recorded == []
      ensures ring.Contents() == []
    {
      ring := new Ring();
      op := NO_OP;
      recorded := [];
    }

    method Record(outcome: Outcome)
      requires Valid()
      modifies this`recorded, ring, ring.slots
      ensures Valid() && recorded == old(recorded) + [outcome]
      ensures ring.Contents() == Recent(old(ring.Contents()) + [outcome])
    {
      ring.Enqueue(outcome);
      recorded := recorded + [outcome];
    }

    /**
     * The blocking form. `built` is the result of building the frame and `script` the transport's
     * answers, one per attempt. The attempt counter is an unsigned octet.
     */
    method SendData(request: nat, options: SendOptions, built: Result<()>, script: seq<Result<()>>)
      returns (r: Result<()>)
      requires Valid() && ValidOptions(options) && |script| >= MaxAttempts(options)
      modifies this`recorded, ring, ring.slots
      ensures Valid() && op == old(op)
      ensures built.Err? ==> r == built && recorded == old(recorded) + [Outcome(request, built, 0)]
      ensures built.Ok? ==> Decided(options, script).Some?
      ensures built.Ok? ==> var k := Decided(options, script).value;
        r == script[k - 1] && recorded == old(recorded) + [Outcome(request, r, k)]
      ensures |recorded| == |old(recorded)| + 1
      ensures ring.Contents() == Recent(old(ring.Contents()) + [recorded[|recorded| - 1]])
    {
      if built.Err? {
        Record(Outcome(request, built, 0));
        return built;
      }
      DecidedInTime(options, script);
      var max := MaxAttempts(options);
      var attempt := 1;
      r := script[0];
      while attempt <= max
        invariant 1 <= attempt <= max
        invariant forall i :: 0 <= i < attempt - 1 ==> !Final(options, script[i], i + 1)
        decreases max - attempt
      {
        r := script[attempt - 1];
        if r.Ok? || attempt >= max || !ShouldRetry(r.error, options) {
          break;
        }
        attempt := (attempt + 1) % 256;
      }
      FirstFinal(options, script, attempt);
      Record(Outcome(request, r, attempt));
    }

    /** `begin` is the transport's answer to the begin of the first attempt. */
    method BeginSendData(request: nat, options: SendOptions, built: Result<()>, begin: Result<()>)
      returns (r: Result<()>)
      requires Valid() && ValidOptions(options)
      modifies this, ring, ring.slots
      ensures Valid()
      ensures old(op).active ==> r == Err(Busy) && op == old(op) && recorded == old(recorded)
      ensures !old(op).active && built.Err? ==>
        r == built && op == old(op) && recorded == old(recorded) + [Outcome(request, built, 0)]
      ensures !old(op).active && built.Ok? && begin.Err? ==>
        r == begin && op == NO_OP && recorded == old(recorded) + [Outcome(request, begin, 0)]
      ensures !old(op).active && built.Ok? && begin.Ok? ==>
        r == Ok(()) && op == Op(true, request, options, 1) && recorded == old(recorded)
      ensures ring.Contents()
        == if recorded == old(recorded) then old(ring.Contents())
           else Recent(old(ring.Contents()) + [recorded[|recorded| - 1]])
    {
      hide View, Recent;
      if op.active {
        return Err(Busy);
      }
      if built.Err? {
        Record(Outcome(request, built, 0));
        return built;
      }
      if begin.Err? {
        Record(Outcome(request, begin, 0));
        op := NO_OP;
        return begin;
      }
      op := Op(true, request, options, 1);
      return Ok(());
    }

    method PollSendData(poll: Poll) returns (r: Result<Progress>)
      requires Valid()
      modifies this, ring, ring.slots
      ensures Valid()
      ensures !old(op).active ==> r == Err(OperationNotReady) && op == old(op) && recorded == old(recorded)
      ensures old(op).active ==>
        var (next, outcome) := PollStep(old(op), poll);
        && op == next
        && recorded == old(recorded) + (if outcome.Some? then [outcome.value] else [])
        && (outcome.None? ==> r == Ok(Pending) && ring.Contents() == old(ring.Contents()))
        && (outcome.Some? ==> ring.Contents() == Recent(old(ring.Contents()) + [outcome.value]))
        && (outcome.Some? ==> r == Reported(poll, outcome.value))
    {
      hide View, Recent;
      if !op.active {
        return Err(OperationNotReady);
      }
      match poll.progress {
        case Pending =>
          r := Ok(Pending);
        case Done(Ok(_)) =>
          Record(Outcome(op.request, poll.progress.result, op.attempts));
          op := NO_OP;
          r := Ok(poll.progress);
        case Done(Err(e)) =>
          var result := e;
          if IsProgressError(e) && op.attempts < MaxAttempts(op.options) && ShouldRetry(e, op.options) {
            if poll.retryBegin.Ok? {
              op := op.(attempts := op.attempts + 1);
              return Ok(Pending);
            }
            result := poll.retryBegin.error;
          }
          Record(Outcome(op.request, Err(result), op.attempts));
          op := NO_OP;
          r := if IsProgressError(e) then Ok(Done(Err(AsProgress(result)))) else Err(e);
      }
    }
  }

  lemma FirstFinal(o: SendOptions, script: seq<Result<()>>, k: nat)
    requires 1 <= k <= |script| && Final(o, script[k - 1], k)
    requires forall i :: 0 <= i < k - 1 ==> !Final(o, script[i], i + 1)
    ensures Decided(o, script) == Some(k)
  {
    var d := Decided(o, script);
  }

  // ---------------------------------------------------------------------------
  // Runs of the polled form
  // ---------------------------------------------------------------------------

  datatype Run = Run(op: Op, outcomes: seq<Outcome>)

  /** Polls one after the other; polls of an ended operation do nothing. */
  function RunPolls(start: Op, polls: seq<Poll>): Run {
    if polls == [] then Run(start, [])
    else
      var r := RunPolls(start, polls[..|polls| - 1]);
      if !r.op.active then r
      else
        var (next, outcome) := PollStep(r.op, polls[|polls| - 1]);
        Run(next, if outcome.Some? then r.outcomes + [outcome.value] else r.outcomes)
  }

  /** The definite answers among the polls, in order. */
  function Answers(polls: seq<Poll>): seq<Result<()>> {
    if polls == [] then []
    else
      var rest := Answers(polls[..|polls| - 1]);
      match polls[|polls| - 1].progress
      case Pending => rest
      case Done(result) => rest + [result]
  }

  /** Every begin of a retry succeeds. */
  predicate RetriesBegin(polls: seq<Poll>) {
    forall i :: 0 <= i < |polls| ==> polls[i].retryBegin.Ok?
  }

  /** One more answer decides both forms alike. */
  lemma OneMoreAnswer(request: nat, o: SendOptions, before: seq<Result<()>>, poll: Poll)
    requires poll.progress.Done? && poll.retryBegin.Ok? && Decided(o, before).None?
    ensures var answer := poll.progress.result; var k := |before| + 1;
      && Decided(o, before + [answer]) == (if Final(o, answer, k) then Some(k) else None)
      && PollStep(Op(true, request, o, k), poll)
         == (if Final(o, answer, k) then (NO_OP, Some(Outcome(request, answer, k)))
             else (Op(true, request, o, k + 1), None))
  {
    assert (before + [poll.progress.result])[..|before|] == before;
  }

  /**
   * The two forms agree: however the answers are spread over polls, the polled form records exactly
   * the outcome that the blocking form records for the same answers, once it is decided, and
   * nothing before.
   */
  lemma {:induction false} PolledIsBlocking(request: nat, o: SendOptions, polls: seq<Poll>)
    requires RetriesBegin(polls)
    ensures var script := Answers(polls); var r := RunPolls(Op(true, request, o, 1), polls);
      match Decided(o, script)
      case Some(k) => r == Run(NO_OP, [Outcome(request, script[k - 1], k)])
      case None => r == Run(Op(true, request, o, |script| + 1), [])
  {
    hide Decided, Final, MaxAttempts, ShouldRetry;
    if polls != [] {
      var n := |polls| - 1;
      var before := Answers(polls[..n]);
      PolledIsBlocking(request, o, polls[..n]);
      if polls[n].progress.Done? {
        if Decided(o, before).Some? {
          DecidedExtends(o, before, [polls[n].progress.result]);
        } else {
          hide PollStep;
          OneMoreAnswer(request, o, before, polls[n]);
        }
      }
    } else {
      NothingDecided(o);
    }
  }

  lemma NothingDecided(o: SendOptions)
    ensures Decided(o, []) == None
  {
  }

  /** Whatever the transport answers, an accepted send records one outcome when it ends, and none before. */
  lemma {:induction false} OneOutcomePerSend(request: nat, o: SendOptions, polls: seq<Poll>)
    ensures var r := RunPolls(Op(true, request, o, 1), polls);
      if r.op.active
      then r.outcomes == [] && r.op.request == request && r.op.options == o && 1 <= r.op.attempts <= MaxAttempts(o)
      else |r.outcomes| == 1 && r.outcomes[0].request == request && 1 <= r.outcomes[0].attempts <= MaxAttempts(o)
  {
    if polls != [] {
      OneOutcomePerSend(request, o, polls[..|polls| - 1]);
    }
  }

  // ---------------------------------------------------------------------------
  // The policy spelled out
  // ---------------------------------------------------------------------------

  /** Each option governs the retries of one error; no other error is retried. */
  predicate Retried(o: SendOptions, answer: Result<()>) {
    || (answer == Err(Busy) && o.onBusy)
    || (answer == Err(Timeout) && o.onTimeout)
    || (answer == Err(TransmissionFailed) && o.onFailed)
  }

  /**
   * A send ends at attempt `k` exactly if every earlier answer is one the options retry, and the
   * answer to attempt `k` is not, or `k` is the number of attempts allowed, where none means one.
   */
  lemma DecidedIff(o: SendOptions, script: seq<Result<()>>, k: nat)
    ensures Decided(o, script) == Some(k) <==>
      var max := if o.maxAttempts == 0 then 1 else o.maxAttempts;
      && 1 <= k <= |script| && k <= max
      && (forall i :: 0 <= i < k - 1 ==> Retried(o, script[i]))
      && (k == max || !Retried(o, script[k - 1]))
  {
    var max := if o.maxAttempts == 0 then 1 else o.maxAttempts;
    forall i | 0 <= i < |script| ensures Final(o, script[i], i + 1) <==> i + 1 >= max || !Retried(o, script[i]) {
      FinalIff(o, script[i], i + 1);
    }
    hide Final, Retried;
    DecidedInTime(o, script);
    if 1 <= k <= |script| && k <= max && (forall i :: 0 <= i < k - 1 ==> Retried(o, script[i]))
      && (k == max || !Retried(o, script[k - 1])) {
      FirstFinal(o, script, k);
    }
  }

  lemma FinalIff(o: SendOptions, answer: Result<()>, k: nat)
    ensures Final(o, answer, k) <==> k >= (if o.maxAttempts == 0 then 1 else o.maxAttempts) || !Retried(o, answer)
  {
  }

  /** If the begin of a retry fails, the send ends with that error and the attempts made so far. */
  lemma FailedRetryBegin(request: nat, o: SendOptions, polls: seq<Poll>, poll: Poll)
    requires RunPolls(Op(true, request, o, 1), polls).op.active
    requires poll.progress.Done? && poll.retryBegin.Err? && Retried(o, poll.progress.result)
    requires var attempts := RunPolls(Op(true, request, o, 1), polls).op.attempts;
      attempts < if o.maxAttempts == 0 then 1 else o.maxAttempts
    ensures var before := RunPolls(Op(true, request, o, 1), polls);
      RunPolls(Op(true, request, o, 1), polls + [poll])
      == Run(NO_OP, [Outcome(request, poll.retryBegin, before.op.attempts)])
  {
    OneOutcomePerSend(request, o, polls);
    assert (polls + [poll])[..|polls|] == polls;
  }

  /**
   * What the poll that ends a send tells its caller: success, an error of the poll itself as such,
   * and a failed transmission as BUSY, TIMEOUT or, for any other recorded error, TRANSMISSION_FAILED.
   */
  lemma LastPollReports(op: Op, poll: Poll)
    requires op.active && PollStep(op, poll).1.Some?
    ensures poll.progress.Done?
    ensures var outcome := PollStep(op, poll).1.value; var r := Reported(poll, outcome);
      match poll.progress.result
      case Ok(_) => r == Ok(poll.progress) && outcome.result == poll.progress.result
      case Err(e) =>
        if e == Busy || e == Timeout || e == TransmissionFailed then
          && outcome.result.Err?
          && (outcome.result == poll.progress.result || outcome.result == poll.retryBegin)
          && r == Ok(Done(Err(
               if outcome.result.error == Busy then Busy
               else if outcome.result.error == Timeout then Timeout
               else TransmissionFailed)))
        else r == Err(e) && outcome.result == Err(e)
  {
  }
}
