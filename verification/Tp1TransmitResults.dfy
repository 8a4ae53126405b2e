/** What a transmit operation answers and when it asks, in terms of what its polls met at the physical port. */
module Tp1TransmitResults {
  import opened Octets
  import opened FrameCodec
  import opened Tp1Sender
  import opened Tp1TransmitRuns

  /** What a poll met: no question was asked, a begin was refused, or a copy was answered for. */
  datatype Meeting = Nothing | Refused(error: ErrorCode) | Answered(outcome: Result<TxOutcome>)

  function Met(hasClock: bool, s: Tx, env: Env): Meeting {
    if !s.active || Deferred(hasClock, s, env.now) then Nothing
    else if !s.waiting && env.begin.Some? then Refused(env.begin.value)
    else Answered(env.outcome)
  }

  predicate IsBusy(m: Meeting) { m == Refused(Busy) || m == Answered(Ok(TxBusy)) }

  /** A NAK or a missing acknowledgement. */
  predicate IsMiss(m: Meeting) { m == Answered(Ok(TxFailed)) || m == Answered(Ok(TxTimeout)) }

  ghost function MetAt(hasClock: bool, f: LDataFrame, envs: seq<Env>, i: nat): Meeting
    requires IsValid(f) && i < |envs|
  {
    Met(hasClock, StateAt(hasClock, f, envs, i), envs[i])
  }

  /** How many polls of a run met BUSY. */
  ghost function Busies(hasClock: bool, f: LDataFrame, envs: seq<Env>): nat
    requires IsValid(f)
  {
    if envs == [] then 0
    else
      var n := |envs| - 1;
      Busies(hasClock, f, envs[..n]) + if IsBusy(Met(hasClock, Run(hasClock, f, envs[..n]).state, envs[n])) then 1 else 0
  }

  /** How many polls of a run met a NAK or a missing acknowledgement. */
  ghost function Misses(hasClock: bool, f: LDataFrame, envs: seq<Env>): nat
    requires IsValid(f)
  {
    if envs == [] then 0
    else
      var n := |envs| - 1;
      Misses(hasClock, f, envs[..n]) + if IsMiss(Met(hasClock, Run(hasClock, f, envs[..n]).state, envs[n])) then 1 else 0
  }

  lemma PollCounts(hasClock: bool, s: Tx, env: Env)
    requires s.active && |s.frame| >= 2
    ensures var next, m := Poll(hasClock, s, env).next, Met(hasClock, s, env);
      next.active ==>
        && next.busyAttempt == s.busyAttempt + (if IsBusy(m) then 1 else 0)
        && next.repeatAttempt == s.repeatAttempt + (if IsMiss(m) then 1 else 0)
  {
    hide MarkRepeated;
  }

  /** The two counters of an active operation count what its polls met. */
  lemma {:induction false} CountersCountAnswers(hasClock: bool, f: LDataFrame, envs: seq<Env>)
    requires IsValid(f)
    ensures var s := Run(hasClock, f, envs).state;
      s.active ==> s.busyAttempt == Busies(hasClock, f, envs) && s.repeatAttempt == Misses(hasClock, f, envs)
  {
    if envs != [] {
      hide Poll, Met, IsBusy, IsMiss;
      var n := |envs| - 1;
      CountersCountAnswers(hasClock, f, envs[..n]);
      var s := Run(hasClock, f, envs[..n]).state;
      if s.active {
        PollCounts(hasClock, s, envs[n]);
      } else {
        EndedStaysEnded(hasClock, s, envs[n]);
      }
    }
  }

  lemma EndedStaysEnded(hasClock: bool, s: Tx, env: Env)
    requires !s.active
    ensures Poll(hasClock, s, env) == Step(s, Err(OperationNotReady), 0, [])
  {
  }

  /** What a poll answers to what it met, after `busies` BUSY answers and `misses` misses. */
  function Answer(m: Meeting, busies: nat, misses: nat): Result<TxOutcome> {
    match m
    case Nothing => Ok(TxPending)
    case Refused(Busy) => if busies < 3 then Ok(TxPending) else Ok(TxBusy)
    case Refused(Timeout) => Ok(TxTimeout)
    case Refused(_) => Ok(TxFailed)
    case Answered(Ok(TxBusy)) => if busies < 3 then Ok(TxPending) else Ok(TxBusy)
    case Answered(Ok(TxFailed)) => if misses < 3 then Ok(TxPending) else Ok(TxFailed)
    case Answered(Ok(TxTimeout)) => if misses < 3 then Ok(TxPending) else Ok(TxTimeout)
    case Answered(answer) => answer
  }

  lemma PollAnswers(hasClock: bool, s: Tx, env: Env)
    requires s.active && |s.frame| >= 2
    ensures var step := Poll(hasClock, s, env);
      && step.result == Answer(Met(hasClock, s, env), s.busyAttempt, s.repeatAttempt)
      && (step.next.active <==> step.result == Ok(TxPending))
  {
    hide MarkRepeated;
  }

  lemma {:induction false} ResultAt(hasClock: bool, f: LDataFrame, envs: seq<Env>, i: nat)
    requires IsValid(f) && i < |envs|
    ensures |Run(hasClock, f, envs).results| == |envs|
    ensures var s := StateAt(hasClock, f, envs, i);
      Run(hasClock, f, envs).results[i] == Poll(hasClock, s, envs[i]).result
  {
    hide Poll;
    var n := |envs| - 1;
    OneResultPerPoll(hasClock, f, envs[..n]);
    if i < n {
      ResultAt(hasClock, f, envs[..n], i);
      assert envs[..n][..i] == envs[..i];
    }
  }

  /** Every poll of every run answers as follows. */
  lemma ResultOfAPoll(hasClock: bool, f: LDataFrame, envs: seq<Env>, i: nat)
    requires IsValid(f) && i < |envs|
    ensures |Run(hasClock, f, envs).results| == |envs|
    ensures var s := StateAt(hasClock, f, envs, i);
      Run(hasClock, f, envs).results[i]
      == if s.active
         then Answer(MetAt(hasClock, f, envs, i), Busies(hasClock, f, envs[..i]), Misses(hasClock, f, envs[..i]))
         else Err(OperationNotReady)
  {
    hide Poll, Met, Answer;
    ResultAt(hasClock, f, envs, i);
    var s := StateAt(hasClock, f, envs, i);
    if s.active {
      CountersCountAnswers(hasClock, f, envs[..i]);
      PollAnswers(hasClock, s, envs[i]);
    } else {
      EndedStaysEnded(hasClock, s, envs[i]);
    }
  }

  /**
   * Which terminal result an operation gives, over every run, by what its last effective poll met:
   * success for an acknowledged copy and nothing else, BUSY for the fourth BUSY, failure or timeout
   * for the fourth miss of that kind or a begin refused that way, an error for that error of the poll.
   */
  lemma TerminalResult(hasClock: bool, f: LDataFrame, envs: seq<Env>, at: nat)
    requires IsValid(f) && at < |envs| && OneTerminal(Run(hasClock, f, envs).results, at)
    ensures var r := Run(hasClock, f, envs).results[at]; var m := MetAt(hasClock, f, envs, at);
      var busies, misses := Busies(hasClock, f, envs[..at]), Misses(hasClock, f, envs[..at]);
      && (r == Ok(TxSuccess) <==> m == Answered(Ok(TxSuccess)))
      && (r == Ok(TxBusy) <==> (m == Refused(Busy) || m == Answered(Ok(TxBusy))) && busies == 3)
      && (r == Ok(TxTimeout) <==> m == Refused(Timeout) || (m == Answered(Ok(TxTimeout)) && misses == 3))
      && (r == Ok(TxFailed) <==>
            || (m.Refused? && m.error != Busy && m.error != Timeout)
            || (m == Answered(Ok(TxFailed)) && misses == 3))
      && (forall e :: r == Err(e) <==> m == Answered(Err(e)))
  {
    hide Poll, Met, Run, StateAt;
    ResultOfAPoll(hasClock, f, envs, at);
    ActiveUpToTheEnd(hasClock, f, envs, at);
    CountersCountAnswers(hasClock, f, envs[..at]);
    CountersAreBounded(hasClock, f, envs[..at]);
  }

  lemma CountersAreBounded(hasClock: bool, f: LDataFrame, envs: seq<Env>)
    requires IsValid(f)
    ensures var s := Run(hasClock, f, envs).state; s.active ==> s.busyAttempt <= 3 && s.repeatAttempt <= 3
  {
    RunKeeps(hasClock, f, envs);
  }

  /** Up to its terminal result the operation is active. */
  lemma ActiveUpToTheEnd(hasClock: bool, f: LDataFrame, envs: seq<Env>, at: nat)
    requires IsValid(f) && at < |envs| && OneTerminal(Run(hasClock, f, envs).results, at)
    ensures StateAt(hasClock, f, envs, at) == Run(hasClock, f, envs[..at]).state
    ensures StateAt(hasClock, f, envs, at).active
  {
    hide Poll;
    var before := envs[..at];
    OneResultPerPoll(hasClock, f, before);
    forall i | 0 <= i < at ensures Run(hasClock, f, before).results[i] == Ok(TxPending) {
      ResultAt(hasClock, f, before, i);
      ResultAt(hasClock, f, envs, i);
      assert before[..i] == envs[..i];
    }
    PendingMeansActive(hasClock, f, before);
  }

  lemma {:induction false} OneResultPerPoll(hasClock: bool, f: LDataFrame, envs: seq<Env>)
    requires IsValid(f)
    ensures |Run(hasClock, f, envs).results| == |envs|
  {
    hide Poll;
    if envs != [] {
      OneResultPerPoll(hasClock, f, envs[..|envs| - 1]);
    }
  }

  lemma PendingMeansActive(hasClock: bool, f: LDataFrame, envs: seq<Env>)
    requires IsValid(f)
    requires forall i :: 0 <= i < |Run(hasClock, f, envs).results| ==> Run(hasClock, f, envs).results[i] == Ok(TxPending)
    ensures Run(hasClock, f, envs).state.active
  {
    hide Run, CopiesOf;
    RunKeeps(hasClock, f, envs);
  }

  // ---------------------------------------------------------------------------
  // When a poll asks
  // ---------------------------------------------------------------------------

  /** The clock reading at which a poll reacts: it is read again after a copy was accepted. */
  function ReactsAt(s: Tx, env: Env): nat { if !s.waiting && env.begin.None? then env.later else env.now }

  /** The time of the last BUSY or miss, if no question was answered since. */
  ghost function RetryTime(hasClock: bool, f: LDataFrame, envs: seq<Env>): Option<nat>
    requires IsValid(f)
  {
    if envs == [] then None
    else
      var n := |envs| - 1;
      var s := Run(hasClock, f, envs[..n]).state;
      var m := Met(hasClock, s, envs[n]);
      if IsBusy(m) || IsMiss(m) then Some(ReactsAt(s, envs[n]))
      else if m == Nothing then RetryTime(hasClock, f, envs[..n])
      else None
  }

  predicate KnowsRetry(hasClock: bool, s: Tx, retry: Option<nat>) {
    s.retryNotBefore == (if hasClock && retry.Some? then retry.value + 4 else 0) && (s.waiting ==> s.retryNotBefore == 0)
  }

  lemma PollKeepsRetry(hasClock: bool, s: Tx, env: Env, retry: Option<nat>)
    requires s.active && |s.frame| >= 2 && KnowsRetry(hasClock, s, retry)
    ensures var next, m := Poll(hasClock, s, env).next, Met(hasClock, s, env);
      next.active ==> KnowsRetry(hasClock, next,
        if IsBusy(m) || IsMiss(m) then Some(ReactsAt(s, env)) else if m == Nothing then retry else None)
  {
    hide MarkRepeated;
  }

  lemma {:induction false} RetryIsKnown(hasClock: bool, f: LDataFrame, envs: seq<Env>)
    requires IsValid(f)
    ensures var s := Run(hasClock, f, envs).state; s.active ==> KnowsRetry(hasClock, s, RetryTime(hasClock, f, envs))
  {
    if envs != [] {
      hide Poll, Met, KnowsRetry, IsBusy, IsMiss;
      var n := |envs| - 1;
      RetryIsKnown(hasClock, f, envs[..n]);
      var s := Run(hasClock, f, envs[..n]).state;
      if s.active {
        PollKeepsRetry(hasClock, s, envs[n], RetryTime(hasClock, f, envs[..n]));
      } else {
        EndedStaysEnded(hasClock, s, envs[n]);
      }
    }
  }

  /** In every run, a poll of an active operation holds back exactly during four milliseconds after a BUSY or a miss. */
  lemma HoldsBackIff(hasClock: bool, f: LDataFrame, envs: seq<Env>, env: Env)
    requires IsValid(f) && Run(hasClock, f, envs).state.active
    ensures var retry := RetryTime(hasClock, f, envs);
      Met(hasClock, Run(hasClock, f, envs).state, env) == Nothing
      <==> hasClock && retry.Some? && env.now < retry.value + 4
  {
    hide Run, RetryTime;
    RetryIsKnown(hasClock, f, envs);
  }
}
