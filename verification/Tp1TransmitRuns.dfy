/** What every run of a transmit operation keeps, for every sequence of physical answers. */
module Tp1TransmitRuns {
  import opened Octets
  import opened FrameCodec
  import opened Tp1Sender

  /** The poll reached the physical layer and got a definite answer from it. */
  predicate Definite(hasClock: bool, s: Tx, env: Env) {
    && s.active && !Deferred(hasClock, s, env.now)
    && ((!s.waiting && env.begin.Some?) || env.outcome != Ok(TxPending))
  }

  /** The physical layer reported BUSY for a copy it had accepted. */
  predicate BusyPoll(hasClock: bool, s: Tx, env: Env) {
    && s.active && !Deferred(hasClock, s, env.now)
    && (s.waiting || env.begin.None?) && env.outcome == Ok(TxBusy)
  }

  /** A run of polls: results in order, begin calls, copies on the wire, and two answer counts. */
  datatype Trace = Trace(
    state: Tx,
    results: seq<Result<TxOutcome>>,
    begins: nat,
    sent: seq<seq<byte>>,
    definite: nat,
    busyPolls: nat)

  ghost function Extend(hasClock: bool, t: Trace, env: Env): Trace
    requires t.state.active ==> |t.state.frame| >= 2
  {
    var step := Poll(hasClock, t.state, env);
    Trace(step.next, t.results + [step.result], t.begins + step.begins, t.sent + step.sent,
      t.definite + (if Definite(hasClock, t.state, env) then 1 else 0),
      t.busyPolls + (if BusyPoll(hasClock, t.state, env) then 1 else 0))
  }

  ghost function Run(hasClock: bool, f: LDataFrame, envs: seq<Env>): (t: Trace)
    requires IsValid(f)
    ensures t.state.active ==> |t.state.frame| >= 2
  {
    if envs == [] then Trace(Begun(f), [], 0, [], 0, 0)
    else Extend(hasClock, Run(hasClock, f, envs[..|envs| - 1]), envs[|envs| - 1])
  }

  function Repeated(f: LDataFrame, yes: bool): LDataFrame { f.(repeated := f.repeated || yes) }

  /** Copies on the wire: first `plain` copies of the frame as given, then copies marked repeated. */
  ghost predicate CopiesOf(f: LDataFrame, sent: seq<seq<byte>>, plain: nat)
    requires IsValid(f)
  {
    && plain <= |sent|
    && (forall i :: 0 <= i < plain ==> sent[i] == Wire(f))
    && (forall i :: plain <= i < |sent| ==> sent[i] == Wire(Repeated(f, true)))
  }

  /** Polls return Pending up to one terminal result, and then refuse. */
  ghost predicate OneTerminal(results: seq<Result<TxOutcome>>, at: nat) {
    && at < |results| && results[at] != Ok(TxPending)
    && (forall i :: 0 <= i < at ==> results[i] == Ok(TxPending))
    && (forall i :: at < i < |results| ==> results[i] == Err(OperationNotReady))
  }

  /** Everything that holds while the operation is active. */
  ghost predicate ActiveInv(f: LDataFrame, t: Trace, plain: nat)
    requires IsValid(f)
  {
    var s := t.state;
    && s.active && s.locked
    && s.busyAttempt <= MAX_BUSY_RETRIES && s.repeatAttempt <= MAX_ACK_RETRIES
    && s.frame == Wire(Repeated(f, s.repeatAttempt > 0))
    && t.begins == s.busyAttempt + s.repeatAttempt + (if s.waiting then 1 else 0)
    && t.definite == s.busyAttempt + s.repeatAttempt
    && (forall i :: 0 <= i < |t.results| ==> t.results[i] == Ok(TxPending))
    && CopiesOf(f, t.sent, plain)
    && (s.repeatAttempt == 0 ==> plain == |t.sent| == t.busyPolls + (if s.waiting then 1 else 0))
    && (s.repeatAttempt > 0 ==> 1 <= plain <= t.busyPolls + 1)
    && (s.waiting ==> t.sent != [])
  }

  /** Everything that holds once it has ended. */
  ghost predicate EndedInv(f: LDataFrame, t: Trace, plain: nat)
    requires IsValid(f)
  {
    && t.state == IDLE
    && 1 <= t.begins <= 1 + MAX_BUSY_RETRIES + MAX_ACK_RETRIES
    && t.definite <= 1 + MAX_BUSY_RETRIES + MAX_ACK_RETRIES
    && (exists at :: OneTerminal(t.results, at))
    && CopiesOf(f, t.sent, plain)
    && plain <= t.busyPolls + 1
    && (t.sent != [] ==> plain >= 1)
  }

  ghost predicate Inv(f: LDataFrame, t: Trace, plain: nat)
    requires IsValid(f)
  {
    if t.state.active then ActiveInv(f, t, plain) else EndedInv(f, t, plain)
  }

  /** Number of unrepeated copies after one more poll. */
  function PlainAfter(hasClock: bool, s: Tx, env: Env, plain: nat): nat {
    if s.active && !Deferred(hasClock, s, env.now) && !s.waiting && env.begin.None? && s.repeatAttempt == 0
    then plain + 1 else plain
  }

  lemma SettleKeeps(hasClock: bool, f: LDataFrame, s: Tx, now: nat, outcome: Result<TxOutcome>)
    requires IsValid(f) && s.active && s.waiting && s.locked
    requires s.busyAttempt <= MAX_BUSY_RETRIES && s.repeatAttempt <= MAX_ACK_RETRIES
    requires s.frame == Wire(Repeated(f, s.repeatAttempt > 0))
    ensures |s.frame| >= 2
    ensures var next := Settle(hasClock, s, now, outcome).0;
      next == IDLE || (next.active && next.locked && next.frame == Wire(Repeated(f, next.repeatAttempt > 0)))
  {
    hide MarkRepeated, Wire;
    WireParts(Repeated(f, s.repeatAttempt > 0));
    MarkRepeatedCommutes(Repeated(f, s.repeatAttempt > 0));
  }

  lemma WaitingPollKeeps(hasClock: bool, f: LDataFrame, t: Trace, env: Env, plain: nat)
    requires IsValid(f) && ActiveInv(f, t, plain) && t.state.waiting && !Deferred(hasClock, t.state, env.now)
    ensures |t.state.frame| >= 2
    ensures Inv(f, Extend(hasClock, t, env), plain)
  {
    hide MarkRepeated, Wire;
    SettleKeeps(hasClock, f, t.state, env.now, env.outcome);
    var t' := Extend(hasClock, t, env);
    assert t'.sent == t.sent;
    if !t'.state.active {
      assert OneTerminal(t'.results, |t.results|);
    }
  }

  lemma AcceptedBeginKeeps(hasClock: bool, f: LDataFrame, t: Trace, env: Env, plain: nat)
    requires IsValid(f) && ActiveInv(f, t, plain) && !t.state.waiting && !Deferred(hasClock, t.state, env.now)
    requires env.begin.None?
    ensures |t.state.frame| >= 2
    ensures Inv(f, Extend(hasClock, t, env), if t.state.repeatAttempt == 0 then plain + 1 else plain)
  {
    CopyAccepted(f, t, plain);
    AcceptedThenWaiting(hasClock, t, env);
    hide *;
    WaitingPollKeeps(hasClock, f, Accepted(t), env.(now := env.later),
      if t.state.repeatAttempt == 0 then plain + 1 else plain);
  }

  /** The run at the moment when the physical layer has accepted a copy and not yet been polled. */
  function Accepted(t: Trace): Trace {
    t.(state := t.state.(waiting := true, retryNotBefore := 0), begins := t.begins + 1, sent := t.sent + [t.state.frame])
  }

  lemma CopyAccepted(f: LDataFrame, t: Trace, plain: nat)
    requires IsValid(f) && ActiveInv(f, t, plain) && !t.state.waiting
    ensures |t.state.frame| >= 2
    ensures ActiveInv(f, Accepted(t), if t.state.repeatAttempt == 0 then plain + 1 else plain)
  {
    WireParts(Repeated(f, t.state.repeatAttempt > 0));
    CopiesGrow(f, t.sent, plain, t.state.repeatAttempt > 0);
    hide Wire, CopiesOf;
  }

  /** A poll that starts a copy goes on as a poll of the accepted copy. */
  lemma AcceptedThenWaiting(hasClock: bool, t: Trace, env: Env)
    requires t.state.active && |t.state.frame| >= 2 && !t.state.waiting && !Deferred(hasClock, t.state, env.now)
    requires env.begin.None?
    ensures !Deferred(hasClock, Accepted(t).state, env.later) && Accepted(t).state.waiting
    ensures |Accepted(t).state.frame| >= 2
    ensures Extend(hasClock, t, env) == Extend(hasClock, Accepted(t), env.(now := env.later))
  {
    hide Settle;
    assert t.sent + [t.state.frame] + [] == t.sent + [t.state.frame];
  }

  lemma CopiesGrow(f: LDataFrame, sent: seq<seq<byte>>, plain: nat, repeated: bool)
    requires IsValid(f) && CopiesOf(f, sent, plain) && (!repeated ==> plain == |sent|)
    ensures CopiesOf(f, sent + [Wire(Repeated(f, repeated))], if repeated then plain else plain + 1)
  {
    hide Wire;
    assert Repeated(f, false) == f;
  }

  lemma RefusedBeginKeeps(hasClock: bool, f: LDataFrame, t: Trace, env: Env, plain: nat)
    requires IsValid(f) && ActiveInv(f, t, plain) && !t.state.waiting && !Deferred(hasClock, t.state, env.now)
    requires env.begin.Some? && |t.state.frame| >= 2
    ensures Inv(f, Extend(hasClock, t, env), plain)
  {
    hide MarkRepeated, Wire;
    var t' := Extend(hasClock, t, env);
    assert t'.sent == t.sent;
    if !t'.state.active {
      assert OneTerminal(t'.results, |t.results|);
    }
  }

  lemma ExtendKeepsActive(hasClock: bool, f: LDataFrame, t: Trace, env: Env, plain: nat)
    requires IsValid(f) && t.state.active && Inv(f, t, plain)
    ensures |t.state.frame| >= 2
    ensures Inv(f, Extend(hasClock, t, env), PlainAfter(hasClock, t.state, env, plain))
  {
    hide MarkRepeated, Wire;
    var s := t.state;
    WireParts(Repeated(f, s.repeatAttempt > 0));
    if Deferred(hasClock, s, env.now) {
      assert Extend(hasClock, t, env).sent == t.sent;
    } else if s.waiting {
      WaitingPollKeeps(hasClock, f, t, env, plain);
    } else if env.begin.None? {
      AcceptedBeginKeeps(hasClock, f, t, env, plain);
    } else {
      RefusedBeginKeeps(hasClock, f, t, env, plain);
    }
  }

  lemma ExtendKeepsEnded(hasClock: bool, f: LDataFrame, t: Trace, env: Env, plain: nat)
    requires IsValid(f) && !t.state.active && Inv(f, t, plain)
    ensures Inv(f, Extend(hasClock, t, env), plain)
  {
    hide Wire;
    var t' := Extend(hasClock, t, env);
    var at :| OneTerminal(t.results, at);
    assert OneTerminal(t'.results, at);
    assert t'.sent == t.sent;
  }

  /** How many unrepeated copies a run puts on the wire. */
  ghost function PlainCopies(hasClock: bool, f: LDataFrame, envs: seq<Env>): nat
    requires IsValid(f)
  {
    if envs == [] then 0
    else
      var before := envs[..|envs| - 1];
      PlainAfter(hasClock, Run(hasClock, f, before).state, envs[|envs| - 1], PlainCopies(hasClock, f, before))
  }

  /** Every run of every length keeps the invariant. */
  lemma {:induction false} RunKeeps(hasClock: bool, f: LDataFrame, envs: seq<Env>)
    requires IsValid(f)
    ensures Inv(f, Run(hasClock, f, envs), PlainCopies(hasClock, f, envs))
  {
    if envs != [] {
      var before, env := envs[..|envs| - 1], envs[|envs| - 1];
      RunKeeps(hasClock, f, before);
      var t, n := Run(hasClock, f, before), PlainCopies(hasClock, f, before);
      if t.state.active {
        ExtendKeepsActive(hasClock, f, t, env, n);
      } else {
        ExtendKeepsEnded(hasClock, f, t, env, n);
      }
    }
  }

  /**
   * In every reachable state of an active operation the buffer has a valid check octet and decodes
   * to the original frame in every field but `repeated`, which for an initially unrepeated frame
   * tells exactly whether a repetition was made.
   */
  lemma BufferStaysTheFrame(hasClock: bool, f: LDataFrame, envs: seq<Env>)
    requires IsValid(f) && Run(hasClock, f, envs).state.active
    ensures var s := Run(hasClock, f, envs).state;
      Decode(s.frame) == Ok(OnWire(f).(repeated := f.repeated || s.repeatAttempt > 0))
  {
    RunKeeps(hasClock, f, envs);
    DecodeInvertsEncode(Repeated(f, Run(hasClock, f, envs).state.repeatAttempt > 0));
  }

  /**
   * Whatever the physical layer answers: at most seven begin calls (one, three BUSY retries and
   * three repetitions), the mutex held exactly while the operation is active, Pending until one
   * terminal result and only refusals after it.
   */
  lemma TransmitIsBounded(hasClock: bool, f: LDataFrame, envs: seq<Env>)
    requires IsValid(f)
    ensures var t := Run(hasClock, f, envs);
      && t.begins <= 7
      && t.state.locked == t.state.active
      && (t.state.active ==> forall i :: 0 <= i < |t.results| ==> t.results[i] == Ok(TxPending))
      && (!t.state.active ==> exists at :: OneTerminal(t.results, at))
  {
    RunKeeps(hasClock, f, envs);
  }

  /** Seven definite physical answers always end the operation. */
  lemma SevenAnswersSuffice(hasClock: bool, f: LDataFrame, envs: seq<Env>)
    requires IsValid(f) && Run(hasClock, f, envs).definite >= 7
    ensures !Run(hasClock, f, envs).state.active
  {
    RunKeeps(hasClock, f, envs);
  }

  // ---------------------------------------------------------------------------
  // When an unrepeated copy is sent again
  // ---------------------------------------------------------------------------

  /** The physical layer reported a NAK or a missing acknowledgement for a copy it had accepted. */
  predicate RepeatPoll(hasClock: bool, s: Tx, env: Env) {
    && s.active && !Deferred(hasClock, s, env.now)
    && (s.waiting || env.begin.None?) && (env.outcome == Ok(TxFailed) || env.outcome == Ok(TxTimeout))
  }

  /** The physical layer accepted a copy. */
  predicate SendPoll(hasClock: bool, s: Tx, env: Env) {
    s.active && !Deferred(hasClock, s, env.now) && !s.waiting && env.begin.None?
  }

  ghost function StateAt(hasClock: bool, f: LDataFrame, envs: seq<Env>, i: nat): Tx
    requires IsValid(f) && i <= |envs|
  {
    Run(hasClock, f, envs[..i]).state
  }

  ghost predicate RepeatAt(hasClock: bool, f: LDataFrame, envs: seq<Env>, i: nat)
    requires IsValid(f) && i < |envs|
  {
    RepeatPoll(hasClock, StateAt(hasClock, f, envs, i), envs[i])
  }

  ghost predicate SentAt(hasClock: bool, f: LDataFrame, envs: seq<Env>, i: nat)
    requires IsValid(f) && i < |envs|
  {
    SendPoll(hasClock, StateAt(hasClock, f, envs, i), envs[i])
  }

  ghost predicate NoRepeatBefore(hasClock: bool, f: LDataFrame, envs: seq<Env>, n: nat)
    requires IsValid(f) && n <= |envs|
  {
    forall k :: 0 <= k < n ==> !RepeatAt(hasClock, f, envs, k)
  }

  /** A BUSY answer for an accepted copy, before any NAK or missing acknowledgement. */
  ghost predicate EarlyBusyAt(hasClock: bool, f: LDataFrame, envs: seq<Env>, i: nat)
    requires IsValid(f) && i < |envs|
  {
    BusyPoll(hasClock, StateAt(hasClock, f, envs, i), envs[i]) && NoRepeatBefore(hasClock, f, envs, i)
  }

  ghost predicate EarlyBusy(hasClock: bool, f: LDataFrame, envs: seq<Env>)
    requires IsValid(f)
  {
    exists i :: 0 <= i < |envs| && EarlyBusyAt(hasClock, f, envs, i)
  }

  /** After such an answer another copy is accepted. */
  ghost predicate BusyResent(hasClock: bool, f: LDataFrame, envs: seq<Env>)
    requires IsValid(f)
  {
    exists i, j :: 0 <= i < j < |envs| && EarlyBusyAt(hasClock, f, envs, i) && SentAt(hasClock, f, envs, j)
  }

  lemma SamePrefix(hasClock: bool, f: LDataFrame, envs: seq<Env>, i: nat)
    requires IsValid(f) && i < |envs| - 1
    ensures var before := envs[..|envs| - 1];
      && RepeatAt(hasClock, f, before, i) == RepeatAt(hasClock, f, envs, i)
      && SentAt(hasClock, f, before, i) == SentAt(hasClock, f, envs, i)
      && StateAt(hasClock, f, before, i) == StateAt(hasClock, f, envs, i)
  {
    assert envs[..|envs| - 1][..i] == envs[..i];
  }

  lemma SameEarlyBusy(hasClock: bool, f: LDataFrame, envs: seq<Env>, i: nat)
    requires IsValid(f) && i < |envs| - 1
    ensures EarlyBusyAt(hasClock, f, envs[..|envs| - 1], i) == EarlyBusyAt(hasClock, f, envs, i)
  {
    hide StateAt, RepeatAt, SentAt;
    var before := envs[..|envs| - 1];
    forall k | 0 <= k <= i ensures RepeatAt(hasClock, f, before, k) == RepeatAt(hasClock, f, envs, k) {
      SamePrefix(hasClock, f, envs, k);
    }
    SamePrefix(hasClock, f, envs, i);
    assert NoRepeatBefore(hasClock, f, before, i) == NoRepeatBefore(hasClock, f, envs, i);
    assert before[i] == envs[i];
  }

  lemma AtTheLastPoll(hasClock: bool, f: LDataFrame, envs: seq<Env>)
    requires IsValid(f) && envs != []
    ensures var n := |envs| - 1; var before := envs[..n]; var s := Run(hasClock, f, before).state;
      && RepeatAt(hasClock, f, envs, n) == RepeatPoll(hasClock, s, envs[n])
      && SentAt(hasClock, f, envs, n) == SendPoll(hasClock, s, envs[n])
      && NoRepeatBefore(hasClock, f, envs, n) == NoRepeatBefore(hasClock, f, before, n)
      && EarlyBusyAt(hasClock, f, envs, n)
         == (BusyPoll(hasClock, s, envs[n]) && NoRepeatBefore(hasClock, f, before, n))
  {
    hide Run, RepeatPoll, SendPoll, BusyPoll;
    var n := |envs| - 1;
    forall k | 0 <= k < n ensures RepeatAt(hasClock, f, envs[..n], k) == RepeatAt(hasClock, f, envs, k) {
      SamePrefix(hasClock, f, envs, k);
    }
  }

  /** What one more poll adds to the three observations. */
  lemma OneMorePoll(hasClock: bool, f: LDataFrame, envs: seq<Env>)
    requires IsValid(f) && envs != []
    ensures var n := |envs| - 1; var before := envs[..n]; var s := Run(hasClock, f, before).state;
      && NoRepeatBefore(hasClock, f, envs, n + 1)
         == (NoRepeatBefore(hasClock, f, before, n) && !RepeatPoll(hasClock, s, envs[n]))
      && EarlyBusy(hasClock, f, envs)
         == (EarlyBusy(hasClock, f, before)
             || (NoRepeatBefore(hasClock, f, before, n) && BusyPoll(hasClock, s, envs[n])))
      && BusyResent(hasClock, f, envs)
         == (BusyResent(hasClock, f, before) || (EarlyBusy(hasClock, f, before) && SendPoll(hasClock, s, envs[n])))
  {
    hide Run, StateAt, RepeatAt, SentAt, EarlyBusyAt, RepeatPoll, SendPoll, BusyPoll;
    var n := |envs| - 1;
    var before := envs[..n];
    AtTheLastPoll(hasClock, f, envs);
    forall i | 0 <= i < n
      ensures SentAt(hasClock, f, before, i) == SentAt(hasClock, f, envs, i)
      ensures EarlyBusyAt(hasClock, f, before, i) == EarlyBusyAt(hasClock, f, envs, i)
    {
      SamePrefix(hasClock, f, envs, i);
      SameEarlyBusy(hasClock, f, envs, i);
    }
    if EarlyBusy(hasClock, f, before) && SentAt(hasClock, f, envs, n) {
      var i :| 0 <= i < n && EarlyBusyAt(hasClock, f, before, i);
      assert EarlyBusyAt(hasClock, f, envs, i);
    }
  }

  /** How the observations and the number of unrepeated copies hang together. */
  ghost predicate CountsAgree(t: Trace, plain: nat, early: bool, unrepeated: bool, resent: bool) {
    && (resent <==> plain >= 2) && (resent ==> early)
    && (t.state.active && t.state.repeatAttempt == 0 ==> unrepeated && (early <==> t.busyPolls > 0))
    && (t.state.active && t.state.repeatAttempt > 0 ==> !unrepeated && (early ==> resent))
  }

  lemma ExtendKeepsCounts(
    hasClock: bool, f: LDataFrame, t: Trace, env: Env, plain: nat, early: bool, unrepeated: bool, resent: bool)
    requires IsValid(f) && Inv(f, t, plain) && CountsAgree(t, plain, early, unrepeated, resent)
    requires t.state.active ==> |t.state.frame| >= 2
    ensures CountsAgree(Extend(hasClock, t, env), PlainAfter(hasClock, t.state, env, plain),
      early || (unrepeated && BusyPoll(hasClock, t.state, env)),
      unrepeated && !RepeatPoll(hasClock, t.state, env),
      resent || (early && SendPoll(hasClock, t.state, env)))
  {
    hide MarkRepeated, Wire, CopiesOf, OneTerminal;
  }

  /**
   * In every run, a second unrepeated copy goes out exactly if some accepted copy was answered with
   * BUSY before the first NAK or missing acknowledgement, and a copy was accepted after that.
   */
  lemma {:induction false} ResentIff(hasClock: bool, f: LDataFrame, envs: seq<Env>)
    requires IsValid(f)
    ensures PlainCopies(hasClock, f, envs) >= 2 <==> BusyResent(hasClock, f, envs)
    ensures CountsAgree(Run(hasClock, f, envs), PlainCopies(hasClock, f, envs), EarlyBusy(hasClock, f, envs),
      NoRepeatBefore(hasClock, f, envs, |envs|), BusyResent(hasClock, f, envs))
  {
    if envs != [] {
      var before := envs[..|envs| - 1];
      ResentIff(hasClock, f, before);
      RunKeeps(hasClock, f, before);
      OneMorePoll(hasClock, f, envs);
      hide Extend, EarlyBusy, BusyResent, NoRepeatBefore, Inv, PlainAfter, CountsAgree;
      ExtendKeepsCounts(hasClock, f, Run(hasClock, f, before), envs[|envs| - 1], PlainCopies(hasClock, f, before),
        EarlyBusy(hasClock, f, before), NoRepeatBefore(hasClock, f, before, |before|), BusyResent(hasClock, f, before));
    }
  }

  const BUSY_ANSWER := Env(0, 0, None, Ok(TxBusy))
  const NO_ACK_ANSWER := Env(0, 0, None, Ok(TxTimeout))

  /** A physical layer that reports BUSY for `busy` copies and then `silent` missing acknowledgements. */
  function Answers(busy: nat, silent: nat): seq<Env> {
    if silent > 0 then Answers(busy, silent - 1) + [NO_ACK_ANSWER]
    else if busy > 0 then Answers(busy - 1, 0) + [BUSY_ANSWER]
    else []
  }

  /** One more answer advances its own counter and leaves the other one alone. */
  lemma AnswerCounts(t: Trace)
    requires t.state.active && !t.state.waiting && |t.state.frame| >= 2
    ensures var s, next := t.state, Extend(false, t, BUSY_ANSWER).state;
      s.busyAttempt < MAX_BUSY_RETRIES ==>
        next.active && !next.waiting && next.busyAttempt == s.busyAttempt + 1 && next.repeatAttempt == s.repeatAttempt
    ensures var s, next := t.state, Extend(false, t, NO_ACK_ANSWER).state;
      s.repeatAttempt < MAX_ACK_RETRIES ==>
        next.active && !next.waiting && next.busyAttempt == s.busyAttempt && next.repeatAttempt == s.repeatAttempt + 1
  {
    hide MarkRepeated;
  }

  /** The two retry budgets are independent: every combination of the two counters is reached. */
  lemma {:induction false} BudgetsAreIndependent(f: LDataFrame, busy: nat, silent: nat)
    requires IsValid(f) && busy <= MAX_BUSY_RETRIES && silent <= MAX_ACK_RETRIES
    ensures var t := Run(false, f, Answers(busy, silent));
      t.state.active && !t.state.waiting && t.state.busyAttempt == busy && t.state.repeatAttempt == silent
    decreases busy + silent
  {
    hide Extend, Wire;
    var envs := Answers(busy, silent);
    if silent > 0 {
      BudgetsAreIndependent(f, busy, silent - 1);
      assert envs[..|envs| - 1] == Answers(busy, silent - 1);
      AnswerCounts(Run(false, f, Answers(busy, silent - 1)));
    } else if busy > 0 {
      BudgetsAreIndependent(f, busy - 1, 0);
      assert envs[..|envs| - 1] == Answers(busy - 1, 0);
      AnswerCounts(Run(false, f, Answers(busy - 1, 0)));
    }
  }

  /** So the bound of seven begin calls is reached. */
  lemma SevenBeginsHappen(f: LDataFrame)
    requires IsValid(f)
    ensures Run(false, f, Answers(3, 4)).begins == 7
  {
    hide MarkRepeated, Wire;
    var envs := Answers(3, 4);
    BudgetsAreIndependent(f, 3, 3);
    assert envs[..|envs| - 1] == Answers(3, 3);
    RunKeeps(false, f, Answers(3, 3));
  }
}
