/**
 * The polled TP1 transmit operation: local BUSY retries and protocol repetitions of one buffered
 * frame, against a physical layer that may answer anything at any time.
 */
module Tp1Sender {
  import opened Octets
  import opened FrameCodec

  const MAX_BUSY_RETRIES := 3
  const MAX_ACK_RETRIES := 3
  const TX_BUFFER_SIZE := 263
  const RETRY_DELAY_MS := 4

  datatype TxOutcome = TxPending | TxSuccess | TxBusy | TxFailed | TxTimeout

  /**
   * What one poll meets: the clock (read again after a successful physical begin), the answer to a
   * physical begin if one is made, and the answer to a physical poll if one is made.
   */
  datatype Env = Env(now: nat, later: nat, begin: Option<ErrorCode>, outcome: Result<TxOutcome>)

  datatype Tx = Tx(
    active: bool,
    waiting: bool,
    busyAttempt: nat,
    repeatAttempt: nat,
    retryNotBefore: nat,
    frame: seq<byte>,
    locked: bool)

  const IDLE := Tx(false, false, 0, 0, 0, [], false)

  /** The state right after a frame was accepted for transmission. */
  ghost function Begun(f: LDataFrame): Tx
    requires IsValid(f)
  {
    Tx(true, false, 0, 0, 0, Wire(f), true)
  }

  datatype Step = Step(next: Tx, result: Result<TxOutcome>, begins: nat, sent: seq<seq<byte>>)

  function Backoff(hasClock: bool, now: nat): nat { if hasClock then now + RETRY_DELAY_MS else 0 }

  predicate Deferred(hasClock: bool, s: Tx, now: nat) {
    hasClock && s.retryNotBefore != 0 && now < s.retryNotBefore
  }

  /** One poll of an active operation whose frame is with the physical layer. */
  ghost function Settle(hasClock: bool, s: Tx, now: nat, outcome: Result<TxOutcome>): (Tx, Result<TxOutcome>)
    requires s.active && |s.frame| >= 2
  {
    match outcome
    case Err(e) => (IDLE, Err(e))
    case Ok(TxPending) => (s, Ok(TxPending))
    case Ok(TxSuccess) => (IDLE, Ok(TxSuccess))
    case Ok(TxBusy) =>
      if s.busyAttempt < MAX_BUSY_RETRIES
      then (s.(waiting := false, busyAttempt := s.busyAttempt + 1, retryNotBefore := Backoff(hasClock, now)),
            Ok(TxPending))
      else (IDLE, Ok(TxBusy))
    case Ok(kind) =>
      if s.repeatAttempt < MAX_ACK_RETRIES
      then (s.(waiting := false, repeatAttempt := s.repeatAttempt + 1, retryNotBefore := Backoff(hasClock, now),
               frame := MarkRepeated(s.frame)),
            Ok(TxPending))
      else (IDLE, Ok(kind))
  }

  function BeginFailure(e: ErrorCode): TxOutcome {
    if e == Busy then TxBusy else if e == Timeout then TxTimeout else TxFailed
  }

  /** One call of pollTransmit on an initialised layer. */
  ghost function Poll(hasClock: bool, s: Tx, env: Env): Step
    requires s.active ==> |s.frame| >= 2
  {
    if !s.active then Step(s, Err(OperationNotReady), 0, [])
    else if Deferred(hasClock, s, env.now) then Step(s, Ok(TxPending), 0, [])
    else if s.waiting then
      var (next, result) := Settle(hasClock, s, env.now, env.outcome);
      Step(next, result, 0, [])
    else match env.begin
      case None =>
        var (next, result) := Settle(hasClock, s.(waiting := true, retryNotBefore := 0), env.later, env.outcome);
        Step(next, result, 1, [s.frame])
      case Some(e) =>
        if e == Busy && s.busyAttempt < MAX_BUSY_RETRIES
        then Step(s.(busyAttempt := s.busyAttempt + 1, retryNotBefore := Backoff(hasClock, env.now)),
                  Ok(TxPending), 1, [])
        else Step(IDLE, Ok(BeginFailure(e)), 1, [])
  }

  /** The data link layer's transmit side. `mutexHeld` stands for the platform mutex. */
  class Sender {
    const hasClock: bool
    const buffer: array<byte>
    var initialized: bool
    var active: bool
    var waiting: bool
    var busyAttempt: nat
    var repeatAttempt: nat
    var retryNotBefore: nat
    var length: nat
    var mutexHeld: bool
    var txFrames: nat
    var txRepetitions: nat
    ghost var begins: nat
    ghost var sent: seq<seq<byte>>

    ghost predicate Valid()
      reads this, buffer
    {
      && buffer.Length == TX_BUFFER_SIZE
      && length <= buffer.Length
      && (active ==> length >= 2)
      && (!active ==> State() == IDLE)
    }

    ghost function State(): Tx
      requires length <= buffer.Length
      reads this, buffer
    {
      Tx(active, waiting, busyAttempt, repeatAttempt, retryNotBefore, buffer[..length], mutexHeld)
    }

    constructor (hasClock: bool)
      ensures Valid() && fresh(buffer) && State() == IDLE && !initialized && this.hasClock == hasClock
      ensures begins == 0 && sent == []
    {
      this.hasClock := hasClock;
      buffer := new byte[TX_BUFFER_SIZE];
      initialized, active, waiting, mutexHeld := false, false, false, false;
      busyAttempt, repeatAttempt, retryNotBefore, length := 0, 0, 0, 0;
      txFrames, txRepetitions := 0, 0;
      begins, sent := 0, [];
    }

    method FinishTxOperation()
      modifies this`active, this`waiting, this`busyAttempt, this`repeatAttempt, this`retryNotBefore,
               this`length, this`mutexHeld
      ensures length == 0 && State() == if old(active) then IDLE else IDLE.(locked := old(mutexHeld))
    {
      if active {
        mutexHeld := false;
      }
      active, waiting, busyAttempt, repeatAttempt, retryNotBefore, length := false, false, 0, 0, 0, 0;
    }

    /** `lockOk` is the platform's answer to the mutex request. */
    method BeginTransmit(f: LDataFrame, lockOk: bool) returns (r: Result<()>)
      requires Valid()
      modifies this, buffer
      ensures Valid() && initialized == old(initialized)
      ensures begins == old(begins) && sent == old(sent)
      ensures r ==
        if !initialized then Err(NotInitialized)
        else if old(active) then Err(Busy)
        else if !lockOk then Err(Timeout)
        else if !IsValid(f) then Err(InvalidParameter)
        else if |f.tpdu| == 256 then Err(BufferTooSmall)
        else Ok(())
      ensures r.Ok? ==> State() == Begun(f)
      ensures r.Err? ==> State() == old(State())
    {
      if !initialized {
        return Err(NotInitialized);
      }
      if active {
        return Err(Busy);
      }
      if !lockOk {
        return Err(Timeout);
      }
      r := BufferFrame(f);
    }

    /** Takes the mutex and encodes the frame; a frame that cannot be encoded gives the mutex back. */
    method BufferFrame(f: LDataFrame) returns (r: Result<()>)
      requires Valid() && !active
      modifies this`mutexHeld, this`active, this`waiting, this`busyAttempt, this`repeatAttempt,
               this`retryNotBefore, this`length, buffer
      ensures Valid()
      ensures r ==
        if !IsValid(f) then Err(InvalidParameter) else if |f.tpdu| == 256 then Err(BufferTooSmall) else Ok(())
      ensures State() == if r.Ok? then Begun(f) else IDLE
    {
      hide Wire, Fcs;
      mutexHeld := true;
      var encoded := EncodeFrame(f, buffer);
      if encoded.Err? {
        mutexHeld := false;
        return Err(encoded.error);
      }
      active, waiting, busyAttempt, repeatAttempt, retryNotBefore := true, false, 0, 0, 0;
      length := encoded.value;
      return Ok(());
    }

    method MarkTxFrameAsRepeated()
      requires buffer.Length == TX_BUFFER_SIZE && 2 <= length <= buffer.Length
      modifies buffer
      ensures buffer[..length] == MarkRepeated(old(buffer[..length]))
    {
      ghost var before := buffer[..length];
      buffer[0] := buffer[0] & 0xDF;
      assert buffer[..length - 1] == before[..length - 1][0 := before[0] & 0xDF];
      var checksum := CalculateChecksum(buffer[..length - 1]);
      buffer[length - 1] := checksum;
      assert buffer[..length] == MarkRepeated(before);
    }

    method PollTransmit(env: Env) returns (r: Result<TxOutcome>)
      requires Valid()
      modifies this, buffer
      ensures Valid() && initialized == old(initialized)
      ensures !initialized ==> r == Err(NotInitialized) && State() == old(State())
      ensures initialized ==> var step := Poll(hasClock, old(State()), env);
        && r == step.result && State() == step.next
        && begins == old(begins) + step.begins && sent == old(sent) + step.sent
        && txFrames == old(txFrames) + (if r == Ok(TxSuccess) then 1 else 0)
        && txRepetitions == old(txRepetitions) + (if step.next.repeatAttempt > old(repeatAttempt) then 1 else 0)
      decreases !waiting
    {
      hide MarkRepeated;
      if !initialized {
        return Err(NotInitialized);
      }
      if !active {
        return Err(OperationNotReady);
      }
      if hasClock && retryNotBefore != 0 && env.now < retryNotBefore {
        return Ok(TxPending);
      }
      if waiting {
        r := SettleOutcome(env.now, env.outcome);
        return;
      }
      r := StartCopy(env.now, env.begin);
      if env.begin.None? {
        r := PollTransmit(env.(now := env.later));
      }
    }

    /** Hands the buffered frame to the physical layer; a refusal is retried while it is BUSY. */
    method StartCopy(now: nat, begin: Option<ErrorCode>) returns (r: Result<TxOutcome>)
      requires Valid() && active && !waiting
      modifies this
      ensures Valid() && initialized == old(initialized)
      ensures begins == old(begins) + 1 && txFrames == old(txFrames) && txRepetitions == old(txRepetitions)
      ensures sent == if begin.None? then old(sent) + [old(buffer[..length])] else old(sent)
      ensures match begin
        case None => State() == old(State()).(waiting := true, retryNotBefore := 0)
        case Some(e) =>
          if e == Busy && old(busyAttempt) < MAX_BUSY_RETRIES
          then r == Ok(TxPending) && State() == old(State()).(busyAttempt := old(busyAttempt) + 1,
                 retryNotBefore := Backoff(hasClock, now))
          else r == Ok(BeginFailure(e)) && State() == IDLE
    {
      begins := begins + 1;
      r := Ok(TxPending);
      match begin
      case None =>
        sent := sent + [buffer[..length]];
        waiting, retryNotBefore := true, 0;
      case Some(e) =>
        if e == Busy && busyAttempt < MAX_BUSY_RETRIES {
          busyAttempt := busyAttempt + 1;
          retryNotBefore := Backoff(hasClock, now);
        } else {
          FinishTxOperation();
          r := Ok(BeginFailure(e));
        }
    }

    method SettleOutcome(now: nat, outcome: Result<TxOutcome>) returns (r: Result<TxOutcome>)
      requires Valid() && active && waiting && initialized
      modifies this, buffer
      ensures Valid() && initialized
      ensures var (next, result) := Settle(hasClock, old(State()), now, outcome);
        && r == result && State() == next
        && txRepetitions == old(txRepetitions) + (if next.repeatAttempt > old(repeatAttempt) then 1 else 0)
      ensures txFrames == old(txFrames) + (if r == Ok(TxSuccess) then 1 else 0)
      ensures begins == old(begins) && sent == old(sent)
    {
      hide MarkRepeated;
      match outcome
      case Err(e) =>
        FinishTxOperation();
        r := Err(e);
      case Ok(TxPending) =>
        r := Ok(TxPending);
      case Ok(TxSuccess) =>
        txFrames := txFrames + 1;
        FinishTxOperation();
        r := Ok(TxSuccess);
      case Ok(TxBusy) =>
        waiting := false;
        if busyAttempt < MAX_BUSY_RETRIES {
          busyAttempt := busyAttempt + 1;
          retryNotBefore := Backoff(hasClock, now);
          return Ok(TxPending);
        }
        FinishTxOperation();
        r := Ok(TxBusy);
      case Ok(kind) =>
        waiting := false;
        if repeatAttempt < MAX_ACK_RETRIES {
          repeatAttempt := repeatAttempt + 1;
          retryNotBefore := Backoff(hasClock, now);
          MarkTxFrameAsRepeated();
          txRepetitions := txRepetitions + 1;
          return Ok(TxPending);
        }
        FinishTxOperation();
        r := Ok(kind);
    }
  }
}
