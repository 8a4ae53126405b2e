/**
 * Transmit shaping of group objects: send-on-change, minimum interval, cyclic heartbeat and deferred
 * sends, on a 32-bit millisecond clock that wraps.
 */
module GroupShaping {
  import opened Octets
  import opened WrappingClock

  const MAX_PAYLOAD := 16

  datatype Policy = Policy(onChange: bool, threshold: real, cyclicMs: tick, minMs: tick)

  /** A datapoint type's reading of a raw value as a number, where it has one. */
  type Scale = seq<byte> -> Option<real>

  datatype Obj = Obj(
    policy: Policy,
    transmit: bool,
    raw: seq<byte>,
    valid: bool,
    lastSent: seq<byte>,
    lastSentValid: bool,
    lastSentMs: tick,
    pending: bool)

  datatype Decision = Send | Defer | Suppress

  predicate ChangedSignificantly(scale: Scale, o: Obj) {
    if !o.lastSentValid then true
    else if o.raw == o.lastSent then false
    else if o.policy.threshold <= 0.0 then true
    else match (scale(o.raw), scale(o.lastSent))
      case (Some(current), Some(previous)) =>
        (if current >= previous then current - previous else previous - current) >= o.policy.threshold
      case _ => true
  }

  function DecidePublish(scale: Scale, o: Obj, now: tick): Decision {
    if !o.lastSentValid then Send
    else if o.policy.onChange && !ChangedSignificantly(scale, o) then Suppress
    else if o.policy.minMs != 0 && Elapsed(now, o.lastSentMs) < o.policy.minMs then Defer
    else Send
  }

  predicate DueForCyclic(o: Obj, now: tick) {
    o.policy.cyclicMs != 0 && o.lastSentValid && Elapsed(now, o.lastSentMs) >= o.policy.cyclicMs
  }

  predicate ReadyToSendDeferred(o: Obj, now: tick) {
    o.pending && (o.policy.minMs == 0 || !o.lastSentValid || Elapsed(now, o.lastSentMs) >= o.policy.minMs)
  }

  function NoteTransmitted(o: Obj, now: tick): Obj {
    o.(lastSent := o.raw, lastSentValid := true, lastSentMs := now, pending := false)
  }

  /** Answers met on the way out: is the object linked, does the rate limiter allow, does the send succeed. */
  datatype Path = Path(linked: bool, allowed: bool, sendOk: bool)

  datatype Effect = Effect(next: Obj, ok: bool, sent: bool)

  /** A publish of the stored value; without a clock the time-based parts do not apply. */
  function Publish(scale: Scale, hasClock: bool, o: Obj, now: tick, path: Path): Effect {
    if !path.linked then Effect(o, true, false)
    else
      var decision := DecidePublish(scale, o, now);
      if decision == Suppress then Effect(o, true, false)
      else if hasClock && (decision == Defer || !path.allowed) then Effect(o.(pending := true), true, false)
      else if path.sendOk then Effect(NoteTransmitted(o, now), true, true)
      else Effect(o, false, false)
  }

  predicate Eligible(o: Obj, now: tick, path: Path) {
    o.transmit && o.valid && path.linked && (DueForCyclic(o, now) || ReadyToSendDeferred(o, now))
  }

  /** What one pass of the pump does to an object it reaches. */
  function PumpOne(o: Obj, now: tick, path: Path): Obj {
    if Eligible(o, now, path) && path.allowed && path.sendOk then NoteTransmitted(o, now) else o
  }

  /** The pump visits objects in order and stops at the first one the rate limiter refuses. */
  function PumpFrom(objects: seq<Obj>, i: nat, now: tick, paths: seq<Path>): (r: seq<Obj>)
    requires |paths| == |objects| && i <= |objects|
    ensures |r| == |objects|
    decreases |objects| - i
  {
    if i == |objects| then objects
    else if Eligible(objects[i], now, paths[i]) && !paths[i].allowed then objects
    else PumpFrom(objects[i := PumpOne(objects[i], now, paths[i])], i + 1, now, paths)
  }

  class GroupObject {
    var policy: Policy
    var transmit: bool
    var raw: seq<byte>
    var valid: bool
    var lastSent: seq<byte>
    var lastSentValid: bool
    var lastSentMs: tick
    var pending: bool
    var listening: bool
    ghost var notified: seq<seq<byte>>

    function State(): Obj
      reads this
    {
      Obj(policy, transmit, raw, valid, lastSent, lastSentValid, lastSentMs, pending)
    }

    /** `listening` says whether the application has installed a callback. */
    constructor (policy: Policy, transmit: bool, listening: bool)
      ensures State() == Obj(policy, transmit, [], false, [], false, 0, false)
      ensures this.listening == listening && notified == []
    {
      this.policy, this.transmit, this.listening, notified := policy, transmit, listening, [];
      raw, valid, lastSent, lastSentValid, lastSentMs, pending := [], false, [], false, 0, false;
    }

    /** Stores a value, from the application or from the bus, and tells the application. */
    method Store(value: seq<byte>) returns (r: Result<()>)
      modifies this`raw, this`valid, this`notified
      ensures |value| > MAX_PAYLOAD ==>
        r == Err(BufferTooSmall) && State() == old(State()) && notified == old(notified)
      ensures |value| <= MAX_PAYLOAD ==>
        && r == Ok(()) && State() == old(State()).(raw := value, valid := true)
        && notified == if listening then old(notified) + [value] else old(notified)
    {
      if |value| > MAX_PAYLOAD {
        return Err(BufferTooSmall);
      }
      raw, valid := value, true;
      if listening {
        notified := notified + [value];
      }
      return Ok(());
    }

    method NoteSent(now: tick)
      modifies this`lastSent, this`lastSentValid, this`lastSentMs, this`pending
      ensures State() == NoteTransmitted(old(State()), now)
    {
      lastSent := raw;
      lastSentValid, lastSentMs, pending := true, now, false;
    }
  }

  /** The publish path of the bus access unit. */
  method SendGroupValue(o: GroupObject, scale: Scale, hasClock: bool, now: tick, path: Path, failure: ErrorCode)
    returns (r: Result<()>, ghost sent: bool)
    modifies o
    ensures var e := Publish(scale, hasClock, old(o.State()), now, path);
      o.State() == e.next && sent == e.sent && r == if e.ok then Ok(()) else Err(failure)
  {
    r, sent := Ok(()), false;
    if !path.linked {
      return;
    }
    match DecidePublish(scale, o.State(), now) {
      case Suppress => return;
      case Defer =>
        if hasClock {
          o.pending := true;
          return;
        }
      case Send =>
    }
    if hasClock && !path.allowed {
      o.pending := true;
      return;
    }
    if path.sendOk {
      o.NoteSent(now);
      sent := true;
    } else {
      r := Err(failure);
    }
  }

  ghost function States(objects: seq<GroupObject>): seq<Obj>
    reads objects
  {
    seq(|objects|, i requires 0 <= i < |objects| reads objects => objects[i].State())
  }

  /** The loop pump over all group objects. */
  method PumpTransmissions(objects: seq<GroupObject>, now: tick, paths: seq<Path>)
    requires |paths| == |objects|
    requires forall i, j :: 0 <= i < j < |objects| ==> objects[i] != objects[j]
    modifies objects
    ensures States(objects) == PumpFrom(old(States(objects)), 0, now, paths)
  {
    hide Eligible, PumpOne;
    var i := 0;
    while i < |objects|
      invariant i <= |objects|
      invariant PumpFrom(States(objects), i, now, paths) == PumpFrom(old(States(objects)), 0, now, paths)
    {
      ghost var before := States(objects);
      var stop := PumpObject(objects[i], now, paths[i]);
      if stop {
        assert States(objects) == before;
        return;
      }
      assert States(objects) == before[i := PumpOne(before[i], now, paths[i])];
      i := i + 1;
    }
  }

  method PumpObject(o: GroupObject, now: tick, path: Path) returns (stop: bool)
    modifies o
    ensures stop == (Eligible(old(o.State()), now, path) && !path.allowed)
    ensures o.State() == PumpOne(old(o.State()), now, path)
    ensures stop ==> o.State() == old(o.State())
  {
    stop := false;
    if !o.transmit || !o.valid || !path.linked {
      return;
    }
    var cyclic := DueForCyclic(o.State(), now);
    var deferred := ReadyToSendDeferred(o.State(), now);
    if !cyclic && !deferred {
      return;
    }
    if !path.allowed {
      return true;
    }
    if path.sendOk {
      o.NoteSent(now);
    }
  }
}
