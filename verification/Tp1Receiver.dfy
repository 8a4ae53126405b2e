/** The TP1 receive operation: decoding, duplication prevention, address filtering and the frame pool. */
module Tp1Receiver {
  import opened Octets
  import opened FrameCodec

  const FRAME_POOL_SIZE := 16

  /** What a receiver accepts, and whether an upper layer is listening. */
  datatype Filter = Filter(own: word, groups: seq<word>, promiscuous: bool, listening: bool)

  /** The part of a frame that is compared by duplication prevention. */
  datatype Key = Key(
    source: word,
    destination: word,
    destinationType: AddressType,
    priority: Priority,
    hopCount: nat,
    tpdu: seq<byte>)

  function KeyOf(f: LDataFrame): Key {
    Key(f.source, f.destination, f.destinationType, f.priority, f.hopCount, f.tpdu)
  }

  /** The receiver's memory: the directly preceding frame, the counters, and the indications upward. */
  datatype Rx = Rx(
    last: Option<Key>,
    delivered: nat,
    filtered: nat,
    duplicates: nat,
    decodeFailed: nat,
    dropped: nat,
    indicated: seq<LDataFrame>)

  predicate AddressMatch(c: Filter, destination: word, kind: AddressType) {
    || c.promiscuous
    || IsBroadcast(destination)
    || (if kind.Group? then destination in c.groups else destination == c.own)
  }

  /** Repetitions to the own individual address must reach the transport layer. */
  predicate ToOwnIndividual(c: Filter, f: LDataFrame) {
    f.destinationType.Individual? && !IsBroadcast(f.destination) && f.destination == c.own
  }

  predicate IsRepetition(last: Option<Key>, f: LDataFrame) { f.repeated && last == Some(KeyOf(f)) }

  /** A correctly decoded frame: suppressed, delivered or filtered. */
  function Accept(c: Filter, rx: Rx, f: LDataFrame): Rx {
    if !ToOwnIndividual(c, f) && IsRepetition(rx.last, f) then rx.(duplicates := rx.duplicates + 1)
    else
      var seen := rx.(last := Some(KeyOf(f)));
      if AddressMatch(c, f.destination, f.destinationType)
      then seen.(delivered := rx.delivered + 1,
                 indicated := if c.listening then rx.indicated + [f] else rx.indicated)
      else seen.(filtered := rx.filtered + 1)
  }

  ghost function ReceiveOne(c: Filter, poolFull: bool, rx: Rx, buffer: seq<byte>): Rx {
    if poolFull then rx.(dropped := rx.dropped + 1)
    else match Decode(buffer)
      case Ok(f) => Accept(c, rx, f)
      case Err(_) => rx.(decodeFailed := rx.decodeFailed + 1)
  }

  /** Physical frames processed back to back. */
  ghost function ReceiveAll(c: Filter, poolFull: bool, rx: Rx, frames: seq<seq<byte>>): Rx {
    if frames == [] then rx
    else ReceiveOne(c, poolFull, ReceiveAll(c, poolFull, rx, frames[..|frames| - 1]), frames[|frames| - 1])
  }

  /** Back to back: the first frame, then the others. */
  lemma {:induction false} ReceiveAllFirst(
    c: Filter, poolFull: bool, rx: Rx, octets: seq<byte>, frames: seq<seq<byte>>)
    ensures ReceiveAll(c, poolFull, rx, [octets] + frames)
         == ReceiveAll(c, poolFull, ReceiveOne(c, poolFull, rx, octets), frames)
  {
    hide ReceiveOne;
    var all := [octets] + frames;
    if frames == [] {
      assert all[..0] == [];
    } else {
      ReceiveAllFirst(c, poolFull, rx, octets, frames[..|frames| - 1]);
      assert all[..|all| - 1] == [octets] + frames[..|frames| - 1];
    }
  }

  /** Answers of the physical layer to one round of the receive loop. */
  datatype PhyPoll = PhyError | PhyPending | PhyFrame(octets: seq<byte>) | PhyNoView | PhyOther

  datatype RxEvent = RxEvent(beginOk: bool, poll: PhyPoll)

  datatype Taken = Taken(frames: seq<seq<byte>>, pending: bool)

  /**
   * The frames one poll takes from the physical layer, and whether it stops because nothing is
   * ready yet. The end of the script stands for a physical layer with nothing more to give.
   */
  function Take(waiting: bool, script: seq<RxEvent>): Taken {
    if script == [] || (!waiting && !script[0].beginOk) then Taken([], false)
    else match script[0].poll
      case PhyFrame(octets) =>
        var rest := Take(false, script[1..]);
        Taken([octets] + rest.frames, rest.pending)
      case PhyPending => Taken([], true)
      case _ => Taken([], false)
  }

  datatype RxProgress = RxPending | RxComplete

  /** Every slot of the frame pool is in use. */
  predicate Full(pool: seq<bool>) { forall i :: 0 <= i < |pool| ==> pool[i] }

  class Receiver {
    var filter: Filter
    const frameInUse: array<bool>
    var last: Option<Key>
    var rxFrames: nat
    var filterDropped: nat
    var duplicatesDropped: nat
    var decodeFailed: nat
    var rxDropped: nat
    ghost var indicated: seq<LDataFrame>
    var active: bool
    var waiting: bool
    var readIndex: nat
    var deliveredCount: nat
    var lastDelivered: nat
    var processing: bool

    ghost predicate Valid()
      reads this
    {
      frameInUse.Length == FRAME_POOL_SIZE && processing == active
    }

    ghost function State(): Rx
      reads this
    {
      Rx(last, rxFrames, filterDropped, duplicatesDropped, decodeFailed, rxDropped, indicated)
    }

    constructor (filter: Filter)
      ensures Valid() && fresh(frameInUse) && !Full(frameInUse[..]) && !active && this.filter == filter
      ensures State() == Rx(None, 0, 0, 0, 0, 0, [])
    {
      this.filter := filter;
      frameInUse := new bool[FRAME_POOL_SIZE](_ => false);
      last := None;
      rxFrames, filterDropped, duplicatesDropped, decodeFailed, rxDropped := 0, 0, 0, 0, 0;
      indicated := [];
      active, waiting, processing := false, false, false;
      readIndex, deliveredCount, lastDelivered := 0, 0, 0;
      new;
      assert !frameInUse[..][0];
    }

    method AllocateFrame() returns (slot: Option<nat>)
      modifies frameInUse
      ensures slot.None? <==> Full(old(frameInUse[..]))
      ensures slot.None? ==> frameInUse[..] == old(frameInUse[..])
      ensures slot.Some? ==> slot.value < frameInUse.Length && !old(frameInUse[slot.value])
      ensures slot.Some? ==> frameInUse[..] == old(frameInUse[..])[slot.value := true]
    {
      for i := 0 to frameInUse.Length
        invariant forall k :: 0 <= k < i ==> frameInUse[k]
        invariant frameInUse[..] == old(frameInUse[..])
      {
        if !frameInUse[i] {
          frameInUse[i] := true;
          return Some(i);
        }
      }
      return None;
    }

    method FinishRxOperation()
      modifies this`active, this`waiting, this`readIndex, this`deliveredCount, this`lastDelivered, this`processing
      ensures !active && !waiting && !processing && readIndex == 0 && deliveredCount == 0
      ensures lastDelivered == if old(active) then old(deliveredCount) else old(lastDelivered)
    {
      if active {
        lastDelivered := deliveredCount;
      }
      active, waiting, readIndex, deliveredCount := false, false, 0, 0;
      processing := false;
    }

    method BeginReceive() returns (r: Result<()>)
      requires Valid()
      modifies this`active, this`waiting, this`readIndex, this`deliveredCount, this`lastDelivered, this`processing
      ensures Valid()
      ensures old(active) ==> r == Err(Busy) && active && waiting == old(waiting)
      ensures old(active) ==> deliveredCount == old(deliveredCount) && lastDelivered == old(lastDelivered)
      ensures !old(active) ==> r == Ok(()) && active && !waiting && deliveredCount == 0 && lastDelivered == 0
    {
      if processing {
        return Err(Busy);
      }
      processing := true;
      if !active {
        lastDelivered := 0;
        active, waiting, readIndex, deliveredCount := true, false, 0, 0;
      }
      return Ok(());
    }

    /** Duplication prevention, the address filter and the indication upward. */
    method AcceptFrame(f: LDataFrame)
      modifies this`last, this`rxFrames, this`filterDropped, this`duplicatesDropped, this`deliveredCount,
               this`indicated
      ensures State() == Accept(filter, old(State()), f)
      ensures deliveredCount - old(deliveredCount) == rxFrames - old(rxFrames)
    {
      if !ToOwnIndividual(filter, f) && IsRepetition(last, f) {
        duplicatesDropped := duplicatesDropped + 1;
        return;
      }
      last := Some(KeyOf(f));
      if AddressMatch(filter, f.destination, f.destinationType) {
        if filter.listening {
          indicated := indicated + [f];
        }
        rxFrames := rxFrames + 1;
        deliveredCount := deliveredCount + 1;
      } else {
        filterDropped := filterDropped + 1;
      }
    }

    /** One physical frame: take a pool slot, decode, accept, give the slot back. */
    method ProcessFrame(octets: seq<byte>)
      requires Valid() && active
      modifies this, frameInUse
      ensures Valid() && active && filter == old(filter) && waiting == old(waiting)
      ensures lastDelivered == old(lastDelivered)
      ensures frameInUse[..] == old(frameInUse[..])
      ensures State() == ReceiveOne(filter, Full(old(frameInUse[..])), old(State()), octets)
      ensures deliveredCount - old(deliveredCount) == rxFrames - old(rxFrames)
    {
      hide Accept, Decode;
      readIndex := readIndex + 1;
      var slot := AllocateFrame();
      if slot.None? {
        rxDropped := rxDropped + 1;
        return;
      }
      var decoded := DecodeFrame(octets);
      match decoded {
        case Ok(f) => AcceptFrame(f);
        case Err(_) => decodeFailed := decodeFailed + 1;
      }
      frameInUse[slot.value] := false;
      assert frameInUse[..] == old(frameInUse[..]);
    }

    /** The receive loop, up to the point where the physical layer has nothing (more) to give. */
    method DrainPhysical(script: seq<RxEvent>) returns (pending: bool)
      requires Valid() && active
      modifies this, frameInUse
      ensures Valid() && active && filter == old(filter) && frameInUse[..] == old(frameInUse[..])
      ensures State() ==
        ReceiveAll(filter, Full(old(frameInUse[..])), old(State()), Take(old(waiting), script).frames)
      ensures pending == Take(old(waiting), script).pending
      ensures deliveredCount - old(deliveredCount) == rxFrames - old(rxFrames)
    {
      hide Full, ReceiveOne;
      pending := false;
      ghost var full := Full(frameInUse[..]);
      ghost var goal := ReceiveAll(filter, full, State(), Take(waiting, script).frames);
      var rest := script;
      while rest != [] && (waiting || rest[0].beginOk)
        invariant Valid() && active && filter == old(filter) && frameInUse[..] == old(frameInUse[..])
        invariant ReceiveAll(filter, full, State(), Take(waiting, rest).frames) == goal
        invariant Take(waiting, rest).pending == Take(old(waiting), script).pending
        invariant deliveredCount - old(deliveredCount) == rxFrames - old(rxFrames)
        decreases |rest|
      {
        waiting := true;
        var poll := rest[0].poll;
        if !poll.PhyFrame? {
          pending := poll.PhyPending?;
          return;
        }
        waiting := false;
        ReceiveAllFirst(filter, full, State(), poll.octets, Take(false, rest[1..]).frames);
        ProcessFrame(poll.octets);
        rest := rest[1..];
      }
    }

    method PollReceive(script: seq<RxEvent>) returns (r: Result<RxProgress>)
      requires Valid()
      modifies this, frameInUse
      ensures Valid() && filter == old(filter) && frameInUse[..] == old(frameInUse[..])
      ensures !old(active) ==> r == Err(OperationNotReady) && State() == old(State()) && !active
      ensures !old(active) ==> lastDelivered == old(lastDelivered)
      ensures old(active) ==> var taken := Take(old(waiting), script);
        && State() == ReceiveAll(filter, Full(old(frameInUse[..])), old(State()), taken.frames)
        && r == Ok(if taken.pending then RxPending else RxComplete)
        && active == taken.pending
        && (if active then deliveredCount else lastDelivered) - old(deliveredCount) == rxFrames - old(rxFrames)
    {
      hide ReceiveAll, Take, Full;
      if !active {
        return Err(OperationNotReady);
      }
      var pending := DrainPhysical(script);
      if pending {
        return Ok(RxPending);
      }
      FinishRxOperation();
      return Ok(RxComplete);
    }

    /** Runs one whole receive operation; FinishRxOperation then runs a second time. */
    method ProcessRxAvailable(script: seq<RxEvent>) returns (count: nat)
      requires Valid()
      modifies this, frameInUse
      ensures Valid() && filter == old(filter) && frameInUse[..] == old(frameInUse[..])
      ensures old(active) ==> count == 0 && State() == old(State())
      ensures !old(active) ==>
        && !active
        && State() == ReceiveAll(filter, Full(old(frameInUse[..])), old(State()), Take(false, script).frames)
        && count == rxFrames - old(rxFrames)
    {
      var begun := BeginReceive();
      if begun.Err? {
        return 0;
      }
      var progress := PollReceive(script);
      FinishRxOperation();
      return lastDelivered;
    }
  }

  // ---------------------------------------------------------------------------
  // Conservation
  // ---------------------------------------------------------------------------

  function Total(rx: Rx): nat { rx.delivered + rx.filtered + rx.duplicates + rx.decodeFailed + rx.dropped }

  /**
   * Every physical frame is counted exactly once; a frame is dropped for want of a pool slot only
   * if all slots were taken before the operation, and then every frame is; and with a listener
   * exactly the delivered frames are indicated.
   */
  lemma {:induction false} FramesAreConserved(c: Filter, poolFull: bool, rx: Rx, frames: seq<seq<byte>>)
    ensures var rx' := ReceiveAll(c, poolFull, rx, frames);
      && Total(rx') == Total(rx) + |frames|
      && rx'.dropped == rx.dropped + (if poolFull then |frames| else 0)
      && rx'.delivered >= rx.delivered
      && rx.indicated <= rx'.indicated
      && |rx'.indicated| - |rx.indicated| == if c.listening then rx'.delivered - rx.delivered else 0
  {
    if frames != [] {
      FramesAreConserved(c, poolFull, rx, frames[..|frames| - 1]);
    }
  }
}
