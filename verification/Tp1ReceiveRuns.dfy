/** What becomes of each received frame, over whole runs and in terms of the frames themselves. */
module Tp1ReceiveRuns {
  import opened Octets
  import opened FrameCodec
  import opened Tp1Receiver

  /** A receiver that has seen nothing yet. */
  const START := Rx(None, 0, 0, 0, 0, 0, [])

  /** The last of some buffers that decodes to a frame. */
  ghost function Preceding(buffers: seq<seq<byte>>): Option<LDataFrame> {
    if buffers == [] then None
    else match Decode(buffers[|buffers| - 1])
      case Ok(f) => Some(f)
      case Err(_) => Preceding(buffers[..|buffers| - 1])
  }

  lemma {:induction false} PrecedingIsRemembered(c: Filter, buffers: seq<seq<byte>>)
    ensures ReceiveAll(c, false, START, buffers).last
         == match Preceding(buffers) case None => None case Some(f) => Some(KeyOf(f))
  {
    hide Decode;
    if buffers != [] {
      PrecedingIsRemembered(c, buffers[..|buffers| - 1]);
    }
  }

  /** Nothing but the repeat flag and the service bits may tell a repetition from the frame it repeats. */
  predicate SameTelegram(f: LDataFrame, g: LDataFrame) {
    && f.source == g.source && f.destination == g.destination && f.destinationType == g.destinationType
    && f.priority == g.priority && f.hopCount == g.hopCount && f.tpdu == g.tpdu
  }

  /** Addressed to this very device, and not to all. */
  predicate OwnIndividual(c: Filter, g: LDataFrame) {
    g.destinationType.Individual? && g.destination != 0x0000 && g.destination == c.own
  }

  /**
   * The fate of a correctly received frame after any run: it is suppressed if and only if it is
   * marked repeated, is not for the own individual address, and agrees with the directly preceding
   * correctly received frame in addresses, priority, hop count and TPDU; otherwise it is delivered
   * if and only if it is addressed to this device, and else filtered.
   */
  lemma FateOfAFrame(c: Filter, buffers: seq<seq<byte>>, buffer: seq<byte>, g: LDataFrame)
    requires Decode(buffer) == Ok(g)
    ensures var rx, rx' := ReceiveAll(c, false, START, buffers), ReceiveAll(c, false, START, buffers + [buffer]);
      var preceding := Preceding(buffers);
      var suppressed := g.repeated && !OwnIndividual(c, g) && preceding.Some? && SameTelegram(preceding.value, g);
      var addressed :=
        || c.promiscuous || g.destination == 0x0000
        || (g.destinationType.Group? && g.destination in c.groups)
        || (g.destinationType.Individual? && g.destination == c.own);
      && rx'.duplicates == rx.duplicates + (if suppressed then 1 else 0)
      && rx'.delivered == rx.delivered + (if !suppressed && addressed then 1 else 0)
      && rx'.filtered == rx.filtered + (if !suppressed && !addressed then 1 else 0)
      && rx'.indicated == rx.indicated + (if !suppressed && addressed && c.listening then [g] else [])
      && rx'.decodeFailed == rx.decodeFailed && rx'.dropped == rx.dropped
  {
    PrecedingIsRemembered(c, buffers);
    hide Decode, Preceding;
    assert (buffers + [buffer])[..|buffers|] == buffers;
    assert ReceiveAll(c, false, START, buffers + [buffer]) == Accept(c, ReceiveAll(c, false, START, buffers), g);
  }

  /** A repeated telegram that is not a repetition of the preceding one always gets through. */
  lemma OtherTelegramsGetThrough(c: Filter, buffers: seq<seq<byte>>, first: seq<byte>, second: seq<byte>)
    requires Decode(first).Ok? && Decode(second).Ok? && !SameTelegram(Decode(first).value, Decode(second).value)
    ensures var before := buffers + [first];
      ReceiveAll(c, false, START, before + [second]).duplicates == ReceiveAll(c, false, START, before).duplicates
  {
    hide ReceiveAll;
    FateOfAFrame(c, buffers + [first], second, Decode(second).value);
  }

  // ---------------------------------------------------------------------------
  // Which frames a poll takes
  // ---------------------------------------------------------------------------

  /** The physical layer accepts the question of a round, or was already asked. */
  predicate Asked(waiting: bool, script: seq<RxEvent>, i: nat)
    requires i < |script|
  {
    (i == 0 && waiting) || script[i].beginOk
  }

  /**
   * A poll takes the frames of the rounds up to the first one that is not asked or brings no frame,
   * and stays pending exactly if that round was asked and has nothing ready yet.
   */
  lemma {:induction false} TakesUpToTheFirstGap(waiting: bool, script: seq<RxEvent>)
    ensures var taken := Take(waiting, script); var n := |taken.frames|;
      && n <= |script|
      && (forall i :: 0 <= i < n ==> Asked(waiting, script, i) && script[i].poll == PhyFrame(taken.frames[i]))
      && (n < |script| ==> !Asked(waiting, script, n) || !script[n].poll.PhyFrame?)
      && (taken.pending <==> n < |script| && Asked(waiting, script, n) && script[n].poll.PhyPending?)
  {
    if script != [] && Asked(waiting, script, 0) && script[0].poll.PhyFrame? {
      TakesUpToTheFirstGap(false, script[1..]);
      var rest := Take(false, script[1..]);
      forall i | 0 < i <= |rest.frames|
        ensures script[i].beginOk && script[i].poll == PhyFrame(rest.frames[i - 1])
      {
        assert script[1..][i - 1] == script[i] && Asked(false, script[1..], i - 1);
      }
      if |rest.frames| < |script| - 1 {
        assert script[1..][|rest.frames|] == script[|rest.frames| + 1];
      }
    }
  }
}
