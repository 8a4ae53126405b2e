/**
 * Sender, codec and receiver composed over a medium that may lose any copy or change one octet of
 * it: how often one frame is indicated to the receiver's upper layer.
 */
module Tp1Link {
  import opened Octets
  import opened FrameCodec
  import opened Tp1Sender
  import opened Tp1TransmitRuns
  import opened Tp1Receiver

  /** What the medium does to one transmitted copy. */
  datatype Fate = Lost | Intact | Corrupted(at: nat, octet: byte)

  /** A corruption changes one octet. */
  predicate Possible(copy: seq<byte>, fate: Fate) {
    fate.Corrupted? ==> fate.at < |copy| && fate.octet != copy[fate.at]
  }

  ghost predicate AllPossible(sent: seq<seq<byte>>, fates: seq<Fate>) {
    |fates| == |sent| && forall i :: 0 <= i < |sent| ==> Possible(sent[i], fates[i])
  }

  function Arrival(copy: seq<byte>, fate: Fate): seq<seq<byte>>
    requires Possible(copy, fate)
  {
    match fate
    case Lost => []
    case Intact => [copy]
    case Corrupted(at, octet) => [copy[at := octet]]
  }

  ghost function Arrivals(sent: seq<seq<byte>>, fates: seq<Fate>): seq<seq<byte>>
    requires AllPossible(sent, fates)
  {
    if sent == [] then []
    else
      var n := |sent| - 1;
      Arrivals(sent[..n], fates[..n]) + Arrival(sent[n], fates[n])
  }

  /** How many of the copies from index `lo` up to `hi` arrive intact. */
  function IntactCount(fates: seq<Fate>, lo: nat, hi: nat): nat
    requires lo <= hi <= |fates|
  {
    if lo == hi then 0 else IntactCount(fates, lo, hi - 1) + if fates[hi - 1].Intact? then 1 else 0
  }

  lemma {:induction false} IntactCountPrefix(fates: seq<Fate>, n: nat, lo: nat, hi: nat)
    requires lo <= hi <= n <= |fates|
    ensures IntactCount(fates[..n], lo, hi) == IntactCount(fates, lo, hi)
  {
    if lo < hi {
      IntactCountPrefix(fates, n, lo, hi - 1);
    }
  }

  /** A valid frame that passes this receiver's address filter, with somebody listening above it. */
  ghost predicate Addressed(c: Filter, f: LDataFrame) {
    IsValid(f) && c.listening && AddressMatch(c, f.destination, f.destinationType)
  }

  function Copies(f: LDataFrame, n: nat): (fs: seq<LDataFrame>)
    ensures |fs| == n
  {
    seq(n, _ => OnWire(f))
  }

  /** The indications that `plain` unrepeated and then `repeats` repeated intact copies cause. */
  function Indications(last: Option<Key>, f: LDataFrame, plain: nat, repeats: nat): seq<LDataFrame> {
    if plain > 0 || repeats == 0 || last == Some(KeyOf(f)) then Copies(f, plain)
    else [OnWire(f.(repeated := true))]
  }

  /** The receiver after some copies: `plain` and `repeats` of them arrived intact. */
  ghost predicate After(rx: Rx, rx': Rx, f: LDataFrame, plain: nat, repeats: nat) {
    && rx'.indicated == rx.indicated + Indications(rx.last, f, plain, repeats)
    && rx'.last == if plain + repeats > 0 then Some(KeyOf(f)) else rx.last
  }

  lemma ReceiveAllLast(c: Filter, rx: Rx, frames: seq<seq<byte>>, octets: seq<byte>)
    ensures ReceiveAll(c, false, rx, frames + [octets])
         == ReceiveOne(c, false, ReceiveAll(c, false, rx, frames), octets)
  {
    assert (frames + [octets])[..|frames|] == frames;
  }

  ghost function ReceiveArrival(c: Filter, rx: Rx, copy: seq<byte>, fate: Fate): Rx
    requires Possible(copy, fate)
  {
    var arrival := Arrival(copy, fate);
    if arrival == [] then rx else ReceiveOne(c, false, rx, arrival[0])
  }

  /** The last copy is dealt with after all the others. */
  lemma LastCopy(c: Filter, rx: Rx, sent: seq<seq<byte>>, fates: seq<Fate>)
    requires sent != [] && AllPossible(sent, fates)
    ensures var n := |sent| - 1;
      && AllPossible(sent[..n], fates[..n])
      && ReceiveAll(c, false, rx, Arrivals(sent, fates))
         == ReceiveArrival(c, ReceiveAll(c, false, rx, Arrivals(sent[..n], fates[..n])), sent[n], fates[n])
  {
    hide ReceiveOne;
    var n := |sent| - 1;
    var before, arrival := Arrivals(sent[..n], fates[..n]), Arrival(sent[n], fates[n]);
    if arrival == [] {
      assert Arrivals(sent, fates) == before;
    } else {
      assert arrival == [arrival[0]];
      ReceiveAllLast(c, rx, before, arrival[0]);
    }
  }

  lemma CopiesPrefix(f: LDataFrame, sent: seq<seq<byte>>, plain: nat)
    requires IsValid(f) && !f.repeated && sent != [] && CopiesOf(f, sent, plain)
    ensures var n := |sent| - 1;
      && CopiesOf(f, sent[..n], if plain == |sent| then n else plain)
      && sent[n] == Wire(f.(repeated := plain <= n))
  {
    hide Wire;
    assert f.(repeated := false) == f && Repeated(f, true) == f.(repeated := true);
  }

  /** An intact copy is accepted as the frame it carries. */
  lemma IntactCopy(c: Filter, rx: Rx, f: LDataFrame)
    requires IsValid(f)
    ensures ReceiveOne(c, false, rx, Wire(f)) == Accept(c, rx, OnWire(f))
  {
    DecodeInvertsEncode(f);
  }

  /** A copy with one changed octet is rejected and leaves no trace but a counter. */
  lemma CorruptedCopy(c: Filter, rx: Rx, f: LDataFrame, at: nat, octet: byte)
    requires IsValid(f) && at < |Wire(f)| && octet != Wire(f)[at]
    ensures ReceiveOne(c, false, rx, Wire(f)[at := octet]) == rx.(decodeFailed := rx.decodeFailed + 1)
  {
    DecodeInvertsEncode(f);
    SingleOctetCorruptionIsRejected(Wire(f), at, octet);
  }

  lemma PlainCopyCounts(c: Filter, rx: Rx, rx': Rx, f: LDataFrame, plain: nat)
    requires Addressed(c, f) && !f.repeated && After(rx, rx', f, plain, 0)
    ensures After(rx, Accept(c, rx', OnWire(f)), f, plain + 1, 0)
  {
    assert Copies(f, plain) + [OnWire(f)] == Copies(f, plain + 1);
  }

  lemma RepeatedCopyCounts(c: Filter, rx: Rx, rx': Rx, f: LDataFrame, plain: nat, repeats: nat)
    requires Addressed(c, f) && !ToOwnIndividual(c, f) && !f.repeated && After(rx, rx', f, plain, repeats)
    ensures After(rx, Accept(c, rx', OnWire(f.(repeated := true))), f, plain, repeats + 1)
  {
    var g := OnWire(f.(repeated := true));
    assert KeyOf(g) == KeyOf(f);
    if plain + repeats == 0 && rx.last != Some(KeyOf(f)) {
      assert Copies(f, 0) == [];
      assert rx'.indicated == rx.indicated;
    }
  }

  /** The effect of one more copy, by its fate. */
  lemma OneMoreCopy(
    c: Filter, rx: Rx, rx': Rx, f: LDataFrame, repeated: bool, fate: Fate, plain: nat, repeats: nat)
    requires Addressed(c, f) && !ToOwnIndividual(c, f) && !f.repeated && After(rx, rx', f, plain, repeats)
    requires !repeated ==> repeats == 0
    requires Possible(Wire(f.(repeated := repeated)), fate)
    ensures var here := if fate.Intact? then 1 else 0;
      After(rx, ReceiveArrival(c, rx', Wire(f.(repeated := repeated)), fate), f,
        if repeated then plain else plain + here, if repeated then repeats + here else 0)
  {
    hide Wire, ReceiveOne, Accept, After;
    var g := f.(repeated := repeated);
    match fate
    case Lost =>
    case Corrupted(at, octet) =>
      CorruptedCopy(c, rx', g, at, octet);
      CountersDoNotMatter(rx, rx', f, plain, repeats);
    case Intact =>
      IntactCopy(c, rx', g);
      if repeated {
        RepeatedCopyCounts(c, rx, rx', f, plain, repeats);
      } else {
        assert g == f;
        PlainCopyCounts(c, rx, rx', f, plain);
      }
  }

  lemma CountersDoNotMatter(rx: Rx, rx': Rx, f: LDataFrame, plain: nat, repeats: nat)
    requires After(rx, rx', f, plain, repeats)
    ensures After(rx, rx'.(decodeFailed := rx'.decodeFailed + 1), f, plain, repeats)
  {
  }

  /** The receiver's view of any prefix of the copies, in order, under any fates. */
  lemma {:induction false} ReceiveCopies(
    c: Filter, rx: Rx, f: LDataFrame, sent: seq<seq<byte>>, plain: nat, fates: seq<Fate>)
    requires Addressed(c, f) && !ToOwnIndividual(c, f) && !f.repeated
    requires CopiesOf(f, sent, plain) && AllPossible(sent, fates)
    ensures After(rx, ReceiveAll(c, false, rx, Arrivals(sent, fates)), f,
      IntactCount(fates, 0, plain), IntactCount(fates, plain, |sent|))
  {
    if sent == [] {
      NoCopies(c, rx, f, fates);
    } else {
      hide Wire, After, ReceiveAll, Arrivals, IntactCount;
      var n := |sent| - 1;
      var p := if plain == |sent| then n else plain;
      CopiesPrefix(f, sent, plain);
      ReceiveCopies(c, rx, f, sent[..n], p, fates[..n]);
      CountsGrow(fates, plain, n);
      LastCopyCounts(c, rx, f, sent, plain, fates, IntactCount(fates, 0, p), IntactCount(fates, p, n));
    }
  }

  /** From the receiver's view of all copies but the last to its view of all. */
  lemma LastCopyCounts(
    c: Filter, rx: Rx, f: LDataFrame, sent: seq<seq<byte>>, plain: nat, fates: seq<Fate>, plains: nat, repeats: nat)
    requires Addressed(c, f) && !ToOwnIndividual(c, f) && !f.repeated && sent != []
    requires CopiesOf(f, sent, plain) && AllPossible(sent, fates) && (plain == |sent| ==> repeats == 0)
    requires var n := |sent| - 1;
      After(rx, ReceiveAll(c, false, rx, Arrivals(sent[..n], fates[..n])), f, plains, repeats)
    ensures var here := if fates[|sent| - 1].Intact? then 1 else 0;
      After(rx, ReceiveAll(c, false, rx, Arrivals(sent, fates)), f,
        if plain < |sent| then plains else plains + here, if plain < |sent| then repeats + here else 0)
  {
    hide Wire, After, ReceiveAll, Arrivals, ReceiveArrival, ReceiveOne;
    var n := |sent| - 1;
    CopiesPrefix(f, sent, plain);
    LastCopy(c, rx, sent, fates);
    var rx' := ReceiveAll(c, false, rx, Arrivals(sent[..n], fates[..n]));
    OneMoreCopy(c, rx, rx', f, plain <= n, fates[n], plains, repeats);
  }

  /** The last copy adds to the count of its kind. */
  lemma CountsGrow(fates: seq<Fate>, plain: nat, n: nat)
    requires |fates| == n + 1 && plain <= n + 1
    ensures var p := if plain == n + 1 then n else plain; var here := if fates[n].Intact? then 1 else 0;
      && IntactCount(fates[..n], 0, p) == IntactCount(fates, 0, p)
      && IntactCount(fates[..n], p, n) == IntactCount(fates, p, n)
      && IntactCount(fates, 0, plain) == IntactCount(fates, 0, p) + (if plain <= n then 0 else here)
      && IntactCount(fates, plain, n + 1) == (if plain <= n then IntactCount(fates, p, n) + here else 0)
      && (plain > n ==> IntactCount(fates, p, n) == 0)
  {
    var p := if plain == n + 1 then n else plain;
    IntactCountPrefix(fates, n, 0, p);
    IntactCountPrefix(fates, n, p, n);
  }

  lemma NoCopies(c: Filter, rx: Rx, f: LDataFrame, fates: seq<Fate>)
    requires AllPossible([], fates)
    ensures After(rx, ReceiveAll(c, false, rx, Arrivals([], fates)), f, IntactCount(fates, 0, 0), 0)
  {
    assert rx.indicated + Copies(f, 0) == rx.indicated;
  }

  lemma PossibleAt(sent: seq<seq<byte>>, fates: seq<Fate>, i: nat)
    requires AllPossible(sent, fates) && i < |sent|
    ensures i < |fates| && Possible(sent[i], fates[i])
  {
  }

  /**
   * The law of indications. For every run of the sender and everything the medium does: the copies
   * go out as the unrepeated ones followed by repeated ones; each intact unrepeated copy is
   * indicated, and the repeated ones cause one indication exactly when they come alone and the
   * receiver remembers another frame.
   */
  lemma IndicationsOfARun(hasClock: bool, f: LDataFrame, envs: seq<Env>, c: Filter, rx: Rx, fates: seq<Fate>)
    requires Addressed(c, f) && !ToOwnIndividual(c, f) && !f.repeated
    requires AllPossible(Run(hasClock, f, envs).sent, fates)
    ensures var t := Run(hasClock, f, envs); var plain := PlainCopies(hasClock, f, envs);
      && CopiesOf(f, t.sent, plain) && plain <= t.busyPolls + 1 && (t.sent != [] ==> plain >= 1)
      && ReceiveAll(c, false, rx, Arrivals(t.sent, fates)).indicated
         == rx.indicated
          + Indications(rx.last, f, IntactCount(fates, 0, plain), IntactCount(fates, plain, |t.sent|))
  {
    RunKeeps(hasClock, f, envs);
    ReceiveCopies(c, rx, f, Run(hasClock, f, envs).sent, PlainCopies(hasClock, f, envs), fates);
  }

  lemma {:induction false} IntactCountBound(fates: seq<Fate>, lo: nat, hi: nat)
    requires lo <= hi <= |fates|
    ensures IntactCount(fates, lo, hi) <= hi - lo
    ensures IntactCount(fates, lo, hi) == 0 <==> forall i :: lo <= i < hi ==> !fates[i].Intact?
  {
    if lo < hi {
      IntactCountBound(fates, lo, hi - 1);
    }
  }

  /** Some copy arrives, and the first one to arrive is unrepeated or is not what the receiver remembers. */
  ghost predicate Fresh(f: LDataFrame, rx: Rx, fates: seq<Fate>) {
    && (exists i :: 0 <= i < |fates| && fates[i].Intact?)
    && (fates[0].Intact? || rx.last != Some(KeyOf(f)))
  }

  /**
   * Exactly once. In every run in which no unrepeated copy is sent again after BUSY, whatever is
   * lost or corrupted, the frame is indicated exactly once if it arrives fresh, and not at all
   * otherwise.
   */
  lemma ExactlyOnce(hasClock: bool, f: LDataFrame, envs: seq<Env>, c: Filter, rx: Rx, fates: seq<Fate>)
    requires Addressed(c, f) && !ToOwnIndividual(c, f) && !f.repeated
    requires AllPossible(Run(hasClock, f, envs).sent, fates)
    requires !BusyResent(hasClock, f, envs)
    ensures var indicated := ReceiveAll(c, false, rx, Arrivals(Run(hasClock, f, envs).sent, fates)).indicated;
      && rx.indicated <= indicated
      && |indicated| - |rx.indicated| == (if Fresh(f, rx, fates) then 1 else 0)
      && (Fresh(f, rx, fates) ==> indicated[|rx.indicated|] == OnWire(f).(repeated := !fates[0].Intact?))
  {
    hide Run, ReceiveAll, Arrivals, PlainCopies, BusyResent, CopiesOf;
    var plain := PlainCopies(hasClock, f, envs);
    IndicationsOfARun(hasClock, f, envs, c, rx, fates);
    CopiesBound(f, Run(hasClock, f, envs).sent, plain);
    ResentIff(hasClock, f, envs);
    IntactCountBound(fates, 0, plain);
    IntactCountBound(fates, plain, |fates|);
  }

  lemma CopiesBound(f: LDataFrame, sent: seq<seq<byte>>, plain: nat)
    requires IsValid(f) && CopiesOf(f, sent, plain)
    ensures plain <= |sent|
  {
  }

  /** Whatever the medium does, the copies cause at most one indication. */
  ghost predicate AtMostOnce(c: Filter, rx: Rx, sent: seq<seq<byte>>) {
    forall fates :: AllPossible(sent, fates) ==>
      |ReceiveAll(c, false, rx, Arrivals(sent, fates)).indicated| <= |rx.indicated| + 1
  }

  function NothingLost(n: nat): (fates: seq<Fate>)
    ensures |fates| == n && forall i :: 0 <= i < n ==> fates[i] == Intact
  {
    seq(n, _ => Intact)
  }

  lemma {:induction false} AllIntact(n: nat, lo: nat, hi: nat)
    requires lo <= hi <= n
    ensures IntactCount(NothingLost(n), lo, hi) == hi - lo
  {
    if lo < hi {
      AllIntact(n, lo, hi - 1);
    }
  }

  /**
   * The exact condition for "at most once": no copy goes out again after a BUSY answer that came
   * before the first NAK or missing acknowledgement.
   */
  lemma AtMostOnceIff(hasClock: bool, f: LDataFrame, envs: seq<Env>, c: Filter, rx: Rx)
    requires Addressed(c, f) && !ToOwnIndividual(c, f) && !f.repeated
    ensures AtMostOnce(c, rx, Run(hasClock, f, envs).sent) <==> !BusyResent(hasClock, f, envs)
  {
    hide Run, ReceiveAll, Arrivals, PlainCopies, BusyResent, CopiesOf;
    var sent, plain := Run(hasClock, f, envs).sent, PlainCopies(hasClock, f, envs);
    if BusyResent(hasClock, f, envs) {
      var fates := NothingLost(|sent|);
      assert AllPossible(sent, fates);
      IndicationsOfARun(hasClock, f, envs, c, rx, fates);
      CopiesBound(f, sent, plain);
      ResentIff(hasClock, f, envs);
      AllIntact(|sent|, 0, plain);
    } else {
      forall fates | AllPossible(sent, fates)
        ensures |ReceiveAll(c, false, rx, Arrivals(sent, fates)).indicated| <= |rx.indicated| + 1
      {
        ExactlyOnce(hasClock, f, envs, c, rx, fates);
      }
    }
  }

  /** One BUSY answer after a copy went out, then success. */
  const BUSY_THEN_DONE: seq<Env> := [Env(0, 0, None, Ok(TxBusy)), Env(0, 0, None, Ok(TxSuccess))]

  /**
   * A BUSY retry is not marked as a repetition, so a receiver that got both copies indicates the
   * frame twice.
   */
  lemma BusyRetryDuplicates(f: LDataFrame, c: Filter, rx: Rx)
    requires Addressed(c, f) && !ToOwnIndividual(c, f) && !f.repeated
    ensures var sent := Run(false, f, BUSY_THEN_DONE).sent;
      && sent == [Wire(f), Wire(f)]
      && ReceiveAll(c, false, rx, sent).indicated == rx.indicated + [OnWire(f), OnWire(f)]
  {
    hide Wire, ReceiveOne;
    assert BUSY_THEN_DONE[..1][..0] == [] && BUSY_THEN_DONE[..1] == [Env(0, 0, None, Ok(TxBusy))];
    assert Run(false, f, BUSY_THEN_DONE[..1]).sent == [Wire(f)];
    var w := Wire(f);
    assert [] + [w] == [w] && [w] + [w] == [w, w];
    ReceiveAllLast(c, rx, [], w);
    ReceiveAllLast(c, rx, [w], w);
    IntactCopy(c, rx, f);
    IntactCopy(c, Accept(c, rx, OnWire(f)), f);
    assert rx.indicated + [OnWire(f)] + [OnWire(f)] == rx.indicated + [OnWire(f), OnWire(f)];
  }

  /**
   * To the own individual address nothing is suppressed: there is one indication for every intact
   * copy, so that the transport layer sees the peer's repetitions.
   */
  lemma {:induction false} OwnAddressSeesEveryCopy(
    c: Filter, rx: Rx, f: LDataFrame, sent: seq<seq<byte>>, plain: nat, fates: seq<Fate>)
    requires Addressed(c, f) && ToOwnIndividual(c, f) && !f.repeated
    requires CopiesOf(f, sent, plain) && AllPossible(sent, fates)
    ensures |ReceiveAll(c, false, rx, Arrivals(sent, fates)).indicated|
         == |rx.indicated| + IntactCount(fates, 0, |sent|)
  {
    hide Wire, ReceiveOne, CopiesOf, AllPossible;
    if sent != [] {
      hide ReceiveAll, Arrivals;
      var n := |sent| - 1;
      CopiesPrefix(f, sent, plain);
      PossibleAt(sent, fates, n);
      LastCopy(c, rx, sent, fates);
      OwnAddressSeesEveryCopy(c, rx, f, sent[..n], if plain == |sent| then n else plain, fates[..n]);
      IntactCountPrefix(fates, n, 0, n);
      var rx' := ReceiveAll(c, false, rx, Arrivals(sent[..n], fates[..n]));
      var g := f.(repeated := plain <= n);
      match fates[n]
      case Lost =>
      case Intact => IntactCopy(c, rx', g);
      case Corrupted(at, octet) => CorruptedCopy(c, rx', g, at, octet);
    }
  }
}
