/** What transmit shaping guarantees over whole runs, in true time. */
module GroupShapingRuns {
  import opened Octets
  import opened WrappingClock
  import opened GroupShaping

  /** Things that happen to one object at a true time in milliseconds, which the clock shows modulo 2^32. */
  datatype Event =
    | Stored(at: nat, value: seq<byte>)
    | Published(at: nat, path: Path)
    | Pumped(at: nat, path: Path)

  datatype Sent = Sent(at: nat, value: seq<byte>)

  /** An object together with the telegrams it has put on the bus. */
  datatype Track = Track(obj: Obj, sent: seq<Sent>)

  function Fresh(policy: Policy, transmit: bool): Track {
    Track(Obj(policy, transmit, [], false, [], false, 0, false), [])
  }

  function Log(t: Track, next: Obj, at: nat, sent: bool): Track {
    Track(next, if sent then t.sent + [Sent(at, t.obj.raw)] else t.sent)
  }

  function Apply(scale: Scale, t: Track, e: Event): Track {
    match e
    case Stored(_, value) =>
      if |value| > MAX_PAYLOAD then t else t.(obj := t.obj.(raw := value, valid := true))
    case Published(at, path) =>
      var effect := Publish(scale, true, t.obj, Reading(at), path);
      Log(t, effect.next, at, effect.sent)
    case Pumped(at, path) =>
      Log(t, PumpOne(t.obj, Reading(at), path), at,
        Eligible(t.obj, Reading(at), path) && path.allowed && path.sendOk)
  }

  function Run(scale: Scale, t: Track, events: seq<Event>): Track {
    if events == [] then t
    else Apply(scale, Run(scale, t, events[..|events| - 1]), events[|events| - 1])
  }

  lemma RunLast(scale: Scale, t: Track, events: seq<Event>, e: Event)
    ensures Run(scale, t, events + [e]) == Apply(scale, Run(scale, t, events), e)
  {
    assert (events + [e])[..|events|] == events;
  }

  ghost predicate Monotone(events: seq<Event>) {
    forall i, j :: 0 <= i <= j < |events| ==> events[i].at <= events[j].at
  }

  /** The rate limiter stops a pass of the pump at some object from `from` up to `k`. */
  ghost predicate StoppedBy(objects: seq<Obj>, now: tick, paths: seq<Path>, from: nat, k: nat)
    requires k < |objects| == |paths|
  {
    exists j :: from <= j <= k && Eligible(objects[j], now, paths[j]) && !paths[j].allowed
  }

  /**
   * A pass of the pump over all objects is, for each object, its own pump event if no object up to
   * it was refused by the rate limiter, and nothing otherwise.
   */
  lemma {:induction false} PumpVisits(objects: seq<Obj>, i: nat, now: tick, paths: seq<Path>, k: nat)
    requires |paths| == |objects| && i <= |objects| && k < |objects|
    ensures PumpFrom(objects, i, now, paths)[k]
         == if k < i || StoppedBy(objects, now, paths, i, k) then objects[k] else PumpOne(objects[k], now, paths[k])
    decreases |objects| - i
  {
    hide Eligible, PumpOne;
    if i < |objects| && !(Eligible(objects[i], now, paths[i]) && !paths[i].allowed) {
      var objects' := objects[i := PumpOne(objects[i], now, paths[i])];
      PumpVisits(objects', i + 1, now, paths, k);
      if i < k {
        assert StoppedBy(objects, now, paths, i, k) ==> StoppedBy(objects', now, paths, i + 1, k) by {
          if StoppedBy(objects, now, paths, i, k) {
            var j :| i <= j <= k && Eligible(objects[j], now, paths[j]) && !paths[j].allowed;
            assert objects'[j] == objects[j];
          }
        }
        assert StoppedBy(objects', now, paths, i + 1, k) ==> StoppedBy(objects, now, paths, i, k) by {
          if StoppedBy(objects', now, paths, i + 1, k) {
            var j :| i + 1 <= j <= k && Eligible(objects'[j], now, paths[j]) && !paths[j].allowed;
            assert objects'[j] == objects[j];
          }
        }
      }
    }
  }

  // ---------------------------------------------------------------------------
  // Freshness
  // ---------------------------------------------------------------------------

  /** Two values no further apart than send-on-change tolerates. */
  predicate Close(scale: Scale, threshold: real, a: seq<byte>, b: seq<byte>) {
    || a == b
    || (&& threshold > 0.0 && scale(a).Some? && scale(b).Some?
        && -threshold < scale(a).value - scale(b).value < threshold)
  }

  /** The bus has seen a value close to the current one, or a send is pending. */
  predicate UpToDate(scale: Scale, t: Track) {
    || t.obj.pending
    || (t.sent != [] && Close(scale, t.obj.policy.threshold, t.obj.raw, t.sent[|t.sent| - 1].value))
  }

  /** What is remembered as last transmitted is what was last put on the bus, and when. */
  ghost predicate Remembered(t: Track) {
    && (t.obj.lastSentValid <==> t.sent != [])
    && (t.sent != [] ==>
          var last := t.sent[|t.sent| - 1];
          t.obj.lastSent == last.value && t.obj.lastSentMs == Reading(last.at))
  }

  lemma {:induction false} AlwaysRemembered(scale: Scale, policy: Policy, transmit: bool, events: seq<Event>)
    ensures Remembered(Run(scale, Fresh(policy, transmit), events))
    ensures Run(scale, Fresh(policy, transmit), events).obj.policy == policy
  {
    if events != [] {
      AlwaysRemembered(scale, policy, transmit, events[..|events| - 1]);
    }
  }

  /** A successful publish on a linked object leaves it up to date, whatever the limiter says. */
  lemma PublishBringsUpToDate(scale: Scale, t: Track, at: nat, path: Path)
    requires Remembered(t) && path.linked && Publish(scale, true, t.obj, Reading(at), path).ok
    ensures UpToDate(scale, Apply(scale, t, Published(at, path)))
  {
  }

  lemma EventKeepsUpToDate(scale: Scale, t: Track, e: Event)
    requires Remembered(t) && UpToDate(scale, t) && !e.Stored?
    ensures UpToDate(scale, Apply(scale, t, e))
  {
  }

  /**
   * After a successful publish on a linked object, and through any later pumps and publishes until
   * the value next changes, the last telegram carried a value within the change threshold of the
   * current one, or a send is pending.
   */
  lemma {:induction false} ValueReachesTheBus(
    scale: Scale, policy: Policy, transmit: bool, before: seq<Event>, at: nat, path: Path, later: seq<Event>)
    requires path.linked
    requires Publish(scale, true, Run(scale, Fresh(policy, transmit), before).obj, Reading(at), path).ok
    requires forall i :: 0 <= i < |later| ==> !later[i].Stored?
    ensures UpToDate(scale, Run(scale, Fresh(policy, transmit), before + [Published(at, path)] + later))
  {
    var start, all := Fresh(policy, transmit), before + [Published(at, path)] + later;
    var shorter := all[..|all| - 1];
    if later == [] {
      assert shorter == before;
      AlwaysRemembered(scale, policy, transmit, before);
      PublishBringsUpToDate(scale, Run(scale, start, before), at, path);
    } else {
      var rest := later[..|later| - 1];
      assert shorter == before + [Published(at, path)] + rest;
      ValueReachesTheBus(scale, policy, transmit, before, at, path, rest);
      AlwaysRemembered(scale, policy, transmit, shorter);
      EventKeepsUpToDate(scale, Run(scale, start, shorter), later[|later| - 1]);
    }
  }

  /** A publish on a linked object is dropped exactly if send-on-change is on and the bus has a close value. */
  lemma SuppressedIff(scale: Scale, t: Track, at: nat)
    requires Remembered(t)
    ensures DecidePublish(scale, t.obj, Reading(at)) == Suppress <==>
      && t.obj.policy.onChange && t.sent != []
      && Close(scale, t.obj.policy.threshold, t.obj.raw, t.sent[|t.sent| - 1].value)
  {
  }

  predicate NotBefore(t: Track, at: nat) { t.sent != [] ==> t.sent[|t.sent| - 1].at <= at }

  /** How long ago the last telegram was, less whole wraps of the clock. */
  function Age(t: Track, at: nat): nat
    requires t.sent != [] && NotBefore(t, at)
  {
    (at - t.sent[|t.sent| - 1].at) % 0x1_0000_0000
  }

  /** Send-on-change is on and the bus has a value close to the current one. */
  predicate Silenced(scale: Scale, t: Track) {
    t.obj.policy.onChange && t.sent != []
    && Close(scale, t.obj.policy.threshold, t.obj.raw, t.sent[|t.sent| - 1].value)
  }

  /** The minimum interval is over. */
  predicate Rested(t: Track, at: nat)
    requires NotBefore(t, at)
  {
    t.sent == [] || Age(t, at) >= t.obj.policy.minMs
  }

  /**
   * What a publish does. On a linked object whose value is not already on the bus it
   * sends at once if and only if the minimum interval is over and the limiter agrees, and otherwise
   * leaves a send pending; a send that fails is reported and changes nothing.
   */
  lemma PublishSendsIff(scale: Scale, t: Track, at: nat, path: Path)
    requires Remembered(t) && NotBefore(t, at)
    ensures var t' := Apply(scale, t, Published(at, path)); var ok := Publish(scale, true, t.obj, Reading(at), path).ok;
      if !path.linked || Silenced(scale, t) then ok && t' == t
      else if !Rested(t, at) || !path.allowed then ok && t' == t.(obj := t.obj.(pending := true))
      else if !path.sendOk then !ok && t' == t
      else
        && ok && t'.sent == t.sent + [Sent(at, t.obj.raw)] && !t'.obj.pending
        && t'.obj.raw == t.obj.raw && t'.obj.policy == t.obj.policy
  {
    if t.sent != [] {
      ElapsedIsExact(t.sent[|t.sent| - 1].at, at);
    }
  }

  /** Without a clock a publish is never left pending: it is sent unless it is suppressed. */
  lemma PublishWithoutClock(scale: Scale, o: Obj, path: Path)
    ensures var e := Publish(scale, false, o, 0, path);
      var silenced := o.policy.onChange && o.lastSentValid && Close(scale, o.policy.threshold, o.raw, o.lastSent);
      && (e.sent <==> path.linked && !silenced && path.sendOk)
      && (e.ok <==> !path.linked || silenced || path.sendOk)
      && (e.sent ==> e.next == o.(lastSent := o.raw, lastSentValid := true, lastSentMs := 0, pending := false))
      && (!e.sent ==> e.next == o)
  {
  }

  /** What makes a pump send. */
  predicate Due(t: Track, at: nat)
    requires NotBefore(t, at)
  {
    if t.sent == [] then t.obj.pending
    else
      var age := Age(t, at);
      (t.obj.policy.cyclicMs != 0 && age >= t.obj.policy.cyclicMs) || (t.obj.pending && age >= t.obj.policy.minMs)
  }

  /**
   * A pump sends the value as it then stands exactly if the object is a valid, linked transmitter
   * whose heartbeat is due or whose pending send has waited out the minimum interval, and the
   * limiter and the bus are willing; otherwise it changes nothing.
   */
  lemma PumpSendsIff(scale: Scale, t: Track, at: nat, path: Path)
    requires Remembered(t) && NotBefore(t, at)
    ensures var t' := Apply(scale, t, Pumped(at, path));
      if t.obj.transmit && t.obj.valid && path.linked && path.allowed && path.sendOk && Due(t, at)
      then t'.sent == t.sent + [Sent(at, t.obj.raw)] && !t'.obj.pending && t'.obj.raw == t.obj.raw
      else t' == t
  {
    if t.sent != [] {
      ElapsedIsExact(t.sent[|t.sent| - 1].at, at);
    }
  }

  // ---------------------------------------------------------------------------
  // Spacing across clock wraps
  // ---------------------------------------------------------------------------

  ghost predicate Spaced(sent: seq<Sent>, gap: nat) {
    forall i :: 0 < i < |sent| ==> sent[i].at - sent[i - 1].at >= gap
  }

  /** The spacing the code enforces: a heartbeat may undercut the minimum interval. */
  function Floor(policy: Policy): nat {
    if policy.cyclicMs == 0 || policy.minMs <= policy.cyclicMs then policy.minMs else policy.cyclicMs
  }

  /**
   * Two successive telegrams of one object are at least the smaller of the minimum interval and the
   * heartbeat period apart in true time, across any number of clock wraps.
   */
  lemma {:induction false} TelegramsAreSpaced(scale: Scale, policy: Policy, transmit: bool, events: seq<Event>)
    requires Monotone(events)
    ensures var sent := Run(scale, Fresh(policy, transmit), events).sent;
      && Spaced(sent, Floor(policy))
      && (sent != [] ==> events != [] && sent[|sent| - 1].at <= events[|events| - 1].at)
  {
    if events != [] {
      hide Apply, Spaced, Remembered;
      var n := |events| - 1;
      var before := events[..n];
      TelegramsAreSpaced(scale, policy, transmit, before);
      AlwaysRemembered(scale, policy, transmit, before);
      var t := Run(scale, Fresh(policy, transmit), before);
      assert t.sent != [] ==> before[|before| - 1].at <= events[n].at;
      EventIsSpaced(scale, t, events[n]);
    } else {
      assert Run(scale, Fresh(policy, transmit), events).sent == [];
    }
  }

  lemma EventIsSpaced(scale: Scale, t: Track, e: Event)
    requires Remembered(t) && Spaced(t.sent, Floor(t.obj.policy))
    requires t.sent != [] ==> t.sent[|t.sent| - 1].at <= e.at
    ensures var sent := Apply(scale, t, e).sent;
      Spaced(sent, Floor(t.obj.policy)) && (sent != [] ==> sent[|sent| - 1].at <= e.at)
  {
    if t.sent != [] {
      ElapsedIsExact(t.sent[|t.sent| - 1].at, e.at);
    }
  }

  /** The documented per-object floor: never two telegrams closer than the minimum interval. */
  ghost predicate HonoursMinInterval(scale: Scale, policy: Policy) {
    forall events :: Monotone(events) ==> Spaced(Run(scale, Fresh(policy, true), events).sent, policy.minMs)
  }

  /** A value stored and published at once, and a pump when the heartbeat is due. */
  function HeartbeatRun(policy: Policy): seq<Event> {
    var clear := Path(true, true, true);
    [Stored(0, [1]), Published(0, clear), Pumped(policy.cyclicMs, clear)]
  }

  lemma HeartbeatUndercuts(scale: Scale, policy: Policy)
    requires policy.cyclicMs != 0
    ensures var sent := Run(scale, Fresh(policy, true), HeartbeatRun(policy)).sent;
      |sent| == 2 && sent[1].at - sent[0].at == policy.cyclicMs
  {
    var start, clear := Fresh(policy, true), Path(true, true, true);
    var first, second, third := Stored(0, [1]), Published(0, clear), Pumped(policy.cyclicMs, clear);
    RunLast(scale, start, [], first);
    RunLast(scale, start, [first], second);
    RunLast(scale, start, [first, second], third);
    var t := Run(scale, start, [first, second]);
    assert t.sent == [Sent(0, [1])] && t.obj.lastSentMs == 0;
    assert [first, second] + [third] == HeartbeatRun(policy);
    ElapsedIsExact(0, policy.cyclicMs);
  }

  /**
   * The documented floor holds in all runs exactly when there is no heartbeat or its period is at
   * least the minimum interval.
   */
  lemma MinIntervalIff(scale: Scale, policy: Policy)
    ensures HonoursMinInterval(scale, policy) <==> policy.cyclicMs == 0 || policy.minMs <= policy.cyclicMs
  {
    if policy.cyclicMs == 0 || policy.minMs <= policy.cyclicMs {
      forall events | Monotone(events)
        ensures Spaced(Run(scale, Fresh(policy, true), events).sent, policy.minMs)
      {
        TelegramsAreSpaced(scale, policy, true, events);
      }
    } else {
      HeartbeatUndercuts(scale, policy);
      assert Monotone(HeartbeatRun(policy));
    }
  }
}
