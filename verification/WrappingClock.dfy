/** A 32-bit tick counter that wraps, and what differences of its readings say about true time. */
module WrappingClock {

  const CLOCK_WRAP := 0x1_0000_0000

  /** A reading of the counter. */
  type tick = t: int | 0 <= t < CLOCK_WRAP

  /** What the counter shows at a true time. */
  function Reading(at: nat): tick { at % CLOCK_WRAP }

  /** Unsigned 32-bit subtraction. */
  function Elapsed(now: tick, since: tick): tick { (now - since) % CLOCK_WRAP }

  /** The clock never overstates how long ago something was, and is exact within one wrap. */
  lemma ElapsedIsExact(since: nat, at: nat)
    requires since <= at
    ensures Elapsed(Reading(at), Reading(since)) == (at - since) % CLOCK_WRAP
    ensures Elapsed(Reading(at), Reading(since)) <= at - since
    ensures at - since < CLOCK_WRAP ==> Elapsed(Reading(at), Reading(since)) == at - since
  {
    var a, b := at / CLOCK_WRAP, since / CLOCK_WRAP;
    assert Reading(at) - Reading(since) == (at - since) + (b - a) * CLOCK_WRAP;
    ModPlusMultiple(at - since, b - a);
  }

  lemma ModPlusMultiple(x: int, k: int)
    ensures (x + k * CLOCK_WRAP) % CLOCK_WRAP == x % CLOCK_WRAP
  {
    var q := x / CLOCK_WRAP;
    assert x + k * CLOCK_WRAP == (q + k) * CLOCK_WRAP + x % CLOCK_WRAP;
  }

  /** A time less than one wrap ago lies in the present period of the counter or in the one before. */
  lemma TrueTime(since: nat, at: nat)
    requires since <= at < since + CLOCK_WRAP
    ensures since == at - Reading(at) + Reading(since) - (if Reading(since) <= Reading(at) then 0 else CLOCK_WRAP)
  {
  }
}
