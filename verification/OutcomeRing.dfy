/** The overwrite-oldest ring that keeps the most recent send outcomes. */
module OutcomeRing {
  import opened Octets

  const CAPACITY := 8

  /** The last elements of a sequence, at most CAPACITY of them. */
  function Recent<T>(s: seq<T>): (r: seq<T>)
    ensures |r| == if |s| < 8 then |s| else 8
  {
    if |s| <= CAPACITY then s else s[|s| - CAPACITY..]
  }

  lemma RecentAppend<T>(s: seq<T>, x: T)
    requires |s| <= CAPACITY
    ensures Recent(s + [x]) == if |s| < CAPACITY then s + [x] else s[1..] + [x]
  {
  }

  /** The elements of a ring buffer from its head on. */
  function View<T>(slots: seq<T>, head: nat, count: nat): (r: seq<T>)
    requires |slots| == CAPACITY && head < CAPACITY && count <= CAPACITY
    ensures |r| == count
  {
    seq(count, i requires 0 <= i < count => slots[(head + i) % CAPACITY])
  }

  lemma ViewAppend<T>(slots: seq<T>, head: nat, count: nat, x: T)
    requires |slots| == CAPACITY && head < CAPACITY && count < CAPACITY
    ensures View(slots[(head + count) % CAPACITY := x], head, count + 1) == View(slots, head, count) + [x]
  {
  }

  lemma ViewOverwrite<T>(slots: seq<T>, head: nat, x: T)
    requires |slots| == CAPACITY && head < CAPACITY
    ensures View(slots[head := x], (head + 1) % CAPACITY, CAPACITY) == View(slots, head, CAPACITY)[1..] + [x]
  {
  }

  lemma ViewPop<T>(slots: seq<T>, head: nat, count: nat)
    requires |slots| == CAPACITY && head < CAPACITY && 0 < count <= CAPACITY
    ensures View(slots, head, count) == [slots[head]] + View(slots, (head + 1) % CAPACITY, count - 1)
  {
  }

  class Ring<T(0)> {
    const slots: array<T>
    var head: nat
    var count: nat
    var dropped: nat

    ghost predicate Valid()
      reads this
    {
      slots.Length == CAPACITY && head < CAPACITY && count <= CAPACITY
    }

    ghost function Contents(): (r: seq<T>)
      requires Valid()
      reads this, slots
      ensures |r| == count
    {
      View(slots[..], head, count)
    }

    constructor ()
      ensures Valid() && fresh(slots) && Contents() == [] && dropped == 0
    {
      slots := new T[CAPACITY];
      head, count, dropped := 0, 0, 0;
    }

    method Enqueue(x: T)
      requires Valid()
      modifies this, slots
      ensures Valid() && Contents() == Recent(old(Contents()) + [x])
      ensures dropped == old(dropped) + (if old(count) == CAPACITY then 1 else 0)
    {
      hide View, Recent;
      RecentAppend(Contents(), x);
      if count >= CAPACITY {
        dropped := dropped + 1;
        ViewOverwrite(slots[..], head, x);
        slots[head] := x;
        head := (head + 1) % CAPACITY;
        return;
      }
      ViewAppend(slots[..], head, count, x);
      slots[(head + count) % CAPACITY] := x;
      count := count + 1;
    }

    method Pop() returns (x: Option<T>)
      requires Valid()
      modifies this
      ensures Valid() && dropped == old(dropped)
      ensures old(Contents()) == [] ==> x == None && Contents() == []
      ensures old(Contents()) != [] ==> x == Some(old(Contents())[0]) && Contents() == old(Contents())[1..]
    {
      if count == 0 {
        return None;
      }
      ViewPop(slots[..], head, count);
      x := Some(slots[head]);
      head := (head + 1) % CAPACITY;
      count := count - 1;
    }
  }

  /** Enqueueing one by one, keeping the recent ones each time. */
  function EnqueueAll<T>(start: seq<T>, xs: seq<T>): seq<T> {
    if xs == [] then start else Recent(EnqueueAll(start, xs[..|xs| - 1]) + [xs[|xs| - 1]])
  }

  /** Between pops the ring holds exactly the most recent outcomes, in order. */
  lemma {:induction false} HoldsTheMostRecent<T>(start: seq<T>, xs: seq<T>)
    requires |start| <= CAPACITY
    ensures EnqueueAll(start, xs) == Recent(start + xs)
  {
    assert Recent(start) == start;
    hide Recent;
    if xs == [] {
      assert start + xs == start;
    } else {
      var n := |xs| - 1;
      HoldsTheMostRecent(start, xs[..n]);
      var before := start + xs[..n];
      assert start + xs == before + [xs[n]];
      RecentAgain(before, xs[n]);
    }
  }

  lemma RecentAgain<T>(s: seq<T>, x: T)
    ensures Recent(Recent(s) + [x]) == Recent(s + [x])
  {
  }
}
