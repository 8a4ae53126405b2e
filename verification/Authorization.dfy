/** The authorization table: expiry, compaction and eviction in a fixed array of sixteen entries. */
module Authorization {
  import opened Octets
  import opened WrappingClock

  const MAX_DEVICES := 16
  const NO_TIMEOUT := 0

  datatype Level = NoAccess | Management | Configuration | Maximum

  datatype Entry = Entry(address: word, level: Level, stamp: tick)

  const EMPTY_ENTRY := Entry(0, NoAccess, 0)

  function Area(a: word): byte { ((a >> 12) & 0x0F) as byte }

  function Line(a: word): byte { ((a >> 8) & 0x0F) as byte }

  function DeviceNumber(a: word): byte { (a & 0xFF) as byte }

  predicate SameDevice(a: word, b: word) {
    Area(a) == Area(b) && Line(a) == Line(b) && DeviceNumber(a) == DeviceNumber(b)
  }

  /** Area, line and device number together are the whole address. */
  lemma SameDeviceIsEqual(a: word, b: word)
    ensures SameDevice(a, b) <==> a == b
  {
  }

  predicate Expired(e: Entry, timeout: tick, now: tick) {
    timeout != NO_TIMEOUT && Elapsed(now, e.stamp) >= timeout
  }

  // ---------------------------------------------------------------------------
  // The table as a sequence
  // ---------------------------------------------------------------------------

  /** The entries that have not expired, in order. */
  function Kept(entries: seq<Entry>, timeout: tick, now: tick): (r: seq<Entry>)
    ensures |r| <= |entries|
  {
    if entries == [] then []
    else
      var rest := Kept(entries[..|entries| - 1], timeout, now);
      var e := entries[|entries| - 1];
      if Expired(e, timeout, now) then rest else rest + [e]
  }

  /** The table when its first `seen` entries have been looked at. */
  ghost function Partly(all: seq<Entry>, seen: nat, timeout: tick, now: tick): seq<Entry>
    requires seen <= |all|
  {
    Kept(all[..seen], timeout, now) + all[seen..]
  }

  ghost function KeptOf(all: seq<Entry>, seen: nat, timeout: tick, now: tick): nat
    requires seen <= |all|
  {
    |Kept(all[..seen], timeout, now)|
  }

  lemma PartlyEnds(all: seq<Entry>, timeout: tick, now: tick)
    ensures Partly(all, 0, timeout, now) == all && KeptOf(all, 0, timeout, now) == 0
    ensures Partly(all, |all|, timeout, now) == Kept(all, timeout, now)
    ensures KeptOf(all, |all|, timeout, now) == |Kept(all, timeout, now)|
  {
    assert all[..|all|] == all;
  }

  /** One more entry is looked at: it either joins the kept ones or is taken out. */
  lemma PartlyStep(all: seq<Entry>, seen: nat, timeout: tick, now: tick)
    requires seen < |all|
    ensures var k, table := KeptOf(all, seen, timeout, now), Partly(all, seen, timeout, now);
      && k < |table|
      && KeptOf(all, seen + 1, timeout, now) == (if Expired(table[k], timeout, now) then k else k + 1)
      && Partly(all, seen + 1, timeout, now)
         == (if Expired(table[k], timeout, now) then table[..k] + table[k + 1..] else table)
  {
    assert all[..seen + 1][..seen] == all[..seen];
    assert all[seen..] == [all[seen]] + all[seen + 1..];
  }

  /** Position of an address, or the number of entries. */
  function IndexFrom(entries: seq<Entry>, address: word, i: nat): (k: nat)
    requires i <= |entries|
    ensures i <= k <= |entries|
    ensures k < |entries| ==> entries[k].address == address
    ensures forall j :: i <= j < k ==> entries[j].address != address
    decreases |entries| - i
  {
    if i == |entries| || entries[i].address == address then i else IndexFrom(entries, address, i + 1)
  }

  /** Position of the first entry with the smallest stamp among the first `n`. */
  function Smallest(entries: seq<Entry>, n: nat): (k: nat)
    requires 1 <= n <= |entries|
    ensures k < n && forall j :: 0 <= j < n ==> entries[k].stamp <= entries[j].stamp
    ensures forall j :: 0 <= j < k ==> entries[k].stamp < entries[j].stamp
  {
    if n == 1 then 0
    else
      var k := Smallest(entries, n - 1);
      if entries[n - 1].stamp < entries[k].stamp then n - 1 else k
  }

  /** The table after a successful request. */
  function Stored(entries: seq<Entry>, e: Entry, timeout: tick): seq<Entry> {
    var kept := Kept(entries, timeout, e.stamp);
    var k := IndexFrom(kept, e.address, 0);
    if k < |kept| then kept[k := e]
    else if |kept| < MAX_DEVICES then kept + [e]
    else kept[Smallest(kept, |kept|) := e]
  }

  ghost predicate Distinct(entries: seq<Entry>) {
    forall i, j :: 0 <= i < j < |entries| ==> entries[i].address != entries[j].address
  }

  // ---------------------------------------------------------------------------
  // The service
  // ---------------------------------------------------------------------------

  /** Four-octet keys; the default key of an unconfigured device is never compared. */
  type Key = seq<byte>

  datatype Keys = Keys(configured: bool, management: Key, configuration: Key, maximum: Key)

  function KeyLevel(keys: Keys, key: Key): Result<Level> {
    if !keys.configured || key == keys.maximum then Ok(Maximum)
    else if key == keys.configuration then Ok(Configuration)
    else if key == keys.management then Ok(Management)
    else Err(OperationNotSupported)
  }

  /** The key that opens a level. */
  function KeyFor(keys: Keys, level: Level): Key
    requires level != NoAccess
  {
    match level
    case Management => keys.management
    case Configuration => keys.configuration
    case Maximum => keys.maximum
  }

  function Rank(level: Level): nat {
    match level case NoAccess => 0 case Management => 1 case Configuration => 2 case Maximum => 3
  }

  /**
    * With keys configured, a key opens the highest of the levels it belongs to, and otherwise
    * nothing; without, every key opens the maximum level.
    */
  lemma HighestMatchingLevel(keys: Keys, key: Key, level: Level)
    ensures !keys.configured ==> KeyLevel(keys, key) == Ok(Maximum)
    ensures keys.configured ==>
      (KeyLevel(keys, key) == Ok(level) <==>
         && level != NoAccess && key == KeyFor(keys, level)
         && (forall other :: other != NoAccess && key == KeyFor(keys, other) ==> Rank(other) <= Rank(level)))
    ensures KeyLevel(keys, key) == Err(OperationNotSupported) <==>
      keys.configured && key != keys.maximum && key != keys.configuration && key != keys.management
  {
    if keys.configured && level != NoAccess && key == KeyFor(keys, level) && KeyLevel(keys, key) != Ok(level) {
      assert key == KeyFor(keys, KeyLevel(keys, key).value);
    }
  }

  class Service {
    const devices: array<Entry>
    var count: nat
    var timeout: tick
    var logicalClock: tick
    var keys: Keys

    ghost predicate Valid()
      reads this, devices
    {
      devices.Length == MAX_DEVICES && count <= MAX_DEVICES && Distinct(devices[..count])
    }

    ghost function Entries(): seq<Entry>
      requires count <= devices.Length
      reads this, devices
    {
      devices[..count]
    }

    constructor (keys: Keys, timeout: tick)
      ensures Valid() && fresh(devices) && Entries() == []
    {
      devices := new Entry[MAX_DEVICES](_ => EMPTY_ENTRY);
      count, logicalClock := 0, 0;
      this.keys, this.timeout := keys, timeout;
    }

    /** The configured time source, or a logical clock that ticks with every question. */
    method CurrentTime(source: Option<tick>) returns (now: tick)
      modifies this`logicalClock
      ensures now == if source.Some? then source.value else (old(logicalClock) + 1) % CLOCK_WRAP
      ensures logicalClock == if source.Some? then old(logicalClock) else now
    {
      if source.Some? {
        return source.value;
      }
      logicalClock := (logicalClock + 1) % CLOCK_WRAP;
      return logicalClock;
    }

    method Find(address: word) returns (k: nat)
      requires count <= devices.Length
      ensures k == IndexFrom(Entries(), address, 0)
    {
      hide SameDevice;
      k := 0;
      while k < count
        invariant k <= count && IndexFrom(Entries(), address, k) == IndexFrom(Entries(), address, 0)
      {
        SameDeviceIsEqual(devices[k].address, address);
        if SameDevice(devices[k].address, address) {
          return;
        }
        k := k + 1;
      }
    }

    /** Shifts the entries behind a position down by one. */
    method RemoveAt(index: nat)
      requires devices.Length == MAX_DEVICES && index < count <= MAX_DEVICES
      modifies this`count, devices
      ensures count == old(count) - 1
      ensures Entries() == old(Entries())[..index] + old(Entries())[index + 1..]
    {
      var i := index;
      while i + 1 < count
        invariant index <= i < count == old(count)
        invariant forall k :: 0 <= k < index ==> devices[k] == old(devices[k])
        invariant forall k :: index <= k < i ==> devices[k] == old(devices[k + 1])
        invariant forall k :: i < k < count ==> devices[k] == old(devices[k])
      {
        devices[i] := devices[i + 1];
        i := i + 1;
      }
      count := count - 1;
      devices[count] := EMPTY_ENTRY;
    }

    method RemoveExpired(now: tick)
      requires devices.Length == MAX_DEVICES && count <= MAX_DEVICES
      modifies this`count, devices
      ensures count <= old(count) && Entries() == Kept(old(Entries()), timeout, now)
    {
      hide Expired, Distinct, Kept, Partly, KeptOf;
      ghost var all, seen := Entries(), 0;
      PartlyEnds(all, timeout, now);
      var index := 0;
      while index < count
        invariant seen <= |all| && index <= count <= old(count)
        invariant index == KeptOf(all, seen, timeout, now) && Entries() == Partly(all, seen, timeout, now)
        invariant count - index == |all| - seen
        decreases count - index
      {
        PartlyStep(all, seen, timeout, now);
        assert Entries()[index] == devices[index];
        seen := seen + 1;
        if !Expired(devices[index], timeout, now) {
          index := index + 1;
        } else {
          RemoveAt(index);
        }
      }
    }

    method OldestIndex() returns (k: nat)
      requires 1 <= count <= devices.Length
      ensures k == Smallest(Entries(), count)
    {
      k := 0;
      for i := 1 to count
        invariant k == Smallest(Entries(), i)
      {
        if devices[i].stamp < devices[k].stamp {
          k := i;
        }
      }
    }

    method StoreAuthorization(address: word, level: Level, now: tick)
      requires Valid()
      modifies this`count, devices
      ensures Valid() && Entries() == Stored(old(Entries()), Entry(address, level, now), timeout)
    {
      hide Distinct, Expired, Kept, Smallest;
      ghost var before := Entries();
      StoredAsMap(before, Entry(address, level, now), timeout);
      RemoveExpired(now);
      var k := Find(address);
      if k == count {
        if count < MAX_DEVICES {
          count := count + 1;
        } else {
          k := OldestIndex();
        }
      }
      ghost var kept := Kept(before, timeout, now);
      devices[k] := Entry(address, level, now);
      assert Entries() == Stored(before, Entry(address, level, now), timeout);
    }

    /** `verdict` is the answer of a validation callback, if one is installed. */
    method HandleRequest(source: word, key: Key, verdict: Option<Result<Level>>, time: Option<tick>)
      returns (r: Result<()>, response: Level)
      requires Valid()
      modifies this`count, this`logicalClock, devices
      ensures Valid()
      ensures var granted := if verdict.Some? then verdict.value else KeyLevel(keys, key);
        match granted
        case Err(e) =>
          r == Err(e) && response == NoAccess && Entries() == old(Entries()) && logicalClock == old(logicalClock)
        case Ok(level) =>
          && r == Ok(()) && response == level
          && (logicalClock == if time.Some? then old(logicalClock) else (old(logicalClock) + 1) % CLOCK_WRAP)
          && var now := if time.Some? then time.value else (old(logicalClock) + 1) % CLOCK_WRAP;
             Entries() == Stored(old(Entries()), Entry(source, level, now), timeout)
    {
      var granted := if verdict.Some? then verdict.value else KeyLevel(keys, key);
      if granted.Err? {
        return Err(granted.error), NoAccess;
      }
      var now := CurrentTime(time);
      StoreAuthorization(source, granted.value, now);
      return Ok(()), granted.value;
    }

    method GetCurrentLevel(address: word, time: Option<tick>) returns (level: Level)
      requires Valid()
      modifies this`logicalClock
      ensures Valid() && Entries() == old(Entries())
      ensures var now := if time.Some? then time.value else (old(logicalClock) + 1) % CLOCK_WRAP;
        level == LevelAt(Entries(), address, timeout, now)
      ensures logicalClock == if time.Some? || Lookup(Entries(), address).None? then old(logicalClock)
                              else (old(logicalClock) + 1) % CLOCK_WRAP
    {
      var k := Find(address);
      if k == count {
        // The clock is only asked about a known device.
        return NoAccess;
      }
      var now := CurrentTime(time);
      return if Expired(devices[k], timeout, now) then NoAccess else devices[k].level;
    }

    method ClearAuthorization(address: word)
      requires Valid()
      modifies this`count, devices
      ensures Valid()
      ensures Entries() == Cleared(old(Entries()), address)
      ensures forall a :: Lookup(Entries(), a) == if a == address then None else Lookup(old(Entries()), a)
    {
      ghost var before := Entries();
      var k := Find(address);
      if k < count {
        RemoveAt(k);
        RemovedEntry(before, k);
      }
    }
  }

  // ---------------------------------------------------------------------------
  // The table as a bounded map
  // ---------------------------------------------------------------------------

  /** The entry of an address, if it has one. */
  function Lookup(entries: seq<Entry>, address: word): (r: Option<Entry>)
    ensures r.Some? ==> r.value in entries && r.value.address == address
    ensures r.None? ==> forall e :: e in entries ==> e.address != address
  {
    var k := IndexFrom(entries, address, 0);
    if k == |entries| then None else Some(entries[k])
  }

  function LevelAt(entries: seq<Entry>, address: word, timeout: tick, now: tick): Level {
    match Lookup(entries, address)
    case None => NoAccess
    case Some(e) => if Expired(e, timeout, now) then NoAccess else e.level
  }

  /** In a table of distinct addresses every entry is found under its address. */
  lemma Found(entries: seq<Entry>, e: Entry)
    requires Distinct(entries) && e in entries
    ensures Lookup(entries, e.address) == Some(e)
  {
    var j :| 0 <= j < |entries| && entries[j] == e;
    var k := IndexFrom(entries, e.address, 0);
    assert k <= j;
  }

  /** The table without the entry at a position. */
  function Without(entries: seq<Entry>, k: nat): seq<Entry>
    requires k < |entries|
  {
    entries[..k] + entries[k + 1..]
  }

  lemma RemovedEntry(entries: seq<Entry>, k: nat)
    requires k < |entries| && Distinct(entries)
    ensures Distinct(Without(entries, k))
    ensures forall a :: Lookup(Without(entries, k), a)
                        == if a == entries[k].address then None else Lookup(entries, a)
  {
    var rest := Without(entries, k);
    assert forall i :: 0 <= i < |rest| ==> rest[i] == entries[if i < k then i else i + 1];
    forall a ensures Lookup(rest, a) == if a == entries[k].address then None else Lookup(entries, a) {
      var was := Lookup(entries, a);
      if was.Some? && a != entries[k].address {
        var i := IndexFrom(entries, a, 0);
        assert rest[if i < k then i else i - 1] == was.value;
        Found(rest, was.value);
      }
    }
  }

  lemma ReplacedEntry(entries: seq<Entry>, k: nat, e: Entry)
    requires k < |entries| && Distinct(entries)
    requires forall i :: 0 <= i < |entries| && i != k ==> entries[i].address != e.address
    ensures Distinct(entries[k := e])
    ensures forall a :: Lookup(entries[k := e], a)
                        == if a == e.address then Some(e)
                           else if a == entries[k].address then None
                           else Lookup(entries, a)
  {
    var after := entries[k := e];
    assert after[k] == e;
    Found(after, e);
    forall a | a != e.address
      ensures Lookup(after, a) == if a == entries[k].address then None else Lookup(entries, a)
    {
      var was := Lookup(entries, a);
      if was.Some? && a != entries[k].address {
        assert after[IndexFrom(entries, a, 0)] == was.value;
        Found(after, was.value);
      }
    }
  }

  lemma AppendedEntry(entries: seq<Entry>, e: Entry)
    requires Distinct(entries) && Lookup(entries, e.address).None?
    ensures Distinct(entries + [e])
    ensures forall a :: Lookup(entries + [e], a) == if a == e.address then Some(e) else Lookup(entries, a)
  {
    var after := entries + [e];
    assert after[|entries|] == e;
    Found(after, e);
    forall a | a != e.address ensures Lookup(after, a) == Lookup(entries, a) {
      var was := Lookup(entries, a);
      if was.Some? {
        Found(after, was.value);
      }
    }
  }

  /** Expiry removal keeps exactly the entries that have not expired, and distinctness. */
  lemma {:induction false} KeptEntries(entries: seq<Entry>, timeout: tick, now: tick)
    requires Distinct(entries)
    ensures var kept := Kept(entries, timeout, now);
      && Distinct(kept)
      && (forall e :: e in kept <==> e in entries && !Expired(e, timeout, now))
  {
    hide Expired;
    if entries != [] {
      var n := |entries| - 1;
      KeptEntries(entries[..n], timeout, now);
      var rest := Kept(entries[..n], timeout, now);
      assert entries == entries[..n] + [entries[n]];
      assert forall e :: e in rest ==> e in entries[..n];
      assert forall i :: 0 <= i < |rest| ==> rest[i] in rest && rest[i].address != entries[n].address;
    }
  }

  /** Expiry removal is order preserving: what is removed leaves the rest as it was. */
  lemma {:induction false} KeptInOrder(front: seq<Entry>, back: seq<Entry>, timeout: tick, now: tick)
    ensures Kept(front + back, timeout, now) == Kept(front, timeout, now) + Kept(back, timeout, now)
  {
    if back == [] {
      assert front + back == front;
    } else {
      var n := |back| - 1;
      assert (front + back)[..|front + back| - 1] == front + back[..n];
      KeptInOrder(front, back[..n], timeout, now);
    }
  }

  lemma KeptLookup(entries: seq<Entry>, timeout: tick, now: tick, a: word)
    requires Distinct(entries)
    ensures Lookup(Kept(entries, timeout, now), a)
            == match Lookup(entries, a)
               case None => None
               case Some(e) => if Expired(e, timeout, now) then None else Some(e)
  {
    var kept := Kept(entries, timeout, now);
    KeptEntries(entries, timeout, now);
    var was, left := Lookup(entries, a), Lookup(kept, a);
    if left.Some? {
      Found(entries, left.value);
    }
  }

  /** The entry that a request pushes out of a full table. */
  function Evicted(entries: seq<Entry>, e: Entry, timeout: tick): (r: Option<Entry>)
    ensures r.Some? ==>
      && |Kept(entries, timeout, e.stamp)| >= MAX_DEVICES
      && Lookup(Kept(entries, timeout, e.stamp), e.address).None?
      && r.value in Kept(entries, timeout, e.stamp)
      && (forall o :: o in Kept(entries, timeout, e.stamp) ==> r.value.stamp <= o.stamp)
  {
    var kept := Kept(entries, timeout, e.stamp);
    if Lookup(kept, e.address).None? && |kept| >= MAX_DEVICES then Some(kept[Smallest(kept, |kept|)]) else None
  }

  /**
    * A successful request as an update of a bounded map: the requester gets its entry, another
    * address keeps its entry unless that has expired or is the one pushed out of a full table.
    */
  lemma StoredAsMap(entries: seq<Entry>, e: Entry, timeout: tick)
    requires Distinct(entries) && |entries| <= MAX_DEVICES
    ensures var after := Stored(entries, e, timeout);
      && Distinct(after) && |after| <= MAX_DEVICES
      && (forall a :: Lookup(after, a)
            == if a == e.address then Some(e)
               else match Lookup(entries, a)
                 case None => None
                 case Some(was) =>
                   if Expired(was, timeout, e.stamp) || Evicted(entries, e, timeout) == Some(was) then None
                   else Some(was))
  {
    var kept := Kept(entries, timeout, e.stamp);
    KeptEntries(entries, timeout, e.stamp);
    var k := IndexFrom(kept, e.address, 0);
    if k < |kept| {
      ReplacedEntry(kept, k, e);
    } else if |kept| < MAX_DEVICES {
      AppendedEntry(kept, e);
    } else {
      ReplacedEntry(kept, Smallest(kept, |kept|), e);
    }
    var after := Stored(entries, e, timeout);
    forall a ensures Lookup(after, a)
            == if a == e.address then Some(e)
               else match Lookup(entries, a)
                 case None => None
                 case Some(was) =>
                   if Expired(was, timeout, e.stamp) || Evicted(entries, e, timeout) == Some(was) then None
                   else Some(was)
    {
      KeptLookup(entries, timeout, e.stamp, a);
      var out := Evicted(entries, e, timeout);
      if out.Some? {
        Found(kept, out.value);
      }
    }
  }

  /** The requester holds what it was granted, for as long as the timeout says. */
  lemma GrantedLevel(entries: seq<Entry>, e: Entry, timeout: tick, now: tick)
    requires Distinct(entries) && |entries| <= MAX_DEVICES
    ensures LevelAt(Stored(entries, e, timeout), e.address, timeout, now)
            == if Expired(e, timeout, now) then NoAccess else e.level
  {
    StoredAsMap(entries, e, timeout);
  }

  // ---------------------------------------------------------------------------
  // Eviction and the wrapping clock
  // ---------------------------------------------------------------------------

  ghost predicate StampedAt(entries: seq<Entry>, truth: seq<nat>, now: nat) {
    && |truth| == |entries|
    && forall i :: 0 <= i < |entries| ==>
         entries[i].stamp == Reading(truth[i]) && truth[i] <= now < truth[i] + CLOCK_WRAP
  }

  /** All stamps lie on one side of the present reading. */
  predicate OneSide(entries: seq<Entry>, now: tick) {
    || (forall e :: e in entries ==> e.stamp <= now)
    || (forall e :: e in entries ==> e.stamp > now)
  }

  /** Eviction takes the truly oldest entry exactly when no wrap lies between the stamps. */
  lemma EvictsOldestIff(entries: seq<Entry>, truth: seq<nat>, now: nat)
    requires entries != [] && StampedAt(entries, truth, now)
    ensures (forall j :: 0 <= j < |truth| ==> truth[Smallest(entries, |entries|)] <= truth[j])
            <==> OneSide(entries, Reading(now))
  {
    var k, n := Smallest(entries, |entries|), Reading(now);
    forall i | 0 <= i < |truth|
      ensures truth[i] == now - n + entries[i].stamp - (if entries[i].stamp <= n then 0 else CLOCK_WRAP)
    {
      TrueTime(truth[i], now);
    }
    if OneSide(entries, n) {
      assert forall i :: 0 <= i < |truth| ==> entries[i] in entries && entries[k].stamp <= entries[i].stamp;
    } else {
      var late :| late in entries && late.stamp > n;
      var j :| 0 <= j < |entries| && entries[j] == late;
      var early :| early in entries && early.stamp <= n;
      assert truth[j] < truth[k];
    }
  }

  lemma {:induction false} NothingExpires(entries: seq<Entry>, now: tick)
    ensures Kept(entries, NO_TIMEOUT, now) == entries
  {
    if entries != [] {
      NothingExpires(entries[..|entries| - 1], now);
    }
  }

  // ---------------------------------------------------------------------------
  // Runs
  // ---------------------------------------------------------------------------

  /** What happens to a service, at true times that the service sees modulo 2^32. */
  datatype Event = Grant(address: word, level: Level, at: nat) | Clear(address: word)

  function Cleared(entries: seq<Entry>, address: word): seq<Entry> {
    var k := IndexFrom(entries, address, 0);
    if k < |entries| then Without(entries, k) else entries
  }

  /** The entry that a grant leaves in the table. */
  function EntryOf(g: Event): Entry
    requires g.Grant?
  {
    Entry(g.address, g.level, Reading(g.at))
  }

  function After(events: seq<Event>, timeout: tick): seq<Entry> {
    if events == [] then []
    else
      var before := After(events[..|events| - 1], timeout);
      match events[|events| - 1]
      case Grant(_, _, _) => Stored(before, EntryOf(events[|events| - 1]), timeout)
      case Clear(a) => Cleared(before, a)
  }

  /** The last grant of an address that was not cleared since. */
  function LastGrant(events: seq<Event>, address: word): (r: Option<Event>)
    ensures r.Some? ==> r.value.Grant? && r.value.address == address && r.value in events
  {
    if events == [] then None
    else
      var last := events[|events| - 1];
      if last.address == address then (if last.Grant? then Some(last) else None)
      else LastGrant(events[..|events| - 1], address)
  }

  /** The grants come in the order of time, none later than `now`. */
  ghost predicate Ordered(events: seq<Event>, now: nat) {
    events == [] ||
    var last := events[|events| - 1];
    (last.Grant? ==> last.at <= now) && Ordered(events[..|events| - 1], if last.Grant? then last.at else now)
  }

  /** Grants to different devices at the last tick before a wrap. */
  function EarlierGrants(n: nat): seq<Event> {
    if n == 0 then [] else EarlierGrants(n - 1) + [Grant(ToWord(n - 1), Maximum, CLOCK_WRAP - 1)]
  }

  lemma {:induction false} EarlierTable(n: nat)
    requires n < MAX_DEVICES
    ensures var entries := After(EarlierGrants(n), NO_TIMEOUT);
      |entries| == n && forall i :: 0 <= i < n ==> entries[i] == Entry(ToWord(i), Maximum, CLOCK_WRAP - 1)
  {
    hide ToWord, After, EntryOf;
    if n == 0 {
      BeforeAnyGrant();
    } else {
      EarlierTable(n - 1);
      LastGrantRead(Grant(ToWord(n - 1), Maximum, CLOCK_WRAP - 1));
      GrantToNewDevice(EarlierGrants(n - 1), n - 1, CLOCK_WRAP - 1);
    }
  }

  lemma BeforeAnyGrant()
    ensures After([], NO_TIMEOUT) == []
  {
  }

  lemma LastGrantRead(g: Event)
    requires g.Grant? && g.at == CLOCK_WRAP - 1
    ensures EntryOf(g) == Entry(g.address, g.level, CLOCK_WRAP - 1)
  {
  }

  /** A table of the devices below `n` that is not full gets the next one appended. */
  lemma GrantToNewDevice(events: seq<Event>, n: nat, at: nat)
    requires n < MAX_DEVICES && |After(events, NO_TIMEOUT)| == n
    requires forall i :: 0 <= i < n ==> After(events, NO_TIMEOUT)[i].address == ToWord(i)
    ensures var g := Grant(ToWord(n), Maximum, at);
      After(events + [g], NO_TIMEOUT) == After(events, NO_TIMEOUT) + [EntryOf(g)]
  {
    var g, before := Grant(ToWord(n), Maximum, at), After(events, NO_TIMEOUT);
    assert (events + [g])[..|events|] == events;
    NothingExpires(before, Reading(at));
    forall i | 0 <= i < n ensures before[i].address != ToWord(n) {
      CountSurvives(i);
      CountSurvives(n);
    }
  }

  /**
    * A reachable table in which the newest entry is evicted: fifteen grants at the last tick before
    * a wrap, one just after it, and then a seventeenth device.
    */
  lemma WrapEvictsTheNewest()
    ensures var newest, next := Grant(ToWord(15), Maximum, CLOCK_WRAP), Grant(ToWord(16), Maximum, CLOCK_WRAP + 1);
      var entries := After(EarlierGrants(15) + [newest], NO_TIMEOUT);
      && |entries| == MAX_DEVICES
      && (forall i :: 0 <= i < 15 ==> entries[i] == Entry(ToWord(i), Maximum, CLOCK_WRAP - 1))
      && Evicted(entries, EntryOf(next), NO_TIMEOUT) == Some(EntryOf(newest))
  {
    hide ToWord, Kept, After, Smallest, EarlierGrants;
    var newest, next := Grant(ToWord(15), Maximum, CLOCK_WRAP), Grant(ToWord(16), Maximum, CLOCK_WRAP + 1);
    EarlierTable(15);
    GrantToNewDevice(EarlierGrants(15), 15, CLOCK_WRAP);
    var entries := After(EarlierGrants(15) + [newest], NO_TIMEOUT);
    NothingExpires(entries, Reading(next.at));
    forall i | 0 <= i < 16 ensures entries[i].address != next.address {
      CountSurvives(i);
      CountSurvives(16);
    }
    assert entries[Smallest(entries, 16)].stamp <= entries[15].stamp;
  }

  /** A table of distinct addresses from `known` has room for one more of them. */
  lemma RoomForKnown(entries: seq<Entry>, known: set<word>, a: word)
    requires Distinct(entries) && a in known && Lookup(entries, a).None?
    requires forall e :: e in entries ==> e.address in known
    ensures |entries| < |known|
  {
    var addresses := set e | e in entries :: e.address;
    DistinctCount(entries);
    assert addresses <= known - {a};
    SubsetSize(addresses, known - {a});
  }

  lemma {:induction false} SubsetSize<T>(small: set<T>, big: set<T>)
    requires small <= big
    ensures |small| <= |big|
  {
    if x :| x in small {
      SubsetSize(small - {x}, big - {x});
    }
  }

  lemma {:induction false} DistinctCount(entries: seq<Entry>)
    requires Distinct(entries)
    ensures |set e | e in entries :: e.address| == |entries|
  {
    if entries != [] {
      var n := |entries| - 1;
      DistinctCount(entries[..n]);
      var front := set e | e in entries[..n] :: e.address;
      assert entries == entries[..n] + [entries[n]];
      assert (set e | e in entries :: e.address) == front + {entries[n].address};
      assert entries[n].address !in front;
    }
  }

  /** The table holds the last grant of an address, or that grant has timed out. */
  ghost predicate Reflects(entries: seq<Entry>, grant: Option<Event>, address: word, timeout: tick, now: nat) {
    match grant
    case Some(Grant(_, level, at)) =>
      var e := Entry(address, level, Reading(at));
      || Lookup(entries, address) == Some(e)
      || (Lookup(entries, address).None? && timeout != NO_TIMEOUT && now >= at + timeout)
    case _ => Lookup(entries, address).None?
  }

  lemma ElapsedIsTrue(e: Entry, at: nat, timeout: tick, now: nat)
    requires e.stamp == Reading(at) && at <= now < at + CLOCK_WRAP
    ensures Expired(e, timeout, Reading(now)) <==> timeout != NO_TIMEOUT && now - at >= timeout
  {
    ElapsedIsExact(at, now);
  }

  /** Every reachable table has distinct addresses, at most sixteen, all from the run. */
  lemma {:induction false} ReachableTable(events: seq<Event>, known: set<word>, timeout: tick)
    requires forall v :: v in events ==> v.address in known
    ensures var entries := After(events, timeout);
      Distinct(entries) && |entries| <= MAX_DEVICES && forall e :: e in entries ==> e.address in known
  {
    if events != [] {
      var n := |events| - 1;
      var last, before := events[n], After(events[..n], timeout);
      assert last in events && forall v :: v in events[..n] ==> v in events;
      ReachableTable(events[..n], known, timeout);
      if last.Grant? {
        StoredAsMap(before, EntryOf(last), timeout);
      } else if Lookup(before, last.address).Some? {
        RemovedEntry(before, IndexFrom(before, last.address, 0));
      }
      hide Distinct, Stored, Expired, Evicted, IndexFrom, Without;
      var entries := After(events, timeout);
      forall e | e in entries ensures e.address in known {
        Found(entries, e);
        assert Lookup(entries, e.address).Some?;
      }
    }
  }

  lemma {:induction false} TableReflectsTheRun(events: seq<Event>, known: set<word>, timeout: tick, now: nat, a: word)
    requires |known| <= MAX_DEVICES && (forall v :: v in events ==> v.address in known) && Ordered(events, now)
    requires LastGrant(events, a).Some? ==> now < LastGrant(events, a).value.at + CLOCK_WRAP
    ensures Reflects(After(events, timeout), LastGrant(events, a), a, timeout, now)
    ensures LastGrant(events, a).Some? ==> LastGrant(events, a).value.at <= now
  {
    if events != [] {
      var n := |events| - 1;
      var last, before := events[n], After(events[..n], timeout);
      var time := if last.Grant? then last.at else now;
      assert last in events && forall v :: v in events[..n] ==> v in events;
      ReachableTable(events[..n], known, timeout);
      if last.address != a {
        TableReflectsTheRun(events[..n], known, timeout, time, a);
      }
      if last.Clear? {
        if Lookup(before, last.address).Some? {
          RemovedEntry(before, IndexFrom(before, last.address, 0));
        }
      } else {
        var e := EntryOf(last);
        StoredAsMap(before, e, timeout);
        NoEviction(before, known, e, timeout);
        var was := Lookup(before, a);
        if last.address != a && was.Some? {
          ElapsedIsTrue(was.value, LastGrant(events, a).value.at, timeout, last.at);
        }
      }
    }
  }

  /** Since its last grant the entry of an address has expired at a grant to another, or was evicted by one. */
  ghost predicate Displaced(events: seq<Event>, address: word, timeout: tick) {
    if events == [] || events[|events| - 1].address == address then false
    else
      var before, last := events[..|events| - 1], events[|events| - 1];
      || Displaced(before, address, timeout)
      || (&& last.Grant? && LastGrant(before, address).Some?
          && var e := EntryOf(LastGrant(before, address).value);
             Expired(e, timeout, Reading(last.at)) || Evicted(After(before, timeout), EntryOf(last), timeout) == Some(e))
  }

  /** In every run the table holds of an address exactly its last grant, or nothing once that was displaced. */
  lemma {:induction false} TableHoldsLastGrants(events: seq<Event>, timeout: tick, a: word)
    ensures Lookup(After(events, timeout), a)
            == match LastGrant(events, a)
               case None => None
               case Some(g) => if Displaced(events, a, timeout) then None else Some(EntryOf(g))
  {
    if events != [] {
      hide Stored, Cleared, Evicted, Lookup, IndexFrom;
      var n := |events| - 1;
      var last, before := events[n], After(events[..n], timeout);
      TableHoldsLastGrants(events[..n], timeout, a);
      ReachableTable(events[..n], set v | v in events :: v.address, timeout);
      if last.Grant? {
        StoredAsMap(before, EntryOf(last), timeout);
      } else {
        ClearedAsMap(before, last.address);
      }
    }
  }

  lemma ClearedAsMap(entries: seq<Entry>, address: word)
    requires Distinct(entries)
    ensures forall a :: Lookup(Cleared(entries, address), a) == if a == address then None else Lookup(entries, a)
  {
    var k := IndexFrom(entries, address, 0);
    if k < |entries| {
      RemovedEntry(entries, k);
    }
  }

  /**
    * In every run, whatever the number of devices and the order of times: an address has the level of
    * its last grant, or none if there is no such grant, or it was displaced, or has expired.
    */
  lemma LevelOfARun(events: seq<Event>, timeout: tick, now: tick, a: word)
    ensures LevelAt(After(events, timeout), a, timeout, now)
            == match LastGrant(events, a)
               case None => NoAccess
               case Some(g) =>
                 if Displaced(events, a, timeout) || Expired(EntryOf(g), timeout, now) then NoAccess else g.level
  {
    TableHoldsLastGrants(events, timeout, a);
  }

  lemma NoEviction(entries: seq<Entry>, known: set<word>, e: Entry, timeout: tick)
    requires Distinct(entries) && |known| <= MAX_DEVICES && e.address in known
    requires forall o :: o in entries ==> o.address in known
    ensures Evicted(entries, e, timeout) == None
  {
    var kept := Kept(entries, timeout, e.stamp);
    KeptEntries(entries, timeout, e.stamp);
    if Lookup(kept, e.address).None? {
      RoomForKnown(kept, known, e.address);
    }
  }

  /**
    * In every run of grants and clears among at most sixteen addresses, the level of an address is
    * that of its last grant until that is truly `timeout` old, as long as less than one period of
    * the clock has passed since.
    */
  lemma LevelIsTheLastGrant(events: seq<Event>, known: set<word>, timeout: tick, now: nat, a: word)
    requires |known| <= MAX_DEVICES && (forall v :: v in events ==> v.address in known) && Ordered(events, now)
    requires LastGrant(events, a).Some? ==> now < LastGrant(events, a).value.at + CLOCK_WRAP
    ensures LevelAt(After(events, timeout), a, timeout, Reading(now))
            == match LastGrant(events, a)
               case None => NoAccess
               case Some(g) => if timeout != NO_TIMEOUT && now - g.at >= timeout then NoAccess else g.level
  {
    TableReflectsTheRun(events, known, timeout, now, a);
    var grant, found := LastGrant(events, a), Lookup(After(events, timeout), a);
    if grant.Some? && found.Some? {
      ElapsedIsTrue(found.value, grant.value.at, timeout, now);
    }
  }
}
