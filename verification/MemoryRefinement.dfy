/** Region table, validation and router together behave as one flat memory of octets. */
module MemoryRefinement {
  import opened Octets
  import opened MemorySegments

  // ---------------------------------------------------------------------------
  // What every run keeps
  // ---------------------------------------------------------------------------

  ghost predicate Disjoint(regions: seq<Region>) {
    forall i, j :: 0 <= i < j < |regions| ==> !Overlaps(regions[i], regions[j])
  }

  /** Regions do not overlap, and the first eight of them have segments with storage, in order. */
  ghost predicate Inv(m: Memory) {
    && Disjoint(m.regions)
    && (forall i :: 0 <= i < |m.regions| ==> m.regions[i].size > 0)
    && |m.regions| <= MAX_REGIONS
    && |m.segments| == (if |m.regions| < MAX_SEGMENTS then |m.regions| else MAX_SEGMENTS)
    && (forall i :: 0 <= i < |m.segments| ==> m.segments[i].region == m.regions[i])
    && StorageFits(m.segments)
  }

  /** At most one region contains an address. */
  lemma OneRegion(regions: seq<Region>, i: nat, j: nat, address: nat)
    requires Disjoint(regions) && i < |regions| && j < |regions|
    requires Contains(regions[i], address) && Contains(regions[j], address)
    ensures i == j
  {
    if i < j {
      assert Overlaps(regions[i], regions[j]);
    } else if j < i {
      assert Overlaps(regions[j], regions[i]);
    }
  }

  /** The octet the memory holds at an address: that of the segment containing it, if any. */
  ghost function Peek(m: Memory, address: nat): Option<byte>
    requires StorageFits(m.segments)
  {
    var k := RouteFrom(m.segments, address, 1, 0);
    if k == |m.segments| then None else Some(m.segments[k].storage[address - m.segments[k].region.start])
  }

  lemma PeekIn(m: Memory, k: nat, address: nat)
    requires Inv(m) && k < |m.segments| && Contains(m.segments[k].region, address)
    ensures Peek(m, address) == Some(m.segments[k].storage[address - m.segments[k].region.start])
  {
    var found := RouteFrom(m.segments, address, 1, 0);
    assert ContainsRange(m.segments[k].region, address, 1);
    OneRegion(m.regions, found, k, address);
  }

  // ---------------------------------------------------------------------------
  // Reads and writes on the flat memory
  // ---------------------------------------------------------------------------

  lemma RouteReadIsFlat(m: Memory, address: nat, length: nat)
    requires Inv(m) && RouteRead(m, address, length).Ok?
    ensures var data := RouteRead(m, address, length).value;
      |data| == length && forall i :: 0 <= i < length ==> Peek(m, address + i) == Some(data[i])
  {
    var k := RouteFrom(m.segments, address, length, 0);
    forall i | 0 <= i < length
      ensures Peek(m, address + i) == Some(RouteRead(m, address, length).value[i])
    {
      PeekIn(m, k, address + i);
    }
  }

  lemma WriteKeepsInv(m: Memory, address: nat, data: seq<byte>)
    requires Inv(m) && RouteWrite(m, address, data).Ok?
    ensures Inv(RouteWrite(m, address, data).value)
  {
  }

  lemma PatchedOctet(storage: seq<byte>, offset: nat, data: seq<byte>, i: nat)
    requires offset + |data| <= |storage| && i < |storage|
    ensures Patch(storage, offset, data)[i] == if offset <= i < offset + |data| then data[i - offset] else storage[i]
  {
  }

  lemma RouteWriteIsFlat(m: Memory, address: nat, data: seq<byte>, at: nat)
    requires Inv(m) && RouteWrite(m, address, data).Ok?
    ensures Inv(RouteWrite(m, address, data).value)
    ensures Peek(RouteWrite(m, address, data).value, at)
         == if address <= at < address + |data| then Some(data[at - address]) else Peek(m, at)
  {
    WriteKeepsInv(m, address, data);
    hide Patch, Inv;
    var m' := RouteWrite(m, address, data).value;
    var k := RouteFrom(m.segments, address, |data|, 0);
    var start := m.segments[k].region.start;
    SameRoutes(m.segments, m'.segments, at, 0);
    var j := RouteFrom(m.segments, at, 1, 0);
    if j < |m.segments| {
      PeekIn(m', j, at);
    }
    if address <= at < address + |data| {
      PeekIn(m', k, at);
      PatchedOctet(m.segments[k].storage, address - start, data, at - start);
    } else if j == k {
      PatchedOctet(m.segments[k].storage, address - start, data, at - start);
    }
  }

  lemma {:induction false} SameRoutes(a: seq<Segment>, b: seq<Segment>, at: nat, i: nat)
    requires |a| == |b| && i <= |a| && forall j :: 0 <= j < |a| ==> a[j].region == b[j].region
    ensures RouteFrom(a, at, 1, i) == RouteFrom(b, at, 1, i)
    decreases |a| - i
  {
    if i < |a| {
      SameRoutes(a, b, at, i + 1);
    }
  }

  // ---------------------------------------------------------------------------
  // Served exactly once
  // ---------------------------------------------------------------------------

  /**
   * A granted access lies in one region, and is served by the segment at that region's position in
   * the table and by no other, exactly when the region was among the first eight.
   */
  lemma ServedByOneSegment(m: Memory, address: nat, length: nat, access: Access, max: nat)
    requires Inv(m) && Validate(m.regions, address, length, access, max) == Granted
    ensures var k := FindFrom(m.regions, address, 0);
      && k < |m.regions|
      && RouteFrom(m.segments, address, length, 0) == (if k < MAX_SEGMENTS then k else |m.segments|)
      && (k < |m.segments| <==> k < MAX_SEGMENTS)
      && (forall j :: 0 <= j < |m.segments| && ContainsRange(m.segments[j].region, address, length) ==> j == k)
  {
    var k := FindFrom(m.regions, address, 0);
    forall j | 0 <= j < |m.segments| && ContainsRange(m.segments[j].region, address, length)
      ensures j == k
    {
      OneRegion(m.regions, j, k, address);
    }
    if k < MAX_SEGMENTS {
      assert ContainsRange(m.segments[k].region, address, length);
    }
  }

  // ---------------------------------------------------------------------------
  // Runs against a flat history of writes
  // ---------------------------------------------------------------------------

  /** Octets that were put at an address: a segment's initial storage, or the data of a write. */
  datatype Put = Put(address: nat, data: seq<byte>)

  /** The last octet put at an address. */
  function LastPut(history: seq<Put>, at: nat): Option<byte> {
    if history == [] then None
    else
      var p := history[|history| - 1];
      if p.address <= at < p.address + |p.data| then Some(p.data[at - p.address])
      else LastPut(history[..|history| - 1], at)
  }

  /** What a request puts into memory, given that it succeeds. */
  function Puts(r: Request): seq<Put> {
    match r
    case Register(region, storage) =>
      if |storage| < region.size then [] else [Put(region.start, storage[..region.size])]
    case MemoryWrite(_, address, data) => [Put(address, data)]
    case ExtendedWrite(count, address, data) => if |data| < count then [] else [Put(address, data[..count])]
    case _ => []
  }

  datatype Trace = Trace(memory: Memory, history: seq<Put>)

  ghost function Run(requests: seq<Request>): (t: Trace)
    ensures StorageFits(t.memory.segments)
  {
    if requests == [] then Trace(Memory([], []), [])
    else
      var t := Run(requests[..|requests| - 1]);
      var r := requests[|requests| - 1];
      var s := Serve(t.memory, r);
      Trace(s.memory, if Succeeded(s.reply) then t.history + Puts(r) else t.history)
  }

  lemma DisjointGrows(regions: seq<Region>, region: Region)
    requires Disjoint(regions) && AddRegion(regions, region).Ok?
    ensures AddRegion(regions, region).value == regions + [region] && Disjoint(regions + [region])
    ensures region.size > 0 && |regions| < MAX_REGIONS
  {
  }

  lemma RegisterKeepsInv(m: Memory, region: Region, storage: seq<byte>)
    requires Inv(m)
    ensures Inv(Serve(m, Register(region, storage)).memory)
  {
    hide AddRegion, Disjoint;
    if AddRegion(m.regions, region).Ok? {
      DisjointGrows(m.regions, region);
    }
  }

  lemma RegisterKeeps(m: Memory, region: Region, storage: seq<byte>, at: nat)
    requires Inv(m)
    ensures var s := Serve(m, Register(region, storage));
      && Inv(s.memory)
      && (s.reply.Done? ==> |storage| >= region.size)
      && Peek(s.memory, at)
         == if s.reply.Done? && Contains(region, at) then Some(storage[at - region.start]) else Peek(m, at)
  {
    RegisterKeepsInv(m, region, storage);
    InvFits(m);
    hide Inv, AddRegion, StorageFits;
    var s := Serve(m, Register(region, storage));
    if s.reply.Done? {
      RoutesWithOneMore(m.segments, Segment(region, storage, false), at, 0);
      if Contains(region, at) {
        InvFits(s.memory);
        PeekIn(s.memory, |m.segments|, at);
      }
    }
  }

  lemma InvFits(m: Memory)
    requires Inv(m)
    ensures StorageFits(m.segments)
  {
  }

  lemma {:induction false} RoutesWithOneMore(a: seq<Segment>, s: Segment, at: nat, i: nat)
    requires i <= |a|
    ensures RouteFrom(a, at, 1, i) < |a| ==> RouteFrom(a + [s], at, 1, i) == RouteFrom(a, at, 1, i)
    ensures RouteFrom(a, at, 1, i) == |a| ==>
      RouteFrom(a + [s], at, 1, i) == if Contains(s.region, at) then |a| else |a| + 1
    decreases |a| - i
  {
    if i < |a| {
      RoutesWithOneMore(a, s, at, i + 1);
    }
  }

  lemma WrittenReadsBack(m: Memory, address: nat, data: seq<byte>)
    requires Inv(m) && RouteWrite(m, address, data).Ok?
    ensures RouteRead(RouteWrite(m, address, data).value, address, |data|) == Ok(data)
  {
    var m' := RouteWrite(m, address, data).value;
    var k := RouteFrom(m.segments, address, |data|, 0);
    SameRangeRoutes(m.segments, m'.segments, address, |data|, 0);
    var offset := address - m.segments[k].region.start;
    assert m'.segments[k].storage[offset..offset + |data|] == data;
  }

  lemma {:induction false} SameRangeRoutes(a: seq<Segment>, b: seq<Segment>, at: nat, length: nat, i: nat)
    requires |a| == |b| && i <= |a| && forall j :: 0 <= j < |a| ==> a[j].region == b[j].region
    ensures RouteFrom(a, at, length, i) == RouteFrom(b, at, length, i)
    decreases |a| - i
  {
    if i < |a| {
      SameRangeRoutes(a, b, at, length, i + 1);
    }
  }

  /** One request, seen as an operation on the flat memory; a failing one changes no octet. */
  lemma ServeIsFlat(m: Memory, r: Request, at: nat)
    requires Inv(m)
    ensures var s := Serve(m, r);
      && Inv(s.memory)
      && Peek(s.memory, at)
         == match (if Succeeded(s.reply) then LastPut(Puts(r), at) else None)
            case Some(b) => Some(b)
            case None => Peek(m, at)
  {
    hide Inv, Peek, Validate, CheckExtended, RouteRead, RouteWrite, AddRegion;
    InvFits(m);
    match r
    case Register(region, storage) =>
      RegisterKeeps(m, region, storage, at);
    case MemoryRead(_, _) =>
    case ExtendedRead(_, _) =>
    case MemoryWrite(count, address, data) =>
      if RouteWrite(m, address, data).Ok? {
        RouteWriteIsFlat(m, address, data, at);
        WrittenReadsBack(m, address, data);
      }
    case ExtendedWrite(count, address, data) =>
      if count <= |data| && RouteWrite(m, address, data[..count]).Ok? {
        RouteWriteIsFlat(m, address, data[..count], at);
      }
  }

  lemma {:induction false} LastPutSplits(a: seq<Put>, b: seq<Put>, at: nat)
    ensures LastPut(a + b, at) == if LastPut(b, at).Some? then LastPut(b, at) else LastPut(a, at)
  {
    if b == [] {
      assert a + b == a;
    } else {
      LastPutSplits(a, b[..|b| - 1], at);
      assert (a + b)[..|a + b| - 1] == a + b[..|b| - 1];
    }
  }

  /** After any run, every address holds the last octet successfully put there. */
  lemma {:induction false} MemoryIsItsHistory(requests: seq<Request>, at: nat)
    ensures Inv(Run(requests).memory)
    ensures Peek(Run(requests).memory, at) == LastPut(Run(requests).history, at)
  {
    if requests != [] {
      hide Inv, Peek, Serve, Puts, LastPut;
      var before, r := requests[..|requests| - 1], requests[|requests| - 1];
      MemoryIsItsHistory(before, at);
      var t := Run(before);
      ServeIsFlat(t.memory, r, at);
      LastPutSplits(t.history, Puts(r), at);
    }
  }

  /** After any run, a read that succeeds returns at each address the last octet put there. */
  lemma ReadsReturnLastPuts(requests: seq<Request>, read: Request)
    requires read.MemoryRead? || read.ExtendedRead?
    requires Succeeded(Serve(Run(requests).memory, read).reply)
    ensures var t := Run(requests); var data := Serve(t.memory, read).reply.data;
      |data| == read.count && forall i :: 0 <= i < |data| ==> LastPut(t.history, read.address + i) == Some(data[i])
  {
    hide Run, LastPut, RouteRead, Peek, Inv, Validate, CheckExtended;
    var t := Run(requests);
    var data := Serve(t.memory, read).reply.data;
    MemoryIsItsHistory(requests, 0);
    RouteReadIsFlat(t.memory, read.address, read.count);
    forall i | 0 <= i < |data|
      ensures LastPut(t.history, read.address + i) == Some(data[i])
    {
      MemoryIsItsHistory(requests, read.address + i);
    }
  }

  /** A classic write that succeeds answers with exactly the octets written. */
  lemma WriteEchoesData(requests: seq<Request>, count: nat, address: nat, data: seq<byte>)
    requires Succeeded(Serve(Run(requests).memory, MemoryWrite(count, address, data)).reply)
    ensures Serve(Run(requests).memory, MemoryWrite(count, address, data)).reply == Classic(data)
  {
    hide Run, RouteRead, RouteWrite, Inv, Validate;
    var m := Run(requests).memory;
    MemoryIsItsHistory(requests, 0);
    WrittenReadsBack(m, address, data);
  }

  /** Adjacent one-octet regions. */
  function AdjacentRegions(n: nat): seq<Request> {
    if n == 0 then [] else AdjacentRegions(n - 1) + [Register(Region(n - 1, 1, ReadWrite), [0])]
  }

  lemma {:induction false} RegionsRegistered(n: nat)
    requires n <= 9
    ensures var m := Run(AdjacentRegions(n)).memory;
      && |m.regions| == n
      && forall i :: 0 <= i < n ==> m.regions[i] == Region(i, 1, ReadWrite)
  {
    if n > 0 {
      hide Run, Serve;
      RegionsRegistered(n - 1);
      RunLast(AdjacentRegions(n - 1), Register(Region(n - 1, 1, ReadWrite), [0]));
      NextRegion(Run(AdjacentRegions(n - 1)).memory, n - 1);
    } else {
      assert Run([]).memory.regions == [];
    }
  }

  lemma RunLast(requests: seq<Request>, r: Request)
    ensures Run(requests + [r]).memory == Serve(Run(requests).memory, r).memory
  {
    assert (requests + [r])[..|requests|] == requests;
  }

  lemma NextRegion(m: Memory, n: nat)
    requires StorageFits(m.segments) && n < MAX_REGIONS && |m.regions| == n
    requires forall i :: 0 <= i < n ==> m.regions[i] == Region(i, 1, ReadWrite)
    ensures Serve(m, Register(Region(n, 1, ReadWrite), [0])).memory.regions == m.regions + [Region(n, 1, ReadWrite)]
  {
  }

  /**
   * The limit of eight is real: the registration of a ninth region fails but leaves the region in
   * the table, so that a read there is granted and then fails in the router.
   */
  lemma NinthRegionIsNotServed()
    ensures var m := Run(AdjacentRegions(9)).memory;
      && Validate(m.regions, 8, 1, Read, MAX_CLASSIC) == Granted
      && Serve(m, MemoryRead(1, 8)).reply == Failed(InvalidAddress)
  {
    RegionsRegistered(9);
    MemoryIsItsHistory(AdjacentRegions(9), 0);
    var m := Run(AdjacentRegions(9)).memory;
    assert Contains(m.regions[8], 8);
    ServedByOneSegment(m, 8, 1, Read, MAX_CLASSIC);
  }
}
