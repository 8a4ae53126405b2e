/** KNXnet/IP frames over a byte stream that accepts and delivers octets in arbitrary pieces. */
module TcpChannel {
  import opened Octets

  const HEADER_LEN := 6

  // ---------------------------------------------------------------------------
  // Cutting a stream into frames
  // ---------------------------------------------------------------------------

  /** The total length that a header announces in its last two octets. */
  function TotalLength(header: seq<byte>): nat
    requires |header| >= HEADER_LEN
  {
    MakeWord(header[4], header[5]) as int
  }

  /** The big-endian number in the fifth and sixth octet. */
  function Announced(f: seq<byte>): nat
    requires |f| >= 6
  {
    256 * (f[4] as nat) + f[5] as nat
  }

  lemma AnnouncedLength(f: seq<byte>)
    requires |f| >= HEADER_LEN
    ensures TotalLength(f) == Announced(f)
  {
    hide MakeWord;
    JoinedNumber(f[4], f[5]);
  }

  /** A frame announces its own length. */
  predicate WellFormed(f: seq<byte>) { |f| >= HEADER_LEN && Announced(f) == |f| }

  predicate Fits(f: seq<byte>, capacity: nat) {
    WellFormed(f) && |f| <= capacity
  }

  datatype Taken = Taken(result: Result<seq<byte>>, rest: seq<byte>)

  /** What one receive call makes of the octets that will arrive before the stream ends. */
  function Deframe(stream: seq<byte>, capacity: nat): Taken {
    if capacity < HEADER_LEN then Taken(Err(BufferTooSmall), stream)
    else if |stream| < HEADER_LEN then Taken(Err(TransmissionFailed), [])
    else
      var total := TotalLength(stream);
      if total < HEADER_LEN then Taken(Err(InvalidFrameSize), stream[HEADER_LEN..])
      else if total > capacity then Taken(Err(BufferTooSmall), stream[HEADER_LEN..])
      else if |stream| < total then Taken(Err(TransmissionFailed), [])
      else Taken(Ok(stream[..total]), stream[total..])
  }

  // ---------------------------------------------------------------------------
  // The channel
  // ---------------------------------------------------------------------------

  /**
    * A connected pair of sockets seen as one stream. `chunk(i)` is the most that call number `i`
    * moves; a value of zero or less is the failure of that call.
    */
  class Socket {
    const chunk: nat -> int
    var calls: nat
    var open: bool
    var stream: seq<byte>

    constructor (chunk: nat -> int)
      ensures this.chunk == chunk && open && stream == [] && calls == 0
    {
      this.chunk, calls, open, stream := chunk, 0, true, [];
    }

    /** No call fails from here on. */
    ghost predicate Healthy()
      reads this`calls
    {
      forall i :: calls <= i ==> chunk(i) > 0
    }

    method Send(data: seq<byte>) returns (sent: int)
      requires data != []
      modifies this`calls, this`stream
      ensures calls == old(calls) + 1 && (old(Healthy()) ==> sent > 0)
      ensures sent <= |data| && stream == old(stream) + data[..if sent > 0 then sent else 0]
    {
      var c := chunk(calls);
      calls := calls + 1;
      sent := if c < |data| then c else |data|;
      stream := stream + data[..if sent > 0 then sent else 0];
    }

    /** Fills a piece of a buffer from position `start`, at most up to `end`. */
    method Receive(buffer: array<byte>, start: nat, end: nat) returns (received: int)
      requires start < end <= buffer.Length
      modifies this`calls, this`stream, buffer
      ensures calls == old(calls) + 1 && (old(Healthy()) && old(stream) != [] ==> received > 0)
      ensures received <= end - start && received <= |old(stream)|
      ensures var n := if received > 0 then received else 0;
        && stream == old(stream)[n..]
        && buffer[..start + n] == old(buffer[..start]) + old(stream)[..n]
        && forall k :: start + n <= k < buffer.Length ==> buffer[k] == old(buffer[k])
    {
      var c := chunk(calls);
      calls := calls + 1;
      received := if c < end - start then c else end - start;
      received := if received < |stream| then received else |stream|;
      var n := if received > 0 then received else 0;
      var _ := CopyInto(buffer, start, stream[..n]);
      stream := stream[n..];
    }
  }

  method WriteAll(socket: Socket, data: seq<byte>) returns (r: Result<()>)
    modifies socket`calls, socket`stream
    ensures !socket.open ==> r == Err(NotInitialized) && socket.stream == old(socket.stream)
    ensures socket.open ==> r == Ok(()) || r == Err(TransmissionFailed)
    ensures r.Ok? ==> socket.stream == old(socket.stream) + data
    ensures socket.open && r.Err? ==> exists k :: 0 <= k < |data| && socket.stream == old(socket.stream) + data[..k]
    ensures old(socket.Healthy()) ==> socket.Healthy() && (socket.open ==> r.Ok?)
  {
    if !socket.open {
      return Err(NotInitialized);
    }
    var sentTotal := 0;
    while sentTotal < |data|
      invariant 0 <= sentTotal <= |data| && socket.stream == old(socket.stream) + data[..sentTotal]
      invariant old(socket.Healthy()) ==> socket.Healthy()
    {
      var sent := socket.Send(data[sentTotal..]);
      if sent <= 0 {
        return Err(TransmissionFailed);
      }
      assert data[..sentTotal] + data[sentTotal..][..sent] == data[..sentTotal + sent];
      sentTotal := sentTotal + sent;
    }
    return Ok(());
  }

  /** Fills `out[start..end]`; on failure a shorter piece of the stream is gone. */
  method ReadExact(socket: Socket, out: array<byte>, start: nat, end: nat) returns (r: Result<()>)
    requires start <= end <= out.Length
    modifies socket`calls, socket`stream, out
    ensures !socket.open ==> r == Err(NotInitialized)
    ensures socket.open && start == end ==> r == Err(InvalidParameter)
    ensures socket.open && start < end ==> r == Ok(()) || r == Err(TransmissionFailed)
    ensures !socket.open || start == end ==> socket.stream == old(socket.stream) && out[..] == old(out[..])
    ensures r.Ok? ==>
      && |old(socket.stream)| >= end - start
      && out[..end] == old(out[..start]) + old(socket.stream)[..end - start]
      && socket.stream == old(socket.stream)[end - start..]
    ensures socket.open && start < end && r.Err? ==>
      exists k :: 0 <= k < end - start && k <= |old(socket.stream)| && socket.stream == old(socket.stream)[k..]
    ensures old(socket.Healthy()) && socket.open && start < end ==>
      && r.Ok? == (|old(socket.stream)| >= end - start)
      && (r.Err? ==> socket.stream == [])
    ensures old(socket.Healthy()) ==> socket.Healthy()
  {
    if !socket.open {
      return Err(NotInitialized);
    }
    if start == end {
      return Err(InvalidParameter);
    }
    var receivedTotal := 0;
    ghost var was := socket.stream;
    while start + receivedTotal < end
      invariant 0 <= receivedTotal <= end - start && receivedTotal <= |was|
      invariant socket.stream == was[receivedTotal..]
      invariant out[..start + receivedTotal] == old(out[..start]) + was[..receivedTotal]
      invariant old(socket.Healthy()) ==> socket.Healthy()
    {
      var received := socket.Receive(out, start + receivedTotal, end);
      if received <= 0 {
        return Err(TransmissionFailed);
      }
      assert was[..receivedTotal] + was[receivedTotal..][..received] == was[..receivedTotal + received];
      receivedTotal := receivedTotal + received;
    }
    return Ok(());
  }

  method SendFrame(socket: Socket, frame: seq<byte>) returns (r: Result<()>)
    modifies socket`calls, socket`stream
    ensures r.Ok? ==> socket.stream == old(socket.stream) + frame
    ensures r.Err? ==> r.error == if socket.open then TransmissionFailed else NotInitialized
    ensures r.Err? && !socket.open ==> socket.stream == old(socket.stream)
    ensures r.Err? && socket.open ==> exists k :: 0 <= k < |frame| && socket.stream == old(socket.stream) + frame[..k]
    ensures old(socket.Healthy()) ==> socket.Healthy() && (socket.open ==> r.Ok?)
  {
    if !socket.open {
      return Err(NotInitialized);
    }
    r := WriteAll(socket, frame);
  }

  /** A received frame is the next one of the stream, however the stream is cut into pieces. */
  method ReceiveFrame(socket: Socket, out: array<byte>) returns (r: Result<nat>)
    modifies socket`calls, socket`stream, out
    ensures !socket.open ==> r == Err(NotInitialized) && socket.stream == old(socket.stream)
    ensures r.Ok? ==>
      r.value <= out.Length && Deframe(old(socket.stream), out.Length) == Taken(Ok(out[..r.value]), socket.stream)
    ensures old(socket.Healthy()) && socket.open ==>
      var taken := Deframe(old(socket.stream), out.Length);
      && r.Ok? == taken.result.Ok? && (r.Err? ==> r.error == taken.result.error)
      && socket.stream == taken.rest
    ensures old(socket.Healthy()) ==> socket.Healthy()
  {
    if !socket.open {
      return Err(NotInitialized);
    }
    if out.Length < HEADER_LEN {
      return Err(BufferTooSmall);
    }
    var header := new byte[HEADER_LEN];
    var headerResult := ReadExact(socket, header, 0, HEADER_LEN);
    if headerResult.Err? {
      return Err(headerResult.error);
    }
    r := ReadBody(socket, header[..], out, old(socket.stream));
  }

  /** The rest of a frame whose header has been taken off the stream `was`. */
  method ReadBody(socket: Socket, header: seq<byte>, out: array<byte>, ghost was: seq<byte>) returns (r: Result<nat>)
    requires socket.open && |header| == HEADER_LEN <= out.Length && was == header + socket.stream
    modifies socket`calls, socket`stream, out
    ensures r.Ok? ==>
      r.value <= out.Length && Deframe(was, out.Length) == Taken(Ok(out[..r.value]), socket.stream)
    ensures old(socket.Healthy()) ==>
      var taken := Deframe(was, out.Length);
      && r.Ok? == taken.result.Ok? && (r.Err? ==> r.error == taken.result.error)
      && socket.stream == taken.rest && socket.Healthy()
  {
    hide TotalLength, Deframe;
    ghost var tail := socket.stream;
    AfterHeader(header, tail, out.Length);
    var total := TotalLength(header);
    if total < HEADER_LEN {
      return Err(InvalidFrameSize);
    }
    if total > out.Length {
      return Err(BufferTooSmall);
    }
    var _ := CopyInto(out, 0, header);
    assert out[..HEADER_LEN] == header;
    if total > HEADER_LEN {
      var bodyResult := ReadExact(socket, out, HEADER_LEN, total);
      if bodyResult.Err? {
        return Err(bodyResult.error);
      }
    }
    assert out[..total] == header + tail[..total - HEADER_LEN];
    return Ok(total);
  }

  lemma SameLength(header: seq<byte>, tail: seq<byte>)
    requires |header| >= HEADER_LEN
    ensures TotalLength(header + tail) == TotalLength(header)
  {
  }

  lemma AfterHeader(header: seq<byte>, tail: seq<byte>, capacity: nat)
    requires |header| == HEADER_LEN <= capacity
    ensures var body := TotalLength(header) - HEADER_LEN;
      Deframe(header + tail, capacity)
      == if body < 0 then Taken(Err(InvalidFrameSize), tail)
         else if body > capacity - HEADER_LEN then Taken(Err(BufferTooSmall), tail)
         else if |tail| < body then Taken(Err(TransmissionFailed), [])
         else Taken(Ok(header + tail[..body]), tail[body..])
  {
    hide TotalLength;
    var stream, body := header + tail, TotalLength(header) - HEADER_LEN;
    SameLength(header, tail);
    assert stream[HEADER_LEN..] == tail;
    if 0 <= body <= |tail| {
      assert stream[..HEADER_LEN + body] == header + tail[..body];
      assert stream[HEADER_LEN + body..] == tail[body..];
    }
  }

  // ---------------------------------------------------------------------------
  // What goes in comes out
  // ---------------------------------------------------------------------------

  function Joined(frames: seq<seq<byte>>): seq<byte> {
    if frames == [] then [] else frames[0] + Joined(frames[1..])
  }

  lemma {:induction false} JoinedAppend(frames: seq<seq<byte>>, f: seq<byte>)
    ensures Joined(frames + [f]) == Joined(frames) + f
  {
    if frames == [] {
      assert [f][1..] == [];
    } else {
      assert (frames + [f])[1..] == frames[1..] + [f];
      JoinedAppend(frames[1..], f);
    }
  }

  lemma SameAnnounced(f: seq<byte>, rest: seq<byte>)
    requires |f| >= HEADER_LEN
    ensures Announced(f + rest) == Announced(f)
  {
  }

  lemma SplitIff(stream: seq<byte>, capacity: nat, f: seq<byte>, rest: seq<byte>)
    ensures Deframe(stream, capacity) == Taken(Ok(f), rest) <==> stream == f + rest && Fits(f, capacity)
  {
    hide TotalLength, Announced;
    if |stream| >= HEADER_LEN {
      AnnouncedLength(stream);
    }
    if stream == f + rest && Fits(f, capacity) {
      SameAnnounced(f, rest);
      assert stream[..|f|] == f && stream[|f|..] == rest;
    }
    if Deframe(stream, capacity) == Taken(Ok(f), rest) {
      assert stream == f + rest;
      SameAnnounced(f, rest);
    }
  }

  /** A successful receive splits the stream, and only in one way. */
  lemma DeframeIff(stream: seq<byte>, capacity: nat, f: seq<byte>, rest: seq<byte>)
    ensures Deframe(stream, capacity) == Taken(Ok(f), rest) <==>
      stream == f + rest && 6 <= |f| <= capacity && 256 * (f[4] as nat) + f[5] as nat == |f|
  {
    hide Deframe;
    SplitIff(stream, capacity, f, rest);
  }

  /** Which error a receive gives, and what it has taken off the stream by then. */
  lemma DeframeErrors(stream: seq<byte>, capacity: nat)
    ensures capacity < 6 ==> Deframe(stream, capacity) == Taken(Err(BufferTooSmall), stream)
    ensures capacity >= 6 && |stream| < 6 ==> Deframe(stream, capacity) == Taken(Err(TransmissionFailed), [])
    ensures capacity >= 6 && |stream| >= 6 ==>
      var announced := 256 * (stream[4] as nat) + stream[5] as nat;
      && (announced < 6 ==> Deframe(stream, capacity) == Taken(Err(InvalidFrameSize), stream[6..]))
      && (announced > capacity ==> Deframe(stream, capacity) == Taken(Err(BufferTooSmall), stream[6..]))
      && (|stream| < announced <= capacity ==> Deframe(stream, capacity) == Taken(Err(TransmissionFailed), []))
  {
    hide TotalLength;
    if |stream| >= HEADER_LEN {
      AnnouncedLength(stream);
    }
  }

  /** Octets that arrive later never change an answer other than the end of the stream. */
  lemma LaterOctetsDoNotMatter(stream: seq<byte>, later: seq<byte>, capacity: nat)
    requires Deframe(stream, capacity).result != Err(TransmissionFailed)
    ensures var taken := Deframe(stream, capacity);
      Deframe(stream + later, capacity) == Taken(taken.result, taken.rest + later)
  {
    hide MakeWord;
    var taken := Deframe(stream, capacity);
    if taken.result.Ok? {
      SplitIff(stream, capacity, taken.result.value, taken.rest);
      assert stream + later == taken.result.value + (taken.rest + later);
      SplitIff(stream + later, capacity, taken.result.value, taken.rest + later);
    } else if capacity >= HEADER_LEN {
      assert (stream + later)[HEADER_LEN..] == stream[HEADER_LEN..] + later;
    }
  }

  /** `n` receive calls on a stream: the frames, as long as every call succeeds, and what is left. */
  function Frames(stream: seq<byte>, capacity: nat, n: nat): Option<(seq<seq<byte>>, seq<byte>)> {
    if n == 0 then Some(([], stream))
    else match Deframe(stream, capacity)
      case Taken(Err(_), _) => None
      case Taken(Ok(f), rest) =>
        match Frames(rest, capacity, n - 1)
        case None => None
        case Some((fs, left)) => Some(([f] + fs, left))
  }

  /**
    * Receiving inverts writing, in both directions: the frames come out of a stream exactly when it
    * is their concatenation followed by what is left.
    */
  lemma {:induction false} FramesIff(stream: seq<byte>, capacity: nat, frames: seq<seq<byte>>, left: seq<byte>)
    ensures Frames(stream, capacity, |frames|) == Some((frames, left))
            <==> stream == Joined(frames) + left && forall f :: f in frames ==> Fits(f, capacity)
    decreases |frames|
  {
    hide Fits, Deframe;
    if frames == [] {
      assert Joined(frames) + left == left;
    } else {
      var f, rest := frames[0], Joined(frames[1..]) + left;
      assert frames == [f] + frames[1..];
      assert Joined(frames) + left == f + rest;
      var taken := Deframe(stream, capacity);
      if taken.result.Ok? {
        SplitIff(stream, capacity, taken.result.value, taken.rest);
        FramesIff(taken.rest, capacity, frames[1..], left);
      }
      SplitIff(stream, capacity, f, rest);
    }
  }

  /** A frame too long for the buffer loses its header only: its body is read as the next header. */
  lemma OversizedBodyIsReadAsFrames(f: seq<byte>, capacity: nat, inner: seq<byte>, rest: seq<byte>)
    requires WellFormed(f) && |f| > capacity >= HEADER_LEN && f[HEADER_LEN..] == inner
    ensures Deframe(f + rest, capacity) == Taken(Err(BufferTooSmall), inner + rest)
    ensures Fits(inner, capacity) ==> Deframe(inner + rest, capacity) == Taken(Ok(inner), rest)
  {
    hide TotalLength;
    AnnouncedLength(f + rest);
    assert (f + rest)[HEADER_LEN..] == inner + rest;
    if Fits(inner, capacity) {
      SplitIff(inner + rest, capacity, inner, rest);
    }
  }

  /** Frames are sent and received in any order, a receive only while a frame is on its way. */
  method Exchange(socket: Socket, frames: seq<seq<byte>>, receives: nat -> bool, buffer: array<byte>)
    returns (received: seq<seq<byte>>)
    requires socket.open && socket.stream == [] && socket.Healthy()
    requires forall f :: f in frames ==> 6 <= |f| <= buffer.Length && 256 * (f[4] as nat) + f[5] as nat == |f|
    modifies socket, buffer
    ensures received == frames && socket.stream == []
  {
    received := ExchangeFitting(socket, frames, receives, buffer);
  }

  lemma Sent(frames: seq<seq<byte>>, from: nat, to: nat)
    requires from <= to < |frames|
    ensures frames[from..to + 1] == frames[from..to] + [frames[to]]
  {
  }

  lemma Received(frames: seq<seq<byte>>, from: nat, to: nat)
    requires from < to <= |frames|
    ensures frames[from..to][1..] == frames[from + 1..to] && frames[from..to][0] == frames[from]
    ensures frames[..from] + [frames[from]] == frames[..from + 1] && frames[from] in frames
  {
  }

  method ExchangeFitting(socket: Socket, frames: seq<seq<byte>>, receives: nat -> bool, buffer: array<byte>)
    returns (received: seq<seq<byte>>)
    requires socket.open && socket.stream == [] && socket.Healthy()
    requires forall f :: f in frames ==> Fits(f, buffer.Length)
    modifies socket, buffer
    ensures received == frames && socket.stream == []
  {
    hide Fits, Deframe;
    received := [];
    var sent, step := 0, 0;
    while |received| < |frames|
      invariant |received| <= sent <= |frames| && received == frames[..|received|]
      invariant socket.open && socket.Healthy() && socket.stream == Joined(frames[|received|..sent])
      decreases |frames| - |received|, |frames| - sent
    {
      ghost var pending := frames[|received|..sent];
      if sent == |frames| || (receives(step) && |received| < sent) {
        var r := ReceiveFrame(socket, buffer);
        Received(frames, |received|, sent);
        SplitIff(Joined(pending), buffer.Length, pending[0], Joined(pending[1..]));
        received := received + [buffer[..r.value]];
      } else {
        JoinedAppend(pending, frames[sent]);
        Sent(frames, |received|, sent);
        var _ := SendFrame(socket, frames[sent]);
        sent := sent + 1;
      }
      step := step + 1;
    }
  }
}
