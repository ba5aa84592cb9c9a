/** The client's receive state machine: packets put together from however many bytes arrive at a time. */
module XptClient {
  import opened NumberTheory
  import opened Bytes
  import opened PacketBuffer

  /** Payloads from this size on are refused. */
  const SIZE_LIMIT: nat := 1024 * 1024 * 2 - 4

  // ---- what a stream of bytes means ----

  /** The packets of a stream, the unfinished rest, and whether a header in it announces too large a payload. */
  datatype Parsed = Parsed(packets: seq<Packet>, rest: seq<byte>, refused: bool)

  function HeaderOf(s: seq<byte>): nat
    requires |s| >= 4
  {
    FromLittleEndian(s[..4])
  }

  function PayloadSize(s: seq<byte>): nat
    requires |s| >= 4
  {
    HeaderSize(HeaderOf(s))
  }

  predicate Whole(s: seq<byte>) {
    |s| >= 4 && PayloadSize(s) < SIZE_LIMIT && |s| >= 4 + PayloadSize(s)
  }

  function FirstPacket(s: seq<byte>): Packet
    requires Whole(s)
  {
    Packet(HeaderOpcode(HeaderOf(s)), s[4..4 + PayloadSize(s)])
  }

  function Parse(s: seq<byte>): Parsed
    decreases |s|
  {
    if |s| < 4 then Parsed([], s, false)
    else if PayloadSize(s) >= SIZE_LIMIT then Parsed([], s, true)
    else if !Whole(s) then Parsed([], s, false)
    else After([FirstPacket(s)], Parse(s[4 + PayloadSize(s)..]))
  }

  /** Packets in front of a parsed stream */
  function After(packets: seq<Packet>, p: Parsed): Parsed {
    p.(packets := packets + p.packets)
  }

  /**
   The first header of a stream: too large a payload is refused, a partial one is
   left over, a whole one is a packet and parsing goes on behind it.
   */
  lemma FirstHeader(s: seq<byte>)
    requires |s| >= 4
    ensures (var size := s[1] as nat + 0x100 * (s[2] as nat) + 0x1_0000 * (s[3] as nat);
             Parse(s) == if size >= 1024 * 1024 * 2 - 4 then Parsed([], s, true)
             else if |s| < 4 + size then Parsed([], s, false)
             else After([Packet(s[0], s[4..4 + size])], Parse(s[4 + size..])))
  {
    hide HeaderSize, HeaderOpcode, FromLittleEndian;
    HeaderBytes(s[..4]);
  }

  lemma AfterAppends(p: seq<Packet>, q: seq<Packet>, r: Parsed)
    ensures After(p, After(q, r)) == After(p + q, r)
  {
    assert p + (q + r.packets) == p + q + r.packets;
  }

  /** Bytes to come are parsed together with the unfinished rest. */
  lemma {:induction false} ParseMore(a: seq<byte>, b: seq<byte>)
    requires !Parse(a).refused
    ensures Parse(a + b) == After(Parse(a).packets, Parse(Parse(a).rest + b))
    decreases |a|
  {
    hide HeaderSize, HeaderOpcode, FromLittleEndian;
    if Whole(a) {
      var n := 4 + PayloadSize(a);
      assert (a + b)[..4] == a[..4] && (a + b)[4..n] == a[4..n] && (a + b)[n..] == a[n..] + b;
      ParseMore(a[n..], b);
      AfterAppends([FirstPacket(a)], Parse(a[n..]).packets, Parse(Parse(a).rest + b));
    }
  }

  /** The unfinished rest is less than a packet. */
  lemma {:induction false} RestUnfinished(a: seq<byte>)
    requires !Parse(a).refused
    ensures var r := Parse(a).rest; |r| < 4 || (PayloadSize(r) < SIZE_LIMIT && |r| < 4 + PayloadSize(r))
    decreases |a|
  {
    hide HeaderSize, HeaderOpcode, FromLittleEndian;
    if Whole(a) {
      RestUnfinished(a[4 + PayloadSize(a)..]);
    }
  }

  /** A finalised packet is recovered exactly, and parsing goes on right behind it. */
  lemma FrameParses(p: Packet, rest: seq<byte>)
    requires |p.payload| < SIZE_LIMIT
    ensures Parse(Frame(p) + rest) == After([p], Parse(rest))
  {
    hide Header, HeaderSize, HeaderOpcode, LittleEndian, FromLittleEndian, Pow256;
    var s, n := Frame(p) + rest, |p.payload|;
    HeaderParts(p.opcode, n);
    ModOf(n, 0x100_0000, 0, n);
    Pow256Values();
    LittleEndianInverse(Header(p.opcode, n), 4);
    assert s[..4] == LittleEndian(Header(p.opcode, n), 4);
    assert s[4..4 + n] == p.payload && s[4 + n..] == rest;
  }

  function Frames(packets: seq<Packet>): seq<byte> {
    if packets == [] then [] else Frame(packets[0]) + Frames(packets[1..])
  }

  /** Whatever packets are sent, the stream of their frames parses to exactly those packets. */
  lemma {:induction false} FramesParse(packets: seq<Packet>)
    requires forall i :: 0 <= i < |packets| ==> |packets[i].payload| < SIZE_LIMIT
    ensures Parse(Frames(packets)) == Parsed(packets, [], false)
  {
    hide Frame;
    if packets != [] {
      FramesParse(packets[1..]);
      FrameParses(packets[0], Frames(packets[1..]));
      assert [packets[0]] + packets[1..] == packets;
    } else {
      assert Frames(packets) == [];
    }
  }

  /** Exactly one packet */
  lemma ParseWhole(s: seq<byte>)
    requires Whole(s) && |s| == 4 + PayloadSize(s)
    ensures Parse(s) == Parsed([FirstPacket(s)], [], false)
  {
    hide HeaderSize, HeaderOpcode, FromLittleEndian;
    assert s[|s|..] == [];
  }

  lemma ParsePart(s: seq<byte>)
    requires |s| < 4 || (PayloadSize(s) < SIZE_LIMIT && |s| < 4 + PayloadSize(s))
    ensures Parse(s) == Parsed([], s, false)
  {
    hide HeaderSize, HeaderOpcode, FromLittleEndian;
  }

  lemma ParseRefused(s: seq<byte>)
    requires |s| >= 4 && PayloadSize(s) >= SIZE_LIMIT
    ensures Parse(s) == Parsed([], s, true)
  {
  }

  // ---- the state machine ----

  /** What one call of recv came to. */
  datatype Received = Bytes(data: seq<byte>) | WouldBlock | Closed

  class XptClient {
    const recvBuffer: PacketBuffer
    var recvSize: nat
    var recvIndex: nat
    var opcode: byte
    var disconnected: bool
    const handler: Packet -> bool     // whether a packet's handler keeps the connection
    ghost var received: seq<byte>     // all bytes so far
    ghost var delivered: seq<Packet>  // what the handlers were given

    ghost predicate Valid()
      reads this, recvBuffer
    {
      && recvBuffer.Valid() && recvIndex <= recvBuffer.bufferLimit && recvSize + 4 <= recvBuffer.bufferLimit
      && recvSize < SIZE_LIMIT
      && Parse(received) == Parsed(delivered, recvBuffer.buffer[..recvIndex], false)
      && (if recvIndex < 4 then recvSize == 0 && opcode == 0
          else recvSize == PayloadSize(recvBuffer.buffer[..recvIndex])
               && opcode == HeaderOpcode(HeaderOf(recvBuffer.buffer[..recvIndex])))
      && forall p :: p in delivered ==> handler(p)
    }

    constructor (handler: Packet -> bool)
      ensures Valid() && received == [] && delivered == [] && !disconnected && this.handler == handler && fresh(recvBuffer)
    {
      this.recvBuffer := new PacketBuffer(64 * 1024);
      this.recvSize, this.recvIndex, this.opcode := 0, 0, 0;
      this.disconnected := false;
      this.handler := handler;
      this.received, this.delivered := [], [];
    }

    /** How many bytes the next recv may bring: the rest of the header, or of the packet. */
    function BytesToReceive(): (n: nat)
      requires Valid()
      reads this, recvBuffer
      ensures n > 0 && recvIndex + n <= recvBuffer.bufferLimit
    {
      RestUnfinished(received);
      4 + recvSize - recvIndex
    }

    /** recv: more bytes behind the ones already there. */
    method Fill(data: seq<byte>)
      requires recvBuffer.Valid() && recvIndex + |data| <= recvBuffer.bufferLimit
      modifies this`recvIndex, recvBuffer`buffer
      ensures recvBuffer.Valid() && recvIndex == old(recvIndex) + |data|
      ensures recvBuffer.buffer[..recvIndex] == old(recvBuffer.buffer[..recvIndex]) + data
    {
      OverwrittenParts(recvBuffer.buffer, recvIndex, data);
      recvBuffer.buffer := Overwritten(recvBuffer.buffer, recvIndex, data);
      recvIndex := recvIndex + |data|;
    }

    /** A complete header: checks the size it announces and makes room for the payload. */
    method ReadHeader() returns (ok: bool)
      requires recvBuffer.Valid() && recvIndex == 4 <= recvBuffer.bufferLimit
      modifies this`recvSize, this`opcode, recvBuffer
      ensures ok == (PayloadSize(old(recvBuffer.buffer[..4])) < SIZE_LIMIT)
      ensures ok ==> recvSize == PayloadSize(old(recvBuffer.buffer[..4]))
      ensures ok ==> opcode == HeaderOpcode(HeaderOf(old(recvBuffer.buffer[..4])))
      ensures ok ==> recvBuffer.Valid() && recvSize + 4 <= recvBuffer.bufferLimit
      ensures ok ==> recvBuffer.buffer[..4] == old(recvBuffer.buffer[..4])
    {
      hide HeaderSize, HeaderOpcode, FromLittleEndian;
      var header := recvBuffer.buffer[..4];
      assert header[..4] == header;
      var headerVal := FromLittleEndian(header);
      var packetDataSize := HeaderSize(headerVal);
      if packetDataSize >= SIZE_LIMIT {
        return false;
      }
      recvSize := packetDataSize;
      opcode := HeaderOpcode(headerVal);
      if recvSize + 4 > recvBuffer.bufferLimit {
        recvBuffer.ChangeSizeLimit(recvSize + 4);
      }
      return true;
    }

    /** A complete packet goes to its handler; the machine is ready for the next header either way. */
    method Complete() returns (ok: bool)
      requires recvBuffer.Valid() && recvIndex == recvSize + 4 <= recvBuffer.bufferLimit && !disconnected
      modifies this`recvSize, this`recvIndex, this`opcode, this`disconnected, this`delivered, recvBuffer`bufferSize
      ensures (var packet := Packet(old(opcode), recvBuffer.buffer[4..4 + old(recvSize)]);
               delivered == old(delivered) + [packet] && ok == handler(packet) && disconnected == !ok)
      ensures recvIndex == 0 && recvSize == 0 && opcode == 0 && recvBuffer.Valid()
    {
      recvBuffer.bufferSize := recvSize + 4;
      var packet := Packet(opcode, recvBuffer.buffer[4..4 + recvSize]);
      delivered := delivered + [packet];
      ok := handler(packet);
      recvIndex, recvSize, opcode := 0, 0, 0;
      if !ok {
        disconnected := true;
      }
    }

    /**
     One call of the receive loop. Whatever the bytes so far were cut into, the
     handlers have been given exactly the packets of the whole stream.
     */
    method Process(r: Received) returns (ok: bool)
      requires Valid() && !disconnected
      requires r.Bytes? ==> 1 <= |r.data| <= BytesToReceive()
      modifies this, recvBuffer
      ensures received == old(received) + (if r.Bytes? then r.data else [])
      ensures delivered == Parse(received).packets
      ensures ok <==> !r.Closed? && !Parse(received).refused && forall p :: p in delivered ==> handler(p)
      ensures if ok then Valid() && !disconnected else disconnected || Parse(received).refused
    {
      hide HeaderSize, HeaderOpcode, FromLittleEndian, Parse;
      if r.WouldBlock? {
        assert received + [] == received;
        return true;
      }
      if r.Closed? {
        disconnected := true;
        assert received + [] == received;
        return false;
      }
      var packetFullSize := 4;
      if recvSize > 0 {
        packetFullSize := packetFullSize + recvSize;
      }
      ghost var rest := recvBuffer.buffer[..recvIndex];
      ghost var s := rest + r.data;
      ParseMore(received, r.data);
      RestUnfinished(received);
      HeaderStays(rest, r.data);
      Fill(r.data);
      received := received + r.data;
      if recvIndex == packetFullSize && packetFullSize == 4 {
        assert recvBuffer.buffer[..4] == s;
        ok := ReadHeader();
        if !ok {
          ParseRefused(s);
          return;
        }
      }
      if recvIndex >= recvSize + 4 {
        ParseWhole(s);
        assert recvBuffer.buffer[4..4 + recvSize] == s[4..4 + recvSize];
        ok := Complete();
        assert recvBuffer.buffer[..recvIndex] == [];
        return;
      }
      ParsePart(s);
      return true;
    }
  }

  /**
   The whole stream through the loop, recv bringing at most arrival(n) bytes in
   its n-th call: the handlers see the packets of the stream in order, as if it
   had come in one piece.
   */
  method ReceiveStream(client: XptClient, stream: seq<byte>, arrival: nat -> nat) returns (ok: bool)
    requires client.Valid() && !client.disconnected && client.received == []
    modifies client, client.recvBuffer
    ensures ok ==> client.delivered == Parse(stream).packets && client.received == stream
    ensures !ok ==> client.delivered == Parse(client.received).packets && client.received <= stream
    ensures !ok ==> Parse(client.received).refused || exists p :: p in client.delivered && !client.handler(p)
  {
    hide Parse;
    var calls, pos := 0, 0;
    while pos < |stream|
      invariant pos <= |stream| && client.Valid() && !client.disconnected && client.received == stream[..pos]
    {
      var n := client.BytesToReceive();
      n := if n > |stream| - pos then |stream| - pos else n;
      n := if arrival(calls) == 0 then 1 else if arrival(calls) < n then arrival(calls) else n;
      assert stream[..pos] + stream[pos..pos + n] == stream[..pos + n];
      ok := client.Process(Received.Bytes(stream[pos..pos + n]));
      if !ok {
        return;
      }
      pos, calls := pos + n, calls + 1;
    }
    assert stream[..pos] == stream;
    ok := true;
  }

  lemma HeaderStays(rest: seq<byte>, data: seq<byte>)
    ensures |rest| >= 4 ==> HeaderOf(rest + data) == HeaderOf(rest)
  {
    if |rest| >= 4 {
      assert (rest + data)[..4] == rest[..4];
    }
  }
}
