/**
  The bytes `do_scan` sends before it reads a reply (src/main.rs): two
  packets of the Minecraft protocol written back to back, a handshake that
  asks for the status state and an empty status request. Each packet is a
  VarInt length, counting the id byte and the body, then the id byte, then
  the body. The handshake body holds the protocol version (a VarInt), the
  server address (a VarInt length and that many bytes), the port (two bytes,
  big-endian) and the state to switch to (a VarInt).
 */
module Handshake {
  import opened Wrappers
  import opened Stream
  import opened Bits
  import opened VarInt

  /** A packet: its id byte and the bytes of its body. */
  datatype Packet = Packet(id: byte, body: seq<byte>)

  /** A packet on the wire: the length of id and body, the id, the body. */
  function EncodePacket(p: Packet): (r: seq<byte>)
    requires Representable(|p.body| + 1)
    ensures |r| > |p.body| + 1
  {
    EncodeVarI64(|p.body| + 1) + ([p.id] + p.body)
  }

  /**
    Reads one packet: its length VarInt, then that many bytes, the first of
    which is the id. `None` when the length cannot be decoded, is zero (no
    room for an id) or exceeds what the stream still holds.
   */
  function ReadPacket(s: seq<byte>): (r: Option<Read<Packet>>)
    ensures r.Some? ==> |r.value.rest| < |s|
  {
    match ReadVarI64(s)
    case Failure(_) => None
    case Success(len) =>
      if len.value == 0 || |len.rest| < len.value then None
      else Some(Read(Packet(len.rest[0], len.rest[1..len.value]), len.rest[len.value..]))
  }

  /** Reading a packet back gives the packet, and leaves what followed it unread. */
  lemma PacketRoundTrip(p: Packet, rest: seq<byte>)
    requires Representable(|p.body| + 1)
    ensures ReadPacket(EncodePacket(p) + rest) == Some(Read(p, rest))
  {
    var n := |p.body| + 1;
    Associate(EncodeVarI64(n), [p.id] + p.body, rest);
    Associate([p.id], p.body, rest);
    RoundTrip(n, [p.id] + (p.body + rest));
    HeadParts(p.id, p.body, rest);
  }

  // ---------------------------------------------------------------------------
  // The handshake body

  /** The fields of a handshake. */
  datatype HandshakeFields = HandshakeFields(protocol: nat, address: seq<byte>, port: nat, nextState: nat)

  /** Fields that the wire format can carry: VarInt-sized numbers and a 16-bit port. */
  predicate Encodable(h: HandshakeFields)
  {
    && Representable(h.protocol)
    && Representable(|h.address|)
    && h.port < 0x1_0000
    && Representable(h.nextState)
  }

  /** A port as two bytes, most significant first. */
  function PortBytes(port: nat): (r: seq<byte>)
    requires port < 0x1_0000
    ensures |r| == 2 && PortValue(r) == port
  {
    [port / 256, port % 256]
  }

  /** The port two bytes spell, most significant first. */
  function PortValue(b: seq<byte>): nat
    requires |b| == 2
  {
    b[0] as nat * 256 + b[1] as nat
  }

  /** A handshake body: version, address with its length, port, next state. */
  function EncodeHandshake(h: HandshakeFields): seq<byte>
    requires Encodable(h)
  {
    EncodeVarI64(h.protocol)
      + (EncodeVarI64(|h.address|) + (h.address + (PortBytes(h.port) + EncodeVarI64(h.nextState))))
  }

  /** Reads a length-prefixed address. */
  function ReadAddress(s: seq<byte>): Option<Read<seq<byte>>>
  {
    match ReadVarI64(s)
    case Failure(_) => None
    case Success(len) =>
      match ReadExact(len.rest, len.value)
      case Failure(_) => None
      case Success(address) => Some(address)
  }

  /** Reads a two-byte big-endian port. */
  function ReadPort(s: seq<byte>): Option<Read<nat>>
  {
    match ReadExact(s, 2)
    case Failure(_) => None
    case Success(port) => Some(Read(PortValue(port.value), port.rest))
  }

  /** Reads a handshake body field by field; `None` unless it is exactly one handshake. */
  function ReadHandshake(body: seq<byte>): Option<HandshakeFields>
  {
    match ReadVarI64(body)
    case Failure(_) => None
    case Success(protocol) =>
      match ReadAddress(protocol.rest)
      case None => None
      case Some(address) =>
        match ReadPort(address.rest)
        case None => None
        case Some(port) =>
          match ReadStateEnd(port.rest)
          case None => None
          case Some(next) => Some(HandshakeFields(protocol.value, address.value, port.value, next))
  }

  /** Reads the next-state VarInt, which must end the body. */
  function ReadStateEnd(s: seq<byte>): Option<nat>
  {
    match ReadVarI64(s)
    case Failure(_) => None
    case Success(next) => if |next.rest| != 0 then None else Some(next.value)
  }

  /** Reading `n` bytes off `a + rest` with `|a| == n` gives `a`. */
  lemma ReadExactPrefix(a: seq<byte>, rest: seq<byte>)
    ensures ReadExact(a + rest, |a|) == Success(Read(a, rest))
  {
    assert (a + rest)[..|a|] == a;
    assert (a + rest)[|a|..] == rest;
  }

  lemma AddressRoundTrip(a: seq<byte>, rest: seq<byte>)
    requires Representable(|a|)
    ensures ReadAddress(EncodeVarI64(|a|) + (a + rest)) == Some(Read(a, rest))
  {
    RoundTrip(|a|, a + rest);
    ReadExactPrefix(a, rest);
  }

  lemma PortRoundTrip(port: nat, rest: seq<byte>)
    requires port < 0x1_0000
    ensures ReadPort(PortBytes(port) + rest) == Some(Read(port, rest))
  {
    ReadExactPrefix(PortBytes(port), rest);
  }

  lemma StateEndRoundTrip(x: nat)
    requires Representable(x)
    ensures ReadStateEnd(EncodeVarI64(x)) == Some(x)
  {
    assert EncodeVarI64(x) + [] == EncodeVarI64(x);
    RoundTrip(x, []);
  }

  /** A handshake body reads back as its fields. */
  lemma HandshakeRoundTrip(h: HandshakeFields)
    requires Encodable(h)
    ensures ReadHandshake(EncodeHandshake(h)) == Some(h)
  {
    var tail2 := EncodeVarI64(h.nextState);
    var tail1 := PortBytes(h.port) + tail2;
    var tail0 := EncodeVarI64(|h.address|) + (h.address + tail1);
    RoundTrip(h.protocol, tail0);
    AddressRoundTrip(h.address, tail1);
    PortRoundTrip(h.port, tail2);
    StateEndRoundTrip(h.nextState);
  }

  // ---------------------------------------------------------------------------
  // The bytes the scanner sends

  /** The packet id of both the handshake and the status request. */
  const HandshakeId: byte := 0x00

  /** The state a handshake with next state 1 switches to: status. */
  const StatusState: nat := 1

  /**
    The server address the scanner claims to connect to: `localhost`, then
    the NUL-separated `FML` marker by which a Forge server includes its mod
    list in the status reply.
   */
  const ForgeAddress: seq<byte> :=
    [0x6c, 0x6f, 0x63, 0x61, 0x6c, 0x68, 0x6f, 0x73, 0x74, 0x00, 0x46, 0x4d, 0x4c, 0x00]

  /** The handshake the scanner sends: protocol 340, the Forge address, port 25565, status. */
  const ScanHandshake: HandshakeFields := HandshakeFields(340, ForgeAddress, 25565, StatusState)

  /** The literal array `do_scan` writes. */
  const HandshakeBytes: seq<byte> :=
    [0x15, 0x00, 0xd4, 0x02, 0x0e, 0x6c, 0x6f, 0x63, 0x61, 0x6c, 0x68, 0x6f, 0x73, 0x74, 0x00,
     0x46, 0x4d, 0x4c, 0x00, 0x63, 0xdd, 0x01,
     0x01, 0x00]

  /** The VarInts the handshake uses, written out. */
  lemma SmallEncodings()
    ensures Representable(340) && Representable(14) && Representable(21) && Representable(1)
    ensures EncodeVarI64(340) == [0xd4, 0x02]
    ensures EncodeVarI64(21) == [0x15]
    ensures EncodeVarI64(14) == [0x0e]
    ensures EncodeVarI64(1) == [0x01]
  {
    Pow2Monotone(9, 7 * MaxVarIntBytes);
    assert Pow2(9) == 512;
  }

  /** The handshake body the scanner sends, byte for byte. */
  lemma ScanHandshakeBody()
    ensures Encodable(ScanHandshake)
    ensures EncodeHandshake(ScanHandshake) == HandshakeBytes[2..22]
  {
    SmallEncodings();
    assert |ForgeAddress| == 14;
    assert PortBytes(25565) == [0x63, 0xdd];
    var body: seq<byte> :=
      [0xd4, 0x02, 0x0e, 0x6c, 0x6f, 0x63, 0x61, 0x6c, 0x68, 0x6f, 0x73, 0x74, 0x00,
       0x46, 0x4d, 0x4c, 0x00, 0x63, 0xdd, 0x01];
    assert EncodeHandshake(ScanHandshake) == body;
    HandshakeBytesLayout(body);
  }

  lemma HandshakeBytesLayout(body: seq<byte>)
    requires body == [0xd4, 0x02, 0x0e, 0x6c, 0x6f, 0x63, 0x61, 0x6c, 0x68, 0x6f, 0x73, 0x74, 0x00,
                      0x46, 0x4d, 0x4c, 0x00, 0x63, 0xdd, 0x01]
    ensures HandshakeBytes == [0x15, 0x00] + body + [0x01, 0x00]
    ensures HandshakeBytes[2..22] == body
  {
    assert HandshakeBytes == [0x15, 0x00] + body + [0x01, 0x00];
  }

  /**
    The literal array is exactly the handshake packet followed by an empty
    status request packet, both with id 0x00.
   */
  lemma HandshakeBytesFramed()
    ensures Encodable(ScanHandshake) && |EncodeHandshake(ScanHandshake)| == 20
    ensures HandshakeBytes == EncodePacket(Packet(HandshakeId, EncodeHandshake(ScanHandshake)))
                              + EncodePacket(Packet(HandshakeId, []))
  {
    ScanHandshakeBody();
    SmallEncodings();
    var body := HandshakeBytes[2..22];
    assert EncodePacket(Packet(HandshakeId, body)) == HandshakeBytes[..22];
    assert EncodePacket(Packet(HandshakeId, [])) == HandshakeBytes[22..];
  }

  /**
    Read with the protocol's own framing, the array is: a first packet whose
    length VarInt 0x15 counts the 21 bytes after it, id 0x00 and a handshake
    body for protocol 340 (`d4 02`), the 14-byte address (`0e`), port 25565
    and next state 1; then the two bytes `01 00`, a packet of length 1 with
    id 0x00 and nothing else; then nothing.
   */
  lemma HandshakeBytesRead()
    ensures Encodable(ScanHandshake)
    ensures ReadPacket(HandshakeBytes)
            == Some(Read(Packet(HandshakeId, EncodeHandshake(ScanHandshake)), HandshakeBytes[22..]))
    ensures ReadHandshake(EncodeHandshake(ScanHandshake)) == Some(ScanHandshake)
    ensures ReadPacket(HandshakeBytes[22..]) == Some(Read(Packet(HandshakeId, []), []))
  {
    HandshakeBytesFramed();
    var second := EncodePacket(Packet(HandshakeId, []));
    PacketRoundTrip(Packet(HandshakeId, EncodeHandshake(ScanHandshake)), second);
    assert second + [] == second;
    PacketRoundTrip(Packet(HandshakeId, []), []);
    HandshakeRoundTrip(ScanHandshake);
    assert HandshakeBytes[22..] == second;
  }

  /** The first byte, 0x15, is a one-byte VarInt counting the 21 bytes of the first packet after it. */
  lemma FirstLengthCounts()
    ensures ReadVarI64(HandshakeBytes) == Success(Read(21, HandshakeBytes[1..]))
    ensures Encodable(ScanHandshake) && 1 + |EncodeHandshake(ScanHandshake)| == 21
  {
    HandshakeBytesFramed();
    assert HandshakeBytes == [0x15] + HandshakeBytes[1..];
    SingleByte(0x15, HandshakeBytes[1..]);
  }
}
