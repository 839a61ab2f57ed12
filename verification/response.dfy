/**
  The framed reply to a status request, as `do_scan` reads it after sending
  the handshake (src/main.rs):

    VarInt outer length | packet id byte 0x00 | VarInt payload length | payload

  The outer length is read and then thrown away; the payload length must not
  exceed 64 KiB, a guard against a peer that would have the scanner allocate
  an arbitrary buffer. Each step has its own failure, and the first step that
  fails decides the error.
 */
module Response {
  import opened Wrappers
  import opened Stream
  import opened VarInt
  import opened Errors

  /** The largest payload accepted, `64 * 1024`. */
  const MaxPayload: nat := 64 * 1024

  /** The packet id of a status response. */
  const StatusResponseId: byte := 0x00

  /**
    Reads one framed status response and returns its payload bytes. The
    outer length is decoded only to be skipped: its value is never looked at.
   */
  function ReadResponse(s: seq<byte>): (r: Result<seq<byte>, ScanError>)
    ensures r.Success? ==> |r.value| <= MaxPayload
    ensures r.Failure? ==> r.error in {PacketFormatError, ReadError, PleaseNoDoSError, JsonReadError}
  {
    match ReadVarI64(s)
    case Failure(_) => Failure(PacketFormatError)
    case Success(outer) => ReadStatusPacket(outer.rest)
  }

  /** What follows the outer length: the packet id, then the payload. */
  function ReadStatusPacket(t: seq<byte>): (r: Result<seq<byte>, ScanError>)
    ensures r.Success? ==> |r.value| <= MaxPayload
  {
    match ReadByte(t)
    case Failure(_) => Failure(ReadError)
    case Success(id) =>
      if id.value != StatusResponseId then Failure(PacketFormatError)
      else ReadPayload(id.rest)
  }

  /**
    What follows the packet id: the payload length, checked against the cap
    before any payload byte is read, then exactly that many bytes.
   */
  function ReadPayload(u: seq<byte>): (r: Result<seq<byte>, ScanError>)
    ensures r.Success? ==> |r.value| <= MaxPayload
  {
    match ReadVarI64(u)
    case Failure(_) => Failure(PacketFormatError)
    case Success(len) =>
      if len.value > MaxPayload then Failure(PleaseNoDoSError)
      else
        match ReadExact(len.rest, len.value)
        case Failure(_) => Failure(JsonReadError)
        case Success(payload) => Success(payload.value)
  }

  // ---------------------------------------------------------------------------
  // The reply's layout, stated as the concatenation of its parts

  /** `s` is a complete outer-length VarInt `o`, the byte `id`, then `rest`. */
  predicate IdAfterOuter(s: seq<byte>, o: seq<byte>, id: byte, rest: seq<byte>)
  {
    IsVarIntToken(o) && s == o + ([id] + rest)
  }

  /**
    `s` opens with a full header: an outer VarInt `o`, the status packet id,
    and a complete payload-length VarInt `l`; `rest` is what follows.
   */
  predicate HeaderThen(s: seq<byte>, o: seq<byte>, l: seq<byte>, rest: seq<byte>)
  {
    IsVarIntToken(l) && IdAfterOuter(s, o, StatusResponseId, l + rest)
  }

  /**
    What the reader makes of the bytes after a header that declares `n`
    payload bytes: the cap first, then whether `n` bytes are there.
   */
  function PayloadVerdict(n: nat, rest: seq<byte>): Result<seq<byte>, ScanError>
  {
    if n > MaxPayload then Failure(PleaseNoDoSError)
    else if |rest| < n then Failure(JsonReadError)
    else Success(rest[..n])
  }
}
