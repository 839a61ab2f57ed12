/**
  One scan of a server, `scan_server` and `do_scan` (src/main.rs): connect,
  send the handshake, read the framed status reply, parse its JSON payload
  and render the three gauges.

  The parts that leave the program are inputs here: what the TCP connect and
  the write did is a `Connection`, the bytes the server sends back are its
  `reply`, and the JSON parser is a function from the payload to either a
  parsed record or the parser's error message.
 */
module Scan {
  import opened Wrappers
  import opened Stream
  import opened VarInt
  import opened Errors
  import opened Response
  import opened Framing
  import opened Exposition

  /** Rust's `u64`. */
  newtype u64 = x: int | 0 <= x < 0x1_0000_0000_0000_0000

  /** The fields of the status JSON the scanner reads, as its record types declare them. */
  datatype Description = Description(text: string)
  datatype Mod = Mod(modid: string, version: string)
  datatype ModInfo = ModInfo(modList: seq<Mod>)
  datatype Player = Player(id: string, name: string)
  datatype Players = Players(max: u64, online: u64, sample: seq<Player>)
  datatype ServerListResponse =
    ServerListResponse(description: Description, modinfo: ModInfo, players: Players)

  /** What the single `write` of the handshake returned: a byte count, or an error. */
  datatype WriteOutcome = Wrote(count: nat) | WriteFailed

  /**
    The connection a scan gets: refused, with the connect error's message,
    or accepted, with the outcome of the write and all the bytes the server
    sends back.
   */
  datatype Connection = Refused(message: string) | Accepted(write: WriteOutcome, reply: seq<byte>)

  /**
    `do_scan`: the connect and write errors first, then the reply as the
    status-response reader takes it apart. Only a failed write is a
    `WriteError`: the byte count the write reports is not compared with the
    24 bytes of the handshake.
   */
  function DoScan(c: Connection): (r: Result<seq<byte>, ScanError>)
    ensures r.Failure? && r.error.ConnectError? <==> c.Refused?
    ensures c.Refused? ==> r.error.cause == c.message
    ensures r == Failure(WriteError) <==> c.Accepted? && c.write.WriteFailed?
    ensures c.Accepted? && c.write.Wrote? ==> r == ReadResponse(c.reply)
    ensures r.Success? ==> c.Accepted? && |r.value| <= MaxPayload
    ensures r.Failure? ==> !r.error.JsonParseError?
  {
    match c
    case Refused(message) => Failure(ConnectError(message))
    case Accepted(WriteFailed, _) => Failure(WriteError)
    case Accepted(Wrote(_), reply) => ReadResponse(reply)
  }

  /**
    `scan_server`: the errors of `do_scan` pass through unchanged, a payload
    the parser rejects is a `JsonParseError` carrying the parser's message,
    and a parsed status becomes the page with its online count, player
    limit and number of mods.
   */
  function ScanServer(c: Connection, parse: seq<byte> -> Result<ServerListResponse, string>)
    : (r: Result<string, ScanError>)
    ensures DoScan(c).Failure? ==> r == Failure(DoScan(c).error)
    ensures r.Failure? && r.error.JsonParseError? <==>
              DoScan(c).Success? && parse(DoScan(c).value).Failure?
    ensures DoScan(c).Success? && parse(DoScan(c).value).Failure? ==>
              r == Failure(JsonParseError(parse(DoScan(c).value).error))
    ensures DoScan(c).Success? && parse(DoScan(c).value).Success? ==> r.Success?
    ensures r.Success? ==>
              && DoScan(c).Success? && parse(DoScan(c).value).Success?
              && var p := parse(DoScan(c).value).value;
                 ReadPage(r.value)
                 == Some((p.players.online as nat, p.players.max as nat, |p.modinfo.modList|))
  {
    match DoScan(c)
    case Failure(e) => Failure(e)
    case Success(buf) =>
      match parse(buf)
      case Failure(message) => Failure(JsonParseError(message))
      case Success(parsed) =>
        var online, max := parsed.players.online as nat, parsed.players.max as nat;
        var modCount := |parsed.modinfo.modList|;
        RenderRoundTrip(online, max, modCount);
        Success(Render(online, max, modCount))
  }

  /**
    Whatever byte count the write reports, fewer than the 24 bytes of the
    handshake included, the scan goes on to read the reply.
   */
  lemma ShortWriteNotChecked(count: nat, reply: seq<byte>)
    ensures DoScan(Accepted(Wrote(count), reply)) == ReadResponse(reply)
    ensures DoScan(Accepted(Wrote(count), reply)) != Failure(WriteError)
  {
  }

  /**
    A server that answers with a well-framed status response, whatever it
    sends after it, gets its payload parsed and its gauges reported.
   */
  lemma ScanOfFramedReply(count: nat, p: seq<byte>, tail: seq<byte>,
                          parse: seq<byte> -> Result<ServerListResponse, string>)
    requires |p| <= MaxPayload && parse(p).Success?
    ensures ScanServer(Accepted(Wrote(count), FrameStatusResponse(p) + tail), parse).Success?
    ensures ReadPage(ScanServer(Accepted(Wrote(count), FrameStatusResponse(p) + tail), parse).value)
            == Some((parse(p).value.players.online as nat, parse(p).value.players.max as nat,
                     |parse(p).value.modinfo.modList|))
  {
    FramedReplyWithTail(p, tail);
  }

  /** Bytes after a well-framed response are never read. */
  lemma FramedReplyWithTail(p: seq<byte>, tail: seq<byte>)
    requires |p| <= MaxPayload
    ensures ReadResponse(FrameStatusResponse(p) + tail) == Success(p)
  {
    var r := FrameStatusResponse(p);
    SuccessIff(r, p);
    var o, l, t :| HeaderThen(r, o, l, p + t) && GroupSum(l) == |p| <= MaxPayload;
    Associate(o, [StatusResponseId] + (l + (p + t)), tail);
    Associate([StatusResponseId], l + (p + t), tail);
    Associate(l, p + t, tail);
    Associate(p, t, tail);
    assert HeaderThen(r + tail, o, l, p + (t + tail));
    SuccessIff(r + tail, p);
  }
}
