# minecraft-exporter: the status-protocol client, in Dafny

minecraft-exporter is a Prometheus exporter. On request it opens a TCP
connection to a Minecraft server, performs the status handshake, reads the
length-framed status response, parses its JSON payload and reports three
gauges: players online, the player limit, and the number of installed mods.

This project models the protocol client at the core of that program:

- `read_var_i64` (`src/varint.rs`): the VarInt decoder. It reads at most eight
  bytes, each holding seven value bits and a continuation bit. The module
  `VarInt` holds a reference decoder `ReadVarI64` and the loop of
  `read_var_i64` as written, `ReadVarI64Loop`, with the OR-and-shift accumulator of module
  `Bits`. The two are proved equal. `EncodeVarI64` is the canonical encoder,
  used to state round trips and to take the handshake bytes apart.
- `do_scan` (`src/main.rs`): the handshake bytes it sends (module
  `Handshake`), and the reader of the framed reply (module `Response`).
  The reply is `VarInt outer length | id 0x00 | VarInt payload length |
  payload`. Module `Framing` proves which replies give the payload back and
  which give each error.
- `ScanError` (module `Errors`): the closed set of failures a scan reports.
- `scan_server` and its `format!` template (modules `Scan` and `Exposition`):
  the page of three gauges, and a reader that gets the three numbers back
  from it.

A stream is a `seq<byte>`. A read is a pure function that returns the value
read and the unread rest of the stream, or `UnexpectedEof` when the stream
ends first. What the TCP connect and the write did is an input
(`Scan.Connection`), and so is the byte sequence the server sends back.
The JSON parser is a function parameter.

A partial write of the handshake is not an error: `do_scan` calls `write`
once (`src/main.rs:183`) and ignores the byte count it returns, so only a
write that returns an error is a `WriteError`. `Scan.DoScan` and
`Scan.ShortWriteNotChecked` state this.

## Model

| member | source | states |
|---|---|---|
| VarInt.ReadVarI64Loop | src/varint.rs:5-16 | The loop as written, with OR and shift into an accumulator and a break on a clear high bit, returns exactly what the reference decoder `ReadVarI64` returns, on every stream. |
| VarInt.ReadVarI64 | src/varint.rs:5-16 | Fails exactly when the stream ends before a byte with a clear continuation bit among its first eight bytes. On success it consumes between 1 and 8 bytes, leaves the rest of the stream as it was, and returns a value below 2^56, so the `i64` never overflows or goes negative. |
| VarInt.DecodeGroupsSpec | src/varint.rs:8-14 | Reading up to `max` groups fails iff the stream is cut short. Otherwise the consumed prefix is a run of continuing bytes closed by a terminator, or `max` bytes long. The value is that prefix's little-endian sum of 7-bit groups. |
| VarInt.ReadConsumesToken | src/varint.rs:8-14 | What a successful decode consumed is one complete VarInt, and the value is the sum over i of (byte i & 0x7F)·128^i. |
| VarInt.ReadToken | src/varint.rs:8-14 | A stream that starts with a complete VarInt decodes to that VarInt's value, and the bytes after it are untouched. |
| VarInt.StopsAtFirstTerminator | src/varint.rs:11-13 | Decoding stops right after the first byte whose high bit is clear, when it is among the first eight. Exactly k+1 bytes are consumed and the rest is left unread. |
| VarInt.StopsAfterEightBytes | src/varint.rs:8-14 | Eight bytes that all have the continuation bit set still decode. The value of those eight groups is returned, no ninth byte is read, and whatever follows makes no difference. |
| VarInt.SingleByte | src/varint.rs:9-12 | A byte below 0x80 decodes to itself and is the only byte consumed. |
| VarInt.AccumulateGroup | src/varint.rs:10 | One pass of `ans \|= (b & 0x7F) << 7*i`, after i continuing bytes, extends the group sum from i bytes to i+1 bytes. |
| Bits.OrDisjointIsAdd | src/varint.rs:10 | OR-ing a value shifted past every set bit of the accumulator is addition, so the OR in the loop never loses or merges bits. |
| VarInt.TokenValueBound | src/varint.rs:8-10 | The value of at most eight 7-bit groups is below 2^56. |
| VarInt.EncodeVarI64 | src/varint.rs:5-16 | The encoding of any value below 2^56 is a complete VarInt of minimal length whose group sum is that value. This is the encoder the decoder inverts. |
| VarInt.RoundTrip | src/varint.rs:5-16 | Decoding the encoding of x, followed by any bytes u, gives x and leaves u unread. |
| Stream.ReadByte | src/main.rs:188-192 | A one-byte `read_exact` succeeds iff the stream is not empty, and it returns the first byte and leaves the rest unread. |
| Stream.ReadExact | src/main.rs:206-211 | `read_exact` into an n-byte buffer succeeds iff at least n bytes remain. It then returns exactly the next n bytes and leaves the rest unread, so a short read is never a result. |
| Response.ReadResponse | src/main.rs:185-213 | The reply reader of `do_scan`. A payload it returns is at most 64 KiB. Every failure it reports is one of `PacketFormatError`, `ReadError`, `PleaseNoDoSError` and `JsonReadError`. |
| Framing.AfterOuter | src/main.rs:185-187 | After a complete outer VarInt, the verdict depends only on the bytes that follow it. |
| Framing.AfterHeader | src/main.rs:198-213 | Once the header is complete, the verdict is decided by the declared length and the bytes after the header: the cap first, then whether that many bytes are present. |
| Framing.SuccessIff | src/main.rs:185-213 | The reader returns p iff the reply has an outer VarInt, then 0x00, then a length VarInt worth \|p\| ≤ 65536, then p, then anything. That trailing part is left unread. |
| Framing.PacketFormatErrorIff | src/main.rs:185-200 | `PacketFormatError` iff one of three holds: the outer VarInt is cut short; the byte after it is not 0x00; or that byte is 0x00 and the length VarInt after it is cut short. |
| Framing.ReadErrorIff | src/main.rs:188-192 | `ReadError` iff the reply is exactly one complete VarInt, so the stream ends where the packet id should be. |
| Framing.PleaseNoDoSIff | src/main.rs:202-204 | `PleaseNoDoSError` iff the header is complete and declares more than 65536 bytes, whatever follows. |
| Framing.JsonReadErrorIff | src/main.rs:206-211 | `JsonReadError` iff the header is complete, declares at most 65536 bytes, and fewer bytes than declared follow. A short payload is never returned in part. |
| Framing.OuterLengthIgnored | src/main.rs:185-187 | Two replies that differ only in their outer length VarInt get the same verdict: its value is never used. |
| Framing.CapDecidedBeforePayload | src/main.rs:202-206 | A header declaring more than 64 KiB gives `PleaseNoDoSError` for every continuation of the stream, so no payload byte is read before the cap decides. |
| Framing.CapBoundary | src/main.rs:202-204 | A declared length of exactly 65536, followed by 65536 bytes, returns those bytes. A declared length of 65537 over the same bytes gives `PleaseNoDoSError`. |
| Framing.CapExceeded | src/main.rs:202-204 | Any canonically framed header declaring n > 65536 is rejected with `PleaseNoDoSError`, whatever follows. |
| Framing.FramedRoundTrip | src/main.rs:185-213 | Any outer length, the id 0x00, the encoding of \|p\| ≤ 65536 and then p are read back as p, whatever comes after. |
| Framing.FrameStatusResponse | src/main.rs:185-213 | The status response a server sends for payload p, framed with correct lengths, is read back as p. |
| Exposition.Render | src/main.rs:154-168 | The page starts with the template's leading line break and ends with its closing one. Its content is fixed byte for byte by `Exposition.ReadPageIff`. |
| Exposition.PageEdges | src/main.rs:155-164 | The template opens and closes with a line break, whatever numerals are substituted into it. |
| Exposition.ReadPageIff | src/main.rs:154-168 | The page reader and the renderer are exact inverses: a text reads as (online, max, modCount) iff it is the template with exactly those numerals substituted, in that order. The reader checks every literal line and rejects numerals with a leading zero. |
| Exposition.RenderRoundTrip | src/main.rs:154-168 | Reading the three gauge values off a rendered page gives back online, max and the mod count, in that order. |
| Exposition.RenderInjective | src/main.rs:154-168 | Different readings give different pages. |
| Exposition.Decimal | src/main.rs:157 | `{}` writes an unsigned number as one or more decimal digits, with no leading zero unless the number is 0. |
| Exposition.DecimalRoundTrip | src/main.rs:157 | The digits `{}` writes read back as the number. |
| Exposition.DecimalInjective | src/main.rs:157 | Different numbers are written differently. |
| Exposition.DecimalCanonical | src/main.rs:157 | Every number is written as one or more digits with no leading zero unless it is `0`. |
| Exposition.CanonicalDecimal | src/main.rs:157 | Every numeral without a leading zero is the one `{}` writes for its value: the converse of `Exposition.DecimalRoundTrip`. |
| Handshake.PacketRoundTrip | src/main.rs:178-182 | A packet framed as `VarInt(1 + body length), id, body` reads back as the same packet, and the bytes after it are left unread. |
| Handshake.HandshakeRoundTrip | src/main.rs:179-180 | A handshake body (protocol VarInt, length-prefixed address, big-endian port, next-state VarInt) reads back as its fields. |
| Handshake.SmallEncodings | src/main.rs:179-181 | The VarInts in the array are the canonical encodings of their values: 340 is d4 02, 21 is 15, 14 is 0e and 1 is 01. |
| Handshake.ScanHandshakeBody | src/main.rs:179-180 | Bytes 2 to 21 of the array are the handshake body for protocol 340, address `localhost\0FML\0`, port 25565 and next state 1. |
| Handshake.HandshakeBytesFramed | src/main.rs:178-182 | The 24-byte array is exactly a handshake packet with id 0x00 followed by an empty status request with id 0x00. |
| Handshake.HandshakeBytesRead | src/main.rs:178-182 | Read with the protocol's framing, the array gives the handshake packet, whose body reads back as the scanner's handshake fields. It then gives the status request `01 00`, and then nothing. |
| Handshake.FirstLengthCounts | src/main.rs:179 | The first byte 0x15 decodes as the VarInt 21, which is the number of bytes (id and body) of the first packet. |
| Scan.DoScan | src/main.rs:171-214 | `ConnectError` iff the connection was refused, and it carries the connect error's message. `WriteError` iff the write returned an error. After a write that returned any byte count, the result is exactly the reply reader's verdict on the reply, so every `Framing` lemma about `ReadResponse` holds of `do_scan`. A success is at most 64 KiB, and `do_scan` never reports `JsonParseError`. |
| Scan.ShortWriteNotChecked | src/main.rs:183 | Whatever byte count the write reports, including fewer than the 24 of the handshake, it is not an error: the reply is read as usual. |
| Scan.ScanServer | src/main.rs:148-169 | Errors of `do_scan` are passed on unchanged. `JsonParseError` iff the payload was read and the parser rejected it, and it then carries the parser's message. A payload that is read and parsed always gives a page, and that page reads back as `players.online`, `players.max` and the length of `modinfo.modList` of the parsed status, in the order of the `format!` arguments (`src/main.rs:165-167`), which by `Exposition.ReadPageIff` makes it exactly the rendered template. |
| Scan.ScanOfFramedReply | src/main.rs:148-169 | For a well-framed status response whose payload parses, with any trailing bytes, the scan succeeds and reports that payload's three numbers. |
| Scan.FramedReplyWithTail | src/main.rs:185-213 | Bytes a server sends after a well-framed response are never read and do not change the result. |

## Left out

- The HTTP front end (`src/main.rs:90-124`) is left out. It is the inbound request/response boundary, not protocol logic.
- Socket activation, signal handling, logging and the tokio runtime (`src/main.rs:83-88`, `src/main.rs:127-146`) are left out. They are process plumbing. Async suspension is not modelled: every read is a pure function of the bytes that will arrive.
- JSON parsing with serde (`src/main.rs:29-70`, `src/main.rs:151-152`) is a function parameter of `Scan.ScanServer`. The record types are modelled as datatypes with borrowed strings as `string`. The optional `sample` list is a plain sequence.
- The `addr.parse().unwrap()` at `src/main.rs:149` is left out. The address is not part of the model, and a connection is an input.
- The TCP connect and the write (`src/main.rs:174-183`) are an input, `Scan.Connection`: refused with a message, or accepted with the write's outcome and the reply bytes.
- I/O error kinds are collapsed into one, `UnexpectedEof`. Every call site maps any read error to the same `ScanError`, so nothing observable is lost.
- A peer that stalls without closing the connection is not modelled. The reply is the finite sequence of bytes the server sends before the stream ends.
- VarInt.ReadVarI64: returns a `nat`, not an `i64`. The contract proves the value is below 2^56, so the `i64` accumulator never overflows or goes negative, and `len as usize` is exact. The `u8` shift amount `7 * i` stays at most 49 because the loop index stays below 8.
- Response.ReadResponse: its own contract only bounds the payload and names the possible errors. The exact condition for each outcome is stated by the `Framing` lemmas.
- Exposition.Render: its own contract states only the line breaks at the two ends of the page. That the page is the template with the three canonical numerals in order is stated by `Exposition.ReadPageIff`.
- Exposition: the reader `ReadPage` is only the renderer's partner for the inverse lemmas. Nothing in the exporter parses pages.
