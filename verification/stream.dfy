/**
  A byte stream read front to back, as the scanner sees its TCP connection.

  The stream is the finite sequence of bytes the peer sends before the
  connection ends. Every read is a pure function that returns what it read
  together with the bytes still unread; a read that needs more bytes than
  remain fails, which is how an end of stream, a reset or any other I/O
  failure of the connection shows up to the reader.
 */
module Stream {
  import opened Wrappers

  /** An octet, as Rust's `u8`. */
  type byte = b: int | 0 <= b < 256

  /** The I/O failure of a read: the stream ended before the read completed. */
  datatype IoError = UnexpectedEof

  /** What a read produced and the part of the stream it left unread. */
  datatype Read<+T> = Read(value: T, rest: seq<byte>)

  /** Reads exactly one byte (`read_exact` into a one-byte buffer). */
  function ReadByte(s: seq<byte>): (r: Result<Read<byte>, IoError>)
    ensures r.Success? <==> |s| > 0
    ensures r.Success? ==> [r.value.value] + r.value.rest == s
  {
    if |s| == 0 then Failure(UnexpectedEof) else Success(Read(s[0], s[1..]))
  }

  /**
    Reads exactly `n` bytes (`read_exact` into an `n`-byte buffer): either the
    whole buffer is filled or the read fails; a short read is never a result.
   */
  function ReadExact(s: seq<byte>, n: nat): (r: Result<Read<seq<byte>>, IoError>)
    ensures r.Success? <==> n <= |s|
    ensures r.Success? ==> |r.value.value| == n && r.value.value + r.value.rest == s
  {
    if |s| < n then Failure(UnexpectedEof) else Success(Read(s[..n], s[n..]))
  }

  // ---------------------------------------------------------------------------
  // Slices of a stream, each identity proved apart from any other context

  lemma SplitAt(s: seq<byte>, i: nat)
    requires i <= |s|
    ensures s == s[..i] + s[i..]
  {
  }

  lemma Associate(a: seq<byte>, b: seq<byte>, c: seq<byte>)
    ensures (a + b) + c == a + (b + c)
  {
  }

  /** The fields of `x`, then `body`, then `rest`. */
  lemma HeadParts(x: byte, body: seq<byte>, rest: seq<byte>)
    ensures var t := [x] + (body + rest);
            && t[0] == x
            && t[1..|body| + 1] == body
            && t[|body| + 1..] == rest
  {
    var t := [x] + (body + rest);
    assert t[1..] == body + rest;
  }
}
