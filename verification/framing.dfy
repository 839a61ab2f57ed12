/**
  What the status-response reader of `do_scan` accepts and rejects, proved
  against the layout of a reply: which bytes give the payload back, and
  which give each of the four framing errors.
 */
module Framing {
  import opened Wrappers
  import opened Stream
  import opened Bits
  import opened VarInt
  import opened Errors
  import opened Response

  // ---------------------------------------------------------------------------
  // The reader, step by step

  /** After a complete outer VarInt, the rest of the stream alone decides. */
  lemma AfterOuter(o: seq<byte>, rest: seq<byte>)
    requires IsVarIntToken(o)
    ensures ReadResponse(o + rest) == ReadStatusPacket(rest)
  {
    ReadToken(o, rest);
  }

  /**
    Once the header is complete, the verdict depends only on the declared
    length and on the bytes that follow the header.
   */
  lemma AfterHeader(s: seq<byte>, o: seq<byte>, l: seq<byte>, rest: seq<byte>)
    requires HeaderThen(s, o, l, rest)
    ensures ReadResponse(s) == PayloadVerdict(GroupSum(l), rest)
  {
    ReadToken(o, [StatusResponseId] + (l + rest));
    ReadToken(l, rest);
  }

  /** A decodable VarInt at the front splits the stream into that token and the rest. */
  lemma TokenOf(s: seq<byte>) returns (o: seq<byte>, rest: seq<byte>)
    requires ReadVarI64(s).Success?
    ensures IsVarIntToken(o) && s == o + rest
    ensures ReadVarI64(s) == Success(Read(GroupSum(o), rest))
  {
    ReadConsumesToken(s);
    var n := |s| - |ReadVarI64(s).value.rest|;
    o, rest := s[..n], s[n..];
    SplitAt(s, n);
  }

  /** A stream with a decodable outer VarInt is read on from the end of that VarInt. */
  lemma OuterOf(s: seq<byte>) returns (o: seq<byte>, rest: seq<byte>)
    requires !IsTruncatedVarInt(s)
    ensures IsVarIntToken(o) && s == o + rest
    ensures ReadResponse(s) == ReadStatusPacket(rest)
  {
    o, rest := TokenOf(s);
  }

  /** Every verdict past the id check was reached through a complete header. */
  lemma HeaderFound(s: seq<byte>) returns (o: seq<byte>, l: seq<byte>, rest: seq<byte>)
    requires ReadResponse(s).Success? || ReadResponse(s).error in {PleaseNoDoSError, JsonReadError}
    ensures HeaderThen(s, o, l, rest)
  {
    var afterOuter;
    o, afterOuter := OuterOf(s);
    var afterId := afterOuter[1..];
    assert afterOuter == [StatusResponseId] + afterId;
    l, rest := TokenOf(afterId);
  }

  // ---------------------------------------------------------------------------
  // Success: the payload of a well-framed reply

  /**
    The reader returns `p` exactly when the reply is well framed around `p`:
    a header whose length VarInt declares `|p|`, at most the cap, followed by
    `p` and then anything at all, which is left unread.
   */
  lemma SuccessIff(s: seq<byte>, p: seq<byte>)
    ensures ReadResponse(s) == Success(p) <==>
              exists o, l, t :: HeaderThen(s, o, l, p + t) && GroupSum(l) == |p| <= MaxPayload
  {
    if ReadResponse(s) == Success(p) {
      var o, l, rest := HeaderFound(s);
      AfterHeader(s, o, l, rest);
      SplitAt(rest, |p|);
      assert HeaderThen(s, o, l, p + rest[|p|..]);
    }
    if exists o, l, t :: HeaderThen(s, o, l, p + t) && GroupSum(l) == |p| <= MaxPayload {
      var o, l, t :| HeaderThen(s, o, l, p + t) && GroupSum(l) == |p| <= MaxPayload;
      AfterHeader(s, o, l, p + t);
    }
  }

  // ---------------------------------------------------------------------------
  // The error taxonomy: which reply gets which error

  /**
    `PacketFormatError` exactly when the outer VarInt is cut short, or it is
    followed by an id other than 0x00, or by 0x00 and a cut-short length
    VarInt.
   */
  lemma PacketFormatErrorIff(s: seq<byte>)
    ensures ReadResponse(s) == Failure(PacketFormatError) <==>
              || IsTruncatedVarInt(s)
              || (exists o, id, rest :: IdAfterOuter(s, o, id, rest) && id != StatusResponseId)
              || (exists o, rest :: IdAfterOuter(s, o, StatusResponseId, rest) && IsTruncatedVarInt(rest))
  {
    if exists o, id, rest :: IdAfterOuter(s, o, id, rest) && id != StatusResponseId {
      var o, id, rest :| IdAfterOuter(s, o, id, rest) && id != StatusResponseId;
      AfterOuter(o, [id] + rest);
    }
    if exists o, rest :: IdAfterOuter(s, o, StatusResponseId, rest) && IsTruncatedVarInt(rest) {
      var o, rest :| IdAfterOuter(s, o, StatusResponseId, rest) && IsTruncatedVarInt(rest);
      AfterOuter(o, [StatusResponseId] + rest);
    }
    if ReadResponse(s) == Failure(PacketFormatError) && !IsTruncatedVarInt(s) {
      var o, afterOuter := OuterOf(s);
      var id, afterId := afterOuter[0], afterOuter[1..];
      assert afterOuter == [id] + afterId;
      assert IdAfterOuter(s, o, id, afterId);
    }
  }

  /** `ReadError` exactly when the stream ends right after the outer VarInt. */
  lemma ReadErrorIff(s: seq<byte>)
    ensures ReadResponse(s) == Failure(ReadError) <==> IsVarIntToken(s)
  {
    if IsVarIntToken(s) {
      assert s + [] == s;
      AfterOuter(s, []);
    }
    if ReadResponse(s) == Failure(ReadError) {
      var o, rest := OuterOf(s);
      assert rest == [];
    }
  }

  /**
    `PleaseNoDoSError` exactly when the header is complete and declares more
    than the cap, whatever follows the header.
   */
  lemma PleaseNoDoSIff(s: seq<byte>)
    ensures ReadResponse(s) == Failure(PleaseNoDoSError) <==>
              exists o, l, rest :: HeaderThen(s, o, l, rest) && GroupSum(l) > MaxPayload
  {
    if exists o, l, rest :: HeaderThen(s, o, l, rest) && GroupSum(l) > MaxPayload {
      var o, l, rest :| HeaderThen(s, o, l, rest) && GroupSum(l) > MaxPayload;
      AfterHeader(s, o, l, rest);
    }
    if ReadResponse(s) == Failure(PleaseNoDoSError) {
      var o, l, rest := HeaderFound(s);
      AfterHeader(s, o, l, rest);
    }
  }

  /**
    `JsonReadError` exactly when the header is complete, declares at most the
    cap, and fewer bytes than declared follow it: a short payload is never
    returned in part.
   */
  lemma JsonReadErrorIff(s: seq<byte>)
    ensures ReadResponse(s) == Failure(JsonReadError) <==>
              exists o, l, rest :: && HeaderThen(s, o, l, rest)
                                   && GroupSum(l) <= MaxPayload
                                   && |rest| < GroupSum(l)
  {
    if exists o, l, rest :: HeaderThen(s, o, l, rest) && GroupSum(l) <= MaxPayload && |rest| < GroupSum(l) {
      var o, l, rest :| HeaderThen(s, o, l, rest) && GroupSum(l) <= MaxPayload && |rest| < GroupSum(l);
      AfterHeader(s, o, l, rest);
    }
    if ReadResponse(s) == Failure(JsonReadError) {
      var o, l, rest := HeaderFound(s);
      AfterHeader(s, o, l, rest);
    }
  }

  // ---------------------------------------------------------------------------
  // Consequences for the scanner

  /** The outer length's value never matters: any two outer VarInts give the same verdict. */
  lemma OuterLengthIgnored(t1: seq<byte>, t2: seq<byte>, u: seq<byte>)
    requires IsVarIntToken(t1) && IsVarIntToken(t2)
    ensures ReadResponse(t1 + u) == ReadResponse(t2 + u)
  {
    AfterOuter(t1, u);
    AfterOuter(t2, u);
  }

  /**
    The cap is decided by the header alone: once a header declares more than
    64 KiB, no byte after it is read and none of them changes the verdict.
   */
  lemma CapDecidedBeforePayload(o: seq<byte>, l: seq<byte>)
    requires IsVarIntToken(o) && IsVarIntToken(l) && GroupSum(l) > MaxPayload
    ensures forall u :: ReadResponse(o + ([StatusResponseId] + (l + u))) == Failure(PleaseNoDoSError)
  {
    forall u
      ensures ReadResponse(o + ([StatusResponseId] + (l + u))) == Failure(PleaseNoDoSError)
    {
      AfterHeader(o + ([StatusResponseId] + (l + u)), o, l, u);
    }
  }

  /** Every payload length the reader accepts, and its framing, fits a VarInt. */
  lemma PayloadBound()
    ensures Representable(MaxPayload + 1 + MaxVarIntBytes)
  {
    NextGroupWeight(0);
    NextGroupWeight(1);
    NextGroupWeight(2);
    Pow2Monotone(21, 7 * MaxVarIntBytes);
  }

  /**
    Any outer length, the status id, the canonical encoding of `|p|` and then
    `p`: the reader returns `p` whatever bytes come after it.
   */
  lemma FramedRoundTrip(outer: nat, p: seq<byte>, tail: seq<byte>)
    requires Representable(outer) && |p| <= MaxPayload
    ensures Representable(|p|)
    ensures ReadResponse(EncodeVarI64(outer) + ([StatusResponseId] + (EncodeVarI64(|p|) + (p + tail))))
            == Success(p)
  {
    PayloadBound();
    var o, l := EncodeVarI64(outer), EncodeVarI64(|p|);
    AfterHeader(o + ([StatusResponseId] + (l + (p + tail))), o, l, p + tail);
  }

  /** A declared length of exactly 64 KiB passes the cap; one more byte does not. */
  lemma CapBoundary(outer: nat, p: seq<byte>, tail: seq<byte>)
    requires Representable(outer) && |p| == MaxPayload
    ensures Representable(MaxPayload + 1)
    ensures ReadResponse(EncodeVarI64(outer) + ([StatusResponseId] + (EncodeVarI64(MaxPayload) + (p + tail))))
            == Success(p)
    ensures ReadResponse(EncodeVarI64(outer) + ([StatusResponseId] + (EncodeVarI64(MaxPayload + 1) + (p + tail))))
            == Failure(PleaseNoDoSError)
  {
    PayloadBound();
    FramedRoundTrip(outer, p, tail);
    CapExceeded(outer, MaxPayload + 1, p + tail);
  }

  /** A header declaring more than the cap is rejected whatever follows it. */
  lemma CapExceeded(outer: nat, n: nat, rest: seq<byte>)
    requires Representable(outer) && MaxPayload < n && Representable(n)
    ensures ReadResponse(EncodeVarI64(outer) + ([StatusResponseId] + (EncodeVarI64(n) + rest)))
            == Failure(PleaseNoDoSError)
  {
    var o, l := EncodeVarI64(outer), EncodeVarI64(n);
    AfterHeader(o + ([StatusResponseId] + (l + rest)), o, l, rest);
  }

  /**
    The status response as a server sends it: the length of the packet, the
    status id 0x00, the length of the payload, the payload.
   */
  function FrameStatusResponse(p: seq<byte>): (r: seq<byte>)
    requires |p| <= MaxPayload
    ensures ReadResponse(r) == Success(p)
  {
    PayloadBound();
    var l := EncodeVarI64(|p|);
    var body := [StatusResponseId] + (l + p);
    var o := EncodeVarI64(|body|);
    AfterHeader(o + body, o, l, p);
    assert p[..|p|] == p;
    o + body
  }
}
