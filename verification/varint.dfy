/**
  Minecraft's variable-length integers (src/varint.rs): little-endian groups
  of seven value bits, each byte's high bit saying whether another byte
  follows, as in unsigned LEB128. The decoder reads at most eight bytes and
  stops there even when the eighth still has its continuation bit set.
 */
module VarInt {
  import opened Wrappers
  import opened Stream
  import opened Bits

  /** The most bytes one decode reads. */
  const MaxVarIntBytes: nat := 8

  /** Whether `n` fits the eight 7-bit groups a VarInt can carry: `n < 2^56`. */
  predicate Representable(n: nat)
  {
    n < Pow2(7 * MaxVarIntBytes)
  }

  /** The seven value bits of a byte, `b & 0b0111_1111`. */
  function Low7(b: byte): nat
  {
    b % 128
  }

  /** Whether a byte's continuation bit is set, `b & 0b1000_0000 != 0`. */
  predicate Continues(b: byte)
  {
    b >= 128
  }

  /**
    The number the groups of `t` spell, least significant group first: the
    sum of `Low7(t[i]) * 128^i` (see `GroupSumSnoc`).
   */
  function GroupSum(t: seq<byte>): nat
  {
    if |t| == 0 then 0 else Low7(t[0]) + 128 * GroupSum(t[1..])
  }

  /**
    `t` is exactly what one decode with room for `max` bytes consumes:
    between one and `max` bytes, every byte but the last with its
    continuation bit set, and the last one without it unless all `max` bytes
    were read.
   */
  predicate IsGroupRun(t: seq<byte>, max: nat)
  {
    && 1 <= |t| <= max
    && (forall j :: 0 <= j < |t| - 1 ==> Continues(t[j]))
    && (|t| < max ==> !Continues(t[|t| - 1]))
  }

  /** The stream ends before a decode with room for `max` bytes can finish. */
  predicate IsCutShort(s: seq<byte>, max: nat)
  {
    |s| < max && forall j :: 0 <= j < |s| ==> Continues(s[j])
  }

  /** `t` is exactly what one `read_var_i64` consumes. */
  predicate IsVarIntToken(t: seq<byte>)
  {
    IsGroupRun(t, MaxVarIntBytes)
  }

  /** The stream ends before `read_var_i64` can finish: fewer than eight bytes, all continuing. */
  predicate IsTruncatedVarInt(s: seq<byte>)
  {
    IsCutShort(s, MaxVarIntBytes)
  }

  /**
    Decoding with room for `max` more bytes, stated group by group from the
    front: a byte without the continuation bit, or the last byte there is
    room for, ends the number; otherwise its group is followed by the
    groups of the rest, each worth 128 times more.
   */
  function DecodeGroups(s: seq<byte>, max: nat): Result<Read<nat>, IoError>
    decreases max
  {
    if |s| == 0 || max == 0 then
      Failure(UnexpectedEof)
    else if max == 1 || !Continues(s[0]) then
      Success(Read(Low7(s[0]), s[1..]))
    else
      match DecodeGroups(s[1..], max - 1)
      case Failure(e) => Failure(e)
      case Success(more) => Success(Read(Low7(s[0]) + 128 * more.value, more.rest))
  }

  /**
    Decoding with room for `max` bytes fails exactly when the stream is cut
    short; otherwise it consumes one run of groups, leaves the rest of the
    stream as it was, and returns the run's group sum.
   */
  lemma {:induction false} DecodeGroupsSpec(s: seq<byte>, max: nat)
    requires 1 <= max
    ensures var r := DecodeGroups(s, max);
            && (r.Failure? <==> IsCutShort(s, max))
            && (r.Success? ==>
                  && 0 < |s| - |r.value.rest| <= max
                  && r.value.rest == s[|s| - |r.value.rest|..]
                  && IsGroupRun(s[..|s| - |r.value.rest|], max)
                  && r.value.value == GroupSum(s[..|s| - |r.value.rest|]))
    decreases max
  {
    if |s| == 0 {
    } else if max == 1 || !Continues(s[0]) {
      assert s[..1] == [s[0]];
    } else {
      DecodeGroupsSpec(s[1..], max - 1);
      match DecodeGroups(s[1..], max - 1)
      case Failure(e) =>
        ConsCutShort(s, max);
      case Success(more) =>
        ConsRun(s, |s| - |more.rest|, max);
    }
  }

  /**
    `read_var_i64`: decodes one VarInt from the front of the stream.

    It fails exactly when the stream ends before a terminating byte within
    its first eight bytes. Otherwise it consumes between one and eight bytes,
    leaves the rest of the stream untouched, and returns a value below 2^56
    (and so always a non-negative `i64`). Which bytes it consumes and what
    they are worth is `ReadConsumesToken`; `ReadVarI64Loop` is the loop of
    `read_var_i64`, proved to compute the same.
   */
  function ReadVarI64(s: seq<byte>): (r: Result<Read<nat>, IoError>)
    ensures r.Failure? <==> IsTruncatedVarInt(s)
    ensures r.Success? ==>
              && 0 < |s| - |r.value.rest| <= MaxVarIntBytes
              && r.value.rest == s[|s| - |r.value.rest|..]
    ensures r.Success? ==> Representable(r.value.value)
  {
    var r := DecodeGroups(s, MaxVarIntBytes);
    DecodeGroupsSpec(s, MaxVarIntBytes);
    if r.Success? then TokenValueBound(s[..|s| - |r.value.rest|]); r else r
  }

  /**
    What a successful decode consumed is one token, and the value returned
    is that token's little-endian group sum.
   */
  lemma ReadConsumesToken(s: seq<byte>)
    requires ReadVarI64(s).Success?
    ensures var n := |s| - |ReadVarI64(s).value.rest|;
            IsVarIntToken(s[..n]) && ReadVarI64(s).value.value == GroupSum(s[..n])
  {
    DecodeGroupsSpec(s, MaxVarIntBytes);
  }

  /**
    The loop of `read_var_i64` as written: for `i` in `0..8` read a byte,
    OR its seven value bits in at bit `7 * i`, and return as soon as a byte
    has its continuation bit clear; after eight bytes return what was read.
    A read past the end of the stream is the `?` that propagates the I/O
    error.
   */
  method ReadVarI64Loop(s: seq<byte>) returns (r: Result<Read<nat>, IoError>)
    ensures r == ReadVarI64(s)
  {
    var result: nat := 0;
    var i: nat := 0;
    while i < MaxVarIntBytes
      invariant i <= MaxVarIntBytes && i <= |s|
      invariant forall j :: 0 <= j < i ==> Continues(s[j])
      invariant result == GroupSum(s[..i])
    {
      if i == |s| {
        assert s[..i] == s;
        return Failure(UnexpectedEof);
      }
      var b := s[i];
      AccumulateGroup(s, i, result);
      result := BitOr(result, Shl(Low7(b), 7 * i));
      if !Continues(b) {
        StopsAtFirstTerminator(s, i);
        return Success(Read(result, s[i + 1..]));
      }
      i := i + 1;
    }
    StopsAfterEightBytes(s);
    return Success(Read(result, s[i..]));
  }

  /**
    The canonical encoding of `x`: seven bits per byte from the low end,
    continuation bit on every byte but the last, no superfluous groups.
   */
  function EncodeVarI64(x: nat): (r: seq<byte>)
    requires Representable(x)
    ensures IsVarIntToken(r) && GroupSum(r) == x
    ensures |r| == 1 || Pow2(7 * (|r| - 1)) <= x
    decreases x
  {
    if x < 128 then
      [x]
    else
      var tail := EncodeVarI64(x / 128);
      EncodeStep(x, tail);
      [x % 128 + 128] + tail
  }

  // ---------------------------------------------------------------------------
  // Facts about group sums and tokens

  lemma Pow2Seven()
    ensures Pow2(7) == 128
  {
  }

  /** One more group multiplies the weight of the next one by 128. */
  lemma NextGroupWeight(n: nat)
    ensures Pow2(7 * (n + 1)) == 128 * Pow2(7 * n)
  {
    Pow2Add(7 * n, 7);
    Pow2Seven();
  }

  lemma {:induction false} GroupSumBound(t: seq<byte>)
    ensures GroupSum(t) < Pow2(7 * |t|)
    decreases |t|
  {
    if |t| > 0 {
      GroupSumBound(t[1..]);
      NextGroupWeight(|t| - 1);
    }
  }

  lemma TokenValueBound(t: seq<byte>)
    requires IsVarIntToken(t)
    ensures Representable(GroupSum(t))
  {
    GroupSumBound(t);
    Pow2Monotone(7 * |t|, 7 * MaxVarIntBytes);
  }

  /**
    Group sums read from the back: the group of a byte appended at position
    `|t|` carries weight 128^|t|, which is how the decoder accumulates.
   */
  lemma {:induction false} GroupSumSnoc(t: seq<byte>, b: byte)
    ensures GroupSum(t + [b]) == GroupSum(t) + Low7(b) * Pow2(7 * |t|)
    decreases |t|
  {
    if |t| == 0 {
      assert t + [b] == [b];
    } else {
      var n := |t| - 1;
      assert (t + [b])[1..] == t[1..] + [b];
      GroupSumSnoc(t[1..], b);
      NextGroupWeight(n);
      var w := Pow2(7 * n);
      calc {
        GroupSum(t + [b]);
        Low7(t[0]) + 128 * (GroupSum(t[1..]) + Low7(b) * w);
        { assert 128 * (Low7(b) * w) == Low7(b) * (128 * w); }
        Low7(t[0]) + 128 * GroupSum(t[1..]) + Low7(b) * (128 * w);
      }
    }
  }

  /** The step of the encoder: one low group in front of the encoding of the rest. */
  lemma EncodeStep(x: nat, tail: seq<byte>)
    requires 128 <= x && Representable(x)
    requires IsVarIntToken(tail) && GroupSum(tail) == x / 128
    requires |tail| == 1 || Pow2(7 * (|tail| - 1)) <= x / 128
    ensures IsVarIntToken([x % 128 + 128] + tail)
    ensures GroupSum([x % 128 + 128] + tail) == x
    ensures Pow2(7 * |tail|) <= x
  {
    EncodeWeight(x, |tail|);
    ContinueBefore(x % 128 + 128, tail);
    EncodeValue(x, tail);
  }

  /** The low group in front of groups worth `x / 128` is worth `x`. */
  lemma EncodeValue(x: nat, tail: seq<byte>)
    requires GroupSum(tail) == x / 128
    ensures GroupSum([x % 128 + 128] + tail) == x
  {
    assert ([x % 128 + 128] + tail)[1..] == tail;
  }

  /** A continuing byte in front of a token of fewer than eight bytes is a token. */
  lemma ContinueBefore(b: byte, tail: seq<byte>)
    requires Continues(b) && IsVarIntToken(tail) && |tail| < MaxVarIntBytes
    ensures IsVarIntToken([b] + tail)
  {
    var r := [b] + tail;
    assert forall j :: 1 <= j < |r| ==> r[j] == tail[j - 1];
  }

  /** The weight of the last group of the encoding of `x` stays within `x`. */
  lemma EncodeWeight(x: nat, n: nat)
    requires 128 <= x && 1 <= n
    requires n == 1 || Pow2(7 * (n - 1)) <= x / 128
    ensures Pow2(7 * n) <= x
  {
    NextGroupWeight(n - 1);
    if n == 1 {
      Pow2Seven();
    }
  }

  /** A stream holds at most one token at its front. */
  lemma TokenPrefixUnique(s: seq<byte>, i: nat, k: nat)
    requires i <= |s| && k <= |s|
    requires IsVarIntToken(s[..i]) && IsVarIntToken(s[..k])
    ensures i == k
  {
  }

  /** Slices of a stream split after its first byte. */
  lemma ConsSlices(s: seq<byte>, n: nat)
    requires 1 <= n <= |s|
    ensures s[..n][1..] == s[1..][..n - 1]
    ensures s[1..][n - 1..] == s[n..]
    ensures s[..n][0] == s[0]
  {
  }

  /** A continuing first byte leaves the rest cut short exactly when the whole is. */
  lemma ConsCutShort(s: seq<byte>, max: nat)
    requires 1 < max && 0 < |s| && Continues(s[0])
    ensures IsCutShort(s, max) <==> IsCutShort(s[1..], max - 1)
  {
    assert forall j :: 1 <= j < |s| ==> s[j] == s[1..][j - 1];
  }

  /** A continuing byte in front of a run of groups is a run one byte longer. */
  lemma ConsRun(s: seq<byte>, n: nat, max: nat)
    requires 1 < max && 1 < n <= |s| && Continues(s[0])
    requires IsGroupRun(s[1..][..n - 1], max - 1)
    ensures IsGroupRun(s[..n], max)
    ensures GroupSum(s[..n]) == Low7(s[0]) + 128 * GroupSum(s[1..][..n - 1])
    ensures s[1..][n - 1..] == s[n..]
  {
    ConsSlices(s, n);
    var t := s[..n];
    assert forall j :: 1 <= j < n ==> t[j] == t[1..][j - 1];
  }

  /** One pass of the loop: OR-ing in group `i` extends the sum to `i + 1` bytes. */
  lemma AccumulateGroup(s: seq<byte>, i: nat, acc: nat)
    requires i < |s| && acc == GroupSum(s[..i])
    ensures BitOr(acc, Shl(Low7(s[i]), 7 * i)) == GroupSum(s[..i + 1])
  {
    GroupSumBound(s[..i]);
    OrDisjointIsAdd(acc, Low7(s[i]), 7 * i);
    assert s[..i + 1] == s[..i] + [s[i]];
    GroupSumSnoc(s[..i], s[i]);
  }

  /** A stream that starts with a token is not truncated. */
  lemma TokenNotTruncated(t: seq<byte>, u: seq<byte>)
    requires IsVarIntToken(t)
    ensures !IsTruncatedVarInt(t + u)
  {
    if |t| < MaxVarIntBytes {
      assert (t + u)[|t| - 1] == t[|t| - 1];
    }
  }

  // ---------------------------------------------------------------------------
  // Properties of the decoder

  /**
    Decoding a stream that starts with a token consumes exactly that token,
    leaves what follows untouched, and yields the token's group sum.
   */
  lemma {:induction false} ReadToken(t: seq<byte>, u: seq<byte>)
    requires IsVarIntToken(t)
    ensures ReadVarI64(t + u) == Success(Read(GroupSum(t), u))
  {
    var s := t + u;
    TokenNotTruncated(t, u);
    var r := ReadVarI64(s);
    var n := |s| - |r.value.rest|;
    ReadConsumesToken(s);
    assert s[..|t|] == t;
    TokenPrefixUnique(s, n, |t|);
    assert s[|t|..] == u;
  }

  /**
    Decoding stops right after the first byte whose continuation bit is clear
    when that is among the first eight: `k + 1` bytes are consumed.
   */
  lemma StopsAtFirstTerminator(s: seq<byte>, k: nat)
    requires k < MaxVarIntBytes && k < |s|
    requires forall j :: 0 <= j < k ==> Continues(s[j])
    requires !Continues(s[k])
    ensures ReadVarI64(s) == Success(Read(GroupSum(s[..k + 1]), s[k + 1..]))
  {
    assert s == s[..k + 1] + s[k + 1..];
    ReadToken(s[..k + 1], s[k + 1..]);
  }

  /**
    Eight bytes that all carry the continuation bit still decode: the value
    of those eight groups is returned and no ninth byte is read.
   */
  lemma StopsAfterEightBytes(s: seq<byte>)
    requires |s| >= MaxVarIntBytes
    requires forall j :: 0 <= j < MaxVarIntBytes ==> Continues(s[j])
    ensures ReadVarI64(s) == Success(Read(GroupSum(s[..MaxVarIntBytes]), s[MaxVarIntBytes..]))
    ensures forall u :: ReadVarI64(s[..MaxVarIntBytes] + u) == Success(Read(GroupSum(s[..MaxVarIntBytes]), u))
  {
    assert s == s[..MaxVarIntBytes] + s[MaxVarIntBytes..];
    ReadToken(s[..MaxVarIntBytes], s[MaxVarIntBytes..]);
    forall u
      ensures ReadVarI64(s[..MaxVarIntBytes] + u) == Success(Read(GroupSum(s[..MaxVarIntBytes]), u))
    {
      ReadToken(s[..MaxVarIntBytes], u);
    }
  }

  /** A byte below 0x80 decodes to itself and is the only byte consumed. */
  lemma SingleByte(b: byte, u: seq<byte>)
    requires b < 128
    ensures ReadVarI64([b] + u) == Success(Read(b, u))
  {
    ReadToken([b], u);
  }

  /** Decoding undoes encoding for every value the decoder can return. */
  lemma RoundTrip(x: nat, u: seq<byte>)
    requires Representable(x)
    ensures ReadVarI64(EncodeVarI64(x) + u) == Success(Read(x, u))
  {
    ReadToken(EncodeVarI64(x), u);
  }
}
