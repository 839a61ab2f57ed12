/**
  The metrics page `scan_server` renders (src/main.rs): three gauges in the
  Prometheus text exposition format, each a `# TYPE` line and a sample line,
  filled in with the number of players online, the player limit and the
  number of installed mods, written as Rust's `{}` writes an unsigned
  integer: base ten, no sign, no leading zeros.
 */
module Exposition {
  import opened Wrappers

  // ---------------------------------------------------------------------------
  // Decimal numerals

  predicate IsDigit(c: char)
  {
    '0' <= c <= '9'
  }

  /** The character of a digit value. */
  function DigitChar(d: nat): (c: char)
    requires d < 10
    ensures IsDigit(c)
  {
    ('0' as int + d) as char
  }

  /** The value of a digit character. */
  function DigitValue(c: char): (d: nat)
    requires IsDigit(c)
    ensures d < 10
  {
    c as int - '0' as int
  }

  lemma DigitRoundTrip(d: nat)
    requires d < 10
    ensures DigitValue(DigitChar(d)) == d
  {
  }

  /** A digit character is the character of its value. */
  lemma CharRoundTrip(c: char)
    requires IsDigit(c)
    ensures DigitChar(DigitValue(c)) == c
  {
  }

  /** `n` in base ten, most significant digit first, as `{}` formats it. */
  function Decimal(n: nat): (r: string)
    ensures 1 <= |r|
    ensures forall i :: 0 <= i < |r| ==> IsDigit(r[i])
    ensures r[0] == '0' ==> n == 0
    decreases n
  {
    if n < 10 then [DigitChar(n)] else Decimal(n / 10) + [DigitChar(n % 10)]
  }

  /** The value of a string of digits, most significant first. */
  function DecimalValue(s: string): nat
    requires forall i :: 0 <= i < |s| ==> IsDigit(s[i])
  {
    if |s| == 0 then 0 else 10 * DecimalValue(s[..|s| - 1]) + DigitValue(s[|s| - 1])
  }

  /** Reading a numeral back gives the number it was written for. */
  lemma {:induction false} DecimalRoundTrip(n: nat)
    ensures DecimalValue(Decimal(n)) == n
    decreases n
  {
    DigitRoundTrip(n % 10);
    if 10 <= n {
      var s := Decimal(n);
      assert s[..|s| - 1] == Decimal(n / 10);
      DecimalRoundTrip(n / 10);
    }
  }

  /** Different numbers are written differently. */
  lemma DecimalInjective(m: nat, n: nat)
    requires Decimal(m) == Decimal(n)
    ensures m == n
  {
    DecimalRoundTrip(m);
    DecimalRoundTrip(n);
  }

  /**
    A numeral as `{}` writes one: one or more digits, and no leading zero
    unless the numeral is `0` itself.
   */
  predicate IsCanonical(d: string)
  {
    && 1 <= |d|
    && (forall i :: 0 <= i < |d| ==> IsDigit(d[i]))
    && (|d| > 1 ==> d[0] != '0')
  }

  /** Every number is written as a canonical numeral. */
  lemma DecimalCanonical(n: nat)
    ensures IsCanonical(Decimal(n))
  {
    if n < 10 {
      assert |Decimal(n)| == 1;
    }
  }

  /** A string of digits is worth at least its leading digit. */
  lemma {:induction false} LeadingDigitBound(d: string)
    requires 1 <= |d| && forall i :: 0 <= i < |d| ==> IsDigit(d[i])
    ensures DigitValue(d[0]) <= DecimalValue(d)
    decreases |d|
  {
    if |d| > 1 {
      var front := d[..|d| - 1];
      assert front[0] == d[0];
      LeadingDigitBound(front);
    }
  }

  /** A canonical numeral is the numeral of its value: the converse of `DecimalRoundTrip`. */
  lemma {:induction false} CanonicalDecimal(d: string)
    requires IsCanonical(d)
    ensures Decimal(DecimalValue(d)) == d
    decreases |d|
  {
    var c := d[|d| - 1];
    CharRoundTrip(c);
    if |d| == 1 {
      assert d == [c];
    } else {
      var front := d[..|d| - 1];
      assert front[0] == d[0];
      LeadingDigitBound(front);
      CanonicalDecimal(front);
      var n := DecimalValue(d);
      assert n / 10 == DecimalValue(front) && n % 10 == DigitValue(c);
      assert d == front + [c];
    }
  }

  // ---------------------------------------------------------------------------
  // The page

  /** The type line and the sample-line prefix of each gauge. */
  const OnlineType: string := "# TYPE minecraft_players_current gauge"
  const OnlineName: string := "minecraft_players_current "
  const MaxType: string := "# TYPE minecraft_players_max gauge"
  const MaxName: string := "minecraft_players_max "
  const ModCountType: string := "# TYPE minecraft_mod_count gauge"
  const ModCountName: string := "minecraft_mod_count "

  /** Everything up to the players-online value, starting with the template's leading newline. */
  const OnlineHead: string := "\n" + OnlineType + "\n" + OnlineName

  /** From the end of the players-online value to the player-limit value: a blank line between gauges. */
  const MaxHead: string := "\n\n" + MaxType + "\n" + MaxName

  /** From the end of the player-limit value to the mod-count value. */
  const ModCountHead: string := "\n\n" + ModCountType + "\n" + ModCountName

  /** The newline that ends the page. */
  const PageEnd: string := "\n"

  /**
    The page: the template with `online`, `max` and `modCount` substituted,
    in that order.
   */
  function Render(online: nat, max: nat, modCount: nat): (r: string)
    ensures 0 < |r| && r[0] == '\n' && r[|r| - 1] == '\n'
  {
    PageEdges(Decimal(online), Decimal(max), Decimal(modCount));
    OnlineHead + (Decimal(online) + (MaxHead + (Decimal(max) + (ModCountHead + (Decimal(modCount) + PageEnd)))))
  }

  /** The template, whatever is substituted into it, opens and closes with a line break. */
  lemma PageEdges(a: string, b: string, c: string)
    ensures var page := OnlineHead + (a + (MaxHead + (b + (ModCountHead + (c + PageEnd)))));
            0 < |page| && page[0] == '\n' && page[|page| - 1] == '\n'
  {
    NewlineEdges();
    var tail := a + (MaxHead + (b + (ModCountHead + (c + PageEnd))));
    FirstOf(OnlineHead, tail);
    LastOf(c, PageEnd);
    LastOf(ModCountHead, c + PageEnd);
    LastOf(b, ModCountHead + (c + PageEnd));
    LastOf(MaxHead, b + (ModCountHead + (c + PageEnd)));
    LastOf(a, MaxHead + (b + (ModCountHead + (c + PageEnd))));
    LastOf(OnlineHead, tail);
  }

  /** The template's pieces each open with a line break, and the last one is only that. */
  lemma NewlineEdges()
    ensures OnlineHead[0] == '\n' && MaxHead[0] == '\n' && ModCountHead[0] == '\n'
    ensures PageEnd == ['\n']
  {
  }

  lemma FirstOf(a: string, b: string)
    requires 0 < |a|
    ensures (a + b)[0] == a[0]
  {
  }

  lemma LastOf(a: string, b: string)
    requires 0 < |b|
    ensures (a + b)[|a + b| - 1] == b[|b| - 1]
  {
  }

  // ---------------------------------------------------------------------------
  // Reading a page back

  /** The longest run of digits at the front of `t`, and what follows it. */
  function SplitDigits(t: string): (r: (string, string))
    ensures r.0 + r.1 == t
    ensures forall i :: 0 <= i < |r.0| ==> IsDigit(r.0[i])
    ensures |r.1| == 0 || !IsDigit(r.1[0])
  {
    if |t| > 0 && IsDigit(t[0]) then
      var r := SplitDigits(t[1..]);
      ConsDigits(t[0], r.0, r.1, t);
      ([t[0]] + r.0, r.1)
    else
      ([], t)
  }

  lemma ConsDigits(c: char, d: string, rest: string, t: string)
    requires 0 < |t| && c == t[0] && d + rest == t[1..]
    requires IsDigit(c) && forall i :: 0 <= i < |d| ==> IsDigit(d[i])
    ensures ([c] + d) + rest == t
    ensures forall i :: 0 <= i < |[c] + d| ==> IsDigit(([c] + d)[i])
  {
    assert t == [t[0]] + t[1..];
  }

  /** `t` with the literal `lit` taken off its front, if it starts with it. */
  function Expect(lit: string, t: string): (r: Option<string>)
    ensures r.Some? <==> |lit| <= |t| && t[..|lit|] == lit
    ensures r.Some? ==> lit + r.value == t
  {
    if |lit| <= |t| && t[..|lit|] == lit then Some(t[|lit|..]) else None
  }

  /**
    A numeral at the front of `t`, and what follows it. A numeral with a
    leading zero is not one `{}` writes, and is rejected.
   */
  function Number(t: string): Option<(nat, string)>
  {
    var (d, rest) := SplitDigits(t);
    if !IsCanonical(d) then None else Some((DecimalValue(d), rest))
  }

  /** One sample: the literal text `head` before it, then its value. */
  function ReadSample(head: string, t: string): Option<(nat, string)>
  {
    match Expect(head, t)
    case None => None
    case Some(rest) => Number(rest)
  }

  /** Reads the three gauge values off a page; `None` when `t` is not such a page. */
  function ReadPage(t: string): Option<(nat, nat, nat)>
  {
    match ReadSample(OnlineHead, t)
    case None => None
    case Some((online, t1)) =>
      match ReadSample(MaxHead, t1)
      case None => None
      case Some((max, t2)) =>
        match ReadSample(ModCountHead, t2)
        case None => None
        case Some((modCount, t3)) =>
          if t3 == PageEnd then Some((online, max, modCount)) else None
  }

  /** Splitting a numeral off text that goes on with a non-digit. */
  lemma {:induction false} SplitDecimal(d: string, rest: string)
    requires forall i :: 0 <= i < |d| ==> IsDigit(d[i])
    requires |rest| == 0 || !IsDigit(rest[0])
    ensures SplitDigits(d + rest) == (d, rest)
    decreases |d|
  {
    if |d| > 0 {
      assert (d + rest)[1..] == d[1..] + rest;
      SplitDecimal(d[1..], rest);
      assert [d[0]] + d[1..] == d;
    } else {
      assert d + rest == rest;
    }
  }

  lemma ExpectLiteral(lit: string, rest: string)
    ensures Expect(lit, lit + rest) == Some(rest)
  {
    assert (lit + rest)[..|lit|] == lit;
    assert (lit + rest)[|lit|..] == rest;
  }

  lemma NumberDecimal(n: nat, rest: string)
    requires |rest| == 0 || !IsDigit(rest[0])
    ensures Number(Decimal(n) + rest) == Some((n, rest))
  {
    SplitDecimal(Decimal(n), rest);
    DecimalRoundTrip(n);
    DecimalCanonical(n);
  }

  /** What `Number` reads off `t` is the numeral of the value it returns, then the rest. */
  lemma NumberInverse(t: string, n: nat, rest: string)
    requires Number(t) == Some((n, rest))
    ensures t == Decimal(n) + rest
  {
    var (d, r) := SplitDigits(t);
    CanonicalDecimal(d);
  }

  /** A sample reads back as the value written after its head. */
  lemma SampleRoundTrip(head: string, n: nat, rest: string)
    requires 0 < |rest| && rest[0] == '\n'
    ensures ReadSample(head, head + (Decimal(n) + rest)) == Some((n, rest))
  {
    ExpectLiteral(head, Decimal(n) + rest);
    NumberDecimal(n, rest);
  }

  /** The page reads back as the three values it was rendered from. */
  lemma RenderRoundTrip(online: nat, max: nat, modCount: nat)
    ensures ReadPage(Render(online, max, modCount)) == Some((online, max, modCount))
  {
    NewlineEdges();
    var t3 := PageEnd;
    var t2 := ModCountHead + (Decimal(modCount) + t3);
    var t1 := MaxHead + (Decimal(max) + t2);
    FirstOf(MaxHead, Decimal(max) + t2);
    FirstOf(ModCountHead, Decimal(modCount) + t3);
    SampleRoundTrip(OnlineHead, online, t1);
    SampleRoundTrip(MaxHead, max, t2);
    SampleRoundTrip(ModCountHead, modCount, t3);
  }

  /** A sample read off `t` is the head, the numeral of its value, then the rest. */
  lemma SampleInverse(head: string, t: string, n: nat, rest: string)
    requires ReadSample(head, t) == Some((n, rest))
    ensures t == head + (Decimal(n) + rest)
  {
    var after := Expect(head, t).value;
    NumberInverse(after, n, rest);
  }

  /**
    The page reader and the renderer are exact inverses: a text reads as the
    values `(online, max, modCount)` exactly when it is the page rendered
    from them, byte for byte.
   */
  lemma ReadPageIff(t: string, online: nat, max: nat, modCount: nat)
    ensures ReadPage(t) == Some((online, max, modCount)) <==> t == Render(online, max, modCount)
  {
    if ReadPage(t) == Some((online, max, modCount)) {
      var (a, t1) := ReadSample(OnlineHead, t).value;
      var (b, t2) := ReadSample(MaxHead, t1).value;
      var (c, t3) := ReadSample(ModCountHead, t2).value;
      SampleInverse(OnlineHead, t, a, t1);
      SampleInverse(MaxHead, t1, b, t2);
      SampleInverse(ModCountHead, t2, c, t3);
    }
    if t == Render(online, max, modCount) {
      RenderRoundTrip(online, max, modCount);
    }
  }

  /** Different readings give different pages. */
  lemma RenderInjective(a: nat, b: nat, c: nat, a': nat, b': nat, c': nat)
    requires Render(a, b, c) == Render(a', b', c')
    ensures a == a' && b == b' && c == c'
  {
    RenderRoundTrip(a, b, c);
    RenderRoundTrip(a', b', c');
  }
}
