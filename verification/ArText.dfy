/**
  The texts in an ar header: decimal numbers as Python reads them, padding and stripping, and
  UTF-8. Byte strings are strings of characters below 256.
 */
module ArText {
  import opened Numbers
  import opened Slices
  import opened Wrappers

  // ----- decimal numbers

  predicate IsDigit(c: char)
  {
    '0' <= c <= '9'
  }

  lemma {:induction false} DecDigits(n: nat)
    ensures forall i :: 0 <= i < |Dec(n)| ==> IsDigit(Dec(n)[i])
  {
    if n >= 10 {
      DecDigits(n / 10);
    }
  }

  /** The number that digits denote, with single underscores allowed between them; -1 for anything else. */
  function Number(s: string): (n: int)
    ensures -1 <= n
  {
    if s == "" || !IsDigit(s[|s| - 1]) then -1
    else
      var low := s[|s| - 1] as int - '0' as int;
      if |s| == 1 then low
      else
        var high := Number(if s[|s| - 2] == '_' then s[..|s| - 2] else s[..|s| - 1]);
        if high < 0 then -1 else 10 * high + low
  }

  lemma {:induction false} NumberOfDec(n: nat)
    ensures Number(Dec(n)) == n
  {
    var s := Dec(n);
    DecDigits(n);
    if n >= 10 {
      NumberOfDec(n / 10);
      assert s[..|s| - 1] == Dec(n / 10);
    }
  }

  lemma {:induction false} NumberBelow(s: string)
    ensures Number(s) < Pow10(|s|)
  {
    Pow10Positive(|s|);
    if |s| > 1 {
      NumberBelow(s[..|s| - 1]);
      NumberBelow(s[..|s| - 2]);
      assert Pow10(|s|) == 10 * Pow10(|s| - 1) && Pow10(|s| - 1) == 10 * Pow10(|s| - 2);
    }
  }

  lemma {:induction false} NumberDigits(s: string)
    requires Number(s) >= 0
    ensures s != "" && IsDigit(s[0]) && IsDigit(s[|s| - 1])
  {
    if |s| > 1 {
      NumberDigits(if s[|s| - 2] == '_' then s[..|s| - 2] else s[..|s| - 1]);
    }
  }

  /** What is left of a number without its sign. */
  function Unsigned(s: string): (digits: string)
    ensures |digits| <= |s|
  {
    if s != "" && (s[0] == '-' || s[0] == '+') then s[1..] else s
  }

  /** Python's `int` of a text without white space around it. */
  function Int(s: string): Option<int>
  {
    var n := Number(Unsigned(s));
    if n < 0 then None else Some(if s[0] == '-' then -n else n)
  }

  lemma IntOfDec(n: nat)
    ensures Int(Dec(n)) == Some(n)
  {
    DecDigits(n);
    NumberOfDec(n);
  }

  lemma IntBound(s: string)
    requires Int(s).Some?
    ensures 0 - Pow10(|s|) < Int(s).value < Pow10(|s|)
  {
    var digits := Unsigned(s);
    NumberBelow(digits);
    Pow10Mono(|digits|, |s|);
  }

  /** A number has no white space around it. */
  lemma IntEnds(s: string)
    requires Int(s).Some?
    ensures s != "" && !Gone(s[0], CharSpace) && !Gone(s[|s| - 1], CharSpace)
  {
    NumberDigits(Unsigned(s));
  }

  /** Digits at both ends, and single underscores at most between them. */
  predicate Numeral(s: string)
  {
    && s != "" && IsDigit(s[0]) && IsDigit(s[|s| - 1])
    && (forall i :: 0 <= i < |s| ==> IsDigit(s[i]) || s[i] == '_')
    && forall i :: 0 <= i < |s| - 1 ==> s[i] != '_' || s[i + 1] != '_'
  }

  /** Exactly the numerals denote a number. */
  lemma {:induction false} NumberExactly(s: string)
    ensures Number(s) >= 0 <==> Numeral(s)
  {
    if |s| > 1 && IsDigit(s[|s| - 1]) {
      NumberExactly(if s[|s| - 2] == '_' then s[..|s| - 2] else s[..|s| - 1]);
    }
  }

  /** A digit more counts ten times what is before it, an underscore in between or not. */
  lemma NumberMore(s: string, c: char)
    requires Numeral(s) && IsDigit(c)
    ensures Number(s + [c]) == 10 * Number(s) + (c as int - '0' as int) == Number(s + ['_', c])
    ensures Number([c]) == c as int - '0' as int
  {
    NumberExactly(s);
    assert (s + [c])[..|s|] == s;
    assert (s + ['_', c])[..|s|] == s;
  }

  lemma UnsignedSigned(c: char, s: string)
    requires c == '+' || c == '-'
    ensures Unsigned([c] + s) == s
  {
    assert ([c] + s)[1..] == s;
  }

  /** A sign may stand in front, and nothing else. */
  lemma IntMeans(s: string)
    requires Numeral(s)
    ensures Int(s) == Some(Number(s)) == Int(['+'] + s) && Int(['-'] + s) == Some(-Number(s))
  {
    NumberExactly(s);
    UnsignedSigned('+', s);
    UnsignedSigned('-', s);
  }

  lemma IntOnly(s: string)
    ensures Int(s).Some? <==> Numeral(Unsigned(s))
  {
    NumberExactly(Unsigned(s));
    if Numeral(Unsigned(s)) {
      assert s != "";
    }
  }

  // ----- padding and stripping

  function Spaces(k: nat): (s: string)
    ensures |s| == k && forall i :: 0 <= i < k ==> s[i] == ' '
  {
    if k == 0 then "" else Spaces(k - 1) + [' ']
  }

  /** Left-aligned in at least w columns; a longer text is not cut. */
  function Pad(s: string, w: nat): (t: string)
    ensures |s| <= w ==> |t| == w
  {
    if |s| <= w then s + Spaces(w - |s|) else s
  }

  /** What a reader strips: white space of a byte string or of a text, or slashes. */
  datatype Strips = ByteSpace | CharSpace | Slash

  predicate Gone(c: char, strips: Strips)
  {
    match strips
    case ByteSpace => c == ' ' || '\t' <= c <= '\r'
    case CharSpace => c == ' ' || '\t' <= c <= '\r' || 28 <= c as int <= 31 || c as int == 0x85 || WideSpace(c as int)
    case Slash => c == '/'
  }

  /** The spaces of Unicode from U+00A0 on. */
  predicate WideSpace(u: nat)
  {
    u == 0xA0 || u == 0x1680 || 0x2000 <= u <= 0x200A || u == 0x2028 || u == 0x2029 || u == 0x202F || u == 0x205F ||
    u == 0x3000
  }

  function RStrip(s: string, strips: Strips): (t: string)
    ensures t <= s && (t != "" ==> !Gone(t[|t| - 1], strips))
    ensures forall i :: |t| <= i < |s| ==> Gone(s[i], strips)
  {
    if s != "" && Gone(s[|s| - 1], strips) then RStrip(s[..|s| - 1], strips) else s
  }

  function LStrip(s: string, strips: Strips): (t: string)
    ensures t == "" || !Gone(t[0], strips)
  {
    if s != "" && Gone(s[0], strips) then LStrip(s[1..], strips) else s
  }

  function Strip(s: string, strips: Strips): string
  {
    LStrip(RStrip(s, strips), strips)
  }

  /** Stripping is determined by what it removes at the right end. */
  lemma {:induction false} RStripUnique(s: string, t: string, strips: Strips)
    requires t <= s && (t != "" ==> !Gone(t[|t| - 1], strips)) && forall i :: |t| <= i < |s| ==> Gone(s[i], strips)
    ensures RStrip(s, strips) == t
  {
  }

  /** Padding is invisible to a reader that strips spaces. */
  lemma RStripPad(s: string, w: nat, strips: Strips)
    requires strips != Slash
    ensures RStrip(Pad(s, w), strips) == RStrip(s, strips)
  {
    var t := RStrip(s, strips);
    RStripUnique(Pad(s, w), t, strips);
  }

  lemma RStripTwice(s: string, strips: Strips)
    ensures RStrip(RStrip(s, strips), strips) == RStrip(s, strips)
  {
  }

  lemma {:induction false} LStripSuffix(s: string, strips: Strips)
    ensures var t := LStrip(s, strips);
            |t| <= |s| && s[|s| - |t|..] == t && forall i :: 0 <= i < |s| - |t| ==> Gone(s[i], strips)
  {
    if s != "" && Gone(s[0], strips) {
      LStripSuffix(s[1..], strips);
    }
  }

  /** A padded number is read back, whatever white space is stripped besides the padding. */
  lemma StripDec(n: nat, w: nat, strips: Strips)
    requires strips != Slash
    ensures Strip(Pad(Dec(n), w), strips) == Dec(n)
  {
    DecDigits(n);
    RStripPad(Dec(n), w, strips);
    RStripUnique(Dec(n), Dec(n), strips);
  }

  // ----- UTF-8

  predicate IsAscii(s: string)
  {
    forall i :: 0 <= i < |s| ==> s[i] as int < 128
  }

  /** The UTF-8 bytes of a character, section 3 of RFC 3629. */
  function EncodeChar(c: char): (t: string)
    ensures 1 <= |t| <= 4
    ensures c as int < 128 ==> t == [c]
    ensures c as int >= 128 ==> |t| >= 2 && forall i :: 0 <= i < |t| ==> 128 <= t[i] as int < 256
  {
    var u := c as int;
    if u < 0x80 then [c]
    else if u < 0x800 then [(0xC0 + u / 64) as char, Tail(u)]
    else if u < 0x10000 then [(0xE0 + u / 4096) as char, Tail(u / 64), Tail(u)]
    else [(0xF0 + u / 262144) as char, Tail(u / 4096), Tail(u / 64), Tail(u)]
  }

  /** A continuation byte holds six bits. */
  function Tail(u: nat): (c: char)
    ensures 128 <= c as int < 192
  {
    (0x80 + u % 64) as char
  }

  function Utf8(s: string): string
  {
    if s == "" then "" else Utf8(s[..|s| - 1]) + EncodeChar(s[|s| - 1])
  }

  /** The six bits of a continuation byte, -1 for another byte or none. */
  function Bits(b: string, i: nat): (n: int)
    ensures -1 <= n < 64
    ensures n >= 0 <==> i < |b| && 128 <= b[i] as int < 192
  {
    if i < |b| && 128 <= b[i] as int < 192 then b[i] as int - 128 else -1
  }

  /** The number in the first bytes, -1 if they are not laid out as one. */
  function Leading(b: string): (u: int)
    requires b != ""
    ensures -1 <= u
  {
    var lead, x, y, z := b[0] as int, Bits(b, 1), Bits(b, 2), Bits(b, 3);
    if lead < 0x80 then lead
    else if 0xC0 <= lead < 0xE0 && x >= 0 then (lead - 0xC0) * 64 + x
    else if 0xE0 <= lead < 0xF0 && x >= 0 && y >= 0 then (lead - 0xE0) * 4096 + x * 64 + y
    else if 0xF0 <= lead < 0xF8 && x >= 0 && y >= 0 && z >= 0 then (lead - 0xF0) * 262144 + x * 4096 + y * 64 + z
    else -1
  }

  /** Numbers below this one have a shorter form than the lead byte announces. */
  function Least(lead: int): int
  {
    if lead < 0xC0 then 0 else if lead < 0xE0 then 0x80 else if lead < 0xF0 then 0x800 else 0x10000
  }

  /** The first character of a byte string; none for overlong forms, surrogates and loose bytes. */
  function FirstChar(b: string): (c: Option<char>)
    requires b != ""
    ensures c.Some? ==> EncodeChar(c.value) <= b
  {
    var u := Leading(b);
    if u < Least(b[0] as int) || 0xD800 <= u < 0xE000 || u >= 0x11_0000 then None
    else
      FirstEncoded(b);
      Some(u as char)
  }

  /** A number and six more bits. */
  lemma Sextet(a: nat, x: nat)
    requires x < 64
    ensures (a * 64 + x) / 64 == a && (a * 64 + x) % 64 == x
  {
  }

  lemma Sextets(a: nat, x: nat, y: nat, z: nat)
    requires x < 64 && y < 64 && z < 64
    ensures var u := a * 4096 + x * 64 + y; u / 4096 == a && u / 64 % 64 == x && u % 64 == y
    ensures var u := a * 262144 + x * 4096 + y * 64 + z;
            u / 262144 == a && u / 4096 % 64 == x && u / 64 % 64 == y && u % 64 == z
  {
    Sextet(a, x);
    Sextet(a * 64 + x, y);
    Sextet((a * 64 + x) * 64 + y, z);
  }

  lemma FirstEncoded(b: string)
    requires b != "" && Leading(b) >= Least(b[0] as int)
    requires 0 <= Leading(b) < 0xD800 || 0xE000 <= Leading(b) < 0x11_0000
    ensures EncodeChar(Leading(b) as char) <= b
  {
    var lead := b[0] as int;
    if 0xC0 <= lead < 0xE0 {
      Sextet(lead - 0xC0, Bits(b, 1));
    } else if 0xE0 <= lead < 0xF0 {
      Sextets(lead - 0xE0, Bits(b, 1), Bits(b, 2), 0);
    } else if 0xF0 <= lead {
      EncodedFour(b, lead - 0xF0, Bits(b, 1), Bits(b, 2), Bits(b, 3));
    }
  }

  lemma EncodedFour(b: string, a: nat, x: nat, y: nat, z: nat)
    requires |b| >= 4 && a < 8 && b[0] as int == 0xF0 + a
    requires x == Bits(b, 1) && y == Bits(b, 2) && z == Bits(b, 3)
    requires var u := a * 262144 + x * 4096 + y * 64 + z; 0x10000 <= u < 0x11_0000
    ensures EncodeChar((a * 262144 + x * 4096 + y * 64 + z) as char) <= b
  {
    Sextets(a, x, y, z);
  }

  lemma FirstOfEncoded(c: char, rest: string)
    ensures FirstChar(EncodeChar(c) + rest) == Some(c)
  {
    var b, u := EncodeChar(c) + rest, c as int;
    assert forall i :: 0 <= i < |EncodeChar(c)| ==> b[i] == EncodeChar(c)[i];
    if 0x80 <= u < 0x800 {
      LeadingTwo(b, u);
    } else if 0x800 <= u < 0x10000 {
      LeadingThree(b, u);
    } else if 0x10000 <= u {
      LeadingFour(b, u);
    }
  }

  lemma LeadingTwo(b: string, u: nat)
    requires 0x80 <= u < 0x800 && |b| >= 2 && b[0] as int == 0xC0 + u / 64 && b[1] == Tail(u)
    ensures Leading(b) == u && u >= Least(b[0] as int)
  {
  }

  lemma LeadingThree(b: string, u: nat)
    requires 0x800 <= u < 0x10000 && |b| >= 3
    requires b[0] as int == 0xE0 + u / 4096 && b[1] == Tail(u / 64) && b[2] == Tail(u)
    ensures Leading(b) == u && u >= Least(b[0] as int)
  {
    assert u / 64 / 64 == u / 4096;
  }

  lemma LeadingFour(b: string, u: nat)
    requires 0x10000 <= u < 0x11_0000 && |b| >= 4
    requires b[0] as int == 0xF0 + u / 262144 && b[1] == Tail(u / 4096) && b[2] == Tail(u / 64) && b[3] == Tail(u)
    ensures Leading(b) == u && u >= Least(b[0] as int)
  {
    assert u / 64 / 64 == u / 4096 && u / 4096 / 64 == u / 262144;
  }

  /** Python's strict decoding. */
  function Decode(b: string): Option<string>
  {
    if b == "" then Some("")
    else
      match FirstChar(b)
      case None => None
      case Some(c) =>
        match Decode(b[|EncodeChar(c)|..])
        case None => None
        case Some(rest) => Some([c] + rest)
  }

  lemma {:induction false} Utf8Append(a: string, b: string)
    ensures Utf8(a + b) == Utf8(a) + Utf8(b)
    decreases |b|
  {
    if b == "" {
      assert a + b == a;
    } else {
      var c := b[..|b| - 1];
      assert (a + b)[..|a + b| - 1] == a + c;
      Utf8Append(a, c);
      assert Utf8(a) + (Utf8(c) + EncodeChar(b[|b| - 1])) == Utf8(a) + Utf8(c) + EncodeChar(b[|b| - 1]);
    }
  }

  lemma Utf8One(c: char)
    ensures Utf8([c]) == EncodeChar(c)
  {
    assert [c][..0] == "" && Utf8("") == "";
    assert "" + EncodeChar(c) == EncodeChar(c);
  }

  lemma Utf8Cons(c: char, rest: string)
    ensures Utf8([c] + rest) == EncodeChar(c) + Utf8(rest)
  {
    Utf8Append([c], rest);
    Utf8One(c);
  }

  lemma {:induction false} DecodeOfUtf8(s: string)
    ensures Decode(Utf8(s)) == Some(s)
  {
    if s != "" {
      var c, rest := s[0], s[1..];
      assert s == [c] + rest;
      Utf8Cons(c, rest);
      FirstOfEncoded(c, Utf8(rest));
      DecodeOfUtf8(rest);
      assert Utf8(s)[|EncodeChar(c)|..] == Utf8(rest);
    }
  }

  lemma PrefixRest(a: string, b: string)
    requires a <= b
    ensures a + b[|a|..] == b
  {
  }

  lemma {:induction false} Utf8OfDecode(b: string)
    requires Decode(b).Some?
    ensures Utf8(Decode(b).value) == b
  {
    if b != "" {
      var c := FirstChar(b).value;
      var more := b[|EncodeChar(c)|..];
      Utf8OfDecode(more);
      Utf8Cons(c, Decode(more).value);
      PrefixRest(EncodeChar(c), b);
    }
  }

  /** Decoding accepts exactly the encoded texts, each as the text it encodes. */
  lemma DecodeExactly(b: string, s: string)
    ensures Decode(b) == Some(s) <==> Utf8(s) == b
  {
    DecodeOfUtf8(s);
    if Decode(b) == Some(s) {
      Utf8OfDecode(b);
    }
  }

  lemma {:induction false} Utf8Ascii(s: string)
    requires IsAscii(s)
    ensures Utf8(s) == s
  {
    if s != "" {
      Utf8Ascii(s[..|s| - 1]);
    }
  }

  /** Encoding never shortens a text, and keeps the length of exactly the ASCII texts. */
  lemma {:induction false} Utf8Length(s: string)
    ensures |s| <= |Utf8(s)| <= 4 * |s| && (|Utf8(s)| == |s| <==> IsAscii(s))
  {
    if s != "" {
      Utf8Length(s[..|s| - 1]);
    }
  }

  /** An ASCII byte of an encoded text is a character of the text, with the rest before it. */
  lemma {:induction false} AsciiByte(s: string, p: nat) returns (i: nat)
    requires p < |Utf8(s)| && Utf8(s)[p] as int < 128
    ensures i < |s| && |Utf8(s[..i])| == p
  {
    var n := |s| - 1;
    if p < |Utf8(s[..n])| {
      i := AsciiByte(s[..n], p);
      assert s[..n][..i] == s[..i];
    } else {
      i := n;
    }
  }
}
