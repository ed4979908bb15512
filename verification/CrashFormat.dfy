/**
  The pure half of the crash tracer (src/crashfmt.h): bounded formatting of the fault
  record, and deciding what one line of a maps file says.
 */
module CrashFormat {
  import opened Numbers
  import opened Slices

  /** `unsigned long` on the 32-bit target. */
  const ULONG := 0x1_0000_0000
  type Ulong = n: int | 0 <= n < 0x1_0000_0000

  // ----- text the formatter is meant to produce

  function HexDigits(v: nat): (s: string)
    ensures |s| >= 1
  {
    if v < 16 then [DigitChar(v)] else HexDigits(v / 16) + [DigitChar(v % 16)]
  }

  function Hex(v: nat): string
  {
    "0x" + HexDigits(v)
  }

  function SignalLine(sig: nat, name: string, addr: nat, pc: nat, lr: nat): string
  {
    "\n*** SIGNAL " + Dec(sig) + " (" + name + ") addr=" + Hex(addr) + " pc=" + Hex(pc) + " lr=" + Hex(lr) + "\n"
  }

  /** What a buffer of `cap` characters keeps of a text. */
  function Cut(s: string, cap: nat): (t: string)
    ensures |t| <= cap && t <= s && (|s| <= cap ==> t == s) && (|s| > cap ==> |t| == cap)
  {
    if |s| <= cap then s else s[..cap]
  }

  lemma CutAppend(a: string, b: string, cap: nat)
    ensures Cut(Cut(a, cap) + b, cap) == Cut(a + b, cap)
  {
  }

  lemma CutAppend3(a: string, b: string, c: string, cap: nat)
    ensures Cut(Cut(a + b, cap) + c, cap) == Cut(a + (b + c), cap)
  {
    CutAppend(a + b, c, cap);
    Associate(a, b, c);
  }

  // ----- the bounded buffer

  /** `struct butaca_sbuf` over a caller-owned array. */
  class Sbuf {
    const p: array<char>
    var n: nat

    ghost predicate Valid()
      reads this
    {
      n <= p.Length
    }

    function Contents(): string
      requires Valid()
      reads this, p
    {
      p[..n]
    }

    constructor (p: array<char>)
      ensures this.p == p && Valid() && Contents() == ""
    {
      this.p := p;
      n := 0;
    }

    method Ch(c: char)
      requires Valid()
      modifies this, p
      ensures Valid() && Contents() == Cut(old(Contents()) + [c], p.Length)
    {
      if n < p.Length {
        p[n] := c;
        n := n + 1;
      }
    }

    method Str(s: string)
      requires Valid()
      modifies this, p
      ensures Valid() && Contents() == Cut(old(Contents()) + s, p.Length)
    {
      ghost var was := Contents();
      for i := 0 to |s|
        invariant Valid() && Contents() == Cut(was + s[..i], p.Length)
      {
        Ch(s[i]);
        CutAppend(was + s[..i], [s[i]], p.Length);
        assert was + s[..i] + [s[i]] == was + s[..i + 1];
      }
      assert s[..|s|] == s;
    }

    /** The digits, least significant first in a scratch buffer, then out backwards. */
    method Digits(v: Ulong, base: nat)
      requires Valid() && (base == 10 || base == 16)
      modifies this, p
      ensures Valid() && Contents() == Cut(old(Contents()) + Numeral(v, base), p.Length)
    {
      var t := new char[24](_ => '0');
      var i := FillDigits(t, v, base);
      Flush(t, i);
    }

    method Flush(t: array<char>, k: nat)
      requires Valid() && t != p && k <= t.Length
      modifies this, p
      ensures Valid() && Contents() == Cut(old(Contents()) + Backwards(t[..k]), p.Length)
    {
      ghost var was, done := Contents(), "";
      assert was + done == was && done + Backwards(t[..k]) == Backwards(t[..k]);
      for i := k downto 0
        invariant Valid() && Backwards(t[..k]) == done + Backwards(t[..i])
        invariant Contents() == Cut(was + done, p.Length)
      {
        BackwardsNext(t[..i + 1], done);
        assert t[..i + 1][..i] == t[..i];
        done := Append(t[i], was, done);
      }
      assert done + Backwards(t[..0]) == done;
    }

    /** One more character behind `was + done`. */
    method Append(c: char, ghost was: string, ghost done: string) returns (ghost more: string)
      requires Valid() && Contents() == Cut(was + done, p.Length)
      modifies this, p
      ensures Valid() && more == done + [c] && Contents() == Cut(was + more, p.Length)
    {
      CutAppend3(was, done, [c], p.Length);
      Ch(c);
      more := done + [c];
    }

    method HexNumber(v: Ulong)
      requires Valid()
      modifies this, p
      ensures Valid() && Contents() == Cut(old(Contents()) + Hex(v), p.Length)
    {
      ghost var was := Contents();
      Str("0x");
      Digits(v, 16);
      CutAppend3(was, "0x", HexDigits(v), p.Length);
    }
  }

  function Numeral(v: nat, base: nat): string
    requires base == 10 || base == 16
  {
    if base == 10 then Dec(v) else HexDigits(v)
  }

  /** Ten digits are enough for any `unsigned long`, in either base. */
  lemma {:induction false} NumeralShort(v: nat, base: nat, k: nat)
    requires (base == 10 || base == 16) && k >= 1 && v < Pow10(k)
    ensures |Numeral(v, base)| <= k
    decreases k
  {
    if v >= base {
      assert k > 1;
      NumeralShort(v / base, base, k - 1);
    }
  }

  method FillDigits(t: array<char>, v: Ulong, base: nat) returns (i: nat)
    requires t.Length == 24 && (base == 10 || base == 16)
    modifies t
    ensures 1 <= i <= 24 && Numeral(v, base) == Backwards(t[..i])
  {
    Pow10Ten();
    NumeralShort(v, base, 10);
    i := 0;
    var rest: nat := v;
    while rest >= base
      invariant i + |Numeral(rest, base)| == |Numeral(v, base)|
      invariant i <= 24 && Numeral(v, base) == Numeral(rest, base) + Backwards(t[..i])
    {
      NumeralStep(rest, base, Backwards(t[..i]));
      i := PushDigit(t, i, rest % base);
      rest := rest / base;
    }
    NumeralStep(rest, base, Backwards(t[..i]));
    i := PushDigit(t, i, rest);
  }

  lemma NumeralStep(v: nat, base: nat, tail: string)
    requires base == 10 || base == 16
    ensures v >= base ==> Numeral(v, base) + tail == Numeral(v / base, base) + ([DigitChar(v % base)] + tail)
    ensures v >= base ==> |Numeral(v, base)| == |Numeral(v / base, base)| + 1
    ensures v < base ==> Numeral(v, base) + tail == [DigitChar(v)] + tail && |Numeral(v, base)| == 1
  {
  }

  method PushDigit(t: array<char>, i: nat, d: nat) returns (next: nat)
    requires i < t.Length && d < 16
    modifies t
    ensures next == i + 1 && Backwards(t[..next]) == [DigitChar(d)] + Backwards(old(t[..i]))
  {
    ghost var before := t[..i];
    t[i] := DigitChar(d);
    assert t[..i + 1] == before + [t[i]];
    BackwardsAppend(before, t[i]);
    next := i + 1;
  }

  function Backwards(s: string): string
  {
    if s == "" then "" else [s[|s| - 1]] + Backwards(s[..|s| - 1])
  }

  lemma BackwardsNext(s: string, done: string)
    requires s != ""
    ensures done + Backwards(s) == done + [s[|s| - 1]] + Backwards(s[..|s| - 1])
  {
    Associate(done, [s[|s| - 1]], Backwards(s[..|s| - 1]));
  }

  lemma BackwardsAppend(s: string, c: char)
    ensures Backwards(s + [c]) == [c] + Backwards(s)
  {
  }

  /** One ` name=0x...` field of the record. */
  method Field(b: Sbuf, name: string, v: Ulong, ghost text: string)
    requires b.Valid() && b.Contents() == Cut(text, b.p.Length)
    modifies b, b.p
    ensures b.Valid() && b.Contents() == Cut(text + name + Hex(v), b.p.Length)
  {
    b.Str(name);
    CutAppend(text, name, b.p.Length);
    b.HexNumber(v);
    CutAppend(text + name, Hex(v), b.p.Length);
  }

  /** The record up to the three addresses. */
  method Header(b: Sbuf, sig: Ulong, name: string)
    requires b.Valid() && b.Contents() == ""
    modifies b, b.p
    ensures b.Valid() && b.Contents() == Cut("\n*** SIGNAL " + Dec(sig) + " (" + name, b.p.Length)
  {
    ghost var cap, text := b.p.Length, "\n*** SIGNAL ";
    b.Str("\n*** SIGNAL ");
    assert "" + text == text;
    b.Digits(sig, 10);
    CutAppend(text, Dec(sig), cap);
    text := text + Dec(sig);
    b.Str(" (");
    CutAppend(text, " (", cap);
    text := text + " (";
    b.Str(name);
    CutAppend(text, name, cap);
  }

  /** `butaca_fmt_signal`: the record line, cut at the capacity of the caller's buffer. */
  method FmtSignal(out: array<char>, sig: Ulong, name: string, addr: Ulong, pc: Ulong, lr: Ulong) returns (n: nat)
    modifies out
    ensures n <= out.Length && out[..n] == Cut(SignalLine(sig, name, addr, pc, lr), out.Length)
  {
    var b := new Sbuf(out);
    Header(b, sig, name);
    ghost var text := "\n*** SIGNAL " + Dec(sig) + " (" + name;
    Field(b, ") addr=", addr, text);
    text := text + ") addr=" + Hex(addr);
    Field(b, " pc=", pc, text);
    text := text + " pc=" + Hex(pc);
    Field(b, " lr=", lr, text);
    text := text + " lr=" + Hex(lr);
    b.Ch('\n');
    CutAppend(text, "\n", out.Length);
    n := b.n;
  }
}
