/**
  The classifier of maps lines in src/crashfmt.h: what a line says, and on which lines the
  verdict depends on older text behind them in the buffer.
 */
module CrashLine {
  import opened CrashFormat
  import opened Numbers

  // ----- what a line says

  function DigitValue(c: char): (d: int)
    ensures d < 16
  {
    if '0' <= c <= '9' then c as int - '0' as int
    else if 'a' <= c <= 'f' then c as int - 'a' as int + 10
    else if 'A' <= c <= 'F' then c as int - 'A' as int + 10
    else -1
  }

  predicate IsHex(c: char)
  {
    DigitValue(c) >= 0
  }

  /** Where the run of hex digits starting at `i` ends. */
  function RunEnd(s: string, i: nat): (e: nat)
    requires i <= |s|
    ensures i <= e <= |s| && (forall j :: i <= j < e ==> IsHex(s[j])) && (e < |s| ==> !IsHex(s[e]))
    decreases |s| - i
  {
    if i < |s| && IsHex(s[i]) then RunEnd(s, i + 1) else i
  }

  /** The value of a run of hex digits, in `unsigned long` arithmetic. */
  function HexValue(s: string): Ulong
  {
    if s == "" then 0 else (HexValue(s[..|s| - 1]) * 16 + DigitValue(s[|s| - 1])) % ULONG
  }

  datatype Range = NoRange | Range(lo: Ulong, hi: Ulong)

  /** The `lo-hi` pair at the start of a maps line. */
  function RangeOf(line: string): Range
  {
    var e := RunEnd(line, 0);
    if e == 0 || e == |line| || line[e] != '-' then NoRange
    else
      var f := RunEnd(line, e + 1);
      if f == e + 1 then NoRange else Range(HexValue(line[..e]), HexValue(line[e + 1..f]))
  }

  /**
    Both runs of the range, as far as they are followed, end inside the line: exactly the
    lines that are read alike whatever lies behind them (`RangeStable`).
   */
  predicate StopsInside(line: string)
  {
    var e := RunEnd(line, 0);
    e < |line| && (e == 0 || line[e] != '-' || RunEnd(line, e + 1) < |line|)
  }

  const TOKEN := "/butaca"

  predicate TokenAt(line: string, i: nat)
  {
    i + 7 <= |line| && line[i..i + 7] == TOKEN &&
    (i + 7 == |line| || line[i + 7] == '\n' || line[i + 7] == ' ' || line[i + 7] == '\0')
  }

  /** The line names our executable: the token is followed by a space, a newline, NUL or the end. */
  ghost predicate NamesBinary(line: string)
  {
    exists i :: 0 <= i < |line| && TokenAt(line, i)
  }

  ghost predicate SaysAt(line: string, pc: Ulong, lr: Ulong)
  {
    var r := RangeOf(line);
    r.Range? && (r.lo <= pc < r.hi || r.lo <= lr < r.hi)
  }

  ghost predicate SaysBin(line: string)
  {
    RangeOf(line).Range? && NamesBinary(line)
  }

  /** The digits of either case, and nothing else. */
  lemma DigitsMean(c: char)
    ensures IsHex(c) <==> c in "0123456789abcdefABCDEF"
    ensures forall d: nat :: d < 16 ==> DigitValue("0123456789abcdef"[d]) == d == DigitValue("0123456789ABCDEF"[d])
  {
  }

  lemma TokenStands(before: string, after: string)
    requires after == "" || after[0] in "\n \0"
    ensures TokenAt(before + "/butaca" + after, |before|)
  {
    var line := before + "/butaca" + after;
    assert line[|before|..|before| + 7] == "/butaca";
    assert after != "" ==> line[|before| + 7] == after[0];
  }

  /** The line has our name between the two texts, and a newline, a space, a NUL or nothing behind it. */
  predicate NamedBetween(line: string, before: string, after: string)
  {
    line == before + "/butaca" + after && (after == "" || after[0] in "\n \0")
  }

  lemma NamesExactly(line: string)
    ensures NamesBinary(line) <==> exists before: string, after: string :: NamedBetween(line, before, after)
  {
    if NamesBinary(line) {
      var i :| 0 <= i < |line| && TokenAt(line, i);
      assert line == line[..i] + line[i..i + 7] + line[i + 7..];
      assert NamedBetween(line, line[..i], line[i + 7..]);
    }
    if before: string, after: string :| NamedBetween(line, before, after) {
      TokenStands(before, after);
      assert TokenAt(line, |before|);
    }
  }

  // ----- hex text and hex values

  lemma HexSnoc(s: string, c: char)
    ensures HexValue(s + [c]) == (HexValue(s) * 16 + DigitValue(c)) % ULONG
  {
  }

  /** Parsing undoes formatting: the value of the digits of `v` is `v`. */
  lemma {:induction false} HexRoundTrip(v: Ulong)
    ensures HexValue(HexDigits(v)) == v
  {
    if v >= 16 {
      HexRoundTrip(v / 16);
      OneMoreDigit(HexDigits(v / 16), v);
    } else {
      OneMoreDigit("", v);
      assert "" + [DigitChar(v)] == [DigitChar(v)];
    }
  }

  lemma OneMoreDigit(s: string, v: Ulong)
    requires HexValue(s) == v / 16
    ensures HexValue(s + [DigitChar(v % 16)]) == v
  {
  }

  lemma {:induction false} HexDigitsAreHex(v: nat)
    ensures forall i :: 0 <= i < |HexDigits(v)| ==> IsHex(HexDigits(v)[i])
  {
    if v >= 16 {
      HexDigitsAreHex(v / 16);
    }
  }

  lemma {:induction false} RunEndSkips(s: string, i: nat, e: nat)
    requires i <= e <= |s| && (forall j :: i <= j < e ==> IsHex(s[j])) && (e < |s| ==> !IsHex(s[e]))
    ensures RunEnd(s, i) == e
    decreases e - i
  {
  }

  /** A line that starts with two runs of hex digits and a dash is read as their values. */
  lemma RangeRead(line: string, e: nat, f: nat)
    requires 0 < e && e + 1 < f <= |line|
    requires (forall j :: 0 <= j < e ==> IsHex(line[j])) && line[e] == '-'
    requires (forall j :: e + 1 <= j < f ==> IsHex(line[j])) && (f < |line| ==> !IsHex(line[f]))
    ensures RangeOf(line) == Range(HexValue(line[..e]), HexValue(line[e + 1..f]))
  {
  }

  predicate AllHex(s: string)
  {
    forall i :: 0 <= i < |s| ==> IsHex(s[i])
  }

  /** Two runs of hex digits with a dash between them are read as their values. */
  lemma RangeText(a: string, b: string, rest: string)
    requires a != "" && b != "" && AllHex(a) && AllHex(b) && (rest == "" || !IsHex(rest[0]))
    ensures RangeOf(a + ("-" + (b + rest))) == Range(HexValue(a), HexValue(b))
    ensures rest != "" ==> StopsInside(a + ("-" + (b + rest)))
  {
    var tail := b + rest;
    var line := a + ("-" + tail);
    ShiftedTail(a, tail);
    assert tail[..|b|] == b && forall j :: 0 <= j < |b| ==> tail[j] == b[j];
    ReadShifted(line, |a|, |b|, tail);
  }

  /** A line that starts with a formatted pair of addresses is read back as that pair. */
  lemma RangeRoundTrip(lo: Ulong, hi: Ulong, rest: string)
    requires rest == "" || !IsHex(rest[0])
    ensures RangeOf(HexDigits(lo) + ("-" + (HexDigits(hi) + rest))) == Range(lo, hi)
  {
    HexDigitsAreHex(lo);
    HexDigitsAreHex(hi);
    HexRoundTrip(lo);
    HexRoundTrip(hi);
    RangeText(HexDigits(lo), HexDigits(hi), rest);
  }

  lemma ReadShifted(line: string, n: nat, m: nat, tail: string)
    requires 0 < n && 0 < m <= |tail| && |line| == n + 1 + |tail| && line[n] == '-' && line[n + 1..] == tail
    requires (forall j :: 0 <= j < n ==> IsHex(line[..n][j])) && (forall j :: 0 <= j < m ==> IsHex(tail[j]))
    requires m < |tail| ==> !IsHex(tail[m])
    ensures RangeOf(line) == Range(HexValue(line[..n]), HexValue(tail[..m]))
    ensures m < |tail| ==> StopsInside(line)
  {
    assert forall j :: n + 1 <= j < n + 1 + m ==> line[j] == tail[j - n - 1];
    assert m < |tail| ==> line[n + 1 + m] == tail[m];
    assert line[n + 1..n + 1 + m] == tail[..m];
    assert forall j :: 0 <= j < n ==> line[j] == line[..n][j];
    RangeRead(line, n, n + 1 + m);
    RunEndSkips(line, 0, n);
    RunEndSkips(line, n + 1, n + 1 + m);
  }

  lemma ShiftedTail(a: string, tail: string)
    ensures var line := a + ("-" + tail);
            |line| == |a| + 1 + |tail| && line[..|a|] == a && line[|a|] == '-' && line[|a| + 1..] == tail
  {
  }

  // ----- older text behind the line

  /** A run that ends inside the line ends there with anything behind the line. */
  lemma RunWithin(buf: string, n: nat, i: nat)
    requires i <= n <= |buf| && RunEnd(buf[..n], i) < n
    ensures RunEnd(buf, i) == RunEnd(buf[..n], i)
  {
    RunEndSkips(buf, i, RunEnd(buf[..n], i));
  }

  /** A line that stops the parser is read as its own range. */
  lemma StopsWithin(buf: string, n: nat)
    requires n <= |buf| && StopsInside(buf[..n])
    ensures StopsInside(buf) && RangeOf(buf) == RangeOf(buf[..n])
  {
    var line := buf[..n];
    var e := RunEnd(line, 0);
    RunWithin(buf, n, 0);
    assert line[..e] == buf[..e];
    if e > 0 && line[e] == '-' {
      RunWithin(buf, n, e + 1);
      assert line[e + 1..RunEnd(line, e + 1)] == buf[e + 1..RunEnd(line, e + 1)];
    }
  }

  const HIGHEST: Ulong := 0xffff_ffff

  lemma TextOf(v: Ulong) returns (t: string)
    ensures t != "" && AllHex(t) && HexValue(t) == v
  {
    HexDigitsAreHex(v);
    HexRoundTrip(v);
    t := HexDigits(v);
  }

  /** A line of hex digits alone is no range; behind it a range can begin. */
  lemma DigitsReadOn(line: string) returns (behind: string, lo: Ulong)
    requires RunEnd(line, 0) == |line|
    ensures StopsInside(line + behind) && lo < HIGHEST && RangeOf(line + behind) == Range(lo, HIGHEST)
    ensures RangeOf(line) == NoRange
  {
    var hi := TextOf(HIGHEST);
    behind := "0" + ("-" + (hi + " "));
    ZeroBehind(line);
    assert line + behind == (line + "0") + ("-" + (hi + " "));
    RangeText(line + "0", hi, " ");
    lo := HexValue(line + "0");
  }

  lemma ZeroBehind(line: string)
    requires RunEnd(line, 0) == |line|
    ensures AllHex(line + "0") && HexValue(line + "0") < HIGHEST
  {
    assert "0" == ['0'];
    AllHexZero(line);
    ZeroValue(line);
  }

  lemma AllHexZero(line: string)
    requires RunEnd(line, 0) == |line|
    ensures AllHex(line + ['0'])
  {
    assert forall i :: 0 <= i < |line| ==> (line + ['0'])[i] == line[i];
  }

  lemma ZeroValue(line: string)
    ensures HexValue(line + ['0']) < HIGHEST
  {
    HexSnoc(line, '0');
    assert DigitValue('0') == 0;
    TimesSixteen(HexValue(line));
  }

  /** A multiple of sixteen is not the highest address. */
  lemma TimesSixteen(v: nat)
    ensures v * 16 % ULONG < HIGHEST
  {
    var q, n := v * 16 % ULONG, v * 16 / ULONG;
    assert v * 16 == n * ULONG + q;
    assert q == 16 * (v - n * 0x1000_0000);
  }

  /** The second run ends with the line. */
  predicate EndsInRun(line: string)
  {
    var e := RunEnd(line, 0);
    0 < e < |line| && line[e] == '-' && RunEnd(line, e + 1) == |line|
  }

  /** A line that ends in its second run: digits behind it give the range any upper end asked for. */
  lemma RunReadsOn(line: string, top: bool) returns (behind: string)
    requires EndsInRun(line)
    ensures StopsInside(line + behind)
    ensures RangeOf(line + behind) == Range(HexValue(line[..RunEnd(line, 0)]), if top then HIGHEST else 0)
  {
    var e := RunEnd(line, 0);
    var a, b, more := line[..e], line[e + 1..], Repeat(if top then 'f' else '0', 8);
    behind := more + " ";
    assert line + behind == a + ("-" + ((b + more) + " "));
    RangeText(a, b + more, " ");
    EightDigits(b, top);
  }

  function Repeat(c: char, n: nat): (t: string)
    ensures |t| == n && forall i :: 0 <= i < n ==> t[i] == c
  {
    if n == 0 then "" else Repeat(c, n - 1) + [c]
  }

  function Shift(n: nat): (k: nat)
    ensures k >= 1
  {
    if n == 0 then 1 else 16 * Shift(n - 1)
  }

  /** Eight hex digits push out whatever was read before them. */
  lemma EightDigits(s: string, top: bool)
    ensures HexValue(s + Repeat(if top then 'f' else '0', 8)) == if top then HIGHEST else 0
  {
    var q := Shifted(s, top, 8);
    ShiftEight();
    assert q == 0;
  }

  lemma ShiftEight()
    ensures Shift(8) == ULONG
  {
    assert Shift(2) == 256 && Shift(4) == 65536;
    assert Shift(6) == 16 * (16 * Shift(4)) && Shift(8) == 16 * (16 * Shift(6));
  }

  lemma {:induction false} ShiftProduct(n: nat, m: nat)
    ensures Shift(n) * Shift(m) == Shift(n + m)
  {
    if n > 0 {
      ShiftProduct(n - 1, m);
      assert 16 * Shift(n - 1) * Shift(m) == 16 * (Shift(n - 1) * Shift(m));
    }
  }

  function Low(k: nat, top: bool): nat
    requires k >= 1
  {
    if top then k - 1 else 0
  }

  /** After n digits the value is known modulo 16^n. */
  lemma {:induction false} Shifted(s: string, top: bool, n: nat) returns (q: nat)
    requires n <= 8
    ensures HexValue(s + Repeat(if top then 'f' else '0', n)) == Shift(n) * q + Low(Shift(n), top)
  {
    var c := if top then 'f' else '0';
    if n == 0 {
      assert s + "" == s;
      q := HexValue(s);
    } else {
      var r := Shifted(s, top, n - 1);
      RepeatSnoc(s, c, n);
      q := ShiftedStep(HexValue(s + Repeat(c, n - 1)), r, n, top);
    }
  }

  lemma RepeatSnoc(s: string, c: char, n: nat)
    requires n > 0
    ensures HexValue(s + Repeat(c, n)) == (HexValue(s + Repeat(c, n - 1)) * 16 + DigitValue(c)) % ULONG
  {
    assert s + (Repeat(c, n - 1) + [c]) == (s + Repeat(c, n - 1)) + [c];
    HexSnoc(s + Repeat(c, n - 1), c);
  }

  lemma ShiftedStep(v: nat, r: nat, n: nat, top: bool) returns (q: nat)
    requires 1 <= n <= 8 && v == Shift(n - 1) * r + Low(Shift(n - 1), top)
    ensures (v * 16 + if top then 15 else 0) % ULONG == Shift(n) * q + Low(Shift(n), top)
  {
    ShiftProduct(n, 8 - n);
    ShiftEight();
    q := NextDigit(Shift(n - 1), r, top, v, Shift(8 - n));
  }

  lemma NextDigit(k: nat, r: nat, top: bool, v: nat, c: nat) returns (q: nat)
    requires k >= 1 && v == k * r + Low(k, top) && 16 * k * c == ULONG && c >= 1
    ensures (v * 16 + if top then 15 else 0) % ULONG == 16 * k * q + Low(16 * k, top)
  {
    q := r % c;
    assert v * 16 + (if top then 15 else 0) == 16 * (k * r) + Low(16 * k, top);
    assert 16 * (k * r) == 16 * k * r;
    WholeTurns(16 * k, c, r, Low(16 * k, top));
  }

  lemma WholeTurns(k: nat, c: nat, r: nat, low: nat)
    requires k * c == ULONG && c >= 1 && low < k
    ensures (k * r + low) % ULONG == k * (r % c) + low
  {
    var a, b := r / c, r % c;
    assert r == c * a + b;
    assert k * (c * a + b) == k * c * a + k * b;
    assert k * b <= k * (c - 1) by {
      Scale(b, c - 1, k);
    }
    assert k * (c - 1) == k * c - k;
    Turned(a, k * b + low);
  }

  lemma Scale(x: nat, y: nat, k: nat)
    requires x <= y
    ensures k * x <= k * y
  {
  }

  lemma Turned(a: nat, y: nat)
    requires y < ULONG
    ensures (ULONG * a + y) % ULONG == y
  {
  }

  /**
    The exact lines that are read alike whatever lies behind them: the parser has to stop
    inside, and this can be seen from the line alone.
   */
  lemma RangeStable(line: string)
    ensures StopsInside(line) <==> forall behind: string :: RangeOf(line + behind) == RangeOf(line)
  {
    if StopsInside(line) {
      forall behind: string ensures RangeOf(line + behind) == RangeOf(line) {
        assert (line + behind)[..|line|] == line;
        StopsWithin(line + behind, |line|);
      }
    } else if RunEnd(line, 0) == |line| {
      var behind, lo := DigitsReadOn(line);
      assert RangeOf(line + behind) != RangeOf(line);
    } else {
      var low := RunReadsOn(line, false);
      var high := RunReadsOn(line, true);
      assert RangeOf(line + low) != RangeOf(line + high);
    }
  }

  // ----- the classifier on the line buffer

  /** What the classifier makes of a buffer whose first n characters are the line. */
  datatype Kind = Kind(at: bool, bin: bool)

  ghost function KindIn(buf: string, n: nat, pc: Ulong, lr: Ulong): Kind
    requires n <= |buf|
  {
    Kind(SaysAt(buf, pc, lr), RangeOf(buf).Range? && NamesBinary(buf[..n]))
  }

  ghost function KindOf(line: string, pc: Ulong, lr: Ulong): Kind
  {
    Kind(SaysAt(line, pc, lr), SaysBin(line))
  }

  lemma KindWithin(buf: string, n: nat, pc: Ulong, lr: Ulong)
    requires n <= |buf| && StopsInside(buf[..n])
    ensures StopsInside(buf) && KindIn(buf, n, pc, lr) == KindOf(buf[..n], pc, lr)
  {
    StopsWithin(buf, n);
  }

  /** The range starts at the highest address, so no upper end makes it hold anything. */
  predicate NeverHolds(line: string)
  {
    EndsInRun(line) && HexValue(line[..RunEnd(line, 0)]) == HIGHEST
  }

  /** The line's own verdict, whatever lies behind it in a buffer on which the parser stops. */
  ghost predicate KindStable(line: string)
  {
    forall behind: string, pc: Ulong, lr: Ulong ::
      StopsInside(line + behind) ==> KindIn(line + behind, |line|, pc, lr) == KindOf(line, pc, lr)
  }

  lemma NamesNothing(line: string)
    requires EndsInRun(line)
    ensures !NamesBinary(line)
  {
    assert forall i :: 0 <= i < |line| ==> IsHex(line[i]) || line[i] == '-';
    if NamesBinary(line) {
      var i :| 0 <= i < |line| && TokenAt(line, i);
      TokenStarts(line, i);
    }
  }

  lemma TokenStarts(line: string, i: nat)
    requires TokenAt(line, i)
    ensures line[i] == '/'
  {
    assert line[i] == line[i..i + 7][0];
  }

  lemma NeverHoldsStable(line: string, behind: string, pc: Ulong, lr: Ulong)
    requires NeverHolds(line)
    ensures KindIn(line + behind, |line|, pc, lr) == KindOf(line, pc, lr) == Kind(false, false)
  {
    var whole, e := line + behind, RunEnd(line, 0);
    NamesNothing(line);
    assert whole[..|line|] == line;
    assert whole[e] == line[e] && forall j :: 0 <= j < e ==> whole[j] == line[j];
    RunEndSkips(whole, 0, e);
    assert whole[..e] == line[..e];
  }

  /** A line that ends in a run that matters: some text behind it changes its verdict. */
  lemma KindUnstable(line: string) returns (behind: string, pc: Ulong)
    requires !StopsInside(line) && !NeverHolds(line)
    ensures StopsInside(line + behind) && SaysAt(line + behind, pc, pc) != SaysAt(line, pc, pc)
  {
    if RunEnd(line, 0) == |line| {
      behind, pc := DigitsReadOn(line);
    } else {
      pc := HexValue(line[..RunEnd(line, 0)]);
      behind := RunReadsOn(line, !SaysAt(line, pc, pc));
    }
  }

  /**
    The exact lines whose verdict is their own whatever the buffer holds behind them: the
    parser stops inside, or the range starts at the highest address.
   */
  lemma KindStableExactly(line: string)
    ensures KindStable(line) <==> StopsInside(line) || NeverHolds(line)
  {
    if StopsInside(line) {
      forall behind: string, pc: Ulong, lr: Ulong
        ensures KindIn(line + behind, |line|, pc, lr) == KindOf(line, pc, lr)
      {
        assert (line + behind)[..|line|] == line;
        KindWithin(line + behind, |line|, pc, lr);
      }
    } else if NeverHolds(line) {
      forall behind: string, pc: Ulong, lr: Ulong
        ensures KindIn(line + behind, |line|, pc, lr) == KindOf(line, pc, lr)
      {
        NeverHoldsStable(line, behind, pc, lr);
      }
    } else {
      var behind, pc := KindUnstable(line);
      assert KindIn(line + behind, |line|, pc, pc) != KindOf(line, pc, pc);
    }
  }

  /**
    `butaca_parse_hex`: no length bound, so it runs to the first other character, wherever
    in the buffer that is. `end` 0 stands for the null pointer.
   */
  method ParseHex(buf: array<char>, i: nat) returns (end: nat, value: Ulong)
    requires i <= buf.Length && RunEnd(buf[..], i) < buf.Length
    ensures var e := RunEnd(buf[..], i);
            value == HexValue(buf[i..e]) && end == if e > i then e else 0
  {
    var s := i;
    value := 0;
    while IsHex(buf[s])
      invariant i <= s <= RunEnd(buf[..], i) < buf.Length
      invariant value == HexValue(buf[i..s])
      decreases buf.Length - s
    {
      assert buf[i..s + 1][..s - i] == buf[i..s];
      value := (value * 16 + DigitValue(buf[s])) % ULONG;
      s := s + 1;
    }
    RunEndSkips(buf[..], i, s);
    end := if s > i then s else 0;
  }

  method NamesOurBinary(buf: array<char>, n: nat) returns (yes: bool)
    requires n <= buf.Length
    ensures yes <==> NamesBinary(buf[..n])
  {
    if n < 7 {
      return false;
    }
    var i := 0;
    while i + 7 <= n
      invariant i <= n && forall k :: 0 <= k < i ==> !TokenAt(buf[..n], k)
    {
      var j := 0;
      while j < 7 && buf[i + j] == TOKEN[j]
        invariant j <= 7 && forall k :: 0 <= k < j ==> buf[i + k] == TOKEN[k]
      {
        j := j + 1;
      }
      if j == 7 {
        assert buf[..n][i..i + 7] == TOKEN;
        var c := if i + 7 < n then buf[i + 7] else '\n';
        if c == '\n' || c == ' ' || c == '\0' {
          assert TokenAt(buf[..n], i);
          return true;
        }
      } else {
        assert buf[..n][i..i + 7][j] == buf[i + j];
      }
      i := i + 1;
    }
    return false;
  }

  /** The range at the start of the buffer, as far as the parser reads it. */
  method ParseRange(buf: array<char>) returns (r: Range)
    requires StopsInside(buf[..])
    ensures r == RangeOf(buf[..])
  {
    RangeParts(buf[..]);
    var p, lo := ParseHex(buf, 0);
    if p == 0 || buf[p] != '-' {
      return NoRange;
    }
    var q, hi := ParseHex(buf, p + 1);
    return if q == 0 then NoRange else Range(lo, hi);
  }

  lemma RangeParts(line: string)
    ensures var e := RunEnd(line, 0);
            e < |line| ==>
              if e == 0 || line[e] != '-' || RunEnd(line, e + 1) == e + 1 then RangeOf(line) == NoRange
              else RangeOf(line) == Range(HexValue(line[..e]), HexValue(line[e + 1..RunEnd(line, e + 1)]))
  {
  }

  /** The text starts with a printed pair of addresses and goes on with something else. */
  ghost predicate Prints(text: string, lo: Ulong, hi: Ulong)
  {
    exists rest: string :: rest != "" && !IsHex(rest[0]) && text == HexDigits(lo) + ("-" + (HexDigits(hi) + rest))
  }

  lemma PrintedRange(text: string, lo: Ulong, hi: Ulong)
    requires Prints(text, lo, hi)
    ensures RangeOf(text) == Range(lo, hi) && StopsInside(text)
  {
    var rest: string :| rest != "" && !IsHex(rest[0]) && text == HexDigits(lo) + ("-" + (HexDigits(hi) + rest));
    RangeRoundTrip(lo, hi, rest);
    HexDigitsAreHex(lo);
    HexDigitsAreHex(hi);
    RangeText(HexDigits(lo), HexDigits(hi), rest);
  }

  /**
    `butaca_map_line_kind`, for any buffer in which the parser stops: the range is read from
    the buffer, the name from the line.
   */
  method MapLineKind(buf: array<char>, n: nat, pc: Ulong, lr: Ulong) returns (at: bool, bin: bool)
    requires n <= buf.Length && StopsInside(buf[..])
    ensures Kind(at, bin) == KindIn(buf[..], n, pc, lr)
    ensures forall lo: Ulong, hi: Ulong :: Prints(buf[..], lo, hi) ==> (at <==> lo <= pc < hi || lo <= lr < hi)
    ensures forall lo: Ulong, hi: Ulong :: Prints(buf[..], lo, hi) ==> (bin <==> NamesBinary(buf[..n]))
  {
    forall lo: Ulong, hi: Ulong | Prints(buf[..], lo, hi) ensures RangeOf(buf[..]) == Range(lo, hi) {
      PrintedRange(buf[..], lo, hi);
    }
    var r := ParseRange(buf);
    if r.NoRange? {
      return false, false;
    }
    at := (pc >= r.lo && pc < r.hi) || (lr >= r.lo && lr < r.hi);
    bin := NamesOurBinary(buf, n);
    assert buf[..][..n] == buf[..n];
  }

  /**
    The tail "1-2" over the older text "1-2f ": the classifier reports the line for an
    address that the line's own range does not hold.
   */
  method StaleTail() returns (at: bool)
    ensures at && !SaysAt("1-2", 0x10, 0x10)
  {
    var buf := new char[5];
    buf[0], buf[1], buf[2], buf[3], buf[4] := '1', '-', '2', 'f', ' ';
    assert buf[..] == "1" + ("-" + ("2f" + " "));
    ShortRanges();
    var bin;
    at, bin := MapLineKind(buf, 3, 0x10, 0x10);
  }

  lemma ShortRanges()
    ensures RangeOf("1" + ("-" + ("2f" + " "))) == Range(1, 0x2f) && StopsInside("1" + ("-" + ("2f" + " ")))
    ensures RangeOf("1-2") == Range(1, 2)
  {
    HexOne('1');
    HexOne('2');
    HexSnoc("2", 'f');
    assert "2" + ['f'] == "2f";
    RangeText("1", "2f", " ");
    RangeText("1", "2", "");
    assert "1" + ("-" + ("2" + "")) == "1-2";
  }

  lemma HexOne(c: char)
    requires IsHex(c)
    ensures HexValue([c]) == DigitValue(c)
  {
    HexSnoc("", c);
    assert "" + [c] == [c];
  }
}
