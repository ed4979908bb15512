/**
  The record of a fault, read back: the addresses behind `addr=`, `pc=` and `lr=` are those
  that were recorded.
 */
module CrashSignal {
  import opened CrashFormat
  import opened CrashLine
  import opened Numbers
  import opened Slices

  /** The number that the hex digits from position i on denote. */
  function NumberAt(line: string, i: nat): Ulong
    requires i <= |line|
  {
    HexValue(line[i..RunEnd(line, i)])
  }

  /** A printed number is read back wherever it stands. */
  lemma PrintedNumber(line: string, i: nat, v: Ulong, after: string)
    requires Occurs(line, i, HexDigits(v) + after) && i + |HexDigits(v) + after| == |line|
    requires after == "" || !IsHex(after[0])
    ensures NumberAt(line, i) == v
  {
    var digits := HexDigits(v);
    Split(line, i, digits, after);
    HexDigitsAreHex(v);
    assert forall j :: i <= j < i + |digits| ==> line[j] == digits[j - i];
    assert after != "" ==> line[i + |digits|] == after[0];
    RunEndSkips(line, i, i + |digits|);
    HexRoundTrip(v);
  }

  /** The record up to the first number, and what stands between and behind the numbers. */
  function Opening(sig: nat, name: string): string
  {
    "\n*** SIGNAL " + Dec(sig) + " (" + name + ") addr"
  }

  lemma SignalParts(sig: nat, name: string, addr: Ulong, pc: Ulong, lr: Ulong)
    ensures SignalLine(sig, name, addr, pc, lr) ==
            Opening(sig, name) + ("=0x" + (HexDigits(addr) + (" pc" + ("=0x" + (HexDigits(pc) +
            (" lr" + ("=0x" + (HexDigits(lr) + "\n"))))))))
  {
    var start := "\n*** SIGNAL " + Dec(sig) + " (" + name;
    assert start + ") addr=" == (start + ") addr") + "=";
    Tagged(start + ") addr", HexDigits(addr));
    assert (start + ") addr=" + Hex(addr)) + " pc=" == ((start + ") addr=" + Hex(addr)) + " pc") + "=";
    Tagged((start + ") addr=" + Hex(addr)) + " pc", HexDigits(pc));
    var middle := (start + ") addr=" + Hex(addr)) + " pc=" + Hex(pc);
    assert middle + " lr=" == (middle + " lr") + "=";
    Tagged(middle + " lr", HexDigits(lr));
    Nested(Opening(sig, name), HexDigits(addr), HexDigits(pc), HexDigits(lr));
  }

  lemma Tagged(front: string, digits: string)
    ensures front + "=" + ("0x" + digits) == front + ("=0x" + digits)
  {
  }

  lemma Nested(o: string, a: string, p: string, l: string)
    ensures ((o + ("=0x" + a)) + " pc" + ("=0x" + p)) + " lr" + ("=0x" + l) + "\n" ==
            o + ("=0x" + (a + (" pc" + ("=0x" + (p + (" lr" + ("=0x" + (l + "\n"))))))))
  {
  }

  predicate NoEquals(s: string)
  {
    forall i :: 0 <= i < |s| ==> s[i] != '='
  }

  lemma {:induction false} DecPlain(n: nat)
    ensures NoEquals(Dec(n))
  {
    if n >= 10 {
      DecPlain(n / 10);
    }
  }

  lemma OpeningPlain(sig: nat, name: string)
    requires NoEquals(name)
    ensures NoEquals(Opening(sig, name))
  {
    DecPlain(sig);
  }

  lemma HexPlain(v: nat)
    ensures NoEquals(HexDigits(v))
  {
    HexDigitsAreHex(v);
  }

  /** The number behind an equals sign. */
  lemma FieldNumber(before: string, v: Ulong, after: string)
    requires after != "" && !IsHex(after[0])
    ensures var line := before + ("=0x" + (HexDigits(v) + after));
            |before| + 3 <= |line| && NumberAt(line, |before| + 3) == v
  {
    var line := before + ("=0x" + (HexDigits(v) + after));
    assert line[|before| + 3..] == HexDigits(v) + after;
    PrintedNumber(line, |before| + 3, v, after);
  }

  /** An equals sign behind a plain text is the first one, or lies behind the number. */
  lemma FirstEquals(before: string, digits: string, after: string, i: nat)
    requires NoEquals(before) && NoEquals(digits)
    requires var line := before + ("=0x" + (digits + after)); i < |line| && line[i] == '='
    ensures i == |before| || i >= |before| + 3 + |digits|
  {
    var line := before + ("=0x" + (digits + after));
    assert forall j :: 0 <= j < |before| ==> line[j] == before[j];
    assert forall j :: 0 <= j < |digits| ==> line[|before| + 3 + j] == digits[j];
  }

  lemma FirstField(before: string, v: Ulong, after: string, i: nat)
    requires NoEquals(before) && after != "" && !IsHex(after[0])
    requires var line := before + ("=0x" + (HexDigits(v) + after)); i < |line| && line[i] == '='
    ensures var line := before + ("=0x" + (HexDigits(v) + after));
            if i == |before| then i + 3 <= |line| && NumberAt(line, i + 3) == v else i >= |before| + 3 + |HexDigits(v)|
  {
    HexPlain(v);
    FirstEquals(before, HexDigits(v), after, i);
    FieldNumber(before, v, after);
  }

  /** The same with something in front of it all. */
  lemma NextField(front: string, before: string, v: Ulong, after: string, i: nat)
    requires NoEquals(before) && after != "" && !IsHex(after[0])
    requires var line := front + (before + ("=0x" + (HexDigits(v) + after))); |front| <= i < |line| && line[i] == '='
    ensures var line := front + (before + ("=0x" + (HexDigits(v) + after)));
            if i == |front| + |before| then i + 3 <= |line| && NumberAt(line, i + 3) == v
            else i >= |front| + |before| + 3 + |HexDigits(v)|
  {
    var rest := "=0x" + (HexDigits(v) + after);
    assert (front + (before + rest))[i] == (before + rest)[i - |front|];
    HexPlain(v);
    FirstEquals(before, HexDigits(v), after, i - |front|);
    FieldNumber(front + before, v, after);
    Associate(front, before, rest);
  }

  /** The equals sign at i stands behind the tag, with the printed number behind it. */
  predicate Reads(line: string, i: nat, tag: string, v: Ulong)
  {
    |tag| <= i && i + 3 <= |line| && line[i - |tag|..i + 3] == tag + "=0x" && NumberAt(line, i + 3) == v
  }

  /** A tag just before the equals sign. */
  lemma TagRead(front: string, tag: string, rest: string, v: Ulong)
    requires var line := front + (tag + ("=0x" + rest)); NumberAt(line, |front| + |tag| + 3) == v
    ensures Reads(front + (tag + ("=0x" + rest)), |front| + |tag|, tag, v)
  {
    var line := front + (tag + ("=0x" + rest));
    assert line[|front|..|front| + |tag| + 3] == tag + "=0x";
  }

  lemma Regroup(a: string, b: string, c: string, d: string)
    ensures a + (b + (c + d)) == (a + (b + c)) + d
  {
  }

  /** The first field of a text whose opening has no equals sign, with the tag split off its end. */
  lemma OpeningField(start: string, tag: string, v: Ulong, after: string, i: nat)
    requires NoEquals(start + tag) && after != "" && !IsHex(after[0])
    requires var line := start + tag + ("=0x" + (HexDigits(v) + after)); i < |line| && line[i] == '='
    ensures var line := start + tag + ("=0x" + (HexDigits(v) + after));
            if i == |start + tag| then Reads(line, i, tag, v) else i >= |start + tag| + 3 + |HexDigits(v)|
  {
    FirstField(start + tag, v, after, i);
    var rest := HexDigits(v) + after;
    assert start + tag + ("=0x" + rest) == start + (tag + ("=0x" + rest));
    if i == |start + tag| {
      TagRead(start, tag, rest, v);
    }
  }

  /** A later field: a gap of one space, the tag and the number. */
  lemma LaterField(front: string, tag: string, v: Ulong, after: string, i: nat)
    requires NoEquals(tag) && after != "" && !IsHex(after[0])
    requires var line := front + ((" " + tag) + ("=0x" + (HexDigits(v) + after)));
             |front| <= i < |line| && line[i] == '='
    ensures var line := front + ((" " + tag) + ("=0x" + (HexDigits(v) + after)));
            if i == |front| + 1 + |tag| then Reads(line, i, tag, v)
            else i >= |front| + 1 + |tag| + 3 + |HexDigits(v)|
  {
    NextField(front, " " + tag, v, after, i);
    var rest := HexDigits(v) + after;
    assert front + ((" " + tag) + ("=0x" + rest)) == (front + " ") + (tag + ("=0x" + rest));
    if i == |front| + 1 + |tag| {
      TagRead(front + " ", tag, rest, v);
    }
  }

  /**
    Whatever stands behind an equals sign of the record is one of the three addresses, and the
    tag before it says which. The signal's name has no equals sign.
   */
  lemma SignalReads(sig: nat, name: string, addr: Ulong, pc: Ulong, lr: Ulong, i: nat)
    requires NoEquals(name)
    requires i < |SignalLine(sig, name, addr, pc, lr)| && SignalLine(sig, name, addr, pc, lr)[i] == '='
    ensures var line := SignalLine(sig, name, addr, pc, lr);
            Reads(line, i, "addr", addr) || Reads(line, i, "pc", pc) || Reads(line, i, "lr", lr)
  {
    var line, start := SignalLine(sig, name, addr, pc, lr), "\n*** SIGNAL " + Dec(sig) + " (" + name + ") ";
    var last := (" " + "lr") + ("=0x" + (HexDigits(lr) + "\n"));
    var rest := (" " + "pc") + ("=0x" + (HexDigits(pc) + last));
    SignalGrouped(sig, name, addr, pc, lr);
    OpeningPlain(sig, name);
    assert start + "addr" == Opening(sig, name);
    OpeningField(start, "addr", addr, rest, i);
    if i != |start + "addr"| {
      var front := start + "addr" + ("=0x" + HexDigits(addr));
      Regroup(start + "addr", "=0x", HexDigits(addr), rest);
      LaterField(front, "pc", pc, last, i);
      if i != |front| + 3 {
        var front2 := front + ((" " + "pc") + ("=0x" + HexDigits(pc)));
        Regrouped(front, " " + "pc", HexDigits(pc), last);
        LaterField(front2, "lr", lr, "\n", i);
        Ending(front2, HexDigits(lr), i);
      }
    }
  }

  /** And all three are there. */
  lemma SignalHas(sig: nat, name: string, addr: Ulong, pc: Ulong, lr: Ulong)
    requires NoEquals(name)
    ensures var line := SignalLine(sig, name, addr, pc, lr);
            && (exists i: nat :: Reads(line, i, "addr", addr)) && (exists i: nat :: Reads(line, i, "pc", pc))
            && exists i: nat :: Reads(line, i, "lr", lr)
  {
    var start := "\n*** SIGNAL " + Dec(sig) + " (" + name + ") ";
    var last := (" " + "lr") + ("=0x" + (HexDigits(lr) + "\n"));
    var rest := (" " + "pc") + ("=0x" + (HexDigits(pc) + last));
    SignalGrouped(sig, name, addr, pc, lr);
    OpeningPlain(sig, name);
    assert start + "addr" == Opening(sig, name);
    var front := start + "addr" + ("=0x" + HexDigits(addr));
    var front2 := front + ((" " + "pc") + ("=0x" + HexDigits(pc)));
    FieldThere(start, "addr", addr, rest);
    Regroup(start + "addr", "=0x", HexDigits(addr), rest);
    LaterThere(front, "pc", pc, last);
    Regrouped(front, " " + "pc", HexDigits(pc), last);
    LaterThere(front2, "lr", lr, "\n");
  }

  lemma FieldThere(start: string, tag: string, v: Ulong, after: string)
    requires after != "" && !IsHex(after[0])
    ensures Reads(start + tag + ("=0x" + (HexDigits(v) + after)), |start| + |tag|, tag, v)
  {
    var rest := HexDigits(v) + after;
    FieldNumber(start + tag, v, after);
    assert start + tag + ("=0x" + rest) == start + (tag + ("=0x" + rest));
    TagRead(start, tag, rest, v);
  }

  lemma LaterThere(front: string, tag: string, v: Ulong, after: string)
    requires after != "" && !IsHex(after[0])
    ensures Reads(front + ((" " + tag) + ("=0x" + (HexDigits(v) + after))), |front| + 1 + |tag|, tag, v)
  {
    var rest := "=0x" + (HexDigits(v) + after);
    FieldThere(front + " ", tag, v, after);
    assert front + ((" " + tag) + rest) == (front + " ") + tag + rest;
  }

  lemma Regrouped(front: string, tag: string, digits: string, rest: string)
    ensures front + (tag + ("=0x" + (digits + rest))) == (front + (tag + ("=0x" + digits))) + rest
  {
  }

  lemma Ending(front: string, digits: string, i: nat)
    requires var line := front + ((" " + "lr") + ("=0x" + (digits + "\n"))); i < |line| && line[i] == '='
    ensures i < |front| + 6 + |digits|
  {
  }

  lemma SignalGrouped(sig: nat, name: string, addr: Ulong, pc: Ulong, lr: Ulong)
    ensures var last := (" " + "lr") + ("=0x" + (HexDigits(lr) + "\n"));
            var rest := (" " + "pc") + ("=0x" + (HexDigits(pc) + last));
            SignalLine(sig, name, addr, pc, lr) ==
            "\n*** SIGNAL " + Dec(sig) + " (" + name + ") " + "addr" + ("=0x" + (HexDigits(addr) + rest))
  {
    var start := "\n*** SIGNAL " + Dec(sig) + " (" + name;
    assert " " + "lr" == " lr" && " " + "pc" == " pc";
    assert start + ") addr=" == start + ") " + "addr" + "=";
    SignalParts(sig, name, addr, pc, lr);
    assert Opening(sig, name) == start + ") " + "addr";
  }
}
