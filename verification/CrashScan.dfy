/**
  The maps-file scanner of the crash tracer (src/crashtrace.c): a chunked reader with one
  bounded line buffer, proved to report what splitting the whole file into lines would report.
 */
module CrashScan {
  import opened CrashFormat
  import opened CrashLine
  import opened Slices

  const LINE_CAP := 512
  const CHUNK_CAP := 4096

  /** The records one line gives rise to. */
  ghost function Report(line: string, pc: Ulong, lr: Ulong): seq<string>
  {
    (if SaysAt(line, pc, lr) then ["at: " + line] else []) + (if SaysBin(line) then ["bin: " + line] else [])
  }

  // ----- splitting a file into lines

  /** The first line of a non-empty file, newline kept. */
  function FirstLine(s: string): (n: nat)
    requires s != ""
    ensures 1 <= n <= |s| && (forall i :: 0 <= i < n - 1 ==> s[i] != '\n') && (s[n - 1] == '\n' || n == |s|)
  {
    if s[0] == '\n' || |s| == 1 then 1 else 1 + FirstLine(s[1..])
  }

  /** All lines of a file in order, an unterminated tail included. */
  function Lines(s: string): seq<string>
  {
    if s == "" then [] else [s[..FirstLine(s)]] + Lines(s[FirstLine(s)..])
  }

  /** The records of a whole file: every line, cut to the line buffer, in order. */
  ghost function Records(lines: seq<string>, pc: Ulong, lr: Ulong): seq<string>
  {
    if lines == [] then [] else Report(Cut(lines[0], LINE_CAP), pc, lr) + Records(lines[1..], pc, lr)
  }

  /** Every line, as far as the buffer holds it, stops the parser. */
  ghost predicate WellShaped(lines: seq<string>)
  {
    forall i :: 0 <= i < |lines| ==> StopsInside(Cut(lines[i], LINE_CAP))
  }

  // ----- the reader

  /** The results of successive `read` calls on the file. */
  datatype Read = Bytes(data: string) | Interrupted | Failed | Eof

  /** What the reads deliver: everything up to the end or the first real error. */
  function Delivered(calls: seq<Read>): string
  {
    if calls == [] then ""
    else match calls[0]
      case Bytes(data) => data + Delivered(calls[1..])
      case Interrupted => Delivered(calls[1..])
      case Failed => ""
      case Eof => ""
  }

  /** A buffer of the reader is never empty and never larger than the chunk. */
  ghost predicate Chunked(calls: seq<Read>)
  {
    forall i :: 0 <= i < |calls| && calls[i].Bytes? ==> 1 <= |calls[i].data| <= CHUNK_CAP
  }

  lemma DeliveredNext(calls: seq<Read>, i: nat, seen: string)
    requires i < |calls| && !calls[i].Failed? && !calls[i].Eof?
    ensures calls[i].Bytes? ==> seen + Delivered(calls[i..]) == seen + calls[i].data + Delivered(calls[i + 1..])
    ensures !calls[i].Bytes? ==> Delivered(calls[i..]) == Delivered(calls[i + 1..])
  {
  }

  lemma DeliveredAll(calls: seq<Read>, seen: string)
    requires calls == [] || calls[0].Failed? || calls[0].Eof?
    ensures seen + Delivered(calls) == seen
  {
  }

  /** The unfinished line at the end of a text. */
  ghost function Partial(s: string): string
  {
    if s == "" || s[|s| - 1] == '\n' then "" else Partial(s[..|s| - 1]) + [s[|s| - 1]]
  }

  /** The records of the lines finished so far. */
  ghost function Done(s: string, pc: Ulong, lr: Ulong): seq<string>
  {
    if s == "" then []
    else
      var t := s[..|s| - 1];
      if s[|s| - 1] == '\n' then Done(t, pc, lr) + Report(Cut(Partial(t) + "\n", LINE_CAP), pc, lr) else Done(t, pc, lr)
  }

  /** The text up to and including its last newline. */
  ghost function Finished(s: string): (h: string)
    ensures s == h + Partial(s) && (h == "" || h[|h| - 1] == '\n')
    ensures forall i :: 0 <= i < |Partial(s)| ==> Partial(s)[i] != '\n'
  {
    if s == "" || s[|s| - 1] == '\n' then s else Finished(s[..|s| - 1])
  }

  lemma {:induction false} LinesAppend(a: string, b: string)
    requires a == "" || a[|a| - 1] == '\n'
    ensures Lines(a + b) == Lines(a) + Lines(b)
    decreases |a|
  {
    if a == "" {
      assert a + b == b;
    } else {
      var n := FirstLine(a);
      FirstLineAppend(a, b);
      SplitAppend(a, b, n);
      LinesAppend(a[n..], b);
      Associate([a[..n]], Lines(a[n..]), Lines(b));
    }
  }

  lemma SplitAppend(a: string, b: string, n: nat)
    requires n <= |a|
    ensures (a + b)[..n] == a[..n] && (a + b)[n..] == a[n..] + b
    ensures a[n..] == "" || a[n..][|a[n..]| - 1] == a[|a| - 1]
  {
  }

  lemma FirstLineAppend(a: string, b: string)
    requires a != "" && a[|a| - 1] == '\n'
    ensures FirstLine(a + b) == FirstLine(a)
  {
    var n, m := FirstLine(a), FirstLine(a + b);
    assert (a + b)[n - 1] == a[n - 1] == '\n';
    assert forall i :: 0 <= i < n - 1 ==> (a + b)[i] == a[i];
  }

  lemma OneLine(line: string)
    requires line != "" && forall i :: 0 <= i < |line| - 1 ==> line[i] != '\n'
    ensures Lines(line) == [line]
  {
    assert FirstLine(line) == |line|;
    assert line[..|line|] == line && line[|line|..] == "";
  }

  lemma {:induction false} RecordsAppend(a: seq<string>, b: seq<string>, pc: Ulong, lr: Ulong)
    ensures Records(a + b, pc, lr) == Records(a, pc, lr) + Records(b, pc, lr)
  {
    if a == [] {
      assert a + b == b;
    } else {
      assert (a + b)[1..] == a[1..] + b;
      RecordsAppend(a[1..], b, pc, lr);
    }
  }

  lemma RecordsOne(line: string, pc: Ulong, lr: Ulong)
    ensures Records([line], pc, lr) == Report(Cut(line, LINE_CAP), pc, lr)
  {
  }

  /** The lines of a text are those of its finished part and its unfinished line. */
  lemma LinesOf(s: string)
    ensures Lines(s) == Lines(Finished(s)) + (if Partial(s) == "" then [] else [Partial(s)])
  {
    LinesAppend(Finished(s), Partial(s));
    if Partial(s) != "" {
      OneLine(Partial(s));
    }
  }

  lemma FinishedNewline(t: string)
    ensures Lines(t + "\n") == Lines(Finished(t)) + [Partial(t) + "\n"]
  {
    assert t + "\n" == Finished(t) + (Partial(t) + "\n");
    LinesAppend(Finished(t), Partial(t) + "\n");
    OneLine(Partial(t) + "\n");
  }

  /** The running reports are the records of the finished lines. */
  lemma {:induction false} DoneIsRecords(s: string, pc: Ulong, lr: Ulong)
    ensures Done(s, pc, lr) == Records(Lines(Finished(s)), pc, lr)
  {
    if s != "" {
      var t := s[..|s| - 1];
      DoneIsRecords(t, pc, lr);
      if s[|s| - 1] == '\n' {
        assert s == t + "\n";
        DoneLine(t, pc, lr);
      }
    }
  }

  lemma DoneLine(t: string, pc: Ulong, lr: Ulong)
    requires Done(t, pc, lr) == Records(Lines(Finished(t)), pc, lr)
    ensures Done(t + "\n", pc, lr) == Records(Lines(t + "\n"), pc, lr)
  {
    FinishedNewline(t);
    PartialSnoc(t, '\n');
    RecordsAppend(Lines(Finished(t)), [Partial(t) + "\n"], pc, lr);
    RecordsOne(Partial(t) + "\n", pc, lr);
  }

  /** What was reported on the way plus the tail is what the whole file gives. */
  lemma WholeFile(s: string, pc: Ulong, lr: Ulong)
    ensures Records(Lines(s), pc, lr) == Done(s, pc, lr) +
            (if Partial(s) == "" then [] else Report(Cut(Partial(s), LINE_CAP), pc, lr))
  {
    LinesOf(s);
    DoneIsRecords(s, pc, lr);
    if Partial(s) != "" {
      RecordsAppend(Lines(Finished(s)), [Partial(s)], pc, lr);
      RecordsOne(Partial(s), pc, lr);
    }
  }

  /** A line completed on the way is a line of the whole file, so it is well shaped. */
  lemma CompletedShaped(whole: string, seen: string)
    requires WellShaped(Lines(whole)) && seen + "\n" <= whole
    ensures StopsInside(Cut(Partial(seen) + "\n", LINE_CAP))
  {
    FinishedNewline(seen);
    var rest := whole[|seen| + 1..];
    assert whole == (seen + "\n") + rest;
    LinesAppend(seen + "\n", rest);
    var k := |Lines(Finished(seen))|;
    assert Lines(whole)[k] == Partial(seen) + "\n";
  }

  lemma PrefixShaped(whole: string, seen: string, c: char)
    requires WellShaped(Lines(whole)) && seen + [c] <= whole
    ensures c == '\n' ==> StopsInside(Cut(Partial(seen) + "\n", LINE_CAP))
  {
    if c == '\n' {
      CompletedShaped(whole, seen);
    }
  }

  lemma TailShaped(whole: string)
    requires WellShaped(Lines(whole)) && Partial(whole) != ""
    ensures StopsInside(Cut(Partial(whole), LINE_CAP))
  {
    LinesOf(whole);
    assert Lines(whole)[|Lines(Finished(whole))|] == Partial(whole);
  }

  lemma PartialSnoc(seen: string, c: char)
    ensures Partial(seen + [c]) == if c == '\n' then "" else Partial(seen) + [c]
    ensures forall pc, lr :: Done(seen + [c], pc, lr) ==
              Done(seen, pc, lr) + (if c == '\n' then Report(Cut(Partial(seen) + "\n", LINE_CAP), pc, lr) else [])
  {
  }

  // ----- the reader, byte by byte

  /** The line buffer, how much of it is held, and the records so far. */
  datatype Scan = Scan(buf: string, held: nat, out: seq<string>)

  /** The records for the first n characters of a buffer, whatever the classifier reads behind them. */
  ghost function ReportIn(buf: string, n: nat, pc: Ulong, lr: Ulong): seq<string>
    requires n <= |buf|
  {
    var kind := KindIn(buf, n, pc, lr);
    (if kind.at then ["at: " + buf[..n]] else []) + (if kind.bin then ["bin: " + buf[..n]] else [])
  }

  /** A byte is held if it fits. */
  function Held(sc: Scan, c: char): (t: Scan)
    requires sc.held <= |sc.buf|
    ensures t.held <= |t.buf| == |sc.buf|
  {
    if sc.held < |sc.buf| then Scan(sc.buf[sc.held := c], sc.held + 1, sc.out) else sc
  }

  /** One byte: a newline reports the line and starts the next one. */
  ghost function Next(sc: Scan, c: char, pc: Ulong, lr: Ulong): (t: Scan)
    requires sc.held <= |sc.buf|
    ensures t.held <= |t.buf| == |sc.buf|
  {
    var t := Held(sc, c);
    if c == '\n' then Scan(t.buf, 0, t.out + ReportIn(t.buf, t.held, pc, lr)) else t
  }

  ghost function Fed(sc: Scan, text: string, pc: Ulong, lr: Ulong): (t: Scan)
    requires sc.held <= |sc.buf|
    ensures t.held <= |t.buf| == |sc.buf|
  {
    if text == "" then sc else Next(Fed(sc, text[..|text| - 1], pc, lr), text[|text| - 1], pc, lr)
  }

  /** At every newline the parser stops in the buffer. */
  ghost predicate Stops(sc: Scan, text: string, pc: Ulong, lr: Ulong)
    requires sc.held <= |sc.buf|
  {
    text != "" ==>
      var before := text[..|text| - 1];
      Stops(sc, before, pc, lr) &&
      (text[|text| - 1] == '\n' ==> StopsInside(Held(Fed(sc, before, pc, lr), '\n').buf))
  }

  lemma FedSnoc(sc: Scan, text: string, c: char, pc: Ulong, lr: Ulong)
    requires sc.held <= |sc.buf|
    ensures Fed(sc, text + [c], pc, lr) == Next(Fed(sc, text, pc, lr), c, pc, lr)
    ensures Stops(sc, text + [c], pc, lr) <==>
            Stops(sc, text, pc, lr) && (c == '\n' ==> StopsInside(Held(Fed(sc, text, pc, lr), c).buf))
  {
    assert (text + [c])[..|text|] == text;
  }

  lemma {:induction false} FedAppend(sc: Scan, a: string, b: string, pc: Ulong, lr: Ulong)
    requires sc.held <= |sc.buf|
    ensures Fed(sc, a + b, pc, lr) == Fed(Fed(sc, a, pc, lr), b, pc, lr)
    ensures Stops(sc, a + b, pc, lr) <==> Stops(sc, a, pc, lr) && Stops(Fed(sc, a, pc, lr), b, pc, lr)
    decreases |b|
  {
    if b == "" {
      assert a + b == a;
    } else {
      assert (a + b)[..|a + b| - 1] == a + b[..|b| - 1];
      FedAppend(sc, a, b[..|b| - 1], pc, lr);
    }
  }

  lemma FedBytes(sc: Scan, seen: string, data: string, rest: string, pc: Ulong, lr: Ulong)
    requires sc.held <= |sc.buf| && Stops(sc, seen + data + rest, pc, lr)
    ensures Stops(Fed(sc, seen, pc, lr), data, pc, lr)
    ensures Fed(sc, seen + data, pc, lr) == Fed(Fed(sc, seen, pc, lr), data, pc, lr)
  {
    FedAppend(sc, seen + data, rest, pc, lr);
    FedAppend(sc, seen, data, pc, lr);
  }

  lemma FedNext(sc: Scan, data: string, i: nat, pc: Ulong, lr: Ulong)
    requires sc.held <= |sc.buf| && i < |data| && Stops(sc, data, pc, lr)
    ensures var t := Fed(sc, data[..i], pc, lr);
            && Fed(sc, data[..i + 1], pc, lr) == Next(t, data[i], pc, lr)
            && (data[i] == '\n' ==> StopsInside(Held(t, data[i]).buf))
  {
    assert data[..i + 1] + data[i + 1..] == data && data[..i + 1][..i] == data[..i];
    FedAppend(sc, data[..i + 1], data[i + 1..], pc, lr);
  }

  /** The records at the end of the file; what is still held is the last line. */
  ghost function Ended(sc: Scan, pc: Ulong, lr: Ulong): seq<string>
    requires sc.held <= |sc.buf|
  {
    sc.out + if sc.held > 0 then ReportIn(sc.buf, sc.held, pc, lr) else []
  }

  /** A scan of a whole text from a buffer with old contents. */
  ghost function Scanned(buf: string, text: string, pc: Ulong, lr: Ulong): seq<string>
  {
    Ended(Fed(Scan(buf, 0, []), text, pc, lr), pc, lr)
  }

  /** The parser stays in the buffer throughout the scan. */
  ghost predicate ScanStops(buf: string, text: string, pc: Ulong, lr: Ulong)
  {
    var t := Fed(Scan(buf, 0, []), text, pc, lr);
    Stops(Scan(buf, 0, []), text, pc, lr) && (t.held > 0 ==> StopsInside(t.buf))
  }

  // ----- what the bytes held amount to

  /** The buffer holds as much of the unfinished line as fits. */
  ghost predicate InLine(sc: Scan, seen: string)
  {
    |sc.buf| == LINE_CAP && sc.held <= LINE_CAP && sc.buf[..sc.held] == Cut(Partial(seen), LINE_CAP)
  }

  lemma HeldInLine(sc: Scan, seen: string, c: char)
    requires InLine(sc, seen)
    ensures var t := Held(sc, c); t.buf[..t.held] == Cut(Partial(seen) + [c], LINE_CAP)
  {
  }

  /** One more byte of a text whose lines stop the parser. */
  lemma NextInLine(sc: Scan, seen: string, c: char, pc: Ulong, lr: Ulong)
    requires InLine(sc, seen)
    requires c == '\n' ==> StopsInside(Cut(Partial(seen) + "\n", LINE_CAP))
    ensures InLine(Next(sc, c, pc, lr), seen + [c])
    ensures Next(sc, c, pc, lr).out ==
            sc.out + if c == '\n' then Report(Cut(Partial(seen) + "\n", LINE_CAP), pc, lr) else []
    ensures c == '\n' ==> StopsInside(Held(sc, c).buf)
  {
    var t := Held(sc, c);
    HeldInLine(sc, seen, c);
    PartialSnoc(seen, c);
    if c == '\n' {
      KindWithin(t.buf, t.held, pc, lr);
    }
  }

  /** The scan of a text has reported its finished lines and holds the unfinished one. */
  ghost predicate Tracks(buf: string, seen: string, pc: Ulong, lr: Ulong)
  {
    var start := Scan(buf, 0, []);
    var t := Fed(start, seen, pc, lr);
    Stops(start, seen, pc, lr) && InLine(t, seen) && t.out == Done(seen, pc, lr)
  }

  lemma TracksNext(buf: string, seen: string, c: char, pc: Ulong, lr: Ulong)
    requires Tracks(buf, seen, pc, lr)
    requires c == '\n' ==> StopsInside(Cut(Partial(seen) + "\n", LINE_CAP))
    ensures Tracks(buf, seen + [c], pc, lr)
  {
    var t := Fed(Scan(buf, 0, []), seen, pc, lr);
    NextInLine(t, seen, c, pc, lr);
    PartialSnoc(seen, c);
    FedSnoc(Scan(buf, 0, []), seen, c, pc, lr);
  }

  /** Whatever the buffer held before, the records are those of the lines finished so far. */
  lemma {:induction false} FedLines(buf: string, whole: string, seen: string, pc: Ulong, lr: Ulong)
    requires |buf| == LINE_CAP && WellShaped(Lines(whole)) && seen <= whole
    ensures Tracks(buf, seen, pc, lr)
  {
    if seen != "" {
      var before, c := seen[..|seen| - 1], seen[|seen| - 1];
      FedLines(buf, whole, before, pc, lr);
      assert before + [c] == seen;
      PrefixShaped(whole, before, c);
      TracksNext(buf, before, c, pc, lr);
    }
  }

  /**
    For a file whose lines stop the parser, the parser stays in the buffer and the records are
    those of splitting the file into lines: they do not depend on what the buffer held before.
   */
  lemma ScannedLines(buf: string, text: string, pc: Ulong, lr: Ulong)
    requires |buf| == LINE_CAP && WellShaped(Lines(text))
    ensures ScanStops(buf, text, pc, lr) && Scanned(buf, text, pc, lr) == Records(Lines(text), pc, lr)
  {
    var t := Fed(Scan(buf, 0, []), text, pc, lr);
    FedLines(buf, text, text, pc, lr);
    WholeFile(text, pc, lr);
    if t.held > 0 {
      TailShaped(text);
      KindWithin(t.buf, t.held, pc, lr);
    }
  }

  lemma ScannedShaped(buf: string, text: string, pc: Ulong, lr: Ulong)
    requires |buf| == LINE_CAP
    ensures WellShaped(Lines(text)) ==> Scanned(buf, text, pc, lr) == Records(Lines(text), pc, lr)
  {
    if WellShaped(Lines(text)) {
      ScannedLines(buf, text, pc, lr);
    }
  }

  // ----- writing a record out

  /** The result of one `write` call. */
  datatype Write = Wrote(n: nat) | WriteInterrupted | WriteFailed

  /** The bytes the first writes have taken. */
  function Taken(calls: seq<Write>): nat
  {
    if calls == [] then 0
    else Taken(calls[..|calls| - 1]) + if calls[|calls| - 1].Wrote? then calls[|calls| - 1].n else 0
  }

  /** A call after which `s_write` gives up. */
  predicate GivesUp(w: Write)
  {
    w.WriteFailed? || w == Wrote(0)
  }

  /** No write takes more than it is offered. */
  ghost predicate Plausible(text: string, calls: seq<Write>)
  {
    forall k :: 0 <= k <= |calls| ==> Taken(calls[..k]) <= |text|
  }

  lemma TakenNext(text: string, calls: seq<Write>, k: nat)
    requires Plausible(text, calls) && k < |calls|
    ensures Taken(calls[..k + 1]) == Taken(calls[..k]) + if calls[k].Wrote? then calls[k].n else 0
    ensures Taken(calls[..k]) <= Taken(calls[..k + 1]) <= |text|
    ensures text[..Taken(calls[..k])] + text[Taken(calls[..k])..Taken(calls[..k + 1])] == text[..Taken(calls[..k + 1])]
  {
    assert calls[..k + 1][..k] == calls[..k];
  }

  /**
    `s_write` against a list of write results: the file receives exactly what the calls took,
    in order; writing goes on through interruptions and short writes, and stops only when the
    text is out, a call gave up, or there was no further call.
   */
  method WriteOut(text: string, calls: seq<Write>) returns (file: string, used: nat)
    requires Plausible(text, calls)
    ensures used <= |calls| && Taken(calls[..used]) <= |text| && file == text[..Taken(calls[..used])]
    ensures file == text || used == |calls| || GivesUp(calls[used])
    ensures forall i :: 0 <= i < used ==> !GivesUp(calls[i]) && Taken(calls[..i]) < |text|
    ensures used < |calls| && file != text ==> calls[used] == WriteFailed || calls[used] == Wrote(0)
    ensures forall i :: 0 <= i < used ==> calls[i].WriteInterrupted? || (calls[i].Wrote? && calls[i].n > 0)
    ensures used == 0 ==> file == ""
  {
    file, used := "", 0;
    while |file| < |text| && used < |calls|
      invariant used <= |calls| && Taken(calls[..used]) <= |text| && file == text[..Taken(calls[..used])]
      invariant forall i :: 0 <= i < used ==> !GivesUp(calls[i]) && Taken(calls[..i]) < |text|
    {
      TakenNext(text, calls, used);
      match calls[used] {
        case Wrote(n) =>
          if n == 0 {
            return;
          }
          file := file + text[|file|..|file| + n];
        case WriteInterrupted =>
        case WriteFailed =>
          return;
      }
      used := used + 1;
    }
  }

  class Tracer {
    /** The static line buffer; it keeps old text between lines and between calls. */
    const mapsLine: array<char>
    const recBuf: array<char>
    /** Everything handed to the two log files, in order. */
    var emitted: seq<string>

    ghost predicate Valid()
    {
      mapsLine.Length == LINE_CAP && recBuf.Length == 1024 && mapsLine != recBuf
    }

    constructor ()
      ensures Valid() && emitted == [] && fresh(mapsLine) && fresh(recBuf)
    {
      mapsLine := new char[LINE_CAP](_ => '\0');
      recBuf := new char[1024](_ => '\0');
      emitted := [];
    }

    /** Format one record into the record buffer and write it out. */
    method Emit(tag: string, n: nat)
      requires Valid() && n <= LINE_CAP && |tag| <= 8
      modifies this, recBuf
      ensures emitted == old(emitted) + [tag + mapsLine[..n]]
    {
      var b := new Sbuf(recBuf);
      b.Str(tag);
      for i := 0 to n
        invariant b.Valid() && b.p == recBuf && b.Contents() == tag + mapsLine[..i]
        invariant emitted == old(emitted)
      {
        b.Ch(mapsLine[i]);
        assert tag + mapsLine[..i] + [mapsLine[i]] == tag + mapsLine[..i + 1];
      }
      emitted := emitted + [b.Contents()];
    }

    /** The fields and the caller's `held` are a state of the scan, whose records follow `base`. */
    ghost predicate Is(sc: Scan, held: nat, base: seq<string>)
      reads this, mapsLine
    {
      mapsLine[..] == sc.buf && held == sc.held <= |sc.buf| && emitted == base + sc.out
    }

    /** `emit_map_line` */
    method EmitMapLine(n: nat, pc: Ulong, lr: Ulong)
      requires Valid() && n <= LINE_CAP && StopsInside(mapsLine[..])
      modifies this, recBuf
      ensures emitted == old(emitted) + ReportIn(mapsLine[..], n, pc, lr)
      ensures StopsInside(mapsLine[..n]) ==> emitted == old(emitted) + Report(mapsLine[..n], pc, lr)
    {
      assert mapsLine[..][..n] == mapsLine[..n];
      if StopsInside(mapsLine[..n]) {
        KindWithin(mapsLine[..], n, pc, lr);
      }
      var at, bin := MapLineKind(mapsLine, n, pc, lr);
      if at {
        Emit("at: ", n);
      }
      if bin {
        Emit("bin: ", n);
      }
    }

    /** The byte loop body: hold the byte if it fits, report the line at its newline. */
    method Feed(c: char, held: nat, pc: Ulong, lr: Ulong, ghost sc: Scan, ghost base: seq<string>) returns (next: nat)
      requires Valid() && Is(sc, held, base)
      requires c == '\n' ==> StopsInside(Held(sc, c).buf)
      modifies this, mapsLine, recBuf
      ensures Is(Next(sc, c, pc, lr), next, base)
    {
      next := held;
      if held < LINE_CAP {
        mapsLine[held] := c;
        next := held + 1;
      }
      assert mapsLine[..] == Held(sc, c).buf;
      if c == '\n' {
        EmitMapLine(next, pc, lr);
        next := 0;
      }
    }

    /** One chunk, byte by byte. */
    method FeedChunk(data: string, held: nat, pc: Ulong, lr: Ulong, ghost sc: Scan, ghost base: seq<string>)
      returns (next: nat)
      requires Valid() && Is(sc, held, base) && Stops(sc, data, pc, lr)
      modifies this, mapsLine, recBuf
      ensures Is(Fed(sc, data, pc, lr), next, base)
    {
      next := held;
      for i := 0 to |data|
        invariant Is(Fed(sc, data[..i], pc, lr), next, base)
      {
        FedNext(sc, data, i, pc, lr);
        next := Feed(data[i], next, pc, lr, Fed(sc, data[..i], pc, lr), base);
      }
      assert data[..|data|] == data;
    }

    /**
      `butaca_crash_scan_maps_file`. Where the chunks end and what was interrupted is
      irrelevant; for a file whose lines stop the parser, so is what the line buffer held.
     */
    method ScanMapsFile(calls: seq<Read>, pc: Ulong, lr: Ulong)
      requires Valid() && Chunked(calls) && ScanStops(mapsLine[..], Delivered(calls), pc, lr)
      modifies this, mapsLine, recBuf
      ensures emitted == old(emitted) + Scanned(old(mapsLine[..]), Delivered(calls), pc, lr)
      ensures mapsLine[..] == Fed(Scan(old(mapsLine[..]), 0, []), Delivered(calls), pc, lr).buf
      ensures WellShaped(Lines(Delivered(calls))) ==>
                emitted == old(emitted) + Records(Lines(Delivered(calls)), pc, lr)
    {
      var held: nat, i := 0, 0;
      ghost var start, seen, whole := Scan(mapsLine[..], 0, []), "", Delivered(calls);
      assert calls[0..] == calls && seen + whole == whole;
      while i < |calls| && !calls[i].Failed? && !calls[i].Eof?
        invariant i <= |calls| && whole == seen + Delivered(calls[i..])
        invariant Is(Fed(start, seen, pc, lr), held, old(emitted))
      {
        DeliveredNext(calls, i, seen);
        if calls[i].Bytes? {
          held := FeedBytes(calls[i].data, held, pc, lr, start, seen, Delivered(calls[i + 1..]), old(emitted));
          seen := seen + calls[i].data;
        }
        i := i + 1;
      }
      DeliveredAll(calls[i..], seen);
      assert seen == whole;
      Finish(held, pc, lr, Fed(start, whole, pc, lr), old(emitted));
      ScannedShaped(start.buf, whole, pc, lr);
    }

    /** The chunk that follows what was seen, in front of what is still to come. */
    method FeedBytes(data: string, held: nat, pc: Ulong, lr: Ulong, ghost start: Scan, ghost seen: string,
                     ghost rest: string, ghost base: seq<string>)
      returns (next: nat)
      requires Valid() && start.held <= |start.buf| && Is(Fed(start, seen, pc, lr), held, base)
      requires Stops(start, seen + data + rest, pc, lr)
      modifies this, mapsLine, recBuf
      ensures Is(Fed(start, seen + data, pc, lr), next, base)
    {
      FedBytes(start, seen, data, rest, pc, lr);
      next := FeedChunk(data, held, pc, lr, Fed(start, seen, pc, lr), base);
    }

    /** A last line without a newline. */
    method Finish(held: nat, pc: Ulong, lr: Ulong, ghost sc: Scan, ghost base: seq<string>)
      requires Valid() && Is(sc, held, base) && (held > 0 ==> StopsInside(sc.buf))
      modifies this, recBuf
      ensures emitted == base + Ended(sc, pc, lr)
    {
      ghost var tail := if held > 0 then ReportIn(sc.buf, held, pc, lr) else [];
      Associate(base, sc.out, tail);
      assert emitted + [] == emitted;
      if held > 0 {
        EmitMapLine(held, pc, lr);
      }
    }
  }
}
