/**
  What the bounds of the line buffer cost the maps scanner: exactly which lines longer than
  the buffer are reported otherwise than they stand in the file, and scans in which they are.
 */
module CrashCut {
  import opened CrashFormat
  import opened CrashLine
  import opened CrashScan
  import opened Slices

  // ----- lines longer than the buffer

  /** The token lies, with the character that ends it, in what the buffer keeps. */
  ghost predicate Early(line: string)
  {
    exists i: nat :: i + |TOKEN| < LINE_CAP && TokenAt(line, i)
  }

  /** The token lies beyond what the buffer can tell. */
  ghost predicate Late(line: string)
  {
    exists i: nat :: LINE_CAP - |TOKEN| <= i && TokenAt(line, i)
  }

  /** What the buffer keeps ends in the token's letters. */
  predicate CutInName(line: string)
    requires |line| > LINE_CAP
  {
    line[LINE_CAP - |TOKEN|..LINE_CAP] == TOKEN
  }

  /** The cut line is classified like the line. */
  ghost predicate Harmless(line: string)
  {
    |line| <= LINE_CAP || RangeOf(line).NoRange? || Early(line) || (CutInName(line) <==> Late(line))
  }

  lemma TokenWithin(line: string, i: nat)
    requires |line| > LINE_CAP && i + |TOKEN| < LINE_CAP
    ensures TokenAt(Cut(line, LINE_CAP), i) <==> TokenAt(line, i)
  {
    assert Cut(line, LINE_CAP)[i..i + |TOKEN|] == line[i..i + |TOKEN|];
  }

  lemma TokenAtEdge(line: string)
    requires |line| > LINE_CAP
    ensures TokenAt(Cut(line, LINE_CAP), LINE_CAP - |TOKEN|) <==> CutInName(line)
  {
    assert Cut(line, LINE_CAP)[LINE_CAP - |TOKEN|..LINE_CAP] == line[LINE_CAP - |TOKEN|..LINE_CAP];
  }

  /** What is kept names the binary if the token was early or the cut goes through a name. */
  lemma CutNames(line: string)
    requires |line| > LINE_CAP
    ensures NamesBinary(Cut(line, LINE_CAP)) <==> Early(line) || CutInName(line)
    ensures NamesBinary(line) <==> Early(line) || Late(line)
  {
    var cut := Cut(line, LINE_CAP);
    TokenAtEdge(line);
    forall i: nat | i + |TOKEN| < LINE_CAP ensures TokenAt(cut, i) <==> TokenAt(line, i) {
      TokenWithin(line, i);
    }
    assert forall i: nat :: TokenAt(cut, i) ==> i + |TOKEN| < LINE_CAP || i == LINE_CAP - |TOKEN|;
  }

  /**
    An over-long line keeps its range. It keeps its name exactly when it is harmless: it has
    no range, the token is early, or the cut goes through the token's letters exactly when the
    token does come later.
   */
  lemma CutExactly(line: string)
    requires StopsInside(Cut(line, LINE_CAP))
    ensures forall pc: Ulong, lr: Ulong :: SaysAt(Cut(line, LINE_CAP), pc, lr) == SaysAt(line, pc, lr)
    ensures SaysBin(Cut(line, LINE_CAP)) == SaysBin(line) <==> Harmless(line)
  {
    if |line| > LINE_CAP {
      StopsWithin(line, LINE_CAP);
      CutNames(line);
    }
  }

  /** A scan reports every line as it stands in the file, up to the cut, exactly when all are harmless. */
  lemma CutFileExactly(text: string)
    requires WellShaped(Lines(text))
    ensures (forall k: nat, pc: Ulong, lr: Ulong :: k < |Lines(text)| ==>
              KindOf(Cut(Lines(text)[k], LINE_CAP), pc, lr) == KindOf(Lines(text)[k], pc, lr)) <==>
            forall k: nat :: k < |Lines(text)| ==> Harmless(Lines(text)[k])
  {
    var lines := Lines(text);
    forall k: nat | k < |lines|
      ensures (forall pc: Ulong, lr: Ulong :: KindOf(Cut(lines[k], LINE_CAP), pc, lr) == KindOf(lines[k], pc, lr)) <==>
              Harmless(lines[k])
    {
      CutExactly(lines[k]);
      var cut := Cut(lines[k], LINE_CAP);
      assert KindOf(cut, 0, 0) == KindOf(lines[k], 0, 0) <==> SaysBin(cut) == SaysBin(lines[k]);
    }
  }

  // ----- two scans of one over-long line

  /** A line of the range 1-2, n spaces and a path. */
  function Padded(n: nat, path: string): (line: string)
    ensures |line| == 4 + n + |path|
  {
    "1" + ("-" + ("2" + (" " + Repeat(' ', n) + path)))
  }

  lemma PaddedText(n: nat, path: string)
    ensures var line := Padded(n, path);
            && line[0] == '1' && line[1] == '-' && line[2] == '2' && (forall i :: 3 <= i < 4 + n ==> line[i] == ' ')
            && line[4 + n..] == path && forall j :: 0 <= j < |path| ==> line[4 + n + j] == path[j]
  {
    var spaces := " " + Repeat(' ', n);
    var line := Padded(n, path);
    assert line[3..] == spaces + path && line[4 + n..] == path;
    assert forall i :: 3 <= i < 4 + n ==> line[i] == line[3..][i - 3];
    assert forall j :: 0 <= j < |path| ==> path[j] == line[3..][1 + n + j] == line[4 + n + j];
  }

  lemma PaddedParts(n: nat, path: string)
    requires path != "" && forall j :: 0 <= j < |path| - 1 ==> path[j] != '\n'
    ensures var line := Padded(n, path);
            && RangeOf(line) == Range(1, 2) && Lines(line) == [line]
            && (forall i :: 0 <= i < 4 + n ==> line[i] != '/')
            && forall j :: 0 <= j < |path| ==> line[4 + n + j] == path[j]
  {
    PaddedText(n, path);
    HexOne('1');
    HexOne('2');
    RangeText("1", "2", " " + Repeat(' ', n) + path);
    PaddedLine(n, path);
  }

  lemma PaddedLine(n: nat, path: string)
    requires path != "" && forall j :: 0 <= j < |path| - 1 ==> path[j] != '\n'
    ensures Lines(Padded(n, path)) == [Padded(n, path)]
  {
    var line := Padded(n, path);
    PaddedText(n, path);
    forall i | 0 <= i < |line| - 1 ensures line[i] != '\n' {
      if i >= 4 + n {
        assert line[4 + n + (i - 4 - n)] == path[i - 4 - n];
      }
    }
    OneLine(line);
  }

  lemma PaddedStops(n: nat, path: string)
    requires 4 + n <= LINE_CAP
    ensures StopsInside(Cut(Padded(n, path), LINE_CAP))
  {
    var line := Padded(n, path);
    PaddedText(n, path);
    RunEndSkips(Cut(line, LINE_CAP), 0, 1);
    RunEndSkips(Cut(line, LINE_CAP), 2, 3);
  }

  /** The parser stays in the buffer whatever that held before. */
  ghost predicate AlwaysStops(text: string, pc: Ulong, lr: Ulong)
  {
    forall buf: string {:trigger ScanStops(buf, text, pc, lr)} :: |buf| == LINE_CAP ==> ScanStops(buf, text, pc, lr)
  }

  /** A fresh tracer scans a file that one read delivers; `buf` is what its line buffer held before. */
  method ScanFile(text: string, pc: Ulong, lr: Ulong) returns (records: seq<string>, ghost buf: string)
    requires 1 <= |text| <= CHUNK_CAP && AlwaysStops(text, pc, lr)
    ensures |buf| == LINE_CAP && records == Scanned(buf, text, pc, lr)
  {
    var tracer := new Tracer();
    buf := tracer.mapsLine[..];
    var calls := OneRead(text);
    ReadyToScan(buf, text, calls, pc, lr);
    tracer.ScanMapsFile(calls, pc, lr);
    records := tracer.emitted;
  }

  lemma ReadyToScan(buf: string, text: string, calls: seq<Read>, pc: Ulong, lr: Ulong)
    requires |buf| == LINE_CAP && AlwaysStops(text, pc, lr) && Delivered(calls) == text
    ensures ScanStops(buf, Delivered(calls), pc, lr)
    ensures [] + Scanned(buf, text, pc, lr) == Scanned(buf, text, pc, lr)
  {
  }

  function OneRead(text: string): (calls: seq<Read>)
    requires 1 <= |text| <= CHUNK_CAP
    ensures Delivered(calls) == text && Chunked(calls)
  {
    var calls := [Bytes(text), Eof];
    assert calls[1..] == [Eof] && text + "" == text;
    calls
  }

  lemma ScanOne(buf: string, line: string, pc: Ulong, lr: Ulong)
    requires |buf| == LINE_CAP && Lines(line) == [line] && StopsInside(Cut(line, LINE_CAP))
    ensures ScanStops(buf, line, pc, lr)
    ensures Scanned(buf, line, pc, lr) == Report(Cut(line, LINE_CAP), pc, lr)
  {
    ScannedLines(buf, line, pc, lr);
    RecordsOne(line, pc, lr);
  }

  /** A fresh tracer scans the one line. */
  method ScanPadded(n: nat, path: string) returns (line: string, records: seq<string>)
    requires 4 + n <= LINE_CAP && |path| <= 16 && OneToken(path)
    ensures line == Padded(n, path) && records == Report(Cut(line, LINE_CAP), 0, 0)
  {
    line := Padded(n, path);
    PaddedParts(n, path);
    PaddedStops(n, path);
    forall buf: string | |buf| == LINE_CAP
      ensures ScanStops(buf, line, 0, 0) && Scanned(buf, line, 0, 0) == Report(Cut(line, LINE_CAP), 0, 0)
    {
      ScanOne(buf, line, 0, 0);
    }
    assert AlwaysStops(line, 0, 0);
    ghost var buf;
    records, buf := ScanFile(line, 0, 0);
  }

  /** A path that starts with the token and has no other slash. */
  predicate OneToken(path: string)
  {
    && |path| > |TOKEN| && path[..|TOKEN|] == TOKEN && (forall j :: 1 <= j < |path| ==> path[j] != '/')
    && forall j :: 0 <= j < |path| - 1 ==> path[j] != '\n'
  }

  const SIBLING := "/butaca.new\n"
  const BINARY := "/butaca\n"

  lemma SiblingToken()
    ensures OneToken(SIBLING) && |SIBLING| <= 16 && !EndsName(SIBLING[|TOKEN|])
  {
  }

  lemma BinaryToken()
    ensures OneToken(BINARY) && |BINARY| <= 16 && EndsName(BINARY[|TOKEN|])
  {
  }

  predicate EndsName(c: char)
  {
    c == '\n' || c == ' ' || c == '\0'
  }

  /** The one place where the token can be. */
  lemma PaddedToken(n: nat, path: string)
    requires OneToken(path)
    ensures var line := Padded(n, path);
            && line[4 + n..4 + n + |TOKEN|] == TOKEN
            && (TokenAt(line, 4 + n) <==> EndsName(path[|TOKEN|]))
  {
    var line := Padded(n, path);
    PaddedText(n, path);
    Inner(line, 4 + n, |line|, 0, |TOKEN|);
    assert line[4 + n..|line|] == path;
    assert line[4 + n + |TOKEN|] == path[|TOKEN|];
  }

  lemma NoOtherToken(n: nat, path: string, i: nat)
    requires OneToken(path) && TokenAt(Padded(n, path), i)
    ensures i == 4 + n
  {
    var line := Padded(n, path);
    PaddedParts(n, path);
    TokenStarts(line, i);
    assert i >= 4 + n ==> line[4 + n + (i - 4 - n)] == path[i - 4 - n];
  }

  /** Nothing is said of an address, for the range 1-2 does not hold 0. */
  lemma PaddedReport(n: nat, path: string)
    requires 4 + n <= LINE_CAP && path != "" && forall j :: 0 <= j < |path| - 1 ==> path[j] != '\n'
    ensures var cut := Cut(Padded(n, path), LINE_CAP);
            Report(cut, 0, 0) == if NamesBinary(cut) then ["bin: " + cut] else []
  {
    var line := Padded(n, path);
    PaddedParts(n, path);
    PaddedStops(n, path);
    CutExactly(line);
    if |line| > LINE_CAP {
      StopsWithin(line, LINE_CAP);
    }
  }

  /** The cut goes through the name of a sibling, which is then reported as the binary. */
  method FalseBin() returns (line: string, records: seq<string>)
    ensures !NamesBinary(line) && records == ["bin: " + Cut(line, LINE_CAP)]
  {
    SiblingToken();
    line, records := ScanPadded(501, SIBLING);
    FalseName(501, SIBLING);
  }

  lemma FalseName(n: nat, path: string)
    requires n == LINE_CAP - 4 - |TOKEN| && OneToken(path) && !EndsName(path[|TOKEN|])
    ensures var line := Padded(n, path);
            !NamesBinary(line) && Report(Cut(line, LINE_CAP), 0, 0) == ["bin: " + Cut(line, LINE_CAP)]
  {
    var line := Padded(n, path);
    PaddedToken(n, path);
    PaddedReport(n, path);
    CutNames(line);
    if NamesBinary(line) {
      var i :| 0 <= i < |line| && TokenAt(line, i);
      NoOtherToken(n, path, i);
    }
  }

  /** The name lies beyond the buffer, and no record says so. */
  method LostBin() returns (line: string, records: seq<string>)
    ensures SaysBin(line) && records == []
  {
    BinaryToken();
    line, records := ScanPadded(504, BINARY);
    LostName(504, BINARY);
  }

  lemma LostName(n: nat, path: string)
    requires LINE_CAP - 4 - |TOKEN| < n <= LINE_CAP - 4 && OneToken(path) && EndsName(path[|TOKEN|])
    ensures SaysBin(Padded(n, path)) && Report(Cut(Padded(n, path), LINE_CAP), 0, 0) == []
  {
    var line := Padded(n, path);
    PaddedToken(n, path);
    PaddedParts(n, path);
    PaddedReport(n, path);
    LateOnly(n, path);
    assert TokenAt(line, 4 + n);
  }

  lemma LateOnly(n: nat, path: string)
    requires LINE_CAP - 4 - |TOKEN| < n <= LINE_CAP - 4 && OneToken(path)
    ensures !NamesBinary(Cut(Padded(n, path), LINE_CAP))
  {
    var line := Padded(n, path);
    CutNames(line);
    PaddedParts(n, path);
    assert line[LINE_CAP - |TOKEN|..LINE_CAP][0] == line[LINE_CAP - |TOKEN|] != '/';
    if i: nat :| i + |TOKEN| < LINE_CAP && TokenAt(line, i) {
      NoOtherToken(n, path, i);
    }
  }

  // ----- a scan in which the parser reads older text

  /** Bytes that fit and hold no newline are in the buffer, with the older text behind them. */
  lemma {:induction false} HeldText(buf: string, out: seq<string>, text: string, pc: Ulong, lr: Ulong)
    requires |text| <= |buf| && forall i :: 0 <= i < |text| ==> text[i] != '\n'
    ensures Fed(Scan(buf, 0, out), text, pc, lr) == Scan(text + buf[|text|..], |text|, out)
    ensures Stops(Scan(buf, 0, out), text, pc, lr)
  {
    if text == "" {
      assert text + buf[|text|..] == buf;
    } else {
      var before := text[..|text| - 1];
      HeldText(buf, out, before, pc, lr);
      assert (before + buf[|before|..])[|before| := text[|text| - 1]] == text + buf[|text|..];
    }
  }

  /** A line that fits, with its newline, leaves itself in front of the older text. */
  lemma LineFed(buf: string, line: string, pc: Ulong, lr: Ulong)
    requires |line| < |buf| && forall i :: 0 <= i < |line| ==> line[i] != '\n'
    requires StopsInside(Left(buf, line))
    ensures Fed(Scan(buf, 0, []), line + "\n", pc, lr) ==
            Scan(Left(buf, line), 0, ReportIn(Left(buf, line), |line| + 1, pc, lr))
    ensures Stops(Scan(buf, 0, []), line + "\n", pc, lr)
  {
    HeldText(buf, [], line, pc, lr);
    FedSnoc(Scan(buf, 0, []), line, '\n', pc, lr);
    LineNext(buf, line, pc, lr);
  }

  lemma LineNext(buf: string, line: string, pc: Ulong, lr: Ulong)
    requires |line| < |buf|
    ensures var held := Scan(line + buf[|line|..], |line|, []);
            && Held(held, '\n').buf == Left(buf, line)
            && Next(held, '\n', pc, lr) == Scan(Left(buf, line), 0, ReportIn(Left(buf, line), |line| + 1, pc, lr))
  {
    var held := Scan(line + buf[|line|..], |line|, []);
    assert held.buf[|line| := '\n'] == Left(buf, line);
    var out := ReportIn(Left(buf, line), |line| + 1, pc, lr);
    assert [] + out == out;
  }

  function Left(buf: string, line: string): (left: string)
    requires |line| < |buf|
    ensures |left| == |buf|
  {
    line + ("\n" + buf[|line| + 1..])
  }

  /** A line and a tail that is shorter: the tail stands in front of the rest of the line. */
  lemma LineThenTail(buf: string, line: string, tail: string, pc: Ulong, lr: Ulong)
    requires |tail| <= |line| < |buf| && tail != "" && tail <= line
    requires forall i :: 0 <= i < |line| ==> line[i] != '\n'
    requires StopsInside(Left(buf, line))
    ensures ScanStops(buf, line + "\n" + tail, pc, lr)
    ensures Scanned(buf, line + "\n" + tail, pc, lr) ==
            ReportIn(Left(buf, line), |line| + 1, pc, lr) + ReportIn(Left(buf, line), |tail|, pc, lr)
  {
    var left := Left(buf, line);
    LineFed(buf, line, pc, lr);
    HeldText(left, ReportIn(left, |line| + 1, pc, lr), tail, pc, lr);
    assert tail + left[|tail|..] == left;
    FedAppend(Scan(buf, 0, []), line + "\n", tail, pc, lr);
  }

  /**
    The file "1-2f \n1-2": its last line is reported for an address outside its range, because
    the line before left the digit and the space that the parser reads behind it.
   */
  method StaleScan() returns (records: seq<string>)
    ensures records == ["at: 1-2f \n", "at: 1-2"] && !SaysAt("1-2", 0x10, 0x10)
  {
    ghost var buf;
    forall buf: string | |buf| == LINE_CAP
      ensures ScanStops(buf, "1-2f \n1-2", 0x10, 0x10)
      ensures Scanned(buf, "1-2f \n1-2", 0x10, 0x10) == ["at: 1-2f \n", "at: 1-2"]
    {
      StaleRecords(buf);
    }
    ShortRanges();
    assert AlwaysStops("1-2f \n1-2", 0x10, 0x10);
    records, buf := ScanFile("1-2f \n1-2", 0x10, 0x10);
  }

  lemma StaleRange(rest: string)
    ensures RangeOf("1-2f " + rest) == Range(1, 0x2f) && StopsInside("1-2f " + rest)
  {
    HexOne('1');
    HexOne('2');
    HexSnoc("2", 'f');
    assert "2" + ['f'] == "2f";
    RangeText("1", "2f", " " + rest);
    assert "1-2f " + rest == "1" + ("-" + ("2f" + (" " + rest)));
  }

  lemma StaleRecords(buf: string)
    requires |buf| == LINE_CAP
    ensures ScanStops(buf, "1-2f \n1-2", 0x10, 0x10)
    ensures Scanned(buf, "1-2f \n1-2", 0x10, 0x10) == ["at: 1-2f \n", "at: 1-2"]
  {
    var line, tail := "1-2f ", "1-2";
    var left := Left(buf, line);
    StaleRange("\n" + buf[6..]);
    assert line + "\n" + tail == "1-2f \n1-2";
    LineThenTail(buf, line, tail, 0x10, 0x10);
    assert left[..6] == "1-2f \n" && left[..3] == "1-2";
    NamelessReport(left, 6);
    NamelessReport(left, 3);
    assert "at: " + "1-2f \n" == "at: 1-2f \n" && "at: " + "1-2" == "at: 1-2";
  }

  lemma NamelessReport(buf: string, n: nat)
    requires n <= |buf| && RangeOf(buf) == Range(1, 0x2f) && forall i :: 0 <= i < n ==> buf[i] != '/'
    ensures ReportIn(buf, n, 0x10, 0x10) == ["at: " + buf[..n]]
  {
    NoName(buf[..n]);
  }

  lemma NoName(line: string)
    requires forall i :: 0 <= i < |line| ==> line[i] != '/'
    ensures !NamesBinary(line)
  {
    if NamesBinary(line) {
      var i :| 0 <= i < |line| && TokenAt(line, i);
      TokenStarts(line, i);
    }
  }
}
