/**
  A scan of a maps file as the kernel prints it: which lines are reported, told from the
  printed addresses and paths alone.
 */
module CrashPrinted {
  import opened CrashFormat
  import opened CrashLine
  import opened CrashScan
  import opened Slices

  /** One mapping: the addresses lo to hi, and the rest of its line up to the newline. */
  datatype Mapping = Mapping(lo: Ulong, hi: Ulong, rest: string)

  function Printed(m: Mapping): string
  {
    HexDigits(m.lo) + ("-" + (HexDigits(m.hi) + (m.rest + "\n")))
  }

  /** The rest goes on with something else than a digit, and the line fits the buffer. */
  predicate Regular(m: Mapping)
  {
    && m.rest != "" && !IsHex(m.rest[0]) && (forall i :: 0 <= i < |m.rest| ==> m.rest[i] != '\n')
    && |Printed(m)| <= LINE_CAP
  }

  function PrintedAll(ms: seq<Mapping>): string
  {
    if ms == [] then "" else Printed(ms[0]) + PrintedAll(ms[1..])
  }

  /** The mapping holds the program counter or the link register. */
  predicate HoldsFault(m: Mapping, pc: Ulong, lr: Ulong)
  {
    m.lo <= pc < m.hi || m.lo <= lr < m.hi
  }

  /** The records of the mappings: first what holds the fault, then what is our binary. */
  ghost function Expected(ms: seq<Mapping>, pc: Ulong, lr: Ulong): seq<string>
  {
    if ms == [] then []
    else
      (if HoldsFault(ms[0], pc, lr) then ["at: " + Printed(ms[0])] else []) +
      (if NamesBinary(Printed(ms[0])) then ["bin: " + Printed(ms[0])] else []) +
      Expected(ms[1..], pc, lr)
  }

  lemma PrintedLine(m: Mapping)
    requires Regular(m)
    ensures Lines(Printed(m)) == [Printed(m)] && Printed(m)[|Printed(m)| - 1] == '\n'
    ensures RangeOf(Printed(m)) == Range(m.lo, m.hi) && StopsInside(Printed(m))
  {
    var line := Printed(m);
    HexDigitsAreHex(m.lo);
    HexDigitsAreHex(m.hi);
    assert (m.rest + "\n")[0] == m.rest[0];
    assert Prints(line, m.lo, m.hi);
    PrintedRange(line, m.lo, m.hi);
    NoEarlyNewline(HexDigits(m.lo), HexDigits(m.hi), m.rest);
    OneLine(line);
  }

  lemma NoEarlyNewline(a: string, b: string, rest: string)
    requires AllHex(a) && AllHex(b) && forall i :: 0 <= i < |rest| ==> rest[i] != '\n'
    ensures var line := a + ("-" + (b + (rest + "\n")));
            line[|line| - 1] == '\n' && forall i :: 0 <= i < |line| - 1 ==> line[i] != '\n'
  {
    var line := a + ("-" + (b + (rest + "\n")));
    var n, m := |a|, |b|;
    forall i | 0 <= i < |line| - 1 ensures line[i] != '\n' {
      if i < n {
        assert line[i] == a[i];
      } else if i == n {
        assert line[i] == '-';
      } else if i < n + 1 + m {
        assert line[i] == b[i - n - 1];
      } else {
        assert line[i] == rest[i - n - 1 - m];
      }
    }
  }

  lemma PrintedReport(m: Mapping, pc: Ulong, lr: Ulong)
    requires Regular(m)
    ensures Report(Printed(m), pc, lr) ==
            (if HoldsFault(m, pc, lr) then ["at: " + Printed(m)] else []) +
            (if NamesBinary(Printed(m)) then ["bin: " + Printed(m)] else [])
  {
    PrintedLine(m);
  }

  lemma {:induction false} PrintedLines(ms: seq<Mapping>, pc: Ulong, lr: Ulong)
    requires forall k :: 0 <= k < |ms| ==> Regular(ms[k])
    ensures WellShaped(Lines(PrintedAll(ms))) && Records(Lines(PrintedAll(ms)), pc, lr) == Expected(ms, pc, lr)
  {
    if ms != [] {
      var m, rest := ms[0], PrintedAll(ms[1..]);
      PrintedLines(ms[1..], pc, lr);
      PrintedLine(m);
      PrintedReport(m, pc, lr);
      LinesAppend(Printed(m), rest);
      assert Lines(PrintedAll(ms)) == [Printed(m)] + Lines(rest);
      RecordsAppend([Printed(m)], Lines(rest), pc, lr);
      RecordsOne(Printed(m), pc, lr);
    }
  }

  /**
    Whatever the buffer held before: a file of printed mappings is reported mapping by mapping,
    each as the module of the fault exactly when it holds the program counter or the link
    register, and as our binary exactly when it is named so.
   */
  lemma PrintedScan(buf: string, ms: seq<Mapping>, pc: Ulong, lr: Ulong)
    requires |buf| == LINE_CAP && forall k :: 0 <= k < |ms| ==> Regular(ms[k])
    ensures ScanStops(buf, PrintedAll(ms), pc, lr)
    ensures Scanned(buf, PrintedAll(ms), pc, lr) == Expected(ms, pc, lr)
  {
    PrintedLines(ms, pc, lr);
    ScannedLines(buf, PrintedAll(ms), pc, lr);
  }

  /** However the reads cut such a file up, a fresh tracer emits those records. */
  method ScanMappings(ms: seq<Mapping>, calls: seq<Read>, pc: Ulong, lr: Ulong) returns (records: seq<string>)
    requires forall k :: 0 <= k < |ms| ==> Regular(ms[k])
    requires Chunked(calls) && Delivered(calls) == PrintedAll(ms)
    ensures records == Expected(ms, pc, lr)
  {
    var tracer := new Tracer();
    PrintedScan(tracer.mapsLine[..], ms, pc, lr);
    tracer.ScanMapsFile(calls, pc, lr);
    records := tracer.emitted;
    assert [] + Expected(ms, pc, lr) == Expected(ms, pc, lr);
  }
}
