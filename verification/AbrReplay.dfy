/**
  The independent replay of the controller's window log (tools/abr-window-grade.py, `grade`
  and its helpers), and a controller that follows the documented episode rules. The log
  carries per-mille ratios and milliseconds only, so the replay works with intervals.
 */
module AbrReplay {
  import opened AbrWindow
  import opened Numbers
  import opened Wrappers

  const SATURATED: int := 0xffff_ffff

  // ----- the rows `paired` produces

  datatype Sample = Sample(bufMs: Option<int>, durMs: int, prodPm: int, completed: Option<bool>)

  datatype Window = Window(verdict: string, have: int, want: int, epsPm: int, clamp: int, boundMs: int,
                           demandMs: int, supplyMs: int, excessMs: int, runwayMs: int, sus: int, sur: int, resets: int,
                               durMs: int)

  /** What is known of one acquisition: lo <= A < hi, the upper end missing when saturated. */
  datatype Entry = Entry(lo: int, hi: Option<int>, dur: int)

  datatype Row = ErrorRow | SeedRow | CommitRow(entry: Entry) | SegmentRow(sample: Sample, window: Window)

  // ----- the arithmetic of the replay

  /** `acquisition_interval` */
  function AcquisitionInterval(s: Sample): Entry
  {
    Entry(Max(1, s.prodPm * s.durMs),
          if s.prodPm == SATURATED then None else Some((s.prodPm + 1) * s.durMs),
          s.durMs * 1000)
  }

  datatype Terms = Terms(demand: int, supply: int, excess: int, terminal: int)
  {
    function Runway(): int
    {
      excess + terminal
    }
  }

  function EndPoint(e: Entry, high: bool): int
  {
    if high && e.hi.Some? then e.hi.value - 1 else e.lo
  }

  /** `finite_terms`: the conservation terms at one end of every interval. */
  function FiniteTerms(es: seq<Entry>, high: bool): Terms
  {
    if es == [] then Terms(0, 0, 0, 0)
    else
      var n := |es| - 1;
      var t := FiniteTerms(es[..n], high);
      var a, d := EndPoint(es[n], high), es[n].dur;
      Terms(t.demand + a, t.supply + d, t.excess + Max(a - d, 0),
          if n == 0 then Min(a, d) else Max(t.terminal, Min(a, d)))
  }

  predicate AnySaturated(es: seq<Entry>)
  {
    exists i :: 0 <= i < |es| && es[i].hi.None?
  }

  // ----- the replay

  datatype Counts = Counts(checked: nat, disagree: nat, filling: nat, resets: nat, candidates: nat,
                           ambiguousSus: nat, ambiguousSur: nat, saturated: nat, ungraded: nat, epochs: nat)

  datatype Replay = Replay(episode: seq<Entry>, seenResets: int, pendingCommits: nat, lastReserveMs: int, known: bool,
      counts: Counts)

  const START := Replay([], 0, 0, 0, true, Counts(0, 0, 0, 0, 0, 0, 0, 0, 0, 0))

  function Bit(b: bool): nat
  {
    if b then 1 else 0
  }

  function Disagree(r: Replay, n: nat): Replay
  {
    r.(counts := r.counts.(disagree := r.counts.disagree + n))
  }

  /** Reset evidence, durations, the generation constants and the episode itself. */
  function TakeSegment(r: Replay, s: Sample, w: Window): Replay
  {
    var expected := r.seenResets + r.pendingCommits;
    var r1 := if w.resets != expected then Disagree(r, 1).(known := false)
              else r.(counts := r.counts.(resets := r.counts.resets + r.pendingCommits));
    var r2 := r1.(seenResets := w.resets, pendingCommits := 0,
                  lastReserveMs := if s.bufMs.Some? then s.bufMs.value else r1.lastReserveMs);
    var r3 := Disagree(r2, Bit(s.durMs != w.durMs) + Bit(w.epsPm != 0) + Bit(w.clamp != 0) + Bit(w.boundMs != -1) +
        Bit(w.want != w.have));
    if s.completed.None? then Disagree(r3, 1).(known := false)
    else if s.completed.value && r3.known then r3.(episode := r3.episode + [AcquisitionInterval(s)])
    else r3
  }

  function EmptyMismatches(w: Window): nat
  {
    Bit(w.verdict != "filling") + Bit(w.demandMs != -1) + Bit(w.supplyMs != -1) + Bit(w.excessMs != -1) +
    Bit(w.runwayMs != -1) + Bit(w.sus != 0) + Bit(w.sur != 0)
  }

  function VerdictMismatches(w: Window): nat
  {
    Bit(w.sus !in {0, 1} || w.sur !in {0, 1}) + Bit(w.verdict != if w.sus == 1 && w.sur == 1 then "admit" else "refuse")
  }

  predicate OutsideMs(got: int, lo: int, hi: int)
  {
    !(lo / 1000 <= got <= hi / 1000)
  }

  /** The interval checks of one fully graded row. */
  function IntervalMismatches(low: Terms, high: Terms, reserveMs: int, w: Window): nat
  {
    Bit(OutsideMs(w.demandMs, low.demand, high.demand)) + Bit(OutsideMs(w.excessMs, low.excess, high.excess)) +
    Bit(OutsideMs(w.runwayMs, low.Runway(), high.Runway())) +
    Bit(high.demand <= low.supply && w.sus == 0) + Bit(low.demand > low.supply && w.sus != 0) +
    Bit(reserveMs * 1000 >= high.Runway() && w.sur == 0) + Bit(reserveMs * 1000 < low.Runway() && w.sur != 0)
  }

  /** Grade one window line against the episode. */
  function GradeWindow(r: Replay, w: Window): Replay
  {
    if !r.known then r.(counts := r.counts.(ungraded := r.counts.ungraded + 1))
    else
      var r1 := Disagree(r, Bit(w.have != |r.episode|));
      if r.episode == [] then
        var r2 := Disagree(r1, EmptyMismatches(w));
        r2.(counts := r2.counts.(filling := r2.counts.filling + 1))
      else
        var low, high := FiniteTerms(r.episode, false), FiniteTerms(r.episode, true);
        var r2 := Disagree(r1, VerdictMismatches(w) + Bit(w.supplyMs != low.supply / 1000));
        if AnySaturated(r.episode) then
          r2.(counts := r2.counts.(saturated := r2.counts.saturated + 1, ungraded := r2.counts.ungraded + 1))
        else
          var r3 := Disagree(r2, IntervalMismatches(low, high, r.lastReserveMs, w));
          var clearSus := high.demand <= low.supply || low.demand > low.supply;
          var clearSur := r.lastReserveMs * 1000 >= high.Runway() || r.lastReserveMs * 1000 < low.Runway();
          r3.(counts := r3.counts.(checked := r3.counts.checked + 1,
                                   ambiguousSus := r3.counts.ambiguousSus + Bit(!clearSus),
                                   ambiguousSur := r3.counts.ambiguousSur + Bit(!clearSur)))
  }

  function GradeRow(r: Replay, row: Row): Replay
  {
    match row
    case ErrorRow => Disagree(r, 1).(known := false)
    case SeedRow => START.(counts := r.counts.(epochs := r.counts.epochs + 1))
    case CommitRow(entry) =>
      r.(episode := [entry], pendingCommits := r.pendingCommits + 1, known := true,
          counts := r.counts.(candidates := r.counts.candidates + 1))
    case SegmentRow(s, w) => GradeWindow(TakeSegment(r, s, w), w)
  }

  function GradeAll(r: Replay, rows: seq<Row>): Replay
  {
    if rows == [] then r else GradeRow(GradeAll(r, rows[..|rows| - 1]), rows[|rows| - 1])
  }

  /** `grade`: no rows, no result; otherwise the counters of the whole replay. */
  method Grade(rows: seq<Row>) returns (result: Option<Counts>)
    ensures result == if rows == [] then None else Some(GradeAll(START, rows).counts)
  {
    if rows == [] {
      return None;
    }
    var r := START;
    for i := 0 to |rows|
      invariant r == GradeAll(START, rows[..i])
    {
      assert rows[..i + 1][..i] == rows[..i];
      r := GradeRow(r, rows[i]);
    }
    assert rows[..|rows|] == rows;
    return Some(r.counts);
  }

  // ----- the controller

  /** What happens to the controller; times in microseconds, durations in milliseconds. */
  datatype Event =
    | Seeded
    | Committed(acqUs: nat, durMs: nat)
    | Segment(acqUs: nat, durMs: nat, completed: bool, bufMs: Option<nat>)

  /** A completed acquisition took time and delivered media, and every segment has a length. */
  predicate Genuine(e: Event)
  {
    match e
    case Seeded => true
    case Committed(a, d) => a >= 1 && d >= 1
    case Segment(a, d, completed, _) => d >= 1 && (completed ==> a >= 1)
  }

  /** The live episode: the acquisitions of the current operating point. */
  datatype Controller = Controller(episode: seq<Acquisition>, resets: nat, reserveMs: nat)

  const FRESH := Controller([], 0, 0)

  function Happens(c: Controller, e: Event): Controller
  {
    match e
    case Seeded => FRESH
    case Committed(a, d) => c.(episode := [Acquisition(a, d * 1000)], resets := c.resets + 1)
    case Segment(a, d, completed, buf) =>
      Controller(if completed then c.episode + [Acquisition(a, d * 1000)] else c.episode, c.resets,
          if buf.Some? then buf.value else c.reserveMs)
  }

  /** `log_line`: the window line after an event. */
  function WindowLine(c: Controller, durMs: nat): Window
  {
    var n := |c.episode|;
    if n == 0 then Window("filling", 0, 0, 0, 0, -1, -1, -1, -1, -1, 0, 0, c.resets, durMs)
    else
      var sus := Demand(c.episode) <= Supply(c.episode);
      var sur := c.reserveMs * 1000 >= Runway(c.episode);
      Window(if sus && sur then "admit" else "refuse", n, n, 0, 0, -1,
             Demand(c.episode) / 1000, Supply(c.episode) / 1000, Excess(c.episode) / 1000, Runway(c.episode) / 1000,
             Bit(sus), Bit(sur), c.resets, durMs)
  }

  /** `production_ratio_pm`: time over length in per mille, truncated and saturated. */
  function ProdPm(acqUs: nat, durMs: nat): nat
    requires durMs >= 1
  {
    RatioOfMs(acqUs, durMs);
    Min(acqUs * 1000 / (durMs * 1000), SATURATED)
  }

  /** The row an event leaves in the log; `c` is the controller after it. */
  function Logged(c: Controller, e: Event): Row
    requires Genuine(e)
  {
    match e
    case Seeded => SeedRow
    case Committed(a, d) => CommitRow(Entry(Max(1, a / 1000 * 1000), Some((a / 1000 + 1) * 1000), d * 1000))
    case Segment(a, d, completed, buf) =>
      SegmentRow(Sample(if buf.Some? then Some(buf.value) else None, d, ProdPm(a, d), Some(completed)),
          WindowLine(c, d))
  }

  function Play(events: seq<Event>): Controller
  {
    if events == [] then FRESH else Happens(Play(events[..|events| - 1]), events[|events| - 1])
  }

  function Log(events: seq<Event>): (rows: seq<Row>)
    requires forall i :: 0 <= i < |events| ==> Genuine(events[i])
    ensures |rows| == |events|
  {
    if events == [] then []
    else
      var n := |events| - 1;
      Log(events[..n]) + [Logged(Play(events), events[n])]
  }

  // ----- intervals contain what really happened

  predicate Contains(e: Entry, x: Acquisition)
  {
    e.lo <= x.a && e.dur == x.d && (e.hi.Some? ==> x.a <= e.hi.value - 1)
  }

  predicate ContainsAll(es: seq<Entry>, xs: seq<Acquisition>)
  {
    |es| == |xs| && forall i :: 0 <= i < |es| ==> Contains(es[i], xs[i])
  }

  /** The interval of a logged ratio is exactly the set of times that are logged as that ratio. */
  lemma SampleExact(acqUs: nat, durMs: nat, pm: nat)
    requires acqUs >= 1 && durMs >= 1 && pm <= SATURATED
    ensures ProdPm(acqUs, durMs) == pm <==>
            Contains(AcquisitionInterval(Sample(None, durMs, pm, None)), Acquisition(acqUs, durMs * 1000))
  {
    RatioOfMs(acqUs, durMs);
    QuotientRange(acqUs, durMs, pm);
  }

  lemma QuotientRange(n: nat, m: nat, q: nat)
    requires m >= 1
    ensures n / m >= q <==> q * m <= n
    ensures n / m <= q <==> n < (q + 1) * m
  {
    var p := n / m;
    assert m * p <= n < m * p + m;
    assert (q + 1) * m == q * m + m && (p + 1) * m == p * m + m;
    if p < q {
      ScaleDown(p + 1, q, m);
    } else if p > q {
      ScaleDown(q + 1, p, m);
    }
  }

  lemma ScaleDown(x: nat, y: nat, k: nat)
    requires x <= y
    ensures x * k <= y * k
  {
  }

  lemma RatioOfMs(a: nat, d: nat)
    requires d >= 1
    ensures a * 1000 / (d * 1000) == a / d
  {
    var q := a / d;
    assert d * q <= a < d * q + d;
    assert (d * 1000) * q == 1000 * (d * q);
    Quotient(a * 1000, d * 1000, q);
  }

  lemma Quotient(n: nat, m: nat, q: nat)
    requires m >= 1 && m * q <= n < m * q + m
    ensures n / m == q
  {
    var p := n / m;
    assert m * p <= n < m * p + m;
    if p < q {
      ScaleDown(p + 1, q, m);
    } else if p > q {
      ScaleDown(q + 1, p, m);
    }
  }

  /** Every term is monotone in each acquisition. */
  lemma {:induction false} TermsEnclose(es: seq<Entry>, xs: seq<Acquisition>)
    requires ContainsAll(es, xs)
    ensures var low := FiniteTerms(es, false);
            low.demand <= Demand(xs) && low.supply == Supply(xs) && low.excess <= Excess(xs) &&
                low.terminal <= Terminal(xs)
    ensures var high := FiniteTerms(es, true);
            !AnySaturated(es) ==>
              Demand(xs) <= high.demand && Excess(xs) <= high.excess && Terminal(xs) <= high.terminal
  {
    if es != [] {
      var n := |es| - 1;
      assert forall i :: 0 <= i < n ==> es[..n][i] == es[i];
      TermsEnclose(es[..n], xs[..n]);
      assert Contains(es[n], xs[n]);
      if n == 0 {
        assert xs[..n] == [];
      }
    }
  }

  /** The replayed state agrees with the controller. */
  predicate InStep(r: Replay, c: Controller)
  {
    r.known && r.counts.disagree == 0 && ContainsAll(r.episode, c.episode) &&
    r.seenResets + r.pendingCommits == c.resets && r.lastReserveMs == c.reserveMs
  }

  lemma FloorMonotone(x: int, y: int)
    requires x <= y
    ensures x / 1000 <= y / 1000
  {
  }

  /** A true window line never falls outside the graded intervals. */
  lemma WindowAgrees(r: Replay, c: Controller, durMs: nat)
    requires InStep(r, c)
    ensures GradeWindow(r, WindowLine(c, durMs)).counts.disagree == 0
  {
    if r.episode != [] {
      TermsEnclose(r.episode, c.episode);
      var low, high := FiniteTerms(r.episode, false), FiniteTerms(r.episode, true);
      FloorMonotone(low.demand, Demand(c.episode));
      FloorMonotone(low.excess, Excess(c.episode));
      FloorMonotone(low.Runway(), Runway(c.episode));
      if !AnySaturated(r.episode) {
        FloorMonotone(Demand(c.episode), high.demand);
        FloorMonotone(Excess(c.episode), high.excess);
        FloorMonotone(Runway(c.episode), high.Runway());
      }
    }
  }

  lemma SegmentTaken(r: Replay, c: Controller, e: Event)
    requires InStep(r, c) && Genuine(e) && e.Segment?
    ensures var row := Logged(Happens(c, e), e);
            InStep(TakeSegment(r, row.sample, row.window), Happens(c, e)) &&
                TakeSegment(r, row.sample, row.window).pendingCommits == 0
  {
    if e.completed {
      SampleExact(e.acqUs, e.durMs, ProdPm(e.acqUs, e.durMs));
    }
  }

  lemma RowInStep(r: Replay, c: Controller, e: Event)
    requires InStep(r, c) && Genuine(e)
    ensures InStep(GradeRow(r, Logged(Happens(c, e), e)), Happens(c, e))
  {
    match e
    case Seeded =>
    case Committed(a, d) => assert a / 1000 * 1000 <= a < (a / 1000 + 1) * 1000;
    case Segment(a, d, completed, buf) =>
      SegmentTaken(r, c, e);
      var row := Logged(Happens(c, e), e);
      WindowAgrees(TakeSegment(r, row.sample, row.window), Happens(c, e), d);
  }

  /**
    For every run of a controller that follows the episode rules - seeds, commits,
    completed and censored segments - the replayed episode contains the controller's and
    the replay of the log reports no disagreement.
   */
  lemma {:induction false} FaithfulLogAgrees(events: seq<Event>)
    requires forall i :: 0 <= i < |events| ==> Genuine(events[i])
    ensures InStep(GradeAll(START, Log(events)), Play(events))
  {
    if events != [] {
      var n := |events| - 1;
      FaithfulLogAgrees(events[..n]);
      assert Log(events)[..n] == Log(events[..n]);
      RowInStep(GradeAll(START, Log(events[..n])), Play(events[..n]), events[n]);
    }
  }

  // ----- nothing is graded twice or passed over

  function Segments(rows: seq<Row>): nat
  {
    if rows == [] then 0 else Segments(rows[..|rows| - 1]) + Bit(rows[|rows| - 1].SegmentRow?)
  }

  function Counted(c: Counts): nat
  {
    c.checked + c.filling + c.ungraded
  }

  lemma TakeCounts(r: Replay, s: Sample, w: Window)
    ensures var t := TakeSegment(r, s, w).counts;
            Counted(t) == Counted(r.counts) && t.saturated == r.counts.saturated && t.ungraded == r.counts.ungraded
  {
  }

  lemma WindowCounts(r: Replay, w: Window)
    ensures var t := GradeWindow(r, w).counts;
            Counted(t) == Counted(r.counts) + 1 && t.saturated + r.counts.ungraded <= t.ungraded + r.counts.saturated
    ensures var t := GradeWindow(r, w).counts;
            r.known ==> t.ungraded - r.counts.ungraded == t.saturated - r.counts.saturated
  {
  }

  lemma RowCounts(r: Replay, row: Row)
    ensures Counted(GradeRow(r, row).counts) == Counted(r.counts) + Bit(row.SegmentRow?)
    ensures r.counts.saturated <= r.counts.ungraded ==>
              GradeRow(r, row).counts.saturated <= GradeRow(r, row).counts.ungraded
  {
    if row.SegmentRow? {
      TakeCounts(r, row.sample, row.window);
      WindowCounts(TakeSegment(r, row.sample, row.window), row.window);
    }
  }

  /** Every segment row is counted once: fully graded, filling, or ungraded. */
  lemma {:induction false} EveryRowAccounted(rows: seq<Row>)
    ensures Counted(GradeAll(START, rows).counts) == Segments(rows)
    ensures GradeAll(START, rows).counts.saturated <= GradeAll(START, rows).counts.ungraded
  {
    if rows != [] {
      var before := rows[..|rows| - 1];
      EveryRowAccounted(before);
      RowCounts(GradeAll(START, before), rows[|rows| - 1]);
    }
  }

  /** In a faithful log only saturated rows go ungraded. */
  lemma {:induction false} FaithfulLogGraded(events: seq<Event>)
    requires forall i :: 0 <= i < |events| ==> Genuine(events[i])
    ensures var c := GradeAll(START, Log(events)).counts; c.ungraded == c.saturated
  {
    if events != [] {
      var n := |events| - 1;
      FaithfulLogGraded(events[..n]);
      FaithfulLogAgrees(events[..n]);
      assert Log(events)[..n] == Log(events[..n]);
      RowGraded(GradeAll(START, Log(events[..n])), Play(events[..n]), events[n]);
    }
  }

  lemma RowGraded(r: Replay, c: Controller, e: Event)
    requires InStep(r, c) && Genuine(e)
    ensures var t := GradeRow(r, Logged(Happens(c, e), e)).counts;
            t.ungraded - r.counts.ungraded == t.saturated - r.counts.saturated
  {
    if e.Segment? {
      SegmentTaken(r, c, e);
      var row := Logged(Happens(c, e), e);
      TakeCounts(r, row.sample, row.window);
      WindowCounts(TakeSegment(r, row.sample, row.window), row.window);
    }
  }
}
