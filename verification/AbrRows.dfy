/**
  The replay told from the rows alone (tools/abr-window-grade.py, `grade`): which rows can be
  attributed to an episode, which episode that is, what each counter counts, and exactly which
  rows add a disagreement.
 */
module AbrRows {
  import opened AbrExact
  import opened AbrReplay
  import opened AbrWindow
  import opened Numbers
  import opened Wrappers

  // ----- the rows so far

  /** The reset count the next segment has to report: the last one reported, and the commits since. */
  function Resets(rows: seq<Row>): int
  {
    if rows == [] then 0
    else
      var before := rows[..|rows| - 1];
      match rows[|rows| - 1]
      case ErrorRow => Resets(before)
      case SeedRow => 0
      case CommitRow(_) => Resets(before) + 1
      case SegmentRow(_, w) => w.resets
  }

  /** The commits since the last segment or seed. */
  function CommitsSince(rows: seq<Row>): nat
  {
    if rows == [] || rows[|rows| - 1].SeedRow? || rows[|rows| - 1].SegmentRow? then 0
    else CommitsSince(rows[..|rows| - 1]) + if rows[|rows| - 1].CommitRow? then 1 else 0
  }

  /**
    The episode is known: since the last seed or commit there was no error row, and every
    segment reported the expected resets and whether it was completed.
   */
  function Attributable(rows: seq<Row>): bool
  {
    rows == [] ||
    var before := rows[..|rows| - 1];
    match rows[|rows| - 1]
    case ErrorRow => false
    case SeedRow => true
    case CommitRow(_) => true
    case SegmentRow(s, w) => Attributable(before) && w.resets == Resets(before) && s.completed.Some?
  }

  /** Its acquisitions: the last committed one, or none after a seed, and the completed segments since. */
  function Episode(rows: seq<Row>): seq<Entry>
  {
    if rows == [] then []
    else
      var before := rows[..|rows| - 1];
      match rows[|rows| - 1]
      case ErrorRow => Episode(before)
      case SeedRow => []
      case CommitRow(e) => [e]
      case SegmentRow(s, _) =>
        if Attributable(rows) && s.completed == Some(true) then Episode(before) + [AcquisitionInterval(s)]
        else Episode(before)
  }

  /** The reserve last reported since the last seed. */
  function Reserve(rows: seq<Row>): int
  {
    if rows == [] || rows[|rows| - 1].SeedRow? then 0
    else if rows[|rows| - 1].SegmentRow? && rows[|rows| - 1].sample.bufMs.Some? then rows[|rows| - 1].sample.bufMs.value
    else Reserve(rows[..|rows| - 1])
  }

  function Commits(rows: seq<Row>): nat
  {
    if rows == [] then 0 else Commits(rows[..|rows| - 1]) + if rows[|rows| - 1].CommitRow? then 1 else 0
  }

  function Seeds(rows: seq<Row>): nat
  {
    if rows == [] then 0 else Seeds(rows[..|rows| - 1]) + if rows[|rows| - 1].SeedRow? then 1 else 0
  }

  /** The commits that a segment with the expected resets confirmed. */
  function Confirmed(rows: seq<Row>): nat
  {
    if rows == [] then 0
    else
      var before, last := rows[..|rows| - 1], rows[|rows| - 1];
      Confirmed(before) + if last.SegmentRow? && last.window.resets == Resets(before) then CommitsSince(before) else 0
  }

  /** The segments that could not be fully graded: not attributable, or with a saturated acquisition. */
  ghost function Ungraded(rows: seq<Row>): nat
  {
    if rows == [] then 0
    else
      Ungraded(rows[..|rows| - 1]) +
      if rows[|rows| - 1].SegmentRow? && (!Attributable(rows) || AnySaturated(Episode(rows))) then 1 else 0
  }

  /** The replay is in the state that the rows describe. */
  ghost predicate Describes(rows: seq<Row>, r: Replay)
  {
    && r.known == Attributable(rows) && r.episode == Episode(rows) && r.lastReserveMs == Reserve(rows)
    && r.seenResets + r.pendingCommits == Resets(rows) && r.pendingCommits == CommitsSince(rows)
  }

  lemma RowDescribed(rows: seq<Row>, r: Replay, row: Row)
    requires Describes(rows, r)
    ensures Describes(rows + [row], GradeRow(r, row))
  {
    assert (rows + [row])[..|rows|] == rows;
    if row.SegmentRow? {
      SegmentDescribed(rows, r, row.sample, row.window);
    }
  }

  lemma SegmentDescribed(rows: seq<Row>, r: Replay, s: Sample, w: Window)
    requires Describes(rows, r)
    ensures Describes(rows + [SegmentRow(s, w)], GradeWindow(TakeSegment(r, s, w), w))
  {
    var all, t := rows + [SegmentRow(s, w)], TakeSegment(r, s, w);
    assert all[..|rows|] == rows && all[|rows|] == SegmentRow(s, w);
    assert t.known == Attributable(all);
    assert t.episode == Episode(all);
    GradingKeeps(t, w);
  }

  lemma GradingKeeps(t: Replay, w: Window)
    ensures GradeWindow(t, w) == t.(counts := GradeWindow(t, w).counts)
  {
  }

  /** What the replay knows after any log is what the rows say. */
  lemma {:induction false} ReplayExactly(rows: seq<Row>)
    ensures Describes(rows, GradeAll(START, rows))
  {
    if rows != [] {
      var before, last := rows[..|rows| - 1], rows[|rows| - 1];
      ReplayExactly(before);
      RowDescribed(before, GradeAll(START, before), last);
      assert before + [last] == rows;
    }
  }

  /** What the counters of rows count. */
  lemma {:induction false} CountersExactly(rows: seq<Row>)
    ensures var c := GradeAll(START, rows).counts;
            && c.candidates == Commits(rows) && c.epochs == Seeds(rows)
            && c.resets == Confirmed(rows) && c.ungraded == Ungraded(rows)
  {
    if rows != [] {
      var before, last := rows[..|rows| - 1], rows[|rows| - 1];
      CountersExactly(before);
      ReplayExactly(before);
      ReplayExactly(rows);
      if last.SegmentRow? {
        SegmentCounters(GradeAll(START, before), last.sample, last.window);
      }
    }
  }

  lemma SegmentCounters(r: Replay, s: Sample, w: Window)
    ensures var t := TakeSegment(r, s, w);
            var c := GradeWindow(t, w).counts;
            && c.candidates == r.counts.candidates && c.epochs == r.counts.epochs
            && c.resets ==
               r.counts.resets + (if w.resets == r.seenResets + r.pendingCommits then r.pendingCommits else 0)
            && c.ungraded == r.counts.ungraded + if !t.known || AnySaturated(t.episode) then 1 else 0
  {
  }

  // ----- what adds a disagreement

  /** An error row is a disagreement, and nothing can be attributed until a seed or a commit. */
  lemma ErrorExactly(r: Replay)
    ensures var t := GradeRow(r, ErrorRow); t.counts.disagree == r.counts.disagree + 1 && !t.known
  {
  }

  /** Seeds and commits never disagree. */
  lemma MarksNever(r: Replay, row: Row)
    requires row.SeedRow? || row.CommitRow?
    ensures GradeRow(r, row).counts.disagree == r.counts.disagree
  {
  }

  /** The window line of an empty episode, and of any other, apart from its interval fields. */
  predicate Consistent(es: seq<Entry>, w: Window)
  {
    && w.have == |es|
    && if es == [] then
         w.verdict == "filling" && w.demandMs == -1 && w.supplyMs == -1 && w.excessMs == -1 && w.runwayMs == -1 &&
         w.sus == 0 && w.sur == 0
       else
         && 0 <= w.sus <= 1 && 0 <= w.sur <= 1 && w.verdict == (if w.sus == 1 && w.sur == 1 then "admit" else "refuse")
         && w.supplyMs == Lengths(es) / 1000
  }

  function Lengths(es: seq<Entry>): int
  {
    if es == [] then 0 else Lengths(es[..|es| - 1]) + es[|es| - 1].dur
  }

  lemma {:induction false} SupplyIsLengths(es: seq<Entry>, high: bool)
    ensures FiniteTerms(es, high).supply == Lengths(es)
  {
    if es != [] {
      SupplyIsLengths(es[..|es| - 1], high);
    }
  }

  /** The segment row does not disagree with what the rows before it say. */
  ghost predicate Agrees(before: seq<Row>, s: Sample, w: Window)
  {
    var rows := before + [SegmentRow(s, w)];
    && w.resets == Resets(before) && s.durMs == w.durMs && w.epsPm == 0 && w.clamp == 0 && w.boundMs == -1
    && w.want == w.have && s.completed.Some?
    && (Attributable(rows) ==>
          Consistent(Episode(rows), w) &&
          (Episode(rows) != [] && !AnySaturated(Episode(rows)) ==> Possible(GradeAll(START, rows), w)))
  }

  /**
    A segment row adds a disagreement exactly when it does not agree: in its resets, its length,
    a constant of the generation, a missing completion bit, or a field of the window line.
   */
  lemma SegmentExactly(before: seq<Row>, s: Sample, w: Window)
    requires Ranged(Episode(before + [SegmentRow(s, w)])) || AnySaturated(Episode(before + [SegmentRow(s, w)]))
    ensures var rows := before + [SegmentRow(s, w)];
            GradeAll(START, rows).counts.disagree == GradeAll(START, before).counts.disagree <==> Agrees(before, s, w)
  {
    var rows, r := before + [SegmentRow(s, w)], GradeAll(START, before);
    assert rows[..|before|] == before;
    ReplayExactly(before);
    ReplayExactly(rows);
    var t := TakeSegment(r, s, w);
    TakenExactly(r, s, w);
    WindowExactly(t, w);
    PossibleAlike(t, GradeWindow(t, w), w);
  }

  /** Taking a segment in disagrees exactly for resets, length, constants and the completion bit. */
  lemma TakenExactly(r: Replay, s: Sample, w: Window)
    ensures var t := TakeSegment(r, s, w);
            && t.counts.disagree >= r.counts.disagree
            && (t.counts.disagree == r.counts.disagree <==>
                  w.resets == r.seenResets + r.pendingCommits && s.durMs == w.durMs && w.epsPm == 0 && w.clamp == 0 &&
                  w.boundMs == -1 && w.want == w.have && s.completed.Some?)
  {
  }

  lemma WindowExactly(t: Replay, w: Window)
    requires Ranged(t.episode) || AnySaturated(t.episode)
    ensures var u := GradeWindow(t, w);
            && u.counts.disagree >= t.counts.disagree
            && (u.counts.disagree == t.counts.disagree <==>
                  t.known ==> Consistent(t.episode, w) &&
                              (t.episode != [] && !AnySaturated(t.episode) ==> Possible(t, w)))
  {
    SupplyIsLengths(t.episode, false);
    if t.known && t.episode != [] && !AnySaturated(t.episode) {
      RowExact(t, w);
    }
  }

  /** What is possible depends on the episode and the reserve only. */
  lemma PossibleAlike(t: Replay, u: Replay, w: Window)
    requires t.episode == u.episode && t.lastReserveMs == u.lastReserveMs
    ensures Possible(t, w) <==> Possible(u, w)
  {
  }

  // ----- the ambiguity counters

  /** Some acquisitions inside the intervals stay at or below the bound, others do not. */
  ghost predicate BothWays(es: seq<Entry>, t: Term, bound: int)
  {
    CanCompare(es, t, bound, true) && CanCompare(es, t, bound, false)
  }

  /** A verdict is counted as ambiguous exactly when acquisitions inside the intervals give both answers. */
  lemma AmbiguousExactly(r: Replay, w: Window)
    requires r.known && r.episode != [] && Ranged(r.episode)
    ensures var t, supply := GradeWindow(r, w).counts, Lengths(r.episode);
            t.ambiguousSus == r.counts.ambiguousSus +
              if BothWays(r.episode, OfDemand, supply) then 1 else 0
    ensures var t, reserve := GradeWindow(r, w).counts, r.lastReserveMs * 1000;
            t.ambiguousSur == r.counts.ambiguousSur +
              if BothWays(r.episode, OfRunway, reserve) then 1 else 0
  {
    var es, supply, reserve := r.episode, Lengths(r.episode), r.lastReserveMs * 1000;
    SupplyIsLengths(es, false);
    CompareExact(es, OfDemand, supply, true);
    CompareExact(es, OfDemand, supply, false);
    CompareExact(es, OfRunway, reserve, true);
    CompareExact(es, OfRunway, reserve, false);
    assert !AnySaturated(es);
  }
}
