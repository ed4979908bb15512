/**
  One line of the window log as a whole. The replay compares its fields one by one
  (tools/abr-window-grade.py, `grade`); here is what that says about all of them together.
 */
module AbrJoint {
  import opened AbrExact
  import opened AbrReplay
  import opened AbrWindow
  import opened Numbers
  import opened Wrappers

  // ----- all fields at once

  /** The acquisitions give every interval field of the line. */
  predicate Gives(r: Replay, w: Window, xs: seq<Acquisition>)
  {
    && Value(OfDemand, xs) / 1000 == w.demandMs && Value(OfExcess, xs) / 1000 == w.excessMs
    && Value(OfRunway, xs) / 1000 == w.runwayMs
    && (Value(OfDemand, xs) <= FiniteTerms(r.episode, false).supply) == (w.sus != 0)
    && (Value(OfRunway, xs) <= r.lastReserveMs * 1000) == (w.sur != 0)
  }

  /** Some acquisitions inside the intervals give the whole line. */
  ghost predicate JointlyPossible(r: Replay, w: Window)
  {
    exists xs :: ContainsAll(r.episode, xs) && Gives(r, w, xs)
  }

  /** The logged value of the term is the same at both ends of the intervals. */
  predicate Settled(es: seq<Entry>, t: Term)
  {
    EndValue(t, es, false) / 1000 == EndValue(t, es, true) / 1000
  }

  /** Both ends of the intervals are on the same side of the bound. */
  predicate Decided(es: seq<Entry>, t: Term, bound: int)
  {
    EndValue(t, es, false) <= bound <==> EndValue(t, es, true) <= bound
  }

  function Open(settled: bool): nat
  {
    if settled then 0 else 1
  }

  /** How many of the five interval fields the logged intervals leave open. */
  function OpenFields(r: Replay): nat
  {
    var es := r.episode;
    Open(Settled(es, OfDemand)) + Open(Settled(es, OfExcess)) + Open(Settled(es, OfRunway)) +
    Open(Decided(es, OfDemand, FiniteTerms(es, false).supply)) + Open(Decided(es, OfRunway, r.lastReserveMs * 1000))
  }

  /** A settled term is logged alike for all acquisitions inside the intervals. */
  lemma SettledAlike(es: seq<Entry>, t: Term, ms: int, xs: seq<Acquisition>)
    requires Ranged(es) && Settled(es, t) && CanLog(es, t, ms) && ContainsAll(es, xs)
    ensures Value(t, xs) / 1000 == ms
  {
    var ys :| ContainsAll(es, ys) && Value(t, ys) / 1000 == ms;
    LoggedBetween(es, t, xs);
    LoggedBetween(es, t, ys);
  }

  lemma DecidedAlike(es: seq<Entry>, t: Term, bound: int, within: bool, xs: seq<Acquisition>)
    requires Ranged(es) && Decided(es, t, bound) && CanCompare(es, t, bound, within) && ContainsAll(es, xs)
    ensures (Value(t, xs) <= bound) == within
  {
    var ys :| ContainsAll(es, ys) && (Value(t, ys) <= bound) == within;
    Enclosed(es, t, xs);
    Enclosed(es, t, ys);
  }

  /** Acquisitions that give the one open field, or any when none is open. */
  lemma OneOpen(r: Replay, w: Window) returns (xs: seq<Acquisition>)
    requires Ranged(r.episode) && Possible(r, w) && OpenFields(r) <= 1
    ensures ContainsAll(r.episode, xs)
    ensures !Settled(r.episode, OfDemand) ==> Value(OfDemand, xs) / 1000 == w.demandMs
    ensures !Settled(r.episode, OfExcess) ==> Value(OfExcess, xs) / 1000 == w.excessMs
    ensures !Settled(r.episode, OfRunway) ==> Value(OfRunway, xs) / 1000 == w.runwayMs
    ensures var supply := FiniteTerms(r.episode, false).supply;
            !Decided(r.episode, OfDemand, supply) ==> (Value(OfDemand, xs) <= supply) == (w.sus != 0)
    ensures var reserve := r.lastReserveMs * 1000;
            !Decided(r.episode, OfRunway, reserve) ==> (Value(OfRunway, xs) <= reserve) == (w.sur != 0)
  {
    var es := r.episode;
    if !Settled(es, OfDemand) {
      xs :| ContainsAll(es, xs) && Value(OfDemand, xs) / 1000 == w.demandMs;
    } else if !Settled(es, OfExcess) {
      xs :| ContainsAll(es, xs) && Value(OfExcess, xs) / 1000 == w.excessMs;
    } else if !Settled(es, OfRunway) {
      xs :| ContainsAll(es, xs) && Value(OfRunway, xs) / 1000 == w.runwayMs;
    } else if !Decided(es, OfDemand, FiniteTerms(es, false).supply) {
      xs :| ContainsAll(es, xs) && (Value(OfDemand, xs) <= FiniteTerms(es, false).supply) == (w.sus != 0);
    } else {
      xs :| ContainsAll(es, xs) && (Value(OfRunway, xs) <= r.lastReserveMs * 1000) == (w.sur != 0);
    }
  }

  /**
    When the intervals leave at most one field open, passing field by field is passing
    jointly: one set of acquisitions gives the whole line.
   */
  lemma JointWhenOneOpen(r: Replay, w: Window)
    requires Ranged(r.episode) && OpenFields(r) <= 1
    ensures Possible(r, w) <==> JointlyPossible(r, w)
  {
    var es, supply, reserve := r.episode, FiniteTerms(r.episode, false).supply, r.lastReserveMs * 1000;
    if Possible(r, w) {
      var xs := OneOpen(r, w);
      if Settled(es, OfDemand) {
        SettledAlike(es, OfDemand, w.demandMs, xs);
      }
      if Settled(es, OfExcess) {
        SettledAlike(es, OfExcess, w.excessMs, xs);
      }
      if Settled(es, OfRunway) {
        SettledAlike(es, OfRunway, w.runwayMs, xs);
      }
      if Decided(es, OfDemand, supply) {
        DecidedAlike(es, OfDemand, supply, w.sus != 0, xs);
      }
      if Decided(es, OfRunway, reserve) {
        DecidedAlike(es, OfRunway, reserve, w.sur != 0, xs);
      }
      assert Gives(r, w, xs);
    }
  }

  // ----- the intervals of real rows

  /** Within the interval the acquisition is either never longer than its segment or never shorter. */
  predicate OneSided(e: Entry)
  {
    e.hi.Some? ==> e.hi.value - 1 < e.dur || e.lo >= e.dur
  }

  /** Intervals of samples and of committed transactions never straddle the length of the segment. */
  lemma SampleOneSided(s: Sample)
    requires s.durMs >= 1 && s.prodPm >= 0
    ensures OneSided(AcquisitionInterval(s))
  {
    var d, pm := s.durMs, s.prodPm;
    if pm >= 1000 {
      ScaleDown(1000, pm, d);
    } else {
      ScaleDown(pm + 1, 1000, d);
    }
  }

  lemma CommitOneSided(acqMs: nat, durMs: nat)
    requires durMs >= 1
    ensures OneSided(Entry(Max(1, acqMs * 1000), Some((acqMs + 1) * 1000), durMs * 1000))
  {
  }

  // ----- one acquisition: exactly when

  /** The least and the greatest time that the interval and every field of the line allow. */
  function LeastTime(e: Entry, reserveUs: int, w: Window): int
  {
    Max(Max(e.lo, w.demandMs * 1000), Max(if w.sus != 0 then e.lo else e.dur + 1,
                                          if w.sur != 0 then e.lo else reserveUs + 1))
  }

  function GreatestTime(e: Entry, reserveUs: int, w: Window): int
    requires e.hi.Some?
  {
    var top := e.hi.value - 1;
    Min(Min(top, w.demandMs * 1000 + 999),
        Min(if w.sus != 0 then e.dur else top, if w.sur != 0 then reserveUs else top))
  }

  lemma OneGives(r: Replay, w: Window, x: Acquisition)
    requires |r.episode| == 1 && r.episode[0].hi.Some? && r.episode[0].dur == x.d && x.d % 1000 == 0
    ensures Contains(r.episode[0], x) && Gives(r, w, [x]) <==>
            && w.runwayMs == w.demandMs && w.excessMs == Max(w.demandMs - x.d / 1000, 0)
            && LeastTime(r.episode[0], r.lastReserveMs * 1000, w) <= x.a
            && x.a <= GreatestTime(r.episode[0], r.lastReserveMs * 1000, w)
  {
    TermsOne(x);
    assert r.episode[..0] == [];
    assert FiniteTerms(r.episode, false).supply == x.d;
  }

  /**
    With a single acquisition, as after every commit, a line is possible as a whole exactly
    when its runway is its demand, its excess is what the demand has over the length, and the
    interval, the two bounds and the logged millisecond leave a common time.
   */
  lemma OneAcquisitionExactly(r: Replay, w: Window)
    requires |r.episode| == 1 && r.episode[0].hi.Some?
    requires r.episode[0].lo >= 0 && r.episode[0].dur >= 0 && r.episode[0].dur % 1000 == 0
    ensures var e := r.episode[0];
            JointlyPossible(r, w) <==>
              && w.runwayMs == w.demandMs && w.excessMs == Max(w.demandMs - e.dur / 1000, 0)
              && LeastTime(e, r.lastReserveMs * 1000, w) <= GreatestTime(e, r.lastReserveMs * 1000, w)
  {
    var e := r.episode[0];
    var least := Acquisition(LeastTime(e, r.lastReserveMs * 1000, w), e.dur);
    OneGives(r, w, least);
    if xs :| ContainsAll(r.episode, xs) && Gives(r, w, xs) {
      assert xs == [xs[0]];
      OneGives(r, w, xs[0]);
    }
    if Contains(e, least) && Gives(r, w, [least]) {
      assert ContainsAll(r.episode, [least]);
    }
  }

  // ----- a row that passes

  /** A segment of two seconds, delivered in between 1.000 and 1.002 seconds, with its window line. */
  function FirstRow(runwayMs: int): Row
  {
    SegmentRow(Sample(Some(5000), 2000, 500, Some(true)),
               Window("admit", 1, 1, 0, 0, -1, 1000, 2000, 0, runwayMs, 1, 1, 0, 2000))
  }

  lemma FirstTerms(es: seq<Entry>)
    requires es == [Entry(1_000_000, Some(1_002_000), 2_000_000)]
    ensures FiniteTerms(es, false) == Terms(1_000_000, 2_000_000, 0, 1_000_000)
    ensures FiniteTerms(es, true) == Terms(1_001_999, 2_000_000, 0, 1_001_999)
  {
    assert es[..0] == [];
  }

  /** Replayed from the start, the row is checked, and a runway of 1000 or 1001 milliseconds passes. */
  lemma FirstGraded(runwayMs: int)
    requires 1000 <= runwayMs <= 1001
    ensures var r := GradeRow(START, FirstRow(runwayMs));
            && r.counts.checked == 1 && r.counts.disagree == 0 && r.lastReserveMs == 5000
            && r.episode == [Entry(1_000_000, Some(1_002_000), 2_000_000)]
  {
    var row := FirstRow(runwayMs);
    assert AcquisitionInterval(row.sample) == Entry(1_000_000, Some(1_002_000), 2_000_000);
    var taken := TakeSegment(START, row.sample, row.window);
    assert taken.episode == [Entry(1_000_000, Some(1_002_000), 2_000_000)];
    FirstTerms(taken.episode);
  }

  /**
    The first row of a log can pass although no acquisition produces its line: it logs the
    demand of the lower end of its interval and the runway of the upper end, and for a single
    acquisition the two are the same time.
   */
  lemma MixedPasses()
    ensures var r := GradeAll(START, [FirstRow(1001)]);
            r.counts.checked == 1 && r.counts.disagree == 0 && !JointlyPossible(r, FirstRow(1001).window)
  {
    GradeOne(FirstRow(1001));
    FirstGraded(1001);
    OneAcquisitionExactly(GradeAll(START, [FirstRow(1001)]), FirstRow(1001).window);
  }

  lemma GradeOne(row: Row)
    ensures GradeAll(START, [row]) == GradeRow(START, row)
  {
    assert [row][..0] == [];
  }

  /** One open field is enough but not necessary: here two are open, and the line is possible as a whole. */
  lemma TwoOpenJoint()
    ensures var r := GradeAll(START, [FirstRow(1000)]);
            OpenFields(r) == 2 && JointlyPossible(r, FirstRow(1000).window)
  {
    GradeOne(FirstRow(1000));
    FirstGraded(1000);
    var r := GradeAll(START, [FirstRow(1000)]);
    FirstTerms(r.episode);
    OneAcquisitionExactly(r, FirstRow(1000).window);
  }
}
