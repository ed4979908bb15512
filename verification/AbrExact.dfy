/**
  The replay has no tolerance (tools/abr-window-grade.py, module text): a logged term passes
  exactly when some acquisition times inside the logged intervals produce it.
 */
module AbrExact {
  import opened AbrWindow
  import opened AbrReplay
  import opened Numbers
  import opened Wrappers

  /** Finite, non-empty intervals. */
  predicate Ranged(es: seq<Entry>)
  {
    forall i :: 0 <= i < |es| ==> es[i].hi.Some? && 0 <= es[i].lo <= es[i].hi.value - 1 && es[i].dur >= 0
  }

  function Room(e: Entry): nat
    requires Ranged([e])
  {
    assert [e][0] == e;
    e.hi.value - 1 - e.lo
  }

  lemma RangedParts(es: seq<Entry>)
    requires Ranged(es) && es != []
    ensures Ranged(es[..|es| - 1]) && Ranged([es[|es| - 1]])
  {
  }

  function Slack(es: seq<Entry>): nat
    requires Ranged(es)
  {
    if es == [] then 0
    else
      RangedParts(es);
      Slack(es[..|es| - 1]) + Room(es[|es| - 1])
  }

  /** The intervals' lower ends, raised by n microseconds in all, from left to right. */
  function Raised(es: seq<Entry>, n: nat): (xs: seq<Acquisition>)
    requires Ranged(es)
    ensures |xs| == |es|
  {
    if es == [] then []
    else
      RangedParts(es);
      var e := es[|es| - 1];
      assert [e][0] == e;
      var m := Min(n, Slack(es[..|es| - 1]));
      Raised(es[..|es| - 1], m) + [Acquisition(e.lo + (n - m), e.dur)]
  }

  lemma {:induction false} RaisedContained(es: seq<Entry>, n: nat)
    requires Ranged(es) && n <= Slack(es)
    ensures ContainsAll(es, Raised(es, n))
  {
    if es != [] {
      RangedParts(es);
      var p := es[..|es| - 1];
      var m := Min(n, Slack(p));
      RaisedContained(p, m);
      LastContained(es, n, m);
    }
  }

  lemma LastContained(es: seq<Entry>, n: nat, m: nat)
    requires Ranged(es) && es != [] && n <= Slack(es) && m == Min(n, Slack(es[..|es| - 1]))
    requires ContainsAll(es[..|es| - 1], Raised(es[..|es| - 1], m))
    ensures ContainsAll(es, Raised(es, n))
  {
    var p := es[..|es| - 1];
    RangedParts(es);
    assert forall i :: 0 <= i < |p| ==> p[i] == es[i];
    assert [es[|es| - 1]][0] == es[|es| - 1];
  }

  // ----- one microsecond more

  /** A value grows by nothing or by one. */
  predicate Steps(before: int, after: int)
  {
    before <= after <= before + 1
  }

  lemma RaisedSplit(es: seq<Entry>, n: nat)
    requires Ranged(es) && es != []
    ensures Ranged(es[..|es| - 1])
    ensures var xs := Raised(es, n);
            var e := es[|es| - 1];
            var m := Min(n, Slack(es[..|es| - 1]));
            e.lo + (n - m) >= 0 && e.dur >= 0 &&
            Demand(xs) == Demand(Raised(es[..|es| - 1], m)) + (e.lo + (n - m)) &&
            Excess(xs) == Excess(Raised(es[..|es| - 1], m)) + Max(e.lo + (n - m) - e.dur, 0) &&
            Terminal(xs) == Max(Terminal(Raised(es[..|es| - 1], m)), Min(e.lo + (n - m), e.dur))
  {
  }

  /** One step in front of the last acquisition, or one microsecond more in it. */
  lemma TermsStep(ex: int, te: int, ex': int, te': int, a: int, a': int, d: int)
    requires d >= 0 && te <= te' && Steps(ex, ex') && Steps(ex + te, ex' + te')
    requires a' == a || (a' == a + 1 && ex' == ex && te' == te)
    ensures Steps(ex + Max(a - d, 0), ex' + Max(a' - d, 0))
    ensures Max(te, Min(a, d)) <= Max(te', Min(a', d))
    ensures Steps(ex + Max(a - d, 0) + Max(te, Min(a, d)), ex' + Max(a' - d, 0) + Max(te', Min(a', d)))
  {
  }

  /** The three sums of the raised acquisitions, without the acquisitions. */
  datatype Sums = Sums(demand: int, excess: int, terminal: int)

  function After(s: Sums, a: int, d: int): Sums
  {
    Sums(s.demand + a, s.excess + Max(a - d, 0), Max(s.terminal, Min(a, d)))
  }

  function SumsAt(es: seq<Entry>, n: nat): Sums
    requires Ranged(es)
  {
    if es == [] then Sums(0, 0, 0)
    else
      RangedParts(es);
      var p, e := es[..|es| - 1], es[|es| - 1];
      var m := Min(n, Slack(p));
      After(SumsAt(p, m), e.lo + (n - m), e.dur)
  }

  lemma {:induction false} RaisedSums(es: seq<Entry>, n: nat)
    requires Ranged(es)
    ensures var xs, t := Raised(es, n), SumsAt(es, n);
            Demand(xs) == t.demand && Excess(xs) == t.excess && Terminal(xs) == t.terminal
    decreases |es|
  {
    if es != [] {
      RangedParts(es);
      RaisedSplit(es, n);
      RaisedSums(es[..|es| - 1], Min(n, Slack(es[..|es| - 1])));
    }
  }

  /** Demand one more, excess and runway at most one more. */
  predicate OneMore(s: Sums, t: Sums)
  {
    && t.demand == s.demand + 1 && s.terminal <= t.terminal
    && Steps(s.excess, t.excess) && Steps(s.excess + s.terminal, t.excess + t.terminal)
  }

  lemma OneMoreBefore(s: Sums, t: Sums, a: int, d: int)
    requires OneMore(s, t) && d >= 0
    ensures OneMore(After(s, a, d), After(t, a, d))
  {
    TermsStep(s.excess, s.terminal, t.excess, t.terminal, a, a, d);
  }

  lemma OneMoreLast(s: Sums, a: int, d: int)
    requires d >= 0
    ensures OneMore(After(s, a, d), After(s, a + 1, d))
  {
    TermsStep(s.excess, s.terminal, s.excess, s.terminal, a, a + 1, d);
  }

  lemma {:induction false} SumsStep(es: seq<Entry>, n: nat)
    requires Ranged(es) && n < Slack(es)
    ensures OneMore(SumsAt(es, n), SumsAt(es, n + 1))
    decreases |es|
  {
    RangedParts(es);
    var p, e := es[..|es| - 1], es[|es| - 1];
    var slack := Slack(p);
    if n < slack {
      SumsStep(p, n);
      OneMoreBefore(SumsAt(p, n), SumsAt(p, n + 1), e.lo, e.dur);
    } else {
      OneMoreLast(SumsAt(p, slack), e.lo + (n - slack), e.dur);
    }
  }

  /** One microsecond more moves demand by one, excess and runway by at most one. */
  lemma RaisedStep(es: seq<Entry>, n: nat)
    requires Ranged(es) && n < Slack(es)
    ensures var xs, ys := Raised(es, n), Raised(es, n + 1);
            && Demand(ys) == Demand(xs) + 1
            && Steps(Excess(xs), Excess(ys)) && Steps(Runway(xs), Runway(ys))
            && Terminal(xs) <= Terminal(ys)
  {
    RaisedSums(es, n);
    RaisedSums(es, n + 1);
    SumsStep(es, n);
  }

  // ----- the ends

  lemma {:induction false} RaisedEnds(es: seq<Entry>, high: bool)
    requires Ranged(es)
    ensures var xs, t := Raised(es, if high then Slack(es) else 0), FiniteTerms(es, high);
            Demand(xs) == t.demand && Excess(xs) == t.excess && Terminal(xs) == t.terminal
    decreases |es|
  {
    if es != [] {
      var k := |es| - 1;
      RangedParts(es);
      RaisedSplit(es, if high then Slack(es) else 0);
      RaisedEnds(es[..k], high);
      LastEnd(es[k], high);
      if k == 0 {
        assert es[..k] == [];
      }
    }
  }

  lemma LastEnd(e: Entry, high: bool)
    requires Ranged([e])
    ensures EndPoint(e, high) == e.lo + (if high then Room(e) else 0) && e.hi.Some? && e.lo >= 0 && e.dur >= 0
  {
    assert [e][0] == e;
  }

  // ----- every value in between

  datatype Term = OfDemand | OfExcess | OfRunway

  function Value(t: Term, xs: seq<Acquisition>): nat
  {
    match t
    case OfDemand => Demand(xs)
    case OfExcess => Excess(xs)
    case OfRunway => Runway(xs)
  }

  function EndValue(t: Term, es: seq<Entry>, high: bool): int
  {
    var f := FiniteTerms(es, high);
    match t
    case OfDemand => f.demand
    case OfExcess => f.excess
    case OfRunway => f.Runway()
  }

  lemma ValueStep(es: seq<Entry>, t: Term, n: nat)
    requires Ranged(es) && n < Slack(es)
    ensures Value(t, Raised(es, n + 1)) <= Value(t, Raised(es, n)) + 1
  {
    RaisedStep(es, n);
  }

  /** No value between the ends is skipped. */
  lemma {:induction false} Reached(es: seq<Entry>, t: Term, v: int, n: nat) returns (m: nat)
    requires Ranged(es) && n <= Slack(es)
    requires Value(t, Raised(es, 0)) <= v <= Value(t, Raised(es, n))
    ensures m <= n && Value(t, Raised(es, m)) == v
    decreases n
  {
    if Value(t, Raised(es, n)) == v {
      m := n;
    } else {
      ValueStep(es, t, n - 1);
      m := Reached(es, t, v, n - 1);
    }
  }

  lemma Attained(es: seq<Entry>, t: Term, v: int) returns (xs: seq<Acquisition>)
    requires Ranged(es) && EndValue(t, es, false) <= v <= EndValue(t, es, true)
    ensures ContainsAll(es, xs) && Value(t, xs) == v
  {
    RaisedEnds(es, false);
    RaisedEnds(es, true);
    var m := Reached(es, t, v, Slack(es));
    RaisedContained(es, m);
    xs := Raised(es, m);
  }

  lemma Enclosed(es: seq<Entry>, t: Term, xs: seq<Acquisition>)
    requires Ranged(es) && ContainsAll(es, xs)
    ensures EndValue(t, es, false) <= Value(t, xs) <= EndValue(t, es, true)
  {
    TermsEnclose(es, xs);
  }

  /** The two ends are themselves possible. */
  lemma EndsOrdered(es: seq<Entry>, t: Term)
    requires Ranged(es)
    ensures EndValue(t, es, false) <= EndValue(t, es, true)
  {
    RaisedContained(es, 0);
    Enclosed(es, t, Raised(es, 0));
  }

  // ----- what passes

  /** Some acquisitions the log allows give the term this many whole milliseconds. */
  ghost predicate CanLog(es: seq<Entry>, t: Term, ms: int)
  {
    exists xs :: ContainsAll(es, xs) && Value(t, xs) / 1000 == ms
  }

  /** Whole milliseconds between two ends are the milliseconds of some value between them. */
  lemma InMs(lo: nat, hi: nat, ms: int) returns (v: nat)
    requires lo <= hi && lo / 1000 <= ms <= hi / 1000
    ensures lo <= v <= hi && v / 1000 == ms
  {
    v := if ms * 1000 >= lo then ms * 1000 else lo;
  }

  lemma EndsPositive(es: seq<Entry>, t: Term)
    requires Ranged(es)
    ensures 0 <= EndValue(t, es, false) <= EndValue(t, es, true)
  {
    RaisedEnds(es, false);
    EndsOrdered(es, t);
  }

  /** The interval test of a logged term is exact. */
  lemma TermExact(es: seq<Entry>, t: Term, ms: int)
    requires Ranged(es)
    ensures !OutsideMs(ms, EndValue(t, es, false), EndValue(t, es, true)) <==> CanLog(es, t, ms)
  {
    if !OutsideMs(ms, EndValue(t, es, false), EndValue(t, es, true)) {
      EndsPositive(es, t);
      var v := InMs(EndValue(t, es, false), EndValue(t, es, true), ms);
      var xs := Attained(es, t, v);
    }
    if CanLog(es, t, ms) {
      LoggedInside(es, t, ms);
    }
  }

  lemma LoggedBetween(es: seq<Entry>, t: Term, xs: seq<Acquisition>)
    requires Ranged(es) && ContainsAll(es, xs)
    ensures EndValue(t, es, false) / 1000 <= Value(t, xs) / 1000 <= EndValue(t, es, true) / 1000
  {
    var lo, v, hi := EndValue(t, es, false), Value(t, xs), EndValue(t, es, true);
    Enclosed(es, t, xs);
    FloorMonotone(lo, v);
    FloorMonotone(v, hi);
  }

  lemma LoggedInside(es: seq<Entry>, t: Term, ms: int)
    requires Ranged(es) && CanLog(es, t, ms)
    ensures !OutsideMs(ms, EndValue(t, es, false), EndValue(t, es, true))
  {
    var xs :| ContainsAll(es, xs) && Value(t, xs) / 1000 == ms;
    LoggedBetween(es, t, xs);
  }

  /** Some acquisitions the log allows put the term at most at the bound, or above it. */
  ghost predicate CanCompare(es: seq<Entry>, t: Term, bound: int, within: bool)
  {
    exists xs :: ContainsAll(es, xs) && (Value(t, xs) <= bound) == within
  }

  lemma CompareExact(es: seq<Entry>, t: Term, bound: int, within: bool)
    requires Ranged(es)
    ensures CanCompare(es, t, bound, within) <==>
            if within then EndValue(t, es, false) <= bound else EndValue(t, es, true) > bound
  {
    var lo, hi := EndValue(t, es, false), EndValue(t, es, true);
    EndsOrdered(es, t);
    if within && lo <= bound {
      var xs := Attained(es, t, lo);
      assert (Value(t, xs) <= bound) == within;
    }
    if !within && hi > bound {
      var xs := Attained(es, t, hi);
      assert (Value(t, xs) <= bound) == within;
    }
    if xs :| ContainsAll(es, xs) && (Value(t, xs) <= bound) == within {
      Enclosed(es, t, xs);
    }
  }

  /** The fields that do not depend on an interval. */
  predicate Coherent(r: Replay, w: Window)
  {
    w.have == |r.episode| && VerdictMismatches(w) == 0 && w.supplyMs == FiniteTerms(r.episode, false).supply / 1000
  }

  /** Every interval field, taken by itself, could have been logged. */
  ghost predicate Possible(r: Replay, w: Window)
  {
    var es := r.episode;
    && CanLog(es, OfDemand, w.demandMs) && CanLog(es, OfExcess, w.excessMs) && CanLog(es, OfRunway, w.runwayMs)
    && CanCompare(es, OfDemand, FiniteTerms(es, false).supply, w.sus != 0)
    && CanCompare(es, OfRunway, r.lastReserveMs * 1000, w.sur != 0)
  }

  /**
    A fully graded row adds no disagreement exactly when it is coherent and each of its
    fields could have come from acquisitions inside the logged intervals.
   */
  lemma RowExact(r: Replay, w: Window)
    requires r.known && r.episode != [] && Ranged(r.episode)
    ensures GradeWindow(r, w).counts.disagree == r.counts.disagree <==> Coherent(r, w) && Possible(r, w)
  {
    var es := r.episode;
    TermExact(es, OfDemand, w.demandMs);
    TermExact(es, OfExcess, w.excessMs);
    TermExact(es, OfRunway, w.runwayMs);
    CompareExact(es, OfDemand, FiniteTerms(es, false).supply, w.sus != 0);
    CompareExact(es, OfRunway, r.lastReserveMs * 1000, w.sur != 0);
    assert !AnySaturated(es);
  }
}
