/**
  When one line of the window log is possible as a whole, for episodes of any length: three
  totals decide, the time of the acquisitions longer than their segments, the time of the
  others, and the terminal of the runway.
 */
module AbrTotals {
  import opened AbrExact
  import opened AbrJoint
  import opened AbrReplay
  import opened AbrWindow
  import opened Numbers
  import opened Wrappers

  /** Intervals as real rows have them: finite, not empty, and never straddling the length. */
  ghost predicate Real(es: seq<Entry>)
  {
    Ranged(es) && forall i :: 0 <= i < |es| ==> OneSided(es[i])
  }

  /** Every sample with a finite ratio has such an interval, but for a time of less than a microsecond. */
  lemma SampleReal(s: Sample)
    requires s.durMs >= 1 && 0 <= s.prodPm < SATURATED
    ensures Real([AcquisitionInterval(s)]) <==> !(s.prodPm == 0 && s.durMs == 1)
  {
    var e := AcquisitionInterval(s);
    SampleOneSided(s);
    assert (s.prodPm + 1) * s.durMs == s.prodPm * s.durMs + s.durMs;
    assert [e][0] == e;
    if s.prodPm >= 1 {
      ScaleDown(1, s.prodPm, s.durMs);
    }
    RealOne(e);
  }

  lemma RealOne(e: Entry)
    ensures Real([e]) <==> e.hi.Some? && 0 <= e.lo <= e.hi.value - 1 && e.dur >= 0 && OneSided(e)
  {
    assert [e][0] == e;
  }

  predicate Over(e: Entry)
  {
    e.lo >= e.dur
  }

  // ----- the totals of acquisitions

  /** The time of the acquisitions whose interval lies on one side of the length. */
  function TimeOn(es: seq<Entry>, xs: seq<Acquisition>, over: bool): nat
    requires |es| == |xs|
  {
    if es == [] then 0
    else
      var n := |es| - 1;
      TimeOn(es[..n], xs[..n], over) + if Over(es[n]) == over then xs[n].a else 0
  }

  function LengthOver(es: seq<Entry>): int
  {
    if es == [] then 0
    else
      var n := |es| - 1;
      LengthOver(es[..n]) + if Over(es[n]) then es[n].dur else 0
  }

  lemma RealParts(es: seq<Entry>)
    requires Real(es) && es != []
    ensures Real(es[..|es| - 1])
  {
  }

  lemma ContainedParts(es: seq<Entry>, xs: seq<Acquisition>)
    requires ContainsAll(es, xs) && es != []
    ensures ContainsAll(es[..|es| - 1], xs[..|es| - 1]) && Contains(es[|es| - 1], xs[|es| - 1])
  {
  }

  /** Demand and excess in terms of the two times. */
  lemma {:induction false} TermsOfTotals(es: seq<Entry>, xs: seq<Acquisition>)
    requires Real(es) && ContainsAll(es, xs)
    ensures Demand(xs) == TimeOn(es, xs, true) + TimeOn(es, xs, false)
    ensures Excess(xs) == TimeOn(es, xs, true) - LengthOver(es)
    decreases |es|
  {
    if es != [] {
      RealParts(es);
      ContainedParts(es, xs);
      TermsOfTotals(es[..|es| - 1], xs[..|es| - 1]);
      assert OneSided(es[|es| - 1]);
    }
  }

  // ----- which totals are possible

  /** The greatest time of an acquisition when the terminal is t. */
  function Top(e: Entry, t: nat): int
    requires e.hi.Some?
  {
    if Over(e) then e.hi.value - 1 else Min(e.hi.value - 1, t)
  }

  /** The least time of acquisition i when acquisition k attains the terminal t. */
  function Bottom(e: Entry, t: nat, attains: bool): int
  {
    if attains && !Over(e) then t else e.lo
  }

  function LeastOn(es: seq<Entry>, k: nat, t: nat, over: bool): int
  {
    if es == [] then 0
    else
      var n := |es| - 1;
      LeastOn(es[..n], k, t, over) + if Over(es[n]) == over then Bottom(es[n], t, k == n) else 0
  }

  function MostOn(es: seq<Entry>, t: nat, over: bool): int
    requires Ranged(es)
  {
    if es == [] then 0
    else
      var n := |es| - 1;
      RangedParts(es);
      assert es[n].hi.Some?;
      MostOn(es[..n], t, over) + if Over(es[n]) == over then Top(es[n], t) else 0
  }

  /** No acquisition need exceed the terminal t, and acquisition k can attain it. */
  predicate CanEnd(es: seq<Entry>, k: nat, t: nat)
  {
    && k < |es| && (forall i :: 0 <= i < |es| ==> if Over(es[i]) then es[i].dur <= t else es[i].lo <= t)
    && if Over(es[k]) then es[k].dur == t else es[k].hi.Some? && t <= es[k].hi.value - 1
  }

  /** The three totals, with k the acquisition that attains the terminal. */
  predicate Feasible(es: seq<Entry>, k: nat, t: nat, o: nat, u: nat)
    requires Ranged(es)
  {
    && CanEnd(es, k, t)
    && LeastOn(es, k, t, true) <= o <= MostOn(es, t, true)
    && LeastOn(es, k, t, false) <= u <= MostOn(es, t, false)
  }

  // ----- from acquisitions to totals

  /** The acquisitions lie between the least and the greatest times. */
  predicate Within(es: seq<Entry>, k: nat, t: nat, xs: seq<Acquisition>)
    requires Ranged(es)
  {
    |xs| == |es| && forall i :: 0 <= i < |es| ==>
      xs[i].d == es[i].dur && es[i].hi.Some? && Bottom(es[i], t, k == i) <= xs[i].a <= Top(es[i], t)
  }

  lemma {:induction false} WithinTotals(es: seq<Entry>, k: nat, t: nat, xs: seq<Acquisition>, over: bool)
    requires Ranged(es) && Within(es, k, t, xs)
    ensures LeastOn(es, k, t, over) <= TimeOn(es, xs, over) <= MostOn(es, t, over)
    decreases |es|
  {
    if es != [] {
      var n := |es| - 1;
      RangedParts(es);
      assert Within(es[..n], k, t, xs[..n]);
      WithinTotals(es[..n], k, t, xs[..n], over);
    }
  }

  lemma {:induction false} CappedBelow(xs: seq<Acquisition>, t: nat)
    ensures Terminal(xs) <= t <==> forall i :: 0 <= i < |xs| ==> Capped(xs[i]) <= t
  {
    if xs != [] {
      CappedBelow(xs[..|xs| - 1], t);
      assert forall i :: 0 <= i < |xs| - 1 ==> xs[i] == xs[..|xs| - 1][i];
    }
  }

  /** Contained acquisitions have totals that are possible. */
  lemma FeasibleOf(es: seq<Entry>, xs: seq<Acquisition>) returns (k: nat)
    requires Real(es) && ContainsAll(es, xs) && es != []
    ensures Feasible(es, k, Terminal(xs), TimeOn(es, xs, true), TimeOn(es, xs, false))
  {
    var t := Terminal(xs);
    k := TerminalAttained(xs);
    CappedBelow(xs, t);
    forall i | 0 <= i < |es|
      ensures Bottom(es[i], t, k == i) <= xs[i].a <= Top(es[i], t)
      ensures if Over(es[i]) then es[i].dur <= t else es[i].lo <= t
    {
      CappedOf(es[i], xs[i]);
    }
    CappedOf(es[k], xs[k]);
    WithinTotals(es, k, t, xs, true);
    WithinTotals(es, k, t, xs, false);
  }

  lemma CappedOf(e: Entry, x: Acquisition)
    requires OneSided(e) && e.hi.Some? && Contains(e, x)
    ensures Capped(x) == if Over(e) then e.dur else x.a
  {
  }

  // ----- from totals to acquisitions

  /** Room for more time on one side. */
  function RoomOn(es: seq<Entry>, k: nat, t: nat, over: bool): int
    requires Ranged(es)
  {
    MostOn(es, t, over) - LeastOn(es, k, t, over)
  }

  /** The least times do not exceed the greatest. */
  predicate Roomy(es: seq<Entry>, k: nat, t: nat)
    requires Ranged(es)
  {
    forall i :: 0 <= i < |es| ==> es[i].hi.Some? && 0 <= Bottom(es[i], t, k == i) <= Top(es[i], t)
  }

  lemma {:induction false} RoomParts(es: seq<Entry>, k: nat, t: nat, over: bool)
    requires Ranged(es) && Roomy(es, k, t)
    ensures RoomOn(es, k, t, over) >= 0
  {
    if es != [] {
      RangedParts(es);
      RoomParts(es[..|es| - 1], k, t, over);
    }
  }

  /** The least times, with o more on the one side and u more on the other. */
  lemma {:induction false} Spread(es: seq<Entry>, k: nat, t: nat, o: nat, u: nat) returns (xs: seq<Acquisition>)
    requires Ranged(es) && Roomy(es, k, t)
    requires o <= RoomOn(es, k, t, true) && u <= RoomOn(es, k, t, false)
    ensures Within(es, k, t, xs)
    ensures TimeOn(es, xs, true) == LeastOn(es, k, t, true) + o
    ensures TimeOn(es, xs, false) == LeastOn(es, k, t, false) + u
    decreases |es|
  {
    if es == [] {
      xs := [];
    } else {
      var n := |es| - 1;
      var e := es[n];
      RangedParts(es);
      var low, room := Bottom(e, t, k == n), Top(e, t) - Bottom(e, t, k == n);
      var p := es[..n];
      RoomParts(p, k, t, true);
      RoomParts(p, k, t, false);
      var more := Min(room, if Over(e) then o else u);
      var rest := Spread(p, k, t, if Over(e) then o - more else o, if Over(e) then u else u - more);
      xs := rest + [Acquisition(low + more, e.dur)];
      assert xs[..n] == rest;
    }
  }

  /** Within the least and the greatest times the acquisitions are contained and end in t. */
  lemma WithinContained(es: seq<Entry>, k: nat, t: nat, xs: seq<Acquisition>)
    requires Real(es) && CanEnd(es, k, t) && Within(es, k, t, xs)
    ensures ContainsAll(es, xs) && Terminal(xs) == t
  {
    forall i | 0 <= i < |es|
      ensures Contains(es[i], xs[i]) && Capped(xs[i]) <= t
    {
      assert OneSided(es[i]);
    }
    CappedBelow(xs, t);
    assert Capped(xs[k]) == t;
    if t > 0 {
      CappedBelow(xs, t - 1);
    }
  }

  /** Possible totals are the totals of contained acquisitions. */
  lemma TotalsAttained(es: seq<Entry>, k: nat, t: nat, o: nat, u: nat) returns (xs: seq<Acquisition>)
    requires Real(es) && Feasible(es, k, t, o, u)
    ensures ContainsAll(es, xs) && Terminal(xs) == t && TimeOn(es, xs, true) == o && TimeOn(es, xs, false) == u
  {
    var lo, lu := LeastOn(es, k, t, true), LeastOn(es, k, t, false);
    xs := Spread(es, k, t, o - lo, u - lu);
    WithinContained(es, k, t, xs);
  }

  // ----- the line as a whole

  /** The line that the three totals give. */
  predicate TotalsGive(r: Replay, w: Window, t: nat, o: nat, u: nat)
  {
    var supply, excess := FiniteTerms(r.episode, false).supply, o - LengthOver(r.episode);
    && (o + u) / 1000 == w.demandMs && excess / 1000 == w.excessMs && (excess + t) / 1000 == w.runwayMs
    && (o + u <= supply) == (w.sus != 0) && (excess + t <= r.lastReserveMs * 1000) == (w.sur != 0)
  }

  /**
    A line is possible as a whole exactly when three totals allow it: a terminal that some
    acquisition can attain and none need exceed, and times of the two kinds of acquisition
    between their sums under that terminal, which together give every field.
   */
  lemma JointExactly(r: Replay, w: Window)
    requires Real(r.episode) && r.episode != []
    ensures JointlyPossible(r, w) <==>
            exists k: nat, t: nat, o: nat, u: nat ::
              Feasible(r.episode, k, t, o, u) && TotalsGive(r, w, t, o, u)
  {
    var es := r.episode;
    if xs :| ContainsAll(es, xs) && Gives(r, w, xs) {
      var k := FeasibleOf(es, xs);
      GivenAlike(r, w, xs);
    }
    if k: nat, t: nat, o: nat, u: nat :| Feasible(es, k, t, o, u) && TotalsGive(r, w, t, o, u) {
      var xs := TotalsAttained(es, k, t, o, u);
      GivenAlike(r, w, xs);
    }
  }

  /** Acquisitions give a line exactly when their totals do. */
  lemma GivenAlike(r: Replay, w: Window, xs: seq<Acquisition>)
    requires Real(r.episode) && ContainsAll(r.episode, xs)
    ensures Gives(r, w, xs) <==>
            TotalsGive(r, w, Terminal(xs), TimeOn(r.episode, xs, true), TimeOn(r.episode, xs, false))
  {
    TermsOfTotals(r.episode, xs);
  }
}
