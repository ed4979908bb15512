/**
  The reserve an episode of acquisitions needs (tools/abr-window-grade.py, module text and
  `finite_terms`): the runway is exactly the smallest reserve that survives every order.
 */
module AbrWindow {
  import opened Numbers

  /** One completed acquisition: microseconds it took, microseconds of media it delivered. */
  datatype Acquisition = Acquisition(a: nat, d: nat)

  function Overrun(e: Acquisition): nat
  {
    Max(e.a - e.d, 0)
  }

  function Capped(e: Acquisition): nat
  {
    Min(e.a, e.d)
  }

  function Demand(es: seq<Acquisition>): nat
  {
    if es == [] then 0 else Demand(es[..|es| - 1]) + es[|es| - 1].a
  }

  function Supply(es: seq<Acquisition>): nat
  {
    if es == [] then 0 else Supply(es[..|es| - 1]) + es[|es| - 1].d
  }

  function Excess(es: seq<Acquisition>): nat
  {
    if es == [] then 0 else Excess(es[..|es| - 1]) + Overrun(es[|es| - 1])
  }

  function Terminal(es: seq<Acquisition>): nat
  {
    if es == [] then 0 else Max(Terminal(es[..|es| - 1]), Capped(es[|es| - 1]))
  }

  function Runway(es: seq<Acquisition>): nat
  {
    Excess(es) + Terminal(es)
  }

  // ----- playing the episode out in some order

  /** The reserve left after a list of acquisitions: each spends its time, then earns its media. */
  function Left(reserve: int, es: seq<Acquisition>): int
  {
    reserve - Demand(es) + Supply(es)
  }

  /** No acquisition of the list starts when the reserve is shorter than the acquisition. */
  ghost predicate Survives(reserve: int, es: seq<Acquisition>)
  {
    forall i :: 0 <= i < |es| ==> es[i].a <= Left(reserve, es[..i])
  }

  // ----- the runway is enough, whatever the order

  lemma {:induction false} LeftBounded(reserve: int, es: seq<Acquisition>)
    ensures Left(reserve, es) >= reserve - Excess(es)
  {
    if es != [] {
      LeftBounded(reserve, es[..|es| - 1]);
    }
  }

  lemma {:induction false} PrefixExcess(es: seq<Acquisition>, i: nat)
    requires i < |es|
    ensures Excess(es[..i]) + Overrun(es[i]) <= Excess(es)
    ensures Capped(es[i]) <= Terminal(es)
    decreases |es|
  {
    var n := |es| - 1;
    if i == n {
    } else {
      assert es[..n][..i] == es[..i] && es[..n][i] == es[i];
      PrefixExcess(es[..n], i);
    }
  }

  lemma RunwayEnough(reserve: int, es: seq<Acquisition>)
    requires reserve >= Runway(es)
    ensures Survives(reserve, es)
  {
    forall i | 0 <= i < |es| ensures es[i].a <= Left(reserve, es[..i]) {
      LeftBounded(reserve, es[..i]);
      PrefixExcess(es, i);
    }
  }

  // ----- the terms do not depend on the order

  lemma {:induction false} TermsAppend(xs: seq<Acquisition>, ys: seq<Acquisition>)
    ensures Demand(xs + ys) == Demand(xs) + Demand(ys) && Supply(xs + ys) == Supply(xs) + Supply(ys)
    ensures Excess(xs + ys) == Excess(xs) + Excess(ys) && Terminal(xs + ys) == Max(Terminal(xs), Terminal(ys))
    decreases |ys|
  {
    if ys == [] {
      assert xs + ys == xs;
    } else {
      var n := |ys| - 1;
      assert (xs + ys)[..|xs| + n] == xs + ys[..n];
      TermsAppend(xs, ys[..n]);
    }
  }

  lemma TermsOne(e: Acquisition)
    ensures Excess([e]) == Overrun(e) && Terminal([e]) == Capped(e) && Demand([e]) == e.a && Supply([e]) == e.d
  {
  }

  lemma TermsMiddle(xs: seq<Acquisition>, e: Acquisition, ys: seq<Acquisition>)
    ensures Excess(xs + [e] + ys) == Excess(xs + ys) + Overrun(e)
    ensures Terminal(xs + [e] + ys) == Max(Terminal(xs + ys), Capped(e))
  {
    TermsAppend(xs + [e], ys);
    TermsAppend(xs, [e]);
    TermsAppend(xs, ys);
    TermsOne(e);
  }

  lemma TermsWithout(es: seq<Acquisition>, i: nat)
    requires i < |es|
    ensures Excess(es) == Excess(es[..i] + es[i + 1..]) + Overrun(es[i])
    ensures Terminal(es) == Max(Terminal(es[..i] + es[i + 1..]), Capped(es[i]))
  {
    TermsMiddle(es[..i], es[i], es[i + 1..]);
    SplitAround(es, i);
  }

  lemma SplitAround(es: seq<Acquisition>, i: nat)
    requires i < |es|
    ensures es == es[..i] + [es[i]] + es[i + 1..]
  {
  }

  lemma MultisetWithout(es: seq<Acquisition>, i: nat)
    requires i < |es|
    ensures multiset(es) == multiset(es[..i] + es[i + 1..]) + multiset{es[i]}
  {
    assert es == es[..i] + [es[i]] + es[i + 1..];
  }

  lemma {:induction false} TermsPermute(xs: seq<Acquisition>, ys: seq<Acquisition>)
    requires multiset(xs) == multiset(ys)
    ensures Excess(xs) == Excess(ys) && Terminal(xs) == Terminal(ys)
    decreases |xs|
  {
    if xs == [] {
      assert |multiset(ys)| == 0;
    } else {
      var n := |xs| - 1;
      assert xs == xs[..n] + [xs[n]];
      assert xs[n] in multiset(ys);
      var i :| 0 <= i < |ys| && ys[i] == xs[n];
      TermsWithout(ys, i);
      MultisetWithout(ys, i);
      assert multiset(xs) == multiset(xs[..n]) + multiset{xs[n]};
      assert multiset(xs[..n]) == multiset(xs) - multiset{xs[n]};
      assert multiset(ys[..i] + ys[i + 1..]) == multiset(ys) - multiset{xs[n]};
      TermsPermute(xs[..n], ys[..i] + ys[i + 1..]);
    }
  }

  // ----- less is not enough, in the worst order

  /** The acquisitions that cost more than they bring, then the others. */
  function Costly(es: seq<Acquisition>): seq<Acquisition>
  {
    if es == [] then []
    else if es[|es| - 1].a > es[|es| - 1].d then Costly(es[..|es| - 1]) + [es[|es| - 1]]
    else Costly(es[..|es| - 1])
  }

  function Cheap(es: seq<Acquisition>): seq<Acquisition>
  {
    if es == [] then []
    else if es[|es| - 1].a > es[|es| - 1].d then Cheap(es[..|es| - 1])
    else Cheap(es[..|es| - 1]) + [es[|es| - 1]]
  }

  lemma {:induction false} CostlyCheap(es: seq<Acquisition>)
    ensures multiset(es) == multiset(Costly(es)) + multiset(Cheap(es))
  {
    if es != [] {
      var n := |es| - 1;
      CostlyCheap(es[..n]);
      assert es == es[..n] + [es[n]];
    }
  }

  lemma {:induction false} CostlyExcess(es: seq<Acquisition>)
    ensures Demand(Costly(es)) - Supply(Costly(es)) == Excess(es)
  {
    if es != [] {
      var n := |es| - 1;
      CostlyExcess(es[..n]);
      TermsOne(es[n]);
      TermsAppend(Costly(es[..n]), [es[n]]);
    }
  }

  lemma {:induction false} TerminalAttained(es: seq<Acquisition>) returns (k: nat)
    requires es != []
    ensures k < |es| && Capped(es[k]) == Terminal(es)
  {
    var n := |es| - 1;
    if n == 0 || Capped(es[n]) >= Terminal(es[..n]) {
      k := n;
      assert n == 0 ==> es[..n] == [];
    } else {
      k := TerminalAttained(es[..n]);
    }
  }

  /** The other costly acquisitions first, then the one that delivers the most at once. */
  lemma WorstOrder(es: seq<Acquisition>) returns (order: seq<Acquisition>, i: nat)
    requires es != []
    ensures multiset(order) == multiset(es) && i < |order|
    ensures forall reserve :: order[i].a <= Left(reserve, order[..i]) <==> reserve >= Runway(es)
  {
    var k := TerminalAttained(es);
    var rest := es[..k] + es[k + 1..];
    TermsWithout(es, k);
    MultisetWithout(es, k);
    CostlyCheap(rest);
    CostlyExcess(rest);
    var first := Costly(rest);
    order := first + [es[k]] + Cheap(rest);
    i := |first|;
    Placed(first, es[k], Cheap(rest));
  }

  lemma Placed(before: seq<Acquisition>, e: Acquisition, after: seq<Acquisition>)
    ensures var order := before + [e] + after;
            && order[..|before|] == before && order[|before|] == e
            && multiset(order) == multiset(before) + multiset{e} + multiset(after)
  {
  }

  /**
    The runway is exactly the smallest reserve with which every ordering of the episode
    survives: with it no permutation starts an acquisition longer than the reserve held,
    and below it some permutation does.
   */
  lemma RunwayExact(es: seq<Acquisition>, reserve: nat)
    ensures reserve >= Runway(es) <==> forall order :: multiset(order) == multiset(es) ==> Survives(reserve, order)
  {
    if reserve >= Runway(es) {
      forall order | multiset(order) == multiset(es) ensures Survives(reserve, order) {
        TermsPermute(order, es);
        RunwayEnough(reserve, order);
      }
    } else {
      assert Runway([]) == 0;
      var order, i := WorstOrder(es);
      assert !(order[i].a <= Left(reserve, order[..i]));
      assert multiset(order) == multiset(es) && !Survives(reserve, order);
    }
  }
}
