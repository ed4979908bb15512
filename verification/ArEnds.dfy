/**
  When the lenient reader returns at all. Size fields may be negative, so its loop
  (ci/gen-release-audit.py, `ar_members`) can go back, and then round and round.
 */
module ArEnds {
  import opened ArArchive
  import opened ArText
  import opened Numbers
  import opened Slices
  import opened Wrappers

  /** The offset after k rounds of the loop; where the loop stops, it stays. */
  function Orbit(r: Reader, raw: string, off: int, k: nat): int
  {
    if k == 0 then off
    else
      var p := Orbit(r, raw, off, k - 1);
      if Goes(r, raw, p) then Next(r, raw, p) else p
  }

  /** The loop takes the same header again. */
  ghost predicate Repeats(r: Reader, raw: string, off: int)
  {
    exists i: nat, j: nat ::
      i < j && Goes(r, raw, Orbit(r, raw, off, i)) && Orbit(r, raw, off, i) == Orbit(r, raw, off, j)
  }

  /** A round of the loop makes progress unless the size is -60 or below. */
  lemma Progress(r: Reader, raw: string, off: int)
    requires Goes(r, raw, off)
    ensures Next(r, raw, off) > off <==> EntryAt(r, raw, off).size > -60
  {
  }

  // ----- following the loop

  lemma {:induction false} OrbitNext(r: Reader, raw: string, off: int, k: nat)
    requires Goes(r, raw, off)
    ensures Orbit(r, raw, Next(r, raw, off), k) == Orbit(r, raw, off, k + 1)
  {
    if k > 0 {
      OrbitNext(r, raw, off, k - 1);
    }
  }

  lemma {:induction false} OrbitSum(r: Reader, raw: string, off: int, i: nat, m: nat)
    ensures Orbit(r, raw, Orbit(r, raw, off, i), m) == Orbit(r, raw, off, i + m)
  {
    if m > 0 {
      OrbitSum(r, raw, off, i, m - 1);
    }
  }

  lemma {:induction false} GoesBefore(r: Reader, raw: string, off: int, k: nat)
    requires Goes(r, raw, Orbit(r, raw, off, k))
    ensures Goes(r, raw, off)
  {
    if k > 0 {
      var p := Orbit(r, raw, off, k - 1);
      assert Goes(r, raw, p);
      GoesBefore(r, raw, off, k - 1);
    }
  }

  lemma {:induction false} EndsStops(r: Reader, raw: string, off: int, n: nat) returns (k: nat)
    requires EndsIn(r, raw, off, n)
    ensures k <= n && !Goes(r, raw, Orbit(r, raw, off, k))
    decreases n
  {
    if Goes(r, raw, off) {
      k := EndsStops(r, raw, Next(r, raw, off), n - 1);
      OrbitNext(r, raw, off, k);
      k := k + 1;
    } else {
      k := 0;
    }
  }

  lemma {:induction false} StopsEnds(r: Reader, raw: string, off: int, k: nat)
    requires !Goes(r, raw, Orbit(r, raw, off, k))
    ensures EndsIn(r, raw, off, k)
    decreases k
  {
    if Goes(r, raw, off) {
      OrbitNext(r, raw, off, k - 1);
      StopsEnds(r, raw, Next(r, raw, off), k - 1);
    }
  }

  /** A loop that ends does not come back to a header it has taken. */
  lemma {:induction false} NoReturn(r: Reader, raw: string, off: int, n: nat, m: nat)
    requires EndsIn(r, raw, off, n) && m >= 1 && Orbit(r, raw, off, m) == off
    ensures !Goes(r, raw, off)
    decreases n
  {
    if Goes(r, raw, off) {
      var next := Next(r, raw, off);
      OrbitNext(r, raw, off, m);
      assert Orbit(r, raw, next, m) == next;
      NoReturn(r, raw, next, n - 1, m);
      OrbitNext(r, raw, off, m - 1);
      GoesBefore(r, raw, next, m - 1);
    }
  }

  // ----- the offsets are bounded

  /** A field of ten columns holds no number below -10^10, and nothing is zero. */
  lemma SizeBound(field: string)
    requires |field| <= 10
    ensures LenientSize(field).Some? ==> LenientSize(field).value > 0 - Pow10(10)
    ensures field == "" ==> LenientSize(field) == Some(0)
  {
    var t := Strip(field, CharSpace);
    LStripSuffix(RStrip(field, CharSpace), CharSpace);
    Pow10Positive(10);
    if t != "" && Int(t).Some? {
      IntBound(t);
      Pow10Mono(|t|, 10);
    }
  }

  function Lowest(raw: string, off: int): int
  {
    Min(off, 0 - |raw| - Pow10(10))
  }

  /** No round of the loop leads below. */
  ghost predicate Floor(r: Reader, raw: string, low: int)
  {
    forall p :: low <= p && Goes(r, raw, p) ==> low <= Next(r, raw, p)
  }

  lemma LowestFloor(raw: string, off: int)
    ensures Floor(Lenient(), raw, Lowest(raw, off))
  {
    forall p | Lowest(raw, off) <= p && Goes(Lenient(), raw, p) ensures Lowest(raw, off) <= Next(Lenient(), raw, p) {
      NextBound(raw, p, Lowest(raw, off));
    }
  }

  lemma NextBound(raw: string, p: int, low: int)
    requires Goes(Lenient(), raw, p) && low <= p && low <= 0 - |raw| - Pow10(10)
    ensures low <= Next(Lenient(), raw, p)
  {
    var field := SizeField(raw, p);
    SizeBound(field);
    if p + 58 <= 0 - |raw| {
      assert field == "";
    }
  }

  lemma {:induction false} OrbitBound(r: Reader, raw: string, off: int, low: int, k: nat)
    requires Floor(r, raw, low) && low <= off
    ensures low <= Orbit(r, raw, off, k)
  {
    if k > 0 {
      OrbitBound(r, raw, off, low, k - 1);
    }
  }

  // ----- more numbers than places

  function Values(f: nat -> int, n: nat): set<int>
  {
    if n == 0 then {} else Values(f, n - 1) + {f(n - 1)}
  }

  lemma {:induction false} ValuesIn(f: nat -> int, n: nat, v: int)
    ensures v in Values(f, n) <==> exists k: nat :: k < n && f(k) == v
  {
    if n > 0 {
      ValuesIn(f, n - 1, v);
      if f(n - 1) == v {
        assert n - 1 < n;
      }
    }
  }

  lemma {:induction false} ValuesSize(f: nat -> int, n: nat)
    requires forall i: nat, j: nat :: i < j < n ==> f(i) != f(j)
    ensures |Values(f, n)| == n
  {
    if n > 0 {
      ValuesSize(f, n - 1);
      ValuesIn(f, n - 1, f(n - 1));
    }
  }

  lemma {:induction false} IntervalSize(s: set<int>, low: int, n: nat)
    requires forall v :: v in s ==> low <= v < low + n
    ensures |s| <= n
    decreases n
  {
    if n == 0 {
      forall v: int ensures v !in s {
      }
      assert s == {};
    } else {
      var t := s - {low + n - 1};
      IntervalSize(t, low, n - 1);
      assert s <= t + {low + n - 1};
      assert |t| >= |s| - 1;
    }
  }

  lemma Pigeonhole(f: nat -> int, low: int, n: nat)
    requires forall k: nat :: k <= n ==> low <= f(k) < low + n
    ensures exists i: nat, j: nat :: i < j <= n && f(i) == f(j)
  {
    if forall i: nat, j: nat :: i < j < n + 1 ==> f(i) != f(j) {
      var s := Values(f, n + 1);
      ValuesSize(f, n + 1);
      forall v | v in s ensures low <= v < low + n {
        ValuesIn(f, n + 1, v);
      }
      IntervalSize(s, low, n);
    }
  }

  // ----- exactly when

  /** The lenient reader returns exactly when it takes no header twice. */
  lemma EndsExactly(raw: string, off: int)
    ensures Ends(Lenient(), raw, off) <==> !Repeats(Lenient(), raw, off)
  {
    var r := Lenient();
    if n: nat :| EndsIn(r, raw, off, n) {
      forall i: nat, j: nat | i < j && Orbit(r, raw, off, i) == Orbit(r, raw, off, j)
        ensures !Goes(r, raw, Orbit(r, raw, off, i))
      {
        ReturnsNot(r, raw, off, n, i, j);
      }
    } else {
      RunsOn(raw, off);
    }
  }

  lemma ReturnsNot(r: Reader, raw: string, off: int, n: nat, i: nat, j: nat)
    requires EndsIn(r, raw, off, n) && i < j && Orbit(r, raw, off, i) == Orbit(r, raw, off, j)
    ensures !Goes(r, raw, Orbit(r, raw, off, i))
  {
    var p := Orbit(r, raw, off, i);
    if Goes(r, raw, p) {
      var left := EndsFrom(r, raw, off, n, i);
      var m := j - i;
      OrbitSum(r, raw, off, i, m);
      assert i + m == j;
      NoReturn(r, raw, p, left, m);
    }
  }

  lemma {:induction false} EndsFrom(r: Reader, raw: string, off: int, n: nat, i: nat) returns (left: nat)
    requires EndsIn(r, raw, off, n) && Goes(r, raw, Orbit(r, raw, off, i))
    ensures EndsIn(r, raw, Orbit(r, raw, off, i), left)
    decreases n
  {
    left := n;
    if i > 0 {
      GoesBefore(r, raw, off, i);
      OrbitNext(r, raw, off, i - 1);
      left := EndsFrom(r, raw, Next(r, raw, off), n - 1, i - 1);
    }
  }

  lemma RunsOn(raw: string, off: int)
    requires !Ends(Lenient(), raw, off)
    ensures Repeats(Lenient(), raw, off)
  {
    var r := Lenient();
    var low := Lowest(raw, off);
    var f := (k: nat) => Orbit(r, raw, off, k);
    LowestFloor(raw, off);
    forall k: nat ensures Goes(r, raw, f(k)) && low <= f(k) < |raw| {
      if !Goes(r, raw, Orbit(r, raw, off, k)) {
        StopsEnds(r, raw, off, k);
      }
      OrbitBound(r, raw, off, low, k);
    }
    assert f(0) == off;
    Pigeonhole(f, low, |raw| - low);
    var i: nat, j: nat :| i < j && f(i) == f(j);
    assert Orbit(r, raw, off, i) == Orbit(r, raw, off, j);
  }

  /** Every header that the loop takes has a size above -60. */
  ghost predicate Forward(r: Reader, raw: string, off: int)
  {
    forall k: nat :: Goes(r, raw, Orbit(r, raw, off, k)) ==> EntryAt(r, raw, Orbit(r, raw, off, k)).size > -60
  }

  /** Then the reader returns. */
  lemma ForwardEnds(raw: string, off: int)
    requires Forward(Lenient(), raw, off)
    ensures Ends(Lenient(), raw, off)
  {
    var r := Lenient();
    EndsExactly(raw, off);
    var f := (k: nat) => Orbit(r, raw, off, k);
    forall k: nat ensures f(k) <= f(k + 1) && (Goes(r, raw, f(k)) ==> f(k) < f(k + 1)) {
      OrbitStep(r, raw, off, k);
    }
    forall i: nat, j: nat | i < j && Goes(r, raw, Orbit(r, raw, off, i))
      ensures Orbit(r, raw, off, i) != Orbit(r, raw, off, j)
    {
      Rises(f, i, j);
    }
  }

  lemma OrbitStep(r: Reader, raw: string, off: int, k: nat)
    requires Forward(r, raw, off)
    ensures var p, q := Orbit(r, raw, off, k), Orbit(r, raw, off, k + 1); if Goes(r, raw, p) then p < q else p == q
  {
    var p := Orbit(r, raw, off, k);
    if Goes(r, raw, p) {
      Progress(r, raw, p);
    }
  }

  lemma {:induction false} Rises(f: nat -> int, i: nat, j: nat)
    requires i < j && f(i) < f(i + 1) && forall k: nat :: f(k) <= f(k + 1)
    ensures f(i) < f(j)
    decreases j
  {
    if i < j - 1 {
      Rises(f, i, j - 1);
      assert f(j - 1) <= f(j - 1 + 1);
    }
  }

  /** An archive of one header with the size -60. */
  function Stuck(): string
  {
    MAGIC + (Spaces(48) + (Pad("-60", 10) + END))
  }

  /** On it the reader never returns. */
  lemma StuckForever()
    ensures MAGIC <= Stuck() && !Ends(Lenient(), Stuck(), 8)
  {
    var r, raw := Lenient(), Stuck();
    StuckNext();
    assert Orbit(r, raw, 8, 0) == 8 == Orbit(r, raw, 8, 1);
    EndsExactly(raw, 8);
    assert 0 < 1;
  }

  lemma StuckNext()
    ensures Goes(Lenient(), Stuck(), 8) && Next(Lenient(), Stuck(), 8) == 8
  {
    var raw := Stuck();
    assert |raw| == 68 && raw[56..66] == Pad("-60", 10);
    SliceInside(raw, 56, 66);
    MinusSixty();
  }

  lemma MinusSixty()
    ensures LenientSize(Pad("-60", 10)) == Some(-60)
  {
    RStripPad("-60", 10, CharSpace);
    RStripUnique("-60", "-60", CharSpace);
    assert Number("6") == 6;
    assert "60"[..1] == "6";
    assert Number("60") == 60;
    assert "-60"[1..] == "60";
  }
}
