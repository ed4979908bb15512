/**
  The acquisition-transfer bound (tools/abr-transfer-bound.py): one observation bounds the
  time at any other size, the k-th largest of a window bounds the next one by rank, and
  the admissible size ratio is found by bisection. Exact reals stand in for floats.
 */
module AbrTransfer {
  /** Bytes and milliseconds of one segment. */
  datatype Observation = Observation(bytes: int, time: real)

  function MaxReal(x: real, y: real): real
  {
    if x >= y then x else y
  }

  /** `transfer` */
  function Transfer(o: Observation, query: real): real
  {
    if o.bytes <= 0 then o.time else o.time * MaxReal(1.0, query / o.bytes as real)
  }

  // ----- the bound is the attained worst case of the cost model

  /** A fixed cost and a cost per byte that explain the observation. */
  predicate Explains(o: Observation, fixed: real, perByte: real)
  {
    fixed >= 0.0 && perByte >= 0.0 && fixed + o.bytes as real * perByte == o.time
  }

  lemma MulMono(x: real, y: real, k: real)
    requires x <= y && k >= 0.0
    ensures x * k <= y * k && k * x <= k * y
  {
  }

  lemma MulPositive(x: real, y: real)
    requires x > 0.0 && y > 0.0
    ensures x * y > 0.0
  {
  }

  lemma DivMul(x: real, y: real, z: real)
    requires y > 0.0
    ensures x * (z / y) == z * (x / y)
  {
    var r, s := z / y, x / y;
    assert r * y == z && s * y == x;
    assert x * r == s * y * r == s * (r * y) == s * z;
  }

  /** No explanation predicts more than the transferred value. */
  lemma TransferSound(o: Observation, query: real, fixed: real, perByte: real)
    requires o.bytes > 0 && query >= 0.0 && Explains(o, fixed, perByte)
    ensures fixed + query * perByte <= Transfer(o, query)
  {
    var b := o.bytes as real;
    MulMono(0.0, b, perByte);
    if query >= b {
      var r := query / b;
      assert r * b == query;
      RatioAboveOne(query, b);
      assert query * perByte == r * (b * perByte);
      MulMono(1.0, r, fixed);
      assert o.time * r == fixed * r + (b * perByte) * r;
    } else {
      MulMono(query, b, perByte);
      RatioBelowOne(query, b);
    }
  }

  lemma RatioAboveOne(query: real, b: real)
    requires b > 0.0 && query >= b
    ensures query / b >= 1.0
  {
    var r := query / b;
    assert r * b == query;
    if r < 1.0 {
      MulPositive(1.0 - r, b);
    }
  }

  lemma RatioBelowOne(query: real, b: real)
    requires b > 0.0 && query < b
    ensures query / b < 1.0
  {
    var r := query / b;
    assert r * b == query;
    if r >= 1.0 {
      MulMono(1.0, r, b);
    }
  }

  /** Some explanation predicts exactly the transferred value: all cost per byte, or none. */
  lemma TransferAttained(o: Observation, query: real) returns (fixed: real, perByte: real)
    requires o.bytes >= 0 && o.time >= 0.0 && query >= 0.0
    ensures Explains(o, fixed, perByte) && fixed + query * perByte == Transfer(o, query)
  {
    var b := o.bytes as real;
    if o.bytes > 0 && query >= b {
      fixed, perByte := 0.0, o.time / b;
      RatioAboveOne(query, b);
      assert b * perByte == o.time;
      DivMul(query, b, o.time);
      assert perByte >= 0.0 by {
        if perByte < 0.0 {
          MulPositive(0.0 - perByte, b);
        }
      }
    } else {
      fixed, perByte := o.time, 0.0;
      if o.bytes > 0 {
        RatioBelowOne(query, b);
      }
    }
  }

  /** No explanation of the observation predicts more than the transferred value. */
  ghost predicate Bounds(o: Observation, query: real)
  {
    forall fixed, perByte :: Explains(o, fixed, perByte) ==> fixed + query * perByte <= Transfer(o, query)
  }

  /**
    The exact reach of the bound. An observation of no bytes says nothing about the cost per
    byte, so there the value returned bounds nothing but a query of no bytes.
   */
  lemma TransferBoundsExactly(o: Observation, query: real)
    requires o.bytes >= 0 && o.time >= 0.0 && query >= 0.0
    ensures Bounds(o, query) <==> o.bytes > 0 || query == 0.0
  {
    if o.bytes > 0 {
      forall fixed, perByte | Explains(o, fixed, perByte) ensures fixed + query * perByte <= Transfer(o, query) {
        TransferSound(o, query, fixed, perByte);
      }
    } else if query > 0.0 {
      var perByte := 1.0 / query;
      assert query * perByte == 1.0;
      assert perByte >= 0.0 by {
        if perByte < 0.0 {
          MulPositive(0.0 - perByte, query);
        }
      }
      assert Explains(o, o.time, perByte);
      assert o.time + query * perByte > Transfer(o, query);
    }
  }

  /** One millisecond for no bytes: a cost of 5 per byte explains it, and exceeds the bound for one byte. */
  lemma NoBytesNoBound()
    ensures var o := Observation(0, 1.0);
            Explains(o, 1.0, 5.0) && 1.0 + 1.0 * 5.0 > Transfer(o, 1.0) == 1.0
  {
  }

  /** A transferred value is never below what was observed. */
  lemma TransferInflates(o: Observation, query: real)
    requires o.time >= 0.0
    ensures Transfer(o, query) >= o.time
  {
    if o.bytes > 0 {
      MulMono(1.0, MaxReal(1.0, query / o.bytes as real), o.time);
    }
  }

  // ----- order statistics

  /** How many values are at least `x`. */
  function AtLeast(s: seq<real>, x: real): nat
  {
    if s == [] then 0 else AtLeast(s[..|s| - 1], x) + if s[|s| - 1] >= x then 1 else 0
  }

  predicate Ascending(s: seq<real>)
  {
    forall i, j :: 0 <= i < j < |s| ==> s[i] <= s[j]
  }

  /** `sorted`, as insertion from the right. */
  function Insert(s: seq<real>, v: real): (t: seq<real>)
    ensures |t| == |s| + 1
  {
    if s == [] || s[|s| - 1] <= v then s + [v] else Insert(s[..|s| - 1], v) + [s[|s| - 1]]
  }

  function Sorted(s: seq<real>): (t: seq<real>)
    ensures |t| == |s|
  {
    if s == [] then [] else Insert(Sorted(s[..|s| - 1]), s[|s| - 1])
  }

  lemma {:induction false} InsertAscending(s: seq<real>, v: real)
    requires Ascending(s)
    ensures Ascending(Insert(s, v))
    ensures forall i :: 0 <= i < |s| + 1 ==> Insert(s, v)[i] == v || Insert(s, v)[i] in s
  {
    if s != [] && s[|s| - 1] > v {
      InsertAscending(s[..|s| - 1], v);
    }
  }

  lemma {:induction false} InsertCounts(s: seq<real>, v: real, x: real)
    ensures AtLeast(Insert(s, v), x) == AtLeast(s, x) + if v >= x then 1 else 0
  {
    if s == [] || s[|s| - 1] <= v {
      assert (s + [v])[..|s|] == s;
    } else {
      var t := Insert(s[..|s| - 1], v);
      InsertCounts(s[..|s| - 1], v, x);
      assert (t + [s[|s| - 1]])[..|t|] == t;
    }
  }

  /** Sorting puts the values in order and keeps every count. */
  lemma {:induction false} SortedCounts(s: seq<real>, x: real)
    ensures Ascending(Sorted(s)) && AtLeast(Sorted(s), x) == AtLeast(s, x)
  {
    if s != [] {
      SortedCounts(s[..|s| - 1], x);
      InsertAscending(Sorted(s[..|s| - 1]), s[|s| - 1]);
      InsertCounts(Sorted(s[..|s| - 1]), s[|s| - 1], x);
    }
  }

  /** The k-th largest value, `sorted(...)[-k]`. */
  function KthLargest(s: seq<real>, k: nat): real
    requires 1 <= k <= |s|
  {
    Sorted(s)[|s| - k]
  }

  lemma {:induction false} AtLeastSorted(s: seq<real>, x: real, i: nat)
    requires Ascending(s) && i <= |s|
    requires forall j :: 0 <= j < i ==> s[j] < x
    requires forall j :: i <= j < |s| ==> s[j] >= x
    ensures AtLeast(s, x) == |s| - i
    decreases |s|
  {
    if s != [] {
      var n := |s| - 1;
      AtLeastSorted(s[..n], x, if i <= n then i else n);
    }
  }

  lemma {:induction false} FirstAtLeast(s: seq<real>, x: real) returns (i: nat)
    requires Ascending(s)
    ensures i <= |s| && (forall j :: 0 <= j < i ==> s[j] < x) && (forall j :: i <= j < |s| ==> s[j] >= x)
  {
    i := |s|;
    while i > 0 && s[i - 1] >= x
      invariant i <= |s| && forall j :: i <= j < |s| ==> s[j] >= x
    {
      i := i - 1;
    }
  }

  /** The k-th largest reaches `x` exactly when at least k values do. */
  lemma KthReaches(s: seq<real>, k: nat, x: real)
    requires 1 <= k <= |s|
    ensures KthLargest(s, k) >= x <==> AtLeast(s, x) >= k
  {
    var t := Sorted(s);
    SortedCounts(s, x);
    var i := FirstAtLeast(t, x);
    AtLeastSorted(t, x, i);
  }

  predicate Below(s: seq<real>, t: seq<real>)
  {
    |s| == |t| && forall i :: 0 <= i < |s| ==> s[i] <= t[i]
  }

  lemma {:induction false} AtLeastMonotone(s: seq<real>, t: seq<real>, x: real)
    requires Below(s, t)
    ensures AtLeast(s, x) <= AtLeast(t, x)
  {
    if s != [] {
      AtLeastMonotone(s[..|s| - 1], t[..|s| - 1], x);
    }
  }

  /** Raising values raises every order statistic. */
  lemma KthMonotone(s: seq<real>, t: seq<real>, k: nat)
    requires Below(s, t) && 1 <= k <= |s|
    ensures KthLargest(s, k) <= KthLargest(t, k)
  {
    var x := KthLargest(s, k);
    KthReaches(s, k, x);
    AtLeastMonotone(s, t, x);
    KthReaches(t, k, x);
  }

  // ----- the rank guarantee

  /** The values of all but observation `j`, transferred to the size of observation `j`. */
  function Transferred(past: seq<Observation>, query: real): (v: seq<real>)
    ensures |v| == |past|
  {
    seq(|past|, i requires 0 <= i < |past| => Transfer(past[i], query))
  }

  function Others(bag: seq<Observation>, j: nat): (rest: seq<Observation>)
    requires j < |bag|
    ensures |rest| == |bag| - 1
  {
    bag[..j] + bag[j + 1..]
  }

  /** Observation `j` exceeds the k-th largest transferred value of the others. */
  predicate Exceeds(bag: seq<Observation>, j: nat, k: nat)
    requires j < |bag| && 1 <= k < |bag|
  {
    bag[j].time > KthLargest(Transferred(Others(bag, j), bag[j].bytes as real), k)
  }

  function Times(bag: seq<Observation>): (v: seq<real>)
    ensures |v| == |bag|
  {
    seq(|bag|, i requires 0 <= i < |bag| => bag[i].time)
  }

  lemma {:induction false} AtLeastAppend(s: seq<real>, t: seq<real>, x: real)
    ensures AtLeast(s + t, x) == AtLeast(s, x) + AtLeast(t, x)
    decreases |t|
  {
    if t == [] {
      assert s + t == s;
    } else {
      assert (s + t)[..|s| + |t| - 1] == s + t[..|t| - 1];
      AtLeastAppend(s, t[..|t| - 1], x);
    }
  }

  lemma AtLeastOthers(bag: seq<Observation>, j: nat)
    requires j < |bag|
    ensures AtLeast(Times(Others(bag, j)), bag[j].time) == AtLeast(Times(bag), bag[j].time) - 1
  {
    var x := bag[j].time;
    var v := Times(bag);
    assert v == v[..j] + [x] + v[j + 1..];
    assert Times(Others(bag, j)) == v[..j] + v[j + 1..];
    AtLeastAppend(v[..j] + [x], v[j + 1..], x);
    AtLeastAppend(v[..j], [x], x);
    AtLeastAppend(v[..j], v[j + 1..], x);
    assert [x][..0] == [];
  }

  /** Exceeding means being among the k largest of the whole bag. */
  lemma ExceedingRank(bag: seq<Observation>, j: nat, k: nat)
    requires j < |bag| && 1 <= k < |bag| && Exceeds(bag, j, k)
    requires forall i :: 0 <= i < |bag| ==> bag[i].time >= 0.0
    ensures AtLeast(Times(bag), bag[j].time) <= k
  {
    var rest := Others(bag, j);
    var raw, moved := Times(rest), Transferred(rest, bag[j].bytes as real);
    forall i | 0 <= i < |rest| ensures raw[i] <= moved[i] {
      TransferInflates(rest[i], bag[j].bytes as real);
    }
    KthReaches(moved, k, bag[j].time);
    AtLeastMonotone(raw, moved, bag[j].time);
    AtLeastOthers(bag, j);
  }

  lemma {:induction false} CountMembers(s: seq<real>, x: real, js: set<nat>)
    requires forall j :: j in js ==> j < |s| && s[j] >= x
    ensures |js| <= AtLeast(s, x)
    decreases |s|
  {
    if s == [] {
      assert js == {};
    } else {
      var n := |s| - 1;
      CountMembers(s[..n], x, js - {n});
      if n in js {
        assert js == (js - {n}) + {n};
      } else {
        assert js == js - {n};
      }
    }
  }

  lemma {:induction false} Smallest(s: seq<real>, js: set<nat>) returns (m: nat)
    requires js != {} && forall j :: j in js ==> j < |s|
    ensures m in js && forall j :: j in js ==> s[j] >= s[m]
    decreases |js|
  {
    m :| m in js;
    if js != {m} {
      var rest := js - {m};
      assert rest != {};
      var r := Smallest(s, rest);
      if s[r] < s[m] {
        m := r;
      }
    }
  }

  /**
    Among any n + 1 observations, at most k exceed the k-th largest transferred value of
    the other n, whatever their sizes and times.
   */
  lemma AtMostKExceed(bag: seq<Observation>, k: nat)
    requires 1 <= k < |bag| && forall i :: 0 <= i < |bag| ==> bag[i].time >= 0.0
    ensures |set j | 0 <= j < |bag| && Exceeds(bag, j, k)| <= k
  {
    var js: set<nat> := set j | 0 <= j < |bag| && Exceeds(bag, j, k);
    if js != {} {
      var m := Smallest(Times(bag), js);
      CountMembers(Times(bag), bag[m].time, js);
      ExceedingRank(bag, m, k);
    }
  }

  // ----- the admissible ratio

  /** What the observation took would, for `ratio` times the current bytes, exceed the duration. */
  predicate TooLong(o: Observation, currentBytes: nat, durationMs: real, ratio: real)
  {
    if o.bytes > 0 && currentBytes as real * ratio > o.bytes as real then
      o.time * (currentBytes as real * ratio / o.bytes as real) > durationMs
    else o.time > durationMs
  }

  /** Fewer than k of the past observations would exceed the duration at that ratio. */
  ghost predicate Admissible(past: seq<Observation>, currentBytes: nat, k: nat, durationMs: real, ratio: real)
  {
    |set i | 0 <= i < |past| && TooLong(past[i], currentBytes, durationMs, ratio)| < k
  }

  /** The least of the values above `x`, or something above it when there is none. */
  lemma {:induction false} LeastAbove(s: seq<real>, x: real) returns (y: real)
    ensures y > x && forall i :: 0 <= i < |s| && s[i] > x ==> s[i] >= y
  {
    y := x + 1.0;
    if s != [] {
      y := LeastAbove(s[..|s| - 1], x);
      var last := s[|s| - 1];
      if x < last < y {
        y := last;
      }
    }
  }

  lemma {:induction false} CountAbove(s: seq<real>, x: real, y: real)
    requires y > x && forall i :: 0 <= i < |s| && s[i] > x ==> s[i] >= y
    ensures |set i | 0 <= i < |s| && s[i] > x| == AtLeast(s, y)
    decreases |s|
  {
    var above := set i | 0 <= i < |s| && s[i] > x;
    if s == [] {
      assert above == {};
    } else {
      var n := |s| - 1;
      CountAbove(s[..n], x, y);
      var before := set i | 0 <= i < n && s[..n][i] > x;
      assert above == before + if s[n] > x then {n} else {};
    }
  }

  lemma {:induction false} AtLeastBetween(s: seq<real>, x: real, v: real, y: real)
    requires x < v <= y && forall i :: 0 <= i < |s| && s[i] > x ==> s[i] >= y
    ensures AtLeast(s, v) == AtLeast(s, y)
    decreases |s|
  {
    if s != [] {
      AtLeastBetween(s[..|s| - 1], x, v, y);
    }
  }

  /** The k-th largest stays at or below `x` exactly when fewer than k values are above. */
  lemma KthStays(s: seq<real>, k: nat, x: real)
    requires 1 <= k <= |s|
    ensures KthLargest(s, k) <= x <==> |set i | 0 <= i < |s| && s[i] > x| < k
  {
    var y := LeastAbove(s, x);
    CountAbove(s, x, y);
    KthReaches(s, k, y);
    var v := KthLargest(s, k);
    if x < v < y {
      KthReaches(s, k, v);
      AtLeastBetween(s, x, v, y);
    }
  }

  /** So it is admissible exactly when the k-th largest transferred value stays inside the duration. */
  lemma AdmissibleBound(past: seq<Observation>, currentBytes: nat, k: nat, durationMs: real, ratio: real)
    requires 1 <= k <= |past|
    ensures Admissible(past, currentBytes, k, durationMs, ratio) <==>
            Bound(past, Query(currentBytes, ratio), k) <= durationMs
  {
    var q := Query(currentBytes, ratio);
    var v := Transferred(past, q);
    forall i | 0 <= i < |past| ensures v[i] > durationMs <==> TooLong(past[i], currentBytes, durationMs, ratio) {
      TransferExceeds(past[i], currentBytes, durationMs, ratio);
    }
    assert (set i | 0 <= i < |v| && v[i] > durationMs) ==
           set i | 0 <= i < |past| && TooLong(past[i], currentBytes, durationMs, ratio);
    KthStays(v, k, durationMs);
  }

  lemma TransferExceeds(o: Observation, currentBytes: nat, durationMs: real, ratio: real)
    ensures Transfer(o, Query(currentBytes, ratio)) > durationMs <==> TooLong(o, currentBytes, durationMs, ratio)
  {
    if o.bytes > 0 {
      var q, b := Query(currentBytes, ratio), o.bytes as real;
      var r := q / b;
      assert r * b == q;
      if q > b {
        RatioAboveOne(q, b);
      } else if q < b {
        RatioBelowOne(q, b);
      } else {
        assert r == 1.0;
      }
    }
  }

  function Query(currentBytes: nat, ratio: real): real
  {
    currentBytes as real * ratio
  }

  function Bound(past: seq<Observation>, query: real, k: nat): real
    requires 1 <= k <= |past|
  {
    KthLargest(Transferred(past, query), k)
  }

  lemma QueryMonotone(currentBytes: nat, r: real, r': real)
    requires r <= r'
    ensures Query(currentBytes, r) <= Query(currentBytes, r')
  {
    MulMono(r, r', currentBytes as real);
  }

  lemma TransferMonotone(o: Observation, q: real, q': real)
    requires o.time >= 0.0 && q <= q'
    ensures Transfer(o, q) <= Transfer(o, q')
  {
    if o.bytes > 0 {
      DivMono(q, q', o.bytes as real);
      MulMono(MaxReal(1.0, q / o.bytes as real), MaxReal(1.0, q' / o.bytes as real), o.time);
    }
  }

  lemma DivMono(x: real, y: real, b: real)
    requires x <= y && b > 0.0
    ensures x / b <= y / b
  {
    var r, s := x / b, y / b;
    assert r * b == x && s * b == y;
    if r > s {
      MulPositive(r - s, b);
    }
  }

  lemma TransferredBelow(past: seq<Observation>, q: real, q': real)
    requires q <= q' && forall i :: 0 <= i < |past| ==> past[i].time >= 0.0
    ensures Below(Transferred(past, q), Transferred(past, q'))
  {
    forall i | 0 <= i < |past| ensures Transferred(past, q)[i] <= Transferred(past, q')[i] {
      TransferMonotone(past[i], q, q');
    }
  }

  lemma BoundMonotone(past: seq<Observation>, q: real, q': real, k: nat)
    requires q <= q' && 1 <= k <= |past| && forall i :: 0 <= i < |past| ==> past[i].time >= 0.0
    ensures Bound(past, q, k) <= Bound(past, q', k)
  {
    TransferredBelow(past, q, q');
    KthMonotone(Transferred(past, q), Transferred(past, q'), k);
  }

  /** A smaller ratio is admissible whenever a larger one is. */
  lemma AdmissibleDownward(past: seq<Observation>, currentBytes: nat, k: nat, durationMs: real, r: real, r': real)
    requires 1 <= k <= |past| && r <= r' && forall i :: 0 <= i < |past| ==> past[i].time >= 0.0
    requires Admissible(past, currentBytes, k, durationMs, r')
    ensures Admissible(past, currentBytes, k, durationMs, r)
  {
    AdmissibleBound(past, currentBytes, k, durationMs, r);
    AdmissibleBound(past, currentBytes, k, durationMs, r');
    QueryMonotone(currentBytes, r, r');
    BoundMonotone(past, Query(currentBytes, r), Query(currentBytes, r'), k);
  }

  /** 39 / 2^n: how far apart the ends are after n halvings. */
  function Gap(n: nat): real
  {
    if n == 0 then 39.0 else Gap(n - 1) / 2.0
  }

  /** A ratio as promised: admissible, and no admissible ratio lies further than the gap above it. */
  ghost predicate LargestAdmissible(past: seq<Observation>, currentBytes: nat, k: nat, durationMs: real, low: real)
    requires 1 <= k <= |past|
  {
    Admissible(past, currentBytes, k, durationMs, low) &&
    forall r :: Admissible(past, currentBytes, k, durationMs, r) ==> r <= low + Gap(40)
  }

  /** Some ratio above the range of the bisection is admissible. */
  ghost predicate AdmitsAbove40(past: seq<Observation>, currentBytes: nat, k: nat, durationMs: real)
    requires 1 <= k <= |past|
  {
    exists r :: r > 40.0 && Admissible(past, currentBytes, k, durationMs, r)
  }

  /**
    `admissible_ratio`: forty halvings of [1, 40]. The result is the largest admissible ratio,
    up to 39/2^40, exactly when 1.0 is admissible and nothing above 40 is. Without an
    admissible 1.0 the answer is 1.0 all the same; with something above 40 it stays in range.
   */
  method AdmissibleRatio(past: seq<Observation>, currentBytes: nat, k: nat, durationMs: real) returns (low: real)
    requires 1 <= k <= |past| && forall i :: 0 <= i < |past| ==> past[i].time >= 0.0
    ensures 1.0 <= low <= 40.0
    ensures Admissible(past, currentBytes, k, durationMs, low) <==> Admissible(past, currentBytes, k, durationMs, 1.0)
    ensures !Admissible(past, currentBytes, k, durationMs, 1.0) ==> low == 1.0
    ensures low + Gap(40) == 40.0 || !Admissible(past, currentBytes, k, durationMs, low + Gap(40))
    ensures forall r :: r <= 40.0 && Admissible(past, currentBytes, k, durationMs, r) ==> r <= low + Gap(40)
    ensures LargestAdmissible(past, currentBytes, k, durationMs, low) <==>
            Admissible(past, currentBytes, k, durationMs, 1.0) && !AdmitsAbove40(past, currentBytes, k, durationMs)
  {
    var high: real;
    low, high := 1.0, 40.0;
    for i := 0 to 40
      invariant 1.0 <= low <= high <= 40.0 && high == low + Gap(i)
      invariant Admissible(past, currentBytes, k, durationMs, low) || low == 1.0
      invariant high == 40.0 || !Admissible(past, currentBytes, k, durationMs, high)
    {
      var mid := (low + high) / 2.0;
      AdmissibleBound(past, currentBytes, k, durationMs, mid);
      if Bound(past, Query(currentBytes, mid), k) <= durationMs {
        low := mid;
      } else {
        high := mid;
      }
    }
    if Admissible(past, currentBytes, k, durationMs, low) {
      AdmissibleDownward(past, currentBytes, k, durationMs, 1.0, low);
    }
    forall r | r <= 40.0 && Admissible(past, currentBytes, k, durationMs, r) ensures r <= high {
      if r > high {
        AdmissibleDownward(past, currentBytes, k, durationMs, high, r);
      }
    }
  }

  /** With a single past observation only that one counts. */
  lemma OneAdmissible(o: Observation, currentBytes: nat, durationMs: real, ratio: real)
    ensures Admissible([o], currentBytes, 1, durationMs, ratio) <==> !TooLong(o, currentBytes, durationMs, ratio)
  {
    var long := set i | 0 <= i < |[o]| && TooLong([o][i], currentBytes, durationMs, ratio);
    if TooLong(o, currentBytes, durationMs, ratio) {
      assert [o][0] == o && 0 in long;
    } else {
      assert long == {};
    }
  }

  /** One past observation of three seconds: not even the current size fits into two. */
  lemma NothingAdmissible()
    ensures !Admissible([Observation(1, 3000.0)], 1, 1, 2000.0, 1.0)
  {
    OneAdmissible(Observation(1, 3000.0), 1, 2000.0, 1.0);
  }

  /** One past observation of one millisecond: fifty times the size fits, and the search ends at 40. */
  lemma MoreAdmissible()
    ensures Admissible([Observation(1, 1.0)], 1, 1, 2000.0, 50.0) && AdmitsAbove40([Observation(1, 1.0)], 1, 1, 2000.0)
  {
    OneAdmissible(Observation(1, 1.0), 1, 2000.0, 50.0);
    assert Admissible([Observation(1, 1.0)], 1, 1, 2000.0, 50.0);
  }

  /**
    A past second for a million bytes, two million bytes now: twice the time fills the two
    seconds already, so the search stays at 1.
   */
  method TwiceTheBytes() returns (low: real)
    ensures low == 1.0
  {
    var o := Observation(1_000_000, 1000.0);
    low := AdmissibleRatio([o], 2_000_000, 1, 2000.0);
    OneAdmissible(o, 2_000_000, 2000.0, 1.0);
    OneAdmissible(o, 2_000_000, 2000.0, low);
    TwiceTooLong(low);
  }

  lemma TwiceTooLong(r: real)
    requires r > 1.0 || r == 1.0
    ensures TooLong(Observation(1_000_000, 1000.0), 2_000_000, 2000.0, r) <==> r > 1.0
  {
    assert 2_000_000.0 * r / 1_000_000.0 == 2.0 * r;
  }

  // ----- the trailing window

  /** Observation `t` exceeds the bound of the `window` observations before it. */
  predicate ExceedsAt(segments: seq<Observation>, window: nat, k: nat, transferOn: bool, t: nat)
    requires 1 <= k <= window <= t < |segments|
  {
    segments[t].time > WindowBound(segments, window, k, transferOn, t)
  }

  function WindowBound(segments: seq<Observation>, window: nat, k: nat, transferOn: bool, t: nat): real
    requires 1 <= k <= window <= t < |segments|
  {
    var past := segments[t - window..t];
    KthLargest(if transferOn then Transferred(past, segments[t].bytes as real) else Times(past), k)
  }

  /** What the observation says of another size, or its own time when the transfer is off. */
  function Carried(o: Observation, bytes: int, transferOn: bool): real
  {
    if transferOn && o.bytes > 0 && bytes > o.bytes then o.time * (bytes as real / o.bytes as real) else o.time
  }

  lemma {:induction false} AtLeastCount(s: seq<real>, x: real)
    ensures |set i | 0 <= i < |s| && s[i] >= x| == AtLeast(s, x)
  {
    var up := set i | 0 <= i < |s| && s[i] >= x;
    if s == [] {
      assert up == {};
    } else {
      var n := |s| - 1;
      AtLeastCount(s[..n], x);
      var before := set i | 0 <= i < n && s[..n][i] >= x;
      assert up == before + if s[n] >= x then {n} else {};
    }
  }

  lemma CarriedIs(o: Observation, bytes: int)
    ensures Transfer(o, bytes as real) == Carried(o, bytes, true)
  {
    if o.bytes > 0 {
      var q, b := bytes as real, o.bytes as real;
      assert q / b * b == q;
      if q > b {
        RatioAboveOne(q, b);
      } else if q < b {
        RatioBelowOne(q, b);
      } else {
        assert q / b == 1.0;
      }
    }
  }

  /** A position exceeds its bound exactly when fewer than k of the window say at least as much. */
  lemma ExceedsMeans(segments: seq<Observation>, window: nat, k: nat, transferOn: bool, t: nat)
    requires 1 <= k <= window <= t < |segments|
    ensures var past, o := segments[t - window..t], segments[t];
            ExceedsAt(segments, window, k, transferOn, t) <==>
              |set i | 0 <= i < window && Carried(past[i], o.bytes, transferOn) >= o.time| < k
  {
    var past, x := segments[t - window..t], segments[t].time;
    var v := if transferOn then Transferred(past, segments[t].bytes as real) else Times(past);
    forall i | 0 <= i < window ensures v[i] == Carried(past[i], segments[t].bytes, transferOn) {
      CarriedIs(past[i], segments[t].bytes);
    }
    assert (set i | 0 <= i < |v| && v[i] >= x) ==
           set i | 0 <= i < window && Carried(past[i], segments[t].bytes, transferOn) >= x;
    AtLeastCount(v, x);
    KthReaches(v, k, x);
  }

  /** A graded position is the last of n + 1 observations, graded against the other n. */
  lemma ExceedsInWindow(segments: seq<Observation>, window: nat, k: nat, t: nat)
    requires 1 <= k <= window <= t < |segments|
    ensures ExceedsAt(segments, window, k, true, t) <==> Exceeds(segments[t - window..t + 1], window, k)
  {
    var bag := segments[t - window..t + 1];
    assert Others(bag, window) == segments[t - window..t];
  }

  /** How many positions between two ends are hits. */
  function Count(hit: nat -> bool, from: nat, to: nat): nat
  {
    if to <= from then 0 else Count(hit, from, to - 1) + if hit(to - 1) then 1 else 0
  }

  lemma {:induction false} CountLess(h1: nat -> bool, h2: nat -> bool, from: nat, to: nat)
    requires forall t :: from <= t < to && h1(t) ==> h2(t)
    ensures Count(h1, from, to) <= Count(h2, from, to)
  {
    if from < to {
      CountLess(h1, h2, from, to - 1);
    }
  }

  function Hits(segments: seq<Observation>, window: nat, k: nat, transferOn: bool): nat -> bool
    requires 1 <= k <= window
  {
    t => window <= t < |segments| && ExceedsAt(segments, window, k, transferOn, t)
  }

  /** How many observations before `t` exceed their bound. */
  function Exceedances(segments: seq<Observation>, window: nat, k: nat, transferOn: bool, t: nat): nat
    requires 1 <= k <= window
  {
    Count(Hits(segments, window, k, transferOn), window, t)
  }

  lemma NextPosition(segments: seq<Observation>, window: nat, k: nat, transferOn: bool, t: nat, bound: real)
    requires 1 <= k <= window <= t < |segments| && bound == WindowBound(segments, window, k, transferOn, t)
    ensures Exceedances(segments, window, k, transferOn, t + 1) ==
            Exceedances(segments, window, k, transferOn, t) + if segments[t].time > bound then 1 else 0
  {
    assert Hits(segments, window, k, transferOn)(t) == ExceedsAt(segments, window, k, transferOn, t);
  }

  /** How far an observation lies above its bound; a bound of zero makes it unlimited. */
  datatype Overshoot = Factor(times: real) | Unlimited

  predicate AtMost(x: Overshoot, y: Overshoot)
  {
    y.Unlimited? || (x.Factor? && x.times <= y.times)
  }

  function OvershootAt(segments: seq<Observation>, window: nat, k: nat, transferOn: bool, t: nat): Overshoot
    requires 1 <= k <= window <= t < |segments|
  {
    var bound := WindowBound(segments, window, k, transferOn, t);
    if bound == 0.0 then Unlimited else Factor(segments[t].time / bound)
  }

  /** `worst` is the largest overshoot among the hits before `t`, and at least 1. */
  ghost predicate IsWorst(worst: Overshoot, segments: seq<Observation>, window: nat, k: nat, transferOn: bool, t: nat)
    requires 1 <= k <= window && t <= |segments|
  {
    && AtMost(Factor(1.0), worst)
    && (forall i :: window <= i < t && ExceedsAt(segments, window, k, transferOn, i) ==>
          AtMost(OvershootAt(segments, window, k, transferOn, i), worst))
    && (worst == Factor(1.0) ||
        exists i :: window <= i < t && ExceedsAt(segments, window, k, transferOn, i) &&
                    worst == OvershootAt(segments, window, k, transferOn, i))
  }

  /** The position exceeds its bound. */
  ghost predicate HitAt(segments: seq<Observation>, window: nat, k: nat, transferOn: bool, t: int)
    requires 1 <= k <= window
  {
    window <= t < |segments| && ExceedsAt(segments, window, k, transferOn, t)
  }

  /**
    The worst overshoot in numbers: unlimited exactly when some exceeded bound is zero; else
    at least 1, at least every ratio of a time to the bound it exceeds, and 1 or one of them.
   */
  lemma WorstMeans(worst: Overshoot, segments: seq<Observation>, window: nat, k: nat, transferOn: bool)
    requires 1 <= k <= window && IsWorst(worst, segments, window, k, transferOn, |segments|)
    ensures worst == Unlimited <==>
            exists t ::
              HitAt(segments, window, k, transferOn, t) && WindowBound(segments, window, k, transferOn, t) == 0.0
    ensures worst.Factor? ==>
              worst.times >= 1.0 &&
              forall t :: HitAt(segments, window, k, transferOn, t) ==>
                var bound := WindowBound(segments, window, k, transferOn, t);
                bound != 0.0 && segments[t].time / bound <= worst.times
    ensures worst.Factor? && worst.times != 1.0 ==>
              exists t :: HitAt(segments, window, k, transferOn, t) &&
                          var bound := WindowBound(segments, window, k, transferOn, t);
                          bound != 0.0 && worst.times == segments[t].time / bound
  {
    if worst != Factor(1.0) {
      var i :| window <= i < |segments| && ExceedsAt(segments, window, k, transferOn, i) &&
               worst == OvershootAt(segments, window, k, transferOn, i);
      assert HitAt(segments, window, k, transferOn, i);
    }
    forall t | HitAt(segments, window, k, transferOn, t)
      ensures AtMost(OvershootAt(segments, window, k, transferOn, t), worst)
    {
    }
  }

  /** One more position taken into the worst overshoot. */
  lemma NextWorst(worst: Overshoot, next: Overshoot, segments: seq<Observation>, window: nat, k: nat, transferOn: bool,
                  t: nat)
    requires 1 <= k <= window <= t < |segments| && IsWorst(worst, segments, window, k, transferOn, t)
    requires var o := OvershootAt(segments, window, k, transferOn, t);
             next == if ExceedsAt(segments, window, k, transferOn, t) && !AtMost(o, worst) then o else worst
    ensures IsWorst(next, segments, window, k, transferOn, t + 1)
  {
  }

  /** `grade_order`: how many observations were graded, how many exceeded their bound, and by how much at worst. */
  method GradeOrder(segments: seq<Observation>, window: nat, k: nat, transferOn: bool)
    returns (total: nat, exceedances: nat, worst: Overshoot)
    requires 1 <= k <= window
    ensures total == if |segments| > window then |segments| - window else 0
    ensures exceedances == Exceedances(segments, window, k, transferOn, |segments|)
    ensures IsWorst(worst, segments, window, k, transferOn, |segments|)
  {
    total, exceedances, worst := 0, 0, Factor(1.0);
    if |segments| <= window {
      return;
    }
    for t := window to |segments|
      invariant total == t - window && exceedances == Exceedances(segments, window, k, transferOn, t)
      invariant IsWorst(worst, segments, window, k, transferOn, t)
    {
      var hit;
      hit, worst := GradePosition(segments, window, k, transferOn, t, worst);
      total := total + 1;
      exceedances := exceedances + if hit then 1 else 0;
    }
  }

  /** The loop body: is the position above its bound, and is it worse than the worst so far? */
  method GradePosition(segments: seq<Observation>, window: nat, k: nat, transferOn: bool, t: nat, before: Overshoot)
    returns (hit: bool, worst: Overshoot)
    requires 1 <= k <= window <= t < |segments| && IsWorst(before, segments, window, k, transferOn, t)
    ensures Exceedances(segments, window, k, transferOn, t + 1) ==
            Exceedances(segments, window, k, transferOn, t) + if hit then 1 else 0
    ensures IsWorst(worst, segments, window, k, transferOn, t + 1)
  {
    var bound := WindowBound(segments, window, k, transferOn, t);
    NextPosition(segments, window, k, transferOn, t, bound);
    hit, worst := segments[t].time > bound, before;
    if hit {
      var o := if bound == 0.0 then Unlimited else Factor(segments[t].time / bound);
      if !AtMost(o, worst) {
        worst := o;
      }
    }
    NextWorst(before, worst, segments, window, k, transferOn, t);
  }

  /** The control without transfer never exceeds less often than the transferred grade. */
  lemma TransferOnlyLowers(segments: seq<Observation>, window: nat, k: nat, t: nat)
    requires 1 <= k <= window <= t < |segments| && forall i :: 0 <= i < |segments| ==> segments[i].time >= 0.0
    ensures ExceedsAt(segments, window, k, true, t) ==> ExceedsAt(segments, window, k, false, t)
  {
    var past := segments[t - window..t];
    var q := segments[t].bytes as real;
    forall i | 0 <= i < |past| ensures Times(past)[i] <= Transferred(past, q)[i] {
      TransferInflates(past[i], q);
    }
    KthMonotone(Times(past), Transferred(past, q), k);
  }

  /** Over a whole trace the transferred grade exceeds no more often than the raw control. */
  lemma TransferExceedsLess(segments: seq<Observation>, window: nat, k: nat, t: nat)
    requires 1 <= k <= window && forall i :: 0 <= i < |segments| ==> segments[i].time >= 0.0
    ensures Exceedances(segments, window, k, true, t) <= Exceedances(segments, window, k, false, t)
  {
    var with, without := Hits(segments, window, k, true), Hits(segments, window, k, false);
    forall i | window <= i < t && with(i) ensures without(i) {
      TransferOnlyLowers(segments, window, k, i);
    }
    CountLess(with, without, window, t);
  }
}
