/**
  When the cap of `add_bounds` fires, told from the added boxes alone: exactly when the least
  separated cover of some of them, in the order they came, has more than 64 members.
 */
module AssCap {
  import opened AssArea
  import opened AssRegions

  /** Non-empty boxes that stay apart. */
  ghost predicate Separated(rs: seq<Bounds>)
  {
    Apart(rs) && AllProper(rs)
  }

  /** A separated cover that lies inside every other. */
  ghost predicate LeastCover(rs: seq<Bounds>, boxes: seq<Bounds>)
  {
    && Separated(rs) && CoversAll(boxes, rs)
    && forall other :: Separated(other) && CoversAll(boxes, other) ==> CoversAll(rs, other)
  }

  /** The merge without its cap. */
  function Merge(boxes: seq<Bounds>): seq<Bounds>
  {
    if boxes == [] then []
    else
      var a := Absorb(Merge(boxes[..|boxes| - 1]), boxes[|boxes| - 1], 0);
      a.rest + [a.box]
  }

  // ----- the merge is the least cover

  lemma {:induction false} AbsorbOrdered(rs: seq<Bounds>, box: Bounds, i: nat)
    requires i <= |rs| && AllProper(rs) && Proper(box)
    ensures AllProper(Absorb(rs, box, i).rest) && Proper(Absorb(rs, box, i).box)
    decreases |rs|, |rs| - i
  {
    if i < |rs| {
      if Touches(box, rs[i]) {
        AbsorbOrdered(RemoveAt(rs, i), Unite(box, rs[i]), 0);
      } else {
        AbsorbOrdered(rs, box, i + 1);
      }
    }
  }

  lemma {:induction false} MergeCovers(boxes: seq<Bounds>)
    requires AllProper(boxes)
    ensures Separated(Merge(boxes)) && CoversAll(boxes, Merge(boxes))
  {
    if boxes != [] {
      var n := |boxes| - 1;
      var before, out := Merge(boxes[..n]), Merge(boxes);
      MergeCovers(boxes[..n]);
      AbsorbOrdered(before, boxes[n], 0);
      PlacedKeeps(before, boxes[n]);
      forall i | 0 <= i < |boxes| ensures Covered(boxes[i], out) {
        if i < n {
          assert Covered(boxes[..n][i], before);
          CoveredThrough(boxes[i], before, out);
        }
      }
    }
  }

  lemma {:induction false} MergeInside(boxes: seq<Bounds>, other: seq<Bounds>)
    requires Apart(other) && CoversAll(boxes, other)
    ensures CoversAll(Merge(boxes), other)
  {
    if boxes != [] {
      var n := |boxes| - 1;
      assert CoversAll(boxes[..n], other);
      MergeInside(boxes[..n], other);
      AbsorbLeast(Merge(boxes[..n]), boxes[n], 0, other);
    }
  }

  lemma MergeLeast(boxes: seq<Bounds>)
    requires AllProper(boxes)
    ensures LeastCover(Merge(boxes), boxes)
  {
    MergeCovers(boxes);
    forall other | Separated(other) && CoversAll(boxes, other) ensures CoversAll(Merge(boxes), other) {
      MergeInside(boxes, other);
    }
  }

  // ----- least covers are equally large

  lemma SameMember(a: seq<Bounds>, b: seq<Bounds>, i: nat, k: nat, j: nat)
    requires Separated(a) && CoversAll(b, a) && i < |a| && k < |a| && j < |b|
    requires Inside(a[i], b[j]) && Inside(a[k], b[j])
    ensures i == k
  {
    assert Covered(b[j], a);
    var m :| 0 <= m < |a| && Inside(b[j], a[m]);
    assert Touches(a[i], a[m]) && Touches(a[m], a[i]) && Touches(a[k], a[m]) && Touches(a[m], a[k]);
  }

  /** One of the first n members of a lies in member j of b. */
  ghost predicate Hosts(a: seq<Bounds>, b: seq<Bounds>, n: nat, j: nat)
  {
    n <= |a| && j < |b| && exists i :: 0 <= i < n && Inside(a[i], b[j])
  }

  lemma HostsMore(a: seq<Bounds>, b: seq<Bounds>, n: nat, j: nat)
    requires Hosts(a, b, n, j) && n < |a|
    ensures Hosts(a, b, n + 1, j)
  {
    var i :| 0 <= i < n && Inside(a[i], b[j]);
    assert 0 <= i < n + 1 && Inside(a[i], b[j]);
  }

  lemma HostsJoin(a: seq<Bounds>, b: seq<Bounds>, n: nat, before: set<nat>, j: nat)
    requires n < |a| && Hosts(a, b, n + 1, j) && !Hosts(a, b, n, j) && forall i :: i in before ==> Hosts(a, b, n, i)
    ensures |before + {j}| == |before| + 1 && forall i :: i in before + {j} ==> Hosts(a, b, n + 1, i)
  {
    forall i | i in before ensures Hosts(a, b, n + 1, i) {
      HostsMore(a, b, n, i);
    }
  }

  lemma NewHost(a: seq<Bounds>, b: seq<Bounds>, n: nat) returns (j: nat)
    requires Separated(a) && CoversAll(a, b) && CoversAll(b, a) && n < |a|
    ensures Hosts(a, b, n + 1, j) && !Hosts(a, b, n, j)
  {
    assert Covered(a[n], b);
    j :| 0 <= j < |b| && Inside(a[n], b[j]);
    if Hosts(a, b, n, j) {
      var i :| 0 <= i < n && Inside(a[i], b[j]);
      SameMember(a, b, i, n, j);
    }
  }

  /** The first n members of a lie in n different members of b. */
  lemma {:induction false} Places(a: seq<Bounds>, b: seq<Bounds>, n: nat) returns (js: set<nat>)
    requires Separated(a) && CoversAll(a, b) && CoversAll(b, a) && n <= |a|
    ensures |js| == n && forall j :: j in js ==> Hosts(a, b, n, j)
  {
    if n == 0 {
      js := {};
    } else {
      var before := Places(a, b, n - 1);
      var j := NewHost(a, b, n - 1);
      HostsJoin(a, b, n - 1, before, j);
      js := before + {j};
    }
  }

  lemma {:induction false} BelowSize(js: set<nat>, n: nat)
    requires forall j :: j in js ==> j < n
    ensures |js| <= n
  {
    if n == 0 {
      assert js == {};
    } else {
      BelowSize(js - {n - 1}, n - 1);
      assert js <= js - {n - 1} + {n - 1};
      SubsetSize(js, js - {n - 1} + {n - 1});
    }
  }

  lemma NoLarger(a: seq<Bounds>, b: seq<Bounds>)
    requires Separated(a) && CoversAll(a, b) && CoversAll(b, a)
    ensures |a| <= |b|
  {
    var js := Places(a, b, |a|);
    BelowSize(js, |b|);
  }

  lemma LeastSize(a: seq<Bounds>, b: seq<Bounds>, boxes: seq<Bounds>)
    requires LeastCover(a, boxes) && LeastCover(b, boxes)
    ensures |a| == |b|
  {
    NoLarger(a, b);
    NoLarger(b, a);
  }

  // ----- the cap

  lemma {:induction false} NeverCapped(boxes: seq<Bounds>, n: nat)
    requires !EverCapped(boxes) && n <= |boxes|
    ensures AddAll(boxes[..n]) == Merge(boxes[..n])
    decreases |boxes| + n
  {
    if n < |boxes| {
      assert boxes[..|boxes| - 1][..n] == boxes[..n];
      NeverCapped(boxes[..|boxes| - 1], n);
    } else if n > 0 {
      assert boxes[..n] == boxes && boxes[..n - 1][..n - 1] == boxes[..n - 1];
      NeverCapped(boxes[..n - 1], n - 1);
    }
  }

  /** The first time the cap fires. */
  lemma {:induction false} FirstCap(boxes: seq<Bounds>) returns (n: nat)
    requires EverCapped(boxes)
    ensures 0 < n <= |boxes| && !EverCapped(boxes[..n - 1]) && CapFires(AddAll(boxes[..n - 1]), boxes[n - 1])
  {
    var k := |boxes| - 1;
    if EverCapped(boxes[..k]) {
      n := FirstCap(boxes[..k]);
      assert boxes[..k][..n - 1] == boxes[..n - 1];
    } else {
      n := |boxes|;
    }
  }

  lemma NeverCappedWhole(boxes: seq<Bounds>)
    requires !EverCapped(boxes)
    ensures AddAll(boxes) == Merge(boxes)
  {
    NeverCapped(boxes, |boxes|);
    assert boxes[..|boxes|] == boxes;
  }

  /** When the cap fires, the merge without it has one region more than the cap. */
  lemma CapSize(boxes: seq<Bounds>)
    requires boxes != [] && var before := boxes[..|boxes| - 1];
             AddAll(before) == Merge(before) && CapFires(AddAll(before), boxes[|boxes| - 1])
    ensures |Merge(boxes)| == MAX_REGIONS + 1
  {
  }

  /** The least separated cover of the boxes has more than 64 members. */
  ghost predicate TooMany(boxes: seq<Bounds>)
  {
    exists rs :: LeastCover(rs, boxes) && |rs| > MAX_REGIONS
  }

  lemma MergeTooMany(boxes: seq<Bounds>)
    requires AllProper(boxes)
    ensures TooMany(boxes) <==> |Merge(boxes)| > MAX_REGIONS
  {
    MergeLeast(boxes);
    if rs :| LeastCover(rs, boxes) && |rs| > MAX_REGIONS {
      LeastSize(rs, Merge(boxes), boxes);
    }
  }

  lemma CapMeansMany(boxes: seq<Bounds>) returns (n: nat)
    requires AllProper(boxes) && EverCapped(boxes)
    ensures n <= |boxes| && TooMany(boxes[..n])
  {
    n := FirstCap(boxes);
    assert boxes[..n][..n - 1] == boxes[..n - 1];
    NeverCappedWhole(boxes[..n - 1]);
    CapSize(boxes[..n]);
    MergeTooMany(boxes[..n]);
  }

  /** The cap fires exactly when some prefix of the boxes has a least separated cover of more than 64. */
  lemma CapExactly(boxes: seq<Bounds>)
    requires AllProper(boxes)
    ensures EverCapped(boxes) <==> exists n :: 0 <= n <= |boxes| && TooMany(boxes[..n])
  {
    if EverCapped(boxes) {
      var n := CapMeansMany(boxes);
    } else {
      forall n | 0 <= n <= |boxes| ensures !TooMany(boxes[..n]) {
        NeverCapped(boxes, n);
        AddAllSound(boxes[..n]);
        MergeTooMany(boxes[..n]);
      }
    }
  }

  /** Told from the boxes: unless some prefix has too many, the regions are the least separated cover. */
  lemma AddAllLeastCover(boxes: seq<Bounds>)
    requires AllProper(boxes) && forall n :: 0 <= n <= |boxes| ==> !TooMany(boxes[..n])
    ensures LeastCover(AddAll(boxes), boxes)
  {
    CapExactly(boxes);
    NeverCappedWhole(boxes);
    MergeLeast(boxes);
  }
}
