/**
  Grouping the images of a frame into rectangular regions (src/ass.c, `unite` and
  `add_bounds`): boxes that touch are united until no two regions touch.
 */
module AssRegions {
  const MAX_REGIONS := 64

  /** A half-open pixel box: columns left..right, rows top..bottom. */
  datatype Bounds = Bounds(left: int, top: int, right: int, bottom: int)

  /** The test of `add_bounds`: overlapping, or sharing an edge or a corner. */
  predicate Touches(a: Bounds, b: Bounds)
  {
    a.left <= b.right && b.left <= a.right && a.top <= b.bottom && b.top <= a.bottom
  }

  predicate Inside(a: Bounds, b: Bounds)
  {
    b.left <= a.left && b.top <= a.top && a.right <= b.right && a.bottom <= b.bottom
  }

  function Unite(a: Bounds, b: Bounds): (u: Bounds)
    ensures Inside(a, u) && Inside(b, u)
    ensures forall c :: Inside(a, c) && Inside(b, c) ==> Inside(u, c)
  {
    Bounds(if a.left < b.left then a.left else b.left,
           if a.top < b.top then a.top else b.top,
           if a.right > b.right then a.right else b.right,
           if a.bottom > b.bottom then a.bottom else b.bottom)
  }

  /** Every two members of the family stay apart. */
  predicate Apart(rs: seq<Bounds>)
  {
    forall i, j :: 0 <= i < j < |rs| ==> !Touches(rs[i], rs[j])
  }

  predicate Covered(box: Bounds, rs: seq<Bounds>)
  {
    exists i :: 0 <= i < |rs| && Inside(box, rs[i])
  }

  predicate CoversAll(boxes: seq<Bounds>, rs: seq<Bounds>)
  {
    forall i :: 0 <= i < |boxes| ==> Covered(boxes[i], rs)
  }

  // ----- the specification of one call

  /** Region `i` replaced by the last one, as the C code removes it. */
  function RemoveAt(rs: seq<Bounds>, i: nat): (out: seq<Bounds>)
    requires i < |rs|
    ensures |out| == |rs| - 1
    ensures forall k :: 0 <= k < |out| ==> out[k] == if k == i then rs[|rs| - 1] else rs[k]
  {
    rs[i := rs[|rs| - 1]][..|rs| - 1]
  }

  /** The regions left apart from the grown box, and the grown box. */
  datatype Absorbed = Absorbed(rest: seq<Bounds>, box: Bounds)

  function Absorb(rs: seq<Bounds>, box: Bounds, i: nat): Absorbed
    requires i <= |rs|
    decreases |rs|, |rs| - i
  {
    if i == |rs| then Absorbed(rs, box)
    else if Touches(box, rs[i]) then Absorb(RemoveAt(rs, i), Unite(box, rs[i]), 0)
    else Absorb(rs, box, i + 1)
  }

  function UniteAll(box: Bounds, rs: seq<Bounds>): Bounds
  {
    if rs == [] then box else Unite(UniteAll(box, rs[..|rs| - 1]), rs[|rs| - 1])
  }

  /** No room for another region: everything collapses into one. */
  predicate CapFires(rs: seq<Bounds>, box: Bounds)
  {
    |Absorb(rs, box, 0).rest| == MAX_REGIONS
  }

  function Add(rs: seq<Bounds>, box: Bounds): seq<Bounds>
  {
    var a := Absorb(rs, box, 0);
    if CapFires(rs, box) then [UniteAll(a.box, a.rest)] else a.rest + [a.box]
  }

  /** Successive calls from an empty region list. */
  function AddAll(boxes: seq<Bounds>): seq<Bounds>
  {
    if boxes == [] then [] else Add(AddAll(boxes[..|boxes| - 1]), boxes[|boxes| - 1])
  }

  predicate EverCapped(boxes: seq<Bounds>)
  {
    boxes != [] &&
    (EverCapped(boxes[..|boxes| - 1]) || CapFires(AddAll(boxes[..|boxes| - 1]), boxes[|boxes| - 1]))
  }

  // ----- the in-place code

  /** `add_bounds`: `regions[..count]` is the live prefix of the caller's array. */
  method AddBounds(regions: array<Bounds>, count: nat, box: Bounds) returns (newCount: nat)
    requires regions.Length == MAX_REGIONS && count <= MAX_REGIONS
    modifies regions
    ensures newCount <= MAX_REGIONS
    ensures regions[..newCount] == Add(old(regions[..count]), box)
  {
    var b, n, i := box, count, 0;
    while i < n
      invariant i <= n <= count
      invariant Absorb(regions[..n], b, i) == Absorb(old(regions[..count]), box, 0)
      decreases n, n - i
    {
      var other := regions[i];
      assert other == regions[..n][i];
      if Touches(b, other) {
        ghost var before := regions[..n];
        b := Unite(b, other);
        n := n - 1;
        regions[i] := regions[n];
        assert regions[..n] == RemoveAt(before, i);
        i := 0;
      } else {
        i := i + 1;
      }
    }
    if n == MAX_REGIONS {
      ghost var grown := b;
      i := 0;
      while i < n
        invariant i <= n == MAX_REGIONS
        invariant b == UniteAll(grown, regions[..i])
      {
        assert regions[..i + 1][..i] == regions[..i];
        b := Unite(b, regions[i]);
        i := i + 1;
      }
      n := 0;
    }
    ghost var rest := regions[..n];
    regions[n] := b;
    newCount := n + 1;
    assert regions[..newCount] == rest + [b];
  }

  // ----- what one call keeps

  /** The grown box stays apart from what is left, and nothing that was covered is lost. */
  lemma {:induction false} AbsorbKeeps(rs: seq<Bounds>, box: Bounds, i: nat)
    requires i <= |rs| && Apart(rs)
    requires forall k :: 0 <= k < i ==> !Touches(box, rs[k])
    ensures var a := Absorb(rs, box, i);
            && |a.rest| <= |rs| && Apart(a.rest) && Inside(box, a.box)
            && (forall k :: 0 <= k < |a.rest| ==> !Touches(a.box, a.rest[k]))
            && (forall k :: 0 <= k < |rs| ==> Inside(rs[k], a.box) || rs[k] in a.rest)
    decreases |rs|, |rs| - i
  {
    if i < |rs| {
      if Touches(box, rs[i]) {
        var next := RemoveAt(rs, i);
        var u := Unite(box, rs[i]);
        AbsorbKeeps(next, u, 0);
        var a := Absorb(next, u, 0);
        forall k | 0 <= k < |rs|
          ensures Inside(rs[k], a.box) || rs[k] in a.rest
        {
          if k == i {
            assert Inside(rs[i], u) && Inside(u, a.box);
          } else {
            var k' := if k == |rs| - 1 then i else k;
            assert next[k'] == rs[k];
          }
        }
      } else {
        AbsorbKeeps(rs, box, i + 1);
      }
    }
  }

  lemma {:induction false} UniteAllCovers(box: Bounds, rs: seq<Bounds>)
    ensures Inside(box, UniteAll(box, rs))
    ensures forall k :: 0 <= k < |rs| ==> Inside(rs[k], UniteAll(box, rs))
  {
    if rs != [] {
      UniteAllCovers(box, rs[..|rs| - 1]);
    }
  }

  /** Putting the grown box behind what is left keeps the regions apart and loses nothing. */
  lemma PlacedKeeps(rs: seq<Bounds>, box: Bounds)
    requires Apart(rs)
    ensures var a := Absorb(rs, box, 0);
            Apart(a.rest + [a.box]) && Covered(box, a.rest + [a.box]) && CoversAll(rs, a.rest + [a.box])
  {
    AbsorbKeeps(rs, box, 0);
    var a := Absorb(rs, box, 0);
    var out := a.rest + [a.box];
    assert Inside(box, out[|a.rest|]);
    forall k | 0 <= k < |rs| ensures Covered(rs[k], out) {
      if Inside(rs[k], a.box) {
        assert Inside(rs[k], out[|a.rest|]);
      } else {
        var j :| 0 <= j < |a.rest| && a.rest[j] == rs[k];
        assert Inside(rs[k], out[j]);
      }
    }
  }

  /** One call keeps the regions apart and few, covers the new box and loses no old region. */
  lemma AddKeeps(rs: seq<Bounds>, box: Bounds)
    requires Apart(rs) && |rs| <= MAX_REGIONS
    ensures Apart(Add(rs, box)) && 1 <= |Add(rs, box)| <= MAX_REGIONS
    ensures Covered(box, Add(rs, box)) && CoversAll(rs, Add(rs, box))
  {
    AbsorbKeeps(rs, box, 0);
    if CapFires(rs, box) {
      var a, out := Absorb(rs, box, 0), Add(rs, box);
      UniteAllCovers(a.box, a.rest);
      assert Inside(box, out[0]);
      forall k | 0 <= k < |rs| ensures Covered(rs[k], out) {
        assert Inside(rs[k], out[0]);
      }
    } else {
      PlacedKeeps(rs, box);
    }
  }

  lemma CoveredThrough(box: Bounds, rs: seq<Bounds>, out: seq<Bounds>)
    requires Covered(box, rs) && CoversAll(rs, out)
    ensures Covered(box, out)
  {
  }

  /** After any sequence of calls: pairwise apart, at most 64, every added box covered. */
  lemma {:induction false} AddAllSound(boxes: seq<Bounds>)
    ensures Apart(AddAll(boxes)) && |AddAll(boxes)| <= MAX_REGIONS
    ensures CoversAll(boxes, AddAll(boxes))
  {
    if boxes != [] {
      var n := |boxes| - 1;
      var before, out := AddAll(boxes[..n]), AddAll(boxes);
      AddAllSound(boxes[..n]);
      AddKeeps(before, boxes[n]);
      forall i | 0 <= i < |boxes| ensures Covered(boxes[i], out) {
        if i < n {
          assert Covered(boxes[..n][i], before);
          CoveredThrough(boxes[i], before, out);
        }
      }
    }
  }

  // ----- leastness

  lemma UniteCovered(a: Bounds, b: Bounds, family: seq<Bounds>)
    requires Apart(family) && Covered(a, family) && Covered(b, family) && Touches(a, b)
    ensures Covered(Unite(a, b), family)
  {
  }

  lemma {:induction false} AbsorbLeast(rs: seq<Bounds>, box: Bounds, i: nat, family: seq<Bounds>)
    requires i <= |rs| && Apart(family) && CoversAll(rs, family) && Covered(box, family)
    ensures CoversAll(Absorb(rs, box, i).rest, family) && Covered(Absorb(rs, box, i).box, family)
    decreases |rs|, |rs| - i
  {
    if i < |rs| {
      if Touches(box, rs[i]) {
        UniteCovered(box, rs[i], family);
        AbsorbLeast(RemoveAt(rs, i), Unite(box, rs[i]), 0, family);
      } else {
        AbsorbLeast(rs, box, i + 1, family);
      }
    }
  }

  /**
    Unless the cap fired, the regions are the least separated cover: every region lies
    inside one member of any other pairwise-apart family that covers the added boxes.
   */
  lemma {:induction false} AddAllLeast(boxes: seq<Bounds>, family: seq<Bounds>)
    requires Apart(family) && CoversAll(boxes, family) && !EverCapped(boxes)
    ensures CoversAll(AddAll(boxes), family)
  {
    if boxes != [] {
      var n := |boxes| - 1;
      assert CoversAll(boxes[..n], family);
      AddAllLeast(boxes[..n], family);
      AbsorbLeast(AddAll(boxes[..n]), boxes[n], 0, family);
    }
  }

  // ----- staying on the canvas

  predicate Proper(b: Bounds)
  {
    b.left < b.right && b.top < b.bottom
  }

  /** Every box is non-empty and lies on the canvas. */
  predicate OnCanvas(rs: seq<Bounds>, canvas: Bounds)
  {
    forall i :: 0 <= i < |rs| ==> Proper(rs[i]) && Inside(rs[i], canvas)
  }

  lemma {:induction false} AbsorbOnCanvas(rs: seq<Bounds>, box: Bounds, i: nat, canvas: Bounds)
    requires i <= |rs| && OnCanvas(rs, canvas) && OnCanvas([box], canvas)
    ensures OnCanvas(Absorb(rs, box, i).rest, canvas) && OnCanvas([Absorb(rs, box, i).box], canvas)
    decreases |rs|, |rs| - i
  {
    assert [box][0] == box;
    if i < |rs| {
      if Touches(box, rs[i]) {
        AbsorbOnCanvas(RemoveAt(rs, i), Unite(box, rs[i]), 0, canvas);
      } else {
        AbsorbOnCanvas(rs, box, i + 1, canvas);
      }
    }
  }

  lemma {:induction false} UniteAllOnCanvas(box: Bounds, rs: seq<Bounds>, canvas: Bounds)
    requires OnCanvas(rs, canvas) && OnCanvas([box], canvas)
    ensures OnCanvas([UniteAll(box, rs)], canvas)
  {
    assert [box][0] == box;
    if rs != [] {
      UniteAllOnCanvas(box, rs[..|rs| - 1], canvas);
      var u := UniteAll(box, rs[..|rs| - 1]);
      assert [u][0] == u;
    }
  }

  lemma {:induction false} AddAllOnCanvas(boxes: seq<Bounds>, canvas: Bounds)
    requires OnCanvas(boxes, canvas)
    ensures OnCanvas(AddAll(boxes), canvas)
  {
    if boxes != [] {
      var n := |boxes| - 1;
      var before := AddAll(boxes[..n]);
      AddAllOnCanvas(boxes[..n], canvas);
      assert [boxes[n]][0] == boxes[n];
      AbsorbOnCanvas(before, boxes[n], 0, canvas);
      var a := Absorb(before, boxes[n], 0);
      UniteAllOnCanvas(a.box, a.rest, canvas);
      assert [a.box][0] == a.box;
    }
  }
}
