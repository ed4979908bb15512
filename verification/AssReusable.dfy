/**
  Which regions survive from one frame to the next, told from the two image lists: those in
  which no image entered, left or changed, wherever they moved.
 */
module AssReusable {
  import opened AssArea
  import opened AssFrame
  import opened AssRegions

  /** Region k of the new frame has the size of region k of the old one, and the same images in it. */
  ghost predicate Unchanged(prev: Frame, next: Frame, size: Size, k: nat)
  {
    var was, now := Regions(prev.images, size), Regions(next.images, size);
    && |prev.images| == |next.images| && |was| == |now| && k < |now|
    && now[k].right - now[k].left == was[k].right - was[k].left
    && now[k].bottom - now[k].top == was[k].bottom - was[k].top
    && forall i :: 0 <= i < |next.images| ==> SameImage(prev.images[i], was, next.images[i], now, size, k)
  }

  /** The regions of the new frame that have to be composed anew, all of them without a usable cache. */
  ghost function Changed(prev: Frame, next: Frame, size: Size, reusable: bool): set<nat>
  {
    set k: nat | k < |Regions(next.images, size)| && !(reusable && Unchanged(prev, next, size, k))
  }

  /** The two images have the same key, or neither lies in region k. */
  ghost predicate SameImage(a: Image, was: seq<Bounds>, b: Image, now: seq<Bounds>, size: Size, k: nat)
  {
    var key, other := KeyOf(a, size, was), KeyOf(b, size, now);
    key == other || (!InRegion(key, k) && !InRegion(other, k))
  }

  /** The same list leaves every region unchanged. */
  lemma SameListUnchanged(prev: Frame, next: Frame, size: Size, k: nat)
    requires prev.images == next.images && k < |Regions(next.images, size)|
    ensures Unchanged(prev, next, size, k)
  {
  }

  /**
    If the regions stay where they are and one image changes, every region without it stays
    unchanged.
   */
  lemma OneImageChanged(prev: Frame, next: Frame, size: Size, j: nat, k: nat)
    requires j < |prev.images| == |next.images| && Regions(prev.images, size) == Regions(next.images, size)
    requires forall i :: 0 <= i < |next.images| && i != j ==> prev.images[i] == next.images[i]
    requires k < |Regions(next.images, size)|
    requires !InRegion(KeyOf(prev.images[j], size, Regions(prev.images, size)), k)
    requires !InRegion(KeyOf(next.images[j], size, Regions(next.images, size)), k)
    ensures Unchanged(prev, next, size, k)
  {
  }

  // ----- everything moves together

  function Moved(b: Bounds, dx: int, dy: int): Bounds
  {
    Bounds(b.left + dx, b.top + dy, b.right + dx, b.bottom + dy)
  }

  function AllMoved(rs: seq<Bounds>, dx: int, dy: int): (out: seq<Bounds>)
    ensures |out| == |rs|
  {
    seq(|rs|, i requires 0 <= i < |rs| => Moved(rs[i], dx, dy))
  }

  lemma {:induction false} AbsorbMoved(rs: seq<Bounds>, box: Bounds, i: nat, dx: int, dy: int)
    requires i <= |rs|
    ensures var a := Absorb(rs, box, i);
            Absorb(AllMoved(rs, dx, dy), Moved(box, dx, dy), i) ==
            Absorbed(AllMoved(a.rest, dx, dy), Moved(a.box, dx, dy))
    decreases |rs|, |rs| - i
  {
    if i < |rs| {
      if Touches(box, rs[i]) {
        assert RemoveAt(AllMoved(rs, dx, dy), i) == AllMoved(RemoveAt(rs, i), dx, dy);
        assert Unite(Moved(box, dx, dy), Moved(rs[i], dx, dy)) == Moved(Unite(box, rs[i]), dx, dy);
        AbsorbMoved(RemoveAt(rs, i), Unite(box, rs[i]), 0, dx, dy);
      } else {
        AbsorbMoved(rs, box, i + 1, dx, dy);
      }
    }
  }

  lemma {:induction false} UniteAllMoved(box: Bounds, rs: seq<Bounds>, dx: int, dy: int)
    ensures UniteAll(Moved(box, dx, dy), AllMoved(rs, dx, dy)) == Moved(UniteAll(box, rs), dx, dy)
  {
    if rs != [] {
      var n := |rs| - 1;
      assert AllMoved(rs, dx, dy)[..n] == AllMoved(rs[..n], dx, dy);
      UniteAllMoved(box, rs[..n], dx, dy);
    }
  }

  /** Merging moves with the boxes. */
  lemma {:induction false} AddAllMoved(boxes: seq<Bounds>, dx: int, dy: int)
    ensures AddAll(AllMoved(boxes, dx, dy)) == AllMoved(AddAll(boxes), dx, dy)
  {
    if boxes != [] {
      var n := |boxes| - 1;
      var before, box := AddAll(boxes[..n]), boxes[n];
      assert AllMoved(boxes, dx, dy)[..n] == AllMoved(boxes[..n], dx, dy);
      AddAllMoved(boxes[..n], dx, dy);
      AbsorbMoved(before, box, 0, dx, dy);
      var a := Absorb(before, box, 0);
      UniteAllMoved(a.box, a.rest, dx, dy);
      assert AllMoved(a.rest + [a.box], dx, dy) == AllMoved(a.rest, dx, dy) + [Moved(a.box, dx, dy)];
      assert AllMoved([UniteAll(a.box, a.rest)], dx, dy) == [Moved(UniteAll(a.box, a.rest), dx, dy)];
    }
  }

  function MovedImage(image: Image, dx: int, dy: int): Image
  {
    image.(dstX := image.dstX + dx, dstY := image.dstY + dy)
  }

  /** The image has its whole area, and a pixel around it, on the canvas. */
  predicate Roomy(image: Image, size: Size)
  {
    image.w > 0 && image.h > 0 ==>
      1 <= image.dstX && image.dstX + image.w < size.width && 1 <= image.dstY && image.dstY + image.h < size.height
  }

  lemma ClippedMoved(image: Image, size: Size, dx: int, dy: int)
    requires Roomy(image, size) && Roomy(MovedImage(image, dx, dy), size)
    ensures var c := Clipped(image, size);
            var d := Clipped(MovedImage(image, dx, dy), size);
            && (c.Visible? <==> d.Visible?)
            && (c.Visible? ==> d.box == Moved(c.box, dx, dy) &&
                               Bordered(d.box, size) == Moved(Bordered(c.box, size), dx, dy))
  {
  }

  /** The second list is the first one moved. */
  ghost predicate MovesBy(a: seq<Image>, b: seq<Image>, size: Size, dx: int, dy: int)
  {
    |a| == |b| &&
    forall i :: 0 <= i < |a| ==> Roomy(a[i], size) && Roomy(b[i], size) && b[i] == MovedImage(a[i], dx, dy)
  }

  lemma {:induction false} BoxesMoved(a: seq<Image>, b: seq<Image>, size: Size, dx: int, dy: int)
    requires MovesBy(a, b, size, dx, dy)
    ensures Boxes(b, size) == AllMoved(Boxes(a, size), dx, dy)
    decreases |a|
  {
    if a != [] {
      var n := |a| - 1;
      assert MovesBy(a[..n], b[..n], size, dx, dy);
      BoxesMoved(a[..n], b[..n], size, dx, dy);
      ClippedMoved(a[n], size, dx, dy);
      if Clipped(a[n], size).Visible? {
        var before, box := Boxes(a[..n], size), Bordered(Clipped(a[n], size).box, size);
        assert AllMoved(before + [box], dx, dy) == AllMoved(before, dx, dy) + [Moved(box, dx, dy)];
      }
    }
  }

  lemma {:induction false} FirstMoved(box: Bounds, rs: seq<Bounds>, i: nat, dx: int, dy: int)
    requires i <= |rs|
    ensures FirstAround(Moved(box, dx, dy), AllMoved(rs, dx, dy), i) == FirstAround(box, rs, i)
    decreases |rs| - i
  {
    if i < |rs| && !Inside(box, rs[i]) {
      FirstMoved(box, rs, i + 1, dx, dy);
    }
  }

  lemma KeyMoved(image: Image, size: Size, rs: seq<Bounds>, dx: int, dy: int)
    requires Roomy(image, size) && Roomy(MovedImage(image, dx, dy), size)
    ensures KeyOf(MovedImage(image, dx, dy), size, AllMoved(rs, dx, dy)) == KeyOf(image, size, rs)
  {
    ClippedMoved(image, size, dx, dy);
    if Clipped(image, size).Visible? {
      FirstMoved(Clipped(image, size).box, rs, 0, dx, dy);
    }
  }

  /** When every image moves by the same distance, inside the canvas, every region is unchanged. */
  lemma MovedUnchanged(prev: Frame, next: Frame, size: Size, dx: int, dy: int, k: nat)
    requires MovesBy(prev.images, next.images, size, dx, dy) && k < |Regions(next.images, size)|
    ensures Unchanged(prev, next, size, k)
  {
    var was, now := Regions(prev.images, size), Regions(next.images, size);
    BoxesMoved(prev.images, next.images, size, dx, dy);
    AddAllMoved(Boxes(prev.images, size), dx, dy);
    forall i | 0 <= i < |next.images| ensures SameImage(prev.images[i], was, next.images[i], now, size, k) {
      KeyMoved(prev.images[i], size, was, dx, dy);
    }
  }
}
