/**
  The sides of the regions: one transparent pixel around what is visible, where the canvas has
  room, and no more than that.
 */
module AssBorder {
  import opened AssRegions
  import opened AssArea
  import opened AssFrame
  import opened AssComposite
  import opened Numbers

  // ----- touching

  predicate Near(p: (int, int), q: (int, int))
  {
    -1 <= p.0 - q.0 <= 1 && -1 <= p.1 - q.1 <= 1
  }

  /** The number of the half-open range that lies nearest to `to`. */
  function Nearest(from: int, end: int, to: int): (n: int)
    requires from < end
    ensures from <= n < end && (from <= to < end ==> n == to)
    ensures (to < from ==> n == from) && (to >= end ==> n == end - 1)
  {
    if to < from then from else if to >= end then end - 1 else to
  }

  /** Some numbers of two half-open ranges are at most one apart. */
  lemma RangesNear(a: int, b: int, c: int, d: int) returns (p: int, q: int)
    requires a < b && c < d && a <= d && c <= b
    ensures a <= p < b && c <= q < d && -1 <= p - q <= 1
  {
    p := Nearest(a, b, c);
    q := Nearest(c, d, p);
  }

  /** Boxes touch exactly when a pixel of one is at most a row and a column from a pixel of the other. */
  lemma TouchesMeans(a: Bounds, b: Bounds)
    requires Proper(a) && Proper(b)
    ensures Touches(a, b) <==> exists p, q :: Holds(a, p) && Holds(b, q) && Near(p, q)
  {
    if Touches(a, b) {
      var x, x' := RangesNear(a.left, a.right, b.left, b.right);
      var y, y' := RangesNear(a.top, a.bottom, b.top, b.bottom);
      assert Holds(a, (x, y)) && Holds(b, (x', y')) && Near((x, y), (x', y'));
    }
  }

  // ----- the border

  /** The pixels of the canvas at most a row and a column from the box. */
  ghost predicate Around(box: Bounds, size: Size, p: (int, int))
  {
    Holds(Canvas(size), p) && exists q :: Holds(box, q) && Near(p, q)
  }

  /** The visible boxes of the images, in list order. */
  function Seen(images: seq<Image>, size: Size): seq<Bounds>
  {
    if images == [] then []
    else
      var n := |images| - 1;
      match Clipped(images[n], size)
      case Visible(box) => Seen(images[..n], size) + [box]
      case _ => Seen(images[..n], size)
  }

  /** A visible box is not empty and lies on the canvas. */
  predicate Shown(box: Bounds, size: Size)
  {
    Proper(box) && Inside(box, Canvas(size))
  }

  lemma BorderAround(box: Bounds, size: Size, p: (int, int))
    requires Shown(box, size)
    ensures Holds(Bordered(box, size), p) <==> Around(box, size, p)
  {
    var q := (Nearest(box.left, box.right, p.0), Nearest(box.top, box.bottom, p.1));
    assert Holds(box, q);
    if Holds(Bordered(box, size), p) {
      assert Near(p, q);
    }
  }

  /** The boxes to be merged are, one for one, the surroundings of what is visible. */
  lemma {:induction false} BoxesAround(images: seq<Image>, size: Size)
    ensures |Boxes(images, size)| == |Seen(images, size)|
    ensures forall j, p :: 0 <= j < |Seen(images, size)| ==>
              (Holds(Boxes(images, size)[j], p) <==> Around(Seen(images, size)[j], size, p))
  {
    if images != [] {
      var n := |images| - 1;
      BoxesAround(images[..n], size);
      if Clipped(images[n], size).Visible? {
        var box := Clipped(images[n], size).box;
        forall p ensures Holds(Bordered(box, size), p) <==> Around(box, size, p) {
          BorderAround(box, size, p);
        }
      }
    }
  }

  // ----- sides

  /** Each side of the region is the side of some box inside it. */
  ghost predicate SidesOf(r: Bounds, boxes: seq<Bounds>)
  {
    && (exists b :: b in boxes && Inside(b, r) && b.left == r.left)
    && (exists b :: b in boxes && Inside(b, r) && b.top == r.top)
    && (exists b :: b in boxes && Inside(b, r) && b.right == r.right)
    && (exists b :: b in boxes && Inside(b, r) && b.bottom == r.bottom)
  }

  ghost predicate AllSides(rs: seq<Bounds>, boxes: seq<Bounds>)
  {
    forall k :: 0 <= k < |rs| ==> SidesOf(rs[k], boxes)
  }

  lemma UniteSides(a: Bounds, b: Bounds, boxes: seq<Bounds>)
    requires SidesOf(a, boxes) && SidesOf(b, boxes)
    ensures SidesOf(Unite(a, b), boxes)
  {
    var l := if a.left < b.left then a else b;
    var x :| x in boxes && Inside(x, l) && x.left == l.left;
    var t := if a.top < b.top then a else b;
    var y :| y in boxes && Inside(y, t) && y.top == t.top;
    var r := if a.right > b.right then a else b;
    var z :| z in boxes && Inside(z, r) && z.right == r.right;
    var d := if a.bottom > b.bottom then a else b;
    var w :| w in boxes && Inside(w, d) && w.bottom == d.bottom;
    assert Inside(x, Unite(a, b)) && Inside(y, Unite(a, b)) && Inside(z, Unite(a, b)) && Inside(w, Unite(a, b));
  }

  lemma {:induction false} AbsorbSides(rs: seq<Bounds>, box: Bounds, i: nat, boxes: seq<Bounds>)
    requires i <= |rs| && AllSides(rs, boxes) && SidesOf(box, boxes)
    ensures AllSides(Absorb(rs, box, i).rest, boxes) && SidesOf(Absorb(rs, box, i).box, boxes)
    decreases |rs|, |rs| - i
  {
    if i < |rs| {
      if Touches(box, rs[i]) {
        UniteSides(box, rs[i], boxes);
        AbsorbSides(RemoveAt(rs, i), Unite(box, rs[i]), 0, boxes);
      } else {
        AbsorbSides(rs, box, i + 1, boxes);
      }
    }
  }

  lemma {:induction false} UniteAllSides(box: Bounds, rs: seq<Bounds>, boxes: seq<Bounds>)
    requires AllSides(rs, boxes) && SidesOf(box, boxes)
    ensures SidesOf(UniteAll(box, rs), boxes)
  {
    if rs != [] {
      var n := |rs| - 1;
      assert AllSides(rs[..n], boxes);
      UniteAllSides(box, rs[..n], boxes);
      UniteSides(UniteAll(box, rs[..n]), rs[n], boxes);
    }
  }

  lemma MoreSides(r: Bounds, boxes: seq<Bounds>, more: seq<Bounds>)
    requires SidesOf(r, boxes) && forall b :: b in boxes ==> b in more
    ensures SidesOf(r, more)
  {
  }

  /** Merging never puts a side where no box has one. */
  lemma {:induction false} AddAllSides(boxes: seq<Bounds>)
    ensures AllSides(AddAll(boxes), boxes)
  {
    if boxes != [] {
      var n := |boxes| - 1;
      var before, box := AddAll(boxes[..n]), boxes[n];
      AddAllSides(boxes[..n]);
      forall k | 0 <= k < |before| ensures SidesOf(before[k], boxes) {
        MoreSides(before[k], boxes[..n], boxes);
      }
      assert box in boxes && Inside(box, box);
      AbsorbSides(before, box, 0, boxes);
      var a := Absorb(before, box, 0);
      if CapFires(before, box) {
        UniteAllSides(a.box, a.rest, boxes);
      }
    }
  }

  // ----- what the sides of a region look like

  function VisibleBox(images: seq<Image>, size: Size, i: nat): Bounds
    requires i < |images| && Clipped(images[i], size).Visible?
  {
    Clipped(images[i], size).box
  }

  /** Image i is visible inside the region, with a border on each side that the canvas has room for. */
  ghost predicate Framing(images: seq<Image>, size: Size, r: Bounds, i: nat)
  {
    && i < |images| && Clipped(images[i], size).Visible?
    && forall p :: Around(VisibleBox(images, size, i), size, p) ==> Holds(r, p)
  }

  /** Every side of the region is one pixel outside some image, or on the side of the canvas next to it. */
  ghost predicate Tight(images: seq<Image>, size: Size, r: Bounds)
  {
    && (exists i: nat :: Framing(images, size, r, i) && r.left == Max(VisibleBox(images, size, i).left - 1, 0))
    && (exists i: nat :: Framing(images, size, r, i) && r.top == Max(VisibleBox(images, size, i).top - 1, 0))
    && (exists i: nat ::
          Framing(images, size, r, i) && r.right == Min(VisibleBox(images, size, i).right + 1, size.width))
    && (exists i: nat ::
          Framing(images, size, r, i) && r.bottom == Min(VisibleBox(images, size, i).bottom + 1, size.height))
  }

  lemma {:induction false} BoxFrom(images: seq<Image>, size: Size, b: Bounds) returns (i: nat)
    requires b in Boxes(images, size)
    ensures i < |images| && Clipped(images[i], size).Visible? && b == Bordered(Clipped(images[i], size).box, size)
  {
    var n := |images| - 1;
    if b in Boxes(images[..n], size) {
      i := BoxFrom(images[..n], size, b);
    } else {
      i := n;
    }
  }

  lemma BoxFrames(images: seq<Image>, size: Size, r: Bounds, b: Bounds) returns (i: nat)
    requires b in Boxes(images, size) && Inside(b, r)
    ensures Framing(images, size, r, i) && b == Bordered(Clipped(images[i], size).box, size)
  {
    i := BoxFrom(images, size, b);
    var box := Clipped(images[i], size).box;
    forall p | Around(box, size, p) ensures Holds(r, p) {
      BorderAround(box, size, p);
    }
  }

  lemma RegionsTight(images: seq<Image>, size: Size, k: nat)
    requires k < |Regions(images, size)|
    ensures Tight(images, size, Regions(images, size)[k])
  {
    var boxes, r := Boxes(images, size), Regions(images, size)[k];
    AddAllSides(boxes);
    var a :| a in boxes && Inside(a, r) && a.left == r.left;
    var i := BoxFrames(images, size, r, a);
    var b :| b in boxes && Inside(b, r) && b.top == r.top;
    i := BoxFrames(images, size, r, b);
    var c :| c in boxes && Inside(c, r) && c.right == r.right;
    i := BoxFrames(images, size, r, c);
    var d :| d in boxes && Inside(d, r) && d.bottom == r.bottom;
    i := BoxFrames(images, size, r, d);
  }

  /** The pixel lies on a side of the region that is not a side of the canvas. */
  predicate OnSide(r: Bounds, size: Size, p: (int, int))
  {
    Holds(r, p) &&
    ((p.0 == r.left && r.left > 0) || (p.1 == r.top && r.top > 0) ||
     (p.0 == r.right - 1 && r.right < size.width) || (p.1 == r.bottom - 1 && r.bottom < size.height))
  }

  /** No image is visible there. */
  lemma SideClear(images: seq<Image>, size: Size, k: nat, p: (int, int), i: nat)
    requires k < |Regions(images, size)| && OnSide(Regions(images, size)[k], size, p)
    requires i < |images| && Clipped(images[i], size).Visible?
    ensures !Holds(Clipped(images[i], size).box, p)
  {
    var box, rs := Clipped(images[i], size).box, Regions(images, size);
    if Holds(box, p) {
      BoxListed(images, size, i);
      BorderedAround(images[i], size);
      AddAllSound(Boxes(images, size));
      var j: nat :| j < |Boxes(images, size)| && Boxes(images, size)[j] == Bordered(box, size);
      assert Covered(Bordered(box, size), rs);
      var m: nat :| m < |rs| && Inside(Bordered(box, size), rs[m]);
      OneRegion(rs, m, k, p);
    }
  }

  lemma {:induction false} NothingThere(images: seq<Image>, mem: int -> Byte, size: Size, p: (int, int))
    requires forall i :: 0 <= i < |images| && Clipped(images[i], size).Visible? ==>
               !Holds(Clipped(images[i], size).box, p)
    ensures Paint(images, mem, size, p.0, p.1) == TRANSPARENT
  {
    if images != [] {
      var n := |images| - 1;
      assert forall i :: 0 <= i < n ==> images[..n][i] == images[i];
      NothingThere(images[..n], mem, size, p);
    }
  }

  /** Every side of a region that is not a side of the canvas is transparent. */
  lemma SideTransparent(f: Frame, size: Size, k: nat, p: (int, int))
    requires k < |Regions(f.images, size)| && OnSide(Regions(f.images, size)[k], size, p)
    ensures Picture(f, size, p.0, p.1) == TRANSPARENT
  {
    forall i | 0 <= i < |f.images| && Clipped(f.images[i], size).Visible?
      ensures !Holds(Clipped(f.images[i], size).box, p)
    {
      SideClear(f.images, size, k, p, i);
    }
    NothingThere(f.images, f.mem, size, p);
  }
}
