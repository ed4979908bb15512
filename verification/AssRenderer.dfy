/**
  The subtitle renderer of src/ass.c: a context that keeps the regions of the previous
  frame and re-composes only what changed. The class invariant says what a valid cache
  is worth: every region in the arena shows the picture of the frame libass delivered last.
 */
module AssRenderer {
  import opened AssComposite
  import opened AssRegions
  import opened AssArea
  import opened AssFrame
  import opened AssArena
  import opened AssCompose
  import opened AssReuse

  const MAX_IMAGES := 16384

  /**
    One call of `butaca_ass_render` and what its surroundings do: libass' frame and changed
    flag, and whether realloc succeeds.
   */
  datatype Request = Request(hasTrack: bool, width: int, height: int, storageWidth: int, storageHeight: int,
                             frame: Frame, changed: bool, keysAlloc: bool, arenaAlloc: bool)

  predicate BadArguments(q: Request)
  {
    !q.hasTrack || q.width <= 0 || q.height <= 0 || q.width > 4096 || q.height > 2160 ||
    q.width * q.height > MAX_PIXELS ||
    q.storageWidth <= 0 || q.storageHeight <= 0 || q.storageWidth > 65536 || q.storageHeight > 65536
  }

  function SizeOf(q: Request): Size
    requires !BadArguments(q)
  {
    Size(q.width, q.height)
  }

  ghost predicate Refusable(images: seq<Image>, size: Size)
  {
    |images| > MAX_IMAGES || exists i :: 0 <= i < |images| && Clipped(images[i], size).Invalid?
  }

  /** Arguments the call accepts, and nothing else. */
  lemma ArgumentsMean(q: Request)
    ensures !BadArguments(q) <==>
            && q.hasTrack && 1 <= q.width <= 4096 && 1 <= q.height <= 2160 && q.width * q.height <= 3840 * 2160
            && 1 <= q.storageWidth <= 65536 && 1 <= q.storageHeight <= 65536
    ensures !BadArguments(q) ==> SizeOf(q) == Size(q.width, q.height)
  {
  }

  /** An image the call can use: empty, or with a buffer whose rows hold its width, and not too large. */
  predicate Usable(image: Image)
  {
    image.w <= 0 || image.h <= 0 ||
    (image.bitmap != 0 && image.w <= image.stride && image.w <= 32768 && image.h <= 32768)
  }

  /** A list the call can use: not too long, and every image of it usable. */
  predicate Workable(images: seq<Image>)
  {
    |images| <= 16384 && forall i :: 0 <= i < |images| ==> Usable(images[i])
  }

  lemma UsableMeans(images: seq<Image>, size: Size)
    ensures !Refusable(images, size) <==> Workable(images)
  {
    if !(forall i :: 0 <= i < |images| ==> Usable(images[i])) {
      var i :| 0 <= i < |images| && !Usable(images[i]);
      assert Clipped(images[i], size).Invalid?;
    }
  }

  // ----- grouping

  method GroupImages(images: seq<Image>, size: Size) returns (ok: bool, bounds: seq<Bounds>)
    ensures ok <==> !Refusable(images, size)
    ensures ok <==> Workable(images)
    ensures ok ==> bounds == Regions(images, size)
  {
    UsableMeans(images, size);
    bounds := [];
    var regions := new Bounds[MAX_REGIONS](_ => Bounds(0, 0, 0, 0));
    var count: nat := 0;
    for i := 0 to |images|
      invariant i <= MAX_IMAGES && count <= MAX_REGIONS
      invariant forall j :: 0 <= j < i ==> !Clipped(images[j], size).Invalid?
      invariant regions[..count] == Regions(images[..i], size)
    {
      if i + 1 > MAX_IMAGES {
        return false, bounds;
      }
      assert images[..i + 1][..i] == images[..i];
      match Clipped(images[i], size)
      case Invalid => return false, bounds;
      case Hidden =>
      case Visible(box) =>
        ghost var boxes := Boxes(images[..i], size);
        assert Boxes(images[..i + 1], size) == boxes + [Bordered(box, size)];
        assert (boxes + [Bordered(box, size)])[..|boxes|] == boxes;
        count := AddBounds(regions, count, Bordered(box, size));
    }
    assert images[..|images|] == images;
    return true, regions[..count];
  }

  // ----- what the arena holds while a frame is composed

  /** Region `k`: finished, or painted with the first `n` images. */
  ghost predicate RegionState(arena: seq<Byte>, bounds: seq<Bounds>, f: Frame, size: Size, k: nat, done: bool, n: nat)
    requires k < |bounds| && n <= |f.images| && AllProper(bounds)
  {
    var at := Offset(Sizes(bounds), k);
    if done then Shows(arena, at, bounds[k], f, size) else Painted(arena, at, bounds[k], f.images[..n], f.mem, size)
  }

  ghost predicate ArenaState(arena: seq<Byte>, bounds: seq<Bounds>, f: Frame, size: Size, done: seq<bool>, n: nat)
  {
    |done| == |bounds| && n <= |f.images| && AllProper(bounds) &&
    forall k :: 0 <= k < |bounds| ==> RegionState(arena, bounds, f, size, k, done[k], n)
  }

  /** All regions of the frame are in the arena, finished. */
  ghost predicate AllShown(arena: seq<Byte>, bounds: seq<Bounds>, f: Frame, size: Size)
  {
    AllProper(bounds) &&
    forall k :: 0 <= k < |bounds| ==> Shows(arena, Offset(Sizes(bounds), k), bounds[k], f, size)
  }

  lemma PixelUntouched(now: seq<Byte>, mid: seq<Byte>, at: nat, b: Bounds, dst: nat, m: nat, p: nat)
    requires Proper(b) && at + 4 * Area(b) <= |mid| && p < Area(b)
    requires Separate(at, 4 * Area(b), dst, m) && SameOutside(now, mid, dst, m)
    ensures RegionPixel(now, at, p) == RegionPixel(mid, at, p)
  {
  }

  /** Work on region `j` leaves the state of region `k` alone. */
  lemma StateUntouched(now: seq<Byte>, mid: seq<Byte>, bounds: seq<Bounds>, f: Frame, size: Size, j: nat, k: nat,
                       done: bool, n: nat)
    requires AllProper(bounds) && j < |bounds| && k < |bounds| && j != k && n <= |f.images|
    requires SameOutside(now, mid, Offset(Sizes(bounds), j), 4 * Area(bounds[j]))
    requires RegionState(mid, bounds, f, size, k, done, n)
    ensures RegionState(now, bounds, f, size, k, done, n)
  {
    OffsetsDisjoint(Sizes(bounds), j, k);
    var at, b := Offset(Sizes(bounds), k), bounds[k];
    forall p | 0 <= p < Area(b) ensures RegionPixel(now, at, p) == RegionPixel(mid, at, p) {
      PixelUntouched(now, mid, at, b, Offset(Sizes(bounds), j), 4 * Area(bounds[j]), p);
    }
  }

  /** An image that is not in region `k` leaves its pixels as painted. */
  lemma PaintedElsewhere(arena: seq<Byte>, at: nat, bounds: seq<Bounds>, f: Frame, size: Size, k: nat, n: nat)
    requires Apart(bounds) && k < |bounds| && n < |f.images| && AllPlaced(f.images, size, bounds)
    requires !InRegion(KeyOf(f.images[n], size, bounds), k)
    requires Painted(arena, at, bounds[k], f.images[..n], f.mem, size)
    ensures Painted(arena, at, bounds[k], f.images[..n + 1], f.mem, size)
  {
    assert f.images[..n + 1][..n] == f.images[..n];
    var c := Clipped(f.images[n], size);
    forall p | 0 <= p < Area(bounds[k])
      ensures Paint(f.images[..n + 1], f.mem, size, Col(bounds[k], p), Row(bounds[k], p))
           == Paint(f.images[..n], f.mem, size, Col(bounds[k], p), Row(bounds[k], p))
    {
      PixelHeld(bounds[k], p);
      var x, y := Col(bounds[k], p), Row(bounds[k], p);
      if c.Visible? && Holds(c.box, (x, y)) {
        OneRegion(bounds, FirstAround(c.box, bounds, 0), k, (x, y));
      }
    }
  }

  lemma PaintedHere(arena: seq<Byte>, orig: seq<Byte>, at: nat, b: Bounds, f: Frame, size: Size, n: nat)
    requires n < |f.images| && Painted(orig, at, b, f.images[..n], f.mem, size)
    requires Drawn(arena, orig, at, b, f.images[n], f.mem, size, Area(b))
    ensures Painted(arena, at, b, f.images[..n + 1], f.mem, size)
  {
    assert f.images[..n + 1][..n] == f.images[..n];
  }

  /** Image `n` was drawn into its region `j`. */
  lemma ImageDrawn(arena: seq<Byte>, orig: seq<Byte>, bounds: seq<Bounds>, f: Frame, size: Size, done: seq<bool>,
                   n: nat, j: nat)
    requires ArenaState(orig, bounds, f, size, done, n) && n < |f.images| && Apart(bounds) &&
             AllPlaced(f.images, size, bounds)
    requires j < |bounds| && !done[j] && InRegion(KeyOf(f.images[n], size, bounds), j)
    requires Drawn(arena, orig, Offset(Sizes(bounds), j), bounds[j], f.images[n], f.mem, size, Area(bounds[j]))
    ensures ArenaState(arena, bounds, f, size, done, n + 1)
  {
    forall k | 0 <= k < |bounds| ensures RegionState(arena, bounds, f, size, k, done[k], n + 1) {
      assert RegionState(orig, bounds, f, size, k, done[k], n);
      if k == j {
        PaintedHere(arena, orig, Offset(Sizes(bounds), j), bounds[j], f, size, n);
      } else {
        StateUntouched(arena, orig, bounds, f, size, j, k, done[k], n);
        if !done[k] {
          PaintedElsewhere(arena, Offset(Sizes(bounds), k), bounds, f, size, k, n);
        }
      }
    }
  }

  /** Image `n` needed no drawing: hidden, or in a finished region. */
  lemma ImageSkipped(arena: seq<Byte>, bounds: seq<Bounds>, f: Frame, size: Size, done: seq<bool>, n: nat)
    requires ArenaState(arena, bounds, f, size, done, n) && n < |f.images| && Apart(bounds) &&
             AllPlaced(f.images, size, bounds)
    requires forall k :: 0 <= k < |bounds| && !done[k] ==> !InRegion(KeyOf(f.images[n], size, bounds), k)
    ensures ArenaState(arena, bounds, f, size, done, n + 1)
  {
    forall k | 0 <= k < |bounds| ensures RegionState(arena, bounds, f, size, k, done[k], n + 1) {
      assert RegionState(arena, bounds, f, size, k, done[k], n);
      if !done[k] {
        PaintedElsewhere(arena, Offset(Sizes(bounds), k), bounds, f, size, k, n);
      }
    }
  }

  /** The composing loop: every image of a region to be redrawn, in list order. */
  method ComposeImages(arena: array<Byte>, placed: seq<Bitmap>, bounds: seq<Bounds>, keys: array<ImageKey>, f: Frame,
                       size: Size, retained: seq<bool>)
    requires |f.images| <= keys.Length && keys[..|f.images|] == KeysOf(f.images, size, bounds)
    requires Apart(bounds) && AllPlaced(f.images, size, bounds)
    requires ArenaState(arena[..], bounds, f, size, retained, 0) && placed == Layout(bounds)
    modifies arena
    ensures ArenaState(arena[..], bounds, f, size, retained, |f.images|)
  {
    for n := 0 to |f.images|
      invariant ArenaState(arena[..], bounds, f, size, retained, n)
    {
      assert keys[n] == keys[..|f.images|][n] == KeyOf(f.images[n], size, bounds);
      ghost var before := arena[..];
      if keys[n] == Unplaced || retained[keys[n].region] {
        ImageSkipped(before, bounds, f, size, retained, n);
      } else {
        var j := keys[n].region;
        assert RegionState(before, bounds, f, size, j, false, n);
        DrawImage(arena, placed[j].offset, bounds[j], f.images[n], f.mem, size, Clipped(f.images[n], size).box);
        ImageDrawn(arena[..], before, bounds, f, size, retained, n, j);
      }
    }
  }

  ghost function DoneUpTo(retained: seq<bool>, m: nat): seq<bool>
  {
    seq(|retained|, k requires 0 <= k < |retained| => retained[k] || k < m)
  }

  lemma StraightenStep(arena: seq<Byte>, before: seq<Byte>, bounds: seq<Bounds>, f: Frame, size: Size,
                       retained: seq<bool>, m: nat)
    requires m < |bounds| && ArenaState(before, bounds, f, size, DoneUpTo(retained, m), |f.images|)
    requires SameOutside(arena, before, Offset(Sizes(bounds), m), 4 * Area(bounds[m]))
    requires Shows(arena, Offset(Sizes(bounds), m), bounds[m], f, size)
    ensures ArenaState(arena, bounds, f, size, DoneUpTo(retained, m + 1), |f.images|)
  {
    var done := DoneUpTo(retained, m + 1);
    forall k | 0 <= k < |bounds| ensures RegionState(arena, bounds, f, size, k, done[k], |f.images|) {
      assert RegionState(before, bounds, f, size, k, DoneUpTo(retained, m)[k], |f.images|);
      if k != m {
        StateUntouched(arena, before, bounds, f, size, m, k, done[k], |f.images|);
      }
    }
  }

  lemma AllDone(arena: seq<Byte>, bounds: seq<Bounds>, f: Frame, size: Size, retained: seq<bool>)
    requires ArenaState(arena, bounds, f, size, DoneUpTo(retained, |bounds|), |f.images|)
    ensures AllShown(arena, bounds, f, size)
  {
    forall k | 0 <= k < |bounds| ensures Shows(arena, Offset(Sizes(bounds), k), bounds[k], f, size) {
      assert RegionState(arena, bounds, f, size, k, DoneUpTo(retained, |bounds|)[k], |f.images|);
    }
  }

  /** The final loop over the regions that were redrawn. */
  method StraightenRegions(arena: array<Byte>, placed: seq<Bitmap>, bounds: seq<Bounds>, reciprocal: seq<Word>,
                           ghost f: Frame, ghost size: Size, retained: seq<bool>)
    requires Reciprocals(reciprocal) && ArenaState(arena[..], bounds, f, size, retained, |f.images|) &&
             placed == Layout(bounds)
    modifies arena
    ensures AllShown(arena[..], bounds, f, size)
  {
    assert DoneUpTo(retained, 0) == retained;
    for m := 0 to |bounds|
      invariant ArenaState(arena[..], bounds, f, size, DoneUpTo(retained, m), |f.images|)
    {
      ghost var before := arena[..];
      assert RegionState(before, bounds, f, size, m, DoneUpTo(retained, m)[m], |f.images|);
      if !retained[m] {
        assert f.images[..|f.images|] == f.images;
        StraightenRegion(arena, placed[m].offset, bounds[m], reciprocal, f, size);
      }
      StraightenStep(arena[..], before, bounds, f, size, retained, m);
    }
    AllDone(arena[..], bounds, f, size, retained);
  }
}
