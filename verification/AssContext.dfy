/**
  The renderer context `struct ButacaAss` and `butaca_ass_render`.

  `Valid` is the cache invariant: while the cache is marked valid, the arena shows the
  from-scratch picture of every region of the frame libass delivered last. `Render` keeps
  it over every call, so that it holds after any sequence of calls; `RunSession` spells
  that out for whole sessions.
 */
module AssContext {
  import opened AssComposite
  import opened AssRegions
  import opened AssArea
  import opened AssBorder
  import opened AssReusable
  import opened AssFrame
  import opened AssArena
  import opened AssCompose
  import opened AssReuse
  import opened AssRenderer

  // ----- carrying a region over

  /** The pixels of a region whose keys did not change are the pixels it showed before. */
  lemma CarriedShown(arena: seq<Byte>, at: nat, orig: seq<Byte>, from: nat, prev: Frame, next: Frame, size: Size,
                     k: nat)
    requires Stable(prev, next)
    requires var rs, rs' := Regions(prev.images, size), Regions(next.images, size);
             && k < |rs| && k < |rs'| && Proper(rs[k]) && Proper(rs'[k])
             && Width(rs[k]) == Width(rs'[k]) && Height(rs[k]) == Height(rs'[k])
             && SameRegion(KeysOf(prev.images, size, rs), KeysOf(next.images, size, rs'), k)
             && Shows(orig, from, rs[k], prev, size)
             && Carries(arena, at, orig, from, 4 * Area(rs[k]))
    ensures Shows(arena, at, Regions(next.images, size)[k], next, size)
  {
    var b, b' := Regions(prev.images, size)[k], Regions(next.images, size)[k];
    forall p | 0 <= p < Area(b')
      ensures RegionPixel(arena, at, p) == Picture(next, size, Col(b', p), Row(b', p))
    {
      PixelHeld(b, p);
      PixelHeld(b', p);
      RegionReused(prev, size, next, size, k, p % Width(b), p / Width(b));
      CarriedPixel(arena, at, orig, from, 4 * Area(b), p);
    }
  }

  lemma CarriedPixel(arena: seq<Byte>, at: nat, orig: seq<Byte>, from: nat, n: nat, p: nat)
    requires Carries(arena, at, orig, from, n) && 4 * p + 4 <= n
    ensures RegionPixel(arena, at, p) == RegionPixel(orig, from, p)
  {
  }

  // ----- an unchanged frame

  lemma {:induction false} PaintStable(images: seq<Image>, all: seq<Image>, mem: int -> Byte, mem': int -> Byte,
                                       size: Size, x: int, y: int)
    requires images <= all
    requires forall a :: InBuffers(all, a) ==> mem(a) == mem'(a)
    ensures Paint(images, mem, size, x, y) == Paint(images, mem', size, x, y)
  {
    if images != [] {
      var n := |images| - 1;
      PaintStable(images[..n], all, mem, mem', size, x, y);
      var c := Clipped(images[n], size);
      if c.Visible? && Holds(c.box, (x, y)) {
        var a := ByteAt(images[n], x - images[n].dstX, y - images[n].dstY);
        assert InBuffer(images[n], a);
        assert all[n] == images[n];
        assert InBuffers(all, a);
      }
    }
  }

  /** The same image list over stable buffers is the same picture. */
  lemma PictureStable(prev: Frame, next: Frame, size: Size, x: int, y: int)
    requires Stable(prev, next) && prev.images == next.images
    ensures Picture(prev, size, x, y) == Picture(next, size, x, y)
  {
    PaintStable(prev.images, prev.images, prev.mem, next.mem, size, x, y);
  }

  lemma ShownStable(arena: seq<Byte>, bounds: seq<Bounds>, prev: Frame, next: Frame, size: Size)
    requires Stable(prev, next) && prev.images == next.images
    requires AllShown(arena, bounds, prev, size)
    ensures AllShown(arena, bounds, next, size)
  {
    forall k | 0 <= k < |bounds| ensures Shows(arena, Offset(Sizes(bounds), k), bounds[k], next, size) {
      forall p | 0 <= p < Area(bounds[k])
        ensures Picture(prev, size, Col(bounds[k], p), Row(bounds[k], p)) ==
                Picture(next, size, Col(bounds[k], p), Row(bounds[k], p))
      {
        PictureStable(prev, next, size, Col(bounds[k], p), Row(bounds[k], p));
      }
    }
  }

  // ----- what a caller sees

  /**
    The bitmaps of a returned frame are the from-scratch rendering: they stay apart, every
    pixel of every bitmap is the pixel of the whole image list, and outside the bitmaps
    that picture is transparent.
   */
  ghost predicate FromScratch(arena: seq<Byte>, out: seq<Bitmap>, f: Frame, size: Size)
  {
    && |out| <= MAX_REGIONS
    && (forall k, x, y :: 0 <= k < |out| && 0 <= x < out[k].width && 0 <= y < out[k].height ==>
         ShowsAt(arena, out[k], f, size, x, y))
    && (forall x, y :: (forall k :: 0 <= k < |out| ==> !InBitmap(out[k], x, y)) ==>
          Picture(f, size, x, y) == TRANSPARENT)
    && (forall j, k, x, y :: 0 <= j < |out| && 0 <= k < |out| && InBitmap(out[j], x, y) && InBitmap(out[k], x, y) ==>
          j == k)
    && forall k :: 0 <= k < |out| ==> Framed(out[k], f, size) && InArena(out[k], |arena|)
  }

  /**
    The bitmap lies on the canvas; each of its sides is one pixel outside some image that
    starts there, or on the side of the canvas, and inside the canvas it is transparent.
   */
  ghost predicate Framed(m: Bitmap, f: Frame, size: Size)
  {
    FramedBox(Bounds(m.x, m.y, m.x + m.width, m.y + m.height), f, size)
  }

  ghost predicate FramedBox(b: Bounds, f: Frame, size: Size)
  {
    && Proper(b) && Inside(b, Canvas(size)) && Tight(f.images, size, b)
    && forall p :: OnSide(b, size, p) ==> Picture(f, size, p.0, p.1) == TRANSPARENT
  }

  /** Four bytes a pixel, all of them in the arena. */
  predicate InArena(m: Bitmap, capacity: nat)
  {
    m.bytes == m.width * m.height * 4 && m.offset + m.bytes <= capacity
  }

  lemma RegionFramed(arena: seq<Byte>, f: Frame, size: Size, k: nat)
    requires AllShown(arena, Regions(f.images, size), f, size) && k < |Regions(f.images, size)|
    ensures Framed(Layout(Regions(f.images, size))[k], f, size)
    ensures InArena(Layout(Regions(f.images, size))[k], |arena|)
  {
    var bounds := Regions(f.images, size);
    BoxFramed(f, size, k);
    SameBox(bounds, k);
    assert Shows(arena, Offset(Sizes(bounds), k), bounds[k], f, size);
  }

  lemma SameBox(bounds: seq<Bounds>, k: nat)
    requires AllProper(bounds) && k < |bounds|
    ensures var m := Layout(bounds)[k];
            && Bounds(m.x, m.y, m.x + m.width, m.y + m.height) == bounds[k]
            && m.bytes == m.width * m.height * 4 == 4 * Area(bounds[k]) && m.offset == Offset(Sizes(bounds), k)
  {
  }

  lemma BoxFramed(f: Frame, size: Size, k: nat)
    requires k < |Regions(f.images, size)|
    ensures FramedBox(Regions(f.images, size)[k], f, size)
  {
    RegionsSound(f.images, size);
    RegionsTight(f.images, size, k);
    forall p | OnSide(Regions(f.images, size)[k], size, p) ensures Picture(f, size, p.0, p.1) == TRANSPARENT {
      SideTransparent(f, size, k, p);
    }
  }

  /** Column `x` of row `y` of the bitmap holds the pixel of the whole frame at that place. */
  ghost predicate ShowsAt(arena: seq<Byte>, m: Bitmap, f: Frame, size: Size, x: int, y: int)
  {
    var i := m.offset + (y * m.width + x) * 4;
    var p := Picture(f, size, m.x + x, m.y + y);
    0 <= i && i + 4 <= |arena| && arena[i] == p.r && arena[i + 1] == p.g && arena[i + 2] == p.b && arena[i + 3] == p.a
  }

  ghost predicate InBitmap(m: Bitmap, x: int, y: int)
  {
    m.x <= x < m.x + m.width && m.y <= y < m.y + m.height
  }

  lemma ShownPixel(arena: seq<Byte>, bounds: seq<Bounds>, f: Frame, size: Size, k: nat, x: int, y: int)
    requires AllShown(arena, bounds, f, size) && k < |bounds|
    requires 0 <= x < Layout(bounds)[k].width && 0 <= y < Layout(bounds)[k].height
    ensures ShowsAt(arena, Layout(bounds)[k], f, size, x, y)
  {
    assert Shows(arena, Offset(Sizes(bounds), k), bounds[k], f, size);
    ShownInRegion(arena, Offset(Sizes(bounds), k), bounds[k], f, size, x, y);
  }

  lemma ShownInRegion(arena: seq<Byte>, at: nat, b: Bounds, f: Frame, size: Size, x: int, y: int)
    requires Shows(arena, at, b, f, size) && 0 <= x < Width(b) && 0 <= y < Height(b)
    ensures ShowsAt(arena, Bitmap(b.left, b.top, Width(b), Height(b), RegionBytes(b), at), f, size, x, y)
  {
    ColRow(b, b.left + x, b.top + y);
    var p := IndexOf(b, b.left + x, b.top + y);
    assert RegionPixel(arena, at, p) == Picture(f, size, Col(b, p), Row(b, p));
  }

  lemma ShownFromScratch(arena: seq<Byte>, f: Frame, size: Size)
    requires AllShown(arena, Regions(f.images, size), f, size)
    ensures FromScratch(arena, Layout(Regions(f.images, size)), f, size)
  {
    var bounds := Regions(f.images, size);
    var out := Layout(bounds);
    RegionsSound(f.images, size);
    forall k, x, y | 0 <= k < |out| && 0 <= x < out[k].width && 0 <= y < out[k].height
      ensures ShowsAt(arena, out[k], f, size, x, y)
    {
      ShownPixel(arena, bounds, f, size, k, x, y);
    }
    forall x, y | forall k :: 0 <= k < |out| ==> !InBitmap(out[k], x, y) ensures Picture(f, size, x, y) == TRANSPARENT {
      forall k | 0 <= k < |bounds| ensures !Holds(bounds[k], (x, y)) {
        assert !InBitmap(out[k], x, y);
      }
      OutsideTransparent(f, size, x, y);
    }
    forall j, k, x, y | 0 <= j < |out| && 0 <= k < |out| && InBitmap(out[j], x, y) && InBitmap(out[k], x, y)
      ensures j == k
    {
      OneRegion(bounds, j, k, (x, y));
    }
    forall k | 0 <= k < |out| ensures Framed(out[k], f, size) && InArena(out[k], |arena|) {
      RegionFramed(arena, f, size, k);
    }
  }

  lemma UnchangedFromScratch(arena: seq<Byte>, prev: Frame, next: Frame, size: Size)
    requires Stable(prev, next) && prev.images == next.images
    requires AllShown(arena, Regions(prev.images, size), prev, size)
    ensures AllShown(arena, Regions(next.images, size), next, size)
    ensures FromScratch(arena, Layout(Regions(next.images, size)), next, size)
  {
    ShownStable(arena, Regions(prev.images, size), prev, next, size);
    ShownFromScratch(arena, next, size);
  }

  /** The bytes of the regions never exceed the size the C code refuses. */
  lemma RegionsFit(images: seq<Image>, size: Size)
    requires size.width > 0 && size.height > 0 && size.width * size.height <= MAX_PIXELS
    ensures AllProper(Regions(images, size)) && TotalArea(Regions(images, size)) <= MAX_PIXELS
  {
    RegionsSound(images, size);
    TotalAreaBounded(Regions(images, size), Canvas(size));
  }

  ghost function ArenaNeeded(images: seq<Image>, size: Size): nat
  {
    RegionsSound(images, size);
    4 * TotalArea(Regions(images, size))
  }

  lemma LayoutSizes(bounds: seq<Bounds>)
    requires AllProper(bounds)
    ensures BitmapSizes(Layout(bounds)) == Sizes(bounds)
  {
  }

  /** Which regions the retention rule keeps. */
  ghost predicate RetainedSound(prev: Frame, f: Frame, size: Size, was: seq<Bitmap>, bounds: seq<Bounds>,
                                retained: seq<bool>)
  {
    var rs := Regions(prev.images, size);
    && AllProper(rs) && AllProper(bounds) && |retained| == |bounds|
    && forall k :: 0 <= k < |bounds| && retained[k] ==>
         && was == Layout(rs) && |rs| == |bounds|
         && Width(rs[k]) == Width(bounds[k]) && Height(rs[k]) == Height(bounds[k])
         && SameRegion(KeysOf(prev.images, size, rs), KeysOf(f.images, size, bounds), k)
  }

  /** What the code compares - the regions and keys it kept - is what the frames say. */
  lemma RetainedMeans(prev: Frame, f: Frame, size: Size, regions: seq<Bitmap>, was: seq<ImageKey>, reusable: bool,
                      k: nat, candidate: bool, retained: bool)
    requires k < |Regions(f.images, size)|
    requires AllProper(Regions(prev.images, size)) && AllProper(Regions(f.images, size))
    requires reusable ==> regions == Layout(Regions(prev.images, size))
    requires reusable && Regions(prev.images, size) != [] ==>
               was == KeysOf(prev.images, size, Regions(prev.images, size))
    requires var bounds := Regions(f.images, size);
             var same := reusable && |regions| == |bounds| && |was| == |f.images|;
             && (candidate <==>
                   same && regions[k].width == Width(bounds[k]) && regions[k].height == Height(bounds[k]))
             && (retained <==> candidate && (same ==> SameRegion(was, KeysOf(f.images, size, bounds), k)))
    ensures retained <==> reusable && Unchanged(prev, f, size, k)
  {
    var rs, bounds := Regions(prev.images, size), Regions(f.images, size);
    if reusable && |rs| == |bounds| && |prev.images| == |f.images| {
      SameRegionMeans(prev, f, size, k);
    }
  }

  lemma SameRegionMeans(prev: Frame, f: Frame, size: Size, k: nat)
    requires |prev.images| == |f.images|
    ensures var rs, bounds := Regions(prev.images, size), Regions(f.images, size);
            SameRegion(KeysOf(prev.images, size, rs), KeysOf(f.images, size, bounds), k) <==>
            forall i :: 0 <= i < |f.images| ==> SameImage(prev.images[i], rs, f.images[i], bounds, size, k)
  {
    var rs, bounds := Regions(prev.images, size), Regions(f.images, size);
    var was, now := KeysOf(prev.images, size, rs), KeysOf(f.images, size, bounds);
    assert forall i :: 0 <= i < |f.images| ==>
             was[i] == KeyOf(prev.images[i], size, rs) && now[i] == KeyOf(f.images[i], size, bounds);
  }

  lemma RetainedPlaceable(prev: Frame, f: Frame, size: Size, was: seq<Bitmap>, bounds: seq<Bounds>, retained: seq<bool>,
                          capacity: nat)
    requires RetainedSound(prev, f, size, was, bounds, retained)
    requires Offset(BitmapSizes(was), |was|) <= capacity && Offset(Sizes(bounds), |bounds|) <= capacity
    ensures Placeable(BitmapSizes(was), Sizes(bounds), retained, capacity)
  {
  }

  /** After placing: retained regions are finished, the others hold the painting of no images. */
  lemma PlacedState(arena: seq<Byte>, orig: seq<Byte>, prev: Frame, f: Frame, size: Size, was: seq<Bitmap>,
                    bounds: seq<Bounds>, retained: seq<bool>)
    requires bounds == Regions(f.images, size) && RetainedSound(prev, f, size, was, bounds, retained)
    requires forall k :: 0 <= k < |bounds| && retained[k] ==>
             Stable(prev, f) && AllShown(orig, Regions(prev.images, size), prev, size)
    requires RetainedKept(arena, orig, BitmapSizes(was), Sizes(bounds), retained)
    requires OthersCleared(arena, Sizes(bounds), retained, |bounds|)
    ensures ArenaState(arena, bounds, f, size, retained, 0)
  {
    forall k | 0 <= k < |bounds| ensures RegionState(arena, bounds, f, size, k, retained[k], 0) {
      if retained[k] {
        RetainedCarried(arena, orig, prev, f, size, was, bounds, retained, k);
        RetainedState(arena, orig, prev, f, size, k);
      } else {
        ClearedState(arena, f, size, bounds, k);
      }
    }
  }

  lemma RetainedCarried(arena: seq<Byte>, orig: seq<Byte>, prev: Frame, f: Frame, size: Size, was: seq<Bitmap>,
                        bounds: seq<Bounds>, retained: seq<bool>, k: nat)
    requires RetainedSound(prev, f, size, was, bounds, retained) && k < |bounds| && retained[k]
    requires RetainedKept(arena, orig, BitmapSizes(was), Sizes(bounds), retained)
    ensures var rs := Regions(prev.images, size);
            && was == Layout(rs) && |rs| == |bounds|
            && Width(rs[k]) == Width(bounds[k]) && Height(rs[k]) == Height(bounds[k])
            && SameRegion(KeysOf(prev.images, size, rs), KeysOf(f.images, size, bounds), k)
            && Carries(arena, Offset(Sizes(bounds), k), orig, Offset(Sizes(rs), k), 4 * Area(rs[k]))
  {
    LayoutSizes(Regions(prev.images, size));
    assert Carries(arena, Offset(Sizes(bounds), k), orig, Offset(BitmapSizes(was), k), Sizes(bounds)[k]);
  }

  lemma RetainedState(arena: seq<Byte>, orig: seq<Byte>, prev: Frame, f: Frame, size: Size, k: nat)
    requires Stable(prev, f) && AllShown(orig, Regions(prev.images, size), prev, size)
    requires var rs, bounds := Regions(prev.images, size), Regions(f.images, size);
             && AllProper(bounds) && k < |rs| && k < |bounds|
             && Width(rs[k]) == Width(bounds[k]) && Height(rs[k]) == Height(bounds[k])
             && SameRegion(KeysOf(prev.images, size, rs), KeysOf(f.images, size, bounds), k)
             && Carries(arena, Offset(Sizes(bounds), k), orig, Offset(Sizes(rs), k), 4 * Area(rs[k]))
    ensures RegionState(arena, Regions(f.images, size), f, size, k, true, 0)
  {
    var rs, bounds := Regions(prev.images, size), Regions(f.images, size);
    assert Shows(orig, Offset(Sizes(rs), k), rs[k], prev, size);
    CarriedShown(arena, Offset(Sizes(bounds), k), orig, Offset(Sizes(rs), k), prev, f, size, k);
  }

  lemma ClearedState(arena: seq<Byte>, f: Frame, size: Size, bounds: seq<Bounds>, k: nat)
    requires AllProper(bounds) && k < |bounds| && Zeroed(arena, Offset(Sizes(bounds), k), Sizes(bounds)[k])
    ensures RegionState(arena, bounds, f, size, k, false, 0)
  {
  }

  /** A longer arena with the same bytes in front shows the same regions. */
  lemma ShownGrown(arena: seq<Byte>, before: seq<Byte>, f: Frame, size: Size)
    requires before <= arena
    ensures var bounds := Regions(f.images, size);
            AllShown(before, bounds, f, size) ==> AllShown(arena, bounds, f, size)
  {
  }

  class ButacaAss {
    var rgba: array<Byte>
    var regions: seq<Bitmap>
    var images: array<ImageKey>
    var imageCount: nat
    var cacheValid: bool
    var width: int
    var height: int
    var storageWidth: int
    var storageHeight: int
    var first: bool
    const reciprocal: seq<Word>

    /** The frame libass delivered last, once it has delivered one. */
    ghost var delivered: Frame
    ghost var rendered: bool
    /** The regions that the last call composed anew. */
    ghost var redrawn: set<nat>

    ghost predicate Valid()
      reads this, rgba, images
    {
      && Reciprocals(reciprocal)
      && imageCount <= images.Length && |regions| <= MAX_REGIONS
      && Offset(BitmapSizes(regions), |regions|) <= rgba.Length
      && (cacheValid ==> !first && rendered && width > 0 && height > 0 && Current())
    }

    /** The arena, the region records and the keys belong to the delivered frame. */
    ghost predicate Current()
      requires imageCount <= images.Length && width > 0 && height > 0
      reads this, rgba, images
    {
      var size := Size(width, height);
      var bounds := Regions(delivered.images, size);
      && AllShown(rgba[..], bounds, delivered, size)
      && regions == Layout(bounds)
      && (bounds != [] ==> images[..imageCount] == KeysOf(delivered.images, size, bounds))
    }

    constructor ()
      ensures Valid() && !cacheValid && !rendered && fresh(rgba) && fresh(images) && rgba.Length == 0
    {
      rgba := new Byte[0];
      images := new ImageKey[0];
      regions, imageCount, cacheValid, first := [], 0, false, true;
      width, height, storageWidth, storageHeight := 0, 0, 0, 0;
      reciprocal := seq(256, a requires 0 <= a < 256 => Reciprocal(a));
      rendered := false;
    }

    ghost predicate Resized(q: Request)
      reads this
    {
      width != q.width || height != q.height || storageWidth != q.storageWidth || storageHeight != q.storageHeight
    }

    /**
      The assumption on libass: consecutive frames are stable, and an unset changed flag,
      at an unchanged size, means an identical image list.
     */
    ghost predicate Consecutive(q: Request)
      reads this
    {
      rendered && !BadArguments(q) ==>
        Stable(delivered, q.frame) && (!q.changed && !Resized(q) ==> q.frame.images == delivered.images)
    }

    /** The call that returns 0 without touching anything. */
    ghost predicate Shortcut(q: Request)
      reads this
    {
      !BadArguments(q) && !q.changed && cacheValid && !Resized(q)
    }

    /** Exactly the calls that fail: bad arguments, an unusable image list, or memory. */
    ghost predicate Fails(q: Request)
      reads this, images, rgba
    {
      BadArguments(q) || (!Shortcut(q) && (Refusable(q.frame.images, SizeOf(q)) || OutOfMemory(q, SizeOf(q))))
    }

    /** The calls that return before the caller's frame structure is touched. */
    ghost predicate LeavesFrame(q: Request)
      reads this
    {
      BadArguments(q) || Shortcut(q) || Refusable(q.frame.images, SizeOf(q))
    }

    /** `butaca_ass_render`; `held` is what the caller's frame structure holds before the call. */
    method Render(q: Request, held: seq<Bitmap>) returns (status: int, frame: seq<Bitmap>)
      requires Valid() && Consecutive(q)
      modifies this, rgba, images
      ensures Valid()
      ensures rgba == old(rgba) || fresh(rgba)
      ensures images == old(images) || fresh(images)
      ensures status == if old(Fails(q)) then -1 else if old(Shortcut(q)) then 0 else 1
      ensures status == 0 <==>
              && !BadArguments(q) && !q.changed && old(cacheValid) && old(width) == q.width && old(height) == q.height
              && old(storageWidth) == q.storageWidth && old(storageHeight) == q.storageHeight
      ensures !BadArguments(q) ==> rendered && delivered == q.frame && cacheValid == (status != -1)
      ensures BadArguments(q) || status == 0 ==>
                rgba == old(rgba) && rgba[..] == old(rgba[..]) && regions == old(regions)
      ensures !BadArguments(q) ==> !Resized(q)
      ensures BadArguments(q) ==> unchanged(this)
      ensures frame == if old(LeavesFrame(q)) then held else if status == 1 then regions else []
      ensures BadArguments(q) || status == 0 || !Workable(q.frame.images) ==> frame == held
      ensures !BadArguments(q) && status != 0 && Workable(q.frame.images) ==>
                frame == if status == 1 then regions else []
      ensures status == -1 <==>
                BadArguments(q) ||
                (status != 0 &&
                 (!Workable(q.frame.images) ||
                  (Regions(q.frame.images, SizeOf(q)) != [] &&
                   ((old(images.Length) < |q.frame.images| && !q.keysAlloc) ||
                    (old(rgba.Length) < ArenaNeeded(q.frame.images, SizeOf(q)) && !q.arenaAlloc)))))
      ensures status != -1 ==> FromScratch(rgba[..], regions, q.frame, SizeOf(q))
      ensures status == 1 ==>
                redrawn == Changed(old(delivered), q.frame, SizeOf(q), old(cacheValid && !Resized(q)))
    {
      if BadArguments(q) {
        return -1, held;
      }
      UsableMeans(q.frame.images, SizeOf(q));
      var touched;
      status, touched := RenderFrame(q);
      frame := if !touched then held else if status == 1 then regions else [];
    }

    /** The call once its arguments are accepted; `touched` says whether it reached the frame structure. */
    method RenderFrame(q: Request) returns (status: int, touched: bool)
      requires Valid() && Consecutive(q) && !BadArguments(q)
      modifies this, rgba, images
      ensures Valid()
      ensures rgba == old(rgba) || fresh(rgba)
      ensures images == old(images) || fresh(images)
      ensures status == if old(Fails(q)) then -1 else if old(Shortcut(q)) then 0 else 1
      ensures rendered && delivered == q.frame && cacheValid == (status != -1)
      ensures status == 0 ==> rgba == old(rgba) && rgba[..] == old(rgba[..]) && regions == old(regions)
      ensures !Resized(q)
      ensures touched <==> !old(LeavesFrame(q))
      ensures status != -1 ==> FromScratch(rgba[..], regions, q.frame, SizeOf(q))
      ensures status == 1 ==>
                redrawn == Changed(old(delivered), q.frame, SizeOf(q), old(cacheValid && !Resized(q)))
    {
      ghost var prev := delivered;
      var size := SizeOf(q);
      var reusable := Begin(q);
      if !q.changed && reusable && !first {
        UnchangedFromScratch(rgba[..], prev, q.frame, size);
        cacheValid := true;
        return 0, false;
      }
      status, touched := Repaint(q, size, reusable, prev);
    }

    /** The call when libass has something new, or the cache is of no use. */
    method Repaint(q: Request, size: Size, reusable: bool, ghost prev: Frame) returns (status: int, touched: bool)
      requires Valid() && !cacheValid && !BadArguments(q) && size == SizeOf(q) && delivered == q.frame && rendered
      requires width == size.width && height == size.height
      requires reusable ==> Reusable(prev, q.frame, size)
      modifies this`regions, this`images, this`imageCount, this`rgba, this`redrawn, this`cacheValid, this`first, rgba,
          images
      ensures Valid() && cacheValid == (status != -1)
      ensures rgba == old(rgba) || fresh(rgba)
      ensures images == old(images) || fresh(images)
      ensures status == if Refusable(q.frame.images, size) || old(OutOfMemory(q, size)) then -1 else 1
      ensures touched <==> !Refusable(q.frame.images, size)
      ensures status == 1 ==> FromScratch(rgba[..], regions, q.frame, size)
      ensures status == 1 ==> redrawn == Changed(prev, q.frame, size, reusable)
    {
      first := false;
      cacheValid, touched := Refresh(q, size, reusable, prev);
      status := if cacheValid then 1 else -1;
    }

    /** Take over a new size, mark the cache invalid until the call succeeds, and let libass render. */
    method Begin(q: Request) returns (reusable: bool)
      requires Valid() && Consecutive(q) && !BadArguments(q)
      modifies this`width, this`height, this`storageWidth, this`storageHeight, this`cacheValid, this`delivered,
          this`rendered
      ensures Valid() && !cacheValid && !Resized(q) && rendered && delivered == q.frame
      ensures reusable <==> old(cacheValid && !Resized(q))
      ensures reusable ==> Reusable(old(delivered), q.frame, SizeOf(q))
      ensures reusable && !q.changed ==> q.frame.images == old(delivered).images
    {
      var resized := width != q.width || height != q.height || storageWidth != q.storageWidth ||
          storageHeight != q.storageHeight;
      if resized {
        width, height, storageWidth, storageHeight := q.width, q.height, q.storageWidth, q.storageHeight;
      }
      reusable := cacheValid && !resized;
      cacheValid := false;
      delivered, rendered := q.frame, true;
    }

    /** What a reusable cache gives the next frame. */
    ghost predicate Reusable(prev: Frame, f: Frame, size: Size)
      reads this, rgba, images
    {
      var rs := Regions(prev.images, size);
      && Stable(prev, f) && AllShown(rgba[..], rs, prev, size) && regions == Layout(rs)
      && imageCount <= images.Length && (rs != [] ==> images[..imageCount] == KeysOf(prev.images, size, rs))
    }

    /** Group the images, then empty, reuse or redraw every region. */
    method Refresh(q: Request, size: Size, reusable: bool, ghost prev: Frame) returns (ok: bool, grouped: bool)
      requires Valid() && !cacheValid && !BadArguments(q) && size == SizeOf(q) && delivered == q.frame
      requires width == size.width && height == size.height
      requires reusable ==> Reusable(prev, q.frame, size)
      modifies this`regions, this`images, this`imageCount, this`rgba, this`redrawn, rgba, images
      ensures Valid()
      ensures rgba == old(rgba) || fresh(rgba)
      ensures images == old(images) || fresh(images)
      ensures !grouped <==> Refusable(q.frame.images, size)
      ensures !ok <==> !grouped || old(OutOfMemory(q, size))
      ensures ok ==> Current() && FromScratch(rgba[..], regions, q.frame, size)
      ensures ok ==> redrawn == Changed(prev, q.frame, size, reusable)
    {
      var bounds;
      grouped, bounds := GroupImages(q.frame.images, size);
      if !grouped {
        return false, grouped;
      }
      ok := true;
      if bounds == [] {
        regions, imageCount, redrawn := [], 0, {};
        ShownFromScratch(rgba[..], q.frame, size);
        return;
      }
      ok := Recompose(q, size, bounds, reusable, prev);
      if ok {
        ShownFromScratch(rgba[..], q.frame, size);
      }
    }

    /** A frame with regions: rewrite the keys, then place and draw. */
    method Recompose(q: Request, size: Size, bounds: seq<Bounds>, reusable: bool, ghost prev: Frame) returns (ok: bool)
      requires Valid() && !cacheValid && !BadArguments(q) && size == SizeOf(q)
      requires bounds == Regions(q.frame.images, size) && bounds != []
      requires reusable ==> Reusable(prev, q.frame, size)
      modifies this`regions, this`images, this`imageCount, this`rgba, this`redrawn, rgba, images
      ensures Valid()
      ensures rgba == old(rgba) || fresh(rgba)
      ensures images == old(images) || fresh(images)
      ensures !ok <==> old(OutOfMemory(q, size))
      ensures ok ==> AllShown(rgba[..], bounds, q.frame, size) && regions == Layout(bounds)
      ensures ok ==> images[..imageCount] == KeysOf(q.frame.images, size, bounds)
      ensures ok ==> redrawn == Changed(prev, q.frame, size, reusable)
    {
      RegionsSound(q.frame.images, size);
      var retained;
      ok, retained := UpdateKeys(q, size, bounds, reusable, prev);
      if ok {
        ok := Redraw(q, size, bounds, retained, prev);
      }
    }

    /** The frame has regions, and a buffer it needs cannot grow. */
    ghost predicate OutOfMemory(q: Request, size: Size)
      reads this, images, rgba
    {
      Regions(q.frame.images, size) != [] &&
      ((images.Length < |q.frame.images| && !q.keysAlloc) ||
       (rgba.Length < ArenaNeeded(q.frame.images, size) && !q.arenaAlloc))
    }

    /** Grow and rewrite the keys, deciding what may be retained. */
    method UpdateKeys(q: Request, size: Size, bounds: seq<Bounds>, reusable: bool, ghost prev: Frame)
      returns (ok: bool, retained: seq<bool>)
      requires imageCount <= images.Length && bounds == Regions(q.frame.images, size) && AllProper(bounds) &&
               bounds != []
      requires reusable ==> Reusable(prev, q.frame, size)
      modifies this`images, this`imageCount, images
      ensures imageCount <= images.Length
      ensures images == old(images) || fresh(images)
      ensures ok <==> old(images.Length) >= |q.frame.images| || q.keysAlloc
      ensures ok ==> images[..imageCount] == KeysOf(q.frame.images, size, bounds)
      ensures ok ==> RetainedSound(prev, q.frame, size, regions, bounds, retained)
      ensures ok ==> forall k :: 0 <= k < |bounds| ==> (retained[k] <==> reusable && Unchanged(prev, q.frame, size, k))
    {
      var f := q.frame;
      AllVisiblePlaced(f.images, size);
      RegionsSound(prev.images, size);
      var same := reusable && |regions| == |bounds| && imageCount == |f.images|;
      var candidates := Candidates(bounds, same);
      if images.Length < |f.images| {
        if !q.keysAlloc {
          return false, candidates;
        }
        GrowKeys(|f.images|);
      }
      ghost var was := images[..imageCount];
      ok, retained := RetainedRegions(images, f.images, size, bounds, same, candidates);
      imageCount := |f.images|;
      forall k | 0 <= k < |bounds| ensures retained[k] <==> reusable && Unchanged(prev, f, size, k) {
        RetainedMeans(prev, f, size, regions, was, reusable, k, candidates[k], retained[k]);
      }
    }

    /** The regions of unchanged size, when the frames are comparable at all. */
    function Candidates(bounds: seq<Bounds>, same: bool): (candidates: seq<bool>)
      requires AllProper(bounds) && (same ==> |regions| == |bounds|)
      reads this
      ensures |candidates| == |bounds|
      ensures forall k :: 0 <= k < |bounds| ==>
                (candidates[k] <==>
                   same && regions[k].width == Width(bounds[k]) && regions[k].height == Height(bounds[k]))
    {
      seq(|bounds|, k requires 0 <= k < |bounds| reads this =>
        same && k < |regions| && regions[k].width == Width(bounds[k]) && regions[k].height == Height(bounds[k]))
    }

    /** Grow the arena, place the regions, compose and straighten those not retained. */
    method Redraw(q: Request, size: Size, bounds: seq<Bounds>, retained: seq<bool>, ghost prev: Frame)
      returns (ok: bool)
      requires Reciprocals(reciprocal) && !BadArguments(q) && size == SizeOf(q)
      requires Offset(BitmapSizes(regions), |regions|) <= rgba.Length
      requires bounds == Regions(q.frame.images, size) && imageCount <= images.Length &&
               images[..imageCount] == KeysOf(q.frame.images, size, bounds)
      requires RetainedSound(prev, q.frame, size, regions, bounds, retained)
      requires forall k :: 0 <= k < |bounds| && retained[k] ==>
                 Stable(prev, q.frame) && AllShown(rgba[..], Regions(prev.images, size), prev, size)
      modifies this`regions, this`rgba, this`redrawn, rgba
      ensures Offset(BitmapSizes(regions), |regions|) <= rgba.Length
      ensures rgba == old(rgba) || fresh(rgba)
      ensures ok <==> old(rgba.Length) >= ArenaNeeded(q.frame.images, size) || q.arenaAlloc
      ensures if ok then AllShown(rgba[..], bounds, q.frame, size) && regions == Layout(bounds)
              else regions == old(regions)
      ensures ok ==> redrawn == set k | 0 <= k < |bounds| && !retained[k]
    {
      var f := q.frame;
      AllVisiblePlaced(f.images, size);
      RegionsSound(f.images, size);
      RegionsFit(f.images, size);
      LayoutSizes(bounds);
      ok := FitArena(q, bounds, prev, size);
      if !ok {
        return;
      }
      regions := DrawRegions(f, size, bounds, retained, prev);
      redrawn := set k | 0 <= k < |bounds| && !retained[k];
    }

    /** Place the regions in an arena that is large enough, then compose and straighten those not retained. */
    method DrawRegions(f: Frame, size: Size, bounds: seq<Bounds>, retained: seq<bool>, ghost prev: Frame)
      returns (placed: seq<Bitmap>)
      requires Reciprocals(reciprocal) && bounds == Regions(f.images, size) && AllPlaced(f.images, size, bounds)
      requires AllProper(bounds) && Offset(Sizes(bounds), |bounds|) <= rgba.Length
      requires Offset(BitmapSizes(regions), |regions|) <= rgba.Length
      requires imageCount <= images.Length && images[..imageCount] == KeysOf(f.images, size, bounds)
      requires RetainedSound(prev, f, size, regions, bounds, retained)
      requires forall k :: 0 <= k < |bounds| && retained[k] ==>
                 Stable(prev, f) && AllShown(rgba[..], Regions(prev.images, size), prev, size)
      modifies rgba
      ensures AllShown(rgba[..], bounds, f, size) && placed == Layout(bounds)
    {
      ghost var orig := rgba[..];
      RegionsSound(f.images, size);
      RetainedPlaceable(prev, f, size, regions, bounds, retained, rgba.Length);
      placed := PlaceRegions(rgba, regions, bounds, retained);
      PlacedState(rgba[..], orig, prev, f, size, regions, bounds, retained);
      ComposeImages(rgba, placed, bounds, images, f, size, retained);
      StraightenRegions(rgba, placed, bounds, reciprocal, f, size, retained);
    }

    /** realloc of the key buffer: the old keys are kept. */
    method GrowKeys(n: nat)
      requires images.Length < n
      modifies this`images
      ensures fresh(images) && images.Length == n
      ensures images[..old(images.Length)] == old(images[..])
    {
      var next := new ImageKey[n](_ => Unplaced);
      forall i | 0 <= i < images.Length {
        next[i] := images[i];
      }
      images := next;
    }

    /** Room for all regions, if memory can be had. */
    method FitArena(q: Request, bounds: seq<Bounds>, ghost prev: Frame, ghost size: Size) returns (ok: bool)
      requires AllProper(bounds) && TotalArea(bounds) <= MAX_PIXELS
      modifies this`rgba
      ensures ok <==> old(rgba.Length) >= 4 * TotalArea(bounds) || q.arenaAlloc
      ensures rgba == old(rgba) || fresh(rgba)
      ensures rgba.Length >= old(rgba.Length) && (ok ==> Offset(Sizes(bounds), |bounds|) <= rgba.Length)
      ensures AllShown(old(rgba[..]), Regions(prev.images, size), prev, size) ==>
                AllShown(rgba[..], Regions(prev.images, size), prev, size)
    {
      var bytes;
      ok, bytes := TotalBytes(bounds);
      if rgba.Length < bytes {
        if !q.arenaAlloc {
          return false;
        }
        MakeRoom(bytes, prev, size);
      }
    }

    /** A longer arena that shows what the old one showed. */
    method MakeRoom(n: nat, ghost prev: Frame, ghost size: Size)
      requires rgba.Length < n
      modifies this`rgba
      ensures fresh(rgba) && rgba.Length == n
      ensures AllShown(old(rgba[..]), Regions(prev.images, size), prev, size) ==>
                AllShown(rgba[..], Regions(prev.images, size), prev, size)
    {
      ghost var before := rgba[..];
      GrowArena(n);
      ShownGrown(rgba[..], before, prev, size);
    }

    /** realloc of the arena: the old bytes are kept. */
    method GrowArena(n: nat)
      requires rgba.Length < n
      modifies this`rgba
      ensures fresh(rgba) && rgba.Length == n
      ensures rgba[..old(rgba.Length)] == old(rgba[..])
    {
      var next := new Byte[n](_ => 0);
      forall i | 0 <= i < rgba.Length {
        next[i] := rgba[i];
      }
      rgba := next;
    }
  }

  // ----- whole sessions

  datatype Last = NoCall | LastCall(q: Request)

  function Sizes4(q: Request): (int, int, int, int)
  {
    (q.width, q.height, q.storageWidth, q.storageHeight)
  }

  /** The libass assumption between two calls that reach it one after the other. */
  ghost predicate Follows(p: Request, q: Request)
  {
    && Stable(p.frame, q.frame)
    && (!q.changed && Sizes4(p) == Sizes4(q) ==> q.frame.images == p.frame.images)
  }

  /** The libass assumption over a whole session; calls with bad arguments never reach libass. */
  ghost predicate Delivers(last: Last, qs: seq<Request>)
    decreases |qs|
  {
    if qs == [] then true
    else if BadArguments(qs[0]) then Delivers(last, qs[1..])
    else (last.LastCall? ==> Follows(last.q, qs[0])) && Delivers(LastCall(qs[0]), qs[1..])
  }

  /** What the caller has after a call: the status, its frame structure and the bytes behind it. */
  datatype Outcome = Outcome(status: int, bitmaps: seq<Bitmap>, bytes: seq<Byte>)

  ghost predicate InStep(ctx: ButacaAss, last: Last)
    reads ctx
  {
    if ctx.rendered then last.LastCall? && ctx.delivered == last.q.frame && !ctx.Resized(last.q) else last.NoCall?
  }

  /** What can make a call fail: bad arguments, an unusable image list, a failed allocation. */
  ghost predicate MayFail(q: Request)
  {
    BadArguments(q) || Refusable(q.frame.images, SizeOf(q)) || !q.keysAlloc || !q.arenaAlloc
  }

  /**
    A call fails only for a reason, and always for bad arguments; a successful call shows its
    frame; an unchanged one, and one that could not use its arguments or images, leaves the
    previous bitmaps in place.
   */
  ghost predicate Faithful(q: Request, before: Outcome, after: Outcome)
  {
    && (after.status == -1 ==> MayFail(q))
    && (BadArguments(q) ==> after.status == -1)
    && (!BadArguments(q) && Refusable(q.frame.images, SizeOf(q)) ==>
          after.status != 1 && after.bitmaps == before.bitmaps)
    && (after.status != -1 ==> FromScratch(after.bytes, after.bitmaps, q.frame, SizeOf(q)))
    && (BadArguments(q) || after.status == 0 ==> after.bytes == before.bytes && after.bitmaps == before.bitmaps)
  }

  /** One call; `held` is the frame structure the caller keeps from call to call. */
  method Call(ctx: ButacaAss, q: Request, held: seq<Bitmap>, ghost last: Last) returns (out: Outcome, ghost next: Last)
    requires ctx.Valid() && InStep(ctx, last) && (ctx.cacheValid ==> held == ctx.regions)
    requires !BadArguments(q) && last.LastCall? ==> Follows(last.q, q)
    modifies ctx, ctx.rgba, ctx.images
    ensures ctx.rgba == old(ctx.rgba) || fresh(ctx.rgba)
    ensures ctx.images == old(ctx.images) || fresh(ctx.images)
    ensures next == if BadArguments(q) then last else LastCall(q)
    ensures ctx.Valid() && InStep(ctx, next) && (ctx.cacheValid ==> out.bitmaps == ctx.regions)
    ensures out.bytes == ctx.rgba[..]
    ensures Faithful(q, Outcome(0, held, old(ctx.rgba[..])), out)
    ensures out.status == 0 ==> old(ctx.cacheValid)
  {
    var status, frame := ctx.Render(q, held);
    out := Outcome(status, frame, ctx.rgba[..]);
    next := if BadArguments(q) then last else LastCall(q);
  }

  /** The outcome before call i of a session. */
  function Prior(start: Outcome, outs: seq<Outcome>, i: nat): Outcome
    requires i <= |outs|
  {
    if i == 0 then start else outs[i - 1]
  }

  ghost predicate AllFaithful(start: Outcome, qs: seq<Request>, outs: seq<Outcome>)
  {
    && |outs| == |qs|
    && (|qs| > 0 ==> outs[0].status != 0)
    && forall i :: 0 <= i < |qs| ==> Faithful(qs[i], Prior(start, outs, i), outs[i])
  }

  lemma FaithfulExtend(start: Outcome, qs: seq<Request>, outs: seq<Outcome>, q: Request, before: Outcome, out: Outcome)
    requires AllFaithful(start, qs, outs) && Faithful(q, before, out) && (outs == [] ==> out.status != 0)
    requires var prior := Prior(start, outs, |outs|); before.bytes == prior.bytes && before.bitmaps == prior.bitmaps
    ensures AllFaithful(start, qs + [q], outs + [out])
  {
    var all := outs + [out];
    forall i | 0 <= i < |qs| + 1 ensures Faithful((qs + [q])[i], Prior(start, all, i), all[i]) {
      if i < |qs| {
        assert Prior(start, all, i) == Prior(start, outs, i);
      }
    }
  }

  /**
    Any session of calls - resizes, failures, empty frames, moving regions - with one frame
    structure that the caller keeps: after every successful call it shows the from-scratch
    rendering of that call's frame, an unchanged call leaves everything in place, and a call
    fails only for bad arguments, an unusable image list or a failed allocation.
   */
  method RunSession(qs: seq<Request>, held: seq<Bitmap>) returns (outs: seq<Outcome>)
    requires Delivers(NoCall, qs)
    ensures AllFaithful(Outcome(0, held, []), qs, outs)
  {
    var ctx := new ButacaAss();
    ghost var last := NoCall;
    ghost var start := Outcome(0, held, []);
    var frame := held;
    outs := [];
    for i := 0 to |qs|
      invariant fresh(ctx) && fresh(ctx.rgba) && fresh(ctx.images)
      invariant ctx.Valid() && InStep(ctx, last) && Delivers(last, qs[i..])
      invariant ctx.cacheValid ==> frame == ctx.regions
      invariant outs == [] ==> !ctx.cacheValid
      invariant |outs| == i && Prior(start, outs, i).bytes == ctx.rgba[..] && Prior(start, outs, i).bitmaps == frame
      invariant AllFaithful(start, qs[..i], outs)
    {
      assert qs[i..][0] == qs[i] && qs[i..][1..] == qs[i + 1..];
      ghost var before := Outcome(0, frame, ctx.rgba[..]);
      var out;
      out, last := Call(ctx, qs[i], frame, last);
      FaithfulExtend(start, qs[..i], outs, qs[i], before, out);
      assert qs[..i] + [qs[i]] == qs[..i + 1];
      outs, frame := outs + [out], out.bitmaps;
    }
    assert qs[..|qs|] == qs;
  }
}
