/**
  One subtitle frame as libass delivers it, the keys by which src/ass.c compares it with
  the previous frame, and the reference picture: all images layered in list order on one
  transparent canvas.
 */
module AssFrame {
  import opened AssComposite
  import opened AssRegions
  import opened AssArea

  /** An `ASS_Image`; address 0 is the null pointer. */
  datatype Image = Image(w: int, h: int, stride: int, bitmap: int, dstX: int, dstY: int, color: Word)

  /** The image list of one frame, and the coverage bytes in memory while it is current. */
  datatype Frame = Frame(images: seq<Image>, mem: int -> Byte)

  datatype Size = Size(width: nat, height: nat)

  function Canvas(size: Size): Bounds
  {
    Bounds(0, 0, size.width, size.height)
  }

  // ----- clipping

  datatype Clip = Hidden | Invalid | Visible(box: Bounds)

  /** `clipped_bounds` */
  function Clipped(image: Image, size: Size): Clip
  {
    if image.w <= 0 || image.h <= 0 then Hidden
    else if image.bitmap == 0 || image.stride < image.w || image.w > 32768 || image.h > 32768 then Invalid
    else
      var r, b := image.dstX + image.w, image.dstY + image.h;
      var box := Bounds(if image.dstX < 0 then 0 else image.dstX,
                        if image.dstY < 0 then 0 else image.dstY,
                        if r > size.width then size.width else r,
                        if b > size.height then size.height else b);
      if box.right > box.left && box.bottom > box.top then Visible(box) else Hidden
  }

  /** The visible part is exactly what the image and the canvas share. */
  lemma ClippedMeans(image: Image, size: Size, p: (int, int))
    requires !Clipped(image, size).Invalid?
    ensures (Clipped(image, size).Visible? && Holds(Clipped(image, size).box, p)) <==>
            (Holds(Canvas(size), p) &&
             Holds(Bounds(image.dstX, image.dstY, image.dstX + image.w, image.dstY + image.h), p))
  {
  }

  /** One transparent pixel around the visible part, where the canvas has room. */
  function Bordered(box: Bounds, size: Size): Bounds
  {
    Bounds(if box.left > 0 then box.left - 1 else 0,
           if box.top > 0 then box.top - 1 else 0,
           if box.right < size.width then box.right + 1 else size.width,
           if box.bottom < size.height then box.bottom + 1 else size.height)
  }

  /** The boxes handed to `add_bounds`, in list order. */
  function Boxes(images: seq<Image>, size: Size): seq<Bounds>
  {
    if images == [] then []
    else
      var n := |images| - 1;
      match Clipped(images[n], size)
      case Visible(box) => Boxes(images[..n], size) + [Bordered(box, size)]
      case _ => Boxes(images[..n], size)
  }

  function Regions(images: seq<Image>, size: Size): seq<Bounds>
  {
    AddAll(Boxes(images, size))
  }

  // ----- the reference picture

  /** The colour of an image, opaque: libass packs it as red, green, blue, transparency. */
  function Tint(color: Word): Rgba
  {
    Rgba(color / 16777216, color / 65536 % 256, color / 256 % 256, 255)
  }

  function Opacity(color: Word): Byte
  {
    255 - color % 256
  }

  function Coverage(mask: Byte, opacity: Byte): Byte
  {
    MixRange(mask, 0, opacity);
    (mask * opacity + 127) / 255
  }

  /** One image laid over pixel (x, y); a pixel outside its visible part is untouched. */
  function Layer(image: Image, mem: int -> Byte, size: Size, x: int, y: int, d: Rgba): Rgba
  {
    match Clipped(image, size)
    case Visible(box) =>
      if Holds(box, (x, y)) then
        Over(d, Tint(image.color), Coverage(mem(ByteAt(image, x - image.dstX, y - image.dstY)), Opacity(image.color)))
      else d
    case _ => d
  }

  /** Address of the coverage byte in column `col` of row `row`. */
  function ByteAt(image: Image, col: int, row: int): int
  {
    image.bitmap + row * image.stride + col
  }

  /** The premultiplied pixel (x, y) after layering the whole list. */
  function Paint(images: seq<Image>, mem: int -> Byte, size: Size, x: int, y: int): Rgba
  {
    if images == [] then TRANSPARENT
    else
      var n := |images| - 1;
      Layer(images[n], mem, size, x, y, Paint(images[..n], mem, size, x, y))
  }

  /** No colour channel ever exceeds alpha, whatever is layered. */
  lemma {:induction false} PaintPremultiplied(images: seq<Image>, mem: int -> Byte, size: Size, x: int, y: int)
    ensures Premultiplied(Paint(images, mem, size, x, y))
  {
    if images != [] {
      var n := |images| - 1;
      PaintPremultiplied(images[..n], mem, size, x, y);
      var d := Paint(images[..n], mem, size, x, y);
      var c := Clipped(images[n], size);
      if c.Visible? && Holds(c.box, (x, y)) {
        OverPremultiplied(d, Tint(images[n].color),
          Coverage(mem(ByteAt(images[n], x - images[n].dstX, y - images[n].dstY)), Opacity(images[n].color)));
      }
    }
  }

  /** The straight-alpha pixel a from-scratch rendering of the frame shows at (x, y). */
  function Picture(f: Frame, size: Size, x: int, y: int): Rgba
  {
    PaintPremultiplied(f.images, f.mem, size, x, y);
    Straight(Paint(f.images, f.mem, size, x, y))
  }

  // ----- keys

  /** `struct ImageKey`; an image in no region carries no other information. */
  datatype ImageKey =
    | Unplaced
    | Placed(bitmap: int, color: Word, region: nat, x: int, y: int, width: int, height: int, stride: int)

  /** The first region from `i` on that contains the box. */
  function FirstAround(box: Bounds, regions: seq<Bounds>, i: nat): (k: nat)
    requires i <= |regions|
    ensures i <= k <= |regions|
    ensures k < |regions| ==> Inside(box, regions[k])
    ensures forall j :: i <= j < k ==> !Inside(box, regions[j])
    decreases |regions| - i
  {
    if i == |regions| || Inside(box, regions[i]) then i else FirstAround(box, regions, i + 1)
  }

  function KeyIn(image: Image, box: Bounds, k: nat, region: Bounds): ImageKey
  {
    Placed(ByteAt(image, box.left - image.dstX, box.top - image.dstY), image.color, k,
           box.left - region.left, box.top - region.top, box.right - box.left, box.bottom - box.top, image.stride)
  }

  function KeyOf(image: Image, size: Size, regions: seq<Bounds>): ImageKey
  {
    match Clipped(image, size)
    case Visible(box) =>
      var k := FirstAround(box, regions, 0);
      if k < |regions| then KeyIn(image, box, k, regions[k]) else Unplaced
    case _ => Unplaced
  }

  function KeysOf(images: seq<Image>, size: Size, regions: seq<Bounds>): (keys: seq<ImageKey>)
    ensures |keys| == |images|
  {
    seq(|images|, i requires 0 <= i < |images| => KeyOf(images[i], size, regions))
  }

  predicate InRegion(key: ImageKey, k: nat)
  {
    key.Placed? && key.region == k
  }

  ghost predicate KeyHolds(key: ImageKey, k: nat, dx: int, dy: int)
  {
    InRegion(key, k) && key.x <= dx < key.x + key.width && key.y <= dy < key.y + key.height
  }

  ghost function KeyLayer(key: ImageKey, mem: int -> Byte, k: nat, dx: int, dy: int, d: Rgba): Rgba
  {
    if KeyHolds(key, k, dx, dy) then
      Over(d, Tint(key.color), Coverage(mem(key.bitmap + (dy - key.y) * key.stride + (dx - key.x)), Opacity(key.color)))
    else d
  }

  /** What the keys of region `k` alone compose at (dx, dy), relative to the region. */
  ghost function KeyPaint(keys: seq<ImageKey>, mem: int -> Byte, k: nat, dx: int, dy: int): Rgba
  {
    if keys == [] then TRANSPARENT
    else
      var n := |keys| - 1;
      KeyLayer(keys[n], mem, k, dx, dy, KeyPaint(keys[..n], mem, k, dx, dy))
  }

  // ----- every visible image lies in exactly one region

  lemma BorderedAround(image: Image, size: Size)
    requires Clipped(image, size).Visible?
    ensures var box := Clipped(image, size).box;
            Inside(box, Bordered(box, size)) && Proper(Bordered(box, size)) && Inside(Bordered(box, size), Canvas(size))
  {
  }

  lemma {:induction false} BoxListed(images: seq<Image>, size: Size, i: nat)
    requires i < |images| && Clipped(images[i], size).Visible?
    ensures Bordered(Clipped(images[i], size).box, size) in Boxes(images, size)
  {
    var n := |images| - 1;
    var rest := Boxes(images[..n], size);
    if i == n {
      assert Boxes(images, size)[|rest|] == Bordered(Clipped(images[i], size).box, size);
    } else {
      assert images[..n][i] == images[i];
      BoxListed(images[..n], size, i);
      var j :| 0 <= j < |rest| && rest[j] == Bordered(Clipped(images[i], size).box, size);
      assert Boxes(images, size)[j] == rest[j];
    }
  }

  lemma {:induction false} BoxesOnCanvas(images: seq<Image>, size: Size)
    ensures OnCanvas(Boxes(images, size), Canvas(size))
  {
    if images != [] {
      var n := |images| - 1;
      BoxesOnCanvas(images[..n], size);
      if Clipped(images[n], size).Visible? {
        BorderedAround(images[n], size);
      }
    }
  }

  lemma RegionsSound(images: seq<Image>, size: Size)
    ensures Apart(Regions(images, size)) && |Regions(images, size)| <= MAX_REGIONS
    ensures OnCanvas(Regions(images, size), Canvas(size))
  {
    AddAllSound(Boxes(images, size));
    BoxesOnCanvas(images, size);
    AddAllOnCanvas(Boxes(images, size), Canvas(size));
  }

  /** The refusal "no region found" of `retained_regions` has no input. */
  lemma VisiblePlaced(images: seq<Image>, size: Size, i: nat)
    requires i < |images| && Clipped(images[i], size).Visible?
    ensures FirstAround(Clipped(images[i], size).box, Regions(images, size), 0) < |Regions(images, size)|
  {
    var box := Clipped(images[i], size).box;
    var regions := Regions(images, size);
    BoxListed(images, size, i);
    BorderedAround(images[i], size);
    var j :| 0 <= j < |Boxes(images, size)| && Boxes(images, size)[j] == Bordered(box, size);
    AddAllSound(Boxes(images, size));
    assert Covered(Bordered(box, size), regions);
    var k :| 0 <= k < |regions| && Inside(Bordered(box, size), regions[k]);
    assert Inside(box, regions[k]);
  }

  lemma OneRegion(regions: seq<Bounds>, i: nat, j: nat, p: (int, int))
    requires Apart(regions) && i < |regions| && j < |regions|
    requires Holds(regions[i], p) && Holds(regions[j], p)
    ensures i == j
  {
  }

  // ----- composing region by region is composing the whole list

  lemma AddressShift(image: Image, left: int, top: int, x: int, y: int)
    ensures ByteAt(image, left - image.dstX, top - image.dstY) + (y - top) * image.stride + (x - left)
         == ByteAt(image, x - image.dstX, y - image.dstY)
  {
    assert (top - image.dstY) * image.stride + (y - top) * image.stride == (y - image.dstY) * image.stride;
  }

  /** One image acts on a pixel of region `k` exactly as its key does. */
  lemma LayerIsKeyLayer(image: Image, mem: int -> Byte, size: Size, regions: seq<Bounds>, k: nat, x: int, y: int,
                        d: Rgba)
    requires Apart(regions) && k < |regions| && Holds(regions[k], (x, y))
    requires Clipped(image, size).Visible? ==> FirstAround(Clipped(image, size).box, regions, 0) < |regions|
    ensures Layer(image, mem, size, x, y, d)
         == KeyLayer(KeyOf(image, size, regions), mem, k, x - regions[k].left, y - regions[k].top, d)
  {
    var c := Clipped(image, size);
    if c.Visible? {
      var j := FirstAround(c.box, regions, 0);
      if j == k {
        AddressShift(image, c.box.left, c.box.top, x, y);
      } else if Holds(c.box, (x, y)) {
        OneRegion(regions, j, k, (x, y));
      }
    }
  }

  lemma KeysPrefix(images: seq<Image>, size: Size, regions: seq<Bounds>)
    requires images != []
    ensures KeysOf(images, size, regions)[..|images| - 1] == KeysOf(images[..|images| - 1], size, regions)
  {
  }

  ghost predicate AllPlaced(images: seq<Image>, size: Size, regions: seq<Bounds>)
  {
    forall i :: 0 <= i < |images| && Clipped(images[i], size).Visible?
      ==> FirstAround(Clipped(images[i], size).box, regions, 0) < |regions|
  }

  lemma AllVisiblePlaced(images: seq<Image>, size: Size)
    ensures AllPlaced(images, size, Regions(images, size))
  {
    forall i | 0 <= i < |images| && Clipped(images[i], size).Visible?
      ensures FirstAround(Clipped(images[i], size).box, Regions(images, size), 0) < |Regions(images, size)|
    {
      VisiblePlaced(images, size, i);
    }
  }

  /**
    Inside a region only its own images contribute: composing the region alone, from its
    keys, gives the pixel that composing the whole list gives.
   */
  lemma {:induction false} RegionAlone(images: seq<Image>, mem: int -> Byte, size: Size, regions: seq<Bounds>, k: nat,
                                       x: int, y: int)
    requires Apart(regions) && k < |regions| && Holds(regions[k], (x, y))
    requires AllPlaced(images, size, regions)
    ensures Paint(images, mem, size, x, y)
         == KeyPaint(KeysOf(images, size, regions), mem, k, x - regions[k].left, y - regions[k].top)
  {
    if images != [] {
      var n := |images| - 1;
      assert forall i :: 0 <= i < n ==> images[..n][i] == images[i];
      RegionAlone(images[..n], mem, size, regions, k, x, y);
      KeysPrefix(images, size, regions);
      LayerIsKeyLayer(images[n], mem, size, regions, k, x, y, Paint(images[..n], mem, size, x, y));
    }
  }

  lemma {:induction false} UntouchedPixel(images: seq<Image>, mem: int -> Byte, size: Size, regions: seq<Bounds>,
                                          x: int, y: int)
    requires AllPlaced(images, size, regions)
    requires forall k :: 0 <= k < |regions| ==> !Holds(regions[k], (x, y))
    ensures Paint(images, mem, size, x, y) == TRANSPARENT
  {
    if images != [] {
      var n := |images| - 1;
      assert forall i :: 0 <= i < n ==> images[..n][i] == images[i];
      UntouchedPixel(images[..n], mem, size, regions, x, y);
    }
  }

  /** Outside all regions the whole frame leaves the canvas transparent. */
  lemma OutsideTransparent(f: Frame, size: Size, x: int, y: int)
    requires forall k :: 0 <= k < |Regions(f.images, size)| ==> !Holds(Regions(f.images, size)[k], (x, y))
    ensures Picture(f, size, x, y) == TRANSPARENT
  {
    AllVisiblePlaced(f.images, size);
    UntouchedPixel(f.images, f.mem, size, Regions(f.images, size), x, y);
  }

  // ----- reuse between consecutive frames

  ghost predicate InBuffer(image: Image, a: int)
  {
    exists row, col :: 0 <= row < image.h && 0 <= col < image.w && a == ByteAt(image, col, row)
  }

  ghost predicate InBuffers(images: seq<Image>, a: int)
  {
    exists i :: 0 <= i < |images| && InBuffer(images[i], a)
  }

  /**
    The assumption on libass (src/ass.c:240-245): the buffers of consecutive frames are
    alive together and immutable, so an address that belongs to buffers of both frames
    holds the same coverage byte.
   */
  ghost predicate Stable(prev: Frame, next: Frame)
  {
    forall a :: InBuffers(prev.images, a) && InBuffers(next.images, a) ==> prev.mem(a) == next.mem(a)
  }

  /** The two key lists agree on region `k`. */
  ghost predicate SameRegion(was: seq<ImageKey>, now: seq<ImageKey>, k: nat)
  {
    |was| == |now| &&
    forall i :: 0 <= i < |was| ==> was[i] == now[i] || (!InRegion(was[i], k) && !InRegion(now[i], k))
  }

  /** The byte a key reads is a byte of its image's buffer. */
  lemma KeyReadsBuffer(image: Image, size: Size, regions: seq<Bounds>, k: nat, dx: int, dy: int)
    requires KeyHolds(KeyOf(image, size, regions), k, dx, dy)
    ensures var key := KeyOf(image, size, regions);
            InBuffer(image, key.bitmap + (dy - key.y) * key.stride + (dx - key.x))
  {
    var box := Clipped(image, size).box;
    var j := FirstAround(box, regions, 0);
    var x, y := dx + regions[j].left, dy + regions[j].top;
    AddressShift(image, box.left, box.top, x, y);
    assert 0 <= y - image.dstY < image.h && 0 <= x - image.dstX < image.w;
  }

  ghost function KeyAddress(key: ImageKey, dx: int, dy: int): int
    requires key.Placed?
  {
    key.bitmap + (dy - key.y) * key.stride + (dx - key.x)
  }

  lemma {:induction false} KeyPaintSame(was: seq<ImageKey>, now: seq<ImageKey>, wasMem: int -> Byte,
                                        nowMem: int -> Byte,
                                        k: nat, dx: int, dy: int)
    requires SameRegion(was, now, k)
    requires forall i :: 0 <= i < |was| && KeyHolds(was[i], k, dx, dy)
               ==> wasMem(KeyAddress(was[i], dx, dy)) == nowMem(KeyAddress(was[i], dx, dy))
    ensures KeyPaint(was, wasMem, k, dx, dy) == KeyPaint(now, nowMem, k, dx, dy)
  {
    if was != [] {
      var n := |was| - 1;
      assert forall i :: 0 <= i < n ==> was[..n][i] == was[i] && now[..n][i] == now[i];
      KeyPaintSame(was[..n], now[..n], wasMem, nowMem, k, dx, dy);
    }
  }

  lemma KeyBytesStable(prev: Frame, prevSize: Size, prevRegions: seq<Bounds>, next: Frame, size: Size,
                       regions: seq<Bounds>, k: nat, dx: int, dy: int, i: nat)
    requires Stable(prev, next)
    requires i < |prev.images| == |next.images|
    requires KeyHolds(KeyOf(prev.images[i], prevSize, prevRegions), k, dx, dy)
    requires KeyOf(prev.images[i], prevSize, prevRegions) == KeyOf(next.images[i], size, regions)
    ensures var a := KeyAddress(KeyOf(prev.images[i], prevSize, prevRegions), dx, dy); prev.mem(a) == next.mem(a)
  {
    var a := KeyAddress(KeyOf(prev.images[i], prevSize, prevRegions), dx, dy);
    KeyReadsBuffer(prev.images[i], prevSize, prevRegions, k, dx, dy);
    KeyReadsBuffer(next.images[i], size, regions, k, dx, dy);
    assert InBuffers(prev.images, a) && InBuffers(next.images, a);
  }

  lemma KeyPaintReused(prev: Frame, prevSize: Size, prevRegions: seq<Bounds>, next: Frame, size: Size,
                       regions: seq<Bounds>, k: nat, dx: int, dy: int)
    requires Stable(prev, next)
    requires SameRegion(KeysOf(prev.images, prevSize, prevRegions), KeysOf(next.images, size, regions), k)
    ensures KeyPaint(KeysOf(prev.images, prevSize, prevRegions), prev.mem, k, dx, dy)
         == KeyPaint(KeysOf(next.images, size, regions), next.mem, k, dx, dy)
  {
    var was, now := KeysOf(prev.images, prevSize, prevRegions), KeysOf(next.images, size, regions);
    forall i | 0 <= i < |was| && KeyHolds(was[i], k, dx, dy)
      ensures prev.mem(KeyAddress(was[i], dx, dy)) == next.mem(KeyAddress(was[i], dx, dy))
    {
      assert was[i] == now[i];
      KeyBytesStable(prev, prevSize, prevRegions, next, size, regions, k, dx, dy, i);
    }
    KeyPaintSame(was, now, prev.mem, next.mem, k, dx, dy);
  }

  /** A pixel of region `k` as its keys compose it. */
  lemma PictureFromKeys(f: Frame, size: Size, k: nat, dx: int, dy: int)
    requires k < |Regions(f.images, size)|
    requires var r := Regions(f.images, size)[k]; Holds(r, (r.left + dx, r.top + dy))
    ensures var rs := Regions(f.images, size);
            Paint(f.images, f.mem, size, rs[k].left + dx, rs[k].top + dy) ==
                KeyPaint(KeysOf(f.images, size, rs), f.mem, k, dx, dy)
  {
    var rs := Regions(f.images, size);
    RegionsSound(f.images, size);
    AllVisiblePlaced(f.images, size);
    RegionAlone(f.images, f.mem, size, rs, k, rs[k].left + dx, rs[k].top + dy);
  }

  /** A region whose keys are unchanged shows the same picture, wherever it has moved to. */
  lemma RegionReused(prev: Frame, prevSize: Size, next: Frame, size: Size, k: nat, dx: int, dy: int)
    requires Stable(prev, next)
    requires k < |Regions(prev.images, prevSize)| && k < |Regions(next.images, size)|
    requires SameRegion(KeysOf(prev.images, prevSize, Regions(prev.images, prevSize)),
                        KeysOf(next.images, size, Regions(next.images, size)), k)
    requires var was := Regions(prev.images, prevSize)[k]; Holds(was, (was.left + dx, was.top + dy))
    requires var now := Regions(next.images, size)[k]; Holds(now, (now.left + dx, now.top + dy))
    ensures var was, now := Regions(prev.images, prevSize)[k], Regions(next.images, size)[k];
            Picture(prev, prevSize, was.left + dx, was.top + dy) == Picture(next, size, now.left + dx, now.top + dy)
  {
    PictureFromKeys(prev, prevSize, k, dx, dy);
    PictureFromKeys(next, size, k, dx, dy);
    KeyPaintReused(prev, prevSize, Regions(prev.images, prevSize), next, size, Regions(next.images, size), k, dx, dy);
  }
}
