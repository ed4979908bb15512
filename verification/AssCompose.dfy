/**
  The drawing loops of `butaca_ass_render`: each image is blended, row by row, into its
  region of the arena, and a finished region is converted to straight alpha in place.
 */
module AssCompose {
  import opened AssComposite
  import opened AssRegions
  import opened AssArea
  import opened AssFrame
  import opened AssArena

  // ----- pixels in the arena

  function PixelAt(arena: seq<Byte>, i: nat): Rgba
    requires i + 4 <= |arena|
  {
    Rgba(arena[i], arena[i + 1], arena[i + 2], arena[i + 3])
  }

  /** Pixel `p` of the region stored from `at` on. */
  function RegionPixel(arena: seq<Byte>, at: nat, p: nat): Rgba
    requires at + 4 * p + 4 <= |arena|
  {
    PixelAt(arena, at + 4 * p)
  }

  /** Pixel `p` of a region is in column p % width of row p / width. */
  function Col(b: Bounds, p: nat): int
    requires Proper(b)
  {
    b.left + p % Width(b)
  }

  function Row(b: Bounds, p: nat): int
    requires Proper(b)
  {
    b.top + p / Width(b)
  }

  function IndexOf(b: Bounds, x: int, y: int): int
    requires Proper(b)
  {
    (y - b.top) * Width(b) + (x - b.left)
  }

  lemma ColRow(b: Bounds, x: int, y: int)
    requires Proper(b) && Holds(b, (x, y))
    ensures 0 <= IndexOf(b, x, y) < Area(b)
    ensures Col(b, IndexOf(b, x, y)) == x && Row(b, IndexOf(b, x, y)) == y
  {
    var w, q, r := Width(b), y - b.top, x - b.left;
    Euclid(q, r, w);
    MulLe(q + 1, Height(b), w);
    MulLe(0, q, w);
    assert (q + 1) * w == q * w + w;
  }

  lemma Euclid(q: int, r: int, w: int)
    requires 0 <= r < w
    ensures (q * w + r) / w == q && (q * w + r) % w == r
  {
    var n := q * w + r;
    assert n == (n / w) * w + n % w;
    if n / w > q {
      MulLe(q + 1, n / w, w);
    } else if n / w < q {
      MulLe(n / w + 1, q, w);
    }
  }

  lemma PixelHeld(b: Bounds, p: nat)
    requires Proper(b) && p < Area(b)
    ensures Holds(b, (Col(b, p), Row(b, p))) && IndexOf(b, Col(b, p), Row(b, p)) == p
  {
    var w := Width(b);
    assert p == (p / w) * w + p % w;
    if p / w >= Height(b) {
      MulLe(Height(b), p / w, w);
    }
  }

  /** Region `b`, stored from `at` on, shows the from-scratch picture of the frame. */
  ghost predicate Shows(arena: seq<Byte>, at: nat, b: Bounds, f: Frame, size: Size)
  {
    Proper(b) && at + 4 * Area(b) <= |arena| &&
    forall p :: 0 <= p < Area(b) ==> RegionPixel(arena, at, p) == Picture(f, size, Col(b, p), Row(b, p))
  }

  /** Region `b` holds, premultiplied, the images drawn so far. */
  ghost predicate Painted(arena: seq<Byte>, at: nat, b: Bounds, images: seq<Image>, mem: int -> Byte, size: Size)
  {
    Proper(b) && at + 4 * Area(b) <= |arena| &&
    forall p :: 0 <= p < Area(b) ==> RegionPixel(arena, at, p) == Paint(images, mem, size, Col(b, p), Row(b, p))
  }

  method StoreRgba(arena: array<Byte>, i: nat, word: Word)
    requires i + 4 <= arena.Length
    modifies arena
    ensures PixelAt(arena[..], i) == Unpack(word)
    ensures arena[i] == word % 256 && arena[i + 1] == word / 256 % 256
    ensures arena[i + 2] == word / 65536 % 256 && arena[i + 3] == word / 16777216
    ensures SameOutside(arena[..], old(arena[..]), i, 4)
  {
    arena[i] := word % 256;
    arena[i + 1] := word / 256 % 256;
    arena[i + 2] := word / 65536 % 256;
    arena[i + 3] := word / 16777216;
  }

  method LoadRgba(arena: array<Byte>, i: nat) returns (word: Word)
    requires i + 4 <= arena.Length
    ensures word == Pack(PixelAt(arena[..], i))
    ensures word % 256 == arena[i] && word / 256 % 256 == arena[i + 1]
    ensures word / 65536 % 256 == arena[i + 2] && word / 16777216 == arena[i + 3]
  {
    FromBytesParts(arena[i], arena[i + 1], arena[i + 2], arena[i + 3]);
    word := FromBytes(arena[i], arena[i + 1], arena[i + 2], arena[i + 3]);
  }

  // ----- the colour word

  /** The shifts and masks that turn libass' colour into an opaque pixel word. */
  function ColorWord(color: Word): nat
  {
    BitOr(BitOr(BitOr(color / 16777216, BitAnd(color / 256, 0xff00)), BitAnd(Wrap(color * 256), 0xff0000)), 0xff000000)
  }

  lemma ColorWordExact(color: Word)
    ensures ColorWord(color) == Pack(Tint(color))
    ensures BitAnd(color, 255) == color % 256
  {
    var t := Tint(color);
    ColorParts(color, t.r, t.g, t.b);
    JoinBytes(t.r, t.g, t.b);
  }

  /** The four masked and shifted parts of a colour. */
  lemma ColorParts(color: Word, r: Byte, g: Byte, b: Byte)
    requires r == color / 16777216 && g == color / 65536 % 256 && b == color / 256 % 256
    ensures BitAnd(color, 255) == color % 256
    ensures BitAnd(color / 256, 0xff00) == 256 * g && BitAnd(Wrap(color * 256), 0xff0000) == 65536 * b
  {
    var a := color % 256;
    ColorBytes(color, r, g, b);
    KeepByte(a, b + 256 * (g + 256 * r));
    ShiftedGreen(b, g, r);
    ShiftedBlue(a, b, g, r);
  }

  lemma ColorBytes(color: Word, r: Byte, g: Byte, b: Byte)
    requires r == color / 16777216 && g == color / 65536 % 256 && b == color / 256 % 256
    ensures color == FromBytes(color % 256, b, g, r) && color / 256 == b + 256 * (g + 256 * r)
  {
    PackUnpack(color);
    FromBytesParts(color % 256, b, g, r);
  }

  lemma JoinBytes(r: Byte, g: Byte, b: Byte)
    ensures BitOr(BitOr(BitOr(r, 256 * g), 65536 * b), 0xff000000) == FromBytes(r, g, b, 255)
  {
    JoinByte2(r, g);
    JoinByte3(r, g, b);
    JoinByte4(r, g, b);
  }

  lemma ShiftedGreen(b: Byte, g: Byte, r: Byte)
    ensures BitAnd(b + 256 * (g + 256 * r), 0xff00) == 256 * g
  {
    SplitByte(true, b, g + 256 * r, 0, 255);
    AndZero(b);
    KeepByte(g, r);
  }

  lemma ShiftedBlue(a: Byte, b: Byte, g: Byte, r: Byte)
    ensures BitAnd(Wrap(FromBytes(a, b, g, r) * 256), 0xff0000) == 65536 * b
  {
    DropTopByte(a, b, g, r);
    SplitByte(true, 0, a + 256 * (b + 256 * g), 0, 0xff00);
    AndZero(0);
    ShiftedGreen(a, b, g);
  }

  lemma DropTopByte(a: Byte, b: Byte, g: Byte, r: Byte)
    ensures Wrap(FromBytes(a, b, g, r) * 256) == 256 * (a + 256 * (b + 256 * g))
  {
    var w := 256 * (a + 256 * (b + 256 * g));
    assert FromBytes(a, b, g, r) * 256 == w + 0x1_0000_0000 * r;
  }

  lemma JoinByte2(r: Byte, g: Byte)
    ensures BitOr(r, 256 * g) == r + 256 * g
  {
    SplitByte(false, r, 0, 0, g);
    OrZero(r);
    OrZero(g);
  }

  lemma JoinByte3(r: Byte, g: Byte, b: Byte)
    ensures BitOr(r + 256 * g, 65536 * b) == r + 256 * (g + 256 * b)
  {
    SplitByte(false, r, g, 0, 256 * b);
    SplitByte(false, g, 0, 0, b);
    OrZero(r);
    OrZero(g);
    OrZero(b);
  }

  lemma JoinByte4(r: Byte, g: Byte, b: Byte)
    ensures BitOr(r + 256 * (g + 256 * b), 0xff000000) == FromBytes(r, g, b, 255)
  {
    SplitByte(false, r, g + 256 * b, 0, 0xff0000);
    SplitByte(false, g, b, 0, 0xff00);
    SplitByte(false, b, 0, 0, 255);
    OrZero(r);
    OrZero(g);
    OrZero(b);
    OrZero(255);
  }

  /** The 256-entry table of mask values scaled by the opacity of the image. */
  method CoverageTable(opacity: Byte) returns (coverage: array<Byte>)
    ensures fresh(coverage) && coverage.Length == 256
    ensures forall i :: 0 <= i < 256 ==> coverage[i] == Coverage(i, opacity)
  {
    coverage := new Byte[256];
    for i := 0 to 256
      invariant forall j :: 0 <= j < i ==> coverage[j] == Coverage(j, opacity)
    {
      MixRange(i, 0, opacity);
      coverage[i] := (i * opacity + 127) / 255;
    }
  }

  // ----- one image

  /** Pixels before `cur` carry the layer, the others are as they were. */
  ghost predicate Drawn(arena: seq<Byte>, orig: seq<Byte>, at: nat, b: Bounds, image: Image, mem: int -> Byte,
                        size: Size, cur: int)
  {
    && Proper(b) && |arena| == |orig| && at + 4 * Area(b) <= |arena|
    && SameOutside(arena, orig, at, 4 * Area(b))
    && forall p :: 0 <= p < Area(b) ==>
         RegionPixel(arena, at, p) ==
           if p < cur then Layer(image, mem, size, Col(b, p), Row(b, p), RegionPixel(orig, at, p))
           else RegionPixel(orig, at, p)
  }

  /** Pixels between `from` and `to` outside the image need no work. */
  lemma DrawnSkip(arena: seq<Byte>, orig: seq<Byte>, at: nat, b: Bounds, image: Image, mem: int -> Byte, size: Size,
                  from: int, to: int)
    requires Drawn(arena, orig, at, b, image, mem, size, from) && from <= to
    requires Clipped(image, size).Visible?
    requires forall p :: 0 <= p < Area(b) && from <= p < to ==> !Holds(Clipped(image, size).box, (Col(b, p), Row(b, p)))
    ensures Drawn(arena, orig, at, b, image, mem, size, to)
  {
  }

  /** Between the end of one row of the box and the start of the next there is no pixel of it. */
  lemma RowGap(b: Bounds, box: Bounds, y: int, p: nat)
    requires Proper(b) && Inside(box, b) && p < Area(b)
    requires IndexOf(b, box.right, y) <= p < IndexOf(b, box.left, y + 1)
    ensures !Holds(box, (Col(b, p), Row(b, p)))
  {
    PixelHeld(b, p);
    var w, x', y' := Width(b), Col(b, p), Row(b, p);
    assert (y' + 1 - b.top) * w == (y' - b.top) * w + w;
    assert (y + 2 - b.top) * w == (y + 1 - b.top) * w + w;
    if y' < y {
      MulLe(y' + 1 - b.top, y - b.top, w);
    } else if y' > y + 1 {
      MulLe(y + 2 - b.top, y' - b.top, w);
    }
  }

  lemma BeforeBox(b: Bounds, box: Bounds, p: nat)
    requires Proper(b) && Inside(box, b) && p < Area(b) && p < IndexOf(b, box.left, box.top)
    ensures !Holds(box, (Col(b, p), Row(b, p)))
  {
    PixelHeld(b, p);
    var w, y' := Width(b), Row(b, p);
    assert (box.top + 1 - b.top) * w == (box.top - b.top) * w + w;
    if y' > box.top {
      MulLe(box.top + 1 - b.top, y' - b.top, w);
    }
  }

  lemma AfterBox(b: Bounds, box: Bounds, p: nat)
    requires Proper(b) && Inside(box, b) && p < Area(b) && IndexOf(b, box.left, box.bottom) <= p
    ensures !Holds(box, (Col(b, p), Row(b, p)))
  {
    PixelHeld(b, p);
    var w, y' := Width(b), Row(b, p);
    assert (y' + 1 - b.top) * w == (y' - b.top) * w + w;
    if y' < box.bottom {
      MulLe(y' + 1 - b.top, box.bottom - b.top, w);
    }
  }

  /** Storing the blended pixel at the cursor advances the drawing by one pixel. */
  lemma DrawnStep(arena: seq<Byte>, before: seq<Byte>, orig: seq<Byte>, at: nat, b: Bounds, image: Image,
                  mem: int -> Byte, size: Size, p: nat)
    requires Drawn(before, orig, at, b, image, mem, size, p) && p < Area(b)
    requires SameOutside(arena, before, at + 4 * p, 4)
    requires RegionPixel(arena, at, p) == Layer(image, mem, size, Col(b, p), Row(b, p), RegionPixel(before, at, p))
    ensures Drawn(arena, orig, at, b, image, mem, size, p + 1)
  {
  }

  /** The pixel loop body: skip, overwrite or blend. */
  method DrawPixel(arena: array<Byte>, i: nat, color: Word, a: Byte, ghost tint: Rgba)
    requires i + 4 <= arena.Length && color == Pack(tint)
    modifies arena
    ensures PixelAt(arena[..], i) == Over(old(PixelAt(arena[..], i)), tint, a)
    ensures SameOutside(arena[..], old(arena[..]), i, 4)
  {
    ghost var d := PixelAt(arena[..], i);
    if a == 0 {
    } else if a == 255 {
      UnpackPack(tint);
      StoreRgba(arena, i, color);
    } else {
      var word := LoadRgba(arena, i);
      BlendPixelExact(d, tint, a);
      UnpackPack(Over(d, tint, a));
      StoreRgba(arena, i, BlendPixel(word, color, a));
    }
  }

  /** Draw one visible image into the region that contains it. */
  method DrawImage(arena: array<Byte>, at: nat, b: Bounds, image: Image, mem: int -> Byte, size: Size, box: Bounds)
    requires Proper(b) && at + 4 * Area(b) <= arena.Length
    requires Clipped(image, size) == Visible(box) && Inside(box, b)
    modifies arena
    ensures Drawn(arena[..], old(arena[..]), at, b, image, mem, size, Area(b))
  {
    ghost var orig := arena[..];
    ColorWordExact(image.color);
    var color := ColorWord(image.color);
    var coverage := CoverageTable(255 - BitAnd(image.color, 255));
    DrawnNothing(arena[..], at, b, image, mem, size, box);
    for y := box.top to box.bottom
      invariant forall i :: 0 <= i < 256 ==> coverage[i] == Coverage(i, Opacity(image.color))
      invariant Drawn(arena[..], orig, at, b, image, mem, size, IndexOf(b, box.left, y))
    {
      DrawRow(arena, at, b, image, mem, size, box, y, color, coverage, orig);
    }
    DrawnAll(arena[..], orig, at, b, image, mem, size, box);
  }

  lemma DrawnNothing(orig: seq<Byte>, at: nat, b: Bounds, image: Image, mem: int -> Byte, size: Size, box: Bounds)
    requires Proper(b) && at + 4 * Area(b) <= |orig|
    requires Clipped(image, size) == Visible(box) && Inside(box, b)
    ensures Drawn(orig, orig, at, b, image, mem, size, IndexOf(b, box.left, box.top))
  {
    forall p | 0 <= p < Area(b) && p < IndexOf(b, box.left, box.top) ensures !Holds(box, (Col(b, p), Row(b, p))) {
      BeforeBox(b, box, p);
    }
  }

  lemma DrawnAll(arena: seq<Byte>, orig: seq<Byte>, at: nat, b: Bounds, image: Image, mem: int -> Byte, size: Size,
                 box: Bounds)
    requires Clipped(image, size) == Visible(box) && Proper(b) && Inside(box, b)
    requires Drawn(arena, orig, at, b, image, mem, size, IndexOf(b, box.left, box.bottom))
    ensures Drawn(arena, orig, at, b, image, mem, size, Area(b))
  {
    forall p | 0 <= p < Area(b) && IndexOf(b, box.left, box.bottom) <= p ensures !Holds(box, (Col(b, p), Row(b, p))) {
      AfterBox(b, box, p);
    }
  }

  method DrawRow(arena: array<Byte>, at: nat, b: Bounds, image: Image, mem: int -> Byte, size: Size, box: Bounds,
                 y: int, color: Word, coverage: array<Byte>, ghost orig: seq<Byte>)
    requires arena != coverage && coverage.Length == 256
    requires Clipped(image, size) == Visible(box) && Proper(b) && Inside(box, b) && box.top <= y < box.bottom
    requires color == Pack(Tint(image.color))
    requires forall i :: 0 <= i < 256 ==> coverage[i] == Coverage(i, Opacity(image.color))
    requires Drawn(arena[..], orig, at, b, image, mem, size, IndexOf(b, box.left, y))
    modifies arena
    ensures Drawn(arena[..], orig, at, b, image, mem, size, IndexOf(b, box.left, y + 1))
  {
    for x := box.left to box.right
      invariant Drawn(arena[..], orig, at, b, image, mem, size, IndexOf(b, x, y))
    {
      var p := IndexOf(b, x, y);
      ColRow(b, x, y);
      ghost var before := arena[..];
      DrawPixel(arena, at + 4 * p, color, coverage[mem(ByteAt(image, x - image.dstX, y - image.dstY))],
          Tint(image.color));
      DrawnStep(arena[..], before, orig, at, b, image, mem, size, p);
    }
    forall p | 0 <= p < Area(b) && IndexOf(b, box.right, y) <= p < IndexOf(b, box.left, y + 1)
      ensures !Holds(box, (Col(b, p), Row(b, p)))
    {
      RowGap(b, box, y, p);
    }
    NextRow(b, box, y);
    DrawnSkip(arena[..], orig, at, b, image, mem, size, IndexOf(b, box.right, y), IndexOf(b, box.left, y + 1));
  }

  lemma NextRow(b: Bounds, box: Bounds, y: int)
    requires Proper(b) && Inside(box, b)
    ensures IndexOf(b, box.right, y) <= IndexOf(b, box.left, y + 1)
  {
    var w := Width(b);
    assert (y + 1 - b.top) * w == (y - b.top) * w + w;
  }
}
