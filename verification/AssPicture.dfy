/**
  What the reference picture of src/ass.c means, in numbers: one image by its fields, and how
  images in the list stand over one another.
 */
module AssPicture {
  import opened AssComposite
  import opened AssRegions
  import opened AssArea
  import opened AssFrame

  /** The pixel lies in the image and on the canvas. */
  predicate Seen(image: Image, size: Size, x: int, y: int)
  {
    && 0 <= x < size.width && 0 <= y < size.height
    && image.dstX <= x < image.dstX + image.w && image.dstY <= y < image.dstY + image.h
    && image.bitmap != 0 && image.w <= image.stride && image.w <= 32768 && image.h <= 32768
  }

  lemma SeenMeans(image: Image, size: Size, x: int, y: int)
    ensures Seen(image, size, x, y) <==> Clipped(image, size).Visible? && Holds(Clipped(image, size).box, (x, y))
  {
  }

  /** The coverage byte of the pixel times the opacity, rounded. */
  function Strength(image: Image, mem: int -> Byte, x: int, y: int): int
  {
    (mem(image.bitmap + (y - image.dstY) * image.stride + (x - image.dstX)) * (255 - image.color % 256) + 127) / 255
  }

  /** One channel after laying `over` at the strength a over it. */
  function Laid(over: int, under: int, a: int): int
  {
    (over * a + under * (255 - a) + 127) / 255
  }

  /**
    An image changes the pixels it is seen at, and no others: each channel is mixed with the
    image's, by strength; the colour's bytes are red, green, blue and transparency.
   */
  lemma LayerMeans(image: Image, mem: int -> Byte, size: Size, x: int, y: int, d: Rgba)
    ensures var p := Layer(image, mem, size, x, y, d);
            if Seen(image, size, x, y) then
              var a := Strength(image, mem, x, y);
              && p.r == Laid(image.color / 16777216, d.r, a) && p.g == Laid(image.color / 65536 % 256, d.g, a)
              && p.b == Laid(image.color / 256 % 256, d.b, a) && p.a == Laid(255, d.a, a)
            else p == d
  {
    SeenMeans(image, size, x, y);
  }

  /** Images stand over one another in list order, the last one on top, on a transparent canvas. */
  lemma PaintMeans(images: seq<Image>, mem: int -> Byte, size: Size, x: int, y: int)
    ensures Paint([], mem, size, x, y) == Rgba(0, 0, 0, 0)
    ensures forall image :: Paint(images + [image], mem, size, x, y) ==
              Layer(image, mem, size, x, y, Paint(images, mem, size, x, y))
  {
    forall image ensures Paint(images + [image], mem, size, x, y) ==
                         Layer(image, mem, size, x, y, Paint(images, mem, size, x, y)) {
      assert (images + [image])[..|images|] == images;
    }
  }

  /** An opaque image hides whatever is under it. */
  lemma TopmostHides(images: seq<Image>, image: Image, mem: int -> Byte, size: Size, x: int, y: int)
    requires Seen(image, size, x, y) && Strength(image, mem, x, y) == 255
    ensures Picture(Frame(images + [image], mem), size, x, y) ==
            Rgba(image.color / 16777216, image.color / 65536 % 256, image.color / 256 % 256, 255)
  {
    var under := Paint(images, mem, size, x, y);
    PaintMeans(images, mem, size, x, y);
    LayerFull(image, mem, size, x, y, under);
    StraightOpaque(Paint(images + [image], mem, size, x, y));
  }

  lemma LaidFull(over: Byte, under: int)
    ensures Laid(over, under, 255) == over
  {
  }

  lemma LayerFull(image: Image, mem: int -> Byte, size: Size, x: int, y: int, d: Rgba)
    requires Seen(image, size, x, y) && Strength(image, mem, x, y) == 255
    ensures Layer(image, mem, size, x, y, d) ==
            Rgba(image.color / 16777216, image.color / 65536 % 256, image.color / 256 % 256, 255)
  {
    LayerMeans(image, mem, size, x, y, d);
    LaidFull(image.color / 16777216, d.r);
    LaidFull(image.color / 65536 % 256, d.g);
    LaidFull(image.color / 256 % 256, d.b);
    LaidFull(255, d.a);
  }

  /** The picture is straight: each channel of the layered pixel divided by its alpha, with rounding. */
  lemma PictureMeans(f: Frame, size: Size, x: int, y: int)
    ensures var p, q := Paint(f.images, f.mem, size, x, y), Picture(f, size, x, y);
            && q.a == p.a && (p.a == 0 ==> q == p)
            && (p.a > 0 ==> q.r == (255 * p.r + p.a / 2) / p.a && q.g == (255 * p.g + p.a / 2) / p.a &&
                            q.b == (255 * p.b + p.a / 2) / p.a)
  {
    PaintPremultiplied(f.images, f.mem, size, x, y);
  }
}
