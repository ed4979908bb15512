/**
  Deciding which regions of the previous frame may be reused (src/ass.c,
  `retained_regions`), the size check before placing them, and the final conversion of a
  finished region to straight alpha.
 */
module AssReuse {
  import opened AssComposite
  import opened AssRegions
  import opened AssArea
  import opened AssFrame
  import opened AssArena
  import opened AssCompose

  const MAX_PIXELS := 3840 * 2160

  // ----- retained_regions

  /** Neither key of the pair asks for region `k` to be redrawn. */
  ghost predicate Undisturbed(was: ImageKey, now: ImageKey, k: nat)
  {
    was == now || (!InRegion(was, k) && !InRegion(now, k))
  }

  /** The search loop for the region of one visible box. */
  method FindRegion(box: Bounds, regions: seq<Bounds>) returns (k: nat)
    ensures k == FirstAround(box, regions, 0)
  {
    k := 0;
    while k < |regions|
      invariant k <= |regions| && FirstAround(box, regions, 0) == FirstAround(box, regions, k)
    {
      if box.left < regions[k].left || box.top < regions[k].top || box.right > regions[k].right ||
          box.bottom > regions[k].bottom {
        k := k + 1;
      } else {
        return;
      }
    }
  }

  /** A changed key takes its old and its new region out of the retained ones. */
  function Disturb(retained: seq<bool>, was: ImageKey, now: ImageKey): (out: seq<bool>)
    ensures |out| == |retained|
    ensures was != now ==> forall k :: 0 <= k < |out| ==> (out[k] <==> retained[k] && Undisturbed(was, now, k))
  {
    var r := if was.Placed? && was.region < |retained| then retained[was.region := false] else retained;
    if now.Placed? && now.region < |r| then r[now.region := false] else r
  }

  /**
    Recompute every key in place and keep a region only if no image entered, left or
    changed in it. `ok` is the loop's own refusal: a visible image in no region.
   */
  method RetainedRegions(keys: array<ImageKey>, images: seq<Image>, size: Size, regions: seq<Bounds>, reusable: bool,
                         candidates: seq<bool>)
    returns (ok: bool, retained: seq<bool>)
    requires |images| <= keys.Length && |candidates| == |regions|
    modifies keys
    ensures ok <==> AllPlaced(images, size, regions)
    ensures ok ==> keys[..|images|] == KeysOf(images, size, regions)
    ensures |retained| == |regions|
    ensures ok && !reusable ==> retained == candidates
    ensures ok && reusable ==> forall k :: 0 <= k < |regions| ==>
              (retained[k] <==> candidates[k] && SameRegion(old(keys[..|images|]), KeysOf(images, size, regions), k))
  {
    ok, retained := true, candidates;
    ghost var was, now := keys[..|images|], KeysOf(images, size, regions);
    var index := 0;
    while index < |images|
      invariant index <= |images| && |retained| == |regions|
      invariant AllPlaced(images[..index], size, regions)
      invariant keys[..index] == now[..index] && keys[index..|images|] == was[index..]
      invariant !reusable ==> retained == candidates
      invariant reusable ==> forall k :: 0 <= k < |regions| ==>
                  (retained[k] <==> candidates[k] && forall i :: 0 <= i < index ==> Undisturbed(was[i], now[i], k))
    {
      var key := Unplaced;
      var clip := Clipped(images[index], size);
      if clip.Visible? {
        var k := FindRegion(clip.box, regions);
        if k == |regions| {
          return false, retained;
        }
        key := KeyIn(images[index], clip.box, k, regions[k]);
      }
      assert key == now[index] && keys[index] == keys[index..|images|][0] == was[index];
      if reusable && keys[index] != key {
        retained := Disturb(retained, keys[index], key);
      }
      ghost var before := keys[..|images|];
      keys[index] := key;
      assert keys[..|images|] == before[index := key];
      assert keys[..index + 1] == before[..index] + [key];
      assert keys[index + 1..|images|] == before[index + 1..];
      assert before[index..] == was[index..];
      assert before[index + 1..] == was[index..][1..] == was[index + 1..];
      index := index + 1;
    }
    forall k | 0 <= k < |regions|
      ensures (forall i :: 0 <= i < |images| ==> Undisturbed(was[i], now[i], k)) <==> SameRegion(was, now, k)
    {
      assert forall i :: 0 <= i < |was| ==>
        (Undisturbed(was[i], now[i], k) <==> (was[i] == now[i] || (!InRegion(was[i], k) && !InRegion(now[i], k))));
    }
  }

  // ----- the size check

  /** The running total of region bytes; `ok` is false where the C code refuses. */
  method TotalBytes(bounds: seq<Bounds>) returns (ok: bool, bytes: nat)
    requires AllProper(bounds)
    ensures ok <==> TotalArea(bounds) <= MAX_PIXELS
    ensures ok ==> bytes == Offset(Sizes(bounds), |bounds|) == 4 * TotalArea(bounds)
  {
    ok, bytes := true, 0;
    var i := 0;
    while i < |bounds|
      invariant i <= |bounds| && ok
      invariant bytes == 4 * TotalArea(bounds[..i]) == Offset(Sizes(bounds), i) <= MAX_PIXELS * 4
    {
      var n := Area(bounds[i]) * 4;
      assert bounds[..i + 1][..i] == bounds[..i];
      assert TotalArea(bounds[..i + 1]) == TotalArea(bounds[..i]) + Area(bounds[i]);
      if n > MAX_PIXELS * 4 || bytes > MAX_PIXELS * 4 - n {
        TotalAreaPrefix(bounds, i + 1);
        return false, bytes;
      }
      bytes := bytes + n;
      i := i + 1;
    }
    assert bounds[..i] == bounds;
  }

  lemma {:induction false} TotalAreaPrefix(bounds: seq<Bounds>, i: nat)
    requires AllProper(bounds) && i <= |bounds|
    ensures TotalArea(bounds[..i]) <= TotalArea(bounds)
    decreases |bounds|
  {
    if i == |bounds| {
      assert bounds[..i] == bounds;
    } else {
      assert bounds[..|bounds| - 1][..i] == bounds[..i];
      TotalAreaPrefix(bounds[..|bounds| - 1], i);
    }
  }

  // ----- straight alpha

  ghost predicate Reciprocals(table: seq<Word>)
  {
    |table| == 256 && forall a :: 0 <= a < 256 ==> table[a] == Reciprocal(a)
  }

  lemma StraightChannels(d: Rgba)
    requires Premultiplied(d) && d.a != 0
    ensures Straight(d).a == d.a
    ensures StraightChannel(d.r, d.a, Reciprocal(d.a)) == Straight(d).r
    ensures StraightChannel(d.g, d.a, Reciprocal(d.a)) == Straight(d).g
    ensures StraightChannel(d.b, d.a, Reciprocal(d.a)) == Straight(d).b
  {
    StraightChannelUnclamped(d.r, d.a);
    StraightChannelUnclamped(d.g, d.a);
    StraightChannelUnclamped(d.b, d.a);
  }

  /** One pixel of the final loop: transparent and opaque pixels are skipped. */
  method StraightenPixel(arena: array<Byte>, i: nat, reciprocal: seq<Word>)
    requires i + 4 <= arena.Length && Reciprocals(reciprocal)
    requires Premultiplied(PixelAt(arena[..], i))
    modifies arena
    ensures PixelAt(arena[..], i) == Straight(old(PixelAt(arena[..], i)))
    ensures SameOutside(arena[..], old(arena[..]), i, 4)
  {
    ghost var d := PixelAt(arena[..], i);
    var a := arena[i + 3];
    if a == 0 || a == 255 {
      if a == 255 {
        StraightOpaque(d);
      }
      return;
    }
    StraightChannels(d);
    arena[i] := StraightChannel(arena[i], a, reciprocal[a]);
    arena[i + 1] := StraightChannel(arena[i + 1], a, reciprocal[a]);
    arena[i + 2] := StraightChannel(arena[i + 2], a, reciprocal[a]);
  }

  /** Pixels before `cur` are straight, the others still premultiplied. */
  ghost predicate Straightened(arena: seq<Byte>, orig: seq<Byte>, at: nat, b: Bounds, f: Frame, size: Size, cur: nat)
  {
    && Proper(b) && at + 4 * Area(b) <= |arena| && SameOutside(arena, orig, at, 4 * Area(b))
    && forall p :: 0 <= p < Area(b) ==>
         RegionPixel(arena, at, p) ==
           if p < cur then Picture(f, size, Col(b, p), Row(b, p))
           else Paint(f.images, f.mem, size, Col(b, p), Row(b, p))
  }

  lemma StraightenedStep(arena: seq<Byte>, before: seq<Byte>, orig: seq<Byte>, at: nat, b: Bounds, f: Frame, size: Size,
                         p: nat)
    requires Straightened(before, orig, at, b, f, size, p) && p < Area(b)
    requires SameOutside(arena, before, at + 4 * p, 4)
    requires Premultiplied(RegionPixel(before, at, p)) &&
             RegionPixel(arena, at, p) == Straight(RegionPixel(before, at, p))
    ensures Straightened(arena, orig, at, b, f, size, p + 1)
  {
  }

  /** A finished region becomes the straight-alpha picture of the frame. */
  method StraightenRegion(arena: array<Byte>, at: nat, b: Bounds, reciprocal: seq<Word>, ghost f: Frame,
                          ghost size: Size)
    requires Reciprocals(reciprocal)
    requires Painted(arena[..], at, b, f.images, f.mem, size)
    modifies arena
    ensures Shows(arena[..], at, b, f, size)
    ensures SameOutside(arena[..], old(arena[..]), at, 4 * Area(b))
  {
    ghost var orig := arena[..];
    for p := 0 to Area(b)
      invariant Straightened(arena[..], orig, at, b, f, size, p)
    {
      ghost var before := arena[..];
      PaintPremultiplied(f.images, f.mem, size, Col(b, p), Row(b, p));
      StraightenPixel(arena, at + 4 * p, reciprocal);
      StraightenedStep(arena[..], before, orig, at, b, f, size, p);
    }
  }
}
