/**
  The one byte arena behind all regions (src/ass.c, `place_regions`): retained regions are
  moved to their new offsets inside it, all others are cleared.
 */
module AssArena {
  import opened AssComposite
  import opened AssRegions
  import opened AssArea

  /** `ButacaAssBitmap`; the pixel pointer is an offset into the arena. */
  datatype Bitmap = Bitmap(x: int, y: int, width: int, height: int, bytes: nat, offset: nat)

  function RegionBytes(b: Bounds): nat
    requires Proper(b)
  {
    Area(b) * 4
  }

  /** Where region `i` starts when regions of these sizes are laid end to end. */
  function Offset(sizes: seq<nat>, i: nat): nat
    requires i <= |sizes|
  {
    if i == 0 then 0 else Offset(sizes, i - 1) + sizes[i - 1]
  }

  function Sizes(bounds: seq<Bounds>): (sizes: seq<nat>)
    requires forall i :: 0 <= i < |bounds| ==> Proper(bounds[i])
    ensures |sizes| == |bounds|
  {
    seq(|bounds|, i requires 0 <= i < |bounds| => RegionBytes(bounds[i]))
  }

  function BitmapSizes(regions: seq<Bitmap>): (sizes: seq<nat>)
    ensures |sizes| == |regions|
  {
    seq(|regions|, i requires 0 <= i < |regions| => regions[i].bytes)
  }

  /** The region records for these bounds, laid end to end. */
  function Layout(bounds: seq<Bounds>): (out: seq<Bitmap>)
    requires forall i :: 0 <= i < |bounds| ==> Proper(bounds[i])
    ensures |out| == |bounds|
  {
    seq(|bounds|, i requires 0 <= i < |bounds| =>
      Bitmap(bounds[i].left, bounds[i].top, Width(bounds[i]), Height(bounds[i]), RegionBytes(bounds[i]),
          Offset(Sizes(bounds), i)))
  }

  /** The records in numbers: the boxes, four bytes a pixel, one behind the other from the start. */
  lemma LaidEndToEnd(bounds: seq<Bounds>, k: nat)
    requires (forall i :: 0 <= i < |bounds| ==> Proper(bounds[i])) && k < |bounds|
    ensures var m, b := Layout(bounds)[k], bounds[k];
            && m.x == b.left && m.y == b.top && m.width == b.right - b.left && m.height == b.bottom - b.top
            && m.bytes == m.width * m.height * 4
            && m.offset == if k == 0 then 0 else Layout(bounds)[k - 1].offset + Layout(bounds)[k - 1].bytes
  {
  }

  lemma {:induction false} OffsetMonotone(sizes: seq<nat>, i: nat, j: nat)
    requires i < j <= |sizes|
    ensures Offset(sizes, i) + sizes[i] <= Offset(sizes, j)
  {
    if i < j - 1 {
      OffsetMonotone(sizes, i, j - 1);
    }
  }

  /** Regions `i` and `j` of one layout do not overlap. */
  lemma OffsetsDisjoint(sizes: seq<nat>, i: nat, j: nat)
    requires i < |sizes| && j < |sizes| && i != j
    ensures Offset(sizes, i) + sizes[i] <= Offset(sizes, j) || Offset(sizes, j) + sizes[j] <= Offset(sizes, i)
    ensures i < j ==> Offset(sizes, i) + sizes[i] <= Offset(sizes, j)
  {
    if i < j {
      OffsetMonotone(sizes, i, j);
    } else {
      OffsetMonotone(sizes, j, i);
    }
  }

  lemma OffsetInside(sizes: seq<nat>, i: nat)
    requires i < |sizes|
    ensures Offset(sizes, i) + sizes[i] <= Offset(sizes, |sizes|)
  {
    OffsetMonotone(sizes, i, |sizes|);
  }

  // ----- moving bytes

  /** `now[at..]` holds the `n` bytes that `was[from..]` held. */
  ghost predicate Carries(now: seq<Byte>, at: nat, was: seq<Byte>, from: nat, n: nat)
  {
    at + n <= |now| && from + n <= |was| && now[at..at + n] == was[from..from + n]
  }

  /** Only the `n` bytes from `at` on may differ. */
  ghost predicate SameOutside(now: seq<Byte>, mid: seq<Byte>, at: nat, n: nat)
  {
    |now| == |mid| && forall i :: 0 <= i < |now| && !(at <= i < at + n) ==> now[i] == mid[i]
  }

  ghost predicate Separate(a: nat, n: nat, b: nat, m: nat)
  {
    a + n <= b || b + m <= a
  }

  /** memmove(3) inside the arena: source and destination may overlap. */
  method MemMove(arena: array<Byte>, dst: nat, src: nat, n: nat)
    requires dst + n <= arena.Length && src + n <= arena.Length
    modifies arena
    ensures Carries(arena[..], dst, old(arena[..]), src, n)
    ensures SameOutside(arena[..], old(arena[..]), dst, n)
  {
    forall i | 0 <= i < n {
      arena[dst + i] := arena[src + i];
    }
  }

  method MemZero(arena: array<Byte>, at: nat, n: nat)
    requires at + n <= arena.Length
    modifies arena
    ensures Zeroed(arena[..], at, n)
    ensures SameOutside(arena[..], old(arena[..]), at, n)
  {
    forall i | at <= i < at + n {
      arena[i] := 0;
    }
  }

  lemma CarriesThrough(now: seq<Byte>, at: nat, mid: seq<Byte>, via: nat, was: seq<Byte>, from: nat, n: nat)
    requires Carries(now, at, mid, via, n) && Carries(mid, via, was, from, n)
    ensures Carries(now, at, was, from, n)
  {
  }

  /** Writing elsewhere leaves the bytes carried at `at` alone. */
  lemma CarriesUntouched(now: seq<Byte>, mid: seq<Byte>, at: nat, was: seq<Byte>, from: nat, n: nat, dst: nat, m: nat)
    requires Carries(mid, at, was, from, n) && Separate(at, n, dst, m) && SameOutside(now, mid, dst, m)
    ensures Carries(now, at, was, from, n)
  {
  }

  /** What `place_regions` is given, and what its callers guarantee. */
  ghost predicate Placeable(was: seq<nat>, now: seq<nat>, retained: seq<bool>, capacity: nat)
  {
    && |retained| == |now|
    && Offset(was, |was|) <= capacity
    && Offset(now, |now|) <= capacity
    && forall i :: 0 <= i < |now| && retained[i] ==> |was| == |now| && was[i] == now[i]
  }

  /** The offset region `j` has once left moves below `l` and right moves from `r` on are done. */
  ghost function At(was: seq<nat>, now: seq<nat>, j: nat, l: nat, r: nat): nat
    requires |was| == |now| && j < |now|
  {
    var o, d := Offset(was, j), Offset(now, j);
    if (d < o && j < l) || (d > o && r <= j) then d else o
  }

  ghost predicate Moved(arena: seq<Byte>, orig: seq<Byte>, was: seq<nat>, now: seq<nat>, retained: seq<bool>, l: nat,
                        r: nat)
  {
    |retained| == |now| &&
    forall j :: 0 <= j < |now| && retained[j] ==>
      |was| == |now| && was[j] == now[j] &&
      Carries(arena, At(was, now, j, l, r), orig, Offset(was, j), now[j])
  }

  /** The move of region `i` does not overwrite another retained region, moved or waiting. */
  lemma MoveSafe(was: seq<nat>, now: seq<nat>, i: nat, j: nat, l: nat, r: nat)
    requires |was| == |now| && i < |now| && j < |now| && i != j
    requires was[i] == now[i] && was[j] == now[j]
    requires Offset(now, i) < Offset(was, i) ==> l == i && r == |now|
    requires Offset(now, i) > Offset(was, i) ==> l == |now| && r == i + 1
    requires Offset(now, i) != Offset(was, i)
    ensures Separate(At(was, now, j, l, r), now[j], Offset(now, i), now[i])
  {
    OffsetsDisjoint(was, i, j);
    OffsetsDisjoint(now, i, j);
    OffsetsDisjoint(was, j, i);
    OffsetsDisjoint(now, j, i);
  }

  /** One memmove of the schedule: region `i` arrives, everything else stays as it was. */
  lemma MoveStep(after: seq<Byte>, before: seq<Byte>, orig: seq<Byte>, was: seq<nat>, now: seq<nat>,
                 retained: seq<bool>, i: nat, l: nat, r: nat, l': nat, r': nat)
    requires Moved(before, orig, was, now, retained, l, r)
    requires i < |now| && retained[i]
    requires (Offset(now, i) < Offset(was, i) && l == i && r == |now| && l' == i + 1 && r' == r)
          || (Offset(now, i) > Offset(was, i) && l == |now| && r == i + 1 && l' == l && r' == i)
    requires Carries(after, Offset(now, i), before, Offset(was, i), now[i])
    requires SameOutside(after, before, Offset(now, i), now[i])
    ensures Moved(after, orig, was, now, retained, l', r')
  {
    forall j | 0 <= j < |now| && retained[j]
      ensures Carries(after, At(was, now, j, l', r'), orig, Offset(was, j), now[j])
    {
      if j == i {
        CarriesThrough(after, Offset(now, i), before, Offset(was, i), orig, Offset(was, i), now[i]);
      } else {
        MoveSafe(was, now, i, j, l, r);
        CarriesUntouched(after, before, At(was, now, j, l, r), orig, Offset(was, j), now[j], Offset(now, i), now[i]);
      }
    }
  }

  lemma SkipStep(arena: seq<Byte>, orig: seq<Byte>, was: seq<nat>, now: seq<nat>, retained: seq<bool>,
                 i: nat, l: nat, r: nat, l': nat, r': nat)
    requires Moved(arena, orig, was, now, retained, l, r) && i < |now|
    requires (l == i && l' == i + 1 && r' == r == |now| && (retained[i] ==> Offset(now, i) >= Offset(was, i)))
          || (l' == l == |now| && r == i + 1 && r' == i && (retained[i] ==> Offset(now, i) <= Offset(was, i)))
    ensures Moved(arena, orig, was, now, retained, l', r')
  {
  }

  ghost predicate Zeroed(arena: seq<Byte>, at: nat, n: nat)
  {
    at + n <= |arena| && forall c :: at <= c < at + n ==> arena[c] == 0
  }

  /** Every retained region carries, at its new offset, the bytes it had at its old one. */
  ghost predicate RetainedKept(arena: seq<Byte>, orig: seq<Byte>, was: seq<nat>, now: seq<nat>, retained: seq<bool>)
    requires |retained| == |now|
  {
    forall i :: 0 <= i < |now| && retained[i] ==>
      i < |was| && Carries(arena, Offset(now, i), orig, Offset(was, i), now[i])
  }

  /** The first `upTo` regions that are not retained are transparent. */
  ghost predicate OthersCleared(arena: seq<Byte>, now: seq<nat>, retained: seq<bool>, upTo: nat)
    requires |retained| == |now| && upTo <= |now|
  {
    forall i :: 0 <= i < upTo && !retained[i] ==> Zeroed(arena, Offset(now, i), now[i])
  }

  /** `place_regions` */
  method PlaceRegions(arena: array<Byte>, regions: seq<Bitmap>, bounds: seq<Bounds>, retained: seq<bool>)
    returns (placed: seq<Bitmap>)
    requires forall i :: 0 <= i < |bounds| ==> Proper(bounds[i])
    requires Placeable(BitmapSizes(regions), Sizes(bounds), retained, arena.Length)
    modifies arena
    ensures placed == Layout(bounds)
    ensures RetainedKept(arena[..], old(arena[..]), BitmapSizes(regions), Sizes(bounds), retained)
    ensures OthersCleared(arena[..], Sizes(bounds), retained, |bounds|)
  {
    MoveRetained(arena, BitmapSizes(regions), Sizes(bounds), retained);
    ClearOthers(arena, BitmapSizes(regions), Sizes(bounds), retained, old(arena[..]));
    placed := Layout(bounds);
  }

  lemma NothingMoved(orig: seq<Byte>, was: seq<nat>, now: seq<nat>, retained: seq<bool>)
    requires Placeable(was, now, retained, |orig|)
    ensures Moved(orig, orig, was, now, retained, 0, |now|)
  {
    forall j | 0 <= j < |now| && retained[j] ensures Carries(orig, Offset(was, j), orig, Offset(was, j), now[j]) {
      OffsetInside(was, j);
    }
  }

  lemma AllMoved(arena: seq<Byte>, orig: seq<Byte>, was: seq<nat>, now: seq<nat>, retained: seq<bool>)
    requires Moved(arena, orig, was, now, retained, |now|, 0)
    ensures RetainedKept(arena, orig, was, now, retained)
  {
  }

  /** The two passes of moves: leftward in ascending order, then rightward in descending order. */
  method MoveRetained(arena: array<Byte>, was: seq<nat>, now: seq<nat>, retained: seq<bool>)
    requires Placeable(was, now, retained, arena.Length)
    modifies arena
    ensures RetainedKept(arena[..], old(arena[..]), was, now, retained)
  {
    ghost var orig := arena[..];
    NothingMoved(orig, was, now, retained);
    for i := 0 to |now|
      invariant Moved(arena[..], orig, was, now, retained, i, |now|)
    {
      if retained[i] && Offset(now, i) < Offset(was, i) {
        MoveOne(arena, was, now, retained, i, orig, i, |now|, i + 1, |now|);
      } else {
        SkipStep(arena[..], orig, was, now, retained, i, i, |now|, i + 1, |now|);
      }
    }
    for i := |now| downto 0
      invariant Moved(arena[..], orig, was, now, retained, |now|, i)
    {
      if retained[i] && Offset(now, i) > Offset(was, i) {
        MoveOne(arena, was, now, retained, i, orig, |now|, i + 1, |now|, i);
      } else {
        SkipStep(arena[..], orig, was, now, retained, i, |now|, i + 1, |now|, i);
      }
    }
    AllMoved(arena[..], orig, was, now, retained);
  }

  /** Move region `i` from its old to its new offset; `l` and `r` say how far the passes have come. */
  method MoveOne(arena: array<Byte>, was: seq<nat>, now: seq<nat>, ghost retained: seq<bool>, i: nat,
                 ghost orig: seq<Byte>, ghost l: nat, ghost r: nat, ghost l': nat, ghost r': nat)
    requires Placeable(was, now, retained, arena.Length) && i < |now| && retained[i]
    requires Moved(arena[..], orig, was, now, retained, l, r)
    requires (Offset(now, i) < Offset(was, i) && l == i && r == |now| && l' == i + 1 && r' == r)
          || (Offset(now, i) > Offset(was, i) && l == |now| && r == i + 1 && l' == l && r' == i)
    modifies arena
    ensures Moved(arena[..], orig, was, now, retained, l', r')
  {
    OffsetInside(was, i);
    OffsetInside(now, i);
    ghost var before := arena[..];
    MemMove(arena, Offset(now, i), Offset(was, i), was[i]);
    MoveStep(arena[..], before, orig, was, now, retained, i, l, r, l', r');
  }

  /** Clearing region `i` touches no retained region. */
  lemma ClearKeeps(after: seq<Byte>, before: seq<Byte>, orig: seq<Byte>, was: seq<nat>, now: seq<nat>,
                   retained: seq<bool>, i: nat)
    requires |retained| == |now| && i < |now| && !retained[i]
    requires SameOutside(after, before, Offset(now, i), now[i])
    requires RetainedKept(before, orig, was, now, retained)
    ensures RetainedKept(after, orig, was, now, retained)
  {
    forall j | 0 <= j < |now| && retained[j]
      ensures j < |was| && Carries(after, Offset(now, j), orig, Offset(was, j), now[j])
    {
      OffsetsDisjoint(now, i, j);
      CarriesUntouched(after, before, Offset(now, j), orig, Offset(was, j), now[j], Offset(now, i), now[i]);
    }
  }

  /** Clearing region `i` leaves the earlier cleared regions clear. */
  lemma ClearStep(after: seq<Byte>, before: seq<Byte>, now: seq<nat>, retained: seq<bool>, i: nat)
    requires |retained| == |now| && i < |now|
    requires SameOutside(after, before, Offset(now, i), now[i]) && Zeroed(after, Offset(now, i), now[i])
    requires OthersCleared(before, now, retained, i)
    ensures OthersCleared(after, now, retained, i + 1)
  {
    forall j | 0 <= j < i + 1 && !retained[j] ensures Zeroed(after, Offset(now, j), now[j]) {
      if j < i {
        OffsetsDisjoint(now, j, i);
        ZeroedUntouched(after, before, Offset(now, j), now[j], Offset(now, i), now[i]);
      }
    }
  }

  lemma ZeroedUntouched(now: seq<Byte>, mid: seq<Byte>, at: nat, n: nat, dst: nat, m: nat)
    requires Zeroed(mid, at, n) && Separate(at, n, dst, m) && SameOutside(now, mid, dst, m)
    ensures Zeroed(now, at, n)
  {
  }

  lemma ClearSkip(arena: seq<Byte>, now: seq<nat>, retained: seq<bool>, i: nat)
    requires |retained| == |now| && i < |now| && retained[i]
    requires OthersCleared(arena, now, retained, i)
    ensures OthersCleared(arena, now, retained, i + 1)
  {
  }

  method ClearOthers(arena: array<Byte>, ghost was: seq<nat>, now: seq<nat>, retained: seq<bool>, ghost orig: seq<Byte>)
    requires |retained| == |now| && Offset(now, |now|) <= arena.Length
    requires RetainedKept(arena[..], orig, was, now, retained)
    modifies arena
    ensures RetainedKept(arena[..], orig, was, now, retained)
    ensures OthersCleared(arena[..], now, retained, |now|)
  {
    for i := 0 to |now|
      invariant RetainedKept(arena[..], orig, was, now, retained)
      invariant OthersCleared(arena[..], now, retained, i)
    {
      ghost var before := arena[..];
      if retained[i] {
        ClearSkip(before, now, retained, i);
      } else {
        OffsetInside(now, i);
        MemZero(arena, Offset(now, i), now[i]);
        ClearKeeps(arena[..], before, orig, was, now, retained, i);
        ClearStep(arena[..], before, now, retained, i);
      }
    }
  }
}
