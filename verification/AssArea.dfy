/**
  Regions that stay apart share no pixel, so together they never need more pixels than
  the canvas has. This is why the size refusal of `butaca_ass_render` cannot fire.
 */
module AssArea {
  import opened AssRegions

  function Width(b: Bounds): nat
    requires Proper(b)
  {
    b.right - b.left
  }

  function Height(b: Bounds): nat
    requires Proper(b)
  {
    b.bottom - b.top
  }

  function Area(b: Bounds): nat
    requires Proper(b)
  {
    Width(b) * Height(b)
  }

  ghost predicate AllProper(rs: seq<Bounds>)
  {
    forall i :: 0 <= i < |rs| ==> Proper(rs[i])
  }

  ghost function TotalArea(rs: seq<Bounds>): nat
    requires AllProper(rs)
  {
    if rs == [] then 0 else TotalArea(rs[..|rs| - 1]) + Area(rs[|rs| - 1])
  }

  predicate Holds(b: Bounds, p: (int, int))
  {
    b.left <= p.0 < b.right && b.top <= p.1 < b.bottom
  }

  ghost function Points(b: Bounds): set<(int, int)>
  {
    set x, y | b.left <= x < b.right && b.top <= y < b.bottom :: (x, y)
  }

  lemma PointsHold(b: Bounds, p: (int, int))
    ensures p in Points(b) <==> Holds(b, p)
  {
  }

  lemma {:induction false} ColumnSize(x: int, top: int, bottom: int)
    requires top <= bottom
    ensures |Points(Bounds(x, top, x + 1, bottom))| == bottom - top
    decreases bottom - top
  {
    var col := Points(Bounds(x, top, x + 1, bottom));
    if top == bottom {
      assert col == {};
    } else {
      var shorter := Points(Bounds(x, top, x + 1, bottom - 1));
      ColumnSize(x, top, bottom - 1);
      assert col == shorter + {(x, bottom - 1)};
      assert (x, bottom - 1) !in shorter;
    }
  }

  lemma {:induction false} BoxSize(b: Bounds)
    requires b.left <= b.right && b.top <= b.bottom
    ensures |Points(b)| == (b.right - b.left) * (b.bottom - b.top)
    decreases b.right - b.left
  {
    if b.left == b.right {
      assert Points(b) == {};
    } else {
      BoxSize(b.(right := b.right - 1));
      ColumnSize(b.right - 1, b.top, b.bottom);
      LastColumn(b);
      OneMore(b.right - 1 - b.left, b.bottom - b.top);
    }
  }

  lemma OneMore(n: int, h: int)
    ensures (n + 1) * h == n * h + h
  {
  }

  /** A box is the box without its last column, and that column. */
  lemma LastColumn(b: Bounds)
    requires b.left < b.right
    ensures |Points(b)| == |Points(b.(right := b.right - 1))| + |Points(b.(left := b.right - 1))|
  {
    var narrower, column := Points(b.(right := b.right - 1)), Points(b.(left := b.right - 1));
    assert Points(b) == narrower + column;
    assert narrower !! column;
  }

  ghost function AllPoints(rs: seq<Bounds>): set<(int, int)>
  {
    if rs == [] then {} else AllPoints(rs[..|rs| - 1]) + Points(rs[|rs| - 1])
  }

  lemma {:induction false} AllPointsHold(rs: seq<Bounds>, p: (int, int))
    ensures p in AllPoints(rs) <==> exists i :: 0 <= i < |rs| && Holds(rs[i], p)
  {
    if rs != [] {
      var n := |rs| - 1;
      AllPointsHold(rs[..n], p);
      PointsHold(rs[n], p);
      assert forall i :: 0 <= i < n ==> rs[..n][i] == rs[i];
    }
  }

  lemma {:induction false} ApartSize(rs: seq<Bounds>)
    requires AllProper(rs) && Apart(rs)
    ensures |AllPoints(rs)| == TotalArea(rs)
  {
    if rs != [] {
      var n := |rs| - 1;
      ApartSize(rs[..n]);
      BoxSize(rs[n]);
      forall p | p in Points(rs[n]) ensures p !in AllPoints(rs[..n]) {
        PointsHold(rs[n], p);
        AllPointsHold(rs[..n], p);
      }
    }
  }

  lemma SubsetSize<T>(a: set<T>, b: set<T>)
    requires a <= b
    ensures |a| <= |b|
  {
    assert b == a + (b - a);
  }

  /** Regions apart on a canvas need no more pixels than the canvas. */
  lemma TotalAreaBounded(rs: seq<Bounds>, canvas: Bounds)
    requires Apart(rs) && OnCanvas(rs, canvas) && Proper(canvas)
    ensures AllProper(rs) && TotalArea(rs) <= Area(canvas)
  {
    ApartSize(rs);
    BoxSize(canvas);
    forall p | p in AllPoints(rs) ensures p in Points(canvas) {
      AllPointsHold(rs, p);
      PointsHold(canvas, p);
    }
    SubsetSize(AllPoints(rs), Points(canvas));
  }
}
