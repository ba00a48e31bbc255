/**
 * The value-copying parts of lidar/lidar.cpp: makeHomogeneous, the
 * in-image filter at the end of project, and the scatter of projected
 * points into a depth map. Projected points carry integer pixel
 * coordinates.
 */
module Lidar {
  import opened OpenCvUtils

  /** makeHomogeneous: each x y z row gets a fourth entry 1. */
  function MakeHomogeneous(points: seq<seq<real>>): (xyzw: seq<seq<real>>)
    requires HasShape(points, |points|, 3)
    ensures HasShape(xyzw, |points|, 4)
    ensures forall i :: 0 <= i < |points| ==> xyzw[i][..3] == points[i] && xyzw[i][3] == 1.0
  {
    var ones := seq(|points|, _ => [1.0]);
    var xyzw := HConcat(points, ones);
    assert forall i :: 0 <= i < |points| ==> xyzw[i][3..] == [1.0];
    xyzw
  }

  /** A column of project's U V Z matrix after the division by Z. */
  datatype PixelPoint = PixelPoint(u: int, v: int, z: real)

  /** Inside a width x height image, counting the far edges when
      `inclusive` holds. */
  predicate Within(p: PixelPoint, width: int, height: int, inclusive: bool) {
    && 0 <= p.u && 0 <= p.v
    && if inclusive then p.u <= width && p.v <= height else p.u < width && p.v < height
  }

  /** The points inside the image, in their original order. */
  function KeepWithin(points: seq<PixelPoint>, width: int, height: int, inclusive: bool): seq<PixelPoint> {
    if points == [] then []
    else
      var last := points[|points| - 1];
      KeepWithin(points[..|points| - 1], width, height, inclusive)
        + (if Within(last, width, height, inclusive) then [last] else [])
  }

  /** The filter loop of project: when the image has a positive size, keep
      the columns with 0 <= u <= width and 0 <= v <= height (far edges
      included) in order; otherwise keep every column. */
  method ProjectFilter(points: seq<PixelPoint>, width: int, height: int) returns (result: seq<PixelPoint>)
    ensures result == if width > 0 && height > 0 then KeepWithin(points, width, height, true) else points
  {
    if width > 0 && height > 0 {
      result := [];
      for i := 0 to |points|
        invariant result == KeepWithin(points[..i], width, height, true)
      {
        assert points[..i + 1][..i] == points[..i];
        var col := points[i];
        if col.u < 0 || col.u > width || col.v < 0 || col.v > height {
          continue;
        }
        result := result + [col];
      }
      assert points[..|points|] == points;
    } else {
      result := points;
    }
  }

  /** Every kept point is one of the points, inside the image. */
  lemma {:induction false} KeepWithinSound(points: seq<PixelPoint>, width: int, height: int, inclusive: bool)
    ensures forall p :: p in KeepWithin(points, width, height, inclusive) ==> p in points && Within(p, width, height, inclusive)
  {
    if points != [] {
      KeepWithinSound(points[..|points| - 1], width, height, inclusive);
    }
  }

  /** Every point inside the image is kept. */
  lemma {:induction false} KeepWithinComplete(points: seq<PixelPoint>, width: int, height: int, inclusive: bool)
    ensures forall p :: p in points && Within(p, width, height, inclusive) ==> p in KeepWithin(points, width, height, inclusive)
  {
    if points != [] {
      var init := points[..|points| - 1];
      KeepWithinComplete(init, width, height, inclusive);
      assert points == init + [points[|points| - 1]];
    }
  }

  /** Filtering keeps the order: the points kept from a + b are those kept
      from a followed by those kept from b. */
  lemma {:induction false} KeepWithinAppend(a: seq<PixelPoint>, b: seq<PixelPoint>, width: int, height: int, inclusive: bool)
    ensures KeepWithin(a + b, width, height, inclusive)
            == KeepWithin(a, width, height, inclusive) + KeepWithin(b, width, height, inclusive)
    decreases |b|
  {
    if b == [] {
      assert a + b == a;
    } else {
      var init := b[..|b| - 1];
      assert (a + b)[..|a + b| - 1] == a + init;
      KeepWithinAppend(a, init, width, height, inclusive);
    }
  }

  /** The z of the last point at pixel (u, v), or 0 when none falls there. */
  function LastHit(points: seq<PixelPoint>, u: int, v: int): real {
    if points == [] then 0.0
    else
      var last := points[|points| - 1];
      if last.u == u && last.v == v then last.z else LastHit(points[..|points| - 1], u, v)
  }

  /** A pixel no point falls on keeps the map's initial 0. */
  lemma {:induction false} LastHitMiss(points: seq<PixelPoint>, u: int, v: int)
    requires forall i :: 0 <= i < |points| ==> points[i].u != u || points[i].v != v
    ensures LastHit(points, u, v) == 0.0
  {
    if points != [] {
      LastHitMiss(points[..|points| - 1], u, v);
    }
  }

  /** A pixel holds the z of the last point that falls on it. */
  lemma {:induction false} LastHitIsLast(points: seq<PixelPoint>, i: nat)
    requires i < |points|
    requires forall j :: i < j < |points| ==> points[j].u != points[i].u || points[j].v != points[i].v
    ensures LastHit(points, points[i].u, points[i].v) == points[i].z
  {
    if i < |points| - 1 {
      LastHitIsLast(points[..|points| - 1], i);
    }
  }

  /** depthMapFromProjectedPoints: a height x width map of zeros; each point
      in turn writes its z at row v, column u. Every point must lie strictly
      inside the image. */
  method DepthMapFromProjectedPoints(points: seq<PixelPoint>, width: nat, height: nat) returns (depth: array2<real>)
    requires forall i :: 0 <= i < |points| ==> 0 <= points[i].u < width && 0 <= points[i].v < height
    ensures fresh(depth)
    ensures depth.Length0 == height && depth.Length1 == width
    ensures forall v, u :: 0 <= v < height && 0 <= u < width ==> depth[v, u] == LastHit(points, u, v)
  {
    depth := new real[height, width]((_, _) => 0.0);
    for i := 0 to |points|
      invariant forall v, u :: 0 <= v < height && 0 <= u < width ==> depth[v, u] == LastHit(points[..i], u, v)
    {
      assert points[..i + 1][..i] == points[..i];
      var p := points[i];
      depth[p.v, p.u] := p.z;
    }
    assert points[..|points|] == points;
  }

  /** project keeps any point on the far edge of the image, u == width,
      which the depth map then rejects: it needs u < width. */
  lemma FilterKeepsFarEdge(points: seq<PixelPoint>, width: int, height: int, i: nat)
    requires i < |points| && points[i].u == width && 0 <= width && 0 <= points[i].v <= height
    ensures points[i] in KeepWithin(points, width, height, true)
    ensures !(points[i].u < width)
  {
    KeepWithinComplete(points, width, height, true);
  }

  /** With the far edges excluded, everything the filter keeps is a valid
      input to the depth map. */
  lemma StrictFilterFitsDepthMap(points: seq<PixelPoint>, width: nat, height: nat)
    ensures forall p :: p in KeepWithin(points, width, height, false) ==> 0 <= p.u < width && 0 <= p.v < height
  {
    KeepWithinSound(points, width, height, false);
  }

  /** The projected points of a positive-size image, filtered with the far
      edges excluded, scattered into its depth map; an image no point falls
      inside gets a map of zeros of its own size. */
  method DepthMapOfImage(points: seq<PixelPoint>, width: nat, height: nat) returns (depth: array2<real>)
    requires width > 0 && height > 0
    ensures fresh(depth)
    ensures depth.Length0 == height && depth.Length1 == width
    ensures forall v, u :: 0 <= v < height && 0 <= u < width ==>
      depth[v, u] == LastHit(KeepWithin(points, width, height, false), u, v)
    ensures (forall p :: p in points ==> !Within(p, width, height, false)) ==>
      forall v, u :: 0 <= v < height && 0 <= u < width ==> depth[v, u] == 0.0
  {
    var kept := KeepWithin(points, width, height, false);
    StrictFilterFitsDepthMap(points, width, height);
    assert forall i :: 0 <= i < |kept| ==> kept[i] in kept;
    depth := DepthMapFromProjectedPoints(KeepWithin(points, width, height, false), width, height);
    if forall p :: p in points ==> !Within(p, width, height, false) {
      KeepWithinSound(points, width, height, false);
    }
  }

  /** The shape of a matrix: rows, columns, and whether its elements are
      doubles. */
  datatype MatShape = MatShape(rows: nat, cols: nat, isDouble: bool)

  /** The shape of what project returns, as written (lidar.cpp:42-61): for
      a positive-size image the kept columns are pushed into a matrix that
      starts as the empty matrix of 8-bit elements and is then transposed,
      so keeping no column leaves it 0 x 0 and not of doubles; otherwise a
      3 x n matrix of doubles. */
  function ProjectedShape(points: seq<PixelPoint>, width: int, height: int): (shape: MatShape)
    ensures !(width > 0 && height > 0) ==> shape == MatShape(3, |points|, true)
    ensures width > 0 && height > 0 && KeepWithin(points, width, height, true) != [] ==>
      shape == MatShape(3, |KeepWithin(points, width, height, true)|, true)
  {
    if width > 0 && height > 0 then
      var kept := KeepWithin(points, width, height, true);
      if kept == [] then MatShape(0, 0, false) else MatShape(3, |kept|, true)
    else MatShape(3, |points|, true)
  }

  /** What depthMapFromProjectedPoints asserts of its input: three rows of
      doubles (lidar.cpp:65-66). */
  predicate AcceptedByDepthMap(shape: MatShape) {
    shape.rows == 3 && shape.isDouble
  }

  /** project's result fails the depth map's input check exactly when the
      image has a positive size and no point falls inside it. */
  lemma EmptyProjectionRejected(points: seq<PixelPoint>, width: int, height: int)
    ensures !AcceptedByDepthMap(ProjectedShape(points, width, height))
      <==> width > 0 && height > 0 && forall p :: p in points ==> !Within(p, width, height, true)
  {
    if width > 0 && height > 0 {
      KeepWithinSound(points, width, height, true);
      KeepWithinComplete(points, width, height, true);
      var kept := KeepWithin(points, width, height, true);
      if kept != [] {
        assert kept[0] in kept;
      }
    }
  }

  /** A single point left of a 10 x 10 image: project returns the empty
      matrix, which the depth map rejects. */
  lemma PointLeftOfImageRejected()
    ensures ProjectedShape([PixelPoint(-1, 0, 1.0)], 10, 10) == MatShape(0, 0, false)
    ensures !AcceptedByDepthMap(ProjectedShape([PixelPoint(-1, 0, 1.0)], 10, 10))
  {
    var points := [PixelPoint(-1, 0, 1.0)];
    assert !Within(points[0], 10, 10, true);
    assert points[..0] == [];
    assert KeepWithin(points, 10, 10, true) == [];
  }
}
