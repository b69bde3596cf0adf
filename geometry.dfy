/** Points and boxes shared by the vision helpers, the centroid manager and
    the controllers. Image coordinates are whole pixels; robot coordinates
    are millimetres, produced by a homography this model does not compute. */
module Geometry {
  import opened Builtins

  /** An image point `(x, y)` in pixels. */
  datatype Point = Point(x: int, y: int)

  /** A point in the robot's frame, in millimetres. */
  datatype RobotXY = RobotXY(x: real, y: real)

  /** An axis-parallel box given by its bounds. */
  datatype Box = Box(xMin: int, xMax: int, yMin: int, yMax: int)

  /** Strictly inside: a point on the border is outside. */
  predicate StrictlyInside(x: int, y: int, b: Box) {
    b.xMin < x < b.xMax && b.yMin < y < b.yMax
  }

  /** A colour as the three channels OpenCV is given, in order. */
  datatype Colour = Colour(c0: int, c1: int, c2: int)

  /** One filled circle drawn on an image. */
  datatype Circle = Circle(centre: Point, radius: int, colour: Colour)

  /** `determine_bound(point, crop_region)`: True when there is no crop
      region (None or empty), otherwise whether the point is strictly inside
      `(min_x, max_x, min_y, max_y)`. A region that is not four values fails
      to unpack and raises ValueError. */
  function DetermineBound(p: Point, crop: Option<seq<int>>): (r: Outcome<bool>)
    ensures (crop.None? || crop.value == []) ==> r == Normal(true)
    ensures crop.Some? && crop.value != [] && |crop.value| != 4 ==> r == Raised(ValueError)
    ensures crop.Some? && |crop.value| == 4 ==>
      r == Normal(StrictlyInside(p.x, p.y, Box(crop.value[0], crop.value[1], crop.value[2], crop.value[3])))
  {
    if crop.None? || crop.value == [] then Normal(true)
    else if |crop.value| != 4 then Raised(ValueError)
    else
      var minX, maxX, minY, maxY := crop.value[0], crop.value[1], crop.value[2], crop.value[3];
      Normal(p.x > minX && p.x < maxX && p.y > minY && p.y < maxY)
  }

  /** Points on the border of the crop region are rejected. */
  lemma DetermineBoundExcludesBorder(p: Point, crop: seq<int>)
    requires |crop| == 4
    requires p.x == crop[0] || p.x == crop[1] || p.y == crop[2] || p.y == crop[3]
    ensures DetermineBound(p, Some(crop)) == Normal(false)
  {
  }
}
