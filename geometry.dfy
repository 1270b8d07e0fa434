/** The geometric vocabulary the acceleration structure works with. The
    geometry itself (ray-box slab test, shape intersection) lives in files
    that are not part of this model: a ray is represented by what those tests
    compute from it. */
module Geometry {
  import opened Wrappers

  /** FLT_MAX, the largest finite single-precision float. */
  const FLT_MAX: real := 340282346638528859811704183484516925440.0

  datatype Vec3 = Vec3(x: real, y: real, z: real) {
    function Coord(axis: Axis): real
    {
      match axis
      case X => x
      case Y => y
      case Z => z
    }
  }

  /** The three principal axes a split plane can be perpendicular to. */
  datatype Axis = X | Y | Z

  function Min(a: real, b: real): real { if a < b then a else b }
  function Max(a: real, b: real): real { if a < b then b else a }

  /** An axis-aligned box given by its two corners. */
  datatype BBox = BBox(min: Vec3, max: Vec3)

  /** The default-constructed box: inverted corners, so that it is the unit of Union. */
  const EmptyBox: BBox := BBox(Vec3(FLT_MAX, FLT_MAX, FLT_MAX), Vec3(-FLT_MAX, -FLT_MAX, -FLT_MAX))

  /** The smallest box enclosing both boxes. */
  function Union(a: BBox, b: BBox): (r: BBox)
  {
    BBox(Vec3(Min(a.min.x, b.min.x), Min(a.min.y, b.min.y), Min(a.min.z, b.min.z)),
         Vec3(Max(a.max.x, b.max.x), Max(a.max.y, b.max.y), Max(a.max.z, b.max.z)))
  }

  /** Box `outer` encloses box `inner`. */
  predicate Contains(outer: BBox, inner: BBox)
  {
    && outer.min.x <= inner.min.x && outer.min.y <= inner.min.y && outer.min.z <= inner.min.z
    && inner.max.x <= outer.max.x && inner.max.y <= outer.max.y && inner.max.z <= outer.max.z
  }

  /** Union is an upper bound of its operands and the least one. */
  lemma UnionIsLeastUpperBound(a: BBox, b: BBox, c: BBox)
    ensures Contains(Union(a, b), a) && Contains(Union(a, b), b)
    ensures Contains(c, a) && Contains(c, b) <==> Contains(c, Union(a, b))
  {
  }

  lemma ContainsTransitive(a: BBox, b: BBox, c: BBox)
    requires Contains(a, b) && Contains(b, c)
    ensures Contains(a, c)
  {
  }

  /** A scene primitive as the acceleration structure sees it: its identity,
      the ID of its material and its bounding box. */
  datatype Primitive = Primitive(id: nat, materialId: nat, bbox: BBox)

  /** A primitive wrapper: cached bounding box and centroid, and the primitive. */
  datatype BvhPrimitive = BvhPrimitive(primitive: Primitive, box: BBox, centroid: Vec3)

  function Centroid(b: BBox): Vec3
  {
    Vec3((b.min.x + b.max.x) / 2.0, (b.min.y + b.max.y) / 2.0, (b.min.z + b.max.z) / 2.0)
  }

  /** Wraps a primitive, caching its box and the centre of that box. */
  function Wrap(p: Primitive): (w: BvhPrimitive)
  {
    BvhPrimitive(p, p.bbox, Centroid(p.bbox))
  }

  /** A ray, by what the geometry code computes from it: `entry` is the ray-box
      test (the entry distance, negative when the box is missed) and `hit` the
      primitive test (the distance of the hit within the ray's valid range, if
      there is one). */
  datatype Ray = Ray(entry: BBox -> real, hit: Primitive -> Option<real>)

  /** The property of the ray-box test that pruning relies on: a box that encloses
      a primitive the ray hits is not missed, and its entry distance is no larger
      than the hit distance. */
  ghost predicate Conservative(ray: Ray)
  {
    forall b: BBox, p: Primitive {:trigger Contains(b, p.bbox), ray.hit(p)} ::
      Contains(b, p.bbox) && ray.hit(p).Some? ==> 0.0 <= ray.entry(b) <= ray.hit(p).value
  }
}
