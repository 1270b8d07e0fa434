/** The intersection record filled by the ray queries. */
module Intersections {
  import opened Wrappers
  import opened Geometry

  /** Intersection records the data of a ray's hit with a primitive. The
      surface data (point, normals, tangent, view, uv) are written by shape code
      that is not part of this model; the traversal reads and writes t and
      primitive. */
  class Intersection {
    var intersect: Vec3
    var normal: Vec3
    var gnormal: Vec3
    var tangent: Vec3
    var view: Vec3
    var u: real
    var v: real
    var t: real
    var primitive: Option<Primitive>

    /** A fresh record: uv is zero, t is FLT_MAX and no primitive is set. */
    constructor ()
      ensures u == 0.0 && v == 0.0
      ensures t == FLT_MAX && primitive == None
    {
      intersect, normal, gnormal, tangent, view := Vec3(0.0, 0.0, 0.0), Vec3(0.0, 0.0, 0.0), Vec3(0.0, 0.0, 0.0), Vec3(0.0, 0.0, 0.0), Vec3(0.0, 0.0, 0.0);
      u, v := 0.0, 0.0;
      t := FLT_MAX;
      primitive := None;
    }

    /** Clears the part of the record that the intersection tests read, so the
        record can be used as a new one; nothing else changes, and resetting a
        reset record changes nothing. */
    method Reset()
      modifies this
      ensures t == FLT_MAX && primitive == None
      ensures intersect == old(intersect) && normal == old(normal) && gnormal == old(gnormal)
      ensures tangent == old(tangent) && view == old(view) && u == old(u) && v == old(v)
      ensures old(t) == FLT_MAX && old(primitive) == None ==> unchanged(this)
    {
      t := FLT_MAX;
      primitive := None;
    }
  }

  /** Primitive::GetIntersect as the traversal uses it. Without a record it
      only reports a hit; with one it reports and records a hit that is closer
      than the record's t. */
  method PrimitiveGetIntersect(ray: Ray, p: Primitive, rec: Intersection?) returns (hit: bool)
    modifies rec
    ensures rec == null ==> hit == ray.hit(p).Some?
    ensures rec != null ==> hit == (ray.hit(p).Some? && ray.hit(p).value < old(rec.t))
    ensures rec != null && hit ==> rec.t == ray.hit(p).value && rec.primitive == Some(p)
    ensures rec != null && !hit ==> rec.t == old(rec.t) && rec.primitive == old(rec.primitive)
    ensures rec != null ==> rec.u == old(rec.u) && rec.v == old(rec.v)
  {
    match ray.hit(p)
    case None =>
      hit := false;
    case Some(d) =>
      if rec == null {
        hit := true;
      } else if d < rec.t {
        rec.t := d;
        rec.primitive := Some(p);
        hit := true;
      } else {
        hit := false;
      }
  }
}
