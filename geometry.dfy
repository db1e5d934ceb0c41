/**
 * The small vector and box types the importer uses (vec3f, vec4f, box3f),
 * with single-precision floats read as reals.
 */
module Geometry {

  function Min(a: real, b: real): real { if b < a then b else a }
  function Max(a: real, b: real): real { if a < b then b else a }

  datatype Vec3 = Vec3(x: real, y: real, z: real) {
    function Plus(v: Vec3): Vec3 { Vec3(x + v.x, y + v.y, z + v.z) }
    function Minus(v: Vec3): Vec3 { Vec3(x - v.x, y - v.y, z - v.z) }
    function Scale(t: real): Vec3 { Vec3(t * x, t * y, t * z) }
    /** `v + s` for a vector and a float: `s` is added to every component. */
    function AddScalar(s: real): Vec3 { Vec3(x + s, y + s, z + s) }
    /** `v - s` for a vector and a float. */
    function SubScalar(s: real): Vec3 { Vec3(x - s, y - s, z - s) }
    /** Componentwise `<=`. */
    predicate Le(v: Vec3) { x <= v.x && y <= v.y && z <= v.z }
  }

  function MinV(a: Vec3, b: Vec3): Vec3 { Vec3(Min(a.x, b.x), Min(a.y, b.y), Min(a.z, b.z)) }
  function MaxV(a: Vec3, b: Vec3): Vec3 { Vec3(Max(a.x, b.x), Max(a.y, b.y), Max(a.z, b.z)) }

  /** `a + t * (b - a)`: the blend the colour map computes between two palette entries. */
  function Lerp(a: Vec3, b: Vec3, t: real): Vec3 { a.Plus(b.Minus(a).Scale(t)) }

  /** A vec4f built from a vec3f and a fourth component (alpha, for colours). */
  datatype Vec4 = Vec4(xyz: Vec3, w: real)

  /**
   * An axis-aligned box. A default-constructed box3f has lower = +inf and
   * upper = -inf, so that it contains nothing; `Empty` stands for that state.
   */
  datatype Box = Empty | Box(lower: Vec3, upper: Vec3) {

    predicate Contains(p: Vec3) {
      Box? && lower.Le(p) && p.Le(upper)
    }

    /** box3f::extend: grow the box just enough to hold `p`. */
    function Extend(p: Vec3): (b: Box)
      ensures b.Box? && b.Contains(p)
      ensures forall q :: Contains(q) ==> b.Contains(q)
    {
      match this
      case Empty => Box(p, p)
      case Box(lo, hi) => Box(MinV(lo, p), MaxV(hi, p))
    }
  }

  /** The box obtained by extending an empty box by every point of `pts`, in order. */
  function Hull(pts: seq<Vec3>): (b: Box)
    ensures b.Empty? <==> pts == []
  {
    if pts == [] then Empty else Hull(pts[..|pts| - 1]).Extend(pts[|pts| - 1])
  }

  /** Every point the box was extended by lies inside it. */
  lemma {:induction false} HullContains(pts: seq<Vec3>)
    ensures forall k :: 0 <= k < |pts| ==> Hull(pts).Contains(pts[k])
  {
    if pts != [] {
      var init := pts[..|pts| - 1];
      HullContains(init);
      forall k | 0 <= k < |pts|
        ensures Hull(pts).Contains(pts[k])
      {
        if k < |pts| - 1 {
          assert pts[k] == init[k];
        }
      }
    }
  }

  /**
   * The hull is the smallest box holding the points: any box that contains
   * every point also contains the hull's two corners.
   */
  lemma {:induction false} HullIsSmallest(pts: seq<Vec3>, b: Box)
    requires forall k :: 0 <= k < |pts| ==> b.Contains(pts[k])
    ensures Hull(pts).Box? ==> b.Contains(Hull(pts).lower) && b.Contains(Hull(pts).upper)
  {
    if pts != [] {
      var init := pts[..|pts| - 1];
      forall k | 0 <= k < |init| ensures b.Contains(init[k]) {
        assert init[k] == pts[k];
      }
      HullIsSmallest(init, b);
      assert b.Contains(pts[|pts| - 1]);
    }
  }
}
