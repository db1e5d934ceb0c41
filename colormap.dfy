/**
 * The importer's colour map: piecewise-linear interpolation over a palette,
 * clamped at both ends of the scalar range [lo, hi], with alpha 1.
 */
module ColorMaps {
  import opened Geometry

  /** The "cool to warm" palette the constructor pushes, in order. */
  const CoolToWarmPalette: seq<Vec3> := [
    Vec3(0.231373, 0.298039, 0.752941),
    Vec3(0.865003, 0.865003, 0.865003),
    Vec3(0.705882, 0.0156863, 0.14902)
  ]

  /** C++ `int(r)`: conversion to int truncates toward zero. */
  function Trunc(r: real): int {
    if r >= 0.0 then r.Floor else -((-r).Floor)
  }

  /** A struct that is never changed after construction, so a value here. */
  datatype ColorMap = ColorMap(lo: real, hi: real, color: seq<Vec3>) {

    /** Where `f` falls on the palette's index range [0, |color| - 1]. */
    function Position(f: real): real
      requires lo != hi
    {
      ((f - lo) * (|color| - 1) as real) / (hi - lo)
    }

    /** Strictly inside (lo, hi), the position is strictly inside (0, |color| - 1). */
    lemma PositionInside(f: real)
      requires |color| >= 2 && lo < f < hi
      ensures 0.0 < Position(f) < (|color| - 1) as real
    {
      ScaledInside(f - lo, hi - lo, (|color| - 1) as real);
    }

    /**
     * colorFor. Values at or below lo take the first colour, values at or
     * above hi the last; in between the index `int(r)` is at most
     * |color| - 2 because f < hi (not because of the clamp, which compares
     * against |color|), so `color[idx + 1]` exists, and the result blends
     * `color[idx]` and `color[idx + 1]` by a fraction in [0, 1).
     */
    function ColorFor(f: real): (c: Vec4)
      requires |color| >= 2
      ensures c.w == 1.0
      ensures f <= lo ==> c.xyz == color[0]
      ensures lo < f && hi <= f ==> c.xyz == color[|color| - 1]
      ensures lo < f < hi ==>
        var r := Position(f);
        var k := r.Floor;
        && 0.0 < r < (|color| - 1) as real
        && 0 <= k <= |color| - 2
        && 0.0 <= r - k as real < 1.0
        && c.xyz == Lerp(color[k], color[k + 1], r - k as real)
    {
      if f <= lo then Vec4(color[0], 1.0)
      else if f >= hi then Vec4(color[|color| - 1], 1.0)
      else
        var r := Position(f);
        PositionInside(f);
        FloorBelow(r, |color| - 1);
        var idx0 := Trunc(r);
        var idx1 := if idx0 < 0 then 0 else idx0;
        var idx := if idx1 >= |color| then |color| - 2 else idx1;
        Vec4(color[idx].Plus(color[idx + 1].Minus(color[idx]).Scale(r - idx as real)), 1.0)
    }
  }

  /** The constructor: it demands lo <= hi (its assert) and pushes the cool-to-warm palette. */
  function CoolToWarm(lo: real, hi: real): (cm: ColorMap)
    requires lo <= hi
    ensures cm.lo == lo && cm.hi == hi && cm.color == CoolToWarmPalette && |cm.color| == 3
  {
    ColorMap(lo, hi, CoolToWarmPalette)
  }

  /**
   * With lo == hi the division is never reached: values up to lo take the
   * first colour and values above it the last.
   */
  lemma DegenerateRange(cm: ColorMap, f: real)
    requires |cm.color| >= 2 && cm.lo == cm.hi
    ensures cm.ColorFor(f) == Vec4(if f <= cm.lo then cm.color[0] else cm.color[|cm.color| - 1], 1.0)
  {
  }

  /**
   * At the k-th knot of the range, lo + k * (hi - lo) / (|color| - 1), the
   * map returns exactly the k-th palette entry, for every k including both ends.
   */
  lemma ColorAtKnot(cm: ColorMap, k: nat)
    requires |cm.color| >= 2 && cm.lo < cm.hi && k < |cm.color|
    ensures cm.ColorFor(cm.lo + (cm.hi - cm.lo) * k as real / (|cm.color| - 1) as real) == Vec4(cm.color[k], 1.0)
  {
    KnotPlace(cm, k);
    if 0 < k < |cm.color| - 1 {
      InteriorKnot(cm, k, cm.lo + (cm.hi - cm.lo) * k as real / (|cm.color| - 1) as real);
    }
  }

  /** Where the k-th knot lies: at hi for the last, strictly inside at position k otherwise. */
  lemma KnotPlace(cm: ColorMap, k: nat)
    requires |cm.color| >= 2 && cm.lo < cm.hi && k < |cm.color|
    ensures var f := cm.lo + (cm.hi - cm.lo) * k as real / (|cm.color| - 1) as real;
      && (k == |cm.color| - 1 ==> f == cm.hi)
      && (0 < k < |cm.color| - 1 ==> cm.lo < f < cm.hi && cm.Position(f) == k as real)
  {
    var d := cm.hi - cm.lo;
    var m := (|cm.color| - 1) as real;
    if k == |cm.color| - 1 {
      assert d * m / m == d;
    } else if 0 < k {
      KnotArithmetic(d, m, k as real);
    }
  }

  lemma InteriorKnot(cm: ColorMap, k: nat, f: real)
    requires |cm.color| >= 2 && cm.lo < f < cm.hi && 0 < k < |cm.color| - 1
    requires cm.Position(f) == k as real
    ensures cm.ColorFor(f) == Vec4(cm.color[k], 1.0)
  {
    var c := cm.ColorFor(f);
    assert cm.Position(f).Floor == k;
    assert c.xyz == Lerp(cm.color[k], cm.color[k + 1], 0.0);
  }

  /** The k-th knot lies strictly inside the range and maps back to position k. */
  lemma KnotArithmetic(d: real, m: real, k: real)
    requires 0.0 < d && 0.0 < k < m
    ensures 0.0 < d * k / m < d
    ensures ((d * k / m) * m) / d == k
  {
    var a := d * k / m;
    assert a * m == d * k;
    assert 0.0 < d * k;
    assert d * k < d * m by { assert d * (m - k) > 0.0; }
    assert (a - d) * m == a * m - d * m;
    assert (a - d) * m < 0.0;
  }

  /** In the cool-to-warm map the middle of a proper range is exactly the middle colour. */
  lemma CoolToWarmMidpoint(lo: real, hi: real)
    requires lo < hi
    ensures CoolToWarm(lo, hi).ColorFor((lo + hi) / 2.0) == Vec4(CoolToWarmPalette[1], 1.0)
  {
    var cm := CoolToWarm(lo, hi);
    var f := (lo + hi) / 2.0;
    MidpointPosition(lo, hi);
    assert cm.Position(f) == ((f - lo) * 2.0) / (hi - lo);
    InteriorKnot(cm, 1, f);
  }

  lemma MidpointPosition(lo: real, hi: real)
    requires lo < hi
    ensures lo < (lo + hi) / 2.0 < hi
    ensures ((((lo + hi) / 2.0) - lo) * 2.0) / (hi - lo) == 1.0
  {
    assert (((lo + hi) / 2.0) - lo) * 2.0 == hi - lo;
  }

  /** A blend with a fraction in [0, 1] stays in every box that holds both ends. */
  lemma LerpInBox(a: Vec3, b: Vec3, t: real, low: Vec3, high: Vec3)
    requires 0.0 <= t <= 1.0
    requires low.Le(a) && a.Le(high) && low.Le(b) && b.Le(high)
    ensures low.Le(Lerp(a, b, t)) && Lerp(a, b, t).Le(high)
  {
    var c := Lerp(a, b, t);
    BlendBetween(a.x, b.x, t);
    assert c.x == a.x + t * (b.x - a.x);
    BlendBetween(a.y, b.y, t);
    assert c.y == a.y + t * (b.y - a.y);
    BlendBetween(a.z, b.z, t);
    assert c.z == a.z + t * (b.z - a.z);
  }

  lemma BlendBetween(a: real, b: real, t: real)
    requires 0.0 <= t <= 1.0
    ensures Min(a, b) <= a + t * (b - a) <= Max(a, b)
  {
    FractionOf(t, b - a, t * (b - a));
  }

  /** A fraction in [0, 1] of a length lies between 0 and that length. */
  lemma FractionOf(t: real, d: real, u: real)
    requires 0.0 <= t <= 1.0 && u == t * d
    ensures 0.0 <= d ==> 0.0 <= u <= d
    ensures d <= 0.0 ==> d <= u <= 0.0
  {
    assert d - u == (1.0 - t) * d;
  }

  /** Every colour the map produces lies in any box that holds the whole palette. */
  lemma ColorWithinPalette(cm: ColorMap, f: real, low: Vec3, high: Vec3)
    requires |cm.color| >= 2
    requires forall i :: 0 <= i < |cm.color| ==> low.Le(cm.color[i]) && cm.color[i].Le(high)
    ensures low.Le(cm.ColorFor(f).xyz) && cm.ColorFor(f).xyz.Le(high)
  {
    if cm.lo < f < cm.hi {
      var c := cm.ColorFor(f);
      var r := cm.Position(f);
      var k := r.Floor;
      LerpInBox(cm.color[k], cm.color[k + 1], r - k as real, low, high);
    }
  }

  /** A position strictly inside (0, m) truncates to an index in [0, m - 1]. */
  lemma FloorBelow(r: real, m: int)
    requires 0.0 < r < m as real
    ensures Trunc(r) == r.Floor && 0 <= r.Floor < m
    ensures 0.0 <= r - r.Floor as real < 1.0
  {
  }

  /** Strictly between 0 and d, scaled by k / d: strictly between 0 and k. */
  lemma ScaledInside(a: real, d: real, k: real)
    requires 0.0 < a < d && 0.0 < k
    ensures 0.0 < (a * k) / d < k
  {
    assert 0.0 < a * k;
    assert (d - a) * k > 0.0;
    assert a * k < d * k;
    assert (d * k) / d == k;
  }
}
