/**
 * importFileType_points: configuration, the loop that turns each record into
 * a sphere while growing the bounds and collecting the scalar field, and the
 * colouring of the scalars once their range is known.
 *
 * The loop runs over the records for which readOne returned true, in order.
 * For a binary file these are BinaryRecords (Reader.ReadAllBinary), and for a
 * text file read with the corrected reader TextRecords (Reader.ReadAllText).
 */
module Importer {
  import opened Wrappers
  import opened Geometry
  import opened Format
  import opened ColorMaps

  /** Spheres::Sphere: a centre and a radius (taken as given, negative included). */
  datatype Sphere = Sphere(center: Vec3, radius: real) {
    /** `position - radius`, the first corner the bounds are extended by. */
    function LowCorner(): Vec3 { center.SubScalar(radius) }
    /** `position + radius`, the second. */
    function HighCorner(): Vec3 { center.AddScalar(radius) }
  }

  /** The points the bounds are extended by, in order: each sphere's low corner, then its high one. */
  function Corners(spheres: seq<Sphere>): (c: seq<Vec3>)
    ensures |c| == 2 * |spheres|
    ensures forall k :: 0 <= k < |spheres| ==>
      c[2 * k] == spheres[k].LowCorner() && c[2 * k + 1] == spheres[k].HighCorner()
  {
    if spheres == [] then []
    else
      var last := spheres[|spheres| - 1];
      var init := spheres[..|spheres| - 1];
      assert forall k :: 0 <= k < |init| ==> init[k] == spheres[k];
      Corners(init) + [last.LowCorner(), last.HighCorner()]
  }

  /**
   * The running minimum and maximum of the scalars. The C++ code starts them
   * at +infinity and -infinity; `NoScalars` stands for that state.
   */
  datatype ScalarRange = NoScalars | Range(min: real, max: real)

  /** One step of the running min/max: std::min and std::max with the new value. */
  function Include(rg: ScalarRange, v: real): ScalarRange {
    match rg
    case NoScalars => Range(v, v)
    case Range(lo, hi) => Range(Min(lo, v), Max(hi, v))
  }

  /** `rg` is the range of `scalars`: empty for none, otherwise a smallest and a largest member. */
  ghost predicate Summarises(rg: ScalarRange, scalars: seq<real>) {
    && (rg.NoScalars? <==> scalars == [])
    && (rg.Range? ==>
          && rg.min <= rg.max
          && rg.min in scalars && rg.max in scalars
          && forall v :: v in scalars ==> rg.min <= v <= rg.max)
  }

  /** The running min/max after every scalar of `scalars`, in order. */
  function RangeOf(scalars: seq<real>): (rg: ScalarRange)
    ensures Summarises(rg, scalars)
  {
    if scalars == [] then NoScalars
    else
      var init := scalars[..|scalars| - 1];
      var v := scalars[|scalars| - 1];
      assert scalars == init + [v];
      Include(RangeOf(init), v)
  }

  /** Every record holds one float per format character, and every offset indexes one. */
  predicate Fits(st: Settings, records: seq<seq<real>>) {
    st.layout.Fits() && forall k :: 0 <= k < |records| ==> |records[k]| == st.layout.arity
  }

  /** The scalar field of every record, in order, when the format has an `s`; none otherwise. */
  function ScalarsOf(st: Settings, records: seq<seq<real>>): seq<real>
    requires Fits(st, records)
  {
    match st.layout.sPos
    case None => []
    case Some(s) => seq(|records|, k requires 0 <= k < |records| => records[k][s])
  }

  /** What the read loop has built once it has gone through `records`. */
  datatype Points = Points(spheres: seq<Sphere>, bounds: Box, scalars: seq<real>, range: ScalarRange)

  /**
   * One sphere per record, centred at its x, y, z fields, with its r field as
   * radius when the format has one and the configured radius otherwise.
   */
  ghost predicate SpheresFrom(st: Settings, records: seq<seq<real>>, spheres: seq<Sphere>) {
    && Fits(st, records)
    && |spheres| == |records|
    && (forall k :: 0 <= k < |records| ==>
          spheres[k].center == Vec3(records[k][st.layout.xPos], records[k][st.layout.yPos], records[k][st.layout.zPos]))
    && (forall k :: 0 <= k < |records| ==>
          spheres[k].radius == match st.layout.rPos { case None => st.radius case Some(r) => records[k][r] })
  }

  /**
   * `p` is what the loop builds from `records`: the spheres, the bounds
   * extended by both corners of every sphere in turn, the scalars and their
   * running min/max.
   */
  ghost predicate Loaded(st: Settings, records: seq<seq<real>>, p: Points) {
    && SpheresFrom(st, records, p.spheres)
    && p.bounds == Hull(Corners(p.spheres))
    && p.scalars == ScalarsOf(st, records)
    && p.range == RangeOf(p.scalars)
  }

  /** Extending by a sphere's two corners is extending the hull of the corners so far. */
  lemma HullStep(spheres: seq<Sphere>, s: Sphere)
    ensures Hull(Corners(spheres + [s])) == Hull(Corners(spheres)).Extend(s.LowCorner()).Extend(s.HighCorner())
  {
    var c := Corners(spheres);
    var c2 := Corners(spheres + [s]);
    assert (spheres + [s])[..|spheres|] == spheres;
    assert c2 == c + [s.LowCorner(), s.HighCorner()];
    assert c2[..|c2| - 1] == c + [s.LowCorner()];
    assert (c + [s.LowCorner()])[..|c|] == c;
  }

  /**
   * The read loop of importFileType_points (the `while (readOne(...))` body):
   * exactly one sphere per record, the scalar vector in lockstep when the
   * format has an `s`, bounds that hold both corners of every sphere and are
   * empty only when nothing was read, and a running min/max that brackets
   * every scalar and is attained by some.
   */
  method ReadPoints(st: Settings, records: seq<seq<real>>) returns (p: Points)
    requires Fits(st, records)
    ensures Loaded(st, records, p)
    ensures |p.scalars| == (if st.layout.sPos.Some? then |p.spheres| else 0)
    ensures forall k :: 0 <= k < |p.spheres| ==>
      p.bounds.Contains(p.spheres[k].LowCorner()) && p.bounds.Contains(p.spheres[k].HighCorner())
    ensures p.bounds.Empty? <==> records == []
    ensures Summarises(p.range, p.scalars)
  {
    var L := st.layout;
    var spheres: seq<Sphere> := [];
    var bounds := Empty;
    var scalars: seq<real> := [];
    var range := NoScalars;
    var i := 0;
    while i < |records|
      invariant 0 <= i <= |records|
      invariant Loaded(st, records[..i], Points(spheres, bounds, scalars, range))
    {
      var f := records[i];
      var radius := match L.rPos { case None => st.radius case Some(r) => f[r] };
      var s := Sphere(Vec3(f[L.xPos], f[L.yPos], f[L.zPos]), radius);
      ghost var before := Points(spheres, bounds, scalars, range);
      spheres := spheres + [s];
      bounds := bounds.Extend(s.LowCorner());
      bounds := bounds.Extend(s.HighCorner());
      if L.sPos.Some? {
        scalars := scalars + [f[L.sPos.value]];
        range := Include(range, f[L.sPos.value]);
      }
      LoadedStep(st, records, i, before, s);
      i := i + 1;
    }
    assert records[..i] == records;
    p := Points(spheres, bounds, scalars, range);
    HullContains(Corners(spheres));
  }

  /** One turn of the read loop keeps `Loaded` for one more record. */
  lemma LoadedStep(st: Settings, records: seq<seq<real>>, i: nat, p: Points, s: Sphere)
    requires i < |records| && Fits(st, records) && Loaded(st, records[..i], p)
    requires var f := records[i];
      && s.center == Vec3(f[st.layout.xPos], f[st.layout.yPos], f[st.layout.zPos])
      && s.radius == match st.layout.rPos { case None => st.radius case Some(r) => f[r] }
    ensures var f := records[i];
      var scalars := if st.layout.sPos.Some? then p.scalars + [f[st.layout.sPos.value]] else p.scalars;
      var range := if st.layout.sPos.Some? then Include(p.range, f[st.layout.sPos.value]) else p.range;
      Loaded(st, records[..i + 1], Points(p.spheres + [s], p.bounds.Extend(s.LowCorner()).Extend(s.HighCorner()), scalars, range))
  {
    SpheresStep(st, records, i, p.spheres, s);
    HullStep(p.spheres, s);
    ScalarsStep(st, records, i);
    if st.layout.sPos.Some? {
      RangeStep(p.scalars, records[i][st.layout.sPos.value]);
    }
  }

  lemma SpheresStep(st: Settings, records: seq<seq<real>>, i: nat, spheres: seq<Sphere>, s: Sphere)
    requires i < |records| && Fits(st, records) && SpheresFrom(st, records[..i], spheres)
    requires var f := records[i];
      && s.center == Vec3(f[st.layout.xPos], f[st.layout.yPos], f[st.layout.zPos])
      && s.radius == match st.layout.rPos { case None => st.radius case Some(r) => f[r] }
    ensures SpheresFrom(st, records[..i + 1], spheres + [s])
  {
    var prefix := records[..i + 1];
    assert forall k :: 0 <= k < i ==> prefix[k] == records[..i][k];
  }

  lemma ScalarsStep(st: Settings, records: seq<seq<real>>, i: nat)
    requires i < |records| && Fits(st, records)
    ensures ScalarsOf(st, records[..i + 1]) ==
      ScalarsOf(st, records[..i]) + if st.layout.sPos.Some? then [records[i][st.layout.sPos.value]] else []
  {
  }

  lemma RangeStep(scalars: seq<real>, v: real)
    ensures RangeOf(scalars + [v]) == Include(RangeOf(scalars), v)
  {
    assert (scalars + [v])[..|scalars|] == scalars;
  }

  /** The bounds are the smallest box holding both corners of every sphere. */
  lemma BoundsAreSmallest(st: Settings, records: seq<seq<real>>, p: Points, b: Box)
    requires Loaded(st, records, p)
    requires forall k :: 0 <= k < |p.spheres| ==> b.Contains(p.spheres[k].LowCorner()) && b.Contains(p.spheres[k].HighCorner())
    ensures p.bounds.Box? ==> b.Contains(p.bounds.lower) && b.Contains(p.bounds.upper)
  {
    var c := Corners(p.spheres);
    forall j | 0 <= j < |c| ensures b.Contains(c[j]) {
      var k := j / 2;
      assert j == 2 * k || j == 2 * k + 1;
      assert c[2 * k] == p.spheres[k].LowCorner() && c[2 * k + 1] == p.spheres[k].HighCorner();
    }
    HullIsSmallest(c, b);
  }

  /**
   * The colour loop: one colour per scalar, in order, each the colour map's
   * colour for that scalar.
   */
  method ColorScalars(cm: ColorMap, scalars: seq<real>) returns (colors: seq<Vec4>)
    requires |cm.color| >= 2
    ensures |colors| == |scalars|
    ensures forall k :: 0 <= k < |scalars| ==> colors[k] == cm.ColorFor(scalars[k])
  {
    colors := [];
    for i := 0 to |scalars|
      invariant |colors| == i
      invariant forall k :: 0 <= k < i ==> colors[k] == cm.ColorFor(scalars[k])
    {
      colors := colors + [cm.ColorFor(scalars[i])];
    }
  }

  /**
   * The buffers handed to the scene graph: "sphereData" (the points' spheres)
   * and, when there are scalars, "colorData"; plus the bounds that are reported.
   */
  datatype Scene = Scene(points: Points, colorData: Option<seq<Vec4>>)

  /**
   * importFileType_points from configuration to output buffers. The
   * configuration errors are those of Configure. On success the spheres,
   * bounds and scalars are those of the read loop; a colour buffer exists
   * exactly when at least one scalar was collected, and then holds, for each
   * scalar in order, the cool-to-warm colour over the observed [min, max].
   */
  method ImportPoints(radiusArg: Option<real>, formatArg: Option<string>, records: seq<seq<real>>)
    returns (r: Result<Scene, ConfigError>)
    requires forall k :: 0 <= k < |records| ==> |records[k]| == |FormatOf(formatArg)|
    ensures r.Failure? <==> Configure(radiusArg, formatArg).Failure?
    ensures r.Failure? ==> r.error == Configure(radiusArg, formatArg).error
    ensures r.Success? ==>
      var st := Configure(radiusArg, formatArg).value;
      var p := r.value.points;
      && Loaded(st, records, p)
      && (r.value.colorData.Some? <==> p.scalars != [])
      && (r.value.colorData.Some? ==>
            && |r.value.colorData.value| == |p.scalars| == |p.spheres|
            && p.range.Range?
            && forall k :: 0 <= k < |p.scalars| ==>
                 r.value.colorData.value[k] == CoolToWarm(p.range.min, p.range.max).ColorFor(p.scalars[k]))
  {
    var config := Configure(radiusArg, formatArg);
    if config.Failure? {
      return Failure(config.error);
    }
    var st := config.value;
    var p := ReadPoints(st, records);
    var colorData := None;
    if p.scalars != [] {
      var cm := CoolToWarm(p.range.min, p.range.max);
      var colors := ColorScalars(cm, p.scalars);
      colorData := Some(colors);
    }
    return Success(Scene(p, colorData));
  }
}
