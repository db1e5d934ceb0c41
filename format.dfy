/**
 * Decoding of the importer's configuration: the sphere radius and the format
 * string that says which float of a record holds x, y, z, the radius (r) and
 * the scalar (s). The arguments arrive already decoded from the URL.
 */
module Format {
  import opened Wrappers

  /** The radius used when the URL gives none. */
  const DefaultRadius: real := 0.1
  /** The format used when the URL gives none. */
  const DefaultFormat: string := "xyz"

  /** The three ways configuration fails, each a `runtime_error` in the C++ code. */
  datatype ConfigError = ZeroRadius | NoX | NoY | NoZ

  /** `i` is where `c` first occurs in `s`. */
  predicate IsFirst(s: string, c: char, i: nat) {
    i < |s| && s[i] == c && forall j :: 0 <= j < i ==> s[j] != c
  }

  /** `o` is what `std::string::find` returns: the first occurrence, or npos (None). */
  predicate Locates(s: string, c: char, o: Option<nat>) {
    match o
    case None => c !in s
    case Some(i) => IsFirst(s, c, i)
  }

  /** `std::string::find` of a one-character string: the first occurrence wins. */
  function Find(s: string, c: char): (r: Option<nat>)
    ensures Locates(s, c, r)
  {
    if s == [] then None
    else if s[0] == c then Some(0)
    else
      match Find(s[1..], c)
      case None => None
      case Some(i) => Some(i + 1)
  }

  /** Record arity and the offset of each field; absent r and s are None. */
  datatype Layout = Layout(arity: nat, xPos: nat, yPos: nat, zPos: nat, rPos: Option<nat>, sPos: Option<nat>) {

    /** Every offset indexes a float of the record. */
    predicate Fits() {
      && xPos < arity && yPos < arity && zPos < arity
      && (rPos.Some? ==> rPos.value < arity)
      && (sPos.Some? ==> sPos.value < arity)
    }

    /** Offsets of different fields never coincide. */
    predicate Distinct() {
      && xPos != yPos && yPos != zPos && xPos != zPos
      && (rPos.Some? ==> rPos.value !in {xPos, yPos, zPos})
      && (sPos.Some? ==> sPos.value !in {xPos, yPos, zPos})
      && (rPos.Some? && sPos.Some? ==> rPos.value != sPos.value)
    }
  }

  /**
   * The format decoding of importFileType_points: the arity is the length of
   * the string, every offset is the first occurrence of its tag, and a
   * missing x, y or z is reported, checked in that order.
   */
  function ParseFormat(format: string): (r: Result<Layout, ConfigError>)
    ensures r.Success? <==> 'x' in format && 'y' in format && 'z' in format
    ensures r == Failure(NoX) <==> 'x' !in format
    ensures r == Failure(NoY) <==> 'x' in format && 'y' !in format
    ensures r == Failure(NoZ) <==> 'x' in format && 'y' in format && 'z' !in format
    ensures r.Success? ==>
      && r.value.arity == |format|
      && IsFirst(format, 'x', r.value.xPos)
      && IsFirst(format, 'y', r.value.yPos)
      && IsFirst(format, 'z', r.value.zPos)
      && Locates(format, 'r', r.value.rPos)
      && Locates(format, 's', r.value.sPos)
      && r.value.Fits() && r.value.Distinct()
  {
    var xPos := Find(format, 'x');
    var yPos := Find(format, 'y');
    var zPos := Find(format, 'z');
    var rPos := Find(format, 'r');
    var sPos := Find(format, 's');
    if xPos.None? then Failure(NoX)
    else if yPos.None? then Failure(NoY)
    else if zPos.None? then Failure(NoZ)
    else Success(Layout(|format|, xPos.value, yPos.value, zPos.value, rPos, sPos))
  }

  /** The configured radius and the decoded layout. */
  datatype Settings = Settings(radius: real, layout: Layout)

  /** The radius in effect: the URL's, or 0.1. */
  function RadiusOf(radiusArg: Option<real>): real { radiusArg.GetOr(DefaultRadius) }

  /** The format in effect: the URL's, or "xyz". */
  function FormatOf(formatArg: Option<string>): string { formatArg.GetOr(DefaultFormat) }

  /**
   * The configuration steps of importFileType_points. A radius of exactly 0 is
   * refused before the format is looked at, whatever the format says; any
   * other radius, negative ones included, is kept. Then the format is decoded.
   */
  function Configure(radiusArg: Option<real>, formatArg: Option<string>): (r: Result<Settings, ConfigError>)
    ensures r == Failure(ZeroRadius) <==> RadiusOf(radiusArg) == 0.0
    ensures RadiusOf(radiusArg) != 0.0 ==>
      && (r.Success? <==> ParseFormat(FormatOf(formatArg)).Success?)
      && (r.Failure? ==> r.error == ParseFormat(FormatOf(formatArg)).error)
      && (r.Success? ==> r.value.layout == ParseFormat(FormatOf(formatArg)).value)
    ensures r.Success? ==> r.value.radius == RadiusOf(radiusArg)
  {
    var radius := RadiusOf(radiusArg);
    if radius == 0.0 then Failure(ZeroRadius)
    else
      match ParseFormat(FormatOf(formatArg))
      case Failure(e) => Failure(e)
      case Success(layout) => Success(Settings(radius, layout))
  }

  /** With no URL arguments the layout is x, y, z at offsets 0, 1, 2, with no r and no s. */
  lemma DefaultConfiguration()
    ensures Configure(None, None) == Success(Settings(0.1, Layout(3, 0, 1, 2, None, None)))
  {
    assert DefaultFormat[0] == 'x' && DefaultFormat[1] == 'y' && DefaultFormat[2] == 'z';
  }
}
