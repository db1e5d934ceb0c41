# Points importer model

A Dafny model of the "points" importer of the OSPRay scene graph
(`importFileType_points` in `apps/common/sg/importer/importPoints.cpp`). The
importer reads a file of fixed-arity float records and builds one sphere per
record. A format string such as `"xyzr"` or `"xyzs"` says which float of a
record is x, y, z, the radius (r) and the scalar (s). While reading, the
importer grows a bounding box around every sphere. When the format has an
`s`, it also collects the scalars with their running minimum and maximum,
and afterwards colours each scalar with a three-entry "cool to warm" colour
map.

Modules, one per component of the source file:

- `Wrappers` (wrappers.dfy): `Option` and `Result`. A C++ `throw` becomes a `Failure`.
- `Geometry` (geometry.dfy): `vec3f`, `vec4f` and `box3f`. `Box.Empty` stands for
  the default box (lower = +inf, upper = -inf), and `Hull` is a box extended point by point.
- `Format` (format.dfy): the configured radius and the decoding of the format
  string into a `Layout`, an arity plus an offset per field.
- `ColorMaps` (colormap.dfy): `ColorMap` and `colorFor`. The C++ struct is built on
  the stack and never changed after construction, so it is a datatype here.
  Its constructor is `CoolToWarm`.
- `Reader` (reader.dfy): `readOne`. The `FILE` is a class holding the file's
  floats (binary mode) or the outcomes of its successive `fscanf("%f")` calls
  (ASCII mode), plus a read position. A second ASCII reader beside it tells
  end of input apart from a malformed record (see Findings).
- `Importer` (importer.dfy): the read loop (`ReadPoints`), the colour loop
  (`ColorScalars`) and the whole import (`ImportPoints`).

The read loop runs over the records for which `readOne` returned true, in
order. For a binary file these are `Reader.BinaryRecords`, as
`Reader.ReadAllBinary` proves by calling `readOne` until it returns false. For
a text file read with the corrected reader they are `Reader.TextRecords`, as
`Reader.ReadAllText` proves.

Behaviour of the code worth knowing:

- Radius: only a radius of exactly 0 is refused. Negative radii are kept. The check
  runs before the format is decoded, even when the format has an `r` field.
- Binary mode: a trailing partial record does not raise an error. `fread` returns
  fewer than N floats, `readOne` returns false and the loop simply ends.
- ASCII mode: `readOne` returns false only on a matching failure at field i > 0
  (see Findings).
- `lo == hi` in the colour map: values up to `lo` get the first colour and
  values above it get the last.

## Model

| member | source | states |
|---|---|---|
| `Format.Find` | apps/common/sg/importer/importPoints.cpp:114-118 | `std::string::find` of one character: the result is the first index holding the character, or None when it does not occur |
| `Format.ParseFormat` | apps/common/sg/importer/importPoints.cpp:113-125 | arity is the format's length; each of x, y, z, r, s sits at its first occurrence, inside the record, at distinct offsets; a missing x, y or z fails, checked in that order; a missing r or s is not an error |
| `Format.Configure` | apps/common/sg/importer/importPoints.cpp:99-125 | the radius defaults to 0.1; a radius of exactly 0 fails before and regardless of the format; any other radius, negative included, is kept; the format (default "xyz") then decides the remaining errors and the layout |
| `Format.DefaultConfiguration` | apps/common/sg/importer/importPoints.cpp:99-118 | with no arguments: radius 0.1, arity 3, x, y, z at 0, 1, 2, no r, no s |
| `Geometry.Box.Extend` | apps/common/sg/importer/importPoints.cpp:145-146 | the extended box holds the new point and everything the old box held |
| `Geometry.Hull` | apps/common/sg/importer/importPoints.cpp:128-146 | a box extended by a sequence of points is empty iff the sequence is |
| `Geometry.HullContains` | apps/common/sg/importer/importPoints.cpp:145-146 | the box holds every point it was extended by |
| `Geometry.HullIsSmallest` | apps/common/sg/importer/importPoints.cpp:145-146 | any box holding all the points holds the extended box's corners: the bounds are the union, not larger |
| `ColorMaps.ColorMap.ColorFor` | apps/common/sg/importer/importPoints.cpp:50-62 | alpha is 1; f <= lo gives the first colour, f >= hi (f > lo) the last; otherwise the position r (`ColorMap.Position`, line 55) lies in (0, N-1), so idx = int(r) (`Trunc`, line 56) lies in [0, N-2] and `color[idx+1]` exists, and the result blends `color[idx]` and `color[idx+1]` by a fraction in [0, 1) |
| `ColorMaps.ColorMap.PositionInside` | apps/common/sg/importer/importPoints.cpp:53-55 | for lo < f < hi the position (f-lo)(N-1)/(hi-lo) is strictly inside (0, N-1); this comes from f < hi, not from the clamp |
| `ColorMaps.FloorBelow` | apps/common/sg/importer/importPoints.cpp:56-58 | a position in (0, m) truncates to an index in [0, m-1]; `int()` equals the floor there, so neither clamp fires |
| `ColorMaps.CoolToWarm` | apps/common/sg/importer/importPoints.cpp:29-48 | the constructor demands lo <= hi (its assert), keeps lo and hi, and installs exactly the three colours of lines 45-47 (`CoolToWarmPalette`) |
| `ColorMaps.DegenerateRange` | apps/common/sg/importer/importPoints.cpp:52-53 | with lo == hi the division is never reached: first colour for f <= lo, last colour otherwise |
| `ColorMaps.ColorAtKnot` | apps/common/sg/importer/importPoints.cpp:52-61 | at lo + k(hi-lo)/(N-1) the map returns exactly palette entry k, for every k from 0 to N-1 |
| `ColorMaps.CoolToWarmMidpoint` | apps/common/sg/importer/importPoints.cpp:44-61 | with the 3-colour palette, f = (lo+hi)/2 gives exactly the middle colour |
| `ColorMaps.ColorWithinPalette` | apps/common/sg/importer/importPoints.cpp:60-61 | every colour produced lies in any box that holds the whole palette |
| `Reader.BinaryRecordsShape` | apps/common/sg/importer/importPoints.cpp:70-71 | a binary stream yields floor(len/N) records; record k is floats kN to kN+N-1; fewer than N floats are left unread as a record |
| `Reader.ReadOneBinary` | apps/common/sg/importer/importPoints.cpp:68-71 | `fread` from the `FILE` (`Reader.BinaryFile`) copies what is available; the call returns true iff exactly N floats were read; then the buffer is the next record of `BinaryRecords`, and otherwise the file is exhausted |
| `Reader.ReadAllBinary` | apps/common/sg/importer/importPoints.cpp:134 | `while (readOne(...))` in binary mode collects exactly `BinaryRecords` of the file and leaves it exhausted |
| `Reader.TextFile.ScanFloat` | apps/common/sg/importer/importPoints.cpp:75 | one `fscanf("%f")` on the `FILE` (`Reader.TextFile`) returns the next outcome, and EOF once the outcomes are used up |
| `Reader.FirstStop` | apps/common/sg/importer/importPoints.cpp:74-76 | the field at which the ASCII loop stops: the first field among the next N whose outcome is a stopping one, or N |
| `Reader.ReadOneAscii` | apps/common/sg/importer/importPoints.cpp:73-79 | fields are scanned in order into the buffer up to the first matching failure; an EOF stores nothing and does not stop the loop; the result is `i == 0` at a matching failure, true otherwise |
| `Reader.AsciiFalseOnlyMidRecord` | apps/common/sg/importer/importPoints.cpp:74-79 | ASCII `readOne` returns false iff the first matching failure happens at a field i with 0 < i < N |
| `Reader.AsciiTrueAtEndOfFile` | apps/common/sg/importer/importPoints.cpp:74-79 | at end of file ASCII `readOne` returns true and leaves the buffer unchanged |
| `Reader.AsciiTrueOnFirstFieldFailure` | apps/common/sg/importer/importPoints.cpp:76 | a matching failure on the first field returns true with the buffer untouched |
| `Reader.ReadOneAsciiChecked` | apps/common/sg/importer/importPoints.cpp:73-79 | corrected reader: any non-parsed outcome stops the record; this is a clean end on the first field and a malformed record later; a record means all N fields were parsed into the buffer, which is then the first of `TextRecords` while the outcomes left yield the rest |
| `Reader.ReadAllText` | apps/common/sg/importer/importPoints.cpp:134 | `while (readOne(...))` with the corrected reader collects exactly `TextRecords` of the file, and ends with its status |
| `Reader.CheckedRecordIsWhole` | apps/common/sg/importer/importPoints.cpp:74-76 | the corrected reader reports a record only when all N upcoming outcomes are parsed values |
| `Reader.CheckedEndsAtEndOfFile` | apps/common/sg/importer/importPoints.cpp:74-76 | at end of file the corrected reader reports end of stream |
| `Reader.TextMatchesBinary` | apps/common/sg/importer/importPoints.cpp:68-79 | the text rendering of a float stream yields the same records as the binary stream, ending cleanly iff the records use up every float |
| `Importer.Corners` | apps/common/sg/importer/importPoints.cpp:145-146 | the points the bounds are extended by: position - radius (`Sphere.LowCorner`) then position + radius (`Sphere.HighCorner`) of each sphere, in order |
| `Importer.RangeOf` | apps/common/sg/importer/importPoints.cpp:131-151 | the running min/max, each step the `std::min`/`std::max` of lines 150-151 (`Importer.Include`), is empty iff there are no scalars; otherwise min <= max, both are members, and every scalar lies between them |
| `Importer.ReadPoints` | apps/common/sg/importer/importPoints.cpp:134-153 | one sphere per record at (f[x], f[y], f[z]), radius f[r] if present else the configured one; the box contains both corners of every sphere and is empty iff no record was read; scalars in lockstep iff s is present (length 0 or the sphere count); the running min/max brackets them |
| `Importer.LoadedStep` | apps/common/sg/importer/importPoints.cpp:136-152 | one loop turn (push the sphere, extend by both corners, push the scalar, update min/max) keeps the loop's description valid for one more record |
| `Importer.BoundsAreSmallest` | apps/common/sg/importer/importPoints.cpp:128-146 | the reported bounds lie inside every box that holds both corners of every sphere |
| `Importer.ColorScalars` | apps/common/sg/importer/importPoints.cpp:172-173 | one colour per scalar, same length and order, each `colorFor` of its scalar |
| `Importer.ImportPoints` | apps/common/sg/importer/importPoints.cpp:99-176 | configuration errors are exactly those of `Configure`; on success the read loop's spheres, bounds and scalars; a colour buffer exists iff a scalar was collected, of the scalars' length, each the cool-to-warm colour over [min, max], whose construction meets lo <= hi |

## Left out

- File I/O: `fopen`, the open failure, `fread` and `fscanf` on real bytes, the
  `fscanf(file, "\n")` whitespace skip, and `fclose`. The files are given as a
  float sequence (binary) or a sequence of per-call `fscanf` outcomes (ASCII).
  The handle left open when a configuration error is thrown after `fopen` is not modelled.
- `Importer.ImportPoints`: runs the read loop over the records for which `readOne`
  returned true, not over a file. Because of this it cannot show that the real ASCII
  loop never ends at end of file. That behaviour is stated on the reader instead
  (`Reader.AsciiTrueAtEndOfFile`).
- URL and argument parsing (`FormatURL`, `hasArg`, `std::stof`): the radius, the
  format and the ascii flag arrive already decoded.
- The scene-graph calls `createChild`, `setName` and `add`: the buffers they
  receive are returned in `Importer.Scene`.
- Logging to `std::cout` and `prettyNumber`.
- Float rounding, NaN and infinity: floats are reals. The ±infinity start of
  the running min/max becomes `ScalarRange.NoScalars`, and the empty `box3f` becomes `Box.Empty`.
- The `alloca` buffer is the `array<real>` passed to `readOne`. It is only as large as the arity.
- `ColorMaps.CoolToWarm`: builds the palette as a value, not by three `push_back`s
  into the `color` field. The struct's fields never change after construction.
- `Reader.TextFile.ScanFloat`: a `NoMatch` outcome is used up like any other. A real
  `fscanf("%f")` matching failure leaves the offending character in the stream, so the
  outcomes after a `NoMatch` are not constrained to repeat it.
- The commented-out eight-colour palette in the `ColorMap` constructor.
- `ospray/common/tasking/parallel_for.h` is not part of this model. It is a fork-join wrapper
  over TBB, Cilk or OpenMP, and the importer does not use it.

## Findings

| source | as written | input that shows it | evidently intended | confidence | as-written member | corrected member |
|---|---|---|---|---|---|---|
| apps/common/sg/importer/importPoints.cpp:74-79 | ASCII `readOne` tests only `rc == 0`. At end of input `fscanf` returns EOF (-1), so every field "succeeds" without storing anything and the call returns true. A matching failure on the first field also returns true, and since `fscanf` leaves the offending character in the stream, every later call fails the same way and the loop also runs forever, re-appending the stale sphere. | A text file `0 0 1` with format `xyz`. The first call reads (0, 0, 1). The second call meets EOF on all three fields, returns true and leaves the buffer as (0, 0, 1). The `while (readOne(...))` loop appends that sphere again on every turn and never ends. | A non-parsed outcome on the first field ends the stream cleanly. One on a later field is a malformed record. | high; not executed | `Reader.AsciiTrueAtEndOfFile` | `Reader.ReadOneAsciiChecked` |
