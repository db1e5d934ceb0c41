/**
 * readOne: one fixed-arity record of floats from an open file, in binary
 * (fread) or ASCII (fscanf "%f" per field) mode. The FILE is abstracted: a
 * binary file is the sequence of floats it holds, an ASCII file the sequence
 * of outcomes its successive fscanf("%f") calls produce.
 */
module Reader {

  function MinNat(a: nat, b: nat): nat { if a <= b then a else b }

  // ---------------------------------------------------------------------------
  // Binary mode
  // ---------------------------------------------------------------------------

  /** A binary file opened for reading: its floats and the read position. */
  class BinaryFile {
    const data: seq<real>
    var pos: nat

    ghost predicate Valid()
      reads this
    {
      pos <= |data|
    }

    /** The floats not read yet. */
    function Remaining(): seq<real>
      reads this
      requires Valid()
    {
      data[pos..]
    }

    constructor Open(contents: seq<real>)
      ensures Valid() && data == contents && Remaining() == contents
    {
      data := contents;
      pos := 0;
    }
  }

  /**
   * The full records of a binary stream, in order: successive runs of `n`
   * floats. A trailing run shorter than `n` yields no record.
   */
  function BinaryRecords(data: seq<real>, n: nat): seq<seq<real>>
    requires n > 0
  {
    if |data| < n then [] else [data[..n]] + BinaryRecords(data[n..], n)
  }

  /**
   * There are as many records as whole runs of `n` fit in the stream, record
   * k is floats k*n to k*n + n - 1, and fewer than `n` floats are left over.
   */
  lemma {:induction false} BinaryRecordsShape(data: seq<real>, n: nat)
    requires n > 0
    ensures var recs := BinaryRecords(data, n);
      && |recs| * n <= |data| < |recs| * n + n
      && forall k :: 0 <= k < |recs| ==> k * n + n <= |data| && recs[k] == data[k * n .. k * n + n]
  {
    if |data| >= n {
      var rest := data[n..];
      BinaryRecordsShape(rest, n);
      var recs := BinaryRecords(data, n);
      var tail := BinaryRecords(rest, n);
      assert recs == [data[..n]] + tail;
      MulSucc(|tail|, n);
      forall k | 0 <= k < |recs|
        ensures k * n + n <= |data| && recs[k] == data[k * n .. k * n + n]
      {
        if k > 0 {
          assert recs[k] == tail[k - 1];
          ShiftRun(data, n, k - 1);
        }
      }
    }
  }

  lemma MulSucc(a: nat, n: nat)
    ensures (a + 1) * n == a * n + n
  {
  }

  /** Run j of what follows the first run is run j + 1 of the whole stream. */
  lemma ShiftRun(data: seq<real>, n: nat, j: nat)
    requires n <= |data| && j * n + n <= |data| - n
    ensures (j + 1) * n + n <= |data|
    ensures data[n..][j * n .. j * n + n] == data[(j + 1) * n .. (j + 1) * n + n]
  {
    MulSucc(j, n);
  }

  /**
   * readOne in binary mode: fread of `n` floats into `f`. Whatever was
   * available is copied, and the call returns true iff exactly `n` floats
   * were read. So a trailing partial record ends the import loop quietly.
   */
  method ReadOneBinary(file: BinaryFile, f: array<real>, n: nat) returns (ok: bool)
    requires file.Valid() && n <= f.Length
    modifies file, f
    ensures file.Valid()
    ensures var k := MinNat(n, |old(file.Remaining())|);
      && ok == (k == n)
      && file.Remaining() == old(file.Remaining())[k..]
      && f[..k] == old(file.Remaining())[..k]
      && f[k..] == old(f[k..])
    ensures n > 0 ==>
      var recs := BinaryRecords(old(file.Remaining()), n);
      && (ok <==> recs != [])
      && (ok ==> f[..n] == recs[0] && BinaryRecords(file.Remaining(), n) == recs[1..])
      && (!ok ==> file.Remaining() == [])
  {
    var k := MinNat(n, |file.data| - file.pos);
    forall i | 0 <= i < k {
      f[i] := file.data[file.pos + i];
    }
    file.pos := file.pos + k;
    ok := k == n;
  }

  /**
   * The import loop's `while (readOne(...))` in binary mode, collecting the
   * buffer after every call that returned true: exactly `BinaryRecords` of
   * what was left in the file.
   */
  method ReadAllBinary(file: BinaryFile, f: array<real>, n: nat) returns (recs: seq<seq<real>>)
    requires file.Valid() && 0 < n <= f.Length
    modifies file, f
    ensures file.Valid() && file.Remaining() == []
    ensures recs == BinaryRecords(old(file.Remaining()), n)
  {
    ghost var all := file.Remaining();
    recs := [];
    var ok := ReadOneBinary(file, f, n);
    while ok
      invariant file.Valid()
      invariant ok ==> recs + [f[..n]] + BinaryRecords(file.Remaining(), n) == BinaryRecords(all, n)
      invariant !ok ==> recs == BinaryRecords(all, n) && file.Remaining() == []
      decreases |file.Remaining()|, if ok then 1 else 0
    {
      recs := recs + [f[..n]];
      ghost var before := file.Remaining();
      ok := ReadOneBinary(file, f, n);
      if ok {
        assert |file.Remaining()| < |before|;
      }
      assert recs + BinaryRecords(before, n) == BinaryRecords(all, n);
    }
  }

  // ---------------------------------------------------------------------------
  // ASCII mode
  // ---------------------------------------------------------------------------

  /**
   * The outcome of one fscanf(file, "%f", ...): a parsed value (rc == 1), a
   * matching failure (rc == 0) or end of input (rc == EOF).
   */
  datatype Scan = Parsed(value: real) | NoMatch | Eof

  /** The i-th upcoming outcome; past the end of the file every call gives EOF. */
  function ScanAt(s: seq<Scan>, i: nat): Scan {
    if i < |s| then s[i] else Eof
  }

  /** The outcomes left after `i` more calls. */
  function Skip(s: seq<Scan>, i: nat): seq<Scan> {
    if i <= |s| then s[i..] else []
  }

  /** A text file opened for reading, seen through the outcomes of its fscanf calls. */
  class TextFile {
    const scans: seq<Scan>
    var next: nat

    ghost predicate Valid()
      reads this
    {
      next <= |scans|
    }

    /** The outcomes of the calls still to come. */
    function Upcoming(): seq<Scan>
      reads this
      requires Valid()
    {
      scans[next..]
    }

    constructor Open(outcomes: seq<Scan>)
      ensures Valid() && scans == outcomes && Upcoming() == outcomes
    {
      scans := outcomes;
      next := 0;
    }

    /** One fscanf(file, "%f", ...) call. */
    method ScanFloat() returns (s: Scan)
      requires Valid()
      modifies this
      ensures Valid()
      ensures s == ScanAt(old(Upcoming()), 0) && Upcoming() == Skip(old(Upcoming()), 1)
    {
      if next < |scans| {
        s := scans[next];
        next := next + 1;
      } else {
        s := Eof;
      }
    }
  }

  predicate IsNoMatch(s: Scan) { s.NoMatch? }
  predicate NotParsed(s: Scan) { !s.Parsed? }

  /** The index of the first of the next `n` outcomes that satisfies `stop`, or `n` if none does. */
  function FirstStop(s: seq<Scan>, n: nat, stop: Scan -> bool): (m: nat)
    ensures m <= n
    ensures forall j :: 0 <= j < m ==> !stop(ScanAt(s, j))
    ensures m < n ==> stop(ScanAt(s, m))
  {
    if n == 0 || stop(ScanAt(s, 0)) then 0
    else
      var m' := FirstStop(Skip(s, 1), n - 1, stop);
      assert forall j :: 1 <= j <= m' ==> ScanAt(s, j) == ScanAt(Skip(s, 1), j - 1);
      m' + 1
  }

  /** The buffer after the first `m` fields were scanned: each parsed field stored, the rest as before. */
  function Fill(s: seq<Scan>, f: seq<real>, m: nat): (g: seq<real>)
    ensures |g| == |f|
  {
    seq(|f|, j requires 0 <= j < |f| => if j < m && ScanAt(s, j).Parsed? then ScanAt(s, j).value else f[j])
  }

  /**
   * What readOne returns in ASCII mode on the upcoming outcomes `s`: the loop
   * stops at the first matching failure and returns `i == 0`; EOF is not
   * looked at, so it returns true when no matching failure occurs.
   */
  function AsciiReturns(s: seq<Scan>, n: nat): bool {
    var m := FirstStop(s, n, IsNoMatch);
    m == 0 || m == n
  }

  /**
   * readOne in ASCII mode, as written: field i is scanned into f[i]; on a
   * matching failure the call returns `i == 0`, and an EOF result is passed
   * over like a success that stores nothing.
   */
  method ReadOneAscii(file: TextFile, f: array<real>, n: nat) returns (ok: bool)
    requires file.Valid() && n <= f.Length
    modifies file, f
    ensures file.Valid()
    ensures var u := old(file.Upcoming());
      var m := FirstStop(u, n, IsNoMatch);
      && ok == AsciiReturns(u, n)
      && f[..] == Fill(u, old(f[..]), m)
      && file.Upcoming() == Skip(u, if m < n then m + 1 else n)
  {
    ghost var u := file.Upcoming();
    ghost var f0 := f[..];
    for i := 0 to n
      invariant file.Valid()
      invariant file.Upcoming() == Skip(u, i)
      invariant forall j :: 0 <= j < i ==> !IsNoMatch(ScanAt(u, j))
      invariant f[..] == Fill(u, f0, i)
    {
      var rc := file.ScanFloat();
      assert rc == ScanAt(u, i);
      if rc.NoMatch? {
        assert FirstStop(u, n, IsNoMatch) == i;
        return i == 0;
      }
      if rc.Parsed? {
        f[i] := rc.value;
      }
      assert Skip(Skip(u, i), 1) == Skip(u, i + 1);
    }
    assert FirstStop(u, n, IsNoMatch) == n;
    return true;
  }

  /**
   * The ASCII return rule: readOne returns false exactly when the first
   * matching failure among the `n` fields happens at a field i > 0.
   */
  lemma AsciiFalseOnlyMidRecord(s: seq<Scan>, n: nat)
    ensures !AsciiReturns(s, n) <==>
      exists i :: 0 < i < n && ScanAt(s, i).NoMatch? && forall j :: 0 <= j < i ==> !ScanAt(s, j).NoMatch?
  {
    var m := FirstStop(s, n, IsNoMatch);
    if !AsciiReturns(s, n) {
      assert 0 < m < n && ScanAt(s, m).NoMatch?;
    }
  }

  /**
   * At the end of the file every fscanf gives EOF, and the as-written readOne
   * returns true and leaves the buffer as it was: another record equal to the
   * previous one, on every later call.
   */
  lemma AsciiTrueAtEndOfFile(f: seq<real>, n: nat)
    ensures AsciiReturns([], n)
    ensures Fill([], f, FirstStop([], n, IsNoMatch)) == f
  {
    var m := FirstStop([], n, IsNoMatch);
    assert m == n;
  }

  /**
   * A matching failure on the first field also makes the as-written readOne
   * return true, with the buffer untouched.
   */
  lemma AsciiTrueOnFirstFieldFailure(s: seq<Scan>, f: seq<real>, n: nat)
    requires 0 < n && ScanAt(s, 0).NoMatch?
    ensures AsciiReturns(s, n) && Fill(s, f, FirstStop(s, n, IsNoMatch)) == f
  {
  }

  // ---------------------------------------------------------------------------
  // ASCII mode, with end of input and malformed records told apart
  // ---------------------------------------------------------------------------

  /** Outcome of the corrected ASCII reader. */
  datatype ReadStatus = Record | EndOfStream | Malformed

  /** The status the corrected reader reports on the upcoming outcomes `s`. */
  function CheckedStatus(s: seq<Scan>, n: nat): ReadStatus {
    var k := FirstStop(s, n, NotParsed);
    if k == n then Record else if k == 0 then EndOfStream else Malformed
  }

  /**
   * readOne in ASCII mode as evidently intended: any result other than a
   * parsed value ends the record, as a clean end of stream on the first field
   * and as a malformed record on a later one.
   */
  method ReadOneAsciiChecked(file: TextFile, f: array<real>, n: nat) returns (st: ReadStatus)
    requires file.Valid() && n <= f.Length
    modifies file, f
    ensures file.Valid()
    ensures var u := old(file.Upcoming());
      var k := FirstStop(u, n, NotParsed);
      && st == CheckedStatus(u, n)
      && f[..] == Fill(u, old(f[..]), k)
      && file.Upcoming() == Skip(u, if k < n then k + 1 else n)
    ensures n > 0 ==>
      var u := old(file.Upcoming());
      var recs := TextRecords(u, n);
      && |file.Upcoming()| <= |u|
      && (st == Record ==>
            && |file.Upcoming()| < |u|
            && recs == ([f[..n]] + TextRecords(file.Upcoming(), n).0, TextRecords(file.Upcoming(), n).1))
      && (st != Record ==> recs == ([], st))
  {
    ghost var u := file.Upcoming();
    ghost var f0 := f[..];
    for i := 0 to n
      invariant file.Valid()
      invariant file.Upcoming() == Skip(u, i)
      invariant forall j :: 0 <= j < i ==> !NotParsed(ScanAt(u, j))
      invariant f[..] == Fill(u, f0, i)
    {
      var rc := file.ScanFloat();
      assert rc == ScanAt(u, i);
      if !rc.Parsed? {
        assert FirstStop(u, n, NotParsed) == i;
        st := if i == 0 then EndOfStream else Malformed;
        TextStep(u, f0, n, f[..], file.Upcoming());
        return;
      }
      f[i] := rc.value;
      assert Skip(Skip(u, i), 1) == Skip(u, i + 1);
    }
    assert FirstStop(u, n, NotParsed) == n;
    if n > 0 {
      TextStep(u, f0, n, f[..], file.Upcoming());
    }
    return Record;
  }

  /** A record is reported only when all `n` fields were parsed from the file. */
  lemma CheckedRecordIsWhole(s: seq<Scan>, n: nat)
    requires CheckedStatus(s, n) == Record
    ensures n <= |s| && forall j :: 0 <= j < n ==> s[j].Parsed?
  {
    if n > 0 {
      assert ScanAt(s, n - 1).Parsed?;
      assert forall j :: 0 <= j < n ==> ScanAt(s, j) == s[j];
    }
  }

  /** At the end of the file the corrected reader reports a clean end of stream. */
  lemma CheckedEndsAtEndOfFile(n: nat)
    requires n > 0
    ensures CheckedStatus([], n) == EndOfStream
  {
    assert ScanAt([], 0) == Eof;
  }

  /** The values of the first `n` outcomes. */
  function Values(s: seq<Scan>, n: nat): seq<real>
    requires n <= |s| && forall j :: 0 <= j < n ==> s[j].Parsed?
  {
    seq(n, j requires 0 <= j < n => s[j].value)
  }

  /**
   * The records the corrected reader yields when called until it stops, and
   * the status that stopped it (a clean end or a malformed record).
   */
  function TextRecords(s: seq<Scan>, n: nat): (r: (seq<seq<real>>, ReadStatus))
    requires n > 0
    ensures r.1 != Record
    decreases |s|
  {
    if CheckedStatus(s, n) == Record then
      CheckedRecordIsWhole(s, n);
      var rest := TextRecords(s[n..], n);
      ([Values(s, n)] + rest.0, rest.1)
    else ([], CheckedStatus(s, n))
  }

  /**
   * One call of the corrected reader, read against `TextRecords`: given the
   * buffer `g` and the outcomes `rest` it leaves behind, a record is the
   * first of `TextRecords` and `rest` yields the others; otherwise no record
   * is left and the status is the one reported.
   */
  lemma TextStep(s: seq<Scan>, f: seq<real>, n: nat, g: seq<real>, rest: seq<Scan>)
    requires 0 < n <= |f|
    requires var k := FirstStop(s, n, NotParsed);
      g == Fill(s, f, k) && rest == Skip(s, if k < n then k + 1 else n)
    ensures |rest| <= |s|
    ensures CheckedStatus(s, n) == Record ==>
      && |rest| < |s|
      && TextRecords(s, n) == ([g[..n]] + TextRecords(rest, n).0, TextRecords(rest, n).1)
    ensures CheckedStatus(s, n) != Record ==> TextRecords(s, n) == ([], CheckedStatus(s, n))
  {
    if CheckedStatus(s, n) == Record {
      CheckedRecordIsWhole(s, n);
      assert forall j :: 0 <= j < n ==> ScanAt(s, j) == s[j];
      assert g[..n] == Values(s, n);
    }
  }

  /**
   * The loop's progress against `TextRecords`: the records collected so far,
   * then the one in the buffer, then those the outcomes `rest` still yield,
   * are all the records, and `rest` ends the way the whole file does.
   */
  ghost predicate Pending(recs: seq<seq<real>>, last: seq<real>, rest: seq<Scan>, n: nat, all: (seq<seq<real>>, ReadStatus))
    requires n > 0
  {
    recs + [last] + TextRecords(rest, n).0 == all.0 && TextRecords(rest, n).1 == all.1
  }

  /** Collecting the buffer and reading on keeps `Pending`, or ends with all the records. */
  lemma PendingStep(recs: seq<seq<real>>, last: seq<real>, rest: seq<Scan>, n: nat,
                    all: (seq<seq<real>>, ReadStatus), next: seq<real>, rest': seq<Scan>, st: ReadStatus)
    requires n > 0 && Pending(recs, last, rest, n, all)
    requires st == Record ==> TextRecords(rest, n) == ([next] + TextRecords(rest', n).0, TextRecords(rest', n).1)
    requires st != Record ==> TextRecords(rest, n) == ([], st)
    ensures st == Record ==> Pending(recs + [last], next, rest', n, all)
    ensures st != Record ==> recs + [last] == all.0 && st == all.1
  {
    if st == Record {
      assert recs + [last] + TextRecords(rest, n).0 == recs + [last] + [next] + TextRecords(rest', n).0;
    } else {
      assert recs + [last] + [] == recs + [last];
    }
  }

  /**
   * The import loop driven by the corrected ASCII reader: the buffers of all
   * calls that reported a record, and the status that ended the loop, are
   * exactly `TextRecords` of what was left in the file.
   */
  method ReadAllText(file: TextFile, f: array<real>, n: nat) returns (recs: seq<seq<real>>, st: ReadStatus)
    requires file.Valid() && 0 < n <= f.Length
    modifies file, f
    ensures file.Valid()
    ensures (recs, st) == TextRecords(old(file.Upcoming()), n)
  {
    ghost var all := TextRecords(file.Upcoming(), n);
    recs := [];
    st := ReadOneAsciiChecked(file, f, n);
    ghost var rest := file.Upcoming();
    if st == Record {
      assert [] + [f[..n]] == [f[..n]];
    }
    while st == Record
      invariant file.Valid() && file.Upcoming() == rest
      invariant st == Record ==> Pending(recs, f[..n], rest, n, all)
      invariant st != Record ==> recs == all.0 && st == all.1
      decreases |rest|, if st == Record then 1 else 0
    {
      var last := f[..n];
      st := ReadOneAsciiChecked(file, f, n);
      PendingStep(recs, last, rest, n, all, f[..n], file.Upcoming(), st);
      recs := recs + [last];
      rest := file.Upcoming();
    }
  }

  /** The outcomes of scanning a text rendering of `data`, one value per token. */
  function AsScans(data: seq<real>): seq<Scan> {
    seq(|data|, j requires 0 <= j < |data| => Parsed(data[j]))
  }

  /**
   * Binary and (corrected) ASCII decoding agree: the text rendering of a
   * float stream yields the same records as the binary one, and ends cleanly
   * exactly when those records use up the whole stream; otherwise the text
   * reader reports the tail as malformed where the binary one drops it.
   */
  lemma {:induction false} TextMatchesBinary(data: seq<real>, n: nat)
    requires n > 0
    ensures var recs := BinaryRecords(data, n);
      TextRecords(AsScans(data), n) == (recs, if |recs| * n == |data| then EndOfStream else Malformed)
  {
    var s := AsScans(data);
    if |data| < n {
      ShortTail(data, n);
    } else {
      WholeRecord(data, n);
      TextMatchesBinary(data[n..], n);
      var tail := BinaryRecords(data[n..], n);
      assert BinaryRecords(data, n) == [data[..n]] + tail;
      MulSucc(|tail|, n);
      assert |tail| * n == |data[n..]| <==> |tail| * n + n == |data|;
    }
  }

  /** Fewer than `n` floats: no record, and a clean end only when there are none at all. */
  lemma ShortTail(data: seq<real>, n: nat)
    requires 0 < n && |data| < n
    ensures TextRecords(AsScans(data), n) == ([], if |data| == 0 then EndOfStream else Malformed)
  {
    var s := AsScans(data);
    var k := FirstStop(s, n, NotParsed);
    assert ScanAt(s, |data|) == Eof;
    assert forall j :: 0 <= j < |data| ==> ScanAt(s, j) == Parsed(data[j]);
    assert k == |data|;
  }

  /** At least `n` floats: the text reader yields the first `n` as a record and carries on after them. */
  lemma WholeRecord(data: seq<real>, n: nat)
    requires 0 < n <= |data|
    ensures CheckedStatus(AsScans(data), n) == Record
    ensures TextRecords(AsScans(data), n) ==
      ([data[..n]] + TextRecords(AsScans(data[n..]), n).0, TextRecords(AsScans(data[n..]), n).1)
  {
    var s := AsScans(data);
    var k := FirstStop(s, n, NotParsed);
    assert forall j :: 0 <= j < |data| ==> ScanAt(s, j) == Parsed(data[j]);
    assert k == n;
    assert Values(s, n) == data[..n];
    assert s[n..] == AsScans(data[n..]);
  }
}
