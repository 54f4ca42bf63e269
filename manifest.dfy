/** The `.hashes` manifest published beside each tarball: one record per line,
    whitespace-separated fields `<algorithm> <hex digest> [ignored ...]`. The
    script reads it with `readline().split()` until the first line whose first
    field is `sha512` (downloadsource.py:92-99). */
module Manifest {
  import opened Wrappers
  import opened Text

  const Algorithm: string := "sha512"

  /** A record the scan goes past: it has a first field, and that is not the algorithm. */
  predicate Skipped(f: seq<string>) {
    |f| > 0 && f[0] != Algorithm
  }

  /** A record the scan stops at and takes the digest from. */
  predicate Supplies(f: seq<string>, d: string) {
    |f| > 1 && f[0] == Algorithm && f[1] == d
  }

  /** The expected digest, read from the lines of the manifest in file order.
      A line with no field (a blank line, or the empty string that `readline()`
      returns at the end of the file) makes `hash_line[0]` raise, and a line
      holding `sha512` alone makes `hash_line[1]` raise: both are `None`. */
  function FirstDigest(lines: seq<string>): (r: Option<string>)
    ensures r.Some? ==> IsToken(r.value)
  {
    if lines == [] then None
    else
      var f := Fields(lines[0]);
      if |f| == 0 then None
      else if f[0] == Algorithm then (if |f| > 1 then Some(f[1]) else None)
      else FirstDigest(lines[1..])
  }

  /** The digest the manifest text `text` records for SHA-512, if the scan finds one. */
  function ExpectedDigest(text: string): (r: Option<string>)
    ensures r.Some? ==> IsToken(r.value)
    ensures r.Some? ==> exists i :: 0 <= i < |Lines(text)| && Supplies(Fields(Lines(text)[i]), r.value)
  {
    var r := FirstDigest(Lines(text));
    if r.Some? then FirstDigestFound(Lines(text), r.value); r else r
  }

  /** The index of the first line the scan does not go past, or `|lines|`. */
  function StopIndex(lines: seq<string>): (k: nat)
    ensures k <= |lines|
    ensures forall j :: 0 <= j < k ==> Skipped(Fields(lines[j]))
    ensures k < |lines| ==> !Skipped(Fields(lines[k]))
  {
    if lines == [] || !Skipped(Fields(lines[0])) then 0
    else
      var k := StopIndex(lines[1..]);
      assert forall j :: 0 < j < k + 1 ==> lines[j] == lines[1..][j - 1];
      k + 1
  }

  /** The scan's result is decided by the line it stops at alone. */
  lemma {:induction false} FirstDigestAtStop(lines: seq<string>)
    ensures FirstDigest(lines) ==
      if StopIndex(lines) == |lines| then None
      else
        var f := Fields(lines[StopIndex(lines)]);
        if |f| > 1 then Some(f[1]) else None
  {
    if lines != [] && Skipped(Fields(lines[0])) {
      FirstDigestAtStop(lines[1..]);
      assert StopIndex(lines) == StopIndex(lines[1..]) + 1;
    }
  }

  /** The scan yields `d` exactly when some line supplies `d` and every line
      before it is skipped. */
  lemma FirstDigestFound(lines: seq<string>, d: string)
    ensures FirstDigest(lines) == Some(d) <==>
      exists i :: 0 <= i < |lines| && Supplies(Fields(lines[i]), d) &&
        forall j :: 0 <= j < i ==> Skipped(Fields(lines[j]))
  {
    FirstDigestAtStop(lines);
    var k := StopIndex(lines);
    if FirstDigest(lines) == Some(d) {
      assert Supplies(Fields(lines[k]), d);
    }
  }

  /** The scan fails exactly when the end of the file comes first, or a line
      with no field or with the algorithm name alone comes before any line
      that supplies a digest. */
  lemma FirstDigestMissing(lines: seq<string>)
    ensures FirstDigest(lines) == None <==>
      (forall j :: 0 <= j < |lines| ==> Skipped(Fields(lines[j]))) ||
      exists i :: 0 <= i < |lines| && |Fields(lines[i])| <= 1 && !Skipped(Fields(lines[i])) &&
        forall j :: 0 <= j < i ==> Skipped(Fields(lines[j]))
  {
    FirstDigestAtStop(lines);
    var k := StopIndex(lines);
    if FirstDigest(lines) == None && k < |lines| {
      assert |Fields(lines[k])| <= 1;
    }
  }

  /** A blank line ahead of every digest line makes the scan fail: it does
      not go on to a later `sha512` line. */
  lemma BlankLineStopsScan(lines: seq<string>, i: nat)
    requires i < |lines| && IsBlank(lines[i])
    requires forall j :: 0 <= j < i ==> Skipped(Fields(lines[j]))
    ensures FirstDigest(lines) == None
  {
    FieldsEmptyIffBlank(lines[i]);
    FirstDigestMissing(lines);
  }

  /** What the scan finds when the file cursor is at `pos`. */
  function ScanFrom(text: string, pos: nat): Option<string>
    requires pos <= |text|
  {
    FirstDigest(Lines(text[pos..]))
  }

  /** One step of the scan with the cursor at `pos`: what the next
      `readline().split()` decides, or where the scan goes on. */
  lemma ScanStep(text: string, pos: nat)
    requires pos <= |text|
    ensures pos + ReadLine(text[pos..]).1 <= |text|
    ensures ScanFrom(text, pos) ==
      var f := Fields(ReadLine(text[pos..]).0);
      if |f| == 0 then None
      else if f[0] == Algorithm then (if |f| > 1 then Some(f[1]) else None)
      else ScanFrom(text, pos + ReadLine(text[pos..]).1)
  {
    var t := text[pos..];
    if t != [] {
      var (line, n) := ReadLine(t);
      assert Lines(t) == [line] + Lines(t[n..]);
      assert ([line] + Lines(t[n..]))[1..] == Lines(t[n..]);
      assert t[n..] == text[pos + n..];
    }
  }

  /** A skipped line moves the cursor forward and leaves the outcome as it was. */
  lemma ScanSkip(text: string, pos: nat)
    requires pos <= |text|
    requires Skipped(Fields(ReadLine(text[pos..]).0))
    ensures 0 < ReadLine(text[pos..]).1 && pos + ReadLine(text[pos..]).1 <= |text|
    ensures ScanFrom(text, pos) == ScanFrom(text, pos + ReadLine(text[pos..]).1)
  {
    ScanStep(text, pos);
  }

  /** `readline().split()` in a `while True` loop until the first `sha512`
      line (downloadsource.py:93-99): the cursor `pos` advances line by line. */
  method ReadExpectedDigest(text: string) returns (r: Option<string>)
    ensures r == ExpectedDigest(text)
  {
    var pos := 0;
    assert text[pos..] == text;
    while true
      invariant pos <= |text|
      invariant ScanFrom(text, pos) == ExpectedDigest(text)
      decreases |text| - pos
    {
      var next := ReadLine(text[pos..]);
      var hashLine := Fields(next.0);
      if !Skipped(hashLine) {
        ScanStep(text, pos);
        if |hashLine| == 0 {
          // "Cannot compare SHA512 hash", then hash_line[0] raises
          return None;
        }
        if |hashLine| < 2 {
          // hash_line[1] raises
          return None;
        }
        return Some(hashLine[1]);
      }
      ScanSkip(text, pos);
      pos := pos + next.1;
    }
  }

  // ---------------------------------------------------------------------
  // Manifests as they are published

  /** A record is one or more fields, none holding whitespace. */
  predicate WellFormed(records: seq<seq<string>>) {
    forall i :: 0 <= i < |records| ==>
      |records[i]| > 0 && forall k :: 0 <= k < |records[i]| ==> IsToken(records[i][k])
  }

  /** The manifest text for the given records: one line per record, its fields
      separated by spaces, each line ended by `\n`. */
  function ManifestText(records: seq<seq<string>>): string {
    JoinLines(seq(|records|, i requires 0 <= i < |records| => Join(records[i])))
  }

  /** Reading a written manifest back line by line gives its records. */
  lemma RecordsOfManifestText(records: seq<seq<string>>)
    requires WellFormed(records)
    ensures |Lines(ManifestText(records))| == |records|
    ensures forall i :: 0 <= i < |records| ==> Fields(Lines(ManifestText(records))[i]) == records[i]
  {
    var ls := seq(|records|, i requires 0 <= i < |records| => Join(records[i]));
    forall k | 0 <= k < |ls| ensures NoLineBreak(ls[k]) {
      JoinTokensHasNoLineBreak(records[k]);
    }
    LinesOfJoinLines(ls);
    forall i | 0 <= i < |records| ensures Fields(ls[i]) == records[i] {
      FieldsOfJoin(records[i]);
    }
  }

  /** The digest read from a published manifest is field 1 of the first
      record whose field 0 is `sha512`, provided the record has a field 1. */
  lemma PublishedManifestDigest(records: seq<seq<string>>, d: string)
    requires WellFormed(records)
    ensures ExpectedDigest(ManifestText(records)) == Some(d) <==>
      exists i :: 0 <= i < |records| && Supplies(records[i], d) &&
        forall j :: 0 <= j < i ==> Skipped(records[j])
  {
    var ls := Lines(ManifestText(records));
    RecordsOfManifestText(records);
    FirstDigestFound(ls, d);
    assert forall i :: 0 <= i < |records| ==> Fields(ls[i]) == records[i];
  }

  /** How one record sits on its line: whitespace before each field
      (non-empty between fields), whitespace after the last field, and the
      line ending. None of the whitespace is a line break. */
  datatype Layout = Layout(gaps: seq<string>, tail: string, ending: string)

  predicate Fits(record: seq<string>, layout: Layout) {
    SpacedLayout(record, layout.gaps, layout.tail) &&
    (forall k :: 0 <= k < |layout.gaps| ==> NoLineBreak(layout.gaps[k])) &&
    NoLineBreak(layout.tail) && IsLineEnding(layout.ending)
  }

  predicate FitsAll(records: seq<seq<string>>, layouts: seq<Layout>) {
    |layouts| == |records| && forall i :: 0 <= i < |records| ==> Fits(records[i], layouts[i])
  }

  /** The lines of a manifest written with the given layouts, endings dropped. */
  function LaidOutLines(records: seq<seq<string>>, layouts: seq<Layout>): seq<string>
    requires FitsAll(records, layouts)
  {
    seq(|records|, i requires 0 <= i < |records| => Spaced(records[i], layouts[i].gaps, layouts[i].tail))
  }

  function LaidOutEndings(layouts: seq<Layout>): seq<string> {
    seq(|layouts|, i requires 0 <= i < |layouts| => layouts[i].ending)
  }

  /** The manifest text for `records` written with `layouts`. */
  function LaidOutText(records: seq<seq<string>>, layouts: seq<Layout>): string
    requires FitsAll(records, layouts)
  {
    Terminate(LaidOutLines(records, layouts), LaidOutEndings(layouts))
  }

  /** However its fields are spaced and its lines ended, a manifest reads
      back line by line as its records. */
  lemma RecordsOfLaidOutText(records: seq<seq<string>>, layouts: seq<Layout>)
    requires WellFormed(records) && FitsAll(records, layouts)
    ensures |Lines(LaidOutText(records, layouts))| == |records|
    ensures forall i :: 0 <= i < |records| ==>
      Fields(Lines(LaidOutText(records, layouts))[i]) == records[i]
  {
    var ls := LaidOutLines(records, layouts);
    var ends := LaidOutEndings(layouts);
    forall k | 0 <= k < |ls| ensures NoLineBreak(ls[k]) && ls[k] != "" && IsLineEnding(ends[k]) {
      SpacedHasNoLineBreak(records[k], layouts[k].gaps, layouts[k].tail);
    }
    assert Separable(ls, ends);
    LinesOfTerminate(ls, ends);
    forall i | 0 <= i < |records| ensures Fields(ls[i]) == records[i] {
      FieldsOfSpaced(records[i], layouts[i].gaps, layouts[i].tail);
    }
  }

  /** The digest read from a manifest, whatever its layout, is field 1 of the
      first record whose field 0 is `sha512`, provided the record has a field 1. */
  lemma LaidOutManifestDigest(records: seq<seq<string>>, layouts: seq<Layout>, d: string)
    requires WellFormed(records) && FitsAll(records, layouts)
    ensures ExpectedDigest(LaidOutText(records, layouts)) == Some(d) <==>
      exists i :: 0 <= i < |records| && Supplies(records[i], d) &&
        forall j :: 0 <= j < i ==> Skipped(records[j])
  {
    var ls := Lines(LaidOutText(records, layouts));
    RecordsOfLaidOutText(records, layouts);
    FirstDigestFound(ls, d);
    assert forall i :: 0 <= i < |records| ==> Fields(ls[i]) == records[i];
  }

  /** A tab-separated record with a trailing blank and a `\r\n` ending. */
  lemma TabbedCrLfManifest(d: string)
    requires IsToken(d)
    ensures ExpectedDigest("sha512\t" + d + " \r\n") == Some(d)
  {
    assert IsToken(Algorithm) by {
      assert forall i :: 0 <= i < |Algorithm| ==> !IsSpace(Algorithm[i]);
    }
    var records := [[Algorithm, d]];
    var layouts := [Layout(["", "\t"], " ", "\r\n")];
    assert Fits(records[0], layouts[0]);
    assert records[0][1..] == [d] && layouts[0].gaps[1..] == ["\t"];
    assert Spaced([d], ["\t"], " ") == "\t" + d + Spaced([], [], " ");
    assert Spaced(records[0], layouts[0].gaps, layouts[0].tail) == "" + Algorithm + ("\t" + d + " ");
    assert LaidOutLines(records, layouts)[0] == Spaced(records[0], layouts[0].gaps, layouts[0].tail);
    assert "" + Algorithm + ("\t" + d + " ") == "sha512\t" + d + " ";
    assert LaidOutLines(records, layouts) == ["sha512\t" + d + " "];
    assert Terminate(LaidOutLines(records, layouts), LaidOutEndings(layouts)) == "sha512\t" + d + " \r\n";
    assert Supplies(records[0], d);
    LaidOutManifestDigest(records, layouts, d);
  }
}
