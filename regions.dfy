/** The region catalogue of one protein: named, inclusive residue intervals read from a
    reference CSV text, and the lookup of the region that holds a residue position. */
module Regions {
  import opened Outcomes
  import opened Text

  /** One record of the reference file (`Protein_Region`): a name and inclusive bounds. */
  datatype Region = Region(name: string, start: int, end: int) {
    /** `check_position`: the bounds are inclusive at both ends. */
    predicate CheckPosition(position: int)
      ensures CheckPosition(position) ==> start <= end
    {
      start <= position && position <= end
    }
  }

  /** A residue position of a table row: the zero-mutations row carries the dash sentinel. */
  datatype Position = Dash | At(residue: int)

  /** `region_checker`: the dash sentinel short-circuits to `"-"`; otherwise the name of the
      first region in catalogue order that holds the position, or `"Other"` when none does. */
  function RegionChecker(position: Position, regions: seq<Region>): (result: string)
    ensures position.Dash? ==> result == "-"
    ensures position.At? ==>
      (exists k :: 0 <= k < |regions| && regions[k].CheckPosition(position.residue)) ==>
        exists k :: 0 <= k < |regions| && regions[k].CheckPosition(position.residue)
          && result == regions[k].name
          && forall j :: 0 <= j < k ==> !regions[j].CheckPosition(position.residue)
    ensures position.At? ==>
      (forall k :: 0 <= k < |regions| ==> !regions[k].CheckPosition(position.residue)) ==>
        result == "Other"
  {
    if position.Dash? then "-"
    else if regions == [] then "Other"
    else if regions[0].CheckPosition(position.residue) then regions[0].name
    else
      var rest := RegionChecker(position, regions[1..]);
      assert forall k :: 1 <= k < |regions| ==> regions[k] == regions[1..][k - 1];
      rest
  }

  /** Whatever the catalogue, a position inside region `k` and outside every earlier region is
      labelled with region `k`'s name (the first match wins). */
  lemma FirstMatchWins(regions: seq<Region>, k: nat, p: int)
    requires k < |regions| && regions[k].CheckPosition(p)
    requires forall j :: 0 <= j < k ==> !regions[j].CheckPosition(p)
    ensures RegionChecker(At(p), regions) == regions[k].name
  {
    var result := RegionChecker(At(p), regions);
    var k' :| 0 <= k' < |regions| && regions[k'].CheckPosition(p) && result == regions[k'].name
      && forall j :: 0 <= j < k' ==> !regions[j].CheckPosition(p);
    assert k' == k;
  }

  // ---------------------------------------------------------------- reading the reference file

  /** Why one record line of the reference file does not parse. */
  datatype LineError = WrongFieldCount(fields: nat) | NotAnInteger(field: string)

  /** A failure reading the reference file: the 0-based index of the offending line in the file. */
  datatype FileError = BadLine(line: nat, reason: LineError)

  /** One record: the stripped line must split on `,` into exactly three fields, the last two
      of which `int()` must accept (start is converted before end). */
  function ParseRegionLine(line: string): (r: Result<Region, LineError>)
    ensures r.Success? ==> ',' !in r.value.name
    ensures r.Failure? && r.error.WrongFieldCount? ==> r.error.fields != 3
    ensures r.Failure? && r.error.NotAnInteger? ==> ParseInt(r.error.field).None?
  {
    var fields := Split(Strip(line), ',');
    if |fields| != 3 then Failure(WrongFieldCount(|fields|))
    else
      match ParseInt(fields[1])
      case None => Failure(NotAnInteger(fields[1]))
      case Some(start) =>
        match ParseInt(fields[2])
        case None => Failure(NotAnInteger(fields[2]))
        case Some(end) => Success(Region(fields[0], start, end))
  }

  /** The parse of each record line, in order. */
  function ParseEach(lines: seq<string>): (parsed: seq<Result<Region, LineError>>)
    ensures |parsed| == |lines|
    ensures forall i :: 0 <= i < |lines| ==> parsed[i] == ParseRegionLine(lines[i])
  {
    seq(|lines|, i requires 0 <= i < |lines| => ParseRegionLine(lines[i]))
  }

  /** All the records of `parsed`, whose element `i` comes from line `offset + i` of the file;
      the first record that failed aborts the whole read. */
  function Collect(parsed: seq<Result<Region, LineError>>, offset: nat): (r: Result<seq<Region>, FileError>)
    ensures r.Success? <==> forall i :: 0 <= i < |parsed| ==> parsed[i].Success?
    ensures r.Success? ==>
      (|r.value| == |parsed| && forall i :: 0 <= i < |parsed| ==> r.value[i] == parsed[i].value)
    ensures r.Failure? ==>
      && offset <= r.error.line < offset + |parsed|
      && parsed[r.error.line - offset] == Failure(r.error.reason)
      && forall j :: 0 <= j < r.error.line - offset ==> parsed[j].Success?
  {
    if parsed == [] then Success([])
    else
      var init := parsed[..|parsed| - 1];
      assert forall i :: 0 <= i < |init| ==> init[i] == parsed[i];
      match Collect(init, offset)
      case Failure(e) => Failure(e)
      case Success(regions) =>
        match parsed[|parsed| - 1]
        case Failure(e) => Failure(BadLine(offset + |parsed| - 1, e))
        case Success(region) => Success(regions + [region])
  }

  /** The read stops at the first record that failed, and reports that one. */
  lemma CollectFirstFailure(parsed: seq<Result<Region, LineError>>, offset: nat, i: nat)
    requires i < |parsed| && parsed[i].Failure?
    requires forall j :: 0 <= j < i ==> parsed[j].Success?
    ensures Collect(parsed, offset) == Failure(BadLine(offset + i, parsed[i].error))
  {
  }

  /** The catalogue a reference file describes: its first line is a header and is skipped. */
  function ParseRegionFile(lines: seq<string>): (r: Result<seq<Region>, FileError>)
    ensures |lines| <= 1 ==> r == Success([])
    ensures r.Success? && lines != [] ==> |r.value| == |lines| - 1
    ensures r.Failure? ==> 1 <= r.error.line < |lines|
  {
    if lines == [] then Success([]) else Collect(ParseEach(lines[1..]), 1)
  }

  /** A read that got through the first `i` records goes on with record `i`. */
  lemma CollectExtend(parsed: seq<Result<Region, LineError>>, offset: nat, i: nat, regions: seq<Region>)
    requires i < |parsed| && parsed[i].Success? && Collect(parsed[..i], offset) == Success(regions)
    ensures Collect(parsed[..i + 1], offset) == Success(regions + [parsed[i].value])
  {
    assert parsed[..i + 1][..i] == parsed[..i];
  }

  /** A read that got through the first `i` records and fails on record `i` reports that one. */
  lemma CollectStopsAt(parsed: seq<Result<Region, LineError>>, offset: nat, i: nat, regions: seq<Region>)
    requires i < |parsed| && parsed[i].Failure? && Collect(parsed[..i], offset) == Success(regions)
    ensures Collect(parsed, offset) == Failure(BadLine(offset + i, parsed[i].error))
  {
    forall j | 0 <= j < i ensures parsed[j].Success? {
      assert parsed[j] == parsed[..i][j];
    }
    CollectFirstFailure(parsed, offset, i);
  }

  /** `initialize_regions`, over the lines of the file: one region per line after the header,
      in file order, or the error of the first line that does not parse. */
  method InitializeRegions(lines: seq<string>) returns (r: Result<seq<Region>, FileError>)
    ensures r == ParseRegionFile(lines)
  {
    var regions: seq<Region> := [];
    if lines == [] {
      return Success(regions);
    }
    var body := lines[1..];
    ghost var parsed := ParseEach(body);
    assert ParseRegionFile(lines) == Collect(parsed, 1);
    var i := 0;
    while i < |body|
      invariant 0 <= i <= |body|
      invariant Collect(parsed[..i], 1) == Success(regions)
    {
      var line := ParseRegionLine(body[i]);
      assert parsed[i] == line;
      if line.Failure? {
        CollectStopsAt(parsed, 1, i, regions);
        return Failure(BadLine(i + 1, line.error));
      }
      CollectExtend(parsed, 1, i, regions);
      regions := regions + [line.value];
      i := i + 1;
    }
    assert parsed[..i] == parsed;
    return Success(regions);
  }

  /** What the file reader promises: every line after the header yields exactly one region,
      in file order, when all of them parse; otherwise the error names the first bad line. */
  lemma {:induction false} ParseRegionFileShape(lines: seq<string>)
    requires |lines| >= 1
    ensures var r := ParseRegionFile(lines);
      && (r.Success? <==> forall i :: 1 <= i < |lines| ==> ParseRegionLine(lines[i]).Success?)
      && (r.Success? ==>
            (|r.value| == |lines| - 1
             && forall i :: 1 <= i < |lines| ==> r.value[i - 1] == ParseRegionLine(lines[i]).value))
      && (r.Failure? ==>
            (1 <= r.error.line < |lines|
             && ParseRegionLine(lines[r.error.line]) == Failure(r.error.reason)
             && forall j :: 1 <= j < r.error.line ==> ParseRegionLine(lines[j]).Success?))
  {
    var body := lines[1..];
    var parsed := ParseEach(body);
    assert forall i :: 1 <= i < |lines| ==> parsed[i - 1] == ParseRegionLine(lines[i]);
  }

  // ---------------------------------------------------------------- writing a reference file

  /** A name that survives a write and a read: no comma, and no leading whitespace. */
  predicate WritableName(name: string) {
    ',' !in name && (name == [] || !IsSpace(name[0]))
  }

  /** The record line `name,start,end` for a region. */
  function FormatRegionLine(region: Region): string {
    Join([region.name, ShowInt(region.start), ShowInt(region.end)], ',')
  }

  /** Three fields joined by a separator. */
  lemma JoinThree(a: string, b: string, c: string, sep: char)
    ensures Join([a, b, c], sep) == a + [sep] + b + [sep] + c
  {
    assert [a, b, c][1..] == [b, c];
    assert [b, c][1..] == [c];
    assert Join([c], sep) == c;
    assert Join([b, c], sep) == b + [sep] + c;
    assert Join([a, b, c], sep) == a + [sep] + (b + [sep] + c);
  }

  /** A record line whose fields hold no comma, whose name does not start with whitespace and
      whose last field ends in a digit splits back into its fields. */
  lemma RecordFields(name: string, startText: string, endText: string)
    requires WritableName(name)
    requires ',' !in startText && ',' !in endText
    requires endText != [] && IsDigit(endText[|endText| - 1])
    ensures Split(Strip(Join([name, startText, endText], ',')), ',') == [name, startText, endText]
  {
    var line := Join([name, startText, endText], ',');
    JoinThree(name, startText, endText, ',');
    assert line[|line| - 1] == endText[|endText| - 1];
    assert line[0] == if name == [] then ',' else name[0];
    StripUnchanged(line);
    SplitJoin([name, startText, endText], ',');
  }

  /** Reading back a written record gives the region. */
  lemma RegionLineRoundTrip(region: Region)
    requires WritableName(region.name)
    ensures ParseRegionLine(FormatRegionLine(region)) == Success(region)
  {
    RecordFields(region.name, ShowInt(region.start), ShowInt(region.end));
    ParseShowInt(region.start);
    ParseShowInt(region.end);
  }

  /** A reference file: the header line, then one record line per region. */
  function FormatRegionFile(header: string, regions: seq<Region>): (lines: seq<string>)
    ensures |lines| == |regions| + 1 && lines[0] == header
    ensures forall i :: 0 <= i < |regions| ==> lines[i + 1] == FormatRegionLine(regions[i])
  {
    [header] + seq(|regions|, i requires 0 <= i < |regions| => FormatRegionLine(regions[i]))
  }

  /** Reading a written catalogue gives it back, whatever the header. */
  lemma RegionFileRoundTrip(header: string, regions: seq<Region>)
    requires forall k :: 0 <= k < |regions| ==> WritableName(regions[k].name)
    ensures ParseRegionFile(FormatRegionFile(header, regions)) == Success(regions)
  {
    var lines := FormatRegionFile(header, regions);
    var parsed := ParseEach(lines[1..]);
    forall i | 0 <= i < |parsed| ensures parsed[i] == Success(regions[i]) {
      assert lines[1..][i] == FormatRegionLine(regions[i]);
      RegionLineRoundTrip(regions[i]);
    }
    var r := Collect(parsed, 1);
    assert r.Success?;
    assert r.value == regions;
  }
}
