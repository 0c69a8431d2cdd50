/**
 * `sdk list`: the candidate list as the API formats it, or the version table
 * of one candidate parsed into rows. The table is pipe-separated text with
 * the vendor given only on the first line of each vendor's group, so the
 * parser carries the last vendor seen forward.
 */
module Listing {
  import opened Wrappers
  import opened Text
  import opened Fs
  import opened Store
  import opened Api

  /** One version of the table, every field trimmed. */
  datatype Row = Row(vendor: string, marker: string, version: string, dist: string, status: string, identifier: string)

  /** What `sdk list` shows: the candidate list as text, or a table of versions. */
  datatype Shown = Text(text: string) | Table(rows: seq<Row>)

  // ------------------------------------------------------------ one line

  /** A banner, column heading or rule of the table (tested on the trimmed line). */
  predicate IsHeading(line: string) {
    var l := Trim(line);
    StartsWith(l, "====") || StartsWith(l, "Available") || Contains(l, "Vendor") || StartsWith(l, "----")
  }

  /** A line that is not a heading and has at least six fields: its first field may name a vendor. */
  predicate IsRecord(line: string) {
    !IsHeading(line) && |Split(line, '|')| >= 6
  }

  /** The vendor in force after `line`, given the one before it. */
  function NextVendor(line: string, vendor: string): string {
    if IsRecord(line) && Trim(Split(line, '|')[0]) != "" then Trim(Split(line, '|')[0]) else vendor
  }

  /** A record line with a non-empty identifier in its sixth field gives a row. */
  predicate GivesRow(line: string) {
    IsRecord(line) && Trim(Split(line, '|')[5]) != ""
  }

  function MakeRow(line: string, vendor: string): Row
    requires IsRecord(line)
  {
    var parts := Split(line, '|');
    Row(vendor, Trim(parts[1]), Trim(parts[2]), Trim(parts[3]), Trim(parts[4]), Trim(parts[5]))
  }

  // ------------------------------------------------------------ the table

  /** The loop of `list_versions` over `lines`, starting with vendor `vendor`. */
  function ParseRows(lines: seq<string>, vendor: string): seq<Row> {
    if lines == [] then []
    else
      var l := lines[0];
      var v := NextVendor(l, vendor);
      (if GivesRow(l) then [MakeRow(l, v)] else []) + ParseRows(lines[1..], v)
  }

  /**
   * The vendor of the `n`-th line: the last non-empty first field among the
   * record lines up to and including it, or `vendor` when there is none.
   */
  function VendorThrough(lines: seq<string>, vendor: string, n: nat): string
    requires n <= |lines|
  {
    if n == 0 then vendor
    else if IsRecord(lines[n - 1]) && Trim(Split(lines[n - 1], '|')[0]) != "" then Trim(Split(lines[n - 1], '|')[0])
    else VendorThrough(lines, vendor, n - 1)
  }

  /** The rows of the first `n` lines, read line by line with each line's own vendor. */
  function RowsThrough(lines: seq<string>, vendor: string, n: nat): seq<Row>
    requires n <= |lines|
  {
    if n == 0 then []
    else
      RowsThrough(lines, vendor, n - 1)
        + (if GivesRow(lines[n - 1]) then [MakeRow(lines[n - 1], VendorThrough(lines, vendor, n))] else [])
  }

  /** The vendor carried forward by the loop is the last one seen so far. */
  lemma {:induction false} VendorCarried(lines: seq<string>, vendor: string, n: nat)
    requires n < |lines|
    ensures NextVendor(lines[n], VendorThrough(lines, vendor, n)) == VendorThrough(lines, vendor, n + 1)
  {
  }

  /** Parsing from line `n` on, with the vendor of the lines before, completes the rows of those lines. */
  lemma {:induction false} ParseRowsFrom(lines: seq<string>, vendor: string, n: nat)
    requires n <= |lines|
    ensures RowsThrough(lines, vendor, n) + ParseRows(lines[n..], VendorThrough(lines, vendor, n))
            == RowsThrough(lines, vendor, |lines|)
    decreases |lines| - n
  {
    if n < |lines| {
      var l := lines[n];
      var v := VendorThrough(lines, vendor, n + 1);
      VendorCarried(lines, vendor, n);
      assert lines[n..][0] == l && lines[n..][1..] == lines[n + 1..];
      var row: seq<Row> := if GivesRow(l) then [MakeRow(l, v)] else [];
      assert ParseRows(lines[n..], VendorThrough(lines, vendor, n)) == row + ParseRows(lines[n + 1..], v);
      assert RowsThrough(lines, vendor, n + 1) == RowsThrough(lines, vendor, n) + row;
      ParseRowsFrom(lines, vendor, n + 1);
    }
  }

  /**
   * The table parser agrees with its line-by-line reading: the rows are
   * those of the row-giving lines, in line order, each with the last vendor
   * named up to its line.
   */
  lemma ParseRowsByLine(lines: seq<string>, vendor: string)
    ensures ParseRows(lines, vendor) == RowsThrough(lines, vendor, |lines|)
  {
    ParseRowsFrom(lines, vendor, 0);
    assert lines[0..] == lines;
  }

  /** At most one row per line. */
  lemma {:induction false} RowsThroughLength(lines: seq<string>, vendor: string, n: nat)
    requires n <= |lines|
    ensures |RowsThrough(lines, vendor, n)| <= n
  {
    if n > 0 {
      RowsThroughLength(lines, vendor, n - 1);
    }
  }

  predicate RowTrimmed(r: Row) {
    IsTrimmed(r.vendor) && IsTrimmed(r.marker) && IsTrimmed(r.version)
    && IsTrimmed(r.dist) && IsTrimmed(r.status) && IsTrimmed(r.identifier)
  }

  lemma TrimIsTrimmed(s: string)
    ensures IsTrimmed(Trim(s))
  {
    TrimFixedPoint(s);
  }

  lemma {:induction false} VendorTrimmed(lines: seq<string>, vendor: string, n: nat)
    requires n <= |lines| && IsTrimmed(vendor)
    ensures IsTrimmed(VendorThrough(lines, vendor, n))
  {
    if n > 0 {
      TrimIsTrimmed(Split(lines[n - 1], '|')[0]);
      VendorTrimmed(lines, vendor, n - 1);
    }
  }

  /** Every row has all its fields trimmed and a non-empty identifier. */
  lemma {:induction false} RowsThroughShape(lines: seq<string>, vendor: string, n: nat)
    requires n <= |lines| && IsTrimmed(vendor)
    ensures forall i :: 0 <= i < |RowsThrough(lines, vendor, n)| ==>
      RowTrimmed(RowsThrough(lines, vendor, n)[i]) && RowsThrough(lines, vendor, n)[i].identifier != ""
  {
    if n > 0 {
      RowsThroughShape(lines, vendor, n - 1);
      var l := lines[n - 1];
      if GivesRow(l) {
        var parts := Split(l, '|');
        TrimIsTrimmed(parts[1]);
        TrimIsTrimmed(parts[2]);
        TrimIsTrimmed(parts[3]);
        TrimIsTrimmed(parts[4]);
        TrimIsTrimmed(parts[5]);
        VendorTrimmed(lines, vendor, n);
      }
    }
  }

  /** The rows of a table: no more than its lines, trimmed, each with an identifier. */
  lemma ParsedRowsShape(lines: seq<string>)
    ensures |ParseRows(lines, "")| <= |lines|
    ensures forall i :: 0 <= i < |ParseRows(lines, "")| ==>
      RowTrimmed(ParseRows(lines, "")[i]) && ParseRows(lines, "")[i].identifier != ""
  {
    ParseRowsByLine(lines, "");
    RowsThroughLength(lines, "", |lines|);
    assert IsTrimmed("");
    RowsThroughShape(lines, "", |lines|);
  }

  /** A table line holding the six fields of `r`, separated by '|'. */
  function RowLine(r: Row): string {
    Join([r.vendor, r.marker, r.version, r.dist, r.status, r.identifier], "|")
  }

  /**
   * A row written as a table line is read back as that row (with the
   * vendor carried forward when its own is empty), provided the line is not
   * taken for a heading.
   */
  lemma RowLineRoundTrip(r: Row, vendor: string)
    requires RowTrimmed(r) && r.identifier != ""
    requires '|' !in r.vendor && '|' !in r.marker && '|' !in r.version
    requires '|' !in r.dist && '|' !in r.status && '|' !in r.identifier
    requires !IsHeading(RowLine(r))
    ensures ParseRows([RowLine(r)], vendor) == [if r.vendor != "" then r else r.(vendor := vendor)]
  {
    var fields := [r.vendor, r.marker, r.version, r.dist, r.status, r.identifier];
    SplitJoin(fields, '|');
    TrimFixedPoint(r.vendor);
    TrimFixedPoint(r.marker);
    TrimFixedPoint(r.version);
    TrimFixedPoint(r.dist);
    TrimFixedPoint(r.status);
    TrimFixedPoint(r.identifier);
    var l := RowLine(r);
    assert Split(l, '|') == fields;
    assert GivesRow(l);
    var v := NextVendor(l, vendor);
    assert v == if r.vendor != "" then r.vendor else vendor;
    assert MakeRow(l, v) == if r.vendor != "" then r else r.(vendor := vendor);
    assert [l][1..] == [];
    assert ParseRows([l], vendor) == [MakeRow(l, v)] + ParseRows([], v);
  }

  lemma ParseRowsStep(lines: seq<string>, i: nat, vendor: string)
    requires i < |lines|
    ensures ParseRows(lines[i..], vendor)
      == (if GivesRow(lines[i]) then [MakeRow(lines[i], NextVendor(lines[i], vendor))] else [])
         + ParseRows(lines[i + 1..], NextVendor(lines[i], vendor))
  {
    assert lines[i..][0] == lines[i] && lines[i..][1..] == lines[i + 1..];
  }

  /** The loop of `list_versions`: pushes a row for each row-giving line, carrying the vendor forward. */
  method ParseTable(text: string) returns (rows: seq<Row>)
    ensures rows == ParseRows(Lines(text), "")
  {
    var lines := Lines(text);
    rows := [];
    var vendor := "";
    for i := 0 to |lines|
      invariant rows + ParseRows(lines[i..], vendor) == ParseRows(lines, "")
    {
      var line := lines[i];
      ParseRowsStep(lines, i, vendor);
      ghost var before := vendor;
      ghost var next := NextVendor(line, vendor);
      ghost var rest := ParseRows(lines[i + 1..], next);
      if IsHeading(line) {
        assert ParseRows(lines[i..], vendor) == rest;
        assert rows + ParseRows(lines[i + 1..], vendor) == ParseRows(lines, "");
        continue;
      }
      var parts := Split(line, '|');
      if |parts| < 6 {
        assert ParseRows(lines[i..], vendor) == rest;
        assert rows + ParseRows(lines[i + 1..], vendor) == ParseRows(lines, "");
        continue;
      }
      var named := Trim(parts[0]);
      if named != "" {
        vendor := named;
      }
      assert vendor == next;
      var identifier := Trim(parts[5]);
      if identifier == "" {
        assert ParseRows(lines[i..], before) == rest;
        assert rows + ParseRows(lines[i + 1..], vendor) == ParseRows(lines, "");
        continue;
      }
      var row := Row(vendor, Trim(parts[1]), Trim(parts[2]), Trim(parts[3]), Trim(parts[4]), identifier);
      assert row == MakeRow(line, vendor);
      assert rows + ParseRows(lines[i..], before) == (rows + [row]) + rest;
      rows := rows + [row];
      assert rows + ParseRows(lines[i + 1..], vendor) == ParseRows(lines, "");
    }
  }

  // ---------------------------------------------------------- the command

  function CandidatesFailed(e: string): string {
    "Failed to fetch candidates: " + e
  }

  function VersionsFailed(e: string): string {
    "Failed to fetch versions: " + e
  }

  /** `list_candidates`. */
  function ListCandidates(http: Http): (r: Result<Shown, string>)
    ensures r.Ok? <==> http(CandidatesListUrl()).Ok?
    ensures r.Ok? ==> r.value == Text(http(CandidatesListUrl()).value)
    ensures r.Err? ==> r.error == CandidatesFailed(http(CandidatesListUrl()).error)
  {
    match GetCandidatesList(http)
    case Err(e) => Err(CandidatesFailed(e))
    case Ok(text) => Ok(Text(text))
  }

  /** The current version as the table request sends it: "" when there is none. */
  function CurrentOrEmpty(t: Tree, root: Path, c: Name, family: Family): string {
    match GetCurrentVersion(t, root, c, family)
    case Some(v) => v
    case None => ""
  }

  /**
   * `list_versions`, with the installed versions listed in `installed`: the
   * candidate is validated and the platform detected first; the table is
   * requested for the current version and the comma-joined installed ones.
   */
  function ListVersions(http: Http, t: Tree, root: Path, c: Name, os: string, arch: string, family: Family,
                        installed: seq<Name>): (r: Result<Shown, string>)
    ensures ValidateCandidate(http, c).Err? ==> r == Err(ValidateCandidate(http, c).error)
    ensures ValidateCandidate(http, c).Ok? && DetectPlatform(os, arch).Err? ==> r == Err(DetectPlatform(os, arch).error)
    ensures ValidateCandidate(http, c).Ok? && DetectPlatform(os, arch).Ok? ==>
      var answer := http(VersionsListUrl(c, DetectPlatform(os, arch).value, CurrentOrEmpty(t, root, c, family), Join(installed, ",")));
      && (answer.Err? ==> r == Err(VersionsFailed(answer.error)))
      && (answer.Ok? ==> r == Ok(Table(ParseRows(Lines(answer.value), ""))))
  {
    match ValidateCandidate(http, c)
    case Err(e) => Err(e)
    case Ok(_) =>
      match DetectPlatform(os, arch)
      case Err(e) => Err(e)
      case Ok(platform) =>
        match GetVersionsList(http, c, platform, CurrentOrEmpty(t, root, c, family), Join(installed, ","))
        case Err(e) => Err(VersionsFailed(e))
        case Ok(text) => Ok(Table(ParseRows(Lines(text), "")))
  }

  /** `sdk list [candidate]`: the versions of the candidate when one is given, else the candidate list. */
  method List(fs: FileSystem, http: Http, root: Path, candidate: Option<Name>, os: string, arch: string, family: Family)
    returns (r: Result<Shown, string>)
    ensures candidate.None? ==> r == ListCandidates(http)
    ensures candidate.Some? ==>
      exists installed :: Lists(installed, InstalledVersions(fs.tree, root, candidate.value))
                          && r == ListVersions(http, fs.tree, root, candidate.value, os, arch, family, installed)
  {
    if candidate.None? {
      return ListCandidates(http);
    }
    var c := candidate.value;
    ListingExists(InstalledVersions(fs.tree, root, c));
    var valid := ValidateCandidate(http, c);
    if valid.Err? {
      ghost var any :| Lists(any, InstalledVersions(fs.tree, root, c));
      return Err(valid.error);
    }
    var platform := DetectPlatform(os, arch);
    if platform.Err? {
      ghost var any :| Lists(any, InstalledVersions(fs.tree, root, c));
      return Err(platform.error);
    }
    var current := CurrentOrEmpty(fs.tree, root, c, family);
    var installed := GetInstalledVersions(fs, root, c);
    assert Lists(installed, InstalledVersions(fs.tree, root, c));
    var text := GetVersionsList(http, c, platform.value, current, Join(installed, ","));
    if text.Err? {
      return Err(VersionsFailed(text.error));
    }
    var rows := ParseTable(text.value);
    r := Ok(Table(rows));
  }
}
