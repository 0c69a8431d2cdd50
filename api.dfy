/**
 * The SDKMAN web API as the program sees it: the URLs it requests and the
 * parsing of the plain-text answers. A request is a call of `Http`, which
 * gives the body of the answer or the message of the transport error; the
 * client reports every status code as a body.
 */
module Api {
  import opened Wrappers
  import opened Text

  type Http = string -> Result<string, string>

  const ApiBase: string := "https://api.sdkman.io/2"

  datatype VersionInfo = VersionInfo(version: string, vendor: string, default: bool)

  // -------------------------------------------------------------------- URLs

  function CandidatesUrl(): string {
    ApiBase + "/candidates/all"
  }

  function CandidatesListUrl(): string {
    ApiBase + "/candidates/list"
  }

  function VersionsListUrl(c: string, platform: string, current: string, installed: string): string {
    ApiBase + "/candidates/" + c + "/" + platform + "/versions/list?current=" + current + "&installed=" + installed
  }

  function VersionsUrl(c: string, platform: string): string {
    ApiBase + "/candidates/" + c + "/" + platform + "/versions/all"
  }

  /** `get_download_url`. */
  function DownloadUrl(c: string, v: string, platform: string): string {
    ApiBase + "/broker/download/" + (c + "/" + (v + "/" + platform))
  }

  /**
   * The download URL is the broker's download endpoint followed by three
   * more path segments, the candidate, the version and the platform, so
   * they can be taken apart again.
   */
  lemma DownloadUrlSegments(c: string, v: string, platform: string)
    requires '/' !in c && '/' !in v && '/' !in platform
    ensures Split(DownloadUrl(c, v, platform), '/') == Split(ApiBase + "/broker/download", '/') + [c, v, platform]
  {
    var t1 := v + ['/'] + platform;
    var t2 := c + ['/'] + t1;
    SplitWithout(platform, '/');
    SplitAt(v, '/', platform);
    SplitAt(c, '/', t1);
    var endpoint := ApiBase + "/broker/download";
    assert "/broker/download/" == "/broker/download" + ['/'];
    assert DownloadUrl(c, v, platform) == endpoint + ['/'] + t2;
    SplitConcat(endpoint, '/', t2);
  }

  // --------------------------------------------------------------- candidates

  /** The candidate list of `get_candidates`: every comma-separated item, trimmed, empty ones kept. */
  function CandidateNames(text: string): (names: seq<string>)
    ensures |names| == |Split(text, ',')|
    ensures forall i :: 0 <= i < |names| ==> names[i] == Trim(Split(text, ',')[i])
  {
    TrimAll(Split(text, ','))
  }

  function TrimAll(items: seq<string>): (r: seq<string>)
    ensures |r| == |items| && forall i :: 0 <= i < |r| ==> r[i] == Trim(items[i])
  {
    if items == [] then [] else [Trim(items[0])] + TrimAll(items[1..])
  }

  /** `get_candidates`. */
  function GetCandidates(http: Http): Result<seq<string>, string> {
    match http(CandidatesUrl())
    case Err(e) => Err(e)
    case Ok(text) => Ok(CandidateNames(text))
  }

  /** `validate_candidate`: the name must be one of the listed candidates. */
  function ValidateCandidate(http: Http, c: string): (r: Result<(), string>)
    ensures http(CandidatesUrl()).Err? ==> r == Err(http(CandidatesUrl()).error)
    ensures http(CandidatesUrl()).Ok? ==> (r.Ok? <==> c in CandidateNames(http(CandidatesUrl()).value))
    ensures r.Err? && http(CandidatesUrl()).Ok? ==> r.error == "Unknown candidate: " + c
  {
    match GetCandidates(http)
    case Err(e) => Err(e)
    case Ok(names) => if c in names then Ok(()) else Err("Unknown candidate: " + c)
  }

  /** An empty candidate list still holds one, empty, item; so the empty name is accepted. */
  lemma EmptyListAcceptsEmptyName(http: Http)
    requires http(CandidatesUrl()) == Ok("")
    ensures ValidateCandidate(http, "").Ok?
  {
    assert TrimAll(Split("", ','))[0] == "";
  }

  // ----------------------------------------------------------------- versions

  /** The text after the first '-' of a version, or "" when it has none. */
  function Vendor(version: string): string {
    var parts := Split(version, '-');
    if |parts| > 1 then Join(parts[1..], "-") else ""
  }

  /** The split-and-rejoin of `Vendor` is the part after the first '-'. */
  lemma VendorIsAfterFirstDash(version: string)
    ensures SplitOnce(version, '-').None? ==> Vendor(version) == ""
    ensures SplitOnce(version, '-').Some? ==> Vendor(version) == SplitOnce(version, '-').value.1
  {
    match SplitOnce(version, '-')
    case None =>
      SplitWithout(version, '-');
    case Some((a, b)) =>
      SplitAt(a, '-', b);
      assert Split(version, '-')[1..] == Split(b, '-');
      JoinSplit(b, '-');
  }

  /** The non-empty items of a comma-separated list, trimmed, in order. */
  function Items(parts: seq<string>): (items: seq<string>)
    ensures |items| <= |parts|
  {
    if parts == [] then []
    else
      var x := Trim(parts[0]);
      if x == "" then Items(parts[1..]) else [x] + Items(parts[1..])
  }

  /** Every item is non-empty and trimmed. */
  lemma {:induction false} ItemsTrimmed(parts: seq<string>)
    ensures forall i :: 0 <= i < |Items(parts)| ==> Items(parts)[i] != "" && IsTrimmed(Items(parts)[i])
  {
    if parts != [] {
      ItemsTrimmed(parts[1..]);
      TrimFixedPoint(parts[0]);
    }
  }

  function Describe(item: string): VersionInfo {
    VersionInfo(item, Vendor(item), false)
  }

  /** The version list of `get_versions` (the `parse_versions_text` of the tests). */
  function ParseVersionsText(text: string): (vs: seq<VersionInfo>)
    ensures |vs| == |Items(Split(text, ','))|
    ensures forall i :: 0 <= i < |vs| ==> vs[i] == Describe(Items(Split(text, ','))[i])
  {
    var items := Items(Split(text, ','));
    seq(|items|, i requires 0 <= i < |items| => Describe(items[i]))
  }

  /** Every parsed version is a non-empty, trimmed item of the list, holds no ',', and is not a default. */
  lemma ParsedVersionsShape(text: string)
    ensures forall v :: v in ParseVersionsText(text) ==>
      v.version != "" && IsTrimmed(v.version) && ',' !in v.version && !v.default && v.vendor == Vendor(v.version)
  {
    SplitPartsAvoidDelimiter(text, ',');
    ItemsAvoid(Split(text, ','), ',');
    ItemsTrimmed(Split(text, ','));
  }

  lemma {:induction false} ItemsAvoid(parts: seq<string>, d: char)
    requires forall i :: 0 <= i < |parts| ==> d !in parts[i]
    ensures forall i :: 0 <= i < |Items(parts)| ==> d !in Items(parts)[i]
  {
    if parts != [] {
      ItemsAvoid(parts[1..], d);
      TrimInside(parts[0], d);
    }
  }

  /** Trimming keeps a character out. */
  lemma TrimInside(s: string, d: char)
    requires d !in s
    ensures d !in Trim(s)
  {
    var a := TrimStart(s);
    TrimStartShape(s);
    assert forall k :: 0 <= k < |a| ==> a[k] == s[|s| - |a| + k];
    var b := TrimEnd(a);
    TrimEndShape(a);
    assert forall k :: 0 <= k < |b| ==> b[k] == a[k];
  }

  /** Items already trimmed and non-empty, joined with ',', are read back in order. */
  lemma {:induction false} ItemsOfTrimmed(vs: seq<string>)
    requires forall i :: 0 <= i < |vs| ==> vs[i] != "" && IsTrimmed(vs[i])
    ensures Items(vs) == vs
  {
    if vs != [] {
      TrimFixedPoint(vs[0]);
      ItemsOfTrimmed(vs[1..]);
      assert [vs[0]] + vs[1..] == vs;
    }
  }

  /** Writing versions as a comma-separated list and parsing it gives the versions back. */
  lemma ParseJoinedVersions(vs: seq<string>)
    requires |vs| >= 1
    requires forall i :: 0 <= i < |vs| ==> vs[i] != "" && IsTrimmed(vs[i]) && ',' !in vs[i]
    ensures |ParseVersionsText(Join(vs, ","))| == |vs|
    ensures forall i :: 0 <= i < |vs| ==> ParseVersionsText(Join(vs, ","))[i] == VersionInfo(vs[i], Vendor(vs[i]), false)
  {
    SplitJoin(vs, ',');
    ItemsOfTrimmed(vs);
  }

  /** `get_versions`. */
  function GetVersions(http: Http, c: string, platform: string): Result<seq<VersionInfo>, string> {
    match http(VersionsUrl(c, platform))
    case Err(e) => Err(e)
    case Ok(text) => Ok(ParseVersionsText(text))
  }

  /** `get_default_version`: the first version listed, failing when there is none. */
  function GetDefaultVersion(http: Http, c: string, platform: string): (r: Result<string, string>)
    ensures http(VersionsUrl(c, platform)).Err? ==> r == Err(http(VersionsUrl(c, platform)).error)
    ensures http(VersionsUrl(c, platform)).Ok? ==>
      var items := Items(Split(http(VersionsUrl(c, platform)).value, ','));
      && (items == [] ==> r == Err("No versions found"))
      && (items != [] ==> r == Ok(items[0]))
  {
    match GetVersions(http, c, platform)
    case Err(e) => Err(e)
    case Ok(vs) => if vs == [] then Err("No versions found") else Ok(vs[0].version)
  }

  /** `get_versions_list`: the preformatted table of versions, for `list`. */
  function GetVersionsList(http: Http, c: string, platform: string, current: string, installed: string): Result<string, string> {
    http(VersionsListUrl(c, platform, current, installed))
  }

  /** `get_candidates_list`. */
  function GetCandidatesList(http: Http): Result<string, string> {
    http(CandidatesListUrl())
  }
}
