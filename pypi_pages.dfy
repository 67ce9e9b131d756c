/** The pure pieces of the two module-level web applications: the download
    link the index page shows for a cached document, and the sanity check
    of an upload's form fields with the file name it builds. */
module PypiPages {
  import opened Common
  import opened CacheCore

  const DOWNLOAD_PREFIX: string := "../../pypi_download/"

  /** `str.format` of an optional string: `None` prints as "None". */
  function Formatted(o: Option<string>): string {
    if o.Some? then o.value else "None"
  }

  /** The `#hash_name=hash` suffix, empty when the document has no hash. */
  function HashSuffix(cp: CachePackage): string {
    if cp.hash.None? then "" else "#" + Formatted(cp.hashName) + "=" + cp.hash.value
  }

  /** The link of one document on the page of the requested package name. */
  function LinkUrl(package: string, cp: CachePackage): string {
    DOWNLOAD_PREFIX + Lower(package) + "/" + cp.version + "/" + cp.filename + HashSuffix(cp)
  }

  /** What the index page shows. */
  datatype IndexPage =
    | PageRaised                 // the index lookup raised
    | NotFound                   // 404 Not Found
    | Links(urls: seq<string>)   // 200 OK, one link per document

  /** The links of a list of documents. */
  function LinksOf(package: string, cps: seq<CachePackage>): (r: seq<string>)
    ensures |r| == |cps|
    ensures forall i :: 0 <= i < |cps| ==> r[i] == LinkUrl(package, cps[i])
  {
    if cps == [] then [] else [LinkUrl(package, cps[0])] + LinksOf(package, cps[1..])
  }

  /** The page for the result of an index lookup that did not raise: one
      link per document, in order, or 404 for an unknown package. */
  function PageOf(package: string, cps: Option<seq<CachePackage>>): IndexPage {
    if cps.None? then NotFound else Links(LinksOf(package, cps.value))
  }

  /** The position of the first `#` of a URL, or its length. */
  function FragmentStart(url: string): (r: nat)
    ensures r <= |url|
    ensures forall i :: 0 <= i < r ==> url[i] != '#'
    ensures r < |url| ==> url[r] == '#'
  {
    if url == [] || url[0] == '#' then 0 else 1 + FragmentStart(url[1..])
  }

  /** `urldefrag`: the URL before its first `#` and the fragment after it. */
  function SplitFragment(url: string): (string, Option<string>) {
    var k := FragmentStart(url);
    if k == |url| then (url, None) else (url[..k], Some(url[k + 1..]))
  }

  /** The path part of a link: package, version and file name. */
  function LinkPath(package: string, cp: CachePackage): string {
    DOWNLOAD_PREFIX + Lower(package) + "/" + cp.version + "/" + cp.filename
  }

  /** A client splitting a link at its `#` gets back the download path and
      exactly the document's `hash_name=hash`, or no fragment when the
      document has no hash (provided the names themselves hold no `#`). */
  lemma LinkUrlFragment(package: string, cp: CachePackage)
    requires '#' !in package && '#' !in cp.version && '#' !in cp.filename
    ensures SplitFragment(LinkUrl(package, cp))
         == (LinkPath(package, cp), if cp.hash.None? then None else Some(Formatted(cp.hashName) + "=" + cp.hash.value))
  {
    var path := LinkPath(package, cp);
    assert '#' !in path by {
      assert path == DOWNLOAD_PREFIX + Lower(package) + "/" + cp.version + "/" + cp.filename;
      forall i | 0 <= i < |path| ensures path[i] != '#' {
        if i < |DOWNLOAD_PREFIX| {
        } else if i < |DOWNLOAD_PREFIX| + |Lower(package)| {
          assert path[i] == Lower(package)[i - |DOWNLOAD_PREFIX|];
        } else if i == |DOWNLOAD_PREFIX| + |Lower(package)| {
        } else if i < |DOWNLOAD_PREFIX| + |Lower(package)| + 1 + |cp.version| {
          assert path[i] == cp.version[i - |DOWNLOAD_PREFIX| - |Lower(package)| - 1];
        } else if i == |DOWNLOAD_PREFIX| + |Lower(package)| + 1 + |cp.version| {
        } else {
          assert path[i] == cp.filename[i - |DOWNLOAD_PREFIX| - |Lower(package)| - 2 - |cp.version|];
        }
      }
    }
    var url := LinkUrl(package, cp);
    assert url == path + HashSuffix(cp);
    var k := FragmentStart(url);
    if cp.hash.None? {
      assert url == path;
    } else {
      var frag := Formatted(cp.hashName) + "=" + cp.hash.value;
      assert url == path + "#" + frag;
      assert url[|path|] == '#';
      assert forall i :: 0 <= i < |path| ==> url[i] == path[i];
      assert k == |path|;
      assert url[..k] == path;
      assert url[k + 1..] == frag;
    }
  }

  /** Link k of a package's page splits back into document k's download
      path (its version and file name) and its `hash_name=hash`. */
  lemma PageLinksSplit(package: string, cps: seq<CachePackage>, k: nat)
    requires k < |cps|
    requires '#' !in package && '#' !in cps[k].version && '#' !in cps[k].filename
    ensures var page := PageOf(package, Some(cps));
      && page.Links? && |page.urls| == |cps|
      && SplitFragment(page.urls[k])
         == (LinkPath(package, cps[k]),
             if cps[k].hash.None? then None else Some(Formatted(cps[k].hashName) + "=" + cps[k].hash.value))
  {
    LinkUrlFragment(package, cps[k]);
  }

  // ----- uploads -----------------------------------------------------------

  /** A form value: Python 2 strings are byte strings, so every character
      is below 256. */
  type ByteString = s: string | forall i :: 0 <= i < |s| ==> s[i] as int < 256

  /** The bytes of a byte string. */
  function BytesOf(s: ByteString): (r: Bytes)
    ensures |r| == |s| && forall i :: 0 <= i < |s| ==> r[i] as int == s[i] as int
  {
    seq(|s|, i requires 0 <= i < |s| => s[i] as int as byte)
  }

  /** The parsed multipart form: every field name with its list of values. */
  type Parts = map<string, seq<ByteString>>

  /** `_uploadFiletypeToExt`. */
  const UPLOAD_FILETYPE_EXT: map<string, string> := map["sdist" := ".tar.gz"]

  /** `getPart`: the value of a field given exactly once. */
  function GetPart(parts: Parts, key: string): Option<ByteString> {
    if key in parts && |parts[key]| == 1 then Some(parts[key][0]) else None
  }

  /** An accepted upload. */
  datatype Upload = Upload(package: string, version: string, filename: string, content: Bytes)

  /** The field check of `_pypi_upload` and the file name it builds. */
  function ValidateUpload(parts: Parts): Option<Upload> {
    var action := GetPart(parts, ":action");
    var filetype := GetPart(parts, "filetype");
    var package := GetPart(parts, "name");
    var version := GetPart(parts, "version");
    var content := GetPart(parts, "content");
    if action.None? || action.value != "file_upload"
       || filetype.None? || filetype.value !in UPLOAD_FILETYPE_EXT
       || package.None? || |package.value| == 0
       || version.None? || |version.value| == 0
       || content.None? || |content.value| == 0
    then None
    else Some(Upload(package.value, version.value,
                     package.value + "-" + version.value + UPLOAD_FILETYPE_EXT[filetype.value],
                     BytesOf(content.value)))
  }

  /** An upload is accepted exactly when every field is given once, the
      action is `file_upload`, the file type is `sdist`, and name, version
      and content are non-empty; the accepted upload carries those values
      and the file name `name-version.tar.gz`. */
  lemma ValidateUploadCorrect(parts: Parts)
    ensures ValidateUpload(parts).Some? <==>
      && (forall key :: key in {":action", "filetype", "name", "version", "content"} ==>
            key in parts && |parts[key]| == 1)
      && parts[":action"][0] == "file_upload" && parts["filetype"][0] == "sdist"
      && |parts["name"][0]| > 0 && |parts["version"][0]| > 0 && |parts["content"][0]| > 0
    ensures ValidateUpload(parts).Some? ==>
      var u := ValidateUpload(parts).value;
      && u.package == parts["name"][0] && u.version == parts["version"][0]
      && BytesOf(parts["content"][0]) == u.content
      && u.filename == u.package + "-" + u.version + ".tar.gz"
      && |u.content| > 0
  {
    var keys: set<string> := {":action", "filetype", "name", "version", "content"};
    if ValidateUpload(parts).None? {
      if forall key :: key in keys ==> key in parts && |parts[key]| == 1 {
        assert ":action" in keys && "filetype" in keys && "name" in keys && "version" in keys && "content" in keys;
        assert GetPart(parts, "filetype").Some?;
      }
    } else {
      forall key | key in keys ensures key in parts && |parts[key]| == 1 {
        assert key == ":action" || key == "filetype" || key == "name" || key == "version" || key == "content";
      }
    }
  }

  /** The upload of package3 version 0.1.4 is accepted as
      `package3-0.1.4.tar.gz`. */
  lemma Package3Upload()
    ensures var parts: Parts := map[
              "filetype" := ["sdist"], "content" := ["package3 content"], "version" := ["0.1.4"],
              ":action" := ["file_upload"], "name" := ["package3"]];
      && ValidateUpload(parts).Some?
      && ValidateUpload(parts).value.filename == "package3-0.1.4.tar.gz"
  {
  }

  /** A required field that is missing or sent more than once rejects the
      upload. */
  lemma RepeatedFieldRejected(parts: Parts, key: string)
    requires key in {":action", "filetype", "name", "version", "content"}
    requires key !in parts || |parts[key]| != 1
    ensures ValidateUpload(parts).None?
  {
    ValidateUploadCorrect(parts);
  }

  /** What an upload request sees: whether its content type is
      `multipart/form-data`, and the parsed form. */
  datatype UploadRequest = UploadRequest(multipart: bool, parts: Parts)

  /** A response: status line and plain-text body. */
  datatype Response = Response(status: string, body: string)
}
