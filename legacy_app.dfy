/** The oldest web application: `cachePackageVersions`, a stream that reads
    the upstream URL directly, and an upload that only logs. The refresh
    loop reuses the name `index` for its loop variable, so a refreshed
    non-empty cache returns the last index URL instead of the list, and a
    cache that was empty is reported missing even after the refresh. */
module LegacyApp {
  import opened Common
  import opened IndexUtil
  import opened CacheCore
  import opened PypiPages

  /** Bytes per read of the stream body: the literal of `fh.read(4096)`. */
  const LEGACY_READ_SIZE: nat := 4096

  /** `max(x.datetime for x in index)`. */
  function MaxStamp(cached: seq<CachePackage>): (m: int)
    requires cached != []
    ensures exists i :: 0 <= i < |cached| && cached[i].datetime == m
    ensures forall i :: 0 <= i < |cached| ==> cached[i].datetime <= m
    decreases |cached|
  {
    var last := cached[|cached| - 1];
    var init := cached[..|cached| - 1];
    if init == [] then last.datetime
    else
      var m := MaxStamp(init);
      assert forall i :: 0 <= i < |init| ==> init[i] == cached[i];
      if last.datetime > m then last.datetime else m
  }

  /** The staleness test: nothing cached, or the newest stamp more than
      seven days ahead of `now`. */
  predicate Stale(cached: seq<CachePackage>, now: int) {
    cached == [] || MaxStamp(cached) - now > CACHE_INDEX_TTL
  }

  /** With every stamp in the past, the cache is stale exactly when it is
      empty. */
  lemma StaleOnlyWhenEmpty(cached: seq<CachePackage>, now: int)
    requires forall i :: 0 <= i < |cached| ==> cached[i].datetime <= now
    ensures Stale(cached, now) <==> cached == []
  {
    if cached != [] {
      var i :| 0 <= i < |cached| && cached[i].datetime == MaxStamp(cached);
    }
  }

  /** What `cachePackageVersions` returns. */
  datatype VersionsResult =
    | Missing                     // `None`
    | Listing(entries: seq<CachePackage>)
    | ShadowedUrl(url: string)    // the loop variable: the last index URL

  /** The documents a refresh inserts. */
  function LegacyInserted(index: seq<CachePackage>, package: string, urls: seq<string>,
                          pip: (string, string) -> PipResult, now: int): seq<CachePackage> {
    if Stale(FindByPackage(index, package), now) && Reported(package, urls, pip)
    then RemoteIndex(package, urls, pip, now)
    else []
  }

  function LegacyResult(index: seq<CachePackage>, package: string, urls: seq<string>, now: int): VersionsResult {
    var cached := FindByPackage(index, package);
    if cached == [] then Missing
    else if !Stale(cached, now) || urls == [] then Listing(cached)
    else ShadowedUrl(urls[|urls| - 1])
  }

  /** The result never depends on what upstream said: an empty cache is
      `None` even when the refresh found and inserted the package, and a
      stale cache read against some URLs gives the last URL. The cached
      list comes back only when no refresh ran or there were no URLs. */
  lemma LegacyResultIgnoresUpstream(index: seq<CachePackage>, package: string, urls: seq<string>,
                                    pip: (string, string) -> PipResult, now: int)
    ensures var cached := FindByPackage(index, package);
      && (LegacyResult(index, package, urls, now) == Missing <==> cached == [])
      && (cached == [] && Reported(package, urls, pip) ==>
            LegacyInserted(index, package, urls, pip, now) == RemoteIndex(package, urls, pip, now))
      && (LegacyResult(index, package, urls, now).ShadowedUrl? <==> cached != [] && Stale(cached, now) && urls != [])
      && (LegacyResult(index, package, urls, now).Listing? ==>
            LegacyResult(index, package, urls, now).entries == cached)
  {
  }

  /** With stamps in the past, a cached package is listed as cached. */
  lemma LegacyCachedListed(index: seq<CachePackage>, package: string, urls: seq<string>, now: int)
    requires forall i :: 0 <= i < |index| ==> index[i].datetime <= now
    requires FindByPackage(index, package) != []
    ensures LegacyResult(index, package, urls, now) == Listing(FindByPackage(index, package))
  {
    var cached := FindByPackage(index, package);
    FindByPackageMembers(index, package);
    forall k | 0 <= k < |cached| ensures cached[k].datetime <= now {
      assert cached[k] in cached;
    }
    StaleOnlyWhenEmpty(cached, now);
  }

  /** `cachePackageStream`'s lookup: iterating `None` raises, iterating a
      URL string yields characters that have no `version` (so it raises
      unless the string is empty), and a list is searched for the first
      document of the version. */
  function LegacyLookupIn(r: VersionsResult, version: string, filename: string): (l: Lookup)
    ensures r.Missing? ==> l == LookupRaised
    ensures r.ShadowedUrl? ==> (l == NoStream <==> r.url == "") && (l == LookupRaised <==> r.url != "")
    ensures l.Found? ==> r.Listing? && l.cp.version == version && l.cp.filename == filename
                         && FirstOfVersion(r.entries, version) == Some(l.cp)
    ensures r.Listing? ==>
      var f := FirstOfVersion(r.entries, version);
      && l != LookupRaised
      && (l == NoStream <==> f.None? || f.value.filename != filename)
      && (f.Some? && f.value.filename == filename ==> l == Found(f.value))
  {
    match r
    case Missing => LookupRaised
    case ShadowedUrl(u) => if u == "" then NoStream else LookupRaised
    case Listing(es) =>
      match FirstOfVersion(es, version)
      case None => NoStream
      case Some(cp) => if cp.filename != filename then NoStream else Found(cp)
  }

  /** The index page: 404 for `None`; a listing's links; a URL string
      raises, except the empty one, which gives a page without links. */
  function LegacyPage(package: string, r: VersionsResult): IndexPage {
    match r
    case Missing => NotFound
    case ShadowedUrl(u) => if u == "" then Links([]) else PageRaised
    case Listing(es) => PageOf(package, Some(es))
  }

  /** `_pypi_upload`: 400 "Bad Request" for a request that is not
      multipart or has invalid fields; otherwise `cachePackageAdd` only
      logs, and the answer is 200. */
  function LegacyUploadResponse(req: UploadRequest): Response {
    if !req.multipart || ValidateUpload(req.parts).None? then Response("400 Bad Request", "Bad Request")
    else Response("200 OK", "")
  }

  /** The legacy upload answers 200 exactly for a multipart request whose
      five fields are each sent once, with action `file_upload`, file type
      `sdist` and non-empty name, version and content; anything else is
      400 "Bad Request". */
  lemma LegacyUploadAccepted(req: UploadRequest)
    ensures LegacyUploadResponse(req) == Response("200 OK", "") <==>
      && req.multipart
      && (forall key :: key in {":action", "filetype", "name", "version", "content"} ==>
            key in req.parts && |req.parts[key]| == 1)
      && req.parts[":action"][0] == "file_upload" && req.parts["filetype"][0] == "sdist"
      && |req.parts["name"][0]| > 0 && |req.parts["version"][0]| > 0 && |req.parts["content"][0]| > 0
    ensures LegacyUploadResponse(req) != Response("200 OK", "") ==>
      LegacyUploadResponse(req) == Response("400 Bad Request", "Bad Request")
  {
    ValidateUploadCorrect(req.parts);
  }

  /** When an empty bulk insert is a no-op (see README "## Left out"),
      the legacy page is 404 exactly when nothing was cached before the
      request, even when upstream reported the package and its documents
      were inserted; with stamps in the past a cached package gets the
      links of its cached documents. */
  lemma LegacyPageIgnoresUpstream(index: seq<CachePackage>, package: string, urls: seq<string>,
                                  pip: (string, string) -> PipResult, now: int)
    ensures var page := LegacyPage(package, LegacyResult(index, package, urls, now));
      && (page == NotFound <==> FindByPackage(index, package) == [])
      && (FindByPackage(index, package) == [] && Reported(package, urls, pip) ==>
            page == NotFound && LegacyInserted(index, package, urls, pip, now) == RemoteIndex(package, urls, pip, now))
      && ((forall i :: 0 <= i < |index| ==> index[i].datetime <= now) && FindByPackage(index, package) != [] ==>
            page == Links(LinksOf(package, FindByPackage(index, package))))
  {
    LegacyResultIgnoresUpstream(index, package, urls, pip, now);
    if (forall i :: 0 <= i < |index| ==> index[i].datetime <= now) && FindByPackage(index, package) != [] {
      LegacyCachedListed(index, package, urls, now);
    }
  }

  /** The body of `packageStream`: opens the document's URL and yields it
      in 4096-byte reads until a read is empty. Nothing is stored. */
  method RunLegacyStream(cp: CachePackage, download: string -> Option<Bytes>) returns (r: StreamRun)
    ensures r.Chunks? <==> cp.url.Some? && download(cp.url.value).Some?
    ensures r.Chunks? ==> Flatten(r.chunks) == download(cp.url.value).value && ChunkedBy(r.chunks, LEGACY_READ_SIZE)
  {
    if cp.url.None? {
      return RunRaised;
    }
    var fh := download(cp.url.value);
    if fh.None? {
      return RunRaised;
    }
    var chunks := ReadChunks(fh.value, LEGACY_READ_SIZE);
    r := Chunks(chunks);
  }

  class LegacyStore {
    var index: seq<CachePackage>
    const indexUrls: seq<string>

    /** A cache over an empty index collection. */
    constructor (indexUrls: seq<string>)
      ensures index == [] && this.indexUrls == indexUrls
    {
      index := [];
      this.indexUrls := indexUrls;
    }

    /** `cachePackageVersions`. */
    method CachePackageVersions(package: string, pip: (string, string) -> PipResult, now: int)
      returns (r: VersionsResult)
      modifies this`index
      ensures index == old(index) + LegacyInserted(old(index), package, indexUrls, pip, now)
      ensures r == LegacyResult(old(index), package, indexUrls, now)
    {
      var cached := FindByPackage(index, package);
      var indexExists := |cached| != 0;
      r := Listing(cached);
      if !indexExists || MaxStamp(cached) - now > CACHE_INDEX_TTL {
        var remoteIndex, remoteExists := ReadRemote(package, indexUrls, pip, now);
        if |indexUrls| > 0 {
          // the loop `for index in ctx.indexUrls` leaves `index` at the last URL
          r := ShadowedUrl(indexUrls[|indexUrls| - 1]);
        }
        if remoteExists {
          index := index + remoteIndex;
        } else {
          assert index + [] == index;
        }
      } else {
        assert index + [] == index;
      }
      if !indexExists {
        r := Missing;
      }
    }

    /** `cachePackageStream`. */
    method CachePackageStream(package: string, version: string, filename: string,
                              pip: (string, string) -> PipResult, now: int) returns (r: Lookup)
      modifies this`index
      ensures index == old(index) + LegacyInserted(old(index), package, indexUrls, pip, now)
      ensures r == LegacyLookupIn(LegacyResult(old(index), package, indexUrls, now), version, filename)
    {
      var versions := CachePackageVersions(package, pip, now);
      r := LegacyLookupIn(versions, version, filename);
    }

    /** `pypi_index_response`. */
    method PypiIndex(package: string, pip: (string, string) -> PipResult, now: int) returns (page: IndexPage)
      modifies this`index
      ensures index == old(index) + LegacyInserted(old(index), package, indexUrls, pip, now)
      ensures page == LegacyPage(package, LegacyResult(old(index), package, indexUrls, now))
    {
      var cachePackages := CachePackageVersions(package, pip, now);
      page := LegacyPage(package, cachePackages);
    }
  }

  /** A package first requested while nothing is cached is reported
      missing although its upstream documents are inserted; the next
      request, with stamps in the past, lists those documents. */
  method RequestTwice(s: LegacyStore, package: string, pip: (string, string) -> PipResult, now: int)
    returns (first: VersionsResult, second: VersionsResult)
    requires forall i :: 0 <= i < |s.index| ==> s.index[i].datetime <= now
    requires FindByPackage(s.index, package) == [] && RemoteIndex(package, s.indexUrls, pip, now) != []
    modifies s
    ensures first == Missing
    ensures second == Listing(RemoteIndex(package, s.indexUrls, pip, now))
  {
    ghost var index0 := s.index;
    ghost var remote := RemoteIndex(package, s.indexUrls, pip, now);
    ghost var reported := Reported(package, s.indexUrls, pip);
    if !reported {
      ListedEmptyWhenUnreported(package, s.indexUrls, pip);
      assert false;
    }
    first := s.CachePackageVersions(package, pip, now);
    SecondRequestListed(index0, package, s.indexUrls, pip, now);
    second := s.CachePackageVersions(package, pip, now);
  }

  /** The second stream request for such a package finds the first
      remote document of the version when its file name matches. */
  lemma SecondLookupFound(index: seq<CachePackage>, package: string, urls: seq<string>,
                          pip: (string, string) -> PipResult, now: int, version: string, filename: string)
    requires forall i :: 0 <= i < |index| ==> index[i].datetime <= now
    requires FindByPackage(index, package) == [] && RemoteIndex(package, urls, pip, now) != []
    requires var f := FirstOfVersion(RemoteIndex(package, urls, pip, now), version);
      f.Some? && f.value.filename == filename
    ensures LegacyLookupIn(LegacyResult(index + RemoteIndex(package, urls, pip, now), package, urls, now), version, filename)
         == Found(FirstOfVersion(RemoteIndex(package, urls, pip, now), version).value)
  {
    SecondRequestListed(index, package, urls, pip, now);
  }

  /** Once the remote documents of a package are stored after stamps in
      the past, the package is listed as exactly those documents. */
  lemma SecondRequestListed(index: seq<CachePackage>, package: string, urls: seq<string>,
                            pip: (string, string) -> PipResult, now: int)
    requires forall i :: 0 <= i < |index| ==> index[i].datetime <= now
    requires FindByPackage(index, package) == [] && RemoteIndex(package, urls, pip, now) != []
    ensures LegacyResult(index + RemoteIndex(package, urls, pip, now), package, urls, now)
         == Listing(RemoteIndex(package, urls, pip, now))
  {
    var remote := RemoteIndex(package, urls, pip, now);
    var after := index + remote;
    FirstVersionsStamped(package, {}, Listed(package, urls, pip), now);
    FindByPackageAppend(index, remote, package);
    assert FindByPackage(after, package) == remote;
    forall i | 0 <= i < |after| ensures after[i].datetime <= now {
      if i >= |index| {
        assert after[i] == remote[i - |index|];
      }
    }
    LegacyCachedListed(after, package, urls, now);
  }
}
