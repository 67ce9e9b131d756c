/** The module-level package cache of the MongoDB web application
    (`cacheIndex`, `cachePackageStream`, `cachePackageAdd` and the three
    request handlers). The index collection is a sequence of documents in
    insertion order and GridFS a map from file name to bytes; names are
    used as given, without normalisation. */
module CacheApp {
  import opened Common
  import opened IndexUtil
  import opened CacheCore
  import opened PypiPages

  /** `CACHE_FS_CHUNK_SIZE`: bytes per read of the stream body. */
  const CACHE_FS_CHUNK_SIZE: nat := 256 * 1024 * 1024

  /** Some cached document has a URL. */
  predicate AnyUrl(cached: seq<CachePackage>) {
    exists i :: 0 <= i < |cached| && cached[i].url.Some?
  }

  /** `max(cp.datetime for cp in cached if cp.url is not None)`. */
  function MaxUrlStamp(cached: seq<CachePackage>): (m: int)
    requires AnyUrl(cached)
    ensures exists i :: 0 <= i < |cached| && cached[i].url.Some? && cached[i].datetime == m
    ensures forall i :: 0 <= i < |cached| && cached[i].url.Some? ==> cached[i].datetime <= m
    decreases |cached|
  {
    var last := cached[|cached| - 1];
    var init := cached[..|cached| - 1];
    if !AnyUrl(init) then
      assert forall i :: 0 <= i < |init| ==> init[i] == cached[i];
      last.datetime
    else
      var m := MaxUrlStamp(init);
      assert forall i :: 0 <= i < |init| ==> init[i] == cached[i];
      if last.url.Some? && last.datetime > m then last.datetime else m
  }

  /** What the staleness test of `cacheIndex` decides. */
  datatype Refresh =
    | MaxRaises   // a non-empty cache without URLs: `max()` of an empty sequence raises
    | Refresh     // read the upstream indexes
    | KeepCache

  function RefreshDecision(cached: seq<CachePackage>, now: int): Refresh {
    if cached == [] then Refresh
    else if !AnyUrl(cached) then MaxRaises
    else if MaxUrlStamp(cached) - now > CACHE_INDEX_TTL then Refresh
    else KeepCache
  }

  /** With every cached stamp in the past, the test as written refreshes
      exactly when nothing is cached: `max - now` is never above seven days. */
  lemma RefreshOnlyWhenEmpty(cached: seq<CachePackage>, now: int)
    requires forall i :: 0 <= i < |cached| ==> cached[i].datetime <= now
    requires cached == [] || AnyUrl(cached)
    ensures RefreshDecision(cached, now) == Refresh <==> cached == []
    ensures cached != [] ==> RefreshDecision(cached, now) == KeepCache
  {
    if cached != [] {
      var i :| 0 <= i < |cached| && cached[i].url.Some? && cached[i].datetime == MaxUrlStamp(cached);
    }
  }

  /** What `cacheIndex` gave: it raised, or its list or `None`. */
  datatype IndexOutcome = IndexRaised | IndexResult(entries: Option<seq<CachePackage>>)

  /** The documents `cacheIndex` inserts: the whole remote list, when the
      cache was refreshed and some upstream index reported the package. */
  function Inserted(index: seq<CachePackage>, package: string, urls: seq<string>,
                    pip: (string, string) -> PipResult, now: int): seq<CachePackage> {
    if RefreshDecision(FindByPackage(index, package), now) == Refresh && Reported(package, urls, pip)
    then RemoteIndex(package, urls, pip, now)
    else []
  }

  /** What `cacheIndex` returns. */
  function CacheIndexResult(index: seq<CachePackage>, package: string, urls: seq<string>,
                            pip: (string, string) -> PipResult, now: int): IndexOutcome {
    var cached := FindByPackage(index, package);
    match RefreshDecision(cached, now)
    case MaxRaises => IndexRaised
    case KeepCache => IndexResult(Some(cached))
    case Refresh =>
      if Reported(package, urls, pip) then IndexResult(Some(RemoteIndex(package, urls, pip, now)))
      else if cached != [] then IndexResult(Some(cached))
      else IndexResult(None)
  }

  /** `cacheIndex` gives `None` exactly when nothing was cached and no
      upstream index reported the package; a reported package whose
      upstream lists nothing gives an empty list, when an empty bulk
      insert is a no-op (see README "## Left out"). */
  lemma CacheIndexNoneIff(index: seq<CachePackage>, package: string, urls: seq<string>,
                          pip: (string, string) -> PipResult, now: int)
    ensures CacheIndexResult(index, package, urls, pip, now) == IndexResult(None)
        <==> FindByPackage(index, package) == [] && !Reported(package, urls, pip)
    ensures FindByPackage(index, package) == [] && Reported(package, urls, pip)
        ==> CacheIndexResult(index, package, urls, pip, now) == IndexResult(Some(RemoteIndex(package, urls, pip, now)))
  {
  }

  /** After a refresh that some upstream answered, the result is the
      remote list: documents of that package, stamped `now`, one per
      version, each built from the first artifact listed for its version. */
  lemma RefreshedIndexCorrect(index: seq<CachePackage>, package: string, urls: seq<string>,
                              pip: (string, string) -> PipResult, now: int)
    requires RefreshDecision(FindByPackage(index, package), now) == Refresh && Reported(package, urls, pip)
    ensures var r := CacheIndexResult(index, package, urls, pip, now);
      && r == IndexResult(Some(Inserted(index, package, urls, pip, now)))
      && DistinctVersions(r.entries.value)
      && (forall k :: 0 <= k < |r.entries.value| ==> r.entries.value[k].package == package && r.entries.value[k].datetime == now)
    ensures var ps := Listed(package, urls, pip);
      forall i :: 0 <= i < |ps| && (forall m :: 0 <= m < i ==> ps[m].version != ps[i].version) ==>
        RemoteEntry(package, ps[i], now) in RemoteIndex(package, urls, pip, now)
  {
    var ps := Listed(package, urls, pip);
    FirstVersionsFresh(package, {}, ps, now);
    forall i | 0 <= i < |ps| && (forall m :: 0 <= m < i ==> ps[m].version != ps[i].version)
      ensures RemoteEntry(package, ps[i], now) in RemoteIndex(package, urls, pip, now)
    {
      FirstVersionsCover(package, {}, ps, now, i);
    }
  }

  function LookupIn(r: IndexOutcome, version: string, filename: string): (l: Lookup)
    ensures l == LookupRaised <==> r == IndexRaised || r == IndexResult(None)
    ensures l.Found? ==> r.IndexResult? && r.entries.Some? && l.cp.version == version && l.cp.filename == filename
                         && FirstOfVersion(r.entries.value, version) == Some(l.cp)
    ensures r.IndexResult? && r.entries.Some? ==>
      var f := FirstOfVersion(r.entries.value, version);
      && (l == NoStream <==> f.None? || f.value.filename != filename)
      && (f.Some? && f.value.filename == filename ==> l == Found(f.value))
  {
    if r.IndexRaised? || r.entries.None? then LookupRaised
    else match FirstOfVersion(r.entries.value, version)
      case None => NoStream
      case Some(cp) => if cp.filename != filename then NoStream else Found(cp)
  }

  /** The document `cachePackageAdd` inserts. */
  function UploadPackage(package: string, version: string, filename: string, content: Bytes,
                         md5: Bytes -> string, now: int): CachePackage {
    CachePackage(package, now, version, filename, Some(md5(content)), Some("md5"), None)
  }

  /** What `cachePackageAdd` returned. */
  datatype AddOutcome = AddRaised | AddResult(ok: bool)

  /** The outcome of `cachePackageAdd` from the cache state it starts in:
      it raises when the index lookup raises or gives `None`, refuses a
      known version or an existing file, and otherwise succeeds. */
  function AddOutcomeOf(index: seq<CachePackage>, files: map<string, Bytes>, package: string, version: string,
                        urls: seq<string>, pip: (string, string) -> PipResult, now: int): AddOutcome {
    var r := CacheIndexResult(index, package, urls, pip, now);
    if r.IndexRaised? || r.entries.None? then AddRaised
    else if FirstOfVersion(r.entries.value, version).Some? then AddResult(false)
    else if PosixJoin(package, version) in files then AddResult(false)
    else AddResult(true)
  }

  /** Adding a package no upstream index knows, while nothing is cached for
      it, always raises: the unguarded lookup iterates `None`. */
  lemma AddUnknownPackageRaises(index: seq<CachePackage>, files: map<string, Bytes>, package: string, version: string,
                                urls: seq<string>, pip: (string, string) -> PipResult, now: int)
    requires FindByPackage(index, package) == [] && !Reported(package, urls, pip)
    ensures AddOutcomeOf(index, files, package, version, urls, pip, now) == AddRaised
  {
    CacheIndexNoneIff(index, package, urls, pip, now);
  }

  /** The response of `_pypi_upload` once the fields are valid. */
  function AddResponse(a: AddOutcome): Response {
    match a
    case AddRaised => Response("500 Internal Server Error", "Internal Server Error")
    case AddResult(ok) => if ok then Response("200 OK", "") else Response("400 File Exists", "")
  }

  class CacheStore {
    var index: seq<CachePackage>
    var files: map<string, Bytes>
    const indexUrls: seq<string>

    /** A cache over empty stores. */
    constructor (indexUrls: seq<string>)
      ensures index == [] && files == map[] && this.indexUrls == indexUrls
    {
      index := [];
      files := map[];
      this.indexUrls := indexUrls;
    }

    /** `cacheIndex`. */
    method CacheIndex(package: string, pip: (string, string) -> PipResult, now: int) returns (r: IndexOutcome)
      modifies this`index
      ensures index == old(index) + Inserted(old(index), package, indexUrls, pip, now)
      ensures r == CacheIndexResult(old(index), package, indexUrls, pip, now)
    {
      var cacheIndex := FindByPackage(index, package);
      var cacheIndexExists := |cacheIndex| != 0;
      if cacheIndexExists && !AnyUrl(cacheIndex) {
        return IndexRaised;
      }
      if !cacheIndexExists || MaxUrlStamp(cacheIndex) - now > CACHE_INDEX_TTL {
        var remoteIndex, remoteExists := ReadRemote(package, indexUrls, pip, now);
        if remoteExists {
          cacheIndex := remoteIndex;
          cacheIndexExists := true;
          index := index + remoteIndex;
        } else {
          assert index + [] == index;
        }
      } else {
        assert index + [] == index;
      }
      r := IndexResult(if cacheIndexExists then Some(cacheIndex) else None);
    }

    /** `cachePackageStream`: the first document of the version, if its
        file name matches, as the stream body to run later. */
    method CachePackageStream(package: string, version: string, filename: string,
                              pip: (string, string) -> PipResult, now: int) returns (r: Lookup)
      modifies this`index
      ensures index == old(index) + Inserted(old(index), package, indexUrls, pip, now)
      ensures r == LookupIn(CacheIndexResult(old(index), package, indexUrls, pip, now), version, filename)
    {
      var cacheIndex := CacheIndex(package, pip, now);
      if cacheIndex.IndexRaised? || cacheIndex.entries.None? {
        return LookupRaised;
      }
      var cachePackage := FirstOfVersion(cacheIndex.entries.value, version);
      if cachePackage.None? || cachePackage.value.filename != filename {
        return NoStream;
      }
      r := Found(cachePackage.value);
    }

    /** The body of `packageStream`: downloads the document's URL into
        GridFS at `posixpath.join(package, version)` when that file is
        missing, then yields the file in 256 MiB reads. */
    method RunPackageStream(cp: CachePackage, download: string -> Option<Bytes>) returns (r: StreamRun)
      modifies this`files
      ensures var key := PosixJoin(cp.package, cp.version);
        && (key in old(files) ==> files == old(files) && r.Chunks?)
        && (key !in old(files) && !Downloadable(cp, download) ==> r == RunRaised && files == old(files))
        && (key !in old(files) && Downloadable(cp, download) ==>
              r.Chunks? && files == old(files)[key := download(cp.url.value).value])
        && (r.Chunks? ==> key in files && Flatten(r.chunks) == files[key] && ChunkedBy(r.chunks, CACHE_FS_CHUNK_SIZE))
    {
      var mfsFilename := PosixJoin(cp.package, cp.version);
      if mfsFilename !in files {
        if cp.url.None? || cp.url.value == "" {
          return RunRaised;
        }
        var content := download(cp.url.value);
        if content.None? {
          return RunRaised;
        }
        files := files[mfsFilename := content.value];
      }
      var chunks := ReadChunks(files[mfsFilename], CACHE_FS_CHUNK_SIZE);
      r := Chunks(chunks);
    }

    /** `cachePackageAdd`: after the index lookup (which may refresh), a
        known version or an existing file is refused; otherwise the md5
        document without URL is inserted, then the file is written. */
    method CachePackageAdd(package: string, version: string, filename: string, content: Bytes,
                           md5: Bytes -> string, pip: (string, string) -> PipResult, now: int) returns (r: AddOutcome)
      modifies this`index, this`files
      ensures r == AddOutcomeOf(old(index), old(files), package, version, indexUrls, pip, now)
      ensures var refreshed := old(index) + Inserted(old(index), package, indexUrls, pip, now);
        && (r != AddResult(true) ==> index == refreshed && files == old(files))
        && (r == AddResult(true) ==> index == refreshed + [UploadPackage(package, version, filename, content, md5, now)]
                                     && files == old(files)[PosixJoin(package, version) := content])
    {
      var cachePackage := UploadPackage(package, version, filename, content, md5, now);
      var cacheIndex := CacheIndex(package, pip, now);
      if cacheIndex.IndexRaised? || cacheIndex.entries.None? {
        return AddRaised;
      }
      if FirstOfVersion(cacheIndex.entries.value, version).Some? {
        return AddResult(false);
      }
      var mfsFilename := PosixJoin(package, version);
      if mfsFilename in files {
        return AddResult(false);
      }
      index := index + [cachePackage];
      files := files[mfsFilename := content];
      r := AddResult(true);
    }

    /** `pypi_index_response`. */
    method PypiIndex(package: string, pip: (string, string) -> PipResult, now: int) returns (page: IndexPage)
      modifies this`index
      ensures index == old(index) + Inserted(old(index), package, indexUrls, pip, now)
      ensures var r := CacheIndexResult(old(index), package, indexUrls, pip, now);
        page == if r.IndexRaised? then PageRaised else PageOf(package, r.entries)
    {
      var cachePackages := CacheIndex(package, pip, now);
      if cachePackages.IndexRaised? {
        return PageRaised;
      }
      page := PageOf(package, cachePackages.entries);
    }

    /** `_pypi_upload` under `pypi_upload`'s catch-all: 400 with an empty
        body for a request that is not multipart, 400 "Bad Request" for
        invalid fields, then the outcome of the add. */
    method PypiUpload(req: UploadRequest, md5: Bytes -> string, pip: (string, string) -> PipResult, now: int)
      returns (resp: Response)
      modifies this`index, this`files
      ensures !req.multipart ==> resp == Response("400 Bad Request", "") && index == old(index) && files == old(files)
      ensures req.multipart && ValidateUpload(req.parts).None? ==>
        resp == Response("400 Bad Request", "Bad Request") && index == old(index) && files == old(files)
      ensures req.multipart && ValidateUpload(req.parts).Some? ==>
        var u := ValidateUpload(req.parts).value;
        var refreshed := old(index) + Inserted(old(index), u.package, indexUrls, pip, now);
        && resp == AddResponse(AddOutcomeOf(old(index), old(files), u.package, u.version, indexUrls, pip, now))
        && (resp == Response("200 OK", "") ==>
              index == refreshed + [UploadPackage(u.package, u.version, u.filename, u.content, md5, now)]
              && files == old(files)[PosixJoin(u.package, u.version) := u.content])
        && (resp != Response("200 OK", "") ==> index == refreshed && files == old(files))
    {
      if !req.multipart {
        return Response("400 Bad Request", "");
      }
      var upload := ValidateUpload(req.parts);
      if upload.None? {
        return Response("400 Bad Request", "Bad Request");
      }
      var u := upload.value;
      var added := CachePackageAdd(u.package, u.version, u.filename, u.content, md5, pip, now);
      resp := AddResponse(added);
    }
  }

  /** The entry has a non-empty URL and fetching it succeeds. */
  predicate Downloadable(cp: CachePackage, download: string -> Option<Bytes>) {
    cp.url.Some? && cp.url.value != "" && download(cp.url.value).Some?
  }

  /** A cache of a package that holds an upstream document, with stamps
      in the past, is kept as it is by `cacheIndex`. */
  lemma KeptCache(index: seq<CachePackage>, package: string, urls: seq<string>,
                  pip: (string, string) -> PipResult, now: int)
    requires forall i :: 0 <= i < |index| ==> index[i].datetime <= now
    requires exists i :: 0 <= i < |index| && index[i].package == package && index[i].url.Some?
    ensures CacheIndexResult(index, package, urls, pip, now) == IndexResult(Some(FindByPackage(index, package)))
    ensures Inserted(index, package, urls, pip, now) == []
  {
    var cached := FindByPackage(index, package);
    FindByPackageMembers(index, package);
    assert AnyUrl(cached) by {
      var i :| 0 <= i < |index| && index[i].package == package && index[i].url.Some?;
      assert index[i] in cached;
      var k :| 0 <= k < |cached| && cached[k] == index[i];
    }
    forall k | 0 <= k < |cached| ensures cached[k].datetime <= now {
      assert cached[k] in cached;
    }
    RefreshOnlyWhenEmpty(cached, now);
  }

  /** After an upload into a cache that holds an upstream document of the
      package, with stamps in the past, the stream lookup finds the
      uploaded document. */
  lemma KeptFoundAfterUpload(index: seq<CachePackage>, package: string, version: string, filename: string,
                             e: CachePackage, urls: seq<string>, pip: (string, string) -> PipResult, now: int)
    requires forall i :: 0 <= i < |index| ==> index[i].datetime <= now
    requires exists i :: 0 <= i < |index| && index[i].package == package && index[i].url.Some?
    requires FirstOfVersion(FindByPackage(index, package), version).None?
    requires e.package == package && e.version == version && e.filename == filename && e.datetime == now
    ensures Inserted(index + [e], package, urls, pip, now) == []
    ensures LookupIn(CacheIndexResult(index + [e], package, urls, pip, now), version, filename) == Found(e)
  {
    var index' := index + [e];
    var i :| 0 <= i < |index| && index[i].package == package && index[i].url.Some?;
    assert index'[i] == index[i];
    KeptCache(index', package, urls, pip, now);
    FindByPackageAppend(index, [e], package);
    var cached := FindByPackage(index, package);
    var cached' := cached + [e];
    assert FirstOfVersion(cached', version) == Some(e) by {
      assert forall k :: 0 <= k < |cached| ==> cached'[k] == cached[k];
    }
  }

  /** The refresh inserts documents stamped `now`, so stamps in the past
      stay at most `now`. */
  lemma RefreshedStamps(index: seq<CachePackage>, package: string, urls: seq<string>,
                        pip: (string, string) -> PipResult, now: int)
    requires forall i :: 0 <= i < |index| ==> index[i].datetime <= now
    ensures var after := index + Inserted(index, package, urls, pip, now);
      forall i :: 0 <= i < |after| ==> after[i].datetime <= now
  {
    var added := Inserted(index, package, urls, pip, now);
    var after := index + added;
    FirstVersionsStamped(package, {}, Listed(package, urls, pip), now);
    forall i | 0 <= i < |after| ensures after[i].datetime <= now {
      if i >= |index| {
        assert after[i] == added[i - |index|];
      }
    }
  }

  /** With stamps in the past, a list that `cacheIndex` returns is exactly
      what the collection holds for the package afterwards. */
  lemma ResultIsStored(index: seq<CachePackage>, package: string, urls: seq<string>,
                       pip: (string, string) -> PipResult, now: int)
    requires forall i :: 0 <= i < |index| ==> index[i].datetime <= now
    requires CacheIndexResult(index, package, urls, pip, now).IndexResult?
    requires CacheIndexResult(index, package, urls, pip, now).entries.Some?
    ensures CacheIndexResult(index, package, urls, pip, now).entries.value
         == FindByPackage(index + Inserted(index, package, urls, pip, now), package)
  {
    var cached := FindByPackage(index, package);
    var added := Inserted(index, package, urls, pip, now);
    FindByPackageMembers(index, package);
    forall k | 0 <= k < |cached| ensures cached[k].datetime <= now {
      assert cached[k] in cached;
    }
    RefreshOnlyWhenEmpty(cached, now);
    FirstVersionsStamped(package, {}, Listed(package, urls, pip), now);
    FindByPackageAppend(index, added, package);
  }

  /** After an upload, the stream lookup finds the uploaded document when
      the collection as the add's own refresh left it holds an upstream
      document of the package: the cache was kept, or a first request
      inserted the upstream documents. */
  lemma FoundAfterUpload(index: seq<CachePackage>, package: string, version: string, filename: string,
                         e: CachePackage, urls: seq<string>, pip: (string, string) -> PipResult, now: int)
    requires forall i :: 0 <= i < |index| ==> index[i].datetime <= now
    requires var refreshed := index + Inserted(index, package, urls, pip, now);
      && (exists i :: 0 <= i < |refreshed| && refreshed[i].package == package && refreshed[i].url.Some?)
      && FirstOfVersion(FindByPackage(refreshed, package), version).None?
    requires e.package == package && e.version == version && e.filename == filename && e.datetime == now
    ensures var refreshed := index + Inserted(index, package, urls, pip, now);
      && Inserted(refreshed + [e], package, urls, pip, now) == []
      && LookupIn(CacheIndexResult(refreshed + [e], package, urls, pip, now), version, filename) == Found(e)
  {
    RefreshedStamps(index, package, urls, pip, now);
    KeptFoundAfterUpload(index + Inserted(index, package, urls, pip, now), package, version, filename, e, urls, pip, now);
  }

  /** When an empty bulk insert is a no-op (see README "## Left out"),
      upstream reports the package with no artifacts and nothing is
      cached, the first upload succeeds but stores the only document of
      the package, which has no URL: the next lookup's `max()` runs over
      no stamp and raises, so the upload cannot be downloaded. */
  lemma UploadAfterEmptyListingRaises(index: seq<CachePackage>, files: map<string, Bytes>, package: string,
                                      version: string, filename: string, content: Bytes, md5: Bytes -> string,
                                      urls: seq<string>, pip: (string, string) -> PipResult, now: int, later: int)
    requires FindByPackage(index, package) == [] && Reported(package, urls, pip) && Listed(package, urls, pip) == []
    requires PosixJoin(package, version) !in files
    ensures AddOutcomeOf(index, files, package, version, urls, pip, now) == AddResult(true)
    ensures Inserted(index, package, urls, pip, now) == []
    ensures var e := UploadPackage(package, version, filename, content, md5, now);
      && CacheIndexResult(index + [e], package, urls, pip, later) == IndexRaised
      && LookupIn(CacheIndexResult(index + [e], package, urls, pip, later), version, filename) == LookupRaised
  {
    var e := UploadPackage(package, version, filename, content, md5, now);
    assert RemoteIndex(package, urls, pip, now) == [];
    FindByPackageAppend(index, [e], package);
    assert FindByPackage(index + [e], package) == [e];
    assert !AnyUrl([e]);
  }

  /** Add then download: with stamps in the past, when the collection as
      the add's own refresh leaves it holds an upstream document of the
      package (already cached, or inserted by that refresh), a successful
      upload is found again by the next stream lookup, and running the
      stream yields exactly the uploaded bytes without a download. */
  method UploadThenDownload(s: CacheStore, package: string, version: string, filename: string, content: Bytes,
                            md5: Bytes -> string, pip: (string, string) -> PipResult,
                            download: string -> Option<Bytes>, now: int)
    returns (added: AddOutcome, found: Lookup, run: StreamRun)
    requires forall i :: 0 <= i < |s.index| ==> s.index[i].datetime <= now
    requires var refreshed := s.index + Inserted(s.index, package, s.indexUrls, pip, now);
      exists i :: 0 <= i < |refreshed| && refreshed[i].package == package && refreshed[i].url.Some?
    modifies s
    ensures added == AddResult(true) ==>
      && found == Found(UploadPackage(package, version, filename, content, md5, now))
      && run.Chunks? && Flatten(run.chunks) == content
      && s.files == old(s.files)[PosixJoin(package, version) := content]
  {
    ghost var index0 := s.index;
    added := s.CachePackageAdd(package, version, filename, content, md5, pip, now);
    found := NoStream;
    run := RunRaised;
    if added == AddResult(true) {
      var e := UploadPackage(package, version, filename, content, md5, now);
      ResultIsStored(index0, package, s.indexUrls, pip, now);
      FoundAfterUpload(index0, package, version, filename, e, s.indexUrls, pip, now);
      ghost var refreshed := index0 + Inserted(index0, package, s.indexUrls, pip, now);
      assert s.index == refreshed + [e];
      found := s.CachePackageStream(package, version, filename, pip, now);
      run := s.RunPackageStream(found.cp, download);
    }
  }
}
