# mrpypi package cache, modelled in Dafny

mrpypi is a private PyPI mirror. It answers three requests:

- an index page that lists a package's download links;
- a download that streams one artifact;
- an upload that stores a new source distribution.

Behind the requests sits a cache of index entries, one per (package, version), and of artifact bytes. Upstream package indexes fill the cache the first time a package is requested. The repository holds several revisions of this cache. This project models each of them:

| Dafny module | file | models |
|---|---|---|
| `Common` | `common.dfy` | bytes, `Option`, ASCII `strip`/`lower`, and the fixed-size chunked read every stream body performs |
| `IndexUtil` | `index_util.dfy` | the entry records, Python's string order, and the stable `sorted` by `(version, extension rank)` of `pip_package_versions` |
| `MemoryIndexModel` | `memory_index.dfy` | `MemoryIndex`: dictionaries updated in place (a class) |
| `MongoIndexModel` | `mongo_index.dfy` | `MongoIndex`, in both its snake_case and camelCase copies (the algorithms are the same): a class over the index collection (a sequence of documents in insertion order) and GridFS (a map from file name to bytes) |
| `CacheCore` | `cache_core.dfy` | what the two module-level applications share: the `CachePackage` document, the lookup by package, `posixpath.join`, and the upstream read loop that keeps the first artifact of each version |
| `PypiPages` | `pypi_pages.dfy` | the download link of a document, the index page's outcome, and the upload field check with the file name it builds |
| `CacheApp` | `app_cache.dfy` | the module-level MongoDB application: `cacheIndex`, `cachePackageStream`, `cachePackageAdd`, the index page and the upload handler |
| `LegacyApp` | `legacy_app.dfy` | the oldest application: `cachePackageVersions`, a stream read straight from the upstream URL, and an upload that only logs |

Outside inputs are parameters:

- The upstream finder is a function `pip` from an index URL and a package name to a `PipResult`. A `PipResult` says the call raised, the package is unknown, or the package has this list of artifacts.
- A download is a function from URL to `Option<Bytes>`. `None` means that opening or reading the URL raised.
- The md5 digest is a function from bytes to its hex string.
- The clock is an integer `now`, in microseconds.

Python exceptions that reach the caller become explicit outcomes, such as `LookupRaised`, `IndexRaised`, `AddRaised` and `PageRaised`.

The model keeps the code's behaviour as written, including three surprising points:

- The module-level staleness test computes `max(datetime) - now > 7 days`. When every stored stamp is in the past this is never true, so a non-empty cache is never refreshed (`CacheApp.RefreshOnlyWhenEmpty`, `LegacyApp.StaleOnlyWhenEmpty`).
- In the module-level MongoDB application, when an empty bulk insert is a no-op (see "## Left out"), a package that upstream reports with no artifacts can be uploaded once. Afterwards its only document has no URL, so the staleness test's `max()` has nothing to run over and every lookup of the package raises (`CacheApp.UploadAfterEmptyListingRaises`).
- In the oldest application the upstream loop reuses the name `index` as its loop variable. A stale, non-empty cache therefore returns the last index URL instead of its list. A package whose cache was empty is reported missing even after the refresh has inserted its documents (`LegacyApp.RequestTwice`, `LegacyApp.SecondRequestListed`).

## Model

| member | source | states |
|---|---|---|
| Common.StripLeftCorrect | mrpypi/mongo_index.py:70-80 | `lstrip` removes exactly the leading whitespace: the result is a suffix, everything dropped is whitespace, and the result does not start with whitespace |
| Common.StripRightCorrect | mrpypi/mongo_index.py:70-80 | `rstrip` removes exactly the trailing whitespace: the result is a prefix, everything dropped is whitespace, and the result does not end with whitespace |
| Common.StripIdempotent | mrpypi/mongo_index.py:74-80 | stripping twice gives the same result as stripping once |
| Common.LowerHasNoCapitals | mrpypi/mongo_index.py:70-72 | a lower-cased name contains no ASCII capital letter |
| Common.ReadChunks | mrpypi/mongo_index.py:184-189 | the read loop yields chunks that concatenate to the whole file; every chunk is non-empty and at most the read size, and every chunk but the last is exactly the read size |
| IndexUtil.SortByKeyCorrect | mrpypi/index_util.py:55-56 | the sort orders by `(version, rank)`, is a permutation of its input, and is stable: artifacts that share a key keep their input order |
| IndexUtil.PipPackageVersionsCorrect | mrpypi/index_util.py:50-56 | `pip_package_versions` returns exactly the finder's artifacts as a multiset, in non-decreasing version-string order; within one version, `.tar.gz` comes before `.zip`, `.zip` before `.tar.bz2`, and `.tar.bz2` before any other extension; artifacts with the same version and rank keep their finder order |
| IndexUtil.TarballBeforeZip | mrpypi/index_util.py:55-56 | a `.zip` listed before a `.tar.gz` of the same version comes out after it |
| IndexUtil.FirstOfVersionBestRank | mrpypi/mongo_index.py:124-127 | in the sorted list, the first artifact of a version has the lowest extension rank of that version |
| MemoryIndexModel.InsertNewCorrect | mrpypi/memory_index.py:56-66 | the insertion loop never replaces an existing entry; it adds exactly the upstream versions; a new version gets the first upstream artifact listed for it |
| MemoryIndexModel.UpdateWithoutUpstreamIsNoOp | mrpypi/memory_index.py:49-55 | with no index URL, or an upstream that returns `None`, the index is left unchanged and no dictionary is created for the package |
| MemoryIndexModel.UpdateKeepsEntries | mrpypi/memory_index.py:49-66 | an update touches only the package's own dictionary, keeps every entry it held, and adds exactly the upstream versions with their first-listed artifacts |
| MemoryIndexModel.MemoryIndex.constructor | mrpypi/memory_index.py:44-47 | a new index has empty entry and content dictionaries and keeps its index URL |
| MemoryIndexModel.MemoryIndex.UpdateIndex | mrpypi/memory_index.py:49-66 | `_update_index` keeps entries placed under their own name and version, and leaves the index equal to the insertion specification applied to the old index |
| MemoryIndexModel.MemoryIndex.GetPackageIndex | mrpypi/memory_index.py:68-75 | upstream is consulted only for an unknown package or a forced update; the result is `None` exactly when the package is still unknown, and otherwise the set of its entries, each of that package and stored under its own version |
| MemoryIndexModel.MemoryIndex.AddPackage | mrpypi/memory_index.py:77-94 | the add succeeds exactly when the version is not indexed; when rejected, nothing changes; when accepted, an md5 entry without URL is stored under its version and the content is kept for it, never replacing content kept before |
| MemoryIndexModel.MemoryIndex.GetPackageStream | mrpypi/memory_index.py:96-111 | the index is refreshed once when the version is unknown; the entry looked up has the requested name and version, and all kept content belongs to the entry under its own name and version; there is no stream exactly when the version is missing or has another file name; kept content is streamed without a download; otherwise the download is stored and streamed, and a failed download raises and stores nothing |
| MemoryIndexModel.UploadThenDownload | mrpypi/memory_index.py:77-111 | after a successful add, the stream for the same name, version and file name yields exactly the uploaded bytes |
| MongoIndexModel.IndexOrLength | mrpypi/mongo_index.py:51-55 | the rank is the position of the extension in the preference tuple, or the tuple's length when it is absent |
| MongoIndexModel.ExtRankValues | mrpypi/mongo_index.py:47-55 | the ranks are `.tar.gz` 0, `.zip` 1, `.tar.bz2` 2, and 3 for every other extension |
| MongoIndexModel.ExtPreference | mrpypi/mongo_index.py:47-55 | for the same version, the sort key places `.tar.gz` strictly before `.zip`, `.zip` strictly before `.tar.bz2`, and `.tar.bz2` strictly before any other extension; the same holds at `mrpypi/mongoIndex.py:18-26` |
| MongoIndexModel.NormalizeNameIdempotent | mrpypi/mongo_index.py:70-72 | name normalisation is idempotent and gives a string with no surrounding whitespace, so the second normalisation inside `get_package_index` changes nothing; the same holds at `mrpypi/mongoIndex.py:41-44` |
| MongoIndexModel.NormalizeVersionIdempotent | mrpypi/mongo_index.py:74-76 | version normalisation is idempotent and gives a trimmed string |
| MongoIndexModel.LocalFilenameInjective | mrpypi/mongo_index.py:82-84 | when neither package name contains `/`, distinct package versions get distinct GridFS file names |
| MongoIndexModel.LocalFilenameCollision | mrpypi/mongo_index.py:82-84 | with a `/` in the package name, two different package versions share one GridFS file name |
| MongoIndexModel.FindByNameMembers | mrpypi/mongo_index.py:102-109 | `find({'name': name})` returns exactly the stored documents with that name |
| MongoIndexModel.FindByNameAppend | mrpypi/mongo_index.py:141-143 | inserting documents of a package appends them to what `find` returns for it |
| MongoIndexModel.FindByNameDistinct | mrpypi/mongo_index.py:86-89 | under the unique `(name, version)` index, a package's documents have distinct versions |
| MongoIndexModel.FirstWithVersion | mrpypi/mongo_index.py:153 | the lookup finds nothing exactly when no entry has the version; otherwise it finds the first entry with that version |
| MongoIndexModel.NewEntriesFresh | mrpypi/mongo_index.py:124-137 | the entries a refresh creates carry the package name, the refresh time, and a trimmed version that was not known before; no two of them share a version |
| MongoIndexModel.NewEntriesCover | mrpypi/mongo_index.py:124-137 | each candidate that is the first of a version not known before gets its entry |
| MongoIndexModel.MergedIndexCorrect | mrpypi/mongo_index.py:94-145 | the result begins with the cached entries unchanged and then holds only new ones; no version appears twice; nothing is added when the cache is non-empty and no update is forced; the result is `None` exactly when nothing was cached and nothing was added; the same holds at `mrpypi/mongoIndex.py:65-116` |
| MongoIndexModel.PreferredArtifactKept | mrpypi/mongo_index.py:119-137 | for a newly discovered version, the artifact kept is one of that version's best-ranked artifacts |
| MongoIndexModel.AppendNew | mrpypi/mongo_index.py:124-137 | the inner loop over one sorted upstream list leaves entries and known versions from which the remaining candidates complete the same merge |
| MongoIndexModel.CollectNew | mrpypi/mongo_index.py:116-139 | the loop over the index URLs produces exactly the specified new entries; URLs that raised or do not know the package are skipped |
| MongoIndexModel.RefreshKeepsUnique | mrpypi/mongo_index.py:141-143 | inserting the new entries keeps the unique `(name, version)` index |
| MongoIndexModel.AppendKeepsUnique | mrpypi/mongo_index.py:216-224 | appending entries of one package whose versions are distinct and not already stored keeps the unique index |
| MongoIndexModel.NoRefreshWhenCached | mrpypi/mongo_index.py:112-113 | once a package has documents, a lookup without `force_update` adds nothing and returns what is cached |
| MongoIndexModel.FoundAfterAdd | mrpypi/mongo_index.py:198-203 | after an upload of a version the merged index did not have, the next lookup adds nothing and finds the uploaded entry first for that version |
| MongoIndexModel.MongoIndex.constructor | mrpypi/mongo_index.py:65-68 | a new client starts over empty stores and keeps its index URLs |
| MongoIndexModel.MongoIndex.GetPackageIndex | mrpypi/mongo_index.py:94-145 | the collection gains exactly the new entries, the unique index holds, and the result is the merged list, or `None` when that list is empty; the same holds at `mrpypi/mongoIndex.py:65-116` |
| MongoIndexModel.MongoIndex.GetPackageStream | mrpypi/mongo_index.py:147-155 | arguments are normalised; the lookup raises when the index is `None`, gives no stream for a missing version or another file name, and otherwise captures the first entry of the version; the same holds at `mrpypi/mongoIndex.py:118-127` |
| MongoIndexModel.MongoIndex.RunPackageStream | mrpypi/mongo_index.py:158-189 | an existing GridFS file is streamed unchanged; a missing one is downloaded and stored first, which raises and stores nothing when the URL is empty or the download fails; the chunks concatenate to the stored file in 4096-byte reads; the same holds at `mrpypi/mongoIndex.py:129-160` |
| MongoIndexModel.MongoIndex.AddPackage | mrpypi/mongo_index.py:193-231 | after the refreshing lookup, the add succeeds exactly when the normalised version is not indexed and its GridFS file does not exist; when rejected, only the refresh has happened; when accepted, one md5 entry without URL is appended and the file is written; the same holds at `mrpypi/mongoIndex.py:164-202` |
| MongoIndexModel.UploadThenStream | mrpypi/mongo_index.py:147-231 | after a successful add, the next stream lookup captures the uploaded entry, and running the stream yields exactly the uploaded bytes from GridFS |
| CacheCore.FindByPackageMembers | mrpypi/mrpypi.py:64-67 | the documents found for a package are exactly the stored ones with that package; the same holds at `mrpypi.py:56-59` |
| CacheCore.FindByPackageAppend | mrpypi/mrpypi.py:98 | inserting a package's documents appends them to what is found for it |
| CacheCore.PosixJoinInjective | mrpypi/mrpypi.py:118 | for non-empty package names without `/` and versions that are not absolute, two documents share a GridFS file only when both package and version agree; the same holds at `mrpypi/mrpypi.py:165` |
| CacheCore.PosixJoinCollision | mrpypi/mrpypi.py:165 | an absolute version string makes two packages share one GridFS file |
| CacheCore.ReadRemote | mrpypi/mrpypi.py:74-90 | the upstream loop gives the documents of the remote specification, and `remoteExists` is true exactly when some URL reported the package; the same holds at `mrpypi.py:66-82` |
| CacheCore.ReportedIff | mrpypi/mrpypi.py:78-82 | `remoteExists` holds exactly when some index URL returned a list of artifacts |
| CacheCore.ListedSkipsSilentUrl | mrpypi/mrpypi.py:78-90 | a URL that raised or does not know the package contributes nothing |
| CacheCore.FirstVersionsFresh | mrpypi/mrpypi.py:83-88 | documents read from upstream carry the package and the refresh time; no two share a version |
| CacheCore.FirstVersionsCover | mrpypi/mrpypi.py:83-88 | the first artifact listed for each version is kept |
| CacheCore.FirstVersionsSound | mrpypi/mrpypi.py:83-88 | every kept document comes from an artifact that no earlier artifact shares a version with |
| CacheCore.FirstOfVersion | mrpypi/mrpypi.py:105 | the lookup finds nothing exactly when no document has the version; otherwise it finds the first one that does; the same holds at `mrpypi.py:94` |
| PypiPages.LinksOf | mrpypi/mrpypi.py:194-200 | there is one link per document, in order, each being that document's link |
| PypiPages.PageLinksSplit | mrpypi/mrpypi.py:189-200 | a listed package's page has one link per document, and link k splits at `#` back into document k's download path (lower-cased package, version, file name) and exactly its `hash_name=hash`, or no fragment without a hash |
| PypiPages.LinkUrlFragment | mrpypi/mrpypi.py:194-200 | splitting a link at `#` gives back the download path from the lower-cased package, the version and the file name, and exactly `hash_name=hash`; a document without a hash gets no fragment |
| PypiPages.ValidateUploadCorrect | mrpypi/mrpypi.py:280-296 | an upload is accepted exactly when each field is sent once, the action is `file_upload`, the file type is `sdist`, and name, version and content are non-empty; the accepted upload carries those values and the file name `name-version.tar.gz`; the same holds at `mrpypi.py:212-228` |
| PypiPages.Package3Upload | mrpypi/tests/test_mrpypi.py:123-157 | the upload of package3 version 0.1.4 is accepted as `package3-0.1.4.tar.gz` |
| PypiPages.RepeatedFieldRejected | mrpypi/mrpypi.py:280-293 | a required field that is sent more than once, or not at all, rejects the upload |
| CacheApp.MaxUrlStamp | mrpypi/mrpypi.py:71 | the value is the largest stamp among documents that have a URL, and some such document has it |
| CacheApp.RefreshOnlyWhenEmpty | mrpypi/mrpypi.py:71 | with every stamp in the past, the test as written refreshes exactly when nothing is cached; otherwise the cache is kept |
| CacheApp.CacheIndexNoneIff | mrpypi/mrpypi.py:55-100 | `cacheIndex` gives `None` exactly when nothing was cached and no upstream reported the package; a package reported while nothing was cached gives the remote list |
| CacheApp.RefreshedIndexCorrect | mrpypi/mrpypi.py:74-100 | after a refresh that some upstream answered, the result is the inserted remote list, with one document per version, each stamped `now`, and the first artifact of every version is kept |
| CacheApp.LookupIn | mrpypi/mrpypi.py:104-107 | the stream lookup raises exactly when the index raised or gave `None`; over a list, there is no stream exactly when no document has the version or its first document has another file name, and otherwise that first document is found |
| CacheApp.AddUnknownPackageRaises | mrpypi/mrpypi.py:159 | adding a package that no upstream knows, while nothing is cached for it, raises: the lookup iterates `None` |
| CacheApp.CacheStore.CacheIndex | mrpypi/mrpypi.py:55-100 | the collection gains exactly the remote list when a refresh found the package, and the result follows the `cacheIndex` specification |
| CacheApp.CacheStore.CachePackageStream | mrpypi/mrpypi.py:102-107 | the refresh is the one `cacheIndex` performs, and the lookup follows that index result |
| CacheApp.CacheStore.RunPackageStream | mrpypi/mrpypi.py:110-142 | the GridFS key is `posixpath.join(package, version)`; an existing file is streamed unchanged; a missing one is downloaded and stored first, which raises and stores nothing when the URL is empty or the download fails; the chunks concatenate to the file in 256 MiB reads |
| CacheApp.CacheStore.CachePackageAdd | mrpypi/mrpypi.py:146-179 | the outcome is raised, refused or accepted, as the specification from the starting state says; when not accepted, only the refresh has happened; when accepted, one md5 document without URL is appended and the file is written |
| CacheApp.CacheStore.PypiIndex | mrpypi/mrpypi.py:186-222 | the page raises when the index raised, and otherwise is 404 or the list of links for the index result |
| CacheApp.CacheStore.PypiUpload | mrpypi/mrpypi.py:271-311 | a non-multipart request gets 400 with an empty body and invalid fields get 400 "Bad Request", both without changing anything; otherwise a raised add gives 500, a refused one "400 File Exists", and an accepted one 200; a 200 leaves the refreshed index plus the md5 document and GridFS plus the upload under `posixpath.join(package, version)`, and any other answer leaves the refreshed index and GridFS unchanged |
| CacheApp.KeptCache | mrpypi/mrpypi.py:68-71 | a cache holding an upstream document with stamps in the past is returned as it is, and nothing is inserted |
| CacheApp.ResultIsStored | mrpypi/mrpypi.py:55-100 | with stamps in the past, any list `cacheIndex` returns is exactly what the collection holds for the package after its refresh |
| CacheApp.FoundAfterUpload | mrpypi/mrpypi.py:55-107 | with stamps in the past, when the collection as the add's own refresh left it holds an upstream document of the package (already cached, or just inserted for a package nothing was cached for), the refresh of the next lookup inserts nothing and the lookup finds the uploaded document |
| CacheApp.UploadThenDownload | mrpypi/mrpypi.py:55-179 | under the same condition, including a first upload of a package that upstream lists with URLs, a successful add is found by the next stream lookup, running the stream yields exactly the uploaded bytes, and GridFS holds them under `posixpath.join(package, version)` |
| CacheApp.UploadAfterEmptyListingRaises | mrpypi/mrpypi.py:71 | when an empty bulk insert is a no-op (see "## Left out"), upstream reports a package with no artifacts and nothing is cached, the first upload succeeds and inserts nothing else, but every later lookup raises, because `max()` runs over documents with a URL and there are none |
| LegacyApp.MaxStamp | mrpypi.py:63 | the value is the largest stamp of the cached documents, and some document has it |
| LegacyApp.StaleOnlyWhenEmpty | mrpypi.py:63 | with every stamp in the past, the cache is stale exactly when it is empty |
| LegacyApp.LegacyCachedListed | mrpypi.py:57-63 | with stamps in the past, a cached package is listed as cached |
| LegacyApp.LegacyLookupIn | mrpypi.py:94-96 | the lookup over `None` raises; over the URL string it raises unless the string is empty; over a list it never raises, gives no stream exactly for an unknown version or a file-name mismatch, and otherwise finds the first document of the version |
| LegacyApp.SecondLookupFound | mrpypi.py:47-108 | after a first request inserted the remote documents of a package nothing was cached for, a stream request finds the first remote document of the version whenever its file name matches |
| LegacyApp.LegacyPageIgnoresUpstream | mrpypi.py:118-132 | when an empty bulk insert is a no-op (see "## Left out"), the page is 404 exactly when nothing was cached before the request, even when upstream reported the package and its documents were inserted; with stamps in the past a cached package gets the links of its cached documents |
| LegacyApp.LegacyUploadAccepted | mrpypi.py:203-233 | the answer is 200 exactly for a multipart request whose five fields are each sent once, with action `file_upload`, file type `sdist` and non-empty name, version and content; everything else is 400 "Bad Request" |
| LegacyApp.RunLegacyStream | mrpypi.py:98-106 | the stream raises exactly when there is no URL or the download fails; otherwise the chunks concatenate to the downloaded bytes in 4096-byte reads |
| LegacyApp.LegacyStore.CachePackageVersions | mrpypi.py:47-90 | when an empty bulk insert is a no-op (see "## Left out"), the collection gains the remote list when a stale cache was refreshed and upstream reported the package, and the result follows the specification as written |
| LegacyApp.LegacyStore.CachePackageStream | mrpypi.py:92-108 | the lookup is made over the result of `cachePackageVersions` |
| LegacyApp.LegacyStore.PypiIndex | mrpypi.py:118-154 | when an empty bulk insert is a no-op (see "## Left out"), the page is made from the result of `cachePackageVersions` |
| LegacyApp.RequestTwice | mrpypi.py:47-90 | for a package that nothing is cached for but upstream lists, the first request reports it missing, and the second lists exactly the documents the first inserted |
| LegacyApp.SecondRequestListed | mrpypi.py:47-90 | once a first request has stored the remote documents of a package nothing was cached for, with stamps in the past, the next request lists exactly those documents |

## Left out

- The upstream finder (`PackageFinder._find_all_versions`), HTTP downloads, the md5 digest and `datetime.now()` are inputs, not code. They are passed as functions or values because they are foreign I/O.
- Both clock reads in `cachePackageAdd` and `add_package` use one `now`. The difference between the two reads is left out because it does not change any outcome the model tracks.
- A download stream is modelled as the whole body, then chunked. Partial reads and a connection that breaks mid-stream are I/O and are left out.
- MongoDB and GridFS are a sequence of documents and a map of files. Concurrency, races between requests, and connection failures are not modelled. The unique `(name, version)` index is the `UniqueKeys` invariant the class keeps; a duplicate-key error cannot arise under it.
- `find` is assumed to return documents in insertion order. MongoDB does not promise any order without a sort.
- Inserting an empty remote list is treated as a no-op on purpose. The calls at mrpypi/mrpypi.py:98 and mrpypi.py:88 are unguarded, unlike the later revisions (mrpypi/mongo_index.py:142, mrpypi/mongoIndex.py:113). The pymongo versions that have `insert` refuse an empty batch with `InvalidOperation`.
  - In mrpypi/mrpypi.py, as written, the first index request or upload of a package that upstream reports with no artifacts therefore raises, and the upload answers 500. The model instead lets that request succeed. So `CacheApp.CacheIndexNoneIff` (an empty list for such a package) and `CacheApp.UploadAfterEmptyListingRaises` (one accepted upload) describe the code under that no-op.
  - In mrpypi.py, as written, a refresh whose upstream reports the package with no artifacts raises, and so does the index page built from it. This happens for an empty cache, and for a stale non-empty cache (stamps in the future). The model instead gives `Missing` (a 404 page) or the shadowed URL. So `LegacyApp.LegacyPageIgnoresUpstream`, `LegacyApp.LegacyStore.CachePackageVersions` and `LegacyApp.LegacyStore.PypiIndex` describe the code under that no-op.
- `MemoryIndex`: exceptions from `pip_package_versions` propagate in the source and are not modelled, so the in-memory upstream gives a list or `None`. The index result is a set of entries, because dictionary value order is insertion order and carries no promise.
- HTML page text, `quoteattr`/`cgi.escape`, `cgi` multipart parsing, content-type headers, logging, chisel routing and the download response wrapper (`pypi_download_response`, which maps no stream to 404) are left out. The model produces the list of link URLs, the parsed form as an input, and the status and body.
- `strip` removes Python 3's ASCII whitespace: space, 9..13 and the separators 28..31. Non-ASCII whitespace such as U+0085 and U+00A0 is not in the modelled set, so the model keeps it where Python 3 strips it.
- `lower` maps the ASCII capitals only. Unicode case folding is not modelled.
- `__main__`, `compat`, `setup.py`, the default index URLs, and Mongo URI/database defaults are left out because they are configuration, not cache logic.
- MongoIndexModel.PreferredArtifactKept: proved only for one upstream URL whose versions are already normalised. With several URLs, or versions that normalisation merges, an earlier list or an earlier raw version can win.
- CacheApp.CacheStore.PypiUpload: only a raised `cachePackageAdd` is turned into a 500. Exceptions from request parsing are not modelled.
