/** The MongoDB revision of the package index (`MongoIndex`, written twice
    in the repository with the same algorithms, once in snake_case and once
    in camelCase). The index collection is a sequence of documents in
    insertion order, GridFS is a map from file name to bytes, and the
    upstream index is the function `pip`, which gives for an index URL and
    a package name what `pip_package_versions` returned or that it raised. */
module MongoIndexModel {
  import opened Common
  import opened IndexUtil

  /** Bytes per read of the stream body. */
  const STREAM_CHUNK_SIZE: nat := 4096

  /** Prefer tarballs over the other extensions. */
  const PIP_PACKAGE_EXT_ORDER: seq<string> := [".tar.gz", ".zip", ".tar.bz2"]

  // ----- pure helpers ---------------------------------------------------

  function NormalizeName(packageName: string): string {
    Lower(Strip(packageName))
  }

  function NormalizeVersion(version: string): string {
    Strip(version)
  }

  function NormalizeFilename(filename: string): string {
    Strip(filename)
  }

  /** The GridFS file name of a package version. */
  function LocalFilename(packageName: string, version: string): string {
    packageName + "/" + version
  }

  /** `tuple.index(x)`, or the length when `x` is missing (the
      `ValueError` branch of the sort key). */
  function IndexOrLength(s: seq<string>, x: string): (r: nat)
    ensures r <= |s|
    ensures r < |s| ==> s[r] == x
    ensures forall i :: 0 <= i < r ==> s[i] != x
  {
    if s == [] then 0 else if s[0] == x then 0 else 1 + IndexOrLength(s[1..], x)
  }

  /** The rank part of `_pip_package_sort_key`. */
  function ExtRank(ext: string): int {
    IndexOrLength(PIP_PACKAGE_EXT_ORDER, ext)
  }

  /** `_pip_package_sort_key`. */
  function PipPackageSortKey(p: PipPackage): (string, int) {
    KeyOf(p, ExtRank)
  }

  /** The ranks: `.tar.gz` 0, `.zip` 1, `.tar.bz2` 2, anything else 3. */
  lemma ExtRankValues(ext: string)
    ensures ExtRank(".tar.gz") == 0 && ExtRank(".zip") == 1 && ExtRank(".tar.bz2") == 2
    ensures ext != ".tar.gz" && ext != ".zip" && ext != ".tar.bz2" ==> ExtRank(ext) == 3
  {
  }

  /** The sort key prefers `.tar.gz` to `.zip`, `.zip` to `.tar.bz2`, and
      `.tar.bz2` to every other extension, for the same version. */
  lemma ExtPreference(v: string, a: Link, b: Link)
    requires (a.ext == ".tar.gz" && b.ext != ".tar.gz")
          || (a.ext == ".zip" && b.ext != ".tar.gz" && b.ext != ".zip")
          || (a.ext == ".tar.bz2" && b.ext != ".tar.gz" && b.ext != ".zip" && b.ext != ".tar.bz2")
    ensures KeyLe(PipPackageSortKey(PipPackage(v, a)), PipPackageSortKey(PipPackage(v, b)))
    ensures !KeyLe(PipPackageSortKey(PipPackage(v, b)), PipPackageSortKey(PipPackage(v, a)))
  {
    ExtRankValues(b.ext);
  }

  /** Normalising a name twice is normalising it once, so the operations
      that normalise and then call `get_package_index`, which normalises
      again, look up the same name. */
  lemma NormalizeNameIdempotent(packageName: string)
    ensures NormalizeName(NormalizeName(packageName)) == NormalizeName(packageName)
    ensures Trimmed(NormalizeName(packageName))
  {
    var t := Strip(packageName);
    StripTrimmed(packageName);
    LowerKeepsTrimmed(t);
    StripOfTrimmed(Lower(t));
    LowerIdempotent(t);
  }

  lemma NormalizeVersionIdempotent(version: string)
    ensures NormalizeVersion(NormalizeVersion(version)) == NormalizeVersion(version)
    ensures Trimmed(NormalizeVersion(version))
  {
    StripIdempotent(version);
    StripTrimmed(version);
  }

  /** Without a `/` in the package name, distinct package versions get
      distinct GridFS file names. */
  lemma LocalFilenameInjective(n1: string, v1: string, n2: string, v2: string)
    requires LocalFilename(n1, v1) == LocalFilename(n2, v2)
    requires '/' !in n1 && '/' !in n2
    ensures n1 == n2 && v1 == v2
  {
    var s := LocalFilename(n1, v1);
    assert forall k :: 0 <= k < |n1| ==> s[k] == n1[k] != '/';
    assert forall k :: 0 <= k < |n2| ==> s[k] == n2[k] != '/';
    assert s[|n1|] == '/' && s[|n2|] == '/';
    assert |n1| == |n2|;
    assert n1 == s[..|n1|] && n2 == s[..|n2|];
    assert v1 == s[|n1| + 1..] && v2 == s[|n2| + 1..];
  }

  /** With a `/` in the name, two package versions share one GridFS file. */
  lemma LocalFilenameCollision()
    ensures LocalFilename("a/b", "c") == LocalFilename("a", "b/c")
  {
  }

  // ----- the index collection --------------------------------------------

  /** `find({'name': name})`: the documents of a package, in insertion order. */
  function FindByName(index: seq<IndexEntry>, name: string): seq<IndexEntry> {
    if index == [] then []
    else FindByName(index[..|index| - 1], name)
         + (if index[|index| - 1].name == name then [index[|index| - 1]] else [])
  }

  function Versions(entries: seq<IndexEntry>): set<string> {
    set i | 0 <= i < |entries| :: entries[i].version
  }

  /** No two entries share a version. */
  predicate DistinctVersions(entries: seq<IndexEntry>) {
    forall i, j :: 0 <= i < j < |entries| ==> entries[i].version != entries[j].version
  }

  /** The unique `(name, version)` index of the collection. */
  ghost predicate UniqueKeys(index: seq<IndexEntry>) {
    forall i, j :: 0 <= i < j < |index| ==>
      index[i].name != index[j].name || index[i].version != index[j].version
  }

  lemma {:induction false} FindByNameAppend(index: seq<IndexEntry>, added: seq<IndexEntry>, name: string)
    requires forall k :: 0 <= k < |added| ==> added[k].name == name
    ensures FindByName(index + added, name) == FindByName(index, name) + added
    decreases |added|
  {
    if added != [] {
      var init := added[..|added| - 1];
      assert index + added == (index + init) + [added[|added| - 1]];
      assert (index + added)[..|index + added| - 1] == index + init;
      assert FindByName(index + added, name) == FindByName(index + init, name) + [added[|added| - 1]];
      FindByNameAppend(index, init, name);
      assert added == init + [added[|added| - 1]];
    } else {
      assert index + added == index;
    }
  }

  /** The documents found for a name are exactly those with that name. */
  lemma {:induction false} FindByNameMembers(index: seq<IndexEntry>, name: string)
    ensures forall e :: e in FindByName(index, name) <==> e in index && e.name == name
    decreases |index|
  {
    if index != [] {
      FindByNameMembers(index[..|index| - 1], name);
      assert index == index[..|index| - 1] + [index[|index| - 1]];
    }
  }

  /** Under the unique index, a package's documents have distinct versions. */
  lemma {:induction false} FindByNameDistinct(index: seq<IndexEntry>, name: string)
    requires UniqueKeys(index)
    ensures DistinctVersions(FindByName(index, name))
    decreases |index|
  {
    if index != [] {
      var init := index[..|index| - 1];
      var last := index[|index| - 1];
      FindByNameDistinct(init, name);
      FindByNameMembers(init, name);
      var f := FindByName(init, name);
      if last.name == name {
        forall i | 0 <= i < |f| ensures f[i].version != last.version {
          assert f[i] in f;
          var k :| 0 <= k < |init| && init[k] == f[i];
          assert index[k] == f[i];
        }
      }
    }
  }

  // ----- merging in the upstream artifacts ---------------------------------

  /** The artifacts of every URL whose upstream found the package, each
      list sorted by `_pip_package_sort_key`, in URL order. */
  function Candidates(name: string, urls: seq<string>, pip: (string, string) -> PipResult): seq<PipPackage> {
    if urls == [] then []
    else (match pip(urls[0], name)
          case PipFound(ps) => SortByKey(ps, ExtRank)
          case _ => [])
         + Candidates(name, urls[1..], pip)
  }

  /** The entry built for a newly discovered upstream artifact. */
  function NewEntry(name: string, p: PipPackage, now: int): IndexEntry {
    IndexEntry(name, NormalizeVersion(p.version), p.link.filename, p.link.hash, p.link.hashName, p.link.url, Some(now))
  }

  /** The inner loop: an entry for each candidate whose normalised version
      is neither known nor already added. */
  function NewEntries(name: string, known: set<string>, ps: seq<PipPackage>, now: int): seq<IndexEntry>
    decreases |ps|
  {
    if ps == [] then []
    else if NormalizeVersion(ps[0].version) in known then NewEntries(name, known, ps[1..], now)
    else [NewEntry(name, ps[0], now)] + NewEntries(name, known + {NormalizeVersion(ps[0].version)}, ps[1..], now)
  }

  /** The entries a refresh adds to the cached ones. */
  function AddedEntries(index: seq<IndexEntry>, name: string, forceUpdate: bool, urls: seq<string>,
                        pip: (string, string) -> PipResult, now: int): seq<IndexEntry> {
    var cached := FindByName(index, name);
    if cached == [] || forceUpdate then NewEntries(name, Versions(cached), Candidates(name, urls, pip), now)
    else []
  }

  /** The list `get_package_index` builds: cached entries, then new ones. */
  function MergedIndex(index: seq<IndexEntry>, name: string, forceUpdate: bool, urls: seq<string>,
                       pip: (string, string) -> PipResult, now: int): seq<IndexEntry> {
    FindByName(index, name) + AddedEntries(index, name, forceUpdate, urls, pip, now)
  }

  /** `package_index or None`. */
  function NoneIfEmpty(entries: seq<IndexEntry>): Option<seq<IndexEntry>> {
    if entries == [] then None else Some(entries)
  }

  /** The first entry of a version (`next(... if pe.version == version)`). */
  function FirstWithVersion(entries: seq<IndexEntry>, version: string): (r: Option<IndexEntry>)
    ensures r.None? <==> version !in Versions(entries)
    ensures r.Some? ==> r.value in entries && r.value.version == version
    ensures r.Some? ==> exists i :: 0 <= i < |entries| && entries[i] == r.value
                          && forall m :: 0 <= m < i ==> entries[m].version != version
  {
    if entries == [] then None
    else if entries[0].version == version then Some(entries[0])
    else
      var r := FirstWithVersion(entries[1..], version);
      assert forall i :: 0 < i < |entries| ==> entries[i] == entries[1..][i - 1];
      assert Versions(entries) == {entries[0].version} + Versions(entries[1..]) by {
        forall v | v in Versions(entries) ensures v in {entries[0].version} + Versions(entries[1..]) {
          var i :| 0 <= i < |entries| && entries[i].version == v;
          if i > 0 {
            assert entries[1..][i - 1] == entries[i];
          }
        }
      }
      r
  }

  /** New entries carry the package name, the refresh time and a
      normalised version that was not known, and no two share a version. */
  lemma {:induction false} NewEntriesFresh(name: string, known: set<string>, ps: seq<PipPackage>, now: int)
    ensures var r := NewEntries(name, known, ps, now);
      && DistinctVersions(r)
      && (forall k :: 0 <= k < |r| ==>
            r[k].version !in known && r[k].name == name && r[k].datetime == Some(now) && Trimmed(r[k].version))
    decreases |ps|
  {
    if ps == [] {
      return;
    }
    var v := NormalizeVersion(ps[0].version);
    if v in known {
      NewEntriesFresh(name, known, ps[1..], now);
    } else {
      NormalizeVersionIdempotent(ps[0].version);
      NewEntriesFresh(name, known + {v}, ps[1..], now);
      var rest := NewEntries(name, known + {v}, ps[1..], now);
      var r := [NewEntry(name, ps[0], now)] + rest;
      assert forall k :: 0 < k < |r| ==> r[k] == rest[k - 1];
    }
  }

  /** For every candidate that is the first of a version not known yet,
      its entry is among the new ones. */
  lemma {:induction false} NewEntriesCover(name: string, known: set<string>, ps: seq<PipPackage>, now: int, i: nat)
    requires i < |ps| && NormalizeVersion(ps[i].version) !in known
    requires forall m :: 0 <= m < i ==> NormalizeVersion(ps[m].version) != NormalizeVersion(ps[i].version)
    ensures NewEntry(name, ps[i], now) in NewEntries(name, known, ps, now)
    decreases |ps|
  {
    var v := NormalizeVersion(ps[0].version);
    if i > 0 {
      var next := if v in known then known else known + {v};
      assert ps[1..][i - 1] == ps[i];
      forall m | 0 <= m < i - 1
        ensures NormalizeVersion(ps[1..][m].version) != NormalizeVersion(ps[1..][i - 1].version)
      {
        assert ps[1..][m] == ps[m + 1];
      }
      NewEntriesCover(name, next, ps[1..], now, i - 1);
    }
  }

  /** `get_package_index` returns the cached entries unchanged and first,
      then only newly discovered ones; no version appears twice; upstream
      is consulted only for an empty cache or a forced update; and the
      result is `None` exactly when the merged list is empty. */
  lemma MergedIndexCorrect(index: seq<IndexEntry>, name: string, forceUpdate: bool, urls: seq<string>,
                           pip: (string, string) -> PipResult, now: int)
    requires UniqueKeys(index)
    ensures var m := MergedIndex(index, name, forceUpdate, urls, pip, now);
      var cached := FindByName(index, name);
      var added := AddedEntries(index, name, forceUpdate, urls, pip, now);
      && m[..|cached|] == cached
      && DistinctVersions(m)
      && (cached != [] && !forceUpdate ==> added == [])
      && (forall k :: 0 <= k < |added| ==>
            added[k].version !in Versions(cached) && added[k].name == name && added[k].datetime == Some(now))
      && (NoneIfEmpty(m).None? <==> cached == [] && added == [])
  {
    var cached := FindByName(index, name);
    var known := Versions(cached);
    FindByNameDistinct(index, name);
    NewEntriesFresh(name, known, Candidates(name, urls, pip), now);
    var added := AddedEntries(index, name, forceUpdate, urls, pip, now);
    assert (cached + added)[..|cached|] == cached;
    DistinctConcat(cached, added);
  }

  /** Two lists with distinct versions, the second avoiding the first's
      versions, concatenate to a list with distinct versions. */
  lemma DistinctConcat(a: seq<IndexEntry>, b: seq<IndexEntry>)
    requires DistinctVersions(a) && DistinctVersions(b)
    requires forall k :: 0 <= k < |b| ==> b[k].version !in Versions(a)
    ensures DistinctVersions(a + b)
  {
    var m := a + b;
    forall i, j | 0 <= i < j < |m| ensures m[i].version != m[j].version {
      if j >= |a| && i < |a| {
        assert m[j] == b[j - |a|];
        assert m[i] == a[i];
        assert m[i].version in Versions(a);
      } else if i >= |a| {
        assert m[i] == b[i - |a|] && m[j] == b[j - |a|];
      }
    }
  }

  /** The first position of a version in a list of artifacts. */
  function FirstIndexOfVersion(t: seq<PipPackage>, v: string, j: nat): (i: nat)
    requires j < |t| && t[j].version == v
    ensures i <= j && t[i].version == v
    ensures forall m :: 0 <= m < i ==> t[m].version != v
  {
    if t[0].version == v then 0 else 1 + FirstIndexOfVersion(t[1..], v, j - 1)
  }

  /** With a single upstream URL whose versions are already normalised,
      the artifact kept for a newly discovered version is one of the
      best-ranked artifacts of that version: a `.tar.gz` when there is
      one, else a `.zip`, else a `.tar.bz2`. */
  lemma PreferredArtifactKept(name: string, known: set<string>, u: string,
                              pip: (string, string) -> PipResult, now: int, q: PipPackage)
    requires pip(u, name).PipFound?
    requires forall p :: p in pip(u, name).packages ==> Trimmed(p.version)
    requires q in pip(u, name).packages && q.version !in known
    ensures exists p :: p in pip(u, name).packages && p.version == q.version
               && ExtRank(p.link.ext) <= ExtRank(q.link.ext)
               && NewEntry(name, p, now) in NewEntries(name, known, Candidates(name, [u], pip), now)
  {
    var raw := pip(u, name).packages;
    var t := SortByKey(raw, ExtRank);
    assert Candidates(name, [u], pip) == t by {
      assert Candidates(name, [u], pip) == t + Candidates(name, [], pip);
    }
    SortByKeySortedPerm(raw, ExtRank);
    var i := BestOfVersion(raw, t, q);
    TrimmedVersionsStay(raw, t);
    NewEntriesCover(name, known, t, now, i);
    assert t[i] in raw;
  }

  /** In the sorted artifacts, the first one of `q`'s version ranks no
      worse than `q` and is one of the original artifacts. */
  lemma BestOfVersion(raw: seq<PipPackage>, t: seq<PipPackage>, q: PipPackage) returns (i: nat)
    requires SortedBy(t, ExtRank) && multiset(t) == multiset(raw) && q in raw
    ensures i < |t| && t[i].version == q.version && t[i] in raw
    ensures forall m :: 0 <= m < i ==> t[m].version != q.version
    ensures ExtRank(t[i].link.ext) <= ExtRank(q.link.ext)
  {
    assert q in multiset(raw);
    assert q in multiset(t);
    var jq :| 0 <= jq < |t| && t[jq] == q;
    i := FirstIndexOfVersion(t, q.version, jq);
    FirstOfVersionBestRank(t, ExtRank, i, jq);
    assert t[i] in multiset(t);
  }

  /** Sorting keeps the artifacts, so normalising their versions still
      changes nothing. */
  lemma TrimmedVersionsStay(raw: seq<PipPackage>, t: seq<PipPackage>)
    requires multiset(t) == multiset(raw)
    requires forall p :: p in raw ==> Trimmed(p.version)
    ensures forall m :: 0 <= m < |t| ==> NormalizeVersion(t[m].version) == t[m].version
  {
    forall m | 0 <= m < |t| ensures NormalizeVersion(t[m].version) == t[m].version {
      assert t[m] in multiset(t);
      assert t[m] in raw;
      StripOfTrimmed(t[m].version);
    }
  }

  // ----- stream handles and outcomes ---------------------------------------

  /** What the generator returned by `get_package_stream` captures. */
  datatype StreamHandle = StreamHandle(name: string, version: string, entry: IndexEntry)

  datatype StreamLookup =
    | LookupRaised                     // get_package_index gave None: iterating it raises
    | NoStream                         // no entry of that version, or another filename
    | StreamReady(handle: StreamHandle)

  /** The outcome of a lookup against a computed index. */
  function Lookup(r: Option<seq<IndexEntry>>, version: string, filename: string, name: string): StreamLookup {
    if r.None? then LookupRaised
    else match FirstWithVersion(r.value, version)
      case None => NoStream
      case Some(e) => if e.filename != filename then NoStream else StreamReady(StreamHandle(name, version, e))
  }

  /** One step of the inner loop: the first candidate is added when its
      version is new, and the rest finish the merge. */
  lemma NewEntriesStep(name: string, known: set<string>, ps: seq<PipPackage>, now: int, acc: seq<IndexEntry>)
    requires ps != []
    ensures var v := NormalizeVersion(ps[0].version);
      acc + NewEntries(name, known, ps, now)
      == if v in known then acc + NewEntries(name, known, ps[1..], now)
         else (acc + [NewEntry(name, ps[0], now)]) + NewEntries(name, known + {v}, ps[1..], now)
  {
    var v := NormalizeVersion(ps[0].version);
    if v !in known {
      var later := NewEntries(name, known + {v}, ps[1..], now);
      assert acc + ([NewEntry(name, ps[0], now)] + later) == (acc + [NewEntry(name, ps[0], now)]) + later;
    }
  }

  /** The inner loop of `get_package_index` over one sorted upstream list:
      the entries it appends and the versions it then knows are those that
      let the remaining candidates `rest` finish the same merge. */
  method AppendNew(name: string, known: set<string>, sorted: seq<PipPackage>, ghost rest: seq<PipPackage>, now: int)
    returns (newEntries: seq<IndexEntry>, versions: set<string>)
    ensures newEntries + NewEntries(name, versions, rest, now) == NewEntries(name, known, sorted + rest, now)
  {
    newEntries := [];
    versions := known;
    var j := 0;
    while j < |sorted|
      invariant 0 <= j <= |sorted|
      invariant newEntries + NewEntries(name, versions, sorted[j..] + rest, now) == NewEntries(name, known, sorted + rest, now)
    {
      ghost var tail := sorted[j..] + rest;
      assert tail != [] && tail[0] == sorted[j] && tail[1..] == sorted[j + 1..] + rest;
      NewEntriesStep(name, versions, tail, now, newEntries);
      var version := NormalizeVersion(sorted[j].version);
      if version !in versions {
        newEntries := newEntries + [NewEntry(name, sorted[j], now)];
        versions := versions + {version};
      }
      j := j + 1;
    }
    assert sorted[j..] + rest == rest;
  }

  /** The outer loop of `get_package_index`: every upstream URL in turn,
      skipping those that raised or do not know the package. */
  method CollectNew(name: string, known: set<string>, urls: seq<string>, pip: (string, string) -> PipResult, now: int)
    returns (update: seq<IndexEntry>)
    ensures update == NewEntries(name, known, Candidates(name, urls, pip), now)
  {
    update := [];
    var versions := known;
    var i := 0;
    while i < |urls|
      invariant 0 <= i <= |urls|
      invariant update + NewEntries(name, versions, Candidates(name, urls[i..], pip), now)
                == NewEntries(name, known, Candidates(name, urls, pip), now)
    {
      ghost var rest := Candidates(name, urls[i + 1..], pip);
      assert urls[i..][1..] == urls[i + 1..];
      var found := pip(urls[i], name);
      if found.PipFound? {
        var sorted := SortByKey(found.packages, ExtRank);
        assert Candidates(name, urls[i..], pip) == sorted + rest;
        var newEntries;
        newEntries, versions := AppendNew(name, versions, sorted, rest, now);
        update := update + newEntries;
      } else {
        assert Candidates(name, urls[i..], pip) == rest;
      }
      i := i + 1;
    }
    assert urls[i..] == [];
  }

  /** A refresh keeps the unique `(name, version)` index. */
  lemma RefreshKeepsUnique(index: seq<IndexEntry>, name: string, forceUpdate: bool, urls: seq<string>,
                           pip: (string, string) -> PipResult, now: int)
    requires UniqueKeys(index)
    ensures UniqueKeys(index + AddedEntries(index, name, forceUpdate, urls, pip, now))
  {
    var cached := FindByName(index, name);
    var added := AddedEntries(index, name, forceUpdate, urls, pip, now);
    if cached == [] || forceUpdate {
      NewEntriesFresh(name, Versions(cached), Candidates(name, urls, pip), now);
      FindByNameMembers(index, name);
      forall e | e in index && e.name == name ensures e.version !in Versions(added) {
        var i :| 0 <= i < |cached| && cached[i] == e;
        assert e.version in Versions(cached);
      }
      AppendKeepsUnique(index, name, added);
    } else {
      assert index + added == index;
    }
  }

  /** After a refresh, `find` returns the merged list. */
  lemma RefreshedFind(index: seq<IndexEntry>, name: string, forceUpdate: bool, urls: seq<string>,
                      pip: (string, string) -> PipResult, now: int)
    ensures FindByName(index + AddedEntries(index, name, forceUpdate, urls, pip, now), name)
         == MergedIndex(index, name, forceUpdate, urls, pip, now)
  {
    var cached := FindByName(index, name);
    if cached == [] || forceUpdate {
      NewEntriesFresh(name, Versions(cached), Candidates(name, urls, pip), now);
    }
    FindByNameAppend(index, AddedEntries(index, name, forceUpdate, urls, pip, now), name);
  }

  /** Appending one entry of a version the package does not have keeps the
      unique index. */
  lemma UploadKeepsUnique(index: seq<IndexEntry>, e: IndexEntry)
    requires UniqueKeys(index)
    requires e.version !in Versions(FindByName(index, e.name))
    ensures UniqueKeys(index + [e])
  {
    var found := FindByName(index, e.name);
    FindByNameMembers(index, e.name);
    forall c | c in index && c.name == e.name ensures c.version !in Versions([e]) {
      var i :| 0 <= i < |found| && found[i] == c;
      assert c.version in Versions(found);
    }
    AppendKeepsUnique(index, e.name, [e]);
  }

  /** The entry has a non-empty URL and fetching it succeeds. */
  predicate Downloadable(e: IndexEntry, download: string -> Option<Bytes>) {
    e.url.Some? && e.url.value != "" && download(e.url.value).Some?
  }

  class MongoIndex {
    var index: seq<IndexEntry>
    var files: map<string, Bytes>
    const indexUrls: seq<string>

    ghost predicate Valid()
      reads this
    {
      UniqueKeys(index)
    }

    /** A client over empty stores. */
    constructor (indexUrls: seq<string>)
      ensures Valid() && index == [] && files == map[] && this.indexUrls == indexUrls
    {
      index := [];
      files := map[];
      this.indexUrls := indexUrls;
    }

    /** `get_package_index`. */
    method GetPackageIndex(packageName: string, forceUpdate: bool, pip: (string, string) -> PipResult, now: int)
      returns (r: Option<seq<IndexEntry>>)
      requires Valid()
      modifies this`index
      ensures Valid()
      ensures var name := NormalizeName(packageName);
        && index == old(index) + AddedEntries(old(index), name, forceUpdate, indexUrls, pip, now)
        && r == NoneIfEmpty(MergedIndex(old(index), name, forceUpdate, indexUrls, pip, now))
    {
      var name := NormalizeName(packageName);
      var packageIndex := FindByName(index, name);
      if packageIndex == [] || forceUpdate {
        var update := CollectNew(name, Versions(packageIndex), indexUrls, pip, now);
        packageIndex := packageIndex + update;
        RefreshKeepsUnique(index, name, forceUpdate, indexUrls, pip, now);
        if update != [] {
          index := index + update;
        }
      } else {
        assert packageIndex + [] == packageIndex && index + [] == index;
      }
      r := NoneIfEmpty(packageIndex);
    }

    /** `get_package_stream`: normalises, looks the version up in
        `get_package_index` (which raises when that is `None`), checks the
        filename, and returns the stream body to run later. */
    method GetPackageStream(packageName: string, version: string, filename: string,
                            pip: (string, string) -> PipResult, now: int) returns (r: StreamLookup)
      requires Valid()
      modifies this`index
      ensures Valid()
      ensures var name := NormalizeName(packageName);
        && index == old(index) + AddedEntries(old(index), name, false, indexUrls, pip, now)
        && r == Lookup(NoneIfEmpty(MergedIndex(old(index), name, false, indexUrls, pip, now)),
                       NormalizeVersion(version), NormalizeFilename(filename), name)
    {
      var name := NormalizeName(packageName);
      var v := NormalizeVersion(version);
      var f := NormalizeFilename(filename);
      NormalizeNameIdempotent(packageName);
      var packageIndex := GetPackageIndex(name, false, pip, now);
      if packageIndex.None? {
        return LookupRaised;
      }
      var packageEntry := FirstWithVersion(packageIndex.value, v);
      if packageEntry.None? || packageEntry.value.filename != f {
        return NoStream;
      }
      r := StreamReady(StreamHandle(name, v, packageEntry.value));
    }

    /** The body of the generator `package_stream`: downloads and writes
        the GridFS file when it is missing (the entry must have a URL),
        then yields it in 4096-byte reads. */
    method RunPackageStream(h: StreamHandle, download: string -> Option<Bytes>) returns (r: StreamRun)
      modifies this`files
      ensures var key := LocalFilename(h.name, h.version);
        && (key in old(files) ==> files == old(files) && r.Chunks?)
        && (key !in old(files) && !Downloadable(h.entry, download) ==> r == RunRaised && files == old(files))
        && (key !in old(files) && Downloadable(h.entry, download) ==>
              r.Chunks? && files == old(files)[key := download(h.entry.url.value).value])
        && (r.Chunks? ==> key in files && Flatten(r.chunks) == files[key]
                          && ChunkedBy(r.chunks, STREAM_CHUNK_SIZE))
        && (r.RunRaised? ==> key !in old(files))
    {
      var key := LocalFilename(h.name, h.version);
      if key !in files {
        if h.entry.url.None? || h.entry.url.value == "" {
          return RunRaised;
        }
        var content := download(h.entry.url.value);
        if content.None? {
          return RunRaised;
        }
        files := files[key := content.value];
      }
      var chunks := ReadChunks(files[key], STREAM_CHUNK_SIZE);
      r := Chunks(chunks);
    }

    /** `add_package`: rejected when the version is already indexed (after
        the lookup, which may refresh) or its GridFS file exists; otherwise
        inserts an md5 entry without URL, then writes the file. */
    method AddPackage(packageName: string, version: string, filename: string, content: Bytes,
                      md5: Bytes -> string, pip: (string, string) -> PipResult, now: int) returns (ok: bool)
      requires Valid()
      modifies this`index, this`files
      ensures Valid()
      ensures var name := NormalizeName(packageName);
        var v := NormalizeVersion(version);
        var refreshed := old(index) + AddedEntries(old(index), name, false, indexUrls, pip, now);
        var key := LocalFilename(name, v);
        && (ok <==> v !in Versions(MergedIndex(old(index), name, false, indexUrls, pip, now)) && key !in old(files))
        && (!ok ==> index == refreshed && files == old(files))
        && (ok ==> index == refreshed + [UploadEntry(name, v, NormalizeFilename(filename), content, md5, now)]
                   && files == old(files)[key := content])
    {
      var name := NormalizeName(packageName);
      var v := NormalizeVersion(version);
      var f := NormalizeFilename(filename);
      NormalizeNameIdempotent(packageName);
      var packageIndex := GetPackageIndex(name, false, pip, now);
      var entries := if packageIndex.None? then [] else packageIndex.value;
      ghost var merged := MergedIndex(old(index), name, false, indexUrls, pip, now);
      assert entries == merged;
      if FirstWithVersion(entries, v).Some? {
        return false;
      }
      var key := LocalFilename(name, v);
      if key in files {
        return false;
      }
      RefreshedFind(old(index), name, false, indexUrls, pip, now);
      var e := UploadEntry(name, v, f, content, md5, now);
      UploadKeepsUnique(index, e);
      index := index + [e];
      files := files[key := content];
      ok := true;
    }
  }

  /** Appending entries of one package whose versions are distinct and not
      among that package's stored versions keeps the unique index. */
  lemma AppendKeepsUnique(index: seq<IndexEntry>, name: string, added: seq<IndexEntry>)
    requires UniqueKeys(index)
    requires forall k :: 0 <= k < |added| ==> added[k].name == name
    requires DistinctVersions(added)
    requires forall e :: e in index && e.name == name ==> e.version !in Versions(added)
    ensures UniqueKeys(index + added)
  {
    var all := index + added;
    forall i, j | 0 <= i < j < |all| ensures all[i].name != all[j].name || all[i].version != all[j].version {
      if i < |index| && j >= |index| {
        assert all[j] == added[j - |index|];
        assert all[i] in index;
        if all[i].name == name {
          assert all[j].version in Versions(added);
        }
      } else if i >= |index| {
        assert all[i] == added[i - |index|] && all[j] == added[j - |index|];
      }
    }
  }

  /** Once a package has cached documents, `get_package_index` without
      `force_update` adds nothing and returns what is cached. */
  lemma NoRefreshWhenCached(index: seq<IndexEntry>, name: string, urls: seq<string>,
                            pip: (string, string) -> PipResult, now: int)
    requires FindByName(index, name) != []
    ensures AddedEntries(index, name, false, urls, pip, now) == []
    ensures MergedIndex(index, name, false, urls, pip, now) == FindByName(index, name)
  {
    assert FindByName(index, name) + [] == FindByName(index, name);
  }

  /** After an upload of a version the merged index did not have, the
      next lookup adds nothing and finds the uploaded entry. */
  lemma FoundAfterAdd(index: seq<IndexEntry>, name: string, e: IndexEntry, urls: seq<string>,
                      pip: (string, string) -> PipResult, now: int)
    requires e.name == name
    requires e.version !in Versions(MergedIndex(index, name, false, urls, pip, now))
    ensures var after := index + AddedEntries(index, name, false, urls, pip, now) + [e];
      && AddedEntries(after, name, false, urls, pip, now) == []
      && FirstWithVersion(MergedIndex(after, name, false, urls, pip, now), e.version) == Some(e)
  {
    var added := AddedEntries(index, name, false, urls, pip, now);
    var cached := FindByName(index, name);
    if cached == [] {
      NewEntriesFresh(name, Versions(cached), Candidates(name, urls, pip), now);
    }
    FindByNameAppend(index, added, name);
    var refreshed := index + added;
    FindByNameAppend(refreshed, [e], name);
    var merged := MergedIndex(index, name, false, urls, pip, now);
    assert FindByName(refreshed + [e], name) == merged + [e];
    NoRefreshWhenCached(refreshed + [e], name, urls, pip, now);
    FirstWithVersionAppend(merged, e);
  }

  /** A version missing from a list is found first in the appended entry. */
  lemma {:induction false} FirstWithVersionAppend(entries: seq<IndexEntry>, e: IndexEntry)
    requires e.version !in Versions(entries)
    ensures FirstWithVersion(entries + [e], e.version) == Some(e)
    decreases |entries|
  {
    if entries == [] {
    } else {
      assert entries[0] in entries;
      assert (entries + [e])[1..] == entries[1..] + [e];
      assert Versions(entries[1..]) <= Versions(entries) by {
        forall v | v in Versions(entries[1..]) ensures v in Versions(entries) {
          var i :| 0 <= i < |entries[1..]| && entries[1..][i].version == v;
          assert entries[i + 1].version == v;
        }
      }
      assert entries[0].version in Versions(entries);
      FirstWithVersionAppend(entries[1..], e);
    }
  }

  /** Upload then download: a successful `add_package` is found by the
      next `get_package_stream`, and running that stream yields exactly the
      uploaded bytes from GridFS without a download. */
  method UploadThenStream(m: MongoIndex, packageName: string, version: string, filename: string, content: Bytes,
                          md5: Bytes -> string, pip: (string, string) -> PipResult,
                          download: string -> Option<Bytes>, now: int)
    returns (ok: bool, found: StreamLookup, run: StreamRun)
    requires m.Valid()
    modifies m
    ensures m.Valid()
    ensures ok ==> var name := NormalizeName(packageName);
      var v := NormalizeVersion(version);
      var e := UploadEntry(name, v, NormalizeFilename(filename), content, md5, now);
      && found == StreamReady(StreamHandle(name, v, e))
      && run.Chunks? && Flatten(run.chunks) == content
      && m.files == old(m.files)[LocalFilename(name, v) := content]
  {
    ghost var index0 := m.index;
    ghost var name := NormalizeName(packageName);
    ghost var v := NormalizeVersion(version);
    ghost var e := UploadEntry(name, v, NormalizeFilename(filename), content, md5, now);
    ok := m.AddPackage(packageName, version, filename, content, md5, pip, now);
    found := NoStream;
    run := RunRaised;
    if ok {
      FoundAfterAdd(index0, name, e, m.indexUrls, pip, now);
      NormalizeVersionIdempotent(version);
      StripIdempotent(filename);
      found := m.GetPackageStream(packageName, version, filename, pip, now);
      assert m.index == index0 + AddedEntries(index0, name, false, m.indexUrls, pip, now) + [e];
      run := m.RunPackageStream(found.handle, download);
    }
  }
}
