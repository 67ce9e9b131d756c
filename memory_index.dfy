/** The in-memory revision of the package index: a dictionary from package
    name to a dictionary from version to entry, and a content dictionary
    from entry to bytes. The upstream index is the function `pip`, which
    gives what `pip_package_versions(url, name)` returns; a download is the
    function `download`, `None` meaning that reading the URL raised. */
module MemoryIndexModel {
  import opened Common
  import opened IndexUtil

  /** One package's dictionary from version to entry. */
  type PackageIndex = map<string, IndexEntry>

  /** The entry `_update_index` builds for an upstream artifact. */
  function UpstreamEntry(name: string, p: PipPackage): IndexEntry {
    IndexEntry(name, p.version, p.link.filename, p.link.hash, p.link.hashName, p.link.url, None)
  }

  /** `self._index.get(name)`, then `.get(version)`. */
  function Lookup(index: map<string, PackageIndex>, name: string, version: string): Option<IndexEntry> {
    if name in index && version in index[name] then Some(index[name][version]) else None
  }

  /** The insertion loop of `_update_index`: each upstream version not in
      the dictionary yet is added, in order. */
  function InsertNew(name: string, pi: PackageIndex, pkgs: seq<PipPackage>): PackageIndex
    decreases |pkgs|
  {
    if pkgs == [] then pi
    else if pkgs[0].version in pi then InsertNew(name, pi, pkgs[1..])
    else InsertNew(name, pi[pkgs[0].version := UpstreamEntry(name, pkgs[0])], pkgs[1..])
  }

  /** `index` after `_update_index(name)`. */
  function UpdatedIndex(index: map<string, PackageIndex>, indexUrl: Option<string>, name: string,
                        pip: (string, string) -> Option<seq<PipPackage>>): map<string, PackageIndex> {
    if indexUrl.None? then index
    else match pip(indexUrl.value, name)
      case None => index
      case Some(pkgs) => index[name := InsertNew(name, if name in index then index[name] else map[], pkgs)]
  }

  /** The versions of a list of upstream artifacts. */
  function VersionsOf(pkgs: seq<PipPackage>): set<string> {
    set i | 0 <= i < |pkgs| :: pkgs[i].version
  }

  /** Every entry sits under its own name and version. */
  ghost predicate EntriesPlaced(index: map<string, PackageIndex>) {
    forall n, v :: n in index && v in index[n] ==> index[n][v].name == n && index[n][v].version == v
  }

  /** Content is kept only for entries of the index. */
  ghost predicate ContentPlaced(index: map<string, PackageIndex>, content: map<IndexEntry, Bytes>) {
    forall e :: e in content ==> e.name in index && e.version in index[e.name] && index[e.name][e.version] == e
  }

  /** Adding an entry under its own name and a new version keeps both
      placement properties. */
  lemma NewVersionPlaced(index: map<string, PackageIndex>, content: map<IndexEntry, Bytes>, e: IndexEntry)
    requires EntriesPlaced(index) && ContentPlaced(index, content)
    requires e.name in index && e.version !in index[e.name]
    ensures var after := index[e.name := index[e.name][e.version := e]];
      EntriesPlaced(after) && ContentPlaced(after, content)
  {
  }

  /** Existing entries are never replaced, exactly the upstream versions
      are added, and for a new version the first upstream artifact of that
      version wins. */
  lemma {:induction false} InsertNewCorrect(name: string, pi: PackageIndex, pkgs: seq<PipPackage>)
    ensures var r := InsertNew(name, pi, pkgs);
      && r.Keys == pi.Keys + VersionsOf(pkgs)
      && (forall v :: v in pi ==> r[v] == pi[v])
      && (forall i :: 0 <= i < |pkgs| && pkgs[i].version !in pi
            && (forall m :: 0 <= m < i ==> pkgs[m].version != pkgs[i].version)
            ==> r[pkgs[i].version] == UpstreamEntry(name, pkgs[i]))
    decreases |pkgs|
  {
    if pkgs != [] {
      var p := pkgs[0];
      var next := if p.version in pi then pi else pi[p.version := UpstreamEntry(name, p)];
      InsertNewCorrect(name, next, pkgs[1..]);
      assert VersionsOf(pkgs) == {p.version} + VersionsOf(pkgs[1..]) by {
        forall v | v in VersionsOf(pkgs) ensures v in {p.version} + VersionsOf(pkgs[1..]) {
          var i :| 0 <= i < |pkgs| && pkgs[i].version == v;
          if i > 0 {
            assert pkgs[1..][i - 1] == pkgs[i];
          }
        }
      }
      var r := InsertNew(name, pi, pkgs);
      forall i | 0 <= i < |pkgs| && pkgs[i].version !in pi
          && (forall m :: 0 <= m < i ==> pkgs[m].version != pkgs[i].version)
        ensures r[pkgs[i].version] == UpstreamEntry(name, pkgs[i])
      {
        if i > 0 {
          assert pkgs[1..][i - 1] == pkgs[i];
          forall m | 0 <= m < i - 1 ensures pkgs[1..][m].version != pkgs[i].version {
            assert pkgs[1..][m] == pkgs[m + 1];
          }
        }
      }
    }
  }

  /** With no upstream URL, or an upstream that returns `None`,
      `_update_index` leaves the index exactly as it was: in particular it
      creates no dictionary for the package. */
  lemma UpdateWithoutUpstreamIsNoOp(index: map<string, PackageIndex>, indexUrl: Option<string>, name: string,
                                    pip: (string, string) -> Option<seq<PipPackage>>)
    requires indexUrl.None? || pip(indexUrl.value, name).None?
    ensures UpdatedIndex(index, indexUrl, name, pip) == index
    ensures name !in index ==> name !in UpdatedIndex(index, indexUrl, name, pip)
  {
  }

  /** An update touches only the package's own dictionary, keeps every
      entry it held and adds exactly the upstream versions; a new version
      gets the first upstream artifact listed for it. */
  lemma UpdateKeepsEntries(index: map<string, PackageIndex>, indexUrl: Option<string>, name: string,
                           pip: (string, string) -> Option<seq<PipPackage>>)
    requires indexUrl.Some? && pip(indexUrl.value, name).Some?
    ensures var pkgs := pip(indexUrl.value, name).value;
      var r := UpdatedIndex(index, indexUrl, name, pip);
      var pi := if name in index then index[name] else map[];
      && r.Keys == index.Keys + {name}
      && (forall n :: n in index && n != name ==> r[n] == index[n])
      && r[name].Keys == pi.Keys + VersionsOf(pkgs)
      && (forall v :: v in pi ==> r[name][v] == pi[v])
      && (forall i :: 0 <= i < |pkgs| && pkgs[i].version !in pi
            && (forall m :: 0 <= m < i ==> pkgs[m].version != pkgs[i].version)
            ==> r[name][pkgs[i].version] == UpstreamEntry(name, pkgs[i]))
  {
    var pi := if name in index then index[name] else map[];
    InsertNewCorrect(name, pi, pip(indexUrl.value, name).value);
  }

  /** What a stream request produced. */
  datatype MemoryStream =
    | NoStream                    // `None`: unknown version or another filename
    | StreamRaised                // the download raised
    | Stream(chunks: seq<Bytes>)  // the generator's chunks

  class MemoryIndex {
    var index: map<string, PackageIndex>
    var indexContent: map<IndexEntry, Bytes>
    const indexUrl: Option<string>

    /** Every entry sits under its own name and version, and content is
        kept only for entries of the index. */
    ghost predicate Valid()
      reads this
    {
      && EntriesPlaced(index)
      && ContentPlaced(index, indexContent)
    }

    /** `MemoryIndex(index_url)`: both dictionaries empty. */
    constructor (indexUrl: Option<string>)
      ensures Valid()
      ensures index == map[] && indexContent == map[] && this.indexUrl == indexUrl
    {
      index := map[];
      indexContent := map[];
      this.indexUrl := indexUrl;
    }

    /** `_update_index`. */
    method UpdateIndex(name: string, pip: (string, string) -> Option<seq<PipPackage>>)
      requires Valid()
      modifies this`index
      ensures Valid()
      ensures index == UpdatedIndex(old(index), indexUrl, name, pip)
    {
      if indexUrl.None? {
        return;
      }
      var found := pip(indexUrl.value, name);
      if found.None? {
        return;
      }
      var pkgs := found.value;
      var pi0 := if name in index then index[name] else map[];
      index := index[name := pi0];
      var j := 0;
      while j < |pkgs|
        invariant 0 <= j <= |pkgs|
        invariant name in index && index == old(index)[name := index[name]]
        invariant InsertNew(name, index[name], pkgs[j..]) == InsertNew(name, pi0, pkgs)
        invariant Valid()
      {
        var p := pkgs[j];
        assert pkgs[j..][1..] == pkgs[j + 1..];
        if p.version !in index[name] {
          NewVersionPlaced(index, indexContent, UpstreamEntry(name, p));
          index := index[name := index[name][p.version := UpstreamEntry(name, p)]];
        }
        j := j + 1;
      }
    }

    /** `get_package_index`: upstream is consulted only when the package is
        unknown or `force_update` is set; the result is `None` exactly when
        the package is still unknown afterwards, and otherwise the entries
        of its dictionary (possibly none). */
    method GetPackageIndex(name: string, forceUpdate: bool, pip: (string, string) -> Option<seq<PipPackage>>)
      returns (r: Option<set<IndexEntry>>)
      requires Valid()
      modifies this`index
      ensures Valid()
      ensures index == if name !in old(index) || forceUpdate then UpdatedIndex(old(index), indexUrl, name, pip)
                       else old(index)
      ensures r.None? <==> name !in index
      ensures r.Some? ==> r.value == index[name].Values
      ensures r.Some? ==> forall e :: e in r.value ==> e.name == name && index[name][e.version] == e
    {
      if name !in index || forceUpdate {
        UpdateIndex(name, pip);
      }
      if name !in index {
        return None;
      }
      r := Some(index[name].Values);
    }

    /** `add_package`: rejected, with nothing changed, when the version is
        already indexed; otherwise stores an md5 entry without URL and its
        content. */
    method AddPackage(name: string, version: string, filename: string, content: Bytes,
                      md5: Bytes -> string, now: int) returns (ok: bool)
      requires Valid()
      modifies this`index, this`indexContent
      ensures Valid()
      ensures ok <==> Lookup(old(index), name, version).None?
      ensures !ok ==> index == old(index) && indexContent == old(indexContent)
      ensures ok ==> var e := UploadEntry(name, version, filename, content, md5, now);
        && index == old(index)[name := (if name in old(index) then old(index)[name] else map[])[version := e]]
        && indexContent == old(indexContent)[e := content]
      ensures ok ==> UploadEntry(name, version, filename, content, md5, now) !in old(indexContent)
    {
      var pi := if name in index then index[name] else map[];
      if version in pi {
        return false;
      }
      var e := UploadEntry(name, version, filename, content, md5, now);
      forall c | c in indexContent ensures c.name != name || c.version != version {
      }
      index := index[name := pi[version := e]];
      indexContent := indexContent[e := content];
      ok := true;
    }

    /** `get_package_stream`: refreshes once when the version is unknown;
        no stream for an unknown version or another filename; content is
        downloaded only when none is kept for the entry, and the stream
        yields the kept content as one chunk. */
    method GetPackageStream(name: string, version: string, filename: string,
                            pip: (string, string) -> Option<seq<PipPackage>>,
                            download: string -> Option<Bytes>) returns (r: MemoryStream)
      requires Valid()
      modifies this`index, this`indexContent
      ensures Valid()
      ensures index == if Lookup(old(index), name, version).None? then UpdatedIndex(old(index), indexUrl, name, pip)
                       else old(index)
      ensures var e := Lookup(index, name, version);
        && (e.Some? ==> e.value.name == name && e.value.version == version)
        && (forall c :: c in indexContent ==> Lookup(index, c.name, c.version) == Some(c))
        && (r.NoStream? <==> e.None? || e.value.filename != filename)
        && (r.NoStream? ==> indexContent == old(indexContent))
        && (e.Some? && e.value.filename == filename && e.value in old(indexContent) ==>
              r == Stream([old(indexContent)[e.value]]) && indexContent == old(indexContent))
        && (e.Some? && e.value.filename == filename && e.value !in old(indexContent) ==>
              if e.value.url.None? || download(e.value.url.value).None?
              then r == StreamRaised && indexContent == old(indexContent)
              else r == Stream([download(e.value.url.value).value])
                   && indexContent == old(indexContent)[e.value := download(e.value.url.value).value])
    {
      var entry := Lookup(index, name, version);
      if entry.None? {
        UpdateIndex(name, pip);
        entry := Lookup(index, name, version);
      }
      if entry.None? || entry.value.filename != filename {
        return NoStream;
      }
      var e := entry.value;
      if e !in indexContent {
        if e.url.None? {
          return StreamRaised;
        }
        var data := download(e.url.value);
        if data.None? {
          return StreamRaised;
        }
        indexContent := indexContent[e := data.value];
      }
      r := Stream([indexContent[e]]);
    }
  }

  /** The upload/download round trip: after a successful `add_package`,
      `get_package_stream` for the same name, version and filename yields
      exactly the uploaded bytes as one chunk and downloads nothing. */
  method UploadThenDownload(m: MemoryIndex, name: string, version: string, filename: string, content: Bytes,
                            md5: Bytes -> string, now: int,
                            pip: (string, string) -> Option<seq<PipPackage>>,
                            download: string -> Option<Bytes>) returns (ok: bool, r: MemoryStream)
    requires m.Valid()
    modifies m
    ensures m.Valid()
    ensures ok <==> Lookup(old(m.index), name, version).None?
    ensures ok ==> r == Stream([content])
    ensures ok ==> m.indexContent == old(m.indexContent)[UploadEntry(name, version, filename, content, md5, now) := content]
  {
    ok := m.AddPackage(name, version, filename, content, md5, now);
    r := NoStream;
    if ok {
      r := m.GetPackageStream(name, version, filename, pip, download);
    }
  }
}
