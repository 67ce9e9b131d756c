/** What the two module-level cache revisions share: the `CachePackage`
    record of the `Index` collection, the lookup by package name, the
    `posixpath.join` that names GridFS files, and the loop that reads the
    upstream indexes and keeps the first artifact of every version. */
module CacheCore {
  import opened Common
  import opened IndexUtil

  /** `CACHE_INDEX_TTL = timedelta(days = 7)`, in microseconds. */
  const CACHE_INDEX_TTL: int := 7 * 24 * 60 * 60 * 1000000

  /** One document of the index collection. `datetime` is in microseconds. */
  datatype CachePackage = CachePackage(
    package: string,
    datetime: int,
    version: string,
    filename: string,
    hash: Option<string>,
    hashName: Option<string>,
    url: Option<string>)

  /** `find({'package': package})`, in insertion order. */
  function FindByPackage(index: seq<CachePackage>, package: string): seq<CachePackage> {
    if index == [] then []
    else FindByPackage(index[..|index| - 1], package)
         + (if index[|index| - 1].package == package then [index[|index| - 1]] else [])
  }

  /** The documents found are exactly the stored ones of that package. */
  lemma {:induction false} FindByPackageMembers(index: seq<CachePackage>, package: string)
    ensures forall cp :: cp in FindByPackage(index, package) <==> cp in index && cp.package == package
    decreases |index|
  {
    if index != [] {
      FindByPackageMembers(index[..|index| - 1], package);
      assert index == index[..|index| - 1] + [index[|index| - 1]];
    }
  }

  /** Storing documents of a package appends them to what is found for it. */
  lemma {:induction false} FindByPackageAppend(index: seq<CachePackage>, added: seq<CachePackage>, package: string)
    requires forall k :: 0 <= k < |added| ==> added[k].package == package
    ensures FindByPackage(index + added, package) == FindByPackage(index, package) + added
    decreases |added|
  {
    if added != [] {
      var init := added[..|added| - 1];
      assert index + added == (index + init) + [added[|added| - 1]];
      assert (index + added)[..|index + added| - 1] == index + init;
      FindByPackageAppend(index, init, package);
      assert added == init + [added[|added| - 1]];
    } else {
      assert index + added == index;
    }
  }

  /** `posixpath.join(a, b)`: an absolute `b` replaces `a`; otherwise a `/`
      is put between them unless `a` is empty or already ends with one. */
  function PosixJoin(a: string, b: string): string {
    if |b| > 0 && b[0] == '/' then b
    else if a == [] || a[|a| - 1] == '/' then a + b
    else a + "/" + b
  }

  /** The position of the first `/` of a path, or its length. */
  function SlashStart(s: string): nat {
    if s == [] || s[0] == '/' then 0 else 1 + SlashStart(s[1..])
  }

  lemma {:induction false} SlashStartJoin(a: string, b: string)
    requires '/' !in a
    ensures SlashStart(a + "/" + b) == |a|
    decreases |a|
  {
    if a != [] {
      assert a[0] in a;
      assert forall c :: c in a[1..] ==> c in a;
      assert (a + "/" + b)[1..] == a[1..] + "/" + b;
      SlashStartJoin(a[1..], b);
    }
  }

  /** For non-empty packages without `/` and versions that are not
      absolute, the GridFS key determines both: distinct (package, version)
      pairs get distinct files. */
  lemma PosixJoinInjective(a: string, b: string, a': string, b': string)
    requires a != [] && a' != [] && '/' !in a && '/' !in a'
    requires (b == [] || b[0] != '/') && (b' == [] || b'[0] != '/')
    ensures PosixJoin(a, b) == PosixJoin(a', b') ==> a == a' && b == b'
  {
    var r := PosixJoin(a, b);
    var r' := PosixJoin(a', b');
    assert a[|a| - 1] in a && a'[|a'| - 1] in a';
    assert r == a + "/" + b && r' == a' + "/" + b';
    SlashStartJoin(a, b);
    SlashStartJoin(a', b');
    if r == r' {
      assert a == r[..|a|] && a' == r'[..|a'|];
      assert b == r[|a| + 1..] && b' == r'[|a'| + 1..];
    }
  }

  /** An absolute version string makes two packages share one GridFS file. */
  lemma PosixJoinCollision()
    ensures PosixJoin("a", "/1.0") == PosixJoin("b", "/1.0")
  {
  }

  /** The document built for an upstream artifact found at time `now`. */
  function RemoteEntry(package: string, p: PipPackage, now: int): CachePackage {
    CachePackage(package, now, p.version, p.link.filename, p.link.hash, p.link.hashName, p.link.url)
  }

  /** Some upstream index reports the package (`pipPackages is not None`). */
  predicate Reported(package: string, urls: seq<string>, pip: (string, string) -> PipResult) {
    urls != [] && (pip(urls[0], package).PipFound? || Reported(package, urls[1..], pip))
  }

  /** The artifacts of every reporting upstream index, in URL order. */
  function Listed(package: string, urls: seq<string>, pip: (string, string) -> PipResult): seq<PipPackage> {
    if urls == [] then []
    else (match pip(urls[0], package)
          case PipFound(ps) => ps
          case _ => [])
         + Listed(package, urls[1..], pip)
  }

  /** The inner loop: a document for every artifact whose version has not
      been seen, in order. */
  function FirstVersions(package: string, seen: set<string>, ps: seq<PipPackage>, now: int): seq<CachePackage>
    decreases |ps|
  {
    if ps == [] then []
    else if ps[0].version in seen then FirstVersions(package, seen, ps[1..], now)
    else [RemoteEntry(package, ps[0], now)] + FirstVersions(package, seen + {ps[0].version}, ps[1..], now)
  }

  /** `remoteIndex` at the end of the loop over all upstream indexes. */
  function RemoteIndex(package: string, urls: seq<string>, pip: (string, string) -> PipResult, now: int): seq<CachePackage> {
    FirstVersions(package, {}, Listed(package, urls, pip), now)
  }

  predicate DistinctVersions(entries: seq<CachePackage>) {
    forall i, j :: 0 <= i < j < |entries| ==> entries[i].version != entries[j].version
  }

  /** The read of the upstream indexes. A URL whose call raised counts as
      not reporting; the remaining URLs are still read. */
  method ReadRemote(package: string, urls: seq<string>, pip: (string, string) -> PipResult, now: int)
    returns (remoteIndex: seq<CachePackage>, remoteExists: bool)
    ensures remoteIndex == RemoteIndex(package, urls, pip, now)
    ensures remoteExists == Reported(package, urls, pip)
  {
    remoteIndex := [];
    remoteExists := false;
    var remoteVersions: set<string> := {};
    var i := 0;
    while i < |urls|
      invariant 0 <= i <= |urls|
      invariant remoteIndex + FirstVersions(package, remoteVersions, Listed(package, urls[i..], pip), now)
                == RemoteIndex(package, urls, pip, now)
      invariant (remoteExists || Reported(package, urls[i..], pip)) == Reported(package, urls, pip)
    {
      assert urls[i..][1..] == urls[i + 1..];
      ghost var rest := Listed(package, urls[i + 1..], pip);
      var pipPackages := pip(urls[i], package);
      if pipPackages.PipFound? {
        remoteExists := true;
        var ps := pipPackages.packages;
        assert Listed(package, urls[i..], pip) == ps + rest;
        var j := 0;
        while j < |ps|
          invariant 0 <= j <= |ps|
          invariant remoteIndex + FirstVersions(package, remoteVersions, ps[j..] + rest, now)
                    == RemoteIndex(package, urls, pip, now)
        {
          assert (ps[j..] + rest)[1..] == ps[j + 1..] + rest;
          if ps[j].version !in remoteVersions {
            remoteVersions := remoteVersions + {ps[j].version};
            remoteIndex := remoteIndex + [RemoteEntry(package, ps[j], now)];
          }
          j := j + 1;
        }
        assert ps[j..] + rest == rest;
      } else {
        assert Listed(package, urls[i..], pip) == rest;
      }
      i := i + 1;
    }
  }

  /** Some upstream index reports the package exactly when one of the URLs
      gave a list of artifacts. */
  lemma {:induction false} ReportedIff(package: string, urls: seq<string>, pip: (string, string) -> PipResult)
    ensures Reported(package, urls, pip) <==> exists k :: 0 <= k < |urls| && pip(urls[k], package).PipFound?
    decreases |urls|
  {
    if urls != [] {
      ReportedIff(package, urls[1..], pip);
      if pip(urls[0], package).PipFound? {
        assert 0 < |urls| && pip(urls[0], package).PipFound?;
      }
      forall k | 0 < k < |urls| ensures urls[k] == urls[1..][k - 1] {
      }
    }
  }

  lemma {:induction false} ListedAppend(package: string, a: seq<string>, b: seq<string>, pip: (string, string) -> PipResult)
    ensures Listed(package, a + b, pip) == Listed(package, a, pip) + Listed(package, b, pip)
    decreases |a|
  {
    if a == [] {
      assert a + b == b;
    } else {
      assert (a + b)[1..] == a[1..] + b;
      ListedAppend(package, a[1..], b, pip);
    }
  }

  /** Without a reporting URL nothing is listed. */
  lemma {:induction false} ListedEmptyWhenUnreported(package: string, urls: seq<string>, pip: (string, string) -> PipResult)
    requires !Reported(package, urls, pip)
    ensures Listed(package, urls, pip) == []
    decreases |urls|
  {
    if urls != [] {
      ListedEmptyWhenUnreported(package, urls[1..], pip);
    }
  }

  /** A URL that raised or does not know the package contributes nothing:
      reading all URLs lists what reading the others lists. */
  lemma ListedSkipsSilentUrl(package: string, urls: seq<string>, k: nat, pip: (string, string) -> PipResult)
    requires k < |urls| && !pip(urls[k], package).PipFound?
    ensures Listed(package, urls, pip) == Listed(package, urls[..k] + urls[k + 1..], pip)
  {
    assert urls == urls[..k] + ([urls[k]] + urls[k + 1..]);
    ListedAppend(package, urls[..k], [urls[k]] + urls[k + 1..], pip);
    ListedAppend(package, [urls[k]], urls[k + 1..], pip);
    ListedAppend(package, urls[..k], urls[k + 1..], pip);
    assert Listed(package, [urls[k]], pip) == [] + Listed(package, [], pip);
  }

  /** The documents kept carry the package and the refresh time, a version
      not seen before, and no two share a version. */
  lemma {:induction false} FirstVersionsFresh(package: string, seen: set<string>, ps: seq<PipPackage>, now: int)
    ensures var r := FirstVersions(package, seen, ps, now);
      && DistinctVersions(r)
      && (forall k :: 0 <= k < |r| ==> r[k].version !in seen && r[k].package == package && r[k].datetime == now)
    decreases |ps|
  {
    if ps != [] {
      var v := ps[0].version;
      if v in seen {
        FirstVersionsFresh(package, seen, ps[1..], now);
      } else {
        FirstVersionsFresh(package, seen + {v}, ps[1..], now);
        var rest := FirstVersions(package, seen + {v}, ps[1..], now);
        var r := [RemoteEntry(package, ps[0], now)] + rest;
        assert forall k :: 0 < k < |r| ==> r[k] == rest[k - 1];
      }
    }
  }

  /** The documents kept carry the package and the refresh time. */
  lemma {:induction false} FirstVersionsStamped(package: string, seen: set<string>, ps: seq<PipPackage>, now: int)
    ensures forall k :: 0 <= k < |FirstVersions(package, seen, ps, now)| ==>
      FirstVersions(package, seen, ps, now)[k].package == package
      && FirstVersions(package, seen, ps, now)[k].datetime == now
    decreases |ps|
  {
    if ps != [] {
      var v := ps[0].version;
      var next := if v in seen then seen else seen + {v};
      FirstVersionsStamped(package, next, ps[1..], now);
    }
  }

  /** The first artifact of every version not seen before is kept. */
  lemma {:induction false} FirstVersionsCover(package: string, seen: set<string>, ps: seq<PipPackage>, now: int, i: nat)
    requires i < |ps| && ps[i].version !in seen
    requires forall m :: 0 <= m < i ==> ps[m].version != ps[i].version
    ensures RemoteEntry(package, ps[i], now) in FirstVersions(package, seen, ps, now)
    decreases |ps|
  {
    if i > 0 {
      var next := if ps[0].version in seen then seen else seen + {ps[0].version};
      assert ps[1..][i - 1] == ps[i];
      forall m | 0 <= m < i - 1 ensures ps[1..][m].version != ps[1..][i - 1].version {
        assert ps[1..][m] == ps[m + 1];
      }
      FirstVersionsCover(package, next, ps[1..], now, i - 1);
    }
  }

  /** Only first occurrences are kept: every document comes from an
      artifact no earlier artifact shares a version with. */
  lemma {:induction false} FirstVersionsSound(package: string, seen: set<string>, ps: seq<PipPackage>, now: int, k: nat)
    requires k < |FirstVersions(package, seen, ps, now)|
    ensures exists i :: 0 <= i < |ps| && FirstVersions(package, seen, ps, now)[k] == RemoteEntry(package, ps[i], now)
                     && ps[i].version !in seen
                     && forall m :: 0 <= m < i ==> ps[m].version != ps[i].version
    decreases |ps|
  {
    var r := FirstVersions(package, seen, ps, now);
    var v := ps[0].version;
    if v in seen || k > 0 {
      var next := if v in seen then seen else seen + {v};
      var k' := if v in seen then k else k - 1;
      FirstVersionsSound(package, next, ps[1..], now, k');
      var i :| 0 <= i < |ps[1..]| && FirstVersions(package, next, ps[1..], now)[k'] == RemoteEntry(package, ps[1..][i], now)
               && ps[1..][i].version !in next
               && forall m :: 0 <= m < i ==> ps[1..][m].version != ps[1..][i].version;
      assert r[k] == RemoteEntry(package, ps[i + 1], now);
      forall m | 0 <= m < i + 1 ensures ps[m].version != ps[i + 1].version {
        if m > 0 {
          assert ps[m] == ps[1..][m - 1];
        }
      }
    } else {
      assert r[0] == RemoteEntry(package, ps[0], now);
    }
  }

  /** The first document of a version (`next(... if cp.version == version)`). */
  function FirstOfVersion(entries: seq<CachePackage>, version: string): (r: Option<CachePackage>)
    ensures r.None? <==> forall i :: 0 <= i < |entries| ==> entries[i].version != version
    ensures r.Some? ==> exists i :: 0 <= i < |entries| && entries[i] == r.value && r.value.version == version
                          && forall m :: 0 <= m < i ==> entries[m].version != version
  {
    if entries == [] then None
    else if entries[0].version == version then Some(entries[0])
    else
      var r := FirstOfVersion(entries[1..], version);
      assert forall i :: 0 < i < |entries| ==> entries[i] == entries[1..][i - 1];
      r
  }

  /** What `cachePackageStream` returned in either revision. */
  datatype Lookup =
    | LookupRaised               // the index lookup raised, or gave something that raises when iterated
    | NoStream                   // no document of that version, or another file name
    | Found(cp: CachePackage)    // the stream body to run, over this document
}
