/** The pure ordering of upstream artifacts: Python's string order on
    version strings, the `(version, extension rank)` sort key, and
    Python's stable `sorted` as an insertion sort. The finder that lists a
    package's artifacts is an input here. */
module IndexUtil {
  import opened Common

  /** What the finder knows about one artifact's link. */
  datatype Link = Link(
    filename: string,
    hash: Option<string>,
    hashName: Option<string>,
    url: Option<string>,
    ext: string)

  /** One artifact the finder reported: `str(pv.version)` and `pv.location`. */
  datatype FinderVersion = FinderVersion(version: string, location: Link)

  /** One cached artifact: `IndexEntry` and the `MemoryIndexEntry` and
      `MongoIndexEntry` records of the index classes, which have the same
      fields. `datetime` is absent for upstream entries of the in-memory
      index. */
  datatype IndexEntry = IndexEntry(
    name: string,
    version: string,
    filename: string,
    hash: Option<string>,
    hashName: Option<string>,
    url: Option<string>,
    datetime: Option<int>)

  /** The entry `add_package` stores for an upload in both index classes:
      an md5 hash of the content, no URL, and the upload time. */
  function UploadEntry(name: string, version: string, filename: string, content: Bytes,
                       md5: Bytes -> string, now: int): IndexEntry {
    IndexEntry(name, version, filename, Some(md5(content)), Some("md5"), None, Some(now))
  }

  /** `PipPackage(version, link)`. */
  datatype PipPackage = PipPackage(version: string, link: Link)

  /** What one call to an upstream index gave: the call raised (the
      callers catch, log and skip it), the package is unknown there, or
      its artifacts. */
  datatype PipResult =
    | PipRaised
    | PipNone
    | PipFound(packages: seq<PipPackage>)

  // ----- Python's string order ---------------------------------------

  /** `a <= b` on Python strings: lexicographic by code point, a prefix
      before its extensions. */
  predicate StrLe(a: string, b: string) {
    if a == [] then true
    else if b == [] then false
    else if a[0] != b[0] then a[0] < b[0]
    else StrLe(a[1..], b[1..])
  }

  lemma {:induction false} StrLeTotal(a: string, b: string)
    ensures StrLe(a, b) || StrLe(b, a)
  {
    if a != [] && b != [] && a[0] == b[0] {
      StrLeTotal(a[1..], b[1..]);
    }
  }

  lemma {:induction false} StrLeAntisymmetric(a: string, b: string)
    requires StrLe(a, b) && StrLe(b, a)
    ensures a == b
  {
    if a != [] && b != [] {
      StrLeAntisymmetric(a[1..], b[1..]);
      assert a == [a[0]] + a[1..] && b == [b[0]] + b[1..];
    }
  }

  lemma {:induction false} StrLeTransitive(a: string, b: string, c: string)
    requires StrLe(a, b) && StrLe(b, c)
    ensures StrLe(a, c)
  {
    if a != [] && b != [] && c != [] && a[0] == b[0] == c[0] {
      StrLeTransitive(a[1..], b[1..], c[1..]);
    }
  }

  // ----- the sort key ------------------------------------------------

  /** `(pp.version, rank(pp.link.ext))`. */
  function KeyOf(p: PipPackage, rank: string -> int): (string, int) {
    (p.version, rank(p.link.ext))
  }

  /** Python's order on `(str, int)` tuples. */
  predicate KeyLe(a: (string, int), b: (string, int)) {
    if a.0 == b.0 then a.1 <= b.1 else StrLe(a.0, b.0)
  }

  lemma KeyLeTotal(a: (string, int), b: (string, int))
    ensures KeyLe(a, b) || KeyLe(b, a)
  {
    StrLeTotal(a.0, b.0);
  }

  lemma KeyLeTransitive(a: (string, int), b: (string, int), c: (string, int))
    requires KeyLe(a, b) && KeyLe(b, c)
    ensures KeyLe(a, c)
  {
    if a.0 != b.0 && b.0 != c.0 {
      StrLeTransitive(a.0, b.0, c.0);
      if a.0 == c.0 {
        StrLeAntisymmetric(a.0, b.0);
      }
    }
  }

  /** The rank table of `pip_package_versions`: `.tar.gz` 1, `.zip` 2,
      `.tar.bz2` 3, anything else 10000. */
  function PipRank(ext: string): int {
    if ext == ".tar.gz" then 1
    else if ext == ".zip" then 2
    else if ext == ".tar.bz2" then 3
    else 10000
  }

  predicate SortedBy(s: seq<PipPackage>, rank: string -> int) {
    forall i, j :: 0 <= i < j < |s| ==> KeyLe(KeyOf(s[i], rank), KeyOf(s[j], rank))
  }

  // ----- Python's stable sorted() ------------------------------------

  /** Inserts `x` after every element whose key is not greater than its own. */
  function Insert(x: PipPackage, s: seq<PipPackage>, rank: string -> int): seq<PipPackage> {
    if s == [] then [x]
    else if KeyLe(KeyOf(s[0], rank), KeyOf(x, rank)) then [s[0]] + Insert(x, s[1..], rank)
    else [x] + s
  }

  /** `sorted(s, key=lambda pp: (pp.version, rank(pp.link.ext)))`. */
  function SortByKey(s: seq<PipPackage>, rank: string -> int): seq<PipPackage> {
    if s == [] then [] else Insert(s[|s| - 1], SortByKey(s[..|s| - 1], rank), rank)
  }

  /** The elements of `s` whose key is `k`, in order. */
  function Group(s: seq<PipPackage>, k: (string, int), rank: string -> int): seq<PipPackage> {
    if s == [] then []
    else (if KeyOf(s[0], rank) == k then [s[0]] else []) + Group(s[1..], k, rank)
  }

  lemma {:induction false} GroupAppend(s: seq<PipPackage>, x: PipPackage, k: (string, int), rank: string -> int)
    ensures Group(s + [x], k, rank) == Group(s, k, rank) + (if KeyOf(x, rank) == k then [x] else [])
  {
    if s != [] {
      assert (s + [x])[1..] == s[1..] + [x];
      GroupAppend(s[1..], x, k, rank);
    }
  }

  lemma {:induction false} GroupNone(s: seq<PipPackage>, k: (string, int), rank: string -> int)
    requires forall j :: 0 <= j < |s| ==> KeyOf(s[j], rank) != k
    ensures Group(s, k, rank) == []
  {
    if s != [] {
      GroupNone(s[1..], k, rank);
    }
  }

  lemma {:induction false} InsertMultiset(x: PipPackage, s: seq<PipPackage>, rank: string -> int)
    ensures multiset(Insert(x, s, rank)) == multiset(s) + multiset{x}
  {
    if s != [] && KeyLe(KeyOf(s[0], rank), KeyOf(x, rank)) {
      InsertMultiset(x, s[1..], rank);
      assert s == [s[0]] + s[1..];
    }
  }

  lemma {:induction false} InsertSorted(x: PipPackage, s: seq<PipPackage>, rank: string -> int)
    requires SortedBy(s, rank)
    ensures SortedBy(Insert(x, s, rank), rank)
  {
    if s == [] {
    } else if KeyLe(KeyOf(s[0], rank), KeyOf(x, rank)) {
      InsertSorted(x, s[1..], rank);
      SortedHeadBound(s, rank);
      InsertLowerBound(x, s[1..], rank, KeyOf(s[0], rank));
      ConsSorted(s[0], Insert(x, s[1..], rank), rank);
    } else {
      var kx := KeyOf(x, rank);
      var k0 := KeyOf(s[0], rank);
      KeyLeTotal(k0, kx);
      SortedHeadBound(s, rank);
      forall y | y in s ensures KeyLe(kx, KeyOf(y, rank)) {
        if y != s[0] {
          assert y in s[1..] by {
            var m :| 0 <= m < |s| && s[m] == y;
            assert s[1..][m - 1] == y;
          }
          KeyLeTransitive(kx, k0, KeyOf(y, rank));
        }
      }
      ConsSorted(x, s, rank);
    }
  }

  /** The head of a sorted list is a lower bound of its tail. */
  lemma SortedHeadBound(s: seq<PipPackage>, rank: string -> int)
    requires SortedBy(s, rank) && s != []
    ensures forall y :: y in s[1..] ==> KeyLe(KeyOf(s[0], rank), KeyOf(y, rank))
  {
    forall y | y in s[1..] ensures KeyLe(KeyOf(s[0], rank), KeyOf(y, rank)) {
      var m :| 0 <= m < |s[1..]| && s[1..][m] == y;
      assert s[m + 1] == y;
    }
  }

  /** The inserted list holds `x` and the elements of `s`, and nothing else. */
  lemma {:induction false} InsertMembers(x: PipPackage, s: seq<PipPackage>, rank: string -> int)
    ensures forall y :: y in Insert(x, s, rank) <==> y == x || y in s
  {
    if s != [] && KeyLe(KeyOf(s[0], rank), KeyOf(x, rank)) {
      InsertMembers(x, s[1..], rank);
      assert s == [s[0]] + s[1..];
    }
  }

  /** A lower bound of `x` and of every element of `s` bounds the
      inserted list. */
  lemma InsertLowerBound(x: PipPackage, s: seq<PipPackage>, rank: string -> int, k: (string, int))
    requires KeyLe(k, KeyOf(x, rank))
    requires forall y :: y in s ==> KeyLe(k, KeyOf(y, rank))
    ensures forall y :: y in Insert(x, s, rank) ==> KeyLe(k, KeyOf(y, rank))
  {
    InsertMembers(x, s, rank);
  }

  /** A lower bound put in front of a sorted list keeps it sorted. */
  lemma ConsSorted(h: PipPackage, t: seq<PipPackage>, rank: string -> int)
    requires SortedBy(t, rank)
    requires forall y :: y in t ==> KeyLe(KeyOf(h, rank), KeyOf(y, rank))
    ensures SortedBy([h] + t, rank)
  {
    var r := [h] + t;
    forall i, j | 0 <= i < j < |r| ensures KeyLe(KeyOf(r[i], rank), KeyOf(r[j], rank)) {
      assert r[j] == t[j - 1] && r[j] in t;
      if i > 0 {
        assert r[i] == t[i - 1];
      }
    }
  }

  lemma {:induction false} InsertGroup(x: PipPackage, s: seq<PipPackage>, rank: string -> int, k: (string, int))
    requires SortedBy(s, rank)
    ensures Group(Insert(x, s, rank), k, rank) == Group(s, k, rank) + (if KeyOf(x, rank) == k then [x] else [])
  {
    if s == [] {
      return;
    }
    var kx := KeyOf(x, rank);
    var k0 := KeyOf(s[0], rank);
    if KeyLe(k0, kx) {
      InsertGroup(x, s[1..], rank, k);
    } else {
      var r := [x] + s;
      assert r[1..] == s;
      if kx == k {
        forall j | 0 <= j < |s| ensures KeyOf(s[j], rank) != k {
          if j > 0 {
            assert KeyLe(k0, KeyOf(s[j], rank));
          }
        }
        GroupNone(s, k, rank);
      }
    }
  }

  /** The sort orders by key, is a permutation, and is stable: the
      elements sharing a key keep their input order. */
  lemma {:induction false} SortByKeyCorrect(s: seq<PipPackage>, rank: string -> int)
    ensures SortedBy(SortByKey(s, rank), rank)
    ensures multiset(SortByKey(s, rank)) == multiset(s)
    ensures forall k :: Group(SortByKey(s, rank), k, rank) == Group(s, k, rank)
  {
    SortByKeySortedPerm(s, rank);
    if s != [] {
      var init := s[..|s| - 1];
      var x := s[|s| - 1];
      SortByKeyCorrect(init, rank);
      assert s == init + [x];
      forall k ensures Group(SortByKey(s, rank), k, rank) == Group(s, k, rank) {
        InsertGroup(x, SortByKey(init, rank), rank, k);
        GroupAppend(init, x, k, rank);
      }
    }
  }

  /** The order and permutation parts of `SortByKeyCorrect`. */
  lemma {:induction false} SortByKeySortedPerm(s: seq<PipPackage>, rank: string -> int)
    ensures SortedBy(SortByKey(s, rank), rank)
    ensures multiset(SortByKey(s, rank)) == multiset(s)
  {
    if s != [] {
      var init := s[..|s| - 1];
      var x := s[|s| - 1];
      SortByKeySortedPerm(init, rank);
      InsertSorted(x, SortByKey(init, rank), rank);
      InsertMultiset(x, SortByKey(init, rank), rank);
      assert s == init + [x];
    }
  }

  /** In a sorted list, the first artifact of a version has the lowest
      rank among that version's artifacts. */
  lemma FirstOfVersionBestRank(t: seq<PipPackage>, rank: string -> int, i: nat, j: nat)
    requires SortedBy(t, rank)
    requires i < |t| && j < |t| && t[i].version == t[j].version
    requires forall m :: 0 <= m < i ==> t[m].version != t[i].version
    ensures rank(t[i].link.ext) <= rank(t[j].link.ext)
  {
    if i != j {
      assert i < j;
      assert KeyLe(KeyOf(t[i], rank), KeyOf(t[j], rank));
    }
  }

  // ----- pip_package_versions -----------------------------------------

  /** The sort at the end of `pip_package_versions`, applied to the
      finder's artifacts. */
  function PipPackageVersions(found: seq<FinderVersion>): seq<PipPackage> {
    SortByKey(seq(|found|, i requires 0 <= i < |found| => PipPackage(found[i].version, found[i].location)), PipRank)
  }

  /** The result is ordered by version string, then by extension rank;
      within one version `.tar.gz` comes before `.zip`, `.zip` before
      `.tar.bz2` and `.tar.bz2` before any other extension; and it holds
      exactly the finder's artifacts, ties in finder order. */
  lemma PipPackageVersionsCorrect(found: seq<FinderVersion>)
    ensures var out := PipPackageVersions(found);
      && |out| == |found|
      && (forall i, j :: 0 <= i < j < |out| ==> StrLe(out[i].version, out[j].version))
      && (forall i, j :: 0 <= i < j < |out| && out[i].version == out[j].version
            ==> PipRank(out[i].link.ext) <= PipRank(out[j].link.ext))
      && multiset(out) == multiset(seq(|found|, i requires 0 <= i < |found| => PipPackage(found[i].version, found[i].location)))
      && forall k :: Group(out, k, PipRank)
                     == Group(seq(|found|, i requires 0 <= i < |found| => PipPackage(found[i].version, found[i].location)), k, PipRank)
  {
    var pps := seq(|found|, i requires 0 <= i < |found| => PipPackage(found[i].version, found[i].location));
    SortByKeyCorrect(pps, PipRank);
    var out := PipPackageVersions(found);
    assert |out| == |multiset(out)| == |multiset(pps)| == |found|;
    forall i, j | 0 <= i < j < |out| ensures StrLe(out[i].version, out[j].version) {
      assert KeyLe(KeyOf(out[i], PipRank), KeyOf(out[j], PipRank));
      if out[i].version == out[j].version {
        assert StrLe(out[i].version, out[i].version) by { StrLeTotal(out[i].version, out[i].version); }
      }
    }
  }

  /** Concrete case: a `.zip` listed before a `.tar.gz` of the same version
      comes out after it. */
  lemma TarballBeforeZip(v: string, zip: Link, tgz: Link)
    requires zip.ext == ".zip" && tgz.ext == ".tar.gz"
    ensures PipPackageVersions([FinderVersion(v, zip), FinderVersion(v, tgz)])
            == [PipPackage(v, tgz), PipPackage(v, zip)]
  {
    var found := [FinderVersion(v, zip), FinderVersion(v, tgz)];
    var pps := [PipPackage(v, zip), PipPackage(v, tgz)];
    assert seq(|found|, i requires 0 <= i < |found| => PipPackage(found[i].version, found[i].location)) == pps;
    assert pps[..1] == [PipPackage(v, zip)];
    assert PipRank(zip.ext) == 2 && PipRank(tgz.ext) == 1;
    assert SortByKey(pps[..1], PipRank) == [PipPackage(v, zip)] by {
      assert [PipPackage(v, zip)][..0] == [];
    }
  }
}
