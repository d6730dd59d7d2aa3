/** Artifact digests: per-file SHA-256 and the canonical manifest of a directory.
    SHA-256 itself is a parameter, any function from bytes to text. */
module Digests {
  import opened Outcomes
  import opened Unicode
  import opened Json
  import opened JsonRoundTrip
  import opened JsonReading

  type Hasher = Bytes -> Text

  /** Two different byte strings with the same hash. */
  predicate Collide(h: Hasher, a: Bytes, b: Bytes) {
    a != b && h(a) == h(b)
  }

  /** Exactly 64 lowercase hexadecimal characters. */
  predicate IsSha256(s: Text) {
    |s| == 64 && forall i :: 0 <= i < |s| ==> 48 <= s[i] <= 57 || 97 <= s[i] <= 102
  }

  ghost predicate HexValued(h: Hasher) {
    forall b: Bytes :: IsSha256(h(b))
  }

  datatype FileDigest = FileDigest(path: Text, sha256: Text, size: nat)

  const ALGORITHM: Text := Ascii("algorithm")
  const FILES: Text := Ascii("files")
  const PATH: Text := Ascii("path")
  const SHA256: Text := Ascii("sha256")
  const SIZE: Text := Ascii("size")

  lemma KeysDistinct()
    ensures ALGORITHM != FILES
    ensures PATH != SHA256 && PATH != SIZE && SHA256 != SIZE
    ensures Faithful(ALGORITHM) && Faithful(FILES) && Faithful(PATH) && Faithful(SHA256) && Faithful(SIZE)
  {
    assert |ALGORITHM| == 9 && |FILES| == 5;
    assert |PATH| == 4 && |SHA256| == 6 && |SIZE| == 4;
    assert PATH[0] == 'p' as int && SIZE[0] == 's' as int;
    assert IsAscii(ALGORITHM) && IsAscii(FILES) && IsAscii(PATH) && IsAscii(SHA256) && IsAscii(SIZE);
  }

  /* -- sorting by path ------------------------------------------------------------ */

  /** Puts f, which came first, before everything that is not below it. */
  function Insert(f: FileDigest, files: seq<FileDigest>): seq<FileDigest> {
    if files == [] || !Below(files[0].path, f.path) then [f] + files
    else [files[0]] + Insert(f, files[1..])
  }

  /** sorted(files, key=path): stable, like Python's. */
  function SortFiles(files: seq<FileDigest>): seq<FileDigest> {
    if files == [] then [] else Insert(files[0], SortFiles(files[1..]))
  }

  ghost predicate DistinctPaths(files: seq<FileDigest>) {
    forall i, j :: 0 <= i < j < |files| ==> files[i].path != files[j].path
  }

  ghost predicate PathSorted(files: seq<FileDigest>) {
    forall i, j :: 0 <= i < j < |files| ==> Below(files[i].path, files[j].path)
  }

  lemma {:induction false} InsertKeeps(f: FileDigest, files: seq<FileDigest>)
    ensures multiset(Insert(f, files)) == multiset(files) + multiset{f}
  {
    hide Below;
    if files != [] {
      InsertKeeps(f, files[1..]);
      assert files == [files[0]] + files[1..];
    }
  }

  lemma InsertMembers(f: FileDigest, files: seq<FileDigest>)
    ensures forall g :: g in Insert(f, files) <==> g == f || g in files
  {
    hide Insert;
    InsertKeeps(f, files);
    forall g ensures g in Insert(f, files) <==> g == f || g in files {
      assert g in Insert(f, files) <==> g in multiset(Insert(f, files));
    }
  }

  lemma {:induction false} InsertSorted(f: FileDigest, files: seq<FileDigest>)
    requires PathSorted(files)
    requires forall i :: 0 <= i < |files| ==> files[i].path != f.path
    ensures PathSorted(Insert(f, files))
  {
    hide Below;
    if files == [] || !Below(files[0].path, f.path) {
      forall i | 0 <= i < |files| ensures Below(f.path, files[i].path) {
        BelowTotal(files[0].path, f.path);
        if i > 0 { BelowTransitive(f.path, files[0].path, files[i].path); }
      }
    } else {
      var t := Insert(f, files[1..]);
      InsertSorted(f, files[1..]);
      InsertMembers(f, files[1..]);
      forall i | 0 <= i < |t| ensures Below(files[0].path, t[i].path) {
        assert t[i] in t;
        if t[i] != f {
          var k :| 0 <= k < |files[1..]| && files[1..][k] == t[i];
          assert files[k + 1] == t[i];
        }
      }
    }
  }

  lemma {:induction false} SortFilesSorted(files: seq<FileDigest>)
    requires DistinctPaths(files)
    ensures PathSorted(SortFiles(files))
    ensures multiset(SortFiles(files)) == multiset(files)
    ensures forall g :: g in SortFiles(files) <==> g in files
  {
    if files != [] {
      SortFilesSorted(files[1..]);
      var t := SortFiles(files[1..]);
      assert files == [files[0]] + files[1..];
      forall i | 0 <= i < |t| ensures t[i].path != files[0].path {
        assert t[i] in t;
        var k :| 0 <= k < |files[1..]| && files[1..][k] == t[i];
        assert files[k + 1] == t[i];
      }
      InsertSorted(files[0], t);
      InsertKeeps(files[0], t);
      InsertMembers(files[0], t);
    }
  }

  /** Path-sorted lists with the same entries are the same list. */
  lemma {:induction false} PathSortedUnique(a: seq<FileDigest>, b: seq<FileDigest>)
    requires PathSorted(a) && PathSorted(b)
    requires forall g :: g in a <==> g in b
    ensures a == b
  {
    if a != [] { assert a[0] in a; }
    if b != [] { assert b[0] in b; }
    if a != [] {
      var k :| 0 <= k < |b| && b[k] == a[0];
      var l :| 0 <= l < |a| && a[l] == b[0];
      BelowTotal(a[0].path, b[0].path);
      assert a[0] == b[0];
      forall g ensures g in a[1..] <==> g in b[1..] {
        TailEntries(a, g);
        TailEntries(b, g);
      }
      PathSortedUnique(a[1..], b[1..]);
      assert a == [a[0]] + a[1..] && b == [b[0]] + b[1..];
    }
  }

  lemma TailEntries(a: seq<FileDigest>, g: FileDigest)
    requires a != [] && PathSorted(a)
    ensures g in a[1..] <==> g in a && g != a[0]
  {
    assert a == [a[0]] + a[1..];
    if g in a[1..] {
      var i :| 0 <= i < |a[1..]| && a[1..][i] == g;
      assert a[i + 1] == g;
      BelowTotal(a[0].path, g.path);
    }
  }

  lemma SortFilesFixed(files: seq<FileDigest>)
    requires PathSorted(files)
    ensures DistinctPaths(files) && SortFiles(files) == files
  {
    forall i, j | 0 <= i < j < |files| ensures files[i].path != files[j].path {
      BelowTotal(files[i].path, files[j].path);
    }
    SortFilesSorted(files);
    PathSortedUnique(files, SortFiles(files));
  }

  /* -- the manifest ----------------------------------------------------------------- */

  function EntryValue(f: FileDigest): Value {
    Obj(map[PATH := Str(f.path), SHA256 := Str(f.sha256), SIZE := Int(f.size)])
  }

  function EntryValues(files: seq<FileDigest>): (r: seq<Value>)
    ensures |r| == |files|
    ensures forall i :: 0 <= i < |files| ==> r[i] == EntryValue(files[i])
  {
    seq(|files|, i requires 0 <= i < |files| => EntryValue(files[i]))
  }

  function ManifestValue(files: seq<FileDigest>): Value {
    Obj(map[ALGORITHM := Str(SHA256), FILES := Arr(EntryValues(files))])
  }

  /** canonical_manifest_bytes */
  function ManifestBytes(files: seq<FileDigest>): (r: Bytes)
    ensures r == Dumps(ManifestValue(SortFiles(files))) && Printable(r)
  {
    DumpsBytes(ManifestValue(SortFiles(files)))
  }

  datatype ArtifactKind = SingleFile | Directory

  datatype ArtifactDigest = ArtifactDigest(kind: ArtifactKind, digest: Text, files: seq<FileDigest>)

  /** artifact_digest_from_files; None is the ValueError of a file artifact that does
      not have exactly one file. */
  function DigestFromFiles(h: Hasher, kind: ArtifactKind, files: seq<FileDigest>): Option<ArtifactDigest> {
    match kind
    case SingleFile =>
      if |files| != 1 then None else Some(ArtifactDigest(kind, files[0].sha256, files))
    case Directory =>
      Some(ArtifactDigest(kind, h(ManifestBytes(files)), SortFiles(files)))
  }

  /** The digest of a directory does not depend on the order its files are listed in. */
  lemma DigestOrderIndependent(h: Hasher, a: seq<FileDigest>, b: seq<FileDigest>)
    requires DistinctPaths(a) && multiset(a) == multiset(b)
    ensures SortFiles(a) == SortFiles(b)
    ensures DigestFromFiles(h, Directory, a) == DigestFromFiles(h, Directory, b)
  {
    assert DistinctPaths(b) by {
      forall i, j | 0 <= i < j < |b| ensures b[i].path != b[j].path {
        SamePathTwice(a, b, i, j);
      }
    }
    SortFilesSorted(a);
    SortFilesSorted(b);
    forall g ensures g in SortFiles(a) <==> g in SortFiles(b) {
      assert g in a <==> g in multiset(a);
      assert g in b <==> g in multiset(b);
    }
    PathSortedUnique(SortFiles(a), SortFiles(b));
  }

  lemma SamePathTwice(a: seq<FileDigest>, b: seq<FileDigest>, i: nat, j: nat)
    requires DistinctPaths(a) && multiset(a) == multiset(b) && i < j < |b|
    ensures b[i].path != b[j].path
  {
    assert b[i] in multiset(a) && b[j] in multiset(a);
    var k :| 0 <= k < |a| && a[k] == b[i];
    var l :| 0 <= l < |a| && a[l] == b[j];
    if k == l {
      ListedOnce(a, k);
      ListedTwice(b, i, j);
    }
  }

  lemma ListedOnce(a: seq<FileDigest>, k: nat)
    requires DistinctPaths(a) && k < |a|
    ensures multiset(a)[a[k]] == 1
  {
    assert a == a[..k] + [a[k]] + a[k + 1..];
    assert a[k] !in a[..k] && a[k] !in a[k + 1..];
    assert multiset(a[..k])[a[k]] == 0 && multiset(a[k + 1..])[a[k]] == 0;
  }

  lemma ListedTwice(b: seq<FileDigest>, i: nat, j: nat)
    requires i < j < |b| && b[i] == b[j]
    ensures multiset(b)[b[i]] >= 2
  {
    assert b == b[..i] + [b[i]] + b[i + 1..j] + [b[j]] + b[j + 1..];
  }

  /** A list of files whose paths and hashes survive printing. */
  predicate CleanFiles(files: seq<FileDigest>) {
    forall i :: 0 <= i < |files| ==> Faithful(files[i].path) && Faithful(files[i].sha256)
  }

  /** The manifest of a list is clean exactly when the list is. */
  lemma ManifestClean(files: seq<FileDigest>)
    ensures CleanKeys(ManifestValue(files))
    ensures Clean(ManifestValue(files)) <==> CleanFiles(files)
  {
    hide EntryValue, Faithful;
    KeysDistinct();
    var v := ManifestValue(files);
    var items := EntryValues(files);
    assert v.members[FILES] == Arr(items) && v.members[ALGORITHM] == Str(SHA256);
    forall i | 0 <= i < |files|
      ensures CleanKeys(items[i])
      ensures Clean(items[i]) <==> Faithful(files[i].path) && Faithful(files[i].sha256)
    {
      EntryClean(files[i]);
    }
    assert CleanKeys(Arr(items));
    assert Clean(Arr(items)) <==> CleanFiles(files);
  }

  lemma EntryClean(f: FileDigest)
    ensures CleanKeys(EntryValue(f))
    ensures Clean(EntryValue(f)) <==> Faithful(f.path) && Faithful(f.sha256)
  {
    hide Faithful;
    KeysDistinct();
    var m := EntryValue(f).members;
    assert m[PATH] == Str(f.path) && m[SHA256] == Str(f.sha256) && m[SIZE].Int?;
  }

  lemma EntryInjective(f: FileDigest, g: FileDigest)
    requires EntryValue(f) == EntryValue(g)
    ensures f == g
  {
    KeysDistinct();
    var m, n := EntryValue(f).members, EntryValue(g).members;
    assert m[PATH] == n[PATH] && m[SHA256] == n[SHA256] && m[SIZE] == n[SIZE];
  }

  /** Clean file lists with the same canonical manifest bytes are the same files. */
  lemma ManifestInjective(a: seq<FileDigest>, b: seq<FileDigest>)
    requires CleanFiles(a) && CleanFiles(b) && Dumps(ManifestValue(a)) == Dumps(ManifestValue(b))
    ensures a == b
  {
    KeysDistinct();
    ManifestClean(a);
    ManifestClean(b);
    DumpsInjective(ManifestValue(a), ManifestValue(b));
    assert ManifestValue(a).members[FILES] == ManifestValue(b).members[FILES];
    assert EntryValues(a) == EntryValues(b);
    forall i | 0 <= i < |a| ensures a[i] == b[i] {
      assert EntryValues(a)[i] == EntryValues(b)[i];
      EntryInjective(a[i], b[i]);
    }
  }
}
