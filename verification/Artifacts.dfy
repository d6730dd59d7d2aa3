/** A directory artifact as its path-to-content map, and the digest that identifies it. */
module Artifacts {
  import opened Unicode
  import opened Json
  import opened JsonRoundTrip
  import opened Digests
  import opened Paths
  import opened Disks
  import opened Manifests

  type Contents = map<Text, Bytes>

  function FileEntry(h: Hasher, path: Text, content: Bytes): FileDigest {
    FileDigest(path, h(content), |content|)
  }

  /** The per-file digests in path order. */
  function Listing(h: Hasher, m: Contents): (r: seq<FileDigest>)
    ensures |r| == |m|
    ensures forall i :: 0 <= i < |r| ==> r[i].path in m && r[i] == FileEntry(h, r[i].path, m[r[i].path])
    ensures PathSorted(r)
    ensures forall f :: f in r <==> f.path in m && f == FileEntry(h, f.path, m[f.path])
  {
    var keys := Sort(m.Keys);
    assert |m.Keys| == |m|;
    var r := seq(|keys|, i requires 0 <= i < |keys| => FileEntry(h, keys[i], m[keys[i]]));
    assert forall f: FileDigest :: f.path in m && f == FileEntry(h, f.path, m[f.path]) ==> f in r by {
      forall f: FileDigest | f.path in m && f == FileEntry(h, f.path, m[f.path]) ensures f in r {
        assert f.path in keys;
        var i :| 0 <= i < |keys| && keys[i] == f.path;
        assert r[i] == f;
      }
    }
    r
  }

  /** What hash_directory returns for these files. */
  function DirectoryDigest(h: Hasher, m: Contents): ArtifactDigest {
    ArtifactDigest(Directory, h(ManifestBytes(Listing(h, m))), Listing(h, m))
  }

  /** The bytes whose hash is the digest of the directory. */
  function ManifestOf(h: Hasher, m: Contents): (r: Bytes)
    ensures r == Dumps(ManifestValue(Listing(h, m)))
    ensures h(r) == DirectoryDigest(h, m).digest
  {
    SortFilesFixed(Listing(h, m));
    ManifestBytes(Listing(h, m))
  }

  /** Every byte string hashed to obtain the digest of the directory. */
  ghost predicate HashedFor(h: Hasher, m: Contents, b: Bytes) {
    b == ManifestOf(h, m) || exists k :: k in m && m[k] == b
  }

  /** Two byte strings, one hashed for each directory, that collide. */
  ghost predicate CollidingInputs(h: Hasher, m: Contents, n: Contents) {
    exists a, b :: HashedFor(h, m, a) && HashedFor(h, n, b) && Collide(h, a, b)
  }

  ghost predicate CleanPaths(m: Contents) {
    forall k :: k in m ==> Faithful(k)
  }

  lemma ListingClean(h: Hasher, m: Contents)
    requires HexValued(h)
    ensures CleanFiles(Listing(h, m)) <==> CleanPaths(m)
  {
    forall i | 0 <= i < |Listing(h, m)| ensures Faithful(Listing(h, m)[i].sha256) {
      var f := Listing(h, m)[i];
      assert IsSha256(h(m[f.path]));
    }
    if CleanFiles(Listing(h, m)) {
      forall k | k in m ensures Faithful(k) {
        var f := FileEntry(h, k, m[k]);
        assert f in Listing(h, m);
        var i :| 0 <= i < |Listing(h, m)| && Listing(h, m)[i] == f;
      }
    }
  }

  /** The digest identifies the directory: equal digests mean equal path-to-content
      maps, or the two directories hold an explicit collision. */
  lemma DigestIdentifies(h: Hasher, m: Contents, n: Contents)
    requires HexValued(h) && CleanPaths(m) && CleanPaths(n)
    requires DirectoryDigest(h, m).digest == DirectoryDigest(h, n).digest
    ensures m == n || CollidingInputs(h, m, n)
  {
    var a, b := ManifestOf(h, m), ManifestOf(h, n);
    if a != b {
      assert HashedFor(h, m, a) && HashedFor(h, n, b) && Collide(h, a, b);
    } else {
      ListingClean(h, m);
      ListingClean(h, n);
      ManifestInjective(Listing(h, m), Listing(h, n));
      SameListing(h, m, n);
    }
  }

  lemma SameListing(h: Hasher, m: Contents, n: Contents)
    requires Listing(h, m) == Listing(h, n)
    ensures m == n || CollidingInputs(h, m, n)
  {
    forall k ensures k in m <==> k in n {
      if k in m { assert FileEntry(h, k, m[k]) in Listing(h, n); }
      if k in n { assert FileEntry(h, k, n[k]) in Listing(h, m); }
    }
    if m != n {
      var k :| k in m && m[k] != n[k];
      assert FileEntry(h, k, m[k]) in Listing(h, n);
      assert HashedFor(h, m, m[k]) && HashedFor(h, n, n[k]) && Collide(h, m[k], n[k]);
    }
  }

  /* -- maps from lists -------------------------------------------------------------- */

  /** The map that gives the i-th listed path the i-th content. */
  function Paired(files: seq<FileDigest>, contents: seq<Bytes>): Contents
    requires |files| == |contents|
  {
    if files == [] then map[]
    else
      var n := |files| - 1;
      Paired(files[..n], contents[..n])[files[n].path := contents[n]]
  }

  lemma {:induction false} PairedEntries(files: seq<FileDigest>, contents: seq<Bytes>)
    requires |files| == |contents| && DistinctPaths(files)
    ensures forall k :: k in Paired(files, contents) <==> exists i :: 0 <= i < |files| && files[i].path == k
    ensures forall i :: 0 <= i < |files| ==>
      files[i].path in Paired(files, contents) && Paired(files, contents)[files[i].path] == contents[i]
  {
    if files != [] {
      var n := |files| - 1;
      var init := files[..n];
      PairedEntries(init, contents[..n]);
      var small, m := Paired(init, contents[..n]), Paired(files, contents);
      forall k ensures k in m <==> exists i :: 0 <= i < |files| && files[i].path == k {
        if k in small {
          var i :| 0 <= i < |init| && init[i].path == k;
          assert files[i].path == k;
        }
        if i :| 0 <= i < |files| && files[i].path == k {
          if i < n { assert init[i].path == k; }
        }
      }
      forall i | 0 <= i < |files| ensures files[i].path in m && m[files[i].path] == contents[i] {
        if i < n { assert init[i] == files[i] && contents[..n][i] == contents[i]; }
      }
    }
  }

  /** Contents that match their listed digests list back to exactly those digests. */
  lemma ListingOfPaired(h: Hasher, files: seq<FileDigest>, contents: seq<Bytes>)
    requires |files| == |contents| && PathSorted(files)
    requires forall i :: 0 <= i < |files| ==> files[i] == FileEntry(h, files[i].path, contents[i])
    ensures Listing(h, Paired(files, contents)) == files
  {
    SortFilesFixed(files);
    PairedEntries(files, contents);
    var m := Paired(files, contents);
    forall f ensures f in files <==> f in Listing(h, m) {
      if f in files {
        var i :| 0 <= i < |files| && files[i] == f;
        assert m[f.path] == contents[i];
      }
      if f in Listing(h, m) {
        var i :| 0 <= i < |files| && files[i].path == f.path;
        assert files[i] == f;
      }
    }
    PathSortedUnique(files, Listing(h, m));
  }

  /** NoFileAbove on the list is Disjoint on the map. */
  lemma ListingDisjoint(h: Hasher, m: Contents)
    ensures NoFileAbove(Listing(h, m)) <==> Disjoint(m)
  {
    hide Split;
    var files := Listing(h, m);
    if NoFileAbove(files) {
      forall k, l | k in m && l in m ensures !(Split(k) < Split(l)) {
        assert FileEntry(h, k, m[k]) in files && FileEntry(h, l, m[l]) in files;
        var i :| 0 <= i < |files| && files[i] == FileEntry(h, k, m[k]);
        var j :| 0 <= j < |files| && files[j] == FileEntry(h, l, m[l]);
      }
    }
  }
}
