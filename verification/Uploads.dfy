/** Uploading a directory, and what an upload followed by a download gives back. */
module Uploads {
  import opened Outcomes
  import opened Unicode
  import opened JsonReading
  import opened Digests
  import opened Paths
  import opened Disks
  import opened Manifests
  import opened Artifacts
  import opened FileSystem
  import opened BlobStores
  import opened Transfers

  /** The store holds a blob under every hash of the directory, the manifest included. */
  predicate Stored(h: Hasher, blobs: map<Text, Bytes>, m: Contents) {
    && DirectoryDigest(h, m).digest in blobs
    && forall k :: k in m ==> h(m[k]) in blobs
  }

  ghost predicate Kept(before: map<Text, Bytes>, after: map<Text, Bytes>) {
    forall k :: k in before ==> k in after && after[k] == before[k]
  }

  /** _put_if_absent */
  method PutIfAbsent(store: LocalBlobStore, sha256: Text, source: Bytes) returns (r: Result<(), Failure>)
    requires IsSha256(sha256)
    modifies store
    ensures r.Ok? <==> sha256 in old(store.blobs) || store.h(source) == sha256
    ensures r.Ok? ==> sha256 in store.blobs
    ensures r.Err? ==> r.error == Integrity
    ensures Kept(old(store.blobs), store.blobs)
    ensures old(Honest(store.h, store.blobs)) ==> Honest(store.h, store.blobs)
  {
    var present := store.Exists(sha256);
    if present.value {
      return Ok(());
    }
    r := store.Put(sha256, source);
  }

  lemma KeptAll(blobs: map<Text, Bytes>)
    ensures Kept(blobs, blobs)
  {
  }

  lemma KeptTwice(a: map<Text, Bytes>, b: map<Text, Bytes>, c: map<Text, Bytes>)
    requires Kept(a, b) && Kept(b, c)
    ensures Kept(a, c)
  {
  }

  lemma KeptKeys(a: map<Text, Bytes>, b: map<Text, Bytes>)
    requires Kept(a, b)
    ensures forall k :: k in a ==> k in b
  {
  }

  lemma DigestFacts(h: Hasher, m: Contents)
    requires HexValued(h)
    ensures var d := DirectoryDigest(h, m);
      d.files == Listing(h, m) && IsSha256(d.digest) && h(ManifestBytes(d.files)) == d.digest
    ensures |Listing(h, m)| == |m|
  {
    hide IsSha256;
  }

  lemma ListedHash(h: Hasher, m: Contents, i: nat)
    requires HexValued(h) && i < |Listing(h, m)|
    ensures IsSha256(Listing(h, m)[i].sha256)
  {
    hide IsSha256;
    var f := Listing(h, m)[i];
    assert f == FileEntry(h, f.path, m[f.path]);
  }

  lemma StoredAll(h: Hasher, before: map<Text, Bytes>, after: map<Text, Bytes>, m: Contents)
    requires forall i :: 0 <= i < |Listing(h, m)| ==> Listing(h, m)[i].sha256 in before
    requires Kept(before, after) && DirectoryDigest(h, m).digest in after
    ensures Stored(h, after, m)
  {
    forall k | k in m ensures h(m[k]) in after {
      var f := FileEntry(h, k, m[k]);
      assert f in Listing(h, m);
      var i :| 0 <= i < |Listing(h, m)| && Listing(h, m)[i] == f;
    }
  }

  /** upload_artifact. The source of the i-th put is read again at the time of the put and
      may have changed since it was hashed. */
  method UploadArtifact(store: LocalBlobStore, disk: Disk, path: Path, reread: nat -> Bytes)
    returns (r: Result<ArtifactDigest, Failure>)
    requires HexValued(store.h) && Rooted(disk.tree) && Named(Subtree(disk.tree, path))
    modifies store
    ensures Kept(old(store.blobs), store.blobs)
    ensures old(Honest(store.h, store.blobs)) ==> Honest(store.h, store.blobs)
    ensures path !in disk.tree ==> r == Err(Missing)
    ensures path in disk.tree && disk.tree[path].File? ==>
      var c := disk.tree[path].content;
      && (r.Ok? <==> store.h(c) in old(store.blobs) || store.h(reread(0)) == store.h(c))
      && (r.Ok? ==> r.value == FileArtifact(store.h, Last(path), c) && store.h(c) in store.blobs)
    ensures path in disk.tree && disk.tree[path].Dir? && r.Ok? ==>
      var m := FilesUnder(disk.tree, path);
      r.value == DirectoryDigest(store.h, m) && m != map[] && Stored(store.h, store.blobs, m)
    ensures path in disk.tree && disk.tree[path].Dir? && r.Err? ==>
      var m := FilesUnder(disk.tree, path);
      m == map[] || exists i :: 0 <= i < |m| && store.h(reread(i)) != Listing(store.h, m)[i].sha256
    ensures path in disk.tree && r.Err? ==>
      r.error == if disk.tree[path].Dir? && FilesUnder(disk.tree, path) == map[] then Empty else Integrity
  {
    hide FilesUnder, Stored, HexValued, Rooted, Named, Subtree, Kept, Honest, DirectoryDigest, Listing, IsSha256;
    KeptAll(store.blobs);
    RootedFile(disk.tree, path);
    var digest := disk.HashArtifact(store.h, path);
    if digest.Err? {
      return digest;
    }
    if digest.value.kind == SingleFile {
      DirectoryKind(store.h, FilesUnder(disk.tree, path));
      HashIsHex(store.h, disk.tree[path].content);
      var put := PutIfAbsent(store, digest.value.files[0].sha256, reread(0));
      if put.Err? {
        return Err(put.error);
      }
      return digest;
    }
    DirectoryKind(store.h, FilesUnder(disk.tree, path));
    r := UploadFiles(store, digest.value, FilesUnder(disk.tree, path), reread);
  }

  lemma RootedFile(t: Tree, path: Path)
    requires Rooted(t)
    ensures path in t && t[path].File? ==> path != []
  {
  }

  lemma DirectoryKind(h: Hasher, m: Contents)
    ensures DirectoryDigest(h, m).kind == Directory
  {
  }

  lemma HashIsHex(h: Hasher, c: Bytes)
    requires HexValued(h)
    ensures IsSha256(h(c))
  {
  }

  /** The directory branch: every file, and then the manifest. */
  method UploadFiles(store: LocalBlobStore, digest: ArtifactDigest, ghost m: Contents, reread: nat -> Bytes)
    returns (r: Result<ArtifactDigest, Failure>)
    requires HexValued(store.h) && digest == DirectoryDigest(store.h, m) && m != map[]
    modifies store
    ensures Kept(old(store.blobs), store.blobs)
    ensures old(Honest(store.h, store.blobs)) ==> Honest(store.h, store.blobs)
    ensures r.Ok? ==> r.value == digest && Stored(store.h, store.blobs, m)
    ensures r.Err? ==> exists i :: 0 <= i < |m| && store.h(reread(i)) != Listing(store.h, m)[i].sha256
    ensures r.Err? ==> r.error == Integrity
  {
    hide *;
    KeptAll(store.blobs);
    DigestFacts(store.h, m);
    var files := digest.files;
    for i := 0 to |files|
      invariant Kept(old(store.blobs), store.blobs)
      invariant old(Honest(store.h, store.blobs)) ==> Honest(store.h, store.blobs)
      invariant forall k :: 0 <= k < i ==> files[k].sha256 in store.blobs
    {
      ghost var before := store.blobs;
      assert IsSha256(files[i].sha256) by { ListedHash(store.h, m, i); }
      var put := PutIfAbsent(store, files[i].sha256, reread(i));
      KeptTwice(old(store.blobs), before, store.blobs);
      KeptKeys(before, store.blobs);
      if put.Err? {
        return Err(put.error);
      }
    }
    var manifest := ManifestBytes(files);
    ghost var before := store.blobs;
    var put := PutIfAbsent(store, digest.digest, manifest);
    assert put.Ok?;
    KeptTwice(old(store.blobs), before, store.blobs);
    StoredAll(store.h, before, store.blobs, m);
    return Ok(digest);
  }

  /* -- theorems -------------------------------------------------------------------------------- */

  /** The directories the size limits and the path rules let a download rebuild. */
  ghost predicate Transferable(h: Hasher, m: Contents, limits: Limits) {
    && 0 < |m| <= limits.files
    && TotalSize(Listing(h, m)) <= limits.total
    && |ManifestOf(h, m)| <= MAX_MANIFEST_BYTES
    && Disjoint(m)
    && (forall k :: k in m ==> SafePath(k))
    && CleanPaths(m)
  }

  /** A blob of the store and a byte string hashed for m collide. */
  ghost predicate CollidingBlob(h: Hasher, blobs: map<Text, Bytes>, m: Contents) {
    exists b :: HashedFor(h, m, b) && h(b) in blobs && Collide(h, blobs[h(b)], b)
  }

  lemma TransferableListing(h: Hasher, m: Contents, limits: Limits)
    requires HexValued(h)
    ensures Transferable(h, m, limits) <==>
      |ManifestOf(h, m)| <= MAX_MANIFEST_BYTES && CleanFiles(Listing(h, m))
      && Listable(Listing(h, m), limits.files, limits.total)
  {
    hide SafePath, Disjoint, NoFileAbove, CleanPaths, CleanFiles, ManifestBytes, ManifestValue;
    var files := Listing(h, m);
    ListingClean(h, m);
    ListingDisjoint(h, m);
    SortFilesFixed(files);
    forall i | 0 <= i < |files| ensures SafeFile(files[i]) <==> SafePath(files[i].path) {
      assert IsSha256(h(m[files[i].path]));
    }
    if Listable(files, limits.files, limits.total) {
      forall k | k in m ensures SafePath(k) {
        assert FileEntry(h, k, m[k]) in files;
        var i :| 0 <= i < |files| && files[i] == FileEntry(h, k, m[k]);
        assert SafeFile(files[i]);
      }
    }
  }

  /** Unless a blob collides, the store holds exactly the bytes that were hashed. */
  lemma StoredExactly(h: Hasher, blobs: map<Text, Bytes>, m: Contents, b: Bytes)
    requires Honest(h, blobs) && Stored(h, blobs, m) && HashedFor(h, m, b)
    requires !CollidingBlob(h, blobs, m)
    ensures h(b) in blobs && blobs[h(b)] == b
  {
    hide Listing, ManifestBytes;
    assert h(b) in blobs;
    assert !Collide(h, blobs[h(b)], b);
  }

  /** Round trip, when the store holds the artifact: a download by the returned digest
      delivers exactly the uploaded directory, if and only if the limits and the path
      rules admit it; or the store exhibits a collision. */
  lemma RoundTrip(h: Hasher, blobs: map<Text, Bytes>, m: Contents, limits: Limits)
    requires HexValued(h) && Honest(h, blobs) && Stored(h, blobs, m)
    ensures CollidingBlob(h, blobs, m)
      || (Delivers(h, LocalServer(blobs), DirectoryDigest(h, m).digest, limits, m) <==> Transferable(h, m, limits))
  {
    hide SafePath, Disjoint, CleanPaths, CleanFiles, ManifestBytes, ManifestValue, Listable, PathSorted,
      Honest, Stored, HashedFor, CollidingBlob, LocalServer, Received, Transferable, Listing;
    if CollidingBlob(h, blobs, m) {
      return;
    }
    var files, expected := Listing(h, m), DirectoryDigest(h, m).digest;
    var raw := ManifestOf(h, m);
    assert raw == DumpsBytes(ManifestValue(files));
    assert HashedFor(h, m, raw) by { ManifestIsHashed(h, m); }
    StoredExactly(h, blobs, m, raw);
    LocalServes(h, blobs, 0, expected, MAX_MANIFEST_BYTES);
    TransferableListing(h, m, limits);
    assert IsSha256(expected);
    forall i | 0 <= i < |files| ensures ServesEntry(h, LocalServer(blobs), files, i, m) {
      var f := files[i];
      ContentIsHashed(h, m, f.path);
      StoredExactly(h, blobs, m, m[f.path]);
      LocalServes(h, blobs, i + 1, f.sha256, f.size);
    }
  }

  lemma ManifestIsHashed(h: Hasher, m: Contents)
    ensures HashedFor(h, m, ManifestOf(h, m))
  {
  }

  lemma ContentIsHashed(h: Hasher, m: Contents, k: Text)
    ensures k in m ==> HashedFor(h, m, m[k])
  {
  }

  /** Whatever store a digest is downloaded from, and however it answers, what arrives is
      the directory with that digest, or an explicit collision. */
  lemma OnlyTheArtifact(h: Hasher, server: Server, limits: Limits, m: Contents, n: Contents)
    requires HexValued(h) && CleanPaths(m)
    requires Delivers(h, server, DirectoryDigest(h, m).digest, limits, n)
    ensures n == m || CollidingInputs(h, n, m)
  {
    hide Listable, PathSorted, CleanFiles, CleanPaths, ManifestValue, CollidingInputs;
    ServedFacts(h, server(0, DirectoryDigest(h, m).digest), DirectoryDigest(h, m).digest, Listing(h, n), limits);
    assert DumpsBytes(ManifestValue(Listing(h, n))) == ManifestOf(h, n);
    ListingClean(h, n);
    DigestIdentifies(h, n, m);
  }

  /** Two downloads of the same digest, from any two stores, agree or collide. */
  lemma DownloadsAgree(h: Hasher, s: Server, t: Server, expected: Text, limits: Limits, m: Contents, n: Contents)
    requires HexValued(h)
    requires Delivers(h, s, expected, limits, m) && Delivers(h, t, expected, limits, n)
    ensures m == n || CollidingInputs(h, m, n)
  {
    hide Listable, PathSorted, CleanFiles, CleanPaths, ManifestValue, CollidingInputs;
    ServedFacts(h, s(0, expected), expected, Listing(h, m), limits);
    ServedFacts(h, t(0, expected), expected, Listing(h, n), limits);
    assert DumpsBytes(ManifestValue(Listing(h, m))) == ManifestOf(h, m);
    assert DumpsBytes(ManifestValue(Listing(h, n))) == ManifestOf(h, n);
    ListingClean(h, m);
    ListingClean(h, n);
    DigestIdentifies(h, m, n);
  }

  /** Files found on a rooted disk never lie above one another, so that condition of
      Transferable always holds for an uploaded directory. */
  lemma DiskFilesDisjoint(t: Tree, root: Path)
    requires Rooted(t)
    ensures Disjoint(FilesUnder(t, root))
  {
    hide Split;
    var m := FilesUnder(t, root);
    forall k, l | k in m && l in m ensures !(Split(k) < Split(l)) {
      if Split(k) < Split(l) {
        assert root + Split(k) < root + Split(l);
        RootedPrefix(t, root + Split(l), root + Split(k));
      }
    }
  }
}
