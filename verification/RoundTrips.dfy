/** The whole trip on one disk: upload a directory, then download it by the digest. */
module RoundTrips {
  import opened Outcomes
  import opened Unicode
  import opened Json
  import opened Digests
  import opened Paths
  import opened Disks
  import opened Manifests
  import opened Artifacts
  import opened FileSystem
  import opened BlobStores
  import opened Transfers
  import opened Uploads

  /** "sha256:" and the digest. */
  function ReferenceTo(d: ArtifactDigest): Text {
    SHA256 + [COLON] + d.digest
  }

  /** Uploads the directory at root to a local store and downloads it to dest by the digest
      the upload returned. The download succeeds if and only if the limits and the path rules
      admit the directory and dest can be placed, and then the files below dest are exactly
      those below root; or the hashed bytes collide. File names are clean because decoding
      them never yields a high surrogate. */
  method UploadThenDownload(store: LocalBlobStore, disk: Disk, root: Path, reread: nat -> Bytes,
                            foreign: Decoder, dest: Path, limits: Limits, verifyAfter: bool)
    returns (uploaded: Result<ArtifactDigest, Failure>, r: Result<(), Failure>)
    requires HexValued(store.h) && Honest(store.h, store.blobs)
    requires disk.Logged() && Rooted(disk.tree) && Named(Subtree(disk.tree, root)) && CleanPaths(FilesUnder(disk.tree, root))
    requires root in disk.tree && disk.tree[root].Dir?
    modifies store, disk
    ensures var m := old(FilesUnder(disk.tree, root));
            uploaded.Ok? ==>
              || CollidingBlob(store.h, store.blobs, m)
              || (exists n :: Delivers(store.h, LocalServer(store.blobs), uploaded.value.digest, limits, n)
                              && CollidingInputs(store.h, n, m))
              || ((r.Ok? <==> Transferable(store.h, m, limits) && Placeable(old(disk.tree), dest))
                  && (r.Ok? ==> FilesUnder(disk.tree, dest) == m))
  {
    hide Transferable, CollidingBlob, CollidingInputs, Delivers, Stored, HexValued, IsSha256, DirectoryDigest,
      Placeable;
    hide CleanPaths, FilesUnder, Installed, Named, Rooted, SHA256, DIRECTORY_KIND, FILE_KIND, LocalServer, Kept,
      Honest, ReferenceTo, Partition;
    ghost var before := disk.tree;
    ghost var m := FilesUnder(disk.tree, root);
    uploaded := UploadArtifact(store, disk, root, reread);
    if uploaded.Err? {
      return uploaded, Err(uploaded.error);
    }
    var blobs := store.blobs;
    ReferenceReads(store.h, m);
    ghost var n;
    r, n := Download(disk, store.h, foreign, LocalServer(blobs), ReferenceTo(uploaded.value), DIRECTORY_KIND, dest, limits, verifyAfter);
    KindsDistinct();
    RoundTrip(store.h, blobs, m, limits);
    if r.Ok? {
      Arrived(store.h, blobs, m, n, limits, before, disk.tree, dest);
    }
  }

  /** The same for a single file: the download succeeds if and only if the file fits and dest
      can be placed, and then dest holds exactly its content; or the stored blob collides. */
  method UploadThenDownloadFile(store: LocalBlobStore, disk: Disk, path: Path, reread: nat -> Bytes,
                                foreign: Decoder, dest: Path, limits: Limits, verifyAfter: bool)
    returns (uploaded: Result<ArtifactDigest, Failure>, r: Result<(), Failure>)
    requires HexValued(store.h) && Honest(store.h, store.blobs)
    requires disk.Logged() && Rooted(disk.tree) && Named(Subtree(disk.tree, path))
    requires path in disk.tree && disk.tree[path].File?
    modifies store, disk
    ensures var c := old(disk.tree[path].content);
            uploaded.Ok? ==>
              && store.h(c) in store.blobs
              && (|| Collide(store.h, store.blobs[store.h(c)], c)
                  || ((r.Ok? <==> (c == [] || |c| <= limits.total) && Placeable(old(disk.tree), dest))
                      && (r.Ok? ==> dest in disk.tree && disk.tree[dest] == File(c))))
  {
    hide HexValued, IsSha256, Placeable, Named, Rooted, SHA256, DIRECTORY_KIND, FILE_KIND, LocalServer, Kept, ReferenceTo,
      Partition, FilesUnder, DirectoryDigest, Listing, Received, Delivers, Installed, Subtree;
    ghost var c := disk.tree[path].content;
    RootedFile(disk.tree, path);
    uploaded := UploadArtifact(store, disk, path, reread);
    if uploaded.Err? {
      return uploaded, Err(uploaded.error);
    }
    var blobs := store.blobs;
    FileReferenceReads(store.h, Last(path), c);
    ghost var n;
    r, n := Download(disk, store.h, foreign, LocalServer(blobs), ReferenceTo(uploaded.value), FILE_KIND, dest, limits, verifyAfter);
    KindsDistinct();
    LocalServes(store.h, blobs, 0, store.h(c), limits.total);
  }

  lemma FileReferenceReads(h: Hasher, name: Text, c: Bytes)
    requires HexValued(h)
    ensures Partition(ReferenceTo(FileArtifact(h, name, c)), COLON) == (SHA256, h(c))
    ensures Admissible(ReferenceTo(FileArtifact(h, name, c)), FILE_KIND)
    ensures IsSha256(h(c))
  {
    HashIsHex(h, c);
    assert SHA256 + [COLON] + h(c) == SHA256 + ([COLON] + h(c));
    PartitionAt(SHA256, COLON, h(c));
  }

  lemma ReferenceReads(h: Hasher, m: Contents)
    requires HexValued(h)
    ensures Partition(ReferenceTo(DirectoryDigest(h, m)), COLON) == (SHA256, DirectoryDigest(h, m).digest)
    ensures Admissible(ReferenceTo(DirectoryDigest(h, m)), DIRECTORY_KIND)
  {
    hide DirectoryDigest;
    var d := DirectoryDigest(h, m).digest;
    assert IsSha256(d) by { DigestIsHex(h, m); }
    assert SHA256 + [COLON] + d == SHA256 + ([COLON] + d);
    PartitionAt(SHA256, COLON, d);
  }

  lemma DigestIsHex(h: Hasher, m: Contents)
    requires HexValued(h)
    ensures IsSha256(DirectoryDigest(h, m).digest)
  {
  }

  lemma {:induction false} PartitionAt(s: Text, c: CodePoint, t: Text)
    requires c !in s
    ensures Partition(s + ([c] + t), c) == (s, t)
  {
    var whole := s + ([c] + t);
    if s == [] {
      assert whole[1..] == t;
    } else {
      assert whole[1..] == s[1..] + ([c] + t);
      assert whole[0] == s[0] && s[0] in s;
      assert [s[0]] + s[1..] == s;
      PartitionAt(s[1..], c, t);
    }
  }

  /** What a download by the digest of m installed is m, or the inputs collide. */
  lemma Arrived(h: Hasher, blobs: map<Text, Bytes>, m: Contents, n: Contents, limits: Limits, before: Tree, after: Tree, dest: Path)
    requires HexValued(h) && Honest(h, blobs) && Stored(h, blobs, m) && CleanPaths(m)
    requires Delivers(h, LocalServer(blobs), DirectoryDigest(h, m).digest, limits, n)
    requires Installed(before, after, dest, n)
    ensures CollidingBlob(h, blobs, m) || CollidingInputs(h, n, m) || (n == m && FilesUnder(after, dest) == m && Transferable(h, m, limits))
  {
    hide Transferable, CollidingBlob, CollidingInputs, Delivers, Stored, HexValued, DirectoryDigest, FilesUnder,
      TreeOf, Graft, Clear, Honest, CleanPaths;
    RoundTrip(h, blobs, m, limits);
    InstalledIsVerified(h, LocalServer(blobs), DirectoryDigest(h, m).digest, limits, WithDirs(before, Parent(dest)), dest, n);
    OnlyTheArtifact(h, LocalServer(blobs), limits, m, n);
  }
}
