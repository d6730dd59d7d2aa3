/** The disk as an object: directories, verified streaming writes, hashing, renames. */
module FileSystem {
  import opened Outcomes
  import opened Unicode
  import opened Digests
  import opened Paths
  import opened Disks
  import opened Artifacts

  /** The exception classes an operation can end in: ArtifactIntegrityError,
      ArtifactStoreError, ArtifactNotFoundError, EmptyArtifactError and OSError. */
  datatype Failure = Integrity | Refused | Missing | Empty | System

  /** The bytes of a download as they arrive; incomplete when the source breaks off
      with an error after the last chunk. */
  datatype Stream = Stream(chunks: seq<Bytes>, complete: bool)

  const CHUNK_SIZE := 1024 * 1024

  function Concat(chunks: seq<Bytes>): Bytes {
    if chunks == [] then [] else Concat(chunks[..|chunks| - 1]) + chunks[|chunks| - 1]
  }

  lemma {:induction false} ConcatPrefix(chunks: seq<Bytes>, k: nat)
    requires k <= |chunks|
    ensures |Concat(chunks[..k])| <= |Concat(chunks)|
  {
    if k == |chunks| {
      assert chunks[..k] == chunks;
    } else {
      var init := chunks[..|chunks| - 1];
      ConcatPrefix(init, k);
      assert init[..k] == chunks[..k];
    }
  }

  /** The content a verified download of this stream yields. The limit is only compared
      when a chunk arrives, so a stream without chunks passes even a negative limit. */
  function Verified(h: Hasher, stream: Stream, expected: Text, maxBytes: int): Option<Bytes> {
    var content := Concat(stream.chunks);
    if stream.complete && (stream.chunks == [] || |content| <= maxBytes) && h(content) == expected then Some(content) else None
  }

  /** The stream brings more than the limit. */
  predicate TooLong(stream: Stream, maxBytes: int) {
    stream.chunks != [] && |Concat(stream.chunks)| > maxBytes
  }

  ghost predicate ParentIsDir(t: Tree, p: Path) {
    p != [] && Parent(p) in t && t[Parent(p)].Dir?
  }

  /** A state of the disk during a verified write: as before, plus at most one other
      file, beside dest, which never holds more than the limit. */
  ghost predicate Interim(before: Tree, now: Tree, dest: Path, maxBytes: int) {
    && dest !in now
    && (forall q :: q in before ==> q in now && now[q] == before[q])
    && (forall p, q :: p in now && p !in before && q in now && q !in before ==> p == q)
    && (forall q :: q in now && q !in before ==>
      now[q].File? && (now[q].content == [] || |now[q].content| <= maxBytes) && q != [] && Parent(q) == Parent(dest))
  }

  lemma InterimWith(before: Tree, tmp: Path, dest: Path, content: Bytes, maxBytes: int)
    requires tmp !in before && tmp != dest && dest !in before && tmp != [] && Parent(tmp) == Parent(dest)
    requires content == [] || |content| <= maxBytes
    ensures Interim(before, before[tmp := File(content)], dest, maxBytes)
  {
  }

  /** How many leading chunks arrive before the limit is exceeded. */
  function Accepted(chunks: seq<Bytes>, maxBytes: int): (k: nat)
    ensures k <= |chunks|
    ensures 0 < k ==> |Concat(chunks[..k])| <= maxBytes
    ensures k < |chunks| ==> |Concat(chunks[..k + 1])| > maxBytes
  {
    if chunks == [] then 0
    else
      var n := |chunks| - 1;
      var k := Accepted(chunks[..n], maxBytes);
      assert chunks[..n + 1] == chunks && chunks[..n][..k] == chunks[..k];
      assert k < n ==> chunks[..n][..k + 1] == chunks[..k + 1];
      if k == n && |Concat(chunks)| <= maxBytes then n + 1 else k
  }

  /** The trees a verified write goes through: the temporary file empty, then with one
      more chunk each time, as long as the limit allows. */
  ghost function Writing(before: Tree, tmp: Path, chunks: seq<Bytes>, maxBytes: int): (r: seq<Tree>)
    ensures |r| == Accepted(chunks, maxBytes) + 1
    ensures forall i :: 0 <= i < |r| ==> r[i] == before[tmp := File(Concat(chunks[..i]))]
  {
    seq(Accepted(chunks, maxBytes) + 1, i requires 0 <= i <= |chunks| => before[tmp := File(Concat(chunks[..i]))])
  }

  lemma AllAccepted(chunks: seq<Bytes>, i: nat, maxBytes: int)
    requires i <= |chunks| && (i == 0 || |Concat(chunks[..i])| <= maxBytes)
    ensures Accepted(chunks, maxBytes) >= i
  {
    var k := Accepted(chunks, maxBytes);
    if k < i {
      PrefixNoLonger(chunks, k + 1, i);
    }
  }

  lemma PrefixNoLonger(chunks: seq<Bytes>, k: nat, i: nat)
    requires k <= i <= |chunks|
    ensures |Concat(chunks[..k])| <= |Concat(chunks[..i])|
  {
    hide Concat;
    ConcatPrefix(chunks[..i], k);
    assert chunks[..i][..k] == chunks[..k];
  }

  /** Each of them is an interim state. */
  lemma WritingIsInterim(before: Tree, tmp: Path, dest: Path, chunks: seq<Bytes>, maxBytes: int)
    requires tmp !in before && tmp != dest && dest !in before && tmp != [] && Parent(tmp) == Parent(dest)
    ensures forall i :: 0 <= i < |Writing(before, tmp, chunks, maxBytes)| ==>
              Interim(before, Writing(before, tmp, chunks, maxBytes)[i], dest, maxBytes)
  {
    hide Interim, Writing, Concat;
    var k := Accepted(chunks, maxBytes);
    forall i | 0 <= i <= k ensures Interim(before, Writing(before, tmp, chunks, maxBytes)[i], dest, maxBytes) {
      if i == 0 {
        assert chunks[..0] == [];
        ConcatNone();
      } else {
        PrefixNoLonger(chunks, i, k);
      }
      InterimWith(before, tmp, dest, Concat(chunks[..i]), maxBytes);
    }
  }

  lemma DropTemp(before: Tree, tmp: Path, content: Bytes)
    requires tmp !in before
    ensures before[tmp := File(content)] - {tmp} == before
  {
  }

  lemma WithFileRooted(t: Tree, dest: Path, content: Bytes)
    requires Rooted(t) && dest !in t && ParentIsDir(t, dest)
    ensures Rooted(t[dest := File(content)])
  {
  }

  lemma ConcatStep(chunks: seq<Bytes>, i: nat)
    requires i < |chunks|
    ensures Concat(chunks[..i + 1]) == Concat(chunks[..i]) + chunks[i]
    ensures |Concat(chunks[..i + 1])| <= |Concat(chunks)|
  {
    assert chunks[..i + 1][..i] == chunks[..i];
    ConcatPrefix(chunks, i + 1);
  }

  /** _hash_file_bytes */
  method HashFileBytes(h: Hasher, content: Bytes) returns (sha256: Text, size: nat)
    ensures sha256 == h(content) && size == |content|
  {
    var hashed: Bytes := [];
    size := 0;
    while size < |content|
      invariant size <= |content| && hashed == content[..size]
    {
      var next := if size + CHUNK_SIZE <= |content| then size + CHUNK_SIZE else |content|;
      hashed := hashed + content[size..next];
      size := next;
    }
    assert content[..size] == content;
    sha256 := h(hashed);
  }

  class Disk {
    var tree: Tree

    /** Every tree the disk has held, the present one last. */
    ghost var states: seq<Tree>

    ghost predicate Logged()
      reads this
    {
      states != [] && states[|states| - 1] == tree
    }

    constructor ()
      ensures tree == map[[] := Dir] && Rooted(tree) && states == [tree]
    {
      tree := map[[] := Dir];
      states := [map[[] := Dir]];
    }

    /** mkdir(parents=True, exist_ok=True) */
    method MkdirAll(p: Path) returns (ok: bool)
      requires Rooted(tree) && Logged()
      modifies this
      ensures ok <==> CanHold(old(tree), p)
      ensures tree == if ok then WithDirs(old(tree), p) else old(tree)
      ensures Rooted(tree) && Logged()
      ensures states == old(states) + if ok then [tree] else []
    {
      ok := CanHold(tree, p);
      if ok {
        WithDirsRooted(tree, p);
        tree := WithDirs(tree, p);
        states := states + [tree];
      }
    }

    /** mkdir of one directory whose parent exists. */
    method Mkdir(p: Path)
      requires Rooted(tree) && p !in tree && ParentIsDir(tree, p)
      modifies this
      ensures tree == old(tree)[p := Dir] && Rooted(tree)
      ensures states == old(states) + [tree] && Logged()
    {
      tree := tree[p := Dir];
      states := states + [tree];
    }

    /** A name for a new node beside p, as a random UUID gives one. */
    method FreshSibling(p: Path) returns (q: Path)
      requires p != []
      ensures q !in tree && q != p && q != [] && Parent(q) == Parent(p)
      ensures Last(q) != Last(p)
    {
      var longest := |p[|p| - 1]|;
      var pending := tree.Keys;
      while pending != {}
        invariant pending <= tree.Keys && longest >= |p[|p| - 1]|
        invariant forall r :: r in tree && r !in pending && r != [] ==> |r[|r| - 1]| <= longest
        decreases pending
      {
        var r :| r in pending;
        pending := pending - {r};
        if r != [] && |r[|r| - 1]| > longest {
          longest := |r[|r| - 1]|;
        }
      }
      q := Parent(p) + [seq(longest + 1, i => 97)];
    }

    /** write_verified: dest appears, whole and verified, or not at all, and the disk goes
        through exactly the trees of the temporary file growing chunk by chunk. */
    method WriteVerified(h: Hasher, stream: Stream, dest: Path, expected: Text, maxBytes: int)
      returns (r: Result<(), Failure>, ghost part: Path)
      requires Rooted(tree) && Logged()
      modifies this
      ensures dest in old(tree) ==> r == Err(Refused) && states == old(states)
      ensures dest !in old(tree) && !ParentIsDir(old(tree), dest) ==> r == Err(System) && states == old(states)
      ensures dest !in old(tree) && ParentIsDir(old(tree), dest) ==>
        (r.Ok? <==> Verified(h, stream, expected, maxBytes).Some?)
      ensures dest !in old(tree) && ParentIsDir(old(tree), dest) && r.Err? ==>
        r.error == if !TooLong(stream, maxBytes) && !stream.complete then System else Integrity
      ensures dest !in old(tree) && ParentIsDir(old(tree), dest) ==>
        && part !in old(tree) && part != dest && part != [] && Parent(part) == Parent(dest)
        && states == old(states) + Writing(old(tree), part, stream.chunks, maxBytes) + [tree]
      ensures r.Ok? ==>
        tree == old(tree)[dest := File(Verified(h, stream, expected, maxBytes).value)]
      ensures r.Err? ==> tree == old(tree)
      ensures Rooted(tree) && Logged()
    {
      hide Rooted, Concat, Accepted, Writing;
      assert [] in tree by { RootInTree(tree); }
      part := [];
      if dest in tree {
        return Err(Refused), part;
      }
      if Parent(dest) !in tree || !tree[Parent(dest)].Dir? {
        return Err(System), part;
      }
      ghost var before := tree;
      var tmp := FreshSibling(dest);
      part := tmp;
      var ok, digest := Receive(stream.chunks, tmp, maxBytes);
      WholeStream(stream.chunks, maxBytes);
      DropTemp(before, tmp, digest);
      if !ok {
        tree := tree - {tmp};
        states := states + [tree];
        return Err(Integrity), part;
      }
      if !stream.complete {
        tree := tree - {tmp};
        states := states + [tree];
        return Err(System), part;
      }
      if h(digest) != expected {
        tree := tree - {tmp};
        states := states + [tree];
        return Err(Integrity), part;
      }
      WithFileRooted(before, dest, digest);
      tree := (tree - {tmp})[dest := File(digest)];
      states := states + [tree];
      return Ok(()), part;
    }

    /** The writing loop: the temporary file grows by one chunk at a time until the stream
        ends or the limit is exceeded. */
    method Receive(chunks: seq<Bytes>, tmp: Path, maxBytes: int) returns (ok: bool, digest: Bytes)
      modifies this
      ensures states == old(states) + Writing(old(tree), tmp, chunks, maxBytes)
      ensures ok <==> Accepted(chunks, maxBytes) == |chunks|
      ensures digest == Concat(chunks[..Accepted(chunks, maxBytes)])
      ensures tree == old(tree)[tmp := File(digest)]
    {
      hide Concat, Accepted, Writing;
      ghost var before := tree;
      var written := 0;
      digest := [];
      assert chunks[..0] == [] && Concat([]) == [] by { ConcatNone(); }
      tree := tree[tmp := File([])];
      ghost var trees := [tree];
      states := states + [tree];
      for i := 0 to |chunks|
        invariant digest == Concat(chunks[..i]) && written == |digest|
        invariant tree == before[tmp := File(digest)]
        invariant i == 0 || written <= maxBytes
        invariant |trees| == i + 1
        invariant forall k :: 0 <= k <= i ==> trees[k] == before[tmp := File(Concat(chunks[..k]))]
        invariant states == old(states) + trees
      {
        ConcatStep(chunks, i);
        AllAccepted(chunks, i, maxBytes);
        written := written + |chunks[i]|;
        if written > maxBytes {
          StopsAt(chunks, i, maxBytes);
          assert trees == Writing(before, tmp, chunks, maxBytes);
          return false, digest;
        }
        digest := digest + chunks[i];
        tree := tree[tmp := File(digest)];
        trees := trees + [tree];
        states := states + [tree];
      }
      assert chunks[..|chunks|] == chunks;
      AllAccepted(chunks, |chunks|, maxBytes);
      assert trees == Writing(before, tmp, chunks, maxBytes);
      return true, digest;
    }

    /** os.rename of a directory to a path that does not exist: what was below source is
        below dest, and nothing else changes. */
    method Rename(source: Path, dest: Path)
      requires Rooted(tree) && source != [] && source in tree && tree[source].Dir?
      requires dest !in tree && ParentIsDir(tree, dest) && !(source <= dest)
      modifies this
      ensures forall p: Path :: dest + p in tree <==> source + p in old(tree)
      ensures forall p: Path :: source + p in old(tree) ==> tree[dest + p] == old(tree)[source + p]
      ensures forall q :: !(dest <= q) ==> (q in tree <==> q in old(tree) && !(source <= q))
      ensures forall q :: q in tree && !(dest <= q) ==> tree[q] == old(tree)[q]
      ensures Rooted(tree)
      ensures states == old(states) + [tree] && Logged()
    {
      MoveKeepsRooted(tree, source, dest);
      ghost var before := tree;
      tree := Graft(Cut(tree, source), dest, Subtree(tree, source));
      forall p: Path ensures dest + p in tree <==> source + p in before {
        assert (dest + p)[|dest|..] == p && dest <= dest + p;
      }
      states := states + [tree];
    }

    /** shutil.rmtree: nothing is left at or below root, and nothing else changes. */
    method RemoveTree(root: Path)
      requires Rooted(tree) && root != []
      modifies this
      ensures forall q :: q in tree <==> q in old(tree) && !(root <= q)
      ensures forall q :: q in tree ==> tree[q] == old(tree)[q]
      ensures Rooted(tree)
      ensures states == old(states) + [tree] && Logged()
    {
      CutRooted(tree, root);
      tree := Cut(tree, root);
      states := states + [tree];
    }

    /** hash_artifact: dispatches on what is there. */
    method HashArtifact(h: Hasher, root: Path) returns (r: Result<ArtifactDigest, Failure>)
      requires Rooted(tree) && Named(Subtree(tree, root))
      ensures root !in tree ==> r == Err(Missing)
      ensures root in tree && tree[root].File? ==> root != [] && r == Ok(FileArtifact(h, Last(root), tree[root].content))
      ensures root in tree && tree[root].Dir? ==>
        r == if FilesUnder(tree, root) == map[] then Err(Empty) else Ok(DirectoryDigest(h, FilesUnder(tree, root)))
    {
      hide DirectoryDigest, FilesUnder;
      if root !in tree {
        return Err(Missing);
      }
      if tree[root].Dir? {
        r := HashDirectory(h, root);
        return;
      }
      var sha256, size := HashFileBytes(h, tree[root].content);
      var digest := DigestFromFiles(h, SingleFile, [FileDigest(Last(root), sha256, size)]);
      return Ok(digest.value);
    }

    /** hash_directory: the files are met in an arbitrary order. */
    method HashDirectory(h: Hasher, root: Path) returns (r: Result<ArtifactDigest, Failure>)
      requires Named(Subtree(tree, root))
      ensures root !in tree || tree[root].File? ==> r == Err(Missing)
      ensures root in tree && tree[root].Dir? ==>
        r == if FilesUnder(tree, root) == map[] then Err(Empty) else Ok(DirectoryDigest(h, FilesUnder(tree, root)))
    {
      hide FileEntry, DistinctPaths, Split, Join, Listing;
      if root !in tree || tree[root].File? {
        return Err(Missing);
      }
      ghost var files := FilesUnder(tree, root);
      var pending := set q | q in tree && root < q && tree[q].File?;
      var digests: seq<FileDigest> := [];
      HashNothing(h, tree, root, pending);
      while pending != {}
        invariant forall q :: q in pending ==> q in tree && root < q && tree[q].File?
        invariant Hashed(h, files, root, digests, pending)
        decreases pending
      {
        var q :| q in pending;
        PathBelow(tree, root, q);
        var path := Join(q[|root|..]);
        var sha256, size := HashFileBytes(h, tree[q].content);
        HashOneMore(h, files, root, digests, pending, q, path);
        digests := digests + [FileDigest(path, sha256, size)];
        pending := pending - {q};
      }
      EntriesAreListing(h, files, root, digests);
      if digests == [] {
        return Err(Empty);
      }
      return Ok(ArtifactDigest(Directory, h(ManifestBytes(digests)), SortFiles(digests)));
    }
  }

  /** What hash_file returns: the one file under its own name, its hash being the digest. */
  function FileArtifact(h: Hasher, name: Text, content: Bytes): ArtifactDigest {
    ArtifactDigest(SingleFile, h(content), [FileEntry(h, name, content)])
  }

  /** The digests so far are those of the files no longer pending, each once. */
  ghost predicate Hashed(h: Hasher, files: Contents, root: Path, digests: seq<FileDigest>, pending: set<Path>) {
    && DistinctPaths(digests)
    && (forall f :: f in digests ==>
      f.path in files && f == FileEntry(h, f.path, files[f.path]) && root + Split(f.path) !in pending)
    && (forall k :: k in files ==> root + Split(k) in pending || FileEntry(h, k, files[k]) in digests)
  }

  lemma HashNothing(h: Hasher, t: Tree, root: Path, pending: set<Path>)
    requires pending == set q | q in t && root < q && t[q].File?
    ensures Hashed(h, FilesUnder(t, root), root, [], pending)
  {
    hide Split;
    forall k | k in FilesUnder(t, root) ensures root + Split(k) in pending {
      assert root + Split(k) in t;
    }
  }

  lemma HashOneMore(h: Hasher, files: Contents, root: Path, digests: seq<FileDigest>, pending: set<Path>,
                    q: Path, path: Text)
    requires Hashed(h, files, root, digests, pending)
    requires q in pending && path in files && root + Split(path) == q
    ensures Hashed(h, files, root, digests + [FileEntry(h, path, files[path])], pending - {q})
    ensures FileEntry(h, path, files[path]) == FileDigest(path, h(files[path]), |files[path]|)
  {
    hide Split;
    var more := digests + [FileEntry(h, path, files[path])];
    assert DistinctPaths(more) by {
      forall i | 0 <= i < |digests| ensures digests[i].path != path {
        assert digests[i] in digests;
      }
    }
    forall k | k in files ensures root + Split(k) in pending - {q} || FileEntry(h, k, files[k]) in more {
      if root + Split(k) == q {
        assert Split(k) == (root + Split(k))[|root|..] == (root + Split(path))[|root|..] == Split(path);
        JoinSplit(k);
        JoinSplit(path);
        assert more[|digests|] == FileEntry(h, k, files[k]);
      }
    }
  }

  function Last(p: Path): Text
    requires p != []
  {
    p[|p| - 1]
  }

  lemma PathBelow(t: Tree, root: Path, q: Path)
    requires Named(Subtree(t, root)) && q in t && root < q && t[q].File?
    ensures q[|root|..] != [] && root + Split(Join(q[|root|..])) == q
    ensures Join(q[|root|..]) in FilesUnder(t, root)
    ensures FilesUnder(t, root)[Join(q[|root|..])] == t[q].content
  {
    var p := q[|root|..];
    assert root + p == q;
    assert p in Subtree(t, root);
    SplitJoin(p);
  }

  lemma EntriesAreListing(h: Hasher, files: Contents, root: Path, digests: seq<FileDigest>)
    requires Hashed(h, files, root, digests, {})
    ensures digests == [] <==> files == map[]
    ensures ArtifactDigest(Directory, h(ManifestBytes(digests)), SortFiles(digests)) == DirectoryDigest(h, files)
  {
    hide Split;
    SortFilesSorted(digests);
    forall k | k in files ensures FileEntry(h, k, files[k]) in digests {
      assert root + Split(k) !in {};
    }
    PathSortedUnique(SortFiles(digests), Listing(h, files));
    SortFilesFixed(Listing(h, files));
    if digests != [] { assert digests[0] in digests; }
    if files != map[] {
      var k :| k in files;
      assert FileEntry(h, k, files[k]) in digests;
    }
  }

  lemma RootInTree(t: Tree)
    requires Rooted(t)
    ensures [] in t
  {
  }

  lemma WholeStream(chunks: seq<Bytes>, maxBytes: int)
    ensures Accepted(chunks, maxBytes) == |chunks| <==> chunks == [] || |Concat(chunks)| <= maxBytes
    ensures chunks[..|chunks|] == chunks
  {
    hide Concat;
    assert chunks[..|chunks|] == chunks;
    if |Concat(chunks)| <= maxBytes { AllAccepted(chunks, |chunks|, maxBytes); }
  }

  lemma StopsAt(chunks: seq<Bytes>, i: nat, maxBytes: int)
    requires i < |chunks| && |Concat(chunks[..i + 1])| > maxBytes
    ensures Accepted(chunks, maxBytes) <= i
  {
    hide Concat;
    var k := Accepted(chunks, maxBytes);
    if k > i {
      PrefixNoLonger(chunks, i + 1, k);
    }
  }

  lemma CutRooted(t: Tree, root: Path)
    requires Rooted(t) && root != []
    ensures Rooted(Cut(t, root))
  {
    forall q | q in Cut(t, root) && q != [] ensures Parent(q) in Cut(t, root) {
      assert root <= Parent(q) ==> root <= q;
    }
  }

  lemma SubtreeRooted(t: Tree, root: Path)
    requires Rooted(t) && root in t && t[root].Dir?
    ensures Rooted(Subtree(t, root))
  {
    var s := Subtree(t, root);
    assert root + [] == root;
    forall p | p in s && p != [] ensures Parent(p) in s && s[Parent(p)].Dir? {
      assert Parent(root + p) == root + Parent(p);
    }
  }

  lemma MoveKeepsRooted(t: Tree, source: Path, dest: Path)
    requires Rooted(t) && source != [] && source in t && t[source].Dir?
    requires dest !in t && ParentIsDir(t, dest) && !(source <= dest)
    ensures Clear(Cut(t, source), dest)
    ensures Rooted(Graft(Cut(t, source), dest, Subtree(t, source)))
  {
    CutRooted(t, source);
    SubtreeRooted(t, source);
    AbsentIsClear(t, dest);
    assert source <= Parent(dest) ==> source <= dest;
    GraftRooted(Cut(t, source), dest, Subtree(t, source));
  }

  /** What a move leaves is the graft of the moved subtree. */
  lemma MovedIsGraft(before: Tree, after: Tree, source: Path, dest: Path)
    requires Clear(Cut(before, source), dest)
    requires forall p: Path :: dest + p in after <==> source + p in before
    requires forall p: Path :: source + p in before ==> after[dest + p] == before[source + p]
    requires forall q :: !(dest <= q) ==> (q in after <==> q in before && !(source <= q))
    requires forall q :: q in after && !(dest <= q) ==> after[q] == before[q]
    ensures after == Graft(Cut(before, source), dest, Subtree(before, source))
  {
    hide Cut, Subtree, Graft, Clear;
    var g := Graft(Cut(before, source), dest, Subtree(before, source));
    forall q: Path ensures (q in after <==> q in g) && (q in after ==> after[q] == g[q]) {
      if dest <= q {
        MovedBelow(before, after, source, dest, q[|dest|..]);
        assert q == dest + q[|dest|..];
      } else {
        MovedBeside(before, source, dest, q);
      }
    }
    SameTrees(after, g);
  }

  lemma MovedBelow(before: Tree, after: Tree, source: Path, dest: Path, p: Path)
    requires Clear(Cut(before, source), dest)
    requires dest + p in after <==> source + p in before
    requires source + p in before ==> after[dest + p] == before[source + p]
    ensures var g := Graft(Cut(before, source), dest, Subtree(before, source));
            (dest + p in after <==> dest + p in g) && (dest + p in after ==> after[dest + p] == g[dest + p])
  {
    hide Cut;
    assert (dest + p)[|dest|..] == p && dest <= dest + p;
  }

  lemma MovedBeside(before: Tree, source: Path, dest: Path, q: Path)
    requires Clear(Cut(before, source), dest) && !(dest <= q)
    ensures var g := Graft(Cut(before, source), dest, Subtree(before, source));
            (q in g <==> q in before && !(source <= q)) && (q in g ==> g[q] == before[q])
  {
  }

  lemma RemovedIsCut(before: Tree, after: Tree, root: Path)
    requires forall q :: q in after <==> q in before && !(root <= q)
    requires forall q :: q in after ==> after[q] == before[q]
    ensures after == Cut(before, root)
  {
  }

  lemma ConcatNone()
    ensures Concat([]) == []
  {
  }
}
