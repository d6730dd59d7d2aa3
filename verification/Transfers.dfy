/** Uploading an artifact to a store and downloading one from it. */
module Transfers {
  import opened Outcomes
  import opened Unicode
  import opened Json
  import opened JsonRoundTrip
  import opened JsonReading
  import opened Digests
  import opened Paths
  import opened Disks
  import opened Manifests
  import opened Artifacts
  import opened FileSystem
  import opened BlobStores

  const MAX_MANIFEST_BYTES := 64 * 1024 * 1024

  const FILE_KIND: Text := Ascii("file")
  const DIRECTORY_KIND: Text := Ascii("directory")

  datatype Limits = Limits(files: int, total: int)

  /* -- the manifest -------------------------------------------------------------------- */

  /** The store serves, under the digest asked for, the canonical manifest of this list
      and nothing else, and the list is one a manifest may hold. */
  ghost predicate ServesManifest(h: Hasher, served: Served, expected: Text, files: seq<FileDigest>, limits: Limits) {
    && Received(h, served, expected, MAX_MANIFEST_BYTES) == Some(DumpsBytes(ManifestValue(files)))
    && Listable(files, limits.files, limits.total)
    && PathSorted(files)
    && CleanFiles(files)
  }

  lemma PrintedReadsBack(foreign: Decoder, files: seq<FileDigest>)
    requires CleanFiles(files)
    ensures LoadsBytes(foreign, DumpsBytes(ManifestValue(files))) == Parsed(ManifestValue(files))
  {
    hide Dumps, Loads, ManifestValue;
    ManifestClean(files);
    RoundTripExact(ManifestValue(files));
    assert PlainAscii(DumpsBytes(ManifestValue(files)));
  }

  /** Canonical bytes are the print of exactly what was read from them: a sorted, clean
      list. */
  lemma CanonicalIsSorted(foreign: Decoder, raw: Bytes, files: seq<FileDigest>)
    requires LoadsBytes(foreign, raw) == Parsed(ManifestValue(files))
    requires ManifestBytes(files) == raw && DistinctPaths(files)
    ensures PathSorted(files) && CleanFiles(files)
    ensures raw == DumpsBytes(ManifestValue(files))
  {
    hide Dumps, Loads, ManifestValue, SortFiles;
    assert PlainAscii(raw);
    assert NoSurrogates(raw);
    LoadsClean(raw);
    ManifestClean(files);
    SortFilesSorted(files);
    var sorted := SortFiles(files);
    assert CleanFiles(sorted) by {
      forall i | 0 <= i < |sorted| ensures Faithful(sorted[i].path) && Faithful(sorted[i].sha256) {
        assert sorted[i] in files;
      }
    }
    PrintedReadsBack(foreign, sorted);
    ManifestValueInjective(files, sorted);
  }

  lemma ManifestValueInjective(a: seq<FileDigest>, b: seq<FileDigest>)
    requires ManifestValue(a) == ManifestValue(b)
    ensures a == b
  {
    ManifestFields();
    assert ManifestValue(a).members[FILES] == ManifestValue(b).members[FILES];
    EntriesDetermine(a);
  }

  /** _fetch_manifest: returns a list exactly when the store serves its canonical
      manifest under the expected digest. */
  method FetchManifest(h: Hasher, foreign: Decoder, served: Served, expected: Text, limits: Limits)
    returns (r: Result<seq<FileDigest>, Failure>)
    ensures r.Ok? ==> ServesManifest(h, served, expected, r.value, limits)
    ensures r.Err? ==> forall files :: !ServesManifest(h, served, expected, files, limits)
    ensures r.Err? ==>
      r.error == if Received(h, served, expected, MAX_MANIFEST_BYTES).None? then ReadFailure(served, expected, MAX_MANIFEST_BYTES)
                 else Integrity
  {
    hide LoadsBytes, ManifestValue, SortFiles, Listable, CleanFiles, PathSorted;
    var scratch := new Disk();
    var target: Path := [Ascii("manifest.json")];
    var got := GetTo(scratch, h, served, expected, target, MAX_MANIFEST_BYTES);
    assert got.Ok? <==> Received(h, served, expected, MAX_MANIFEST_BYTES).Some?;
    if got.Err? {
      return Err(got.error);
    }
    var raw := scratch.tree[target].content;
    var parsed := ParseManifest(foreign, raw, limits.files, limits.total);
    if parsed.None? {
      forall files | CleanFiles(files) && Listable(files, limits.files, limits.total)
        ensures raw != DumpsBytes(ManifestValue(files))
      {
        PrintedReadsBack(foreign, files);
      }
      return Err(Integrity);
    }
    var files := parsed.value;
    ListableDistinct(files, limits.files, limits.total);
    var rederived := DigestFromFiles(h, Directory, files);
    if rederived.value.digest != expected || ManifestBytes(files) != raw {
      RejectUncanonical(h, foreign, raw, expected, files);
      return Err(Integrity);
    }
    CanonicalIsSorted(foreign, raw, files);
    return Ok(files);
  }

  lemma ListableDistinct(files: seq<FileDigest>, maxFiles: int, maxTotal: int)
    requires Listable(files, maxFiles, maxTotal)
    ensures DistinctPaths(files)
  {
  }

  lemma RejectUncanonical(h: Hasher, foreign: Decoder, raw: Bytes, expected: Text, files: seq<FileDigest>)
    requires LoadsBytes(foreign, raw) == Parsed(ManifestValue(files))
    requires h(raw) == expected
    requires h(ManifestBytes(files)) != expected || ManifestBytes(files) != raw
    ensures forall other: seq<FileDigest> :: PathSorted(other) && CleanFiles(other) ==>
      raw != DumpsBytes(ManifestValue(other))
  {
    hide LoadsBytes, ManifestValue, SortFiles, CleanFiles, PathSorted;
    forall other: seq<FileDigest> | PathSorted(other) && CleanFiles(other)
      ensures raw != DumpsBytes(ManifestValue(other))
    {
      PrintedReadsBack(foreign, other);
      SortFilesFixed(other);
      if raw == DumpsBytes(ManifestValue(other)) {
        ManifestValueInjective(files, other);
      }
    }
  }

  /* -- downloading ---------------------------------------------------------------------- */

  /** The store's answers, call by call, are the canonical manifest of m under the digest
      asked for and then the contents of m in path order. */
  ghost predicate Delivers(h: Hasher, server: Server, expected: Text, limits: Limits, m: Contents) {
    && ServesManifest(h, server(0, expected), expected, Listing(h, m), limits)
    && forall i :: 0 <= i < |Listing(h, m)| ==> ServesEntry(h, server, Listing(h, m), i, m)
  }

  ghost predicate ServesEntry(h: Hasher, server: Server, files: seq<FileDigest>, i: nat, m: Contents)
    requires i < |files|
  {
    && files[i].path in m
    && Received(h, server(i + 1, files[i].sha256), files[i].sha256, files[i].size) == Some(m[files[i].path])
  }

  /** The disk before, with the directories above dest created and m's tree at dest. */
  ghost predicate Installed(before: Tree, after: Tree, dest: Path, m: Contents) {
    var base := WithDirs(before, Parent(dest));
    Clear(base, dest) && after == Graft(base, dest, TreeOf(m))
  }

  /** s.partition(c) */
  function Partition(s: Text, c: CodePoint): (Text, Text) {
    if s == [] then ([], [])
    else if s[0] == c then ([], s[1..])
    else
      var (before, after) := Partition(s[1..], c);
      ([s[0]] + before, after)
  }

  /** The entries fetched so far, as they stand in the staging tree. */
  ghost predicate Fetched(h: Hasher, server: Server, files: seq<FileDigest>, contents: seq<Bytes>) {
    && |contents| <= |files|
    && forall i :: 0 <= i < |contents| ==>
      files[i] == FileEntry(h, files[i].path, contents[i])
      && Received(h, server(i + 1, files[i].sha256), files[i].sha256, files[i].size) == Some(contents[i])
  }

  /** A listed path is new to the map of the paths before it, and disjoint from them. */
  lemma NextPathIsFree(files: seq<FileDigest>, contents: seq<Bytes>, c: Bytes)
    requires |contents| < |files| && DistinctPaths(files) && NoFileAbove(files)
    ensures var m := Paired(files[..|contents|], contents);
      files[|contents|].path !in m && Disjoint(m[files[|contents|].path := c])
  {
    hide Split;
    var n := |contents|;
    var init := files[..n];
    assert DistinctPaths(init);
    PairedEntries(init, contents);
    var m := Paired(init, contents);
    var more := m[files[n].path := c];
    forall k | k in more ensures exists i :: 0 <= i <= n && files[i].path == k {
      if k in m {
        var i :| 0 <= i < |init| && init[i].path == k;
        assert files[i].path == k;
      }
    }
  }

  lemma PairedStep(files: seq<FileDigest>, contents: seq<Bytes>, c: Bytes)
    requires |contents| < |files|
    ensures Paired(files[..|contents| + 1], contents + [c])
      == Paired(files[..|contents|], contents)[files[|contents|].path := c]
  {
    var n := |contents|;
    assert files[..n + 1][..n] == files[..n] && (contents + [c])[..n] == contents;
  }

  /** Once every entry is fetched, the map of the contents is one the store delivers. */
  lemma FetchedDelivers(h: Hasher, server: Server, expected: Text, limits: Limits,
                        files: seq<FileDigest>, contents: seq<Bytes>)
    requires ServesManifest(h, server(0, expected), expected, files, limits)
    requires Fetched(h, server, files, contents) && |contents| == |files|
    ensures Listing(h, Paired(files, contents)) == files
    ensures Delivers(h, server, expected, limits, Paired(files, contents))
  {
    hide ManifestValue, Listable, FileEntry, Received;
    ListingOfPaired(h, files, contents);
    SortFilesFixed(files);
    PairedEntries(files, contents);
  }

  /** What a store delivers is determined by its answers. */
  lemma DeliveredListing(h: Hasher, server: Server, expected: Text, limits: Limits,
                         files: seq<FileDigest>, m: Contents)
    requires ServesManifest(h, server(0, expected), expected, files, limits)
    requires Delivers(h, server, expected, limits, m)
    ensures Listing(h, m) == files
  {
    ManifestInjective(files, Listing(h, m));
  }

  lemma ServedFacts(h: Hasher, served: Served, expected: Text, files: seq<FileDigest>, limits: Limits)
    requires ServesManifest(h, served, expected, files, limits)
    ensures files != [] && DistinctPaths(files) && NoFileAbove(files) && PathSorted(files)
    ensures forall i :: 0 <= i < |files| ==> SafePath(files[i].path)
    ensures TotalSize(files) <= limits.total && |files| <= limits.files
    ensures h(DumpsBytes(ManifestValue(files))) == expected && IsSha256(expected)
  {
    hide Dumps, ManifestValue, Concat, SafePath, TotalSize, CleanFiles, PathSorted, DistinctPaths, NoFileAbove;
    assert forall i :: 0 <= i < |files| ==> SafeFile(files[i]);
  }

  lemma StageEmpty(base: Tree, staging: Path)
    requires Clear(base, staging)
    ensures base[staging := Dir] == Graft(base, staging, TreeOf(map[]))
  {
    var a, b := base[staging := Dir], Graft(base, staging, TreeOf(map[]));
    forall q: Path ensures Agree(a, b, q) {
      if staging <= q {
        assert q == staging + q[|staging|..];
        assert InTree(map[], q[|staging|..]) <==> q == staging;
      }
    }
    SameTree(a, b);
  }

  lemma FetchedMore(h: Hasher, server: Server, files: seq<FileDigest>, contents: seq<Bytes>, c: Bytes)
    requires Fetched(h, server, files, contents) && |contents| < |files|
    requires var f := files[|contents|];
      Received(h, server(|contents| + 1, f.sha256), f.sha256, f.size) == Some(c) && |c| == f.size
    ensures Fetched(h, server, files, contents + [c])
  {
    hide Concat;
  }

  /** There is room in the staging tree for the next entry. */
  lemma StageRoom(base: Tree, staging: Path, m: Contents, path: Text)
    requires Clear(base, staging) && Rooted(base) && ParentIsDir(base, staging)
    requires path !in m && Disjoint(m) && Disjoint(m[path := []])
    ensures var t, p := TreeOf(m), Split(path);
      var g := Graft(base, staging, WithDirs(t, Parent(p)));
      && p != [] && Parent(staging + p) == staging + Parent(p)
      && Rooted(Graft(base, staging, t))
      && CanHold(Graft(base, staging, t), staging + Parent(p))
      && WithDirs(Graft(base, staging, t), staging + Parent(p)) == g
      && staging + p !in g && ParentIsDir(g, staging + p)
  {
    hide Split, InTree, IsFileAt, TreeOf;
    var t, p := TreeOf(m), Split(path);
    SplitNonEmpty(path);
    assert Parent(staging + p) == staging + Parent(p);
    TreeOfRooted(m);
    GraftRooted(base, staging, t);
    TreeOfHasRoom(m, path, []);
    GraftCanHold(base, staging, t, Parent(p));
    GraftDirs(base, staging, t, Parent(p));
    assert (staging + p)[|staging|..] == p && (staging + Parent(p))[|staging|..] == Parent(p);
    WithDirsDir(t, Parent(p));
  }

  lemma WithDirsDir(t: Tree, p: Path)
    requires CanHold(t, p)
    ensures p in WithDirs(t, p) && WithDirs(t, p)[p].Dir?
  {
    assert p in Prefixes(p);
  }

  lemma StageAdd(base: Tree, staging: Path, m: Contents, path: Text, c: Bytes)
    requires Clear(base, staging) && path !in m && Disjoint(m[path := []])
    ensures Disjoint(m[path := c])
    ensures Graft(base, staging, WithDirs(TreeOf(m), Parent(Split(path))))[staging + Split(path) := File(c)]
      == Graft(base, staging, TreeOf(m[path := c]))
  {
    hide Split, TreeOf, Clear;
    assert Disjoint(m[path := c]) by {
      forall k, l | k in m[path := c] && l in m[path := c] ensures !(Split(k) < Split(l)) {
        assert k in m[path := []] && l in m[path := []];
      }
    }
    TreeOfAdd(m, path, c);
    GraftFile(base, staging, WithDirs(TreeOf(m), Parent(Split(path))), Split(path), c);
  }

  /** A blob that does not arrive, or has the wrong size, means the store delivers no
      directory for this digest. */
  lemma NotDelivered(h: Hasher, server: Server, expected: Text, limits: Limits, files: seq<FileDigest>, i: nat)
    requires ServesManifest(h, server(0, expected), expected, files, limits) && i < |files|
    requires var got := Received(h, server(i + 1, files[i].sha256), files[i].sha256, files[i].size);
      got.None? || |got.value| != files[i].size
    ensures forall n :: !Delivers(h, server, expected, limits, n)
  {
    hide ServesManifest, Received;
    forall n | Listing(h, n) == files ensures !Delivers(h, server, expected, limits, n) {
      var got := Received(h, server(i + 1, files[i].sha256), files[i].sha256, files[i].size);
      assert |n[files[i].path]| == files[i].size;
      assert !ServesEntry(h, server, Listing(h, n), i, n);
    }
    forall n | Delivers(h, server, expected, limits, n) ensures Listing(h, n) == files {
      DeliveredListing(h, server, expected, limits, files, n);
    }
  }

  /* -- every moment of a download -------------------------------------------------------- */

  /** A state of the disk during a download: dest is not there, everything that was there
      before still is, unchanged, and no new file holds more than the limit. */
  ghost predicate Harmless(before: Tree, now: Tree, dest: Path, maxBytes: int) {
    && dest !in now
    && (forall q :: q in before ==> q in now && now[q] == before[q])
    && (forall q :: q in now && q !in before && now[q].File? ==> now[q].content == [] || |now[q].content| <= maxBytes)
  }

  /** The log has only grown, and by harmless states. */
  ghost predicate StaysHarmless(old': seq<Tree>, states: seq<Tree>, before: Tree, dest: Path, maxBytes: int) {
    && old' <= states
    && forall i :: |old'| <= i < |states| ==> Harmless(before, states[i], dest, maxBytes)
  }

  /** Two names in one directory. */
  predicate Beside(p: Path, q: Path) {
    |p| == |q| && p != q
  }

  lemma BesideDiffers(p: Path, q: Path)
    requires Beside(p, q)
    ensures p != q
  {
  }

  lemma BelowStaging(staging: Path, p: Path, target: Path, dest: Path)
    requires p != [] && target == staging + p && Beside(staging, dest)
    ensures staging < target && staging <= Parent(target) && !(dest <= Parent(target))
  {
    assert Parent(target) == staging + Parent(p);
    assert Parent(target)[..|staging|] == staging;
    assert dest <= Parent(target) ==> dest == staging;
  }

  lemma DirsAreHarmless(before: Tree, now: Tree, p: Path, dest: Path, maxBytes: int)
    requires Harmless(before, now, dest, maxBytes) && !(dest <= p)
    ensures Harmless(before, WithDirs(now, p), dest, maxBytes)
  {
  }

  lemma BaseIsHarmless(before: Tree, now: Tree, dest: Path, maxBytes: int)
    requires Harmless(before, now, dest, maxBytes)
    ensures Harmless(before, before, dest, maxBytes)
  {
  }

  lemma OneMoreState(old': seq<Tree>, states: seq<Tree>, now: Tree, before: Tree, dest: Path, maxBytes: int)
    requires states == old' + [now] && Harmless(before, now, dest, maxBytes)
    ensures StaysHarmless(old', states, before, dest, maxBytes)
  {
    hide Harmless;
  }

  lemma OneMoreHarmless(old': seq<Tree>, mid: seq<Tree>, states: seq<Tree>, now: Tree, before: Tree, dest: Path, maxBytes: int)
    requires StaysHarmless(old', mid, before, dest, maxBytes) && states == mid + [now] && Harmless(before, now, dest, maxBytes)
    ensures StaysHarmless(old', states, before, dest, maxBytes)
  {
    hide Harmless;
  }

  lemma MkdirIsHarmless(before: Tree, p: Path, dest: Path, maxBytes: int)
    requires dest !in before && p !in before && p != dest
    ensures Harmless(before, before[p := Dir], dest, maxBytes)
  {
  }

  lemma HarmlessOnwards(old': seq<Tree>, mid: seq<Tree>, states: seq<Tree>, before: Tree, dest: Path, maxBytes: int)
    requires StaysHarmless(old', mid, before, dest, maxBytes) && StaysHarmless(mid, states, before, dest, maxBytes)
    ensures StaysHarmless(old', states, before, dest, maxBytes)
  {
    hide Harmless;
  }

  lemma SizeWithinTotal(h: Hasher, served: Served, expected: Text, files: seq<FileDigest>, limits: Limits, i: nat)
    requires ServesManifest(h, served, expected, files, limits) && i < |files|
    ensures files[i].size <= limits.total
  {
    hide *;
    ServedFacts(h, served, expected, files, limits);
    EntryWithin(files, i);
  }

  lemma EntryWithin(files: seq<FileDigest>, i: nat)
    requires i < |files|
    ensures files[i].size <= TotalSize(files)
  {
    TotalSizePrefix(files, i + 1);
    assert files[..i + 1][..i] == files[..i];
  }

  /** A verified write below staging keeps every state harmless. */
  lemma WriteIsHarmless(base: Tree, t1: Tree, t2: Tree, s0: seq<Tree>, s1: seq<Tree>, s2: seq<Tree>,
                        staging: Path, target: Path, got: Option<Bytes>, dest: Path, maxBytes: int, limit: int)
    requires StaysHarmless(s0, s1, base, dest, limit) && Harmless(base, t1, dest, limit)
    requires WriteLogged(s1, s2, t1, t2, target, maxBytes)
    requires target !in t1 && t2 == if got.Some? then t1[target := File(got.value)] else t1
    requires got.Some? ==> got.value == [] || |got.value| <= maxBytes
    requires staging < target && Beside(staging, dest) && maxBytes <= limit
    ensures StaysHarmless(s0, s2, base, dest, limit) && Harmless(base, t2, dest, limit)
  {
    hide Interim;
    assert Harmless(base, t2, dest, limit);
    forall i | |s1| <= i < |s2| ensures Harmless(base, s2[i], dest, limit) {
      if s2[i] != t2 {
        InterimIsHarmless(base, t1, s2[i], staging, target, dest, maxBytes, limit);
      }
    }
  }

  lemma InterimIsHarmless(base: Tree, t: Tree, now: Tree, staging: Path, target: Path, dest: Path, maxBytes: int, limit: int)
    requires Harmless(base, t, dest, limit) && Interim(t, now, target, maxBytes)
    requires staging < target && Beside(staging, dest) && maxBytes <= limit
    ensures Harmless(base, now, dest, limit)
  {
    assert staging <= Parent(target);
    assert dest in now ==> Parent(dest) == Parent(target) && staging <= dest;
  }

  /** Creates the directories of one entry and fetches it into the staging tree. */
  method FetchEntry(disk: Disk, h: Hasher, served: Served, entry: FileDigest, staging: Path,
                    ghost base: Tree, ghost m: Contents, ghost dest: Path, ghost limit: int)
    returns (r: Result<(), Failure>)
    requires disk.Logged() && Beside(staging, dest) && entry.size <= limit && Harmless(base, disk.tree, dest, limit)
    requires Rooted(base) && Clear(base, staging) && ParentIsDir(base, staging)
    requires disk.tree == Graft(base, staging, TreeOf(m)) && Disjoint(m)
    requires SafePath(entry.path) && entry.path !in m && Disjoint(m[entry.path := []])
    modifies disk
    ensures var got := Received(h, served, entry.sha256, entry.size);
      && (r.Ok? <==> got.Some?)
      && (r.Err? ==> r.error == ReadFailure(served, entry.sha256, entry.size))
      && (r.Ok? ==> Disjoint(m[entry.path := got.value])
                    && disk.tree == Graft(base, staging, TreeOf(m[entry.path := got.value]))
                    && staging + Split(entry.path) in disk.tree
                    && disk.tree[staging + Split(entry.path)] == File(got.value))
    ensures Cut(disk.tree, staging) == base && Rooted(disk.tree)
    ensures disk.Logged() && Harmless(base, disk.tree, dest, limit)
    ensures StaysHarmless(old(disk.states), disk.states, base, dest, limit)
  {
    hide Received, TreeOf, Rooted, Split, SafePath, Clear, Disjoint, Harmless, StaysHarmless, WriteLogged, Beside,
      Cut, Graft, WithDirs;
    ghost var s0, t0 := disk.states, disk.tree;
    var segments := Split(entry.path);
    var target := staging + segments;
    SafeResolves(staging, entry.path);
    if !(staging <= Resolve(staging, segments)) {
      assert false;
    }
    StageRoom(base, staging, m, entry.path);
    var made := disk.MkdirAll(Parent(target));
    assert made;
    ghost var dirs := WithDirs(TreeOf(m), Parent(segments));
    assert disk.tree == Graft(base, staging, dirs);
    CutGraft(base, staging, dirs);
    BelowStaging(staging, segments, target, dest);
    DirsAreHarmless(base, t0, Parent(target), dest, limit);
    OneMoreState(s0, disk.states, disk.tree, base, dest, limit);
    ghost var t1, s1 := disk.tree, disk.states;
    r := GetTo(disk, h, served, entry.sha256, target, entry.size);
    ReceivedFits(h, served, entry.sha256, entry.size);
    ghost var got := if r.Ok? then Some(Received(h, served, entry.sha256, entry.size).value) else None;
    WriteIsHarmless(base, t1, disk.tree, s0, s1, disk.states, staging, target, got, dest, entry.size, limit);
    if r.Ok? {
      ghost var content := Received(h, served, entry.sha256, entry.size).value;
      StageAdd(base, staging, m, entry.path, content);
      CutGraft(base, staging, TreeOf(m[entry.path := content]));
    }
  }

  /** The error of an entry that is not staged: that of its read, an error of the system being
      turned into one of the store, or its wrong size. */
  function EntryFailure(h: Hasher, served: Served, entry: FileDigest): Failure {
    if Received(h, served, entry.sha256, entry.size).Some? then Integrity
    else if ReadFailure(served, entry.sha256, entry.size) == System then Refused
    else ReadFailure(served, entry.sha256, entry.size)
  }

  /** The first entry that is not staged, and the error it ends in. */
  ghost predicate FirstFailure(h: Hasher, server: Server, files: seq<FileDigest>, i: nat, error: Failure) {
    && i < |files| && !Stageable(h, server, files, i) && (forall k :: 0 <= k < i ==> Stageable(h, server, files, k))
    && error == EntryFailure(h, server(i + 1, files[i].sha256), files[i])
  }

  ghost predicate Stageable(h: Hasher, server: Server, files: seq<FileDigest>, i: nat)
    requires i < |files|
  {
    var got := Received(h, server(i + 1, files[i].sha256), files[i].sha256, files[i].size);
    got.Some? && |got.value| == files[i].size
  }

  lemma FetchedAreStageable(h: Hasher, server: Server, files: seq<FileDigest>, contents: seq<Bytes>, m: Contents)
    requires Staged(h, server, files, contents, m)
    ensures forall k :: 0 <= k < |contents| ==> Stageable(h, server, files, k)
  {
    hide Received, Paired, Disjoint;
  }

  lemma FailsFirst(h: Hasher, server: Server, files: seq<FileDigest>, contents: seq<Bytes>, m: Contents, error: Failure)
    requires Staged(h, server, files, contents, m) && |contents| < |files|
    requires var i := |contents|;
      var got := Received(h, server(i + 1, files[i].sha256), files[i].sha256, files[i].size);
      !(got.Some? && |got.value| == files[i].size)
    requires error == EntryFailure(h, server(|contents| + 1, files[|contents|].sha256), files[|contents|])
    ensures FirstFailure(h, server, files, |contents|, error)
  {
    hide Received, EntryFailure, Staged;
    FetchedAreStageable(h, server, files, contents, m);
  }

  /** The error a delivery ends in: that of reading the manifest, that of a manifest which is
      not canonical or not admissible, or that of the first entry that is not staged. */
  ghost predicate DeliveryFails(h: Hasher, server: Server, expected: Text, limits: Limits, error: Failure) {
    var manifest := Received(h, server(0, expected), expected, MAX_MANIFEST_BYTES);
    || (manifest.None? && error == ReadFailure(server(0, expected), expected, MAX_MANIFEST_BYTES))
    || (manifest.Some? && error == Integrity && forall files :: !ServesManifest(h, server(0, expected), expected, files, limits))
    || (exists files, i :: ServesManifest(h, server(0, expected), expected, files, limits)
                           && FirstFailure(h, server, files, i, error))
  }

  /** One round of the staging loop: adds one entry to the staging tree, or removes
      the staging tree. */
  method StageEntry(disk: Disk, h: Hasher, served: Served, entry: FileDigest, staging: Path,
                    ghost base: Tree, ghost m: Contents, ghost dest: Path, ghost limit: int)
    returns (r: Result<(), Failure>)
    requires disk.Logged() && Beside(staging, dest) && entry.size <= limit && Harmless(base, disk.tree, dest, limit)
    requires Rooted(base) && Clear(base, staging) && ParentIsDir(base, staging)
    requires disk.tree == Graft(base, staging, TreeOf(m)) && Disjoint(m)
    requires SafePath(entry.path) && entry.path !in m && Disjoint(m[entry.path := []])
    modifies disk
    ensures var got := Received(h, served, entry.sha256, entry.size);
      && (r.Ok? <==> got.Some? && |got.value| == entry.size)
      && (r.Err? ==> r.error == EntryFailure(h, served, entry))
      && (r.Ok? ==> Disjoint(m[entry.path := got.value])
                    && disk.tree == Graft(base, staging, TreeOf(m[entry.path := got.value])))
    ensures r.Err? ==> disk.tree == base
    ensures disk.Logged() && Harmless(base, disk.tree, dest, limit)
    ensures StaysHarmless(old(disk.states), disk.states, base, dest, limit)
  {
    hide Received, TreeOf, Rooted, Split, SafePath, Clear, Disjoint, Harmless, StaysHarmless, Beside, Cut, Graft;
    ghost var s0 := disk.states;
    BaseIsHarmless(base, disk.tree, dest, limit);
    r := FetchEntry(disk, h, served, entry, staging, base, m, dest, limit);
    if r.Ok? && |disk.tree[staging + Split(entry.path)].content| != entry.size {
      r := Err(Integrity);
    }
    if r.Err? {
      ghost var t1, s1 := disk.tree, disk.states;
      disk.RemoveTree(staging);
      RemovedIsCut(t1, disk.tree, staging);
      OneMoreHarmless(s0, s1, disk.states, disk.tree, base, dest, limit);
      if r.error == System {
        r := Err(Refused);
      }
    }
  }

  /** The contents fetched so far and their map, which is what staging holds. */
  ghost predicate Staged(h: Hasher, server: Server, files: seq<FileDigest>, contents: seq<Bytes>, m: Contents) {
    && Fetched(h, server, files, contents)
    && m == Paired(files[..|contents|], contents)
    && Disjoint(m)
  }

  lemma StagedNone(h: Hasher, server: Server, files: seq<FileDigest>)
    ensures Staged(h, server, files, [], map[])
  {
  }

  lemma StagedRoom(h: Hasher, server: Server, files: seq<FileDigest>, contents: seq<Bytes>, m: Contents)
    requires Staged(h, server, files, contents, m) && |contents| < |files|
    requires DistinctPaths(files) && NoFileAbove(files)
    ensures var path := files[|contents|].path; path !in m && Disjoint(m) && Disjoint(m[path := []])
  {
    hide Fetched, Paired, Disjoint, DistinctPaths, NoFileAbove;
    NextPathIsFree(files, contents, []);
  }

  lemma StagedMore(h: Hasher, server: Server, files: seq<FileDigest>, contents: seq<Bytes>, m: Contents, c: Bytes)
    requires Staged(h, server, files, contents, m) && |contents| < |files|
    requires var f := files[|contents|];
      Received(h, server(|contents| + 1, f.sha256), f.sha256, f.size) == Some(c) && |c| == f.size
      && Disjoint(m[f.path := c])
    ensures Staged(h, server, files, contents + [c], m[files[|contents|].path := c])
  {
    hide Fetched, Paired, Disjoint, Received;
    FetchedMore(h, server, files, contents, c);
    PairedStep(files, contents, c);
  }

  lemma StagedAll(h: Hasher, server: Server, expected: Text, limits: Limits, files: seq<FileDigest>,
                  contents: seq<Bytes>, m: Contents)
    requires ServesManifest(h, server(0, expected), expected, files, limits)
    requires Staged(h, server, files, contents, m) && |contents| == |files|
    ensures Delivers(h, server, expected, limits, m) && Disjoint(m)
  {
    hide ServesManifest, Fetched, Delivers, Paired, Disjoint;
    assert files[..|contents|] == files;
    FetchedDelivers(h, server, expected, limits, files, contents);
  }

  /** The staging loop of download_artifact: builds the tree of the contents under
      staging, or leaves the disk as it was before staging was created. */
  method Materialize(disk: Disk, h: Hasher, server: Server, expected: Text, limits: Limits,
                     files: seq<FileDigest>, staging: Path, ghost dest: Path)
    returns (r: Result<(), Failure>, ghost m: Contents)
    requires disk.Logged() && dest !in disk.tree && Beside(staging, dest)
    requires Rooted(disk.tree) && staging !in disk.tree && ParentIsDir(disk.tree, staging)
    requires ServesManifest(h, server(0, expected), expected, files, limits)
    modifies disk
    ensures Clear(old(disk.tree), staging)
    ensures r.Ok? ==> Delivers(h, server, expected, limits, m) && Disjoint(m)
                      && disk.tree == Graft(old(disk.tree), staging, TreeOf(m))
    ensures r.Err? ==> disk.tree == old(disk.tree)
    ensures r.Err? ==> forall n :: !Delivers(h, server, expected, limits, n)
    ensures r.Err? ==> exists i :: FirstFailure(h, server, files, i, r.error)
    ensures disk.Logged() && StaysHarmless(old(disk.states), disk.states, old(disk.tree), dest, limits.total)
  {
    hide *;
    ghost var s0 := disk.states;
    ghost var base := disk.tree;
    AbsentIsClear(base, staging);
    ServedFacts(h, server(0, expected), expected, files, limits);
    m := map[];
    StageEmpty(base, staging);
    disk.Mkdir(staging);
    BesideDiffers(staging, dest);
    MkdirIsHarmless(base, staging, dest, limits.total);
    OneMoreState(s0, disk.states, disk.tree, base, dest, limits.total);
    ghost var contents: seq<Bytes> := [];
    StagedNone(h, server, files);
    for i := 0 to |files|
      invariant |contents| == i && Staged(h, server, files, contents, m)
      invariant disk.tree == Graft(base, staging, TreeOf(m)) && disk.Logged()
      invariant Harmless(base, disk.tree, dest, limits.total)
      invariant StaysHarmless(s0, disk.states, base, dest, limits.total)
    {
      var entry := files[i];
      ghost var s1 := disk.states;
      SizeWithinTotal(h, server(0, expected), expected, files, limits, i);
      StagedRoom(h, server, files, contents, m);
      r := StageEntry(disk, h, server(i + 1, entry.sha256), entry, staging, base, m, dest, limits.total);
      HarmlessOnwards(s0, s1, disk.states, base, dest, limits.total);
      if r.Err? {
        NotDelivered(h, server, expected, limits, files, i);
        FailsFirst(h, server, files, contents, m, r.error);
        return;
      }
      ghost var content := Received(h, server(i + 1, entry.sha256), entry.sha256, entry.size).value;
      StagedMore(h, server, files, contents, m, content);
      contents := contents + [content];
      m := m[entry.path := content];
    }
    StagedAll(h, server, expected, limits, files, contents, m);
    return Ok(()), m;
  }

  /** The reference is a sha256 one and the kind is known. */
  predicate Admissible(reference: Text, kind: Text) {
    var (algorithm, expected) := Partition(reference, COLON);
    algorithm == SHA256 && IsSha256(expected) && kind in {FILE_KIND, DIRECTORY_KIND}
  }

  ghost predicate Placeable(t: Tree, dest: Path) {
    dest !in t && CanHold(t, Parent(dest))
  }

  /** What a directory download owes its caller. */
  lemma InstalledIsVerified(h: Hasher, server: Server, expected: Text, limits: Limits,
                            base: Tree, dest: Path, m: Contents)
    requires Delivers(h, server, expected, limits, m) && Clear(base, dest)
    ensures var after := Graft(base, dest, TreeOf(m));
      && FilesUnder(after, dest) == m && m != map[]
      && DirectoryDigest(h, m).digest == expected
      && Named(Subtree(after, dest)) && dest in after && after[dest].Dir?
  {
    hide TreeOf, ManifestValue, Received, Clear;
    InstalledIsDir(base, dest, m);
    FilesOfTree(base, dest, m);
    ServedFacts(h, server(0, expected), expected, Listing(h, m), limits);
    assert m != map[] by { assert |Listing(h, m)| == |m|; }
    assert DumpsBytes(ManifestValue(Listing(h, m))) == ManifestOf(h, m);
    CutGraft(base, dest, TreeOf(m));
    TreeOfNamed(m);
  }

  lemma InstalledIsDir(base: Tree, dest: Path, m: Contents)
    requires Clear(base, dest)
    ensures dest in Graft(base, dest, TreeOf(m)) && Graft(base, dest, TreeOf(m))[dest].Dir?
  {
    assert dest[|dest|..] == [];
    assert InTree(m, []);
    FileIsNotRoot(m);
  }

  lemma FileIsNotRoot(m: Contents)
    ensures [] in TreeOf(m) && TreeOf(m)[[]].Dir?
  {
    forall k | k in m ensures Split(k) != [] { SplitNonEmpty(k); }
  }

  lemma TreeOfNamed(m: Contents)
    ensures Named(TreeOf(m))
  {
    forall p, i | p in TreeOf(m) && 0 <= i < |p| ensures SLASH !in p[i] {
      assert InTree(m, p);
      var k :| k in m && p <= Split(k);
      assert p[i] == Split(k)[i];
    }
  }

  lemma PlacedIsClear(t: Tree, dest: Path)
    requires Rooted(t) && Placeable(t, dest)
    ensures var base := WithDirs(t, Parent(dest));
      dest != [] && Rooted(base) && dest !in base && Clear(base, dest) && ParentIsDir(base, dest)
  {
    WithDirsRooted(t, Parent(dest));
    assert dest != [];
    WithDirsDir(t, Parent(dest));
    AbsentIsClear(WithDirs(t, Parent(dest)), dest);
  }

  /** The directory branch of download_artifact, once the directories above dest exist. */
  method DownloadDirectory(disk: Disk, h: Hasher, foreign: Decoder, server: Server, expected: Text,
                           dest: Path, limits: Limits, verifyAfter: bool)
    returns (r: Result<(), Failure>, ghost m: Contents)
    requires Rooted(disk.tree) && disk.Logged()
    requires dest != [] && dest !in disk.tree && ParentIsDir(disk.tree, dest)
    modifies disk
    ensures Clear(old(disk.tree), dest)
    ensures r.Ok? ==> Delivers(h, server, expected, limits, m) && disk.tree == Graft(old(disk.tree), dest, TreeOf(m))
    ensures r.Err? ==> disk.tree == old(disk.tree)
    ensures r.Err? ==> forall n :: !Delivers(h, server, expected, limits, n)
    ensures r.Err? ==> DeliveryFails(h, server, expected, limits, r.error)
    ensures disk.Logged()
    ensures r.Ok? ==> ComesWhole(old(disk.states), disk.states, old(disk.tree), disk.tree, dest, limits.total)
    ensures r.Err? ==> StaysHarmless(old(disk.states), disk.states, old(disk.tree), dest, limits.total)
  {
    hide ServesManifest, Delivers, Received, TreeOf, Rooted, Clear, Listing, FilesUnder, Named, ParentIsDir, Harmless,
      StaysHarmless, ComesWhole, Parent, Beside, Cut, Disjoint, Subtree, FirstFailure, ReadFailure;
    m := map[];
    ghost var base, s0 := disk.tree, disk.states;
    AbsentIsClear(base, dest);
    var listed := FetchManifest(h, foreign, server(0, expected), expected, limits);
    if listed.Err? {
      forall n ensures !Delivers(h, server, expected, limits, n) {
        DeliversManifest(h, server, expected, limits, n);
      }
      NothingYet(s0, base, dest, limits.total);
      return Err(listed.error), m;
    }
    var staging := StagingFor(disk, dest);
    r, m := Materialize(disk, h, server, expected, limits, listed.value, staging, dest);
    if r.Err? {
      return;
    }
    CutGraft(base, staging, TreeOf(m));
    ghost var staged := disk.tree;
    StagedIsDir(base, staging, m);
    StagedLeavesRoom(base, staging, m, dest);
    AllHarmless(s0, disk.states, base, dest, limits.total);
    disk.Rename(staging, dest);
    MovedIsGraft(staged, disk.tree, staging, dest);
    InstalledIsVerified(h, server, expected, limits, base, dest, m);
    if verifyAfter {
      var rebuilt := disk.HashArtifact(h, dest);
      if rebuilt.Err? || rebuilt.value.digest != expected {
        assert false;
      }
    }
  }

  /** download_artifact, against an arbitrary store: on success dest holds exactly a
      directory the store delivers for the digest (or the one verified file); on failure
      nothing is left but the directories above dest, which are created before the
      transfer starts. The two checks after and during the transfer are proved never to
      fire. */
  method Download(disk: Disk, h: Hasher, foreign: Decoder, server: Server, reference: Text, kind: Text,
                  dest: Path, limits: Limits, verifyAfter: bool)
    returns (r: Result<(), Failure>, ghost m: Contents)
    requires Rooted(disk.tree) && disk.Logged()
    modifies disk
    ensures disk.Logged()
    ensures r.Ok? ==> ComesWhole(old(disk.states), disk.states, old(disk.tree), disk.tree, dest, limits.total)
    ensures r.Err? ==> StaysHarmless(old(disk.states), disk.states, old(disk.tree), dest, limits.total)
    ensures r.Ok? ==> Admissible(reference, kind) && Placeable(old(disk.tree), dest)
    ensures r.Ok? && kind == DIRECTORY_KIND ==>
      Delivers(h, server, Partition(reference, COLON).1, limits, m)
      && Installed(old(disk.tree), disk.tree, dest, m)
    ensures r.Ok? && kind == FILE_KIND ==>
      var got := Received(h, server(0, Partition(reference, COLON).1), Partition(reference, COLON).1, limits.total);
      got.Some? && disk.tree == WithDirs(old(disk.tree), Parent(dest))[dest := File(got.value)]
    ensures r.Err? && disk.tree != old(disk.tree) ==>
      Placeable(old(disk.tree), dest) && disk.tree == WithDirs(old(disk.tree), Parent(dest))
    ensures r.Err? ==> (dest in disk.tree <==> dest in old(disk.tree))
    ensures r.Err? && Admissible(reference, kind) && Placeable(old(disk.tree), dest) && kind == DIRECTORY_KIND ==>
      forall n :: !Delivers(h, server, Partition(reference, COLON).1, limits, n)
    ensures r.Err? && Admissible(reference, kind) && Placeable(old(disk.tree), dest) && kind == FILE_KIND ==>
      Received(h, server(0, Partition(reference, COLON).1), Partition(reference, COLON).1, limits.total).None?
    ensures !Admissible(reference, kind) || dest in old(disk.tree) ==> r == Err(Refused)
    ensures Admissible(reference, kind) && dest !in old(disk.tree) && !Placeable(old(disk.tree), dest) ==> r == Err(System)
    ensures r.Err? && Admissible(reference, kind) && Placeable(old(disk.tree), dest) && kind == DIRECTORY_KIND ==>
      DeliveryFails(h, server, Partition(reference, COLON).1, limits, r.error)
    ensures r.Err? && Admissible(reference, kind) && Placeable(old(disk.tree), dest) && kind == FILE_KIND ==>
      r.error == ReadFailure(server(0, Partition(reference, COLON).1), Partition(reference, COLON).1, limits.total)
  {
    hide ServesManifest, Delivers, Received, TreeOf, Rooted, Clear, Partition, Listing, FilesUnder, Named, ParentIsDir,
      Harmless, StaysHarmless, ComesWhole, WriteLogged, Parent, CanHold, WithDirs, Graft, IsSha256, SHA256, FILE_KIND, DIRECTORY_KIND,
      DeliveryFails, ReadFailure;
    m := map[];
    ghost var s0, t0 := disk.states, disk.tree;
    NothingYet(s0, t0, dest, limits.total);
    var (algorithm, expected) := Partition(reference, COLON);
    if algorithm != SHA256 || !IsSha256(expected) {
      return Err(Refused), m;
    }
    if kind !in {FILE_KIND, DIRECTORY_KIND} {
      return Err(Refused), m;
    }
    if dest in disk.tree {
      return Err(Refused), m;
    }
    var made := disk.MkdirAll(Parent(dest));
    if !made {
      assert s0 + [] == s0;
      return Err(System), m;
    }
    ghost var base := disk.tree;
    PlacedIsClear(old(disk.tree), dest);
    DirsAbove(t0, dest, limits.total);
    OneMoreState(s0, disk.states, base, t0, dest, limits.total);
    ghost var s1 := disk.states;
    if kind == FILE_KIND {
      KindsDistinct();
      r := GetTo(disk, h, server(0, expected), expected, dest, limits.total);
      FileIsHarmless(t0, base, disk.tree, s0, s1, disk.states, dest, limits.total);
      return;
    }
    r, m := DownloadDirectory(disk, h, foreign, server, expected, dest, limits, verifyAfter);
    LiftedToBefore(t0, base, disk.tree, s0, s1, disk.states, dest, limits.total);
  }

  lemma StagedIsDir(base: Tree, staging: Path, m: Contents)
    requires Clear(base, staging) && Rooted(base) && ParentIsDir(base, staging) && Disjoint(m)
    ensures var g := Graft(base, staging, TreeOf(m)); Rooted(g) && staging in g && g[staging].Dir?
  {
    TreeOfRooted(m);
    GraftRooted(base, staging, TreeOf(m));
    assert staging[|staging|..] == [];
  }

  lemma StagedLeavesRoom(base: Tree, staging: Path, m: Contents, dest: Path)
    requires Clear(base, staging) && Beside(staging, dest) && dest !in base && ParentIsDir(base, dest) && Clear(base, dest)
    ensures var g := Graft(base, staging, TreeOf(m));
      dest !in g && ParentIsDir(g, dest) && !(staging <= dest)
  {
    hide TreeOf;
  }

  lemma DirsAbove(before: Tree, dest: Path, maxBytes: int)
    requires Placeable(before, dest) && dest != []
    ensures Harmless(before, WithDirs(before, Parent(dest)), dest, maxBytes)
  {
  }

  /** The log has only grown, by harmless states and the present one. */
  ghost predicate ComesWhole(old': seq<Tree>, states: seq<Tree>, before: Tree, now: Tree, dest: Path, maxBytes: int) {
    && old' <= states
    && forall i :: |old'| <= i < |states| ==> Harmless(before, states[i], dest, maxBytes) || states[i] == now
  }

  lemma AllHarmless(old': seq<Tree>, states: seq<Tree>, before: Tree, dest: Path, maxBytes: int)
    requires StaysHarmless(old', states, before, dest, maxBytes)
    ensures forall now: Tree :: ComesWhole(old', states, before, now, dest, maxBytes)
    ensures forall now: Tree :: ComesWhole(old', states + [now], before, now, dest, maxBytes)
  {
    hide Harmless;
  }

  lemma NothingYet(states: seq<Tree>, before: Tree, dest: Path, maxBytes: int)
    ensures StaysHarmless(states, states, before, dest, maxBytes)
  {
  }

  /** What is harmless to the disk with the directories above dest is so to the disk before. */
  lemma HarmlessFrom(before: Tree, now: Tree, dest: Path, maxBytes: int)
    requires Harmless(WithDirs(before, Parent(dest)), now, dest, maxBytes)
    ensures Harmless(before, now, dest, maxBytes)
  {
  }

  lemma LiftedToBefore(before: Tree, base: Tree, now: Tree, s0: seq<Tree>, s1: seq<Tree>, s2: seq<Tree>, dest: Path, maxBytes: int)
    requires base == WithDirs(before, Parent(dest)) && StaysHarmless(s0, s1, before, dest, maxBytes)
    ensures ComesWhole(s1, s2, base, now, dest, maxBytes) ==> ComesWhole(s0, s2, before, now, dest, maxBytes)
    ensures StaysHarmless(s1, s2, base, dest, maxBytes) ==> StaysHarmless(s0, s2, before, dest, maxBytes)
  {
    hide Harmless;
    forall i | |s1| <= i < |s2| ensures Harmless(base, s2[i], dest, maxBytes) ==> Harmless(before, s2[i], dest, maxBytes) {
      if Harmless(base, s2[i], dest, maxBytes) { HarmlessFrom(before, s2[i], dest, maxBytes); }
    }
  }

  lemma FileIsHarmless(before: Tree, base: Tree, now: Tree, s0: seq<Tree>, s1: seq<Tree>, s2: seq<Tree>, dest: Path, maxBytes: int)
    requires base == WithDirs(before, Parent(dest)) && StaysHarmless(s0, s1, before, dest, maxBytes) && dest !in base
    requires WriteLogged(s1, s2, base, now, dest, maxBytes) && Harmless(before, base, dest, maxBytes)
    ensures ComesWhole(s0, s2, before, now, dest, maxBytes)
    ensures now == base ==> StaysHarmless(s0, s2, before, dest, maxBytes)
  {
    hide Interim;
    forall i | |s1| <= i < |s2| ensures Harmless(before, s2[i], dest, maxBytes) || s2[i] == now {
      if s2[i] != now {
        InterimBeside(base, s2[i], dest, maxBytes);
        HarmlessFrom(before, s2[i], dest, maxBytes);
      }
    }
  }

  lemma InterimBeside(base: Tree, now: Tree, dest: Path, maxBytes: int)
    requires Interim(base, now, dest, maxBytes)
    ensures Harmless(base, now, dest, maxBytes)
  {
  }

  lemma KindsDistinct()
    ensures FILE_KIND != DIRECTORY_KIND
  {
    assert |FILE_KIND| == 4 && |DIRECTORY_KIND| == 9;
  }

  lemma DeliversManifest(h: Hasher, server: Server, expected: Text, limits: Limits, n: Contents)
    ensures Delivers(h, server, expected, limits, n) ==>
      ServesManifest(h, server(0, expected), expected, Listing(h, n), limits)
  {
    hide ServesManifest;
  }

  /** A fresh staging directory beside dest. */
  method StagingFor(disk: Disk, dest: Path) returns (staging: Path)
    requires dest != [] && ParentIsDir(disk.tree, dest)
    ensures staging !in disk.tree && ParentIsDir(disk.tree, staging) && Beside(staging, dest)
  {
    staging := disk.FreshSibling(dest);
  }
}
