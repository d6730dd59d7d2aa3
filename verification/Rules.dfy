/** The rules and limits of ModelGuard with their numbers: what a path, a manifest, a
    reference and a cached entry must be, and which bytes a verified read yields. */
module Rules {
  import opened Outcomes
  import opened Unicode
  import opened Json
  import opened JsonRoundTrip
  import opened Digests
  import opened Paths
  import opened Disks
  import opened Manifests
  import opened Artifacts
  import opened FileSystem
  import opened BlobStores
  import opened Transfers
  import opened Uploads
  import RoundTrips
  import opened Cache
  import Registries
  import Utf8

  /* -- paths and manifests -------------------------------------------------------------- */

  predicate Inside(c: CodePoint, first: CodePoint, last: CodePoint) {
    first <= c <= last
  }

  /** 1 to 255 characters, and not one or two dots alone. */
  predicate NameRule(s: Text) {
    1 <= |s| <= 255 && s != Ascii(".") && s != Ascii("..")
  }

  /** Neither a backslash nor U+0000 to U+001F nor U+007F to U+009F. */
  predicate CharacterRule(c: CodePoint) {
    c != '\\' as int && !Inside(c, 0, 0x1F) && !Inside(c, 0x7F, 0x9F)
  }

  lemma NameRuleIs(s: Text)
    ensures SafeSegment(s) <==> NameRule(s)
  {
    assert Ascii(".") == THIS_DIR && Ascii("..") == PARENT_DIR;
  }

  /** A listed path has 1 to 4096 characters; the characters and the names between its
      slashes follow their rules, so that it neither begins nor ends with a slash. */
  lemma SafePathIs(path: Text)
    ensures SafePath(path) <==>
      && 1 <= |path| <= 4096
      && (forall i :: 0 <= i < |path| ==> CharacterRule(path[i]))
      && (forall i :: 0 <= i < |Split(path)| ==> NameRule(Split(path)[i]))
  {
    hide Split, SafeSegment, NameRule, CharacterRule, Control;
    CharacterRulesAre(path);
    NameRulesAre(path);
    if path != [] && path[0] == SLASH { LeadingSlash(path); }
  }

  lemma NameRulesAre(path: Text)
    ensures (forall i :: 0 <= i < |Split(path)| ==> SafeSegment(Split(path)[i])) <==>
            forall i :: 0 <= i < |Split(path)| ==> NameRule(Split(path)[i])
  {
    hide Split, SafeSegment, NameRule;
    forall i | 0 <= i < |Split(path)| ensures SafeSegment(Split(path)[i]) <==> NameRule(Split(path)[i]) {
      NameRuleIs(Split(path)[i]);
    }
  }

  lemma CharacterRulesAre(path: Text)
    ensures (BACKSLASH !in path && forall i :: 0 <= i < |path| ==> !Control(path[i])) <==>
            forall i :: 0 <= i < |path| ==> CharacterRule(path[i])
  {
    hide Control, CharacterRule;
    forall i | 0 <= i < |path| ensures (!Control(path[i]) && path[i] != BACKSLASH) <==> CharacterRule(path[i]) {
      CharacterRuleIs(path[i]);
    }
    if BACKSLASH in path {
      var i :| 0 <= i < |path| && path[i] == BACKSLASH;
      assert !CharacterRule(path[i]);
    } else {
      assert forall i :: 0 <= i < |path| ==> path[i] != BACKSLASH;
    }
  }

  lemma CharacterRuleIs(c: CodePoint)
    ensures (!Control(c) && c != BACKSLASH) <==> CharacterRule(c)
  {
  }

  /** Before a leading slash stands an empty name. */
  lemma LeadingSlash(path: Text)
    requires path != [] && path[0] == '/' as int
    ensures exists i :: 0 <= i < |Split(path)| && !NameRule(Split(path)[i])
  {
    assert Split(path)[0] == [];
  }

  /** "/" separates, and nothing else does. */
  lemma {:induction false} SplitCounts(path: Text)
    ensures |Split(path)| == 1 + multiset(path)['/' as int]
  {
    if path != [] {
      SplitCounts(path[1..]);
      assert path == [path[0]] + path[1..];
    }
  }

  function Sizes(files: seq<FileDigest>): (r: seq<nat>)
    ensures |r| == |files| && forall i :: 0 <= i < |files| ==> r[i] == files[i].size
  {
    seq(|files|, i requires 0 <= i < |files| => files[i].size)
  }

  function Sum(s: seq<nat>): nat {
    if s == [] then 0 else s[0] + Sum(s[1..])
  }

  lemma {:induction false} SumLast(s: seq<nat>, n: nat)
    ensures Sum(s + [n]) == Sum(s) + n
  {
    if s == [] {
      assert s + [n] == [n];
    } else {
      SumLast(s[1..], n);
      assert (s + [n])[1..] == s[1..] + [n];
    }
  }

  lemma {:induction false} TotalIsSum(files: seq<FileDigest>)
    ensures TotalSize(files) == Sum(Sizes(files))
  {
    if files != [] {
      var n := |files| - 1;
      TotalIsSum(files[..n]);
      SumLast(Sizes(files[..n]), files[n].size);
      assert Sizes(files) == Sizes(files[..n]) + [files[n].size];
    }
  }

  /** The lists a manifest may hold: not empty, within both limits, safe paths without
      repetition, 64 hexadecimal digits each, and no path followed by a slash begins another. */
  lemma ListableIs(files: seq<FileDigest>, maxFiles: int, maxTotal: int)
    ensures Listable(files, maxFiles, maxTotal) <==>
      && 1 <= |files| <= maxFiles && Sum(Sizes(files)) <= maxTotal
      && (forall i :: 0 <= i < |files| ==> SafePath(files[i].path) && HexDigits(files[i].sha256, 64))
      && (forall i, j :: 0 <= i < |files| && 0 <= j < |files| && i != j ==> files[i].path != files[j].path)
      && (forall i, j :: 0 <= i < |files| && 0 <= j < |files| ==> !(files[i].path + [SLASH] <= files[j].path))
  {
    hide SafePath, Split, Sum, TotalSize;
    TotalIsSum(files);
    forall i, j | 0 <= i < |files| && 0 <= j < |files|
      ensures Split(files[i].path) < Split(files[j].path) <==> files[i].path + [SLASH] <= files[j].path
    {
      PrefixBySegments(files[i].path, files[j].path);
    }
  }

  predicate HexDigits(s: Text, length: nat) {
    |s| == length && forall i :: 0 <= i < |s| ==> Inside(s[i], '0' as int, '9' as int) || Inside(s[i], 'a' as int, 'f' as int)
  }

  /* -- transfers ------------------------------------------------------------------------------ */

  /** The content a read of a blob yields: all chunks of a stream that does not break off, if
      they hash to the name and do not exceed the limit. */
  lemma ReceivedIs(h: Hasher, served: Served, sha256: Text, maxBytes: int, c: Bytes)
    ensures Received(h, served, sha256, maxBytes) == Some(c) <==>
      && HexDigits(sha256, 64) && served.Found? && served.stream.complete
      && c == Concat(served.stream.chunks) && h(c) == sha256
      && (|c| <= maxBytes || served.stream.chunks == [])
  {
    hide Concat;
  }

  lemma {:induction false} ConcatFirst(chunk: Bytes, chunks: seq<Bytes>)
    ensures Concat([chunk] + chunks) == chunk + Concat(chunks)
    ensures Concat([]) == []
  {
    ConcatCons(chunk, chunks);
  }

  /** References that are downloaded at all, and the digest they name. */
  lemma AdmissibleIs(reference: Text, kind: Text)
    ensures Admissible(reference, kind) <==>
      && |reference| == 71 && reference[..7] == Ascii("sha256:") && HexDigits(reference[7..], 64)
      && (kind == Ascii("file") || kind == Ascii("directory"))
    ensures Admissible(reference, kind) ==> Partition(reference, COLON).1 == reference[7..]
    ensures FILE_KIND == Ascii("file") && DIRECTORY_KIND == Ascii("directory")
  {
    hide Ascii, IsSha256, HexDigits, Partition;
    ColonPrefix();
    var (before, after) := Partition(reference, COLON);
    SixtyFour(after);
    if before == SHA256 && IsSha256(after) {
      PartitionWhole(reference);
      AfterPrefix(reference, SHA256 + [COLON], after);
    }
    if |reference| == 71 && reference[..7] == Ascii("sha256:") && HexDigits(reference[7..], 64) {
      SixtyFour(reference[7..]);
      AfterColon(reference, SHA256);
    }
  }

  lemma AfterPrefix(s: Text, prefix: Text, after: Text)
    requires s == prefix + after && |prefix| == 7
    ensures s[..7] == prefix && s[7..] == after
  {
  }

  lemma AfterColon(s: Text, before: Text)
    requires |s| >= 7 && |before| == 6 && s[..7] == before + [COLON] && COLON !in before
    ensures Partition(s, COLON) == (before, s[7..])
  {
    assert s == before + ([COLON] + s[7..]);
    RoundTrips.PartitionAt(before, COLON, s[7..]);
  }

  lemma SixtyFour(s: Text)
    ensures HexDigits(s, 64) <==> IsSha256(s)
    ensures IsSha256(s) ==> |s| == 64
  {
  }

  lemma ColonPrefix()
    ensures Ascii("sha256:") == SHA256 + [COLON] && |SHA256| == 6 && COLON !in SHA256
  {
  }

  /** Without the character nothing follows. */
  lemma {:induction false} PartitionWhole(s: Text)
    ensures var (before, after) := Partition(s, COLON);
            s == before + [COLON] + after || (s == before && after == [])
    ensures Partition(s, COLON).1 != [] ==> s == Partition(s, COLON).0 + [COLON] + Partition(s, COLON).1
  {
    if s != [] && s[0] != COLON {
      PartitionWhole(s[1..]);
      var (before, after) := Partition(s[1..], COLON);
      assert s == [s[0]] + s[1..];
      if s[1..] == before + [COLON] + after {
        assert s == [s[0]] + before + [COLON] + after;
      }
    } else if s != [] {
      assert s == [] + [COLON] + s[1..];
    }
  }

  /** Where a download may go: nothing there yet, and no file on the way. */
  lemma PlaceableIs(t: Tree, dest: Path)
    ensures Placeable(t, dest) <==> dest !in t && forall n :: 0 <= n < |dest| && dest[..n] in t ==> t[dest[..n]].Dir?
  {
    if Placeable(t, dest) {
      forall n | 0 <= n < |dest| && dest[..n] in t ensures t[dest[..n]].Dir? {
        assert dest[..n] <= Parent(dest);
      }
    }
    if dest !in t && forall n :: 0 <= n < |dest| && dest[..n] in t ==> t[dest[..n]].Dir? {
      forall q | q <= Parent(dest) && q in t ensures t[q].Dir? {
        assert q == dest[..|q|];
      }
    }
  }

  /** The directories a download can rebuild, the manifest having at most 64 MiB. */
  lemma TransferableIs(h: Hasher, m: Contents, limits: Limits)
    ensures Transferable(h, m, limits) <==>
      && 1 <= |m| <= limits.files && Sum(Sizes(Listing(h, m))) <= limits.total
      && |ManifestOf(h, m)| <= 67_108_864
      && (forall k :: k in m ==> SafePath(k) && Faithful(k))
      && (forall k, l :: k in m && l in m ==> !(k + [SLASH] <= l))
  {
    hide SafePath, Faithful, Disjoint, Sum, TotalSize, ManifestOf, Listing;
    TotalIsSum(Listing(h, m));
    DisjointIs(m);
  }

  lemma DisjointIs(m: Contents)
    ensures Disjoint(m) <==> forall k, l :: k in m && l in m ==> !(k + [SLASH] <= l)
  {
    hide Split;
    forall k, l | k in m && l in m ensures Split(k) < Split(l) <==> k + [SLASH] <= l {
      PrefixBySegments(k, l);
    }
  }

  /* -- the digest cache ------------------------------------------------------------------------- */

  /** What is not stored: anything the stat passes disagree on, and anything changed within
      the two seconds before the clock reading. */
  lemma StorableIs(s: Seen)
    ensures Cache.Storable(s) <==>
      && s.before.Some? && s.computed.Some? && s.after.Some? && s.after.value.stats == s.before.value.stats
      && forall i :: 0 <= i < |s.before.value.stats| ==>
           && s.before.value.stats[i].mtime + 2_000_000_000 <= s.clock
           && s.before.value.stats[i].ctime + 2_000_000_000 <= s.clock
  {
  }

  /** When the cache is consulted successfully, and what it then returns. */
  lemma HitIs(h: Hasher, entries: Entries, s: Seen, d: ArtifactDigest)
    ensures Hit(h, entries, s) == Some(d) <==>
      && s.before.Some? && s.key in entries
      && var entry, seen := entries[s.key], s.before.value;
      && entry.kind == seen.kind && entry.stats == seen.stats
      && |entry.files| == |seen.stats|
      && (forall i :: 0 <= i < |seen.stats| ==>
            entry.files[i].path == seen.stats[i].relpath && entry.files[i].size == seen.stats[i].size)
      && d.kind == entry.kind
      && match entry.kind
         case SingleFile => |entry.files| == 1 && d.files == entry.files && d.digest == entry.files[0].sha256
         case Directory => d.files == SortFiles(entry.files) && d.digest == h(ManifestBytes(entry.files))
  {
  }

  /** Of up to 128 entries none is dropped, of more than 128 the newest 128 are kept. */
  lemma EvictedIs(full: Entries, kept: Entries)
    ensures Evicted(full, kept) && |full| <= 128 ==> kept == full
    ensures Evicted(full, kept) && |full| > 128 ==> |kept| == 128
    ensures Evicted(full, kept) ==>
      forall k, e :: k in kept && e in full && full[e].recordedAt > full[k].recordedAt ==> e in kept
  {
    if Evicted(full, kept) && |full| <= 128 {
      SubsetOfSameSize(kept.Keys, full.Keys);
      assert |kept.Keys| == |kept| && |full.Keys| == |full|;
    }
  }

  lemma SubsetOfSameSize(a: set<Text>, b: set<Text>)
    requires a <= b && |a| == |b|
    ensures a == b
  {
    assert b == a + (b - a);
  }

  /** What a stat pass over an artifact nobody writes to takes down: its kind, and of each
      file, in path order, the path, size, both times, inode and device. */
  lemma CaptureIs(a: Artifact)
    ensures Capture(Some(a)).None? <==> |a.files| == 0 || exists p :: p in a.files && a.files[p].ino == 0
    ensures Capture(Some(a)).Some? ==>
      var seen := Capture(Some(a)).value;
      && seen.kind == a.kind && |seen.stats| == |a.files|
      && (forall p :: p in a.files ==> exists i :: 0 <= i < |seen.stats| && seen.stats[i].relpath == p)
      && (forall i, j :: 0 <= i < j < |seen.stats| ==> Below(seen.stats[i].relpath, seen.stats[j].relpath))
      && forall i :: 0 <= i < |seen.stats| ==>
           var s := seen.stats[i];
           && s.relpath in a.files
           && var f := a.files[s.relpath];
           s.size == |f.content| && s.mtime == f.mtime && s.ctime == f.ctime && s.ino == f.ino && s.dev == f.dev
  {
    hide Below, StatsOf;
    if Capture(Some(a)).Some? { StatsAre(a.files); }
  }

  lemma StatsAre(files: map<Text, FileState>)
    ensures var stats := StatsOf(files);
      && |stats| == |files|
      && (forall p :: p in files ==> exists i :: 0 <= i < |stats| && stats[i].relpath == p)
      && (forall i, j :: 0 <= i < j < |stats| ==> Below(stats[i].relpath, stats[j].relpath))
      && forall i :: 0 <= i < |stats| ==>
           && stats[i].relpath in files
           && var f := files[stats[i].relpath];
           stats[i] == Stat(stats[i].relpath, |f.content|, f.mtime, f.ctime, f.ino, f.dev)
  {
    hide Below;
    var paths, stats := SortedPaths(files), StatsOf(files);
    assert |files.Keys| == |files|;
    forall p | p in files ensures exists i :: 0 <= i < |stats| && stats[i].relpath == p {
      assert p in paths;
      var i :| 0 <= i < |paths| && paths[i] == p;
      assert stats[i].relpath == p;
    }
  }

  /** A whole call: a hit is returned and nothing is stored; otherwise what was computed is
      returned, and it is stored under the key, with the stats seen before and the time of
      recording, if the observations and the file allow it. */
  lemma CallIs(h: Hasher, entries: Entries, s: Seen, entries': Entries, r: Option<Hashed>)
    requires Outcome(h, entries, s, entries', r)
    ensures var hit := Hit(h, if s.readable then entries else map[], s);
      && (hit.Some? ==> r == Some(Hashed(hit.value, true)))
      && (hit.None? && s.computed.Some? ==> r == Some(Hashed(s.computed.value, false)))
      && (hit.None? && s.computed.None? ==> r == None)
      && (hit.Some? || !Cache.Storable(s) || !s.writable ==> entries' == entries)
      && (hit.None? && Cache.Storable(s) && s.writable ==>
            var old' := if s.readableAgain then entries else map[];
            var entry := Entry(s.computed.value.kind, s.computed.value.files, s.before.value.stats, s.recordedAt);
            && (|old'[s.key := entry]| <= 128 ==> entries' == old'[s.key := entry])
            && forall k :: k in entries' ==> if k == s.key then entries'[k] == entry else k in old' && entries'[k] == old'[k])
  {
    hide Hit, AllOlderThanMargin;
    if Cache.Storable(s) && s.writable {
      EvictedIs((if s.readableAgain then entries else map[])[s.key := Recorded(s)], entries');
    }
  }

  /** The digest of a single file is the hash of its content, listed under its own name. */
  lemma FreshFile(h: Hasher, name: Text, f: FileState)
    ensures FileArtifact(h, name, f.content) ==
            ArtifactDigest(SingleFile, h(f.content), [FileDigest(name, h(f.content), |f.content|)])
    ensures Fresh(h, Some(Artifact(SingleFile, map[name := f]))) ==
            Some(ArtifactDigest(SingleFile, h(f.content), [FileDigest(name, h(f.content), |f.content|)]))
  {
    var a := Artifact(SingleFile, map[name := f]);
    var files := Listing(h, ContentsOf(a));
    assert name in ContentsOf(a);
    assert |ContentsOf(a)| == 1 by { assert ContentsOf(a) == map[name := f.content]; }
    assert files[0].path in ContentsOf(a);
    assert files == [FileEntry(h, name, f.content)];
  }

  /* -- text in the database ------------------------------------------------------------------- */

  /** PostgreSQL holds neither NUL nor a surrogate. */
  lemma StorableText(t: Text)
    ensures Registries.Storable(t) <==> forall i :: 0 <= i < |t| ==> t[i] != 0 && !Inside(t[i], 0xD800, 0xDFFF)
  {
  }

  /** Every text a call carries. */
  function TextsOf(call: Registries.Call): seq<Text> {
    match call
    case Register(r) => [r.modelId, r.version, r.digest, r.details]
    case Get(id, v) => [id, v]
    case GetByDigest(d) => [d]
    case ListVersions(id) => [id]
    case Revoke(r) => [r.modelId, r.version, r.revokedBy, r.reason, r.revokedAt]
    case Unrevoke(id, v, actor, reason, at) => [id, v, actor, reason, at]
    case IsRevoked(id, v) => [id, v]
  }

  lemma StorableCallIs(call: Registries.Call)
    ensures Registries.StorableCall(call) <==> forall i :: 0 <= i < |TextsOf(call)| ==> Registries.Storable(TextsOf(call)[i])
  {
    hide Registries.Storable;
    var texts := TextsOf(call);
    assert texts[0] == TextsOf(call)[0];
    assert |texts| > 1 ==> texts[1] == TextsOf(call)[1];
    assert |texts| > 2 ==> texts[2] == TextsOf(call)[2];
    assert |texts| > 3 ==> texts[3] == TextsOf(call)[3];
    assert |texts| > 4 ==> texts[4] == TextsOf(call)[4];
  }

  /* -- UTF-8 ------------------------------------------------------------------------------------ */

  /** The table of section 3 of RFC 3629, read backwards: how many bytes a code point takes,
      how they begin, and how their low bits make it up. */
  lemma PointLayout(c: CodePoint)
    ensures SpellsPoint(Utf8.EncodePoint(c), c)
  {
    assert c / 4096 == c / 64 / 64 && c / 262144 == c / 4096 / 64;
  }

  predicate SpellsPoint(e: seq<int>, c: int) {
    && (forall i :: 1 <= i < |e| ==> 0x80 <= e[i] <= 0xBF)
    && if c <= 0x7F then e == [c]
       else if c <= 0x7FF then |e| == 2 && 0xC2 <= e[0] <= 0xDF && c == (e[0] - 0xC0) * 64 + (e[1] - 0x80)
       else if c <= 0xFFFF then
         |e| == 3 && 0xE0 <= e[0] <= 0xEF && c == ((e[0] - 0xE0) * 64 + (e[1] - 0x80)) * 64 + (e[2] - 0x80)
       else
         && |e| == 4 && 0xF0 <= e[0] <= 0xF4
         && c == (((e[0] - 0xF0) * 64 + (e[1] - 0x80)) * 64 + (e[2] - 0x80)) * 64 + (e[3] - 0x80)
  }

  lemma {:induction false} EncodeConcat(s: Text, t: Text)
    ensures Utf8.Encode(s + t) == Utf8.Encode(s) + Utf8.Encode(t)
  {
    if s == [] {
      assert s + t == t;
    } else {
      EncodeConcat(s[1..], t);
      assert (s + t)[1..] == s[1..] + t;
    }
  }
}
