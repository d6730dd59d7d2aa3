/** The digest cache: what one call of the cached hasher does with what it observes. */
module Cache {
  import opened Outcomes
  import opened Unicode
  import opened Digests
  import opened Artifacts

  const RACY_MARGIN_NS: int := 2_000_000_000
  const MAX_ENTRIES: nat := 128

  /* -- artifacts as the file system shows them ---------------------------------------- */

  datatype FileState = FileState(content: Bytes, mtime: int, ctime: int, ino: nat, dev: nat)

  /** A regular file is listed under its own name. */
  datatype Artifact = Artifact(kind: ArtifactKind, files: map<Text, FileState>)

  datatype Stat = Stat(relpath: Text, size: nat, mtime: int, ctime: int, ino: nat, dev: nat)

  datatype Fingerprint = Fingerprint(kind: ArtifactKind, stats: seq<Stat>)

  function StatOf(path: Text, f: FileState): Stat {
    Stat(path, |f.content|, f.mtime, f.ctime, f.ino, f.dev)
  }

  function ContentsOf(a: Artifact): Contents {
    map p | p in a.files :: a.files[p].content
  }

  /** The stats of the files at the listed paths. */
  function StatsAt(files: map<Text, FileState>, paths: seq<Text>): (r: seq<Stat>)
    requires forall i :: 0 <= i < |paths| ==> paths[i] in files
    ensures |r| == |paths|
    ensures forall i :: 0 <= i < |r| ==> r[i] == StatOf(paths[i], files[paths[i]])
  {
    seq(|paths|, i requires 0 <= i < |paths| => StatOf(paths[i], files[paths[i]]))
  }

  /** The stats of all files in path order. */
  function StatsOf(files: map<Text, FileState>): seq<Stat> {
    StatsAt(files, SortedPaths(files))
  }

  function SortedPaths(files: map<Text, FileState>): (r: seq<Text>)
    ensures StrictlySorted(r)
    ensures forall p :: p in r <==> p in files
    ensures forall i :: 0 <= i < |r| ==> r[i] in files
  {
    Sort(files.Keys)
  }

  /** The fingerprint of an artifact nobody writes to; None for what cannot be cached safely: no
      artifact, no files, or a file reporting inode 0. */
  function Capture(a: Option<Artifact>): Option<Fingerprint> {
    if a.None? || a.value.files == map[] || exists p :: p in a.value.files && a.value.files[p].ino == 0 then None
    else Some(Fingerprint(a.value.kind, StatsOf(a.value.files)))
  }

  /** What hash_artifact computes from the files as they are now. */
  function Fresh(h: Hasher, a: Option<Artifact>): Option<ArtifactDigest> {
    if a.None? || a.value.files == map[] then None
    else DigestFromFiles(h, a.value.kind, Listing(h, ContentsOf(a.value)))
  }

  /** For a directory that is the digest hash_directory returns. */
  lemma FreshDirectory(h: Hasher, a: Artifact)
    requires a.kind == Directory && a.files != map[]
    ensures Fresh(h, Some(a)) == Some(DirectoryDigest(h, ContentsOf(a)))
  {
    SortFilesFixed(Listing(h, ContentsOf(a)));
  }

  /** dir_stats.sort(key=relpath) */
  function InsertStat(s: Stat, stats: seq<Stat>): seq<Stat> {
    if stats == [] || !Below(stats[0].relpath, s.relpath) then [s] + stats
    else [stats[0]] + InsertStat(s, stats[1..])
  }

  function SortStats(stats: seq<Stat>): seq<Stat> {
    if stats == [] then [] else InsertStat(stats[|stats| - 1], SortStats(stats[..|stats| - 1]))
  }

  ghost predicate StatsSorted(stats: seq<Stat>) {
    forall i, j :: 0 <= i < j < |stats| ==> Below(stats[i].relpath, stats[j].relpath)
  }

  lemma {:induction false} InsertStatSorts(s: Stat, stats: seq<Stat>)
    requires StatsSorted(stats) && forall x :: x in stats ==> x.relpath != s.relpath
    ensures StatsSorted(InsertStat(s, stats))
    ensures forall x :: x in InsertStat(s, stats) <==> x == s || x in stats
  {
    hide Below;
    if stats != [] {
      assert stats[0] in stats && stats == [stats[0]] + stats[1..];
      BelowTotal(stats[0].relpath, s.relpath);
      if Below(stats[0].relpath, s.relpath) {
        InsertStatSorts(s, stats[1..]);
        var t := InsertStat(s, stats[1..]);
        forall j | 0 <= j < |t| ensures Below(stats[0].relpath, t[j].relpath) {
          assert t[j] in t;
          AboveHead(stats, s, t[j]);
        }
      } else {
        forall j | 0 <= j < |stats| ensures Below(s.relpath, stats[j].relpath) {
          if j > 0 { BelowTransitive(s.relpath, stats[0].relpath, stats[j].relpath); }
        }
      }
    }
  }

  lemma AboveHead(stats: seq<Stat>, s: Stat, x: Stat)
    requires stats != [] && StatsSorted(stats) && Below(stats[0].relpath, s.relpath) && (x == s || x in stats[1..])
    ensures Below(stats[0].relpath, x.relpath)
  {
    hide Below;
    if x != s {
      var k :| 0 <= k < |stats[1..]| && stats[1..][k] == x;
      assert stats[k + 1] == x;
    }
  }

  /** Stats collected one file at a time, each path once, sort to the stats of the files. */
  lemma SortedAreStats(files: map<Text, FileState>, stats: seq<Stat>)
    requires StatsSorted(stats)
    requires forall s: Stat :: s in stats <==> s.relpath in files && s == StatOf(s.relpath, files[s.relpath])
    ensures stats == StatsOf(files)
  {
    hide Below;
    var paths := seq(|stats|, i requires 0 <= i < |stats| => stats[i].relpath);
    forall p: Text ensures p in paths <==> p in SortedPaths(files) {
      if p in files {
        assert StatOf(p, files[p]) in stats;
        var k :| 0 <= k < |stats| && stats[k] == StatOf(p, files[p]);
        assert paths[k] == p;
      }
      if p in paths {
        var k :| 0 <= k < |paths| && paths[k] == p;
        assert stats[k] in stats;
      }
    }
    SortedUnique(paths, SortedPaths(files));
    forall i | 0 <= i < |stats| ensures stats[i] == StatsOf(files)[i] {
      assert stats[i] in stats && paths[i] == stats[i].relpath;
    }
  }

  /** _capture_fingerprint of an artifact nobody writes to meanwhile: files are met in any
      order, one reporting inode 0 ends the pass, and the stats are sorted at the end. */
  method CaptureFingerprint(a: Option<Artifact>) returns (r: Option<Fingerprint>)
    ensures r == Capture(a)
  {
    hide StatsOf, InsertStat, StatsSorted;
    if a.None? {
      return None;
    }
    var files := a.value.files;
    var pending := files.Keys;
    var stats: seq<Stat> := [];
    assert StatsSorted(SortStats(stats)) by { NoStatsSorted(); }
    while pending != {}
      invariant pending <= files.Keys
      invariant forall s: Stat :: s in SortStats(stats) <==>
        s.relpath in files && s.relpath !in pending && s == StatOf(s.relpath, files[s.relpath])
      invariant forall p :: p in files && p !in pending ==> files[p].ino != 0
      invariant StatsSorted(SortStats(stats))
      invariant stats == [] ==> pending == files.Keys
      decreases pending
    {
      var p :| p in pending;
      if files[p].ino == 0 {
        return None;
      }
      var next := StatOf(p, files[p]);
      assert (stats + [next])[..|stats|] == stats;
      InsertStatSorts(next, SortStats(stats));
      stats := stats + [next];
      pending := pending - {p};
    }
    if stats == [] {
      assert files.Keys == {};
      return None;
    }
    assert forall p :: p in files ==> files[p].ino != 0;
    assert files != map[] by { NonEmptySort(stats); }
    SortedAreStats(files, SortStats(stats));
    return Some(Fingerprint(a.value.kind, SortStats(stats)));
  }

  lemma NoStatsSorted()
    ensures StatsSorted([])
  {
  }

  lemma NonEmptySort(stats: seq<Stat>)
    requires stats != []
    ensures SortStats(stats) != [] && SortStats(stats)[0] in SortStats(stats)
  {
  }

  /* -- entries ----------------------------------------------------------------------------- */

  datatype Entry = Entry(kind: ArtifactKind, files: seq<FileDigest>, stats: seq<Stat>, recordedAt: int)

  /** _all_older_than_margin */
  predicate AllOlderThanMargin(stats: seq<Stat>, now: int) {
    forall i :: 0 <= i < |stats| ==> stats[i].mtime <= now - RACY_MARGIN_NS && stats[i].ctime <= now - RACY_MARGIN_NS
  }

  /** _entry_is_consistent */
  predicate EntryIsConsistent(entry: Entry, fingerprint: Fingerprint) {
    && entry.kind == fingerprint.kind
    && |entry.files| == |fingerprint.stats|
    && forall i :: 0 <= i < |entry.files| ==>
         entry.files[i].path == fingerprint.stats[i].relpath && entry.files[i].size == fingerprint.stats[i].size
  }

  /* -- one call ------------------------------------------------------------------------------ */

  /** All that one call takes from its surroundings: the stat pass before, the digest
      hash_artifact computes (None when it raises), the stat pass after, the two clock
      readings, and whether the cache file can be read, read again, and written. */
  datatype Seen = Seen(
    key: Text, before: Option<Fingerprint>, computed: Option<ArtifactDigest>, after: Option<Fingerprint>,
    clock: int, recordedAt: int, readable: bool, readableAgain: bool, writable: bool)

  datatype Hashed = Hashed(digest: ArtifactDigest, fromCache: bool)

  type Entries = map<Text, Entry>

  /** The digest a hit returns. */
  function Hit(h: Hasher, entries: Entries, s: Seen): Option<ArtifactDigest> {
    if s.before.None? || s.key !in entries then None
    else
      var entry := entries[s.key];
      if entry.stats != s.before.value.stats || !EntryIsConsistent(entry, s.before.value) then None
      else DigestFromFiles(h, entry.kind, entry.files)
  }

  /** The observations allow an entry to be stored. */
  predicate Storable(s: Seen) {
    && s.before.Some? && s.computed.Some? && s.after.Some?
    && s.after.value.stats == s.before.value.stats
    && AllOlderThanMargin(s.before.value.stats, s.clock)
  }

  function Recorded(s: Seen): Entry
    requires Storable(s)
  {
    Entry(s.computed.value.kind, s.computed.value.files, s.before.value.stats, s.recordedAt)
  }

  /** kept is full without its oldest entries, down to the limit. */
  ghost predicate Evicted(full: Entries, kept: Entries) {
    && (forall k :: k in kept ==> k in full && kept[k] == full[k])
    && |kept| == (if |full| <= MAX_ENTRIES then |full| else MAX_ENTRIES)
    && (forall k, e :: k in kept && e in full && e !in kept ==> full[e].recordedAt <= full[k].recordedAt)
  }

  /** The result and the entries after a call. */
  ghost predicate Outcome(h: Hasher, entries: Entries, s: Seen, entries': Entries, r: Option<Hashed>) {
    var hit := Hit(h, if s.readable then entries else map[], s);
    if hit.Some? then r == Some(Hashed(hit.value, true)) && entries' == entries
    else
      && r == (if s.computed.Some? then Some(Hashed(s.computed.value, false)) else None)
      && if Storable(s) && s.writable
         then Evicted((if s.readableAgain then entries else map[])[s.key := Recorded(s)], entries')
         else entries' == entries
  }

  method Oldest(entries: Entries) returns (k: Text)
    requires entries != map[]
    ensures k in entries && forall e :: e in entries ==> entries[k].recordedAt <= entries[e].recordedAt
  {
    k :| k in entries;
    var pending := entries.Keys - {k};
    while pending != {}
      invariant k in entries && pending <= entries.Keys
      invariant forall e :: e in entries && e !in pending ==> entries[k].recordedAt <= entries[e].recordedAt
      decreases pending
    {
      var e :| e in pending;
      if entries[e].recordedAt < entries[k].recordedAt {
        k := e;
      }
      pending := pending - {e};
    }
  }

  /** CachedHasher, its cache file a dictionary of entries. */
  class CachedHasher {
    var entries: Entries

    constructor ()
      ensures entries == map[]
    {
      entries := map[];
    }

    /** _store: adds the entry, then drops the oldest ones beyond the limit. */
    method Store(key: Text, entry: Entry, readable: bool, writable: bool)
      modifies this
      ensures if writable then Evicted((if readable then old(entries) else map[])[key := entry], entries)
              else entries == old(entries)
    {
      var loaded: Entries := if readable then entries else map[];
      var full := loaded[key := entry];
      assert full == (if readable then old(entries) else map[])[key := entry];
      var kept := full;
      while |kept| > MAX_ENTRIES
        invariant entries == old(entries)
        invariant forall k :: k in kept ==> k in full && kept[k] == full[k]
        invariant |kept| == |full| || MAX_ENTRIES <= |kept| < |full|
        invariant forall k, e :: k in kept && e in full && e !in kept ==> full[e].recordedAt <= full[k].recordedAt
        decreases |kept|
      {
        var k := Oldest(kept);
        DropOne(kept, k);
        kept := kept - {k};
      }
      if writable {
        entries := kept;
      }
    }

    /** hash */
    method Hash(h: Hasher, s: Seen) returns (r: Option<Hashed>)
      modifies this
      ensures Outcome(h, old(entries), s, entries, r)
    {
      hide DigestFromFiles, EntryIsConsistent, AllOlderThanMargin, Evicted;
      if s.before.None? {
        return if s.computed.Some? then Some(Hashed(s.computed.value, false)) else None;
      }
      var loaded: Entries := if s.readable then entries else map[];
      if s.key in loaded && loaded[s.key].stats == s.before.value.stats && EntryIsConsistent(loaded[s.key], s.before.value) {
        var digest := DigestFromFiles(h, loaded[s.key].kind, loaded[s.key].files);
        if digest.Some? {
          return Some(Hashed(digest.value, true));
        }
      }
      if s.computed.None? {
        return None;
      }
      var computed := s.computed.value;
      if s.after.None? || s.after.value.stats != s.before.value.stats {
        // changed while hashing: not stored
      } else if !AllOlderThanMargin(s.before.value.stats, s.clock) {
        // modified too recently: not stored
      } else {
        Store(s.key, Entry(computed.kind, computed.files, s.before.value.stats, s.recordedAt), s.readableAgain, s.writable);
      }
      return Some(Hashed(computed, false));
    }
  }

  lemma DropOne(m: Entries, k: Text)
    requires k in m
    ensures |m - {k}| == |m| - 1
  {
    assert (m - {k}).Keys == m.Keys - {k};
    assert |m.Keys| == |m| && |(m - {k}).Keys| == |m - {k}|;
  }
}
