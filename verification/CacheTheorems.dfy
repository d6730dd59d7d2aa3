/** The digest cache against a file system that changes at arbitrary moments: a hit returns
    what a full hash would, and the racy margin is exactly large enough. */
module CacheTheorems {
  import opened Outcomes
  import opened Unicode
  import opened Digests
  import opened Artifacts
  import opened Cache

  /* -- histories of the file system ----------------------------------------------------- */

  /** What tells one file from another: its inode number and device. */
  datatype Node = Node(ino: nat, dev: nat)

  datatype Inode = Inode(content: Bytes, mtime: int, ctime: int)

  /** Which file is found at each path of an artifact. */
  datatype Layout = Layout(kind: ArtifactKind, paths: map<Text, Node>)

  datatype World = World(now: int, nodes: map<Node, Inode>, layouts: map<Text, Layout>)

  type History = seq<World>

  function Shown(n: Node, f: Inode): FileState {
    FileState(f.content, f.mtime, f.ctime, n.ino, n.dev)
  }

  /** The artifact as it can be seen at a moment. */
  function At(w: History, key: Text, i: nat): Option<Artifact>
    requires i < |w|
  {
    if key !in w[i].layouts then None
    else
      var l := w[i].layouts[key];
      Some(Artifact(l.kind, map p | p in l.paths && l.paths[p] in w[i].nodes :: Shown(l.paths[p], w[i].nodes[l.paths[p]])))
  }

  function FileAt(w: History, key: Text, path: Text, i: nat): Option<FileState>
    requires i < |w|
  {
    if key in w[i].layouts && path in w[i].layouts[key].paths && w[i].layouts[key].paths[path] in w[i].nodes
    then Some(Shown(w[i].layouts[key].paths[path], w[i].nodes[w[i].layouts[key].paths[path]]))
    else None
  }

  function NodeAt(w: History, n: Node, i: nat): Option<Inode>
    requires i < |w|
  {
    if n in w[i].nodes then Some(w[i].nodes[n]) else None
  }

  /** The timestamp the file system gives at a moment, in units of g. */
  function Tick(g: nat, t: int): int
    requires g > 0
  {
    t - t % g
  }

  /** Time never runs backwards, and a file that is new, rewritten or touched has the change
      time of that moment. Everything else is arbitrary: modification times, which file is
      found at which path, and the reuse of inode numbers. */
  ghost predicate Honest(g: nat, w: History)
    requires g > 0
  {
    && (forall i, j {:trigger w[i], w[j]} :: 0 <= i < j < |w| ==> w[i].now <= w[j].now)
    && forall i, n: Node :: 0 < i < |w| && NodeChanged(w, n, i) ==> NodeAt(w, n, i).value.ctime == Tick(g, w[i].now)
  }

  /** The file exists and is not what it was one moment before. */
  predicate NodeChanged(w: History, n: Node, i: nat)
    requires 0 < i < |w|
  {
    NodeAt(w, n, i).Some? && NodeAt(w, n, i) != NodeAt(w, n, i - 1)
  }

  /** Another file, or a changed one, is found at the path. */
  predicate Changed(w: History, key: Text, path: Text, i: nat)
    requires 0 < i < |w|
  {
    FileAt(w, key, path, i).Some? && FileAt(w, key, path, i) != FileAt(w, key, path, i - 1)
  }

  /** Files come to the paths of the artifact only by being written, created or renamed one
      by one, which sets their change time: no directory is moved into place. */
  ghost predicate InPlace(g: nat, w: History, key: Text, lo: nat, hi: nat)
    requires g > 0 && hi < |w|
  {
    forall i, path: Text :: lo < i <= hi && Changed(w, key, path, i) ==>
      FileAt(w, key, path, i).value.ctime == Tick(g, w[i].now)
  }

  ghost predicate Settled(w: History, key: Text, path: Text, i: nat, j: nat)
    requires i <= j < |w|
  {
    forall t :: i <= t <= j ==> FileAt(w, key, path, t) == FileAt(w, key, path, i)
  }

  ghost predicate NodeSettled(w: History, n: Node, i: nat, j: nat)
    requires i <= j < |w|
  {
    forall t :: i <= t <= j ==> NodeAt(w, n, t) == NodeAt(w, n, i)
  }

  ghost predicate Quiet(w: History, key: Text, i: nat, j: nat)
    requires i <= j < |w|
  {
    forall t :: i <= t <= j ==> At(w, key, t) == At(w, key, i)
  }

  lemma TickBounds(g: nat, t: int)
    requires g > 0
    ensures t - g < Tick(g, t) <= t
  {
  }

  lemma TickMonotone(g: nat, t: int, u: int)
    requires g > 0 && t <= u
    ensures Tick(g, t) <= Tick(g, u)
  {
    TickIsMultiple(g, t);
    TickIsMultiple(g, u);
    TickBounds(g, t);
    TickBounds(g, u);
    MultiplesApart(g, u / g, t / g);
  }

  lemma TickIsMultiple(g: nat, t: int)
    requires g > 0
    ensures Tick(g, t) == g * (t / g)
  {
  }

  lemma MultiplesApart(g: nat, a: int, b: int)
    requires g > 0
    ensures a < b ==> g * a + g <= g * b
    ensures b <= a ==> g * b <= g * a
  {
    Distribute(g, a, b);
    if a < b {
      AtLeastOnce(g, b - a);
    } else if b < a {
      AtLeastOnce(g, a - b);
    }
  }

  lemma Distribute(g: int, a: int, b: int)
    ensures g * b == g * a + g * (b - a) && g * a == g * b + g * (a - b)
  {
  }

  lemma {:induction false} AtLeastOnce(g: nat, n: nat)
    requires n > 0
    ensures g <= g * n
  {
    if n > 1 {
      AtLeastOnce(g, n - 1);
      Distribute(g, n, n - 1);
    }
  }

  /** A file either has not changed since, or carries a change time of a later moment,
      wherever it is found. */
  lemma {:induction false} ChangeTells(g: nat, w: History, n: Node, i: nat, j: nat)
    requires g > 0 && Honest(g, w) && i <= j < |w| && NodeAt(w, n, j).Some?
    ensures NodeSettled(w, n, i, j) || Tick(g, w[i].now) <= NodeAt(w, n, j).value.ctime
    decreases j
  {
    hide NodeAt, Tick;
    if i < j {
      if NodeAt(w, n, j) == NodeAt(w, n, j - 1) {
        ChangeTells(g, w, n, i, j - 1);
      } else {
        assert NodeChanged(w, n, j);
        TickMonotone(g, w[i].now, w[j].now);
      }
    }
  }

  /** While no directory is moved, so does whatever is found at a path. */
  lemma {:induction false} ReplacementTells(g: nat, w: History, key: Text, path: Text, lo: nat, hi: nat, i: nat, j: nat)
    requires g > 0 && Honest(g, w) && hi < |w| && InPlace(g, w, key, lo, hi)
    requires lo <= i <= j <= hi && FileAt(w, key, path, j).Some?
    ensures Settled(w, key, path, i, j) || Tick(g, w[i].now) <= FileAt(w, key, path, j).value.ctime
    decreases j
  {
    hide FileAt, Tick, NodeAt;
    if i < j {
      if FileAt(w, key, path, j) == FileAt(w, key, path, j - 1) {
        ReplacementTells(g, w, key, path, lo, hi, i, j - 1);
      } else {
        assert Changed(w, key, path, j);
        TickMonotone(g, w[i].now, w[j].now);
      }
    }
  }

  /* -- calls ---------------------------------------------------------------------------------- */

  /** A call with the moments it spans: the first stat pass from start to mid, hashing from
      mid to done, the second stat pass from done to end, where the clock is read. */
  datatype Call = Call(seen: Seen, start: nat, mid: nat, done: nat, end: nat)

  /** Each file is looked at once during the pass; undisturbed, the pass is a snapshot. */
  ghost predicate StatPass(w: History, key: Text, lo: nat, hi: nat, fp: Option<Fingerprint>)
    requires lo <= hi < |w|
  {
    && (fp.Some? ==> forall k :: 0 <= k < |fp.value.stats| ==> Looked(w, key, lo, hi, fp.value.stats[k]))
    && (Quiet(w, key, lo, hi) ==> fp == Capture(At(w, key, lo)))
  }

  ghost predicate Looked(w: History, key: Text, lo: nat, hi: nat, s: Stat)
    requires lo <= hi < |w|
  {
    exists t :: lo <= t <= hi && FileAt(w, key, s.relpath, t).Some? && s == StatOf(s.relpath, FileAt(w, key, s.relpath, t).value)
  }

  /** A file nobody writes to while it is hashed is hashed right, whatever else happens. */
  ghost predicate HashPass(h: Hasher, w: History, key: Text, lo: nat, hi: nat, r: Option<ArtifactDigest>)
    requires lo <= hi < |w|
  {
    && (r.Some? ==> forall k :: 0 <= k < |r.value.files| ==> HashedRight(h, w, key, lo, hi, r.value.files[k]))
    && (Quiet(w, key, lo, hi) ==> r == Fresh(h, At(w, key, lo)))
  }

  ghost predicate HashedRight(h: Hasher, w: History, key: Text, lo: nat, hi: nat, f: FileDigest)
    requires lo <= hi < |w|
  {
    FileAt(w, key, f.path, lo).Some? && Settled(w, key, f.path, lo, hi) ==>
      f == FileEntry(h, f.path, FileAt(w, key, f.path, lo).value.content)
  }

  ghost predicate Observes(h: Hasher, w: History, c: Call) {
    && c.start <= c.mid <= c.done <= c.end < |w|
    && c.seen.clock == w[c.end].now
    && StatPass(w, c.seen.key, c.start, c.mid, c.seen.before)
    && HashPass(h, w, c.seen.key, c.mid, c.done, c.seen.computed)
    && StatPass(w, c.seen.key, c.done, c.end, c.seen.after)
  }

  /** Time from the start of the call to the clock reading. */
  function Duration(w: History, c: Call): int
    requires c.start < |w| && c.end < |w|
  {
    w[c.end].now - w[c.start].now
  }

  /** From the start of the recording on, an old enough change time that is still there means
      an unchanged file, and during the recording also an unchanged path. */
  ghost predicate Revealing(w: History, c: Call)
    requires c.end < |w|
  {
    && (forall n: Node, i, j ::
          c.start <= i <= j < |w| && NodeOldTime(w, n, i, j, w[c.end].now - RACY_MARGIN_NS) ==> NodeSettled(w, n, i, j))
    && (forall path: Text, i, j ::
          c.start <= i <= j <= c.end && SameOldTime(w, c.seen.key, path, i, j, w[c.end].now - RACY_MARGIN_NS) ==>
            Settled(w, c.seen.key, path, i, j))
  }

  predicate SameOldTime(w: History, key: Text, path: Text, i: nat, j: nat, cutoff: int)
    requires i <= j < |w|
  {
    && FileAt(w, key, path, i).Some? && FileAt(w, key, path, j).Some?
    && FileAt(w, key, path, i).value.ctime == FileAt(w, key, path, j).value.ctime <= cutoff
  }

  predicate NodeOldTime(w: History, n: Node, i: nat, j: nat, cutoff: int)
    requires i <= j < |w|
  {
    && NodeAt(w, n, i).Some? && NodeAt(w, n, j).Some?
    && NodeAt(w, n, i).value.ctime == NodeAt(w, n, j).value.ctime <= cutoff
  }

  /** A quick enough recording is revealing: its duration plus a tick is within the margin,
      and no directory is moved into the artifact meanwhile. */
  lemma QuickIsRevealing(g: nat, w: History, c: Call)
    requires g > 0 && Honest(g, w) && c.start <= c.end < |w|
    requires InPlace(g, w, c.seen.key, c.start, c.end)
    requires Duration(w, c) + g <= RACY_MARGIN_NS
    ensures Revealing(w, c)
  {
    hide FileAt, NodeAt, Tick;
    forall n: Node, i, j |
      c.start <= i <= j < |w| && NodeOldTime(w, n, i, j, w[c.end].now - RACY_MARGIN_NS)
      ensures NodeSettled(w, n, i, j)
    {
      ChangeTells(g, w, n, i, j);
      TickBounds(g, w[i].now);
    }
    forall path: Text, i, j |
      c.start <= i <= j <= c.end && SameOldTime(w, c.seen.key, path, i, j, w[c.end].now - RACY_MARGIN_NS)
      ensures Settled(w, c.seen.key, path, i, j)
    {
      ReplacementTells(g, w, c.seen.key, path, c.start, c.end, i, j);
      TickBounds(g, w[i].now);
    }
  }

  /** The alternative to a bound on time: every change gives a file a change time it has not
      had before, and during the recording every replacement one the path has not had. */
  ghost predicate Advancing(w: History, c: Call)
    requires c.end < |w|
  {
    && (forall i, j, n: Node :: 0 <= j < i < |w| && NodeChanged(w, n, i) && NodeAt(w, n, j).Some? ==>
          NodeAt(w, n, j).value.ctime < NodeAt(w, n, i).value.ctime)
    && (forall i, j, path: Text ::
          c.start <= j < i <= c.end && Changed(w, c.seen.key, path, i) && FileAt(w, c.seen.key, path, j).Some? ==>
          FileAt(w, c.seen.key, path, j).value.ctime < FileAt(w, c.seen.key, path, i).value.ctime)
  }

  /** When change times always advance, every recording is revealing, however slow. */
  lemma AdvancingIsRevealing(w: History, c: Call)
    requires c.end < |w| && Advancing(w, c)
    ensures Revealing(w, c)
  {
    hide FileAt, NodeAt;
    forall n: Node, i, j |
      c.start <= i <= j < |w| && NodeOldTime(w, n, i, j, w[c.end].now - RACY_MARGIN_NS)
      ensures NodeSettled(w, n, i, j)
    {
      NoChangeBetween(w, c, n, i, j);
    }
    forall path: Text, i, j |
      c.start <= i <= j <= c.end && SameOldTime(w, c.seen.key, path, i, j, w[c.end].now - RACY_MARGIN_NS)
      ensures Settled(w, c.seen.key, path, i, j)
    {
      NoReplacementBetween(w, c, path, i, j);
    }
  }

  lemma {:induction false} NoChangeBetween(w: History, c: Call, n: Node, i: nat, j: nat)
    requires c.end < |w| && Advancing(w, c) && i <= j < |w|
    requires NodeAt(w, n, i).Some? && NodeAt(w, n, j).Some?
    ensures NodeAt(w, n, i).value.ctime <= NodeAt(w, n, j).value.ctime
    ensures NodeAt(w, n, i).value.ctime == NodeAt(w, n, j).value.ctime ==> NodeSettled(w, n, i, j)
    decreases j
  {
    hide FileAt, NodeAt;
    if i < j {
      if NodeAt(w, n, j) == NodeAt(w, n, j - 1) {
        NoChangeBetween(w, c, n, i, j - 1);
      } else {
        assert NodeChanged(w, n, j);
      }
    }
  }

  lemma {:induction false} NoReplacementBetween(w: History, c: Call, path: Text, i: nat, j: nat)
    requires c.end < |w| && Advancing(w, c) && c.start <= i <= j <= c.end
    requires FileAt(w, c.seen.key, path, i).Some? && FileAt(w, c.seen.key, path, j).Some?
    ensures FileAt(w, c.seen.key, path, i).value.ctime <= FileAt(w, c.seen.key, path, j).value.ctime
    ensures FileAt(w, c.seen.key, path, i).value.ctime == FileAt(w, c.seen.key, path, j).value.ctime ==>
              Settled(w, c.seen.key, path, i, j)
    decreases j
  {
    hide FileAt, NodeAt;
    if i < j {
      if FileAt(w, c.seen.key, path, j) == FileAt(w, c.seen.key, path, j - 1) {
        NoReplacementBetween(w, c, path, i, j - 1);
      } else {
        assert Changed(w, c.seen.key, path, j);
      }
    }
  }

  /* -- a hit is what a full hash would return -------------------------------------------------- */

  lemma StatNamesNode(path: Text, e: FileState, f: FileState)
    requires StatOf(path, e) == StatOf(path, f)
    ensures e.ino == f.ino && e.dev == f.dev && e.ctime == f.ctime
  {
  }

  lemma FileIsNode(w: History, key: Text, path: Text, i: nat)
    requires i < |w| && FileAt(w, key, path, i).Some?
    ensures var f := FileAt(w, key, path, i).value;
      var node := NodeAt(w, Node(f.ino, f.dev), i);
      node.Some? && f == Shown(Node(f.ino, f.dev), node.value)
  {
  }

  /** The same stat at two moments after the start of a revealing recording, the change time
      old: the very same file with the same content, wherever it was meanwhile. */
  lemma SameStatSameFile(w: History, rec: Call, path: Text, b: nat, q: nat)
    requires rec.end < |w| && Revealing(w, rec) && rec.start <= b <= q < |w|
    requires FileAt(w, rec.seen.key, path, b).Some? && FileAt(w, rec.seen.key, path, q).Some?
    requires StatOf(path, FileAt(w, rec.seen.key, path, b).value) == StatOf(path, FileAt(w, rec.seen.key, path, q).value)
    requires FileAt(w, rec.seen.key, path, b).value.ctime <= w[rec.end].now - RACY_MARGIN_NS
    ensures FileAt(w, rec.seen.key, path, b) == FileAt(w, rec.seen.key, path, q)
    ensures var f := FileAt(w, rec.seen.key, path, q).value; NodeSettled(w, Node(f.ino, f.dev), b, q)
  {
    hide FileAt, NodeAt;
    var e, f := FileAt(w, rec.seen.key, path, b).value, FileAt(w, rec.seen.key, path, q).value;
    StatNamesNode(path, e, f);
    FileIsNode(w, rec.seen.key, path, b);
    FileIsNode(w, rec.seen.key, path, q);
    var n := Node(f.ino, f.dev);
    assert NodeOldTime(w, n, b, q, w[rec.end].now - RACY_MARGIN_NS);
    assert NodeSettled(w, n, b, q);
    assert NodeAt(w, n, q) == NodeAt(w, n, b);
    assert e == f;
  }

  /** One file of a recorded entry that a later stat pass finds with the same stat: its
      content then is the content that was hashed. */
  lemma RecordedFileIsCurrent(h: Hasher, w: History, rec: Call, k: nat, q: nat)
    requires Observes(h, w, rec) && Storable(rec.seen) && Revealing(w, rec)
    requires rec.mid <= q < |w|
    requires k < |rec.seen.before.value.stats| && k < |rec.seen.computed.value.files|
    requires rec.seen.computed.value.files[k].path == rec.seen.before.value.stats[k].relpath
    requires var s := rec.seen.before.value.stats[k];
      FileAt(w, rec.seen.key, s.relpath, q).Some? && s == StatOf(s.relpath, FileAt(w, rec.seen.key, s.relpath, q).value)
    ensures var f := rec.seen.computed.value.files[k];
            f == FileEntry(h, f.path, FileAt(w, rec.seen.key, f.path, q).value.content)
  {
    hide FileAt, Capture, Fresh, FileEntry, NodeAt;
    var key, s, f := rec.seen.key, rec.seen.before.value.stats[k], rec.seen.computed.value.files[k];
    var path := s.relpath;
    assert Looked(w, key, rec.start, rec.mid, s);
    var b :| rec.start <= b <= rec.mid && FileAt(w, key, path, b).Some? && s == StatOf(path, FileAt(w, key, path, b).value);
    assert Looked(w, key, rec.done, rec.end, rec.seen.after.value.stats[k]);
    var a :| rec.done <= a <= rec.end && FileAt(w, key, path, a).Some? && s == StatOf(path, FileAt(w, key, path, a).value);
    assert SameOldTime(w, key, path, b, a, w[rec.end].now - RACY_MARGIN_NS);
    assert Settled(w, key, path, b, a);
    assert Settled(w, key, path, rec.mid, rec.done);
    assert HashedRight(h, w, key, rec.mid, rec.done, f);
    SameStatSameFile(w, rec, path, b, q);
  }

  /** Soundness of a hit. The entry comes from a recording that is revealing; the lookup's
      stat pass meets no write and is not before the end of the recording's first pass, so
      the two calls may overlap. Then the digest is exactly that of a full hash. */
  lemma HitIsFresh(h: Hasher, w: History, rec: Call, entries: Entries, look: Call)
    requires Observes(h, w, rec) && Storable(rec.seen) && Revealing(w, rec)
    requires Observes(h, w, look) && look.seen.key == rec.seen.key
    requires rec.seen.key in entries && entries[rec.seen.key] == Recorded(rec.seen)
    requires rec.mid <= look.start && Quiet(w, look.seen.key, look.start, look.mid)
    requires Hit(h, entries, look.seen).Some?
    ensures Hit(h, entries, look.seen) == Fresh(h, At(w, look.seen.key, look.start))
  {
    hide DigestFromFiles, Listing, FileEntry, Below, FileAt, Observes, Revealing, Capture, Hit, Fresh, Quiet;
    var q := look.start;
    var key := look.seen.key;
    var entry := Recorded(rec.seen);
    Spans(h, w, look);
    LookupMatches(h, w, entries, look);
    var art := At(w, key, q).value;
    var stats := StatsOf(art.files);
    var m := ContentsOf(art);
    forall k | 0 <= k < |entry.files|
      ensures entry.files[k].path in m && entry.files[k] == FileEntry(h, entry.files[k].path, m[entry.files[k].path])
    {
      assert entry.files[k].path == stats[k].relpath == SortedPaths(art.files)[k];
      CurrentFile(w, key, q, stats[k].relpath);
      RecordedCall(h, w, rec, look, k, q);
    }
    SameListing(h, art, entry.files);
  }

  lemma Spans(h: Hasher, w: History, c: Call)
    requires Observes(h, w, c)
    ensures c.start <= c.mid <= c.done <= c.end < |w|
  {
  }

  /** What a hit says about the undisturbed lookup that made it. */
  lemma LookupMatches(h: Hasher, w: History, entries: Entries, look: Call)
    requires Observes(h, w, look) && Quiet(w, look.seen.key, look.start, look.mid)
    requires look.seen.key in entries && Hit(h, entries, look.seen).Some?
    ensures At(w, look.seen.key, look.start).Some?
    ensures var art := At(w, look.seen.key, look.start).value;
            var entry := entries[look.seen.key];
            && art.files != map[]
            && look.seen.before == Some(Fingerprint(art.kind, StatsOf(art.files)))
            && entry.stats == StatsOf(art.files) && EntryIsConsistent(entry, look.seen.before.value)
            && entry.kind == art.kind && |entry.files| == |StatsOf(art.files)|
            && Hit(h, entries, look.seen) == DigestFromFiles(h, art.kind, entry.files)
  {
    hide DigestFromFiles, StatsOf, At, HashPass;
  }

  lemma CurrentFile(w: History, key: Text, q: nat, path: Text)
    requires q < |w| && At(w, key, q).Some? && path in At(w, key, q).value.files
    ensures FileAt(w, key, path, q) == Some(At(w, key, q).value.files[path])
  {
  }

  lemma RecordedCall(h: Hasher, w: History, rec: Call, look: Call, k: nat, q: nat)
    requires Observes(h, w, rec) && Storable(rec.seen) && Revealing(w, rec) && rec.mid <= q < |w|
    requires look.seen.before.Some? && EntryIsConsistent(Recorded(rec.seen), look.seen.before.value)
    requires look.seen.before.value.stats == rec.seen.before.value.stats
    requires k < |rec.seen.computed.value.files|
    requires var s := rec.seen.before.value.stats;
             k < |s| && FileAt(w, rec.seen.key, s[k].relpath, q).Some? &&
             s[k] == StatOf(s[k].relpath, FileAt(w, rec.seen.key, s[k].relpath, q).value)
    ensures var f := rec.seen.computed.value.files[k];
            f == FileEntry(h, f.path, FileAt(w, rec.seen.key, f.path, q).value.content)
  {
    hide FileAt, Revealing, Observes, FileEntry;
    RecordedFileIsCurrent(h, w, rec, k, q);
  }

  /** Digests that are right file by file, listed like the stats, are the artifact's listing. */
  lemma SameListing(h: Hasher, art: Artifact, files: seq<FileDigest>)
    requires art.files != map[]
    requires |files| == |StatsOf(art.files)|
    requires forall k :: 0 <= k < |files| ==> files[k].path == StatsOf(art.files)[k].relpath
    requires forall k :: 0 <= k < |files| ==>
               files[k].path in ContentsOf(art) && files[k] == FileEntry(h, files[k].path, ContentsOf(art)[files[k].path])
    ensures Fresh(h, Some(art)) == DigestFromFiles(h, art.kind, files)
  {
    hide DigestFromFiles, FileEntry, Below, Listing, SortedPaths;
    var m := ContentsOf(art);
    var paths := SortedPaths(art.files);
    assert PathSorted(files);
    forall f ensures f in files <==> f in Listing(h, m) {
      if f in Listing(h, m) {
        assert f.path in paths;
        var k :| 0 <= k < |paths| && paths[k] == f.path;
        assert files[k] == f;
      }
      if f in files {
        var k :| 0 <= k < |files| && files[k] == f;
      }
    }
    PathSortedUnique(files, Listing(h, m));
  }

  /** Any write to a file after the recording's first stat pass shows in its stat ever after,
      whatever modification time and size it is given and wherever it is moved. */
  lemma WriteShows(h: Hasher, w: History, rec: Call, k: nat, i: nat, q: nat)
    requires Observes(h, w, rec) && Storable(rec.seen) && Revealing(w, rec)
    requires k < |rec.seen.before.value.stats| && rec.mid < i <= q < |w|
    requires var f := FileAt(w, rec.seen.key, rec.seen.before.value.stats[k].relpath, q);
             f.Some? && NodeChanged(w, Node(f.value.ino, f.value.dev), i)
    ensures var path := rec.seen.before.value.stats[k].relpath;
            rec.seen.before.value.stats[k] != StatOf(path, FileAt(w, rec.seen.key, path, q).value)
  {
    hide FileAt, Capture, Fresh, HashedRight, NodeAt;
    var key, s := rec.seen.key, rec.seen.before.value.stats[k];
    assert Looked(w, key, rec.start, rec.mid, s);
    var b :| rec.start <= b <= rec.mid && FileAt(w, key, s.relpath, b).Some? && s == StatOf(s.relpath, FileAt(w, key, s.relpath, b).value);
    var f := FileAt(w, key, s.relpath, q).value;
    var n := Node(f.ino, f.dev);
    FileIsNode(w, key, s.relpath, b);
    FileIsNode(w, key, s.relpath, q);
    assert !NodeSettled(w, n, b, q) by {
      assert NodeAt(w, n, i) != NodeAt(w, n, i - 1);
    }
    assert !NodeOldTime(w, n, b, q, w[rec.end].now - RACY_MARGIN_NS);
  }

  /* -- whole runs -------------------------------------------------------------------------------- */

  /** A run of calls on a cache that starts empty, with the entries between the calls. */
  ghost predicate IsRun(h: Hasher, calls: seq<Call>, states: seq<Entries>, results: seq<Option<Hashed>>) {
    && |states| == |calls| + 1 && |results| == |calls| && states[0] == map[]
    && forall i :: 0 <= i < |calls| ==> Outcome(h, states[i], calls[i].seen, states[i + 1], results[i])
  }

  /** One call ends before the next one starts. */
  ghost predicate InTurn(calls: seq<Call>) {
    forall i, j :: 0 <= i < j < |calls| ==> calls[i].end <= calls[j].start
  }

  ghost predicate RecordedBefore(calls: seq<Call>, n: nat, key: Text, entry: Entry)
    requires n <= |calls|
  {
    exists i :: 0 <= i < n && Storable(calls[i].seen) && calls[i].seen.key == key && entry == Recorded(calls[i].seen)
  }

  /** Through every eviction, lost write and unreadable file, what is in the cache was
      recorded by an earlier call. */
  lemma {:induction false} EntriesAreRecordings(h: Hasher, calls: seq<Call>, states: seq<Entries>, results: seq<Option<Hashed>>, n: nat)
    requires IsRun(h, calls, states, results) && n <= |calls|
    ensures forall key :: key in states[n] ==> RecordedBefore(calls, n, key, states[n][key])
    decreases n
  {
    hide Hit, Storable, Recorded;
    if n > 0 {
      EntriesAreRecordings(h, calls, states, results, n - 1);
      assert Outcome(h, states[n - 1], calls[n - 1].seen, states[n], results[n - 1]);
      forall key | key in states[n] ensures RecordedBefore(calls, n, key, states[n][key]) {
        if key in states[n - 1] && states[n][key] == states[n - 1][key] {
          assert RecordedBefore(calls, n - 1, key, states[n - 1][key]);
        }
      }
    }
  }

  /** In every run, every hit whose stat pass meets no write returns the digest that a full
      hash of the files would return at that moment. */
  lemma EveryHitIsFresh(h: Hasher, w: History, calls: seq<Call>, states: seq<Entries>, results: seq<Option<Hashed>>, n: nat)
    requires IsRun(h, calls, states, results) && InTurn(calls) && n < |calls|
    requires forall i :: 0 <= i < |calls| ==> Observes(h, w, calls[i]) && Revealing(w, calls[i])
    requires Observes(h, w, calls[n]) && Quiet(w, calls[n].seen.key, calls[n].start, calls[n].mid)
    requires results[n].Some? && results[n].value.fromCache
    ensures Fresh(h, At(w, calls[n].seen.key, calls[n].start)) == Some(results[n].value.digest)
  {
    hide Hit, Storable, Recorded, Observes, Revealing, Quiet, Fresh, At, Evicted;
    var look := calls[n];
    assert Outcome(h, states[n], look.seen, states[n + 1], results[n]);
    assert look.seen.readable && Hit(h, states[n], look.seen).Some? by { OnlyHits(h, states[n], look.seen, states[n + 1], results[n]); }
    HitHasEntry(h, states[n], look.seen);
    EntriesAreRecordings(h, calls, states, results, n);
    assert RecordedBefore(calls, n, look.seen.key, states[n][look.seen.key]);
    var i :| 0 <= i < n && Storable(calls[i].seen) && calls[i].seen.key == look.seen.key && states[n][look.seen.key] == Recorded(calls[i].seen);
    Spans(h, w, calls[i]);
    HitIsFresh(h, w, calls[i], states[n], look);
  }

  lemma OnlyHits(h: Hasher, entries: Entries, s: Seen, entries': Entries, r: Option<Hashed>)
    requires Outcome(h, entries, s, entries', r) && r.Some? && r.value.fromCache
    ensures s.readable && Hit(h, entries, s) == Some(r.value.digest)
  {
    hide Evicted, Storable, DigestFromFiles, EntryIsConsistent;
  }

  lemma HitHasEntry(h: Hasher, entries: Entries, s: Seen)
    requires Hit(h, entries, s).Some?
    ensures s.key in entries
  {
  }

  lemma MissComputes(h: Hasher, entries: Entries, s: Seen, entries': Entries, r: Option<Hashed>)
    requires Outcome(h, entries, s, entries', r) && (r.Some? ==> !r.value.fromCache)
    ensures s.computed == if r.Some? then Some(r.value.digest) else None
  {
    hide Evicted, Storable, Hit;
  }

  /** The call is quick enough and no directory is moved into its artifact meanwhile. */
  ghost predicate QuickInPlace(g: nat, w: History, c: Call) {
    && g > 0 && c.start <= c.end < |w|
    && Duration(w, c) + g <= RACY_MARGIN_NS && InPlace(g, w, c.seen.key, c.start, c.end)
  }

  /** In every run of quick enough calls, a call during which nobody writes to the artifact
      returns what hash_artifact returns, errors included, whether or not it is a hit. */
  lemma CachedHashIsHash(h: Hasher, g: nat, w: History, calls: seq<Call>, states: seq<Entries>, results: seq<Option<Hashed>>, n: nat)
    requires g > 0 && Honest(g, w)
    requires IsRun(h, calls, states, results) && InTurn(calls) && n < |calls|
    requires forall i :: 0 <= i < |calls| ==> Observes(h, w, calls[i]) && QuickInPlace(g, w, calls[i])
    requires Observes(h, w, calls[n]) && Quiet(w, calls[n].seen.key, calls[n].start, calls[n].done)
    ensures Fresh(h, At(w, calls[n].seen.key, calls[n].start)) ==
            if results[n].Some? then Some(results[n].value.digest) else None
  {
    hide Revealing, Fresh, Outcome, Honest, StatPass, At, InPlace;
    var c := calls[n];
    forall i | 0 <= i < |calls| ensures Revealing(w, calls[i]) {
      QuickIsRevealing(g, w, calls[i]);
    }
    assert Quiet(w, c.seen.key, c.start, c.mid) && Quiet(w, c.seen.key, c.mid, c.done);
    if results[n].Some? && results[n].value.fromCache {
      EveryHitIsFresh(h, w, calls, states, results, n);
    } else {
      MissComputes(h, states[n], c.seen, states[n + 1], results[n]);
      assert c.seen.computed == Fresh(h, At(w, c.seen.key, c.mid));
    }
  }
}
