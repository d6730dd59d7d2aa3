/** One cache file shared by any number of callers: loads, reloads and replacements of the file
    interleave freely, and the last writer wins. */
module SharedCache {
  import opened Outcomes
  import opened Unicode
  import opened Digests
  import opened Artifacts
  import opened Cache
  import opened CacheTheorems

  /** The cache file, and what each caller has read of it so far: for its lookup, and again
      for its store. */
  datatype Shared = Shared(file: Entries, loaded: map<nat, Entries>, reloaded: map<nat, Entries>)

  /** One access to the file by a call, at a moment of the history; the file may also lose
      entries at any time. */
  datatype Access =
    | Load(call: nat, at: nat)
    | Reload(call: nat, at: nat)
    | Replace(call: nat, kept: Entries, at: nat)
    | Lose(kept: Entries, at: nat)

  ghost predicate IsSubmap(a: Entries, b: Entries) {
    forall k :: k in a ==> k in b && a[k] == b[k]
  }

  /** A call loads after its first stat pass, and reloads and replaces after reading the
      clock, if its observations allow storing. A replacement keeps what was reloaded, not
      what the file holds by then. */
  ghost predicate Happens(calls: seq<Call>, s: Shared, a: Access, s': Shared) {
    match a
    case Load(c, at) =>
      && c < |calls| && calls[c].mid <= at
      && s' == s.(loaded := s.loaded[c := if calls[c].seen.readable then s.file else map[]])
    case Reload(c, at) =>
      && c < |calls| && calls[c].end <= at
      && s' == s.(reloaded := s.reloaded[c := if calls[c].seen.readableAgain then s.file else map[]])
    case Replace(c, kept, at) =>
      && c < |calls| && calls[c].end <= at && c in s.reloaded && Storable(calls[c].seen)
      && Evicted(s.reloaded[c][calls[c].seen.key := Recorded(calls[c].seen)], kept)
      && s' == s.(file := kept)
    case Lose(kept, _) => IsSubmap(kept, s.file) && s' == s.(file := kept)
  }

  /** A run of accesses in the order of their moments, from no cache file. */
  ghost predicate IsSharedRun(calls: seq<Call>, accesses: seq<Access>, states: seq<Shared>) {
    && |states| == |accesses| + 1 && states[0] == Shared(map[], map[], map[])
    && (forall i :: 0 <= i < |accesses| ==> Happens(calls, states[i], accesses[i], states[i + 1]))
    && (forall i, j :: 0 <= i < j < |accesses| ==> accesses[i].at <= accesses[j].at)
  }

  /** One of the first n accesses stored the entry. */
  ghost predicate StoredBefore(calls: seq<Call>, accesses: seq<Access>, n: nat, key: Text, entry: Entry)
    requires n <= |accesses|
  {
    exists m :: 0 <= m < n && StoredAt(calls, accesses, m, key, entry)
  }

  ghost predicate StoredAt(calls: seq<Call>, accesses: seq<Access>, m: nat, key: Text, entry: Entry)
    requires m < |accesses|
  {
    && accesses[m].Replace? && accesses[m].call < |calls|
    && calls[accesses[m].call].end <= accesses[m].at
    && Storable(calls[accesses[m].call].seen)
    && calls[accesses[m].call].seen.key == key && entry == Recorded(calls[accesses[m].call].seen)
  }

  ghost predicate AllStored(calls: seq<Call>, accesses: seq<Access>, n: nat, entries: Entries)
    requires n <= |accesses|
  {
    forall k :: k in entries ==> StoredBefore(calls, accesses, n, k, entries[k])
  }

  ghost predicate AllAccounted(calls: seq<Call>, accesses: seq<Access>, n: nat, s: Shared)
    requires n <= |accesses|
  {
    && AllStored(calls, accesses, n, s.file)
    && (forall c :: c in s.loaded ==> AllStored(calls, accesses, n, s.loaded[c]))
    && (forall c :: c in s.reloaded ==> AllStored(calls, accesses, n, s.reloaded[c]))
  }

  lemma StoredStays(calls: seq<Call>, accesses: seq<Access>, n: nat, entries: Entries)
    requires n < |accesses| && AllStored(calls, accesses, n, entries)
    ensures AllStored(calls, accesses, n + 1, entries)
  {
    hide StoredAt;
    forall k | k in entries ensures StoredBefore(calls, accesses, n + 1, k, entries[k]) {
      var m :| 0 <= m < n && StoredAt(calls, accesses, m, k, entries[k]);
    }
  }

  /** Whatever interleaves and whoever overwrites whom, everything in the file, and everything
      any caller has read of it, was stored by an earlier access. */
  lemma {:induction false} AllIsAccounted(calls: seq<Call>, accesses: seq<Access>, states: seq<Shared>, n: nat)
    requires IsSharedRun(calls, accesses, states) && n <= |accesses|
    ensures AllAccounted(calls, accesses, n, states[n])
    decreases n
  {
    hide StoredBefore, Storable, Recorded;
    if n > 0 {
      var s := states[n - 1];
      AllIsAccounted(calls, accesses, states, n - 1);
      assert Happens(calls, s, accesses[n - 1], states[n]);
      StoredStays(calls, accesses, n - 1, s.file);
      forall c | c in s.loaded ensures AllStored(calls, accesses, n, s.loaded[c]) {
        StoredStays(calls, accesses, n - 1, s.loaded[c]);
      }
      forall c | c in s.reloaded ensures AllStored(calls, accesses, n, s.reloaded[c]) {
        StoredStays(calls, accesses, n - 1, s.reloaded[c]);
      }
      AccessAccounts(calls, accesses, n, s, states[n]);
    }
  }

  lemma AccessAccounts(calls: seq<Call>, accesses: seq<Access>, n: nat, s: Shared, s': Shared)
    requires 0 < n <= |accesses| && AllAccounted(calls, accesses, n, s) && Happens(calls, s, accesses[n - 1], s')
    ensures AllAccounted(calls, accesses, n, s')
  {
    hide Storable, Recorded, StoredBefore;
    match accesses[n - 1]
    case Load(_, _) =>
    case Reload(_, _) =>
    case Replace(c, kept, _) =>
      var key, entry := calls[c].seen.key, Recorded(calls[c].seen);
      StoredByLast(calls, accesses, n, key, entry);
      forall k | k in kept ensures StoredBefore(calls, accesses, n, k, kept[k]) {
        if k != key { assert k in s.reloaded[c] && kept[k] == s.reloaded[c][k]; }
      }
    case Lose(_, _) =>
  }

  lemma StoredByLast(calls: seq<Call>, accesses: seq<Access>, n: nat, key: Text, entry: Entry)
    requires 0 < n <= |accesses| && StoredAt(calls, accesses, n - 1, key, entry)
    ensures StoredBefore(calls, accesses, n, key, entry)
  {
  }

  /** Nobody writes to the artifact during the recording's second stat pass, and it is still
      of the kind that was hashed. */
  ghost predicate EndsQuiet(w: History, rec: Call)
    requires rec.done <= rec.end < |w|
  {
    && Quiet(w, rec.seen.key, rec.done, rec.end)
    && (rec.seen.computed.Some? && At(w, rec.seen.key, rec.done).Some? ==>
          At(w, rec.seen.key, rec.done).value.kind == rec.seen.computed.value.kind)
  }

  /** A lookup nobody made, right after the recording hashed the files. */
  function Echo(h: Hasher, w: History, rec: Call): Call
    requires rec.done < |w|
  {
    var a := At(w, rec.seen.key, rec.done);
    Call(rec.seen.(before := rec.seen.after, computed := Fresh(h, a), clock := w[rec.done].now), rec.done, rec.done, rec.done, rec.done)
  }

  lemma EchoObserves(h: Hasher, w: History, rec: Call)
    requires Observes(h, w, rec) && rec.done <= rec.end < |w| && EndsQuiet(w, rec)
    ensures Observes(h, w, Echo(h, w, rec)) && Quiet(w, rec.seen.key, rec.done, rec.done)
    ensures rec.seen.after == Capture(At(w, rec.seen.key, rec.done))
  {
    hide Capture, FileAt, HashedRight, Fresh;
    var key, d := rec.seen.key, rec.done;
    CaptureLooks(w, key, d);
    FreshHashes(h, w, key, d);
  }

  lemma CaptureLooks(w: History, key: Text, i: nat)
    requires i < |w|
    ensures StatPass(w, key, i, i, Capture(At(w, key, i)))
  {
    var fp := Capture(At(w, key, i));
    if fp.Some? {
      var files := At(w, key, i).value.files;
      forall k | 0 <= k < |fp.value.stats| ensures Looked(w, key, i, i, fp.value.stats[k]) {
        CurrentFile(w, key, i, fp.value.stats[k].relpath);
      }
    }
  }

  lemma FreshHashes(h: Hasher, w: History, key: Text, i: nat)
    requires i < |w|
    ensures HashPass(h, w, key, i, i, Fresh(h, At(w, key, i)))
  {
    hide SortFiles, Listing, ManifestBytes;
    var r := Fresh(h, At(w, key, i));
    if r.Some? {
      var m := ContentsOf(At(w, key, i).value);
      SortFilesFixed(Listing(h, m));
      assert r.value.files == Listing(h, m);
      forall k | 0 <= k < |r.value.files| ensures HashedRight(h, w, key, i, i, r.value.files[k]) {
        CurrentFile(w, key, i, r.value.files[k].path);
      }
    }
  }

  /** A recording whose first stat pass ends after a lookup has started ends quietly. */
  ghost predicate OverlapsQuietly(h: Hasher, w: History, rec: Call, start: nat)
    requires Observes(h, w, rec)
  {
    start < rec.mid ==> EndsQuiet(w, rec)
  }

  /** On one shared cache file, for any number of callers and any interleaving, a hit returns
      the digest that a full hash of the artifact would have returned at some moment of the
      call that makes it. */
  lemma SharedHitIsFresh(h: Hasher, w: History, calls: seq<Call>, accesses: seq<Access>, states: seq<Shared>, n: nat)
    requires IsSharedRun(calls, accesses, states) && n < |accesses| && accesses[n].Load?
    requires accesses[n].call < |calls| && accesses[n].at < |w|
    requires forall i :: 0 <= i < |calls| ==> Observes(h, w, calls[i]) && Revealing(w, calls[i])
    requires forall i :: 0 <= i < |calls| ==> OverlapsQuietly(h, w, calls[i], calls[accesses[n].call].start)
    requires var look := calls[accesses[n].call]; Observes(h, w, look) && Quiet(w, look.seen.key, look.start, look.mid)
    requires Hit(h, states[n + 1].loaded[accesses[n].call], calls[accesses[n].call].seen).Some?
    ensures var look := calls[accesses[n].call];
      exists t: nat :: look.start <= t <= accesses[n].at &&
        Hit(h, states[n + 1].loaded[accesses[n].call], look.seen) == Fresh(h, At(w, look.seen.key, t))
  {
    hide Hit, Storable, Recorded, Observes, Revealing, Quiet, Fresh, At, Evicted, EndsQuiet, StoredAt, AllStored;
    var look := calls[accesses[n].call];
    var entries := states[n + 1].loaded[accesses[n].call];
    assert Happens(calls, states[n], accesses[n], states[n + 1]);
    HitHasEntry(h, entries, look.seen);
    AllIsAccounted(calls, accesses, states, n + 1);
    var m := StoredWhen(calls, accesses, n, entries, look.seen.key);
    var rec := calls[accesses[m].call];
    RecordedWhen(calls, accesses, m, look.seen.key, entries[look.seen.key]);
    assert accesses[m].at <= accesses[n].at;
    Spans(h, w, rec);
    Spans(h, w, look);
    if rec.mid <= look.start {
      HitIsFresh(h, w, rec, entries, look);
      assert look.start <= accesses[n].at;
    } else {
      EchoHits(h, w, rec, entries, look);
      assert look.start <= rec.done <= accesses[n].at;
    }
  }

  lemma StoredWhen(calls: seq<Call>, accesses: seq<Access>, n: nat, entries: Entries, key: Text) returns (m: nat)
    requires n < |accesses| && accesses[n].Load? && AllStored(calls, accesses, n + 1, entries) && key in entries
    ensures m < n && StoredAt(calls, accesses, m, key, entries[key])
  {
    m :| 0 <= m < n + 1 && StoredAt(calls, accesses, m, key, entries[key]);
  }

  lemma RecordedWhen(calls: seq<Call>, accesses: seq<Access>, m: nat, key: Text, entry: Entry)
    requires m < |accesses| && StoredAt(calls, accesses, m, key, entry)
    ensures accesses[m].Replace? && accesses[m].call < |calls|
    ensures var rec := calls[accesses[m].call];
      rec.end <= accesses[m].at && Storable(rec.seen) && rec.seen.key == key && entry == Recorded(rec.seen)
  {
    hide Storable, Recorded;
  }

  /** A hit on a recording that overlaps it is the hit its echo would be. */
  lemma EchoHits(h: Hasher, w: History, rec: Call, entries: Entries, look: Call)
    requires Observes(h, w, rec) && Storable(rec.seen) && Revealing(w, rec)
    requires rec.mid <= rec.done <= rec.end < |w| && EndsQuiet(w, rec)
    requires look.seen.key == rec.seen.key && rec.seen.key in entries && entries[rec.seen.key] == Recorded(rec.seen)
    requires Hit(h, entries, look.seen).Some?
    ensures Hit(h, entries, look.seen) == Fresh(h, At(w, rec.seen.key, rec.done))
  {
    hide Observes, Revealing, Fresh, Quiet, DigestFromFiles, Capture;
    var echo := Echo(h, w, rec);
    EchoObserves(h, w, rec);
    CaptureKind(At(w, rec.seen.key, rec.done));
    assert Hit(h, entries, echo.seen) == Hit(h, entries, look.seen);
    HitIsFresh(h, w, rec, entries, echo);
  }

  lemma CaptureKind(a: Option<Artifact>)
    ensures Capture(a).Some? ==> a.Some? && Capture(a).value.kind == a.value.kind
  {
  }
}
