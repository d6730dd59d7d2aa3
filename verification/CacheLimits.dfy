/** How far the cache's guarantee reaches: the margin is exactly large enough, a move of a
    directory while it is hashed is outside it, and which histories are honest. */
module CacheLimits {
  import opened Outcomes
  import opened Unicode
  import opened Digests
  import opened Artifacts
  import opened Cache
  import opened CacheTheorems

  /* -- the margin is exact --------------------------------------------------------------------------- */

  /** A recording of at most the given duration, and a later undisturbed hit on its entry. */
  ghost predicate HitAfter(h: Hasher, d: nat, g: nat, w: History, rec: Call, look: Call) {
    && g > 0 && Honest(g, w)
    && Observes(h, w, rec) && Storable(rec.seen) && Duration(w, rec) <= d
    && Observes(h, w, look) && look.seen.key == rec.seen.key && rec.end <= look.start
    && Quiet(w, look.seen.key, look.start, look.mid)
    && Hit(h, map[rec.seen.key := Recorded(rec.seen)], look.seen).Some?
  }

  /** The same, no directory being moved into the artifact during the recording. */
  ghost predicate Situation(h: Hasher, d: nat, g: nat, w: History, rec: Call, look: Call) {
    HitAfter(h, d, g, w, rec, look) && InPlace(g, w, rec.seen.key, rec.start, rec.end)
  }

  /** No such hit is ever stale. */
  ghost predicate SoundWithin(h: Hasher, d: nat, g: nat) {
    forall w: History, rec: Call, look: Call :: Situation(h, d, g, w, rec, look) ==> HitsFresh(h, w, rec, look)
  }

  /** The hit returns what a full hash would at that moment. */
  predicate HitsFresh(h: Hasher, w: History, rec: Call, look: Call) {
    && Storable(rec.seen) && look.start < |w|
    && Hit(h, map[rec.seen.key := Recorded(rec.seen)], look.seen) == Fresh(h, At(w, look.seen.key, look.start))
  }

  /** With recordings of up to d nanoseconds and timestamps in units of g, hits are sound
      exactly when d and g together are within the margin: the margin is compared with the
      clock read after hashing, so time spent hashing counts against it. */
  lemma MarginIsExact(h: Hasher, d: nat, g: nat)
    requires g > 0 && h([0]) != h([1])
    ensures SoundWithin(h, d, g) <==> d + g <= RACY_MARGIN_NS
  {
    hide Hit, Fresh, Honest, Observes, Storable, Recorded, Quiet, InPlace;
    if d + g <= RACY_MARGIN_NS {
      forall w: History, rec: Call, look: Call | Situation(h, d, g, w, rec, look)
        ensures HitsFresh(h, w, rec, look)
      {
        Spans(h, w, rec);
        Spans(h, w, look);
        QuickIsRevealing(g, w, rec);
        HitIsFresh(h, w, rec, map[rec.seen.key := Recorded(rec.seen)], look);
      }
    } else {
      StaleHit(h, d, g);
    }
  }

  /* -- a stale hit when the margin is too small -- */

  const KEY: Text := Ascii("/model")
  const NAME: Text := Ascii("model")

  /** One file with one byte, written in the very first tick. */
  function OneByte(b: Byte): Artifact {
    Artifact(SingleFile, map[NAME := FileState([b], 0, 0, 1, 1)])
  }

  const FIRST := Node(1, 1)
  const SECOND := Node(2, 1)

  function OnePath(n: Node): Layout {
    Layout(SingleFile, map[NAME := n])
  }

  /** The byte changes in the last nanosecond of the first tick; then d nanoseconds pass. */
  function LateInTheTick(d: nat, g: nat): History
    requires g > 0
  {
    var before, after := map[FIRST := Inode([0], 0, 0)], map[FIRST := Inode([1], 0, 0)];
    var layouts := map[KEY := OnePath(FIRST)];
    [World(g - 1, before, layouts), World(g - 1, after, layouts), World(g - 1 + d, after, layouts)]
  }

  function OneEntry(h: Hasher, b: Byte): ArtifactDigest {
    ArtifactDigest(SingleFile, h([b]), [FileDigest(NAME, h([b]), 1)])
  }

  const ONE_STAT := Fingerprint(SingleFile, [Stat(NAME, 1, 0, 0, 1, 1)])

  lemma ShowsOneByte(w: History, i: nat, b: Byte)
    requires i < |w| && KEY in w[i].layouts && w[i].layouts[KEY] == OnePath(FIRST)
    requires FIRST in w[i].nodes && w[i].nodes[FIRST] == Inode([b], 0, 0)
    ensures At(w, KEY, i) == Some(OneByte(b)) && FileAt(w, KEY, NAME, i) == Some(FileState([b], 0, 0, 1, 1))
  {
    hide KEY, NAME;
    assert At(w, KEY, i).value.files == OneByte(b).files;
  }

  lemma OneByteSeen(h: Hasher, b: Byte)
    ensures Fresh(h, Some(OneByte(b))) == Some(OneEntry(h, b))
    ensures Capture(Some(OneByte(b))) == Some(ONE_STAT)
  {
    hide Below;
    var a := OneByte(b);
    var m := ContentsOf(a);
    assert m == map[NAME := [b]];
    var listing := Listing(h, m);
    assert listing == [FileDigest(NAME, h([b]), 1)] by {
      assert FileEntry(h, NAME, m[NAME]) in listing;
    }
    var paths := SortedPaths(a.files);
    assert NAME in paths;
    assert paths == [NAME] by {
      forall i | 0 <= i < |paths| ensures paths[i] == NAME { assert paths[i] in a.files; }
      OneOnly(paths);
    }
    assert StatsOf(a.files) == [Stat(NAME, 1, 0, 0, 1, 1)];
  }

  lemma OneOnly(paths: seq<Text>)
    requires StrictlySorted(paths) && NAME in paths && forall i :: 0 <= i < |paths| ==> paths[i] == NAME
    ensures paths == [NAME]
  {
    if |paths| > 1 {
      assert Below(paths[0], paths[1]);
      BelowTotal(paths[0], paths[1]);
    }
  }

  function RecordingCall(h: Hasher, d: nat, g: nat): Call
    requires g > 0
  {
    Call(Seen(KEY, Some(ONE_STAT), Some(OneEntry(h, 0)), Some(ONE_STAT), g - 1 + d, g - 1 + d, true, true, true), 0, 0, 0, 2)
  }

  function LookupCall(h: Hasher, d: nat, g: nat): Call
    requires g > 0
  {
    Call(Seen(KEY, Some(ONE_STAT), Some(OneEntry(h, 1)), Some(ONE_STAT), g - 1 + d, g - 1 + d, true, true, true), 2, 2, 2, 2)
  }

  /** The file is hashed before the change, the clock is read after d nanoseconds, and the
      stat is the same throughout. */
  lemma StaleHit(h: Hasher, d: nat, g: nat)
    requires g > 0 && h([0]) != h([1]) && d + g > RACY_MARGIN_NS
    ensures !SoundWithin(h, d, g)
  {
    hide Honest, Observes, Fresh, OneByte, Capture, Quiet, LateInTheTick, KEY, NAME, InPlace, At;
    var w, rec, look := LateInTheTick(d, g), RecordingCall(h, d, g), LookupCall(h, d, g);
    LateIsHonest(d, g);
    CallsObserve(h, d, g);
    OneByteSeen(h, 1);
    assert Situation(h, d, g, w, rec, look);
    assert Hit(h, map[rec.seen.key := Recorded(rec.seen)], look.seen) == Some(OneEntry(h, 0));
    assert Fresh(h, At(w, look.seen.key, look.start)) == Some(OneEntry(h, 1));
  }

  lemma LateIsHonest(d: nat, g: nat)
    requires g > 0
    ensures Honest(g, LateInTheTick(d, g)) && InPlace(g, LateInTheTick(d, g), KEY, 0, 2)
  {
    hide KEY, NAME;
    var w := LateInTheTick(d, g);
    assert Tick(g, g - 1) == 0;
    forall i, n: Node | 0 < i < |w| && NodeChanged(w, n, i)
      ensures NodeAt(w, n, i).value.ctime == Tick(g, w[i].now)
    {
      assert i == 1;
    }
    forall i, path: Text | 0 < i <= 2 && Changed(w, KEY, path, i)
      ensures FileAt(w, KEY, path, i).value.ctime == Tick(g, w[i].now)
    {
      assert i == 1;
    }
  }

  lemma CallsObserve(h: Hasher, d: nat, g: nat)
    requires g > 0
    ensures var w := LateInTheTick(d, g);
            && |w| == 3 && At(w, KEY, 2) == Some(OneByte(1)) && Quiet(w, KEY, 2, 2)
            && Duration(w, RecordingCall(h, d, g)) == d
            && Observes(h, w, RecordingCall(h, d, g)) && Observes(h, w, LookupCall(h, d, g))
  {
    hide Fresh, Capture, NAME, KEY, At, FileAt;
    var w := LateInTheTick(d, g);
    OneByteSeen(h, 0);
    OneByteSeen(h, 1);
    ShowsOneByte(w, 0, 0);
    ShowsOneByte(w, 1, 1);
    ShowsOneByte(w, 2, 1);
    var s := ONE_STAT.stats[0];
    assert Looked(w, KEY, 0, 0, s);
    assert Looked(w, KEY, 0, 2, s);
    assert Looked(w, KEY, 2, 2, s);
    assert OneByte(0).files[NAME].content[0] != OneByte(1).files[NAME].content[0];
    assert At(w, KEY, 0) != At(w, KEY, 1);
    assert HashedRight(h, w, KEY, 0, 0, OneEntry(h, 0).files[0]);
    assert HashedRight(h, w, KEY, 2, 2, OneEntry(h, 1).files[0]);
  }

  /* -- a directory moved away and back while it is hashed -- */

  /** Two old files; the directory that holds the first is swapped with the other one's while
      the artifact is hashed, and swapped back. No file is written, and no time passes. */
  function SwappedAndBack(): History {
    var nodes := map[FIRST := Inode([0], 0, 0), SECOND := Inode([1], 0, 0)];
    [World(RACY_MARGIN_NS, nodes, map[KEY := OnePath(FIRST)]),
     World(RACY_MARGIN_NS, nodes, map[KEY := OnePath(SECOND)]),
     World(RACY_MARGIN_NS, nodes, map[KEY := OnePath(FIRST)])]
  }

  function SwapRecording(h: Hasher): Call {
    Call(Seen(KEY, Some(ONE_STAT), Some(OneEntry(h, 1)), Some(ONE_STAT), RACY_MARGIN_NS, RACY_MARGIN_NS, true, true, true), 0, 0, 1, 2)
  }

  function SwapLookup(h: Hasher): Call {
    Call(Seen(KEY, Some(ONE_STAT), Some(OneEntry(h, 0)), Some(ONE_STAT), RACY_MARGIN_NS, RACY_MARGIN_NS, true, true, true), 2, 2, 2, 2)
  }

  /** The condition is needed: a swap of directories and back while hashing goes unseen by
      both stat passes, however fast the hashing and however fine the timestamps, and a later
      hit is stale. */
  lemma SwapGoesUnseen(h: Hasher, d: nat, g: nat)
    requires g > 0 && h([0]) != h([1])
    ensures HitAfter(h, d, g, SwappedAndBack(), SwapRecording(h), SwapLookup(h))
    ensures !HitsFresh(h, SwappedAndBack(), SwapRecording(h), SwapLookup(h))
    ensures !InPlace(1, SwappedAndBack(), KEY, 0, 2)
  {
    hide Fresh, Capture, NAME, KEY, At, FileAt;
    var w, rec, look := SwappedAndBack(), SwapRecording(h), SwapLookup(h);
    OneByteSeen(h, 0);
    ShowsOneByte(w, 0, 0);
    ShowsOneByte(w, 2, 0);
    ShowsOther(w);
    var s := ONE_STAT.stats[0];
    assert Looked(w, KEY, 0, 0, s);
    assert Looked(w, KEY, 1, 2, s);
    assert Looked(w, KEY, 2, 2, s);
    assert HashedRight(h, w, KEY, 2, 2, OneEntry(h, 0).files[0]);
    assert At(w, KEY, 0) != At(w, KEY, 1) && At(w, KEY, 1) != At(w, KEY, 2);
    assert !Settled(w, KEY, NAME, 0, 1) by { assert FileAt(w, KEY, NAME, 1) != FileAt(w, KEY, NAME, 0); }
    assert HashedRight(h, w, KEY, 0, 1, OneEntry(h, 1).files[0]);
    assert Observes(h, w, rec);
    assert Observes(h, w, look);
    assert Hit(h, map[rec.seen.key := Recorded(rec.seen)], look.seen) == Some(OneEntry(h, 1));
    assert Fresh(h, At(w, look.seen.key, look.start)) == Some(OneEntry(h, 0));
    assert Changed(w, KEY, NAME, 1);
  }

  lemma ShowsOther(w: History)
    requires w == SwappedAndBack()
    ensures At(w, KEY, 1) == Some(Artifact(SingleFile, map[NAME := FileState([1], 0, 0, 2, 1)]))
    ensures FileAt(w, KEY, NAME, 1) == Some(FileState([1], 0, 0, 2, 1))
    ensures At(w, KEY, 1) != Some(OneByte(0))
  {
    hide KEY, NAME;
    assert At(w, KEY, 1).value.files == map[NAME := FileState([1], 0, 0, 2, 1)];
    assert At(w, KEY, 1).value.files[NAME] != OneByte(0).files[NAME];
  }

  /* -- histories made of single actions ---------------------------------------------------------------- */

  /** What can happen to the files: time passes; a file is created or rewritten; its times
      are set; its inode number becomes free; it is renamed to a path; a path is removed; a
      directory is moved into place; an artifact is dropped. */
  datatype Action =
    | Pass(elapsed: nat)
    | Write(node: Node, content: Bytes, mtime: int)
    | Touch(node: Node, mtime: int)
    | Free(node: Node)
    | Place(key: Text, kind: ArtifactKind, path: Text, node: Node)
    | Remove(key: Text, path: Text)
    | Move(key: Text, layout: Layout)
    | Drop(key: Text)

  function Apply(g: nat, w: World, a: Action): World
    requires g > 0
  {
    match a
    case Pass(elapsed) => w.(now := w.now + elapsed)
    case Write(node, content, mtime) => w.(nodes := w.nodes[node := Inode(content, mtime, Tick(g, w.now))])
    case Touch(node, mtime) =>
      if node !in w.nodes then w
      else w.(nodes := w.nodes[node := w.nodes[node].(mtime := mtime, ctime := Tick(g, w.now))])
    case Free(node) => w.(nodes := w.nodes - {node})
    case Place(key, kind, path, node) =>
      if node !in w.nodes then w
      else
        var paths := if key in w.layouts then w.layouts[key].paths else map[];
        w.(nodes := w.nodes[node := w.nodes[node].(ctime := Tick(g, w.now))],
           layouts := w.layouts[key := Layout(kind, paths[path := node])])
    case Remove(key, path) =>
      if key !in w.layouts then w
      else w.(layouts := w.layouts[key := w.layouts[key].(paths := w.layouts[key].paths - {path})])
    case Move(key, layout) => w.(layouts := w.layouts[key := layout])
    case Drop(key) => w.(layouts := w.layouts - {key})
  }

  function HistoryOf(g: nat, start: World, actions: seq<Action>): (r: History)
    requires g > 0
    ensures |r| == |actions| + 1
  {
    if actions == [] then [start]
    else
      var n := |actions| - 1;
      var before := HistoryOf(g, start, actions[..n]);
      before + [Apply(g, before[n], actions[n])]
  }

  lemma {:induction false} HistorySteps(g: nat, start: World, actions: seq<Action>, i: nat)
    requires g > 0 && i < |actions|
    ensures HistoryOf(g, start, actions)[i + 1] == Apply(g, HistoryOf(g, start, actions)[i], actions[i])
  {
    hide Apply;
    var n := |actions| - 1;
    if i < n {
      HistorySteps(g, start, actions[..n], i);
    }
  }

  lemma {:induction false} TimePasses(g: nat, start: World, actions: seq<Action>, i: nat, j: nat)
    requires g > 0 && i <= j <= |actions|
    ensures HistoryOf(g, start, actions)[i].now <= HistoryOf(g, start, actions)[j].now
    decreases j
  {
    if i < j {
      TimePasses(g, start, actions, i, j - 1);
      HistorySteps(g, start, actions, j - 1);
      ActionIsHonest(g, HistoryOf(g, start, actions)[j - 1], actions[j - 1]);
    }
  }

  /** Every sequence of actions gives an honest history, modification times, inode reuse and
      moves being free; and between moves of an artifact everything in it is in place. */
  lemma ActionsAreHonest(g: nat, start: World, actions: seq<Action>, key: Text, lo: nat, hi: nat)
    requires g > 0 && lo <= hi <= |actions|
    ensures Honest(g, HistoryOf(g, start, actions))
    ensures (forall i :: lo <= i < hi && actions[i].Move? ==> actions[i].key != key) ==>
              InPlace(g, HistoryOf(g, start, actions), key, lo, hi)
  {
    hide Tick, NodeAt, FileAt, HistoryOf, Apply;
    var w := HistoryOf(g, start, actions);
    forall i, n: Node | 0 < i < |w| && NodeChanged(w, n, i) ensures NodeAt(w, n, i).value.ctime == Tick(g, w[i].now) {
      HistorySteps(g, start, actions, i - 1);
      ActionIsHonest(g, w[i - 1], actions[i - 1]);
      NodeOfTwo(w, n, i);
    }
    forall i, j | 0 <= i < j < |w| ensures w[i].now <= w[j].now {
      TimePasses(g, start, actions, i, j);
    }
    if forall i :: lo <= i < hi && actions[i].Move? ==> actions[i].key != key {
      forall i, path: Text | lo < i <= hi && Changed(w, key, path, i) ensures FileAt(w, key, path, i).value.ctime == Tick(g, w[i].now) {
        HistorySteps(g, start, actions, i - 1);
        ActionInPlace(g, w[i - 1], actions[i - 1], key, path);
        FileOfTwo(w, key, path, i);
      }
    }
  }

  lemma NodeOfTwo(w: History, n: Node, i: nat)
    requires 0 < i < |w|
    ensures NodeChanged([w[i - 1], w[i]], n, 1) <==> NodeChanged(w, n, i)
    ensures NodeAt([w[i - 1], w[i]], n, 1) == NodeAt(w, n, i)
  {
  }

  lemma FileOfTwo(w: History, key: Text, path: Text, i: nat)
    requires 0 < i < |w|
    ensures Changed([w[i - 1], w[i]], key, path, 1) <==> Changed(w, key, path, i)
    ensures FileAt([w[i - 1], w[i]], key, path, 1) == FileAt(w, key, path, i)
  {
  }

  lemma ActionIsHonest(g: nat, w: World, a: Action)
    requires g > 0
    ensures w.now <= Apply(g, w, a).now
    ensures forall n: Node :: NodeChanged([w, Apply(g, w, a)], n, 1) ==>
              NodeAt([w, Apply(g, w, a)], n, 1).value.ctime == Tick(g, Apply(g, w, a).now)
  {
    hide Tick;
  }

  lemma ActionInPlace(g: nat, w: World, a: Action, key: Text, path: Text)
    requires g > 0 && (a.Move? ==> a.key != key)
    ensures Changed([w, Apply(g, w, a)], key, path, 1) ==>
              FileAt([w, Apply(g, w, a)], key, path, 1).value.ctime == Tick(g, Apply(g, w, a).now)
  {
    hide Tick;
    match a
    case Pass(_) =>
    case Write(_, _, _) =>
    case Touch(_, _) =>
    case Free(_) =>
    case Place(_, _, _, _) =>
    case Remove(_, _) =>
    case Move(_, _) =>
    case Drop(_) =>
  }
}
