/** Reading a stored manifest back: which bytes are accepted, and as what. */
module Manifests {
  import opened Outcomes
  import opened Unicode
  import opened Json
  import opened Digests
  import opened Paths

  /** How json.loads decodes bytes that are not plain ASCII (byte-order marks, UTF-8,
      UTF-16, UTF-32): any function will do, for every result below. */
  type Decoder = Bytes -> Option<Text>

  predicate PlainAscii(raw: Bytes) {
    forall i :: 0 <= i < |raw| ==> 1 <= raw[i] < 128
  }

  /** json.loads on bytes. */
  function LoadsBytes(foreign: Decoder, raw: Bytes): Document {
    if PlainAscii(raw) then Loads(raw)
    else match foreign(raw)
      case None => Malformed
      case Some(text) => Loads(text)
  }

  predicate SafeFile(f: FileDigest) {
    SafePath(f.path) && IsSha256(f.sha256)
  }

  function TotalSize(files: seq<FileDigest>): nat {
    if files == [] then 0 else TotalSize(files[..|files| - 1]) + files[|files| - 1].size
  }

  /** No listed file is also a directory above another listed file. */
  predicate NoFileAbove(files: seq<FileDigest>) {
    forall i, j :: 0 <= i < |files| && 0 <= j < |files| ==>
      !(Split(files[i].path) < Split(files[j].path))
  }

  /** The file lists a manifest may hold. */
  ghost predicate Listable(files: seq<FileDigest>, maxFiles: int, maxTotal: int) {
    && 0 < |files| <= maxFiles
    && Readable(files, maxTotal)
    && NoFileAbove(files)
  }

  lemma {:induction false} TotalSizePrefix(files: seq<FileDigest>, k: nat)
    requires k <= |files|
    ensures TotalSize(files[..k]) <= TotalSize(files)
  {
    if k == |files| {
      assert files[..k] == files;
    } else {
      var init := files[..|files| - 1];
      TotalSizePrefix(init, k);
      assert init[..k] == files[..k];
    }
  }

  /** _parse_entry: accepts exactly what a safe file prints as. */
  method ParseEntry(item: Value) returns (r: Option<FileDigest>)
    ensures r.Some? ==> item == EntryValue(r.value) && SafeFile(r.value)
    ensures r.None? ==> forall f :: SafeFile(f) ==> item != EntryValue(f)
  {
    KeysDistinct();
    if !item.Obj? || item.members.Keys != {PATH, SHA256, SIZE} {
      assert forall f :: EntryValue(f).Obj? && EntryValue(f).members.Keys == {PATH, SHA256, SIZE};
      return None;
    }
    var path, sha, size := item.members[PATH], item.members[SHA256], item.members[SIZE];
    EntryFields();
    if !path.Str? || !sha.Str? {
      return None;
    }
    if !size.Int? || size.n < 0 {
      return None;
    }
    var safe := CheckRelativePath(path.s);
    if !safe || !IsSha256(sha.s) {
      return None;
    }
    var f := FileDigest(path.s, sha.s, size.n);
    assert item.members == EntryValue(f).members;
    return Some(f);
  }

  lemma EntryFields()
    ensures forall f :: var m := EntryValue(f).members;
      m.Keys == {PATH, SHA256, SIZE}
      && m[PATH] == Str(f.path) && m[SHA256] == Str(f.sha256) && m[SIZE] == Int(f.size)
  {
    KeysDistinct();
  }

  predicate Lists(files: seq<FileDigest>, path: Text) {
    exists k :: 0 <= k < |files| && files[k].path == path
  }

  /** Safe files with distinct paths, within the size limit. */
  ghost predicate Readable(files: seq<FileDigest>, maxTotal: int) {
    && (forall i :: 0 <= i < |files| ==> SafeFile(files[i]))
    && DistinctPaths(files)
    && TotalSize(files) <= maxTotal
  }

  lemma ReadableAppend(files: seq<FileDigest>, f: FileDigest, maxTotal: int)
    requires files == [] || Readable(files, maxTotal)
    requires SafeFile(f) && !Lists(files, f.path) && TotalSize(files) + f.size <= maxTotal
    ensures Readable(files + [f], maxTotal)
    ensures TotalSize(files + [f]) == TotalSize(files) + f.size
  {
    assert (files + [f])[..|files|] == files;
  }

  lemma ListsAppend(files: seq<FileDigest>, f: FileDigest)
    ensures forall p :: Lists(files + [f], p) <==> p == f.path || Lists(files, p)
  {
    var more := files + [f];
    forall p ensures Lists(more, p) <==> p == f.path || Lists(files, p) {
      assert more[|files|] == f;
      if Lists(files, p) {
        var k :| 0 <= k < |files| && files[k].path == p;
        assert more[k].path == p;
      }
    }
  }

  /** The loop of _parse_manifest over the entries. */
  method ReadEntries(items: seq<Value>, maxTotal: int) returns (r: Option<seq<FileDigest>>)
    requires items != []
    ensures r.Some? ==> items == EntryValues(r.value) && Readable(r.value, maxTotal)
    ensures r.None? ==> forall files :: Readable(files, maxTotal) ==> items != EntryValues(files)
  {
    hide SafeFile, EntryValue, TotalSize, DistinctPaths, Lists, Readable;
    var files: seq<FileDigest> := [];
    var seen: set<Text> := {};
    var total := 0;
    TotalOfNone();
    for i := 0 to |items|
      invariant |files| == i
      invariant forall k :: 0 <= k < i ==> items[k] == EntryValue(files[k])
      invariant forall p :: p in seen <==> Lists(files, p)
      invariant total == TotalSize(files)
      invariant i > 0 ==> Readable(files, maxTotal)
    {
      var entry := ParseEntry(items[i]);
      if entry.None? {
        RejectUnsafe(items, i);
        return None;
      }
      if entry.value.path in seen {
        RejectDuplicate(files + [entry.value], i, items);
        return None;
      }
      ListsAppend(files, entry.value);
      seen := seen + {entry.value.path};
      total := total + entry.value.size;
      if total > maxTotal {
        RejectTotal(files + [entry.value], items, maxTotal);
        return None;
      }
      ReadableAppend(files, entry.value, maxTotal);
      files := files + [entry.value];
    }
    assert items == EntryValues(files);
    return Some(files);
  }

  lemma TotalOfNone()
    ensures TotalSize([]) == 0
    ensures forall p :: !Lists([], p)
  {
  }

  lemma RejectUnsafe(items: seq<Value>, i: nat)
    requires i < |items| && forall f :: SafeFile(f) ==> items[i] != EntryValue(f)
    ensures forall files, maxTotal :: Readable(files, maxTotal) ==> items != EntryValues(files)
  {
    hide SafeFile, EntryValue, DistinctPaths, TotalSize;
    forall files, maxTotal | Readable(files, maxTotal) ensures items != EntryValues(files) {
      if |files| == |items| {
        assert SafeFile(files[i]);
        assert EntryValues(files)[i] == EntryValue(files[i]);
      }
    }
  }

  /** The loop of _parse_manifest over the paths seen: a path must not be both a file
      and a directory. */
  method CheckNoFileAbove(files: seq<FileDigest>) returns (ok: bool)
    ensures ok <==> NoFileAbove(files)
  {
    hide Split, StartsWith;
    var seen := set f | f in files :: f.path;
    var pending := seen;
    while pending != {}
      invariant pending <= seen
      invariant forall p, q :: p in seen && p !in pending && q in seen ==> !StartsWith(q, p + [SLASH])
      decreases pending
    {
      var path :| path in pending;
      pending := pending - {path};
      if other :| other in seen && StartsWith(other, path + [SLASH]) {
        PrefixBySegments(path, other);
        var f :| f in files && f.path == path;
        var g :| g in files && g.path == other;
        return false;
      }
    }
    forall i, j | 0 <= i < |files| && 0 <= j < |files|
      ensures !(Split(files[i].path) < Split(files[j].path))
    {
      var p, q := files[i].path, files[j].path;
      assert files[i] in files && files[j] in files;
      assert p in seen && q in seen;
      assert !StartsWith(q, p + [SLASH]);
      PrefixBySegments(files[i].path, files[j].path);
    }
    return true;
  }

  /** _parse_manifest: succeeds with a list exactly when the bytes read as the manifest
      of that list and the list is one a manifest may hold. */
  method ParseManifest(foreign: Decoder, raw: Bytes, maxFiles: int, maxTotal: int)
    returns (r: Option<seq<FileDigest>>)
    ensures r.Some? ==> LoadsBytes(foreign, raw) == Parsed(ManifestValue(r.value))
                        && Listable(r.value, maxFiles, maxTotal)
    ensures r.None? ==> forall files :: Listable(files, maxFiles, maxTotal) ==>
      LoadsBytes(foreign, raw) != Parsed(ManifestValue(files))
  {
    hide LoadsBytes, SafeFile, EntryValue, ManifestValue, NoFileAbove, TotalSize;
    ManifestFields();
    var doc := LoadsBytes(foreign, raw);
    if doc.Malformed? {
      return None;
    }
    if !doc.value.Obj? || doc.value.members.Keys != {ALGORITHM, FILES}
       || doc.value.members[ALGORITHM] != Str(SHA256) {
      return None;
    }
    var entries := doc.value.members[FILES];
    if !entries.Arr? || entries.items == [] {
      return None;
    }
    if |entries.items| > maxFiles {
      return None;
    }
    var files := ReadEntries(entries.items, maxTotal);
    if files.None? {
      return None;
    }
    EntriesDetermine(files.value);
    var ok := CheckNoFileAbove(files.value);
    if !ok {
      return None;
    }
    assert doc.value.members == ManifestValue(files.value).members;
    return files;
  }

  lemma EntriesDetermine(files: seq<FileDigest>)
    ensures forall other: seq<FileDigest> :: EntryValues(other) == EntryValues(files) ==> other == files
  {
    forall other: seq<FileDigest> | EntryValues(other) == EntryValues(files) ensures other == files {
      assert |other| == |EntryValues(other)| == |files|;
      forall i | 0 <= i < |files| ensures other[i] == files[i] {
        assert EntryValue(other[i]) == EntryValues(other)[i];
        EntryInjective(other[i], files[i]);
      }
    }
  }

  lemma ManifestFields()
    ensures forall files :: ManifestValue(files).Obj?
    ensures forall files :: var m := ManifestValue(files).members;
      m.Keys == {ALGORITHM, FILES} && m[ALGORITHM] == Str(SHA256) && m[FILES] == Arr(EntryValues(files))
  {
    KeysDistinct();
  }

  /** A list whose entries start with these items starts with these files. */
  lemma SamePrefix(files: seq<FileDigest>, items: seq<Value>, other: seq<FileDigest>)
    requires |files| <= |items|
    requires forall k :: 0 <= k < |files| ==> items[k] == EntryValue(files[k])
    requires items == EntryValues(other)
    ensures |other| == |items| && files == other[..|files|]
  {
    forall k | 0 <= k < |files| ensures files[k] == other[k] {
      EntryInjective(files[k], other[k]);
    }
  }

  lemma RejectDuplicate(files: seq<FileDigest>, i: nat, items: seq<Value>)
    requires |files| == i + 1 <= |items|
    requires forall k :: 0 <= k < |files| ==> items[k] == EntryValue(files[k])
    requires Lists(files[..i], files[i].path)
    ensures forall other, maxTotal :: Readable(other, maxTotal) ==> items != EntryValues(other)
  {
    hide SafeFile, EntryValue, TotalSize;
    forall other: seq<FileDigest>, maxTotal | items == EntryValues(other)
      ensures !Readable(other, maxTotal)
    {
      SamePrefix(files, items, other);
      var k :| 0 <= k < i && files[..i][k].path == files[i].path;
      assert other[k] == files[k] && other[i] == files[i];
    }
  }

  lemma RejectTotal(files: seq<FileDigest>, items: seq<Value>, maxTotal: int)
    requires files != [] && |files| <= |items|
    requires TotalSize(files[..|files| - 1]) + files[|files| - 1].size > maxTotal
    requires forall k :: 0 <= k < |files| ==> items[k] == EntryValue(files[k])
    ensures forall other :: Readable(other, maxTotal) ==> items != EntryValues(other)
  {
    hide SafeFile, EntryValue;
    forall other: seq<FileDigest> | items == EntryValues(other) ensures !Readable(other, maxTotal) {
      SamePrefix(files, items, other);
      TotalSizePrefix(other, |files|);
    }
  }
}
