/** The hash-chained JSON Lines log, at the level of the text of its file. */
module Chains {
  import opened Outcomes
  import opened Unicode
  import opened Json
  import opened JsonReading
  import opened Digests
  import Utf8

  /** One line as read back; nothing is checked about the types of the four fields. */
  datatype Entry = Entry(index: Value, record: Value, recordHash: Value, prevHash: Value)

  const NEWLINE: CodePoint := 10
  function Zeros(n: nat): (r: Text)
    ensures |r| == n && forall i :: 0 <= i < n ==> r[i] == 48
  {
    if n == 0 then [] else [48] + Zeros(n - 1)
  }

  const GENESIS: Text := Zeros(64)

  const INDEX: Text := Ascii("index")
  const PREV_HASH: Text := Ascii("prev_hash")
  const RECORD: Text := Ascii("record")
  const RECORD_HASH: Text := Ascii("record_hash")

  /* -- lines ------------------------------------------------------------------------ */

  predicate LineBreak(c: CodePoint) {
    c == 10 || c == 13
  }

  /** The text between line breaks. Reading with universal newlines gives the same
      non-blank lines: the extra fragment inside a CR LF pair is blank. */
  function Fragments(t: Text): (r: seq<Text>)
    ensures |r| >= 1
  {
    if t == [] then [[]]
    else
      var rest := Fragments(t[1..]);
      if LineBreak(t[0]) then [[]] + rest else [[t[0]] + rest[0]] + rest[1..]
  }

  /** str.isspace of one character. */
  predicate IsSpace(c: CodePoint) {
    || 9 <= c <= 13 || 28 <= c <= 32 || c == 0x85 || c == 0xA0 || c == 0x1680
    || 0x2000 <= c <= 0x200A || c in {0x2028, 0x2029, 0x202F, 0x205F, 0x3000}
  }

  lemma SpacesAre(c: CodePoint)
    ensures IsSpace(c) <==> c in {
      0x09, 0x0A, 0x0B, 0x0C, 0x0D, 0x1C, 0x1D, 0x1E, 0x1F, 0x20, 0x85, 0xA0, 0x1680, 0x2000, 0x2001, 0x2002, 0x2003,
      0x2004, 0x2005, 0x2006, 0x2007, 0x2008, 0x2009, 0x200A, 0x2028, 0x2029, 0x202F, 0x205F, 0x3000}
  {
  }

  /** not line.strip() */
  predicate Blank(line: Text) {
    forall i :: 0 <= i < |line| ==> IsSpace(line[i])
  }

  /* -- entries ------------------------------------------------------------------------- */

  function EntryOf(line: Text): Option<Entry> {
    match Loads(line)
    case Malformed => None
    case Parsed(v) =>
      if v.Obj? && INDEX in v.members && RECORD in v.members && RECORD_HASH in v.members && PREV_HASH in v.members
      then Some(Entry(v.members[INDEX], v.members[RECORD], v.members[RECORD_HASH], v.members[PREV_HASH]))
      else None
  }

  /** The entries of the non-blank lines, or None if one of them is not an entry. */
  function EntriesOf(lines: seq<Text>): Option<seq<Entry>> {
    if lines == [] then Some([])
    else
      var n := |lines| - 1;
      var init := EntriesOf(lines[..n]);
      if init.None? || Blank(lines[n]) then init
      else match EntryOf(lines[n])
        case None => None
        case Some(e) => Some(init.value + [e])
  }

  function ReadAll(text: Text): Option<seq<Entry>> {
    EntriesOf(Fragments(text))
  }

  function LastNonBlank(lines: seq<Text>): Option<Text> {
    if lines == [] then None
    else
      var n := |lines| - 1;
      if Blank(lines[n]) then LastNonBlank(lines[..n]) else Some(lines[n])
  }

  function LineValue(e: Entry): Value {
    Obj(map[INDEX := e.index, PREV_HASH := e.prevHash, RECORD_HASH := e.recordHash, RECORD := e.record])
  }

  /** json.dumps of the line, and the newline. */
  function Line(e: Entry): Text {
    Dumps(LineValue(e)) + [NEWLINE]
  }

  /** _record_bytes(record) + prev_hash.encode("utf-8") */
  function LinkBytes(record: Value, prev: Text): Bytes {
    DumpsBytes(record) + Utf8.Encode(prev)
  }

  function NewEntry(h: Hasher, prev: Text, index: int, record: Value): Entry {
    Entry(Int(index), record, Str(h(LinkBytes(record, prev))), Str(prev))
  }

  /* -- reading, appending and verifying ----------------------------------------------------- */

  /** Python's index + 1; a bool counts as 0 or 1. */
  function NextIndex(index: Value): Option<int> {
    match index
    case Int(n) => Some(n + 1)
    case Bool(b) => Some(if b then 2 else 1)
    case _ => None
  }

  /** The next index; in Python, True is 1 and False is 0. */
  predicate OneMore(index: Value, next: Value) {
    || (index.Int? && next == Int(index.n + 1))
    || (index == Bool(false) && next == Int(1))
    || (index == Bool(true) && next == Int(2))
  }

  /** The next entry can follow this one: it has a hash that can be encoded and an index that
      can be added to. */
  predicate CanFollow(e: Entry) {
    && e.recordHash.Str? && (e.index.Int? || e.index.Bool?)
    && forall i :: 0 <= i < |e.recordHash.s| ==> e.recordHash.s[i] < 0xD800 || 0xDFFF < e.recordHash.s[i]
  }

  predicate Encodable(s: Text) {
    forall i :: 0 <= i < |s| ==> !Surrogate(s[i])
  }

  /** The hash and index the next entry follows; None where append_entry raises. */
  function Tail(text: Text): Option<(Text, int)> {
    if text == [] then Some((GENESIS, 0))
    else match LastNonBlank(Fragments(text))
      case None => None
      case Some(line) =>
        match EntryOf(line)
        case None => None
        case Some(e) =>
          if e.recordHash.Str? && Encodable(e.recordHash.s) && NextIndex(e.index).Some?
          then Some((e.recordHash.s, NextIndex(e.index).value)) else None
  }

  /** Every entry names its predecessor's hash and carries its own. */
  ghost predicate Chained(h: Hasher, entries: seq<Entry>) {
    forall i :: 0 <= i < |entries| ==> LinkedAt(h, entries, i)
  }

  predicate LinkedAt(h: Hasher, entries: seq<Entry>, i: nat)
    requires i < |entries|
  {
    && entries[i].prevHash.Str?
    && entries[i].prevHash == (if i == 0 then Str(GENESIS) else entries[i - 1].recordHash)
    && entries[i].recordHash == Str(h(LinkBytes(entries[i].record, entries[i].prevHash.s)))
  }

  /** The hash of a record: of its canonical text followed by the previous hash. */
  function RecordHash(h: Hasher, record: Value, prev: Text): Text {
    h(DumpsBytes(record) + Utf8.Encode(prev))
  }

  /** The i-th entry names the hash before it, or 64 zeros, and carries the hash of its record. */
  predicate Follows(h: Hasher, entries: seq<Entry>, i: nat)
    requires i < |entries|
  {
    && entries[i].prevHash.Str?
    && entries[i].prevHash == (if i == 0 then Str(Zeros(64)) else entries[i - 1].recordHash)
    && entries[i].recordHash == Str(RecordHash(h, entries[i].record, entries[i].prevHash.s))
  }

  lemma ChainSpelled(h: Hasher, entries: seq<Entry>)
    ensures Chained(h, entries) <==> forall i :: 0 <= i < |entries| ==> Follows(h, entries, i)
  {
    forall i | 0 <= i < |entries| ensures LinkedAt(h, entries, i) <==> Follows(h, entries, i) {
    }
  }

  ghost predicate Verifies(h: Hasher, text: Text) {
    ReadAll(text).Some? && Chained(h, ReadAll(text).value)
  }

  class Log {
    var text: Text

    constructor ()
      ensures text == []
    {
      text := [];
    }

    /** read_all_entries */
    method ReadAllEntries() returns (r: Option<seq<Entry>>)
      ensures r == ReadAll(text)
    {
      var lines := Fragments(text);
      var entries: seq<Entry> := [];
      for i := 0 to |lines|
        invariant EntriesOf(lines[..i]) == Some(entries)
      {
        assert lines[..i + 1][..i] == lines[..i];
        if !Blank(lines[i]) {
          var e := EntryOf(lines[i]);
          if e.None? {
            EntriesOfNone(lines, i + 1);
            return None;
          }
          entries := entries + [e.value];
        }
      }
      assert lines[..|lines|] == lines;
      return Some(entries);
    }

    /** _read_last_entry; None when it raises. */
    method ReadLastEntry() returns (r: Option<Entry>)
      ensures r == match LastNonBlank(Fragments(text)) case None => None case Some(line) => EntryOf(line)
    {
      var lines := Fragments(text);
      var last: Option<Text> := None;
      for i := 0 to |lines|
        invariant last == LastNonBlank(lines[..i])
      {
        assert lines[..i + 1][..i] == lines[..i];
        if !Blank(lines[i]) {
          last := Some(lines[i]);
        }
      }
      assert lines[..|lines|] == lines;
      if last.None? {
        return None;
      }
      return EntryOf(last.value);
    }

    /** append_entry: extends the file by one line, or raises and changes nothing. */
    method Append(h: Hasher, record: Value) returns (r: Option<Entry>)
      modifies this
      ensures r == match Tail(old(text)) case None => None
                   case Some((prev, index)) => Some(NewEntry(h, prev, index, record))
      ensures text == if r.Some? then old(text) + Line(r.value) else old(text)
      ensures r.Some? <==>
        || old(text) == []
        || (var last := LastNonBlank(Fragments(old(text)));
            last.Some? && EntryOf(last.value).Some? && CanFollow(EntryOf(last.value).value))
      ensures r.Some? ==>
        && r.value.record == record && r.value.prevHash.Str?
        && r.value.recordHash == Str(h(DumpsBytes(record) + Utf8.Encode(r.value.prevHash.s)))
      ensures r.Some? && old(text) == [] ==> r.value.prevHash == Str(Zeros(64)) && r.value.index == Int(0)
      ensures r.Some? && old(text) != [] ==>
        var last := LastNonBlank(Fragments(old(text)));
        && last.Some? && EntryOf(last.value).Some?
        && r.value.prevHash == EntryOf(last.value).value.recordHash
        && OneMore(EntryOf(last.value).value.index, r.value.index)
    {
      var prev, index := GENESIS, 0;
      if text != [] {
        var last := ReadLastEntry();
        if last.None? || !last.value.recordHash.Str? || !Encodable(last.value.recordHash.s)
           || NextIndex(last.value.index).None? {
          return None;
        }
        prev, index := last.value.recordHash.s, NextIndex(last.value.index).value;
      }
      var e := NewEntry(h, prev, index, record);
      text := text + Line(e);
      return Some(e);
    }

    /** verify_chain */
    method VerifyChain(h: Hasher) returns (ok: bool)
      ensures ok <==> Verifies(h, text)
      ensures ok <==>
        ReadAll(text).Some? && forall i :: 0 <= i < |ReadAll(text).value| ==> Follows(h, ReadAll(text).value, i)
    {
      hide LinkBytes, GENESIS, Follows;
      var all := ReadAllEntries();
      if all.None? {
        return false;
      }
      var entries := all.value;
      ChainSpelled(h, entries);
      var expected := Str(GENESIS);
      for i := 0 to |entries|
        invariant forall k :: 0 <= k < i ==> LinkedAt(h, entries, k)
        invariant expected.Str?
        invariant expected == if i == 0 then Str(GENESIS) else entries[i - 1].recordHash
      {
        var e := entries[i];
        if e.prevHash != expected {
          assert !LinkedAt(h, entries, i);
          return false;
        }
        if Str(h(LinkBytes(e.record, e.prevHash.s))) != e.recordHash {
          assert !LinkedAt(h, entries, i);
          return false;
        }
        expected := e.recordHash;
      }
      assert Chained(h, entries);
      return true;
    }
  }

  lemma {:induction false} EntriesOfNone(lines: seq<Text>, k: nat)
    requires k <= |lines| && EntriesOf(lines[..k]).None?
    ensures EntriesOf(lines).None?
  {
    if k == |lines| {
      assert lines[..k] == lines;
    } else {
      var n := |lines| - 1;
      assert lines[..n][..k] == lines[..k];
      EntriesOfNone(lines[..n], k);
    }
  }
}
