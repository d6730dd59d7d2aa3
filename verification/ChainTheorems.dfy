/** What appending keeps, exactly when it breaks a log, and what a verifying log proves. */
module ChainTheorems {
  import opened Outcomes
  import opened Unicode
  import opened Json
  import opened JsonRoundTrip
  import opened JsonReading
  import opened Digests
  import opened Chains
  import Utf8

  /* -- printing forgets nothing that joining changes ---------------------------------- */

  lemma JoinEscape(u: CodePoint, l: CodePoint)
    requires High(u) && Low(l)
    ensures Escape(Combine(u, l)) == Escape(u) + Escape(l)
  {
    var c := Combine(u, l);
    assert (c - 0x10000) / 1024 == u - 0xD800 && (c - 0x10000) % 1024 == l - 0xDC00;
  }

  lemma EscapeCons(c: CodePoint, s: Text)
    ensures EscapeAll([c] + s) == Escape(c) + EscapeAll(s)
  {
    hide Escape;
    assert ([c] + s)[1..] == s;
  }

  lemma {:induction false} EscapeJoined(s: Text)
    ensures EscapeAll(JoinPairs(s)) == EscapeAll(s)
  {
    hide Escape, EscapeAll, Combine;
    if s == [] {
    } else if |s| >= 2 && High(s[0]) && Low(s[1]) {
      EscapeJoined(s[2..]);
      JoinEscape(s[0], s[1]);
      EscapeCons(Combine(s[0], s[1]), JoinPairs(s[2..]));
      EscapeCons(s[1], s[2..]);
      EscapeCons(s[0], [s[1]] + s[2..]);
      assert s == [s[0]] + ([s[1]] + s[2..]);
    } else {
      EscapeJoined(s[1..]);
      EscapeCons(s[0], JoinPairs(s[1..]));
      EscapeCons(s[0], s[1..]);
      assert s == [s[0]] + s[1..];
    }
  }

  /** A value and what it reads back as print the same. */
  lemma {:induction false} DumpsJoined(v: Value)
    ensures Dumps(Joined(v)) == Dumps(v)
    decreases v
  {
    match v
    case Str(s) => EscapeJoined(s);
    case Arr(items) => DumpsJoinedItems(items);
    case Obj(m) =>
      var w := Joined(v);
      assert w.members.Keys == m.Keys;
      DumpsJoinedMembers(v, w, Sort(m.Keys));
    case _ =>
  }

  lemma {:induction false} DumpsJoinedItems(items: seq<Value>)
    ensures DumpsItems(JoinedItems(items)) == DumpsItems(items)
    decreases items
  {
    hide Dumps, Joined;
    if items != [] {
      DumpsJoined(items[0]);
      DumpsJoinedItems(items[1..]);
      assert JoinedItems(items)[1..] == JoinedItems(items[1..]);
    }
  }

  lemma {:induction false} DumpsJoinedMembers(v: Value, w: Value, keys: seq<Text>)
    requires v.Obj? && w == Joined(v) && forall k :: k in keys ==> k in v.members
    ensures w.Obj? && forall k :: k in keys ==> k in w.members
    ensures DumpsMembers(w, keys) == DumpsMembers(v, keys)
    decreases v, 0, |keys|
  {
    hide Dumps, EscapeAll;
    if keys != [] {
      DumpsJoined(v.members[keys[0]]);
      DumpsJoinedMembers(v, w, keys[1..]);
    }
  }

  /* -- lines --------------------------------------------------------------------------------- */

  lemma LineKeys()
    ensures |{INDEX, PREV_HASH, RECORD, RECORD_HASH}| == 4
    ensures INDEX != PREV_HASH && INDEX != RECORD && INDEX != RECORD_HASH
    ensures PREV_HASH != RECORD && PREV_HASH != RECORD_HASH && RECORD != RECORD_HASH
    ensures Faithful(INDEX) && Faithful(PREV_HASH) && Faithful(RECORD) && Faithful(RECORD_HASH)
  {
    assert |INDEX| == 5 && |PREV_HASH| == 9 && |RECORD| == 6 && |RECORD_HASH| == 11;
    assert IsAscii(INDEX) && IsAscii(PREV_HASH) && IsAscii(RECORD) && IsAscii(RECORD_HASH);
  }

  /** An entry as append_entry writes it, or with another index. */
  predicate Writable(e: Entry) {
    Clean(e.index) && CleanKeys(e.record) && e.recordHash.Str? && e.prevHash.Str?
    && Faithful(e.recordHash.s) && Faithful(e.prevHash.s)
  }

  /** The written line reads back as the entry, its record as any printed record does. */
  lemma LineReadsBack(e: Entry)
    requires Writable(e)
    ensures var s := Dumps(LineValue(e));
      s != [] && EntryOf(s) == Some(e.(record := Joined(e.record))) && !Blank(s) && Printable(s) && s[0] == LBRACE
  {
    hide Dumps, Loads, Blank, Clean;
    LineKeys();
    var v := LineValue(e);
    CleanHasCleanKeys(e.index);
    JoinedFixed(e.index);
    LoadsDumps(v);
    assert Joined(v).members[RECORD] == Joined(e.record);
    JoinPairsFixed(e.recordHash.s);
    JoinPairsFixed(e.prevHash.s);
    assert Joined(v).members[INDEX] == e.index;
    assert Joined(v).members[RECORD_HASH] == e.recordHash && Joined(v).members[PREV_HASH] == e.prevHash;
    DumpsPrintable(v);
    BraceFirst(v);
  }

  lemma BraceFirst(v: Value)
    requires v.Obj?
    ensures Dumps(v) != [] && Dumps(v)[0] == LBRACE && !Blank(Dumps(v))
  {
    hide DumpsMembers, Sort;
  }

  lemma {:induction false} FragmentsOfLine(s: Text)
    requires forall i :: 0 <= i < |s| ==> !LineBreak(s[i])
    ensures Fragments(s + [NEWLINE]) == [s, []]
  {
    if s == [] {
      assert s + [NEWLINE] == [NEWLINE];
      assert Fragments([NEWLINE][1..]) == [[]];
    } else {
      assert (s + [NEWLINE])[1..] == s[1..] + [NEWLINE];
      FragmentsOfLine(s[1..]);
      assert [s[0]] + s[1..] == s;
    }
  }

  /** The last fragment, which no line break ends. */
  function Unterminated(text: Text): Text {
    Fragments(text)[|Fragments(text)| - 1]
  }

  /** x put behind the last fragment, and more fragments after it. */
  function Glue(f: seq<Text>, x: Text, more: seq<Text>): (r: seq<Text>)
    requires f != []
    ensures r != []
  {
    f[..|f| - 1] + [f[|f| - 1] + x] + more
  }

  lemma GlueBreak(f: seq<Text>, x: Text, more: seq<Text>)
    requires f != []
    ensures Glue([[]] + f, x, more) == [[]] + Glue(f, x, more)
  {
    assert ([[]] + f)[..|f|] == [[]] + f[..|f| - 1];
  }

  lemma GlueChar(c: CodePoint, f: seq<Text>, x: Text, more: seq<Text>)
    requires f != []
    ensures var g := Glue(f, x, more);
      Glue([[c] + f[0]] + f[1..], x, more) == [[c] + g[0]] + g[1..]
  {
    if |f| == 1 {
      assert [c] + f[0] + x == [c] + (f[0] + x);
    }
  }

  lemma {:induction false} FragmentsAppend(a: Text, b: Text)
    ensures Fragments(a + b) == Glue(Fragments(a), Fragments(b)[0], Fragments(b)[1..])
  {
    var x, more := Fragments(b)[0], Fragments(b)[1..];
    if a == [] {
      assert a + b == b && [] + x == x;
    } else {
      hide Glue;
      FragmentsAppend(a[1..], b);
      assert (a + b)[1..] == a[1..] + b;
      if LineBreak(a[0]) {
        GlueBreak(Fragments(a[1..]), x, more);
      } else {
        GlueChar(a[0], Fragments(a[1..]), x, more);
      }
    }
  }

  /** After an append the last line is the unterminated rest of the old text and the new
      line. */
  lemma FragmentsAfter(text: Text, line: Text)
    requires forall i :: 0 <= i < |line| ==> !LineBreak(line[i])
    ensures var f := Fragments(text);
      Fragments(text + (line + [NEWLINE])) == f[..|f| - 1] + [Unterminated(text) + line] + [[]]
  {
    FragmentsOfLine(line);
    FragmentsAppend(text, line + [NEWLINE]);
    assert [line, []][1..] == [[]];
  }

  /** Text without a line break is one line. */
  lemma {:induction false} OneLine(s: Text)
    requires 10 !in s && 13 !in s
    ensures Fragments(s) == [s]
  {
    if s != [] {
      OneLine(s[1..]);
      assert [s[0]] + s[1..] == s;
    }
  }

  /** Every line feed and every carriage return ends a line, and nothing else does. */
  lemma {:induction false} LineThenRest(s: Text, end: CodePoint, rest: Text)
    requires 10 !in s && 13 !in s && end in {10, 13}
    ensures Fragments(s + [end] + rest) == [s] + Fragments(rest)
  {
    var t := s + [end] + rest;
    if s == [] {
      assert t[1..] == rest;
    } else {
      LineThenRest(s[1..], end, rest);
      assert t[1..] == s[1..] + [end] + rest;
      assert [s[0]] + s[1..] == s;
    }
  }

  lemma EntriesOfStep(lines: seq<Text>, line: Text)
    ensures EntriesOf(lines + [line]) == (
      if EntriesOf(lines).None? || Blank(line) then EntriesOf(lines)
      else if EntryOf(line).None? then None
      else Some(EntriesOf(lines).value + [EntryOf(line).value]))
  {
    assert (lines + [line])[..|lines|] == lines;
  }

  /** What the file holds after an append, by what was unterminated before. */
  lemma ReadAfterAppend(text: Text, line: Text)
    requires forall i :: 0 <= i < |line| ==> !LineBreak(line[i])
    requires line != [] && !IsSpace(line[0])
    ensures ReadAll(text + (line + [NEWLINE])) == (
      var f := Fragments(text);
      var init := EntriesOf(f[..|f| - 1]);
      var e := EntryOf(Unterminated(text) + line);
      if init.None? || e.None? then None else Some(init.value + [e.value]))
    ensures ReadAll(text) == (
      var f := Fragments(text);
      var init := EntriesOf(f[..|f| - 1]);
      if init.None? || Blank(Unterminated(text)) then init
      else if EntryOf(Unterminated(text)).None? then None
      else Some(init.value + [EntryOf(Unterminated(text)).value]))
  {
    hide EntryOf;
    FragmentsAfter(text, line);
    var f := Fragments(text);
    var last := Unterminated(text) + line;
    EntriesOfStep(f[..|f| - 1], last);
    EntriesOfStep(f[..|f| - 1] + [last], []);
    EntriesOfStep(f[..|f| - 1], Unterminated(text));
    assert f[..|f| - 1] + [Unterminated(text)] == f;
    assert !Blank(last) by { assert last[|Unterminated(text)|] == line[0]; }
  }

  /** Spaces that only json.loads treats as spaces do not hide a line: leading blanks are
      skipped when it skips them too. */
  predicate JsonBlank(s: Text) {
    SkipSpace(s) == []
  }

  /** A line after an entry that is not terminated is not an entry; after JSON spaces it
      is the entry it would be alone; after any other blanks it is malformed. */
  lemma EntryAfterRest(rest: Text, line: Text)
    requires EntryOf(line).Some? && line != [] && line[0] == LBRACE
    ensures JsonBlank(rest) ==> EntryOf(rest + line) == EntryOf(line)
    ensures Blank(rest) && !JsonBlank(rest) ==> EntryOf(rest + line).None?
    ensures EntryOf(rest).Some? ==> EntryOf(rest + line).None?
  {
    hide ScanValue, SkipSpace;
    assert SkipSpace(line) == line by { NoSpaceFirst(line); }
    SkipSpaceMore(rest, line);
    if JsonBlank(rest) {
      LoadsSkips(rest, line);
    } else if Blank(rest) {
      FirstOther(rest);
      ScanNonsense(SkipSpace(rest) + line);
      LoadsNonsense(rest + line);
    }
    if EntryOf(rest).Some? {
      LoadsMore(rest, line);
    }
  }

  lemma NoSpaceFirst(s: Text)
    requires s != [] && s[0] == LBRACE
    ensures SkipSpace(s) == s
  {
  }

  lemma LoadsSkips(rest: Text, line: Text)
    requires SkipSpace(rest) == [] && SkipSpace(line) == line && line != [] && line[0] == LBRACE
    ensures Loads(rest + line) == Loads(line)
  {
    hide ScanValue;
    SkipSpaceMore(rest, line);
    if rest != [] { SpaceHead(rest); }
  }

  lemma SpaceHead(rest: Text)
    requires rest != [] && SkipSpace(rest) == []
    ensures rest[0] != 0xFEFF
  {
  }

  lemma {:induction false} FirstOther(rest: Text)
    requires Blank(rest) && SkipSpace(rest) != []
    ensures IsSpace(SkipSpace(rest)[0]) && SkipSpace(rest)[0] !in {32, 9, 10, 13}
  {
    if rest[0] in {32, 9, 10, 13} {
      FirstOther(rest[1..]);
    }
  }

  lemma ScanNonsense(s: Text)
    requires s != [] && IsSpace(s[0]) && s[0] !in {32, 9, 10, 13}
    ensures ScanValue(s).Fail?
  {
    hide ScanString, ScanItems, ScanMembers, SkipSpace;
  }

  lemma LoadsNonsense(s: Text)
    requires ScanValue(SkipSpace(s)).Fail?
    ensures Loads(s).Malformed?
  {
    hide ScanValue, SkipSpace;
  }

  /* -- appending ------------------------------------------------------------------------------- */

  lemma BraceIsNoSpace()
    ensures !IsSpace(LBRACE)
  {
  }

  lemma PrintableNoBreak(line: Text)
    requires Printable(line)
    ensures forall i :: 0 <= i < |line| ==> !LineBreak(line[i])
  {
  }

  lemma EntryIsClean(h: Hasher, prev: Text, index: int, record: Value)
    requires HexValued(h) && CleanKeys(record) && Encodable(prev)
    ensures Writable(NewEntry(h, prev, index, record))
  {
    assert IsSha256(h(LinkBytes(record, prev)));
  }

  /** Appending to a log that verifies, where append_entry does not raise, leaves a log
      that verifies exactly when the old text leaves nothing but JSON spaces after its
      last line break. Then the log reads as before with the one new entry, which
      carries on the index and the hash. */
  lemma AppendExact(h: Hasher, text: Text, record: Value)
    requires HexValued(h) && CleanKeys(record)
    requires Verifies(h, text) && Tail(text).Some?
    ensures var (prev, index) := Tail(text).value;
      var e := NewEntry(h, prev, index, record);
      var after := text + Line(e);
      && (Verifies(h, after) <==> JsonBlank(Unterminated(text)))
      && (JsonBlank(Unterminated(text)) ==>
        ReadAll(after) == Some(ReadAll(text).value + [e.(record := Joined(record))]))
  {
    hide EntryOf, EntriesOf, Dumps, LinkBytes, Blank, Fragments, SkipSpace, GENESIS, Writable, IsSha256, Chained,
      Joined, LineValue, IsSpace, LineBreak, NextIndex, Encodable;
    var (prev, index) := Tail(text).value;
    var e := NewEntry(h, prev, index, record);
    var line := Dumps(LineValue(e));
    TailOfVerified(h, text);
    EntryIsClean(h, prev, index, record);
    LineReadsBack(e);
    assert text + Line(e) == text + (line + [NEWLINE]);
    assert !IsSpace(line[0]) by { BraceIsNoSpace(); }
    assert forall i :: 0 <= i < |line| ==> !LineBreak(line[i]) by { PrintableNoBreak(line); }
    ReadAfterAppend(text, line);
    var rest := Unterminated(text);
    EntryAfterRest(rest, line);
    if JsonBlank(rest) {
      JsonBlankIsBlank(rest);
      ChainedMore(h, ReadAll(text).value, e, record);
    }
  }

  lemma {:induction false} JsonBlankIsBlank(s: Text)
    requires JsonBlank(s)
    ensures Blank(s)
  {
    if s != [] {
      JsonBlankIsBlank(s[1..]);
      assert s == [s[0]] + s[1..];
    }
  }

  /** What append_entry continues from is the end of the chain. */
  lemma TailOfVerified(h: Hasher, text: Text)
    requires Verifies(h, text) && Tail(text).Some?
    ensures var entries := ReadAll(text).value;
      var (prev, index) := Tail(text).value;
      && Encodable(prev)
      && Str(prev) == (if entries == [] then Str(GENESIS) else entries[|entries| - 1].recordHash)
      && (entries == [] ==> index == 0)
      && (entries != [] ==> NextIndex(entries[|entries| - 1].index) == Some(index))
  {
    hide EntryOf, Chained;
    LastEntry(Fragments(text));
    assert Encodable(GENESIS);
    if text == [] {
      assert Fragments(text) == [[]];
      EntriesOfStep([], []);
    }
  }

  lemma {:induction false} LastEntry(lines: seq<Text>)
    requires EntriesOf(lines).Some?
    ensures LastNonBlank(lines).None? <==> EntriesOf(lines).value == []
    ensures LastNonBlank(lines).Some? ==>
      EntryOf(LastNonBlank(lines).value) == Some(EntriesOf(lines).value[|EntriesOf(lines).value| - 1])
  {
    hide EntryOf, Blank;
    if lines != [] {
      var n := |lines| - 1;
      if Blank(lines[n]) { LastEntry(lines[..n]); }
    }
  }

  lemma SameLink(record: Value, prev: Text)
    ensures LinkBytes(Joined(record), prev) == LinkBytes(record, prev)
  {
    DumpsJoined(record);
  }

  lemma ChainedMore(h: Hasher, entries: seq<Entry>, e: Entry, record: Value)
    requires Chained(h, entries)
    requires e.prevHash.Str?
    requires e.prevHash == if entries == [] then Str(GENESIS) else entries[|entries| - 1].recordHash
    requires e.recordHash == Str(h(LinkBytes(record, e.prevHash.s)))
    ensures Chained(h, entries + [e.(record := Joined(record))])
  {
    hide GENESIS, LinkBytes, Joined;
    var more := entries + [e.(record := Joined(record))];
    SameLink(record, e.prevHash.s);
    forall i | 0 <= i < |more| ensures LinkedAt(h, more, i) {
      if i < |entries| { assert LinkedAt(h, entries, i); }
    }
  }

  /** On a verifying log append_entry raises exactly when the file has content but no
      entry, or the last entry's index, which no hash covers, is not a number. */
  lemma AppendRaises(h: Hasher, text: Text)
    requires HexValued(h) && Verifies(h, text)
    ensures Tail(text).None? <==>
      text != [] && (ReadAll(text).value == []
                     || NextIndex(ReadAll(text).value[|ReadAll(text).value| - 1].index).None?)
  {
    hide EntryOf, GENESIS;
    LastEntry(Fragments(text));
    var entries := ReadAll(text).value;
    if entries != [] {
      assert LinkedAt(h, entries, |entries| - 1);
      var e := entries[|entries| - 1];
      assert IsSha256(h(LinkBytes(e.record, e.prevHash.s)));
    }
  }

  /* -- whole runs --------------------------------------------------------------------------------- */

  /** The text after appending these records to an empty log, one by one. */
  ghost function Written(h: Hasher, records: seq<Value>): Option<Text> {
    if records == [] then Some([])
    else
      var n := |records| - 1;
      var before := Written(h, records[..n]);
      if before.None? || Tail(before.value).None? then None
      else
        var (prev, index) := Tail(before.value).value;
        Some(before.value + Line(NewEntry(h, prev, index, records[n])))
  }

  /** Every run of appends succeeds and leaves a log that verifies, with one entry for
      each record, in order, its index its position. */
  lemma {:induction false} RunVerifies(h: Hasher, records: seq<Value>)
    requires HexValued(h) && forall i :: 0 <= i < |records| ==> CleanKeys(records[i])
    ensures Written(h, records).Some?
    ensures var text := Written(h, records).value;
      && Verifies(h, text) && |ReadAll(text).value| == |records|
      && JsonBlank(Unterminated(text)) && (text == [] <==> records == [])
    ensures forall i :: 0 <= i < |records| ==>
      var e := ReadAll(Written(h, records).value).value[i];
      e.index == Int(i) && e.record == Joined(records[i])
  {
    hide Line, LinkBytes, Joined, ReadAll, CleanKeys, Chained, Unterminated, Tail, JsonBlank;
    if records == [] {
      EmptyLog(h);
    } else {
      var n := |records| - 1;
      RunVerifies(h, records[..n]);
      var before := Written(h, records[..n]).value;
      AppendRaises(h, before);
      AppendExact(h, before, records[n]);
      TailOfVerified(h, before);
      var (prev, index) := Tail(before).value;
      EndsTerminated(before, NewEntry(h, prev, index, records[n]));
      if n > 0 { assert ReadAll(before).value[n - 1].index == Int(n - 1); }
      LineNonEmpty(NewEntry(h, prev, index, records[n]));
    }
  }

  lemma LineNonEmpty(e: Entry)
    ensures Line(e) != []
  {
  }

  lemma EmptyLog(h: Hasher)
    ensures Verifies(h, []) && ReadAll([]) == Some([]) && JsonBlank(Unterminated([]))
  {
    assert Fragments([]) == [[]];
    EntriesOfStep([], []);

  }

  lemma EndsTerminated(text: Text, e: Entry)
    ensures JsonBlank(Unterminated(text + Line(e)))
  {
    hide Dumps, Fragments;
    var line := Dumps(LineValue(e));
    DumpsPrintable(LineValue(e));
    FragmentsAfter(text, line);
    assert text + Line(e) == text + (line + [NEWLINE]);
  }

  /* -- logs that append_entry spoils or refuses ------------------------------------------------- */

  /** A written log that has lost its final line break still verifies and still takes an
      append, and then it does not verify any more. */
  lemma LostNewlineSpoils(h: Hasher, records: seq<Value>, record: Value)
    requires HexValued(h) && CleanKeys(record) && forall i :: 0 <= i < |records| ==> CleanKeys(records[i])
    requires records != []
    ensures Written(h, records).Some? && Written(h, records).value != []
    ensures var whole := Written(h, records).value;
      var text := whole[..|whole| - 1];
      && whole == text + [NEWLINE]
      && Verifies(h, text) && ReadAll(text) == ReadAll(whole) && Tail(text).Some? && Tail(text) == Tail(whole)
      && var (prev, index) := Tail(text).value;
         !Verifies(h, text + Line(NewEntry(h, prev, index, record)))
  {
    hide Line, LinkBytes, ReadAll, CleanKeys, Chained, Unterminated, Tail, JsonBlank, Verifies, NewEntry;
    RunVerifies(h, records);
    var whole := Written(h, records).value;
    EndsInLine(h, records);
    var text := whole[..|whole| - 1];
    DropNewline(text);
    TailSurvives(h, records);
    SameReading(h, whole, text);
    AppendExact(h, text, record);
  }

  lemma SameReading(h: Hasher, s: Text, t: Text)
    requires Verifies(h, s) && ReadAll(s) == ReadAll(t)
    ensures Verifies(h, t)
  {
  }

  lemma TailSurvives(h: Hasher, records: seq<Value>)
    requires HexValued(h) && forall i :: 0 <= i < |records| ==> CleanKeys(records[i])
    requires records != []
    ensures Written(h, records).Some? && Tail(Written(h, records).value).Some?
  {
    hide Line, LinkBytes, Joined, ReadAll, CleanKeys, Chained, Unterminated, Tail, JsonBlank;
    RunVerifies(h, records);
    AppendRaises(h, Written(h, records).value);
    var n := |records| - 1;
    assert ReadAll(Written(h, records).value).value[n].index == Int(n);
  }

  /** The last line of a written log, and what is left of the log without its line break. */
  lemma EndsInLine(h: Hasher, records: seq<Value>)
    requires HexValued(h) && forall i :: 0 <= i < |records| ==> CleanKeys(records[i])
    requires records != [] && Written(h, records).Some?
    ensures var whole := Written(h, records).value;
      && whole != [] && whole == whole[..|whole| - 1] + [NEWLINE] && whole[..|whole| - 1] != []
      && !JsonBlank(Unterminated(whole[..|whole| - 1]))
  {
    hide LinkBytes, Dumps, Fragments, CleanKeys, Tail, JsonBlank;
    var n := |records| - 1;
    var before := Written(h, records[..n]).value;
    var (prev, index) := Tail(before).value;
    var e := NewEntry(h, prev, index, records[n]);
    var line := Dumps(LineValue(e));
    BraceFirst(LineValue(e));
    DumpsPrintable(LineValue(e));
    assert before + Line(e) == (before + line) + [NEWLINE];
    assert before + (line + [NEWLINE]) == (before + line) + [NEWLINE];
    assert ((before + line) + [NEWLINE])[..|before + line|] == before + line;
    FragmentsAfter(before, line);
    FragmentsNewline(before + line);
    LastButOne(Fragments(before + line), Fragments(before)[..|Fragments(before)| - 1], Unterminated(before) + line);
    BraceInside(Unterminated(before), line);
  }

  lemma LastButOne(f: seq<Text>, init: seq<Text>, last: Text)
    requires f + [[]] == init + [last] + [[]]
    ensures f == init + [last]
  {
    assert f == (f + [[]])[..|f|];
    assert init + [last] == (init + [last] + [[]])[..|init| + 1];
  }

  lemma {:induction false} BraceInside(a: Text, line: Text)
    requires line != [] && line[0] == LBRACE
    ensures !JsonBlank(a + line)
  {
    if a == [] {
      assert a + line == line;
      NoSpaceFirst(line);
    } else {
      assert (a + line)[1..] == a[1..] + line;
      BraceInside(a[1..], line);
    }
  }

  lemma FragmentsNewline(text: Text)
    ensures Fragments(text + [NEWLINE]) == Fragments(text) + [[]]
  {
    FragmentsAfter(text, []);
    var f := Fragments(text);
    assert [] + [NEWLINE] == [NEWLINE];
    assert f[..|f| - 1] + [f[|f| - 1]] == f;
    assert f[|f| - 1] + [] == f[|f| - 1];
  }

  /** A final line break is not part of what a log says. */
  lemma DropNewline(text: Text)
    requires text != []
    ensures ReadAll(text + [NEWLINE]) == ReadAll(text) && Tail(text + [NEWLINE]) == Tail(text)
  {
    hide EntryOf;
    FragmentsNewline(text);
    var f := Fragments(text);
    EntriesOfStep(f, []);
    assert (f + [[]])[..|f|] == f;
  }

  /** The index is covered by no hash: a written log with any other value as its last index
      verifies and ends in the same hash, and append_entry raises on it exactly when that
      value is not a number. */
  lemma IndexIsNotCovered(h: Hasher, records: seq<Value>, record: Value, index: Value)
    requires HexValued(h) && CleanKeys(record) && forall i :: 0 <= i < |records| ==> CleanKeys(records[i])
    requires Clean(index)
    ensures Written(h, records).Some? && Tail(Written(h, records).value).Some?
    ensures var before := Written(h, records).value;
      var (prev, next) := Tail(before).value;
      var e := NewEntry(h, prev, next, record);
      var text, forged := before + Line(e), before + Line(e.(index := index));
      && Verifies(h, text) && Verifies(h, forged) && Head(ReadAll(forged).value) == Head(ReadAll(text).value)
      && RecordsOf(ReadAll(forged).value) == RecordsOf(ReadAll(text).value)
      && (Tail(forged).None? <==> NextIndex(index).None?)
  {
    hide Line, LinkBytes, Joined, CleanKeys, Clean, Chained, Unterminated, JsonBlank, Tail, ReadAll, NextIndex;
    RunVerifies(h, records);
    var before := Written(h, records).value;
    if records == [] {
      EmptyTail();
    } else {
      TailSurvives(h, records);
    }
    var (prev, next) := Tail(before).value;
    var e := NewEntry(h, prev, next, record);
    TailOfVerified(h, before);
    IntIsClean(next);
    OneMoreLine(h, before, e, record);
    OneMoreLine(h, before, e.(index := index), record);
    var forged := before + Line(e.(index := index));
    LineNonEmpty(e.(index := index));
    AppendRaises(h, forged);
  }

  lemma EmptyTail()
    ensures Tail([]).Some?
  {
  }

  lemma IntIsClean(n: int)
    ensures Clean(Int(n))
  {
  }

  /** One more line that links to the end of a terminated log, whatever its index. */
  lemma OneMoreLine(h: Hasher, text: Text, e: Entry, record: Value)
    requires HexValued(h) && Verifies(h, text) && JsonBlank(Unterminated(text))
    requires Clean(e.index) && CleanKeys(record) && e.record == record && e.prevHash.Str? && Encodable(e.prevHash.s)
    requires e.prevHash == if ReadAll(text).value == [] then Str(GENESIS) else ReadAll(text).value[|ReadAll(text).value| - 1].recordHash
    requires e.recordHash == Str(h(LinkBytes(record, e.prevHash.s)))
    ensures Verifies(h, text + Line(e))
    ensures ReadAll(text + Line(e)) == Some(ReadAll(text).value + [e.(record := Joined(record))])
  {
    hide EntryOf, EntriesOf, Dumps, LinkBytes, Blank, Fragments, SkipSpace, GENESIS, Chained, Joined, LineValue,
      IsSpace, LineBreak, Encodable, Clean, CleanKeys;
    var line := Dumps(LineValue(e));
    HashIsFaithful(h, LinkBytes(record, e.prevHash.s), e.prevHash.s);
    LineReadsBack(e);
    assert text + Line(e) == text + (line + [NEWLINE]);
    assert !IsSpace(line[0]) by { BraceIsNoSpace(); }
    assert forall i :: 0 <= i < |line| ==> !LineBreak(line[i]) by { PrintableNoBreak(line); }
    ReadAfterAppend(text, line);
    EntryAfterRest(Unterminated(text), line);
    JsonBlankIsBlank(Unterminated(text));
    ChainedMore(h, ReadAll(text).value, e, record);
  }

  lemma HashIsFaithful(h: Hasher, b: Bytes, prev: Text)
    requires HexValued(h) && Encodable(prev)
    ensures Faithful(h(b)) && Faithful(prev)
  {
    assert IsSha256(h(b));
  }

  /** Every prefix of a chain is a chain. */
  lemma PrefixChained(h: Hasher, entries: seq<Entry>, k: nat)
    requires Chained(h, entries) && k <= |entries|
    ensures Chained(h, entries[..k])
  {
    forall i | 0 <= i < k ensures LinkedAt(h, entries[..k], i) {
      assert LinkedAt(h, entries, i);
    }
  }

  /* -- tamper evidence ------------------------------------------------------------------------------ */

  function RecordsOf(entries: seq<Entry>): (r: seq<Value>)
    ensures |r| == |entries|
    ensures forall i :: 0 <= i < |entries| ==> r[i] == entries[i].record
  {
    seq(|entries|, i requires 0 <= i < |entries| => entries[i].record)
  }

  /** The hash the log ends in: the one to keep elsewhere. */
  function Head(entries: seq<Entry>): Value {
    if entries == [] then Str(GENESIS) else entries[|entries| - 1].recordHash
  }

  /** The bytes hashed for the i-th entry. */
  function HashedAt(entries: seq<Entry>, i: nat): Bytes
    requires i < |entries| && entries[i].prevHash.Str?
  {
    LinkBytes(entries[i].record, entries[i].prevHash.s)
  }

  /** Entries of the two logs whose hashed bytes collide, or an entry whose bytes hash to
      the genesis value. */
  ghost predicate Forged(h: Hasher, a: seq<Entry>, b: seq<Entry>)
    requires Chained(h, a) && Chained(h, b)
  {
    || (exists i, j :: 0 <= i < |a| && 0 <= j < |b| && LinkedAt(h, a, i) && LinkedAt(h, b, j)
          && Collide(h, HashedAt(a, i), HashedAt(b, j)))
    || (exists i :: 0 <= i < |a| && LinkedAt(h, a, i) && h(HashedAt(a, i)) == GENESIS)
    || (exists i :: 0 <= i < |b| && LinkedAt(h, b, i) && h(HashedAt(b, i)) == GENESIS)
  }

  ghost predicate CleanRecords(entries: seq<Entry>) {
    forall i :: 0 <= i < |entries| ==> Clean(entries[i].record)
  }

  /** Record bytes followed by a 64-character hash split in one way only. */
  lemma SplitsUniquely(r: Value, p: Text, s: Value, q: Text)
    requires |p| == 64 && |q| == 64 && IsAscii(p) && IsAscii(q)
    requires Clean(r) && Clean(s) && LinkBytes(r, p) == LinkBytes(s, q)
    ensures r == s && p == q
  {
    hide Dumps, Clean;
    Utf8.EncodeAscii(p);
    Utf8.EncodeAscii(q);
    var x := LinkBytes(r, p);
    assert x[|x| - 64..] == p && x[|x| - 64..] == q;
    assert x[..|x| - 64] == DumpsBytes(r) && x[..|x| - 64] == DumpsBytes(s);
    DumpsInjective(r, s);
  }

  lemma HeadHash(h: Hasher, entries: seq<Entry>)
    requires HexValued(h) && Chained(h, entries)
    ensures Head(entries).Str? && |Head(entries).s| == 64 && IsAscii(Head(entries).s)
    ensures entries != [] ==> var n := |entries| - 1;
      LinkedAt(h, entries, n) && entries[n].prevHash == Head(entries[..n])
      && Head(entries).s == h(HashedAt(entries, n))
  {
    if entries != [] {
      var n := |entries| - 1;
      assert LinkedAt(h, entries, n);
      assert IsSha256(h(HashedAt(entries, n)));
    }
  }

  lemma ForgedPrefix(h: Hasher, a: seq<Entry>, b: seq<Entry>)
    requires a != [] && b != [] && Chained(h, a) && Chained(h, b)
    requires Chained(h, a[..|a| - 1]) && Chained(h, b[..|b| - 1])
    requires Forged(h, a[..|a| - 1], b[..|b| - 1])
    ensures Forged(h, a, b)
  {
    hide LinkBytes, GENESIS;
    var x, y := a[..|a| - 1], b[..|b| - 1];
    forall i | 0 <= i < |x| ensures LinkedAt(h, a, i) && a[i] == x[i] { }
    forall i | 0 <= i < |y| ensures LinkedAt(h, b, i) && b[i] == y[i] { }
    if i, j :| 0 <= i < |x| && 0 <= j < |y| && LinkedAt(h, x, i) && LinkedAt(h, y, j)
               && Collide(h, HashedAt(x, i), HashedAt(y, j)) {
      assert Collide(h, HashedAt(a, i), HashedAt(b, j));
    } else if i :| 0 <= i < |x| && LinkedAt(h, x, i) && h(HashedAt(x, i)) == GENESIS {
      assert h(HashedAt(a, i)) == GENESIS;
    } else {
      var i :| 0 <= i < |y| && LinkedAt(h, y, i) && h(HashedAt(y, i)) == GENESIS;
      assert h(HashedAt(b, i)) == GENESIS;
    }
  }

  /** Two chains that end in the same hash hold the same records, whatever their lengths,
      or exhibit a forgery. */
  lemma {:induction false} SameHeadSameRecords(h: Hasher, a: seq<Entry>, b: seq<Entry>)
    requires HexValued(h) && Chained(h, a) && Chained(h, b)
    requires CleanRecords(a) && CleanRecords(b) && Head(a) == Head(b)
    ensures RecordsOf(a) == RecordsOf(b) || Forged(h, a, b)
    decreases |a|
  {
    hide LinkBytes, GENESIS, Clean, Forged, IsAscii, LinkedAt;
    HeadHash(h, a);
    HeadHash(h, b);
    if a == [] || b == [] {
      OneEmpty(h, a, b);
    } else {
      var m, n := |a| - 1, |b| - 1;
      var x, y := HashedAt(a, m), HashedAt(b, n);
      if x != y {
        LastCollide(h, a, b);
      } else {
        PrefixChained(h, a, m);
        PrefixChained(h, b, n);
        HeadHash(h, a[..m]);
        HeadHash(h, b[..n]);
        SplitsUniquely(a[m].record, a[m].prevHash.s, b[n].record, b[n].prevHash.s);
        SameHeadSameRecords(h, a[..m], b[..n]);
        if Forged(h, a[..m], b[..n]) {
          ForgedPrefix(h, a, b);
        } else {
          assert RecordsOf(a) == RecordsOf(a[..m]) + [a[m].record];
          assert RecordsOf(b) == RecordsOf(b[..n]) + [b[n].record];
        }
      }
    }
  }

  lemma OneEmpty(h: Hasher, a: seq<Entry>, b: seq<Entry>)
    requires HexValued(h) && Chained(h, a) && Chained(h, b) && Head(a) == Head(b)
    requires a == [] || b == []
    ensures RecordsOf(a) == RecordsOf(b) || Forged(h, a, b)
  {
    hide LinkBytes;
    HeadHash(h, a);
    HeadHash(h, b);
    if a != [] { assert h(HashedAt(a, |a| - 1)) == GENESIS; }
    if b != [] { assert h(HashedAt(b, |b| - 1)) == GENESIS; }
  }

  lemma LastCollide(h: Hasher, a: seq<Entry>, b: seq<Entry>)
    requires HexValued(h) && Chained(h, a) && Chained(h, b) && Head(a) == Head(b)
    requires a != [] && b != []
    requires LinkedAt(h, a, |a| - 1) && LinkedAt(h, b, |b| - 1)
    requires HashedAt(a, |a| - 1) != HashedAt(b, |b| - 1)
    ensures Forged(h, a, b)
  {
    hide LinkBytes;
    HeadHash(h, a);
    HeadHash(h, b);
    assert Collide(h, HashedAt(a, |a| - 1), HashedAt(b, |b| - 1));
  }

  /** Everything read from a file that decodes as UTF-8 is clean. */
  lemma ReadRecordsClean(text: Text)
    requires NoSurrogates(text) && ReadAll(text).Some?
    ensures CleanRecords(ReadAll(text).value)
  {
    FragmentsClean(text);
    EntriesClean(Fragments(text));
  }

  lemma {:induction false} FragmentsClean(text: Text)
    requires NoSurrogates(text)
    ensures forall i :: 0 <= i < |Fragments(text)| ==> NoSurrogates(Fragments(text)[i])
  {
    if text != [] {
      FragmentsClean(text[1..]);
    }
  }

  lemma {:induction false} EntriesClean(lines: seq<Text>)
    requires EntriesOf(lines).Some? && forall i :: 0 <= i < |lines| ==> NoSurrogates(lines[i])
    ensures CleanRecords(EntriesOf(lines).value)
  {
    hide Loads;
    if lines != [] {
      var n := |lines| - 1;
      EntriesClean(lines[..n]);
      if EntryOf(lines[n]).Some? { LoadsClean(lines[n]); }
    }
  }

  /** Tamper evidence: two log files that both pass verify_chain and end in the same
      record hash hold the same sequence of records, or exhibit a forgery. */
  lemma TamperEvidence(h: Hasher, s: Text, t: Text)
    requires HexValued(h) && NoSurrogates(s) && NoSurrogates(t)
    requires Verifies(h, s) && Verifies(h, t)
    requires Head(ReadAll(s).value) == Head(ReadAll(t).value)
    ensures RecordsOf(ReadAll(s).value) == RecordsOf(ReadAll(t).value)
      || Forged(h, ReadAll(s).value, ReadAll(t).value)
  {
    ReadRecordsClean(s);
    ReadRecordsClean(t);
    SameHeadSameRecords(h, ReadAll(s).value, ReadAll(t).value);
  }
}
