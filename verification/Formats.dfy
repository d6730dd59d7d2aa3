/** The bytes ModelGuard hashes and signs, written out with literal text: the manifest of a
    directory, a line of the log and its linked bytes, a revocation event, a payload. */
module Formats {
  import opened Outcomes
  import opened Unicode
  import opened Json
  import opened JsonText
  import opened Digests
  import opened Artifacts
  import Utf8
  import Chains
  import Revocations
  import Registries
  import Signatures

  /* -- names -------------------------------------------------------------------------- */

  /** A plain name as a member name, with its colon. */
  lemma NameText(name: string)
    requires forall i :: 0 <= i < |name| ==> ' ' <= name[i] <= '~' && name[i] != '\"' && name[i] != '\\'
    ensures Quoted(Ascii(name)) + [':' as int] == Ascii("\"") + Ascii(name) + Ascii("\":")
  {
    PlainText(Ascii(name));
    assert Ascii("\"") == [34] && Ascii("\":") == [34, 58];
  }

  lemma {:induction false} CommasTwo(first: Text, rest: seq<Text>)
    requires rest != []
    ensures Commas([first] + rest) == first + Ascii(",") + Commas(rest)
  {
    assert ([first] + rest)[1..] == rest;
    assert Ascii(",") == [44];
  }

  lemma CommasOne(part: Text)
    ensures Commas([part]) == part
  {
  }

  lemma TwoAscending(a: Text, b: Text, k: nat)
    requires FirstDifference(a, b, k)
    ensures Below(a, b)
  {
    BelowIsBefore(a, b);
  }

  /** Neighbours in order are enough. */
  lemma {:induction false} Ascending(fields: Fields)
    requires forall i :: 0 <= i < |fields| - 1 ==> Below(fields[i].0, fields[i + 1].0)
    ensures NamesSorted(fields)
  {
    hide Below;
    if fields != [] {
      var n := |fields| - 1;
      Ascending(fields[..n]);
      forall i | 0 <= i < n ensures Below(fields[i].0, fields[n].0) {
        if i < n - 1 {
          assert Below(fields[..n][i].0, fields[..n][n - 1].0);
          BelowTransitive(fields[i].0, fields[n - 1].0, fields[n].0);
        }
      }
    }
  }

  /** Four members that are all there. */
  lemma FourMembers(a: (Text, Value), b: (Text, Value), c: (Text, Value), d: (Text, Value))
    ensures var fields := [(a.0, Some(a.1)), (b.0, Some(b.1)), (c.0, Some(c.1)), (d.0, Some(d.1))];
      && MapOf(fields) == map[a.0 := a.1, b.0 := b.1, c.0 := c.1, d.0 := d.1]
      && Members(fields) == [MemberText(a), MemberText(b), MemberText(c), MemberText(d)]
  {
    hide Dumps, Quoted;
    ThreeMembers(a, b, c);
    var fields := [(a.0, Some(a.1)), (b.0, Some(b.1)), (c.0, Some(c.1)), (d.0, Some(d.1))];
    assert fields[..3] == [(a.0, Some(a.1)), (b.0, Some(b.1)), (c.0, Some(c.1))];
  }

  lemma ThreeMembers(a: (Text, Value), b: (Text, Value), c: (Text, Value))
    ensures var fields := [(a.0, Some(a.1)), (b.0, Some(b.1)), (c.0, Some(c.1))];
      && MapOf(fields) == map[a.0 := a.1, b.0 := b.1, c.0 := c.1]
      && Members(fields) == [MemberText(a), MemberText(b), MemberText(c)]
  {
    hide Dumps, Quoted;
    TwoMembers(a, b);
    var fields := [(a.0, Some(a.1)), (b.0, Some(b.1)), (c.0, Some(c.1))];
    assert fields[..2] == [(a.0, Some(a.1)), (b.0, Some(b.1))];
  }

  lemma TwoMembers(a: (Text, Value), b: (Text, Value))
    ensures var fields := [(a.0, Some(a.1)), (b.0, Some(b.1))];
      MapOf(fields) == map[a.0 := a.1, b.0 := b.1] && Members(fields) == [MemberText(a), MemberText(b)]
  {
    hide Dumps, Quoted;
    var one: Fields := [(a.0, Some(a.1))];
    assert one[..0] == [];
    assert MapOf(one) == map[a.0 := a.1] && Members(one) == [MemberText(a)];
    assert [(a.0, Some(a.1)), (b.0, Some(b.1))][..1] == one;
  }

  function MemberText(m: (Text, Value)): Text {
    Quoted(m.0) + [':' as int] + Dumps(m.1)
  }

  lemma ThreeParts(a: Text, b: Text, c: Text)
    ensures Commas([a, b, c]) == a + Ascii(",") + b + Ascii(",") + c
  {
    CommasTwo(b, [c]);
    CommasTwo(a, [b, c]);
    CommasOne(c);
    assert [b] + [c] == [b, c] && [a] + [b, c] == [a, b, c];
  }

  lemma FourParts(a: Text, b: Text, c: Text, d: Text)
    ensures Commas([a, b, c, d]) == a + Ascii(",") + b + Ascii(",") + c + Ascii(",") + d
  {
    hide Commas;
    ThreeParts(b, c, d);
    CommasTwo(a, [b, c, d]);
    assert [a] + [b, c, d] == [a, b, c, d];
  }

  /* -- the manifest of a directory ------------------------------------------------------- */

  /** One file of a manifest. */
  function FileText(f: FileDigest): Text {
    Ascii("{\"path\":") + Quoted(f.path) + Ascii(",\"sha256\":") + Quoted(f.sha256) + Ascii(",\"size\":") + Dumps(Int(f.size)) + Ascii("}")
  }

  function FileTexts(files: seq<FileDigest>): (r: seq<Text>)
    ensures |r| == |files|
    ensures forall i :: 0 <= i < |files| ==> r[i] == FileText(files[i])
  {
    seq(|files|, i requires 0 <= i < |files| => FileText(files[i]))
  }

  function ManifestText(files: seq<FileDigest>): Text {
    Ascii("{\"algorithm\":") + Ascii("\"sha256\",\"files\":[") + Commas(FileTexts(files)) + Ascii("]}")
  }

  lemma EntryOrder()
    ensures Below(Ascii("path"), Ascii("sha256")) && Below(Ascii("sha256"), Ascii("size"))
    ensures Below(Ascii("algorithm"), Ascii("files"))
  {
    assert Ascii("path") == [112, 97, 116, 104] && Ascii("sha256") == [115, 104, 97, 50, 53, 54];
    assert Ascii("size") == [115, 105, 122, 101] && Ascii("files") == [102, 105, 108, 101, 115];
    assert Ascii("algorithm") == [97, 108, 103, 111, 114, 105, 116, 104, 109];
    assert Ascii("sha256")[..1] == Ascii("size")[..1];
    TwoAscending(Ascii("path"), Ascii("sha256"), 0);
    TwoAscending(Ascii("sha256"), Ascii("size"), 1);
    TwoAscending(Ascii("algorithm"), Ascii("files"), 0);
  }

  lemma EntryNames()
    ensures Quoted(Ascii("path")) + [':' as int] == Ascii("\"path\":")
    ensures Quoted(Ascii("sha256")) + [':' as int] == Ascii("\"sha256\":")
    ensures Quoted(Ascii("size")) + [':' as int] == Ascii("\"size\":")
  {
    hide Quoted;
    NameText("path");
    NameText("sha256");
    NameText("size");
    assert Ascii("\"path\":") == Ascii("\"") + Ascii("path") + Ascii("\":");
    assert Ascii("\"sha256\":") == Ascii("\"") + Ascii("sha256") + Ascii("\":");
    assert Ascii("\"size\":") == Ascii("\"") + Ascii("size") + Ascii("\":");
  }

  lemma EntryText(f: FileDigest)
    ensures Dumps(EntryValue(f)) == FileText(f)
  {
    hide Dumps, Quoted, Below, Members, MapOf, Commas;
    var a, b, c := (Ascii("path"), Str(f.path)), (Ascii("sha256"), Str(f.sha256)), (Ascii("size"), Int(f.size));
    var fields := [(a.0, Some(a.1)), (b.0, Some(b.1)), (c.0, Some(c.1))];
    ThreeMembers(a, b, c);
    EntryOrder();
    Ascending(fields);
    ObjectText(fields);
    ThreeParts(MemberText(a), MemberText(b), MemberText(c));
    EntryNames();
    StringText(f.path);
    StringText(f.sha256);
    EntryJoin(Quoted(f.path), Quoted(f.sha256), Dumps(Int(f.size)));
  }

  lemma EntryJoin(p: Text, s: Text, n: Text)
    ensures Ascii("{") + ((Ascii("\"path\":") + p) + Ascii(",") + (Ascii("\"sha256\":") + s) + Ascii(",") + (Ascii("\"size\":") + n)) + Ascii("}")
         == Ascii("{\"path\":") + p + Ascii(",\"sha256\":") + s + Ascii(",\"size\":") + n + Ascii("}")
  {
    assert Ascii("{\"path\":") == Ascii("{") + Ascii("\"path\":");
    assert Ascii(",\"sha256\":") == Ascii(",") + Ascii("\"sha256\":");
    assert Ascii(",\"size\":") == Ascii(",") + Ascii("\"size\":");
  }

  /** The canonical bytes of a manifest, character by character. */
  lemma ManifestLayout(files: seq<FileDigest>)
    ensures ManifestBytes(files) == ManifestText(SortFiles(files))
  {
    hide Dumps, Quoted, Below, Members, MapOf, Commas, FileText;
    var sorted := SortFiles(files);
    var a, b := (Ascii("algorithm"), Str(Ascii("sha256"))), (Ascii("files"), Arr(EntryValues(sorted)));
    var fields := [(a.0, Some(a.1)), (b.0, Some(b.1))];
    TwoMembers(a, b);
    EntryOrder();
    Ascending(fields);
    ObjectText(fields);
    CommasTwo(MemberText(a), [MemberText(b)]);
    CommasOne(MemberText(b));
    assert [MemberText(a)] + [MemberText(b)] == [MemberText(a), MemberText(b)];
    PlainSha();
    NameText("algorithm");
    NameText("files");
    ArrayText(EntryValues(sorted));
    forall i | 0 <= i < |sorted| ensures Printed(EntryValues(sorted))[i] == FileTexts(sorted)[i] {
      EntryText(sorted[i]);
    }
    assert Printed(EntryValues(sorted)) == FileTexts(sorted);
    ManifestJoin(Commas(FileTexts(sorted)));
  }

  lemma PlainSha()
    ensures Dumps(Str(Ascii("sha256"))) == Ascii("\"sha256\"")
  {
    hide Dumps;
    PlainText(Ascii("sha256"));
    assert Ascii("\"sha256\"") == [34] + Ascii("sha256") + [34];
  }

  lemma ManifestJoin(body: Text)
    ensures Ascii("{") + ((Ascii("\"") + Ascii("algorithm") + Ascii("\":") + Ascii("\"sha256\"")) + Ascii(",")
              + (Ascii("\"") + Ascii("files") + Ascii("\":") + (Ascii("[") + body + Ascii("]")))) + Ascii("}")
         == Ascii("{\"algorithm\":") + Ascii("\"sha256\",\"files\":[") + body + Ascii("]}")
  {
    ManifestLabels();
    hide Ascii;
    RegroupOne(Ascii("{"), Ascii("\"") + Ascii("algorithm") + Ascii("\":"), Ascii("\"sha256\""), Ascii(","),
               Ascii("\"") + Ascii("files") + Ascii("\":"), Ascii("["), body, Ascii("]"), Ascii("}"));
  }

  lemma ManifestLabels()
    ensures Ascii("{\"algorithm\":") == Ascii("{") + (Ascii("\"") + Ascii("algorithm") + Ascii("\":"))
    ensures Ascii("\"sha256\",\"files\":[") == Ascii("\"sha256\"") + Ascii(",") + (Ascii("\"") + Ascii("files") + Ascii("\":")) + Ascii("[")
    ensures Ascii("]}") == Ascii("]") + Ascii("}")
  {
  }

  lemma RegroupOne(o: Text, a: Text, v: Text, c: Text, f: Text, x: Text, body: Text, y: Text, z: Text)
    ensures o + ((a + v) + c + (f + (x + body + y))) + z == (o + a) + (v + c + f + x) + body + (y + z)
  {
    Shift(f, x + body, y);
    Shift(f, x, body);
    Shift(a + v + c, f + x + body, y);
    Shift(a + v + c, f + x, body);
    Shift(a + v + c, f, x);
    Shift(a, v, c);
    Shift(a, v + c, f);
    Shift(a, v + c + f, x);
    Shift(o, a + (v + c + f + x) + body, y);
    Shift(o, a + (v + c + f + x), body);
    Shift(o, a, v + c + f + x);
    Shift(o + a + (v + c + f + x) + body, y, z);
  }

  lemma Shift(a: Text, b: Text, c: Text)
    ensures a + (b + c) == (a + b) + c
  {
  }

  /** The digest of a directory is the hash of exactly this text about its files. */
  lemma DirectoryDigestText(h: Hasher, m: Contents)
    ensures DirectoryDigest(h, m).digest == h(ManifestBytes(Listing(h, m)))
    ensures ManifestBytes(Listing(h, m)) == ManifestText(Listing(h, m))
  {
    hide *;
    DigestIsHash(h, m);
    SortFilesFixed(Listing(h, m));
    ManifestLayout(Listing(h, m));
  }

  lemma DigestIsHash(h: Hasher, m: Contents)
    ensures DirectoryDigest(h, m).digest == h(ManifestBytes(Listing(h, m)))
  {
    hide ManifestBytes, Listing;
  }

  /** Its files are in path order. */
  lemma ListingOrder(h: Hasher, m: Contents, i: nat, j: nat)
    requires i < j < |Listing(h, m)|
    ensures Before(Listing(h, m)[i].path, Listing(h, m)[j].path)
  {
    hide Below, Before, Listing;
    BelowIsBefore(Listing(h, m)[i].path, Listing(h, m)[j].path);
  }

  /** Each file is listed with the hash and the size of its content. */
  lemma ListingRows(h: Hasher, m: Contents)
    ensures forall f :: f in Listing(h, m) <==> f.path in m && f.sha256 == h(m[f.path]) && f.size == |m[f.path]|
  {
    hide Listing;
  }

  /* -- the log ------------------------------------------------------------------------------ */

  /** A line of the log. */
  function LogLineText(e: Chains.Entry): Text {
    Ascii("{\"index\":") + Dumps(e.index) + Ascii(",\"prev_hash\":") + Dumps(e.prevHash) + Ascii(",\"record\":") + Dumps(e.record)
    + Ascii(",\"record_hash\":") + Dumps(e.recordHash) + Ascii("}\n")
  }

  lemma LineOrder()
    ensures Below(Ascii("index"), Ascii("prev_hash")) && Below(Ascii("prev_hash"), Ascii("record"))
    ensures Below(Ascii("record"), Ascii("record_hash"))
  {
    assert Ascii("index")[0] == 105 && Ascii("prev_hash")[0] == 112 && Ascii("record")[0] == 114;
    assert Ascii("record") == [114, 101, 99, 111, 114, 100];
    assert Ascii("record_hash") == [114, 101, 99, 111, 114, 100, 95, 104, 97, 115, 104];
    assert Ascii("record_hash")[..6] == Ascii("record")[..6];
    TwoAscending(Ascii("index"), Ascii("prev_hash"), 0);
    TwoAscending(Ascii("prev_hash"), Ascii("record"), 0);
    TwoAscending(Ascii("record"), Ascii("record_hash"), 6);
  }

  /** The line append_entry writes, character by character. */
  lemma LogLineLayout(e: Chains.Entry)
    ensures Chains.Line(e) == LogLineText(e)
  {
    hide Dumps, Quoted, Below, Members, MapOf, Commas;
    var a, b := (Ascii("index"), e.index), (Ascii("prev_hash"), e.prevHash);
    var c, d := (Ascii("record"), e.record), (Ascii("record_hash"), e.recordHash);
    var fields := [(a.0, Some(a.1)), (b.0, Some(b.1)), (c.0, Some(c.1)), (d.0, Some(d.1))];
    FourMembers(a, b, c, d);
    LineOrder();
    Ascending(fields);
    ObjectText(fields);
    FourParts(MemberText(a), MemberText(b), MemberText(c), MemberText(d));
    NameText("index");
    NameText("prev_hash");
    NameText("record");
    NameText("record_hash");
    LineMap(e);
    LineJoin(Dumps(e.index), Dumps(e.prevHash), Dumps(e.record), Dumps(e.recordHash));
  }

  lemma LineMap(e: Chains.Entry)
    ensures Chains.LineValue(e) ==
      Obj(map[Ascii("index") := e.index, Ascii("prev_hash") := e.prevHash, Ascii("record") := e.record, Ascii("record_hash") := e.recordHash])
  {
    hide Below;
    LineOrder();
    BelowTotal(Ascii("record"), Ascii("record_hash"));
  }

  lemma LineJoin(i: Text, p: Text, r: Text, h: Text)
    ensures Ascii("{") + ((Ascii("\"") + Ascii("index") + Ascii("\":") + i) + Ascii(",") + (Ascii("\"") + Ascii("prev_hash") + Ascii("\":") + p)
              + Ascii(",") + (Ascii("\"") + Ascii("record") + Ascii("\":") + r) + Ascii(",")
              + (Ascii("\"") + Ascii("record_hash") + Ascii("\":") + h)) + Ascii("}") + [10]
         == Ascii("{\"index\":") + i + Ascii(",\"prev_hash\":") + p + Ascii(",\"record\":") + r + Ascii(",\"record_hash\":") + h + Ascii("}\n")
  {
    var o, c, e := Ascii("{"), Ascii(","), Ascii("}");
    var a, b := Ascii("\"") + Ascii("index") + Ascii("\":"), Ascii("\"") + Ascii("prev_hash") + Ascii("\":");
    var d, f := Ascii("\"") + Ascii("record") + Ascii("\":"), Ascii("\"") + Ascii("record_hash") + Ascii("\":");
    LineLabels();
    RegroupTwo(a + i, c, b, p);
    RegroupTwo(a + i + (c + b) + p, c, d, r);
    RegroupTwo(a + i + (c + b) + p + (c + d) + r, c, f, h);
    PushIn(o, a, i, c + b, p, c + d, r, c + f, h);
    Shift(o + a + i + (c + b) + p + (c + d) + r + (c + f) + h, e, [10]);
  }

  lemma LineLabels()
    ensures Ascii("{\"index\":") == Ascii("{") + (Ascii("\"") + Ascii("index") + Ascii("\":"))
    ensures Ascii(",\"prev_hash\":") == Ascii(",") + (Ascii("\"") + Ascii("prev_hash") + Ascii("\":"))
    ensures Ascii(",\"record\":") == Ascii(",") + (Ascii("\"") + Ascii("record") + Ascii("\":"))
    ensures Ascii(",\"record_hash\":") == Ascii(",") + (Ascii("\"") + Ascii("record_hash") + Ascii("\":"))
    ensures Ascii("}\n") == Ascii("}") + [10]
  {
    hide Ascii;
    IndexLabel();
    PrevLabel();
    RecordLabel();
    HashLabel();
  }

  lemma IndexLabel()
    ensures Ascii("{\"index\":") == Ascii("{") + (Ascii("\"") + Ascii("index") + Ascii("\":"))
    ensures Ascii("}\n") == Ascii("}") + [10]
  {
  }

  lemma PrevLabel()
    ensures Ascii(",\"prev_hash\":") == Ascii(",") + (Ascii("\"") + Ascii("prev_hash") + Ascii("\":"))
  {
  }

  lemma RecordLabel()
    ensures Ascii(",\"record\":") == Ascii(",") + (Ascii("\"") + Ascii("record") + Ascii("\":"))
  {
  }

  lemma HashLabel()
    ensures Ascii(",\"record_hash\":") == Ascii(",") + (Ascii("\"") + Ascii("record_hash") + Ascii("\":"))
  {
  }

  lemma RegroupTwo(x: Text, c: Text, b: Text, p: Text)
    ensures x + c + (b + p) == x + (c + b) + p
  {
    Shift(x + c, b, p);
    Shift(x, c, b);
  }

  lemma PushIn(o: Text, a: Text, i: Text, b: Text, p: Text, c: Text, r: Text, d: Text, h: Text)
    ensures o + (a + i + b + p + c + r + d + h) == o + a + i + b + p + c + r + d + h
  {
    Shift(o, a, i);
    Shift(o, a + i, b);
    Shift(o, a + i + b, p);
    Shift(o, a + i + b + p, c);
    Shift(o, a + i + b + p + c, r);
    Shift(o, a + i + b + p + c + r, d);
    Shift(o, a + i + b + p + c + r + d, h);
  }

  /** A line is an entry exactly when it reads as an object with the four names; other names
      do not matter. */
  lemma EntryRead(line: Text, e: Chains.Entry)
    ensures Chains.EntryOf(line) == Some(e) <==>
              exists m: map<Text, Value> ::
                && Loads(line) == Parsed(Obj(m))
                && Has(m, "index", e.index) && Has(m, "record", e.record)
                && Has(m, "record_hash", e.recordHash) && Has(m, "prev_hash", e.prevHash)
  {
    hide Loads, Ascii;
  }

  /** The last line that is not blank. */
  lemma {:induction false} LastLineIs(lines: seq<Text>, i: nat)
    requires i < |lines| && !Chains.Blank(lines[i]) && forall j :: i < j < |lines| ==> Chains.Blank(lines[j])
    ensures Chains.LastNonBlank(lines) == Some(lines[i])
  {
    hide Chains.Blank;
    if i < |lines| - 1 { LastLineIs(lines[..|lines| - 1], i); }
  }

  lemma {:induction false} NoLastLine(lines: seq<Text>)
    requires forall j :: 0 <= j < |lines| ==> Chains.Blank(lines[j])
    ensures Chains.LastNonBlank(lines) == None
  {
    hide Chains.Blank;
    if lines != [] { NoLastLine(lines[..|lines| - 1]); }
  }

  /** The lines that are not blank, in order. */
  function Written(lines: seq<Text>): seq<Text> {
    if lines == [] then []
    else if Chains.Blank(lines[0]) then Written(lines[1..])
    else [lines[0]] + Written(lines[1..])
  }

  lemma {:induction false} WrittenLast(lines: seq<Text>, line: Text)
    ensures Written(lines + [line]) == Written(lines) + if Chains.Blank(line) then [] else [line]
  {
    hide Chains.Blank;
    var all := lines + [line];
    if lines == [] {
      assert all[1..] == [];
    } else {
      assert all[1..] == lines[1..] + [line];
      WrittenLast(lines[1..], line);
    }
  }

  /** The entries read are those of the lines that are not blank, one for each. */
  lemma {:induction false} EntriesAre(lines: seq<Text>, entries: seq<Chains.Entry>)
    ensures Chains.EntriesOf(lines) == Some(entries) <==>
              && |entries| == |Written(lines)|
              && forall i :: 0 <= i < |entries| ==> Chains.EntryOf(Written(lines)[i]) == Some(entries[i])
  {
    hide Chains.Blank, Chains.EntryOf, Written;
    if lines == [] {
      assert Written(lines) == [] by { NothingWritten(); }
    } else {
      var n := |lines| - 1;
      assert lines == lines[..n] + [lines[n]];
      WrittenLast(lines[..n], lines[n]);
      if Chains.Blank(lines[n]) {
        EntriesAre(lines[..n], entries);
      } else if entries != [] {
        EntriesAre(lines[..n], entries[..|entries| - 1]);
        EntriesSplit(lines, entries);
      }
    }
  }

  lemma NothingWritten()
    ensures Written([]) == []
  {
  }

  lemma EntriesSplit(lines: seq<Text>, entries: seq<Chains.Entry>)
    requires lines != [] && entries != [] && !Chains.Blank(lines[|lines| - 1])
    ensures Chains.EntriesOf(lines) == Some(entries) <==>
              && Chains.EntriesOf(lines[..|lines| - 1]) == Some(entries[..|entries| - 1])
              && Chains.EntryOf(lines[|lines| - 1]) == Some(entries[|entries| - 1])
  {
    hide Chains.Blank, Chains.EntryOf;
    assert entries == entries[..|entries| - 1] + [entries[|entries| - 1]];
  }

  /** What the first record and the first row follow: sixty-four zeros. */
  lemma GenesisText()
    ensures |Chains.GENESIS| == 64 && forall i :: 0 <= i < 64 ==> Chains.GENESIS[i] == '0' as int
    ensures Chains.Zeros(64) == Chains.GENESIS
  {
  }

  /** What is hashed for a record: its canonical text, and then the previous hash. */
  lemma LinkedText(record: Value, prev: Text)
    requires IsAscii(prev)
    ensures Chains.LinkBytes(record, prev) == Dumps(record) + prev
  {
    hide Dumps;
    Utf8.EncodeAscii(prev);
  }

  /* -- revocation events ---------------------------------------------------------------------- */

  /** What is hashed for a row: the previous hash, and then the canonical text of its event. */
  lemma EventText(h: Hasher, prev: Text, e: Revocations.Event)
    requires IsAscii(prev)
    ensures Revocations.EventHash(h, prev, e) == h(Revocations.EventBytes(prev, e))
    ensures Revocations.EventBytes(prev, e) == prev + Dumps(Obj(
      map[Ascii("action") := Str(e.action), Ascii("model_id") := Str(e.modelId), Ascii("version") := Str(e.version),
          Ascii("actor") := Str(e.actor), Ascii("reason") := Str(e.reason), Ascii("revoked_at") := Str(e.revokedAt)]))
  {
    hide Dumps;
    Utf8.EncodeAscii(prev);
  }

  /** The dictionary the local registry logs for a revocation and for its reversal. */
  lemma LogRecordText(r: Registries.LogRecord)
    ensures Registries.LogValue(r) == match r
      case LogRevoke(rev) => Obj(
        map[Ascii("action") := Str(Ascii("revoke")), Ascii("model_id") := Str(rev.modelId), Ascii("version") := Str(rev.version),
            Ascii("revoked_by") := Str(rev.revokedBy), Ascii("reason") := Str(rev.reason), Ascii("revoked_at") := Str(rev.revokedAt)])
      case LogUnrevoke(id, v, actor, reason) => Obj(
        map[Ascii("action") := Str(Ascii("unrevoke")), Ascii("model_id") := Str(id), Ascii("version") := Str(v),
            Ascii("revoked_by") := Str(actor), Ascii("reason") := Str(reason)])
  {
  }

  predicate Has(m: map<Text, Value>, name: string, v: Value) {
    Ascii(name) in m && m[Ascii(name)] == v
  }

  /** The record is about this version. */
  predicate Concerns(m: map<Text, Value>, id: Text, version: Text) {
    Has(m, "model_id", Str(id)) && Has(m, "version", Str(version))
  }

  /** What one record of the log does to the standing of a version: nothing if it is about
      another, whatever else it holds; a revocation sets it, the opposite clears it, and any
      other action leaves it. */
  lemma RecordReplayed(latest: Option<Registries.Revocation>, m: map<Text, Value>, id: Text, version: Text,
                       actor: Text, reason: Text, at: Text)
    ensures var after := Registries.ReplayOne(latest, Obj(m), (id, version));
      && (Ascii("model_id") in m && Ascii("version") in m && !Concerns(m, id, version) ==> after == Some(latest))
      && (Concerns(m, id, version) && Has(m, "action", Str(Ascii("unrevoke"))) ==> after == Some(None))
      && (Concerns(m, id, version) && Revokes(m, actor, reason, at) ==>
            after == Some(Some(Registries.Revocation(id, version, actor, reason, at))))
      && (Concerns(m, id, version) && OtherAction(m) ==> after == Some(latest))
  {
    hide Ascii;
    ActionsDiffer();
  }

  predicate Revokes(m: map<Text, Value>, actor: Text, reason: Text, at: Text) {
    && Has(m, "action", Str(Ascii("revoke")))
    && Has(m, "revoked_by", Str(actor)) && Has(m, "reason", Str(reason)) && Has(m, "revoked_at", Str(at))
  }

  predicate OtherAction(m: map<Text, Value>) {
    Ascii("action") in m && m[Ascii("action")] != Str(Ascii("revoke")) && m[Ascii("action")] != Str(Ascii("unrevoke"))
  }

  lemma ActionsDiffer()
    ensures Ascii("revoke") != Ascii("unrevoke")
  {
    assert |Ascii("revoke")| == 6 && |Ascii("unrevoke")| == 8;
  }

  /** When the replay raises: a key that is needed is missing, or not a text. */
  lemma RecordRaises(latest: Option<Registries.Revocation>, m: map<Text, Value>, id: Text, version: Text)
    ensures Registries.ReplayOne(latest, Obj(m), (id, version)).None? <==>
      || Ascii("model_id") !in m
      || (Has(m, "model_id", Str(id)) && Ascii("version") !in m)
      || (Concerns(m, id, version) && Ascii("action") !in m)
      || (Concerns(m, id, version) && Has(m, "action", Str(Ascii("revoke")))
          && !(HasText(m, "revoked_by") && HasText(m, "reason") && HasText(m, "revoked_at")))
  {
    hide Ascii;
  }

  predicate HasText(m: map<Text, Value>, name: string) {
    Ascii(name) in m && m[Ascii(name)].Str?
  }

  /* -- the signed payload ---------------------------------------------------------------------- */

  /** A member that is there exactly when its field is set. */
  predicate Holds(v: Value, name: string, field: Option<Text>) {
    && v.Obj?
    && (Ascii(name) in v.members <==> field.Some?)
    && (field.Some? ==> v.members[Ascii(name)] == Str(field.value))
  }

  /** The signed bytes are the canonical text of an object with exactly the set fields of the
      payload, each under its own name. */
  lemma SignedText(p: Signatures.Payload)
    ensures var v := Signatures.PayloadValue(p);
      && Signatures.CanonicalJson(p) == Dumps(v)
      && Holds(v, "schema_version", Some(p.schemaVersion)) && Holds(v, "artifact_digest", Some(p.artifactDigest))
      && Holds(v, "mbom_digest", Some(p.mbomDigest)) && Holds(v, "model_id", p.modelId) && Holds(v, "version", p.version)
      && Holds(v, "signer_identity", Some(p.signerIdentity)) && Holds(v, "signed_at", Some(p.signedAt))
      && Holds(v, "signature_algorithm", p.signatureAlgorithm) && Holds(v, "key_id", p.keyId)
      && forall k :: k in v.members ==> k in {
           Ascii("schema_version"), Ascii("artifact_digest"), Ascii("mbom_digest"), Ascii("model_id"), Ascii("version"),
           Ascii("signer_identity"), Ascii("signed_at"), Ascii("signature_algorithm"), Ascii("key_id")}
  {
    hide Dumps, Signatures.ObjectOf, Signatures.DistinctFaithfulKeys;
    var fields := Signatures.FieldsOf(p);
    Signatures.PayloadKeys(p);
    SignedFields(p, 0);
    SignedFields(p, 1);
    SignedFields(p, 2);
    SignedFields(p, 3);
    SignedFields(p, 4);
    SignedFields(p, 5);
    SignedFields(p, 6);
    SignedFields(p, 7);
    SignedFields(p, 8);
    Signatures.ObjectKeys(fields);
  }

  lemma SignedFields(p: Signatures.Payload, i: nat)
    requires i < 9
    ensures var fields := Signatures.FieldsOf(p);
      var m := Signatures.ObjectOf(fields);
      && (fields[i].0 in m <==> fields[i].1.Some?)
      && (fields[i].1.Some? ==> m[fields[i].0] == Str(fields[i].1.value))
  {
    hide Signatures.ObjectOf, Signatures.DistinctFaithfulKeys;
    Signatures.PayloadKeys(p);
    Signatures.ObjectField(Signatures.FieldsOf(p), i);
  }

  /** The hexadecimal spelling of bytes: two digits for each, the high one first. */
  lemma {:induction false} HexText(b: Bytes, i: nat)
    requires i < |b|
    ensures |Signatures.ToHex(b)| == 2 * |b|
    ensures Signatures.ToHex(b)[2 * i] == HEX_DIGITS[b[i] / 16] as int && Signatures.ToHex(b)[2 * i + 1] == HEX_DIGITS[b[i] % 16] as int
  {
    hide HexDigit;
    Signatures.ToHexReads(b);
    var first: Byte := b[0];
    HexDigitText(first / 16);
    HexDigitText(first % 16);
    if i > 0 {
      HexText(b[1..], i - 1);
      assert Signatures.ToHex(b)[2..] == Signatures.ToHex(b[1..]);
    }
  }
}
