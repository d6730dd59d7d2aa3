/** The characters of canonical JSON, written out: an independent description of what
    json.dumps(sort_keys=True, separators=(",", ":")) prints, and of what json.loads takes. */
module JsonText {
  import opened Outcomes
  import opened Unicode
  import opened Json

  /* -- strings ------------------------------------------------------------------------ */

  const HEX_DIGITS := "0123456789abcdef"

  /** Four hexadecimal digits in lower case, the most significant first. */
  function FourDigits(n: int): Text
    requires 0 <= n < 0x10000
  {
    [HEX_DIGITS[n / 0x1000] as int, HEX_DIGITS[n / 0x100 % 0x10] as int, HEX_DIGITS[n / 0x10 % 0x10] as int, HEX_DIGITS[n % 0x10] as int]
  }

  /** One character inside a string literal. */
  function Spelling(c: CodePoint): Text {
    if c == 0x22 then Ascii("\\\"")
    else if c == 0x5C then Ascii("\\\\")
    else if c == 0x08 then Ascii("\\b")
    else if c == 0x09 then Ascii("\\t")
    else if c == 0x0A then Ascii("\\n")
    else if c == 0x0C then Ascii("\\f")
    else if c == 0x0D then Ascii("\\r")
    else if 0x20 <= c <= 0x7E then [c]
    else if c <= 0xFFFF then Ascii("\\u") + FourDigits(c)
    else Ascii("\\u") + FourDigits(0xD800 + (c - 0x10000) / 0x400) + Ascii("\\u") + FourDigits(0xDC00 + (c - 0x10000) % 0x400)
  }

  function Spell(s: Text): Text {
    if s == [] then [] else Spell(s[..|s| - 1]) + Spelling(s[|s| - 1])
  }

  function Quoted(s: Text): Text {
    [0x22] + Spell(s) + [0x22]
  }

  lemma HexDigitText(d: int)
    requires 0 <= d < 16
    ensures HEX_DIGITS[d] as int == HexDigit(d)
  {
  }

  lemma UnicodeEscapeText(n: int)
    requires 0 <= n < 0x10000
    ensures UnicodeEscape(n) == Ascii("\\u") + FourDigits(n)
  {
    hide HexDigit;
    HexDigitText(n / 4096);
    HexDigitText(n / 256 % 16);
    HexDigitText(n / 16 % 16);
    HexDigitText(n % 16);
    assert Ascii("\\u") == [92, 117];
  }

  lemma EscapeText(c: CodePoint)
    ensures Escape(c) == Spelling(c)
  {
    hide UnicodeEscape, FourDigits;
    assert Ascii("\\\"") == [92, 34] && Ascii("\\\\") == [92, 92] && Ascii("\\b") == [92, 98] && Ascii("\\t") == [92, 116];
    assert Ascii("\\n") == [92, 110] && Ascii("\\f") == [92, 102] && Ascii("\\r") == [92, 114];
    if 0xFFFF < c {
      UnicodeEscapeText(0xD800 + (c - 0x10000) / 0x400);
      UnicodeEscapeText(0xDC00 + (c - 0x10000) % 0x400);
    } else if ShortEscape(c) == 0 && !(32 <= c <= 126) {
      UnicodeEscapeText(c);
    }
  }

  lemma {:induction false} EscapeAllLast(s: Text, c: CodePoint)
    ensures EscapeAll(s + [c]) == EscapeAll(s) + Escape(c)
  {
    hide Escape;
    if s == [] {
      assert [c][1..] == [];
      assert [] + [c] == [c];
    } else {
      assert (s + [c])[1..] == s[1..] + [c];
      EscapeAllLast(s[1..], c);
    }
  }

  lemma {:induction false} EscapeAllText(s: Text)
    ensures EscapeAll(s) == Spell(s)
  {
    hide Escape, Spelling;
    if s != [] {
      var n := |s| - 1;
      EscapeAllText(s[..n]);
      EscapeAllLast(s[..n], s[n]);
      EscapeText(s[n]);
      assert s[..n] + [s[n]] == s;
    }
  }

  /** Every string is printed between quotes, character by character as spelled above. */
  lemma StringText(s: Text)
    ensures Dumps(Str(s)) == Quoted(s)
  {
    EscapeAllText(s);
  }

  /** Printable ASCII without quote and backslash is printed as it is. */
  lemma {:induction false} PlainText(s: Text)
    requires forall i :: 0 <= i < |s| ==> 0x20 <= s[i] <= 0x7E && s[i] != 0x22 && s[i] != 0x5C
    ensures Spell(s) == s
    ensures Dumps(Str(s)) == [0x22] + s + [0x22]
  {
    hide Dumps;
    StringText(s);
    if s != [] {
      var n := |s| - 1;
      PlainText(s[..n]);
      assert s[..n] + [s[n]] == s;
    }
  }

  /** The digits are 0-9 and a-f, and their value is the code unit. */
  lemma FourDigitsValue(n: int)
    requires 0 <= n < 0x10000
    ensures |FourDigits(n)| == 4
    ensures forall i :: 0 <= i < 4 ==> '0' as int <= FourDigits(n)[i] <= '9' as int || 'a' as int <= FourDigits(n)[i] <= 'f' as int
    ensures exists a: int, b: int, c: int, d: int ::
      0 <= a < 16 && 0 <= b < 16 && 0 <= c < 16 && 0 <= d < 16
      && FourDigits(n) == [HEX_DIGITS[a] as int, HEX_DIGITS[b] as int, HEX_DIGITS[c] as int, HEX_DIGITS[d] as int]
      && a * 4096 + b * 256 + c * 16 + d == n
  {
    hide HexDigit;
    var a, b, c, d := n / 4096, n / 256 % 16, n / 16 % 16, n % 16;
    Positional(n);
    InHexRange(a);
    InHexRange(b);
    InHexRange(c);
    InHexRange(d);
    assert FourDigits(n) == [HEX_DIGITS[a] as int, HEX_DIGITS[b] as int, HEX_DIGITS[c] as int, HEX_DIGITS[d] as int];
  }

  lemma Positional(n: int)
    requires 0 <= n < 0x10000
    ensures 0 <= n / 4096 < 16
    ensures n / 4096 * 4096 + n / 256 % 16 * 256 + n / 16 % 16 * 16 + n % 16 == n
  {
    assert n / 256 == n / 4096 * 16 + n / 256 % 16;
    assert n / 16 == n / 256 * 16 + n / 16 % 16;
  }

  lemma InHexRange(d: int)
    requires 0 <= d < 16
    ensures '0' as int <= HEX_DIGITS[d] as int <= '9' as int || 'a' as int <= HEX_DIGITS[d] as int <= 'f' as int
  {
  }

  /* -- numbers and words --------------------------------------------------------------- */

  /** The number a sequence of decimal digits denotes. */
  function Value10(digits: Text): int {
    if digits == [] then 0 else Value10(digits[..|digits| - 1]) * 10 + (digits[|digits| - 1] - '0' as int)
  }

  /** An integer is printed in decimal, without superfluous zeros, after a minus sign if it
      is negative. */
  lemma IntText(n: int)
    ensures n < 0 ==> Dumps(Int(n)) == Ascii("-") + Dumps(Int(-n))
    ensures n >= 0 ==>
      var d := Dumps(Int(n));
      && d != [] && (forall i :: 0 <= i < |d| ==> '0' as int <= d[i] <= '9' as int)
      && (|d| > 1 ==> d[0] != '0' as int) && Value10(d) == n
  {
    hide Digits;
    assert Ascii("-") == [45];
    if n >= 0 { DigitsText(n); }
  }

  lemma {:induction false} DigitsText(n: nat)
    ensures var d := Digits(n);
      && d != [] && (forall i :: 0 <= i < |d| ==> '0' as int <= d[i] <= '9' as int)
      && (n > 0 ==> d[0] != '0' as int) && (n == 0 ==> |d| == 1) && Value10(d) == n
  {
    if n >= 10 {
      DigitsText(n / 10);
      assert Digits(n)[..|Digits(n)| - 1] == Digits(n / 10);
    } else {
      assert Digits(n)[..0] == [];
    }
  }

  lemma WordText()
    ensures Dumps(Null) == Ascii("null") && Dumps(Bool(true)) == Ascii("true") && Dumps(Bool(false)) == Ascii("false")
  {
    assert Ascii("null") == [110, 117, 108, 108] && Ascii("true") == [116, 114, 117, 101];
    assert Ascii("false") == [102, 97, 108, 115, 101];
  }

  /* -- arrays and objects ---------------------------------------------------------------- */

  /** The parts with a comma between each two. */
  function Commas(parts: seq<Text>): Text {
    if parts == [] then []
    else if |parts| == 1 then parts[0]
    else parts[0] + [','as int] + Commas(parts[1..])
  }

  function Printed(items: seq<Value>): (r: seq<Text>)
    ensures |r| == |items|
    ensures forall i :: 0 <= i < |items| ==> r[i] == Dumps(items[i])
  {
    seq(|items|, i requires 0 <= i < |items| => Dumps(items[i]))
  }

  lemma {:induction false} ItemsText(items: seq<Value>)
    ensures DumpsItems(items) == Commas(Printed(items))
  {
    hide Dumps;
    if |items| > 1 {
      ItemsText(items[1..]);
      assert Printed(items)[1..] == Printed(items[1..]);
    }
  }

  /** An array is its printed items with commas, in square brackets. */
  lemma ArrayText(items: seq<Value>)
    ensures Dumps(Arr(items)) == Ascii("[") + Commas(Printed(items)) + Ascii("]")
  {
    hide Commas, DumpsItems;
    ItemsText(items);
    assert Ascii("[") == [91] && Ascii("]") == [93];
  }

  /** a comes before b: at the first place where they differ its character is smaller, or it
      ends there. */
  ghost predicate Before(a: Text, b: Text) {
    exists k: nat :: FirstDifference(a, b, k)
  }

  predicate FirstDifference(a: Text, b: Text, k: nat) {
    k <= |a| && k < |b| && a[..k] == b[..k] && (k == |a| || a[k] < b[k])
  }

  /** Python's order on strings. */
  lemma {:induction false} BelowIsBefore(a: Text, b: Text)
    ensures Below(a, b) <==> Before(a, b)
  {
    if b == [] {
    } else if a == [] {
      assert FirstDifference(a, b, 0);
    } else if a[0] != b[0] {
      if a[0] < b[0] { assert FirstDifference(a, b, 0); }
      forall k: nat | FirstDifference(a, b, k) ensures a[0] < b[0] {
        SharedHead(a, b, k);
      }
    } else {
      BelowIsBefore(a[1..], b[1..]);
      if k: nat :| FirstDifference(a[1..], b[1..], k) {
        LaterDifference(a, b, k);
        assert FirstDifference(a, b, k + 1);
      }
      if k: nat :| FirstDifference(a, b, k) {
        assert k > 0;
        LaterDifference(a, b, k - 1);
        assert FirstDifference(a[1..], b[1..], k - 1);
      }
    }
  }

  lemma SharedHead(a: Text, b: Text, k: nat)
    requires FirstDifference(a, b, k)
    ensures k > 0 ==> a[0] == b[0]
  {
    if k > 0 {
      assert a[..k][0] == b[..k][0];
    }
  }

  lemma LaterDifference(a: Text, b: Text, k: nat)
    requires a != [] && b != [] && a[0] == b[0]
    ensures FirstDifference(a[1..], b[1..], k) <==> FirstDifference(a, b, k + 1)
  {
    if k + 1 <= |a| && k + 1 <= |b| {
      assert a[..k + 1] == [a[0]] + a[1..][..k] && b[..k + 1] == [b[0]] + b[1..][..k];
      assert a[..k + 1][1..] == a[1..][..k] && b[..k + 1][1..] == b[1..][..k];
    }
  }

  /** Names and the values of those that are present. */
  type Fields = seq<(Text, Option<Value>)>

  function MapOf(fields: Fields): map<Text, Value> {
    if fields == [] then map[]
    else
      var n := |fields| - 1;
      var rest := MapOf(fields[..n]);
      if fields[n].1.None? then rest else rest[fields[n].0 := fields[n].1.value]
  }

  function Present(fields: Fields): seq<Text> {
    if fields == [] then []
    else
      var n := |fields| - 1;
      Present(fields[..n]) + if fields[n].1.None? then [] else [fields[n].0]
  }

  /** Each member that is present: its name, a colon, its value. */
  function Members(fields: Fields): seq<Text> {
    if fields == [] then []
    else
      var n := |fields| - 1;
      Members(fields[..n]) + if fields[n].1.None? then [] else [Quoted(fields[n].0) + [':' as int] + Dumps(fields[n].1.value)]
  }

  ghost predicate NamesSorted(fields: Fields) {
    forall i, j :: 0 <= i < j < |fields| ==> Below(fields[i].0, fields[j].0)
  }

  lemma {:induction false} PresentSorted(fields: Fields)
    requires NamesSorted(fields)
    ensures StrictlySorted(Present(fields))
    ensures forall k :: k in Present(fields) <==> k in MapOf(fields)
    ensures forall k :: k in Present(fields) ==> exists i :: 0 <= i < |fields| && fields[i].0 == k
  {
    hide Below;
    if fields != [] {
      var n := |fields| - 1;
      PresentSorted(fields[..n]);
      var p := Present(fields[..n]);
      forall i | 0 <= i < |p| ensures Below(p[i], fields[n].0) {
        assert p[i] in p;
        var j :| 0 <= j < n && fields[..n][j].0 == p[i];
      }
      forall k | k in Present(fields) ensures exists i :: 0 <= i < |fields| && fields[i].0 == k {
        if k in p {
          var j :| 0 <= j < n && fields[..n][j].0 == k;
          assert fields[j].0 == k;
        } else {
          assert fields[n].0 == k;
        }
      }
    }
  }

  function MemberTexts(v: Value, keys: seq<Text>): (r: seq<Text>)
    requires v.Obj? && forall k :: k in keys ==> k in v.members
    ensures |r| == |keys|
    ensures forall i :: 0 <= i < |keys| ==> keys[i] in v.members && r[i] == Quoted(keys[i]) + [':' as int] + Dumps(v.members[keys[i]])
  {
    assert forall i :: 0 <= i < |keys| ==> keys[i] in keys;
    seq(|keys|, i requires 0 <= i < |keys| => Quoted(keys[i]) + [':' as int] + Dumps(v.members[keys[i]]))
  }

  lemma {:induction false} MembersText(v: Value, keys: seq<Text>)
    requires v.Obj? && forall k :: k in keys ==> k in v.members
    ensures DumpsMembers(v, keys) == Commas(MemberTexts(v, keys))
    decreases |keys|
  {
    hide Dumps, Quoted, Quote;
    if keys != [] {
      assert Quote(keys[0]) == Quoted(keys[0]) by { QuoteText(keys[0]); }
      MembersText(v, keys[1..]);
      assert MemberTexts(v, keys)[1..] == MemberTexts(v, keys[1..]);
    }
  }

  lemma QuoteText(s: Text)
    ensures Quote(s) == Quoted(s)
  {
    EscapeAllText(s);
  }

  lemma {:induction false} FieldTexts(fields: Fields)
    requires NamesSorted(fields)
    ensures forall k :: k in Present(fields) ==> k in MapOf(fields)
    ensures MemberTexts(Obj(MapOf(fields)), Present(fields)) == Members(fields)
  {
    hide Dumps, Quoted, Below;
    PresentSorted(fields);
    if fields != [] {
      var n := |fields| - 1;
      FieldTexts(fields[..n]);
      PresentSorted(fields[..n]);
      LastNameNew(fields);
      var p := Present(fields[..n]);
      var whole, init := MemberTexts(Obj(MapOf(fields)), Present(fields)), MemberTexts(Obj(MapOf(fields[..n])), p);
      forall i | 0 <= i < |p| ensures whole[i] == init[i] {
        assert p[i] in p;
        assert Present(fields)[i] == p[i];
      }
      assert whole[..|p|] == init;
    }
  }

  lemma LastNameNew(fields: Fields)
    requires fields != [] && NamesSorted(fields)
    ensures fields[|fields| - 1].0 !in MapOf(fields[..|fields| - 1])
  {
    hide Below;
    var n := |fields| - 1;
    PresentSorted(fields[..n]);
    if fields[n].0 in Present(fields[..n]) {
      var j :| 0 <= j < n && fields[..n][j].0 == fields[n].0;
      BelowTotal(fields[j].0, fields[n].0);
      assert false;
    }
  }

  /** An object is its members in the order of their names, with commas, in braces. */
  lemma ObjectText(fields: Fields)
    requires NamesSorted(fields)
    ensures Dumps(Obj(MapOf(fields))) == Ascii("{") + Commas(Members(fields)) + Ascii("}")
  {
    hide Commas, Members, DumpsMembers, MapOf, Below, Present;
    PresentSorted(fields);
    FieldTexts(fields);
    var v := Obj(MapOf(fields));
    SortedUnique(Sort(MapOf(fields).Keys), Present(fields));
    MembersText(v, Present(fields));
    assert Ascii("{") == [123] && Ascii("}") == [125];
  }

  /* -- what json.loads takes --------------------------------------------------------------- */

  const UPPER_DIGITS := "0123456789ABCDEF"

  /** Hexadecimal digits are taken in either case. */
  lemma DigitRead(d: int)
    requires 0 <= d < 16
    ensures HexValue(HEX_DIGITS[d] as int) == d && HexValue(UPPER_DIGITS[d] as int) == d
  {
  }

  /** Nothing else is a hexadecimal digit. */
  lemma DigitsOnly(c: CodePoint)
    requires HexValue(c) != -1
    ensures exists d :: 0 <= d < 16 && (c == HEX_DIGITS[d] as int || c == UPPER_DIGITS[d] as int)
  {
    var d := HexValue(c);
    assert c == HEX_DIGITS[d] as int || c == UPPER_DIGITS[d] as int;
  }
}
