/** The documents json.loads takes, as a grammar (sections 2 to 7 of RFC 8259, integers only),
    and what each means: the reader accepts exactly these. */
module JsonGrammar {
  import opened Unicode
  import opened Json
  import opened JsonRoundTrip

  /* -- the grammar ------------------------------------------------------------------------ */

  /** What stands for one code unit inside a string: the character itself, a two-character
      escape, or an escape with four hexadecimal digits. */
  datatype Letter = Plain(c: CodePoint) | Short(c: CodePoint) | Unit(a: CodePoint, b: CodePoint, c': CodePoint, d: CodePoint)

  datatype Syntax =
    | Word(v: Value)
    | Numeral(negative: bool, digits: Text)
    | Chars(letters: seq<Letter>)
    | List(inner: Text, items: seq<Item>)
    | Table(inner: Text, rows: seq<Row>)

  /** A value between spaces. */
  datatype Item = Item(before: Text, value: Syntax, after: Text)

  /** A name between spaces, and the value. */
  datatype Row = Row(before: Text, name: seq<Letter>, after: Text, item: Item)

  predicate Spaces(s: Text) {
    forall i :: 0 <= i < |s| ==> s[i] == ' ' as int || s[i] == '\t' as int || s[i] == '\n' as int || s[i] == '\r' as int
  }

  predicate HexLetter(c: CodePoint) {
    '0' as int <= c <= '9' as int || 'a' as int <= c <= 'f' as int || 'A' as int <= c <= 'F' as int
  }

  predicate LetterOk(l: Letter) {
    match l
    case Plain(c) => c >= 0x20 && c != '\"' as int && c != '\\' as int
    case Short(c) => c in Ascii("\"\\/bfnrt")
    case Unit(a, b, c, d) => HexLetter(a) && HexLetter(b) && HexLetter(c) && HexLetter(d)
  }

  predicate LettersOk(letters: seq<Letter>) {
    forall i :: 0 <= i < |letters| ==> LetterOk(letters[i])
  }

  predicate Ok(s: Syntax) {
    match s
    case Word(v) => v in {Null, Bool(true), Bool(false)}
    case Numeral(_, digits) =>
      && digits != [] && (|digits| > 1 ==> digits[0] != '0' as int)
      && forall i :: 0 <= i < |digits| ==> '0' as int <= digits[i] <= '9' as int
    case Chars(letters) => LettersOk(letters)
    case List(inner, items) => Spaces(inner) && forall i :: 0 <= i < |items| ==> Padded(items[i]) && Ok(items[i].value)
    case Table(inner, rows) => Spaces(inner) && forall i :: 0 <= i < |rows| ==> Named(rows[i]) && Ok(rows[i].item.value)
  }

  predicate Padded(i: Item) {
    Spaces(i.before) && Spaces(i.after)
  }

  predicate Named(r: Row) {
    Spaces(r.before) && LettersOk(r.name) && Spaces(r.after) && Padded(r.item)
  }

  /* -- how it is written -------------------------------------------------------------------- */

  function LetterText(l: Letter): Text {
    match l
    case Plain(c) => [c]
    case Short(c) => ['\\' as int, c]
    case Unit(a, b, c, d) => ['\\' as int, 'u' as int, a, b, c, d]
  }

  function LettersText(letters: seq<Letter>): Text {
    if letters == [] then [] else LetterText(letters[0]) + LettersText(letters[1..])
  }

  function Written(s: Syntax): Text
    decreases s
  {
    match s
    case Word(v) => if v.Null? then Ascii("null") else if v == Bool(true) then Ascii("true") else Ascii("false")
    case Numeral(negative, digits) => (if negative then ['-' as int] else []) + digits
    case Chars(letters) => ['\"' as int] + LettersText(letters) + ['\"' as int]
    case List(inner, items) => ['[' as int] + (if items == [] then inner else ItemsWritten(items)) + [']' as int]
    case Table(inner, rows) => ['{' as int] + (if rows == [] then inner else RowsWritten(rows)) + ['}' as int]
  }

  function ItemWritten(i: Item): Text
    decreases i
  {
    i.before + Written(i.value) + i.after
  }

  function ItemsWritten(items: seq<Item>): Text
    decreases items
  {
    if items == [] then []
    else ItemWritten(items[0]) + if |items| == 1 then [] else [',' as int] + ItemsWritten(items[1..])
  }

  function RowWritten(r: Row): Text
    decreases r
  {
    r.before + (['\"' as int] + LettersText(r.name) + ['\"' as int]) + r.after + [':' as int] + ItemWritten(r.item)
  }

  function RowsWritten(rows: seq<Row>): Text
    decreases rows
  {
    if rows == [] then []
    else RowWritten(rows[0]) + if |rows| == 1 then [] else [',' as int] + RowsWritten(rows[1..])
  }

  /* -- what it means ---------------------------------------------------------------------------- */

  /** The code unit an escape with four digits gives. */
  function UnitValue(l: Letter): (r: int)
    ensures 0 <= r < 0x10000
  {
    if l.Unit? && LetterOk(l) then Hexadecimal(HexValue(l.a), HexValue(l.b), HexValue(l.c'), HexValue(l.d)) else 0
  }

  function Hexadecimal(a: int, b: int, c: int, d: int): (r: int)
    ensures 0 <= a < 16 && 0 <= b < 16 && 0 <= c < 16 && 0 <= d < 16 ==> 0 <= r < 0x10000
  {
    a * 0x1000 + b * 0x100 + c * 0x10 + d
  }

  function ShortValue(c: CodePoint): CodePoint {
    if c == 'b' as int then 0x08
    else if c == 'f' as int then 0x0C
    else if c == 'n' as int then 0x0A
    else if c == 'r' as int then 0x0D
    else if c == 't' as int then 0x09
    else c
  }

  /** A high surrogate escape directly before a low one makes one character with it. */
  predicate Pairs(letters: seq<Letter>) {
    && |letters| >= 2 && letters[0].Unit? && letters[1].Unit?
    && 0xD800 <= UnitValue(letters[0]) <= 0xDBFF && 0xDC00 <= UnitValue(letters[1]) <= 0xDFFF
  }

  function StringOf(letters: seq<Letter>): Text {
    if letters == [] then []
    else if Pairs(letters) then
      [0x10000 + (UnitValue(letters[0]) - 0xD800) * 0x400 + (UnitValue(letters[1]) - 0xDC00)] + StringOf(letters[2..])
    else
      var first := match letters[0]
        case Plain(c) => c
        case Short(c) => ShortValue(c)
        case Unit(_, _, _, _) => UnitValue(letters[0]);
      [first] + StringOf(letters[1..])
  }

  function Meant(s: Syntax): Value
    decreases s
  {
    match s
    case Word(v) => v
    case Numeral(negative, digits) => Int(if negative then -Number(digits) else Number(digits))
    case Chars(letters) => Str(StringOf(letters))
    case List(_, items) => Arr(ItemsMeant(items))
    case Table(_, rows) => Obj(RowsMeant(rows, map[]))
  }

  function ItemsMeant(items: seq<Item>): seq<Value>
    decreases items
  {
    if items == [] then [] else [Meant(items[0].value)] + ItemsMeant(items[1..])
  }

  /** A name that is repeated has its last value. */
  function RowsMeant(rows: seq<Row>, seen: map<Text, Value>): map<Text, Value>
    decreases rows
  {
    if rows == [] then seen else RowsMeant(rows[1..], seen[StringOf(rows[0].name) := Meant(rows[0].item.value)])
  }

  /* -- strings -------------------------------------------------------------------------------- */

  lemma HexLetters(c: CodePoint)
    ensures HexLetter(c) <==> HexValue(c) >= 0
    ensures HexValue(c) < 16
  {
  }

  lemma ShortLetters(c: CodePoint)
    ensures c in Ascii("\"\\/bfnrt") <==> Unescape(c) >= 0
    ensures Unescape(c) >= 0 ==> Unescape(c) == ShortValue(c) && c != LOWER_U
  {
    assert Ascii("\"\\/bfnrt") == [34, 92, 47, 98, 102, 110, 114, 116];
  }

  /** The four digits of an escape, wherever it stands. */
  lemma HexAtUnit(l: Letter, t: Text)
    requires l.Unit? && LetterOk(l)
    ensures HexAt(LetterText(l) + t, 2) == UnitValue(l)
  {
    var s := LetterText(l) + t;
    assert s[2] == l.a && s[3] == l.b && s[4] == l.c' && s[5] == l.d;
    HexLetters(l.a);
    HexLetters(l.b);
    HexLetters(l.c');
    HexLetters(l.d);
  }

  lemma HexAtShift(s: Text, i: nat, k: nat)
    requires k <= |s|
    ensures HexAt(s, k + i) == HexAt(s[k..], i)
  {
  }

  /** An escape with digits, depending on what follows it. */
  lemma ScanUnit(l: Letter, t: Text)
    requires l.Unit? && LetterOk(l)
    ensures var u := UnitValue(l);
      ScanString(LetterText(l) + t) ==
        if High(u) && |t| >= 2 && t[0] == BACKSLASH && t[1] == LOWER_U && HexAt(t, 2) < 0 then Fail
        else if High(u) && |t| >= 2 && t[0] == BACKSLASH && t[1] == LOWER_U && Low(HexAt(t, 2))
        then Prepend(Combine(u, HexAt(t, 2)), ScanString(t[6..]))
        else Prepend(u, ScanString(t))
  {
    hide HexAt, UnitValue, ScanString;
    var s := LetterText(l) + t;
    HexAtUnit(l, t);
    assert s[6..] == t;
    ScanEscape(s);
  }

  lemma ScanEscape(s: Text)
    requires |s| >= 6 && s[0] == BACKSLASH && s[1] == LOWER_U && HexAt(s, 2) >= 0
    ensures var u, t := HexAt(s, 2), s[6..];
      ScanString(s) ==
        if High(u) && |t| >= 2 && t[0] == BACKSLASH && t[1] == LOWER_U && HexAt(t, 2) < 0 then Fail
        else if High(u) && |t| >= 2 && t[0] == BACKSLASH && t[1] == LOWER_U && Low(HexAt(t, 2))
        then Prepend(Combine(u, HexAt(t, 2)), ScanString(t[6..]))
        else Prepend(u, ScanString(t))
  {
    hide HexAt;
    var t := s[6..];
    HexAtShift(s, 2, 6);
    HexAtLong(t, 2);
    if |t| >= 6 { assert s[12..] == t[6..]; }
    if |t| >= 2 { assert s[6] == t[0] && s[7] == t[1]; }
  }

  lemma HexAtLong(t: Text, i: nat)
    ensures HexAt(t, i) >= 0 ==> |t| >= i + 4
  {
  }

  /** A written string reads as what it means. */
  lemma {:induction false} ScanLetters(letters: seq<Letter>, rest: Text)
    requires LettersOk(letters)
    ensures ScanString(LettersText(letters) + ([QUOTE] + rest)) == At(StringOf(letters), rest)
  {
    var end := [QUOTE] + rest;
    var s := LettersText(letters) + end;
    if letters == [] {
      assert s == end && end[1..] == rest;
    } else {
      var t := LettersText(letters[1..]) + end;
      assert s == LetterText(letters[0]) + t;
      ScanLetters(letters[1..], rest);
      if |letters| >= 2 { ScanLetters(letters[2..], rest); }
      match letters[0]
      case Plain(c) => assert s[0] == c && s[1..] == t;
      case Short(c) =>
        ShortLetters(c);
        assert s[0] == BACKSLASH && s[1] == c && s[2..] == t;
      case Unit(_, _, _, _) =>
        ScanLettersUnit(letters, rest);
    }
  }

  lemma ScanLettersUnit(letters: seq<Letter>, rest: Text)
    requires LettersOk(letters) && letters != [] && letters[0].Unit?
    requires ScanString(LettersText(letters[1..]) + ([QUOTE] + rest)) == At(StringOf(letters[1..]), rest)
    requires |letters| >= 2 ==> ScanString(LettersText(letters[2..]) + ([QUOTE] + rest)) == At(StringOf(letters[2..]), rest)
    ensures ScanString(LettersText(letters) + ([QUOTE] + rest)) == At(StringOf(letters), rest)
  {
    hide HexAt, UnitValue, ScanString, LettersText, LetterText, StringOf;
    var end := [QUOTE] + rest;
    var t := LettersText(letters[1..]) + end;
    FirstLetter(letters, end);
    NextLetter(letters[1..], end);
    ScanUnit(letters[0], t);
    UnfoldString(letters);
    if |letters| >= 2 && letters[1].Unit? {
      assert letters[1..][1..] == letters[2..];
      FirstLetter(letters[1..], end);
      FirstUnit(letters[1..], end);
      UnitLength(letters[1], LettersText(letters[2..]) + end);
    }
  }

  lemma FirstLetter(letters: seq<Letter>, end: Text)
    requires letters != []
    ensures LettersText(letters) + end == LetterText(letters[0]) + (LettersText(letters[1..]) + end)
  {
  }

  lemma UnitLength(l: Letter, t: Text)
    requires l.Unit?
    ensures |LetterText(l) + t| >= 6 && (LetterText(l) + t)[6..] == t
  {
  }

  lemma UnfoldString(letters: seq<Letter>)
    requires letters != [] && letters[0].Unit?
    ensures StringOf(letters) ==
      if Pairs(letters) then [Combine(UnitValue(letters[0]), UnitValue(letters[1]))] + StringOf(letters[2..])
      else [UnitValue(letters[0])] + StringOf(letters[1..])
  {
    hide UnitValue;
  }

  /** Only another escape with digits continues with a backslash and a u. */
  lemma NextLetter(letters: seq<Letter>, end: Text)
    requires LettersOk(letters) && end != [] && end[0] == QUOTE
    ensures var t := LettersText(letters) + end;
      (|t| >= 2 && t[0] == BACKSLASH && t[1] == LOWER_U) <==> letters != [] && letters[0].Unit?
  {
    if letters != [] && letters[0].Short? { ShortLetters(letters[0].c); }
    if letters != [] {
      var t := LettersText(letters) + end;
      assert t[0] == LetterText(letters[0])[0];
      if |LetterText(letters[0])| > 1 { assert t[1] == LetterText(letters[0])[1]; }
    }
  }

  lemma ConsLetter(l: Letter, more: seq<Letter>, s: Text, end: Text)
    requires LetterOk(l) && LettersOk(more) && s == LetterText(l) + (LettersText(more) + end)
    ensures LettersOk([l] + more) && s == LettersText([l] + more) + end
    ensures ([l] + more)[0] == l && ([l] + more)[1..] == more
  {
    var letters := [l] + more;
    assert letters[1..] == more;
    assert LettersText(letters) == LetterText(l) + LettersText(more);
  }

  /** The letter an escape with four digits is. */
  lemma UnitAt(s: Text) returns (l: Letter)
    requires |s| >= 6 && s[0] == BACKSLASH && s[1] == LOWER_U && HexAt(s, 2) >= 0
    ensures l.Unit? && LetterOk(l) && UnitValue(l) == HexAt(s, 2) && s == LetterText(l) + s[6..]
  {
    l := Unit(s[2], s[3], s[4], s[5]);
    HexLetters(l.a);
    HexLetters(l.b);
    HexLetters(l.c');
    HexLetters(l.d);
    assert s == s[..6] + s[6..] && s[..6] == LetterText(l);
  }

  /** Every string that is read was written by letters. */
  lemma {:induction false} StringLetters(s: Text) returns (letters: seq<Letter>)
    requires ScanString(s).At?
    ensures LettersOk(letters) && StringOf(letters) == ScanString(s).value
    ensures s == LettersText(letters) + ([QUOTE] + ScanString(s).rest)
    decreases |s|, 1
  {
    hide UnitValue, HexAt;
    var end := [QUOTE] + ScanString(s).rest;
    if s[0] == QUOTE {
      letters := [];
      assert s == [QUOTE] + s[1..];
    } else if s[0] != BACKSLASH {
      var more := StringLetters(s[1..]);
      assert s == LetterText(Plain(s[0])) + s[1..];
      ConsLetter(Plain(s[0]), more, s, end);
      letters := [Plain(s[0])] + more;
    } else if s[1] != LOWER_U {
      ShortLetters(s[1]);
      var more := StringLetters(s[2..]);
      assert s == LetterText(Short(s[1])) + s[2..];
      ConsLetter(Short(s[1]), more, s, end);
      letters := [Short(s[1])] + more;
    } else {
      letters := StringUnit(s);
    }
  }

  lemma StringUnit(s: Text) returns (letters: seq<Letter>)
    requires ScanString(s).At? && |s| >= 2 && s[0] == BACKSLASH && s[1] == LOWER_U
    ensures LettersOk(letters) && StringOf(letters) == ScanString(s).value
    ensures s == LettersText(letters) + ([QUOTE] + ScanString(s).rest)
    decreases |s|, 0
  {
    hide UnitValue, HexAt, ScanString, LettersText;
    EscapeTaken(s);
    var end := [QUOTE] + ScanString(s).rest;
    var l := UnitAt(s);
    var t := s[6..];
    ScanEscape(s);
    if High(HexAt(s, 2)) && |t| >= 2 && t[0] == BACKSLASH && t[1] == LOWER_U && Low(HexAt(t, 2)) {
      HexAtLong(t, 2);
      var low := UnitAt(t);
      var more := StringLetters(t[6..]);
      ConsLetter(low, more, t, end);
      ConsLetter(l, [low] + more, s, end);
      letters := [l] + ([low] + more);
      assert letters[2..] == more && letters[1] == low;
    } else {
      var more := StringLetters(t);
      NextLetter(more, end);
      if more != [] && more[0].Unit? {
        FirstUnit(more, end);
      }
      ConsLetter(l, more, s, end);
      letters := [l] + more;
    }
  }

  lemma EscapeTaken(s: Text)
    requires ScanString(s).At? && |s| >= 2 && s[0] == BACKSLASH && s[1] == LOWER_U
    ensures |s| >= 6 && HexAt(s, 2) >= 0
  {
  }

  lemma FirstUnit(letters: seq<Letter>, end: Text)
    requires LettersOk(letters) && letters != [] && letters[0].Unit?
    ensures HexAt(LettersText(letters) + end, 2) == UnitValue(letters[0])
  {
    hide HexAt, UnitValue;
    var t := LettersText(letters[1..]) + end;
    assert LettersText(letters) + end == LetterText(letters[0]) + t;
    HexAtUnit(letters[0], t);
  }

  /* -- spaces and numbers ----------------------------------------------------------------------- */

  predicate Space(c: CodePoint) {
    c == ' ' as int || c == '\t' as int || c == '\n' as int || c == '\r' as int
  }

  lemma {:induction false} SkipSpaces(sp: Text, t: Text)
    requires Spaces(sp) && (t != [] ==> !Space(t[0]))
    ensures SkipSpace(sp + t) == t
  {
    if sp == [] {
      assert sp + t == t;
    } else {
      assert (sp + t)[1..] == sp[1..] + t;
      SkipSpaces(sp[1..], t);
    }
  }

  lemma {:induction false} SpaceSplit(s: Text) returns (sp: Text)
    ensures Spaces(sp) && s == sp + SkipSpace(s)
    ensures SkipSpace(s) != [] ==> !Space(SkipSpace(s)[0])
  {
    if s != [] && Space(s[0]) {
      var more := SpaceSplit(s[1..]);
      sp := [s[0]] + more;
      assert s == [s[0]] + s[1..];
    } else {
      sp := [];
    }
  }

  /** Text that does not go on with a number. */
  predicate Stops(rest: Text) {
    rest == [] || (!IsDigit(rest[0]) && rest[0] != '.' as int && rest[0] != 'e' as int && rest[0] != 'E' as int)
  }

  lemma StopsIsNoSuffix(rest: Text)
    requires Stops(rest)
    ensures !FloatSuffix(rest)
  {
  }

  lemma ScanNumeral(negative: bool, digits: Text, rest: Text)
    requires Ok(Numeral(negative, digits)) && Stops(rest)
    ensures ScanNumber(Written(Numeral(negative, digits)) + rest) == At(Meant(Numeral(negative, digits)), rest)
  {
    hide DigitRun, Number, FloatSuffix;
    StopsIsNoSuffix(rest);
    DigitRunOf(digits, rest);
    var t := digits + rest;
    assert t[0] == digits[0] && digits[0] != MINUS;
    SplitAt(digits, rest);
    var s := Written(Numeral(negative, digits)) + rest;
    if negative {
      assert s[0] == MINUS && s[1..] == t;
    } else {
      assert s == t;
    }
    assert Number(t[..|digits|]) == Number(digits);
  }

  lemma NumeralRead(s: Text) returns (x: Syntax)
    requires ScanNumber(s).At?
    ensures x.Numeral? && Ok(x) && s == Written(x) + ScanNumber(s).rest && Meant(x) == ScanNumber(s).value
  {
    hide Number, FloatSuffix, DigitRun;
    var negative := s[0] == MINUS;
    var t := if negative then s[1..] else s;
    RunOfDigits(t);
    var k := if t[0] == 48 then 1 else DigitRun(t);
    x := Numeral(negative, t[..k]);
    assert t == t[..k] + t[k..];
    if negative { assert s == [MINUS] + t; }
  }

  lemma {:induction false} RunOfDigits(t: Text)
    ensures forall i :: 0 <= i < DigitRun(t) ==> IsDigit(t[i])
  {
    if t != [] && IsDigit(t[0]) { RunOfDigits(t[1..]); }
  }

  /* -- values, as they are written -------------------------------------------------------------- */

  lemma WrittenStart(x: Syntax)
    requires Ok(x)
    ensures Written(x) != [] && !Space(Written(x)[0]) && Written(x)[0] !in {RBRACKET, RBRACE, 0xFEFF}
  {
    if x.Word? { WordsAre(); }
  }

  lemma WordsAre()
    ensures Ascii("null") == NULL_WORD && Ascii("true") == TRUE_WORD && Ascii("false") == FALSE_WORD
  {
  }

  /** Every written value is read as what it means, whatever follows. */
  lemma {:induction false} ScanWritten(x: Syntax, rest: Text)
    requires Ok(x) && (x.Numeral? ==> Stops(rest))
    ensures ScanValue(Written(x) + rest) == At(Meant(x), rest)
    decreases x, 1
  {
    hide ScanValue, LettersText, StringOf, Number, Ascii;
    match x
    case Word(v) =>
      WordsAre();
      ScanWord(Written(x), rest);
    case Numeral(negative, digits) =>
      ScanNumeral(negative, digits, rest);
      NumeralIsValue(x, rest);
    case Chars(letters) =>
      ScanLetters(letters, rest);
      CharsAreValue(letters, rest);
    case List(_, _) => ScanList(x, rest);
    case Table(_, _) => ScanTable(x, rest);
  }

  lemma NumeralIsValue(x: Syntax, rest: Text)
    requires x.Numeral? && Ok(x)
    ensures ScanValue(Written(x) + rest) == ScanNumber(Written(x) + rest)
  {
    hide ScanNumber, ScanItems, ScanMembers, ScanString, SkipSpace;
    assert (Written(x) + rest)[0] == Written(x)[0];
  }

  lemma CharsAreValue(letters: seq<Letter>, rest: Text)
    requires ScanString(LettersText(letters) + ([QUOTE] + rest)) == At(StringOf(letters), rest)
    ensures ScanValue(Written(Chars(letters)) + rest) == At(Str(StringOf(letters)), rest)
  {
    hide ScanString, LettersText, StringOf;
    var s := Written(Chars(letters)) + rest;
    assert s[1..] == LettersText(letters) + ([QUOTE] + rest);
  }

  lemma ScanList(x: Syntax, rest: Text)
    requires x.List? && Ok(x)
    ensures ScanValue(Written(x) + rest) == At(Meant(x), rest)
    decreases x, 0
  {
    hide ScanValue, ScanItems, ItemsWritten, ItemsMeant, SkipSpace, Ok;
    var end := [RBRACKET] + rest;
    var body := if x.items == [] then x.inner else ItemsWritten(x.items);
    ListOk(x);
    assert Written(x) + rest == [LBRACKET] + (body + end);
    OpenList(body + end);
    if x.items == [] {
      SkipSpaces(x.inner, end);
      assert end[1..] == rest;
      assert ItemsMeant(x.items) == [] by { NothingMeant(); }
    } else {
      ScanItemsWritten(x.items, rest);
    }
  }

  lemma NothingMeant()
    ensures ItemsMeant([]) == [] && forall seen :: RowsMeant([], seen) == seen
  {
  }

  lemma ListOk(x: Syntax)
    requires x.List? && Ok(x)
    ensures Spaces(x.inner) && forall i :: 0 <= i < |x.items| ==> Padded(x.items[i]) && Ok(x.items[i].value)
  {
  }

  lemma OpenList(t: Text)
    ensures var u := SkipSpace(t);
      ScanValue([LBRACKET] + t) ==
        if u != [] && u[0] == RBRACKET then At(Arr([]), u[1..])
        else if ScanItems(u).Fail? then Fail else At(Arr(ScanItems(u).value), ScanItems(u).rest)
  {
    hide ScanItems, SkipSpace;
    var s := [LBRACKET] + t;
    assert s[0] == LBRACKET && s[1..] == t;
  }

  /** What is left of an item that is not the last: a comma and the others. */
  function Tail(items: seq<Item>): Text
    requires items != []
  {
    if |items| == 1 then [] else [COMMA] + ItemsWritten(items[1..])
  }

  lemma {:induction false} ScanItemsWritten(items: seq<Item>, rest: Text)
    requires items != [] && forall i :: 0 <= i < |items| ==> Padded(items[i]) && Ok(items[i].value)
    ensures var t := SkipSpace(ItemsWritten(items) + ([RBRACKET] + rest));
      t != [] && t[0] != RBRACKET && ScanItems(t) == At(ItemsMeant(items), rest)
    decreases items
  {
    hide ScanValue, Written, Meant, SkipSpace, Ok, ScanItems;
    var end := [RBRACKET] + rest;
    var first := items[0];
    var value, tail := Written(first.value), Tail(items) + end;
    ItemsSplit(items, end);
    WrittenStart(first.value);
    SkipSpaces(first.before, value + (first.after + tail));
    ScanWritten(first.value, first.after + tail);
    SkipSpaces(first.after, tail);
    ScanItem(value + (first.after + tail), Meant(first.value), first.after + tail);
    ItemsMeantFirst(items);
    if |items| == 1 {
      LastItem(items, end);
      assert end[1..] == rest && ItemsMeant(items) == [Meant(first.value)];
      assert tail == end && SkipSpace(first.after + tail) == end;
    } else {
      ScanItemsWritten(items[1..], rest);
      MoreItems(items, end);
    }
  }

  lemma ItemsMeantFirst(items: seq<Item>)
    requires items != []
    ensures ItemsMeant(items) == [Meant(items[0].value)] + ItemsMeant(items[1..])
  {
    hide Meant;
  }

  lemma LastItem(items: seq<Item>, end: Text)
    requires |items| == 1
    ensures Tail(items) + end == end && items[1..] == [] && ItemsMeant(items[1..]) == []
  {
  }

  lemma MoreItems(items: seq<Item>, end: Text)
    requires |items| > 1
    ensures var tail := Tail(items) + end;
      tail != [] && tail[0] == COMMA && tail[1..] == ItemsWritten(items[1..]) + end
  {
    hide ItemsWritten;
  }

  /** One item, read step by step. */
  lemma ScanItem(s: Text, value: Value, after: Text)
    requires ScanValue(s) == At(value, after)
    ensures var u := SkipSpace(after);
      ScanItems(s) ==
        if u == [] then Fail
        else if u[0] == RBRACKET then At([value], u[1..])
        else if u[0] == COMMA then
          var more := ScanItems(SkipSpace(u[1..]));
          if more.Fail? then Fail else At([value] + more.value, more.rest)
        else Fail
  {
    hide ScanValue, SkipSpace;
  }

  lemma ItemsSplit(items: seq<Item>, end: Text)
    requires items != [] && end != [] && end[0] == RBRACKET
    ensures ItemsWritten(items) + end == items[0].before + (Written(items[0].value) + (items[0].after + (Tail(items) + end)))
    ensures Padded(items[0]) ==> Stops(items[0].after + (Tail(items) + end))
  {
    hide Written;
  }

  lemma ScanTable(x: Syntax, rest: Text)
    requires x.Table? && Ok(x)
    ensures ScanValue(Written(x) + rest) == At(Meant(x), rest)
    decreases x, 0
  {
    hide ScanValue, ScanMembers, RowsWritten, RowsMeant, SkipSpace, Ok;
    var end := [RBRACE] + rest;
    var body := if x.rows == [] then x.inner else RowsWritten(x.rows);
    TableOk(x);
    assert Written(x) + rest == [LBRACE] + (body + end);
    OpenTable(body + end);
    NothingMeant();
    if x.rows == [] {
      SkipSpaces(x.inner, end);
      assert end[1..] == rest;
    } else {
      ScanRowsWritten(x.rows, map[], rest);
    }
  }

  lemma TableOk(x: Syntax)
    requires x.Table? && Ok(x)
    ensures Spaces(x.inner) && forall i :: 0 <= i < |x.rows| ==> Named(x.rows[i]) && Ok(x.rows[i].item.value)
  {
  }

  lemma OpenTable(t: Text)
    ensures var u := SkipSpace(t);
      ScanValue([LBRACE] + t) ==
        if u == [] then Fail
        else if u[0] == RBRACE then At(Obj(map[]), u[1..])
        else if u[0] == QUOTE then ScanMembers(u[1..], map[])
        else Fail
  {
    hide ScanMembers, SkipSpace;
    var s := [LBRACE] + t;
    assert s[0] == LBRACE && s[1..] == t;
  }

  function RowsTail(rows: seq<Row>): Text
    requires rows != []
  {
    if |rows| == 1 then [] else [COMMA] + RowsWritten(rows[1..])
  }

  lemma {:induction false} ScanRowsWritten(rows: seq<Row>, seen: map<Text, Value>, rest: Text)
    requires rows != [] && forall i :: 0 <= i < |rows| ==> Named(rows[i]) && Ok(rows[i].item.value)
    ensures var t := SkipSpace(RowsWritten(rows) + ([RBRACE] + rest));
      t != [] && t[0] == QUOTE && ScanMembers(t[1..], seen) == At(Obj(RowsMeant(rows, seen)), rest)
    decreases rows
  {
    hide ScanValue, ScanString, Written, Meant, SkipSpace, Ok, ScanMembers, LettersText, StringOf, LettersOk, RowsWritten,
      RowsMeant, Stops;
    var end := [RBRACE] + rest;
    var first := rows[0];
    var item := first.item;
    var value, tail := Written(item.value), RowsTail(rows) + end;
    var b := value + (item.after + tail);
    var a := [COLON] + (item.before + b);
    var named := LettersText(first.name) + ([QUOTE] + (first.after + a));
    RowsSplit(rows, end);
    SkipSpaces(first.before, [QUOTE] + named);
    assert ([QUOTE] + named)[1..] == named;
    ScanLetters(first.name, first.after + a);
    SkipSpaces(first.after, a);
    assert a[1..] == item.before + b;
    WrittenStart(item.value);
    SkipSpaces(item.before, b);
    ScanWritten(item.value, item.after + tail);
    SkipSpaces(item.after, tail);
    var now := seen[StringOf(first.name) := Meant(item.value)];
    ScanRow(named, seen, StringOf(first.name), first.after + a, Meant(item.value), item.after + tail);
    RowsMeantFirst(rows, seen);
    if |rows| == 1 {
      assert tail == end && tail[1..] == rest && rows[1..] == [];
      NothingMeant();
    } else {
      ScanRowsWritten(rows[1..], now, rest);
      assert tail[1..] == RowsWritten(rows[1..]) + end;
    }
  }

  lemma RowsMeantFirst(rows: seq<Row>, seen: map<Text, Value>)
    requires rows != []
    ensures RowsMeant(rows, seen) == RowsMeant(rows[1..], seen[StringOf(rows[0].name) := Meant(rows[0].item.value)])
  {
  }

  lemma RowsSplit(rows: seq<Row>, end: Text)
    requires rows != [] && end != [] && end[0] == RBRACE
    ensures var first, item := rows[0], rows[0].item;
      RowsWritten(rows) + end ==
        first.before + ([QUOTE] + (LettersText(first.name) + ([QUOTE] + (first.after + ([COLON] + (item.before
          + (Written(item.value) + (item.after + (RowsTail(rows) + end)))))))))
    ensures Padded(rows[0].item) ==> Stops(rows[0].item.after + (RowsTail(rows) + end))
  {
    var first, item := rows[0], rows[0].item;
    RowsUnfold(rows);
    RowUnfold(first);
    RowTailStops(rows, end);
    hide *;
    RegroupRow(first.before, LettersText(first.name), first.after, item.before, Written(item.value), item.after,
               RowsTail(rows), end);
  }

  lemma RowTailStops(rows: seq<Row>, end: Text)
    requires rows != [] && end != [] && end[0] == RBRACE
    ensures Padded(rows[0].item) ==> Stops(rows[0].item.after + (RowsTail(rows) + end))
  {
    hide RowsWritten;
    var after, tail := rows[0].item.after, RowsTail(rows) + end;
    if after != [] { assert (after + tail)[0] == after[0]; } else { assert after + tail == tail; }
  }

  lemma RowsUnfold(rows: seq<Row>)
    requires rows != []
    ensures RowsWritten(rows) == RowWritten(rows[0]) + RowsTail(rows)
  {
    hide RowWritten;
  }

  lemma RowUnfold(r: Row)
    ensures RowWritten(r) == r.before + (['\"' as int] + LettersText(r.name) + ['\"' as int]) + r.after + [':' as int]
                             + (r.item.before + Written(r.item.value) + r.item.after)
  {
    hide LettersText, Written;
  }

  lemma RegroupRow(b: Text, n: Text, a: Text, ib: Text, v: Text, ia: Text, tail: Text, end: Text)
    ensures (b + (['\"' as int] + n + ['\"' as int]) + a + [':' as int] + (ib + v + ia)) + tail + end ==
            b + ([QUOTE] + (n + ([QUOTE] + (a + ([COLON] + (ib + (v + (ia + (tail + end)))))))))
  {
    var q := [QUOTE];
    var inner := ia + (tail + end);
    assert (ib + v + ia) + tail + end == ib + (v + inner);
    Three(b, q + n + q, a, [COLON], ib + v + ia, tail, end);
    assert (q + n + q) + (a + ([COLON] + (ib + (v + inner)))) == q + (n + (q + (a + ([COLON] + (ib + (v + inner))))));
  }

  lemma Three(b: Text, n: Text, a: Text, c: Text, i: Text, tail: Text, end: Text)
    ensures b + n + a + c + i + tail + end == b + (n + (a + (c + (i + tail + end))))
  {
    assert a + c + i + tail + end == a + (c + (i + tail + end));
    assert b + n + a + c + i + tail + end == b + n + (a + c + i + tail + end);
  }

  /** One member, read step by step. */
  lemma ScanRow(s: Text, seen: map<Text, Value>, key: Text, r: Text, value: Value, after: Text)
    requires ScanString(s) == At(key, r) && SkipSpace(r) != [] && SkipSpace(r)[0] == COLON
    requires ScanValue(SkipSpace(SkipSpace(r)[1..])) == At(value, after)
    ensures var now, u := seen[key := value], SkipSpace(after);
      ScanMembers(s, seen) ==
        if u == [] then Fail
        else if u[0] == RBRACE then At(Obj(now), u[1..])
        else if u[0] == COMMA then
          var w := SkipSpace(u[1..]);
          if w != [] && w[0] == QUOTE then ScanMembers(w[1..], now) else Fail
        else Fail
  {
    hide ScanString, ScanValue, SkipSpace;
  }

  /* -- values, as they are read ----------------------------------------------------------------- */

  /** Every value that is read was written in the grammar and means what was read. */
  lemma {:induction false} ValueSyntax(s: Text) returns (x: Syntax)
    requires ScanValue(s).At?
    ensures Ok(x) && s == Written(x) + ScanValue(s).rest && Meant(x) == ScanValue(s).value
    decreases |s|, 3
  {
    hide ScanString, ScanNumber, ScanItems, ScanMembers, SkipSpace, LettersText, StringOf, ItemsWritten, RowsWritten,
      ItemsMeant, RowsMeant, Number;
    WordsAre();
    var rest := ScanValue(s).rest;
    if s[0] == QUOTE {
      var letters := StringLetters(s[1..]);
      x := Chars(letters);
      assert s == [QUOTE] + s[1..];
    } else if s[0] == LBRACE {
      x := TableSyntax(s);
    } else if s[0] == LBRACKET {
      x := ListSyntax(s);
    } else if StartsWith(s, NULL_WORD) {
      x := Word(Null);
      assert s == NULL_WORD + s[4..];
    } else if StartsWith(s, TRUE_WORD) {
      x := Word(Bool(true));
      assert s == TRUE_WORD + s[4..];
    } else if StartsWith(s, FALSE_WORD) {
      x := Word(Bool(false));
      assert s == FALSE_WORD + s[5..];
    } else {
      x := NumeralRead(s);
    }
  }

  lemma ListSyntax(s: Text) returns (x: Syntax)
    requires s != [] && s[0] == LBRACKET && ScanValue(s).At?
    ensures Ok(x) && s == Written(x) + ScanValue(s).rest && Meant(x) == ScanValue(s).value
    decreases |s|, 2
  {
    hide ScanValue, ScanItems, SkipSpace, ItemsWritten, ItemsMeant;
    var t := s[1..];
    assert s == [LBRACKET] + t;
    OpenList(t);
    NothingMeant();
    var sp := SpaceSplit(t);
    var u := SkipSpace(t);
    if u != [] && u[0] == RBRACKET {
      x := List(sp, []);
      assert u == [RBRACKET] + u[1..];
    } else {
      var items := ItemsSyntax(u);
      var led := Led(sp, items);
      x := List([], led);
      LedItems(sp, items);
    }
  }

  /** The items with more space before the first. */
  function Led(sp: Text, items: seq<Item>): (r: seq<Item>)
    requires items != []
    ensures |r| == |items|
  {
    [Item(sp + items[0].before, items[0].value, items[0].after)] + items[1..]
  }

  lemma LedItems(sp: Text, items: seq<Item>)
    requires items != [] && Spaces(sp) && forall i :: 0 <= i < |items| ==> Padded(items[i]) && Ok(items[i].value)
    ensures ItemsWritten(Led(sp, items)) == sp + ItemsWritten(items) && ItemsMeant(Led(sp, items)) == ItemsMeant(items)
    ensures forall i :: 0 <= i < |items| ==> Padded(Led(sp, items)[i]) && Ok(Led(sp, items)[i].value)
  {
    hide *;
    LedOk(sp, items);
    LedParts(sp, items);
    ItemsUnfold(items);
    ItemsUnfold(Led(sp, items));
    LedItem(sp, items[0]);
    ItemsMeantFirst(items);
    ItemsMeantFirst(Led(sp, items));
    Assoc(sp, ItemWritten(items[0]), Tail(items));
  }

  lemma Assoc(a: Text, b: Text, c: Text)
    ensures (a + b) + c == a + (b + c)
  {
  }

  lemma LedOk(sp: Text, items: seq<Item>)
    requires items != [] && Spaces(sp) && forall i :: 0 <= i < |items| ==> Padded(items[i]) && Ok(items[i].value)
    ensures forall i :: 0 <= i < |items| ==> Padded(Led(sp, items)[i]) && Ok(Led(sp, items)[i].value)
  {
    hide Ok, Spaces;
    SpacesJoin(sp, items[0].before);
    forall i | 0 <= i < |items| ensures Padded(Led(sp, items)[i]) && Ok(Led(sp, items)[i].value) {
      if i > 0 { assert Led(sp, items)[i] == items[i]; }
    }
  }

  lemma LedParts(sp: Text, items: seq<Item>)
    requires items != []
    ensures var led := Led(sp, items);
      led[0] == Item(sp + items[0].before, items[0].value, items[0].after) && led[1..] == items[1..] && Tail(led) == Tail(items)
  {
    hide ItemsWritten;
    assert Led(sp, items)[1..] == items[1..];
    SameTail(Led(sp, items), items);
  }

  lemma SpacesJoin(a: Text, b: Text)
    requires Spaces(a) && Spaces(b)
    ensures Spaces(a + b)
  {
  }

  lemma SameTail(a: seq<Item>, b: seq<Item>)
    requires a != [] && |a| == |b| && a[1..] == b[1..]
    ensures Tail(a) == Tail(b)
  {
    hide ItemsWritten;
  }

  lemma LedItem(sp: Text, i: Item)
    ensures ItemWritten(Item(sp + i.before, i.value, i.after)) == sp + ItemWritten(i)
  {
    hide Written;
    assert (sp + i.before) + Written(i.value) == sp + (i.before + Written(i.value));
  }

  lemma ItemsUnfold(items: seq<Item>)
    requires items != []
    ensures ItemsWritten(items) == ItemWritten(items[0]) + Tail(items)
  {
    hide ItemWritten;
  }

  lemma {:induction false} ItemsSyntax(s: Text) returns (items: seq<Item>)
    requires ScanItems(s).At?
    ensures items != [] && forall i :: 0 <= i < |items| ==> Padded(items[i]) && Ok(items[i].value)
    ensures s == ItemsWritten(items) + ([RBRACKET] + ScanItems(s).rest) && ItemsMeant(items) == ScanItems(s).value
    decreases |s|, 4
  {
    hide ScanValue, SkipSpace, Written, Meant, Ok, ItemsWritten, ItemsMeant;
    var x := ValueSyntax(s);
    var after := ScanValue(s).rest;
    var sp := SpaceSplit(after);
    var u := SkipSpace(after);
    var first := Item([], x, sp);
    if u[0] == RBRACKET {
      items := [first];
      OneItem(first);
      assert u == [RBRACKET] + u[1..];
      assert s == Written(x) + sp + u;
    } else {
      var t := u[1..];
      assert u == [COMMA] + t;
      var gap := SpaceSplit(t);
      var more := ItemsSyntax(SkipSpace(t));
      LedItems(gap, more);
      items := [first] + Led(gap, more);
      AddItem(first, Led(gap, more));
      var end := [RBRACKET] + ScanItems(s).rest;
      ItemsJoin(Written(x), sp, ItemsWritten(Led(gap, more)), end, s);
    }
  }

  lemma ItemsJoin(v: Text, sp: Text, more: Text, end: Text, s: Text)
    requires s == v + (sp + ([COMMA] + (more + end)))
    ensures s == ((v + sp) + ([COMMA] + more)) + end
  {
  }

  lemma OneItem(first: Item)
    requires first.before == []
    ensures ItemsWritten([first]) == Written(first.value) + first.after && ItemsMeant([first]) == [Meant(first.value)]
  {
    hide Written, Meant;
  }

  lemma AddItem(first: Item, more: seq<Item>)
    requires first.before == [] && more != []
    ensures ItemsWritten([first] + more) == (Written(first.value) + first.after) + ([COMMA] + ItemsWritten(more))
    ensures ItemsMeant([first] + more) == [Meant(first.value)] + ItemsMeant(more)
  {
    hide Written, Meant;
    assert ([first] + more)[1..] == more;
  }

  lemma TableSyntax(s: Text) returns (x: Syntax)
    requires s != [] && s[0] == LBRACE && ScanValue(s).At?
    ensures Ok(x) && s == Written(x) + ScanValue(s).rest && Meant(x) == ScanValue(s).value
    decreases |s|, 2
  {
    hide ScanValue, ScanMembers, SkipSpace, RowsWritten, RowsMeant, LettersOk;
    var t := s[1..];
    assert s == [LBRACE] + t;
    OpenTable(t);
    NothingMeant();
    var sp := SpaceSplit(t);
    var u := SkipSpace(t);
    if u[0] == RBRACE {
      x := Table(sp, []);
      assert u == [RBRACE] + u[1..];
    } else {
      assert u == [QUOTE] + u[1..];
      var rows := RowsSyntax(u[1..], map[]);
      var led := LedBy(sp, rows);
      x := Table([], led);
      LedRows(sp, rows, map[]);
    }
  }

  function LedBy(sp: Text, rows: seq<Row>): (r: seq<Row>)
    requires rows != []
    ensures |r| == |rows|
  {
    [rows[0].(before := sp + rows[0].before)] + rows[1..]
  }

  lemma LedRows(sp: Text, rows: seq<Row>, seen: map<Text, Value>)
    requires rows != [] && Spaces(sp) && forall i :: 0 <= i < |rows| ==> Named(rows[i]) && Ok(rows[i].item.value)
    ensures RowsWritten(LedBy(sp, rows)) == sp + RowsWritten(rows) && RowsMeant(LedBy(sp, rows), seen) == RowsMeant(rows, seen)
    ensures forall i :: 0 <= i < |rows| ==> Named(LedBy(sp, rows)[i]) && Ok(LedBy(sp, rows)[i].item.value)
  {
    hide RowsWritten, RowsMeant, RowWritten, Ok, LettersOk;
    var led := LedBy(sp, rows);
    assert led[1..] == rows[1..];
    RowsUnfold(rows);
    RowsUnfold(led);
    LedRow(sp, rows[0]);
    RowsMeantFirst(rows, seen);
    RowsMeantFirst(led, seen);
  }

  lemma LedRow(sp: Text, r: Row)
    ensures RowWritten(r.(before := sp + r.before)) == sp + RowWritten(r)
  {
    RowUnfold(r);
    RowUnfold(r.(before := sp + r.before));
    hide *;
    Push(sp, r.before, ['\"' as int] + LettersText(r.name) + ['\"' as int], r.after, [':' as int],
         r.item.before + Written(r.item.value) + r.item.after);
  }

  lemma Push(sp: Text, b: Text, n: Text, a: Text, c: Text, i: Text)
    ensures (sp + b) + n + a + c + i == sp + (b + n + a + c + i)
  {
    assert (sp + b) + n == sp + (b + n);
    assert sp + (b + n) + a == sp + (b + n + a);
    assert sp + (b + n + a) + c == sp + (b + n + a + c);
  }

  lemma {:induction false} RowsSyntax(s: Text, seen: map<Text, Value>) returns (rows: seq<Row>)
    requires ScanMembers(s, seen).At?
    ensures rows != [] && forall i :: 0 <= i < |rows| ==> Named(rows[i]) && Ok(rows[i].item.value)
    ensures [QUOTE] + s == RowsWritten(rows) + ([RBRACE] + ScanMembers(s, seen).rest)
    ensures Obj(RowsMeant(rows, seen)) == ScanMembers(s, seen).value
    decreases |s|, 4
  {
    hide ScanMembers, SkipSpace, Meant, Ok, LettersText, LettersOk, StringOf, RowsWritten, RowsMeant, LedBy, RowWritten;
    var first, u := RowSyntax(s, seen);
    var now := seen[StringOf(first.name) := Meant(first.item.value)];
    if u[0] == RBRACE {
      rows := [first];
      OneRow(first, seen);
      assert u == [RBRACE] + u[1..];
      RowRead(s, first, [], u);
    } else {
      var t := u[1..];
      assert u == [COMMA] + t;
      var gap := SpaceSplit(t);
      var w := SkipSpace(t);
      assert w == [QUOTE] + w[1..];
      var more := RowsSyntax(w[1..], now);
      LedRows(gap, more, now);
      var led := LedBy(gap, more);
      rows := [first] + led;
      AddRow(first, led, seen);
      var end := [RBRACE] + ScanMembers(s, seen).rest;
      assert u == [COMMA] + RowsWritten(led) + end;
      RowRead(s, first, [COMMA] + RowsWritten(led), end);
    }
  }

  /** The text of a member up to what follows it. */
  ghost predicate Heads(s: Text, first: Row, u: Text) {
    s == LettersText(first.name) + ([QUOTE] + (first.after + ([COLON] + (first.item.before
           + (Written(first.item.value) + (first.item.after + u))))))
  }

  /** The first member that is read, and what follows it. */
  lemma RowSyntax(s: Text, seen: map<Text, Value>) returns (first: Row, u: Text)
    requires ScanMembers(s, seen).At?
    ensures first.before == [] && Named(first) && Ok(first.item.value) && Heads(s, first, u) && |u| < |s|
    ensures var now := seen[StringOf(first.name) := Meant(first.item.value)];
      && u != [] && (u[0] == RBRACE || u[0] == COMMA)
      && (u[0] == RBRACE ==> ScanMembers(s, seen) == At(Obj(now), u[1..]))
      && (u[0] == COMMA ==>
            var w := SkipSpace(u[1..]);
            w != [] && w[0] == QUOTE && ScanMembers(s, seen) == ScanMembers(w[1..], now))
    decreases |s|, 3
  {
    hide ScanValue, ScanString, ScanMembers, SkipSpace, Written, Meant, Ok, LettersText, LettersOk, StringOf;
    MembersTaken(s, seen);
    var letters := StringLetters(s);
    var r := ScanString(s).rest;
    var a := SpaceSplit(r);
    var c := SkipSpace(r);
    var gap := SpaceSplit(c[1..]);
    var b := SkipSpace(c[1..]);
    var x := ValueSyntax(b);
    var after := ScanValue(b).rest;
    var sp := SpaceSplit(after);
    u := SkipSpace(after);
    first := Row([], letters, a, Item(gap, x, sp));
    ScanRow(s, seen, ScanString(s).value, r, Meant(x), after);
    assert c == [COLON] + c[1..];
  }

  lemma MembersTaken(s: Text, seen: map<Text, Value>)
    requires ScanMembers(s, seen).At?
    ensures ScanString(s).At? && SkipSpace(ScanString(s).rest) != [] && SkipSpace(ScanString(s).rest)[0] == COLON
    ensures ScanValue(SkipSpace(SkipSpace(ScanString(s).rest)[1..])).At?
  {
    hide ScanString, ScanValue, SkipSpace;
  }

  lemma OneRow(first: Row, seen: map<Text, Value>)
    ensures RowsWritten([first]) == RowWritten(first)
    ensures RowsMeant([first], seen) == seen[StringOf(first.name) := Meant(first.item.value)]
  {
    hide RowWritten;
    RowsMeantFirst([first], seen);
    NothingMeant();
  }

  lemma AddRow(first: Row, more: seq<Row>, seen: map<Text, Value>)
    requires more != []
    ensures RowsWritten([first] + more) == RowWritten(first) + ([COMMA] + RowsWritten(more))
    ensures RowsMeant([first] + more, seen) == RowsMeant(more, seen[StringOf(first.name) := Meant(first.item.value)])
  {
    hide RowWritten;
    assert ([first] + more)[1..] == more;
    RowsMeantFirst([first] + more, seen);
  }

  /** The text of a member, put together again. */
  lemma RowRead(s: Text, first: Row, tail: Text, end: Text)
    requires first.before == []
    requires Heads(s, first, tail + end)
    ensures [QUOTE] + s == (RowWritten(first) + tail) + end
  {
    RowUnfold(first);
    assert s == LettersText(first.name) + ([QUOTE] + (first.after + ([COLON] + (first.item.before
                  + (Written(first.item.value) + (first.item.after + (tail + end)))))));
    hide *;
    RegroupRow([], LettersText(first.name), first.after, first.item.before, Written(first.item.value), first.item.after, tail, end);
  }

  /** The reader accepts exactly the documents of the grammar, and reads each as what it
      means. */
  lemma ReadsGrammar(s: Text, v: Value)
    ensures Loads(s) == Parsed(v) <==> exists d: Item :: Padded(d) && Ok(d.value) && s == ItemWritten(d) && Meant(d.value) == v
  {
    hide ScanValue, SkipSpace, Written, Meant, Ok;
    if Loads(s) == Parsed(v) {
      var sp := SpaceSplit(s);
      var x := ValueSyntax(SkipSpace(s));
      var after := SpaceSplit(ScanValue(SkipSpace(s)).rest);
      var d := Item(sp, x, after);
      assert s == ItemWritten(d);
    }
    if d: Item :| Padded(d) && Ok(d.value) && s == ItemWritten(d) && Meant(d.value) == v {
      WrittenStart(d.value);
      assert s == d.before + (Written(d.value) + d.after);
      SkipSpaces(d.before, Written(d.value) + d.after);
      assert Stops(d.after);
      ScanWritten(d.value, d.after);
      assert d.after + [] == d.after;
      SkipSpaces(d.after, []);
      assert s[0] == if d.before == [] then Written(d.value)[0] else d.before[0];
    }
  }
}
