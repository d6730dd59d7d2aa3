/** Canonical JSON as ModelGuard writes it (json.dumps with sorted keys, no spaces, ASCII
    output) and JSON as it reads it (json.loads), following section 7 of RFC 8259.
    Python dictionaries compare without regard to order, so an object is a map. */
module Json {
  import opened Unicode

  datatype Value =
    | Null
    | Bool(b: bool)
    | Int(n: int)
    | Str(s: Text)
    | Arr(items: seq<Value>)
    | Obj(members: map<Text, Value>)

  const QUOTE: CodePoint := 34
  const PLUS: CodePoint := 43
  const COMMA: CodePoint := 44
  const MINUS: CodePoint := 45
  const DOT: CodePoint := 46
  const SLASH: CodePoint := 47
  const COLON: CodePoint := 58
  const LBRACKET: CodePoint := 91
  const BACKSLASH: CodePoint := 92
  const RBRACKET: CodePoint := 93
  const LOWER_U: CodePoint := 117
  const LBRACE: CodePoint := 123
  const RBRACE: CodePoint := 125

  const NULL_WORD: Text := [110, 117, 108, 108]
  const TRUE_WORD: Text := [116, 114, 117, 101]
  const FALSE_WORD: Text := [102, 97, 108, 115, 101]

  /* -- printing ------------------------------------------------------------ */

  function HexDigit(d: int): CodePoint
    requires 0 <= d < 16
  {
    if d < 10 then 48 + d else 87 + d
  }

  function UnicodeEscape(n: int): Text
    requires 0 <= n < 0x10000
  {
    [BACKSLASH, LOWER_U, HexDigit(n / 4096), HexDigit(n / 256 % 16), HexDigit(n / 16 % 16), HexDigit(n % 16)]
  }

  /** The letter after the backslash in a two-character escape, or 0. */
  function ShortEscape(c: CodePoint): CodePoint {
    if c == QUOTE then QUOTE
    else if c == BACKSLASH then BACKSLASH
    else if c == 8 then 98
    else if c == 9 then 116
    else if c == 10 then 110
    else if c == 12 then 102
    else if c == 13 then 114
    else 0
  }

  function Escape(c: CodePoint): Text {
    if ShortEscape(c) != 0 then [BACKSLASH, ShortEscape(c)]
    else if 32 <= c <= 126 then [c]
    else if c < 0x10000 then UnicodeEscape(c)
    else UnicodeEscape(0xD800 + (c - 0x10000) / 1024) + UnicodeEscape(0xDC00 + (c - 0x10000) % 1024)
  }

  function EscapeAll(s: Text): Text {
    if s == [] then [] else Escape(s[0]) + EscapeAll(s[1..])
  }

  function Quote(s: Text): Text {
    [QUOTE] + EscapeAll(s) + [QUOTE]
  }

  function Digits(n: nat): Text {
    if n < 10 then [48 + n] else Digits(n / 10) + [48 + n % 10]
  }

  function Decimal(n: int): Text {
    if n < 0 then [MINUS] + Digits(-n) else Digits(n)
  }

  function Dumps(v: Value): Text
    decreases v
  {
    match v
    case Null => NULL_WORD
    case Bool(b) => if b then TRUE_WORD else FALSE_WORD
    case Int(n) => Decimal(n)
    case Str(s) => Quote(s)
    case Arr(items) => [LBRACKET] + DumpsItems(items) + [RBRACKET]
    case Obj(m) => [LBRACE] + DumpsMembers(v, Sort(m.Keys)) + [RBRACE]
  }

  function DumpsItems(items: seq<Value>): Text
    decreases items
  {
    if items == [] then []
    else if |items| == 1 then Dumps(items[0])
    else Dumps(items[0]) + [COMMA] + DumpsItems(items[1..])
  }

  function DumpsMembers(v: Value, keys: seq<Text>): Text
    requires v.Obj? && forall k :: k in keys ==> k in v.members
    decreases v, 0, |keys|
  {
    if keys == [] then []
    else
      Quote(keys[0]) + [COLON] + Dumps(v.members[keys[0]])
      + if |keys| == 1 then [] else [COMMA] + DumpsMembers(v, keys[1..])
  }

  /* -- reading ------------------------------------------------------------- */

  datatype Scan<+T> = Fail | At(value: T, rest: Text)

  function SkipSpace(s: Text): (r: Text)
    ensures |r| <= |s|
  {
    if s != [] && s[0] in {32, 9, 10, 13} then SkipSpace(s[1..]) else s
  }

  predicate StartsWith(s: Text, p: Text) {
    |p| <= |s| && forall i :: 0 <= i < |p| ==> s[i] == p[i]
  }

  /** The value of one hexadecimal digit of either case, or -1. */
  function HexValue(c: CodePoint): int {
    if 48 <= c <= 57 then c - 48
    else if 97 <= c <= 102 then c - 87
    else if 65 <= c <= 70 then c - 55
    else -1
  }

  /** The four hexadecimal digits at position i, or -1. */
  function HexAt(s: Text, i: nat): (r: int)
    ensures -1 <= r < 0x10000
  {
    if |s| < i + 4 then -1
    else
      var a, b, c, d := HexValue(s[i]), HexValue(s[i + 1]), HexValue(s[i + 2]), HexValue(s[i + 3]);
      if a < 0 || b < 0 || c < 0 || d < 0 then -1 else ((a * 16 + b) * 16 + c) * 16 + d
  }

  /** The character a two-character escape stands for, or -1. */
  function Unescape(c: CodePoint): (r: int)
    ensures -1 <= r < 0x110000
  {
    if c == QUOTE || c == BACKSLASH || c == SLASH then c
    else if c == 98 then 8
    else if c == 116 then 9
    else if c == 110 then 10
    else if c == 102 then 12
    else if c == 114 then 13
    else -1
  }

  function Prepend(c: CodePoint, r: Scan<Text>): Scan<Text> {
    if r.Fail? then Fail else At([c] + r.value, r.rest)
  }

  function Combine(high: int, low: int): CodePoint
    requires High(high) && Low(low)
  {
    0x10000 + (high - 0xD800) * 1024 + (low - 0xDC00)
  }

  /** The body of a string literal, from just after its opening quote. */
  function ScanString(s: Text): (r: Scan<Text>)
    ensures r.At? ==> |r.rest| < |s|
  {
    if s == [] then Fail
    else if s[0] == QUOTE then At([], s[1..])
    else if s[0] == BACKSLASH then
      if |s| < 2 then Fail
      else if s[1] == LOWER_U then
        var u := HexAt(s, 2);
        if u < 0 then Fail
        else if High(u) && |s| >= 8 && s[6] == BACKSLASH && s[7] == LOWER_U then
          var l := HexAt(s, 8);
          if l < 0 then Fail
          else if Low(l) then Prepend(Combine(u, l), ScanString(s[12..]))
          else Prepend(u, ScanString(s[6..]))
        else Prepend(u, ScanString(s[6..]))
      else if Unescape(s[1]) < 0 then Fail
      else Prepend(Unescape(s[1]), ScanString(s[2..]))
    else if s[0] < 32 then Fail
    else Prepend(s[0], ScanString(s[1..]))
  }

  predicate IsDigit(c: CodePoint) {
    48 <= c <= 57
  }

  /** How many digits s starts with. */
  function DigitRun(s: Text): (k: nat)
    ensures k <= |s|
  {
    if s != [] && IsDigit(s[0]) then 1 + DigitRun(s[1..]) else 0
  }

  function Number(digits: Text): int {
    if digits == [] then 0 else 10 * Number(digits[..|digits| - 1]) - 48 + digits[|digits| - 1]
  }

  /** What follows the integer part makes the number a float. */
  predicate FloatSuffix(s: Text) {
    || (|s| >= 2 && s[0] == DOT && IsDigit(s[1]))
    || (|s| >= 2 && s[0] in {69, 101} && IsDigit(s[1]))
    || (|s| >= 3 && s[0] in {69, 101} && s[1] in {PLUS, MINUS} && IsDigit(s[2]))
  }

  /** An integer literal; a float literal is refused. */
  function ScanNumber(s: Text): (r: Scan<Value>)
    ensures r.At? ==> |r.rest| < |s|
  {
    var negative := s != [] && s[0] == MINUS;
    var t := if negative then s[1..] else s;
    var run := DigitRun(t);
    if run == 0 then Fail
    else
      var k := if t[0] == 48 then 1 else run;
      if FloatSuffix(t[k..]) then Fail
      else At(Int(if negative then -Number(t[..k]) else Number(t[..k])), t[k..])
  }

  function ScanValue(s: Text): (r: Scan<Value>)
    ensures r.At? ==> |r.rest| < |s|
    decreases |s|, 1
  {
    if s == [] then Fail
    else if s[0] == QUOTE then
      var r := ScanString(s[1..]);
      if r.Fail? then Fail else At(Str(r.value), r.rest)
    else if s[0] == LBRACE then
      var t := SkipSpace(s[1..]);
      if t == [] then Fail
      else if t[0] == RBRACE then At(Obj(map[]), t[1..])
      else if t[0] == QUOTE then ScanMembers(t[1..], map[])
      else Fail
    else if s[0] == LBRACKET then
      var t := SkipSpace(s[1..]);
      if t != [] && t[0] == RBRACKET then At(Arr([]), t[1..])
      else
        var r := ScanItems(t);
        if r.Fail? then Fail else At(Arr(r.value), r.rest)
    else if StartsWith(s, NULL_WORD) then At(Null, s[4..])
    else if StartsWith(s, TRUE_WORD) then At(Bool(true), s[4..])
    else if StartsWith(s, FALSE_WORD) then At(Bool(false), s[5..])
    else ScanNumber(s)
  }

  function ScanItems(s: Text): (r: Scan<seq<Value>>)
    ensures r.At? ==> |r.rest| < |s|
    decreases |s|, 2
  {
    var first := ScanValue(s);
    if first.Fail? then Fail
    else
      var t := SkipSpace(first.rest);
      if t == [] then Fail
      else if t[0] == RBRACKET then At([first.value], t[1..])
      else if t[0] == COMMA then
        var more := ScanItems(SkipSpace(t[1..]));
        if more.Fail? then Fail else At([first.value] + more.value, more.rest)
      else Fail
  }

  /** The members of an object, from just after the opening quote of a key; a repeated
      key keeps its last value. */
  function ScanMembers(s: Text, seen: map<Text, Value>): (r: Scan<Value>)
    ensures r.At? ==> |r.rest| < |s|
    decreases |s|, 2
  {
    var key := ScanString(s);
    if key.Fail? then Fail
    else
      var t := SkipSpace(key.rest);
      if t == [] || t[0] != COLON then Fail
      else
        var first := ScanValue(SkipSpace(t[1..]));
        if first.Fail? then Fail
        else
          var now := seen[key.value := first.value];
          var u := SkipSpace(first.rest);
          if u == [] then Fail
          else if u[0] == RBRACE then At(Obj(now), u[1..])
          else if u[0] == COMMA then
            var w := SkipSpace(u[1..]);
            if w != [] && w[0] == QUOTE then ScanMembers(w[1..], now) else Fail
          else Fail
  }

  datatype Document = Malformed | Parsed(value: Value)

  /** json.loads on a string. */
  function Loads(s: Text): Document {
    if s != [] && s[0] == 0xFEFF then Malformed
    else
      var r := ScanValue(SkipSpace(s));
      if r.At? && SkipSpace(r.rest) == [] then Parsed(r.value) else Malformed
  }
}
