/** Reading undoes printing, up to one exact defect: two adjacent lone surrogates come
    back as the one character they encode. */
module JsonRoundTrip {
  import opened Unicode
  import opened Json

  /** No high surrogate directly before a low one. */
  predicate Faithful(s: Text) {
    forall i :: 0 <= i < |s| - 1 ==> !(High(s[i]) && Low(s[i + 1]))
  }

  /** What a string becomes when it is printed and read back. */
  function JoinPairs(s: Text): Text {
    if s == [] then []
    else if |s| >= 2 && High(s[0]) && Low(s[1]) then [Combine(s[0], s[1])] + JoinPairs(s[2..])
    else [s[0]] + JoinPairs(s[1..])
  }

  lemma {:induction false} JoinPairsFixed(s: Text)
    ensures JoinPairs(s) == s <==> Faithful(s)
    ensures |JoinPairs(s)| <= |s|
  {
    if s != [] {
      assert s == [s[0]] + s[1..];
      if |s| >= 2 && High(s[0]) && Low(s[1]) {
        JoinPairsFixed(s[2..]);
      } else {
        JoinPairsFixed(s[1..]);
        if Faithful(s[1..]) {
          forall i | 0 <= i < |s| - 1 ensures !(High(s[i]) && Low(s[i + 1])) {
            if i > 0 { assert s[1..][i - 1] == s[i] && s[1..][i] == s[i + 1]; }
          }
        }
      }
    }
  }

  /* -- strings ---------------------------------------------------------------- */

  lemma HexDigitRead(d: int)
    requires 0 <= d < 16
    ensures HexValue(HexDigit(d)) == d
  {
  }

  lemma Nibbles(n: int)
    requires 0 <= n < 0x10000
    ensures 0 <= n / 4096 < 16
    ensures ((n / 4096 * 16 + n / 256 % 16) * 16 + n / 16 % 16) * 16 + n % 16 == n
  {
    assert n / 256 == n / 4096 * 16 + n / 256 % 16;
    assert n / 16 == n / 256 * 16 + n / 16 % 16;
  }

  lemma HexOfEscape(n: int, t: Text)
    requires 0 <= n < 0x10000
    ensures |UnicodeEscape(n)| == 6
    ensures HexAt(UnicodeEscape(n) + t, 2) == n
  {
    hide HexDigit, HexValue;
    Nibbles(n);
    var a, b, c, d := n / 4096, n / 256 % 16, n / 16 % 16, n % 16;
    HexDigitRead(a);
    HexDigitRead(b);
    HexDigitRead(c);
    HexDigitRead(d);
    var s := UnicodeEscape(n) + t;
    assert s[2] == HexDigit(a) && s[3] == HexDigit(b) && s[4] == HexDigit(c) && s[5] == HexDigit(d);
  }

  /** The text does not continue with an escaped low surrogate. */
  predicate NoLowNext(t: Text) {
    |t| < 2 || t[0] != BACKSLASH || t[1] != LOWER_U || (HexAt(t, 2) >= 0 && !Low(HexAt(t, 2)))
  }

  lemma HexShift(c: CodePoint, t: Text)
    requires 0 <= c < 0x10000
    ensures var s := UnicodeEscape(c) + t;
      |s| == |t| + 6 && s[0] == BACKSLASH && s[1] == LOWER_U && s[6..] == t
      && HexAt(s, 2) == c && HexAt(s, 8) == HexAt(t, 2)
  {
    HexOfEscape(c, t);
    var s := UnicodeEscape(c) + t;
    assert forall i :: 0 <= i < |t| ==> s[i + 6] == t[i];
  }

  lemma ScanHighAlone(c: CodePoint, t: Text)
    requires High(c) && NoLowNext(t)
    ensures ScanString(Escape(c) + t) == Prepend(c, ScanString(t))
  {
    HexShift(c, t);
    var s := UnicodeEscape(c) + t;
    assert |t| >= 2 ==> s[6] == t[0] && s[7] == t[1];
  }

  lemma ScanPair(c: CodePoint, d: CodePoint, u: Text)
    requires High(c) && Low(d)
    ensures ScanString(Escape(c) + (Escape(d) + u)) == Prepend(Combine(c, d), ScanString(u))
  {
    var t := UnicodeEscape(d) + u;
    HexShift(d, u);
    HexShift(c, t);
    var s := UnicodeEscape(c) + t;
    assert s[6] == t[0] && s[7] == t[1];
    assert s[12..] == t[6..];
  }

  /** A printed character that is not a high surrogate is read back on its own. */
  lemma ScanPlain(c: CodePoint, t: Text)
    requires !High(c)
    ensures ScanString(Escape(c) + t) == Prepend(c, ScanString(t))
  {
    hide HexAt, ShortEscape, ScanString, UnicodeEscape;
    if ShortEscape(c) != 0 || 32 <= c <= 126 {
      ScanPrintable(c, t);
    } else if c < 0x10000 {
      ScanUnicode(c, t);
    } else {
      ScanAstral(c, t);
    }
  }

  lemma ScanUnicode(c: CodePoint, t: Text)
    requires !High(c) && c < 0x10000
    ensures ScanString(UnicodeEscape(c) + t) == Prepend(c, ScanString(t))
  {
    hide HexAt, UnicodeEscape;
    HexShift(c, t);
  }

  lemma ScanAstral(c: CodePoint, t: Text)
    requires c >= 0x10000
    ensures ScanString(Escape(c) + t) == Prepend(c, ScanString(t))
  {
    hide HexAt, ScanString, UnicodeEscape;
    var h, l := 0xD800 + (c - 0x10000) / 1024, 0xDC00 + (c - 0x10000) % 1024;
    ScanPair(h, l, t);
    SurrogateEscape(h);
    SurrogateEscape(l);
    AstralEscape(c);
    assert Escape(c) + t == Escape(h) + (Escape(l) + t) by { hide Escape; }
  }

  lemma AstralEscape(c: CodePoint)
    requires c >= 0x10000
    ensures Escape(c) == UnicodeEscape(0xD800 + (c - 0x10000) / 1024) + UnicodeEscape(0xDC00 + (c - 0x10000) % 1024)
  {
    hide UnicodeEscape;
  }

  lemma SurrogateEscape(c: CodePoint)
    ensures Surrogate(c) ==> Escape(c) == UnicodeEscape(c)
  {
  }

  lemma ScanPrintable(c: CodePoint, t: Text)
    requires ShortEscape(c) != 0 || 32 <= c <= 126
    ensures ScanString(Escape(c) + t) == Prepend(c, ScanString(t))
  {
    hide UnicodeEscape, HexAt;
    var s := Escape(c) + t;
    if ShortEscape(c) != 0 {
      assert s[0] == BACKSLASH && s[1] == ShortEscape(c) && s[2..] == t;
    } else {
      assert s[0] == c && s[1..] == t;
    }
  }

  lemma EscapeStart(d: CodePoint, u: Text)
    requires !Low(d)
    ensures NoLowNext(Escape(d) + u)
  {
    hide HexAt, HexDigit;
    var t := Escape(d) + u;
    if ShortEscape(d) != 0 {
      assert t[1] == ShortEscape(d);
    } else if 32 <= d <= 126 {
      assert t[0] == d;
    } else if d < 0x10000 {
      HexShift(d, u);
    } else {
      var h := 0xD800 + (d - 0x10000) / 1024;
      var v := UnicodeEscape(0xDC00 + (d - 0x10000) % 1024) + u;
      HexShift(h, v);
      assert t == UnicodeEscape(h) + v;
    }
  }

  lemma QuoteIsNotLow(end: Text)
    requires end != [] && end[0] == QUOTE
    ensures NoLowNext(end)
  {
  }

  lemma {:induction false} ScanEscaped(s: Text, end: Text)
    requires end != [] && end[0] == QUOTE
    ensures ScanString(EscapeAll(s) + end) == At(JoinPairs(s), end[1..])
  {
    hide Escape, NoLowNext;
    if s == [] {
      assert EscapeAll(s) + end == end;
    } else {
      var t := EscapeAll(s[1..]) + end;
      assert EscapeAll(s) + end == Escape(s[0]) + t;
      if !High(s[0]) {
        ScanPlain(s[0], t);
        ScanEscaped(s[1..], end);
      } else if |s| >= 2 && Low(s[1]) {
        var u := EscapeAll(s[2..]) + end;
        assert s[1..][1..] == s[2..];
        assert t == Escape(s[1]) + u;
        ScanPair(s[0], s[1], u);
        ScanEscaped(s[2..], end);
      } else {
        assert NoLowNext(t) by {
          if |s| == 1 {
            assert t == end;
            QuoteIsNotLow(end);
          } else {
            var u := EscapeAll(s[1..][1..]) + end;
            assert t == Escape(s[1]) + u;
            EscapeStart(s[1], u);
          }
        }
        ScanHighAlone(s[0], t);
        ScanEscaped(s[1..], end);
      }
    }
  }

  /* -- numbers ------------------------------------------------------------------ */

  ghost predicate AllDigits(s: Text) {
    forall i :: 0 <= i < |s| ==> IsDigit(s[i])
  }

  lemma {:induction false} DigitsRead(n: nat)
    ensures Digits(n) != [] && AllDigits(Digits(n)) && Number(Digits(n)) == n
    ensures Digits(n)[0] == 48 ==> |Digits(n)| == 1
  {
    if n < 10 {
      assert Digits(n)[..0] == [];
    } else {
      DigitsRead(n / 10);
      var s := Digits(n);
      assert s[..|s| - 1] == Digits(n / 10);
    }
  }

  lemma {:induction false} DigitRunOf(d: Text, rest: Text)
    requires AllDigits(d) && (rest == [] || !IsDigit(rest[0]))
    ensures DigitRun(d + rest) == |d|
  {
    if d != [] {
      assert (d + rest)[1..] == d[1..] + rest;
      DigitRunOf(d[1..], rest);
    } else {
      assert d + rest == rest;
    }
  }

  /** Text that can follow a value inside a printed document. */
  predicate Delimited(rest: Text) {
    rest == [] || rest[0] in {COMMA, RBRACE, RBRACKET}
  }

  lemma DelimitedIsNoSuffix(rest: Text)
    requires Delimited(rest)
    ensures !FloatSuffix(rest) && (rest == [] || !IsDigit(rest[0]))
  {
  }

  lemma ScanDecimal(n: int, rest: Text)
    requires Delimited(rest)
    ensures ScanNumber(Decimal(n) + rest) == At(Int(n), rest)
  {
    hide Digits, DigitRun, Number, FloatSuffix;
    var d := Digits(if n < 0 then -n else n);
    DigitsRead(if n < 0 then -n else n);
    DelimitedIsNoSuffix(rest);
    DigitRunOf(d, rest);
    var t := d + rest;
    assert t[0] == d[0] && d[0] != MINUS;
    SplitAt(d, rest);
    if n < 0 {
      assert Decimal(n) + rest == [MINUS] + t;
      assert ([MINUS] + t)[1..] == t;
    } else {
      assert Decimal(n) + rest == t;
    }
  }

  lemma SplitAt(a: Text, b: Text)
    ensures (a + b)[..|a|] == a && (a + b)[|a|..] == b
  {
  }

  /* -- values --------------------------------------------------------------------- */

  /** Every object key in the value is faithful, so distinct keys print differently. */
  predicate CleanKeys(v: Value)
    decreases v
  {
    match v
    case Arr(items) => forall i :: 0 <= i < |items| ==> CleanKeys(items[i])
    case Obj(m) => forall k :: k in m ==> Faithful(k) && CleanKeys(m[k])
    case _ => true
  }

  /** Every string in the value, keys included, is faithful. */
  predicate Clean(v: Value)
    decreases v
  {
    match v
    case Str(s) => Faithful(s)
    case Arr(items) => forall i :: 0 <= i < |items| ==> Clean(items[i])
    case Obj(m) => forall k :: k in m ==> Faithful(k) && Clean(m[k])
    case _ => true
  }

  /** The value with the pairs joined in every string that is not a key. */
  function Joined(v: Value): Value
    decreases v
  {
    match v
    case Str(s) => Str(JoinPairs(s))
    case Arr(items) => Arr(JoinedItems(items))
    case Obj(m) => Obj(map k | k in m :: Joined(m[k]))
    case _ => v
  }

  function JoinedItems(items: seq<Value>): (r: seq<Value>)
    ensures |r| == |items|
    ensures forall i :: 0 <= i < |items| ==> r[i] == Joined(items[i])
    decreases items
  {
    if items == [] then [] else [Joined(items[0])] + JoinedItems(items[1..])
  }

  lemma {:induction false} JoinedFixed(v: Value)
    requires CleanKeys(v)
    ensures Joined(v) == v <==> Clean(v)
    decreases v
  {
    match v
    case Str(s) => JoinPairsFixed(s);
    case Arr(items) =>
      forall i | 0 <= i < |items| ensures Joined(items[i]) == items[i] <==> Clean(items[i]) {
        JoinedFixed(items[i]);
      }
      if Clean(v) { assert JoinedItems(items) == items; }
    case Obj(m) =>
      forall k | k in m ensures Joined(m[k]) == m[k] <==> Clean(m[k]) {
        JoinedFixed(m[k]);
      }
      var m' := map k | k in m :: Joined(m[k]);
      if Clean(v) { assert m' == m; }
      if Joined(v) == v { assert forall k :: k in m ==> m'[k] == m[k]; }
    case _ =>
  }

  /** How a printed value starts. */
  lemma DumpsStart(v: Value)
    ensures Dumps(v) != []
    ensures Dumps(v)[0] !in {32, 9, 10, 13, RBRACKET, RBRACE, 0xFEFF}
  {
    match v
    case Int(n) => DigitsRead(if n < 0 then -n else n);
    case _ =>
  }

  lemma ScanWord(word: Text, rest: Text)
    requires word in {NULL_WORD, TRUE_WORD, FALSE_WORD}
    ensures ScanValue(word + rest)
      == At(if word == NULL_WORD then Null else Bool(word == TRUE_WORD), rest)
  {
    var s := word + rest;
    assert s[0] == word[0];
    SplitAt(word, rest);
  }

  lemma ScanInt(n: int, rest: Text)
    requires Delimited(rest)
    ensures ScanValue(Decimal(n) + rest) == At(Int(n), rest)
  {
    hide ScanNumber, ScanString, ScanItems, ScanMembers, SkipSpace, Digits;
    ScanDecimal(n, rest);
    DigitsRead(if n < 0 then -n else n);
    assert (Decimal(n) + rest)[0] == Decimal(n)[0];
  }

  lemma ScanQuoted(t: Text, rest: Text)
    ensures ScanValue(Quote(t) + rest) == At(Str(JoinPairs(t)), rest)
  {
    hide EscapeAll, ScanString, JoinPairs;
    var end := [QUOTE] + rest;
    ScanEscaped(t, end);
    assert (Quote(t) + rest)[1..] == EscapeAll(t) + end;
    assert end[1..] == rest;
  }

  lemma ScanOpenArray(inner: Text)
    requires inner != [] && inner[0] !in {32, 9, 10, 13}
    ensures inner[0] == RBRACKET ==> ScanValue([LBRACKET] + inner) == At(Arr([]), inner[1..])
    ensures inner[0] != RBRACKET && ScanItems(inner).At? ==>
      ScanValue([LBRACKET] + inner) == At(Arr(ScanItems(inner).value), ScanItems(inner).rest)
  {
    var s := [LBRACKET] + inner;
    assert s[0] == LBRACKET && s[1..] == inner;
  }

  lemma ScanOpenObject(inner: Text)
    requires inner != [] && inner[0] in {RBRACE, QUOTE}
    ensures ScanValue([LBRACE] + inner)
      == if inner[0] == RBRACE then At(Obj(map[]), inner[1..]) else ScanMembers(inner[1..], map[])
  {
    var s := [LBRACE] + inner;
    assert s[0] == LBRACE && s[1..] == inner;
  }

  lemma {:induction false} ScanDumped(v: Value, rest: Text)
    requires CleanKeys(v) && Delimited(rest)
    ensures ScanValue(Dumps(v) + rest) == At(Joined(v), rest)
    decreases v, 1
  {
    hide Quote, Decimal, ScanValue;
    match v
    case Null => ScanWord(NULL_WORD, rest);
    case Bool(b) => ScanWord(if b then TRUE_WORD else FALSE_WORD, rest);
    case Int(n) => ScanInt(n, rest);
    case Str(t) => ScanQuoted(t, rest);
    case Arr(items) => ScanDumpedArray(items, rest, v);
    case Obj(m) => ScanDumpedObject(v, rest);
  }

  lemma ScanDumpedArray(items: seq<Value>, rest: Text, v: Value)
    requires v == Arr(items) && CleanKeys(v)
    ensures ScanValue([LBRACKET] + DumpsItems(items) + [RBRACKET] + rest) == At(Arr(JoinedItems(items)), rest)
    decreases v, 0
  {
    hide Dumps, ScanValue, ScanItems, JoinedItems, Joined;
    var inner := DumpsItems(items) + ([RBRACKET] + rest);
    assert [LBRACKET] + DumpsItems(items) + [RBRACKET] + rest == [LBRACKET] + inner;
    if items == [] {
      assert inner[1..] == rest;
    } else {
      DumpsStart(items[0]);
      assert inner[0] == Dumps(items[0])[0];
      ScanDumpedItems(items, rest);
    }
    ScanOpenArray(inner);
  }

  lemma ScanDumpedObject(v: Value, rest: Text)
    requires v.Obj? && CleanKeys(v)
    ensures ScanValue([LBRACE] + DumpsMembers(v, Sort(v.members.Keys)) + [RBRACE] + rest) == At(Joined(v), rest)
    decreases v, 0
  {
    hide Sort, Dumps, DumpsMembers, ScanValue, ScanMembers, Joined;
    var keys := Sort(v.members.Keys);
    var inner := DumpsMembers(v, keys) + ([RBRACE] + rest);
    assert [LBRACE] + DumpsMembers(v, keys) + [RBRACE] + rest == [LBRACE] + inner;
    AbsorbAll(v, keys, map[]);
    if keys == [] {
      assert DumpsMembers(v, keys) == [] by { NoMembers(v); }
      assert inner[1..] == rest;
      assert Absorb(v, keys, map[]) == map[];
    } else {
      ScanDumpedMembers(v, keys, map[], rest);
    }
    ScanOpenObject(inner);
  }

  lemma NoMembers(v: Value)
    requires v.Obj?
    ensures DumpsMembers(v, []) == []
  {
  }

  lemma {:induction false} ScanDumpedItems(items: seq<Value>, rest: Text)
    requires items != []
    requires forall i :: 0 <= i < |items| ==> CleanKeys(items[i])
    ensures ScanItems(DumpsItems(items) + ([RBRACKET] + rest)) == At(JoinedItems(items), rest)
    decreases items
  {
    hide Dumps, ScanValue, Joined;
    var end := [RBRACKET] + rest;
    var s := DumpsItems(items) + end;
    if |items| == 1 {
      ScanDumped(items[0], end);
      assert SkipSpace(end) == end && end[1..] == rest;
      assert JoinedItems(items) == [Joined(items[0])];
    } else {
      var more := DumpsItems(items[1..]) + end;
      var t := [COMMA] + more;
      assert s == Dumps(items[0]) + t;
      ScanDumped(items[0], t);
      assert SkipSpace(t) == t && t[1..] == more;
      DumpsStart(items[1..][0]);
      assert more[0] == Dumps(items[1..][0])[0];
      assert SkipSpace(more) == more;
      ScanDumpedItems(items[1..], rest);
    }
  }

  /** The members of v under the given keys, added to seen in order. */
  function Absorb(v: Value, keys: seq<Text>, seen: map<Text, Value>): map<Text, Value>
    requires v.Obj? && forall k :: k in keys ==> k in v.members
    decreases |keys|
  {
    if keys == [] then seen
    else Absorb(v, keys[1..], seen[keys[0] := Joined(v.members[keys[0]])])
  }

  lemma {:induction false} AbsorbAll(v: Value, keys: seq<Text>, seen: map<Text, Value>)
    requires v.Obj? && forall k :: k in keys ==> k in v.members
    requires forall k :: k in v.members ==> k in keys || k in seen
    requires forall k :: k in seen ==> k in v.members && seen[k] == Joined(v.members[k])
    ensures Obj(Absorb(v, keys, seen)) == Joined(v)
    decreases |keys|
  {
    if keys == [] {
      assert seen == map k | k in v.members :: Joined(v.members[k]);
    } else {
      assert forall k :: k in keys ==> k == keys[0] || k in keys[1..];
      AbsorbAll(v, keys[1..], seen[keys[0] := Joined(v.members[keys[0]])]);
    }
  }

  lemma ScanOneMember(s: Text, seen: map<Text, Value>, key: Text, value: Value, b: Text, t: Text)
    requires ScanString(s) == At(key, [COLON] + b)
    requires b != [] && b[0] !in {32, 9, 10, 13} && ScanValue(b) == At(value, t)
    requires t != [] && (t[0] == RBRACE || (t[0] == COMMA && |t| > 1 && t[1] == QUOTE))
    ensures ScanMembers(s, seen)
      == if t[0] == RBRACE then At(Obj(seen[key := value]), t[1..])
         else ScanMembers(t[2..], seen[key := value])
  {
    assert ([COLON] + b)[1..] == b;
    if t[0] == COMMA {
      assert t[1..][0] == QUOTE && t[1..][1..] == t[2..];
    }
  }

  lemma Regroup(e: Text, d: Text, m: Text, end: Text)
    ensures ([QUOTE] + e + [QUOTE] + [COLON] + d + m) + end
      == [QUOTE] + (e + ([QUOTE] + ([COLON] + (d + (m + end)))))
    ensures ([QUOTE] + e)[1..] == e
  {
  }

  lemma {:induction false} ScanDumpedMembers(v: Value, keys: seq<Text>, seen: map<Text, Value>, rest: Text)
    requires v.Obj? && keys != [] && CleanKeys(v)
    requires forall k :: k in keys ==> k in v.members
    ensures var s := DumpsMembers(v, keys) + ([RBRACE] + rest);
      s[0] == QUOTE && ScanMembers(s[1..], seen) == At(Obj(Absorb(v, keys, seen)), rest)
    decreases v, 0, |keys|
  {
    hide Dumps, ScanValue, Joined, EscapeAll, ScanString, JoinPairs, ScanMembers;
    var end := [RBRACE] + rest;
    var key, value := keys[0], v.members[keys[0]];
    var m := if |keys| == 1 then [] else [COMMA] + DumpsMembers(v, keys[1..]);
    var t := m + end;
    var b := Dumps(value) + t;
    var afterKey := [QUOTE] + ([COLON] + b);
    Regroup(EscapeAll(key), Dumps(value), m, end);
    var s := DumpsMembers(v, keys) + end;
    assert s == [QUOTE] + (EscapeAll(key) + afterKey);
    assert s[1..] == EscapeAll(key) + afterKey;
    ScanEscaped(key, afterKey);
    JoinPairsFixed(key);
    assert afterKey[1..] == [COLON] + b;
    DumpsStart(value);
    ScanDumped(value, t);
    var now := seen[key := Joined(value)];
    if |keys| == 1 {
      assert t == end && end[1..] == rest && keys[1..] == [];
    } else {
      var more := DumpsMembers(v, keys[1..]) + end;
      assert t == [COMMA] + more;
      ScanDumpedMembers(v, keys[1..], now, rest);
      assert t[1] == more[0] && t[2..] == more[1..];
    }
    ScanOneMember(s[1..], seen, key, Joined(value), b, t);
  }

  /** Reading a printed value returns it with adjacent surrogate pairs joined. */
  lemma LoadsDumps(v: Value)
    requires CleanKeys(v)
    ensures Loads(Dumps(v)) == Parsed(Joined(v))
  {
    DumpsStart(v);
    ScanDumped(v, []);
    assert Dumps(v) + [] == Dumps(v);
    assert SkipSpace(Dumps(v)) == Dumps(v);
  }

  /** The round trip is exact for precisely the values without adjacent pairs. */
  lemma RoundTripExact(v: Value)
    requires CleanKeys(v)
    ensures Loads(Dumps(v)) == Parsed(v) <==> Clean(v)
  {
    LoadsDumps(v);
    JoinedFixed(v);
  }

  /** Two clean values with the same printed form are the same value. */
  lemma DumpsInjective(v: Value, w: Value)
    requires Clean(v) && Clean(w) && Dumps(v) == Dumps(w)
    ensures v == w
  {
    CleanHasCleanKeys(v);
    CleanHasCleanKeys(w);
    RoundTripExact(v);
    RoundTripExact(w);
  }

  lemma {:induction false} CleanHasCleanKeys(v: Value)
    requires Clean(v)
    ensures CleanKeys(v)
    decreases v
  {
    match v
    case Arr(items) => forall i | 0 <= i < |items| ensures CleanKeys(items[i]) { CleanHasCleanKeys(items[i]); }
    case Obj(m) => forall k | k in m ensures CleanKeys(m[k]) { CleanHasCleanKeys(m[k]); }
    case _ =>
  }
}
