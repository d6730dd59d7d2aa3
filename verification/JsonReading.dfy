/** Reading arbitrary text: what every value read satisfies, and how the reader behaves
    when more text follows. */
module JsonReading {
  import opened Unicode
  import opened Json
  import opened JsonRoundTrip

  ghost predicate NoSurrogates(s: Text) {
    forall i :: 0 <= i < |s| ==> !Surrogate(s[i])
  }

  /* -- everything printed is printable ASCII --------------------------------------------- */

  lemma {:induction false} DigitsPrintable(n: nat)
    ensures Printable(Digits(n))
  {
    if n >= 10 { DigitsPrintable(n / 10); }
  }

  lemma {:induction false} EscapeAllPrintable(s: Text)
    ensures Printable(EscapeAll(s))
  {
    if s != [] {
      EscapeAllPrintable(s[1..]);
      assert Printable(Escape(s[0]));
    }
  }

  lemma {:induction false} DumpsPrintable(v: Value)
    ensures Printable(Dumps(v))
    decreases v
  {
    hide EscapeAll, DumpsItems, DumpsMembers, Digits, Sort;
    match v
    case Int(n) => DigitsPrintable(if n < 0 then -n else n);
    case Str(s) => EscapeAllPrintable(s);
    case Arr(items) => DumpsItemsPrintable(items);
    case Obj(m) => DumpsMembersPrintable(v, Sort(m.Keys));
    case _ =>
  }

  lemma {:induction false} DumpsItemsPrintable(items: seq<Value>)
    ensures Printable(DumpsItems(items))
    decreases items
  {
    if items != [] {
      DumpsPrintable(items[0]);
      DumpsItemsPrintable(items[1..]);
    }
  }

  lemma {:induction false} DumpsMembersPrintable(v: Value, keys: seq<Text>)
    requires v.Obj? && forall k :: k in keys ==> k in v.members
    ensures Printable(DumpsMembers(v, keys))
    decreases v, 0, |keys|
  {
    hide EscapeAll, Dumps;
    if keys != [] {
      EscapeAllPrintable(keys[0]);
      DumpsPrintable(v.members[keys[0]]);
      DumpsMembersPrintable(v, keys[1..]);
    }
  }

  /** json.dumps(...).encode("utf-8") */
  function DumpsBytes(v: Value): (r: Bytes)
    ensures r == Dumps(v) && Printable(r)
  {
    DumpsPrintable(v);
    Dumps(v)
  }

  /* -- values read from text without raw surrogates are clean -------------------- */

  lemma {:induction false} ScanStringClean(s: Text)
    requires NoSurrogates(s) && ScanString(s).At?
    ensures var r := ScanString(s);
      Faithful(r.value) && NoSurrogates(r.rest)
      && (r.value != [] && Low(r.value[0]) ==> !NoLowNext(s))
  {
    if s[0] == QUOTE {
    } else if s[0] == BACKSLASH {
      if s[1] == LOWER_U {
        var u := HexAt(s, 2);
        if High(u) && |s| >= 8 && s[6] == BACKSLASH && s[7] == LOWER_U && Low(HexAt(s, 8)) {
          ScanStringClean(s[12..]);
        } else {
          ScanStringClean(s[6..]);
          if High(u) {
            assert |s| >= 8 ==> s[6] == s[6..][0] && s[7] == s[6..][1] && HexAt(s, 8) == HexAt(s[6..], 2);
            assert NoLowNext(s[6..]);
          }
        }
      } else {
        ScanStringClean(s[2..]);
      }
    } else {
      ScanStringClean(s[1..]);
    }
  }

  lemma {:induction false} SkipSpaceClean(s: Text)
    requires NoSurrogates(s)
    ensures NoSurrogates(SkipSpace(s))
  {
    if s != [] && s[0] in {32, 9, 10, 13} { SkipSpaceClean(s[1..]); }
  }

  lemma {:induction false} ScanValueClean(s: Text)
    requires NoSurrogates(s) && ScanValue(s).At?
    ensures Clean(ScanValue(s).value) && NoSurrogates(ScanValue(s).rest)
    decreases |s|, 1
  {
    hide ScanString, SkipSpace, Number, DigitRun, ScanItems, ScanMembers;
    if s[0] == QUOTE {
      ScanStringClean(s[1..]);
    } else if s[0] == LBRACE {
      SkipSpaceClean(s[1..]);
      var t := SkipSpace(s[1..]);
      if t[0] == QUOTE { ScanMembersClean(t[1..], map[]); }
    } else if s[0] == LBRACKET {
      SkipSpaceClean(s[1..]);
      var t := SkipSpace(s[1..]);
      if t == [] || t[0] != RBRACKET { ScanItemsClean(t); }
    }
  }

  lemma {:induction false} ScanItemsClean(s: Text)
    requires NoSurrogates(s) && ScanItems(s).At?
    ensures forall i :: 0 <= i < |ScanItems(s).value| ==> Clean(ScanItems(s).value[i])
    ensures NoSurrogates(ScanItems(s).rest)
    decreases |s|, 2
  {
    hide ScanValue, SkipSpace, Clean;
    ScanValueClean(s);
    var first := ScanValue(s);
    SkipSpaceClean(first.rest);
    var t := SkipSpace(first.rest);
    if t[0] == COMMA {
      SkipSpaceClean(t[1..]);
      ScanItemsClean(SkipSpace(t[1..]));
    }
  }

  lemma {:induction false} ScanMembersClean(s: Text, seen: map<Text, Value>)
    requires NoSurrogates(s) && ScanMembers(s, seen).At?
    requires forall k :: k in seen ==> Faithful(k) && Clean(seen[k])
    ensures Clean(ScanMembers(s, seen).value) && NoSurrogates(ScanMembers(s, seen).rest)
    decreases |s|, 2
  {
    hide ScanString, ScanValue, SkipSpace, Faithful;
    ScanStringClean(s);
    var key := ScanString(s);
    SkipSpaceClean(key.rest);
    var t := SkipSpace(key.rest);
    SkipSpaceClean(t[1..]);
    ScanValueClean(SkipSpace(t[1..]));
    var first := ScanValue(SkipSpace(t[1..]));
    SkipSpaceClean(first.rest);
    var u := SkipSpace(first.rest);
    if u[0] == COMMA {
      SkipSpaceClean(u[1..]);
      ScanMembersClean(SkipSpace(u[1..])[1..], seen[key.value := first.value]);
    }
  }

  /** Nothing read from text without raw surrogates (decoded UTF-8, or ASCII) holds an
      adjacent surrogate pair, whatever escapes the text uses. */
  lemma LoadsClean(s: Text)
    requires NoSurrogates(s) && Loads(s).Parsed?
    ensures Clean(Loads(s).value)
  {
    SkipSpaceClean(s);
    ScanValueClean(SkipSpace(s));
  }

  /* -- reading with more text behind ------------------------------------------------ */

  lemma {:induction false} SkipSpaceMore(s: Text, x: Text)
    ensures SkipSpace(s) != [] ==> SkipSpace(s + x) == SkipSpace(s) + x
    ensures SkipSpace(s) == [] ==> SkipSpace(s + x) == SkipSpace(x)
  {
    if s == [] {
      assert s + x == x;
    } else if s[0] in {32, 9, 10, 13} {
      assert (s + x)[1..] == s[1..] + x;
      SkipSpaceMore(s[1..], x);
    }
  }

  lemma HexMore(s: Text, x: Text, i: nat)
    ensures HexAt(s, i) >= 0 ==> HexAt(s + x, i) == HexAt(s, i)
  {
  }

  lemma {:induction false} ScanStringMore(s: Text, x: Text)
    requires ScanString(s).At?
    ensures ScanString(s + x) == At(ScanString(s).value, ScanString(s).rest + x)
  {
    var t := s + x;
    if s[0] == QUOTE {
      assert t[1..] == s[1..] + x;
    } else if s[0] == BACKSLASH {
      if s[1] == LOWER_U {
        HexMore(s, x, 2);
        assert t[6..] == s[6..] + x;
        if |s| >= 8 {
          HexMore(s, x, 8);
          if |s| >= 12 { assert t[12..] == s[12..] + x; }
        } else {
          assert s[6..][0] == s[6] == QUOTE;
        }
        if High(HexAt(s, 2)) && |s| >= 8 && s[6] == BACKSLASH && s[7] == LOWER_U && Low(HexAt(s, 8)) {
          ScanStringMore(s[12..], x);
        } else {
          ScanStringMore(s[6..], x);
        }
      } else {
        assert t[2..] == s[2..] + x;
        ScanStringMore(s[2..], x);
      }
    } else {
      assert t[1..] == s[1..] + x;
      ScanStringMore(s[1..], x);
    }
  }

  /** More text cannot turn an integer followed by this into a float. */
  predicate Settled(rest: Text) {
    rest != [] && rest[0] !in {DOT, 69, 101}
  }

  lemma {:induction false} DigitRunMore(s: Text, x: Text)
    ensures DigitRun(s) < |s| ==> DigitRun(s + x) == DigitRun(s)
    ensures s != [] && IsDigit(s[0]) ==> DigitRun(s + x) > 0
  {
    if s != [] && IsDigit(s[0]) {
      assert (s + x)[1..] == s[1..] + x;
      DigitRunMore(s[1..], x);
    }
  }

  lemma SettledIsNoSuffix(rest: Text, x: Text)
    requires Settled(rest)
    ensures !FloatSuffix(rest) && !FloatSuffix(rest + x)
  {
  }

  lemma ScanNumberMore(s: Text, x: Text)
    requires ScanNumber(s).At? && Settled(ScanNumber(s).rest)
    ensures ScanNumber(s + x) == At(ScanNumber(s).value, ScanNumber(s).rest + x)
  {
    hide DigitRun, Number, FloatSuffix;
    var negative := s[0] == MINUS;
    var t := if negative then s[1..] else s;
    var t' := if negative then (s + x)[1..] else s + x;
    assert t' == t + x;
    DigitRunMore(t, x);
    NonZeroRun(t);
    var k := if t[0] == 48 then 1 else DigitRun(t);
    CutBefore(t, x, k);
    SettledIsNoSuffix(t[k..], x);
  }

  lemma CutBefore(t: Text, x: Text, k: nat)
    requires k <= |t|
    ensures (t + x)[..k] == t[..k] && (t + x)[k..] == t[k..] + x
  {
  }

  lemma NonZeroRun(t: Text)
    ensures DigitRun(t) > 0 ==> t != [] && IsDigit(t[0])
  {
  }

  lemma {:induction false} ScanValueMore(s: Text, x: Text)
    requires ScanValue(s).At? && (ScanValue(s).value.Int? ==> Settled(ScanValue(s).rest))
    ensures ScanValue(s + x) == At(ScanValue(s).value, ScanValue(s).rest + x)
    decreases |s|, 1
  {
    hide ScanString, ScanNumber, SkipSpace, ScanItems, ScanMembers;
    var w := s + x;
    assert w[0] == s[0] && w[1..] == s[1..] + x;
    SkipSpaceMore(s[1..], x);
    var t := SkipSpace(s[1..]);
    if s[0] == QUOTE {
      ScanStringMore(s[1..], x);
    } else if s[0] == LBRACE {
      assert (t + x)[1..] == t[1..] + x;
      if t[0] == QUOTE { ScanMembersMore(t[1..], map[], x); }
    } else if s[0] == LBRACKET {
      if t != [] && t[0] == RBRACKET {
        assert (t + x)[1..] == t[1..] + x;
      } else {
        ScanItemsMore(t, x);
      }
    } else if StartsWith(s, NULL_WORD) || StartsWith(s, TRUE_WORD) {
      assert w[4..] == s[4..] + x;
    } else if StartsWith(s, FALSE_WORD) {
      assert w[5..] == s[5..] + x;
    } else {
      NumberStart(s);
      ScanNumberMore(s, x);
    }
  }

  lemma NumberStart(s: Text)
    requires ScanNumber(s).At?
    ensures s != [] && (s[0] == MINUS || IsDigit(s[0])) && ScanNumber(s).value.Int?
  {
  }

  lemma {:induction false} ScanItemsMore(s: Text, x: Text)
    requires ScanItems(s).At?
    ensures s != []
    ensures ScanItems(s + x) == At(ScanItems(s).value, ScanItems(s).rest + x)
    decreases |s|, 2
  {
    hide ScanValue, SkipSpace;
    var first := ScanValue(s);
    var t := SkipSpace(first.rest);
    SpaceOr(first.rest);
    ScanValueMore(s, x);
    SkipSpaceMore(first.rest, x);
    assert (t + x)[1..] == t[1..] + x;
    if t[0] == COMMA {
      SkipSpaceMore(t[1..], x);
      ScanItemsMore(SkipSpace(t[1..]), x);
    }
  }

  lemma SpaceOr(s: Text)
    ensures SkipSpace(s) != [] ==> s != [] && (s[0] in {32, 9, 10, 13} || s[0] == SkipSpace(s)[0])
  {
  }

  lemma {:induction false} ScanMembersMore(s: Text, seen: map<Text, Value>, x: Text)
    requires ScanMembers(s, seen).At?
    ensures ScanMembers(s + x, seen) == At(ScanMembers(s, seen).value, ScanMembers(s, seen).rest + x)
    decreases |s|, 2
  {
    hide ScanString, ScanValue, SkipSpace;
    ScanStringMore(s, x);
    var key := ScanString(s);
    SkipSpaceMore(key.rest, x);
    var t := SkipSpace(key.rest);
    assert (t + x)[1..] == t[1..] + x;
    SkipSpaceMore(t[1..], x);
    var v := SkipSpace(t[1..]);
    var first := ScanValue(v);
    var u := SkipSpace(first.rest);
    EmptyFails();
    SpaceOr(first.rest);
    ScanValueMore(v, x);
    SkipSpaceMore(first.rest, x);
    assert (u + x)[1..] == u[1..] + x;
    if u[0] == COMMA {
      SkipSpaceMore(u[1..], x);
      var w := SkipSpace(u[1..]);
      assert (w + x)[1..] == w[1..] + x;
      ScanMembersMore(w[1..], seen[key.value := first.value], x);
    }
  }

  lemma EmptyFails()
    ensures ScanValue([]).Fail?
  {
  }

  /** A document followed by more text reads the same if that text is only spaces, and
      is malformed otherwise. */
  lemma LoadsMore(s: Text, x: Text)
    requires Loads(s).Parsed? && !Loads(s).value.Int?
    ensures Loads(s + x) == if SkipSpace(x) == [] then Loads(s) else Malformed
  {
    hide ScanValue, SkipSpace;
    var t := SkipSpace(s);
    EmptyFails();
    assert s != [] by { SpaceOr(s); }
    SkipSpaceMore(s, x);
    ScanValueMore(t, x);
    SkipSpaceMore(ScanValue(t).rest, x);
  }
}
