/** Strings as Python sees them: sequences of code points, lone surrogates included.
    Bytes and text are both sequences of integers, so ASCII bytes are ASCII text. */
module Unicode {

  type CodePoint = c: int | 0 <= c < 0x110000
  type Text = seq<CodePoint>

  type Byte = b: int | 0 <= b < 256
  type Bytes = seq<Byte>

  /** The text of a Dafny string literal. */
  function Ascii(s: string): Text {
    seq(|s|, i requires 0 <= i < |s| => s[i] as int)
  }

  predicate High(c: int) {
    0xD800 <= c < 0xDC00
  }

  predicate Low(c: int) {
    0xDC00 <= c < 0xE000
  }

  predicate Surrogate(c: int) {
    0xD800 <= c < 0xE000
  }

  predicate IsAscii(s: seq<int>) {
    forall i :: 0 <= i < |s| ==> 0 <= s[i] < 128
  }

  /** Printable ASCII, the space included. */
  predicate Printable(s: seq<int>) {
    forall i :: 0 <= i < |s| ==> 32 <= s[i] <= 126
  }

  /* -- order ------------------------------------------------------------- */

  /** Strict lexicographic order on element values: Python's order on strings, and
      the order of byte strings. */
  predicate Below(a: seq<int>, b: seq<int>) {
    if b == [] then false
    else if a == [] then true
    else if a[0] != b[0] then a[0] < b[0]
    else Below(a[1..], b[1..])
  }

  lemma {:induction false} BelowTotal(a: seq<int>, b: seq<int>)
    ensures Below(a, b) || a == b || Below(b, a)
    ensures !(Below(a, b) && (a == b || Below(b, a)))
  {
    if a != [] && b != [] {
      assert a == [a[0]] + a[1..] && b == [b[0]] + b[1..];
      BelowTotal(a[1..], b[1..]);
    }
  }

  lemma {:induction false} BelowTransitive(a: seq<int>, b: seq<int>, c: seq<int>)
    requires Below(a, b) && Below(b, c)
    ensures Below(a, c)
  {
    if a != [] && a[0] == b[0] == c[0] {
      BelowTransitive(a[1..], b[1..], c[1..]);
    }
  }

  ghost predicate StrictlySorted(s: seq<Text>) {
    forall i, j :: 0 <= i < j < |s| ==> Below(s[i], s[j])
  }

  predicate IsLeast(m: Text, s: set<Text>) {
    m in s && forall x :: x in s && x != m ==> Below(m, x)
  }

  lemma {:induction false} HasLeast(s: set<Text>) returns (m: Text)
    requires s != {}
    ensures IsLeast(m, s)
    decreases |s|
  {
    var y :| y in s;
    var rest := s - {y};
    assert s == rest + {y};
    if rest == {} {
      m := y;
    } else {
      m := HasLeast(rest);
      BelowTotal(y, m);
      if Below(y, m) {
        forall x | x in s && x != y ensures Below(y, x) {
          if x != m { BelowTransitive(y, m, x); }
        }
        m := y;
      }
    }
  }

  lemma LeastUnique(s: set<Text>)
    ensures forall m: Text, n: Text :: IsLeast(m, s) && IsLeast(n, s) ==> m == n
  {
    forall m: Text, n: Text | IsLeast(m, s) && IsLeast(n, s) ensures m == n {
      BelowTotal(m, n);
    }
  }

  function Least(s: set<Text>): (m: Text)
    requires s != {}
    ensures IsLeast(m, s)
  {
    assert exists m: Text :: IsLeast(m, s) by {
      var m := HasLeast(s);
    }
    LeastUnique(s);
    var m: Text :| IsLeast(m, s);
    m
  }

  /** Python's sorted() on a set of strings. */
  function Sort(s: set<Text>): (r: seq<Text>)
    ensures StrictlySorted(r)
    ensures forall x :: x in r <==> x in s
    ensures |r| == |s|
    decreases |s|
  {
    if s == {} then []
    else
      var m := Least(s);
      var t := Sort(s - {m});
      assert StrictlySorted([m] + t) by {
        forall i, j | 0 <= i < j < |[m] + t| ensures Below(([m] + t)[i], ([m] + t)[j]) {
          if i == 0 { assert t[j - 1] in t; }
        }
      }
      [m] + t
  }

  /** A strictly sorted sequence is determined by its elements. */
  lemma {:induction false} SortedUnique(a: seq<Text>, b: seq<Text>)
    requires StrictlySorted(a) && StrictlySorted(b)
    requires forall x :: x in a <==> x in b
    ensures a == b
  {
    if a != [] { assert a[0] in a; }
    if b != [] { assert b[0] in b; }
    if a != [] {
      HeadsAgree(a, b);
      forall x: Text ensures x in a[1..] <==> x in b[1..] {
        BelowTotal(x, a[0]);
        assert x in a[1..] <==> x in a && x != a[0] by { InTail(a, x); }
        assert x in b[1..] <==> x in b && x != b[0] by { InTail(b, x); }
      }
      SortedUnique(a[1..], b[1..]);
      assert a == [a[0]] + a[1..] && b == [b[0]] + b[1..];
    }
  }

  lemma InTail(a: seq<Text>, x: Text)
    requires a != [] && StrictlySorted(a)
    ensures x in a[1..] <==> x in a && x != a[0]
  {
    assert a == [a[0]] + a[1..];
    if x in a[1..] {
      var i :| 0 <= i < |a[1..]| && a[1..][i] == x;
      assert a[i + 1] == x;
      BelowTotal(a[0], x);
    }
  }

  lemma HeadsAgree(a: seq<Text>, b: seq<Text>)
    requires a != [] && b != [] && StrictlySorted(a) && StrictlySorted(b)
    requires forall x :: x in a <==> x in b
    ensures a[0] == b[0]
  {
    assert a[0] in b && b[0] in a;
    var k :| 0 <= k < |b| && b[k] == a[0];
    var l :| 0 <= l < |a| && a[l] == b[0];
    BelowTotal(a[0], b[0]);
  }
}
