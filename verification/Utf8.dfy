/** UTF-8 (sections 3 and 4 of RFC 3629), and why sorting code points and sorting their
    encodings give the same order (section 1 of RFC 3629). */
module Utf8 {
  import opened Unicode

  function EncodePoint(c: CodePoint): (r: Bytes)
    ensures 1 <= |r| <= 4
  {
    if c < 0x80 then [c]
    else if c < 0x800 then [0xC0 + c / 64, 0x80 + c % 64]
    else if c < 0x10000 then [0xE0 + c / 4096, 0x80 + c / 64 % 64, 0x80 + c % 64]
    else [0xF0 + c / 262144, 0x80 + c / 4096 % 64, 0x80 + c / 64 % 64, 0x80 + c % 64]
  }

  function Encode(s: Text): Bytes {
    if s == [] then [] else EncodePoint(s[0]) + Encode(s[1..])
  }

  /** a is below b at position k, having agreed with it before. */
  ghost predicate BelowAt(a: seq<int>, b: seq<int>, k: nat) {
    k < |a| && k < |b| && a[..k] == b[..k] && a[k] < b[k]
  }

  lemma {:induction false} BelowFrom(a: seq<int>, b: seq<int>, k: nat)
    requires BelowAt(a, b, k)
    ensures Below(a, b)
  {
    if k > 0 {
      assert a[0] == a[..k][0] == b[..k][0] == b[0];
      assert a[1..][..k - 1] == a[..k][1..] == b[..k][1..] == b[1..][..k - 1];
      BelowFrom(a[1..], b[1..], k - 1);
    }
  }

  /** The encodings of two code points first differ, in their order, at some byte. */
  lemma PointsOrdered(c: CodePoint, d: CodePoint) returns (k: nat)
    requires c < d
    ensures BelowAt(EncodePoint(c), EncodePoint(d), k)
  {
    var e, f := EncodePoint(c), EncodePoint(d);
    if |e| != |f| || e[0] != f[0] {
      k := 0;
      LeadingOrdered(c, d);
    } else if |e| == 2 {
      k := 1;
      SameQuotient(c, d, 64);
    } else if |e| == 3 {
      SameQuotient(c, d, 4096);
      if e[1] != f[1] {
        k := 1;
        MiddleOrdered(c, d, 4096);
      } else {
        k := 2;
        assert c / 64 == d / 64 by { MiddleSame(c, d, 4096); }
        SameQuotient(c, d, 64);
      }
    } else {
      SameQuotient(c, d, 262144);
      if e[1] != f[1] {
        k := 1;
        MiddleOrdered4(c, d);
      } else {
        assert c / 4096 == d / 4096 by { MiddleSame4(c, d); }
        SameQuotient(c, d, 4096);
        if e[2] != f[2] {
          k := 2;
          MiddleOrdered(c, d, 4096);
        } else {
          k := 3;
          assert c / 64 == d / 64 by { MiddleSame(c, d, 4096); }
          SameQuotient(c, d, 64);
        }
      }
    }
  }

  lemma LeadingOrdered(c: CodePoint, d: CodePoint)
    requires c < d
    ensures |EncodePoint(c)| <= |EncodePoint(d)| && EncodePoint(c)[0] <= EncodePoint(d)[0]
    ensures |EncodePoint(c)| != |EncodePoint(d)| ==> EncodePoint(c)[0] < EncodePoint(d)[0]
  {
  }

  lemma SameQuotient(c: nat, d: nat, m: nat)
    requires c < d && m in {64, 4096, 262144} && c / m == d / m
    ensures c % m < d % m
  {
    assert c == c / m * m + c % m && d == d / m * m + d % m;
  }

  lemma MiddleOrdered(c: nat, d: nat, m: nat)
    requires m == 4096 && c < d && c / m == d / m && c / 64 % 64 != d / 64 % 64
    ensures c / 64 % 64 < d / 64 % 64
  {
    assert c / 64 == c / 4096 * 64 + c / 64 % 64;
    assert d / 64 == d / 4096 * 64 + d / 64 % 64;
    assert c / 64 <= d / 64;
  }

  lemma MiddleSame(c: nat, d: nat, m: nat)
    requires m == 4096 && c / m == d / m && c / 64 % 64 == d / 64 % 64
    ensures c / 64 == d / 64
  {
    assert c / 64 == c / 4096 * 64 + c / 64 % 64;
    assert d / 64 == d / 4096 * 64 + d / 64 % 64;
  }

  lemma MiddleOrdered4(c: nat, d: nat)
    requires c < d && c / 262144 == d / 262144 && c / 4096 % 64 != d / 4096 % 64
    ensures c / 4096 % 64 < d / 4096 % 64
  {
    assert c / 4096 == c / 262144 * 64 + c / 4096 % 64;
    assert d / 4096 == d / 262144 * 64 + d / 4096 % 64;
    assert c / 4096 <= d / 4096;
  }

  lemma MiddleSame4(c: nat, d: nat)
    requires c / 262144 == d / 262144 && c / 4096 % 64 == d / 4096 % 64
    ensures c / 4096 == d / 4096
  {
    assert c / 4096 == c / 262144 * 64 + c / 4096 % 64;
    assert d / 4096 == d / 262144 * 64 + d / 4096 % 64;
  }

  lemma {:induction false} BelowCancel(x: seq<int>, a: seq<int>, b: seq<int>)
    ensures Below(x + a, x + b) <==> Below(a, b)
  {
    if x == [] {
      assert x + a == a && x + b == b;
    } else {
      assert (x + a)[1..] == x[1..] + a && (x + b)[1..] == x[1..] + b;
      BelowCancel(x[1..], a, b);
    }
  }

  lemma FirstDecides(c: CodePoint, d: CodePoint, u: Bytes, v: Bytes)
    requires c < d
    ensures Below(EncodePoint(c) + u, EncodePoint(d) + v)
  {
    hide EncodePoint;
    var k := PointsOrdered(c, d);
    var a, b := EncodePoint(c) + u, EncodePoint(d) + v;
    assert a[..k] == EncodePoint(c)[..k] && b[..k] == EncodePoint(d)[..k];
    BelowFrom(a, b, k);
  }

  /** The order of strings by code point is the order of their encodings by byte. */
  lemma {:induction false} OrderPreserved(s: Text, t: Text)
    ensures Below(s, t) <==> Below(Encode(s), Encode(t))
  {
    hide EncodePoint;
    if s == [] || t == [] {
    } else if s[0] == t[0] {
      OrderPreserved(s[1..], t[1..]);
      BelowCancel(EncodePoint(s[0]), Encode(s[1..]), Encode(t[1..]));
    } else if s[0] < t[0] {
      FirstDecides(s[0], t[0], Encode(s[1..]), Encode(t[1..]));
    } else {
      FirstDecides(t[0], s[0], Encode(t[1..]), Encode(s[1..]));
      BelowTotal(Encode(s), Encode(t));
    }
  }

  /** Different strings have different encodings. */
  lemma EncodeInjective(s: Text, t: Text)
    requires Encode(s) == Encode(t)
    ensures s == t
  {
    OrderPreserved(s, t);
    OrderPreserved(t, s);
    BelowTotal(s, t);
    BelowTotal(Encode(s), Encode(s));
  }

  lemma {:induction false} EncodeAscii(s: Text)
    requires IsAscii(s)
    ensures Encode(s) == s
  {
    if s != [] {
      EncodeAscii(s[1..]);
      assert s == [s[0]] + s[1..];
    }
  }
}
