/** Raw P-256 signatures as DER ECDSA-Sig-Values: section 2.2.3 of RFC 3279, with
    integers as in section 8.3 of ITU-T X.690. */
module Der {
  import opened Outcomes
  import opened Unicode

  const INTEGER: Byte := 0x02
  const SEQUENCE: Byte := 0x30
  const RAW_SIGNATURE_BYTES := 64
  const P256_MIN_SIGNATURE_LEN := 8
  const P256_MAX_SIGNATURE_LEN := 72

  /** int.from_bytes(b, "big") */
  function BigEndian(b: Bytes): nat {
    if b == [] then 0 else BigEndian(b[..|b| - 1]) * 256 + b[|b| - 1]
  }

  /** The shortest big-endian bytes of n, at least one. */
  function MinBytes(n: nat): (r: Bytes)
    ensures r != []
  {
    if n < 256 then [n] else MinBytes(n / 256) + [n % 256]
  }

  function Pow256(k: nat): nat {
    if k == 0 then 1 else 256 * Pow256(k - 1)
  }

  /** The content of a non-negative INTEGER: a leading zero keeps the sign bit clear. */
  function Content(n: nat): Bytes {
    if MinBytes(n)[0] >= 128 then [0] + MinBytes(n) else MinBytes(n)
  }

  function EncodeInteger(n: nat): Bytes
    requires n < Pow256(32)
  {
    ContentBound(n, 32);
    [INTEGER, |Content(n)|] + Content(n)
  }

  /** encode_dss_signature for values of at most 32 bytes. */
  function EncodeSignature(r: nat, s: nat): Bytes
    requires r < Pow256(32) && s < Pow256(32)
  {
    ContentBound(r, 32);
    ContentBound(s, 32);
    var body := EncodeInteger(r) + EncodeInteger(s);
    [SEQUENCE, |body|] + body
  }

  /** Pkcs11SignerProvider.sign on what the token returns. */
  function FromRaw(raw: Bytes): Option<Bytes> {
    if |raw| != RAW_SIGNATURE_BYTES then None
    else
      BigEndianBound(raw[..32]);
      BigEndianBound(raw[32..]);
      Some(EncodeSignature(BigEndian(raw[..32]), BigEndian(raw[32..])))
  }

  /* -- a strict decoder, as the reference --------------------------------------------- */

  datatype Parsed = Bad | Integer(value: nat, rest: Bytes)

  /** One INTEGER: short length, non-negative, no needless leading zero. */
  function DecodeInteger(b: Bytes): Parsed {
    if |b| < 3 || b[0] != INTEGER || b[1] == 0 || b[1] >= 128 || |b| < 2 + b[1] then Bad
    else
      var content := b[2..2 + b[1]];
      if content[0] >= 128 || (content[0] == 0 && |content| > 1 && content[1] < 128) then Bad
      else Integer(BigEndian(content), b[2 + b[1]..])
  }

  function DecodeSignature(b: Bytes): Option<(nat, nat)> {
    if |b| < 2 || b[0] != SEQUENCE || b[1] >= 128 || |b| != 2 + b[1] then None
    else match DecodeInteger(b[2..])
      case Bad => None
      case Integer(r, rest) =>
        match DecodeInteger(rest)
        case Bad => None
        case Integer(s, end) => if end == [] then Some((r, s)) else None
  }

  /* -- arithmetic ------------------------------------------------------------------------ */

  lemma {:induction false} BigEndianBound(b: Bytes)
    ensures BigEndian(b) < Pow256(|b|)
  {
    if b != [] { BigEndianBound(b[..|b| - 1]); }
  }

  lemma {:induction false} MinBytesBound(n: nat, k: nat)
    requires k > 0 && n < Pow256(k)
    ensures |MinBytes(n)| <= k
  {
    if n >= 256 {
      assert k > 1 by { assert Pow256(1) == 256 * Pow256(0); }
      assert n / 256 < Pow256(k - 1);
      MinBytesBound(n / 256, k - 1);
    }
  }

  lemma ContentBound(n: nat, k: nat)
    requires k > 0 && n < Pow256(k)
    ensures 1 <= |Content(n)| <= k + 1
  {
    MinBytesBound(n, k);
  }

  lemma {:induction false} MinBytesValue(n: nat)
    ensures BigEndian(MinBytes(n)) == n
    ensures MinBytes(n)[0] == 0 ==> n == 0 && |MinBytes(n)| == 1
  {
    if n >= 256 {
      MinBytesValue(n / 256);
      var b := MinBytes(n);
      assert b[..|b| - 1] == MinBytes(n / 256);
    } else {
      assert [n][..0] == [];
    }
  }

  lemma {:induction false} LeadingZero(b: Bytes)
    ensures BigEndian([0] + b) == BigEndian(b)
  {
    if b == [] {
      assert ([0] + b)[..0] == [];
      assert BigEndian([0] + b) == BigEndian([]) * 256 + 0;
    } else {
      LeadingZero(b[..|b| - 1]);
      assert ([0] + b)[..|b|] == [0] + b[..|b| - 1];
    }
  }

  /** The shortest bytes of a value are the only ones without a leading zero. */
  lemma {:induction false} MinBytesUnique(b: Bytes)
    requires b != [] && (|b| == 1 || b[0] != 0)
    ensures MinBytes(BigEndian(b)) == b
  {
    var n := |b| - 1;
    var v := BigEndian(b[..n]);
    assert BigEndian(b) == v * 256 + b[n];
    assert BigEndian(b) / 256 == v && BigEndian(b) % 256 == b[n];
    assert b == b[..n] + [b[n]];
    if n == 0 {
      assert b[..0] == [];
    } else {
      MinBytesUnique(b[..n]);
      MinBytesValue(v);
      NonZero(b[..n]);
    }
  }

  lemma {:induction false} NonZero(b: Bytes)
    requires b != [] && b[0] != 0
    ensures BigEndian(b) > 0
  {
    if |b| == 1 {
      assert b[..0] == [];
    } else {
      NonZero(b[..|b| - 1]);
    }
  }

  lemma ContentValue(n: nat)
    ensures BigEndian(Content(n)) == n
    ensures Content(n) != [] && Content(n)[0] < 128
    ensures !(Content(n)[0] == 0 && |Content(n)| > 1 && Content(n)[1] < 128)
  {
    MinBytesValue(n);
    LeadingZero(MinBytes(n));
  }

  /** A decoded INTEGER's content is the one the encoder writes. */
  lemma ContentUnique(c: Bytes)
    requires c != [] && c[0] < 128 && !(c[0] == 0 && |c| > 1 && c[1] < 128)
    ensures Content(BigEndian(c)) == c
  {
    if c[0] == 0 && |c| > 1 {
      LeadingZero(c[1..]);
      assert c == [0] + c[1..];
      MinBytesUnique(c[1..]);
    } else {
      MinBytesUnique(c);
    }
  }

  /* -- the wire format ---------------------------------------------------------------------- */

  lemma IntegerReadsBack(n: nat, rest: Bytes)
    requires n < Pow256(32)
    ensures DecodeInteger(EncodeInteger(n) + rest) == Integer(n, rest)
    ensures 3 <= |EncodeInteger(n)| <= 35
  {
    hide Content, BigEndian;
    ContentBound(n, 32);
    ContentValue(n);
    var b := EncodeInteger(n) + rest;
    assert b[2..2 + b[1]] == Content(n);
    assert b[2 + b[1]..] == rest;
  }

  lemma SignatureReadsBack(r: nat, s: nat)
    requires r < Pow256(32) && s < Pow256(32)
    ensures DecodeSignature(EncodeSignature(r, s)) == Some((r, s))
    ensures P256_MIN_SIGNATURE_LEN <= |EncodeSignature(r, s)| <= P256_MAX_SIGNATURE_LEN
  {
    hide DecodeInteger, EncodeInteger;
    IntegerReadsBack(r, EncodeInteger(s));
    IntegerReadsBack(s, []);
    assert EncodeInteger(s) + [] == EncodeInteger(s);
    var b := EncodeSignature(r, s);
    assert b[2..] == EncodeInteger(r) + EncodeInteger(s);
  }

  /** Every 64-byte raw signature converts to a DER signature of 8 to 72 bytes that
      decodes to the same r and s; any other length is refused. */
  lemma RawConverts(raw: Bytes)
    ensures FromRaw(raw).Some? <==> |raw| == RAW_SIGNATURE_BYTES
    ensures FromRaw(raw).Some? ==>
      var der := FromRaw(raw).value;
      && P256_MIN_SIGNATURE_LEN <= |der| <= P256_MAX_SIGNATURE_LEN
      && DecodeSignature(der) == Some((BigEndian(raw[..32]), BigEndian(raw[32..])))
  {
    if |raw| == RAW_SIGNATURE_BYTES {
      BigEndianBound(raw[..32]);
      BigEndianBound(raw[32..]);
      SignatureReadsBack(BigEndian(raw[..32]), BigEndian(raw[32..]));
    }
  }

  /** The first byte weighs most: each byte further right weighs 256 times less. */
  lemma {:induction false} MostSignificantFirst(first: Byte, rest: Bytes)
    ensures BigEndian([first] + rest) == first * Pow256(|rest|) + BigEndian(rest)
  {
    var b := [first] + rest;
    if rest == [] {
      assert b[..0] == [];
      assert BigEndian(b) == BigEndian([]) * 256 + first;
    } else {
      var n := |rest| - 1;
      MostSignificantFirst(first, rest[..n]);
      assert b[..|b| - 1] == [first] + rest[..n];
    }
  }

  /** The integer whose tag, length and content stand at the index, with nothing needless
      in front of the content. */
  predicate IntegerAt(der: Bytes, i: nat, value: nat) {
    && i + 2 < |der| && der[i] == 0x02 && 1 <= der[i + 1] <= 33 && i + 2 + der[i + 1] <= |der|
    && BigEndian(der[i + 2..i + 2 + der[i + 1]]) == value
    && der[i + 2] < 0x80
    && (der[i + 1] > 1 && der[i + 2] == 0 ==> der[i + 3] >= 0x80)
  }

  /** The bytes written: the tag 0x30 and the length of the rest, then the two integers, each
      the tag 0x02, a length and the value, and nothing after them. */
  lemma RawLayout(raw: Bytes)
    requires |raw| == 64
    ensures FromRaw(raw).Some?
    ensures var der := FromRaw(raw).value;
      && |der| >= 8 && der[0] == 0x30 && der[1] == |der| - 2
      && IntegerAt(der, 2, BigEndian(raw[..32]))
      && IntegerAt(der, 4 + der[3], BigEndian(raw[32..]))
      && |der| == 6 + der[3] + der[5 + der[3]]
  {
    hide BigEndian, Content, Pow256;
    var r, s := BigEndian(raw[..32]), BigEndian(raw[32..]);
    BigEndianBound(raw[..32]);
    BigEndianBound(raw[32..]);
    var der := FromRaw(raw).value;
    var body := EncodeInteger(r) + EncodeInteger(s);
    assert der[2..] == body && der == der[..2] + body;
    EncodedAt(der, der[..2], r, EncodeInteger(s));
    EncodedAt(der, der[..2] + EncodeInteger(r), s, []);
  }

  lemma EncodedAt(der: Bytes, before: Bytes, n: nat, after: Bytes)
    requires n < Pow256(32) && der == before + EncodeInteger(n) + after
    ensures IntegerAt(der, |before|, n) && |EncodeInteger(n)| == 2 + der[|before| + 1]
  {
    hide BigEndian, Content, Pow256;
    ContentBound(n, 32);
    ContentValue(n);
    var i := |before|;
    var c := Content(n);
    assert der[i] == EncodeInteger(n)[0] && der[i + 1] == EncodeInteger(n)[1] == |c|;
    assert der[i + 2..i + 2 + |c|] == c;
    assert der[i + 2] == c[0];
    if |c| > 1 { assert der[i + 3] == c[1]; }
  }

  lemma {:induction false} FixedWidthInjective(a: Bytes, b: Bytes)
    requires |a| == |b| && BigEndian(a) == BigEndian(b)
    ensures a == b
  {
    if a != [] {
      var n := |a| - 1;
      FixedWidthInjective(a[..n], b[..n]);
      assert a == a[..n] + [a[n]] && b == b[..n] + [b[n]];
    }
  }

  /** The conversion loses nothing: different raw signatures give different DER. */
  lemma RawInjective(a: Bytes, b: Bytes)
    requires FromRaw(a).Some? && FromRaw(a) == FromRaw(b)
    ensures a == b
  {
    hide EncodeSignature, DecodeSignature;
    RawConverts(a);
    RawConverts(b);
    FixedWidthInjective(a[..32], b[..32]);
    FixedWidthInjective(a[32..], b[32..]);
    assert a == a[..32] + a[32..] && b == b[..32] + b[32..];
  }

  lemma DecodedIntegerIsEncoded(b: Bytes)
    requires DecodeInteger(b).Integer? && DecodeInteger(b).value < Pow256(32)
    ensures b == EncodeInteger(DecodeInteger(b).value) + DecodeInteger(b).rest
  {
    hide BigEndian, Content;
    var c := b[2..2 + b[1]];
    ContentUnique(c);
    HeaderAndContent(b, c, DecodeInteger(b).rest);
  }

  lemma HeaderAndContent(b: Bytes, c: Bytes, rest: Bytes)
    requires |b| >= 2 && 2 + b[1] <= |b| && c == b[2..2 + b[1]] && rest == b[2 + b[1]..]
    ensures b == [b[0], b[1]] + c + rest
  {
    var length: Byte := b[1];
    SplitInThree(b, 2, 2 + length);
    assert b[..2] == [b[0], b[1]];
  }

  lemma SplitInThree(b: Bytes, i: nat, j: nat)
    requires i <= j <= |b|
    ensures b == b[..i] + b[i..j] + b[j..]
  {
  }

  /** The strict decoder accepts no other spelling of a P-256 signature. */
  lemma DerUnique(b: Bytes)
    requires DecodeSignature(b).Some?
    requires DecodeSignature(b).value.0 < Pow256(32) && DecodeSignature(b).value.1 < Pow256(32)
    ensures b == EncodeSignature(DecodeSignature(b).value.0, DecodeSignature(b).value.1)
  {
    hide DecodeInteger, EncodeInteger;
    DecodedIntegerIsEncoded(b[2..]);
    var rest := DecodeInteger(b[2..]).rest;
    DecodedIntegerIsEncoded(rest);
    assert b == [b[0], b[1]] + b[2..];
    var s := DecodeInteger(rest).value;
    assert rest == EncodeInteger(s) + [] == EncodeInteger(s);
  }

  /** Both ends of the length gate are reached: two zeros give 8 bytes, two values with
      the top bit set give 72. */
  lemma BoundsAreTight(raw: Bytes)
    requires |raw| == RAW_SIGNATURE_BYTES
    ensures BigEndian(raw[..32]) == BigEndian(raw[32..]) == 0 ==> |FromRaw(raw).value| == P256_MIN_SIGNATURE_LEN
    ensures raw[0] >= 128 && raw[32] >= 128 ==> |FromRaw(raw).value| == P256_MAX_SIGNATURE_LEN
  {
    hide BigEndian;
    if raw[0] >= 128 && raw[32] >= 128 {
      MinBytesUnique(raw[..32]);
      MinBytesUnique(raw[32..]);
    }
  }
}
