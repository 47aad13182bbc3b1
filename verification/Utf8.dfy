/**
 * UTF-8 (section 3 of RFC 3629), as `str.encode("utf-8")` and the strict `bytes.decode("utf-8")`
 * compute it.  A `char` is a Unicode scalar value, so every string here has an encoding.
 */
module Utf8 {
  import opened Common
  import opened Lex

  function EncodeChar(c: char): (e: seq<byte>)
    ensures 1 <= |e| <= 4
  {
    var n := c as int;
    if n < 0x80 then [n]
    else if n < 0x800 then [0xC0 + n / 64, 0x80 + n % 64]
    else if n < 0x1_0000 then [0xE0 + n / 4096, 0x80 + n / 64 % 64, 0x80 + n % 64]
    else [0xF0 + n / 262144, 0x80 + n / 4096 % 64, 0x80 + n / 64 % 64, 0x80 + n % 64]
  }

  function Encode(s: string): seq<byte> {
    if s == "" then [] else EncodeChar(s[0]) + Encode(s[1..])
  }

  predicate Continuation(b: byte) {
    0x80 <= b < 0xC0
  }

  predicate IsScalar(n: int) {
    0 <= n < 0xD800 || 0xE000 <= n < 0x11_0000
  }

  // The scalar value carried by a lead byte and its continuation bytes.
  function Join2(a: int, b: int): int {
    (a - 0xC0) * 64 + (b - 0x80)
  }

  function Join3(a: int, b: int, c: int): int {
    (a - 0xE0) * 4096 + (b - 0x80) * 64 + (c - 0x80)
  }

  function Join4(a: int, b: int, c: int, d: int): int {
    (a - 0xF0) * 262144 + (b - 0x80) * 4096 + (c - 0x80) * 64 + (d - 0x80)
  }

  /** The scalar value and length of the first well-formed sequence of `b`, if there is one. */
  function DecodeFirst(b: seq<byte>): (r: Option<(char, nat)>)
    ensures r.Some? ==> 1 <= r.value.1 <= |b|
  {
    if |b| == 0 then None
    else if b[0] < 0x80 then Some((b[0] as char, 1))
    else if 0xC0 <= b[0] < 0xE0 && |b| >= 2 && Continuation(b[1]) then
      var n := Join2(b[0], b[1]);
      if n >= 0x80 then Some((n as char, 2)) else None
    else if 0xE0 <= b[0] < 0xF0 && |b| >= 3 && Continuation(b[1]) && Continuation(b[2]) then
      var n := Join3(b[0], b[1], b[2]);
      if n >= 0x800 && IsScalar(n) then Some((n as char, 3)) else None
    else if 0xF0 <= b[0] < 0xF8 && |b| >= 4 && Continuation(b[1]) && Continuation(b[2]) && Continuation(b[3]) then
      var n := Join4(b[0], b[1], b[2], b[3]);
      if n >= 0x1_0000 && IsScalar(n) then Some((n as char, 4)) else None
    else None
  }

  function Decode(b: seq<byte>): Option<string> {
    if |b| == 0 then Some("")
    else
      match DecodeFirst(b)
      case None => None
      case Some((c, n)) =>
        match Decode(b[n..])
        case None => None
        case Some(rest) => Some([c] + rest)
  }

  // Base-64 digits of a scalar value, most significant first.
  lemma Digits(n: nat)
    ensures n == n / 64 * 64 + n % 64
    ensures n == n / 4096 * 4096 + n / 64 % 64 * 64 + n % 64
    ensures n == n / 262144 * 262144 + n / 4096 % 64 * 4096 + n / 64 % 64 * 64 + n % 64
  {
    assert n / 64 / 64 == n / 4096;
    assert n / 4096 / 64 == n / 262144;
  }

  lemma DigitsOf(a: nat, b: nat, c: nat, d: nat)
    requires b < 64 && c < 64 && d < 64
    ensures var n := a * 262144 + b * 4096 + c * 64 + d;
            n / 262144 == a && n / 4096 == a * 64 + b && n / 4096 % 64 == b && n / 64 == a * 4096 + b * 64 + c
            && n / 64 % 64 == c && n % 64 == d
  {
    var n := a * 262144 + b * 4096 + c * 64 + d;
    assert n / 64 == a * 4096 + b * 64 + c;
    assert n / 4096 == a * 64 + b;
  }

  /** The table of section 3 of RFC 3629: length by range, lead and continuation bytes, and the bits they carry. */
  lemma EncodedBytes(c: char)
    ensures var n, e := c as int, EncodeChar(c);
            (|e| == 1 <==> n < 0x80) && (|e| == 2 <==> 0x80 <= n < 0x800) && (|e| == 3 <==> 0x800 <= n < 0x1_0000)
            && forall i :: 1 <= i < |e| ==> 0x80 <= e[i] < 0xC0
    ensures var e := EncodeChar(c); |e| == 1 ==> e[0] == c as int
    ensures var e := EncodeChar(c);
            |e| == 2 ==> 0xC0 <= e[0] < 0xE0
                         && 0xC0 * 64 + 0x80 + c as int == e[0] as int * 64 + e[1] as int
    ensures var e := EncodeChar(c);
            |e| == 3 ==> 0xE0 <= e[0] < 0xF0
                         && 0xE0 * 4096 + 0x80 * 64 + 0x80 + c as int
                            == e[0] as int * 4096 + e[1] as int * 64 + e[2] as int
    ensures var e := EncodeChar(c);
            |e| == 4 ==> 0xF0 <= e[0] < 0xF8
                         && 0xF0 * 262144 + 0x80 * 4096 + 0x80 * 64 + 0x80 + c as int
                            == e[0] as int * 262144 + e[1] as int * 4096 + e[2] as int * 64 + e[3] as int
  {
    Digits(c as int);
  }

  lemma DecodeFirstInvertsEncodeChar(c: char, rest: seq<byte>)
    ensures DecodeFirst(EncodeChar(c) + rest) == Some((c, |EncodeChar(c)|))
  {
    var n := c as int;
    var e := EncodeChar(c);
    var b := e + rest;
    Digits(n);
    assert b[0] == e[0];
    if n < 0x80 {
    } else if n < 0x800 {
      assert b[1] == e[1];
      assert Join2(b[0], b[1]) == n;
    } else if n < 0x1_0000 {
      assert b[1] == e[1] && b[2] == e[2];
      assert Join3(b[0], b[1], b[2]) == n;
    } else {
      assert b[1] == e[1] && b[2] == e[2] && b[3] == e[3];
      assert Join4(b[0], b[1], b[2], b[3]) == n;
    }
  }

  lemma EncodeCharInvertsDecodeFirst(b: seq<byte>)
    requires DecodeFirst(b).Some?
    ensures EncodeChar(DecodeFirst(b).value.0) == b[..DecodeFirst(b).value.1]
  {
    var n := DecodeFirst(b).value.0 as int;
    if b[0] < 0x80 {
    } else if b[0] < 0xE0 {
      DigitsOf(0, 0, b[0] - 0xC0, b[1] - 0x80);
    } else if b[0] < 0xF0 {
      DigitsOf(0, b[0] - 0xE0, b[1] - 0x80, b[2] - 0x80);
    } else {
      DigitsOf(b[0] - 0xF0, b[1] - 0x80, b[2] - 0x80, b[3] - 0x80);
    }
  }

  /** Decoding what was encoded gives the string back. */
  lemma {:induction false} DecodeEncode(s: string)
    ensures Decode(Encode(s)) == Some(s)
  {
    if s != "" {
      var e := EncodeChar(s[0]);
      DecodeFirstInvertsEncodeChar(s[0], Encode(s[1..]));
      assert (e + Encode(s[1..]))[|e|..] == Encode(s[1..]);
      DecodeEncode(s[1..]);
      assert [s[0]] + s[1..] == s;
    }
  }

  lemma EncodeCons(c: char, s: string)
    ensures Encode([c] + s) == EncodeChar(c) + Encode(s)
  {
    assert ([c] + s)[1..] == s;
  }

  lemma AsciiIsOneByte(c: char)
    requires c as int < 0x80
    ensures |Encode([c])| == 1
  {
    EncodeCons(c, "");
    assert [c] + "" == [c];
  }

  // One step of a successful decoding.
  lemma DecodeParts(b: seq<byte>) returns (c: char, n: nat, rest: string)
    requires |b| > 0 && Decode(b).Some?
    ensures 1 <= n <= |b| && b[..n] == EncodeChar(c)
    ensures Decode(b[n..]) == Some(rest) && Decode(b) == Some([c] + rest)
  {
    EncodeCharInvertsDecodeFirst(b);
    c, n := DecodeFirst(b).value.0, DecodeFirst(b).value.1;
    rest := Decode(b[n..]).value;
  }

  /** The decoder accepts only the encoder's own output: overlong forms and surrogates are refused. */
  lemma {:induction false} EncodeDecode(b: seq<byte>)
    requires Decode(b).Some?
    ensures Encode(Decode(b).value) == b
  {
    if |b| > 0 {
      var c, n, rest := DecodeParts(b);
      EncodeDecode(b[n..]);
      EncodeCons(c, rest);
      assert b[..n] + b[n..] == b;
    }
  }

  /** Code points of a string, the sequence Python compares strings by. */
  function Codes(s: string): (r: seq<int>)
    ensures |r| == |s|
  {
    seq(|s|, i requires 0 <= i < |s| => s[i] as int)
  }

  // Digits compare like the numbers they spell, most significant first.
  lemma DigitOrder(m: nat, n: nat)
    requires m < n
    ensures m / 64 < n / 64 || (m / 64 == n / 64 && m % 64 < n % 64)
  {
  }

  lemma LeadByteOrder(c: char, d: char)
    requires c < d && (|EncodeChar(c)| != |EncodeChar(d)| || |EncodeChar(c)| == 1)
    ensures EncodeChar(c)[0] < EncodeChar(d)[0]
  {
  }

  lemma TwoByteOrder(c: char, d: char)
    requires c < d && |EncodeChar(c)| == |EncodeChar(d)| == 2
    ensures exists k :: 0 <= k < 2 && EncodeChar(c)[..k] == EncodeChar(d)[..k] && EncodeChar(c)[k] < EncodeChar(d)[k]
  {
    var m, n := c as int, d as int;
    var e, f := EncodeChar(c), EncodeChar(d);
    DigitOrder(m, n);
    if m / 64 < n / 64 {
      assert e[..0] == f[..0] && e[0] < f[0];
    } else {
      assert e[..1] == f[..1] && e[1] < f[1];
    }
  }

  lemma ThreeByteOrder(c: char, d: char)
    requires c < d && |EncodeChar(c)| == |EncodeChar(d)| == 3
    ensures exists k :: 0 <= k < 3 && EncodeChar(c)[..k] == EncodeChar(d)[..k] && EncodeChar(c)[k] < EncodeChar(d)[k]
  {
    var m, n := c as int, d as int;
    var e, f := EncodeChar(c), EncodeChar(d);
    DigitOrder(m, n);
    assert m / 64 / 64 == m / 4096 && n / 64 / 64 == n / 4096;
    if m / 64 == n / 64 {
      assert e[..2] == f[..2] && e[2] < f[2];
    } else {
      DigitOrder(m / 64, n / 64);
      if m / 4096 == n / 4096 {
        assert e[..1] == f[..1] && e[1] < f[1];
      } else {
        assert e[..0] == f[..0] && e[0] < f[0];
      }
    }
  }

  lemma FourByteOrder(c: char, d: char)
    requires c < d && |EncodeChar(c)| == |EncodeChar(d)| == 4
    ensures exists k :: 0 <= k < 4 && EncodeChar(c)[..k] == EncodeChar(d)[..k] && EncodeChar(c)[k] < EncodeChar(d)[k]
  {
    var m, n := c as int, d as int;
    var e, f := EncodeChar(c), EncodeChar(d);
    DigitOrder(m, n);
    assert m / 64 / 64 == m / 4096 && n / 64 / 64 == n / 4096;
    assert m / 4096 / 64 == m / 262144 && n / 4096 / 64 == n / 262144;
    if m / 64 == n / 64 {
      assert e[..3] == f[..3] && e[3] < f[3];
    } else {
      DigitOrder(m / 64, n / 64);
      if m / 4096 == n / 4096 {
        assert e[..2] == f[..2] && e[2] < f[2];
      } else {
        DigitOrder(m / 4096, n / 4096);
        if m / 262144 == n / 262144 {
          assert e[..1] == f[..1] && e[1] < f[1];
        } else {
          assert e[..0] == f[..0] && e[0] < f[0];
        }
      }
    }
  }

  lemma DifferAt(e: seq<byte>, f: seq<byte>, k: nat, x: seq<byte>, y: seq<byte>)
    requires k < |e| && k < |f| && e[..k] == f[..k] && e[k] < f[k]
    ensures Less(e + x, f + y)
  {
    assert forall i :: 0 <= i < k ==> e[..k][i] == f[..k][i];
    FirstDifference(e + x, f + y, k);
  }

  lemma CharOrder(c: char, d: char, x: seq<byte>, y: seq<byte>)
    requires c < d
    ensures Less(EncodeChar(c) + x, EncodeChar(d) + y)
  {
    var e, f := EncodeChar(c), EncodeChar(d);
    if |e| == 2 && |f| == 2 {
      TwoByteOrder(c, d);
    } else if |e| == 3 && |f| == 3 {
      ThreeByteOrder(c, d);
    } else if |e| == 4 && |f| == 4 {
      FourByteOrder(c, d);
    } else {
      LeadByteOrder(c, d);
      assert e[..0] == f[..0];
    }
    var k :| 0 <= k < |e| && k < |f| && e[..k] == f[..k] && e[k] < f[k];
    DifferAt(e, f, k, x, y);
  }

  /** Byte order of the encodings is code-point order of the strings (section 1 of RFC 3629). */
  lemma {:induction false} OrderPreserved(s: string, t: string)
    ensures Less(Encode(s), Encode(t)) <==> Less(Codes(s), Codes(t))
  {
    if s != "" && t != "" {
      if s[0] < t[0] {
        CharOrder(s[0], t[0], Encode(s[1..]), Encode(t[1..]));
      } else if t[0] < s[0] {
        CharOrder(t[0], s[0], Encode(t[1..]), Encode(s[1..]));
        if Less(Encode(s), Encode(t)) {
          Transitive(Encode(s), Encode(t), Encode(s));
          Irreflexive(Encode(s));
        }
      } else {
        assert s[0] == t[0];
        PrefixCancels(EncodeChar(s[0]), Encode(s[1..]), Encode(t[1..]));
        OrderPreserved(s[1..], t[1..]);
        assert Codes(s)[1..] == Codes(s[1..]) && Codes(t)[1..] == Codes(t[1..]);
      }
    }
  }
}
