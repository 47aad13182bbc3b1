/**
 * Base64 with the URL-safe alphabet (sections 4 and 5 of RFC 4648), as `base64.urlsafe_b64encode`
 * and `base64.b64decode(..., altchars=b"-_", validate=True)` compute it.
 */
module Base64 {
  import opened Common

  type sextet = n: int | 0 <= n < 64

  function UrlChar(n: sextet): char {
    if n < 26 then (n + 65) as char
    else if n < 52 then (n + 71) as char
    else if n < 62 then (n - 4) as char
    else if n == 62 then '-'
    else '_'
  }

  predicate IsUrlChar(c: char) {
    'A' <= c <= 'Z' || 'a' <= c <= 'z' || '0' <= c <= '9' || c == '-' || c == '_'
  }

  /** `altchars` maps `-_` onto `+/` before decoding, so all four characters are digits. */
  predicate IsDigit(c: char) {
    IsUrlChar(c) || c == '+' || c == '/'
  }

  function Digit(c: char): sextet
    requires IsDigit(c)
  {
    if 'A' <= c <= 'Z' then c as int - 65
    else if 'a' <= c <= 'z' then c as int - 71
    else if '0' <= c <= '9' then c as int + 4
    else if c == '-' || c == '+' then 62
    else 63
  }

  function Chars(v: seq<sextet>): (s: string)
    ensures |s| == |v|
  {
    seq(|v|, i requires 0 <= i < |v| => UrlChar(v[i]))
  }

  predicate AllDigits(s: string) {
    forall i :: 0 <= i < |s| ==> IsDigit(s[i])
  }

  predicate UrlSafe(s: string) {
    forall i :: 0 <= i < |s| ==> IsUrlChar(s[i])
  }

  function Digits(s: string): (v: seq<sextet>)
    requires AllDigits(s)
    ensures |v| == |s|
  {
    seq(|s|, i requires 0 <= i < |s| => Digit(s[i]))
  }

  // Three bytes as four sextets, and back.
  function Sextet1(a: byte): sextet { a / 4 }
  function Sextet2(a: byte, b: byte): sextet { a % 4 * 16 + b / 16 }
  function Sextet3(b: byte, c: byte): sextet { b % 16 * 4 + c / 64 }
  function Sextet4(c: byte): sextet { c % 64 }

  function Byte1(p: sextet, q: sextet): byte { p * 4 + q / 16 }
  function Byte2(q: sextet, r: sextet): byte { q % 16 * 16 + r / 4 }
  function Byte3(r: sextet, t: sextet): byte { r % 4 * 64 + t }

  /** Bytes to sextets; a final group of one or two bytes is completed with zero bits. */
  function Unpack(b: seq<byte>): seq<sextet> {
    if |b| == 0 then []
    else if |b| == 1 then [Sextet1(b[0]), Sextet2(b[0], 0)]
    else if |b| == 2 then [Sextet1(b[0]), Sextet2(b[0], b[1]), Sextet3(b[1], 0)]
    else [Sextet1(b[0]), Sextet2(b[0], b[1]), Sextet3(b[1], b[2]), Sextet4(b[2])] + Unpack(b[3..])
  }

  /** Sextets to bytes; the spare bits of a final short group are dropped without being looked at. */
  function Pack(v: seq<sextet>): seq<byte> {
    if |v| < 2 then []
    else if |v| == 2 then [Byte1(v[0], v[1])]
    else if |v| == 3 then [Byte1(v[0], v[1]), Byte2(v[1], v[2])]
    else [Byte1(v[0], v[1]), Byte2(v[1], v[2]), Byte3(v[2], v[3])] + Pack(v[4..])
  }

  /** Python's `"=" * (-n % 4)`. */
  function Padding(n: nat): string {
    if n % 4 == 1 then "===" else if n % 4 == 2 then "==" else if n % 4 == 3 then "=" else ""
  }

  /** Python's `s.rstrip("=")`. */
  function StripPadding(s: string): string {
    if |s| > 0 && s[|s| - 1] == '=' then StripPadding(s[..|s| - 1]) else s
  }

  /** `base64.urlsafe_b64encode`. */
  function Encode(b: seq<byte>): string {
    Chars(Unpack(b)) + Padding(|Unpack(b)|)
  }

  /** `base64.b64decode` with strict validation: digits, then at most two `=`, in whole groups of four. */
  function Decode(s: string): Option<seq<byte>> {
    var body := StripPadding(s);
    if |s| % 4 != 0 || |s| - |body| > 2 || !AllDigits(body) then None
    else Some(Pack(Digits(body)))
  }

  lemma BytesOfSextets(a: byte, b: byte, c: byte)
    ensures Byte1(Sextet1(a), Sextet2(a, b)) == a
    ensures Byte2(Sextet2(a, b), Sextet3(b, c)) == b
    ensures Byte3(Sextet3(b, c), Sextet4(c)) == c
  {
    assert Sextet2(a, b) / 16 == a % 4 && Sextet2(a, b) % 16 == b / 16;
    assert Sextet3(b, c) / 4 == b % 16 && Sextet3(b, c) % 4 == c / 64;
  }

  lemma SextetsOfBytes(p: sextet, q: sextet, r: sextet, t: sextet)
    ensures var a, b, c := Byte1(p, q), Byte2(q, r), Byte3(r, t);
            Sextet1(a) == p && Sextet2(a, b) == q && Sextet3(b, c) == r && Sextet4(c) == t
    ensures q % 16 == 0 <==> Sextet2(Byte1(p, q), 0) == q
    ensures r % 4 == 0 <==> Sextet3(Byte2(q, r), 0) == r
  {
    var a, b := Byte1(p, q), Byte2(q, r);
    assert a / 4 == p && a % 4 == q / 16;
    assert b / 16 == q % 16 && b % 16 == r / 4;
  }

  lemma PackStep(g: seq<sextet>, rest: seq<sextet>)
    requires |g| == 4
    ensures Pack(g + rest) == [Byte1(g[0], g[1]), Byte2(g[1], g[2]), Byte3(g[2], g[3])] + Pack(rest)
  {
    assert (g + rest)[4..] == rest;
  }

  lemma UnpackStep(g: seq<byte>, rest: seq<byte>)
    requires |g| == 3
    ensures Unpack(g + rest) ==
            [Sextet1(g[0]), Sextet2(g[0], g[1]), Sextet3(g[1], g[2]), Sextet4(g[2])] + Unpack(rest)
  {
    assert (g + rest)[3..] == rest;
  }

  lemma PackTwo(p: sextet, q: sextet)
    ensures Pack([p, q]) == [Byte1(p, q)]
  {
  }

  lemma FirstByteAlone(a: byte)
    ensures Byte1(Sextet1(a), Sextet2(a, 0)) == a
  {
    assert Sextet2(a, 0) == a % 4 * 16;
  }

  lemma PackUnpackOne(a: byte)
    ensures Pack(Unpack([a])) == [a]
  {
    FirstByteAlone(a);
    PackTwo(Sextet1(a), Sextet2(a, 0));
  }

  lemma PackUnpackTwo(a: byte, b: byte)
    ensures Pack(Unpack([a, b])) == [a, b]
  {
    BytesOfSextets(a, b, 0);
    assert Unpack([a, b]) == [Sextet1(a), Sextet2(a, b), Sextet3(b, 0)];
  }

  lemma {:induction false} PackUnpack(b: seq<byte>)
    ensures Pack(Unpack(b)) == b
  {
    if |b| == 0 {
    } else if |b| == 1 {
      PackUnpackOne(b[0]);
      assert b == [b[0]];
    } else if |b| == 2 {
      PackUnpackTwo(b[0], b[1]);
      assert b == [b[0], b[1]];
    } else {
      var g, rest := b[..3], b[3..];
      assert b == g + rest;
      UnpackStep(g, rest);
      PackStep([Sextet1(g[0]), Sextet2(g[0], g[1]), Sextet3(g[1], g[2]), Sextet4(g[2])], Unpack(rest));
      BytesOfSextets(g[0], g[1], g[2]);
      PackUnpack(rest);
      assert [g[0], g[1], g[2]] == g;
    }
  }

  /** The spare bits of a final short group are zero (section 3.5 of RFC 4648). */
  predicate SpareBitsZero(v: seq<sextet>) {
    |v| % 4 != 1 && (|v| % 4 == 2 ==> v[|v| - 1] % 16 == 0) && (|v| % 4 == 3 ==> v[|v| - 1] % 4 == 0)
  }

  lemma {:induction false} UnpackPack(v: seq<sextet>)
    ensures Unpack(Pack(v)) == v <==> SpareBitsZero(v)
  {
    if |v| == 2 {
      SextetsOfBytes(v[0], v[1], 0, 0);
    } else if |v| == 3 {
      SextetsOfBytes(v[0], v[1], v[2], 0);
    } else if |v| >= 4 {
      var rest := v[4..];
      var g := [Byte1(v[0], v[1]), Byte2(v[1], v[2]), Byte3(v[2], v[3])];
      SextetsOfBytes(v[0], v[1], v[2], v[3]);
      UnpackStep(g, Pack(rest));
      UnpackPack(rest);
      SpareBitsOfRest(v);
      AppendCancels([v[0], v[1], v[2], v[3]], Unpack(Pack(rest)), rest);
    }
  }

  lemma SpareBitsOfRest(v: seq<sextet>)
    requires |v| >= 4
    ensures SpareBitsZero(v) <==> SpareBitsZero(v[4..])
  {
    assert |v[4..]| % 4 == |v| % 4;
    if |v| > 4 { assert v[4..][|v| - 5] == v[|v| - 1]; }
  }

  lemma AppendCancels(g: seq<sextet>, x: seq<sextet>, y: seq<sextet>)
    ensures g + x == g + y <==> x == y
  {
    assert (g + x)[|g|..] == x && (g + y)[|g|..] == y;
  }

  lemma {:induction false} UnpackLength(b: seq<byte>)
    ensures |Unpack(b)| == CeilDiv(4 * |b|, 3) && |Unpack(b)| % 4 != 1
  {
    if |b| >= 3 { UnpackLength(b[3..]); }
  }

  lemma DigitOfUrlChar(n: sextet)
    ensures IsUrlChar(UrlChar(n)) && Digit(UrlChar(n)) == n
  {
  }

  lemma UrlCharOfDigit(c: char)
    requires IsDigit(c)
    ensures UrlChar(Digit(c)) == c <==> IsUrlChar(c)
  {
  }

  /** Table 2 of RFC 4648: A to Z, a to z, 0 to 9, minus, underscore. */
  lemma UrlAlphabet(n: sextet)
    ensures UrlChar(0) == 'A' && UrlChar(26) == 'a' && UrlChar(52) == '0' && UrlChar(62) == '-' && UrlChar(63) == '_'
    ensures n < 61 && n != 25 && n != 51 ==> UrlChar(n + 1) as int == UrlChar(n) as int + 1
  {
  }

  /** The decoder's digits: those 64 characters, and the plus and slash of Table 1 with the same two values. */
  lemma DigitAlphabet(c: char)
    ensures IsDigit(c) <==> (exists n: sextet :: UrlChar(n) == c) || c == '+' || c == '/'
    ensures Digit('+') == Digit('-') == 62 && Digit('/') == Digit('_') == 63
  {
    if IsUrlChar(c) {
      UrlCharOfDigit(c);
      assert UrlChar(Digit(c)) == c;
    }
    forall n: sextet
      ensures IsUrlChar(UrlChar(n))
    {
      DigitOfUrlChar(n);
    }
  }

  // The number spelt by four sextets, and by three bytes.
  function Bits(p: int, q: int, r: int, t: int): int {
    p * 262144 + q * 4096 + r * 64 + t
  }

  lemma SextetBits(a: byte, b: byte, c: byte)
    ensures Bits(Sextet1(a), Sextet2(a, b), Sextet3(b, c), Sextet4(c)) == a as int * 65536 + b as int * 256 + c as int
  {
    assert a == a / 4 * 4 + a % 4 && b == b / 16 * 16 + b % 16 && c == c / 64 * 64 + c % 64;
  }

  /**
   * Section 4 of RFC 4648: three bytes and their four sextets are the same 24 bits, and a short final group is
   * that of the group filled up with zero bits, without the sextets that hold none of its own.
   */
  lemma SameBits(g: seq<byte>, rest: seq<byte>)
    requires |g| == 3
    ensures var u := Unpack(g + rest);
            |u| >= 4 && u[4..] == Unpack(rest)
            && Bits(u[0], u[1], u[2], u[3]) == g[0] as int * 65536 + g[1] as int * 256 + g[2] as int
    ensures g[2] == 0 ==> Unpack(g[..2]) == Unpack(g)[..3]
    ensures g[1] == g[2] == 0 ==> Unpack(g[..1]) == Unpack(g)[..2]
  {
    UnpackStep(g, rest);
    SextetBits(g[0], g[1], g[2]);
    UnpackStep(g, []);
    assert g + [] == g;
  }

  lemma DigitsOfChars(v: seq<sextet>)
    ensures UrlSafe(Chars(v)) && AllDigits(Chars(v)) && Digits(Chars(v)) == v
  {
    forall i | 0 <= i < |v|
      ensures IsUrlChar(Chars(v)[i]) && Digit(Chars(v)[i]) == v[i]
    {
      DigitOfUrlChar(v[i]);
    }
  }

  lemma CharsOfDigits(s: string)
    requires AllDigits(s)
    ensures Chars(Digits(s)) == s <==> UrlSafe(s)
  {
    var t := Chars(Digits(s));
    forall i | 0 <= i < |s|
      ensures t[i] == s[i] <==> IsUrlChar(s[i])
    {
      UrlCharOfDigit(s[i]);
    }
  }

  lemma {:induction false} StripPaddingDrops(s: string, k: nat)
    requires |s| > 0 ==> s[|s| - 1] != '='
    ensures StripPadding(s + seq(k, _ => '=')) == s
  {
    var t := s + seq(k, _ => '=');
    if k == 0 {
      assert t == s;
    } else {
      assert t[..|t| - 1] == s + seq(k - 1, _ => '=');
      StripPaddingDrops(s, k - 1);
    }
  }

  /** Stripping removes exactly the padding `-len % 4` restores. */
  lemma StripInvertsPadding(s: string)
    requires AllDigits(s)
    ensures StripPadding(s + Padding(|s|)) == s
  {
    if |s| > 0 { assert IsDigit(s[|s| - 1]); }
    var k := |Padding(|s|)|;
    assert Padding(|s|) == seq(k, _ => '=');
    StripPaddingDrops(s, k);
  }

  lemma {:induction false} StripPaddingIsPrefix(s: string)
    ensures StripPadding(s) <= s && forall i :: |StripPadding(s)| <= i < |s| ==> s[i] == '='
  {
    if |s| > 0 && s[|s| - 1] == '=' { StripPaddingIsPrefix(s[..|s| - 1]); }
  }

  /** What the strict decoder accepts: whole groups of four, digits of either alphabet, then at most two `=`. */
  lemma AcceptedIff(s: string)
    ensures Decode(s).Some? <==>
            |s| % 4 == 0
            && exists k :: 0 <= k <= |s| && |s| - k <= 2 && AllDigits(s[..k])
                           && forall i :: k <= i < |s| ==> s[i] == '='
  {
    StripPaddingIsPrefix(s);
    var body := StripPadding(s);
    assert body == s[..|body|];
    forall k | 0 <= k <= |s| && AllDigits(s[..k]) && forall i :: k <= i < |s| ==> s[i] == '='
      ensures body == s[..k]
    {
      if k > 0 { assert IsDigit(s[..k][k - 1]); }
      assert s == s[..k] + seq(|s| - k, _ => '=');
      StripPaddingDrops(s[..k], |s| - k);
    }
  }

  lemma CharsConcat(v: seq<sextet>, w: seq<sextet>)
    ensures Chars(v + w) == Chars(v) + Chars(w)
  {
  }

  /** The first three bytes alone decide the first four characters. */
  lemma LeadingGroup(g: seq<byte>, rest: seq<byte>)
    requires |g| == 3
    ensures Chars(Unpack(g + rest)) == Chars(Unpack(g)) + Chars(Unpack(rest))
  {
    UnpackStep(g, rest);
    UnpackStep(g, []);
    assert g + [] == g;
    CharsConcat(Unpack(g), Unpack(rest));
  }

  lemma PaddingLength(n: nat)
    ensures (n + |Padding(n)|) % 4 == 0
    ensures |Padding(n)| <= 2 <==> n % 4 != 1
  {
    var q := n / 4;
    assert n == 4 * q + n % 4;
    if n % 4 == 0 {
      assert |Padding(n)| == 0;
    } else {
      assert |Padding(n)| == 4 - n % 4;
      assert n + |Padding(n)| == 4 * (q + 1);
    }
  }

  lemma PaddedDecodes(s: string)
    requires AllDigits(s) && |s| % 4 != 1
    ensures Decode(s + Padding(|s|)) == Some(Pack(Digits(s)))
  {
    StripInvertsPadding(s);
    PaddingLength(|s|);
  }

  /** The unpadded encoding: its text, and that padding it again decodes to the same bytes. */
  lemma UnpaddedRoundTrip(b: seq<byte>)
    ensures var s := StripPadding(Encode(b));
            s == Chars(Unpack(b)) && Decode(s + Padding(|s|)) == Some(b)
  {
    UnpackLength(b);
    DigitsOfChars(Unpack(b));
    StripInvertsPadding(Chars(Unpack(b)));
    PaddedDecodes(Chars(Unpack(b)));
    PackUnpack(b);
  }

  /** The padded encoding decodes too. */
  lemma PaddedRoundTrip(b: seq<byte>)
    ensures Decode(Encode(b) + Padding(|Encode(b)|)) == Some(b)
  {
    UnpackLength(b);
    UnpaddedRoundTrip(b);
    PaddingLength(|Unpack(b)|);
    assert Encode(b) + "" == Encode(b);
  }

  /** Four bytes are encoded with two characters of padding. */
  lemma PaddingKept(b: seq<byte>)
    requires |b| == 4
    ensures |Encode(b)| == 8 && |StripPadding(Encode(b))| == 6
  {
    UnpackLength(b);
    assert |Unpack(b)| == 6;
    UnpaddedRoundTrip(b);
  }

  /** Exactly what the encoder writes: the URL-safe alphabet and zero spare bits. */
  predicate Canonical(s: string) {
    UrlSafe(s) && SpareBitsZero(Digits(s))
  }

  /** Encoding reproduces a decoded unpadded string exactly when that string is canonical. */
  lemma ReencodeIffCanonical(s: string, b: seq<byte>)
    requires Decode(s + Padding(|s|)) == Some(b)
    ensures StripPadding(Encode(b)) == s <==> Canonical(s)
  {
    UnpaddedRoundTrip(b);
    DigitsOfChars(Unpack(b));
    if Canonical(s) {
      StripInvertsPadding(s);
      UnpackPack(Digits(s));
      CharsOfDigits(s);
    } else if Chars(Unpack(b)) == s {
      PackUnpack(b);
      UnpackPack(Unpack(b));
    }
  }
}
