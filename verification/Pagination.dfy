/** The opaque listing cursor of `vsem_fms/app/core/pagination.py`. */
module Pagination {
  import opened Common
  import Utf8
  import Base64

  const DEFAULT_PAGE_SIZE: nat := 100
  const CURSOR_PREFIX: seq<byte> := [0x76, 0x31, 0x00]

  datatype CursorError = InvalidCursor

  function EncodeCursor(filename: string): string {
    Base64.StripPadding(Base64.Encode(CURSOR_PREFIX + Utf8.Encode(filename)))
  }

  /** The checks on a decoded payload: version prefix, UTF-8, and a name that is not empty. */
  function NameOfPayload(payload: seq<byte>): Result<string, CursorError> {
    if !(CURSOR_PREFIX <= payload) then Err(InvalidCursor)
    else
      match Utf8.Decode(payload[|CURSOR_PREFIX|..])
      case None => Err(InvalidCursor)
      case Some(filename) => if filename == "" then Err(InvalidCursor) else Ok(filename)
  }

  function DecodeCursor(cursor: string): Result<string, CursorError> {
    match Base64.Decode(cursor + Base64.Padding(|cursor|))
    case None => Err(InvalidCursor)
    case Some(payload) => NameOfPayload(payload)
  }

  lemma NameSurvives(filename: string)
    ensures NameOfPayload(CURSOR_PREFIX + Utf8.Encode(filename)) ==
            if filename == "" then Err(InvalidCursor) else Ok(filename)
  {
    assert (CURSOR_PREFIX + Utf8.Encode(filename))[3..] == Utf8.Encode(filename);
    Utf8.DecodeEncode(filename);
  }

  lemma PayloadOfName(payload: seq<byte>)
    requires NameOfPayload(payload).Ok?
    ensures payload == CURSOR_PREFIX + Utf8.Encode(NameOfPayload(payload).value)
  {
    Utf8.EncodeDecode(payload[3..]);
  }

  /** Every non-empty name survives the trip through a cursor; the empty name alone does not. */
  lemma RoundTrip(filename: string)
    ensures DecodeCursor(EncodeCursor(filename)) == if filename == "" then Err(InvalidCursor) else Ok(filename)
  {
    Base64.UnpaddedRoundTrip(CURSOR_PREFIX + Utf8.Encode(filename));
    NameSurvives(filename);
  }

  lemma Injective(f: string, g: string)
    requires EncodeCursor(f) == EncodeCursor(g)
    ensures f == g
  {
    RoundTrip(f);
    RoundTrip(g);
  }

  /**
   * A cursor that decodes is the one that encoding would issue exactly when it is canonical:
   * it uses only the URL-safe alphabet (no `+`, `/` or kept `=`) and its spare bits are zero.
   */
  lemma ReissuedIffCanonical(cursor: string)
    requires DecodeCursor(cursor).Ok?
    ensures DecodeCursor(cursor).value != ""
    ensures EncodeCursor(DecodeCursor(cursor).value) == cursor <==> Base64.Canonical(cursor)
  {
    var payload := Base64.Decode(cursor + Base64.Padding(|cursor|)).value;
    PayloadOfName(payload);
    Base64.ReencodeIffCanonical(cursor, payload);
  }

  /** Re-encoding is not the identity: the padded encoding of the same payload is accepted as well. */
  lemma KeptPaddingAccepted(filename: string)
    requires filename != ""
    ensures DecodeCursor(Base64.Encode(CURSOR_PREFIX + Utf8.Encode(filename))) == Ok(filename)
  {
    Base64.PaddedRoundTrip(CURSOR_PREFIX + Utf8.Encode(filename));
    NameSurvives(filename);
  }

  /** A concrete one: for the name "a", or any other single ASCII character, the padded cursor is another string. */
  lemma NotEveryCursorIsReissued(c: char) returns (cursor: string)
    requires c as int < 0x80
    ensures DecodeCursor(cursor) == Ok([c]) && EncodeCursor([c]) != cursor
  {
    var payload := CURSOR_PREFIX + Utf8.Encode([c]);
    cursor := Base64.Encode(payload);
    KeptPaddingAccepted([c]);
    Utf8.AsciiIsOneByte(c);
    Base64.PaddingKept(payload);
  }

  /** Size and alphabet of an issued cursor, and when it fits the route's limit. */
  lemma CursorSize(filename: string)
    ensures var b := |Utf8.Encode(filename)|;
            |EncodeCursor(filename)| == CeilDiv(4 * (b + 3), 3)
            && (|EncodeCursor(filename)| <= 2048 <==> b <= 1533)
    ensures Base64.Canonical(EncodeCursor(filename))
  {
    var payload := CURSOR_PREFIX + Utf8.Encode(filename);
    Base64.UnpaddedRoundTrip(payload);
    Base64.UnpackLength(payload);
    Base64.ReencodeIffCanonical(EncodeCursor(filename), payload);
  }

  /** What a cursor decodes to: exactly the non-empty name whose payload is its base64 content. */
  lemma DecodesIff(cursor: string, filename: string)
    ensures DecodeCursor(cursor) == Ok(filename) <==>
            filename != ""
            && Base64.Decode(cursor + Base64.Padding(|cursor|)) == Some([0x76, 0x31, 0x00] + Utf8.Encode(filename))
  {
    NameSurvives(filename);
    if DecodeCursor(cursor) == Ok(filename) {
      PayloadOfName(Base64.Decode(cursor + Base64.Padding(|cursor|)).value);
    }
  }

  /** The same cursor in the standard alphabet, with plus for minus and slash for underscore, is accepted as well. */
  lemma StandardAlphabetAccepted(filename: string, other: string)
    requires filename != "" && |other| == |EncodeCursor(filename)|
    requires forall i :: 0 <= i < |other| ==>
               var c := EncodeCursor(filename)[i];
               other[i] == c || (c == '-' && other[i] == '+') || (c == '_' && other[i] == '/')
    ensures DecodeCursor(other) == Ok(filename)
  {
    var payload := CURSOR_PREFIX + Utf8.Encode(filename);
    var cursor := EncodeCursor(filename);
    Base64.UnpaddedRoundTrip(payload);
    Base64.UnpackLength(payload);
    Base64.DigitsOfChars(Base64.Unpack(payload));
    SameDigits(cursor, other);
    Base64.PaddedDecodes(cursor);
    Base64.PaddedDecodes(other);
    NameSurvives(filename);
  }

  lemma SameDigits(cursor: string, other: string)
    requires Base64.AllDigits(cursor) && |other| == |cursor|
    requires forall i :: 0 <= i < |other| ==>
               other[i] == cursor[i] || (cursor[i] == '-' && other[i] == '+') || (cursor[i] == '_' && other[i] == '/')
    ensures Base64.AllDigits(other) && Base64.Digits(other) == Base64.Digits(cursor)
  {
    forall i | 0 <= i < |other|
      ensures Base64.IsDigit(other[i]) && Base64.Digit(other[i]) == Base64.Digit(cursor[i])
    {
      assert Base64.IsDigit(cursor[i]);
    }
  }

  lemma PrefixText()
    ensures Base64.Chars(Base64.Unpack(CURSOR_PREFIX)) == "djEA"
  {
    Base64.UnpackStep(CURSOR_PREFIX, []);
    assert CURSOR_PREFIX + [] == CURSOR_PREFIX;
    assert Base64.Sextet1(0x76) == 29 && Base64.Sextet2(0x76, 0x31) == 35;
    assert Base64.Sextet3(0x31, 0) == 4 && Base64.Sextet4(0) == 0;
    assert Base64.Unpack(CURSOR_PREFIX) == [29, 35, 4, 0];
  }

  /** Every issued cursor starts with the encoded version prefix. */
  lemma CursorStart(filename: string)
    ensures "djEA" <= EncodeCursor(filename)
  {
    Base64.UnpaddedRoundTrip(CURSOR_PREFIX + Utf8.Encode(filename));
    Base64.LeadingGroup(CURSOR_PREFIX, Utf8.Encode(filename));
    PrefixText();
  }
}
