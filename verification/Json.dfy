/** The JSON strings in machine-readable diagnostics. */
module Json {
  import opened Wrappers
  import opened Literals
  import opened Utf8

  type Bytes = s: string | forall k :: 0 <= k < |s| ==> s[k] as int < 256

  // ---- Writing ----

  function HexEscape(byte: nat): string
    requires byte < 256
  {
    "\\u00" + [Digit(byte / 16), Digit(byte % 16)]
  }

  /** The letter of a two-character escape, if the byte has one. */
  function ShortEscape(c: char): Option<char> {
    match c as int
    case 34 => Some('"')
    case 92 => Some('\\')
    case 8 => Some('b')
    case 12 => Some('f')
    case 10 => Some('n')
    case 13 => Some('r')
    case 9 => Some('t')
    case _ => None
  }

  /** How many input bytes are written at once. */
  function Span(text: string, index: nat): (n: nat)
    requires index < |text|
    ensures 1 <= n <= |text| - index
  {
    if text[index] as int >= 0x80 then SequenceLength(text, index, |text|) else 1
  }

  function Piece(text: Bytes, index: nat): string
    requires index < |text|
  {
    var byte := text[index] as int;
    if ShortEscape(text[index]).Some? then ['\\', ShortEscape(text[index]).value]
    else if byte < 0x20 || (byte >= 0x80 && Span(text, index) == 1) then HexEscape(byte)
    else text[index..index + Span(text, index)]
  }

  function Body(text: Bytes, index: nat): string
    requires index <= |text|
    decreases |text| - index
  {
    if index == |text| then "" else Piece(text, index) + Body(text, index + Span(text, index))
  }

  method WritePiece(text: Bytes, index: nat) returns (piece: string, next: nat)
    requires index < |text|
    ensures piece == Piece(text, index) && next == index + Span(text, index)
  {
    hide HexEscape, SequenceLength;
    var byte := text[index] as int;
    var escape := ShortEscape(text[index]);
    if escape.Some? {
      return ['\\', escape.value], index + 1;
    }
    if byte < 0x20 {
      return HexEscape(byte), index + 1;
    }
    if byte < 0x80 {
      return [text[index]], index + 1;
    }
    var length := Utf8SequenceLength(text, index, |text|);
    if length == 1 {
      return HexEscape(byte), index + 1;
    }
    return text[index..index + length], index + length;
  }

  method WriteJsonString(text: Bytes) returns (out: string)
    ensures out == "\"" + Body(text, 0) + "\""
  {
    hide Piece, Span;
    out := "\"";
    var index := 0;
    while index < |text|
      invariant 0 <= index <= |text|
      invariant out + Body(text, index) == "\"" + Body(text, 0)
    {
      var piece, next := WritePiece(text, index);
      assert out + Body(text, index) == (out + piece) + Body(text, next);
      out := out + piece;
      index := next;
    }
    out := out + "\"";
  }

  // ---- Reading (RFC 8259, section 7; RFC 3629, section 4) ----

  function FourHex(s: string): Option<nat>
    requires |s| == 4
  {
    var a, b, c, d := DigitValue(s[0]), DigitValue(s[1]), DigitValue(s[2]), DigitValue(s[3]);
    if a.Some? && b.Some? && c.Some? && d.Some?
    then Some(((a.value * 16 + b.value) * 16 + c.value) * 16 + d.value) else None
  }

  function ShortMeaning(c: char): Option<char> {
    match c
    case '"' => Some('"')
    case '\\' => Some('\\')
    case '/' => Some('/')
    case 'b' => Some(8 as char)
    case 'f' => Some(12 as char)
    case 'n' => Some('\n')
    case 'r' => Some('\r')
    case 't' => Some('\t')
    case _ => None
  }

  /** The first character of a JSON string body: the bytes it stands for and how many it takes.
      None unless it is an escape of a scalar or the well-formed encoding of one that may stand unescaped. */
  function ReadOne(s: string): (r: Option<(string, nat)>)
    requires s != []
    ensures r.Some? ==> 1 <= r.value.1 <= |s|
  {
    if s[0] == '\\' then
      if |s| >= 6 && s[1] == 'u' && FourHex(s[2..6]).Some? && IsScalar(FourHex(s[2..6]).value)
      then Some((Encode(FourHex(s[2..6]).value), 6))
      else if |s| >= 2 && ShortMeaning(s[1]).Some? then Some(([ShortMeaning(s[1]).value], 2))
      else None
    else
      var n := SequenceLength(s, 0, |s|);
      if 0x20 <= s[0] as int && s[0] != '"' && WellFormed(s[..n]) then Some((s[..n], n)) else None
  }

  /** The bytes a JSON string body stands for; None if it is not one or not UTF-8. */
  function Unescape(s: string): Option<string>
    decreases |s|
  {
    if s == [] then Some("")
    else
      match ReadOne(s)
      case None => None
      case Some((bytes, n)) =>
        match Unescape(s[n..])
        case None => None
        case Some(rest) => Some(bytes + rest)
  }

  /** The text with every stray byte read as the scalar of that number. */
  function Repaired(text: Bytes, index: nat): string
    requires index <= |text|
    decreases |text| - index
  {
    if index == |text| then ""
    else
      var n := Span(text, index);
      (if n == 1 then Encode(text[index] as int) else text[index..index + n]) + Repaired(text, index + n)
  }

  predicate AreScalars(codes: seq<int>) {
    forall k :: 0 <= k < |codes| ==> IsScalar(codes[k])
  }

  /** The UTF-8 text of a list of scalars. */
  function EncodeAll(codes: seq<int>): string
    requires AreScalars(codes)
  {
    if codes == [] then "" else Encode(codes[0]) + EncodeAll(codes[1..])
  }

  lemma ReadsHexEscape(byte: nat, rest: string)
    requires byte < 256
    ensures ReadOne(HexEscape(byte) + rest) == Some((Encode(byte), 6))
  {
    hide DigitValue, Encode, ShortMeaning, WellFormed, SequenceLength;
    var s := HexEscape(byte) + rest;
    assert s[2..6] == ['0', '0', Digit(byte / 16), Digit(byte % 16)];
    DigitReads(0);
    DigitReads(byte / 16);
    DigitReads(byte % 16);
  }

  lemma ReadsScalar(bytes: string, rest: string)
    requires WellFormed(bytes) && bytes[0] as int >= 0x20 && bytes[0] != '"' && bytes[0] != '\\'
    ensures ReadOne(bytes + rest) == Some((bytes, |bytes|))
  {
    hide WellFormed;
    var s := bytes + rest;
    assert s[0..0 + |bytes|] == bytes == s[..|bytes|];
    WellFormedIsRecognized(s, 0, |s|, |bytes|);
  }

  lemma ReadsPiece(text: Bytes, index: nat, rest: string)
    requires index < |text|
    ensures ReadOne(Piece(text, index) + rest)
         == Some((if Span(text, index) == 1 then Encode(text[index] as int)
                  else text[index..index + Span(text, index)], |Piece(text, index)|))
  {
    hide SequenceLength, Encode, ReadOne, HexEscape;
    var byte := text[index] as int;
    var n := Span(text, index);
    if ShortEscape(text[index]).Some? {
      ReadsShort(text[index], rest);
    } else if byte < 0x20 || (byte >= 0x80 && n == 1) {
      HexLength(byte);
      ReadsHexEscape(byte, rest);
    } else {
      ScalarPiece(text, index);
      ReadsScalar(Piece(text, index), rest);
    }
  }

  lemma ReadsShort(c: char, rest: string)
    requires c as int < 256 && ShortEscape(c).Some?
    ensures ReadOne(['\\', ShortEscape(c).value] + rest) == Some((Encode(c as int), 2))
  {
  }

  lemma HexLength(byte: nat)
    requires byte < 256
    ensures |HexEscape(byte)| == 6
  {
  }

  lemma ScalarPiece(text: Bytes, index: nat)
    requires index < |text| && ShortEscape(text[index]).None? && text[index] as int >= 0x20
    requires text[index] as int < 0x80 || Span(text, index) > 1
    ensures var bytes := text[index..index + Span(text, index)];
      && WellFormed(bytes) && bytes[0] == text[index]
      && (Span(text, index) == 1 ==> bytes == Encode(text[index] as int))
  {
    RecognizedIsWellFormed(text, index, |text|);
  }

  /** Whatever the bytes, the output is a JSON string in UTF-8 that stands for the repaired text. */
  lemma {:induction false} OutputIsJson(text: Bytes, index: nat)
    requires index <= |text|
    ensures Unescape(Body(text, index)) == Some(Repaired(text, index))
    decreases |text| - index
  {
    hide ReadOne, Span, Piece, Encode;
    if index < |text| {
      var n := Span(text, index);
      var rest := Body(text, index + n);
      OutputIsJson(text, index + n);
      ReadsPiece(text, index, rest);
      assert (Piece(text, index) + rest)[|Piece(text, index)|..] == rest;
    }
  }

  lemma {:induction false} NothingToRepair(text: Bytes, index: nat, codes: seq<int>)
    requires index <= |text| && AreScalars(codes) && text[index..] == EncodeAll(codes)
    ensures Repaired(text, index) == text[index..]
    decreases |codes|
  {
    hide WellFormed, Encode, Span;
    if codes != [] {
      var bytes := Encode(codes[0]);
      EncodingIsWellFormed(codes[0]);
      EncodingLength(codes[0]);
      var n := |bytes|;
      assert text[index..index + n] == bytes by {
        assert text[index..][..n] == bytes;
      }
      assert text[index + n..] == EncodeAll(codes[1..]) by {
        assert text[index..][n..] == EncodeAll(codes[1..]);
      }
      SpanOfScalar(text, index, n);
      NothingToRepair(text, index + n, codes[1..]);
      assert text[index..] == text[index..index + n] + text[index + n..];
    }
  }

  lemma EncodingLength(code: int)
    requires IsScalar(code)
    ensures |Encode(code)| > 0
  {
  }

  lemma SpanOfScalar(text: Bytes, index: nat, n: nat)
    requires index + n <= |text| && WellFormed(text[index..index + n])
    ensures index < |text| && Span(text, index) == n
    ensures n == 1 ==> Encode(text[index] as int) == text[index..index + 1]
  {
    WellFormedIsRecognized(text, index, |text|, n);
    assert text[index..index + n][0] == text[index];
  }

  /** On well-formed input, reading the output gives the input back. */
  lemma JsonRoundTrip(text: Bytes, codes: seq<int>)
    requires AreScalars(codes) && text == EncodeAll(codes)
    ensures Unescape(Body(text, 0)) == Some(text)
  {
    OutputIsJson(text, 0);
    assert text[0..] == text;
    NothingToRepair(text, 0, codes);
  }
}
