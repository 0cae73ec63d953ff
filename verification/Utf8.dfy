/** UTF-8 scalars inside byte strings. A byte is a character below 256. */
module Utf8 {
  predicate IsContinuation(c: char) {
    0x80 <= c as int < 0xC0
  }

  /** The length a first byte announces. */
  function AnnouncedLength(first: char): (n: nat)
    ensures 1 <= n <= 4
  {
    var b := first as int;
    if 0xF0 <= b <= 0xF4 then 4 else if 0xE0 <= b <= 0xEF then 3 else if 0xC2 <= b <= 0xDF then 2 else 1
  }

  /** Second bytes that would spell an overlong form, a surrogate or a value above U+10FFFF. */
  predicate BadSecond(first: char, second: char) {
    var b := second as int;
    || (first as int == 0xE0 && b < 0xA0) || (first as int == 0xED && b >= 0xA0)
    || (first as int == 0xF0 && b < 0x90) || (first as int == 0xF4 && b >= 0x90)
  }

  /** How many bytes the scalar at an offset takes; malformed bytes stand alone. */
  function SequenceLength(text: string, offset: nat, end: nat): (n: nat)
    requires offset < end <= |text|
    ensures 1 <= n <= end - offset
    ensures forall k :: offset < k < offset + n ==> IsContinuation(text[k])
  {
    var n := AnnouncedLength(text[offset]);
    if 1 < n <= end - offset && (forall k :: offset < k < offset + n ==> IsContinuation(text[k]))
       && !BadSecond(text[offset], text[offset + 1])
    then n else 1
  }

  method Utf8SequenceLength(text: string, offset: nat, end: nat) returns (length: nat)
    requires offset < end <= |text|
    ensures length == SequenceLength(text, offset, end)
  {
    var first := text[offset];
    length := AnnouncedLength(first);
    if length == 1 || length > end - offset {
      return 1;
    }
    var index := 1;
    while index < length
      invariant 1 <= index <= length
      invariant forall k :: offset < k < offset + index ==> IsContinuation(text[k])
      invariant index > 1 ==> !BadSecond(first, text[offset + 1])
    {
      var continuation := text[offset + index];
      if !IsContinuation(continuation) {
        return 1;
      }
      if index == 1 && BadSecond(first, continuation) {
        return 1;
      }
      index := index + 1;
    }
  }

  // ---- The encoding itself (RFC 3629, sections 3 and 4) ----

  predicate IsScalar(code: int) {
    0 <= code <= 0x10FFFF && !(0xD800 <= code <= 0xDFFF)
  }

  function Encode(code: int): string
    requires IsScalar(code)
  {
    if code < 0x80 then [code as char]
    else if code < 0x800 then [(0xC0 + code / 64) as char, (0x80 + code % 64) as char]
    else if code < 0x10000 then
      [(0xE0 + code / 64 / 64) as char, (0x80 + code / 64 % 64) as char, (0x80 + code % 64) as char]
    else
      [(0xF0 + code / 64 / 64 / 64) as char, (0x80 + code / 64 / 64 % 64) as char,
       (0x80 + code / 64 % 64) as char, (0x80 + code % 64) as char]
  }

  /** The scalar that the bytes of a sequence spell. */
  function CodePoint(bytes: string): int
    requires 1 <= |bytes| <= 4
  {
    if |bytes| == 1 then bytes[0] as int
    else if |bytes| == 2 then Join(bytes[0] as int - 0xC0, bytes[1])
    else if |bytes| == 3 then Join(Join(bytes[0] as int - 0xE0, bytes[1]), bytes[2])
    else Join(Join(Join(bytes[0] as int - 0xF0, bytes[1]), bytes[2]), bytes[3])
  }

  /** Six more bits. */
  function Join(high: int, continuation: char): int {
    high * 64 + (continuation as int - 0x80)
  }

  lemma JoinSplits(high: int, c: char)
    requires IsContinuation(c)
    ensures Join(high, c) / 64 == high && Join(high, c) % 64 == c as int - 0x80
  {
  }

  lemma SplitJoins(code: nat)
    ensures Join(code / 64, (0x80 + code % 64) as char) == code
  {
  }

  /** What the lead byte and the second byte allow is exactly the range of scalars of that length. */
  predicate WellFormed(bytes: string) {
    && 1 <= |bytes| <= 4
    && (if |bytes| == 1 then bytes[0] as int < 0x80
        else AnnouncedLength(bytes[0]) == |bytes| && (forall k :: 1 <= k < |bytes| ==> IsContinuation(bytes[k]))
             && !BadSecond(bytes[0], bytes[1]))
  }

  lemma WellFormedIsEncoding(bytes: string)
    requires WellFormed(bytes)
    ensures IsScalar(CodePoint(bytes)) && Encode(CodePoint(bytes)) == bytes
  {
    if |bytes| == 2 {
      JoinSplits(bytes[0] as int - 0xC0, bytes[1]);
    } else if |bytes| == 3 {
      var high := Join(bytes[0] as int - 0xE0, bytes[1]);
      JoinSplits(bytes[0] as int - 0xE0, bytes[1]);
      JoinSplits(high, bytes[2]);
      hide Join;
    } else if |bytes| == 4 {
      WellFormedFour(bytes);
    }
  }

  lemma WellFormedFour(bytes: string)
    requires WellFormed(bytes) && |bytes| == 4
    ensures IsScalar(CodePoint(bytes)) && Encode(CodePoint(bytes)) == bytes
  {
    var top := bytes[0] as int - 0xF0;
    var high := Join(top, bytes[1]);
    var middle := Join(high, bytes[2]);
    JoinSplits(top, bytes[1]);
    JoinSplits(high, bytes[2]);
    JoinSplits(middle, bytes[3]);
    assert 0x10 <= high < 0x110;
    assert 0x400 <= middle < 0x4400;
    assert 0x10000 <= Join(middle, bytes[3]) < 0x110000;
  }

  lemma EncodingIsWellFormed(code: int)
    requires IsScalar(code)
    ensures WellFormed(Encode(code)) && CodePoint(Encode(code)) == code
  {
    SplitJoins(code);
    SplitJoins(code / 64);
    SplitJoins(code / 64 / 64);
  }

  /** A multi-byte sequence is recognized exactly where the encoding of a scalar stands. */
  lemma RecognizedIsWellFormed(text: string, offset: nat, end: nat)
    requires offset < end <= |text|
    ensures var n := SequenceLength(text, offset, end);
      n > 1 ==> WellFormed(text[offset..offset + n])
  {
  }

  lemma WellFormedIsRecognized(text: string, offset: nat, end: nat, n: nat)
    requires offset + n <= end <= |text| && WellFormed(text[offset..offset + n])
    ensures offset < end && SequenceLength(text, offset, end) == n
  {
    var bytes := text[offset..offset + n];
    assert bytes[0] == text[offset];
    if n > 1 {
      assert bytes[1] == text[offset + 1];
      forall k | offset < k < offset + n
        ensures IsContinuation(text[k])
      {
        assert bytes[k - offset] == text[k];
      }
    }
  }
}
