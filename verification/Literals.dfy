/** The values that number and string tokens spell. */
module Literals {
  import opened Wrappers
  import opened SourceLines
  import opened LexerRules

  // ---- Integers ----

  const MAX_INT := 0x7FFF_FFFF_FFFF_FFFF

  function DigitValue(c: char): Option<nat> {
    if '0' <= c <= '9' then Some(c as int - '0' as int)
    else if 'a' <= c <= 'f' then Some(c as int - 'a' as int + 10)
    else if 'A' <= c <= 'F' then Some(c as int - 'A' as int + 10)
    else None
  }

  /** The number that digits spell in a base, however large; None if one is not a digit of that base. */
  function Magnitude(digits: string, base: nat): Option<nat> {
    if digits == "" then Some(0)
    else
      var high := Magnitude(digits[..|digits| - 1], base);
      var low := DigitValue(digits[|digits| - 1]);
      if high.None? || low.None? || low.value >= base then None else Some(high.value * base + low.value)
  }

  predicate HasPrefix(digits: string, lower: char, upper: char) {
    |digits| >= 2 && digits[0] == '0' && (digits[1] == lower || digits[1] == upper)
  }

  /** The base and the digits of an unsigned spelling. */
  function BaseAndDigits(digits: string): (nat, string) {
    if HasPrefix(digits, 'x', 'X') then (16, digits[2..])
    else if HasPrefix(digits, 'o', 'O') then (8, digits[2..])
    else (10, digits)
  }

  predicate IsNegative(spelling: string) {
    spelling != "" && spelling[0] == '-'
  }

  function Signed64(n: int): Option<int> {
    if -MAX_INT - 1 <= n <= MAX_INT then Some(n) else None
  }

  /** The value of an integer literal, if it fits a signed 64-bit integer. */
  function IntegerValue(spelling: string): Option<int> {
    var (base, digits) := BaseAndDigits(if IsNegative(spelling) then spelling[1..] else spelling);
    match Magnitude(digits, base)
    case None => None
    case Some(m) =>
      var value: int := m;
      Signed64(if IsNegative(spelling) then -value else value)
  }

  lemma MagnitudeAppend(high: string, c: char, base: nat)
    ensures Magnitude(high + [c], base)
         == if Magnitude(high, base).None? || DigitValue(c).None? || DigitValue(c).value >= base then None
            else Some(Magnitude(high, base).value * base + DigitValue(c).value)
  {
    assert (high + [c])[..|high|] == high;
  }

  lemma TimesGrows(a: nat, base: nat)
    requires base >= 1
    ensures a <= a * base
  {
  }

  lemma {:induction false} PrefixMagnitude(digits: string, base: nat, i: nat)
    requires i <= |digits| && base >= 1 && Magnitude(digits, base).Some?
    ensures Magnitude(digits[..i], base).Some?
    ensures Magnitude(digits[..i], base).value <= Magnitude(digits, base).value
  {
    hide DigitValue, Magnitude;
    if i == |digits| {
      assert digits[..i] == digits;
    } else {
      var init := digits[..|digits| - 1];
      assert digits == init + [digits[|digits| - 1]];
      MagnitudeAppend(init, digits[|digits| - 1], base);
      PrefixMagnitude(init, base, i);
      assert init[..i] == digits[..i];
      TimesGrows(Magnitude(init, base).value, base);
    }
  }

  lemma RoomTest(magnitude: nat, digit: nat, base: nat, limit: nat)
    requires digit < base <= 16 && limit >= 16
    ensures magnitude > (limit - digit) / base <==> magnitude * base + digit > limit
  {
    var q := (limit - digit) / base;
    assert q * base <= limit - digit < (q + 1) * base;
    if magnitude > q {
      assert magnitude * base >= (q + 1) * base;
    } else {
      assert magnitude * base <= q * base;
    }
  }

  lemma NoDigits(base: nat)
    ensures Magnitude("", base) == Some(0)
  {
  }

  /** The digit loop. No intermediate value exceeds the limit, so 64 unsigned bits hold it. */
  method ParseDigits(digits: string, base: nat, limit: nat) returns (magnitude: Option<nat>)
    requires (base == 8 || base == 10 || base == 16) && limit >= 16
    ensures match Magnitude(digits, base)
      case None => magnitude.None?
      case Some(m) => magnitude == if m <= limit then Some(m) else None
  {
    hide DigitValue, Magnitude;
    assert digits[..0] == "" && Magnitude("", base) == Some(0) by {
      NoDigits(base);
    }
    var value := 0;
    var i := 0;
    while i < |digits|
      invariant 0 <= i <= |digits|
      invariant Magnitude(digits[..i], base) == Some(value) && value <= limit
    {
      var digit := DigitValue(digits[i]);
      assert digits[..i + 1] == digits[..i] + [digits[i]];
      MagnitudeAppend(digits[..i], digits[i], base);
      if Magnitude(digits, base).Some? {
        PrefixMagnitude(digits, base, i + 1);
      }
      if digit.None? || digit.value >= base {
        return None;
      }
      RoomTest(value, digit.value, base, limit);
      if value > (limit - digit.value) / base {
        return None;
      }
      value := value * base + digit.value;
      i := i + 1;
    }
    assert digits[..i] == digits;
    magnitude := Some(value);
  }

  method ParseSignedIntegerLiteral(spelling: string) returns (r: Option<int>)
    ensures r == IntegerValue(spelling)
  {
    hide Magnitude;
    var digits := spelling;
    var negative := digits != "" && digits[0] == '-';
    if negative {
      digits := digits[1..];
    }
    var base := 10;
    if HasPrefix(digits, 'x', 'X') {
      base := 16;
      digits := digits[2..];
    } else if HasPrefix(digits, 'o', 'O') {
      base := 8;
      digits := digits[2..];
    }
    var limit := if negative then MAX_INT + 1 else MAX_INT;
    var magnitude := ParseDigits(digits, base, limit);
    if magnitude.None? {
      return None;
    }
    if !negative {
      return Some(magnitude.value);
    }
    var value: int := magnitude.value;
    r := Some(-value);
  }

  function Digit(d: nat): char
    requires d < 16
  {
    "0123456789abcdef"[d]
  }

  lemma DigitReads(d: nat)
    requires d < 16
    ensures DigitValue(Digit(d)) == Some(d)
    ensures d < 10 ==> IsDigit(Digit(d))
    ensures d < 8 ==> IsOctalDigit(Digit(d))
    ensures IsHexDigit(Digit(d))
  {
  }

  function AllButLast(n: nat, base: nat): (m: nat)
    requires 2 <= base
    ensures n >= base ==> m < n
    ensures m * base + LastDigit(n, base) == n
  {
    n / base
  }

  function LastDigit(n: nat, base: nat): (d: nat)
    requires 2 <= base
    ensures d < base
  {
    n % base
  }

  /** The digits of a number, most significant first. */
  function Digits(n: nat, base: nat): (digits: string)
    requires 2 <= base <= 16
    ensures digits != ""
  {
    if n < base then [Digit(n)] else Digits(AllButLast(n, base), base) + [Digit(LastDigit(n, base))]
  }

  lemma {:induction false} DigitsMagnitude(n: nat, base: nat)
    requires 2 <= base <= 16
    ensures Magnitude(Digits(n, base), base) == Some(n)
  {
    hide Digit, DigitValue, Magnitude, AllButLast, LastDigit;
    if n < base {
      NoDigits(base);
      MagnitudeAppend("", Digit(n), base);
      assert "" + [Digit(n)] == [Digit(n)];
      DigitReads(n);
    } else {
      DigitReads(LastDigit(n, base));
      DigitsMagnitude(AllButLast(n, base), base);
      MagnitudeAppend(Digits(AllButLast(n, base), base), Digit(LastDigit(n, base)), base);
    }
  }

  lemma {:induction false} DigitsAreDigits(n: nat, base: nat, k: nat)
    requires 2 <= base <= 16 && k < |Digits(n, base)|
    ensures IsHexDigit(Digits(n, base)[k])
    ensures base <= 10 ==> IsDigit(Digits(n, base)[k])
    ensures base <= 8 ==> IsOctalDigit(Digits(n, base)[k])
  {
    hide Digit, IsDigit, IsOctalDigit, IsHexDigit, AllButLast, LastDigit;
    DigitReads(LastDigit(n, base));
    if n < base {
      DigitReads(n);
    } else if k < |Digits(n, base)| - 1 {
      DigitsAreDigits(AllButLast(n, base), base, k);
    }
  }

  function Prefix(base: nat): string {
    if base == 16 then "0x" else if base == 8 then "0o" else ""
  }

  /** The literal that spells an integer in a base. */
  function Literal(n: int, base: nat): string
    requires base == 8 || base == 10 || base == 16
  {
    (if n < 0 then "-" else "") + (Prefix(base) + Digits(if n < 0 then -n else n, base))
  }

  lemma UnsignedLiteral(n: nat, base: nat)
    requires base == 8 || base == 10 || base == 16
    ensures BaseAndDigits(Prefix(base) + Digits(n, base)) == (base, Digits(n, base))
    ensures (Prefix(base) + Digits(n, base))[0] != '-'
  {
    var digits := Digits(n, base);
    DigitsAreDigits(n, base, 0);
    if |digits| >= 2 {
      DigitsAreDigits(n, base, 1);
    }
    hide Digits;
    var text := Prefix(base) + digits;
    if base == 10 {
      assert text == digits;
    } else {
      assert text[2..] == digits;
    }
  }

  /** Every integer reads back exactly when it fits 64 bits, in every base; otherwise it is rejected. */
  lemma LiteralReads(n: int, base: nat)
    requires base == 8 || base == 10 || base == 16
    ensures IntegerValue(Literal(n, base)) == Signed64(n)
  {
    hide Digits, Magnitude, BaseAndDigits;
    var magnitude := if n < 0 then -n else n;
    UnsignedLiteral(magnitude, base);
    DigitsMagnitude(magnitude, base);
    var unsigned := Prefix(base) + Digits(magnitude, base);
    if n < 0 {
      assert Literal(n, base)[1..] == unsigned;
    } else {
      assert Literal(n, base) == unsigned;
    }
  }

  // ---- Array indices and alignments ----

  const MAX_INDEX := 0x7FFF_FFFF

  /** A plain whole number that fits a signed 32-bit integer. */
  function IndexValue(text: string): Option<nat> {
    var (base, digits) := if |text| > 2 then BaseAndDigits(text) else (10, text);
    var value := Magnitude(digits, base);
    if digits != "" && value.Some? && value.value <= MAX_INDEX then value else None
  }

  method ReadIndexNumber(text: string) returns (r: Option<nat>)
    ensures r == IndexValue(text)
  {
    hide Magnitude;
    var hex := |text| > 2 && HasPrefix(text, 'x', 'X');
    var octal := |text| > 2 && HasPrefix(text, 'o', 'O');
    var base := if hex then 16 else if octal then 8 else 10;
    var digits := if hex || octal then text[2..] else text;
    if digits == "" {
      return None;
    }
    r := ParseDigits(digits, base, MAX_INDEX);
  }

  lemma IndexReads(n: nat)
    requires n <= MAX_INDEX
    ensures IndexValue(Digits(n, 10)) == Some(n)
  {
    hide Digits, Magnitude;
    UnsignedLiteral(n, 10);
    DigitsMagnitude(n, 10);
    assert Prefix(10) + Digits(n, 10) == Digits(n, 10);
  }

  // ---- Strings ----

  /** The outcome of decoding; `Dangling`, `BadHex` and `UnknownEscape` are the three errors. */
  datatype Decoding = Decoded(content: string) | Dangling | BadHex | UnknownEscape

  /** The character a one-letter escape stands for. */
  function EscapeMeaning(c: char): Option<char> {
    match c
    case '"' => Some('"')
    case '\\' => Some('\\')
    case 'n' => Some('\n')
    case 't' => Some('\t')
    case 'r' => Some('\r')
    case '0' => Some(0 as char)
    case _ => None
  }

  function Before(c: char, rest: Decoding): Decoding {
    if rest.Decoded? then Decoded([c] + rest.content) else rest
  }

  function HexByte(high: char, low: char): char
    requires IsHexDigit(high) && IsHexDigit(low)
  {
    (DigitValue(high).value * 16 + DigitValue(low).value) as char
  }

  /** The meaning of the text between the quotes. */
  function Decode(inner: string): Decoding {
    if inner == "" then Decoded("")
    else if inner[0] != '\\' then Before(inner[0], Decode(inner[1..]))
    else if |inner| == 1 then Dangling
    else if EscapeMeaning(inner[1]).Some? then Before(EscapeMeaning(inner[1]).value, Decode(inner[2..]))
    else if inner[1] != 'x' then UnknownEscape
    else if |inner| >= 4 && IsHexDigit(inner[2]) && IsHexDigit(inner[3])
    then Before(HexByte(inner[2], inner[3]), Decode(inner[4..]))
    else BadHex
  }

  function Joined(result: string, rest: Decoding): Decoding {
    if rest.Decoded? then Decoded(result + rest.content) else rest
  }

  lemma JoinedStep(result: string, c: char, rest: Decoding)
    ensures Joined(result, Before(c, rest)) == Joined(result + [c], rest)
  {
    if rest.Decoded? {
      assert result + ([c] + rest.content) == (result + [c]) + rest.content;
    }
  }

  method DecodeStringEscapes(rawText: string) returns (decoding: Decoding)
    requires |rawText| >= 2
    ensures decoding == Decode(rawText[1..|rawText| - 1])
  {
    hide EscapeMeaning, HexByte, IsHexDigit;
    var inner := rawText[1..|rawText| - 1];
    var result := "";
    var i := 0;
    assert inner[0..] == inner;
    assert Joined(result, Decode(inner)) == Decode(inner);
    while i < |inner|
      invariant 0 <= i <= |inner|
      invariant Joined(result, Decode(inner[i..])) == Decode(inner)
    {
      var rest := inner[i..];
      if inner[i] != '\\' {
        assert rest[1..] == inner[i + 1..];
        JoinedStep(result, inner[i], Decode(inner[i + 1..]));
        result := result + [inner[i]];
        i := i + 1;
        continue;
      }
      if i + 1 >= |inner| {
        return Dangling;
      }
      var next := inner[i + 1];
      var meaning := EscapeMeaning(next);
      if meaning.Some? {
        assert rest[2..] == inner[i + 2..];
        JoinedStep(result, meaning.value, Decode(inner[i + 2..]));
        result := result + [meaning.value];
        i := i + 2;
      } else if next == 'x' {
        var hasTwoHexDigits := i + 3 < |inner| && IsHexDigit(inner[i + 2]) && IsHexDigit(inner[i + 3]);
        if !hasTwoHexDigits {
          return BadHex;
        }
        var byte := HexByte(inner[i + 2], inner[i + 3]);
        assert rest[4..] == inner[i + 4..];
        JoinedStep(result, byte, Decode(inner[i + 4..]));
        result := result + [byte];
        i := i + 4;
      } else {
        return UnknownEscape;
      }
    }
    assert result + "" == result;
    decoding := Decoded(result);
  }

  /** Text that can stand between quotes: no quote outside an escape, and no escape left open. */
  predicate Balanced(inner: string, escaped: bool) {
    if inner == "" then !escaped
    else !(inner[0] == '"' && !escaped) && Balanced(inner[1..], inner[0] == '\\' && !escaped)
  }

  /** A string token ends at the first quote after balanced text. */
  lemma {:induction false} StringEndsAfterBalanced(s: string, p: nat, escaped: bool, end: nat)
    requires p < end <= |s|
    ensures StringEnd(s, p, escaped) == Some(end) <==> Balanced(s[p..end - 1], escaped) && s[end - 1] == '"'
    decreases end - p
  {
    if p < end - 1 {
      if !(s[p] == '"' && !escaped) {
        StringEndsAfterBalanced(s, p + 1, s[p] == '\\' && !escaped, end);
        assert s[p..end - 1][1..] == s[p + 1..end - 1];
      }
    } else {
      assert s[p..end - 1] == "";
    }
  }

  lemma BalancedDrop(inner: string, escaped: bool)
    requires inner != "" && inner[0] != '"' && inner[0] != '\\'
    ensures Balanced(inner, escaped) == Balanced(inner[1..], false)
  {
  }

  lemma BalancedHex(inner: string)
    requires |inner| >= 4 && inner[0] == '\\' && inner[1] == 'x' && IsHexDigit(inner[2]) && IsHexDigit(inner[3])
    ensures Balanced(inner, false) == Balanced(inner[4..], false)
  {
    assert Balanced(inner, false) == Balanced(inner[1..], true);
    hide Balanced;
    BalancedDrop(inner[1..], true);
    assert inner[1..][1..] == inner[2..];
    BalancedDrop(inner[2..], false);
    assert inner[2..][1..] == inner[3..];
    BalancedDrop(inner[3..], false);
    assert inner[3..][1..] == inner[4..];
  }

  lemma {:induction false} BalancedNeverDangles(inner: string)
    requires Balanced(inner, false)
    ensures Decode(inner) != Dangling
  {
    hide EscapeMeaning, IsHexDigit, HexByte;
    if inner == "" {
    } else if inner[0] != '\\' {
      BalancedNeverDangles(inner[1..]);
    } else {
      assert |inner| >= 2;
      assert inner[1..][1..] == inner[2..];
      if EscapeMeaning(inner[1]).Some? {
        BalancedNeverDangles(inner[2..]);
      } else if |inner| >= 4 && inner[1] == 'x' && IsHexDigit(inner[2]) && IsHexDigit(inner[3]) {
        BalancedHex(inner);
        BalancedNeverDangles(inner[4..]);
      }
    }
  }

  /** The branch for a dangling backslash is never taken on the text of a string token. */
  lemma LexedNeverDangles(s: string, p: nat, end: nat)
    requires p < |s| && s[p] == '"' && StringEnd(s, p + 1, false) == Some(end)
    ensures p + 2 <= end && Decode(s[p + 1..end - 1]) != Dangling
  {
    hide Decode, Balanced;
    StringEndsAfterBalanced(s, p + 1, false, end);
    BalancedNeverDangles(s[p + 1..end - 1]);
  }

  // ---- Every spelling of a byte string ----

  /** How one byte may be written: as itself, with a letter, or with two hexadecimal digits. */
  datatype Style = Raw | Lettered(letter: char) | Hex(high: char, low: char)

  /** A hexadecimal digit in either case stands for d. */
  predicate IsHex(c: char, d: nat) {
    d < 16 && (c == "0123456789abcdef"[d] || c == "0123456789ABCDEF"[d])
  }

  ghost predicate Spells(style: Style, c: char) {
    match style
    case Raw => c != '"' && c != '\\'
    case Lettered(letter) =>
      || (letter == c && (c == '"' || c == '\\'))
      || (letter == 'n' && c as int == 10) || (letter == 't' && c as int == 9)
      || (letter == 'r' && c as int == 13) || (letter == '0' && c as int == 0)
    case Hex(high, low) => exists h: nat, l: nat :: IsHex(high, h) && IsHex(low, l) && c as int == 16 * h + l
  }

  lemma HexDigitReads(c: char, d: nat)
    requires IsHex(c, d)
    ensures IsHexDigit(c) && DigitValue(c) == Some(d)
  {
  }

  function Spelling(style: Style, c: char): string {
    match style
    case Raw => [c]
    case Lettered(letter) => ['\\', letter]
    case Hex(high, low) => ['\\', 'x', high, low]
  }

  ghost predicate CanSpell(content: string, styles: seq<Style>) {
    |styles| == |content| && forall k :: 0 <= k < |content| ==> Spells(styles[k], content[k])
  }

  function Escaped(content: string, styles: seq<Style>): string
    requires |styles| == |content|
  {
    if content == "" then "" else Spelling(styles[0], content[0]) + Escaped(content[1..], styles[1..])
  }

  lemma SpellingMeans(style: Style, c: char)
    requires Spells(style, c)
    ensures match style
      case Raw => c != '"' && c != '\\'
      case Lettered(letter) => EscapeMeaning(letter) == Some(c)
      case Hex(high, low) => IsHexDigit(high) && IsHexDigit(low) && HexByte(high, low) == c
  {
    if style.Hex? {
      var h: nat, l: nat :| IsHex(style.high, h) && IsHex(style.low, l) && c as int == 16 * h + l;
      HexDigitReads(style.high, h);
      HexDigitReads(style.low, l);
      hide IsHex, IsHexDigit, DigitValue;
    }
  }

  lemma OneSpelling(style: Style, c: char, rest: string)
    requires Spells(style, c)
    ensures Decode(Spelling(style, c) + rest) == Before(c, Decode(rest))
    ensures Balanced(Spelling(style, c) + rest, false) == Balanced(rest, false)
  {
    SpellingMeans(style, c);
    hide Spells, HexByte, IsHexDigit;
    var text := Spelling(style, c) + rest;
    match style {
      case Raw =>
        assert text[1..] == rest;
      case Lettered(letter) =>
        assert text[1..][1..] == rest == text[2..];
      case Hex(high, low) =>
        BalancedHex(text);
        assert rest == text[4..];
    }
  }

  /** Each byte string can be written, byte by byte, in any style; the text lexes as one string token and
      decodes to the byte string. */
  lemma {:induction false} EscapedReads(content: string, styles: seq<Style>)
    requires CanSpell(content, styles)
    ensures Decode(Escaped(content, styles)) == Decoded(content)
    ensures Balanced(Escaped(content, styles), false)
  {
    hide Spells, Spelling;
    if content != "" {
      EscapedReads(content[1..], styles[1..]);
      OneSpelling(styles[0], content[0], Escaped(content[1..], styles[1..]));
      assert [content[0]] + content[1..] == content;
    }
  }

  lemma QuotedLexes(content: string, styles: seq<Style>)
    requires CanSpell(content, styles)
    ensures var text := "\"" + Escaped(content, styles) + "\"";
      && Tokens(text, 0) == Some([Made(text, Quoted, 0, |text|), Made(text, EndOfFile, |text|, |text|)])
      && Made(text, Quoted, 0, |text|).text == text
      && Decode(text[1..|text| - 1]) == Decoded(content)
  {
    hide CursorAt, Escaped;
    var inner := Escaped(content, styles);
    var text := "\"" + inner + "\"";
    EscapedReads(content, styles);
    assert text[1..|text| - 1] == inner;
    StringEndsAfterBalanced(text, 1, false, |text|);
    assert SpaceEnd(text, 0) == Some(0);
    assert TokenAt(text, 0) == Some((Quoted, |text|));
    var first, last := Made(text, Quoted, 0, |text|), Made(text, EndOfFile, |text|, |text|);
    assert Tokens(text, |text|) == Some([last]);
    assert [first] + [last] == [first, last];
  }
}
