/** How tokens are spelled: each kind of token, written out, is read back as that one token. */
module Spelling {
  import opened Wrappers
  import opened SourceLines
  import opened LexerRules
  import opened Literals

  /** What may follow a token written out: nothing, or a blank. */
  predicate Stops(suffix: string) {
    suffix == "" || suffix[0] == ' '
  }

  /** Text that is read as one token of a kind, alone or before a blank. */
  ghost predicate Reads(kind: Kind, text: string) {
    text != "" && forall suffix: string :: Stops(suffix) ==> TokenAt(text + suffix, 0) == Some((kind, |text|))
  }

  // ---- Shapes of names and numbers ----

  predicate StartsName(c: char) {
    'a' <= c <= 'z' || 'A' <= c <= 'Z' || c == '_'
  }

  predicate ContinuesName(c: char) {
    StartsName(c) || '0' <= c <= '9'
  }

  predicate IsName(name: string) {
    name != "" && StartsName(name[0]) && forall k :: 0 <= k < |name| ==> ContinuesName(name[k])
  }

  /** A letter or digit, or where dots are allowed, a dot before a letter. */
  predicate BelongsToName(text: string, k: nat, dots: bool) {
    k < |text|
    && (ContinuesName(text[k]) || (dots && text[k] == '.' && k + 1 < |text| && StartsName(text[k + 1])))
  }

  /** The name of a special instruction: dots stand before letters. */
  predicate IsDottedName(name: string) {
    name != "" && StartsName(name[0]) && forall k :: 0 <= k < |name| ==> BelongsToName(name, k, true)
  }

  predicate AllDigits(s: string) {
    s != "" && forall k :: 0 <= k < |s| ==> '0' <= s[k] <= '9'
  }

  /** Digits, a point and digits, with an optional sign. */
  predicate IsDecimalFraction(s: string) {
    var unsigned := if IsNegative(s) then s[1..] else s;
    exists point :: 0 < point < |unsigned| - 1 && unsigned[point] == '.'
                    && AllDigits(unsigned[..point]) && AllDigits(unsigned[point + 1..])
  }

  // ---- Runs ----

  lemma {:induction false} RunStops(text: string, suffix: string, p: nat, isMember: char -> bool)
    requires p <= |text| && Stops(suffix) && !isMember(' ')
    requires forall k :: p <= k < |text| ==> isMember(text[k])
    ensures RunEnd(text + suffix, p, isMember) == |text|
    decreases |text| - p
  {
    var s := text + suffix;
    if p < |text| {
      assert s[p] == text[p];
      RunStops(text, suffix, p + 1, isMember);
    } else if suffix != "" {
      assert s[p] == suffix[0];
    }
  }

  /** A run that another character ends. */
  lemma {:induction false} RunStopsAt(s: string, p: nat, end: nat, isMember: char -> bool)
    requires p <= end < |s| && !isMember(s[end]) && forall k :: p <= k < end ==> isMember(s[k])
    ensures RunEnd(s, p, isMember) == end
    decreases end - p
  {
    if p < end {
      RunStopsAt(s, p + 1, end, isMember);
    }
  }

  lemma AfterText(text: string, suffix: string)
    requires Stops(suffix)
    ensures var c := CharAt(text + suffix, |text|); c == ' ' || c == 0 as char
  {
  }

  // ---- One kind after another ----

  lemma NameReads(name: string)
    requires IsName(name)
    ensures Reads(Identifier, name)
  {
    forall suffix: string | Stops(suffix)
      ensures TokenAt(name + suffix, 0) == Some((Identifier, |name|))
    {
      RunStops(name, suffix, 1, IsLetterOrDigit);
      assert (name + suffix)[0] == name[0];
    }
  }

  lemma {:induction false} DottedRun(text: string, suffix: string, p: nat, dots: bool)
    requires p <= |text| && Stops(suffix)
    requires forall k :: p <= k < |text| ==> BelongsToName(text, k, dots)
    ensures SpecialRun(text + suffix, p, dots) == |text|
    decreases |text| - p
  {
    var s := text + suffix;
    if p < |text| {
      assert s[p] == text[p] && BelongsToName(text, p, dots);
      if p + 1 < |text| {
        assert s[p + 1] == text[p + 1];
      }
      DottedRun(text, suffix, p + 1, dots);
    } else if suffix != "" {
      assert s[p] == suffix[0];
    }
  }

  lemma SpecialReads(name: string, dots: bool)
    requires if dots then IsDottedName(name) else IsName(name)
    ensures Reads(if dots then SpecialInstruction else SpecialRegister, (if dots then "#" else "%") + name)
  {
    var text := (if dots then "#" else "%") + name;
    forall suffix: string | Stops(suffix)
      ensures TokenAt(text + suffix, 0) == Some((if dots then SpecialInstruction else SpecialRegister, |text|))
    {
      forall k | 1 <= k < |text|
        ensures BelongsToName(text, k, dots)
      {
        assert text[k] == name[k - 1];
        assert dots ==> BelongsToName(name, k - 1, true);
      }
      DottedRun(text, suffix, 1, dots);
      assert (text + suffix)[0] == text[0] && (text + suffix)[1] == name[0];
    }
  }

  lemma PunctuationReads(c: char)
    requires Punctuation(c).Some?
    ensures Reads(Punctuation(c).value, [c])
  {
    forall suffix: string | Stops(suffix)
      ensures TokenAt([c] + suffix, 0) == Some((Punctuation(c).value, 1))
    {
      assert ([c] + suffix)[0] == c;
      NoPunctuationElsewhere(c);
    }
  }

  lemma NoPunctuationElsewhere(c: char)
    requires Punctuation(c).Some?
    ensures !IsLetter(c) && !IsDigit(c) && c != '-' && c != '"' && c != '%' && c != '#'
  {
  }

  lemma QuotedReads(inner: string)
    requires Balanced(inner, false)
    ensures Reads(Quoted, "\"" + inner + "\"")
  {
    var text := "\"" + inner + "\"";
    forall suffix: string | Stops(suffix)
      ensures TokenAt(text + suffix, 0) == Some((Quoted, |text|))
    {
      var s := text + suffix;
      assert s[1..|text| - 1] == inner && s[|text| - 1] == '"' && s[0] == '"';
      hide Balanced;
      StringEndsAfterBalanced(s, 1, false, |text|);
    }
  }

  // ---- Numbers ----

  /** The digits of a base from position p to the end. */
  predicate DigitsFrom(text: string, p: nat, base: nat) {
    forall k :: p <= k < |text| ==>
      if base == 16 then IsHexDigit(text[k]) else if base == 8 then IsOctalDigit(text[k]) else IsDigit(text[k])
  }

  /** An optional sign, a base prefix and digits. */
  predicate IsIntegerText(text: string, base: nat) {
    var q := if IsNegative(text) then 1 else 0;
    && (base == 10 || base == 8 || base == 16)
    && (if base == 10 then q < |text| && DigitsFrom(text, q, 10)
        else q + 2 < |text| && text[q] == '0' && text[q + 1] == (if base == 16 then 'x' else 'o')
             && DigitsFrom(text, q + 2, base))
  }

  lemma DecimalStops(text: string, suffix: string, q: nat)
    requires q < |text| && DigitsFrom(text, q, 10) && Stops(suffix)
    ensures IsDigit((text + suffix)[q]) && DecimalEnd(text + suffix, q) == |text|
  {
    assert (text + suffix)[q] == text[q];
    RunStops(text, suffix, q, IsDigit);
    AfterText(text, suffix);
  }

  lemma RadixStops(text: string, suffix: string, q: nat, base: nat)
    requires q + 2 < |text| && DigitsFrom(text, q + 2, base) && Stops(suffix) && (base == 8 || base == 16)
    ensures RadixEnd(text + suffix, q, if base == 16 then IsHexDigit else IsOctalDigit) == Some(|text|)
  {
    assert (text + suffix)[q + 2] == text[q + 2];
    if base == 16 {
      RunStops(text, suffix, q + 2, IsHexDigit);
    } else {
      RunStops(text, suffix, q + 2, IsOctalDigit);
    }
  }

  lemma IntegerTextEnds(text: string, suffix: string, base: nat)
    requires IsIntegerText(text, base) && Stops(suffix)
    ensures TokenAt(text + suffix, 0) == Some((Number, |text|))
  {
    hide RunEnd, DecimalEnd, RadixEnd, StringEnd, SpecialEnd;
    var s := text + suffix;
    var q := if IsNegative(text) then 1 else 0;
    assert s[0] == text[0] && s[q] == text[q];
    if base == 10 {
      DecimalStops(text, suffix, q);
      NextIsNoMarker(text, suffix, q);
    } else {
      assert s[q + 1] == text[q + 1];
      RadixStops(text, suffix, q, base);
    }
  }

  /** After a decimal digit comes a digit, a blank or the end, but no letter of a base prefix. */
  lemma NextIsNoMarker(text: string, suffix: string, q: nat)
    requires q < |text| && DigitsFrom(text, q, 10) && Stops(suffix)
    ensures var c := CharAt(text + suffix, q + 1); c != 'x' && c != 'X' && c != 'o' && c != 'O'
  {
    if q + 1 < |text| {
      assert (text + suffix)[q + 1] == text[q + 1];
    } else {
      AfterText(text, suffix);
    }
  }

  lemma LiteralIsIntegerText(n: int, base: nat)
    requires base == 8 || base == 10 || base == 16
    ensures IsIntegerText(Literal(n, base), base)
  {
    hide Digits;
    var magnitude := if n < 0 then -n else n;
    var digits := Digits(magnitude, base);
    var unsigned := Prefix(base) + digits;
    UnsignedLiteral(magnitude, base);
    var text := Literal(n, base);
    var sign := if n < 0 then 1 else 0;
    assert text[sign..] == unsigned;
    assert IsNegative(text) <==> n < 0 by {
      assert n >= 0 ==> text[0] == unsigned[0];
    }
    var start := sign + |Prefix(base)|;
    forall k | start <= k < |text|
      ensures if base == 16 then IsHexDigit(text[k]) else if base == 8 then IsOctalDigit(text[k]) else IsDigit(text[k])
    {
      DigitsAreDigits(magnitude, base, k - start);
      assert text[k] == digits[k - start];
    }
    if base != 10 {
      assert text[sign] == '0' && text[sign + 1] == Prefix(base)[1];
    }
  }

  lemma NumberReads(n: int, base: nat)
    requires base == 8 || base == 10 || base == 16
    ensures Reads(Number, Literal(n, base))
  {
    hide Literal, IsIntegerText, TokenAt;
    LiteralIsIntegerText(n, base);
    LiteralNotEmpty(n, base);
    forall suffix: string | Stops(suffix)
      ensures TokenAt(Literal(n, base) + suffix, 0) == Some((Number, |Literal(n, base)|))
    {
      IntegerTextEnds(Literal(n, base), suffix, base);
    }
  }

  lemma LiteralNotEmpty(n: int, base: nat)
    requires base == 8 || base == 10 || base == 16
    ensures Literal(n, base) != ""
  {
  }

  lemma FractionEnds(text: string, suffix: string, q: nat, point: nat)
    requires q < point < |text| - 1 && text[point] == '.' && Stops(suffix)
    requires (forall k :: q <= k < point ==> IsDigit(text[k])) && (forall k :: point < k < |text| ==> IsDigit(text[k]))
    ensures IsDigit((text + suffix)[q]) && DecimalEnd(text + suffix, q) == |text|
    ensures var c := CharAt(text + suffix, q + 1); c != 'x' && c != 'X' && c != 'o' && c != 'O'
  {
    var s := text + suffix;
    assert forall k :: 0 <= k < |text| ==> s[k] == text[k];
    RunStopsAt(s, q, point, IsDigit);
    RunStops(text, suffix, point + 1, IsDigit);
  }

  lemma FractionReads(text: string)
    requires IsDecimalFraction(text)
    ensures Reads(Number, text)
  {
    hide RunEnd, DecimalEnd, RadixEnd, StringEnd, SpecialEnd;
    var q := if IsNegative(text) then 1 else 0;
    var unsigned := text[q..];
    assert unsigned == if IsNegative(text) then text[1..] else text;
    var point :| 0 < point < |unsigned| - 1 && unsigned[point] == '.'
      && AllDigits(unsigned[..point]) && AllDigits(unsigned[point + 1..]);
    FractionDigits(text, q, point);
    forall suffix: string | Stops(suffix)
      ensures TokenAt(text + suffix, 0) == Some((Number, |text|))
    {
      FractionEnds(text, suffix, q, q + point);
      assert (text + suffix)[0] == text[0] && (text + suffix)[q] == text[q];
    }
  }

  lemma FractionDigits(text: string, q: nat, point: nat)
    requires q <= |text| && 0 < point < |text[q..]| - 1
    requires AllDigits(text[q..][..point]) && AllDigits(text[q..][point + 1..])
    ensures forall k :: q <= k < q + point ==> IsDigit(text[k])
    ensures forall k :: q + point < k < |text| ==> IsDigit(text[k])
  {
    forall k | q <= k < q + point
      ensures IsDigit(text[k])
    {
      assert text[q..][..point][k - q] == text[k];
    }
    forall k | q + point < k < |text|
      ensures IsDigit(text[k])
    {
      assert text[q..][point + 1..][k - q - point - 1] == text[k];
    }
  }

  // ---- Alone in a file ----

  lemma ReadsAlone(kind: Kind, text: string)
    requires Reads(kind, text)
    ensures Tokens(text, 0) == Some([Made(text, kind, 0, |text|), Made(text, EndOfFile, |text|, |text|)])
    ensures Made(text, kind, 0, |text|).text == text
  {
    assert Stops("") && text + "" == text;
    assert TokenAt(text, 0) == Some((kind, |text|));
    TokenStands(text, 0);
    hide TokenAt, CursorAt, SpaceEnd;
    EndStands(text);
    var first, last := Made(text, kind, 0, |text|), Made(text, EndOfFile, |text|, |text|);
    assert Tokens(text, |text|) == Some([last]);
    assert [first] + [last] == [first, last];
  }

  lemma TokenStands(s: string, p: nat)
    requires p < |s| && TokenAt(s, p).Some?
    ensures SpaceEnd(s, p) == Some(p)
  {
    hide RunEnd, NumberEnd, StringEnd, SpecialRun;
  }

  lemma EndStands(s: string)
    ensures SpaceEnd(s, |s|) == Some(|s|)
  {
  }

  /** Every integer literal, in every base, lexes to one number token, which reads back exactly when the
      integer fits 64 bits. */
  lemma LiteralLexes(n: int, base: nat)
    requires base == 8 || base == 10 || base == 16
    ensures var text := Literal(n, base);
      && Tokens(text, 0) == Some([Made(text, Number, 0, |text|), Made(text, EndOfFile, |text|, |text|)])
      && Made(text, Number, 0, |text|).text == text
      && IntegerValue(text) == Signed64(n)
  {
    hide Tokens, Literal, IntegerValue, Reads;
    NumberReads(n, base);
    ReadsAlone(Number, Literal(n, base));
    LiteralReads(n, base);
  }
}
