/** JSON strings and numbers as text: what dump writes and what the parser reads
    (slave/util/json11.cpp). Text is a byte string; the suffix still to be read is
    passed along. */
module JsonText {
  import opened Wrappers

  const QUOTE: Byte := 0x22
  const BACKSLASH: Byte := 0x5c
  const MINUS: Byte := 0x2d
  const DOT: Byte := 0x2e
  const PLUS: Byte := 0x2b
  const LOWER_U: Byte := 0x75
  const MAX_INT_TEXT: nat := 9

  /** Why a parse fails. */
  datatype JsonError =
    | EndOfInput | EndInString | UnescapedControl | BadUnicodeEscape | InvalidEscape
    | LeadingZero | BadNumber | NoFraction | NoExponent
    | ExpectedLiteral | ExpectedValue | ExpectedQuote | ExpectedColon | ExpectedComma
    | TooDeep | TrailingText

  /** The byte at i, or the terminating NUL. */
  function At(s: Bytes, i: nat): (c: Byte) {
    if i < |s| then s[i] else 0
  }

  // ---------------------------------------------------------------- writing strings

  function HexDigit(n: Byte): (c: Byte)
    requires n < 16
  {
    if n < 10 then 0x30 + n as int else 0x57 + n as int
  }

  /** The letter after the backslash for characters with a two-byte escape. */
  function ShortEscape(c: Byte): (r: Option<Byte>) {
    if c == BACKSLASH || c == QUOTE then Some(c)
    else if c == 0x08 then Some(0x62)
    else if c == 0x0c then Some(0x66)
    else if c == 0x0a then Some(0x6e)
    else if c == 0x0d then Some(0x72)
    else if c == 0x09 then Some(0x74)
    else None
  }

  /** A UTF-8 line or paragraph separator leads the text. */
  predicate Separator(s: Bytes) {
    At(s, 0) == 0xe2 && At(s, 1) == 0x80 && (At(s, 2) == 0xa8 || At(s, 2) == 0xa9)
  }

  function EscapeWidth(s: Bytes): (n: nat)
    requires s != []
    ensures 1 <= n <= |s|
  {
    if Separator(s) then 3 else 1
  }

  function EscapeFirst(s: Bytes): (r: Bytes)
    requires s != []
  {
    var c := s[0];
    if ShortEscape(c).Some? then [BACKSLASH, ShortEscape(c).value]
    else if c <= 0x1f then [BACKSLASH, LOWER_U, 0x30, 0x30, HexDigit(c / 16), HexDigit(c % 16)]
    else if Separator(s) then [BACKSLASH, LOWER_U, 0x32, 0x30, 0x32, HexDigit(At(s, 2) - 0xa0)]
    else [c]
  }

  function Escaped(s: Bytes): (r: Bytes) {
    if s == [] then [] else EscapeFirst(s) + Escaped(s[EscapeWidth(s)..])
  }

  // ---------------------------------------------------------------- reading strings

  /** UTF-8 of a code point; nothing for -1. */
  function Utf8(pt: int): (r: Bytes)
    requires pt <= 0x10ffff
  {
    if pt < 0 then []
    else if pt < 0x80 then [pt]
    else if pt < 0x800 then [pt / 0x40 + 0xc0, pt % 0x40 + 0x80]
    else if pt < 0x10000 then [pt / 0x1000 + 0xe0, pt / 0x40 % 0x40 + 0x80, pt % 0x40 + 0x80]
    else [pt / 0x40000 + 0xf0, pt / 0x1000 % 0x40 + 0x80, pt / 0x40 % 0x40 + 0x80, pt % 0x40 + 0x80]
  }

  predicate Digit(c: Byte) {
    0x30 <= c <= 0x39
  }

  predicate HexChar(c: Byte) {
    Digit(c) || 0x61 <= c <= 0x66 || 0x41 <= c <= 0x46
  }

  function HexCharValue(c: Byte): (n: int)
    requires HexChar(c)
    ensures 0 <= n < 16
  {
    if Digit(c) then c as int - 0x30 else if c >= 0x61 then c as int - 0x57 else c as int - 0x37
  }

  predicate FourHex(s: Bytes) {
    |s| >= 4 && HexChar(s[0]) && HexChar(s[1]) && HexChar(s[2]) && HexChar(s[3])
  }

  function HexValue(s: Bytes): (n: int)
    requires FourHex(s)
    ensures 0 <= n <= 0xffff
  {
    HexCharValue(s[0]) * 0x1000 + HexCharValue(s[1]) * 0x100 + HexCharValue(s[2]) * 0x10 + HexCharValue(s[3])
  }

  function Unescape(c: Byte): (r: Option<Byte>) {
    if c == 0x62 then Some(0x08)
    else if c == 0x66 then Some(0x0c)
    else if c == 0x6e then Some(0x0a)
    else if c == 0x72 then Some(0x0d)
    else if c == 0x74 then Some(0x09)
    else if c == QUOTE || c == BACKSLASH || c == 0x2f then Some(c)
    else None
  }

  predicate HighSurrogate(pt: int) {
    0xd800 <= pt <= 0xdbff
  }

  predicate LowSurrogate(pt: int) {
    0xdc00 <= pt <= 0xdfff
  }

  /** One step inside a string: the decoded bytes so far and the escaped code point
      not yet written, or the closing quote, or a failure. */
  datatype StringStep =
    | More(out: Bytes, last: int, used: nat)
    | Closed(text: Bytes)
    | Broken(error: JsonError)

  function ReadUnicode(s: Bytes, out: Bytes, last: int): (r: StringStep)
    requires |s| >= 2 && -1 <= last <= 0xffff
    ensures r.More? ==> -1 <= r.last <= 0xffff && 0 < r.used <= |s|
  {
    if !FourHex(s[2..]) then Broken(BadUnicodeEscape)
    else
      var pt := HexValue(s[2..]);
      if HighSurrogate(last) && LowSurrogate(pt)
      then More(out + Utf8((last - 0xd800) * 0x400 + (pt - 0xdc00) + 0x10000), -1, 6)
      else More(out + Utf8(last), pt, 6)
  }

  function ReadChar(s: Bytes, out: Bytes, last: int): (r: StringStep)
    requires -1 <= last <= 0xffff
    ensures r.More? ==> -1 <= r.last <= 0xffff && 0 < r.used <= |s|
    ensures r.Closed? ==> s != []
  {
    if s == [] then Broken(EndInString)
    else if s[0] == QUOTE then Closed(out + Utf8(last))
    else if s[0] <= 0x1f then Broken(UnescapedControl)
    else if s[0] != BACKSLASH then More(out + Utf8(last) + [s[0]], -1, 1)
    else if |s| < 2 then Broken(EndInString)
    else if s[1] == LOWER_U then ReadUnicode(s, out, last)
    else if Unescape(s[1]).Some? then More(out + Utf8(last) + [Unescape(s[1]).value], -1, 2)
    else Broken(InvalidEscape)
  }

  /** The string whose text, after the opening quote, leads s; and what follows it. */
  function ReadString(s: Bytes, out: Bytes, last: int): (r: Result<(Bytes, Bytes), JsonError>)
    requires -1 <= last <= 0xffff
    ensures r.Ok? ==> |r.value.1| < |s|
    decreases |s|
  {
    match ReadChar(s, out, last)
    case More(out', last', used) => ReadString(s[used..], out', last')
    case Closed(text) => Ok((text, s[1..]))
    case Broken(e) => Err(e)
  }

  /** Bytes read by a step that fails. */
  function BrokenAt(s: Bytes): (n: nat)
    ensures n <= |s|
  {
    if s == [] then 0 else if s[0] <= 0x1f || |s| < 2 then 1 else 2
  }

  /** What is still unread where a string breaks off. */
  function StringStop(s: Bytes, out: Bytes, last: int): (r: Bytes)
    requires -1 <= last <= 0xffff
    decreases |s|
  {
    match ReadChar(s, out, last)
    case More(out', last', used) => StringStop(s[used..], out', last')
    case Closed(_) => s[1..]
    case Broken(_) => s[BrokenAt(s)..]
  }

  // ---------------------------------------------------------------- string round trip

  lemma HexOfByte(c: Byte)
    requires c < 16
    ensures HexChar(HexDigit(c)) && HexCharValue(HexDigit(c)) == c
  {
  }

  lemma ShortEscapeReads(c: Byte)
    requires ShortEscape(c).Some?
    ensures Unescape(ShortEscape(c).value) == Some(c) && ShortEscape(c).value != LOWER_U
  {
  }

  lemma SeparatorUtf8(s: Bytes)
    requires s != [] && Separator(s)
    ensures |s| >= 3 && Utf8(0x2020 + (At(s, 2) as int - 0xa0)) == s[..3]
  {
  }

  /** Reading one escape gives back what was escaped, possibly as a pending code point. */
  lemma EscapeReads(s: Bytes, out: Bytes, last: int, tail: Bytes) returns (out': Bytes, last': int)
    requires s != [] && -1 <= last <= 0xffff && !HighSurrogate(last)
    ensures ReadChar(EscapeFirst(s) + tail, out, last) == More(out', last', |EscapeFirst(s)|)
    ensures -1 <= last' <= 0xffff && !HighSurrogate(last')
    ensures out' + Utf8(last') == out + Utf8(last) + s[..EscapeWidth(s)]
  {
    hide Utf8, HexDigit, HexCharValue, HexChar, ShortEscape, Unescape, Separator;
    var c := s[0];
    var text := EscapeFirst(s) + tail;
    assert Utf8(-1) == [] by { NoCodePoint(); }
    PlainBytes(s);
    if ShortEscape(c).Some? {
      ShortEscapeReads(c);
      out', last' := out + Utf8(last) + [c], -1;
      assert s[..1] == [c];
    } else if c <= 0x1f {
      ControlReads(c, tail);
      out', last' := out + Utf8(last), c as int;
      assert s[..1] == [c];
    } else if Separator(s) {
      SeparatorReads(s, tail);
      SeparatorUtf8(s);
      out', last' := out + Utf8(last), 0x2020 + (At(s, 2) as int - 0xa0);
    } else {
      out', last' := out + Utf8(last) + [c], -1;
      assert s[..1] == [c];
    }
  }

  lemma NoCodePoint()
    ensures Utf8(-1) == []
  {
  }

  lemma PlainBytes(s: Bytes)
    requires s != []
    ensures ShortEscape(s[0]).None? ==> s[0] != QUOTE && s[0] != BACKSLASH
    ensures ShortEscape(s[0]).Some? || s[0] <= 0x1f ==> !Separator(s)
    ensures ShortEscape(s[0]).None? && s[0] <= 0x1f ==> Utf8(s[0] as int) == [s[0]]
  {
  }

  lemma ControlReads(c: Byte, tail: Bytes)
    requires c <= 0x1f
    ensures var s := [BACKSLASH, LOWER_U, 0x30, 0x30, HexDigit(c / 16), HexDigit(c % 16)] + tail;
            FourHex(s[2..]) && HexValue(s[2..]) == c as int
  {
    HexOfByte(c / 16);
    HexOfByte(c % 16);
  }

  lemma SeparatorReads(s: Bytes, tail: Bytes)
    requires s != [] && Separator(s)
    ensures var t := [BACKSLASH, LOWER_U, 0x32, 0x30, 0x32, HexDigit(At(s, 2) - 0xa0)] + tail;
            FourHex(t[2..]) && HexValue(t[2..]) == 0x2020 + (At(s, 2) as int - 0xa0)
  {
    HexOfByte(At(s, 2) - 0xa0);
  }

  lemma ReadMore(s: Bytes, tail: Bytes, out: Bytes, last: int, out': Bytes, last': int)
    requires -1 <= last <= 0xffff && -1 <= last' <= 0xffff
    requires ReadChar(s + tail, out, last) == More(out', last', |s|)
    ensures ReadString(s + tail, out, last) == ReadString(tail, out', last')
  {
    assert (s + tail)[|s|..] == tail;
  }

  lemma ReadClose(rest: Bytes, out: Bytes, last: int)
    requires -1 <= last <= 0xffff
    ensures ReadString([QUOTE] + rest, out, last) == Ok((out + Utf8(last), rest))
  {
    assert ([QUOTE] + rest)[1..] == rest;
  }

  lemma EscapedCons(s: Bytes)
    requires s != []
    ensures Escaped(s) == EscapeFirst(s) + Escaped(s[EscapeWidth(s)..])
  {
  }

  /** Reading an escaped string gives the string back, byte for byte. */
  lemma {:induction false} EscapedStringReads(s: Bytes, out: Bytes, last: int, rest: Bytes)
    requires -1 <= last <= 0xffff && !HighSurrogate(last)
    ensures ReadString(Escaped(s) + ([QUOTE] + rest), out, last) == Ok((out + Utf8(last) + s, rest))
    decreases |s|
  {
    hide Escaped, EscapeFirst, EscapeWidth, ReadString, ReadChar, Utf8;
    var close := [QUOTE] + rest;
    if s == [] {
      NothingEscaped();
      assert Escaped(s) + close == close && out + Utf8(last) + s == out + Utf8(last);
      ReadClose(rest, out, last);
    } else {
      var width := EscapeWidth(s);
      var tail := Escaped(s[width..]) + close;
      EscapedCons(s);
      Regroup(EscapeFirst(s), Escaped(s[width..]), close);
      var out', last' := EscapeReads(s, out, last, tail);
      ReadMore(EscapeFirst(s), tail, out, last, out', last');
      EscapedStringReads(s[width..], out', last', rest);
      assert out' + Utf8(last') + s[width..] == out + Utf8(last) + s by {
        assert s == s[..width] + s[width..];
        Regroup(out + Utf8(last), s[..width], s[width..]);
      }
    }
  }

  lemma NothingEscaped()
    ensures Escaped([]) == []
  {
  }

  // ---------------------------------------------------------------- numbers

  /** A parsed number: a short integer, or the double nearest to a decimal text. */
  datatype Number = IntNumber(n: int) | DoubleNumber(text: Bytes)

  function DigitText(n: nat): (r: Bytes) {
    if n < 10 then [0x30 + n] else DigitText(n / 10) + [0x30 + n % 10]
  }

  function IntText(n: int): (r: Bytes) {
    if n < 0 then [MINUS] + DigitText(-n) else DigitText(n)
  }

  /** Number of digits that lead s. */
  function DigitRun(s: Bytes): (n: nat)
    ensures n <= |s|
  {
    if s != [] && Digit(s[0]) then 1 + DigitRun(s[1..]) else 0
  }

  ghost predicate AllDigits(s: Bytes) {
    forall i | 0 <= i < |s| :: Digit(s[i])
  }

  function DecimalValue(s: Bytes): (n: int) {
    if s == [] then 0 else DecimalValue(s[..|s| - 1]) * 10 + (s[|s| - 1] as int - 0x30)
  }

  function Atoi(s: Bytes): (n: int) {
    if s != [] && s[0] == MINUS then -DecimalValue(s[1..]) else DecimalValue(s)
  }

  /** Length of sign and integer part. */
  function IntegerPart(s: Bytes): (r: Result<nat, JsonError>)
    ensures r.Ok? ==> 0 < r.value <= |s|
  {
    var k := if At(s, 0) == MINUS then 1 else 0;
    if At(s, k) == 0x30 then
      if Digit(At(s, k + 1)) then Err(LeadingZero) else Ok(k + 1)
    else if Digit(At(s, k)) then Ok(k + DigitRun(s[k..]))
    else Err(BadNumber)
  }

  predicate ExponentMark(c: Byte) {
    c == 0x65 || c == 0x45
  }

  /** Length up to the end of the fraction, if there is one. */
  function FractionEnd(s: Bytes, n: nat): (r: Result<nat, JsonError>)
    requires n <= |s|
    ensures r.Ok? ==> n <= r.value <= |s|
  {
    if At(s, n) != DOT then Ok(n)
    else if !Digit(At(s, n + 1)) then Err(NoFraction)
    else Ok(n + 1 + DigitRun(s[n + 1..]))
  }

  function ExponentEnd(s: Bytes, n: nat): (r: Result<nat, JsonError>)
    requires n <= |s|
    ensures r.Ok? ==> n <= r.value <= |s|
  {
    if !ExponentMark(At(s, n)) then Ok(n)
    else
      var k := if At(s, n + 1) == PLUS || At(s, n + 1) == MINUS then n + 2 else n + 1;
      if !Digit(At(s, k)) then Err(NoExponent) else Ok(k + DigitRun(s[k..]))
  }

  /** The number that leads s, and what follows it. */
  function ReadNumber(s: Bytes): (r: Result<(Number, Bytes), JsonError>)
    ensures r.Ok? ==> |r.value.1| < |s|
  {
    match IntegerPart(s)
    case Err(e) => Err(e)
    case Ok(n) =>
      if At(s, n) != DOT && !ExponentMark(At(s, n)) && n <= MAX_INT_TEXT then
        Ok((IntNumber(Atoi(s[..n])), s[n..]))
      else
        match FractionEnd(s, n)
        case Err(e) => Err(e)
        case Ok(m) =>
          match ExponentEnd(s, m)
          case Err(e) => Err(e)
          case Ok(k) => Ok((DoubleNumber(s[..k]), s[k..]))
  }

  /** What may follow a number without becoming part of it. */
  predicate Delimited(rest: Bytes) {
    !Digit(At(rest, 0)) && At(rest, 0) != DOT && !ExponentMark(At(rest, 0))
  }

  lemma {:induction false} DigitTextFacts(n: nat)
    ensures AllDigits(DigitText(n)) && DigitText(n) != [] && DecimalValue(DigitText(n)) == n
    ensures n > 0 ==> DigitText(n)[0] != 0x30
  {
    if n >= 10 {
      DigitTextFacts(n / 10);
      assert DigitText(n)[..|DigitText(n)| - 1] == DigitText(n / 10);
    } else {
      assert DigitText(n)[..0] == [];
    }
  }

  lemma {:induction false} DigitRunOf(s: Bytes, rest: Bytes)
    requires AllDigits(s) && !Digit(At(rest, 0))
    ensures DigitRun(s + rest) == |s|
  {
    if s == [] {
      assert s + rest == rest;
    } else {
      assert (s + rest)[1..] == s[1..] + rest;
      DigitRunOf(s[1..], rest);
    }
  }

  /** How a dumped integer reads back: as an integer up to nine characters, and beyond
      that as a double with the same text. */
  function ReadAs(n: int): (r: Number) {
    if |IntText(n)| <= MAX_INT_TEXT then IntNumber(n) else DoubleNumber(IntText(n))
  }

  lemma IntegerPartOf(n: int, rest: Bytes)
    requires Delimited(rest)
    ensures IntegerPart(IntText(n) + rest) == Ok(|IntText(n)|)
  {
    hide DecimalValue, DigitText, DigitRun;
    var m: nat := if n < 0 then -n else n;
    var digits := DigitText(m);
    DigitTextFacts(m);
    DigitRunOf(digits, rest);
    var k := if n < 0 then 1 else 0;
    var s := IntText(n) + rest;
    assert s[k..] == digits + rest;
    assert At(s, k) == digits[0] && Digit(digits[0]);
    if m == 0 {
      ZeroText();
      assert At(s, k + 1) == At(rest, 0);
    }
  }

  lemma ZeroText()
    ensures DigitText(0) == [0x30]
  {
  }

  lemma AtoiOf(n: int)
    ensures Atoi(IntText(n)) == n
  {
    hide DigitText, DecimalValue;
    DigitTextFacts(if n < 0 then -n else n);
    if n < 0 {
      assert IntText(n)[1..] == DigitText(-n);
    } else {
      assert Digit(IntText(n)[0]);
    }
  }

  lemma IntReads(n: int, rest: Bytes)
    requires Delimited(rest)
    ensures ReadNumber(IntText(n) + rest) == Ok((ReadAs(n), rest))
  {
    hide IntText, Atoi, IntegerPart;
    var s, k := IntText(n) + rest, |IntText(n)|;
    IntegerPartOf(n, rest);
    AtoiOf(n);
    assert s[..k] == IntText(n) && s[k..] == rest && At(s, k) == At(rest, 0);
  }
}
