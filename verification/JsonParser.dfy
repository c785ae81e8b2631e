/** The parser object and the dump routines (slave/util/json11.cpp): a moving
    position, a failure flag, and text appended to an output string. */
module JsonParsing {
  import opened Wrappers
  import opened JsonText
  import opened JsonValues

  // ---------------------------------------------------------------- dump

  method DumpString(value: Bytes, out: Bytes) returns (r: Bytes)
    ensures r == out + Quoted(value)
  {
    hide Escaped, EscapeFirst;
    r := out + [QUOTE];
    var i := 0;
    assert value[0..] == value;
    while i < |value|
      invariant i <= |value|
      invariant r + Escaped(value[i..]) == out + [QUOTE] + Escaped(value)
    {
      var rest := value[i..];
      EscapedCons(rest);
      Regroup(r, EscapeFirst(rest), Escaped(rest[EscapeWidth(rest)..]));
      assert rest[EscapeWidth(rest)..] == value[i + EscapeWidth(rest)..];
      r := r + EscapeFirst(rest);
      i := i + EscapeWidth(rest);
    }
    NothingEscaped();
    assert value[i..] == [] && r + [] == r;
    r := r + [QUOTE];
  }

  method DumpJson(v: Json, out: Bytes) returns (r: Bytes)
    requires Dumpable(v)
    ensures r == out + Dump(v)
    decreases v
  {
    hide Escaped, IntText, DumpItems, DumpMembers, DumpMember;
    match v
    case Null => r := out + NULL_TEXT;
    case Bool(b) => r := out + if b then TRUE_TEXT else FALSE_TEXT;
    case Int(n) => r := out + IntText(n);
    case Text(s) => r := DumpString(s, out);
    case Array(items) => r := DumpArray(items, out);
    case Object(ms) => r := DumpObject(ms, out);
  }

  /** The items of an array from some position on. */
  ghost function ItemsFrom(items: seq<Json>, i: nat): (r: Bytes)
    requires i <= |items| && forall k | 0 <= k < |items| :: Dumpable(items[k])
  {
    if i == 0 && items != [] then Dump(items[0]) + DumpItems(items[1..]) else DumpItems(items[i..])
  }

  ghost function MembersFrom(ms: seq<Member>, i: nat): (r: Bytes)
    requires i <= |ms| && forall k | 0 <= k < |ms| :: Dumpable(ms[k].value)
  {
    if i == 0 && ms != [] then DumpMember(ms[0]) + DumpMembers(ms[1..]) else DumpMembers(ms[i..])
  }

  lemma ItemsFromStep(items: seq<Json>, i: nat)
    requires i < |items| && forall k | 0 <= k < |items| :: Dumpable(items[k])
    ensures ItemsFrom(items, i) ==
            (if i == 0 then [] else [COMMA, SPACE]) + Dump(items[i]) + ItemsFrom(items, i + 1)
  {
    hide Dump, Dumpable;
    assert items[i..][1..] == items[i + 1..];
  }

  lemma MembersFromStep(ms: seq<Member>, i: nat)
    requires i < |ms| && forall k | 0 <= k < |ms| :: Dumpable(ms[k].value)
    ensures MembersFrom(ms, i) ==
            (if i == 0 then [] else [COMMA, SPACE]) + DumpMember(ms[i]) + MembersFrom(ms, i + 1)
  {
    hide DumpMember, Dumpable;
    assert ms[i..][1..] == ms[i + 1..];
  }

  lemma ItemsFromEnds(items: seq<Json>)
    requires forall k | 0 <= k < |items| :: Dumpable(items[k])
    ensures ItemsFrom(items, |items|) == []
    ensures Dump(Array(items)) == [LBRACKET] + ItemsFrom(items, 0) + [RBRACKET]
  {
    if items != [] {
      Regroup([LBRACKET], Dump(items[0]), DumpItems(items[1..]));
    }
  }

  lemma MembersFromEnds(ms: seq<Member>)
    requires forall k | 0 <= k < |ms| :: Dumpable(ms[k].value)
    ensures MembersFrom(ms, |ms|) == []
    ensures Dump(Object(ms)) == [LBRACE] + MembersFrom(ms, 0) + [RBRACE]
  {
    if ms != [] {
      Regroup([LBRACE], DumpMember(ms[0]), DumpMembers(ms[1..]));
    }
  }

  method DumpArray(items: seq<Json>, out: Bytes) returns (r: Bytes)
    requires forall k | 0 <= k < |items| :: Dumpable(items[k])
    ensures r == out + Dump(Array(items))
    decreases items
  {
    hide Dump, Dumpable, ItemsFrom;
    var first := true;
    r := out + [LBRACKET];
    var i := 0;
    while i < |items|
      invariant i <= |items| && first == (i == 0)
      invariant r + ItemsFrom(items, i) == out + [LBRACKET] + ItemsFrom(items, 0)
    {
      ItemsFromStep(items, i);
      ghost var sep := if i == 0 then [] else [COMMA, SPACE];
      Regroup(r, sep + Dump(items[i]), ItemsFrom(items, i + 1));
      Regroup(r, sep, Dump(items[i]));
      if !first {
        r := r + [COMMA, SPACE];
      }
      r := DumpJson(items[i], r);
      first := false;
      i := i + 1;
    }
    ItemsFromEnds(items);
    assert r + [] == r;
    Regroup(out, [LBRACKET], ItemsFrom(items, 0));
    Regroup(out, [LBRACKET] + ItemsFrom(items, 0), [RBRACKET]);
    r := r + [RBRACKET];
  }

  method DumpObject(ms: seq<Member>, out: Bytes) returns (r: Bytes)
    requires forall k | 0 <= k < |ms| :: Dumpable(ms[k].value)
    ensures r == out + Dump(Object(ms))
    decreases ms
  {
    hide Dump, Dumpable, MembersFrom, Quoted;
    var first := true;
    r := out + [LBRACE];
    var i := 0;
    while i < |ms|
      invariant i <= |ms| && first == (i == 0)
      invariant r + MembersFrom(ms, i) == out + [LBRACE] + MembersFrom(ms, 0)
    {
      MembersFromStep(ms, i);
      ghost var sep := if i == 0 then [] else [COMMA, SPACE];
      Regroup(r, sep + DumpMember(ms[i]), MembersFrom(ms, i + 1));
      Regroup(r, sep, DumpMember(ms[i]));
      if !first {
        r := r + [COMMA, SPACE];
      }
      Regroup(r, Quoted(ms[i].key), [COLON, SPACE]);
      Regroup(r, Quoted(ms[i].key) + [COLON, SPACE], Dump(ms[i].value));
      r := DumpString(ms[i].key, r);
      r := r + [COLON, SPACE];
      r := DumpJson(ms[i].value, r);
      first := false;
      i := i + 1;
    }
    MembersFromEnds(ms);
    assert r + [] == r;
    Regroup(out, [LBRACE], MembersFrom(ms, 0));
    Regroup(out, [LBRACE] + MembersFrom(ms, 0), [RBRACE]);
    r := r + [RBRACE];
  }

  // ---------------------------------------------------------------- parse

  lemma StringMore(s: Bytes, out: Bytes, last: int)
    requires -1 <= last <= 0xffff
    ensures match ReadChar(s, out, last)
            case More(o, l, used) => ReadString(s, out, last) == ReadString(s[used..], o, l)
            case Closed(text) => ReadString(s, out, last) == Ok((text, s[1..]))
            case Broken(e) => ReadString(s, out, last) == Err(e)
    ensures match ReadChar(s, out, last)
            case More(o, l, used) => StringStop(s, out, last) == StringStop(s[used..], o, l)
            case Closed(text) => true
            case Broken(e) => StringStop(s, out, last) == s[BrokenAt(s)..]
  {
  }

  lemma SkipStep(s: Bytes)
    ensures s != [] && Blank(s[0]) ==> Skip(s) == Skip(s[1..])
    ensures s == [] || !Blank(s[0]) ==> Skip(s) == s
  {
  }

  class JsonParser {
    const str: Bytes
    var i: nat
    var failed: bool
    var err: Option<JsonError>

    ghost predicate Valid()
      reads this
    {
      i <= |str| && (failed <==> err.Some?)
    }

    /** The parser is where reading with a given outcome leaves it. */
    ghost predicate Agrees<T>(r: Parsed<T>, v: T)
      reads this
    {
      && Valid()
      && match r
         case Ok((x, rest)) => !failed && v == x && str[i..] == rest
         case Err(e) => err == Some(e)
    }

    constructor (str: Bytes)
      ensures Valid() && !failed && i == 0 && this.str == str
    {
      this.str, i, failed, err := str, 0, false, None;
    }

    /** Keeps the first failure. */
    method Fail(e: JsonError)
      requires Valid()
      modifies `failed, `err
      ensures Valid() && err == if old(failed) then old(err) else Some(e)
    {
      if !failed {
        err := Some(e);
      }
      failed := true;
    }

    method ConsumeWhitespace()
      requires Valid()
      modifies `i
      ensures Valid() && i >= old(i) && str[i..] == Skip(old(str[i..]))
      ensures forall k | old(i) <= k < i :: str[k] == 0x20 || str[k] == 0x09 || str[k] == 0x0a || str[k] == 0x0d
      ensures i < |str| ==> str[i] != 0x20 && str[i] != 0x09 && str[i] != 0x0a && str[i] != 0x0d
    {
      hide Skip;
      while i < |str| && Blank(str[i])
        invariant old(i) <= i <= |str| && Skip(str[i..]) == Skip(old(str[i..]))
        invariant forall k | old(i) <= k < i :: str[k] == 0x20 || str[k] == 0x09 || str[k] == 0x0a || str[k] == 0x0d
      {
        SkipStep(str[i..]);
        assert str[i..][1..] == str[i + 1..];
        i := i + 1;
      }
      SkipStep(str[i..]);
    }

    /** The next non-blank byte, or a failure and 0 at the end. */
    method GetNextToken() returns (c: Byte)
      requires Valid() && !failed
      modifies this
      ensures Valid() && i >= old(i)
      ensures var t := Skip(old(str[i..]));
              if t == [] then err == Some(EndOfInput) && c == 0
              else !failed && i > old(i) && c == t[0] && str[i - 1..] == t && str[i..] == t[1..]
    {
      hide Skip;
      ConsumeWhitespace();
      if i == |str| {
        Fail(EndOfInput);
        return 0;
      }
      c := str[i];
      i := i + 1;
    }

    /** Reads a string from after its opening quote; a failure yields the empty string. */
    method ParseString() returns (out: Bytes)
      requires Valid() && !failed
      modifies this
      ensures Agrees(ReadString(old(str[i..]), [], -1), out)
      ensures failed ==> out == [] && str[i..] == StringStop(old(str[i..]), [], -1)
    {
      hide ReadString, StringStop, Utf8, FourHex, HexValue, Unescape;
      out := [];
      var last := -1;
      while true
        invariant Valid() && !failed && -1 <= last <= 0xffff
        invariant ReadString(old(str[i..]), [], -1) == ReadString(str[i..], out, last)
        invariant StringStop(old(str[i..]), [], -1) == StringStop(str[i..], out, last)
        decreases |str| - i
      {
        ghost var s := str[i..];
        StringMore(s, out, last);
        if i == |str| {
          Fail(EndInString);
          return [];
        }
        var c := str[i];
        i := i + 1;
        assert s[1..] == str[i..];
        if c == QUOTE {
          out := out + Utf8(last);
          return;
        }
        if c <= 0x1f {
          Fail(UnescapedControl);
          return [];
        }
        if c != BACKSLASH {
          out := out + Utf8(last);
          last := -1;
          out := out + [c];
          continue;
        }
        if i == |str| {
          Fail(EndInString);
          return [];
        }
        c := str[i];
        i := i + 1;
        assert s[2..] == str[i..];
        if c == LOWER_U {
          if !FourHex(str[i..]) {
            Fail(BadUnicodeEscape);
            return [];
          }
          var pt := HexValue(str[i..]);
          FourHexLong(str[i..]);
          if HighSurrogate(last) && LowSurrogate(pt) {
            out := out + Utf8((last - 0xd800) * 0x400 + (pt - 0xdc00) + 0x10000);
            last := -1;
          } else {
            out := out + Utf8(last);
            last := pt;
          }
          i := i + 4;
          assert s[6..] == str[i..];
          continue;
        }
        out := out + Utf8(last);
        last := -1;
        if Unescape(c).None? {
          Fail(InvalidEscape);
          return [];
        }
        out := out + [Unescape(c).value];
      }
    }

    method ConsumeDigits()
      requires Valid()
      modifies `i
      ensures Valid() && i == old(i) + DigitRun(old(str[i..]))
    {
      hide DigitRun;
      while i < |str| && Digit(str[i])
        invariant old(i) <= i <= |str|
        invariant old(i) + DigitRun(old(str[i..])) == i + DigitRun(str[i..])
      {
        DigitRunStep(str[i..]);
        assert str[i..][1..] == str[i + 1..];
        i := i + 1;
      }
      DigitRunStep(str[i..]);
    }

    /** Sign and integer digits. */
    method ParseIntegerPart() returns (ok: bool)
      requires Valid() && !failed
      modifies this
      ensures Valid() && match IntegerPart(old(str[i..]))
                         case Ok(n) => ok && !failed && i == old(i) + n
                         case Err(e) => !ok && err == Some(e)
    {
      hide DigitRun;
      ghost var s := str[i..];
      ghost var start := i;
      if At(str, i) == MINUS {
        i := i + 1;
      }
      ghost var k := i - start;
      assert s[k..] == str[i..] && At(s, k) == At(str, i) && At(s, k + 1) == At(str, i + 1);
      if At(str, i) == 0x30 {
        i := i + 1;
        if Digit(At(str, i)) {
          Fail(LeadingZero);
          return false;
        }
      } else if Digit(At(str, i)) {
        DigitRunStep(str[i..]);
        assert str[i..][1..] == str[i + 1..];
        i := i + 1;
        ConsumeDigits();
      } else {
        Fail(BadNumber);
        return false;
      }
      return true;
    }

    method ParseFraction(ghost start: nat) returns (ok: bool)
      requires Valid() && !failed && start <= i
      modifies this
      ensures Valid() && match FractionEnd(str[start..], old(i) - start)
                         case Ok(n) => ok && !failed && i == start + n
                         case Err(e) => !ok && err == Some(e)
    {
      hide DigitRun;
      ghost var s, n := str[start..], i - start;
      assert At(s, n) == At(str, i) && At(s, n + 1) == At(str, i + 1);
      if At(str, i) == DOT {
        assert s[n + 1..] == str[i + 1..];
        i := i + 1;
        if !Digit(At(str, i)) {
          Fail(NoFraction);
          return false;
        }
        ConsumeDigits();
      }
      return true;
    }

    method ParseExponent(ghost start: nat) returns (ok: bool)
      requires Valid() && !failed && start <= i
      modifies this
      ensures Valid() && match ExponentEnd(str[start..], old(i) - start)
                         case Ok(n) => ok && !failed && i == start + n
                         case Err(e) => !ok && err == Some(e)
    {
      hide DigitRun;
      ghost var s, n := str[start..], i - start;
      assert At(s, n) == At(str, i) && At(s, n + 1) == At(str, i + 1) && At(s, n + 2) == At(str, i + 2);
      if ExponentMark(At(str, i)) {
        i := i + 1;
        if At(str, i) == PLUS || At(str, i) == MINUS {
          i := i + 1;
        }
        if !Digit(At(str, i)) {
          Fail(NoExponent);
          return false;
        }
        assert s[i - start..] == str[i..];
        ConsumeDigits();
      }
      return true;
    }

    method ParseNumber() returns (v: Json)
      requires Valid() && !failed
      modifies this
      ensures Agrees(NumberParsed(old(str[i..])), v)
      ensures failed ==> v == Null
    {
      hide IntegerPart, FractionEnd, ExponentEnd, Atoi;
      var start := i;
      ghost var s := str[i..];
      var ok := ParseIntegerPart();
      if !ok {
        return Null;
      }
      ghost var n := i - start;
      assert At(s, n) == At(str, i);
      SlicesOfTail(str, start, 0, n);
      if At(str, i) != DOT && !ExponentMark(At(str, i)) && i - start <= MAX_INT_TEXT {
        return Int(Atoi(str[start..i]));
      }
      ok := ParseFraction(start);
      if !ok {
        return Null;
      }
      ok := ParseExponent(start);
      if !ok {
        return Null;
      }
      SlicesOfTail(str, start, 0, i - start);
      return Double(str[start..i]);
    }

    /** Matches a literal whose first byte was just read. */
    method ExpectText(text: Bytes, v: Json) returns (r: Json)
      requires Valid() && !failed && i > 0
      modifies this
      ensures Agrees(Expect(old(str[i - 1..]), text, v), r)
      ensures failed ==> r == Null
    {
      i := i - 1;
      if text <= str[i..] {
        assert str[i..][|text|..] == str[i + |text|..];
        i := i + |text|;
        return v;
      }
      Fail(ExpectedLiteral);
      return Null;
    }

    /** A failure yields null, but the empty string where the value is a string. */
    method ParseJson(depth: nat) returns (v: Json)
      requires Valid() && !failed
      modifies this
      ensures Agrees(ParseValue(old(str[i..]), depth), v)
      ensures failed ==> v == if AtString(old(str[i..]), depth) then Text([]) else Null
      ensures failed && AtString(old(str[i..]), depth) ==>
                str[i..] == StringStop(Skip(old(str[i..]))[1..], [], -1)
      decreases |str| - i, 0
    {
      hide ReadNumber, ReadString, StringStop, Skip, ParseArray, ParseObject;
      if depth > MAX_DEPTH {
        Fail(TooDeep);
        return Null;
      }
      var c := GetNextToken();
      if failed {
        return Null;
      }
      if c == MINUS || Digit(c) {
        i := i - 1;
        v := ParseNumber();
      } else if c == 0x74 {
        v := ExpectText(TRUE_TEXT, Bool(true));
      } else if c == 0x66 {
        v := ExpectText(FALSE_TEXT, Bool(false));
      } else if c == 0x6e {
        v := ExpectText(NULL_TEXT, Null);
      } else if c == QUOTE {
        var t := ParseString();
        v := Text(t);
      } else if c == LBRACE {
        v := ParseObjectBody(depth);
      } else if c == LBRACKET {
        v := ParseArrayBody(depth);
      } else {
        Fail(ExpectedValue);
        v := Null;
      }
    }

    /** Reads an array from after its opening bracket. */
    method ParseArrayBody(depth: nat) returns (v: Json)
      requires Valid() && !failed
      modifies this
      ensures Agrees(ParseArray(old(str[i..]), depth), v)
      ensures failed ==> v == Null
      decreases |str| - i, 1
    {
      hide ParseValue, Skip;
      var items: seq<Json> := [];
      var c := GetNextToken();
      if failed {
        return Null;
      }
      if c == RBRACKET {
        return Array(items);
      }
      while true
        invariant Valid() && !failed && i > old(i)
        invariant ParseArray(old(str[i..]), depth) == ParseItems(str[i - 1..], depth, items)
        decreases |str| - i
      {
        i := i - 1;
        var item := ParseJson(depth + 1);
        if failed {
          return Null;
        }
        items := items + [item];
        c := GetNextToken();
        if failed {
          return Null;
        }
        if c == RBRACKET {
          return Array(items);
        }
        if c != COMMA {
          Fail(ExpectedComma);
          return Null;
        }
        c := GetNextToken();
        if failed {
          return Null;
        }
      }
    }

    /** Reads an object from after its opening brace. */
    method ParseObjectBody(depth: nat) returns (v: Json)
      requires Valid() && !failed
      modifies this
      ensures Agrees(ParseObject(old(str[i..]), depth), v)
      ensures failed ==> v == Null
      decreases |str| - i, 1
    {
      hide ParseValue, Skip, ReadString, Put;
      var ms: seq<Member> := [];
      var c := GetNextToken();
      if failed {
        return Null;
      }
      if c == RBRACE {
        return Object(ms);
      }
      while true
        invariant Valid() && !failed && i > old(i) && c == str[i - 1]
        invariant ParseObject(old(str[i..]), depth) == ParseMembers(str[i - 1..], depth, ms)
        decreases |str| - i
      {
        if c != QUOTE {
          Fail(ExpectedQuote);
          return Null;
        }
        var key := ParseString();
        if failed {
          return Null;
        }
        c := GetNextToken();
        if failed {
          return Null;
        }
        if c != COLON {
          Fail(ExpectedColon);
          return Null;
        }
        var value := ParseJson(depth + 1);
        if failed {
          return Null;
        }
        ms := Put(ms, Member(key, value));
        c := GetNextToken();
        if failed {
          return Null;
        }
        if c == RBRACE {
          return Object(ms);
        }
        if c != COMMA {
          Fail(ExpectedComma);
          return Null;
        }
        c := GetNextToken();
        if failed {
          return Null;
        }
      }
    }
  }

  /** A string is next. */
  ghost predicate AtString(s: Bytes, depth: nat) {
    depth <= MAX_DEPTH && Skip(s) != [] && Skip(s)[0] == QUOTE
  }

  /** What a failed parse returns: null, unless the text is a string that breaks off
      with at most blanks behind it. */
  ghost function FailedValue(text: Bytes): (v: Json) {
    var t := Skip(text);
    if t != [] && t[0] == QUOTE && ReadString(t[1..], [], -1).Err? && Skip(StringStop(t[1..], [], -1)) == []
    then Text([]) else Null
  }

  ghost function NumberParsed(s: Bytes): (r: Parsed<Json>) {
    match ReadNumber(s)
    case Err(e) => Err(e)
    case Ok((n, rest)) => Ok((NumberValue(n), rest))
  }

  /** Reads one value that takes up the whole text but for blanks. */
  method ParseText(text: Bytes) returns (v: Json, err: Option<JsonError>)
    ensures match Parse(text)
            case Ok(x) => v == x && err == None
            case Err(e) => v == FailedValue(text) && err == Some(e)
  {
    hide Skip, ParseArray, ParseObject, ReadNumber, ReadString, StringStop;
    var parser := new JsonParser(text);
    assert text[0..] == text;
    v := parser.ParseJson(0);
    parser.ConsumeWhitespace();
    if parser.i != |text| {
      parser.Fail(TrailingText);
      v := Null;
    }
    err := parser.err;
  }

  lemma FourHexLong(s: Bytes)
    requires FourHex(s)
    ensures |s| >= 4
  {
  }

  lemma DigitRunStep(s: Bytes)
    ensures DigitRun(s) == if s != [] && Digit(s[0]) then 1 + DigitRun(s[1..]) else 0
  {
  }
}
