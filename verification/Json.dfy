/** JSON values, the text dump gives them and the value the parser reads from a text
    (slave/util/json11.cpp). An object is the sequence of its members in key order. */
module JsonValues {
  import opened Wrappers
  import opened JsonText

  const MAX_DEPTH: nat := 200
  const COMMA: Byte := 0x2c
  const COLON: Byte := 0x3a
  const SPACE: Byte := 0x20
  const LBRACKET: Byte := 0x5b
  const RBRACKET: Byte := 0x5d
  const LBRACE: Byte := 0x7b
  const RBRACE: Byte := 0x7d
  const NULL_TEXT: Bytes := [0x6e, 0x75, 0x6c, 0x6c]
  const TRUE_TEXT: Bytes := [0x74, 0x72, 0x75, 0x65]
  const FALSE_TEXT: Bytes := [0x66, 0x61, 0x6c, 0x73, 0x65]

  datatype Member = Member(key: Bytes, value: Json)

  /** A Double is denoted by the decimal text it was read from. */
  datatype Json =
    | Null
    | Bool(b: bool)
    | Int(n: int)
    | Double(text: Bytes)
    | Text(s: Bytes)
    | Array(items: seq<Json>)
    | Object(members: seq<Member>)

  // ---------------------------------------------------------------- key order

  predicate Less(a: Bytes, b: Bytes) {
    if b == [] then false
    else if a == [] then true
    else a[0] < b[0] || (a[0] == b[0] && Less(a[1..], b[1..]))
  }

  ghost predicate Sorted(ms: seq<Member>) {
    forall i, j | 0 <= i < j < |ms| :: Less(ms[i].key, ms[j].key)
  }

  /** Adds a member or replaces the value of its key. */
  function Put(ms: seq<Member>, m: Member): (r: seq<Member>) {
    if ms == [] || Less(ms[|ms| - 1].key, m.key) then ms + [m]
    else if ms[|ms| - 1].key == m.key then ms[..|ms| - 1] + [m]
    else Put(ms[..|ms| - 1], m) + [ms[|ms| - 1]]
  }

  // ---------------------------------------------------------------- dump

  function Quoted(s: Bytes): (r: Bytes) {
    [QUOTE] + Escaped(s) + [QUOTE]
  }

  function Dump(v: Json): (r: Bytes)
    requires Dumpable(v)
  {
    match v
    case Null => NULL_TEXT
    case Bool(b) => if b then TRUE_TEXT else FALSE_TEXT
    case Int(n) => IntText(n)
    case Text(s) => Quoted(s)
    case Array(items) =>
      if items == [] then [LBRACKET, RBRACKET]
      else [LBRACKET] + Dump(items[0]) + DumpItems(items[1..]) + [RBRACKET]
    case Object(ms) =>
      if ms == [] then [LBRACE, RBRACE]
      else [LBRACE] + DumpMember(ms[0]) + DumpMembers(ms[1..]) + [RBRACE]
  }

  /** Items after the first, each with its separator. */
  function DumpItems(items: seq<Json>): (r: Bytes)
    requires forall i | 0 <= i < |items| :: Dumpable(items[i])
  {
    if items == [] then [] else [COMMA, SPACE] + Dump(items[0]) + DumpItems(items[1..])
  }

  function DumpMember(m: Member): (r: Bytes)
    requires Dumpable(m.value)
  {
    Quoted(m.key) + [COLON, SPACE] + Dump(m.value)
  }

  function DumpMembers(ms: seq<Member>): (r: Bytes)
    requires forall i | 0 <= i < |ms| :: Dumpable(ms[i].value)
  {
    if ms == [] then [] else [COMMA, SPACE] + DumpMember(ms[0]) + DumpMembers(ms[1..])
  }

  /** No doubles, whose digits are left to the C library. */
  predicate Dumpable(v: Json) {
    match v
    case Double(_) => false
    case Array(items) => forall i | 0 <= i < |items| :: Dumpable(items[i])
    case Object(ms) => forall i | 0 <= i < |ms| :: Dumpable(ms[i].value)
    case _ => true
  }

  /** Objects hold each key once, in order: what a map guarantees. */
  ghost predicate KeysSorted(v: Json) {
    match v
    case Array(items) => forall i | 0 <= i < |items| :: KeysSorted(items[i])
    case Object(ms) => Sorted(ms) && forall i | 0 <= i < |ms| :: KeysSorted(ms[i].value)
    case _ => true
  }

  // ---------------------------------------------------------------- parse

  predicate Blank(c: Byte) {
    c == SPACE || c == 0x0d || c == 0x0a || c == 0x09
  }

  function Skip(s: Bytes): (r: Bytes)
    ensures |r| <= |s|
  {
    if s != [] && Blank(s[0]) then Skip(s[1..]) else s
  }

  type Parsed<T> = Result<(T, Bytes), JsonError>

  function Expect(s: Bytes, text: Bytes, v: Json): (r: Parsed<Json>)
    ensures r.Ok? && text != [] ==> |r.value.1| < |s|
  {
    if text <= s then Ok((v, s[|text|..])) else Err(ExpectedLiteral)
  }

  function NumberValue(n: Number): (v: Json) {
    match n
    case IntNumber(i) => Int(i)
    case DoubleNumber(t) => Double(t)
  }

  function ParseScalar(s: Bytes): (r: Parsed<Json>)
    requires s != []
    ensures r.Ok? ==> |r.value.1| < |s|
  {
    var c := s[0];
    if c == MINUS || Digit(c) then
      match ReadNumber(s)
      case Err(e) => Err(e)
      case Ok((n, rest)) => Ok((NumberValue(n), rest))
    else if c == 0x74 then Expect(s, TRUE_TEXT, Bool(true))
    else if c == 0x66 then Expect(s, FALSE_TEXT, Bool(false))
    else if c == 0x6e then Expect(s, NULL_TEXT, Null)
    else if c == QUOTE then
      match ReadString(s[1..], [], -1)
      case Err(e) => Err(e)
      case Ok((t, rest)) => Ok((Text(t), rest))
    else Err(ExpectedValue)
  }

  function ParseValue(s: Bytes, depth: nat): (r: Parsed<Json>)
    ensures r.Ok? ==> |r.value.1| < |s|
    decreases |s|, 0
  {
    var t := Skip(s);
    if depth > MAX_DEPTH then Err(TooDeep)
    else if t == [] then Err(EndOfInput)
    else if t[0] == LBRACKET then ParseArray(t[1..], depth)
    else if t[0] == LBRACE then ParseObject(t[1..], depth)
    else ParseScalar(t)
  }

  function ParseArray(s: Bytes, depth: nat): (r: Parsed<Json>)
    ensures r.Ok? ==> |r.value.1| <= |s|
    decreases |s|, 2
  {
    var t := Skip(s);
    if t == [] then Err(EndOfInput)
    else if t[0] == RBRACKET then Ok((Array([]), t[1..]))
    else ParseItems(t, depth, [])
  }

  /** The items from the one that leads s to the closing bracket. */
  function ParseItems(s: Bytes, depth: nat, items: seq<Json>): (r: Parsed<Json>)
    ensures r.Ok? ==> |r.value.1| < |s|
    decreases |s|, 1
  {
    match ParseValue(s, depth + 1)
    case Err(e) => Err(e)
    case Ok((v, rest)) =>
      var t := Skip(rest);
      if t == [] then Err(EndOfInput)
      else if t[0] == RBRACKET then Ok((Array(items + [v]), t[1..]))
      else if t[0] != COMMA then Err(ExpectedComma)
      else if Skip(t[1..]) == [] then Err(EndOfInput)
      else ParseItems(Skip(t[1..]), depth, items + [v])
  }

  function ParseObject(s: Bytes, depth: nat): (r: Parsed<Json>)
    ensures r.Ok? ==> |r.value.1| <= |s|
    decreases |s|, 3
  {
    var t := Skip(s);
    if t == [] then Err(EndOfInput)
    else if t[0] == RBRACE then Ok((Object([]), t[1..]))
    else ParseMembers(t, depth, [])
  }

  function ParseMember(s: Bytes, depth: nat): (r: Parsed<Member>)
    requires s != []
    ensures r.Ok? ==> |r.value.1| < |s|
    decreases |s|, 1
  {
    if s[0] != QUOTE then Err(ExpectedQuote) else
      match ReadString(s[1..], [], -1)
      case Err(e) => Err(e)
      case Ok((key, rest)) =>
        var t := Skip(rest);
        if t == [] then Err(EndOfInput)
        else if t[0] != COLON then Err(ExpectedColon)
        else
          match ParseValue(t[1..], depth + 1)
          case Err(e) => Err(e)
          case Ok((v, after)) => Ok((Member(key, v), after))
  }

  function ParseMembers(s: Bytes, depth: nat, ms: seq<Member>): (r: Parsed<Json>)
    requires s != []
    ensures r.Ok? ==> |r.value.1| < |s|
    decreases |s|, 2
  {
    match ParseMember(s, depth)
    case Err(e) => Err(e)
    case Ok((m, rest)) =>
      var t := Skip(rest);
      if t == [] then Err(EndOfInput)
      else if t[0] == RBRACE then Ok((Object(Put(ms, m)), t[1..]))
      else if t[0] != COMMA then Err(ExpectedComma)
      else if Skip(t[1..]) == [] then Err(EndOfInput)
      else ParseMembers(Skip(t[1..]), depth, Put(ms, m))
  }

  /** The value of a whole text. */
  function Parse(s: Bytes): (r: Result<Json, JsonError>) {
    match ParseValue(s, 0)
    case Err(e) => Err(e)
    case Ok((v, rest)) => if Skip(rest) == [] then Ok(v) else Err(TrailingText)
  }

  // ---------------------------------------------------------------- nesting

  function Max(a: nat, b: nat): (m: nat) {
    if a < b then b else a
  }

  /** Levels of containers around the deepest element. */
  function Depth(v: Json): (d: nat) {
    match v
    case Array(items) => if items == [] then 0 else 1 + ItemsDepth(items)
    case Object(ms) => if ms == [] then 0 else 1 + MembersDepth(ms)
    case _ => 0
  }

  function ItemsDepth(items: seq<Json>): (d: nat) {
    if items == [] then 0 else Max(Depth(items[0]), ItemsDepth(items[1..]))
  }

  function MembersDepth(ms: seq<Member>): (d: nat) {
    if ms == [] then 0 else Max(Depth(ms[0].value), MembersDepth(ms[1..]))
  }

  /** The value as it reads back: an integer of more than nine characters is a double
      with the same text. */
  function Reread(v: Json): (r: Json) {
    match v
    case Int(n) => NumberValue(ReadAs(n))
    case Array(items) => Array(RereadItems(items))
    case Object(ms) => Object(RereadMembers(ms))
    case _ => v
  }

  function RereadItems(items: seq<Json>): (r: seq<Json>)
    ensures |r| == |items|
  {
    if items == [] then [] else [Reread(items[0])] + RereadItems(items[1..])
  }

  function RereadMembers(ms: seq<Member>): (r: seq<Member>)
    ensures |r| == |ms|
  {
    if ms == [] then [] else [Member(ms[0].key, Reread(ms[0].value))] + RereadMembers(ms[1..])
  }
}
