/** The language the JSON parser accepts, and what each text denotes
    (slave/util/json11.cpp; sections 2 to 8 of RFC 8259). */
module JsonGrammar {
  import opened Wrappers
  import opened JsonText
  import opened JsonValues

  // ---------------------------------------------------------------- texts as trees

  /** What may stand between quotes: a byte, a backslash and a letter, or \u and four
      hexadecimal digits. */
  datatype Piece = Plain(c: Byte) | Short(c: Byte) | Unicode(digits: Bytes)

  datatype Exponent = Exponent(mark: Byte, sign: Bytes, digits: Bytes)

  datatype Numeral = Numeral(minus: bool, digits: Bytes, fraction: Option<Bytes>, exponent: Option<Exponent>)

  datatype Doc =
    | NullDoc
    | BoolDoc(b: bool)
    | NumberDoc(number: Numeral)
    | StringDoc(pieces: seq<Piece>)
    | ArrayDoc(gap: Bytes, slots: seq<Slot>)
    | ObjectDoc(gap: Bytes, entries: seq<Entry>)

  /** A value with the white space around it. */
  datatype Slot = Slot(before: Bytes, doc: Doc, after: Bytes)

  datatype Entry = Entry(before: Bytes, key: seq<Piece>, beforeColon: Bytes, slot: Slot)

  // ---------------------------------------------------------------- their bytes

  ghost function PieceText(p: Piece): (r: Bytes) {
    match p
    case Plain(c) => [c]
    case Short(c) => [0x5c, c]
    case Unicode(d) => [0x5c, 0x75] + d
  }

  ghost function PiecesText(ps: seq<Piece>): (r: Bytes) {
    if ps == [] then [] else PieceText(ps[0]) + PiecesText(ps[1..])
  }

  ghost function StringText(ps: seq<Piece>): (r: Bytes) {
    [0x22] + PiecesText(ps) + [0x22]
  }

  ghost function FractionText(f: Option<Bytes>): (r: Bytes) {
    match f
    case None => []
    case Some(digits) => [0x2e] + digits
  }

  ghost function ExponentText(e: Option<Exponent>): (r: Bytes) {
    match e
    case None => []
    case Some(x) => [x.mark] + x.sign + x.digits
  }

  ghost function NumberText(n: Numeral): (r: Bytes) {
    (if n.minus then [0x2d] else []) + n.digits + FractionText(n.fraction) + ExponentText(n.exponent)
  }

  ghost function DocText(d: Doc): (r: Bytes) {
    match d
    case NullDoc => [0x6e, 0x75, 0x6c, 0x6c]
    case BoolDoc(b) => if b then [0x74, 0x72, 0x75, 0x65] else [0x66, 0x61, 0x6c, 0x73, 0x65]
    case NumberDoc(n) => NumberText(n)
    case StringDoc(ps) => StringText(ps)
    case ArrayDoc(gap, slots) => [0x5b] + (if slots == [] then gap else SlotsText(slots)) + [0x5d]
    case ObjectDoc(gap, entries) => [0x7b] + (if entries == [] then gap else EntriesText(entries)) + [0x7d]
  }

  ghost function SlotText(s: Slot): (r: Bytes) {
    s.before + DocText(s.doc) + s.after
  }

  ghost function SlotsText(slots: seq<Slot>): (r: Bytes) {
    if slots == [] then []
    else SlotText(slots[0]) + if |slots| == 1 then [] else [0x2c] + SlotsText(slots[1..])
  }

  ghost function EntryText(e: Entry): (r: Bytes) {
    e.before + StringText(e.key) + e.beforeColon + [0x3a] + SlotText(e.slot)
  }

  ghost function EntriesText(entries: seq<Entry>): (r: Bytes) {
    if entries == [] then []
    else EntryText(entries[0]) + if |entries| == 1 then [] else [0x2c] + EntriesText(entries[1..])
  }

  // ---------------------------------------------------------------- which trees are texts

  ghost predicate White(b: Bytes) {
    forall i | 0 <= i < |b| :: b[i] == 0x20 || b[i] == 0x09 || b[i] == 0x0a || b[i] == 0x0d
  }

  ghost predicate Digits(b: Bytes) {
    b != [] && forall i | 0 <= i < |b| :: 0x30 <= b[i] <= 0x39
  }

  predicate Hexadecimal(c: Byte) {
    0x30 <= c <= 0x39 || 0x41 <= c <= 0x46 || 0x61 <= c <= 0x66
  }

  ghost predicate ValidPiece(p: Piece) {
    match p
    case Plain(c) => 0x20 <= c && c != 0x22 && c != 0x5c
    case Short(c) => c in [0x22, 0x5c, 0x2f, 0x62, 0x66, 0x6e, 0x72, 0x74]
    case Unicode(d) => |d| == 4 && forall i | 0 <= i < 4 :: Hexadecimal(d[i])
  }

  ghost predicate ValidPieces(ps: seq<Piece>) {
    forall i | 0 <= i < |ps| :: ValidPiece(ps[i])
  }

  ghost predicate ValidExponent(x: Exponent) {
    && (x.mark == 0x65 || x.mark == 0x45)
    && (x.sign == [] || x.sign == [0x2b] || x.sign == [0x2d])
    && Digits(x.digits)
  }

  ghost predicate ValidNumber(n: Numeral) {
    && Digits(n.digits) && (|n.digits| > 1 ==> n.digits[0] != 0x30)
    && (n.fraction.Some? ==> Digits(n.fraction.value))
    && (n.exponent.Some? ==> ValidExponent(n.exponent.value))
  }

  ghost predicate ValidDoc(d: Doc) {
    match d
    case NumberDoc(n) => ValidNumber(n)
    case StringDoc(ps) => ValidPieces(ps)
    case ArrayDoc(gap, slots) =>
      && White(gap)
      && forall i | 0 <= i < |slots| :: White(slots[i].before) && ValidDoc(slots[i].doc) && White(slots[i].after)
    case ObjectDoc(gap, entries) =>
      && White(gap)
      && forall i | 0 <= i < |entries| ::
           && White(entries[i].before) && ValidPieces(entries[i].key) && White(entries[i].beforeColon)
           && White(entries[i].slot.before) && ValidDoc(entries[i].slot.doc) && White(entries[i].slot.after)
    case _ => true
  }

  ghost predicate ValidSlot(s: Slot) {
    White(s.before) && ValidDoc(s.doc) && White(s.after)
  }

  ghost predicate ValidEntry(e: Entry) {
    White(e.before) && ValidPieces(e.key) && White(e.beforeColon) && ValidSlot(e.slot)
  }

  // ---------------------------------------------------------------- what they denote

  /** The byte a backslash and a letter stand for. */
  function ShortValue(c: Byte): (r: Byte) {
    match c
    case 0x62 => 0x08
    case 0x66 => 0x0c
    case 0x6e => 0x0a
    case 0x72 => 0x0d
    case 0x74 => 0x09
    case _ => c
  }

  /** The number of a \u escape. */
  ghost function Unit(p: Piece): (u: int)
    requires p.Unicode? && ValidPiece(p)
    ensures 0 <= u <= 0xffff
  {
    assert FourHex(p.digits);
    HexValue(p.digits)
  }

  /** The bytes of a string: a high surrogate and the low one right behind it make one
      code point, every other \u escape is a code point by itself. */
  ghost function PiecesValue(ps: seq<Piece>): (r: Bytes)
    requires ValidPieces(ps)
    decreases |ps|, 0
  {
    if ps == [] then []
    else
      match ps[0]
      case Plain(c) => [c] + PiecesValue(ps[1..])
      case Short(c) => [ShortValue(c)] + PiecesValue(ps[1..])
      case Unicode(_) => Pending(Unit(ps[0]), ps[1..])
  }

  /** The bytes of a \u escape and what follows it; of what follows only, for -1. */
  ghost function Pending(u: int, ps: seq<Piece>): (r: Bytes)
    requires ValidPieces(ps) && -1 <= u <= 0xffff
    decreases |ps|, 1
  {
    if 0xd800 <= u <= 0xdbff && ps != [] && ps[0].Unicode? && 0xdc00 <= Unit(ps[0]) <= 0xdfff
    then Utf8(0x10000 + (u - 0xd800) * 0x400 + (Unit(ps[0]) - 0xdc00)) + PiecesValue(ps[1..])
    else Utf8(u) + PiecesValue(ps)
  }

  /** An integer of at most nine characters is an integer; any other number is a double. */
  ghost function NumberDenoted(n: Numeral): (v: Number) {
    if n.fraction.None? && n.exponent.None? && |NumberText(n)| <= 9
    then IntNumber(if n.minus then -DecimalValue(n.digits) else DecimalValue(n.digits))
    else DoubleNumber(NumberText(n))
  }

  ghost function DocValue(d: Doc): (v: Json)
    requires ValidDoc(d)
  {
    match d
    case NullDoc => Null
    case BoolDoc(b) => Bool(b)
    case NumberDoc(n) => NumberValue(NumberDenoted(n))
    case StringDoc(ps) => Text(PiecesValue(ps))
    case ArrayDoc(_, slots) => Array(SlotsValue(slots))
    case ObjectDoc(_, entries) => Object(EntriesValue([], entries))
  }

  ghost function SlotValue(s: Slot): (v: Json)
    requires ValidSlot(s)
  {
    DocValue(s.doc)
  }

  ghost function SlotsValue(slots: seq<Slot>): (r: seq<Json>)
    requires forall i | 0 <= i < |slots| :: ValidSlot(slots[i])
  {
    if slots == [] then [] else [SlotValue(slots[0])] + SlotsValue(slots[1..])
  }

  ghost function EntryValue(e: Entry): (m: Member)
    requires ValidEntry(e)
  {
    Member(PiecesValue(e.key), SlotValue(e.slot))
  }

  ghost function EntriesValue(ms: seq<Member>, entries: seq<Entry>): (r: seq<Member>)
    requires forall i | 0 <= i < |entries| :: ValidEntry(entries[i])
    decreases entries
  {
    if entries == [] then ms else EntriesValue(Put(ms, EntryValue(entries[0])), entries[1..])
  }

  /** How deeply a text nests; an empty array or object adds nothing. */
  ghost function Nesting(d: Doc): (n: nat) {
    match d
    case ArrayDoc(_, slots) => if slots == [] then 0 else 1 + SlotsNesting(slots)
    case ObjectDoc(_, entries) => if entries == [] then 0 else 1 + EntriesNesting(entries)
    case _ => 0
  }

  ghost function SlotsNesting(slots: seq<Slot>): (n: nat) {
    if slots == [] then 0 else Max(Nesting(slots[0].doc), SlotsNesting(slots[1..]))
  }

  ghost function EntriesNesting(entries: seq<Entry>): (n: nat) {
    if entries == [] then 0 else Max(Nesting(entries[0].slot.doc), EntriesNesting(entries[1..]))
  }
}
