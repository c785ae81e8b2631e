/** What dump writes is a text of the grammar, so the parser reads it back, in any
    spacing (slave/util/json11.cpp). */
module JsonRoundTrip {
  import opened Wrappers
  import opened JsonText
  import opened JsonValues
  import opened JsonGrammar
  import opened JsonTokens
  import opened JsonLanguage

  // ---------------------------------------------------------------- strings

  /** A hexadecimal digit, in lower case. */
  ghost function Hex(n: Byte): (c: Byte)
    requires n < 16
  {
    if n < 10 then 0x30 + n as int else 0x61 + (n as int - 10)
  }

  /** The piece that dump writes for the bytes that lead a string: a short escape where
      there is one, \u for other control characters and for U+2028 and U+2029, and the
      byte itself otherwise. */
  ghost function PieceOf(s: Bytes): (p: Piece)
    requires s != []
  {
    match s[0]
    case 0x22 => Short(0x22)
    case 0x5c => Short(0x5c)
    case 0x08 => Short(0x62)
    case 0x0c => Short(0x66)
    case 0x0a => Short(0x6e)
    case 0x0d => Short(0x72)
    case 0x09 => Short(0x74)
    case c =>
      if c <= 0x1f then Unicode([0x30, 0x30, Hex(c / 16), Hex(c % 16)])
      else if [0xe2, 0x80, 0xa8] <= s then Unicode([0x32, 0x30, 0x32, 0x38])
      else if [0xe2, 0x80, 0xa9] <= s then Unicode([0x32, 0x30, 0x32, 0x39])
      else Plain(c)
  }

  ghost function PiecesOf(s: Bytes): (ps: seq<Piece>) {
    if s == [] then [] else [PieceOf(s)] + PiecesOf(s[EscapeWidth(s)..])
  }

  lemma PieceOfText(s: Bytes)
    requires s != []
    ensures ValidPiece(PieceOf(s)) && PieceText(PieceOf(s)) == EscapeFirst(s)
  {
    SeparatorIs(s);
  }

  lemma SeparatorIs(s: Bytes)
    ensures Separator(s) <==> [0xe2, 0x80, 0xa8] <= s || [0xe2, 0x80, 0xa9] <= s
    ensures [0xe2, 0x80, 0xa8] <= s ==> At(s, 2) == 0xa8
    ensures [0xe2, 0x80, 0xa9] <= s ==> At(s, 2) == 0xa9
  {
    if Separator(s) {
      assert s[..3] == [s[0], s[1], s[2]];
    }
  }

  lemma {:induction false} PiecesOfText(s: Bytes)
    ensures ValidPieces(PiecesOf(s)) && PiecesText(PiecesOf(s)) == Escaped(s)
    decreases |s|
  {
    hide PieceOf, EscapeFirst, PieceText, ValidPiece, EscapeWidth;
    if s != [] {
      PieceOfText(s);
      PiecesOfText(s[EscapeWidth(s)..]);
      var ps := PiecesOf(s);
      assert ps[1..] == PiecesOf(s[EscapeWidth(s)..]);
      EscapedCons(s);
    }
  }

  /** The pieces denote the string: both are what the parser reads. */
  lemma PiecesOfValue(s: Bytes)
    ensures ValidPieces(PiecesOf(s)) && PiecesText(PiecesOf(s)) == Escaped(s) && PiecesValue(PiecesOf(s)) == s
  {
    hide PiecesOf, PiecesText, PiecesValue, ReadString, Escaped, Pending, Utf8, ValidPiece;
    PiecesOfText(s);
    PiecesRead(PiecesOf(s), [], -1, []);
    NothingPending(PiecesOf(s));
    EscapedStringReads(s, [], -1, []);
    NoCodePoint();
    assert [] + [] + s == s && [] + PiecesValue(PiecesOf(s)) == PiecesValue(PiecesOf(s));
  }

  // ---------------------------------------------------------------- the text dump writes

  /** The text of the grammar that dump writes for a value. */
  ghost function DocOf(v: Json): (d: Doc)
    requires Dumpable(v)
  {
    match v
    case Null => NullDoc
    case Bool(b) => BoolDoc(b)
    case Int(n) => NumberDoc(Numeral(n < 0, DigitText(if n < 0 then -n else n), None, None))
    case Text(s) => StringDoc(PiecesOf(s))
    case Array(items) => ArrayDoc([], SlotsOf(items, []))
    case Object(ms) => ObjectDoc([], EntriesOf(ms, []))
  }

  ghost function SlotsOf(items: seq<Json>, before: Bytes): (slots: seq<Slot>)
    requires forall i | 0 <= i < |items| :: Dumpable(items[i])
    ensures |slots| == |items|
  {
    if items == [] then [] else [Slot(before, DocOf(items[0]), [])] + SlotsOf(items[1..], [0x20])
  }

  ghost function EntriesOf(ms: seq<Member>, before: Bytes): (entries: seq<Entry>)
    requires forall i | 0 <= i < |ms| :: Dumpable(ms[i].value)
    ensures |entries| == |ms|
  {
    if ms == [] then []
    else [Entry(before, PiecesOf(ms[0].key), [], Slot([0x20], DocOf(ms[0].value), []))] + EntriesOf(ms[1..], [0x20])
  }

  /** What is proved of it: it is valid, it is the dump, it nests like the value, and it
      denotes the value read back. */
  ghost predicate Writes(d: Doc, v: Json)
    requires Dumpable(v)
  {
    ValidDoc(d) && DocText(d) == Dump(v) && Nesting(d) == Depth(v) && (KeysSorted(v) ==> DocValue(d) == Reread(v))
  }

  lemma {:induction false} DocOfWrites(v: Json)
    requires Dumpable(v)
    ensures Writes(DocOf(v), v)
    decreases v, 0
  {
    match v
    case Null =>
    case Bool(_) =>
    case Int(n) => IntWrites(n);
    case Text(s) => TextWrites(s);
    case Array(items) =>
      if items != [] {
        SlotsOfWrite(items, []);
        ArrayWrites(items);
      }
    case Object(ms) =>
      if ms != [] {
        EntriesOfWrite(ms, []);
        ObjectWrites(ms);
      }
  }

  lemma IntWrites(n: int)
    ensures Writes(DocOf(Int(n)), Int(n))
  {
    hide DigitText, DecimalValue;
    var digits := DigitText(if n < 0 then -n else n);
    DigitTextFacts(if n < 0 then -n else n);
    if n == 0 {
      ZeroText();
    }
    var text := NumberText(Numeral(n < 0, digits, None, None));
    assert text == IntText(n);
  }

  lemma TextWrites(s: Bytes)
    ensures Writes(DocOf(Text(s)), Text(s))
  {
    hide PiecesOf, PiecesText, PiecesValue, Escaped, ValidPieces;
    PiecesOfValue(s);
  }

  lemma {:induction false} SlotsOfWrite(items: seq<Json>, before: Bytes)
    requires items != [] && White(before) && forall i | 0 <= i < |items| :: Dumpable(items[i])
    ensures var slots := SlotsOf(items, before);
            && (forall i | 0 <= i < |slots| :: ValidSlot(slots[i]))
            && SlotsText(slots) == before + (Dump(items[0]) + DumpItems(items[1..]))
            && SlotsNesting(slots) == ItemsDepth(items)
            && ((forall i | 0 <= i < |items| :: KeysSorted(items[i])) ==> SlotsValue(slots) == RereadItems(items))
    decreases items, 1
  {
    hide Dump, DocText, Dumpable, KeysSorted, Nesting, Depth, DocOf, ValidDoc, DocValue, Reread;
    DocOfWrites(items[0]);
    var slots := SlotsOf(items, before);
    assert slots[1..] == SlotsOf(items[1..], [0x20]);
    var d := Dump(items[0]);
    assert before + d + [] == before + d;
    if |items| == 1 {
      assert before + d + [] == before + (d + []);
    } else {
      SlotsOfWrite(items[1..], [0x20]);
      MoreItems(items);
      Regroup(before, d, DumpItems(items[1..]));
    }
  }

  lemma MoreItems(items: seq<Json>)
    requires |items| > 1 && forall i | 0 <= i < |items| :: Dumpable(items[i])
    ensures DumpItems(items[1..]) == [0x2c] + ([0x20] + (Dump(items[1..][0]) + DumpItems(items[1..][1..])))
  {
    hide Dump, Dumpable;
  }

  lemma ArrayWrites(items: seq<Json>)
    requires items != [] && Dumpable(Array(items))
    requires var slots := SlotsOf(items, []);
             && (forall i | 0 <= i < |slots| :: ValidSlot(slots[i]))
             && SlotsText(slots) == [] + (Dump(items[0]) + DumpItems(items[1..]))
             && SlotsNesting(slots) == ItemsDepth(items)
             && ((forall i | 0 <= i < |items| :: KeysSorted(items[i])) ==> SlotsValue(slots) == RereadItems(items))
    ensures Writes(DocOf(Array(items)), Array(items))
  {
    hide SlotsText, DumpItems, SlotsValue, RereadItems, SlotsNesting, ItemsDepth, SlotsOf;
    Regroup([0x5b], Dump(items[0]), DumpItems(items[1..]));
    assert [] + (Dump(items[0]) + DumpItems(items[1..])) == Dump(items[0]) + DumpItems(items[1..]);
  }

  lemma {:induction false} EntriesOfWrite(ms: seq<Member>, before: Bytes)
    requires ms != [] && White(before) && forall i | 0 <= i < |ms| :: Dumpable(ms[i].value)
    ensures var entries := EntriesOf(ms, before);
            && (forall i | 0 <= i < |entries| :: ValidEntry(entries[i]))
            && EntriesText(entries) == before + (DumpMember(ms[0]) + DumpMembers(ms[1..]))
            && EntriesNesting(entries) == MembersDepth(ms)
    decreases ms, 1
  {
    hide Dump, DocText, Dumpable, Nesting, Depth, DocOf, ValidDoc, PiecesOf, PiecesText, Escaped, ValidPieces;
    DocOfWrites(ms[0].value);
    PiecesOfValue(ms[0].key);
    var entries := EntriesOf(ms, before);
    assert entries[1..] == EntriesOf(ms[1..], [0x20]);
    EntryWrites(ms[0], before);
    if |ms| == 1 {
      assert before + DumpMember(ms[0]) + [] == before + (DumpMember(ms[0]) + []);
    } else {
      EntriesOfWrite(ms[1..], [0x20]);
      MoreMembers(ms);
      Regroup(before, DumpMember(ms[0]), DumpMembers(ms[1..]));
    }
  }

  lemma EntryWrites(m: Member, before: Bytes)
    requires Dumpable(m.value) && DocText(DocOf(m.value)) == Dump(m.value) && PiecesText(PiecesOf(m.key)) == Escaped(m.key)
    ensures EntryText(Entry(before, PiecesOf(m.key), [], Slot([0x20], DocOf(m.value), []))) == before + DumpMember(m)
  {
    hide Dump, DocText, DocOf, PiecesOf, PiecesText, Escaped, Dumpable;
    var (k, d) := (Quoted(m.key), Dump(m.value));
    assert before + k + [] + [0x3a] + ([0x20] + d + []) == before + (k + [0x3a, 0x20] + d);
  }

  lemma MoreMembers(ms: seq<Member>)
    requires |ms| > 1 && forall i | 0 <= i < |ms| :: Dumpable(ms[i].value)
    ensures DumpMembers(ms[1..]) == [0x2c] + ([0x20] + (DumpMember(ms[1..][0]) + DumpMembers(ms[1..][1..])))
  {
    hide DumpMember, Dumpable;
  }

  /** Keys in order are filed one behind the other. */
  lemma {:induction false} EntriesOfValue(ms: seq<Member>, before: Bytes, acc: seq<Member>)
    requires Sorted(ms) && forall i | 0 <= i < |ms| :: Dumpable(ms[i].value) && KeysSorted(ms[i].value)
    requires acc != [] && ms != [] ==> Less(acc[|acc| - 1].key, ms[0].key)
    requires forall i | 0 <= i < |ms| :: ValidEntry(EntriesOf(ms, before)[i])
    ensures EntriesValue(acc, EntriesOf(ms, before)) == acc + RereadMembers(ms)
    decreases ms, 1
  {
    hide Dumpable, KeysSorted, DocOf, Writes, EntryValue, ValidEntry, EntriesOf, Reread, Less, Put;
    if ms == [] {
      assert acc + RereadMembers(ms) == acc;
    } else {
      var entries := EntriesOf(ms, before);
      DocOfWrites(ms[0].value);
      FirstEntryOf(ms, before);
      var m := Member(ms[0].key, Reread(ms[0].value));
      PutLast(acc, m);
      forall i | 0 <= i < |ms[1..]|
        ensures ValidEntry(EntriesOf(ms[1..], [0x20])[i])
      {
        assert EntriesOf(ms[1..], [0x20])[i] == entries[i + 1];
      }
      EntriesOfValue(ms[1..], [0x20], acc + [m]);
      Regroup(acc, [m], RereadMembers(ms[1..]));
    }
  }

  lemma FirstEntryOf(ms: seq<Member>, before: Bytes)
    requires ms != [] && (forall i | 0 <= i < |ms| :: Dumpable(ms[i].value)) && KeysSorted(ms[0].value)
    requires Writes(DocOf(ms[0].value), ms[0].value) && ValidEntry(EntriesOf(ms, before)[0])
    ensures EntriesOf(ms, before)[1..] == EntriesOf(ms[1..], [0x20])
    ensures EntryValue(EntriesOf(ms, before)[0]) == Member(ms[0].key, Reread(ms[0].value))
  {
    hide Dumpable, KeysSorted, DocOf, ValidDoc, DocValue, Reread, PiecesOf, PiecesValue, ValidPieces, DocText, White;
    PiecesOfValue(ms[0].key);
  }

  lemma PutLast(acc: seq<Member>, m: Member)
    requires acc != [] ==> Less(acc[|acc| - 1].key, m.key)
    ensures Put(acc, m) == acc + [m]
  {
    hide Less;
  }

  lemma {:induction false} ObjectWrites(ms: seq<Member>)
    requires ms != [] && Dumpable(Object(ms))
    requires var entries := EntriesOf(ms, []);
             && (forall i | 0 <= i < |entries| :: ValidEntry(entries[i]))
             && EntriesText(entries) == [] + (DumpMember(ms[0]) + DumpMembers(ms[1..]))
             && EntriesNesting(entries) == MembersDepth(ms)
    ensures Writes(DocOf(Object(ms)), Object(ms))
    decreases ms, 2
  {
    hide EntriesText, DumpMembers, DumpMember, EntriesValue, RereadMembers, EntriesNesting, MembersDepth, EntriesOf;
    Regroup([0x7b], DumpMember(ms[0]), DumpMembers(ms[1..]));
    assert [] + (DumpMember(ms[0]) + DumpMembers(ms[1..])) == DumpMember(ms[0]) + DumpMembers(ms[1..]);
    if KeysSorted(Object(ms)) {
      EntriesOfValue(ms, [], []);
      assert [] + RereadMembers(ms) == RereadMembers(ms);
    }
  }

  // ---------------------------------------------------------------- parse after dump

  /** Reading a dumped value at a depth, before text that cannot extend it. */
  lemma DumpParses(v: Json, depth: nat, rest: Bytes)
    requires Dumpable(v) && KeysSorted(v) && Delimited(rest)
    ensures ParseValue(Dump(v) + rest, depth) == Outcome(depth + Depth(v) <= MAX_DEPTH, Reread(v), rest)
  {
    hide ParseValue, Dump, DocText, DocOf, DocValue, Reread, ValidDoc, Nesting, Depth, Dumpable, KeysSorted;
    DocOfWrites(v);
    DocParses(DocOf(v), depth, rest);
  }

  /** Parsing the dump of a value fails exactly when it is nested too deeply. */
  lemma ParseDump(v: Json)
    requires Dumpable(v) && KeysSorted(v)
    ensures Parse(Dump(v)) == if Depth(v) <= MAX_DEPTH then Ok(Reread(v)) else Err(TooDeep)
  {
    hide ParseValue, Dump, Dumpable, KeysSorted;
    DumpParses(v, 0, []);
    assert Dump(v) + [] == Dump(v);
  }

  // ---------------------------------------------------------------- other spacing

  /** The text without its white space. */
  ghost function Bare(d: Doc): (r: Doc) {
    match d
    case ArrayDoc(_, slots) => ArrayDoc([], BareSlots(slots))
    case ObjectDoc(_, entries) => ObjectDoc([], BareEntries(entries))
    case _ => d
  }

  ghost function BareSlots(slots: seq<Slot>): (r: seq<Slot>)
    ensures |r| == |slots|
  {
    if slots == [] then [] else [Slot([], Bare(slots[0].doc), [])] + BareSlots(slots[1..])
  }

  ghost function BareEntries(entries: seq<Entry>): (r: seq<Entry>)
    ensures |r| == |entries|
  {
    if entries == [] then []
    else [Entry([], entries[0].key, [], Slot([], Bare(entries[0].slot.doc), []))] + BareEntries(entries[1..])
  }

  lemma {:induction false} BareKeeps(d: Doc)
    requires ValidDoc(d)
    ensures ValidDoc(Bare(d)) && DocValue(Bare(d)) == DocValue(d) && Nesting(Bare(d)) == Nesting(d)
    decreases d, 0
  {
    match d
    case ArrayDoc(_, slots) => BareSlotsKeep(slots);
    case ObjectDoc(_, entries) => BareEntriesKeep(entries, []);
    case _ =>
  }

  lemma {:induction false} BareSlotsKeep(slots: seq<Slot>)
    requires forall i | 0 <= i < |slots| :: ValidSlot(slots[i])
    ensures var r := BareSlots(slots);
            && (forall i | 0 <= i < |r| :: ValidSlot(r[i]))
            && SlotsValue(r) == SlotsValue(slots) && SlotsNesting(r) == SlotsNesting(slots)
    decreases slots, 1
  {
    hide ValidDoc, DocValue, Nesting, Bare;
    if slots != [] {
      BareKeeps(slots[0].doc);
      BareSlotsKeep(slots[1..]);
      assert BareSlots(slots)[1..] == BareSlots(slots[1..]);
    }
  }

  lemma {:induction false} BareEntriesKeep(entries: seq<Entry>, ms: seq<Member>)
    requires forall i | 0 <= i < |entries| :: ValidEntry(entries[i])
    ensures var r := BareEntries(entries);
            && (forall i | 0 <= i < |r| :: ValidEntry(r[i]))
            && EntriesValue(ms, r) == EntriesValue(ms, entries) && EntriesNesting(r) == EntriesNesting(entries)
    decreases entries, 1
  {
    hide ValidDoc, DocValue, Nesting, Bare, Put, ValidPieces, PiecesValue;
    if entries != [] {
      BareKeeps(entries[0].slot.doc);
      BareEntriesKeep(entries[1..], Put(ms, EntryValue(entries[0])));
      var r := BareEntries(entries);
      assert r[1..] == BareEntries(entries[1..]) && EntryValue(r[0]) == EntryValue(entries[0]);
    }
  }

  /** Any strings of spaces, tabs, line feeds and carriage returns around the tokens of a
      dumped value, in place of those dump writes, leave what it parses to. */
  lemma RespacedDump(v: Json, slot: Slot)
    requires Dumpable(v) && ValidSlot(slot) && Bare(slot.doc) == Bare(DocOf(v))
    ensures Parse(SlotText(slot)) == Parse(Dump(v))
  {
    hide Parse, Dump, DocText, DocOf, DocValue, ValidDoc, Nesting, Dumpable, Bare, White, Depth, KeysSorted, Reread;
    DocOfWrites(v);
    BareKeeps(slot.doc);
    BareKeeps(DocOf(v));
    SlotParses(slot);
    WhiteNothing();
    SlotParses(Slot([], DocOf(v), []));
    assert [] + Dump(v) + [] == Dump(v);
  }
}
