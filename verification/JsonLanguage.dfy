/** The parser accepts exactly the texts of the grammar nested at most 200 deep, and
    yields what they denote (slave/util/json11.cpp). */
module JsonLanguage {
  import opened Wrappers
  import opened JsonText
  import opened JsonValues
  import opened JsonGrammar
  import opened JsonTokens

  // ---------------------------------------------------------------- white space

  lemma {:induction false} SkipWhite(b: Bytes, s: Bytes)
    requires White(b) && (s == [] || !Blank(s[0]))
    ensures Skip(b + s) == s
  {
    if b == [] {
      assert b + s == s;
    } else {
      assert (b + s)[1..] == b[1..] + s;
      SkipWhite(b[1..], s);
    }
  }

  lemma SkipNothing(s: Bytes)
    requires s == [] || !Blank(s[0])
    ensures Skip(s) == s
  {
  }

  lemma {:induction false} SkipDivides(s: Bytes) returns (b: Bytes)
    ensures White(b) && s == b + Skip(s) && (Skip(s) == [] || !Blank(Skip(s)[0]))
  {
    if s != [] && Blank(s[0]) {
      b := SkipDivides(s[1..]);
      b := [s[0]] + b;
      assert s == [s[0]] + s[1..];
    } else {
      b := [];
    }
  }

  lemma ParseAfterWhite(b: Bytes, s: Bytes, depth: nat)
    requires White(b) && s != [] && !Blank(s[0])
    ensures ParseValue(b + s, depth) == ParseValue(s, depth)
  {
    hide ParseArray, ParseObject, ParseScalar, Skip, White;
    SkipWhite(b, s);
    SkipNothing(s);
  }

  // ---------------------------------------------------------------- scalars

  /** The outcome of reading a text at some depth. */
  ghost function Outcome<T>(fits: bool, v: T, rest: Bytes): (r: Parsed<T>) {
    if fits then Ok((v, rest)) else Err(TooDeep)
  }

  predicate DocStops(d: Doc, rest: Bytes) {
    d.NumberDoc? ==> Stops(d.number, rest)
  }

  /** A text starts with a byte that is neither blank nor a closing mark. */
  lemma DocStarts(d: Doc, rest: Bytes)
    requires ValidDoc(d)
    ensures var s := DocText(d) + rest;
            s != [] && !Blank(s[0]) && s[0] != RBRACKET && s[0] != RBRACE
  {
    hide SlotsText, EntriesText, PiecesText, FractionText, ExponentText;
    if d.NumberDoc? {
      assert DocText(d)[0] == if d.number.minus then 0x2d else d.number.digits[0];
    }
  }

  lemma ScalarParses(d: Doc, depth: nat, rest: Bytes)
    requires ValidDoc(d) && !d.ArrayDoc? && !d.ObjectDoc? && DocStops(d, rest) && depth <= MAX_DEPTH
    ensures ParseValue(DocText(d) + rest, depth) == Ok((DocValue(d), rest))
  {
    hide NumberText, PiecesText, ReadNumber, ReadString, Skip, PiecesValue, NumberDenoted, ValidNumber, ValidPieces;
    var s := DocText(d) + rest;
    DocStarts(d, rest);
    SkipNothing(s);
    match d
    case NullDoc => SplitAtEnd(NULL_TEXT, rest);
    case BoolDoc(b) => SplitAtEnd(if b then TRUE_TEXT else FALSE_TEXT, rest);
    case NumberDoc(n) =>
      NumberReads(n, rest);
      NumberStarts(n, rest);
    case StringDoc(ps) => StringReads(ps, rest);
  }

  lemma NumberStarts(n: Numeral, rest: Bytes)
    requires ValidNumber(n)
    ensures var s := NumberText(n) + rest; s != [] && (s[0] == MINUS || Digit(s[0]))
  {
    hide FractionText, ExponentText;
    assert NumberText(n)[0] == if n.minus then 0x2d else n.digits[0];
  }

  lemma StringReads(ps: seq<Piece>, rest: Bytes)
    requires ValidPieces(ps)
    ensures var s := StringText(ps) + rest;
            s != [] && s[0] == QUOTE && ReadString(s[1..], [], -1) == Ok((PiecesValue(ps), rest))
  {
    hide PiecesText, ReadString, PiecesValue, Pending;
    var s := StringText(ps) + rest;
    assert s[1..] == PiecesText(ps) + ([0x22] + rest);
    PiecesRead(ps, [], -1, rest);
    NothingPending(ps);
    assert [] + PiecesValue(ps) == PiecesValue(ps);
  }

  // ---------------------------------------------------------------- arrays

  lemma EmptyArray(gap: Bytes, depth: nat, rest: Bytes)
    requires White(gap) && depth <= MAX_DEPTH
    ensures ParseValue([0x5b] + gap + [0x5d] + rest, depth) == Ok((Array([]), rest))
  {
    hide Skip, ParseItems, White;
    var s := [0x5b] + gap + [0x5d] + rest;
    SkipNothing(s);
    assert s[1..] == gap + ([0x5d] + rest);
    SkipWhite(gap, [0x5d] + rest);
    assert ([0x5d] + rest)[1..] == rest;
  }

  lemma OpenArray(x: Bytes, depth: nat)
    requires depth <= MAX_DEPTH && Skip(x) != [] && Skip(x)[0] != RBRACKET
    ensures ParseValue([0x5b] + x, depth) == ParseItems(Skip(x), depth, [])
  {
    hide ParseItems, Skip;
    SkipNothing([0x5b] + x);
    assert ([0x5b] + x)[1..] == x;
  }

  /** What follows the first slot, up to and with the closing bracket. */
  ghost function AfterSlot(slots: seq<Slot>, close: Bytes): (r: Bytes)
    requires slots != []
  {
    slots[0].after + if |slots| == 1 then close else [0x2c] + (SlotsText(slots[1..]) + close)
  }

  lemma SlotsFirst(slots: seq<Slot>, close: Bytes)
    requires slots != []
    ensures SlotsText(slots) + close == slots[0].before + (DocText(slots[0].doc) + AfterSlot(slots, close))
  {
    hide DocText;
    var s := slots[0];
    var more := if |slots| == 1 then [] else [0x2c] + SlotsText(slots[1..]);
    assert SlotsText(slots) == s.before + DocText(s.doc) + s.after + more;
    if |slots| > 1 {
      Regroup([0x2c], SlotsText(slots[1..]), close);
    } else {
      assert more + close == close;
    }
    hide SlotsText;
    Regroup(s.before + DocText(s.doc) + s.after, more, close);
    Regroup(s.before + DocText(s.doc), s.after, more + close);
    Regroup(s.before, DocText(s.doc), s.after + (more + close));
  }

  lemma SlotsSkip(slots: seq<Slot>, close: Bytes)
    requires slots != [] && ValidSlot(slots[0])
    ensures var t := DocText(slots[0].doc) + AfterSlot(slots, close);
            Skip(SlotsText(slots) + close) == t && t != [] && t[0] != RBRACKET
  {
    hide DocText, SlotsText, AfterSlot, Skip, ValidDoc, White;
    SlotsFirst(slots, close);
    DocStarts(slots[0].doc, AfterSlot(slots, close));
    SkipWhite(slots[0].before, DocText(slots[0].doc) + AfterSlot(slots, close));
  }

  /** Behind white space a comma or closing mark follows, so no number goes on. */
  lemma MarkStops(d: Doc, white: Bytes, rest: Bytes)
    requires White(white) && rest != [] && rest[0] in [0x2c, 0x5d, 0x7d]
    ensures DocStops(d, white + rest) && Skip(white + rest) == rest
  {
    SkipWhite(white, rest);
    assert (white + rest)[0] == if white == [] then rest[0] else white[0];
  }

  lemma LastItem(s: Bytes, depth: nat, acc: seq<Json>, v: Json, after: Bytes, rest: Bytes)
    requires ParseValue(s, depth + 1) == Ok((v, after)) && Skip(after) == [0x5d] + rest
    ensures ParseItems(s, depth, acc) == Ok((Array(acc + [v]), rest))
  {
    hide ParseValue, Skip;
    assert ([0x5d] + rest)[1..] == rest;
  }

  lemma NextItem(s: Bytes, depth: nat, acc: seq<Json>, v: Json, after: Bytes, x: Bytes)
    requires ParseValue(s, depth + 1) == Ok((v, after)) && Skip(after) == [0x2c] + x && Skip(x) != []
    ensures ParseItems(s, depth, acc) == ParseItems(Skip(x), depth, acc + [v])
  {
    hide ParseValue, Skip;
    assert ([0x2c] + x)[1..] == x;
  }

  lemma FailedItem(s: Bytes, depth: nat, acc: seq<Json>)
    requires ParseValue(s, depth + 1) == Err(TooDeep)
    ensures ParseItems(s, depth, acc) == Err(TooDeep)
  {
    hide ParseValue;
  }

  lemma SlotsValueCons(slots: seq<Slot>, acc: seq<Json>)
    requires slots != [] && forall i | 0 <= i < |slots| :: ValidSlot(slots[i])
    ensures acc + SlotsValue(slots) == acc + [SlotValue(slots[0])] + SlotsValue(slots[1..])
    ensures |slots| == 1 ==> acc + SlotsValue(slots) == acc + [SlotValue(slots[0])]
    ensures SlotsNesting(slots) == Max(Nesting(slots[0].doc), SlotsNesting(slots[1..]))
  {
    hide SlotValue, ValidSlot, Nesting;
    Regroup(acc, [SlotValue(slots[0])], SlotsValue(slots[1..]));
    assert |slots| == 1 ==> SlotsValue(slots[1..]) == [];
  }

  lemma {:induction false} ItemsParse(slots: seq<Slot>, depth: nat, acc: seq<Json>, rest: Bytes)
    requires slots != [] && forall i | 0 <= i < |slots| :: ValidSlot(slots[i])
    ensures ParseItems(Skip(SlotsText(slots) + ([0x5d] + rest)), depth, acc) ==
            Outcome(depth + 1 + SlotsNesting(slots) <= MAX_DEPTH, Array(acc + SlotsValue(slots)), rest)
    decreases slots
  {
    hide ParseValue, ParseItems, DocText, SlotsText, SlotsValue, SlotsNesting, Nesting, Skip, ValidDoc, White, DocValue;
    var close := [0x5d] + rest;
    var d, after := slots[0].doc, AfterSlot(slots, close);
    var s := DocText(d) + after;
    SlotsSkip(slots, close);
    SlotsValueCons(slots, acc);
    if |slots| == 1 {
      MarkStops(d, slots[0].after, close);
      DocParses(d, depth + 1, after);
      NoMore(slots);
      if depth + 1 + Nesting(d) <= MAX_DEPTH {
        LastItem(s, depth, acc, SlotValue(slots[0]), after, rest);
      } else {
        FailedItem(s, depth, acc);
      }
    } else {
      var x := SlotsText(slots[1..]) + close;
      MarkStops(d, slots[0].after, [0x2c] + x);
      DocParses(d, depth + 1, after);
      if depth + 1 + Nesting(d) <= MAX_DEPTH {
        SlotsSkip(slots[1..], close);
        NextItem(s, depth, acc, SlotValue(slots[0]), after, x);
        ItemsParse(slots[1..], depth, acc + [SlotValue(slots[0])], rest);
      } else {
        FailedItem(s, depth, acc);
      }
    }
  }

  lemma NoMore(slots: seq<Slot>)
    requires |slots| == 1
    ensures SlotsNesting(slots[1..]) == 0
  {
  }

  // ---------------------------------------------------------------- objects

  lemma EmptyObject(gap: Bytes, depth: nat, rest: Bytes)
    requires White(gap) && depth <= MAX_DEPTH
    ensures ParseValue([0x7b] + gap + [0x7d] + rest, depth) == Ok((Object([]), rest))
  {
    hide Skip, ParseMembers, White;
    var s := [0x7b] + gap + [0x7d] + rest;
    SkipNothing(s);
    assert s[1..] == gap + ([0x7d] + rest);
    SkipWhite(gap, [0x7d] + rest);
    assert ([0x7d] + rest)[1..] == rest;
  }

  lemma OpenObject(x: Bytes, depth: nat)
    requires depth <= MAX_DEPTH && Skip(x) != [] && Skip(x)[0] != RBRACE
    ensures ParseValue([0x7b] + x, depth) == ParseMembers(Skip(x), depth, [])
  {
    hide ParseMembers, Skip;
    SkipNothing([0x7b] + x);
    assert ([0x7b] + x)[1..] == x;
  }

  /** What follows the value of the first entry, up to and with the closing brace. */
  ghost function AfterEntry(entries: seq<Entry>, close: Bytes): (r: Bytes)
    requires entries != []
  {
    entries[0].slot.after + if |entries| == 1 then close else [0x2c] + (EntriesText(entries[1..]) + close)
  }

  /** The first entry without leading white space, and what follows it. */
  ghost function EntryRest(e: Entry, after: Bytes): (r: Bytes) {
    StringText(e.key) + (e.beforeColon + ([0x3a] + (e.slot.before + (DocText(e.slot.doc) + after))))
  }

  lemma EntriesFirst(entries: seq<Entry>, close: Bytes)
    requires entries != []
    ensures EntriesText(entries) + close == entries[0].before + EntryRest(entries[0], AfterEntry(entries, close))
  {
    hide DocText, StringText;
    var e := entries[0];
    var more := if |entries| == 1 then [] else [0x2c] + EntriesText(entries[1..]);
    assert EntriesText(entries) == EntryText(e) + more;
    if |entries| > 1 {
      Regroup([0x2c], EntriesText(entries[1..]), close);
    } else {
      assert more + close == close;
    }
    hide EntriesText;
    Regroup(EntryText(e), more, close);
    EntryPieces(e, more + close);
  }

  lemma EntryPieces(e: Entry, tail: Bytes)
    ensures EntryText(e) + tail == e.before + EntryRest(e, e.slot.after + tail)
  {
    hide DocText, StringText;
    var (k, c, s) := (StringText(e.key), e.beforeColon, e.slot);
    var d := DocText(s.doc);
    Regroup(e.before + k + c + [0x3a], s.before + d + s.after, tail);
    Regroup(s.before + d, s.after, tail);
    Regroup(s.before, d, s.after + tail);
    var value := s.before + (d + (s.after + tail));
    Regroup(e.before + k + c, [0x3a], value);
    Regroup(e.before + k, c, [0x3a] + value);
    Regroup(e.before, k, c + ([0x3a] + value));
  }

  lemma EntriesSkip(entries: seq<Entry>, close: Bytes)
    requires entries != [] && ValidEntry(entries[0])
    ensures var t := EntryRest(entries[0], AfterEntry(entries, close));
            Skip(EntriesText(entries) + close) == t && t != [] && t[0] == 0x22
  {
    hide DocText, EntriesText, AfterEntry, Skip, ValidSlot, White, PiecesText;
    var t := EntryRest(entries[0], AfterEntry(entries, close));
    EntriesFirst(entries, close);
    assert t[0] == StringText(entries[0].key)[0];
    SkipWhite(entries[0].before, t);
  }

  lemma MemberParses(e: Entry, depth: nat, after: Bytes)
    requires ValidEntry(e) && DocStops(e.slot.doc, after)
    ensures var s := EntryRest(e, after);
            s != [] && ParseMember(s, depth) == Outcome(depth + 1 + Nesting(e.slot.doc) <= MAX_DEPTH, EntryValue(e), after)
    decreases e, 1
  {
    hide ParseValue, DocText, StringText, Nesting, Skip, White, PiecesValue, ReadString, ValidDoc, DocValue;
    var s := EntryRest(e, after);
    var d := e.slot.doc;
    var value := e.slot.before + (DocText(d) + after);
    StringReads(e.key, e.beforeColon + ([0x3a] + value));
    SkipWhite(e.beforeColon, [0x3a] + value);
    assert ([0x3a] + value)[1..] == value;
    DocStarts(d, after);
    ParseAfterWhite(e.slot.before, DocText(d) + after, depth + 1);
    DocParses(d, depth + 1, after);
  }

  lemma LastMember(s: Bytes, depth: nat, ms: seq<Member>, m: Member, after: Bytes, rest: Bytes)
    requires s != [] && ParseMember(s, depth) == Ok((m, after)) && Skip(after) == [0x7d] + rest
    ensures ParseMembers(s, depth, ms) == Ok((Object(Put(ms, m)), rest))
  {
    hide ParseMember, Skip, Put;
    assert ([0x7d] + rest)[1..] == rest;
  }

  lemma NextMember(s: Bytes, depth: nat, ms: seq<Member>, m: Member, after: Bytes, x: Bytes)
    requires s != [] && ParseMember(s, depth) == Ok((m, after)) && Skip(after) == [0x2c] + x && Skip(x) != []
    ensures ParseMembers(s, depth, ms) == ParseMembers(Skip(x), depth, Put(ms, m))
  {
    hide ParseMember, Skip, Put;
    assert ([0x2c] + x)[1..] == x;
  }

  lemma FailedMember(s: Bytes, depth: nat, ms: seq<Member>)
    requires s != [] && ParseMember(s, depth) == Err(TooDeep)
    ensures ParseMembers(s, depth, ms) == Err(TooDeep)
  {
    hide ParseMember;
  }

  lemma EntriesValueCons(ms: seq<Member>, entries: seq<Entry>)
    requires entries != [] && forall i | 0 <= i < |entries| :: ValidEntry(entries[i])
    ensures EntriesValue(ms, entries) == EntriesValue(Put(ms, EntryValue(entries[0])), entries[1..])
    ensures |entries| == 1 ==> EntriesValue(ms, entries) == Put(ms, EntryValue(entries[0]))
    ensures EntriesNesting(entries) == Max(Nesting(entries[0].slot.doc), EntriesNesting(entries[1..]))
    ensures |entries| == 1 ==> EntriesNesting(entries[1..]) == 0
  {
    hide EntryValue, ValidEntry, Nesting, Put;
  }

  lemma {:induction false} MembersParse(entries: seq<Entry>, depth: nat, ms: seq<Member>, rest: Bytes)
    requires entries != [] && forall i | 0 <= i < |entries| :: ValidEntry(entries[i])
    ensures var s := Skip(EntriesText(entries) + ([0x7d] + rest));
            && s != []
            && ParseMembers(s, depth, ms) ==
               Outcome(depth + 1 + EntriesNesting(entries) <= MAX_DEPTH, Object(EntriesValue(ms, entries)), rest)
    decreases entries
  {
    hide ParseMember, ParseMembers, DocText, EntriesText, EntriesValue, EntriesNesting, Nesting, Skip, ValidDoc, White,
      DocValue, EntryRest, EntryValue, Put;
    var close := [0x7d] + rest;
    var e, after := entries[0], AfterEntry(entries, close);
    var s := EntryRest(e, after);
    EntriesSkip(entries, close);
    EntriesValueCons(ms, entries);
    if |entries| == 1 {
      MarkStops(e.slot.doc, e.slot.after, close);
      MemberParses(e, depth, after);
      if depth + 1 + Nesting(e.slot.doc) <= MAX_DEPTH {
        LastMember(s, depth, ms, EntryValue(e), after, rest);
      } else {
        FailedMember(s, depth, ms);
      }
    } else {
      var x := EntriesText(entries[1..]) + close;
      MarkStops(e.slot.doc, e.slot.after, [0x2c] + x);
      MemberParses(e, depth, after);
      if depth + 1 + Nesting(e.slot.doc) <= MAX_DEPTH {
        EntriesSkip(entries[1..], close);
        NextMember(s, depth, ms, EntryValue(e), after, x);
        MembersParse(entries[1..], depth, Put(ms, EntryValue(e)), rest);
      } else {
        FailedMember(s, depth, ms);
      }
    }
  }

  // ---------------------------------------------------------------- every text of the grammar is read

  lemma DeepFails(s: Bytes, depth: nat)
    requires depth > MAX_DEPTH
    ensures ParseValue(s, depth) == Err(TooDeep)
  {
  }

  lemma ArrayPieces(slots: seq<Slot>, rest: Bytes)
    requires slots != []
    ensures DocText(ArrayDoc([], slots)) + rest == [0x5b] + (SlotsText(slots) + ([0x5d] + rest))
  {
    hide SlotsText;
    Regroup([0x5b] + SlotsText(slots), [0x5d], rest);
    Regroup([0x5b], SlotsText(slots), [0x5d] + rest);
  }

  lemma ObjectPieces(entries: seq<Entry>, rest: Bytes)
    requires entries != []
    ensures DocText(ObjectDoc([], entries)) + rest == [0x7b] + (EntriesText(entries) + ([0x7d] + rest))
  {
    hide EntriesText;
    Regroup([0x7b] + EntriesText(entries), [0x7d], rest);
    Regroup([0x7b], EntriesText(entries), [0x7d] + rest);
  }

  /** A text of the grammar, before bytes that do not go on with a number, is read to what
      it denotes, or is too deep. */
  lemma {:induction false} DocParses(d: Doc, depth: nat, rest: Bytes)
    requires ValidDoc(d) && DocStops(d, rest)
    ensures ParseValue(DocText(d) + rest, depth) == Outcome(depth + Nesting(d) <= MAX_DEPTH, DocValue(d), rest)
    decreases d
  {
    hide ParseValue, ParseItems, ParseMembers, SlotsText, EntriesText, Skip, SlotsValue, EntriesValue;
    if depth > MAX_DEPTH {
      DeepFails(DocText(d) + rest, depth);
    } else {
      match d
      case ArrayDoc(gap, slots) =>
        if slots == [] {
          EmptyArray(gap, depth, rest);
          NoEntries();
        } else {
          ArrayPieces(slots, rest);
          SlotsSkip(slots, [0x5d] + rest);
          OpenArray(SlotsText(slots) + ([0x5d] + rest), depth);
          ItemsParse(slots, depth, [], rest);
          assert [] + SlotsValue(slots) == SlotsValue(slots);
        }
      case ObjectDoc(gap, entries) =>
        if entries == [] {
          EmptyObject(gap, depth, rest);
          NoEntries();
        } else {
          ObjectPieces(entries, rest);
          EntriesSkip(entries, [0x7d] + rest);
          OpenObject(EntriesText(entries) + ([0x7d] + rest), depth);
          MembersParse(entries, depth, [], rest);
        }
      case _ => ScalarParses(d, depth, rest);
    }
  }

  lemma NoEntries()
    ensures SlotsValue([]) == [] && EntriesValue([], []) == []
  {
  }

  // ---------------------------------------------------------------- every text read is one of the grammar

  lemma WidenSlots(b: Bytes, slots: seq<Slot>)
    requires slots != []
    ensures SlotsText(slots[0 := slots[0].(before := b + slots[0].before)]) == b + SlotsText(slots)
  {
    hide DocText;
    var s := slots[0];
    var wide := slots[0 := s.(before := b + s.before)];
    var more := if |slots| == 1 then [] else [0x2c] + SlotsText(slots[1..]);
    assert wide[1..] == slots[1..];
    assert SlotsText(wide) == b + s.before + DocText(s.doc) + s.after + more;
    assert SlotsText(slots) == s.before + DocText(s.doc) + s.after + more;
    hide SlotsText;
    Regroup(b, s.before + DocText(s.doc) + s.after, more);
    Regroup(b, s.before + DocText(s.doc), s.after);
    Regroup(b, s.before, DocText(s.doc));
  }

  lemma WidenEntries(b: Bytes, entries: seq<Entry>)
    requires entries != []
    ensures EntriesText(entries[0 := entries[0].(before := b + entries[0].before)]) == b + EntriesText(entries)
  {
    hide DocText, StringText, SlotText;
    var e := entries[0];
    var wide := entries[0 := e.(before := b + e.before)];
    var more := if |entries| == 1 then [] else [0x2c] + EntriesText(entries[1..]);
    assert wide[1..] == entries[1..];
    assert EntriesText(wide) == EntryText(wide[0]) + more && EntriesText(entries) == EntryText(e) + more;
    hide EntriesText;
    WidenEntry(b, e);
    Regroup(b, EntryText(e), more);
  }

  lemma WidenEntry(b: Bytes, e: Entry)
    ensures EntryText(e.(before := b + e.before)) == b + EntryText(e)
  {
    hide DocText, StringText, SlotText;
    Regroup(b, e.before + StringText(e.key) + e.beforeColon + [0x3a], SlotText(e.slot));
    Regroup(b, e.before + StringText(e.key) + e.beforeColon, [0x3a]);
    Regroup(b, e.before + StringText(e.key), e.beforeColon);
    Regroup(b, e.before, StringText(e.key));
  }

  lemma OneSlot(slot: Slot, close: Bytes)
    ensures SlotsText([slot]) + close == slot.before + (DocText(slot.doc) + (slot.after + close))
  {
    hide DocText, SlotsText;
    SlotsFirst([slot], close);
  }

  lemma MoreSlots(slot: Slot, slots: seq<Slot>, close: Bytes)
    requires slots != []
    ensures SlotsText([slot] + slots) + close
            == slot.before + (DocText(slot.doc) + (slot.after + ([0x2c] + (SlotsText(slots) + close))))
  {
    hide DocText, SlotsText;
    SlotsFirst([slot] + slots, close);
    assert ([slot] + slots)[1..] == slots;
  }

  lemma ParsedParts(s: Bytes, depth: nat)
    requires ParseValue(s, depth).Ok?
    ensures var t := Skip(s);
            && depth <= MAX_DEPTH && t != []
            && ParseValue(s, depth) == (if t[0] == LBRACKET then ParseArray(t[1..], depth)
                                        else if t[0] == LBRACE then ParseObject(t[1..], depth) else ParseScalar(t))
  {
    hide Skip, ParseArray, ParseObject, ParseScalar;
  }

  /** Every value that is read is a text of the grammar behind white space. */
  lemma {:induction false} DivideValue(s: Bytes, depth: nat) returns (before: Bytes, d: Doc)
    requires ParseValue(s, depth).Ok?
    ensures White(before) && ValidDoc(d) && DocStops(d, ParseValue(s, depth).value.1)
    ensures s == before + (DocText(d) + ParseValue(s, depth).value.1)
    decreases |s|, 0
  {
    hide Skip, ParseValue, ParseArray, ParseObject, ParseScalar, DocText, ValidDoc, Stops, White;
    ParsedParts(s, depth);
    before := SkipDivides(s);
    var t := Skip(s);
    assert t == [t[0]] + t[1..];
    if t[0] == LBRACKET {
      d := DivideArray(t[1..], depth);
    } else if t[0] == LBRACE {
      d := DivideObject(t[1..], depth);
    } else {
      d := DivideScalar(t);
    }
  }

  lemma DivideScalar(s: Bytes) returns (d: Doc)
    requires s != [] && ParseScalar(s).Ok?
    ensures ValidDoc(d) && DocStops(d, ParseScalar(s).value.1) && s == DocText(d) + ParseScalar(s).value.1
  {
    hide ReadNumber, ReadString, NumberText, PiecesText, ValidNumber, ValidPieces, Stops;
    var c := s[0];
    if c == MINUS || Digit(c) {
      var n := DivideNumber(s);
      d := NumberDoc(n);
    } else if c == QUOTE {
      var ps := DivideString(s[1..], [], -1);
      d := StringDoc(ps);
      QuotedPieces(s, ps, ParseScalar(s).value.1);
    } else if c == 0x74 {
      d := BoolDoc(true);
      assert s == TRUE_TEXT + s[4..];
    } else if c == 0x66 {
      d := BoolDoc(false);
      assert s == FALSE_TEXT + s[5..];
    } else {
      d := NullDoc;
      assert s == NULL_TEXT + s[4..];
    }
  }

  lemma QuotedPieces(s: Bytes, ps: seq<Piece>, rest: Bytes)
    requires s != [] && s[0] == 0x22 && s[1..] == PiecesText(ps) + ([0x22] + rest)
    ensures s == StringText(ps) + rest
  {
    hide PiecesText;
    assert s == [0x22] + s[1..];
    Regroup([0x22], PiecesText(ps), [0x22] + rest);
    Regroup([0x22] + PiecesText(ps), [0x22], rest);
  }

  lemma {:induction false} DivideArray(s: Bytes, depth: nat) returns (d: Doc)
    requires ParseArray(s, depth).Ok?
    ensures ValidDoc(d) && d.ArrayDoc? && [0x5b] + s == DocText(d) + ParseArray(s, depth).value.1
    decreases |s|, 2
  {
    hide Skip, ParseItems, White, SlotsText;
    var b := SkipDivides(s);
    var t := Skip(s);
    var rest := ParseArray(s, depth).value.1;
    if t[0] == RBRACKET {
      d := ArrayDoc(b, []);
      assert t == [0x5d] + rest;
      Regroup([0x5b], b, t);
      Regroup([0x5b] + b, [0x5d], rest);
    } else {
      var slots := DivideItems(t, depth, []);
      var wide := slots[0 := slots[0].(before := b + slots[0].before)];
      WidenSlots(b, slots);
      WhiteAppend(b, slots[0].before);
      d := ArrayDoc([], wide);
      WhiteNothing();
      ArrayPieces(wide, rest);
      Regroup(b, SlotsText(slots), [0x5d] + rest);
    }
  }

  lemma WhiteAppend(a: Bytes, b: Bytes)
    requires White(a) && White(b)
    ensures White(a + b)
  {
  }

  lemma ItemParts(s: Bytes, depth: nat, acc: seq<Json>)
    requires ParseItems(s, depth, acc).Ok?
    ensures ParseValue(s, depth + 1).Ok?
    ensures var (v, after) := ParseValue(s, depth + 1).value;
            var t := Skip(after);
            && t != []
            && (t[0] == 0x5d || (t[0] == 0x2c && Skip(t[1..]) != []))
            && (t[0] == 0x5d ==> ParseItems(s, depth, acc).value.1 == t[1..])
            && (t[0] == 0x2c ==> ParseItems(s, depth, acc) == ParseItems(Skip(t[1..]), depth, acc + [v]))
  {
    hide ParseValue, Skip;
  }

  lemma {:induction false} DivideItems(s: Bytes, depth: nat, acc: seq<Json>) returns (slots: seq<Slot>)
    requires ParseItems(s, depth, acc).Ok?
    ensures slots != [] && forall i | 0 <= i < |slots| :: ValidSlot(slots[i])
    ensures s == SlotsText(slots) + ([0x5d] + ParseItems(s, depth, acc).value.1)
    decreases |s|, 1
  {
    hide ParseValue, ParseItems, Skip, White, SlotsText, DocText, ValidDoc, DocStops;
    ItemParts(s, depth, acc);
    var rest := ParseItems(s, depth, acc).value.1;
    var (v, after) := ParseValue(s, depth + 1).value;
    var before, d := DivideValue(s, depth + 1);
    var b := SkipDivides(after);
    var t := Skip(after);
    assert t == [t[0]] + t[1..];
    var slot := Slot(before, d, b);
    if t[0] == 0x5d {
      slots := [slot];
      OneSlot(slot, [0x5d] + rest);
    } else {
      var u := t[1..];
      var b' := SkipDivides(u);
      var more := DivideItems(Skip(u), depth, acc + [v]);
      var wide := more[0 := more[0].(before := b' + more[0].before)];
      WidenSlots(b', more);
      WhiteAppend(b', more[0].before);
      slots := [slot] + wide;
      MoreSlots(slot, wide, [0x5d] + rest);
      Regroup(b', SlotsText(more), [0x5d] + rest);
    }
  }

  lemma OneEntry(e: Entry, close: Bytes)
    ensures EntriesText([e]) + close == e.before + EntryRest(e, e.slot.after + close)
  {
    hide DocText, EntriesText, EntryRest;
    EntriesFirst([e], close);
  }

  lemma MoreEntries(e: Entry, entries: seq<Entry>, close: Bytes)
    requires entries != []
    ensures EntriesText([e] + entries) + close
            == e.before + EntryRest(e, e.slot.after + ([0x2c] + (EntriesText(entries) + close)))
  {
    hide DocText, EntriesText, EntryRest;
    EntriesFirst([e] + entries, close);
    assert ([e] + entries)[1..] == entries;
  }

  lemma {:induction false} DivideObject(s: Bytes, depth: nat) returns (d: Doc)
    requires ParseObject(s, depth).Ok?
    ensures ValidDoc(d) && d.ObjectDoc? && [0x7b] + s == DocText(d) + ParseObject(s, depth).value.1
    decreases |s|, 3
  {
    hide Skip, ParseMembers, White, EntriesText, ValidPieces;
    var b := SkipDivides(s);
    var t := Skip(s);
    var rest := ParseObject(s, depth).value.1;
    if t[0] == RBRACE {
      d := ObjectDoc(b, []);
      assert t == [0x7d] + rest;
      Regroup([0x7b], b, t);
      Regroup([0x7b] + b, [0x7d], rest);
    } else {
      var entries := DivideMembers(t, depth, []);
      var wide := entries[0 := entries[0].(before := b + entries[0].before)];
      WidenEntries(b, entries);
      WhiteAppend(b, entries[0].before);
      d := ObjectDoc([], wide);
      WhiteNothing();
      ObjectPieces(wide, rest);
      Regroup(b, EntriesText(entries), [0x7d] + rest);
    }
  }

  lemma WhiteNothing()
    ensures White([])
  {
  }

  lemma MemberParts(s: Bytes, depth: nat, ms: seq<Member>)
    requires s != [] && ParseMembers(s, depth, ms).Ok?
    ensures ParseMember(s, depth).Ok?
    ensures var (m, after) := ParseMember(s, depth).value;
            var t := Skip(after);
            && t != []
            && (t[0] == 0x7d || (t[0] == 0x2c && Skip(t[1..]) != []))
            && (t[0] == 0x7d ==> ParseMembers(s, depth, ms).value.1 == t[1..])
            && (t[0] == 0x2c ==> ParseMembers(s, depth, ms) == ParseMembers(Skip(t[1..]), depth, Put(ms, m)))
  {
    hide ParseMember, Skip, Put;
  }

  lemma EntryParts(s: Bytes, depth: nat)
    requires s != [] && ParseMember(s, depth).Ok?
    ensures s[0] == 0x22 && ReadString(s[1..], [], -1).Ok?
    ensures var t := Skip(ReadString(s[1..], [], -1).value.1);
            && t != [] && t[0] == 0x3a && ParseValue(t[1..], depth + 1).Ok?
            && ParseMember(s, depth).value.1 == ParseValue(t[1..], depth + 1).value.1
  {
    hide ParseValue, Skip, ReadString;
  }

  lemma {:induction false} DivideMember(s: Bytes, depth: nat) returns (e: Entry)
    requires s != [] && ParseMember(s, depth).Ok?
    ensures ValidEntry(e) && e.before == [] && DocStops(e.slot.doc, ParseMember(s, depth).value.1)
    ensures s == EntryRest(e, ParseMember(s, depth).value.1)
    decreases |s|, 1
  {
    hide ParseValue, ParseMember, Skip, ReadString, White, DocText, StringText, PiecesText, ValidPieces, ValidDoc, DocStops;
    EntryParts(s, depth);
    var after := ParseMember(s, depth).value.1;
    var r := ReadString(s[1..], [], -1).value.1;
    var key := DivideString(s[1..], [], -1);
    QuotedPieces(s, key, r);
    var bc := SkipDivides(r);
    var t := Skip(r);
    assert t == [t[0]] + t[1..];
    var before, d := DivideValue(t[1..], depth + 1);
    e := Entry([], key, bc, Slot(before, d, []));
    WhiteNothing();
  }

  lemma {:induction false} DivideMembers(s: Bytes, depth: nat, ms: seq<Member>) returns (entries: seq<Entry>)
    requires s != [] && ParseMembers(s, depth, ms).Ok?
    ensures entries != [] && forall i | 0 <= i < |entries| :: ValidEntry(entries[i])
    ensures s == EntriesText(entries) + ([0x7d] + ParseMembers(s, depth, ms).value.1)
    decreases |s|, 2
  {
    hide ParseMember, ParseMembers, Skip, White, EntriesText, DocText, ValidDoc, ValidPieces, DocStops, Put, StringText;
    MemberParts(s, depth, ms);
    var rest := ParseMembers(s, depth, ms).value.1;
    var (m, after) := ParseMember(s, depth).value;
    var e := DivideMember(s, depth);
    var b := SkipDivides(after);
    var t := Skip(after);
    assert t == [t[0]] + t[1..];
    e := e.(slot := e.slot.(after := b));
    if t[0] == 0x7d {
      entries := [e];
      OneEntry(e, [0x7d] + rest);
    } else {
      var u := t[1..];
      var b' := SkipDivides(u);
      var more := DivideMembers(Skip(u), depth, Put(ms, m));
      var wide := more[0 := more[0].(before := b' + more[0].before)];
      WidenEntries(b', more);
      WhiteAppend(b', more[0].before);
      entries := [e] + wide;
      MoreEntries(e, wide, [0x7d] + rest);
      Regroup(b', EntriesText(more), [0x7d] + rest);
    }
    assert [] + s == s;
  }

  // ---------------------------------------------------------------- whole texts

  /** A text is accepted, with some value, exactly when it is a text of the grammar that
      denotes the value and nests at most 200 deep. */
  lemma ParseIff(s: Bytes, v: Json)
    ensures Parse(s) == Ok(v) <==>
            exists slot :: ValidSlot(slot) && SlotText(slot) == s && SlotValue(slot) == v && Nesting(slot.doc) <= 200
  {
    hide Parse, SlotText, ValidSlot, SlotValue, Nesting;
    if Parse(s) == Ok(v) {
      var slot := DivideText(s);
      SlotParses(slot);
    }
    if slot :| ValidSlot(slot) && SlotText(slot) == s && SlotValue(slot) == v && Nesting(slot.doc) <= 200 {
      SlotParses(slot);
    }
  }

  /** Reading a whole text of the grammar. */
  lemma SlotParses(slot: Slot)
    requires ValidSlot(slot)
    ensures Parse(SlotText(slot)) == if Nesting(slot.doc) <= 200 then Ok(SlotValue(slot)) else Err(TooDeep)
  {
    hide ParseValue, DocText, ValidDoc, White, Nesting, DocValue, Skip;
    var (d, after) := (slot.doc, slot.after);
    Regroup(slot.before, DocText(d), after);
    WhiteStops(d, after);
    DocStarts(d, after);
    ParseAfterWhite(slot.before, DocText(d) + after, 0);
    DocParses(d, 0, after);
  }

  lemma WhiteStops(d: Doc, white: Bytes)
    requires White(white)
    ensures DocStops(d, white) && Skip(white) == []
  {
    SkipWhite(white, []);
    assert white + [] == white;
  }

  lemma DivideText(s: Bytes) returns (slot: Slot)
    requires Parse(s).Ok?
    ensures ValidSlot(slot) && SlotText(slot) == s
  {
    hide ParseValue, DocText, ValidDoc, White, Skip;
    var before, d := DivideValue(s, 0);
    var rest := ParseValue(s, 0).value.1;
    var after := SkipDivides(rest);
    slot := Slot(before, d, after);
    assert after + [] == after;
    Regroup(before, DocText(d), after);
  }
}
