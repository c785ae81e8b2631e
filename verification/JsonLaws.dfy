/** Which values survive dump and parse, and what every parsed value satisfies
    (slave/util/json11.cpp). */
module JsonLaws {
  import opened Wrappers
  import opened JsonText
  import opened JsonValues
  import opened JsonGrammar
  import opened JsonRoundTrip

  // ---------------------------------------------------------------- exact round trip

  /** Every integer prints in at most nine characters. */
  predicate ShortInts(v: Json) {
    match v
    case Int(n) => |IntText(n)| <= MAX_INT_TEXT
    case Array(items) => forall i | 0 <= i < |items| :: ShortInts(items[i])
    case Object(ms) => forall i | 0 <= i < |ms| :: ShortInts(ms[i].value)
    case _ => true
  }

  lemma {:induction false} RereadItem(items: seq<Json>, i: nat)
    requires i < |items|
    ensures RereadItems(items)[i] == Reread(items[i])
  {
    hide Reread;
    if i > 0 {
      RereadItem(items[1..], i - 1);
    }
  }

  lemma {:induction false} RereadMember(ms: seq<Member>, i: nat)
    requires i < |ms|
    ensures RereadMembers(ms)[i] == Member(ms[i].key, Reread(ms[i].value))
  {
    hide Reread;
    if i > 0 {
      RereadMember(ms[1..], i - 1);
    }
  }

  lemma {:induction false} RereadSameIff(v: Json)
    ensures Reread(v) == v <==> ShortInts(v)
    decreases v
  {
    match v
    case Array(items) =>
      forall i | 0 <= i < |items|
        ensures (RereadItems(items)[i] == items[i]) <==> ShortInts(items[i])
      {
        RereadItem(items, i);
        RereadSameIff(items[i]);
      }
      SameItems(items, RereadItems(items));
    case Object(ms) =>
      forall i | 0 <= i < |ms|
        ensures (RereadMembers(ms)[i] == ms[i]) <==> ShortInts(ms[i].value)
      {
        RereadMember(ms, i);
        RereadSameIff(ms[i].value);
      }
      SameItems(ms, RereadMembers(ms));
    case _ =>
  }

  lemma SameItems<T>(a: seq<T>, b: seq<T>)
    requires |a| == |b|
    ensures b == a <==> forall i | 0 <= i < |a| :: b[i] == a[i]
  {
  }

  /** Exactly which values parse back to themselves. */
  lemma RoundTripIff(v: Json)
    requires Dumpable(v) && KeysSorted(v)
    ensures Parse(Dump(v)) == Ok(v) <==> Depth(v) <= MAX_DEPTH && ShortInts(v)
  {
    hide Parse, Dump, Reread, ShortInts, Dumpable, KeysSorted;
    ParseDump(v);
    RereadSameIff(v);
  }

  // ---------------------------------------------------------------- equality of values

  /** The comparison of two values; toDouble is the number a decimal text denotes. */
  ghost predicate JsonEqual(a: Json, b: Json, toDouble: Bytes -> real)
    decreases a
  {
    match (a, b)
    case (Null, Null) => true
    case (Bool(x), Bool(y)) => x == y
    case (Text(x), Text(y)) => x == y
    case (Array(x), Array(y)) =>
      |x| == |y| && forall i | 0 <= i < |x| :: JsonEqual(x[i], y[i], toDouble)
    case (Object(x), Object(y)) =>
      |x| == |y| && forall i | 0 <= i < |x| :: x[i].key == y[i].key && JsonEqual(x[i].value, y[i].value, toDouble)
    case _ =>
      IsNumber(a) && IsNumber(b) && NumberOf(a, toDouble) == NumberOf(b, toDouble)
  }

  predicate IsNumber(v: Json) {
    v.Int? || v.Double?
  }

  ghost function NumberOf(v: Json, toDouble: Bytes -> real): (r: real)
    requires IsNumber(v)
  {
    if v.Int? then v.n as real else toDouble(v.text)
  }

  /** Integers are 32 bits wide, as their constructor takes them. */
  predicate Ints32(v: Json) {
    match v
    case Int(n) => -0x8000_0000 <= n < 0x8000_0000
    case Array(items) => forall i | 0 <= i < |items| :: Ints32(items[i])
    case Object(ms) => forall i | 0 <= i < |ms| :: Ints32(ms[i].value)
    case _ => true
  }

  /** A 32-bit integer text denotes that integer: a double holds it exactly. */
  ghost predicate ExactInts(toDouble: Bytes -> real) {
    forall n: int | -0x8000_0000 <= n < 0x8000_0000 :: toDouble(IntText(n)) == n as real
  }

  lemma {:induction false} RereadEqual(v: Json, toDouble: Bytes -> real)
    requires Dumpable(v) && Ints32(v) && ExactInts(toDouble)
    ensures JsonEqual(v, Reread(v), toDouble)
    decreases v
  {
    hide ExactInts;
    match v
    case Int(n) => ExactInt(n, toDouble);
    case Array(items) =>
      forall i | 0 <= i < |items|
        ensures JsonEqual(items[i], RereadItems(items)[i], toDouble)
      {
        RereadItem(items, i);
        RereadEqual(items[i], toDouble);
      }
    case Object(ms) =>
      forall i | 0 <= i < |ms|
        ensures ms[i].key == RereadMembers(ms)[i].key
        ensures JsonEqual(ms[i].value, RereadMembers(ms)[i].value, toDouble)
      {
        RereadMember(ms, i);
        RereadEqual(ms[i].value, toDouble);
      }
    case _ =>
  }

  lemma ExactInt(n: int, toDouble: Bytes -> real)
    requires -0x8000_0000 <= n < 0x8000_0000 && ExactInts(toDouble)
    ensures JsonEqual(Int(n), Reread(Int(n)), toDouble)
  {
    hide IntText;
  }

  /** Whatever its integers, a value nested at most 200 deep parses back to an equal one. */
  lemma RoundTripEqual(v: Json, toDouble: Bytes -> real)
    requires Dumpable(v) && KeysSorted(v) && Ints32(v) && ExactInts(toDouble)
    requires Depth(v) <= MAX_DEPTH
    ensures Parse(Dump(v)).Ok? && JsonEqual(v, Parse(Dump(v)).value, toDouble)
  {
    hide Parse, Dump, Reread, Dumpable, KeysSorted, JsonEqual, Ints32, ExactInts;
    ParseDump(v);
    RereadEqual(v, toDouble);
  }

  // ---------------------------------------------------------------- every parsed value

  lemma {:induction false} LessTotal(a: Bytes, b: Bytes)
    ensures a == b || Less(a, b) || Less(b, a)
    ensures !(Less(a, b) && Less(b, a)) && !Less(a, a)
    decreases |a|
  {
    if a != [] {
      LessTotal(a[1..], a[1..]);
      if b != [] {
        LessTotal(a[1..], b[1..]);
        assert a == [a[0]] + a[1..] && b == [b[0]] + b[1..];
      }
    }
  }

  lemma {:induction false} LessTransitive(a: Bytes, b: Bytes, c: Bytes)
    requires Less(a, b) && Less(b, c)
    ensures Less(a, c)
    decreases |a|
  {
    if a != [] && a[0] == b[0] == c[0] {
      LessTransitive(a[1..], b[1..], c[1..]);
    }
  }

  ghost predicate Below(ms: seq<Member>, key: Bytes) {
    forall i | 0 <= i < |ms| :: Less(ms[i].key, key)
  }

  lemma {:induction false} PutKeepsSorted(ms: seq<Member>, m: Member)
    requires Sorted(ms)
    ensures Sorted(Put(ms, m))
    ensures forall key | Below(ms, key) && Less(m.key, key) :: Below(Put(ms, m), key)
  {
    hide Less;
    if ms != [] {
      var n := |ms| - 1;
      LessTotal(ms[n].key, m.key);
      if Less(ms[n].key, m.key) {
        forall i | 0 <= i < |ms|
          ensures Less(ms[i].key, m.key)
        {
          if i < n {
            LessTransitive(ms[i].key, ms[n].key, m.key);
          }
        }
      } else if ms[n].key != m.key {
        PutKeepsSorted(ms[..n], m);
        assert Below(ms[..n], ms[n].key);
        assert Below(Put(ms[..n], m), ms[n].key);
      }
    }
  }

  /** In range at a depth: objects ordered by distinct keys, nesting within the bound. */
  ghost predicate InRange(v: Json, depth: nat) {
    KeysSorted(v) && depth + Depth(v) <= MAX_DEPTH
  }

  ghost predicate ItemsInRange(items: seq<Json>, depth: nat) {
    forall i | 0 <= i < |items| :: InRange(items[i], depth + 1)
  }

  ghost predicate MembersInRange(ms: seq<Member>, depth: nat) {
    Sorted(ms) && forall i | 0 <= i < |ms| :: InRange(ms[i].value, depth + 1)
  }

  lemma {:induction false} ItemsDepthBound(items: seq<Json>, depth: nat)
    requires depth < MAX_DEPTH && ItemsInRange(items, depth)
    ensures depth + 1 + ItemsDepth(items) <= MAX_DEPTH
  {
    hide KeysSorted, Depth;
    if items != [] {
      ItemsDepthBound(items[1..], depth);
    }
  }

  lemma {:induction false} MembersDepthBound(ms: seq<Member>, depth: nat)
    requires depth < MAX_DEPTH && forall i | 0 <= i < |ms| :: InRange(ms[i].value, depth + 1)
    ensures depth + 1 + MembersDepth(ms) <= MAX_DEPTH
  {
    hide KeysSorted, Depth;
    if ms != [] {
      MembersDepthBound(ms[1..], depth);
    }
  }

  lemma ArrayInRange(items: seq<Json>, depth: nat)
    requires items != [] && ItemsInRange(items, depth)
    ensures InRange(Array(items), depth)
  {
    assert InRange(items[0], depth + 1);
    ItemsDepthBound(items, depth);
  }

  lemma ObjectInRange(ms: seq<Member>, depth: nat)
    requires ms != [] && MembersInRange(ms, depth)
    ensures InRange(Object(ms), depth)
  {
    assert InRange(ms[0].value, depth + 1);
    MembersDepthBound(ms, depth);
  }

  lemma {:induction false} PutInRange(ms: seq<Member>, m: Member, depth: nat)
    requires MembersInRange(ms, depth) && InRange(m.value, depth + 1)
    ensures MembersInRange(Put(ms, m), depth) && Put(ms, m) != []
  {
    hide InRange, Less;
    PutKeepsSorted(ms, m);
    PutValues(ms, m);
    var r := Put(ms, m);
    forall i | 0 <= i < |r|
      ensures InRange(r[i].value, depth + 1)
    {
      assert r[i] in r;
    }
  }

  lemma {:induction false} PutValues(ms: seq<Member>, m: Member)
    ensures forall x | x in Put(ms, m) :: x in ms || x == m
    ensures Put(ms, m) != []
  {
    hide Less;
    if ms != [] {
      PutValues(ms[..|ms| - 1], m);
    }
  }

  /** Whatever the text, a parsed value has its keys in order, each once, and nests at
      most 200 deep. */
  lemma {:induction false} ParsedInRange(s: Bytes, depth: nat)
    ensures ParseValue(s, depth).Ok? ==> InRange(ParseValue(s, depth).value.0, depth)
    decreases |s|, 0
  {
    hide ParseItems, ParseMembers, Skip, ParseScalar, KeysSorted, Depth;
    var t := Skip(s);
    LeavesInRange(depth);
    if depth <= MAX_DEPTH && t != [] {
      if t[0] == LBRACKET {
        var u := Skip(t[1..]);
        ParsedItemsInRange(u, depth, []);
      } else if t[0] == LBRACE {
        var u := Skip(t[1..]);
        if u != [] {
          ParsedMembersInRange(u, depth, []);
        }
      } else {
        ScalarInRange(t, depth);
      }
    }
  }

  lemma LeavesInRange(depth: nat)
    ensures depth <= MAX_DEPTH ==> InRange(Array([]), depth) && InRange(Object([]), depth)
  {
  }

  lemma ScalarInRange(s: Bytes, depth: nat)
    requires s != [] && depth <= MAX_DEPTH
    ensures ParseScalar(s).Ok? ==> InRange(ParseScalar(s).value.0, depth)
  {
  }

  lemma {:induction false} ParsedItemsInRange(s: Bytes, depth: nat, items: seq<Json>)
    requires ItemsInRange(items, depth)
    ensures ParseItems(s, depth, items).Ok? ==> InRange(ParseItems(s, depth, items).value.0, depth)
    decreases |s|, 1
  {
    hide ParseValue, Skip, InRange;
    ParsedInRange(s, depth + 1);
    if ParseValue(s, depth + 1).Ok? {
      var (v, rest) := ParseValue(s, depth + 1).value;
      var t := Skip(rest);
      ArrayInRange(items + [v], depth);
      if t != [] && t[0] == COMMA {
        ParsedItemsInRange(Skip(t[1..]), depth, items + [v]);
      }
    }
  }

  lemma {:induction false} ParsedMembersInRange(s: Bytes, depth: nat, ms: seq<Member>)
    requires s != [] && MembersInRange(ms, depth)
    ensures ParseMembers(s, depth, ms).Ok? ==> InRange(ParseMembers(s, depth, ms).value.0, depth)
    decreases |s|, 2
  {
    hide ParseMember, Skip, InRange, Put, MembersInRange;
    ParsedMemberInRange(s, depth);
    if ParseMember(s, depth).Ok? {
      var (m, rest) := ParseMember(s, depth).value;
      var t := Skip(rest);
      PutInRange(ms, m, depth);
      ObjectInRange(Put(ms, m), depth);
      if t != [] && t[0] == COMMA && Skip(t[1..]) != [] {
        ParsedMembersInRange(Skip(t[1..]), depth, Put(ms, m));
      }
    }
  }

  lemma {:induction false} ParsedMemberInRange(s: Bytes, depth: nat)
    requires s != []
    ensures ParseMember(s, depth).Ok? ==> InRange(ParseMember(s, depth).value.0.value, depth + 1)
    decreases |s|, 1
  {
    hide ParseValue, Skip, InRange, ReadString;
    if s[0] == QUOTE && ReadString(s[1..], [], -1).Ok? {
      var t := Skip(ReadString(s[1..], [], -1).value.1);
      if t != [] {
        ParsedInRange(t[1..], depth + 1);
      }
    }
  }

  /** A text that parses gives a value in range. */
  lemma ParsedIsWellFormed(s: Bytes)
    ensures Parse(s).Ok? ==> KeysSorted(Parse(s).value) && Depth(Parse(s).value) <= MAX_DEPTH
  {
    hide ParseValue;
    ParsedInRange(s, 0);
  }

  // ---------------------------------------------------------------- what the parts of a text mean

  /** UTF-8 as section 3 of RFC 3629 lays it out: a lead byte that tells the length, six
      bits in each byte behind it. */
  lemma Utf8Layout(pt: int)
    requires 0 <= pt <= 0x10ffff
    ensures var b := Utf8(pt);
            && (pt < 0x80 ==> b == [pt])
            && (0x80 <= pt < 0x800 ==>
                  && |b| == 2 && 0xc0 <= b[0] < 0xe0 && 0x80 <= b[1] < 0xc0
                  && (b[0] as int - 0xc0) * 0x40 + (b[1] as int - 0x80) == pt)
            && (0x800 <= pt < 0x10000 ==>
                  && |b| == 3 && 0xe0 <= b[0] < 0xf0 && 0x80 <= b[1] < 0xc0 && 0x80 <= b[2] < 0xc0
                  && (b[0] as int - 0xe0) * 0x1000 + (b[1] as int - 0x80) * 0x40 + (b[2] as int - 0x80) == pt)
            && (0x10000 <= pt ==>
                  && |b| == 4 && 0xf0 <= b[0] < 0xf5
                  && 0x80 <= b[1] < 0xc0 && 0x80 <= b[2] < 0xc0 && 0x80 <= b[3] < 0xc0
                  && (b[0] as int - 0xf0) * 0x40000 + (b[1] as int - 0x80) * 0x1000
                     + (b[2] as int - 0x80) * 0x40 + (b[3] as int - 0x80) == pt)
  {
    var x, y, z := pt / 0x40, pt / 0x1000, pt / 0x40000;
    assert pt == x * 0x40 + pt % 0x40 && y == x / 0x40 && z == y / 0x40;
    assert x == y * 0x40 + x % 0x40 && y == z * 0x40 + y % 0x40;
  }

  /** Digits count in tens, hexadecimal ones in sixteens, in either case. */
  lemma DigitValues(s: Bytes, c: Byte, h: Bytes)
    requires FourHex(h)
    ensures DecimalValue([]) == 0 && DecimalValue(s + [c]) == 10 * DecimalValue(s) + (c as int - 0x30)
    ensures forall d: Byte | HexChar(d) ::
              HexCharValue(d) == if d <= 0x39 then d as int - 0x30
                                 else if d <= 0x46 then d as int - 0x41 + 10 else d as int - 0x61 + 10
    ensures HexValue(h) == ((HexCharValue(h[0]) * 16 + HexCharValue(h[1])) * 16 + HexCharValue(h[2])) * 16
                           + HexCharValue(h[3])
  {
    assert (s + [c])[..|s|] == s;
  }

  /** Keys are ordered by their first differing byte, a key before its extensions. */
  lemma {:induction false} LessIff(a: Bytes, b: Bytes)
    ensures Less(a, b) <==> exists k: nat :: FirstDiffer(a, b, k)
    decreases |a|
  {
    if a == [] || b == [] {
      if b != [] {
        assert FirstDiffer(a, b, 0);
      }
    } else {
      LessIff(a[1..], b[1..]);
      if a[0] < b[0] {
        assert FirstDiffer(a, b, 0);
      } else if Less(a, b) {
        var k: nat :| FirstDiffer(a[1..], b[1..], k);
        DifferLater(a, b, k);
      }
      if k: nat :| FirstDiffer(a, b, k) {
        if k > 0 {
          assert a[0] == a[..k][0] == b[..k][0] == b[0];
          DifferLater(a, b, k - 1);
        }
      }
    }
  }

  ghost predicate FirstDiffer(a: Bytes, b: Bytes, k: nat) {
    k <= |a| && k < |b| && a[..k] == b[..k] && (k == |a| || a[k] < b[k])
  }

  lemma DifferLater(a: Bytes, b: Bytes, k: nat)
    requires a != [] && b != [] && a[0] == b[0]
    ensures FirstDiffer(a[1..], b[1..], k) <==> FirstDiffer(a, b, k + 1)
  {
    if k + 1 <= |a| && k + 1 <= |b| {
      assert a[..k + 1] == [a[0]] + a[1..][..k] && b[..k + 1] == [b[0]] + b[1..][..k];
      assert a[..k + 1][1..] == a[1..][..k] && b[..k + 1][1..] == b[1..][..k];
    }
  }

  /** Filing a member replaces the one with its key and leaves every other. */
  lemma {:induction false} PutReplaces(ms: seq<Member>, m: Member, x: Member)
    requires Sorted(ms)
    ensures x in Put(ms, m) <==> x == m || (x in ms && x.key != m.key)
  {
    hide Less;
    if ms != [] {
      var n := |ms| - 1;
      var last := ms[n];
      LessTotal(last.key, m.key);
      assert ms == ms[..n] + [last];
      if Less(last.key, m.key) {
        KeysBelow(ms, m.key);
      } else if last.key == m.key {
        KeysBelow(ms[..n], m.key);
      } else {
        PutReplaces(ms[..n], m, x);
      }
    }
  }

  lemma KeysBelow(ms: seq<Member>, key: Bytes)
    requires Sorted(ms) && (ms != [] ==> Less(ms[|ms| - 1].key, key) || Below(ms, key))
    ensures forall x | x in ms :: x.key != key
  {
    hide Less;
    forall i | 0 <= i < |ms|
      ensures ms[i].key != key
    {
      var n := |ms| - 1;
      if i < n && !Below(ms, key) {
        LessTransitive(ms[i].key, ms[n].key, key);
      }
      LessTotal(key, key);
    }
  }

  /** In an object each key that occurs has the value it is last given. */
  lemma {:induction false} RepeatedKeys(entries: seq<Entry>, ms: seq<Member>, x: Member)
    requires Sorted(ms) && forall i | 0 <= i < |entries| :: ValidEntry(entries[i])
    ensures Sorted(EntriesValue(ms, entries))
    ensures x in EntriesValue(ms, entries) <==>
            || (exists i | 0 <= i < |entries| :: LastGiven(entries, i, x))
            || (x in ms && forall i | 0 <= i < |entries| :: EntryValue(entries[i]).key != x.key)
    decreases |entries|
  {
    hide ValidEntry, EntryValue, Put, Less;
    if entries != [] {
      var m := EntryValue(entries[0]);
      var rest := entries[1..];
      PutKeepsSorted(ms, m);
      PutReplaces(ms, m, x);
      RepeatedKeys(rest, Put(ms, m), x);
      forall i | 0 <= i < |rest|
        ensures LastGiven(rest, i, x) <==> LastGiven(entries, i + 1, x)
      {
        GivenLater(entries, i, x);
      }
      if i :| 0 <= i < |rest| && LastGiven(rest, i, x) {
        assert LastGiven(entries, i + 1, x);
      }
      if i :| 0 <= i < |entries| && LastGiven(entries, i, x) {
        if i > 0 {
          assert LastGiven(rest, i - 1, x);
        }
      }
      if x == m && forall i | 0 <= i < |rest| :: EntryValue(rest[i]).key != x.key {
        assert LastGiven(entries, 0, x);
      }
      assert forall i | 0 <= i < |rest| :: rest[i] == entries[i + 1];
    }
  }

  ghost predicate LastGiven(entries: seq<Entry>, i: int, x: Member)
    requires 0 <= i < |entries| && forall j | 0 <= j < |entries| :: ValidEntry(entries[j])
  {
    EntryValue(entries[i]) == x && forall j | i < j < |entries| :: EntryValue(entries[j]).key != x.key
  }

  lemma GivenLater(entries: seq<Entry>, i: nat, x: Member)
    requires i + 1 < |entries| && forall j | 0 <= j < |entries| :: ValidEntry(entries[j])
    ensures LastGiven(entries[1..], i, x) <==> LastGiven(entries, i + 1, x)
  {
    hide ValidEntry, EntryValue;
    var rest := entries[1..];
    assert forall j | 0 <= j < |rest| :: rest[j] == entries[j + 1];
    if LastGiven(rest, i, x) {
      forall j | i + 1 < j < |entries|
        ensures EntryValue(entries[j]).key != x.key
      {
        assert entries[j] == rest[j - 1];
      }
    }
  }
}
