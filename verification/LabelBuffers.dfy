/** Serialised label sequences, and sequences held in a caller's buffer that
    can be stripped and extended in place (slave/dns/labelsequence.cpp). */
module LabelBuffers {
  import opened Wrappers
  import opened DnsLabels
  import opened DnsOrder
  import opened LabelSequences

  const MAX_SERIALIZED_LENGTH: nat := MAX_WIRE + MAX_LABELS + 1

  // ---------------------------------------------------------------- relative offsets

  /** Offsets counted from the window's first label are the window's own. */
  lemma RelativeOffset(v: LabelView, all: Labels, i: nat)
    requires Represents(v, all) && i < |Window(v, all)|
    ensures v.first + i < |v.offsets| && v.offsets[v.first] <= v.offsets[v.first + i]
    ensures v.offsets[v.first + i] as int - v.offsets[v.first] as int == Starts(Window(v, all), 0)[i]
  {
    hide Encode, Starts, WireLength;
    var w := Window(v, all);
    SplitAt(all, v.first);
    StartAt(all, v.first);
    StartsShift(w, 0, WireLength(all[..v.first]), i);
  }

  /** A table of byte offsets has room for at most 128 labels. */
  lemma WindowCount(v: LabelView, all: Labels)
    requires Represents(v, all)
    ensures |Window(v, all)| <= |all| <= MAX_LABELS
  {
    StartAt(all, v.last);
    NonRootLength(all[..v.last]);
  }

  /** The offsets of the window's labels once its bytes start at `at`. */
  function MovedOffsets(v: LabelView, at: nat): (r: seq<Byte>)
    requires v.first <= v.last < |v.offsets|
    ensures |r| == v.last - v.first + 1
  {
    seq(v.last - v.first + 1, i requires 0 <= i <= v.last - v.first =>
      (at + v.offsets[v.first + i] as int - v.offsets[v.first] as int) % 256)
  }

  lemma MovedOffsetsAre(v: LabelView, all: Labels, at: nat)
    requires Represents(v, all) && at + WireLength(Window(v, all)) <= 256
    ensures v.first <= v.last < |v.offsets| && |MovedOffsets(v, at)| == |Window(v, all)|
    ensures forall i | 0 <= i < |Window(v, all)| :: MovedOffsets(v, at)[i] == Starts(Window(v, all), at)[i]
  {
    hide Starts, WireLength;
    forall i | 0 <= i < |Window(v, all)|
      ensures MovedOffsets(v, at)[i] == Starts(Window(v, all), at)[i]
    {
      RelativeOffset(v, all, i);
      StartsShift(Window(v, all), 0, at, i);
    }
  }

  lemma WindowWireLength(v: LabelView, all: Labels)
    requires Represents(v, all)
    ensures forall i | 0 <= i < |Window(v, all)| :: MovedOffsets(v, 0)[i] == Starts(Window(v, all), 0)[i]
  {
    hide Starts, WireLength;
    forall i | 0 <= i < |Window(v, all)|
      ensures MovedOffsets(v, 0)[i] == Starts(Window(v, all), 0)[i]
    {
      RelativeOffset(v, all, i);
    }
  }

  // ---------------------------------------------------------------- serialisation

  /** Label count, offsets from the first label, then the bytes. */
  ghost function Serialized(v: LabelView, all: Labels): (b: Bytes)
    requires Represents(v, all)
  {
    WindowIsEncoding(v, all);
    WindowCount(v, all);
    [|Window(v, all)| as Byte] + MovedOffsets(v, 0) + DataOf(v)
  }

  /** LabelSequence(const void*): the sequence a serialised buffer holds. */
  function Deserialize(b: Bytes): (v: LabelView)
    requires |b| > 0 && 0 < b[0] && 1 + b[0] as int <= |b|
  {
    var n := b[0] as int;
    LabelView(b[1 + n..], b[1..1 + n], 0, n - 1)
  }

  /** Deserialising a serialised sequence, whatever follows it in the buffer,
      gives a sequence with exactly the labels of the window. */
  lemma DeserializeSerialized(v: LabelView, all: Labels, rest: Bytes)
    requires Represents(v, all)
    ensures var b := Serialized(v, all) + rest;
            && |b| > 0 && 0 < b[0] && 1 + b[0] as int <= |b|
            && Represents(Deserialize(b), Window(v, all))
            && Window(Deserialize(b), Window(v, all)) == Window(v, all)
  {
    WindowIsEncoding(v, all);
    WindowCount(v, all);
    WindowSize(v, all);
    WindowNonRoot(v, all);
    WindowWireLength(v, all);
    hide Represents, Encode, Starts, WireLength, DataLength, MovedOffsets, Window, DataOf;
    var w := Window(v, all);
    EncodeLength(w);
    TakeApart(|w| as Byte, MovedOffsets(v, 0), DataOf(v), rest);
    RebuiltView(Deserialize(Serialized(v, all) + rest), w);
  }

  /** Octet by octet: the number of labels, where each begins, their encoding. */
  lemma SerializedOctets(v: LabelView, all: Labels)
    requires Represents(v, all)
    ensures var b, w := Serialized(v, all), Window(v, all);
            && |b| == 1 + |w| + WireLength(w) && b[0] as int == |w| && Short(w) && b[1 + |w|..] == Encode(w)
            && forall i | 0 <= i < |w| :: b[1 + i] as int == Starts(w, 0)[i]
  {
    WindowIsEncoding(v, all);
    WindowCount(v, all);
    WindowSize(v, all);
    WindowNonRoot(v, all);
    WindowWireLength(v, all);
    hide Represents, Encode, Starts, WireLength, DataLength, MovedOffsets, Window, DataOf;
    EncodeLength(Window(v, all));
  }

  lemma TakeApart(n: Byte, table: seq<Byte>, data: Bytes, rest: Bytes)
    requires 0 < n && |table| == n as int
    ensures var b := [n] + table + data + rest;
            && b[0] == n && b[1..1 + n as int] == table
            && b[1 + n as int..] == data + rest && (data + rest)[..|data|] == data
  {
  }

  lemma WindowNonRoot(v: LabelView, all: Labels)
    requires Represents(v, all)
    ensures var w := Window(v, all); w != [] && Short(w) && NonRoot(w[..|w| - 1])
    ensures DataOfIsEncoding(v, all)
  {
    WindowIsEncoding(v, all);
    var w := Window(v, all);
    assert forall k | 0 <= k < |w| - 1 :: w[k] == all[..v.last][v.first + k];
  }

  ghost predicate DataOfIsEncoding(v: LabelView, all: Labels)
    requires Represents(v, all)
  {
    WindowIsEncoding(v, all);
    DataOf(v) == Encode(Window(v, all))
  }

  lemma RebuiltView(d: LabelView, w: Labels)
    requires w != [] && d.first == 0 && d.last == |w| - 1 && |d.offsets| == |w|
    requires Short(w) && NonRoot(w[..|w| - 1]) && WireLength(w) <= |d.data| && d.data[..WireLength(w)] == Encode(w)
    requires forall i | 0 <= i < |w| :: d.offsets[i] == Starts(w, 0)[i]
    ensures Represents(d, w) && Window(d, w) == w
  {
    hide Encode, Starts, WireLength, NonRoot;
  }

  /** memcpy into the buffer at a position. */
  method CopyInto(buf: array<Byte>, at: nat, data: Bytes)
    requires at + |data| <= buf.Length
    modifies buf
    ensures buf[..] == old(buf[..at]) + data + old(buf[at + |data|..])
  {
    forall k | 0 <= k < |data| {
      buf[at + k] := data[k];
    }
  }

  /** The loop that writes a window's offsets into a table. */
  method WriteOffsets(v: LabelView, buf: array<Byte>, pos: nat, at: nat)
    requires v.first <= v.last < |v.offsets| && pos + |MovedOffsets(v, at)| <= buf.Length
    modifies buf
    ensures buf[..] == old(buf[..pos]) + MovedOffsets(v, at) + old(buf[pos + |MovedOffsets(v, at)|..])
  {
    var n := v.last - v.first + 1;
    ghost var was := buf[..];
    var i := 0;
    while i < n
      invariant 0 <= i <= n
      invariant forall k | 0 <= k < pos :: buf[k] == was[k]
      invariant forall k | pos <= k < pos + i :: buf[k] == MovedOffsets(v, at)[k - pos]
      invariant forall k | pos + i <= k < buf.Length :: buf[k] == was[k]
    {
      buf[pos + i] := (at + v.offsets[v.first + i] as int - v.offsets[v.first] as int) % 256;
      i := i + 1;
    }
  }

  /** LabelSequence::serialize into a buffer apart from the sequence's own:
      refused, with nothing written, exactly when the buffer is too short. */
  method Serialize(v: LabelView, buf: array<Byte>, ghost all: Labels) returns (ok: bool)
    requires Represents(v, all)
    modifies buf
    ensures ok <==> |Serialized(v, all)| <= buf.Length
    ensures ok ==> buf[..] == Serialized(v, all) + old(buf[..])[|Serialized(v, all)|..]
    ensures !ok ==> buf[..] == old(buf[..])
  {
    hide Represents, WireLength, Encode, MovedOffsets, DataLength;
    WindowIsEncoding(v, all);
    WindowCount(v, all);
    WindowSize(v, all);
    var n := v.last - v.first + 1;
    var data := DataOf(v);
    if 1 + n + |data| > buf.Length {
      return false;
    }
    ghost var was := buf[..];
    CopyInto(buf, 0, [n as Byte]);
    ghost var one := buf[..];
    WriteOffsets(v, buf, 1, 0);
    ghost var two := buf[..];
    CopyInto(buf, 1 + n, data);
    ThreeWrites(was, one, two, buf[..], n, MovedOffsets(v, 0), data);
    ok := true;
  }

  lemma ThreeWrites(was: Bytes, one: Bytes, two: Bytes, b: Bytes, n: Byte, table: seq<Byte>, data: Bytes)
    requires |was| == |one| == |two| == |b| && 1 + |table| + |data| <= |was|
    requires one == was[..0] + [n] + was[1..]
    requires two == one[..1] + table + one[1 + |table|..]
    requires b == two[..1 + |table|] + data + two[1 + |table| + |data|..]
    ensures b == [n] + table + data + was[1 + |table| + |data|..]
  {
    assert two[..1 + |table|] == [n] + table;
    assert two[1 + |table| + |data|..] == was[1 + |table| + |data|..];
  }

  // ---------------------------------------------------------------- a sequence in a caller's buffer

  /** The first 255 bytes of the buffer are the data, the next 128 the table. */
  function BufferView(b: Bytes, first: nat, last: nat): (v: LabelView)
    requires |b| == MAX_SERIALIZED_LENGTH
  {
    LabelView(b[..MAX_WIRE], b[MAX_WIRE..MAX_WIRE + MAX_LABELS], first, last)
  }

  /** The data hold the labels' encoding, the table where each label starts. */
  ghost predicate Holds(data: Bytes, table: seq<Byte>, ls: Labels) {
    && Short(ls) && WireLength(ls) <= |data| && |ls| <= |table|
    && data[..WireLength(ls)] == Encode(ls)
    && forall i | 0 <= i < |ls| :: table[i] == Starts(ls, 0)[i]
  }

  lemma HoldsPrefix(data: Bytes, table: seq<Byte>, ls: Labels, k: nat)
    requires Holds(data, table, ls) && k <= |ls|
    ensures Holds(data, table, ls[..k])
  {
    hide Encode, Starts, WireLength;
    SplitAt(ls, k);
    assert data[..WireLength(ls[..k])] == data[..WireLength(ls)][..WireLength(ls[..k])];
  }

  /** Writing the encoding of w after base, and its offsets after base's, makes
      the buffer hold base followed by w. */
  lemma {:induction false} AppendHolds(data: Bytes, table: seq<Byte>, base: Labels, w: Labels, data': Bytes, table': seq<Byte>)
    requires Holds(data, table, base) && Short(w)
    requires WireLength(base) + WireLength(w) <= |data'| && |base| + |w| <= |table'|
    requires data'[..WireLength(base)] == data[..WireLength(base)]
    requires data'[WireLength(base)..WireLength(base) + WireLength(w)] == Encode(w)
    requires forall i | 0 <= i < |base| :: table'[i] == table[i]
    requires forall i | |base| <= i < |base| + |w| :: table'[i] == Starts(w, WireLength(base))[i - |base|]
    ensures Holds(data', table', base + w)
  {
    hide Encode, Starts, WireLength;
    EncodeAppend(base, w);
    WireLengthAppend(base, w);
    AppendData(data, data', base, w);
    forall i | 0 <= i < |base + w|
      ensures table'[i] == Starts(base + w, 0)[i]
    {
      StartOfAppended(base, w, i);
    }
  }

  lemma {:induction false} AppendData(data: Bytes, data': Bytes, base: Labels, w: Labels)
    requires Short(base) && Short(w)
    requires WireLength(base) <= |data| && WireLength(base) + WireLength(w) <= |data'|
    requires data[..WireLength(base)] == Encode(base)
    requires data'[..WireLength(base)] == data[..WireLength(base)]
    requires data'[WireLength(base)..WireLength(base) + WireLength(w)] == Encode(w)
    ensures data'[..WireLength(base) + WireLength(w)] == Encode(base) + Encode(w)
  {
    hide Encode, WireLength, Short;
    var n, m := WireLength(base), WireLength(w);
    assert data'[..n + m] == data'[..n] + data'[n..n + m];
  }

  lemma {:induction false} StartOfAppended(base: Labels, w: Labels, i: nat)
    requires i < |base| + |w|
    ensures Starts(base + w, 0)[i] == if i < |base| then Starts(base, 0)[i] else Starts(w, WireLength(base))[i - |base|]
  {
    hide Starts, WireLength;
    StartsAppend(base, w, 0);
  }

  function DataPart(b: Bytes): (r: Bytes)
    requires |b| == MAX_SERIALIZED_LENGTH
    ensures |r| == MAX_WIRE
  {
    b[..MAX_WIRE]
  }

  function TablePart(b: Bytes): (r: seq<Byte>)
    requires |b| == MAX_SERIALIZED_LENGTH
    ensures |r| == MAX_LABELS
  {
    b[MAX_WIRE..MAX_WIRE + MAX_LABELS]
  }

  /** Copy a window's bytes to position `at` and its offsets to index `from` of
      the table, behind labels already there. */
  method AppendLabels(src: LabelView, buf: array<Byte>, ghost base: Labels, ghost all: Labels, at: nat, from: nat)
    requires Represents(src, all) && buf.Length == MAX_SERIALIZED_LENGTH
    requires at == WireLength(base) && from == |base| && Holds(DataPart(buf[..]), TablePart(buf[..]), base)
    requires at + WireLength(Window(src, all)) <= MAX_WIRE && from + |Window(src, all)| <= MAX_LABELS
    modifies buf
    ensures Holds(DataPart(buf[..]), TablePart(buf[..]), base + Window(src, all))
  {
    hide Encode, Starts, WireLength, Holds, Represents, MovedOffsets, DataLength, Window, Short, DataOf, DataPart, TablePart;
    WindowSize(src, all);
    ghost var was := buf[..];
    ghost var w := Window(src, all);
    WindowData(src, all);
    MovedOffsetsAre(src, all, at);
    var data := DataOf(src);
    CopyInto(buf, at, data);
    ghost var mid := buf[..];
    WriteOffsets(src, buf, MAX_WIRE + from, at);
    TwoWrites(was, mid, buf[..], at, data, from, MovedOffsets(src, at));
    AppendHolds(DataPart(was), TablePart(was), base, w, DataPart(buf[..]), TablePart(buf[..]));
  }

  lemma WindowData(v: LabelView, all: Labels)
    requires Represents(v, all)
    ensures v.first <= v.last < |v.offsets| && v.offsets[v.last] < |v.data|
    ensures 0 <= DataLength(v) && v.offsets[v.first] as int + DataLength(v) <= |v.data|
    ensures Short(Window(v, all)) && DataOf(v) == Encode(Window(v, all)) && |DataOf(v)| == WireLength(Window(v, all))
  {
    WindowIsEncoding(v, all);
  }

  lemma TwoWrites(was: Bytes, mid: Bytes, b: Bytes, at: nat, data: Bytes, from: nat, table: seq<Byte>)
    requires |was| == |mid| == |b| == MAX_SERIALIZED_LENGTH
    requires at + |data| <= MAX_WIRE && from + |table| <= MAX_LABELS
    requires mid == was[..at] + data + was[at + |data|..]
    requires b == mid[..MAX_WIRE + from] + table + mid[MAX_WIRE + from + |table|..]
    ensures DataPart(b)[..at] == DataPart(was)[..at] && DataPart(b)[at..at + |data|] == data
    ensures forall i | 0 <= i < from :: TablePart(b)[i] == TablePart(was)[i]
    ensures forall i | from <= i < from + |table| :: TablePart(b)[i] == table[i - from]
  {
    Overwritten(was, at, data);
    Overwritten(mid, MAX_WIRE + from, table);
    var d := DataPart(b)[at..at + |data|];
    forall i | 0 <= i < |data|
      ensures d[i] == data[i]
    {
      assert b[at + i] == mid[at + i];
    }
    assert d == data;
  }

  lemma Overwritten(was: Bytes, at: nat, data: Bytes)
    requires at + |data| <= |was|
    ensures var r := was[..at] + data + was[at + |data|..];
            && |r| == |was|
            && (forall i | 0 <= i < at || at + |data| <= i < |was| :: r[i] == was[i])
            && (forall i | at <= i < at + |data| :: r[i] == data[i - at])
  {
  }

  lemma HoldsIsRepresents(b: Bytes, ls: Labels, first: nat)
    requires |b| == MAX_SERIALIZED_LENGTH && ls != [] && first < |ls|
    ensures Represents(BufferView(b, first, |ls| - 1), ls)
            <==> Holds(DataPart(b), TablePart(b), ls) && NonRoot(ls[..|ls| - 1])
  {
    hide Encode, Starts, WireLength, NonRoot;
  }

  /** The labels a buffer keeps when it is extended: all but a final root. */
  ghost function WithoutRoot(ls: Labels): (r: Labels)
    requires ls != []
  {
    if Last(ls) == [] then Init(ls) else ls
  }

  lemma WithoutRootFacts(v: LabelView, mine: Labels)
    requires Represents(v, mine)
    ensures mine != [] && v.offsets[v.last] < |v.data|
    ensures var base := WithoutRoot(mine);
            && NonRoot(base) && (v.data[v.offsets[v.last]] == 0 <==> Last(mine) == [])
            && |base| == (if Last(mine) == [] then v.last else v.last + 1)
            && WireLength(base) == v.offsets[v.last] as int + v.data[v.offsets[v.last]] as int
                                   + (if Last(mine) == [] then 0 else 1)
  {
    hide Encode, Starts;
    LabelBytes(v, mine, v.last);
    StartAt(mine, v.last);
    assert mine[..v.last] == Init(mine);
    if Last(mine) != [] {
      assert mine == mine[..v.last] + [Last(mine)];
    } else {
      SplitRoot(mine);
    }
  }

  class BufferedSequence {
    const buf: array<Byte>
    var first: nat
    var last: nat

    ghost function View(): (v: LabelView)
      requires buf.Length == MAX_SERIALIZED_LENGTH
      reads this, buf
    {
      BufferView(buf[..], first, last)
    }

    /** The copying constructor: an equal sequence in the given buffer. */
    constructor Copy(src: LabelView, buf: array<Byte>, ghost all: Labels)
      requires Represents(src, all) && WireLength(Window(src, all)) <= MAX_WIRE
      requires buf.Length == MAX_SERIALIZED_LENGTH
      modifies buf
      ensures this.buf == buf && first == 0
      ensures Represents(View(), Window(src, all)) && Window(View(), Window(src, all)) == Window(src, all)
    {
      this.buf := buf;
      first := 0;
      last := src.last - src.first;
      new;
      WindowNonRoot(src, all);
      WindowCount(src, all);
      WindowSize(src, all);
      assert Holds(DataPart(buf[..]), TablePart(buf[..]), []);
      hide Represents, Holds, Encode, Starts, Short;
      AppendLabels(src, buf, [], all, 0, 0);
      assert [] + Window(src, all) == Window(src, all);
      HoldsIsRepresents(buf[..], Window(src, all), 0);
    }

    method StripLeft(i: nat) returns (ok: bool)
      requires first <= last
      modifies this`first
      ensures ok <==> i < last - old(first) + 1
      ensures first == if ok then old(first) + i else old(first)
    {
      ok := i < last - first + 1;
      if ok {
        first := first + i;
      }
    }

    method StripRight(i: nat) returns (ok: bool)
      requires first <= last
      modifies this`last
      ensures ok <==> i < old(last) - first + 1
      ensures last == if ok then old(last) - i else old(last)
    {
      ok := i < last - first + 1;
      if ok {
        last := last - i;
      }
    }

    /** extend(): the argument's labels after the receiver's, whose root is
        dropped; refused, with nothing changed, when the buffer is not the
        receiver's or they do not fit. */
    method Extend(labels: LabelView, target: array<Byte>, ghost mine: Labels, ghost theirs: Labels)
      returns (ok: bool)
      requires buf.Length == MAX_SERIALIZED_LENGTH
      requires Represents(View(), mine) && Represents(labels, theirs)
      modifies this`last, buf
      ensures var base, w := WithoutRoot(mine), Window(labels, theirs);
              ok <==> target == buf && |base| + |w| <= MAX_LABELS && WireLength(base) + WireLength(w) <= MAX_WIRE
      ensures !ok ==> View() == old(View())
      ensures ok ==>
                var base, w := WithoutRoot(mine), Window(labels, theirs);
                && Represents(View(), base + w)
                && first <= |base| && Window(View(), base + w) == base[first..] + w
    {
      hide Encode, Starts, WireLength, Holds, Represents, DataLength, Window, Short, DataOf, WithoutRoot, NonRoot,
           KeptCount, KeptLength, BufferView, DataPart, TablePart;
      WindowSize(labels, theirs);
      ExtendReady(buf[..], first, last, mine);
      WindowNonRoot(labels, theirs);
      WindowData(labels, theirs);
      ghost var base, w := WithoutRoot(mine), Window(labels, theirs);
      var count := KeptCount(buf[..], last);
      var length := KeptLength(buf[..], last);
      var more := labels.last - labels.first + 1;
      var data := DataOf(labels);
      if target != buf || count + more > MAX_LABELS || length + |data| > MAX_WIRE {
        return false;
      }
      AppendLabels(labels, buf, base, theirs, length, count);
      last := count + more - 1;
      ExtendDone(buf[..], first, base, w);
      ok := true;
    }
  }

  /** What extend keeps of a buffer: a final root label is virtually stripped. */
  function KeptCount(b: Bytes, last: nat): (n: nat)
    requires |b| == MAX_SERIALIZED_LENGTH && last < MAX_LABELS
  {
    if b[b[MAX_WIRE + last]] == 0 then last else last + 1
  }

  function KeptLength(b: Bytes, last: nat): (n: nat)
    requires |b| == MAX_SERIALIZED_LENGTH && last < MAX_LABELS
  {
    var o := b[MAX_WIRE + last] as int;
    if b[o] == 0 then o else o + b[o] as int + 1
  }

  lemma ExtendReady(b: Bytes, first: nat, last: nat, mine: Labels)
    requires |b| == MAX_SERIALIZED_LENGTH && Represents(BufferView(b, first, last), mine)
    ensures mine != [] && last < MAX_LABELS
    ensures var base := WithoutRoot(mine);
            && Holds(DataPart(b), TablePart(b), base) && NonRoot(base) && first <= |base|
            && |base| == KeptCount(b, last) && WireLength(base) == KeptLength(b, last)
  {
    hide Encode, Starts, WireLength, NonRoot;
    var v := BufferView(b, first, last);
    var base := WithoutRoot(mine);
    WithoutRootFacts(v, mine);
    HoldsIsRepresents(b, mine, first);
    assert mine[..|base|] == base;
    HoldsPrefix(DataPart(b), TablePart(b), mine, |base|);
    assert v.offsets[last] == b[MAX_WIRE + last] && v.data[v.offsets[last]] == b[v.offsets[last]];
  }

  lemma ExtendDone(b: Bytes, first: nat, base: Labels, w: Labels)
    requires |b| == MAX_SERIALIZED_LENGTH && Holds(DataPart(b), TablePart(b), base + w)
    requires NonRoot(base) && w != [] && NonRoot(w[..|w| - 1]) && first <= |base|
    ensures Represents(BufferView(b, first, |base| + |w| - 1), base + w)
    ensures Window(BufferView(b, first, |base| + |w| - 1), base + w) == base[first..] + w
  {
    hide Holds, Represents, NonRoot;
    ExtendedNonRoot(base, w);
    HoldsIsRepresents(b, base + w, first);
    assert (base + w)[first..] == base[first..] + w;
  }

  lemma ExtendedNonRoot(base: Labels, w: Labels)
    requires NonRoot(base) && w != [] && NonRoot(w[..|w| - 1])
    ensures NonRoot((base + w)[..|base + w| - 1])
  {
  }

  /** Dropping labels at the left narrows the window; dropping them at the right
      also forgets the rest of the table. */
  lemma StripKeeps(v: LabelView, all: Labels, i: nat)
    requires Represents(v, all) && i < |Window(v, all)|
    ensures Represents(v.(first := v.first + i), all)
    ensures Window(v.(first := v.first + i), all) == Window(v, all)[i..]
    ensures Represents(v.(last := v.last - i), all[..|all| - i])
    ensures Window(v.(last := v.last - i), all[..|all| - i]) == Window(v, all)[..|Window(v, all)| - i]
  {
    hide Encode, Starts, WireLength;
    var k := |all| - i;
    SplitAt(all, k);
    assert all[..k][..k - 1] == all[..v.last][..k - 1];
    assert v.data[..WireLength(all[..k])] == v.data[..WireLength(all)][..WireLength(all[..k])];
  }
}
