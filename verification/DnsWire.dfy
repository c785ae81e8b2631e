/** Wire format with compression pointers (slave/dns/name.cpp; sections 3.1 and
    4.1.4 of RFC 1035). */
module DnsWire {
  import opened Wrappers
  import opened DnsLabels
  import opened DnsText
  import opened Buffers

  // ---------------------------------------------------------------- what a buffer position denotes

  /** Follow labels from pos; a pointer must lead strictly below `bound`, the
      lowest position reached by a pointer so far (at first the name's own
      position). None when the bytes are malformed or run out. */
  ghost function Follow(buf: Bytes, pos: nat, bound: nat): (r: Option<Labels>)
    decreases bound, |buf| - pos
  {
    if pos >= |buf| then None
    else
      var c := buf[pos];
      if c == 0 then Some([[]])
      else if c <= MAX_LABELLEN then
        if pos + 1 + c > |buf| then None
        else Cons(buf[pos + 1..pos + 1 + c], Follow(buf, pos + 1 + c, bound))
      else if c < 0xC0 || pos + 1 >= |buf| then None
      else
        var p := (c - 0xC0) * 256 + buf[pos + 1];
        if p >= bound then None else Follow(buf, p, p)
  }

  ghost function Cons(l: Bytes, r: Option<Labels>): (s: Option<Labels>) {
    match r
    case None => None
    case Some(ls) => Some([l] + ls)
  }

  ghost function Prepend(ls: Labels, r: Option<Labels>): (s: Option<Labels>) {
    match r
    case None => None
    case Some(rest) => Some(ls + rest)
  }

  /** Bytes the name takes up where it stands: up to and including the root
      label or the first pointer. */
  ghost function InPlaceLength(buf: Bytes, pos: nat): (n: nat)
    decreases |buf| - pos
  {
    if pos >= |buf| then 0
    else
      var c := buf[pos];
      if c == 0 then 1
      else if c <= MAX_LABELLEN then 1 + c + InPlaceLength(buf, pos + 1 + c)
      else 2
  }

  lemma {:induction false} FollowedNameShape(buf: Bytes, pos: nat, bound: nat)
    requires Follow(buf, pos, bound).Some?
    ensures var ls := Follow(buf, pos, bound).value;
            && |ls| > 0 && ls[|ls| - 1] == [] && NonRoot(ls[..|ls| - 1]) && Short(ls)
            && (pos < |buf| && buf[pos] <= MAX_LABELLEN ==> WireLength(ls) >= 1 + buf[pos])
    decreases bound, |buf| - pos
  {
    var c := buf[pos];
    if c == 0 {
    } else if c <= MAX_LABELLEN {
      var l := buf[pos + 1..pos + 1 + c];
      FollowedNameShape(buf, pos + 1 + c, bound);
      var rest := Follow(buf, pos + 1 + c, bound).value;
      var ls := [l] + rest;
      assert ls[..|ls| - 1] == [l] + rest[..|rest| - 1];
      assert ls[1..] == rest;
    } else {
      var p := (c - 0xC0) * 256 + buf[pos + 1];
      FollowedNameShape(buf, p, p);
    }
  }

  // ---------------------------------------------------------------- the decoder's loop

  datatype FwState = FwStart | FwOrdinary | FwNewCurrent

  datatype WireError = FormErr

  /** The decoder's variables. */
  datatype Decoder = Decoder(
    state: FwState,
    n: nat,
    done: bool,
    nused: nat,
    seenPointer: bool,
    cused: nat,
    current: nat,
    biggestPointer: nat,
    newCurrent: nat,
    ndata: Bytes,
    offsets: seq<nat>)

  /** The decoder, `start` being where the label or pointer it is in begins and
      `ls` the labels it has completed, is on the way to the labels that
      following the name from pos would give. */
  ghost predicate OnTheWay(d: Decoder, buf: Bytes, pos: nat, downcase: bool, ls: Labels, start: nat) {
    && d.current <= |buf| && d.biggestPointer <= |buf| && NonRoot(ls) && WireLength(ls) <= MAX_WIRE
    && var low := MaybeLowerLabels(ls, downcase);
    && Short(low)
    && if d.done then
         && Follow(buf, pos, pos) == Some(ls + [[]])
         && d.ndata == Encode(low) + [0]
         && d.offsets == Starts(low, 0) + [WireLength(ls)] && d.nused == WireLength(ls) + 1 <= MAX_WIRE
         && d.cused == InPlaceLength(buf, pos)
       else
         && start <= d.current
         && Follow(buf, pos, pos) == Prepend(ls, Follow(buf, start, d.biggestPointer))
         && (if d.seenPointer then d.cused == InPlaceLength(buf, pos)
             else && pos + d.cused == d.current
                  && pos <= start && InPlaceLength(buf, pos) == start - pos + InPlaceLength(buf, start))
         && match d.state
            case FwStart =>
              && d.current == start
              && d.ndata == Encode(low) && d.offsets == Starts(low, 0) && d.nused == WireLength(ls)
            case FwOrdinary =>
              && start < d.current && start < |buf| && 1 <= buf[start] <= MAX_LABELLEN
              && 1 <= d.n <= buf[start] && d.current + d.n == start + 1 + buf[start]
              && d.ndata == Encode(low) + [buf[start]] + MaybeLowerBytes(buf[start + 1..d.current], downcase)
              && d.offsets == Starts(low, 0) + [WireLength(ls)]
              && d.nused == WireLength(ls) + 1 + buf[start] <= MAX_WIRE
            case FwNewCurrent =>
              && d.current == start + 1 && buf[start] >= 0xC0 && d.n == 1 && d.newCurrent == buf[start] - 0xC0
              && d.ndata == Encode(low) && d.offsets == Starts(low, 0) && d.nused == WireLength(ls)
  }

  /** One iteration: the byte c has been read and current already advanced. */
  function Advance(d: Decoder, c: Byte, downcase: bool): (r: Result<Decoder, WireError>)
    requires d.state.FwOrdinary? || d.state.FwNewCurrent? ==> d.n > 0
  {
    var d := d.(current := d.current + 1, cused := if d.seenPointer then d.cused else d.cused + 1);
    match d.state
    case FwStart =>
      if c <= MAX_LABELLEN then
        if d.nused + c + 1 > MAX_WIRE then Err(FormErr)
        else Ok(d.(offsets := d.offsets + [d.nused], nused := d.nused + c + 1, ndata := d.ndata + [c],
                   done := c == 0, n := c, state := FwOrdinary))
      else if c >= 0xC0 then Ok(d.(newCurrent := c - 0xC0, n := 1, state := FwNewCurrent))
      else Err(FormErr)
    case FwOrdinary =>
      Ok(d.(ndata := d.ndata + [MaybeLower(c, downcase)], n := d.n - 1,
            state := if d.n == 1 then FwStart else FwOrdinary))
    case FwNewCurrent =>
      var p := d.newCurrent * 256 + c;
      if d.n != 1 then Ok(d.(newCurrent := p, n := d.n - 1))
      else if p >= d.biggestPointer then Err(FormErr)
      else Ok(d.(newCurrent := p, n := 0, biggestPointer := p, current := p, seenPointer := true, state := FwStart))
  }

  /** The name at pos is malformed or longer than 255 bytes. */
  ghost predicate Rejected(buf: Bytes, pos: nat) {
    Follow(buf, pos, pos).None? || WireLength(Follow(buf, pos, pos).value) > MAX_WIRE
  }

  lemma StartDecoding(buf: Bytes, pos: nat, downcase: bool)
    requires pos <= |buf|
    ensures OnTheWay(Decoder(FwStart, 0, false, 0, false, 0, pos, pos, 0, [], []), buf, pos, downcase, [], pos)
  {
    assert forall ls: Labels :: [] + ls == ls;
  }

  lemma PrependAssoc(ls: Labels, l: Bytes, r: Option<Labels>)
    ensures Prepend(ls, Cons(l, r)) == Prepend(ls + [l], r)
  {
    if r.Some? {
      assert ls + ([l] + r.value) == ls + [l] + r.value;
    }
  }

  lemma LowSnoc(ls: Labels, l: Bytes, downcase: bool)
    ensures MaybeLowerLabels(ls + [l], downcase) == MaybeLowerLabels(ls, downcase) + [MaybeLowerBytes(l, downcase)]
    ensures |MaybeLowerBytes(l, downcase)| == |l|
  {
    hide LowerBytes, LowerLabels;
  }

  lemma AdvanceStart(d: Decoder, buf: Bytes, pos: nat, downcase: bool, ls: Labels, start: nat)
    requires OnTheWay(d, buf, pos, downcase, ls, start) && !d.done && d.state.FwStart? && d.current < |buf|
    ensures var r := Advance(d, buf[start], downcase);
            if r.Err? then Rejected(buf, pos) else OnTheWay(r.value, buf, pos, downcase, ls, start)
  {
    var c := buf[start];
    var r := Advance(d, c, downcase);
    if r.Err? {
      if Follow(buf, start, d.biggestPointer).Some? {
        FollowedNameShape(buf, start, d.biggestPointer);
        WireLengthAppend(ls, Follow(buf, start, d.biggestPointer).value);
      }
    } else if c <= MAX_LABELLEN {
      assert buf[start + 1..start + 1] == [];
      assert Encode(MaybeLowerLabels(ls, downcase)) + [c] + MaybeLowerBytes([], downcase)
             == Encode(MaybeLowerLabels(ls, downcase)) + [c];
    }
  }

  lemma LowNext(buf: Bytes, from: nat, to: nat, downcase: bool)
    requires from <= to < |buf|
    ensures MaybeLowerBytes(buf[from..to + 1], downcase)
            == MaybeLowerBytes(buf[from..to], downcase) + [MaybeLower(buf[to], downcase)]
  {
    assert buf[from..to + 1] == buf[from..to] + [buf[to]];
  }

  lemma AdvanceInside(d: Decoder, buf: Bytes, pos: nat, downcase: bool, ls: Labels, start: nat)
    requires OnTheWay(d, buf, pos, downcase, ls, start) && !d.done && d.state.FwOrdinary? && d.current < |buf|
    requires d.n > 1
    ensures OnTheWay(Advance(d, buf[d.current], downcase).value, buf, pos, downcase, ls, start)
  {
    hide Follow, InPlaceLength, Encode, Starts, WireLength, MaybeLowerBytes, MaybeLower;
    LowNext(buf, start + 1, d.current, downcase);
    Regroup(Encode(MaybeLowerLabels(ls, downcase)) + [buf[start]],
            MaybeLowerBytes(buf[start + 1..d.current], downcase), [MaybeLower(buf[d.current], downcase)]);
  }

  lemma AdvanceLast(d: Decoder, buf: Bytes, pos: nat, downcase: bool, ls: Labels, start: nat)
    requires OnTheWay(d, buf, pos, downcase, ls, start) && !d.done && d.state.FwOrdinary? && d.current < |buf|
    requires d.n == 1
    ensures OnTheWay(Advance(d, buf[d.current], downcase).value, buf, pos, downcase,
                     ls + [buf[start + 1..d.current + 1]], d.current + 1)
  {
    hide Follow, InPlaceLength, Encode, Starts, WireLength, MaybeLowerBytes, MaybeLower, MaybeLowerLabels, NonRoot,
      Short, Prepend;
    var low := MaybeLowerLabels(ls, downcase);
    var l := buf[start + 1..d.current + 1];
    LowNext(buf, start + 1, d.current, downcase);
    LowSnoc(ls, l, downcase);
    LabelEnd(buf, start, d.biggestPointer, ls);
    LabelAdded(ls, l, downcase);
    Regroup(Encode(low) + [buf[start]], MaybeLowerBytes(buf[start + 1..d.current], downcase),
            [MaybeLower(buf[d.current], downcase)]);
  }

  lemma LabelAdded(ls: Labels, l: Bytes, downcase: bool)
    requires NonRoot(ls) && 1 <= |l| <= MAX_LABELLEN && Short(MaybeLowerLabels(ls, downcase))
    ensures var (low, lower) := (MaybeLowerLabels(ls, downcase), MaybeLowerBytes(l, downcase));
            && |lower| == |l| && NonRoot(ls + [l]) && Short(low + [lower])
            && Encode(low + [lower]) == Encode(low) + [|l|] + lower
            && WireLength(ls + [l]) == WireLength(ls) + 1 + |l|
            && Starts(low + [lower], 0) == Starts(low, 0) + [WireLength(ls)]
  {
    hide Encode, Starts, WireLength, MaybeLowerBytes, MaybeLowerLabels;
    LowerShape(ls, downcase);
    LowSnoc(ls, l, downcase);
    EncodeSnoc(MaybeLowerLabels(ls, downcase), MaybeLowerBytes(l, downcase));
    EncodeSnoc(ls, l);
  }

  lemma LabelEnd(buf: Bytes, start: nat, bound: nat, ls: Labels)
    requires start < |buf| && 1 <= buf[start] <= MAX_LABELLEN && start + 1 + buf[start] <= |buf|
    ensures var l := buf[start + 1..start + 1 + buf[start]];
            && Prepend(ls, Follow(buf, start, bound)) == Prepend(ls + [l], Follow(buf, start + 1 + buf[start], bound))
            && InPlaceLength(buf, start) == 1 + buf[start] + InPlaceLength(buf, start + 1 + buf[start])
  {
    PrependAssoc(ls, buf[start + 1..start + 1 + buf[start]], Follow(buf, start + 1 + buf[start], bound));
  }

  lemma LowerShape(ls: Labels, downcase: bool)
    ensures WireLength(MaybeLowerLabels(ls, downcase)) == WireLength(ls)
    ensures Short(ls) ==> Short(MaybeLowerLabels(ls, downcase))
    ensures Starts(MaybeLowerLabels(ls, downcase), 0) == Starts(ls, 0)
  {
    LowerKeepsShape(ls);
  }

  lemma AdvancePointer(d: Decoder, buf: Bytes, pos: nat, downcase: bool, ls: Labels, start: nat)
    requires OnTheWay(d, buf, pos, downcase, ls, start) && !d.done && d.state.FwNewCurrent? && d.current < |buf|
    ensures var r := Advance(d, buf[d.current], downcase);
            if r.Err? then Rejected(buf, pos)
            else OnTheWay(r.value, buf, pos, downcase, ls, r.value.current)
  {
    hide Encode, Starts, WireLength, MaybeLowerLabels, NonRoot, Short;
  }

  /** Bytes run out before the root label. */
  lemma RunsOut(d: Decoder, buf: Bytes, pos: nat, downcase: bool, ls: Labels, start: nat)
    requires OnTheWay(d, buf, pos, downcase, ls, start) && !d.done && d.current >= |buf|
    ensures Rejected(buf, pos)
  {
  }

  lemma DecodedName(d: Decoder, buf: Bytes, pos: nat, downcase: bool, ls: Labels, start: nat)
    requires OnTheWay(d, buf, pos, downcase, ls, start) && d.done
    ensures var r := MaybeLowerLabels(ls + [[]], downcase);
            Short(r) && WellFormedName(r) && NameFrom(d) == NameOf(r)
  {
    var low := MaybeLowerLabels(ls, downcase);
    LowSnoc(ls, [], downcase);
    LowerShape(ls, downcase);
    DonePieces(d, buf, pos, downcase, ls, start);
    hide *;
    NameOfParts(low, d.ndata, NameFrom(d).offsets);
  }

  lemma DonePieces(d: Decoder, buf: Bytes, pos: nat, downcase: bool, ls: Labels, start: nat)
    requires OnTheWay(d, buf, pos, downcase, ls, start) && d.done
    ensures var low := MaybeLowerLabels(ls, downcase);
            && MaybeLowerBytes([], downcase) == []
            && NonRoot(low) && Short(low) && d.ndata == Encode(low) + [0] && |d.ndata| <= MAX_WIRE
            && SameOffsets(NameFrom(d).offsets, Starts(low, 0) + [WireLength(low)])
            && NameFrom(d) == Name(d.ndata, NameFrom(d).offsets, |d.ndata|, |NameFrom(d).offsets|)
  {
    hide Follow, InPlaceLength;
    var low := MaybeLowerLabels(ls, downcase);
    LowerShape(ls, downcase);
    EncodeLength(low);
    EncodeSnoc(low, []);
    forall i | 0 <= i < |d.offsets|
      ensures 0 <= d.offsets[i] < 256
    {
      StartsAreBytes(low + [[]], i);
    }
  }

  /** The offsets fit in bytes, being below 255. */
  function NameFrom(d: Decoder): (n: Name) {
    Name(d.ndata, seq(|d.offsets|, i requires 0 <= i < |d.offsets| => (d.offsets[i] % 256) as Byte), d.nused, |d.offsets|)
  }

  /** Name(InputBuffer&): terminates because every pointer leads lower than any
      before it, and otherwise the reader moves on. It accepts exactly the names
      that following the bytes from the current position denotes in at most
      255 bytes, and then leaves the buffer just after the name's own bytes. */
  method DecodeName(buffer: InputBuffer, downcase: bool) returns (r: Result<Name, WireError>)
    requires buffer.Valid()
    modifies buffer
    ensures buffer.Valid()
    ensures r.Err? <==> Rejected(buffer.data, old(buffer.position))
    ensures r.Ok? ==>
              var ls := MaybeLowerLabels(Follow(buffer.data, old(buffer.position), old(buffer.position)).value, downcase);
              && WellFormedName(ls) && Short(ls) && |ls| <= MAX_LABELS
              && r.value == NameOf(ls)
              && buffer.position == old(buffer.position) + InPlaceLength(buffer.data, old(buffer.position))
  {
    hide Follow, InPlaceLength, OnTheWay, Advance, Rejected, WellFormedName, NameFrom;
    var pos := buffer.position;
    var d := Decoder(FwStart, 0, false, 0, false, 0, pos, pos, 0, [], []);
    ghost var ls: Labels := [];
    ghost var start: nat := pos;
    StartDecoding(buffer.data, pos, downcase);
    while d.current < |buffer.data| && !d.done
      invariant buffer.Valid() && (!d.done ==> buffer.position == d.current)
      invariant OnTheWay(d, buffer.data, pos, downcase, ls, start)
      decreases d.biggestPointer, |buffer.data| - d.current
    {
      var c := buffer.ReadUint8();
      ls, start := AdvanceOnTheWay(d, buffer.data, pos, downcase, ls, start);
      var next := Advance(d, c.value, downcase);
      if next.Err? {
        return Err(FormErr);
      }
      var jumped := d.state.FwNewCurrent?;
      d := next.value;
      if jumped {
        var _ := buffer.SetPosition(d.current);
      }
    }
    if !d.done {
      RunsOut(d, buffer.data, pos, downcase, ls, start);
      return Err(FormErr);
    }
    DecodedName(d, buffer.data, pos, downcase, ls, start);
    WellFormedLabelCount(MaybeLowerLabels(ls + [[]], downcase));
    Accepted(d, buffer.data, pos, downcase, ls, start);
    var _ := buffer.SetPosition(pos + d.cused);
    r := Ok(NameFrom(d));
  }

  /** One iteration keeps to the way, or proves the name malformed or too long;
      a pointer lowers the bound, anything else moves on by one byte. */
  lemma AdvanceOnTheWay(d: Decoder, buf: Bytes, pos: nat, downcase: bool, ls: Labels, start: nat)
    returns (ls': Labels, start': nat)
    requires OnTheWay(d, buf, pos, downcase, ls, start) && !d.done && d.current < |buf|
    ensures d.state.FwOrdinary? || d.state.FwNewCurrent? ==> d.n > 0
    ensures var r := Advance(d, buf[d.current], downcase);
            if r.Err? then Rejected(buf, pos)
            else
              && OnTheWay(r.value, buf, pos, downcase, ls', start')
              && r.value.current <= |buf|
              && if d.state.FwNewCurrent? then !r.value.done && r.value.biggestPointer < d.biggestPointer
                 else r.value.current == d.current + 1 && r.value.biggestPointer == d.biggestPointer
  {
    hide Follow, InPlaceLength, Encode, Starts, WireLength, Rejected;
    ls', start' := ls, start;
    match d.state {
      case FwStart => AdvanceStart(d, buf, pos, downcase, ls, start);
      case FwOrdinary =>
        if d.n > 1 {
          AdvanceInside(d, buf, pos, downcase, ls, start);
        } else {
          AdvanceLast(d, buf, pos, downcase, ls, start);
          ls', start' := ls + [buf[start + 1..d.current + 1]], d.current + 1;
        }
      case FwNewCurrent =>
        AdvancePointer(d, buf, pos, downcase, ls, start);
        if Advance(d, buf[d.current], downcase).Ok? {
          start' := Advance(d, buf[d.current], downcase).value.current;
        }
    }
  }

  lemma Accepted(d: Decoder, buf: Bytes, pos: nat, downcase: bool, ls: Labels, start: nat)
    requires OnTheWay(d, buf, pos, downcase, ls, start) && d.done
    ensures !Rejected(buf, pos) && pos + d.cused <= |buf|
    ensures Follow(buf, pos, pos) == Some(ls + [[]]) && d.cused == InPlaceLength(buf, pos)
  {
    EncodeSnoc(ls, []);
    InPlaceFits(buf, pos, pos);
  }

  lemma {:induction false} InPlaceFits(buf: Bytes, pos: nat, bound: nat)
    requires Follow(buf, pos, bound).Some?
    ensures pos + InPlaceLength(buf, pos) <= |buf|
    decreases |buf| - pos
  {
    var c := buf[pos];
    if 0 < c <= MAX_LABELLEN {
      InPlaceFits(buf, pos + 1 + c, bound);
    }
  }

  /** The text continues with t at position i. */
  ghost predicate Ahead(s: Bytes, i: nat, t: Bytes) {
    i + |t| <= |s| && forall k | 0 <= k < |t| :: s[i + k] == t[k]
  }

  lemma AheadSplit(s: Bytes, i: nat, t: Bytes, u: Bytes)
    ensures Ahead(s, i, t + u) <==> Ahead(s, i, t) && Ahead(s, i + |t|, u)
  {
    if Ahead(s, i, t + u) {
      assert forall k | 0 <= k < |t| :: (t + u)[k] == t[k];
      assert forall k | 0 <= k < |u| :: (t + u)[|t| + k] == u[k];
    }
  }

  /** Decoding undoes toWire: the uncompressed bytes of a name, wherever they
      stand in a buffer, denote that name and take up its wire length. */
  lemma {:induction false} EncodedNameDenotesItself(buf: Bytes, pos: nat, bound: nat, ls: Labels)
    requires |ls| > 0 && ls[|ls| - 1] == [] && NonRoot(ls[..|ls| - 1]) && Short(ls)
    requires Ahead(buf, pos, Encode(ls))
    ensures Follow(buf, pos, bound) == Some(ls) && InPlaceLength(buf, pos) == WireLength(ls)
    decreases |ls|
  {
    hide Follow, InPlaceLength, Ahead, Encode;
    if |ls| == 1 {
      assert ls == [[]];
      RootDenotesItself(buf, pos, bound);
    } else {
      var l, rest := ls[0], ls[1..];
      assert l == ls[..|ls| - 1][0];
      assert rest[..|rest| - 1] == ls[..|ls| - 1][1..];
      LabelAhead(buf, pos, bound, ls);
      EncodedNameDenotesItself(buf, pos + 1 + |l|, bound, rest);
      assert ls == [l] + rest;
    }
  }

  lemma RootDenotesItself(buf: Bytes, pos: nat, bound: nat)
    requires Ahead(buf, pos, Encode([[]]))
    ensures Follow(buf, pos, bound) == Some([[]]) && InPlaceLength(buf, pos) == WireLength([[]]) == 1
  {
    var root := Encode([[]]);
    assert root == [0];
    assert buf[pos + 0] == root[0];
  }

  /** The first label is read, and the others stand behind it. */
  lemma LabelAhead(buf: Bytes, pos: nat, bound: nat, ls: Labels)
    requires ls != [] && Short(ls) && ls[0] != [] && Ahead(buf, pos, Encode(ls))
    ensures var at := pos + 1 + |ls[0]|;
            && Ahead(buf, at, Encode(ls[1..]))
            && Follow(buf, pos, bound) == Cons(ls[0], Follow(buf, at, bound))
            && InPlaceLength(buf, pos) == 1 + |ls[0]| + InPlaceLength(buf, at)
  {
    var l := ls[0];
    AheadSplit(buf, pos, [|l| as Byte] + l, Encode(ls[1..]));
    AheadSplit(buf, pos, [|l| as Byte], l);
    LabelRead(buf, pos, bound, l);
  }

  lemma LabelRead(buf: Bytes, pos: nat, bound: nat, l: Bytes)
    requires 0 < |l| <= MAX_LABELLEN && Ahead(buf, pos, [|l| as Byte]) && Ahead(buf, pos + 1, l)
    ensures var at := pos + 1 + |l|;
            && Follow(buf, pos, bound) == Cons(l, Follow(buf, at, bound))
            && InPlaceLength(buf, pos) == 1 + |l| + InPlaceLength(buf, at)
  {
    var size := [|l| as Byte];
    assert buf[pos + 0] == size[0];
    assert buf[pos + 1..pos + 1 + |l|] == l;
  }
}
