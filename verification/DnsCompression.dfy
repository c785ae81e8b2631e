/** Compressed names: labels in place, ended by the root or by a pointer to an earlier
    name (slave/dns/name.cpp; section 4.1.4 of RFC 1035). */
module DnsCompression {
  import opened Wrappers
  import opened DnsLabels
  import opened DnsText
  import opened DnsWire

  /** At pos stand the labels of the first segment; behind them the root octet or, when
      segments follow, two octets, the upper two bits set, that give a position below the
      bound where those stand. */
  ghost predicate Chain(buf: Bytes, pos: nat, bound: nat, segments: seq<Labels>)
    decreases |segments|
  {
    && segments != [] && NonRoot(segments[0]) && Ahead(buf, pos, Encode(segments[0]))
    && var end := pos + WireLength(segments[0]);
    && end < |buf|
    && if |segments| == 1 then buf[end] == 0
       else && buf[end] >= 0xc0 && end + 1 < |buf|
            && var target := (buf[end] as int - 0xc0) * 256 + buf[end + 1] as int;
            target < bound && Chain(buf, target, target, segments[1..])
  }

  ghost function AllLabels(segments: seq<Labels>): (ls: Labels) {
    if segments == [] then [[]] else segments[0] + AllLabels(segments[1..])
  }

  /** How many octets the name takes up in place: the first segment and its end. */
  ghost function InPlace(segments: seq<Labels>): (n: nat)
    requires segments != []
  {
    WireLength(segments[0]) + if |segments| == 1 then 1 else 2
  }

  lemma EndOctet(buf: Bytes, pos: nat, bound: nat)
    requires pos < |buf|
    ensures buf[pos] == 0 ==> Follow(buf, pos, bound) == Some([[]]) && InPlaceLength(buf, pos) == 1
    ensures buf[pos] >= 0xc0 && pos + 1 < |buf| ==>
              var target := (buf[pos] as int - 0xc0) * 256 + buf[pos + 1] as int;
              && InPlaceLength(buf, pos) == 2
              && Follow(buf, pos, bound) == if target < bound then Follow(buf, target, target) else None
  {
  }

  lemma LabelOctets(buf: Bytes, pos: nat, bound: nat, l: Bytes)
    requires 1 <= |l| <= 63 && Ahead(buf, pos, [|l| as Byte] + l)
    ensures Follow(buf, pos, bound) == Cons(l, Follow(buf, pos + 1 + |l|, bound))
    ensures InPlaceLength(buf, pos) == 1 + |l| + InPlaceLength(buf, pos + 1 + |l|)
  {
    AheadSplit(buf, pos, [|l| as Byte], l);
    assert buf[pos + 0] == [|l| as Byte][0];
    assert buf[pos + 1..pos + 1 + |l|] == l;
  }

  /** Labels in place are read one after the other. */
  lemma {:induction false} LabelsInPlace(buf: Bytes, pos: nat, bound: nat, ls: Labels)
    requires NonRoot(ls) && Ahead(buf, pos, Encode(ls))
    ensures Follow(buf, pos, bound) == Prepend(ls, Follow(buf, pos + WireLength(ls), bound))
    ensures InPlaceLength(buf, pos) == WireLength(ls) + InPlaceLength(buf, pos + WireLength(ls))
    decreases |ls|
  {
    hide Follow, InPlaceLength;
    if ls == [] {
      NothingBefore(Follow(buf, pos, bound));
    } else {
      var l, rest := ls[0], ls[1..];
      AheadSplit(buf, pos, [|l| as Byte] + l, Encode(rest));
      LabelOctets(buf, pos, bound, l);
      LabelsInPlace(buf, pos + 1 + |l|, bound, rest);
      PrependFirst(ls, Follow(buf, pos + WireLength(ls), bound));
    }
  }

  lemma NothingBefore(r: Option<Labels>)
    ensures Prepend([], r) == r
  {
    if r.Some? {
      assert [] + r.value == r.value;
    }
  }

  lemma PrependFirst(ls: Labels, r: Option<Labels>)
    requires ls != []
    ensures Prepend(ls, r) == Cons(ls[0], Prepend(ls[1..], r))
  {
    if r.Some? {
      Regroup([ls[0]], ls[1..], r.value);
      assert ls == [ls[0]] + ls[1..];
    }
  }

  /** Whatever is compressed, and through however many pointers, reads as the labels of
      its segments. */
  lemma {:induction false} ChainIsRead(buf: Bytes, pos: nat, bound: nat, segments: seq<Labels>)
    requires Chain(buf, pos, bound, segments)
    ensures Follow(buf, pos, bound) == Some(AllLabels(segments)) && InPlaceLength(buf, pos) == InPlace(segments)
    decreases |segments|
  {
    hide Follow, InPlaceLength, Encode, WireLength;
    var ls := segments[0];
    var end := pos + WireLength(ls);
    LabelsInPlace(buf, pos, bound, ls);
    EndOctet(buf, end, bound);
    if |segments| == 1 {
      assert AllLabels(segments[1..]) == [[]];
    } else {
      ChainIsRead(buf, (buf[end] as int - 0xc0) * 256 + buf[end + 1] as int,
                  (buf[end] as int - 0xc0) * 256 + buf[end + 1] as int, segments[1..]);
    }
  }

  /** Every name that is read is such a chain. */
  lemma {:induction false} ChainOf(buf: Bytes, pos: nat, bound: nat) returns (segments: seq<Labels>)
    requires Follow(buf, pos, bound).Some?
    ensures Chain(buf, pos, bound, segments)
    decreases bound, |buf| - pos
  {
    hide Chain;
    var c := buf[pos];
    if c == 0 {
      segments := [[]];
      RootAlone(buf, pos, bound);
    } else if c <= MAX_LABELLEN {
      var l := buf[pos + 1..pos + 1 + c];
      var more := ChainOf(buf, pos + 1 + c, bound);
      ChainStarts(buf, pos + 1 + c, bound, more);
      segments := [[l] + more[0]] + more[1..];
      Lengthen(buf, pos, bound, l, more);
    } else {
      var target := (c as int - 0xc0) * 256 + buf[pos + 1] as int;
      var more := ChainOf(buf, target, target);
      segments := [[]] + more;
      PointerAlone(buf, pos, bound, more);
    }
  }

  lemma ChainStarts(buf: Bytes, pos: nat, bound: nat, segments: seq<Labels>)
    requires Chain(buf, pos, bound, segments)
    ensures segments != []
  {
  }

  lemma RootAlone(buf: Bytes, pos: nat, bound: nat)
    requires pos < |buf| && buf[pos] == 0
    ensures Chain(buf, pos, bound, [[]])
  {
  }

  lemma PointerAlone(buf: Bytes, pos: nat, bound: nat, more: seq<Labels>)
    requires pos + 1 < |buf| && buf[pos] >= 0xc0
    requires var target := (buf[pos] as int - 0xc0) * 256 + buf[pos + 1] as int;
             target < bound && Chain(buf, target, target, more)
    ensures Chain(buf, pos, bound, [[]] + more)
  {
    assert ([[]] + more)[1..] == more;
  }

  lemma Lengthen(buf: Bytes, pos: nat, bound: nat, l: Bytes, more: seq<Labels>)
    requires 1 <= |l| <= 63 && pos + 1 + |l| <= |buf| && buf[pos] == |l| && buf[pos + 1..pos + 1 + |l|] == l
    requires more != [] && Chain(buf, pos + 1 + |l|, bound, more)
    ensures Chain(buf, pos, bound, [[l] + more[0]] + more[1..])
  {
    var segments := [[l] + more[0]] + more[1..];
    var first := [l] + more[0];
    assert first[1..] == more[0] && segments[1..] == more[1..];
    assert Ahead(buf, pos, [|l| as Byte] + l);
    AheadSplit(buf, pos, [|l| as Byte] + l, Encode(more[0]));
  }

  /** Exactly which octets denote which names. */
  lemma DenotesIff(buf: Bytes, pos: nat, ls: Labels)
    ensures Follow(buf, pos, pos) == Some(ls) <==> exists segments :: ChainTo(buf, pos, segments, ls)
  {
    hide Follow, Chain, AllLabels;
    if Follow(buf, pos, pos) == Some(ls) {
      var segments := ChainOf(buf, pos, pos);
      ChainIsRead(buf, pos, pos, segments);
      assert ChainTo(buf, pos, segments, ls);
    }
    if segments :| ChainTo(buf, pos, segments, ls) {
      ChainIsRead(buf, pos, pos, segments);
    }
  }

  ghost predicate ChainTo(buf: Bytes, pos: nat, segments: seq<Labels>, ls: Labels) {
    Chain(buf, pos, pos, segments) && ls == AllLabels(segments)
  }

  /** An earlier name serves as the tail of a later one: labels in place and a pointer to
      it read as those labels and then that name. */
  lemma PointerSharesTail(buf: Bytes, pos: nat, head: Labels, target: nat, tail: Labels)
    requires target < pos && target < 0x4000
    requires NonRoot(head) && Ahead(buf, pos, Encode(head) + [0xc0 + target / 256, target % 256])
    requires Follow(buf, target, target) == Some(tail)
    ensures Follow(buf, pos, pos) == Some(head + tail) && InPlaceLength(buf, pos) == WireLength(head) + 2
  {
    hide Follow, InPlaceLength, Encode, WireLength;
    var two: Bytes := [0xc0 + target / 256, target % 256];
    EncodeLength(head);
    AheadSplit(buf, pos, Encode(head), two);
    var end := pos + WireLength(head);
    assert buf[end + 0] == two[0] && buf[end + 1] == two[1];
    LabelsInPlace(buf, pos, pos, head);
    EndOctet(buf, end, pos);
  }
}
