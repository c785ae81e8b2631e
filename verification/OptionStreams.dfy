/** The option part of a datagram, octet by octet (slave/dhcp++/libdhcp++.cpp). */
module OptionStreams {
  import opened Wrappers
  import opened DhcpOptions

  /** What may stand in a stream: a padding octet, or a code, a length and a payload. */
  datatype Item = Pad | Opt(option: DhcpOption)

  ghost predicate Proper(items: seq<Item>) {
    forall i | 0 <= i < |items| && items[i].Opt? :: items[i].option.code != 0 && items[i].option.code != 255
  }

  ghost function ItemOctets(item: Item): (b: Bytes) {
    match item
    case Pad => [0]
    case Opt(o) => [o.code, |o.data|] + o.data
  }

  ghost function Octets(items: seq<Item>): (b: Bytes) {
    if items == [] then [] else ItemOctets(items[0]) + Octets(items[1..])
  }

  ghost function OptionsOf(items: seq<Item>): (r: Options) {
    if items == [] then []
    else (if items[0].Opt? then [items[0].option] else []) + OptionsOf(items[1..])
  }

  /** Where a stream ends: nothing is left, the END octet, or an option cut short. */
  ghost predicate Ends(tail: Bytes) {
    || tail == []
    || tail[0] == 255
    || (tail[0] != 0 && (|tail| == 1 || |tail| < 2 + tail[1] as int))
  }

  /** Reading a stream yields its options in order, skips the padding, and stops where it
      ends, whatever follows. */
  lemma {:induction false} StreamIsRead(items: seq<Item>, tail: Bytes)
    requires Proper(items) && Ends(tail)
    ensures ParseOptions(Octets(items) + tail) == OptionsOf(items)
    ensures ParseStop(Octets(items) + tail) == |Octets(items)|
  {
    hide *;
    if items == [] {
      NoItems(tail);
    } else {
      StreamIsRead(items[1..], tail) by { ProperRest(items); }
      FirstItem(items, tail);
    }
  }

  lemma ProperRest(items: seq<Item>)
    requires items != [] && Proper(items)
    ensures Proper(items[1..])
  {
  }

  lemma NoItems(tail: Bytes)
    requires Ends(tail)
    ensures ParseOptions(Octets([]) + tail) == OptionsOf([]) && ParseStop(Octets([]) + tail) == |Octets([])|
  {
    hide ParseOptions, ParseStop;
    assert Octets([]) + tail == tail;
    ParseHalt(tail);
  }

  lemma FirstItem(items: seq<Item>, tail: Bytes)
    requires items != [] && Proper(items)
    ensures var rest := Octets(items[1..]) + tail;
            && ParseOptions(Octets(items) + tail)
               == (if items[0].Opt? then [items[0].option] else []) + ParseOptions(rest)
            && ParseStop(Octets(items) + tail) == |ItemOctets(items[0])| + ParseStop(rest)
            && OptionsOf(items) == (if items[0].Opt? then [items[0].option] else []) + OptionsOf(items[1..])
            && |Octets(items)| == |ItemOctets(items[0])| + |Octets(items[1..])|
  {
    hide ParseOptions, ParseStop;
    var b, rest := Octets(items) + tail, Octets(items[1..]) + tail;
    Regroup(ItemOctets(items[0]), Octets(items[1..]), tail);
    match items[0] {
      case Pad =>
        assert b[1..] == rest;
        ParsePad(b);
      case Opt(o) =>
        FirstOption(o, rest);
        ParseStep(b);
    }
  }

  lemma FirstOption(o: DhcpOption, rest: Bytes)
    ensures var b := [o.code, |o.data|] + o.data + rest;
            b[0] == o.code && b[1] == |o.data| && b[2..2 + |o.data|] == o.data && b[2 + |o.data|..] == rest
  {
  }

  /** Every datagram's option part is such a stream, so what is read from it is the
      options that stand in it. */
  lemma {:induction false} EveryStreamIsRead(b: Bytes) returns (items: seq<Item>, tail: Bytes)
    ensures Proper(items) && Ends(tail) && b == Octets(items) + tail
    ensures ParseOptions(b) == OptionsOf(items) && ParseStop(b) == |Octets(items)|
    decreases |b|
  {
    items, tail := Divide(b);
    StreamIsRead(items, tail);
  }

  lemma {:induction false} Divide(b: Bytes) returns (items: seq<Item>, tail: Bytes)
    ensures Proper(items) && Ends(tail) && b == Octets(items) + tail
    decreases |b|
  {
    hide Ends, ItemOctets;
    if Ends(b) {
      items, tail := [], b;
    } else {
      var item, rest := TakeItem(b);
      var more;
      more, tail := Divide(rest);
      items := [item] + more;
      Prepend(item, more, tail);
    }
  }

  lemma TakeItem(b: Bytes) returns (item: Item, rest: Bytes)
    requires !Ends(b)
    ensures b == ItemOctets(item) + rest && |rest| < |b| && Proper([item])
  {
    if b[0] == 0 {
      item, rest := Pad, b[1..];
    } else {
      var n := 2 + b[1] as int;
      item, rest := Opt(RawOption(b[0], b[2..n])), b[n..];
      assert b[..n] == ItemOctets(item);
      assert b == b[..n] + b[n..];
    }
  }

  lemma Prepend(item: Item, more: seq<Item>, tail: Bytes)
    requires Proper([item]) && Proper(more)
    ensures Proper([item] + more) && Octets([item] + more) + tail == ItemOctets(item) + (Octets(more) + tail)
  {
    hide ItemOctets;
    assert [item][0] == item;
    assert ([item] + more)[1..] == more;
    Regroup(ItemOctets(item), Octets(more), tail);
  }

  /** Packed options are such a stream: a code, a length and the payload each. */
  lemma {:induction false} PackedIsStream(opts: Options) returns (items: seq<Item>)
    ensures Packed(opts) == Octets(items) && OptionsOf(items) == opts && |items| == |opts|
    ensures forall i | 0 <= i < |items| :: items[i] == Opt(opts[i])
  {
    if opts == [] {
      items := [];
    } else {
      var more := PackedIsStream(opts[1..]);
      items := [Opt(opts[0])] + more;
      assert items[1..] == more;
    }
  }

  // ---------------------------------------------------------------- the order of writing

  /** Of options in code order, the ordinary ones are written in that order, then the
      last relay agent information, then the last option 255. */
  lemma EmittedOrder(opts: Options, i: nat, j: nat)
    requires Sorted(opts) && i < j < |Emitted(opts)|
    ensures var r := Emitted(opts);
            && r[i].code != 255
            && (r[i].code == 82 ==> r[j].code == 255)
            && (r[j].code != 82 && r[j].code != 255 ==> r[i].code <= r[j].code && r[i].code != 82)
  {
    PlainSorted(opts);
    LastHasCode(opts, DHO_AGENT);
    LastHasCode(opts, DHO_END);
  }

  lemma {:induction false} PlainSorted(opts: Options)
    requires Sorted(opts)
    ensures Sorted(PlainOnly(opts))
    ensures forall o | o in PlainOnly(opts) :: o in opts && o.code != 82 && o.code != 255
  {
    if opts != [] {
      var n := |opts| - 1;
      PlainSorted(opts[..n]);
      PlainIn(opts[..n]);
    }
  }

  lemma {:induction false} LastHasCode(opts: Options, code: Byte)
    ensures forall o | o in LastOf(opts, code) :: o.code == code
  {
    if opts != [] {
      LastHasCode(opts[..|opts| - 1], code);
    }
  }

  /** Of several options with one code the last is meant. */
  lemma {:induction false} LastIsLast(opts: Options, code: Byte, k: nat)
    requires k < |opts| && opts[k].code == code && forall j | k < j < |opts| :: opts[j].code != code
    ensures LastOf(opts, code) == [opts[k]]
  {
    if k < |opts| - 1 {
      LastIsLast(opts[..|opts| - 1], code, k);
    }
  }
}
