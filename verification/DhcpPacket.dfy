/** The DHCPv4 message: 236 header octets, the magic cookie and the options
    (slave/dhcp++/pkt.cpp, section 2 of RFC 2131). */
module DhcpPacket {
  import opened Wrappers
  import opened Buffers
  import opened DhcpOptions

  const HEADER_LEN: nat := 236
  const MAX_CHADDR_LEN: nat := 16
  const MAX_HWADDR_LEN: nat := 20
  const MAX_SNAME_LEN: nat := 64
  const MAX_FILE_LEN: nat := 128
  const COOKIE: Uint32 := 0x63825363
  const BOOTREQUEST: Byte := 1
  const HTYPE_ETHER: Uint16 := 1

  datatype Fixed = Fixed(
    op: Byte, hops: Byte, transid: Uint32, secs: Uint16, flags: Uint16,
    ciaddr: Uint32, yiaddr: Uint32, siaddr: Uint32, giaddr: Uint32)

  /** The header fields; sname and file are fixed-size arrays. */
  datatype Header = Header(fixed: Fixed, htype: Uint16, hwaddr: Bytes, sname: Bytes, file: Bytes)

  predicate HeaderShape(h: Header) {
    |h.sname| == MAX_SNAME_LEN && |h.file| == MAX_FILE_LEN
  }

  /** Why a message is refused. */
  datatype PktError = OutOfRange | BadValue | InvalidOperation | Unexpected

  // ---------------------------------------------------------------- header octets

  function Zeros(n: nat): (b: Bytes)
    ensures |b| == n
  {
    seq(n, _ => 0)
  }

  function Chaddr(hw: Bytes): (b: Bytes)
    ensures |b| == MAX_CHADDR_LEN
  {
    if 0 < |hw| <= MAX_CHADDR_LEN then hw + Zeros(MAX_CHADDR_LEN - |hw|) else Zeros(MAX_CHADDR_LEN)
  }

  function Hlen(hw: Bytes): (n: Byte) {
    if |hw| < MAX_CHADDR_LEN then |hw| else MAX_CHADDR_LEN
  }

  function PackedFixed(f: Fixed, htype: Byte, hlen: Byte): (b: Bytes)
    ensures |b| == 28
  {
    (PackedLead(f, htype, hlen) + Bytes32(f.transid) + Bytes16(f.secs) + Bytes16(f.flags)) + PackedAddresses(f)
  }

  function PackedLead(f: Fixed, htype: Byte, hlen: Byte): (b: Bytes)
    ensures |b| == 4
  {
    [f.op, htype, hlen, f.hops]
  }

  function PackedAddresses(f: Fixed): (b: Bytes)
    ensures |b| == 16
  {
    Bytes32(f.ciaddr) + Bytes32(f.yiaddr) + Bytes32(f.siaddr) + Bytes32(f.giaddr)
  }

  function PackedHeader(h: Header): (b: Bytes)
    requires HeaderShape(h)
    ensures |b| == HEADER_LEN
  {
    PackedFixed(h.fixed, h.htype % 256, Hlen(h.hwaddr)) + Chaddr(h.hwaddr) + h.sname + h.file
  }

  function ParsedFixed(b: Bytes): (f: Fixed)
    requires |b| == 28
  {
    Fixed(b[0], b[3], Value32(b[4..8]), Value16(b[8..10]), Value16(b[10..12]),
          Value32(b[12..16]), Value32(b[16..20]), Value32(b[20..24]), Value32(b[24..28]))
  }

  /** Cuts or zero-extends, as a vector resize does. */
  function Resized(b: Bytes, n: nat): (r: Bytes)
    ensures |r| == n
  {
    if n <= |b| then b[..n] else b + Zeros(n - |b|)
  }

  function ParsedHeader(b: Bytes): (h: Header)
    requires |b| == HEADER_LEN
    ensures HeaderShape(h)
  {
    Header(ParsedFixed(b[..28]), b[1] as int, Resized(b[28..44], b[2]), b[44..108], b[108..236])
  }

  lemma FixedRoundTrip(f: Fixed, htype: Byte, hlen: Byte)
    ensures var b := PackedFixed(f, htype, hlen);
            ParsedFixed(b) == f && b[1] == htype && b[2] == hlen
  {
    hide Bytes32, Bytes16, Value32, Value16;
    var b := PackedFixed(f, htype, hlen);
    assert b[4..8] == Bytes32(f.transid) && b[8..10] == Bytes16(f.secs) && b[10..12] == Bytes16(f.flags);
    assert b[12..16] == Bytes32(f.ciaddr) && b[16..20] == Bytes32(f.yiaddr);
    assert b[20..24] == Bytes32(f.siaddr) && b[24..28] == Bytes32(f.giaddr);
    BigEndianRoundTrip(f.secs, f.transid);
    BigEndianRoundTrip(f.flags, f.ciaddr);
    BigEndianRoundTrip(0, f.yiaddr);
    BigEndianRoundTrip(0, f.siaddr);
    BigEndianRoundTrip(0, f.giaddr);
  }

  lemma FourPieces(a: Bytes, b: Bytes, c: Bytes, d: Bytes)
    ensures var s := a + b + c + d;
            && s[..|a|] == a
            && s[|a|..|a| + |b|] == b
            && s[|a| + |b|..|a| + |b| + |c|] == c
            && s[|a| + |b| + |c|..|s|] == d
  {
  }

  lemma HwaddrRoundTrip(hw: Bytes)
    ensures Resized(Chaddr(hw), Hlen(hw)) == hw <==> |hw| <= MAX_CHADDR_LEN
  {
  }

  /** The header comes back unchanged exactly when the hardware type is one octet
      and the hardware address fits its field. */
  lemma HeaderRoundTripIff(h: Header)
    requires HeaderShape(h)
    ensures ParsedHeader(PackedHeader(h)) == h <==> h.htype < 256 && |h.hwaddr| <= MAX_CHADDR_LEN
    ensures PackedHeader(h)[2] as int <= MAX_CHADDR_LEN
  {
    hide PackedFixed, ParsedFixed, Chaddr, Resized;
    var hlen := Hlen(h.hwaddr);
    var front := PackedFixed(h.fixed, h.htype % 256, hlen);
    FixedRoundTrip(h.fixed, h.htype % 256, hlen);
    FourPieces(front, Chaddr(h.hwaddr), h.sname, h.file);
    HwaddrRoundTrip(h.hwaddr);
    var b := PackedHeader(h);
    assert b[1] == front[1] && b[2] == front[2];
  }

  // ---------------------------------------------------------------- the message

  datatype Message = Message(header: Header, options: Options)

  ghost function PackedMessage(m: Message): (b: Bytes)
    requires HeaderShape(m.header)
  {
    PackedHeader(m.header) + Bytes32(COOKIE) + Packed(Emitted(m.options)) + [DHO_END]
  }

  /** The message denoted by a datagram; given are the options held before. */
  ghost function ParsedMessage(data: Bytes, accepts: RawOption -> bool, given: Options): (r: Result<Message, PktError>) {
    if |data| < HEADER_LEN then Err(OutOfRange)
    else if data[2] as int > MAX_HWADDR_LEN then Err(BadValue)
    else if |data| == HEADER_LEN then Err(InvalidOperation)
    else if |data| < HEADER_LEN + 4 then Err(Unexpected)
    else if Value32(data[HEADER_LEN..HEADER_LEN + 4]) != COOKIE then Err(Unexpected)
    else Ok(Message(ParsedHeader(data[..HEADER_LEN]),
                    InsertAll(given, Accepted(ParseOptions(data[HEADER_LEN + 4..]), accepts))))
  }

  lemma PackedMessageParts(m: Message, trailing: Bytes)
    requires HeaderShape(m.header)
    ensures var data := PackedMessage(m) + trailing;
            && |data| > HEADER_LEN + 4
            && data[..HEADER_LEN] == PackedHeader(m.header)
            && data[2] == PackedHeader(m.header)[2]
            && Value32(data[HEADER_LEN..HEADER_LEN + 4]) == COOKIE
            && data[HEADER_LEN + 4..] == Packed(Emitted(m.options)) + [DHO_END] + trailing
  {
    hide PackedHeader, Packed, Emitted, Bytes32, Value32;
    var tail := Packed(Emitted(m.options)) + [DHO_END] + trailing;
    var data := PackedMessage(m) + trailing;
    assert data == PackedHeader(m.header) + Bytes32(COOKIE) + tail + [];
    FourPieces(PackedHeader(m.header), Bytes32(COOKIE), tail, []);
    BigEndianRoundTrip(0, COOKIE);
    assert data[2] == data[..HEADER_LEN][2];
    assert data[HEADER_LEN + 4..] == data[HEADER_LEN + 4..HEADER_LEN + 4 + |tail|];
  }

  lemma ParsePackedMessage(m: Message, accepts: RawOption -> bool, trailing: Bytes)
    requires HeaderShape(m.header)
    ensures ParsedMessage(PackedMessage(m) + trailing, accepts, []) ==
            Ok(Message(ParsedHeader(PackedHeader(m.header)), Reread(m.options, accepts, trailing)))
  {
    hide PackedHeader, ParsedHeader, Packed, Emitted, PackedMessage, InsertAll, Accepted, ParseOptions, Value32, HeaderShape;
    PackedMessageParts(m, trailing);
    HeaderRoundTripIff(m.header);
  }

  /** Unpacking a packed message, whatever follows END, restores its header and its
      options other than those their definitions reject. */
  lemma MessageRoundTrip(m: Message, accepts: RawOption -> bool, trailing: Bytes)
    requires HeaderShape(m.header) && Sorted(m.options)
    requires m.header.htype < 256 && |m.header.hwaddr| <= MAX_CHADDR_LEN
    requires Count(m.options, DHO_AGENT) <= 1 && forall o | o in m.options :: Readable(o)
    ensures ParsedMessage(PackedMessage(m) + trailing, accepts, [])
            == Ok(m.(options := Accepted(m.options, accepts)))
  {
    hide PackedHeader, ParsedHeader, PackedMessage, ParsedMessage, Reread, Accepted, Sorted, Count;
    ParsePackedMessage(m, accepts, trailing);
    HeaderRoundTripIff(m.header);
    OptionsRestored(m.options, accepts, trailing);
  }

  /** Exactly which messages can be packed and survive packing and unpacking. */
  lemma {:induction false} MessageRoundTripIff(m: Message, accepts: RawOption -> bool, trailing: Bytes)
    requires HeaderShape(m.header) && Sorted(m.options) && forall o | o in m.options :: accepts(o)
    ensures AllFit(Emitted(m.options)) && ParsedMessage(PackedMessage(m) + trailing, accepts, []) == Ok(m)
            <==> && m.header.htype < 256 && |m.header.hwaddr| <= MAX_CHADDR_LEN
                 && Count(m.options, DHO_AGENT) <= 1
                 && forall o | o in m.options :: Readable(o) && Fits(o)
  {
    hide PackedHeader, ParsedHeader, PackedMessage, ParsedMessage, Reread, Sorted, Count, Readable, Fits, Emitted, AllFit;
    ParsePackedMessage(m, accepts, trailing);
    HeaderRoundTripIff(m.header);
    OptionsRestoredIff(m.options, accepts, trailing);
  }

  /** A payload of 254 octets is the first that pack refuses, although its octets would
      be read back: unpacking can store an option that packing cannot write. */
  lemma LongPayloadIsRefused(header: Header) returns (m: Message)
    requires HeaderShape(header) && header.htype < 256 && |header.hwaddr| <= MAX_CHADDR_LEN
    ensures m.header == header && |m.options| == 1 && |m.options[0].data| == 254
    ensures ParsedMessage(PackedMessage(m), _ => true, []) == Ok(m)
    ensures !AllFit(Emitted(m.options))
  {
    var o := RawOption(1, Zeros(254));
    m := Message(header, [o]);
    hide PackedHeader, ParsedHeader, PackedMessage, ParsedMessage, HeaderShape, ParseOptions, InsertAll;
    assert m.options[..0] == [];
    assert Count(m.options, DHO_AGENT) == 0;
    AcceptedAll(m.options, _ => true);
    MessageRoundTrip(m, _ => true, []);
    assert PackedMessage(m) + [] == PackedMessage(m);
    EmittedHasAll(m.options);
    assert o in m.options;
  }

  // ---------------------------------------------------------------- octet by octet

  /** Where each field of the header lies in a message, and the cookie behind it. */
  ghost predicate LaidOut(b: Bytes, h: Header) {
    && |b| >= 240
    && b[0] == h.fixed.op && b[1] == h.htype % 256 && b[3] == h.fixed.hops
    && b[2] as int == (if |h.hwaddr| < 16 then |h.hwaddr| else 16)
    && Spells32(b, 4, h.fixed.transid) && Spells16(b, 8, h.fixed.secs) && Spells16(b, 10, h.fixed.flags)
    && Spells32(b, 12, h.fixed.ciaddr) && Spells32(b, 16, h.fixed.yiaddr)
    && Spells32(b, 20, h.fixed.siaddr) && Spells32(b, 24, h.fixed.giaddr)
    && (forall i | 0 <= i < 16 :: b[28 + i] == if i < |h.hwaddr| <= 16 then h.hwaddr[i] else 0)
    && b[44..108] == h.sname && b[108..236] == h.file
    && b[236..240] == [0x63, 0x82, 0x53, 0x63]
  }

  lemma PackedFixedOctets(f: Fixed, htype: Byte, hlen: Byte)
    ensures var b := PackedFixed(f, htype, hlen);
            && b[0] == f.op && b[1] == htype && b[2] == hlen && b[3] == f.hops
            && Spells32(b, 4, f.transid) && Spells16(b, 8, f.secs) && Spells16(b, 10, f.flags)
            && Spells32(b, 12, f.ciaddr) && Spells32(b, 16, f.yiaddr)
            && Spells32(b, 20, f.siaddr) && Spells32(b, 24, f.giaddr)
  {
    var b := PackedFixed(f, htype, hlen);
    assert b[4..8] == Bytes32(f.transid) && b[8..10] == Bytes16(f.secs) && b[10..12] == Bytes16(f.flags);
    assert b[12..16] == Bytes32(f.ciaddr) && b[16..20] == Bytes32(f.yiaddr);
    assert b[20..24] == Bytes32(f.siaddr) && b[24..28] == Bytes32(f.giaddr);
    hide PackedFixed, Bytes32, Bytes16;
    SpelledNumber(b, 4, f.transid);
    SpelledShort(b, 8, f.secs);
    SpelledShort(b, 10, f.flags);
    SpelledNumber(b, 12, f.ciaddr);
    SpelledNumber(b, 16, f.yiaddr);
    SpelledNumber(b, 20, f.siaddr);
    SpelledNumber(b, 24, f.giaddr);
  }

  lemma SpelledNumber(b: Bytes, i: nat, v: Uint32)
    requires i + 4 <= |b| && b[i..i + 4] == Bytes32(v)
    ensures Spells32(b, i, v)
  {
    hide Bytes32, Value32, Spells32;
    BigEndianRoundTrip(0, v);
    SpelledAt(b, i);
  }

  lemma SpelledShort(b: Bytes, i: nat, v: Uint16)
    requires i + 2 <= |b| && b[i..i + 2] == Bytes16(v)
    ensures Spells16(b, i, v)
  {
    hide Bytes16, Value16, Spells16;
    BigEndianRoundTrip(v, 0);
    SpelledAt(b, i);
  }

  lemma PackedMessageOctets(m: Message)
    requires HeaderShape(m.header)
    ensures LaidOut(PackedMessage(m), m.header)
    ensures PackedMessage(m)[240..] == Packed(Emitted(m.options)) + [DHO_END]
  {
    hide PackedFixed, Packed, Emitted, PackedHeader;
    var h, b := m.header, PackedMessage(m);
    PackedMessageParts(m, []);
    assert b + [] == b;
    PackedHeaderOctets(h);
    assert forall i | 0 <= i < 236 :: b[i] == PackedHeader(h)[i];
    assert b[44..108] == PackedHeader(h)[44..108] && b[108..236] == PackedHeader(h)[108..236];
    assert b[236..240] == Bytes32(COOKIE);
  }

  lemma PackedHeaderOctets(h: Header)
    requires HeaderShape(h)
    ensures LaidOut(PackedHeader(h) + [0x63, 0x82, 0x53, 0x63], h)
  {
    var front, chaddr := PackedFixed(h.fixed, h.htype % 256, Hlen(h.hwaddr)), Chaddr(h.hwaddr);
    PackedFixedOctets(h.fixed, h.htype % 256, Hlen(h.hwaddr));
    FourPieces(front, chaddr, h.sname, h.file);
    var b := PackedHeader(h) + [0x63, 0x82, 0x53, 0x63];
    hide PackedFixed;
    assert forall i | 0 <= i < 28 :: b[i] == front[i];
    assert forall i | 0 <= i < 16 :: b[28 + i] == PackedHeader(h)[28..44][i];
    assert b[44..108] == PackedHeader(h)[44..108] && b[108..236] == PackedHeader(h)[108..236];
  }

  /** Where each field of a header is read from in a datagram. */
  ghost predicate ReadFrom(h: Header, b: Bytes) {
    && |b| >= 236
    && h.fixed.op == b[0] && h.htype == b[1] as int && h.fixed.hops == b[3]
    && Spells32(b, 4, h.fixed.transid) && Spells16(b, 8, h.fixed.secs) && Spells16(b, 10, h.fixed.flags)
    && Spells32(b, 12, h.fixed.ciaddr) && Spells32(b, 16, h.fixed.yiaddr)
    && Spells32(b, 20, h.fixed.siaddr) && Spells32(b, 24, h.fixed.giaddr)
    && |h.hwaddr| == b[2] as int
    && (forall i | 0 <= i < |h.hwaddr| :: h.hwaddr[i] == if i < 16 then b[28 + i] else 0)
    && h.sname == b[44..108] && h.file == b[108..236]
  }

  lemma ParsedHeaderOctets(b: Bytes)
    requires |b| >= 236
    ensures ReadFrom(ParsedHeader(b[..236]), b)
  {
    hide Value32, Value16, Spells32, Spells16;
    HeaderSlices(b);
    FixedSlices(b);
    SpelledAt(b, 4);
    SpelledAt(b, 8);
    SpelledAt(b, 10);
    SpelledAt(b, 12);
    SpelledAt(b, 16);
    SpelledAt(b, 20);
    SpelledAt(b, 24);
    assert b[..236][1] == b[1] && b[..236][2] == b[2];
  }

  /** A datagram is accepted exactly when it has 240 octets, states an address length of
      at most 20 and carries the cookie; its fields are then read from their places. */
  lemma AcceptedDatagrams(data: Bytes, accepts: RawOption -> bool, given: Options)
    ensures var r := ParsedMessage(data, accepts, given);
            && (r.Ok? <==> |data| >= 240 && data[2] as int <= 20 && data[236..240] == [0x63, 0x82, 0x53, 0x63])
            && (r.Ok? ==> ReadFrom(r.value.header, data))
            && (r.Err? ==>
                  r.error == if |data| < 236 then OutOfRange else if data[2] as int > 20 then BadValue
                             else if |data| == 236 then InvalidOperation else Unexpected)
  {
    hide ParsedHeader, ReadFrom, InsertAll, Accepted, ParseOptions;
    if |data| >= 236 {
      ParsedHeaderOctets(data);
    }
    if |data| >= 240 {
      CookieIff(data[236..240]);
    }
  }

  lemma CookieIff(b: Bytes)
    requires |b| == 4
    ensures Value32(b) == COOKIE <==> b == [0x63, 0x82, 0x53, 0x63]
  {
  }

  // ---------------------------------------------------------------- the packet object

  /** The header fields after an attempt to unpack: untouched by a datagram that is too
      short, and but for the hardware address read from any other. */
  ghost function HeaderAfter(h: Header, data: Bytes): (r: Header)
    requires HeaderShape(h)
    ensures HeaderShape(r)
  {
    if |data| < HEADER_LEN then h
    else
      var parsed := ParsedHeader(data[..HEADER_LEN]);
      if data[2] as int > MAX_HWADDR_LEN then parsed.(htype := h.htype, hwaddr := h.hwaddr) else parsed
  }

  class Pkt {
    var op: Byte
    var hops: Byte
    var transid: Uint32
    var secs: Uint16
    var flags: Uint16
    var ciaddr: Uint32
    var yiaddr: Uint32
    var siaddr: Uint32
    var giaddr: Uint32
    var htype: Uint16
    var hwaddr: Bytes
    var sname: Bytes
    var file: Bytes
    var options: Options
    const out: OutputBuffer

    ghost function Fields(): (h: Header)
      reads this
    {
      Header(Fixed(op, hops, transid, secs, flags, ciaddr, yiaddr, siaddr, giaddr), htype, hwaddr, sname, file)
    }

    ghost predicate Valid()
      reads this, out
    {
      HeaderShape(Fields()) && Sorted(options) && out.Valid()
    }

    constructor ()
      ensures Valid() && options == [] && fresh(out) && fresh(out.buffer)
      ensures Fields() == Header(Fixed(BOOTREQUEST, 0, 0, 0, 0, 0, 0, 0, 0), HTYPE_ETHER, [],
                                 Zeros(MAX_SNAME_LEN), Zeros(MAX_FILE_LEN))
    {
      op, hops, transid, secs, flags := BOOTREQUEST, 0, 0, 0, 0;
      ciaddr, yiaddr, siaddr, giaddr := 0, 0, 0, 0;
      htype, hwaddr := HTYPE_ETHER, [];
      sname, file := Zeros(MAX_SNAME_LEN), Zeros(MAX_FILE_LEN);
      options := [];
      out := new OutputBuffer(0);
    }

    /** Refuses a second option of the same code. */
    method AddOption(o: DhcpOption) returns (ok: bool)
      requires Valid()
      modifies this`options
      ensures Valid() && Fields() == old(Fields())
      ensures ok <==> forall x | x in old(options) :: x.code != o.code
      ensures options == if ok then Insert(old(options), o) else old(options)
    {
      if exists x | x in options :: x.code == o.code {
        return false;
      }
      InsertKeepsOrder(options, o);
      options := Insert(options, o);
      return true;
    }

    method PackFixed()
      requires out.Valid()
      modifies out, out.buffer
      ensures out.Valid() && (out.buffer == old(out.buffer) || fresh(out.buffer))
      ensures out.Contents() == old(out.Contents()) + PackedFixed(Fields().fixed, htype % 256, Hlen(hwaddr))
    {
      hide Bytes32, Bytes16, PackedAddresses, PackedLead, Hlen, Spells32, Spells16;
      ghost var before := out.Contents();
      ghost var lead := PackedLead(Fields().fixed, htype % 256, Hlen(hwaddr));
      PackLead();
      out.WriteUint32(transid);
      out.WriteUint16(secs);
      out.WriteUint16(flags);
      RegroupFour(before, lead, Bytes32(transid), Bytes16(secs), Bytes16(flags));
      PackAddresses();
      Regroup(before, lead + Bytes32(transid) + Bytes16(secs) + Bytes16(flags), PackedAddresses(Fields().fixed));
    }

    method PackLead()
      requires out.Valid()
      modifies out, out.buffer
      ensures out.Valid() && (out.buffer == old(out.buffer) || fresh(out.buffer))
      ensures out.Contents() == old(out.Contents()) + PackedLead(Fields().fixed, htype % 256, Hlen(hwaddr))
    {
      RegroupFour(out.Contents(), [op], [htype % 256], [Hlen(hwaddr)], [hops]);
      assert [op] + [htype % 256] + [Hlen(hwaddr)] + [hops] == [op, htype % 256, Hlen(hwaddr), hops];
      out.WriteUint8(op);
      out.WriteUint8(htype % 256);
      out.WriteUint8(if |hwaddr| < MAX_CHADDR_LEN then |hwaddr| else MAX_CHADDR_LEN);
      out.WriteUint8(hops);
    }

    method PackAddresses()
      requires out.Valid()
      modifies out, out.buffer
      ensures out.Valid() && (out.buffer == old(out.buffer) || fresh(out.buffer))
      ensures out.Contents() == old(out.Contents()) + PackedAddresses(Fields().fixed)
    {
      hide Bytes32, Spells32;
      RegroupFour(out.Contents(), Bytes32(ciaddr), Bytes32(yiaddr), Bytes32(siaddr), Bytes32(giaddr));
      out.WriteUint32(ciaddr);
      out.WriteUint32(yiaddr);
      out.WriteUint32(siaddr);
      out.WriteUint32(giaddr);
    }

    method PackChaddr()
      requires out.Valid()
      modifies out, out.buffer
      ensures out.Valid() && (out.buffer == old(out.buffer) || fresh(out.buffer))
      ensures out.Contents() == old(out.Contents()) + Chaddr(hwaddr)
    {
      var left := MAX_CHADDR_LEN;
      if |hwaddr| > 0 && |hwaddr| <= MAX_CHADDR_LEN {
        out.WriteData(hwaddr);
        left := MAX_CHADDR_LEN - |hwaddr|;
      }
      if left > 0 {
        out.WriteData(Zeros(left));
      }
    }

    method PackHeader()
      requires Valid()
      modifies out, out.buffer
      ensures Valid() && (out.buffer == old(out.buffer) || fresh(out.buffer))
      ensures out.Contents() == PackedHeader(Fields())
    {
      hide PackedFixed, Chaddr, Hlen, Sorted;
      out.Clear();
      PackFixed();
      PackChaddr();
      out.WriteData(sname);
      out.WriteData(file);
    }

    /** Packs the message; an option too long for its length octet fails, and then the
        buffer holds everything before that option. */
    method Pack() returns (r: Result<(), PktError>)
      requires Valid()
      modifies out, out.buffer
      ensures Valid() && (out.buffer == old(out.buffer) || fresh(out.buffer))
      ensures r.Ok? <==> AllFit(Emitted(options))
      ensures r.Ok? ==> out.Contents() == PackedMessage(Message(Fields(), options))
      ensures r.Ok? ==> LaidOut(out.Contents(), Fields())
      ensures r.Err? ==>
                && r.error == InvalidOperation
                && out.Contents() == PackedHeader(Fields()) + Bytes32(COOKIE) + Packed(FitPrefix(Emitted(options)))
    {
      hide PackedHeader, HeaderShape, Bytes32, Packed, Emitted, Sorted, AllFit, FitPrefix, LaidOut, Spells32;
      PackHeader();
      out.WriteUint32(COOKIE);
      var ok := PackOptions(out, options);
      if !ok {
        return Err(InvalidOperation);
      }
      out.WriteUint8(DHO_END);
      PackedMessageOctets(Message(Fields(), options));
      return Ok(());
    }

    /** Reads the message from a datagram. */
    method Unpack(data: Bytes, accepts: RawOption -> bool) returns (r: Result<(), PktError>)
      requires Valid()
      modifies this
      ensures Valid()
      ensures var m := ParsedMessage(data, accepts, old(options));
              if m.Ok? then r == Ok(()) && Message(Fields(), options) == m.value
              else r == Err(m.error) && options == old(options)
      ensures Fields() == HeaderAfter(old(Fields()), data)
      ensures r.Ok? <==> |data| >= 240 && data[2] as int <= 20 && data[236..240] == [0x63, 0x82, 0x53, 0x63]
      ensures r.Ok? ==> ReadFrom(Fields(), data)
    {
      AcceptedDatagrams(data, accepts, options);
      hide ReadFrom, Spells32, ParsedHeader, HeaderShape, InsertAll, Accepted, ParseOptions, Value32, Sorted;
      if |data| < HEADER_LEN {
        return Err(OutOfRange);
      }
      var buf := new InputBuffer(data);
      var ok := ReadHeader(buf);
      if !ok {
        return Err(BadValue);
      }
      if |data| == buf.position {
        return Err(InvalidOperation);
      }
      if |data| - buf.position < 4 {
        return Err(Unexpected);
      }
      var magic := buf.ReadUint32();
      if magic.value != COOKIE {
        return Err(Unexpected);
      }
      var rest := buf.ReadData(|data| - buf.position);
      assert rest.value == data[HEADER_LEN + 4..];
      InsertAllKeepsOrder(options, Accepted(ParseOptions(rest.value), accepts));
      var _, opts := UnpackOptions(rest.value, accepts, options);
      options := opts;
      return Ok(());
    }

    /** Reads the header; a stated hardware address length over 20 fails. */
    method ReadHeader(buf: InputBuffer) returns (ok: bool)
      requires buf.Valid() && buf.position == 0 && |buf.data| >= HEADER_LEN && HeaderShape(Fields())
      modifies buf, `op, `htype, `hops, `transid, `secs, `flags, `ciaddr, `yiaddr, `siaddr, `giaddr,
        `hwaddr, `sname, `file
      ensures buf.Valid() && buf.position == HEADER_LEN && HeaderShape(Fields())
      ensures ok <==> buf.data[2] as int <= MAX_HWADDR_LEN
      ensures Fields() == HeaderAfter(old(Fields()), buf.data)
    {
      hide ParsedFixed, Resized;
      var kind, hlen := ReadFixed(buf);
      var hw := buf.ReadData(MAX_CHADDR_LEN);
      var s := buf.ReadData(MAX_SNAME_LEN);
      var f := buf.ReadData(MAX_FILE_LEN);
      sname, file := s.value, f.value;
      HeaderSlices(buf.data);
      if hlen as int > MAX_HWADDR_LEN {
        return false;
      }
      hwaddr, htype := Resized(hw.value, hlen), kind;
      return true;
    }

    /** Reads the octets before the hardware address; returns its type and stated length. */
    method ReadFixed(buf: InputBuffer) returns (kind: Byte, hlen: Byte)
      requires buf.Valid() && buf.position == 0 && |buf.data| >= HEADER_LEN
      modifies buf, `op, `hops, `transid, `secs, `flags, `ciaddr, `yiaddr, `siaddr, `giaddr
      ensures buf.Valid() && buf.position == 28
      ensures Fields().fixed == ParsedFixed(buf.data[..28]) && kind == buf.data[1] && hlen == buf.data[2]
    {
      hide Value32, Value16, Spells32, Spells16;
      kind, hlen := ReadLead(buf);
      var t := buf.ReadUint32();
      var s := buf.ReadUint16();
      var f := buf.ReadUint16();
      transid, secs, flags := t.value, s.value, f.value;
      ReadAddresses(buf);
      FixedSlices(buf.data);
    }

    method ReadLead(buf: InputBuffer) returns (kind: Byte, hlen: Byte)
      requires buf.Valid() && buf.position == 0 && |buf.data| >= HEADER_LEN
      modifies buf, `op, `hops
      ensures buf.Valid() && buf.position == 4
      ensures op == buf.data[0] && kind == buf.data[1] && hlen == buf.data[2] && hops == buf.data[3]
    {
      var b1 := buf.ReadUint8();
      var b2 := buf.ReadUint8();
      var b3 := buf.ReadUint8();
      var b4 := buf.ReadUint8();
      op, kind, hlen, hops := b1.value, b2.value, b3.value, b4.value;
    }

    method ReadAddresses(buf: InputBuffer)
      requires buf.Valid() && buf.position == 12 && |buf.data| >= HEADER_LEN
      modifies buf, `ciaddr, `yiaddr, `siaddr, `giaddr
      ensures buf.Valid() && buf.position == 28
      ensures ciaddr == Value32(buf.data[12..16]) && yiaddr == Value32(buf.data[16..20])
      ensures siaddr == Value32(buf.data[20..24]) && giaddr == Value32(buf.data[24..28])
    {
      hide Value32, Spells32;
      var c := buf.ReadUint32();
      var y := buf.ReadUint32();
      var i := buf.ReadUint32();
      var g := buf.ReadUint32();
      ciaddr, yiaddr, siaddr, giaddr := c.value, y.value, i.value, g.value;
    }
  }

  lemma FixedSlices(data: Bytes)
    requires |data| >= HEADER_LEN
    ensures data[..28][4..8] == data[4..8] && data[..28][8..10] == data[8..10] && data[..28][10..12] == data[10..12]
    ensures data[..28][12..16] == data[12..16] && data[..28][16..20] == data[16..20]
    ensures data[..28][20..24] == data[20..24] && data[..28][24..28] == data[24..28]
  {
  }

  lemma HeaderSlices(data: Bytes)
    requires |data| >= HEADER_LEN
    ensures data[..HEADER_LEN][..28] == data[..28] && data[..HEADER_LEN][28..44] == data[28..44]
    ensures data[..HEADER_LEN][44..108] == data[44..108] && data[..HEADER_LEN][108..236] == data[108..236]
    ensures data[..HEADER_LEN][1] == data[1] && data[..HEADER_LEN][2] == data[2]
  {
  }
}
