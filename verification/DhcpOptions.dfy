/** Packing and unpacking of DHCPv4 options (slave/dhcp++/libdhcp++.cpp,
    slave/dhcp++/option.cpp). The option multimap is the sequence of its entries in
    iteration order: by code, and in insertion order among equal codes. */
module DhcpOptions {
  import opened Wrappers
  import opened Buffers

  const DHO_PAD: Byte := 0
  const DHO_AGENT: Byte := 82
  const DHO_END: Byte := 255
  const MAX_PAYLOAD: nat := 253

  datatype RawOption = RawOption(code: Byte, data: Bytes)

  /** An option that passed the size check of its constructor. */
  type DhcpOption = o: RawOption | |o.data| <= 255 witness RawOption(0, [])

  type Options = seq<DhcpOption>

  // ---------------------------------------------------------------- the multimap

  predicate Sorted(opts: Options) {
    forall i, j | 0 <= i < j < |opts| :: opts[i].code <= opts[j].code
  }

  function Insert(opts: Options, o: DhcpOption): (r: Options) {
    if opts == [] || opts[|opts| - 1].code <= o.code then opts + [o]
    else Insert(opts[..|opts| - 1], o) + [opts[|opts| - 1]]
  }

  function InsertAll(opts: Options, more: Options): (r: Options)
    decreases |more|
  {
    if more == [] then opts else InsertAll(Insert(opts, more[0]), more[1..])
  }

  /** The options that their definition's factory does not reject. */
  function Accepted(opts: Options, accepts: RawOption -> bool): (r: Options) {
    if opts == [] then []
    else if accepts(opts[0]) then [opts[0]] + Accepted(opts[1..], accepts)
    else Accepted(opts[1..], accepts)
  }

  ghost function Count(opts: Options, code: Byte): (n: nat) {
    if opts == [] then 0 else (if opts[|opts| - 1].code == code then 1 else 0) + Count(opts[..|opts| - 1], code)
  }

  // ---------------------------------------------------------------- bytes

  predicate Fits(o: DhcpOption) {
    |o.data| <= MAX_PAYLOAD
  }

  function PackedOption(o: DhcpOption): (b: Bytes) {
    [o.code, |o.data|] + o.data
  }

  function Packed(opts: Options): (b: Bytes) {
    if opts == [] then [] else PackedOption(opts[0]) + Packed(opts[1..])
  }

  /** The options read from a byte string, in reading order. */
  function ParseOptions(buf: Bytes): (r: Options)
    ensures forall o | o in r :: o.code != DHO_PAD && o.code != DHO_END
  {
    if buf == [] || buf[0] == DHO_END then []
    else if buf[0] == DHO_PAD then ParseOptions(buf[1..])
    else if |buf| < 2 || 2 + buf[1] as int > |buf| then []
    else [RawOption(buf[0], buf[2..2 + buf[1] as int])] + ParseOptions(buf[2 + buf[1] as int..])
  }

  /** Where reading stops. */
  function ParseStop(buf: Bytes): (n: nat)
    ensures n <= |buf|
  {
    if buf == [] || buf[0] == DHO_END then 0
    else if buf[0] == DHO_PAD then 1 + ParseStop(buf[1..])
    else if |buf| < 2 || 2 + buf[1] as int > |buf| then 0
    else 2 + buf[1] as int + ParseStop(buf[2 + buf[1] as int..])
  }

  // ---------------------------------------------------------------- what is written

  ghost predicate Plain(o: DhcpOption) {
    o.code != DHO_AGENT && o.code != DHO_END
  }

  ghost function PlainOnly(opts: Options): (r: Options) {
    if opts == [] then [] else
      var o := opts[|opts| - 1];
      PlainOnly(opts[..|opts| - 1]) + if Plain(o) then [o] else []
  }

  /** The last option with a code, if any. */
  ghost function LastOf(opts: Options, code: Byte): (r: Options)
    ensures |r| <= 1
    ensures r == [] <==> Count(opts, code) == 0
  {
    if opts == [] then []
    else if opts[|opts| - 1].code == code then [opts[|opts| - 1]]
    else LastOf(opts[..|opts| - 1], code)
  }

  /** The options written, in order: relay agent information and END go last. */
  ghost function Emitted(opts: Options): (r: Options) {
    PlainOnly(opts) + LastOf(opts, DHO_AGENT) + LastOf(opts, DHO_END)
  }

  lemma {:induction false} PackedAppend(a: Options, b: Options)
    ensures Packed(a + b) == Packed(a) + Packed(b)
  {
    hide PackedOption;
    if a == [] {
      assert a + b == b;
    } else {
      PackedAppend(a[1..], b);
      assert (a + b)[1..] == a[1..] + b;
      Regroup(PackedOption(a[0]), Packed(a[1..]), Packed(b));
    }
  }

  lemma PackedOne(o: DhcpOption)
    ensures Packed([o]) == PackedOption(o)
  {
    assert Packed([o]) == PackedOption(o) + Packed([]);
  }

  method PackOption(buf: OutputBuffer, o: DhcpOption) returns (ok: bool)
    requires buf.Valid()
    modifies buf, buf.buffer
    ensures buf.Valid() && (buf.buffer == old(buf.buffer) || fresh(buf.buffer))
    ensures ok <==> Fits(o)
    ensures buf.Contents() == if ok then old(buf.Contents()) + Packed([o]) else old(buf.Contents())
  {
    if 2 + |o.data| > 255 {
      return false;
    }
    PackedOne(o);
    buf.WriteUint8(o.code);
    buf.WriteUint8(|o.data|);
    if o.data != [] {
      buf.WriteData(o.data);
    }
    return true;
  }

  lemma EmittedStep(opts: Options, i: nat)
    requires i < |opts|
    ensures var (a, b) := (opts[..i], opts[..i + 1]);
            && PlainOnly(b) == (if Plain(opts[i]) then PlainOnly(a) + [opts[i]] else PlainOnly(a))
            && LastOf(b, DHO_AGENT) == (if opts[i].code == DHO_AGENT then [opts[i]] else LastOf(a, DHO_AGENT))
            && LastOf(b, DHO_END) == if opts[i].code == DHO_END then [opts[i]] else LastOf(a, DHO_END)
  {
    assert opts[..i + 1][..i] == opts[..i];
  }

  ghost predicate AllFit(opts: Options) {
    forall o | o in opts :: Fits(o)
  }

  /** The options before the first that does not fit. */
  ghost function FitPrefix(opts: Options): (r: Options) {
    if opts == [] || !Fits(opts[0]) then [] else [opts[0]] + FitPrefix(opts[1..])
  }

  lemma {:induction false} FitPrefixAppend(a: Options, b: Options)
    ensures FitPrefix(a + b) == if AllFit(a) then a + FitPrefix(b) else FitPrefix(a)
  {
    if a == [] {
      assert a + b == b;
    } else {
      hide AllFit, Fits;
      assert a == [a[0]] + a[1..] && (a + b)[1..] == a[1..] + b;
      AllFitCons(a);
      FitPrefixAppend(a[1..], b);
      Regroup([a[0]], a[1..], FitPrefix(b));
    }
  }

  lemma AllFitCons(a: Options)
    requires a != []
    ensures AllFit(a) <==> Fits(a[0]) && AllFit(a[1..])
  {
    assert a == [a[0]] + a[1..];
  }

  lemma AllFitAppend(a: Options, b: Options)
    ensures AllFit(a + b) <==> AllFit(a) && AllFit(b)
  {
    assert forall o | o in a :: o in a + b;
    assert forall o | o in b :: o in a + b;
  }

  lemma {:induction false} PlainOnlyPrefix(opts: Options, i: nat) returns (rest: Options)
    requires i <= |opts|
    ensures PlainOnly(opts) == PlainOnly(opts[..i]) + rest
    decreases |opts| - i
  {
    hide PlainOnly;
    if i < |opts| {
      EmittedStep(opts, i);
      rest := PlainOnlyPrefix(opts, i + 1);
      if Plain(opts[i]) {
        Regroup(PlainOnly(opts[..i]), [opts[i]], rest);
        rest := [opts[i]] + rest;
      }
    } else {
      assert opts[..i] == opts;
      rest := [];
    }
  }

  /** A plain option that does not fit ends the writing with those before it. */
  lemma PlainStops(opts: Options, i: nat)
    requires i < |opts| && Plain(opts[i]) && !Fits(opts[i]) && AllFit(PlainOnly(opts[..i]))
    ensures !AllFit(PlainOnly(opts)) && FitPrefix(PlainOnly(opts)) == PlainOnly(opts[..i])
  {
    hide PlainOnly, Fits, FitPrefix, AllFit;
    var done, o := PlainOnly(opts[..i]), opts[i];
    EmittedStep(opts, i);
    var rest := PlainOnlyPrefix(opts, i + 1);
    Regroup(done, [o], rest);
    FitPrefixAppend(done, [o] + rest);
    AllFitAppend(done, [o] + rest);
    NotFirst(o, rest);
  }

  lemma NotFirst(o: DhcpOption, rest: Options)
    requires !Fits(o)
    ensures FitPrefix([o] + rest) == [] && !AllFit([o] + rest)
  {
    assert o in [o] + rest;
  }

  lemma FitPrefixAll(a: Options)
    ensures AllFit(a) ==> FitPrefix(a) == a
  {
    assert a + [] == a;
    FitPrefixAppend(a, []);
  }

  /** Writes the plain options and sets the other two kinds aside. */
  method PackPlain(buf: OutputBuffer, opts: Options)
    returns (ok: bool, agent: Option<DhcpOption>, end: Option<DhcpOption>)
    requires buf.Valid()
    modifies buf, buf.buffer
    ensures buf.Valid() && (buf.buffer == old(buf.buffer) || fresh(buf.buffer))
    ensures ok <==> AllFit(PlainOnly(opts))
    ensures ok ==> Optional(agent) == LastOf(opts, DHO_AGENT) && Optional(end) == LastOf(opts, DHO_END)
    ensures buf.Contents() == old(buf.Contents()) + Packed(FitPrefix(PlainOnly(opts)))
  {
    hide Packed, PlainOnly, LastOf, Fits, PackedOption, FitPrefix;
    ok, agent, end := true, None, None;
    ghost var before := buf.Contents();
    EmittedStart(opts);
    FitPrefixAll(PlainOnly(opts));
    var i := 0;
    while i < |opts|
      invariant i <= |opts| && buf.Valid() && (buf.buffer == old(buf.buffer) || fresh(buf.buffer))
      invariant Optional(agent) == LastOf(opts[..i], DHO_AGENT)
      invariant Optional(end) == LastOf(opts[..i], DHO_END)
      invariant AllFit(PlainOnly(opts[..i]))
      invariant buf.Contents() == before + Packed(PlainOnly(opts[..i]))
    {
      EmittedStep(opts, i);
      if opts[i].code == DHO_AGENT {
        agent := Some(opts[i]);
      } else if opts[i].code == DHO_END {
        end := Some(opts[i]);
      } else {
        PackedAppend(PlainOnly(opts[..i]), [opts[i]]);
        Regroup(before, Packed(PlainOnly(opts[..i])), Packed([opts[i]]));
        ok := PackOption(buf, opts[i]);
        if !ok {
          PlainStops(opts, i);
          return;
        }
      }
      i := i + 1;
    }
    assert opts[..i] == opts;
  }

  method PackOptional(buf: OutputBuffer, o: Option<DhcpOption>) returns (ok: bool)
    requires buf.Valid()
    modifies buf, buf.buffer
    ensures buf.Valid() && (buf.buffer == old(buf.buffer) || fresh(buf.buffer))
    ensures ok <==> AllFit(Optional(o))
    ensures buf.Contents() == old(buf.Contents()) + Packed(FitPrefix(Optional(o)))
  {
    ok := true;
    if o.Some? {
      ok := PackOption(buf, o.value);
    }
  }

  /** Writes the options; the first that does not fit ends it, those before it written. */
  method PackOptions(buf: OutputBuffer, opts: Options) returns (ok: bool)
    requires buf.Valid()
    modifies buf, buf.buffer
    ensures buf.Valid() && (buf.buffer == old(buf.buffer) || fresh(buf.buffer))
    ensures ok <==> AllFit(Emitted(opts))
    ensures buf.Contents() == old(buf.Contents()) + Packed(FitPrefix(Emitted(opts)))
    ensures ok ==> buf.Contents() == old(buf.Contents()) + Packed(Emitted(opts))
  {
    hide Packed, PlainOnly, LastOf, Fits, PackedOption, Optional, FitPrefix, AllFit;
    var agent, end;
    ghost var before := buf.Contents();
    ok, agent, end := PackPlain(buf, opts);
    ghost var plain, a, b := PlainOnly(opts), LastOf(opts, DHO_AGENT), LastOf(opts, DHO_END);
    FitPrefixAll(Emitted(opts));
    FitPrefixAppend(plain + a, b);
    FitPrefixAppend(plain, a);
    AllFitAppend(plain + a, b);
    AllFitAppend(plain, a);
    FitPrefixAll(plain);
    if ok {
      PackedAppend(plain, FitPrefix(a));
      Regroup(before, Packed(plain), Packed(FitPrefix(a)));
      FitPrefixAll(a);
      ok := PackOptional(buf, agent);
      if ok {
        PackedAppend(plain + a, FitPrefix(b));
        Regroup(before, Packed(plain + a), Packed(FitPrefix(b)));
        ok := PackOptional(buf, end);
      }
    }
  }

  ghost function Optional(o: Option<DhcpOption>): (r: Options) {
    if o.Some? then [o.value] else []
  }

  lemma EmittedStart(opts: Options)
    ensures PlainOnly(opts[..0]) == [] && LastOf(opts[..0], DHO_AGENT) == [] && LastOf(opts[..0], DHO_END) == []
    ensures Packed([]) == []
  {
  }

  // ---------------------------------------------------------------- reading

  lemma ParseStep(buf: Bytes)
    requires buf != [] && buf[0] != DHO_END && buf[0] != DHO_PAD && |buf| >= 2 && 2 + buf[1] as int <= |buf|
    ensures ParseOptions(buf) ==
            [RawOption(buf[0], buf[2..2 + buf[1] as int])] + ParseOptions(buf[2 + buf[1] as int..])
    ensures ParseStop(buf) == 2 + buf[1] as int + ParseStop(buf[2 + buf[1] as int..])
  {
  }

  lemma ParsePad(buf: Bytes)
    requires buf != [] && buf[0] == DHO_PAD
    ensures ParseOptions(buf) == ParseOptions(buf[1..]) && ParseStop(buf) == 1 + ParseStop(buf[1..])
  {
  }

  lemma ParseHalt(buf: Bytes)
    requires buf == [] || buf[0] == DHO_END || (buf[0] != DHO_PAD && (|buf| < 2 || 2 + buf[1] as int > |buf|))
    ensures ParseOptions(buf) == [] && ParseStop(buf) == 0
  {
  }

  lemma InsertAllCons(opts: Options, o: DhcpOption, more: Options, accepts: RawOption -> bool)
    ensures InsertAll(opts, Accepted([o] + more, accepts)) ==
            InsertAll(if accepts(o) then Insert(opts, o) else opts, Accepted(more, accepts))
  {
    hide Insert;
    assert ([o] + more)[1..] == more;
    if accepts(o) {
      assert ([o] + Accepted(more, accepts))[1..] == Accepted(more, accepts);
    }
  }

  /** Reads options until END, the end of the bytes or an option cut short. An option
      its definition rejects is skipped. */
  method UnpackOptions(buf: Bytes, accepts: RawOption -> bool, given: Options)
    returns (offset: nat, opts: Options)
    ensures offset == ParseStop(buf)
    ensures opts == InsertAll(given, Accepted(ParseOptions(buf), accepts))
  {
    hide ParseOptions, ParseStop, InsertAll, Accepted, Insert;
    offset, opts := 0, given;
    assert buf[0..] == buf;
    while offset < |buf|
      invariant offset <= |buf|
      invariant ParseStop(buf) == offset + ParseStop(buf[offset..])
      invariant InsertAll(given, Accepted(ParseOptions(buf), accepts)) ==
                InsertAll(opts, Accepted(ParseOptions(buf[offset..]), accepts))
    {
      var rest := buf[offset..];
      var code := buf[offset];
      if code == DHO_END {
        ParseHalt(rest);
        NothingInserted(opts, accepts);
        return;
      }
      if code == DHO_PAD {
        ParsePad(rest);
        SlicesOfTail(buf, offset, 0, 1);
        offset := offset + 1;
        continue;
      }
      if offset + 2 > |buf| || offset + 2 + buf[offset + 1] as int > |buf| {
        ParseHalt(rest);
        NothingInserted(opts, accepts);
        return;
      }
      var len := buf[offset + 1] as int;
      var o := RawOption(code, buf[offset + 2..offset + 2 + len]);
      ParseStep(rest);
      SlicesOfTail(buf, offset, 2, 2 + len);
      InsertAllCons(opts, o, ParseOptions(buf[offset + 2 + len..]), accepts);
      if accepts(o) {
        opts := Insert(opts, o);
      }
      offset := offset + 2 + len;
    }
    ParseHalt(buf[offset..]);
    NothingInserted(opts, accepts);
  }

  lemma NothingInserted(opts: Options, accepts: RawOption -> bool)
    ensures InsertAll(opts, Accepted([], accepts)) == opts
  {
  }

  // ---------------------------------------------------------------- round trip

  ghost predicate Readable(o: DhcpOption) {
    o.code != DHO_PAD && o.code != DHO_END
  }

  /** Reading what was written gives the options back, whatever follows END. */
  lemma {:induction false} ParsePacked(opts: Options, trailing: Bytes)
    requires forall o | o in opts :: Readable(o)
    ensures ParseOptions(Packed(opts) + [DHO_END] + trailing) == opts
  {
    hide ParseOptions, Packed;
    if opts == [] {
      EmittedStart([]);
      ParseHalt(Packed(opts) + [DHO_END] + trailing);
    } else {
      var o, more := opts[0], opts[1..];
      assert o in opts && forall x | x in more :: x in opts;
      ParsePacked(more, trailing);
      PackedCons(opts);
      var tail := Packed(more) + [DHO_END] + trailing;
      Regroup(PackedOption(o), Packed(more), [DHO_END]);
      Regroup(PackedOption(o), Packed(more) + [DHO_END], trailing);
      ParseOne(o, tail);
      assert [o] + more == opts;
    }
  }

  lemma PackedCons(opts: Options)
    requires opts != []
    ensures Packed(opts) == PackedOption(opts[0]) + Packed(opts[1..])
  {
  }

  lemma ParseOne(o: DhcpOption, tail: Bytes)
    requires Readable(o)
    ensures ParseOptions(PackedOption(o) + tail) == [o] + ParseOptions(tail)
  {
    hide ParseOptions;
    var buf := PackedOption(o) + tail;
    assert buf[2..2 + |o.data|] == o.data && buf[2 + |o.data|..] == tail;
    ParseStep(buf);
  }

  lemma {:induction false} AcceptedAppend(a: Options, b: Options, accepts: RawOption -> bool)
    ensures Accepted(a + b, accepts) == Accepted(a, accepts) + Accepted(b, accepts)
  {
    if a == [] {
      assert a + b == b;
    } else {
      AcceptedAppend(a[1..], b, accepts);
      assert (a + b)[1..] == a[1..] + b;
      Regroup([a[0]], Accepted(a[1..], accepts), Accepted(b, accepts));
    }
  }

  lemma {:induction false} AcceptedAll(opts: Options, accepts: RawOption -> bool)
    requires forall o | o in opts :: accepts(o)
    ensures Accepted(opts, accepts) == opts
  {
    if opts != [] {
      AcceptedAll(opts[1..], accepts);
      assert opts == [opts[0]] + opts[1..];
    }
  }

  /** Entries inserted in sorted order stay in that order. */
  lemma {:induction false} InsertAllSorted(a: Options, b: Options)
    requires Sorted(a + b)
    ensures InsertAll(a, b) == a + b
    decreases |b|
  {
    if b == [] {
      assert a + b == a;
    } else {
      assert a != [] ==> (a + b)[|a| - 1].code <= (a + b)[|a|].code;
      assert a + b == (a + [b[0]]) + b[1..];
      InsertAllSorted(a + [b[0]], b[1..]);
    }
  }

  lemma {:induction false} InsertAllAppend(opts: Options, a: Options, b: Options)
    ensures InsertAll(opts, a + b) == InsertAll(InsertAll(opts, a), b)
    decreases |a|
  {
    hide Insert;
    if a == [] {
      assert a + b == b;
    } else {
      assert (a + b)[1..] == a[1..] + b;
      InsertAllAppend(Insert(opts, a[0]), a[1..], b);
    }
  }

  /** An entry goes after the entries with a smaller or equal code. */
  lemma {:induction false} InsertMiddle(a: Options, b: Options, o: DhcpOption)
    requires forall x | x in a :: x.code <= o.code
    requires forall x | x in b :: x.code > o.code
    ensures Insert(a + b, o) == a + [o] + b
    decreases |b|
  {
    if b == [] {
      assert a + b == a;
    } else {
      var n := |b| - 1;
      assert (a + b)[..|a + b| - 1] == a + b[..n];
      assert forall x | x in b[..n] :: x in b;
      assert b[n] in b;
      InsertMiddle(a, b[..n], o);
      assert a + [o] + b == (a + [o] + b[..n]) + [b[n]];
    }
  }

  lemma {:induction false} AcceptedIn(opts: Options, accepts: RawOption -> bool)
    ensures |Accepted(opts, accepts)| <= |opts|
    ensures forall o | o in Accepted(opts, accepts) :: o in opts
  {
    if opts != [] {
      AcceptedIn(opts[1..], accepts);
      assert opts == [opts[0]] + opts[1..];
    }
  }

  lemma {:induction false} AcceptedSorted(opts: Options, accepts: RawOption -> bool)
    requires Sorted(opts)
    ensures Sorted(Accepted(opts, accepts))
  {
    if opts != [] {
      AcceptedSorted(opts[1..], accepts);
      AcceptedIn(opts[1..], accepts);
      forall x | x in opts[1..]
        ensures opts[0].code <= x.code
      {
        var i :| 0 <= i < |opts[1..]| && opts[1..][i] == x;
        assert opts[i + 1] == x;
      }
      var rest := Accepted(opts[1..], accepts);
      assert forall i | 0 <= i < |rest| :: rest[i] in opts[1..];
    }
  }

  lemma {:induction false} PlainAll(opts: Options)
    requires Count(opts, DHO_AGENT) == 0 && forall o | o in opts :: Readable(o)
    ensures PlainOnly(opts) == opts
    ensures forall o | o in opts :: o.code != DHO_AGENT
  {
    if opts != [] {
      var n := |opts| - 1;
      PlainAll(opts[..n]);
      assert opts == opts[..n] + [opts[n]];
      assert opts[n] in opts;
    }
  }

  lemma {:induction false} NoEnd(opts: Options)
    requires forall o | o in opts :: Readable(o)
    ensures Count(opts, DHO_END) == 0 && LastOf(opts, DHO_END) == []
  {
    if opts != [] {
      NoEnd(opts[..|opts| - 1]);
      assert opts[|opts| - 1] in opts;
    }
  }

  lemma CountSome(opts: Options)
    requires Count(opts, DHO_AGENT) > 0
    ensures opts != []
    ensures Count(opts, DHO_AGENT) ==
            Count(opts[..|opts| - 1], DHO_AGENT) + if opts[|opts| - 1].code == DHO_AGENT then 1 else 0
  {
  }

  /** Around the one relay agent option. */
  lemma {:induction false} SplitAgent(opts: Options) returns (a: Options, o: DhcpOption, b: Options)
    requires Count(opts, DHO_AGENT) == 1 && forall x | x in opts :: Readable(x)
    ensures opts == a + [o] + b && o.code == DHO_AGENT
    ensures forall x | x in a + b :: x.code != DHO_AGENT
    ensures PlainOnly(opts) == a + b && LastOf(opts, DHO_AGENT) == [o]
  {
    hide PlainOnly, LastOf, Count;
    CountSome(opts);
    var n := |opts| - 1;
    var init, last := opts[..n], opts[n];
    assert opts[..n + 1] == opts == init + [last] && last in opts;
    EmittedStep(opts, n);
    if last.code == DHO_AGENT {
      a, o, b := init, last, [];
      PlainAll(init);
      assert a + b == a;
    } else {
      a, o, b := SplitAgent(init);
      Regroup(a + [o], b, [last]);
      Regroup(a, b, [last]);
      b := b + [last];
    }
  }

  lemma AgentInOrder(a: Options, o: DhcpOption, b: Options)
    requires Sorted(a + [o] + b) && o.code == DHO_AGENT
    requires forall x | x in a + b :: x.code != DHO_AGENT
    ensures Sorted(a + b)
    ensures forall x | x in a :: x.code <= o.code
    ensures forall x | x in b :: x.code > o.code
  {
    var all := a + [o] + b;
    assert all[|a|] == o;
    forall x | x in a
      ensures x.code <= o.code
    {
      var i :| 0 <= i < |a| && a[i] == x;
      assert all[i] == x;
    }
    forall x | x in b
      ensures x.code > o.code
    {
      var i :| 0 <= i < |b| && b[i] == x;
      assert all[|a| + 1 + i] == x && (a + b)[|a| + i] == x;
    }
    forall i, j | 0 <= i < j < |a + b|
      ensures (a + b)[i].code <= (a + b)[j].code
    {
      assert (a + b)[i] == all[if i < |a| then i else i + 1];
      assert (a + b)[j] == all[if j < |a| then j else j + 1];
    }
  }

  /** Inserting the written options, relay agent information last, rebuilds the
      multimap without the rejected ones. */
  lemma ReinsertAgent(a: Options, o: DhcpOption, b: Options, accepts: RawOption -> bool)
    requires Sorted(a + [o] + b) && o.code == DHO_AGENT
    requires forall x | x in a + b :: x.code != DHO_AGENT
    ensures InsertAll([], Accepted(a + b + [o], accepts)) == Accepted(a + [o] + b, accepts)
  {
    hide InsertAll, Insert, Accepted, Sorted;
    AgentInOrder(a, o, b);
    var (aa, ab, ao) := (Accepted(a, accepts), Accepted(b, accepts), Accepted([o], accepts));
    AcceptedPieces(a, o, b, accepts);
    AcceptedSorted(a + b, accepts);
    InsertAllAppend([], aa + ab, ao);
    InsertFromNothing(aa + ab);
    InsertOne(aa + ab, o, accepts);
    if accepts(o) {
      AcceptedIn(a, accepts);
      AcceptedIn(b, accepts);
      InsertMiddle(aa, ab, o);
    } else {
      assert aa + [] == aa;
    }
  }

  lemma AcceptedPieces(a: Options, o: DhcpOption, b: Options, accepts: RawOption -> bool)
    ensures var (aa, ab, ao) := (Accepted(a, accepts), Accepted(b, accepts), Accepted([o], accepts));
            && Accepted(a + b, accepts) == aa + ab
            && Accepted(a + b + [o], accepts) == aa + ab + ao
            && Accepted(a + [o] + b, accepts) == aa + ao + ab
  {
    hide Accepted;
    AcceptedAppend(a + b, [o], accepts);
    AcceptedAppend(a, b, accepts);
    AcceptedAppend(a + [o], b, accepts);
    AcceptedAppend(a, [o], accepts);
  }

  lemma InsertFromNothing(opts: Options)
    requires Sorted(opts)
    ensures InsertAll([], opts) == opts
  {
    hide InsertAll, Sorted;
    assert [] + opts == opts;
    InsertAllSorted([], opts);
  }

  lemma InsertOne(opts: Options, o: DhcpOption, accepts: RawOption -> bool)
    ensures Accepted([o], accepts) == if accepts(o) then [o] else []
    ensures InsertAll(opts, Accepted([o], accepts)) == if accepts(o) then Insert(opts, o) else opts
  {
  }

  lemma {:induction false} ReinsertPlain(opts: Options, accepts: RawOption -> bool)
    requires Sorted(opts)
    ensures InsertAll([], Accepted(opts, accepts)) == Accepted(opts, accepts)
  {
    AcceptedSorted(opts, accepts);
    InsertFromNothing(Accepted(opts, accepts));
  }

  lemma EmittedIn(opts: Options)
    requires forall o | o in opts :: Readable(o)
    ensures Emitted(opts) == PlainOnly(opts) + LastOf(opts, DHO_AGENT)
    ensures forall o | o in Emitted(opts) :: o in opts
    ensures |Emitted(opts)| == |opts| - Count(opts, DHO_AGENT) + if Count(opts, DHO_AGENT) == 0 then 0 else 1
  {
    hide PlainOnly, LastOf, Count;
    NoEnd(opts);
    PlainIn(opts);
    LastIn(opts, DHO_AGENT);
  }

  lemma {:induction false} PlainIn(opts: Options)
    ensures forall o | o in PlainOnly(opts) :: o in opts
    ensures |PlainOnly(opts)| == |opts| - Count(opts, DHO_AGENT) - Count(opts, DHO_END)
  {
    if opts != [] {
      PlainIn(opts[..|opts| - 1]);
    }
  }

  lemma {:induction false} LastIn(opts: Options, code: Byte)
    ensures forall o | o in LastOf(opts, code) :: o in opts
  {
    if opts != [] {
      LastIn(opts[..|opts| - 1], code);
    }
  }

  /** What unpacking the packed options yields. */
  ghost function Reread(opts: Options, accepts: RawOption -> bool, trailing: Bytes): (r: Options) {
    InsertAll([], Accepted(ParseOptions(Packed(Emitted(opts)) + [DHO_END] + trailing), accepts))
  }

  lemma {:induction false} OptionsRestored(opts: Options, accepts: RawOption -> bool, trailing: Bytes)
    requires Sorted(opts) && Count(opts, DHO_AGENT) <= 1
    requires forall o | o in opts :: Readable(o)
    ensures Reread(opts, accepts, trailing) == Accepted(opts, accepts)
  {
    hide InsertAll, Accepted, Sorted, ParseOptions, Packed, PlainOnly, LastOf, Emitted;
    EmittedIn(opts);
    ParsePacked(Emitted(opts), trailing);
    if Count(opts, DHO_AGENT) == 0 {
      PlainAll(opts);
      NoAgent(opts);
      ReinsertPlain(opts, accepts);
    } else {
      var a, o, b := SplitAgent(opts);
      ReinsertAgent(a, o, b, accepts);
    }
  }

  lemma NoAgent(opts: Options)
    requires Count(opts, DHO_AGENT) == 0
    ensures PlainOnly(opts) + LastOf(opts, DHO_AGENT) == PlainOnly(opts)
  {
  }

  lemma {:induction false} InsertIn(opts: Options, o: DhcpOption)
    ensures |Insert(opts, o)| == |opts| + 1
    ensures forall x | x in Insert(opts, o) :: x in opts || x == o
  {
    if opts != [] && opts[|opts| - 1].code > o.code {
      InsertIn(opts[..|opts| - 1], o);
    }
  }

  lemma {:induction false} InsertAllIn(opts: Options, more: Options)
    ensures |InsertAll(opts, more)| == |opts| + |more|
    ensures forall x | x in InsertAll(opts, more) :: x in opts || x in more
    decreases |more|
  {
    hide Insert;
    if more != [] {
      InsertIn(opts, more[0]);
      InsertAllIn(Insert(opts, more[0]), more[1..]);
    }
  }

  /** The multimap stays in code order. */
  lemma {:induction false} InsertAllKeepsOrder(opts: Options, more: Options)
    requires Sorted(opts)
    ensures Sorted(InsertAll(opts, more))
    decreases |more|
  {
    hide Insert, Sorted;
    if more != [] {
      InsertKeepsOrder(opts, more[0]);
      InsertAllKeepsOrder(Insert(opts, more[0]), more[1..]);
    }
  }

  lemma {:induction false} InsertKeepsOrder(opts: Options, o: DhcpOption)
    requires Sorted(opts)
    ensures Sorted(Insert(opts, o))
  {
    if opts != [] && opts[|opts| - 1].code > o.code {
      var init := opts[..|opts| - 1];
      InsertKeepsOrder(init, o);
      InsertIn(init, o);
      var r := Insert(init, o);
      assert forall i | 0 <= i < |r| :: r[i] in init || r[i] == o;
      assert forall x | x in init :: x.code <= opts[|opts| - 1].code;
    }
  }

  lemma EmittedHasAll(opts: Options)
    requires Count(opts, DHO_AGENT) <= 1 && forall o | o in opts :: Readable(o)
    ensures forall o | o in opts :: o in Emitted(opts)
  {
    hide PlainOnly, LastOf, Emitted, Count;
    EmittedIn(opts);
    if Count(opts, DHO_AGENT) == 0 {
      PlainAll(opts);
    } else {
      var a, o, b := SplitAgent(opts);
    }
  }

  /** What unpacking yields is the options themselves exactly when none is PAD or END
      and at most one is relay agent information. */
  lemma RereadSameIff(opts: Options, accepts: RawOption -> bool, trailing: Bytes)
    requires Sorted(opts) && forall o | o in opts :: accepts(o)
    ensures Reread(opts, accepts, trailing) == opts
            <==> (forall o | o in opts :: Readable(o)) && Count(opts, DHO_AGENT) <= 1
  {
    hide InsertAll, Accepted, Sorted, ParseOptions, Packed, Emitted, Count;
    var parsed := ParseOptions(Packed(Emitted(opts)) + [DHO_END] + trailing);
    AcceptedIn(parsed, accepts);
    InsertAllIn([], Accepted(parsed, accepts));
    AcceptedAll(opts, accepts);
    if forall o | o in opts :: Readable(o) {
      EmittedIn(opts);
      ParsePacked(Emitted(opts), trailing);
      if Count(opts, DHO_AGENT) <= 1 {
        OptionsRestored(opts, accepts, trailing);
      }
    }
  }

  /** Exactly which options can be packed and survive packing and unpacking. */
  lemma OptionsRestoredIff(opts: Options, accepts: RawOption -> bool, trailing: Bytes)
    requires Sorted(opts) && forall o | o in opts :: accepts(o)
    ensures AllFit(Emitted(opts)) && Reread(opts, accepts, trailing) == opts
            <==> && (forall o | o in opts :: Readable(o) && Fits(o))
                 && Count(opts, DHO_AGENT) <= 1
  {
    hide Reread, Sorted, Emitted, Count, Fits, Readable;
    RereadSameIff(opts, accepts, trailing);
    if Count(opts, DHO_AGENT) <= 1 && forall o | o in opts :: Readable(o) {
      EmittedHasAll(opts);
      EmittedIn(opts);
    }
  }
}
