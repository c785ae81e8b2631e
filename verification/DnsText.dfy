/** Presentation format of domain names: the text parser's state machine
    (slave/dns/name.cpp) and the escaping printer (slave/dns/labelsequence.cpp;
    section 5.1 of RFC 1035). Text is a byte string. */
module DnsText {
  import opened Wrappers
  import opened DnsLabels

  datatype NameError =
    | EmptyLabel
    | TooLongLabel
    | TooLongName
    | BadLabelType
    | BadEscape
    | IncompleteName
    | AssertionFailed    // the assert on a label that starts at byte 254

  const DOT: Byte := 46
  const AT: Byte := 64
  const BACKSLASH: Byte := 92
  const LEFT_BRACKET: Byte := 91

  predicate IsDigit(c: Byte) { 48 <= c <= 57 }

  // ---------------------------------------------------------------- the parser

  datatype FtState = FtInit | FtStart | FtOrdinary | FtInitialEscape | FtEscape | FtEscDecimal

  datatype Parser = Parser(
    state: FtState,
    digits: nat,
    value: nat,
    count: nat,
    offsets: seq<Byte>,
    ndata: Bytes,
    done: bool)

  const INITIAL: Parser := Parser(FtInit, 0, 0, 0, [0], [], false)

  function MaybeLower(c: Byte, downcase: bool): (r: Byte) {
    if downcase then Lower(c) else c
  }

  /** Append one label byte. */
  function PushByte(p: Parser, c: Byte, downcase: bool): (r: Result<Parser, NameError>) {
    if p.count + 1 > MAX_LABELLEN then Err(TooLongLabel)
    else Ok(p.(count := p.count + 1, ndata := p.ndata + [MaybeLower(c, downcase)], state := FtOrdinary))
  }

  /** Write the length byte of the label just ended, and start the next. */
  function EndLabel(p: Parser): (r: Parser)
    requires |p.offsets| > 0 && p.offsets[|p.offsets| - 1] < |p.ndata| && p.count <= MAX_LABELLEN
  {
    p.(ndata := p.ndata[p.offsets[|p.offsets| - 1] := p.count],
      offsets := p.offsets + [(|p.ndata| % 256) as Byte])
  }

  predicate Sane(p: Parser) {
    && |p.offsets| > 0 && p.count <= MAX_LABELLEN
    && if p.state.FtStart? || p.state.FtInit? then p.offsets[|p.offsets| - 1] == |p.ndata|
       else p.offsets[|p.offsets| - 1] < |p.ndata|
  }

  function OnOrdinary(p: Parser, c: Byte, last: bool, downcase: bool): (r: Result<Parser, NameError>)
    requires |p.offsets| > 0 && p.offsets[|p.offsets| - 1] < |p.ndata| && p.count <= MAX_LABELLEN
  {
    if c == DOT then
      if p.count == 0 then Err(EmptyLabel)
      else
        var q := EndLabel(p).(state := FtStart);
        Ok(if last then q.(ndata := q.ndata + [0], done := true) else q)
    else if c == BACKSLASH then Ok(p.(state := FtEscape))
    else PushByte(p, c, downcase)
  }

  function OnStart(p: Parser, c: Byte, last: bool, downcase: bool): (r: Result<Parser, NameError>)
    requires |p.offsets| > 0 && p.offsets[|p.offsets| - 1] == |p.ndata|
  {
    var q := p.(ndata := p.ndata + [0], count := 0);
    if c == BACKSLASH then Ok(q.(state := FtInitialEscape))
    else if |q.ndata| >= MAX_WIRE then Err(AssertionFailed)
    else OnOrdinary(q.(state := FtOrdinary), c, last, downcase)
  }

  function OnEscDecimal(p: Parser, c: Byte, downcase: bool): (r: Result<Parser, NameError>) {
    if !IsDigit(c) then Err(BadEscape)
    else
      var q := p.(value := p.value * 10 + (c - 48), digits := p.digits + 1);
      if q.digits != 3 then Ok(q)
      else if q.value > 255 then Err(BadEscape)
      else PushByte(q, q.value, downcase)
  }

  function OnEscape(p: Parser, c: Byte, downcase: bool): (r: Result<Parser, NameError>) {
    if !IsDigit(c) then PushByte(p, c, downcase)
    else OnEscDecimal(p.(digits := 0, value := 0, state := FtEscDecimal), c, downcase)
  }

  /** One character; `last` says that the text ends after it. */
  function Step(p: Parser, c: Byte, last: bool, downcase: bool): (r: Result<Parser, NameError>)
    requires Sane(p)
    ensures r.Ok? && !r.value.done && |p.ndata| < MAX_WIRE ==> Sane(r.value)
  {
    match p.state
    case FtInit =>
      if c == DOT && !last then Err(EmptyLabel)
      else if last && (c == DOT || c == AT) then Ok(p.(ndata := p.ndata + [0], done := true))
      else OnStart(p, c, last, downcase)
    case FtStart => OnStart(p, c, last, downcase)
    case FtOrdinary => OnOrdinary(p, c, last, downcase)
    case FtInitialEscape => if c == LEFT_BRACKET then Err(BadLabelType) else OnEscape(p, c, downcase)
    case FtEscape => OnEscape(p, c, downcase)
    case FtEscDecimal => OnEscDecimal(p, c, downcase)
  }

  function Consume(p: Parser, s: Bytes, i: nat, downcase: bool): (r: Result<Parser, NameError>)
    requires i <= |s| && (p.done || Sane(p))
    ensures r.Ok? ==> r.value.done || Sane(r.value)
    decreases |s| - i
  {
    if |p.ndata| >= MAX_WIRE || i == |s| || p.done then Ok(p)
    else match Step(p, s[i], i + 1 == |s|, downcase)
      case Err(e) => Err(e)
      case Ok(q) => Consume(q, s, i + 1, downcase)
  }

  function Finish(p: Parser): (r: Result<Name, NameError>)
    requires p.done || Sane(p)
  {
    if p.done then Ok(Name(p.ndata, p.offsets, |p.ndata|, |p.offsets|))
    else if |p.ndata| == MAX_WIRE then Err(TooLongName)
    else if !p.state.FtOrdinary? then Err(IncompleteName)
    else
      var q := EndLabel(p);
      var ndata := q.ndata + [0];
      Ok(Name(ndata, q.offsets, |ndata|, |q.offsets|))
  }

  function ParseName(s: Bytes, downcase: bool): (r: Result<Name, NameError>) {
    match Consume(INITIAL, s, 0, downcase)
    case Err(e) => Err(e)
    case Ok(p) => Finish(p)
  }

  method StringParse(s: Bytes, downcase: bool) returns (r: Result<Name, NameError>)
    ensures r == ParseName(s, downcase)
  {
    var p := INITIAL;
    var i := 0;
    while |p.ndata| < MAX_WIRE && i != |s| && !p.done
      invariant 0 <= i <= |s| && (p.done || Sane(p))
      invariant Consume(INITIAL, s, 0, downcase) == Consume(p, s, i, downcase)
      decreases |s| - i
    {
      var next := Step(p, s[i], i + 1 == |s|, downcase);
      if next.Err? {
        return Err(next.error);
      }
      p := next.value;
      i := i + 1;
    }
    r := Finish(p);
  }

  // ---------------------------------------------------------------- what the parser has built so far

  ghost predicate SameOffsets(offsets: seq<Byte>, starts: seq<nat>) {
    |offsets| == |starts| && forall i | 0 <= i < |offsets| :: offsets[i] == starts[i]
  }

  /** The labels `ls` are complete, `cur` is the label being read. */
  ghost predicate Shape(p: Parser, ls: Labels, cur: Bytes) {
    && NonRoot(ls) && |cur| <= MAX_LABELLEN && |p.ndata| <= MAX_WIRE
    && SameOffsets(p.offsets, Starts(ls, 0) + [WireLength(ls)])
    && (if p.done then p.ndata == Encode(ls) + [0]
        else if p.state.FtInit? then ls == [] && p.ndata == []
        else if p.state.FtStart? then ls != [] && p.ndata == Encode(ls)
        else p.ndata == Encode(ls) + [0] + cur && p.count == |cur| && (p.state.FtOrdinary? ==> cur != []))
  }

  lemma ShapeIsSane(p: Parser, ls: Labels, cur: Bytes)
    requires Shape(p, ls, cur) && !p.done && p.count <= MAX_LABELLEN
    ensures Sane(p)
  {
    EncodeLength(ls);
  }

  lemma EndLabelShape(p: Parser, ls: Labels, cur: Bytes)
    requires Shape(p, ls, cur) && p.state.FtOrdinary? && !p.done
    ensures Sane(p)
    ensures NonRoot(ls + [cur]) && EndLabel(p).ndata == Encode(ls + [cur])
    ensures SameOffsets(EndLabel(p).offsets, Starts(ls + [cur], 0) + [WireLength(ls + [cur])])
  {
    ShapeIsSane(p, ls, cur);
    EncodeSnoc(ls, cur);
    EncodeLength(ls + [cur]);
  }

  lemma PushShape(p: Parser, ls: Labels, cur: Bytes, c: Byte, downcase: bool)
    requires Shape(p, ls, cur) && !p.done && !p.state.FtInit? && !p.state.FtStart? && |p.ndata| < MAX_WIRE
    requires PushByte(p, c, downcase).Ok?
    ensures Shape(PushByte(p, c, downcase).value, ls, cur + [MaybeLower(c, downcase)])
  {
  }

  lemma OrdinaryShape(p: Parser, ls: Labels, cur: Bytes, c: Byte, last: bool, downcase: bool)
    returns (ls': Labels, cur': Bytes)
    requires Shape(p, ls, cur) && p.state.FtOrdinary? && !p.done && |p.ndata| < MAX_WIRE
    requires Sane(p) && OnOrdinary(p, c, last, downcase).Ok?
    ensures Shape(OnOrdinary(p, c, last, downcase).value, ls', cur')
  {
    ls', cur' := ls, cur;
    if c == DOT {
      EndLabelShape(p, ls, cur);
      ls', cur' := ls + [cur], [];
    } else if c != BACKSLASH {
      PushShape(p, ls, cur, c, downcase);
      cur' := cur + [MaybeLower(c, downcase)];
    }
  }

  lemma StepShape(p: Parser, ls: Labels, cur: Bytes, c: Byte, last: bool, downcase: bool)
    returns (ls': Labels, cur': Bytes)
    requires Shape(p, ls, cur) && !p.done && Sane(p) && |p.ndata| < MAX_WIRE
    requires Step(p, c, last, downcase).Ok?
    ensures Shape(Step(p, c, last, downcase).value, ls', cur')
  {
    hide Starts, OnStart, OnOrdinary, SameOffsets;
    ls', cur' := ls, cur;
    EncodeLength(ls);
    match p.state {
      case FtInit =>
        if !(last && (c == DOT || c == AT)) {
          ls', cur' := StartShape(p, ls, c, last, downcase);
        }
      case FtStart => ls', cur' := StartShape(p, ls, c, last, downcase);
      case FtOrdinary => ls', cur' := OrdinaryShape(p, ls, cur, c, last, downcase);
      case _ =>
        var q := Step(p, c, last, downcase).value;
        if q.state.FtOrdinary? {
          cur' := cur + [q.ndata[|q.ndata| - 1]];
        }
    }
  }

  lemma StartShape(p: Parser, ls: Labels, c: Byte, last: bool, downcase: bool)
    returns (ls': Labels, cur': Bytes)
    requires Shape(p, ls, []) && (p.state.FtInit? || p.state.FtStart?) && !p.done && Sane(p) && |p.ndata| < MAX_WIRE
    requires OnStart(p, c, last, downcase).Ok?
    ensures Shape(OnStart(p, c, last, downcase).value, ls', cur')
  {
    EncodeLength(ls);
    ls', cur' := ls, [];
    if c != BACKSLASH {
      cur' := [MaybeLower(c, downcase)];
    }
  }

  lemma {:induction false} ConsumeShape(p: Parser, ls: Labels, cur: Bytes, s: Bytes, i: nat, downcase: bool)
    returns (ls': Labels, cur': Bytes)
    requires i <= |s| && Shape(p, ls, cur) && (p.done || Sane(p))
    requires Consume(p, s, i, downcase).Ok?
    ensures Shape(Consume(p, s, i, downcase).value, ls', cur')
    decreases |s| - i
  {
    if |p.ndata| >= MAX_WIRE || i == |s| || p.done {
      ls', cur' := ls, cur;
    } else {
      ls', cur' := StepShape(p, ls, cur, s[i], i + 1 == |s|, downcase);
      ls', cur' := ConsumeShape(Step(p, s[i], i + 1 == |s|, downcase).value, ls', cur', s, i + 1, downcase);
    }
  }

  lemma NameOfParts(ls: Labels, ndata: Bytes, offsets: seq<Byte>)
    requires NonRoot(ls) && ndata == Encode(ls) + [0] && |ndata| <= MAX_WIRE
    requires SameOffsets(offsets, Starts(ls, 0) + [WireLength(ls)])
    ensures WellFormedName(ls + [[]]) && Short(ls + [[]])
    ensures Name(ndata, offsets, |ndata|, |offsets|) == NameOf(ls + [[]])
  {
    EncodeSnoc(ls, []);
    assert (ls + [[]])[..|ls|] == ls;
    assert Encode(ls) + [0] + [] == Encode(ls) + [0];
  }

  /** Whatever text the parser accepts, the result is a well-formed name of at
      most 255 bytes and 128 labels, with exact offsets. */
  lemma ParsedNameIsWellFormed(s: Bytes, downcase: bool) returns (ls: Labels)
    requires ParseName(s, downcase).Ok?
    ensures WellFormedName(ls) && Short(ls) && |ls| <= MAX_LABELS
    ensures ParseName(s, downcase) == Ok(NameOf(ls))
  {
    assert Shape(INITIAL, [], []);
    var init, cur := ConsumeShape(INITIAL, [], [], s, 0, downcase);
    var p := Consume(INITIAL, s, 0, downcase).value;
    EncodeLength(init);
    if p.done {
      NameOfParts(init, p.ndata, p.offsets);
      ls := init + [[]];
    } else {
      EndLabelShape(p, init, cur);
      NameOfParts(init + [cur], EndLabel(p).ndata + [0], EndLabel(p).offsets);
      ls := init + [cur] + [[]];
    }
    WellFormedLabelCount(ls);
  }

  // ---------------------------------------------------------------- the printer

  /** Characters with a meaning in zone files: " ( ) . ; \ @ $ */
  predicate Special(c: Byte) {
    c == 0x22 || c == 0x28 || c == 0x29 || c == 0x2E || c == 0x3B || c == 0x5C || c == 0x40 || c == 0x24
  }

  function EscapedByte(c: Byte): (t: Bytes)
    ensures |t| > 0 && t[0] != DOT && t[0] != AT
  {
    if Special(c) then [BACKSLASH, c]
    else if 0x20 < c < 0x7f then [c]
    else [BACKSLASH, 48 + (c / 100) % 10, 48 + (c / 10) % 10, 48 + c % 10]
  }

  function EscapedLabel(l: Bytes): (t: Bytes)
    ensures l != [] ==> t != []
  {
    if l == [] then [] else EscapedByte(l[0]) + EscapedLabel(l[1..])
  }

  /** Non-root labels with dots between them. */
  function Joined(ls: Labels): (t: Bytes) {
    if ls == [] then []
    else if |ls| == 1 then EscapedLabel(ls[0])
    else EscapedLabel(ls[0]) + [DOT] + Joined(ls[1..])
  }

  /** toText of an absolute name: the root alone always prints its dot. */
  function NameText(ls: Labels, omitFinalDot: bool): (t: Bytes)
    requires |ls| > 0
  {
    var init := ls[..|ls| - 1];
    if init == [] then [DOT] else if omitFinalDot then Joined(init) else Joined(init) + [DOT]
  }

  // ---------------------------------------------------------------- labels in lower case, labels being read

  ghost function MaybeLowerBytes(l: Bytes, downcase: bool): (r: Bytes) {
    if downcase then LowerBytes(l) else l
  }

  ghost function MaybeLowerLabels(ls: Labels, downcase: bool): (r: Labels) {
    if downcase then LowerLabels(ls) else ls
  }

  lemma LowerFirst(l: Bytes, downcase: bool)
    requires l != []
    ensures MaybeLowerBytes(l, downcase) == [MaybeLower(l[0], downcase)] + MaybeLowerBytes(l[1..], downcase)
    ensures |MaybeLowerBytes(l, downcase)| == |l|
  {
  }

  lemma PlaceholderThen(e: Bytes, x: Byte, r: Bytes)
    ensures e + [0, x] + r == e + [0] + ([x] + r)
  {
  }

  lemma LabelRead(p: Parser, q: Parser, ls: Labels, cur: Bytes)
    requires Shape(p, ls, []) && Short(ls) && !q.done && q.state.FtOrdinary? && q.offsets == p.offsets
    requires q.ndata == Encode(ls) + [0] + cur && q.count == |cur| && 1 <= |cur| <= MAX_LABELLEN
    requires |q.ndata| <= MAX_WIRE
    ensures Shape(q, ls, cur)
  {
  }

  lemma StartData(p: Parser, ls: Labels)
    requires Shape(p, ls, []) && !p.done && (p.state.FtInit? || p.state.FtStart?)
    ensures Short(ls) && p.ndata == Encode(ls)
  {
  }

  lemma EscapedCons(l: Bytes)
    requires l != []
    ensures EscapedLabel(l) == EscapedByte(l[0]) + EscapedLabel(l[1..])
  {
    hide EscapedByte;
  }

  /** The end of the text after a label: the final dot was omitted. */
  lemma FinishOrdinary(p: Parser, ls: Labels, cur: Bytes)
    requires Shape(p, ls, cur) && Sane(p) && !p.done && p.state.FtOrdinary? && |p.ndata| < MAX_WIRE
    ensures Short(ls + [cur] + [[]]) && WellFormedName(ls + [cur] + [[]])
    ensures Finish(p) == Ok(NameOf(ls + [cur] + [[]]))
  {
    EndLabelShape(p, ls, cur);
    NameOfParts(ls + [cur], EndLabel(p).ndata + [0], EndLabel(p).offsets);
  }

  lemma Shift<T>(a: seq<T>, b: seq<T>, c: seq<T>, d: seq<T>)
    ensures (a + b) + (c + d) == a + ((b + c) + d)
  {
  }

  lemma LowerCons(ls: Labels, downcase: bool)
    requires ls != []
    ensures MaybeLowerLabels(ls, downcase)
            == [MaybeLowerBytes(ls[0], downcase)] + MaybeLowerLabels(ls[1..], downcase)
    ensures |MaybeLowerBytes(ls[0], downcase)| == |ls[0]|
  {
  }

  lemma {:induction false} ShapeLength(p: Parser, ls: Labels, cur: Bytes)
    requires Shape(p, ls, cur) && !p.done
    ensures p.state.FtInit? || p.state.FtStart? ==> |p.ndata| == WireLength(ls)
    ensures !(p.state.FtInit? || p.state.FtStart?) ==> |p.ndata| == WireLength(ls) + 1 + |cur|
  {
    EncodeLength(ls);
  }

  lemma LowerSplitRoot(ls: Labels, downcase: bool)
    requires |ls| > 0 && ls[|ls| - 1] == []
    ensures MaybeLowerLabels(ls, downcase) == MaybeLowerLabels(ls[..|ls| - 1], downcase) + [[]]
  {
    hide LowerBytes, LowerLabels;
    assert LowerBytes([]) == [];
  }
}
