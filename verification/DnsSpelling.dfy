/** The texts that are names, and the names they spell: the parser accepts exactly these
    (slave/dns/name.cpp; section 5.1 of RFC 1035). */
module DnsSpelling {
  import opened Wrappers
  import opened DnsLabels
  import opened DnsText

  // ---------------------------------------------------------------- spellings

  /** One byte of a label: itself, a backslash and itself, or a backslash and its value in
      three decimal digits. */
  datatype Mark = Plain(c: Byte) | Quoted(c: Byte) | Decimal(x: Byte, y: Byte, z: Byte)

  ghost function MarkText(m: Mark): (t: Bytes)
    ensures t != []
  {
    match m
    case Plain(c) => [c]
    case Quoted(c) => [0x5c, c]
    case Decimal(x, y, z) => [0x5c, x, y, z]
  }

  ghost predicate ValidMark(m: Mark) {
    match m
    case Plain(c) => c != 0x2e && c != 0x5c
    case Quoted(c) => !(0x30 <= c <= 0x39)
    case Decimal(x, y, z) =>
      && 0x30 <= x <= 0x39 && 0x30 <= y <= 0x39 && 0x30 <= z <= 0x39
      && (x - 0x30) * 100 + (y - 0x30) * 10 + (z - 0x30) <= 255
  }

  ghost function MarkValue(m: Mark): (c: Byte)
    requires ValidMark(m)
  {
    match m
    case Plain(c) => c
    case Quoted(c) => c
    case Decimal(x, y, z) => (x - 0x30) * 100 + (y - 0x30) * 10 + (z - 0x30)
  }

  type Spelling = seq<Mark>

  ghost predicate ValidMarks(ms: Spelling) {
    forall i | 0 <= i < |ms| :: ValidMark(ms[i])
  }

  /** A label has 1 to 63 bytes and does not begin with a backslash and a bracket. */
  ghost predicate ValidLabel(ms: Spelling) {
    1 <= |ms| <= 63 && ValidMarks(ms) && ms[0] != Quoted(0x5b)
  }

  ghost function LabelText(ms: Spelling): (t: Bytes) {
    if ms == [] then [] else MarkText(ms[0]) + LabelText(ms[1..])
  }

  ghost function LabelValue(ms: Spelling): (l: Bytes)
    requires ValidMarks(ms)
    ensures |l| == |ms|
  {
    if ms == [] then [] else [MarkValue(ms[0])] + LabelValue(ms[1..])
  }

  /** Labels with dots between them. */
  ghost function DottedText(labels: seq<Spelling>): (t: Bytes) {
    if labels == [] then []
    else LabelText(labels[0]) + if |labels| == 1 then [] else [0x2e] + DottedText(labels[1..])
  }

  ghost predicate ValidLabels(labels: seq<Spelling>) {
    forall i | 0 <= i < |labels| :: ValidLabel(labels[i])
  }

  ghost function LabelValues(labels: seq<Spelling>): (ls: Labels)
    requires ValidLabels(labels)
    ensures |ls| == |labels| && NonRoot(ls)
  {
    if labels == [] then [] else [LabelValue(labels[0])] + LabelValues(labels[1..])
  }

  /** The text spells the labels: the root alone is a dot or an at sign, other names are
      dotted labels with or without a final dot. */
  ghost predicate Spells(t: Bytes, labels: seq<Spelling>) {
    && ValidLabels(labels)
    && if labels == [] then t == [0x2e] || t == [0x40]
       else t != [0x40] && (t == DottedText(labels) || t == DottedText(labels) + [0x2e])
  }

  // ---------------------------------------------------------------- one character at a time

  ghost function Run(p: Parser, t: Bytes, downcase: bool): (r: Result<Parser, NameError>)
    requires p.done || Sane(p)
    ensures r.Ok? ==> r.value.done || Sane(r.value)
  {
    Consume(p, t, 0, downcase)
  }

  lemma {:induction false} ConsumeSuffix(p: Parser, s: Bytes, i: nat, downcase: bool)
    requires i <= |s| && (p.done || Sane(p))
    ensures Consume(p, s, i, downcase) == Run(p, s[i..], downcase)
    decreases |s| - i
  {
    hide Step;
    if i < |s| && !p.done && |p.ndata| < MAX_WIRE {
      var next := Step(p, s[i], i + 1 == |s|, downcase);
      if next.Ok? {
        StepStays(p, s[i], i + 1 == |s|, downcase);
        ConsumeSuffix(next.value, s, i + 1, downcase);
        ConsumeSuffix(next.value, s[i..], 1, downcase);
        assert s[i..][1..] == s[i + 1..];
      }
    }
  }

  lemma StepStays(p: Parser, c: Byte, last: bool, downcase: bool)
    requires Sane(p) && |p.ndata| < MAX_WIRE && Step(p, c, last, downcase).Ok?
    ensures Step(p, c, last, downcase).value.done || Sane(Step(p, c, last, downcase).value)
  {
  }

  lemma RunOne(p: Parser, c: Byte, u: Bytes, downcase: bool)
    requires Sane(p) && !p.done && |p.ndata| < MAX_WIRE
    ensures var next := Step(p, c, u == [], downcase);
            && (next.Err? ==> Run(p, [c] + u, downcase) == Err(next.error))
            && (next.Ok? ==> (next.value.done || Sane(next.value)) && Run(p, [c] + u, downcase) == Run(next.value, u, downcase))
  {
    hide Step;
    var next := Step(p, c, u == [], downcase);
    if next.Ok? {
      StepStays(p, c, u == [], downcase);
      ConsumeSuffix(next.value, [c] + u, 1, downcase);
      assert ([c] + u)[1..] == u;
    }
  }

  lemma RunEnds(p: Parser, t: Bytes, downcase: bool)
    requires (p.done || Sane(p)) && (p.done || |p.ndata| >= MAX_WIRE || t == [])
    ensures Run(p, t, downcase) == Ok(p)
  {
  }

  // ---------------------------------------------------------------- every spelling is read

  /** The parser after one more byte of a label. */
  ghost function Pushed(p: Parser, q: Parser, c: Byte, downcase: bool): (r: Parser) {
    p.(state := FtOrdinary, digits := q.digits, value := q.value, count := p.count + 1,
      ndata := p.ndata + [MaybeLower(c, downcase)])
  }

  lemma ReadDecimalMark(p: Parser, m: Mark, u: Bytes, downcase: bool) returns (q: Parser)
    requires Sane(p) && !p.done && (p.state.FtEscape? || p.state.FtInitialEscape?)
    requires |p.ndata| < MAX_WIRE && p.count < MAX_LABELLEN && m.Decimal? && ValidMark(m)
    ensures Sane(q) && !q.done && q == Pushed(p, q, MarkValue(m), downcase)
    ensures Run(p, [m.x] + ([m.y] + ([m.z] + u)), downcase) == Run(q, u, downcase)
  {
    hide Run;
    RunOne(p, m.x, [m.y] + ([m.z] + u), downcase);
    q := p.(state := FtEscDecimal, digits := 1, value := m.x - 0x30);
    RunOne(q, m.y, [m.z] + u, downcase);
    q := p.(state := FtEscDecimal, digits := 2, value := (m.x - 0x30) * 10 + (m.y - 0x30));
    RunOne(q, m.z, u, downcase);
    q := Step(q, m.z, u == [], downcase).value;
  }

  lemma ReadEscapedMark(p: Parser, m: Mark, u: Bytes, downcase: bool) returns (q: Parser)
    requires Sane(p) && !p.done && (p.state.FtEscape? || (p.state.FtInitialEscape? && m != Quoted(0x5b)))
    requires |p.ndata| < MAX_WIRE && p.count < MAX_LABELLEN && !m.Plain? && ValidMark(m)
    ensures Sane(q) && !q.done && q == Pushed(p, q, MarkValue(m), downcase)
    ensures Run(p, MarkText(m)[1..] + u, downcase) == Run(q, u, downcase)
  {
    hide Run;
    match m
    case Quoted(c) =>
      assert MarkText(m)[1..] == [c];
      RunOne(p, c, u, downcase);
      q := Step(p, c, u == [], downcase).value;
    case Decimal(x, y, z) =>
      assert MarkText(m)[1..] + u == [x] + ([y] + ([z] + u));
      q := ReadDecimalMark(p, m, u, downcase);
  }

  lemma MarkFirst(m: Mark, u: Bytes)
    ensures MarkText(m) + u == [MarkText(m)[0]] + (MarkText(m)[1..] + u)
    ensures m.Plain? ==> MarkText(m) + u == [m.c] + u
    ensures !m.Plain? ==> MarkText(m)[0] == 0x5c && MarkText(m)[1..] + u != []
  {
  }

  /** A byte inside a label. */
  lemma ReadMark(p: Parser, m: Mark, u: Bytes, downcase: bool) returns (q: Parser)
    requires Sane(p) && !p.done && p.state.FtOrdinary? && |p.ndata| < MAX_WIRE && p.count < MAX_LABELLEN && ValidMark(m)
    ensures Sane(q) && !q.done && q == Pushed(p, q, MarkValue(m), downcase)
    ensures Run(p, MarkText(m) + u, downcase) == Run(q, u, downcase)
  {
    hide Run, MarkText;
    MarkFirst(m, u);
    if m.Plain? {
      RunOne(p, m.c, u, downcase);
      q := Step(p, m.c, u == [], downcase).value;
    } else {
      RunOne(p, 0x5c, MarkText(m)[1..] + u, downcase);
      q := ReadEscapedMark(p.(state := FtEscape), m, u, downcase);
    }
  }

  /** The first byte of a label, behind the placeholder for its length. */
  lemma ReadFirstMark(p: Parser, m: Mark, u: Bytes, downcase: bool) returns (q: Parser)
    requires Sane(p) && !p.done && (p.state.FtInit? || p.state.FtStart?) && |p.ndata| + 2 < MAX_WIRE
    requires ValidMark(m) && m != Quoted(0x5b) && !(p.state.FtInit? && m == Plain(0x40) && u == [])
    ensures Sane(q) && !q.done
    ensures q == p.(state := FtOrdinary, digits := q.digits, value := q.value, count := 1,
                    ndata := p.ndata + [0, MaybeLower(MarkValue(m), downcase)])
    ensures Run(p, MarkText(m) + u, downcase) == Run(q, u, downcase)
  {
    hide Run, MarkText;
    MarkFirst(m, u);
    if m.Plain? {
      RunOne(p, m.c, u, downcase);
      q := Step(p, m.c, u == [], downcase).value;
    } else {
      RunOne(p, 0x5c, MarkText(m)[1..] + u, downcase);
      var e := p.(ndata := p.ndata + [0], count := 0, state := FtInitialEscape);
      q := ReadEscapedMark(e, m, u, downcase);
      assert p.ndata + [0] + [MaybeLower(MarkValue(m), downcase)] == p.ndata + [0, MaybeLower(MarkValue(m), downcase)];
    }
  }

  lemma LabelTextCons(ms: Spelling, u: Bytes)
    requires ms != []
    ensures LabelText(ms) + u == MarkText(ms[0]) + (LabelText(ms[1..]) + u)
  {
    hide MarkText;
    Regroup(MarkText(ms[0]), LabelText(ms[1..]), u);
  }

  lemma LabelValueCons(ms: Spelling, downcase: bool)
    requires ms != [] && ValidMarks(ms)
    ensures MaybeLowerBytes(LabelValue(ms), downcase)
            == [MaybeLower(MarkValue(ms[0]), downcase)] + MaybeLowerBytes(LabelValue(ms[1..]), downcase)
  {
    hide MarkValue, ValidMark;
    LowerFirst(LabelValue(ms), downcase);
    assert LabelValue(ms)[1..] == LabelValue(ms[1..]);
  }

  lemma NoMarks(u: Bytes, downcase: bool)
    ensures LabelText([]) + u == u && MaybeLowerBytes(LabelValue([]), downcase) == []
  {
  }

  lemma {:induction false} ReadMarks(p: Parser, ms: Spelling, u: Bytes, downcase: bool) returns (q: Parser)
    requires Sane(p) && !p.done && p.state.FtOrdinary? && ValidMarks(ms)
    requires |p.ndata| + |ms| < MAX_WIRE && p.count + |ms| <= MAX_LABELLEN
    ensures Sane(q) && !q.done && Run(p, LabelText(ms) + u, downcase) == Run(q, u, downcase)
    ensures q == p.(digits := q.digits, value := q.value, count := p.count + |ms|,
                    ndata := p.ndata + MaybeLowerBytes(LabelValue(ms), downcase))
    decreases |ms|
  {
    hide Run, Sane, LabelText, MarkText, LabelValue, MarkValue, MaybeLower, MaybeLowerBytes, ValidMark;
    if ms == [] {
      NoMarks(u, downcase);
      q := p;
    } else {
      LabelTextCons(ms, u);
      LabelValueCons(ms, downcase);
      q := ReadMark(p, ms[0], LabelText(ms[1..]) + u, downcase);
      q := ReadMarks(q, ms[1..], u, downcase);
      Regroup(p.ndata, [MaybeLower(MarkValue(ms[0]), downcase)], MaybeLowerBytes(LabelValue(ms[1..]), downcase));
    }
  }

  /** A label, read from its start. */
  lemma ReadSpelling(p: Parser, ls: Labels, ms: Spelling, u: Bytes, downcase: bool) returns (q: Parser)
    requires Shape(p, ls, []) && Sane(p) && !p.done && (p.state.FtInit? || p.state.FtStart?)
    requires ValidLabel(ms) && |p.ndata| + 1 + |ms| < MAX_WIRE && !(p.state.FtInit? && LabelText(ms) + u == [0x40])
    ensures Sane(q) && !q.done && q.state.FtOrdinary? && Run(p, LabelText(ms) + u, downcase) == Run(q, u, downcase)
    ensures Shape(q, ls, MaybeLowerBytes(LabelValue(ms), downcase))
  {
    hide Run, Sane, LabelText, LabelValue, MarkValue, MaybeLower, MaybeLowerBytes, Shape, Encode;
    var c, r := MaybeLower(MarkValue(ms[0]), downcase), MaybeLowerBytes(LabelValue(ms[1..]), downcase);
    StartData(p, ls);
    LabelTextCons(ms, u);
    LabelValueCons(ms, downcase);
    LowerKeepsLength(LabelValue(ms), downcase);
    var q1 := ReadFirstMark(p, ms[0], LabelText(ms[1..]) + u, downcase);
    q := ReadMarks(q1, ms[1..], u, downcase);
    PlaceholderThen(Encode(ls), c, r);
    LabelRead(p, q, ls, MaybeLowerBytes(LabelValue(ms), downcase));
  }

  lemma LowerKeepsLength(l: Bytes, downcase: bool)
    ensures |MaybeLowerBytes(l, downcase)| == |l|
  {
  }

  /** The dot after a label. */
  lemma ReadDot(p: Parser, ls: Labels, cur: Bytes, u: Bytes, downcase: bool) returns (q: Parser)
    requires Shape(p, ls, cur) && Sane(p) && !p.done && p.state.FtOrdinary? && |p.ndata| < MAX_WIRE
    ensures Shape(q, ls + [cur], []) && (q.done || Sane(q))
    ensures q.done == (u == []) && (!q.done ==> q.state.FtStart? && |q.ndata| == |p.ndata|)
    ensures Run(p, [0x2e] + u, downcase) == Run(q, u, downcase)
  {
    hide Run;
    EndLabelShape(p, ls, cur);
    RunOne(p, 0x2e, u, downcase);
    q := Step(p, 0x2e, u == [], downcase).value;
  }

  /** Reading the text to its end gives the name. */
  ghost predicate ReadsAs(p: Parser, t: Bytes, downcase: bool, ls: Labels) {
    && (p.done || Sane(p)) && Short(ls) && WellFormedName(ls)
    && Run(p, t, downcase).Ok? && Finish(Run(p, t, downcase).value) == Ok(NameOf(ls))
  }

  /** The end of the text after a label, with or without the final dot. */
  lemma LastLabel(p: Parser, ls: Labels, cur: Bytes, dot: Bytes, downcase: bool)
    requires Shape(p, ls, cur) && Sane(p) && !p.done && p.state.FtOrdinary? && |p.ndata| < MAX_WIRE
    requires dot == [] || dot == [0x2e]
    ensures ReadsAs(p, dot, downcase, ls + [cur] + [[]])
  {
    if dot == [] {
      RunEnds(p, [], downcase);
      FinishOrdinary(p, ls, cur);
    } else {
      assert dot == [0x2e] + [];
      var q := ReadDot(p, ls, cur, [], downcase);
      RunEnds(q, [], downcase);
      EncodeLength(ls + [cur]);
      NameOfParts(ls + [cur], q.ndata, q.offsets);
    }
  }

  lemma DottedCons(labels: seq<Spelling>, dot: Bytes)
    requires labels != []
    ensures DottedText(labels) + dot == LabelText(labels[0]) + if |labels| == 1 then dot
                                                               else [0x2e] + (DottedText(labels[1..]) + dot)
  {
    hide *;
    DottedFirst(labels);
    if |labels| == 1 {
      assert LabelText(labels[0]) + [] + dot == LabelText(labels[0]) + dot;
    } else {
      Regroup(LabelText(labels[0]), [0x2e] + DottedText(labels[1..]), dot);
      Regroup([0x2e], DottedText(labels[1..]), dot);
    }
  }

  lemma DottedFirst(labels: seq<Spelling>)
    requires labels != []
    ensures DottedText(labels) == LabelText(labels[0]) + if |labels| == 1 then [] else [0x2e] + DottedText(labels[1..])
  {
  }

  lemma LabelTextNonEmpty(ms: Spelling)
    requires ms != []
    ensures LabelText(ms) != []
  {
    hide MarkText;
  }

  lemma DottedNonEmpty(labels: seq<Spelling>)
    requires labels != [] && ValidLabels(labels)
    ensures DottedText(labels) != []
  {
    hide LabelText;
    LabelTextNonEmpty(labels[0]);
  }

  lemma ValuesCons(labels: seq<Spelling>, downcase: bool)
    requires labels != [] && ValidLabels(labels)
    ensures ValidLabels(labels[1..]) && ValidLabel(labels[0])
    ensures LabelValues(labels) == [LabelValue(labels[0])] + LabelValues(labels[1..])
    ensures MaybeLowerLabels(LabelValues(labels), downcase)
            == [MaybeLowerBytes(LabelValue(labels[0]), downcase)] + MaybeLowerLabels(LabelValues(labels[1..]), downcase)
    ensures WireLength(LabelValues(labels)) == 1 + |labels[0]| + WireLength(LabelValues(labels[1..]))
  {
    hide ValidLabel, LabelValue, MaybeLowerLabels;
    LowerCons(LabelValues(labels), downcase);
    assert LabelValues(labels)[1..] == LabelValues(labels[1..]);
  }

  /** Dotted labels, read from the start of the first. */
  lemma {:induction false} ReadDotted(p: Parser, ls: Labels, labels: seq<Spelling>, dot: Bytes, downcase: bool)
    requires Shape(p, ls, []) && Sane(p) && !p.done && (p.state.FtInit? || p.state.FtStart?)
    requires labels != [] && ValidLabels(labels) && |p.ndata| + WireLength(LabelValues(labels)) < MAX_WIRE
    requires (dot == [] || dot == [0x2e]) && !(p.state.FtInit? && DottedText(labels) + dot == [0x40])
    ensures ReadsAs(p, DottedText(labels) + dot, downcase, ls + (MaybeLowerLabels(LabelValues(labels), downcase) + [[]]))
    decreases |labels|
  {
    hide *;
    var ms, rest := labels[0], labels[1..];
    DottedCons(labels, dot);
    ValuesCons(labels, downcase);
    ValidSize(ms);
    var low, lows := MaybeLowerBytes(LabelValue(ms), downcase), MaybeLowerLabels(LabelValues(rest), downcase);
    LowerKeepsLength(LabelValue(ms), downcase);
    Shift(ls, [low], lows, [[]]);
    ShapeLength(p, ls, []);
    if |labels| == 1 {
      var q := ReadSpelling(p, ls, ms, dot, downcase);
      ShapeLength(q, ls, low);
      NoLabels(rest, downcase);
      LastLabel(q, ls, low, dot, downcase);
      ReadsThrough(p, DottedText(labels) + dot, q, dot, downcase, ls + [low] + [[]]);
    } else {
      var u := DottedText(rest) + dot;
      DottedNonEmpty(rest);
      var q := ReadSpelling(p, ls, ms, [0x2e] + u, downcase);
      ShapeLength(q, ls, low);
      var q' := ReadDot(q, ls, low, u, downcase);
      ReadDotted(q', ls + [low], rest, dot, downcase);
      ReadsThrough(p, DottedText(labels) + dot, q', u, downcase, (ls + [low]) + (lows + [[]]));
    }
  }

  lemma ValidSize(ms: Spelling)
    requires ValidLabel(ms)
    ensures 1 <= |ms| <= 63 && ValidMarks(ms)
  {
  }

  lemma NoLabels(labels: seq<Spelling>, downcase: bool)
    requires labels == []
    ensures ValidLabels(labels) && MaybeLowerLabels(LabelValues(labels), downcase) + [[]] == [[]]
    ensures WireLength(LabelValues(labels)) == 0
  {
  }

  lemma ReadsThrough(p: Parser, t: Bytes, q: Parser, u: Bytes, downcase: bool, ls: Labels)
    requires Sane(p) && ReadsAs(q, u, downcase, ls) && Run(p, t, downcase) == Run(q, u, downcase)
    ensures ReadsAs(p, t, downcase, ls)
  {
    hide Run;
  }

  /** A text that spells labels of at most 255 wire bytes in all parses to their name. */
  lemma SpellingParses(t: Bytes, labels: seq<Spelling>, downcase: bool)
    requires Spells(t, labels) && WireLength(LabelValues(labels)) < 255
    ensures var ls := MaybeLowerLabels(LabelValues(labels), downcase) + [[]];
            Short(ls) && WellFormedName(ls) && ParseName(t, downcase) == Ok(NameOf(ls))
  {
    hide Consume, DottedText, ValidLabels, LabelValues, WireLength, NameOf, WellFormedName, Short, MaybeLowerLabels, Shape;
    StartShapes();
    if labels == [] {
      RootParses(t, downcase);
      NoLabels([], downcase);
    } else {
      var dot := if t == DottedText(labels) then [] else [0x2e];
      assert t == DottedText(labels) + dot;
      ReadDotted(INITIAL, [], labels, dot, downcase);
      assert [] + (MaybeLowerLabels(LabelValues(labels), downcase) + [[]])
             == MaybeLowerLabels(LabelValues(labels), downcase) + [[]];
    }
  }

  lemma StartShapes()
    ensures Shape(INITIAL, [], []) && Sane(INITIAL)
  {
  }

  lemma RootParses(t: Bytes, downcase: bool)
    requires t == [0x2e] || t == [0x40]
    ensures Short([[]]) && WellFormedName([[]]) && ParseName(t, downcase) == Ok(NameOf([[]]))
  {
    assert t == [t[0]] + [];
    RunOne(INITIAL, t[0], [], downcase);
    RunEnds(INITIAL.(ndata := [0], done := true), [], downcase);
    NameOfParts([], [0], [0]);
    var none: Labels := [];
    assert none + [[]] == [[]];
  }

  // ---------------------------------------------------------------- every text read is a spelling

  /** Reading the text to its end gives some name. */
  ghost predicate Complete(p: Parser, t: Bytes, downcase: bool) {
    (p.done || Sane(p)) && Run(p, t, downcase).Ok? && Finish(Run(p, t, downcase).value).Ok?
  }

  lemma CompleteNext(p: Parser, t: Bytes, downcase: bool) returns (c: Byte, u: Bytes, q: Parser)
    requires Sane(p) && !p.done && |p.ndata| < MAX_WIRE && t != [] && Complete(p, t, downcase)
    ensures t == [c] + u && Step(p, c, u == [], downcase) == Ok(q)
    ensures Run(p, t, downcase) == Run(q, u, downcase) && Complete(q, u, downcase)
  {
    hide Run, Step, Finish;
    c, u := t[0], t[1..];
    assert t == [c] + u;
    RunOne(p, c, u, downcase);
    q := Step(p, c, u == [], downcase).value;
  }

  /** Between labels and inside escapes a text must go on, and a name must fit. */
  lemma CompleteGoesOn(p: Parser, t: Bytes, downcase: bool)
    requires !p.done && |p.ndata| <= MAX_WIRE && Complete(p, t, downcase)
    ensures |p.ndata| < MAX_WIRE && (!p.state.FtOrdinary? ==> t != [])
  {
    hide Consume;
    if |p.ndata| >= MAX_WIRE || t == [] {
      RunEnds(p, t, downcase);
    }
  }

  lemma EscapedMarkOf(p: Parser, t: Bytes, downcase: bool) returns (m: Mark, u: Bytes, q: Parser)
    requires Sane(p) && !p.done && (p.state.FtEscape? || p.state.FtInitialEscape?) && |p.ndata| <= MAX_WIRE
    requires Complete(p, t, downcase)
    ensures ValidMark(m) && !m.Plain? && (p.state.FtInitialEscape? ==> m != Quoted(0x5b)) && [0x5c] + t == MarkText(m) + u
    ensures p.count < MAX_LABELLEN && |p.ndata| < MAX_WIRE && Sane(q) && !q.done && |u| < |t|
    ensures q == Pushed(p, q, MarkValue(m), downcase) && Run(p, t, downcase) == Run(q, u, downcase)
    ensures Complete(q, u, downcase)
  {
    hide Complete, Run;
    CompleteGoesOn(p, t, downcase);
    var c;
    c, u, q := CompleteNext(p, t, downcase);
    if !IsDigit(c) {
      m := Quoted(c);
    } else {
      CompleteGoesOn(q, u, downcase);
      var y, z, v, w, q1, q2;
      y, v, q1 := CompleteNext(q, u, downcase);
      CompleteGoesOn(q1, v, downcase);
      z, w, q2 := CompleteNext(q1, v, downcase);
      m := Decimal(c, y, z);
      assert q1 == p.(state := FtEscDecimal, digits := 2, value := (c - 0x30) * 10 + (y - 0x30));
      u, q := w, q2;
      assert [0x5c] + t == [0x5c, c, y, z] + w;
    }
  }

  lemma FirstMarkOf(p: Parser, t: Bytes, downcase: bool) returns (m: Mark, u: Bytes, q: Parser)
    requires Sane(p) && !p.done && p.state.FtOrdinary? && |p.ndata| < MAX_WIRE && t != [] && t[0] != 0x2e
    requires Complete(p, t, downcase)
    ensures ValidMark(m) && t == MarkText(m) + u && p.count < MAX_LABELLEN && Sane(q) && !q.done && |u| < |t|
    ensures q == Pushed(p, q, MarkValue(m), downcase) && Complete(q, u, downcase)
  {
    hide Complete, Run;
    var c;
    c, u, q := CompleteNext(p, t, downcase);
    if c == 0x5c {
      m, u, q := EscapedMarkOf(q, u, downcase);
    } else {
      m := Plain(c);
    }
  }

  /** What is left of a label, and the labels behind it. */
  ghost function RestText(ms: Spelling, labels: seq<Spelling>, dot: Bytes): (t: Bytes) {
    LabelText(ms) + if labels == [] then dot else [0x2e] + (DottedText(labels) + dot)
  }

  lemma {:induction false} DivideOrdinary(p: Parser, t: Bytes, downcase: bool)
    returns (ms: Spelling, labels: seq<Spelling>, dot: Bytes)
    requires Sane(p) && !p.done && p.state.FtOrdinary? && |p.ndata| <= MAX_WIRE && Complete(p, t, downcase)
    ensures ValidMarks(ms) && p.count + |ms| <= MAX_LABELLEN && ValidLabels(labels) && (dot == [] || dot == [0x2e])
    ensures t == RestText(ms, labels, dot)
    ensures |p.ndata| + |ms| + WireLength(LabelValues(labels)) < MAX_WIRE
    decreases |t|, 0
  {
    hide Complete, Run, RestText, WireLength, LabelValues, ValidLabel, ValidMark, DottedText, MarkValue, MarkText;
    CompleteGoesOn(p, t, downcase);
    NoLabels([], downcase);
    if t == [] {
      ms, labels, dot := [], [], [];
      RestEmpty([]);
    } else if t[0] == 0x2e {
      ms := [];
      var c, u, q := CompleteNext(p, t, downcase);
      if u == [] {
        labels, dot := [], [0x2e];
        RestEmpty(dot);
      } else {
        labels, dot := DivideStart(q, u, downcase);
        RestDot(labels, dot);
      }
    } else {
      var m, u, q := FirstMarkOf(p, t, downcase);
      ms, labels, dot := DivideOrdinary(q, u, downcase);
      RestMark(m, ms, labels, dot);
      ms := [m] + ms;
    }
  }

  lemma RestEmpty(dot: Bytes)
    ensures RestText([], [], dot) == dot
  {
  }

  lemma RestDot(labels: seq<Spelling>, dot: Bytes)
    requires labels != []
    ensures RestText([], labels, dot) == [0x2e] + (DottedText(labels) + dot)
  {
    hide DottedText;
  }

  lemma RestMark(m: Mark, ms: Spelling, labels: seq<Spelling>, dot: Bytes)
    ensures RestText([m] + ms, labels, dot) == MarkText(m) + RestText(ms, labels, dot)
  {
    hide DottedText, MarkText;
    assert ([m] + ms)[1..] == ms;
    LabelTextCons([m] + ms, if labels == [] then dot else [0x2e] + (DottedText(labels) + dot));
  }

  lemma StartMarkOf(p: Parser, t: Bytes, downcase: bool) returns (m: Mark, u: Bytes, q: Parser)
    requires Sane(p) && !p.done && (p.state.FtInit? || p.state.FtStart?) && |p.ndata| <= MAX_WIRE
    requires Complete(p, t, downcase) && !(p.state.FtInit? && (t == [0x2e] || t == [0x40]))
    ensures ValidMark(m) && m != Quoted(0x5b) && t == MarkText(m) + u && |u| < |t|
    ensures Sane(q) && !q.done && q.state.FtOrdinary? && q.count == 1 && |q.ndata| == |p.ndata| + 2 <= MAX_WIRE
    ensures Complete(q, u, downcase)
  {
    hide Complete, Run;
    CompleteGoesOn(p, t, downcase);
    var c;
    c, u, q := CompleteNext(p, t, downcase);
    if c == 0x5c {
      m, u, q := EscapedMarkOf(q, u, downcase);
    } else {
      m := Plain(c);
    }
  }

  lemma {:induction false} DivideStart(p: Parser, t: Bytes, downcase: bool)
    returns (labels: seq<Spelling>, dot: Bytes)
    requires Sane(p) && !p.done && (p.state.FtInit? || p.state.FtStart?) && |p.ndata| <= MAX_WIRE
    requires Complete(p, t, downcase) && !(p.state.FtInit? && (t == [0x2e] || t == [0x40]))
    ensures labels != [] && ValidLabels(labels) && (dot == [] || dot == [0x2e]) && t == DottedText(labels) + dot
    ensures |p.ndata| + WireLength(LabelValues(labels)) < MAX_WIRE
    decreases |t|, 1
  {
    hide Complete, Run, RestText, WireLength, LabelValues, DottedText, ValidMark, MarkText;
    var m, u, q := StartMarkOf(p, t, downcase);
    var ms, more;
    ms, more, dot := DivideOrdinary(q, u, downcase);
    labels := [[m] + ms] + more;
    assert labels[1..] == more;
    RestMark(m, ms, more, dot);
    RestIsDotted(labels, dot);
    ValuesCons(labels, downcase);
  }

  lemma RestIsDotted(labels: seq<Spelling>, dot: Bytes)
    requires labels != []
    ensures DottedText(labels) + dot == RestText(labels[0], labels[1..], dot)
  {
    hide LabelText;
    DottedCons(labels, dot);
  }

  // ---------------------------------------------------------------- whole texts

  /** The text spells these labels, and the name is theirs. */
  ghost predicate SpellsName(t: Bytes, labels: seq<Spelling>, downcase: bool, n: Name) {
    && Spells(t, labels) && WireLength(LabelValues(labels)) < 255
    && var ls := MaybeLowerLabels(LabelValues(labels), downcase) + [[]];
    Short(ls) && WireLength(ls) <= MAX_WIRE && n == NameOf(ls)
  }

  /** A text is accepted, with some name, exactly when it spells that name. */
  lemma ParseNameIff(t: Bytes, downcase: bool, n: Name)
    ensures ParseName(t, downcase) == Ok(n) <==> exists labels :: SpellsName(t, labels, downcase, n)
  {
    hide ParseName, Spells, NameOf, WireLength, LabelValues, MaybeLowerLabels, WellFormedName, Short;
    if ParseName(t, downcase) == Ok(n) {
      var labels := SpellingOf(t, downcase);
      SpellingNames(t, labels, downcase);
      assert SpellsName(t, labels, downcase, n);
    }
    if labels :| SpellsName(t, labels, downcase, n) {
      SpellingNames(t, labels, downcase);
    }
  }

  lemma SpellingNames(t: Bytes, labels: seq<Spelling>, downcase: bool)
    requires Spells(t, labels) && WireLength(LabelValues(labels)) < 255
    ensures var ls := MaybeLowerLabels(LabelValues(labels), downcase) + [[]];
            Short(ls) && WireLength(ls) <= MAX_WIRE && ParseName(t, downcase) == Ok(NameOf(ls))
  {
    hide ParseName, Spells, NameOf, LabelValues, MaybeLowerLabels, Short;
    SpellingParses(t, labels, downcase);
  }

  lemma SpellingOf(t: Bytes, downcase: bool) returns (labels: seq<Spelling>)
    requires ParseName(t, downcase).Ok?
    ensures Spells(t, labels) && WireLength(LabelValues(labels)) < 255
  {
    hide Consume, DottedText, WireLength, LabelValues;
    StartShapes();
    if t == [0x2e] || t == [0x40] {
      labels := [];
      NoLabels([], downcase);
    } else {
      var dot;
      labels, dot := DivideStart(INITIAL, t, downcase);
      assert dot == [] ==> DottedText(labels) + dot == DottedText(labels);
    }
  }

  // ---------------------------------------------------------------- what is printed

  /** How a byte is printed: the characters with a meaning in zone files, " ( ) . ; @ $
      and the backslash, behind a backslash; other visible ones as they are; the rest in
      decimal. */
  ghost function MarkOf(c: Byte): (m: Mark) {
    if c in [0x22, 0x28, 0x29, 0x2e, 0x3b, 0x5c, 0x40, 0x24] then Quoted(c)
    else if 0x21 <= c <= 0x7e then Plain(c)
    else Decimal(0x30 + c / 100, 0x30 + c / 10 % 10, 0x30 + c % 10)
  }

  lemma PrintedByte(c: Byte)
    ensures var m := MarkOf(c);
            ValidMark(m) && m != Quoted(0x5b) && m != Plain(0x40) && MarkValue(m) == c && EscapedByte(c) == MarkText(m)
  {
    hide MarkValue;
    if MarkOf(c).Decimal? {
      DecimalByte(c);
    } else {
      PlainByte(c);
    }
  }

  lemma PlainByte(c: Byte)
    requires !MarkOf(c).Decimal?
    ensures ValidMark(MarkOf(c)) && MarkValue(MarkOf(c)) == c && EscapedByte(c) == MarkText(MarkOf(c))
  {
  }

  lemma DecimalByte(c: Byte)
    ensures var m := Decimal(0x30 + c / 100, 0x30 + c / 10 % 10, 0x30 + c % 10);
            ValidMark(m) && MarkValue(m) == c && 48 + (c / 100) % 10 == m.x
  {
    var a, b := c / 10, c / 100;
    assert b == a / 10 && b <= 2 && c == a * 10 + c % 10 && a == b * 10 + a % 10;
  }

  ghost function MarksOf(l: Bytes): (ms: Spelling)
    ensures |ms| == |l|
  {
    if l == [] then [] else [MarkOf(l[0])] + MarksOf(l[1..])
  }

  lemma {:induction false} PrintedLabel(l: Bytes)
    ensures ValidMarks(MarksOf(l)) && LabelText(MarksOf(l)) == EscapedLabel(l) && LabelValue(MarksOf(l)) == l
    ensures l != [] ==> MarksOf(l)[0] != Quoted(0x5b) && EscapedLabel(l) != [0x40]
  {
    hide MarkOf, EscapedByte, MarkText, ValidMark, MarkValue;
    if l != [] {
      PrintedByte(l[0]);
      PrintedLabel(l[1..]);
      var ms := MarksOf(l);
      assert ms[1..] == MarksOf(l[1..]);
      NotAt(ms);
    }
  }

  lemma NotAt(ms: Spelling)
    requires ms != [] && ms[0] != Plain(0x40)
    ensures LabelText(ms) != [0x40] && LabelText(ms) != []
  {
    match ms[0]
    case Plain(c) => assert LabelText(ms)[0] == c;
    case _ => assert LabelText(ms)[0] == 0x5c;
  }

  ghost function SpellingsOf(ls: Labels): (r: seq<Spelling>)
    ensures |r| == |ls|
  {
    if ls == [] then [] else [MarksOf(ls[0])] + SpellingsOf(ls[1..])
  }

  lemma {:induction false} PrintedLabels(ls: Labels)
    requires NonRoot(ls)
    ensures var r := SpellingsOf(ls);
            && ValidLabels(r) && LabelValues(r) == ls && DottedText(r) == Joined(ls)
            && (ls != [] ==> DottedText(r) != [0x40] && DottedText(r) != [])
  {
    hide MarksOf, EscapedLabel, LabelText, LabelValue, ValidMarks;
    if ls != [] {
      PrintedLabel(ls[0]);
      PrintedLabels(ls[1..]);
      var r := SpellingsOf(ls);
      assert r[1..] == SpellingsOf(ls[1..]);
      LabelTextNonEmpty(r[0]);
      if |ls| == 1 {
        assert LabelText(r[0]) + [] == LabelText(r[0]);
      } else {
        Regroup(LabelText(r[0]), [0x2e], DottedText(r[1..]));
        LongerThanOne(LabelText(r[0]), [0x2e] + DottedText(r[1..]));
      }
    }
  }

  lemma LongerThanOne(a: Bytes, b: Bytes)
    requires a != [] && b != []
    ensures a + b != [0x40]
  {
    assert |a + b| > 1;
  }

  /** Printing a well-formed name, with or without the final dot, and parsing
      the text gives back the same bytes and offsets; parsed with downcase, it
      gives the lower-cased name. */
  lemma TextRoundTrip(ls: Labels, omitFinalDot: bool, downcase: bool)
    requires WellFormedName(ls)
    ensures var r := MaybeLowerLabels(ls, downcase);
            && Short(r) && WireLength(r) <= MAX_WIRE
            && ParseName(NameText(ls, omitFinalDot), downcase) == Ok(NameOf(r))
  {
    var init := ls[..|ls| - 1];
    SplitRoot(ls);
    LowerSplitRoot(ls, downcase);
    hide ParseName, Spells, NameOf, LabelValues, MaybeLowerLabels, Short, WireLength, Joined, SpellingsOf;
    PrintedIsSpelling(ls, omitFinalDot);
    SpellingNames(NameText(ls, omitFinalDot), SpellingsOf(init), downcase);
  }

  lemma PrintedIsSpelling(ls: Labels, omitFinalDot: bool)
    requires WellFormedName(ls)
    ensures var r := SpellingsOf(ls[..|ls| - 1]);
            Spells(NameText(ls, omitFinalDot), r) && LabelValues(r) == ls[..|ls| - 1]
  {
    hide Joined, LabelValues, DottedText, SpellingsOf, ValidLabels;
    var init := ls[..|ls| - 1];
    PrintedLabels(init);
    if init != [] {
      LongerThanOne(Joined(init), [0x2e]);
    }
  }
}
