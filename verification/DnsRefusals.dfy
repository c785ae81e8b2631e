/** Why a text is refused as a name: the error of the first thing that is wrong, behind any
    spelling that is right (slave/dns/name.cpp). */
module DnsRefusals {
  import opened Wrappers
  import opened DnsLabels
  import opened DnsText
  import opened DnsSpelling

  /** Complete labels, each with its dot, and the label that has been begun. */
  ghost function Begun(labels: seq<Spelling>, ms: Spelling): (t: Bytes) {
    if labels == [] then LabelText(ms) else LabelText(labels[0]) + ([0x2e] + Begun(labels[1..], ms))
  }

  ghost predicate ValidStart(ms: Spelling) {
    ms == [] || ValidLabel(ms)
  }

  /** Wire bytes of what has been read, the length octet of a begun label included. */
  ghost function Size(labels: seq<Spelling>, ms: Spelling): (n: nat)
    requires ValidLabels(labels)
  {
    WireLength(LabelValues(labels)) + if ms == [] then 0 else 1 + |ms|
  }

  /** Where the parser stands behind such a text. */
  ghost predicate Stands(q: Parser, first: bool, ms: Spelling, size: nat) {
    && Sane(q) && !q.done && |q.ndata| == size
    && if ms == [] then (if first then q.state.FtInit? else q.state.FtStart?)
       else q.state.FtOrdinary? && q.count == |ms|
  }

  lemma {:induction false} Reaches(p: Parser, ls: Labels, labels: seq<Spelling>, ms: Spelling, u: Bytes, downcase: bool)
    returns (q: Parser)
    requires Shape(p, ls, []) && Sane(p) && !p.done && (p.state.FtInit? || p.state.FtStart?)
    requires ValidLabels(labels) && ValidStart(ms) && |p.ndata| + Size(labels, ms) < 255 && u != []
    ensures Stands(q, p.state.FtInit? && labels == [], ms, |p.ndata| + Size(labels, ms))
    ensures Run(p, Begun(labels, ms) + u, downcase) == Run(q, u, downcase)
    decreases |labels|
  {
    hide Run, LabelText, LabelValue, LabelValues, WireLength, Shape, Sane, ValidLabel, MaybeLowerBytes, Encode;
    if labels == [] {
      NoLabels([], downcase);
      q := ReachesLabel(p, ls, ms, u, downcase);
    } else {
      ValuesCons(labels, downcase);
      ValidSize(labels[0]);
      var rest := Begun(labels[1..], ms) + u;
      BegunCons(labels, ms, u);
      AtAlone(labels[0], [0x2e] + rest);
      var q1 := ReadSpelling(p, ls, labels[0], [0x2e] + rest, downcase);
      var cur := MaybeLowerBytes(LabelValue(labels[0]), downcase);
      LowerKeepsLength(LabelValue(labels[0]), downcase);
      ShapeLength(p, ls, []);
      ShapeLength(q1, ls, cur);
      var q2 := ReadDot(q1, ls, cur, rest, downcase);
      q := Reaches(q2, ls + [cur], labels[1..], ms, u, downcase);
    }
  }

  lemma BegunCons(labels: seq<Spelling>, ms: Spelling, u: Bytes)
    requires labels != []
    ensures Begun(labels, ms) + u == LabelText(labels[0]) + ([0x2e] + (Begun(labels[1..], ms) + u))
  {
    hide LabelText;
    Regroup(LabelText(labels[0]), [0x2e] + Begun(labels[1..], ms), u);
    Regroup([0x2e], Begun(labels[1..], ms), u);
  }

  lemma AtAlone(ms: Spelling, u: Bytes)
    requires ms != [] && u != []
    ensures LabelText(ms) + u != [0x40]
  {
    LabelTextNonEmpty(ms);
    LongerThanOne(LabelText(ms), u);
  }

  lemma ReachesLabel(p: Parser, ls: Labels, ms: Spelling, u: Bytes, downcase: bool) returns (q: Parser)
    requires Shape(p, ls, []) && Sane(p) && !p.done && (p.state.FtInit? || p.state.FtStart?)
    requires ValidStart(ms) && |p.ndata| + (if ms == [] then 0 else 1 + |ms|) < 255 && u != []
    ensures Stands(q, p.state.FtInit?, ms, |p.ndata| + if ms == [] then 0 else 1 + |ms|)
    ensures Run(p, LabelText(ms) + u, downcase) == Run(q, u, downcase)
  {
    hide Run, Encode, WireLength;
    if ms == [] {
      NoMarks(u, downcase);
      q := p;
    } else {
      AtAlone(ms, u);
      q := ReadSpelling(p, ls, ms, u, downcase);
      LowerKeepsLength(LabelValue(ms), downcase);
      ShapeLength(p, ls, []);
      ShapeLength(q, ls, MaybeLowerBytes(LabelValue(ms), downcase));
    }
  }

  lemma Stood(labels: seq<Spelling>, ms: Spelling, u: Bytes, downcase: bool) returns (q: Parser)
    requires ValidLabels(labels) && ValidStart(ms) && Size(labels, ms) < 255 && u != []
    ensures Stands(q, labels == [], ms, Size(labels, ms))
    ensures Consume(INITIAL, Begun(labels, ms) + u, 0, downcase) == Run(q, u, downcase)
  {
    StartShapes();
    q := Reaches(INITIAL, [], labels, ms, u, downcase);
  }

  /** A dot where a label should begin. */
  lemma EmptyLabelRefused(labels: seq<Spelling>, u: Bytes, downcase: bool)
    requires ValidLabels(labels) && Size(labels, []) < 254 && (labels != [] || u != [])
    ensures ParseName(Begun(labels, []) + ([0x2e] + u), downcase) == Err(EmptyLabel)
  {
    hide Consume, Begun;
    var q := Stood(labels, [], [0x2e] + u, downcase);
    RunOne(q, 0x2e, u, downcase);
  }

  /** A label of more than 63 bytes, whatever the 64th. */
  lemma LongLabelRefused(labels: seq<Spelling>, ms: Spelling, m: Mark, u: Bytes, downcase: bool)
    requires ValidLabels(labels) && ValidLabel(ms) && |ms| == 63 && Size(labels, ms) < 255 && ValidMark(m)
    ensures ParseName(Begun(labels, ms) + (MarkText(m) + u), downcase) == Err(TooLongLabel)
  {
    hide Consume, Begun;
    var q := Stood(labels, ms, MarkText(m) + u, downcase);
    MarkFirst(m, u);
    match m
    case Plain(c) => RunOne(q, c, u, downcase);
    case Quoted(c) =>
      assert MarkText(m)[1..] + u == [c] + u;
      RunOne(q, 0x5c, [c] + u, downcase);
      RunOne(q.(state := FtEscape), c, u, downcase);
    case Decimal(x, y, z) =>
      assert MarkText(m)[1..] + u == [x] + ([y] + ([z] + u));
      RunOne(q, 0x5c, [x] + ([y] + ([z] + u)), downcase);
      DecimalRefused(q.(state := FtEscape), x, y, z, u, downcase);
  }

  /** Three digits behind a backslash that are no byte, or one byte too many. */
  lemma DecimalRefused(p: Parser, x: Byte, y: Byte, z: Byte, u: Bytes, downcase: bool)
    requires Sane(p) && !p.done && (p.state.FtEscape? || p.state.FtInitialEscape?) && |p.ndata| < 255
    requires IsDigit(x) && IsDigit(y) && IsDigit(z)
    ensures Run(p, [x] + ([y] + ([z] + u)), downcase) ==
            if (x - 0x30) * 100 + (y - 0x30) * 10 + (z - 0x30) > 255 then Err(BadEscape)
            else if p.count == 63 then Err(TooLongLabel) else Run(p, [x] + ([y] + ([z] + u)), downcase)
  {
    hide Run;
    RunOne(p, x, [y] + ([z] + u), downcase);
    var q := p.(state := FtEscDecimal, digits := 1, value := x - 0x30);
    RunOne(q, y, [z] + u, downcase);
    q := p.(state := FtEscDecimal, digits := 2, value := (x - 0x30) * 10 + (y - 0x30));
    RunOne(q, z, u, downcase);
  }

  /** A backslash and a bracket at the start of a label. */
  lemma BitLabelRefused(labels: seq<Spelling>, u: Bytes, downcase: bool)
    requires ValidLabels(labels) && Size(labels, []) < 254
    ensures ParseName(Begun(labels, []) + ([0x5c] + ([0x5b] + u)), downcase) == Err(BadLabelType)
  {
    hide Consume, Begun;
    var q := Stood(labels, [], [0x5c] + ([0x5b] + u), downcase);
    RunOne(q, 0x5c, [0x5b] + u, downcase);
    RunOne(q.(ndata := q.ndata + [0], count := 0, state := FtInitialEscape), 0x5b, u, downcase);
  }

  /** The parser behind a backslash. */
  lemma Escaping(labels: seq<Spelling>, ms: Spelling, u: Bytes, downcase: bool) returns (q: Parser)
    requires ValidLabels(labels) && ValidStart(ms) && Size(labels, ms) < 254
    ensures Sane(q) && !q.done && |q.ndata| < 255 && (q.state.FtEscape? || q.state.FtInitialEscape?)
    ensures Consume(INITIAL, Begun(labels, ms) + ([0x5c] + u), 0, downcase) == Run(q, u, downcase)
  {
    hide Run, Begun, Consume;
    var p := Stood(labels, ms, [0x5c] + u, downcase);
    RunOne(p, 0x5c, u, downcase);
    q := Step(p, 0x5c, u == [], downcase).value;
  }

  /** A backslash and one or two digits that something else follows, or three that are
      more than 255. */
  lemma BadEscapeRefused(labels: seq<Spelling>, ms: Spelling, x: Byte, y: Byte, z: Byte, u: Bytes, downcase: bool)
    requires ValidLabels(labels) && ValidStart(ms) && Size(labels, ms) < 254 && IsDigit(x)
    ensures !IsDigit(y) ==> ParseName(Begun(labels, ms) + ([0x5c] + ([x] + ([y] + u))), downcase) == Err(BadEscape)
    ensures IsDigit(y) && (!IsDigit(z) || (x - 0x30) * 100 + (y - 0x30) * 10 + (z - 0x30) > 255) ==>
              ParseName(Begun(labels, ms) + ([0x5c] + ([x] + ([y] + ([z] + u)))), downcase) == Err(BadEscape)
  {
    hide Consume, Begun, Run;
    if !IsDigit(y) {
      var q := Escaping(labels, ms, [x] + ([y] + u), downcase);
      RunOne(q, x, [y] + u, downcase);
      RunOne(q.(state := FtEscDecimal, digits := 1, value := x - 0x30), y, u, downcase);
    } else {
      var q := Escaping(labels, ms, [x] + ([y] + ([z] + u)), downcase);
      if IsDigit(z) {
        DecimalRefused(q, x, y, z, u, downcase);
      } else {
        RunOne(q, x, [y] + ([z] + u), downcase);
        q := q.(state := FtEscDecimal, digits := 1, value := x - 0x30);
        RunOne(q, y, [z] + u, downcase);
        RunOne(q.(digits := 2, value := (x - 0x30) * 10 + (y - 0x30)), z, u, downcase);
      }
    }
  }

  /** No text at all. */
  lemma EmptyTextRefused(downcase: bool)
    ensures ParseName([], downcase) == Err(IncompleteName)
  {
    RunEnds(INITIAL, [], downcase);
  }

  /** A text that ends behind a backslash. */
  lemma BareEscapeRefused(labels: seq<Spelling>, ms: Spelling, downcase: bool)
    requires ValidLabels(labels) && ValidStart(ms) && Size(labels, ms) < 254
    ensures ParseName(Begun(labels, ms) + [0x5c], downcase) == Err(IncompleteName)
  {
    hide Consume, Begun, Run, Size, ValidLabels, ValidStart;
    var p := Escaping(labels, ms, [], downcase);
    assert [0x5c] + [] == [0x5c];
    RunEnds(p, [], downcase);
  }

  /** A text that ends behind a backslash and one digit. */
  lemma OneDigitRefused(labels: seq<Spelling>, ms: Spelling, x: Byte, downcase: bool)
    requires ValidLabels(labels) && ValidStart(ms) && Size(labels, ms) < 254 && IsDigit(x)
    ensures ParseName(Begun(labels, ms) + ([0x5c] + [x]), downcase) == Err(IncompleteName)
  {
    hide Consume, Begun, Run, Size, ValidLabels, ValidStart;
    var p := Escaping(labels, ms, [x], downcase);
    assert [x] == [x] + [];
    RunOne(p, x, [], downcase);
    RunEnds(p.(state := FtEscDecimal, digits := 1, value := x - 0x30), [], downcase);
  }

  /** A text that ends behind a backslash and two digits. */
  lemma TwoDigitsRefused(labels: seq<Spelling>, ms: Spelling, x: Byte, y: Byte, downcase: bool)
    requires ValidLabels(labels) && ValidStart(ms) && Size(labels, ms) < 254 && IsDigit(x) && IsDigit(y)
    ensures ParseName(Begun(labels, ms) + ([0x5c] + ([x] + [y])), downcase) == Err(IncompleteName)
  {
    hide Consume, Begun, Run, Size, ValidLabels, ValidStart;
    var p := Escaping(labels, ms, [x] + [y], downcase);
    RunOne(p, x, [y], downcase);
    p := p.(state := FtEscDecimal, digits := 1, value := x - 0x30);
    assert [y] == [y] + [];
    RunOne(p, y, [], downcase);
    RunEnds(p.(digits := 2, value := (x - 0x30) * 10 + (y - 0x30)), [], downcase);
  }

  /** A label that would need the 255th byte, which the root needs. */
  lemma LongNameRefused(labels: seq<Spelling>, ms: Spelling, c: Byte, u: Bytes, downcase: bool)
    requires ValidLabels(labels) && ValidLabel(ms) && |ms| < 63 && Size(labels, ms) == 254
    requires ValidMark(Plain(c))
    ensures ParseName(Begun(labels, ms) + ([c] + u), downcase) == Err(TooLongName)
  {
    hide Consume, Begun;
    var q := Stood(labels, ms, [c] + u, downcase);
    RunOne(q, c, u, downcase);
    RunEnds(Step(q, c, u == [], downcase).value, u, downcase);
  }
}
