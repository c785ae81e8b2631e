/** Which texts reach the assertion of the name parser on a label that would start in
    the last byte of a name (slave/dns/name.cpp). */
module DnsAssertion {
  import opened Wrappers
  import opened DnsLabels
  import opened DnsText
  import DnsSpelling

  /** The parser after characters i to j - 1, none of them the last of the text. */
  ghost function Scan(p: Parser, s: Bytes, i: nat, j: nat, downcase: bool): (r: Result<Parser, NameError>)
    requires i <= j <= |s| && (p.done || Sane(p))
    ensures r.Ok? ==> r.value.done || Sane(r.value)
    decreases j - i
  {
    if |p.ndata| >= MAX_WIRE || i == j || p.done then Ok(p)
    else match Step(p, s[i], false, downcase)
      case Err(e) => Err(e)
      case Ok(q) => Scan(q, s, i + 1, j, downcase)
  }

  // ---------------------------------------------------------------- one character

  /** A character that is not the last never completes a name. */
  lemma StepGoesOn(p: Parser, c: Byte, downcase: bool)
    requires Sane(p) && !p.done
    ensures var r := Step(p, c, false, downcase);
            r.Ok? ==> !r.value.done && !r.value.state.FtInit? && |r.value.ndata| <= |p.ndata| + 2
  {
  }

  /** Only a dot after a label starts the next one. */
  lemma StartsLabel(p: Parser, c: Byte, downcase: bool)
    requires Sane(p) && !p.done
    requires Step(p, c, false, downcase).Ok? && Step(p, c, false, downcase).value.state.FtStart?
    ensures p.state.FtOrdinary? && c == DOT && |Step(p, c, false, downcase).value.ndata| == |p.ndata|
  {
  }

  lemma DotStartsLabel(p: Parser, downcase: bool)
    requires Sane(p) && !p.done && p.state.FtOrdinary? && p.count > 0
    ensures var r := Step(p, DOT, false, downcase);
            r.Ok? && r.value.state.FtStart? && !r.value.done && |r.value.ndata| == |p.ndata|
  {
  }

  /** Whether a character inside a label is the last makes no difference. */
  lemma InsideLabel(p: Parser, c: Byte, downcase: bool)
    requires Sane(p) && !p.done && !p.state.FtInit?
    requires Step(p, c, false, downcase).Ok? && Step(p, c, false, downcase).value.state.FtOrdinary?
    ensures Step(p, c, true, downcase) == Step(p, c, false, downcase)
  {
  }

  lemma LastCharacter(p: Parser, c: Byte, downcase: bool)
    requires Sane(p) && !p.done && Step(p, c, true, downcase).Ok?
    ensures var r := Step(p, c, true, downcase).value;
            if !r.done then Step(p, c, false, downcase) == Ok(r)
            else if p.state.FtInit? then |r.ndata| == |p.ndata| + 1
            else && Step(p, c, false, downcase).Ok?
                 && var q := Step(p, c, false, downcase).value;
                    q.state.FtStart? && !q.done && |q.ndata| + 1 == |r.ndata|
  {
  }

  lemma StepAsserts(p: Parser, c: Byte, last: bool, downcase: bool)
    requires Sane(p) && !p.done && |p.ndata| < MAX_WIRE && !p.state.FtInit?
    ensures Step(p, c, last, downcase) == Err(AssertionFailed)
            <==> p.state.FtStart? && |p.ndata| == MAX_WIRE - 1 && c != BACKSLASH
  {
  }

  // ---------------------------------------------------------------- prefixes of a text

  lemma {:induction false} ScanSnoc(p: Parser, s: Bytes, i: nat, j: nat, downcase: bool)
    requires i <= j < |s| && (p.done || Sane(p))
    ensures Scan(p, s, i, j + 1, downcase) ==
            match Scan(p, s, i, j, downcase)
            case Err(e) => Err(e)
            case Ok(q) => if |q.ndata| >= MAX_WIRE || q.done then Ok(q) else Step(q, s[j], false, downcase)
    decreases j - i
  {
    hide Step;
    if |p.ndata| < MAX_WIRE && !p.done && i < j && Step(p, s[i], false, downcase).Ok? {
      ScanSnoc(Step(p, s[i], false, downcase).value, s, i + 1, j, downcase);
    }
  }

  lemma {:induction false} ScanPrefix(p: Parser, s: Bytes, i: nat, j: nat, m: nat, downcase: bool)
    requires i <= j <= m <= |s| && (p.done || Sane(p))
    ensures Scan(p, s[..m], i, j, downcase) == Scan(p, s, i, j, downcase)
    decreases j - i
  {
    hide Step;
    if |p.ndata| < MAX_WIRE && !p.done && i < j && Step(p, s[i], false, downcase).Ok? {
      ScanPrefix(Step(p, s[i], false, downcase).value, s, i + 1, j, m, downcase);
    }
  }

  lemma {:induction false} ConsumeScan(p: Parser, s: Bytes, i: nat, j: nat, downcase: bool)
    requires i <= j < |s| && (p.done || Sane(p))
    ensures Consume(p, s, i, downcase) ==
            match Scan(p, s, i, j, downcase)
            case Err(e) => Err(e)
            case Ok(q) => Consume(q, s, j, downcase)
    decreases j - i
  {
    hide Step;
    if |p.ndata| < MAX_WIRE && !p.done && i < j && Step(p, s[i], false, downcase).Ok? {
      ConsumeScan(Step(p, s[i], false, downcase).value, s, i + 1, j, downcase);
    }
  }

  /** Only before the first character is the parser in its initial state. */
  lemma {:induction false} ScanGoesOn(s: Bytes, j: nat, downcase: bool)
    requires j <= |s| && Scan(INITIAL, s, 0, j, downcase).Ok?
    ensures var q := Scan(INITIAL, s, 0, j, downcase).value;
            !q.done && (if j == 0 then q == INITIAL else !q.state.FtInit?)
  {
    hide Step;
    if j > 0 {
      ScanSnoc(INITIAL, s, 0, j - 1, downcase);
      ScanGoesOn(s, j - 1, downcase);
      var q := Scan(INITIAL, s, 0, j - 1, downcase).value;
      if |q.ndata| < MAX_WIRE {
        StepGoesOn(q, s[j - 1], downcase);
      }
    }
  }

  /** Where the assertion fails. */
  lemma {:induction false} AssertionPoint(p: Parser, s: Bytes, i: nat, downcase: bool) returns (j: nat)
    requires i <= |s| && !p.done && Sane(p) && Consume(p, s, i, downcase) == Err(AssertionFailed)
    ensures i <= j < |s| && Scan(p, s, i, j, downcase).Ok?
    ensures var q := Scan(p, s, i, j, downcase).value;
            |q.ndata| < MAX_WIRE && !q.done && Step(q, s[j], j + 1 == |s|, downcase) == Err(AssertionFailed)
    decreases |s| - i
  {
    hide Step;
    j := i;
    if Step(p, s[i], i + 1 == |s|, downcase).Ok? {
      StepGoesOn(p, s[i], downcase);
      j := AssertionPoint(Step(p, s[i], false, downcase).value, s, i + 1, downcase);
    }
  }

  // ---------------------------------------------------------------- the condition

  /** The text before the dot at i - 1 is a name of the full 255 bytes, and another
      label follows that does not begin with an escape. */
  ghost predicate FullNameThenMore(s: Bytes, downcase: bool, i: int) {
    && 0 < i < |s| && s[i - 1] == DOT && s[i] != BACKSLASH
    && ParseName(s[..i - 1], downcase).Ok? && ParseName(s[..i - 1], downcase).value.length == MAX_WIRE
  }

  lemma PrefixConsumed(s: Bytes, m: nat, downcase: bool)
    requires 0 < m <= |s|
    ensures Consume(INITIAL, s[..m], 0, downcase) ==
            match Scan(INITIAL, s, 0, m - 1, downcase)
            case Err(e) => Err(e)
            case Ok(q) => if |q.ndata| >= MAX_WIRE || q.done then Ok(q) else Step(q, s[m - 1], true, downcase)
  {
    hide Step, Scan;
    ConsumeScan(INITIAL, s[..m], 0, m - 1, downcase);
    ScanPrefix(INITIAL, s, 0, m - 1, m, downcase);
  }

  /** The state from which a label starts at byte 254, reached from a full name. */
  lemma LabelAtLimit(s: Bytes, j: nat, downcase: bool)
    requires j < |s| && Scan(INITIAL, s, 0, j, downcase).Ok?
    requires var q := Scan(INITIAL, s, 0, j, downcase).value; q.state.FtStart? && |q.ndata| == MAX_WIRE - 1
    ensures j > 0 && s[j - 1] == DOT
    ensures ParseName(s[..j - 1], downcase).Ok? && ParseName(s[..j - 1], downcase).value.length == MAX_WIRE
  {
    hide Step, Scan, Consume;
    ScanGoesOn(s, j, downcase);
    ScanSnoc(INITIAL, s, 0, j - 1, downcase);
    ScanGoesOn(s, j - 1, downcase);
    var q := Scan(INITIAL, s, 0, j - 1, downcase).value;
    StartsLabel(q, s[j - 1], downcase);
    ScanSnoc(INITIAL, s, 0, j - 2, downcase);
    ScanGoesOn(s, j - 2, downcase);
    var q' := Scan(INITIAL, s, 0, j - 2, downcase).value;
    StepGoesOn(q', s[j - 2], downcase);
    InsideLabel(q', s[j - 2], downcase);
    PrefixConsumed(s, j - 1, downcase);
  }

  lemma AssertionNeeds(s: Bytes, downcase: bool) returns (i: nat)
    requires ParseName(s, downcase) == Err(AssertionFailed)
    ensures FullNameThenMore(s, downcase, i)
  {
    hide Step, Scan, Consume;
    i := AssertionPoint(INITIAL, s, 0, downcase);
    ScanGoesOn(s, i, downcase);
    StartAsserts(s, i, downcase);
    LabelAtLimit(s, i, downcase);
  }

  lemma StartAsserts(s: Bytes, i: nat, downcase: bool)
    requires i < |s| && Scan(INITIAL, s, 0, i, downcase).Ok?
    requires var q := Scan(INITIAL, s, 0, i, downcase).value;
             |q.ndata| < MAX_WIRE && !q.done && Step(q, s[i], i + 1 == |s|, downcase) == Err(AssertionFailed)
    ensures var q := Scan(INITIAL, s, 0, i, downcase).value;
            q.state.FtStart? && |q.ndata| == MAX_WIRE - 1 && s[i] != BACKSLASH
  {
    hide Scan;
    ScanGoesOn(s, i, downcase);
    if i > 0 {
      StepAsserts(Scan(INITIAL, s, 0, i, downcase).value, s[i], i + 1 == |s|, downcase);
    }
  }

  /** A parser inside a label has read at least one byte of it. */
  lemma InsideHasCount(t: Bytes, downcase: bool)
    requires Consume(INITIAL, t, 0, downcase).Ok?
    ensures var p := Consume(INITIAL, t, 0, downcase).value; !p.done && p.state.FtOrdinary? ==> p.count > 0
  {
    assert Shape(INITIAL, [], []);
    var ls, cur := ConsumeShape(INITIAL, [], [], t, 0, downcase);
  }

  lemma AssertionFollows(s: Bytes, downcase: bool, i: nat)
    requires FullNameThenMore(s, downcase, i)
    ensures ParseName(s, downcase) == Err(AssertionFailed)
  {
    hide Step, Scan;
    var m := i - 1;
    assert m > 0 by { EmptyText(downcase); }
    FullNameReached(s, m, downcase);
    ConsumeScan(INITIAL, s, 0, m, downcase);
    var p := Scan(INITIAL, s, 0, m, downcase).value;
    if p.state.FtStart? {
      StepAsserts(p, s[m], m + 1 == |s|, downcase);
    } else {
      DotStartsLabel(p, downcase);
      var r := Step(p, DOT, false, downcase).value;
      StepAsserts(r, s[i], i + 1 == |s|, downcase);
    }
  }

  lemma EmptyText(downcase: bool)
    ensures ParseName([], downcase) == Err(IncompleteName)
  {
  }

  /** After the text of a full name the parser stands inside its last label, or, when
      the text ends in a dot, at the start of the next. */
  lemma FullNameReached(s: Bytes, m: nat, downcase: bool)
    requires 0 < m < |s| && ParseName(s[..m], downcase).Ok? && ParseName(s[..m], downcase).value.length == MAX_WIRE
    ensures Scan(INITIAL, s, 0, m, downcase).Ok?
    ensures var p := Scan(INITIAL, s, 0, m, downcase).value;
            && !p.done && |p.ndata| == MAX_WIRE - 1 && !p.state.FtInit?
            && (p.state.FtStart? || (p.state.FtOrdinary? && p.count > 0))
  {
    hide Step, Scan, Consume;
    PrefixConsumed(s, m, downcase);
    ScanGoesOn(s, m - 1, downcase);
    ScanSnoc(INITIAL, s, 0, m - 1, downcase);
    var q := Scan(INITIAL, s, 0, m - 1, downcase).value;
    InsideHasCount(s[..m], downcase);
    if |q.ndata| < MAX_WIRE {
      LastCharacter(q, s[m - 1], downcase);
    }
  }

  /** The assertion fails on exactly the texts with more labels after a name that
      already fills 255 bytes, unless the next one begins with an escape. */
  lemma AssertionFailsIff(s: Bytes, downcase: bool)
    ensures ParseName(s, downcase) == Err(AssertionFailed) <==> exists i: nat :: FullNameThenMore(s, downcase, i)
  {
    hide FullNameThenMore, ParseName;
    if ParseName(s, downcase) == Err(AssertionFailed) {
      var i := AssertionNeeds(s, downcase);
    }
    if i: nat :| FullNameThenMore(s, downcase, i) {
      AssertionFollows(s, downcase, i);
    }
  }

  // ---------------------------------------------------------------- one such text

  ghost function Repeated(n: nat): (l: Bytes) {
    seq(n, _ => 97)
  }

  /** Labels of 63, 63, 63 and 61 letters fill a name; the next label fails. */
  lemma AssertionText(downcase: bool) returns (s: Bytes)
    ensures ParseName(s, downcase) == Err(AssertionFailed)
  {
    hide ParseName, NameText, NameOf, WellFormedName, MaybeLowerLabels;
    var ls := [Repeated(63), Repeated(63), Repeated(63), Repeated(61), []];
    FullName(ls);
    DnsSpelling.TextRoundTrip(ls, true, downcase);
    LowerFullName(ls, downcase);
    var t := NameText(ls, true);
    s := t + [DOT, 97];
    assert s[..|t|] == t;
    AssertionFollows(s, downcase, |t| + 1);
  }

  lemma FullName(ls: Labels)
    requires ls == [Repeated(63), Repeated(63), Repeated(63), Repeated(61), []]
    ensures WellFormedName(ls) && Short(ls) && WireLength(ls) == MAX_WIRE
  {
    assert ls[1..] == [Repeated(63), Repeated(63), Repeated(61), []];
    assert ls[1..][1..] == [Repeated(63), Repeated(61), []];
    assert ls[1..][1..][1..] == [Repeated(61), []];
    assert ls[1..][1..][1..][1..] == [[]];
    assert WireLength([[]]) == 1 && WireLength([Repeated(61), []]) == 63 && WireLength(ls[1..][1..]) == 127;
  }

  lemma LowerFullName(ls: Labels, downcase: bool)
    requires WellFormedName(ls) && Short(ls)
    ensures WireLength(MaybeLowerLabels(ls, downcase)) == WireLength(ls)
    ensures var r := MaybeLowerLabels(ls, downcase);
            Short(r) && (WireLength(r) <= MAX_WIRE ==> NameOf(r).length == WireLength(r))
  {
    LowerKeepsShape(ls);
  }
}
