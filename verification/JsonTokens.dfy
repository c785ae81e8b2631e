/** Strings and numbers: the parser reads exactly the tokens of the grammar
    (slave/util/json11.cpp). */
module JsonTokens {
  import opened Wrappers
  import opened JsonText
  import opened JsonValues
  import opened JsonGrammar

  // ---------------------------------------------------------------- strings

  lemma PiecesCons(ps: seq<Piece>, close: Bytes)
    requires ps != []
    ensures PiecesText(ps) + close == PieceText(ps[0]) + (PiecesText(ps[1..]) + close)
  {
    hide PieceText;
    Regroup(PieceText(ps[0]), PiecesText(ps[1..]), close);
  }

  lemma PlainReads(c: Byte, tail: Bytes, out: Bytes, last: int)
    requires ValidPiece(Plain(c)) && -1 <= last <= 0xffff
    ensures ReadChar(PieceText(Plain(c)) + tail, out, last) == More(out + Utf8(last) + [c], -1, 1)
  {
    hide Utf8;
  }

  lemma ShortReads(c: Byte, tail: Bytes, out: Bytes, last: int)
    requires ValidPiece(Short(c)) && -1 <= last <= 0xffff
    ensures ReadChar(PieceText(Short(c)) + tail, out, last) == More(out + Utf8(last) + [ShortValue(c)], -1, 2)
  {
    hide Utf8;
  }

  lemma UnicodeReads(p: Piece, tail: Bytes, out: Bytes, last: int)
    requires p.Unicode? && ValidPiece(p) && -1 <= last <= 0xffff
    ensures ReadChar(PieceText(p) + tail, out, last) ==
            if 0xd800 <= last <= 0xdbff && 0xdc00 <= Unit(p) <= 0xdfff
            then More(out + Utf8(0x10000 + (last - 0xd800) * 0x400 + (Unit(p) - 0xdc00)), -1, 6)
            else More(out + Utf8(last), Unit(p), 6)
  {
    hide Utf8, HexCharValue;
    var s := PieceText(p) + tail;
    assert s[2..] == p.digits + tail;
    assert FourHex(s[2..]) && HexValue(s[2..]) == Unit(p);
  }

  lemma NothingPending(ps: seq<Piece>)
    requires ValidPieces(ps)
    ensures Pending(-1, ps) == PiecesValue(ps)
  {
    hide PiecesValue, Utf8;
    NoCodePoint();
  }

  /** What is pending is written before a byte and with any \u escape but its pair. */
  lemma PendingWith(last: int, ps: seq<Piece>)
    requires ps != [] && ValidPieces(ps) && -1 <= last <= 0xffff
    ensures ps[0].Plain? ==> Pending(last, ps) == Utf8(last) + ([ps[0].c] + PiecesValue(ps[1..]))
    ensures ps[0].Short? ==> Pending(last, ps) == Utf8(last) + ([ShortValue(ps[0].c)] + PiecesValue(ps[1..]))
    ensures ps[0].Unicode? ==>
              Pending(last, ps) ==
              if 0xd800 <= last <= 0xdbff && 0xdc00 <= Unit(ps[0]) <= 0xdfff
              then Utf8(0x10000 + (last - 0xd800) * 0x400 + (Unit(ps[0]) - 0xdc00)) + PiecesValue(ps[1..])
              else Utf8(last) + Pending(Unit(ps[0]), ps[1..])
  {
    hide Utf8;
  }

  lemma ByteWritten(out: Bytes, u: Bytes, c: Byte, more: Bytes)
    ensures out + u + [c] + more == out + (u + ([c] + more))
  {
    Regroup(out, u, [c] + more);
    Regroup(out + u, [c], more);
  }

  /** One piece is read, and the bytes it stands for are written or pending. */
  lemma PieceReads(ps: seq<Piece>, tail: Bytes, out: Bytes, last: int) returns (out': Bytes, last': int)
    requires ps != [] && ValidPieces(ps) && -1 <= last <= 0xffff
    ensures -1 <= last' <= 0xffff
    ensures ReadChar(PieceText(ps[0]) + tail, out, last) == More(out', last', |PieceText(ps[0])|)
    ensures out' + Pending(last', ps[1..]) == out + Pending(last, ps)
  {
    hide Utf8, ReadChar, Pending, PiecesValue, ShortValue, ValidPiece;
    PendingWith(last, ps);
    NothingPending(ps[1..]);
    match ps[0]
    case Plain(c) =>
      PlainReads(c, tail, out, last);
      out', last' := out + Utf8(last) + [c], -1;
      ByteWritten(out, Utf8(last), c, PiecesValue(ps[1..]));
    case Short(c) =>
      ShortReads(c, tail, out, last);
      out', last' := out + Utf8(last) + [ShortValue(c)], -1;
      ByteWritten(out, Utf8(last), ShortValue(c), PiecesValue(ps[1..]));
    case Unicode(_) =>
      UnicodeReads(ps[0], tail, out, last);
      SixBytes(ps[0]);
      if 0xd800 <= last <= 0xdbff && 0xdc00 <= Unit(ps[0]) <= 0xdfff {
        var both := Utf8(0x10000 + (last - 0xd800) * 0x400 + (Unit(ps[0]) - 0xdc00));
        out', last' := out + both, -1;
        Regroup(out, both, PiecesValue(ps[1..]));
      } else {
        out', last' := out + Utf8(last), Unit(ps[0]);
        Regroup(out, Utf8(last), Pending(Unit(ps[0]), ps[1..]));
      }
  }

  lemma SixBytes(p: Piece)
    requires p.Unicode? && ValidPiece(p)
    ensures |PieceText(p)| == 6
  {
  }

  /** Every string of the grammar is read to its bytes. */
  lemma {:induction false} PiecesRead(ps: seq<Piece>, out: Bytes, last: int, rest: Bytes)
    requires ValidPieces(ps) && -1 <= last <= 0xffff
    ensures ReadString(PiecesText(ps) + ([0x22] + rest), out, last) == Ok((out + Pending(last, ps), rest))
    decreases |ps|
  {
    hide ReadChar, ReadString, Utf8, PieceText, PiecesText, ValidPiece, PiecesValue, Pending;
    if ps == [] {
      NoPieces(last, rest);
      ReadClose(rest, out, last);
    } else {
      var tail := PiecesText(ps[1..]) + ([0x22] + rest);
      PiecesCons(ps, [0x22] + rest);
      var out', last' := PieceReads(ps, tail, out, last);
      ReadMore(PieceText(ps[0]), tail, out, last, out', last');
      PiecesRead(ps[1..], out', last', rest);
    }
  }

  lemma NoPieces(last: int, rest: Bytes)
    requires -1 <= last <= 0xffff
    ensures PiecesText([]) + ([0x22] + rest) == [0x22] + rest && Pending(last, []) == Utf8(last)
  {
    hide Utf8;
    assert [] + ([0x22] + rest) == [0x22] + rest;
  }

  lemma ReadStep(s: Bytes, out: Bytes, last: int)
    requires -1 <= last <= 0xffff && ReadString(s, out, last).Ok?
    ensures !ReadChar(s, out, last).Broken?
    ensures ReadChar(s, out, last).Closed? ==> s != [] && s[0] == 0x22 && ReadString(s, out, last).value.1 == s[1..]
    ensures ReadChar(s, out, last).More? ==>
              var step := ReadChar(s, out, last);
              ReadString(s, out, last) == ReadString(s[step.used..], step.out, step.last)
  {
    hide Utf8, HexValue;
  }

  /** Every string that is read is one of the grammar. */
  lemma {:induction false} DivideString(s: Bytes, out: Bytes, last: int) returns (ps: seq<Piece>)
    requires -1 <= last <= 0xffff && ReadString(s, out, last).Ok?
    ensures ValidPieces(ps) && s == PiecesText(ps) + ([0x22] + ReadString(s, out, last).value.1)
    decreases |s|
  {
    hide ReadString, ReadChar, PiecesText, PieceText, ValidPiece;
    ReadStep(s, out, last);
    match ReadChar(s, out, last)
    case Closed(_) =>
      ps := [];
      NoPieces(-1, s[1..]);
      assert s == [0x22] + s[1..];
    case More(out', last', used) =>
      var p := FirstPiece(s, out, last);
      var more := DivideString(s[used..], out', last');
      ps := [p] + more;
      assert ps[1..] == more && s == s[..used] + s[used..];
      PiecesCons(ps, [0x22] + ReadString(s, out, last).value.1);
  }

  lemma FirstPiece(s: Bytes, out: Bytes, last: int) returns (p: Piece)
    requires -1 <= last <= 0xffff && ReadChar(s, out, last).More?
    ensures ValidPiece(p) && PieceText(p) == s[..ReadChar(s, out, last).used]
  {
    hide Utf8, HexValue;
    if s[0] != BACKSLASH {
      p := Plain(s[0]);
    } else if s[1] == LOWER_U {
      p := Unicode(s[2..6]);
      assert FourHex(s[2..]);
      forall i | 0 <= i < 4
        ensures Hexadecimal(s[2..6][i])
      {
        assert s[2..6][i] == s[2..][i];
      }
    } else {
      p := Short(s[1]);
    }
  }

  // ---------------------------------------------------------------- numbers

  /** What may follow a numeral without becoming part of it. */
  predicate Stops(n: Numeral, rest: Bytes) {
    var c := At(rest, 0);
    && !Digit(c)
    && (n.exponent.None? ==> c != 0x65 && c != 0x45)
    && (n.fraction.None? && n.exponent.None? ==> c != 0x2e)
  }

  /** A run of digits between two other texts. */
  lemma RunBetween(a: Bytes, ds: Bytes, rest: Bytes)
    requires Digits(ds) && !Digit(At(rest, 0))
    ensures DigitRun((a + ds + rest)[|a|..]) == |ds|
    ensures Digit(At(a + ds + rest, |a|)) && At(a + ds + rest, |a|) == ds[0]
  {
    assert (a + ds + rest)[|a|..] == ds + rest;
    DigitRunOf(ds, rest);
  }

  lemma IntegerPartReads(n: Numeral, rest: Bytes)
    requires ValidNumber(n) && !Digit(At(rest, 0))
    ensures var sign := if n.minus then [0x2d] else [];
            IntegerPart(sign + n.digits + rest) == Ok(|sign| + |n.digits|)
  {
    hide DigitRun;
    var sign := if n.minus then [0x2d] else [];
    var s := sign + n.digits + rest;
    RunBetween(sign, n.digits, rest);
    if |n.digits| > 1 {
      assert At(s, |sign| + 1) == n.digits[1];
    } else {
      assert At(s, |sign| + 1) == At(rest, 0);
    }
    assert At(s, 0) == if n.minus then 0x2d else n.digits[0];
  }

  lemma FractionReads(front: Bytes, f: Option<Bytes>, rest: Bytes)
    requires (f.Some? ==> Digits(f.value)) && !Digit(At(rest, 0)) && (f.None? ==> At(rest, 0) != 0x2e)
    ensures var s := front + FractionText(f) + rest;
            FractionEnd(s, |front|) == Ok(|front| + |FractionText(f)|)
  {
    hide DigitRun;
    var s := front + FractionText(f) + rest;
    match f
    case None => assert At(s, |front|) == At(rest, 0);
    case Some(ds) =>
      assert s == (front + [0x2e]) + ds + rest;
      RunBetween(front + [0x2e], ds, rest);
  }

  lemma ExponentReads(front: Bytes, e: Option<Exponent>, rest: Bytes)
    requires (e.Some? ==> ValidExponent(e.value))
    requires !Digit(At(rest, 0)) && (e.None? ==> At(rest, 0) != 0x65 && At(rest, 0) != 0x45)
    ensures var s := front + ExponentText(e) + rest;
            ExponentEnd(s, |front|) == Ok(|front| + |ExponentText(e)|)
  {
    hide DigitRun;
    var s := front + ExponentText(e) + rest;
    match e
    case None => assert At(s, |front|) == At(rest, 0);
    case Some(x) =>
      var a := front + [x.mark] + x.sign;
      ExponentGroups(front, x, rest);
      RunBetween(a, x.digits, rest);
  }

  lemma ExponentGroups(front: Bytes, x: Exponent, rest: Bytes)
    requires x.digits != [] && |x.sign| <= 1
    ensures var s := front + ExponentText(Some(x)) + rest;
            && s == front + [x.mark] + x.sign + x.digits + rest
            && At(s, |front|) == x.mark
            && At(s, |front| + 1) == if x.sign == [] then x.digits[0] else x.sign[0]
  {
    Regroup(front, [x.mark] + x.sign, x.digits);
    Regroup(front, [x.mark], x.sign);
  }

  lemma TailStarts(n: Numeral, rest: Bytes)
    requires ValidNumber(n) && Stops(n, rest)
    ensures var e := ExponentText(n.exponent) + rest;
            var f := FractionText(n.fraction) + e;
            && !Digit(At(e, 0)) && !Digit(At(f, 0))
            && (n.fraction.None? ==> f == e && At(e, 0) != 0x2e)
            && (At(f, 0) != DOT && !ExponentMark(At(f, 0)) <==> n.fraction.None? && n.exponent.None?)
  {
    var e := ExponentText(n.exponent) + rest;
    if n.fraction.None? {
      assert FractionText(n.fraction) + e == e;
    }
    if n.exponent.None? {
      assert e == rest;
    }
  }

  lemma AtoiReads(n: Numeral)
    requires ValidNumber(n)
    ensures Atoi((if n.minus then [0x2d] else []) + n.digits)
            == if n.minus then -DecimalValue(n.digits) else DecimalValue(n.digits)
  {
    hide DecimalValue;
    if n.minus {
      assert ([0x2d] + n.digits)[1..] == n.digits;
    } else {
      assert [] + n.digits == n.digits;
    }
  }

  /** Every numeral of the grammar is read to the number it denotes. */
  lemma NumberReads(n: Numeral, rest: Bytes)
    requires ValidNumber(n) && Stops(n, rest)
    ensures ReadNumber(NumberText(n) + rest) == Ok((NumberDenoted(n), rest))
  {
    hide IntegerPart, FractionEnd, ExponentEnd, Atoi, DecimalValue, ValidNumber, FractionText, ExponentText;
    var front := (if n.minus then [0x2d] else []) + n.digits;
    var f, e := FractionText(n.fraction), ExponentText(n.exponent);
    var s := NumberText(n) + rest;
    TailStarts(n, rest);
    NumberPieces(n, rest);
    IntegerPartReads(n, f + (e + rest));
    FractionPartReads(n, front, rest);
    ExponentPartReads(n, front + f, rest);
    AtoiReads(n);
    assert At(s, |front|) == At(f + (e + rest), 0);
    SplitAtEnd(NumberText(n), rest);
    if n.fraction.None? && n.exponent.None? {
      NoTail();
      assert NumberText(n) == front;
    }
  }

  lemma NoTail()
    ensures FractionText(None) == [] && ExponentText(None) == []
  {
  }

  lemma NumberPieces(n: Numeral, rest: Bytes)
    ensures var front := (if n.minus then [0x2d] else []) + n.digits;
            var f, e := FractionText(n.fraction), ExponentText(n.exponent);
            && NumberText(n) + rest == front + (f + (e + rest))
            && NumberText(n) + rest == front + f + (e + rest) == front + f + e + rest
            && |NumberText(n)| == |front| + |f| + |e|
  {
    var front := (if n.minus then [0x2d] else []) + n.digits;
    hide FractionText, ExponentText;
    Regroup(front, FractionText(n.fraction), ExponentText(n.exponent) + rest);
    Regroup(front + FractionText(n.fraction), ExponentText(n.exponent), rest);
  }

  lemma FractionPartReads(n: Numeral, front: Bytes, rest: Bytes)
    requires ValidNumber(n) && Stops(n, rest)
    ensures FractionEnd(front + FractionText(n.fraction) + (ExponentText(n.exponent) + rest), |front|)
            == Ok(|front| + |FractionText(n.fraction)|)
  {
    hide FractionEnd;
    TailStarts(n, rest);
    FractionReads(front, n.fraction, ExponentText(n.exponent) + rest);
  }

  lemma ExponentPartReads(n: Numeral, front: Bytes, rest: Bytes)
    requires ValidNumber(n) && Stops(n, rest)
    ensures ExponentEnd(front + ExponentText(n.exponent) + rest, |front|) == Ok(|front| + |ExponentText(n.exponent)|)
  {
    hide ExponentEnd;
    ExponentReads(front, n.exponent, rest);
  }

  // ---------------------------------------------------------------- every number read is a numeral

  lemma {:induction false} RunIsDigits(s: Bytes)
    ensures var n := DigitRun(s);
            (forall i | 0 <= i < n :: 0x30 <= s[i] <= 0x39) && !Digit(At(s[n..], 0))
  {
    if s != [] && Digit(s[0]) {
      RunIsDigits(s[1..]);
      assert s[1..][DigitRun(s[1..])..] == s[DigitRun(s)..];
    }
  }

  lemma DigitsAt(s: Bytes, k: nat)
    requires k <= |s| && Digit(At(s, k))
    ensures var n := DigitRun(s[k..]);
            n > 0 && Digits(s[k..k + n]) && !Digit(At(s[k + n..], 0))
  {
    var t := s[k..];
    RunIsDigits(t);
    var n := DigitRun(t);
    assert t[n..] == s[k + n..];
    var ds := s[k..k + n];
    assert forall i | 0 <= i < n :: ds[i] == t[i];
  }

  lemma DivideInteger(s: Bytes) returns (minus: bool, digits: Bytes)
    requires IntegerPart(s).Ok?
    ensures s[..IntegerPart(s).value] == (if minus then [0x2d] else []) + digits
    ensures Digits(digits) && (|digits| > 1 ==> digits[0] != 0x30)
    ensures !Digit(At(s[IntegerPart(s).value..], 0))
  {
    hide DigitRun;
    var k := if At(s, 0) == MINUS then 1 else 0;
    minus := k == 1;
    if At(s, k) == 0x30 {
      digits := [0x30];
      assert At(s[k + 1..], 0) == At(s, k + 1);
    } else {
      DigitsAt(s, k);
      digits := s[k..k + DigitRun(s[k..])];
    }
  }

  lemma DivideFraction(s: Bytes, n: nat) returns (f: Option<Bytes>)
    requires n <= |s| && FractionEnd(s, n).Ok?
    ensures s[n..FractionEnd(s, n).value] == FractionText(f) && (f.Some? ==> Digits(f.value))
    ensures f.Some? ==> !Digit(At(s[FractionEnd(s, n).value..], 0))
    ensures f.None? ==> FractionEnd(s, n).value == n && At(s, n) != 0x2e
  {
    hide DigitRun;
    if At(s, n) != DOT {
      f := None;
    } else {
      DigitsAt(s, n + 1);
      f := Some(s[n + 1..n + 1 + DigitRun(s[n + 1..])]);
    }
  }

  lemma DivideExponent(s: Bytes, n: nat) returns (e: Option<Exponent>)
    requires n <= |s| && ExponentEnd(s, n).Ok?
    ensures s[n..ExponentEnd(s, n).value] == ExponentText(e)
    ensures e.Some? ==> ValidExponent(e.value)
    ensures e.Some? ==> !Digit(At(s[ExponentEnd(s, n).value..], 0))
    ensures e.None? ==> ExponentEnd(s, n).value == n && At(s, n) != 0x65 && At(s, n) != 0x45
  {
    hide *;
    if !ExponentMark(At(s, n)) {
      e := None;
      NoExponentAt(s, n);
    } else {
      var k := ExponentDigitsAt(s, n);
      DigitsAt(s, k);
      var end := k + DigitRun(s[k..]);
      ExponentSlices(s, n, k, end);
      e := Some(Exponent(s[n], s[n + 1..k], s[k..end]));
      ExponentIsValid(e.value);
    }
  }

  lemma NoExponentAt(s: Bytes, n: nat)
    requires n <= |s| && !ExponentMark(At(s, n))
    ensures ExponentEnd(s, n) == Ok(n) && s[n..n] == ExponentText(None) && At(s, n) != 0x65 && At(s, n) != 0x45
  {
  }

  lemma ExponentIsValid(x: Exponent)
    requires (x.mark == 0x65 || x.mark == 0x45) && (x.sign == [] || x.sign == [0x2b] || x.sign == [0x2d])
    requires Digits(x.digits)
    ensures ValidExponent(x) && ExponentText(Some(x)) == [x.mark] + x.sign + x.digits
  {
  }

  /** Where the digits of an exponent begin. */
  lemma ExponentDigitsAt(s: Bytes, n: nat) returns (k: nat)
    requires n <= |s| && ExponentMark(At(s, n)) && ExponentEnd(s, n).Ok?
    ensures n < k <= n + 2 && k <= |s| && Digit(At(s, k)) && ExponentEnd(s, n) == Ok(k + DigitRun(s[k..]))
    ensures s[n] == 0x65 || s[n] == 0x45
    ensures k == n + 2 ==> s[n + 1] == 0x2b || s[n + 1] == 0x2d
  {
    hide DigitRun;
    k := if At(s, n + 1) == PLUS || At(s, n + 1) == MINUS then n + 2 else n + 1;
  }

  lemma ExponentSlices(s: Bytes, n: nat, k: nat, end: nat)
    requires n < k <= n + 2 && k <= end <= |s|
    ensures s[n..end] == [s[n]] + s[n + 1..k] + s[k..end]
    ensures k == n + 1 ==> s[n + 1..k] == []
    ensures k == n + 2 ==> s[n + 1..k] == [s[n + 1]]
  {
    JoinSlices(s, n, n + 1, k);
    JoinSlices(s, n, k, end);
    assert s[n..n + 1] == [s[n]];
  }

  /** Where integer part, fraction and exponent of a number that is read end. */
  lemma NumberEnds(s: Bytes) returns (i: nat, m: nat, k: nat)
    requires ReadNumber(s).Ok?
    ensures IntegerPart(s) == Ok(i) && i <= m <= k <= |s| && ReadNumber(s).value.1 == s[k..]
    ensures FractionEnd(s, i) == Ok(m) && ExponentEnd(s, m) == Ok(k)
  {
    hide IntegerPart, Atoi, DigitRun;
    i := IntegerPart(s).value;
    m := FractionEnd(s, i).value;
    k := ExponentEnd(s, m).value;
  }

  lemma NumberSlices(s: Bytes, i: nat, m: nat, k: nat)
    requires i <= m <= k <= |s|
    ensures s == s[..i] + s[i..m] + s[m..k] + s[k..]
    ensures At(s[k..], 0) == At(s, k) && At(s[m..], 0) == At(s, m) && At(s[i..], 0) == At(s, i)
  {
    JoinSlices(s, 0, i, m);
    JoinSlices(s, 0, m, k);
    JoinSlices(s, 0, k, |s|);
    assert s[..i] == s[0..i] && s[0..|s|] == s && s[k..|s|] == s[k..];
  }

  /** Every number that is read is a numeral of the grammar. */
  lemma DivideNumber(s: Bytes) returns (n: Numeral)
    requires ReadNumber(s).Ok?
    ensures ValidNumber(n) && s == NumberText(n) + ReadNumber(s).value.1 && Stops(n, ReadNumber(s).value.1)
  {
    hide ReadNumber, IntegerPart, FractionEnd, ExponentEnd, Digits, FractionText, ExponentText, At;
    var i, m, k := NumberEnds(s);
    var minus, digits := DivideInteger(s);
    var f := DivideFraction(s, i);
    var e := DivideExponent(s, m);
    n := Numeral(minus, digits, f, e);
    NumberSlices(s, i, m, k);
  }
}
