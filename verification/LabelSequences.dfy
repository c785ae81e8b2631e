/** Label sequences: a window of labels over wire bytes and an offset table
    (slave/dns/labelsequence.cpp), and the names they are taken from. */
module LabelSequences {
  import opened Wrappers
  import opened DnsLabels
  import opened DnsText
  import opened DnsOrder

  /** What a LabelSequence can see: data_, offsets_, first_label_, last_label_. */
  datatype LabelView = LabelView(data: Bytes, offsets: seq<Byte>, first: nat, last: nat)

  /** The table lists where the labels `all` start in the data, up to the last
      label of the window; only that one may be the root. */
  ghost predicate Represents(v: LabelView, all: Labels) {
    && v.first <= v.last < |v.offsets| && |all| == v.last + 1
    && Short(all) && NonRoot(all[..v.last])
    && WireLength(all) <= |v.data| && v.data[..WireLength(all)] == Encode(all)
    && (forall i | 0 <= i < |all| :: v.offsets[i] == Starts(all, 0)[i])
  }

  /** The labels in the window. */
  ghost function Window(v: LabelView, all: Labels): (ls: Labels)
    requires v.first <= v.last && |all| == v.last + 1
  {
    all[v.first..]
  }

  // ---------------------------------------------------------------- reading one label

  lemma SplitAt(all: Labels, i: nat)
    requires Short(all) && i <= |all|
    ensures Encode(all) == Encode(all[..i]) + Encode(all[i..])
    ensures WireLength(all) == WireLength(all[..i]) + WireLength(all[i..])
    ensures |Encode(all)| == WireLength(all) && |Encode(all[..i])| == WireLength(all[..i])
    ensures |Encode(all[i..])| == WireLength(all[i..])
    ensures Starts(all, 0) == Starts(all[..i], 0) + Starts(all[i..], WireLength(all[..i]))
  {
    assert all == all[..i] + all[i..];
    EncodeAppend(all[..i], all[i..]);
    WireLengthAppend(all[..i], all[i..]);
    StartsAppend(all[..i], all[i..], 0);
    EncodeLength(all);
    EncodeLength(all[..i]);
    EncodeLength(all[i..]);
  }

  lemma {:induction false} EncodeAt(all: Labels, i: nat)
    requires Short(all) && i < |all|
    ensures |Encode(all)| == WireLength(all) && Starts(all, 0)[i] == WireLength(all[..i])
    ensures WireLength(all[..i]) + 1 + |all[i]| + WireLength(all[i + 1..]) == WireLength(all)
    ensures Encode(all) == Encode(all[..i]) + ([|all[i]| as Byte] + all[i] + Encode(all[i + 1..]))
    ensures |Encode(all[..i])| == WireLength(all[..i])
  {
    SplitAt(all, i);
    EncodeFirst(all[i..], WireLength(all[..i]));
    assert all[i..][0] == all[i] && all[i..][1..] == all[i + 1..];
    hide Encode, Starts, WireLength;
  }

  lemma EncodeFirst(ls: Labels, base: nat)
    requires Short(ls) && ls != []
    ensures Encode(ls) == [|ls[0]| as Byte] + ls[0] + Encode(ls[1..])
    ensures WireLength(ls) == 1 + |ls[0]| + WireLength(ls[1..])
    ensures Starts(ls, base)[0] == base
  {
  }

  /** The length byte and the bytes of label i, as the offset table finds them. */
  lemma LabelBytes(v: LabelView, all: Labels, i: nat)
    requires Represents(v, all) && i < |all|
    ensures v.offsets[i] as int + 1 + |all[i]| <= WireLength(all)
    ensures v.data[v.offsets[i]] == |all[i]|
    ensures v.data[v.offsets[i] as int + 1..v.offsets[i] as int + 1 + |all[i]|] == all[i]
  {
    hide Encode, Starts, WireLength, NonRoot;
    EncodeAt(all, i);
    PieceOf(v.data, WireLength(all), Encode(all[..i]), |all[i]| as Byte, all[i], Encode(all[i + 1..]));
  }

  lemma PieceOf(data: Bytes, n: nat, x: Bytes, len: Byte, l: Bytes, z: Bytes)
    requires n <= |data| && data[..n] == x + ([len] + l + z)
    ensures |x| + 1 + |l| <= n && data[|x|] == len && data[|x| + 1..|x| + 1 + |l|] == l
  {
    assert data[|x|] == data[..n][|x|];
    forall k | 0 <= k < |l|
      ensures data[|x| + 1..|x| + 1 + |l|][k] == l[k]
    {
      assert data[|x| + 1 + k] == data[..n][|x| + 1 + k] == ([len] + l + z)[1 + k];
    }
  }

  /** getDataLength(), as it is computed from the table. */
  function DataLength(v: LabelView): (n: int)
    requires v.first <= v.last < |v.offsets| && v.offsets[v.last] < |v.data|
  {
    v.offsets[v.last] as int - v.offsets[v.first] as int + v.data[v.offsets[v.last]] as int + 1
  }

  /** getData() and getDataLength() give exactly the encoding of the window. */
  lemma {:induction false} WindowIsEncoding(v: LabelView, all: Labels)
    requires Represents(v, all)
    ensures v.first <= v.last < |v.offsets| && |all| == v.last + 1 && v.offsets[v.last] < |v.data|
    ensures v.offsets[v.first] as int + DataLength(v) == WireLength(all) <= |v.data|
    ensures Short(Window(v, all)) && DataLength(v) == WireLength(Window(v, all)) >= 0
    ensures v.data[v.offsets[v.first] as int..v.offsets[v.first] as int + DataLength(v)] == Encode(Window(v, all))
  {
    hide Encode, Starts, WireLength, NonRoot;
    LabelBytes(v, all, v.last);
    StartAt(all, v.last);
    StartAt(all, v.first);
    SplitAt(all, v.first);
    var o := v.offsets[v.first] as int;
    SliceOfPrefix(v.data, WireLength(all), o, Encode(all[..v.first]), Encode(Window(v, all)));
  }

  lemma StartAt(all: Labels, i: nat)
    requires Short(all) && i < |all|
    ensures Starts(all, 0)[i] == WireLength(all[..i])
    ensures i + 1 == |all| ==> Starts(all, 0)[i] + 1 + |all[i]| == WireLength(all)
  {
    EncodeAt(all, i);
    if i + 1 == |all| {
      assert all[i + 1..] == [];
    }
  }

  lemma SliceOfPrefix(data: Bytes, n: nat, o: nat, x: Bytes, y: Bytes)
    requires n <= |data| && data[..n] == x + y && o == |x|
    ensures data[o..n] == y
  {
    assert data[o..n] == data[..n][o..];
  }

  // ---------------------------------------------------------------- equality

  /** Comparing wire bytes byte by byte compares the labels: a length byte is
      never a capital letter, so folding leaves it alone. */
  lemma FlatEqualIff(x: Labels, y: Labels, cs: bool)
    requires Short(x) && Short(y)
    ensures FoldBytes(Encode(x), cs) == FoldBytes(Encode(y), cs) <==> FoldLabels(x, cs) == FoldLabels(y, cs)
  {
    if cs {
      if Encode(x) == Encode(y) {
        EncodeInjective(x, y);
      }
    } else {
      LowerEncode(x);
      LowerEncode(y);
      if LowerBytes(Encode(x)) == LowerBytes(Encode(y)) {
        EncodeInjective(LowerLabels(x), LowerLabels(y));
      }
    }
  }

  lemma FoldAt(s: Bytes, cs: bool)
    ensures |FoldBytes(s, cs)| == |s| && forall i | 0 <= i < |s| :: FoldBytes(s, cs)[i] == Fold(s[i], cs)
  {
  }

  method BytesEqual(data: Bytes, other: Bytes, cs: bool) returns (r: bool)
    ensures r <==> FoldBytes(data, cs) == FoldBytes(other, cs)
  {
    FoldAt(data, cs);
    FoldAt(other, cs);
    if |data| != |other| {
      return false;
    }
    var i := 0;
    while i < |data|
      invariant 0 <= i <= |data|
      invariant forall k | 0 <= k < i :: Fold(data[k], cs) == Fold(other[k], cs)
    {
      if Fold(data[i], cs) != Fold(other[i], cs) {
        return false;
      }
      i := i + 1;
    }
    assert FoldBytes(data, cs) == FoldBytes(other, cs);
    r := true;
  }

  function DataOf(v: LabelView): (s: Bytes)
    requires v.first <= v.last < |v.offsets| && v.offsets[v.last] < |v.data|
    requires 0 <= DataLength(v) && v.offsets[v.first] as int + DataLength(v) <= |v.data|
  {
    v.data[v.offsets[v.first] as int..v.offsets[v.first] as int + DataLength(v)]
  }

  /** LabelSequence::equals: the flat bytes, folded unless case sensitive. */
  method FlatEquals(a: LabelView, b: LabelView, cs: bool, ghost la: Labels, ghost lb: Labels) returns (r: bool)
    requires Represents(a, la) && Represents(b, lb)
    ensures r <==> FoldLabels(Window(a, la), cs) == FoldLabels(Window(b, lb), cs)
  {
    hide Represents, Encode, FoldBytes, FoldLabels, WireLength;
    WindowIsEncoding(a, la);
    WindowIsEncoding(b, lb);
    FlatEqualIff(Window(a, la), Window(b, lb), cs);
    r := BytesEqual(DataOf(a), DataOf(b), cs);
  }

  // ---------------------------------------------------------------- comparison

  /** Difference of two labels read byte by byte from their data. */
  method CompareLabel(x: Bytes, y: Bytes, cs: bool) returns (d: int)
    ensures d == LabelOrder(x, y, cs)
  {
    var n := if |x| < |y| then |x| else |y|;
    var k := 0;
    while k < n
      invariant 0 <= k <= n
      invariant LabelOrder(x, y, cs) == LabelOrder(x[k..], y[k..], cs)
    {
      var d := Fold(x[k], cs) as int - Fold(y[k], cs) as int;
      if d != 0 {
        return d;
      }
      assert x[k..][1..] == x[k + 1..] && y[k..][1..] == y[k + 1..];
      k := k + 1;
    }
    d := |x| - |y|;
  }

  function LabelIn(v: LabelView, i: nat): (l: Bytes)
    requires i < |v.offsets| && v.offsets[i] < |v.data|
    requires v.offsets[i] as int + 1 + v.data[v.offsets[i]] as int <= |v.data|
  {
    var o := v.offsets[i] as int;
    v.data[o + 1..o + 1 + v.data[o] as int]
  }

  lemma LabelInIs(v: LabelView, all: Labels, i: nat)
    requires Represents(v, all) && i < |all|
    ensures v.offsets[i] < |v.data| && v.offsets[i] as int + 1 + v.data[v.offsets[i]] as int <= |v.data|
    ensures LabelIn(v, i) == all[i]
  {
    LabelBytes(v, all, i);
  }

  /** One pair of labels of the comparison, or its end. */
  lemma CompareStep(x: Labels, y: Labels, l1: nat, l2: nat, cs: bool, n: nat)
    requires l1 <= |x| && l2 <= |y|
    ensures CompareFrom(x[..l1], y[..l2], cs, n)
            == if l1 == 0 || l2 == 0 then
                 Comparison(l1 - l2, n, if l1 < l2 then SuperDomain else if l1 > l2 then SubDomain else Equal)
               else
                 var d := LabelOrder(x[l1 - 1], y[l2 - 1], cs);
                 if d != 0 then Comparison(d, n, if n == 0 then Unrelated else CommonAncestor)
                 else CompareFrom(x[..l1 - 1], y[..l2 - 1], cs, n + 1)
  {
    hide LabelOrder;
    if l1 > 0 && l2 > 0 {
      assert Last(x[..l1]) == x[l1 - 1] && Last(y[..l2]) == y[l2 - 1];
      assert Init(x[..l1]) == x[..l1 - 1] && Init(y[..l2]) == y[..l2 - 1];
    }
  }

  lemma CompareWhole(x: Labels, y: Labels, cs: bool)
    ensures Compare(x, y, cs) == CompareFrom(x[..|x|], y[..|y|], cs, 0)
  {
    assert x[..|x|] == x && y[..|y|] == y;
  }

  lemma WindowSize(v: LabelView, all: Labels)
    requires Represents(v, all)
    ensures v.first <= v.last < |v.offsets| && |all| == v.last + 1
    ensures |Window(v, all)| == v.last - v.first + 1
  {
  }

  lemma WindowAt(v: LabelView, all: Labels, i: nat)
    requires Represents(v, all) && i < |Window(v, all)|
    ensures v.first + i < |v.offsets| && v.offsets[v.first + i] < |v.data|
    ensures v.offsets[v.first + i] as int + 1 + v.data[v.offsets[v.first + i]] as int <= |v.data|
    ensures LabelIn(v, v.first + i) == Window(v, all)[i]
  {
    LabelInIs(v, all, v.first + i);
  }

  /** LabelSequence::compare. */
  method CompareViews(a: LabelView, b: LabelView, cs: bool, ghost la: Labels, ghost lb: Labels) returns (r: Comparison)
    requires Represents(a, la) && Represents(b, lb)
    ensures r == Compare(Window(a, la), Window(b, lb), cs)
  {
    hide *;
    WindowSize(a, la);
    WindowSize(b, lb);
    ghost var x, y := Window(a, la), Window(b, lb);
    CompareWhole(x, y, cs);
    var nlabels := 0;
    var l1, l2 := a.last - a.first + 1, b.last - b.first + 1;
    var ldiff := l1 - l2;
    var l := if ldiff < 0 then l1 else l2;
    while l > 0
      invariant 0 <= l <= l1 <= |x| && l <= l2 <= |y| && l1 - l2 == ldiff
      invariant l == l1 || l == l2
      invariant Compare(x, y, cs) == CompareFrom(x[..l1], y[..l2], cs, nlabels)
      decreases l
    {
      CompareStep(x, y, l1, l2, cs, nlabels);
      l, l1, l2 := l - 1, l1 - 1, l2 - 1;
      WindowAt(a, la, l1);
      WindowAt(b, lb, l2);
      var d := CompareLabel(LabelIn(a, a.first + l1), LabelIn(b, b.first + l2), cs);
      if d != 0 {
        return Comparison(d, nlabels, if nlabels == 0 then Unrelated else CommonAncestor);
      }
      nlabels := nlabels + 1;
    }
    CompareStep(x, y, l1, l2, cs, nlabels);
    r := Comparison(ldiff, nlabels, if ldiff < 0 then SuperDomain else if ldiff > 0 then SubDomain else Equal);
  }

  /** compare() is zero exactly when the flat byte-wise equality holds. */
  lemma OrderZeroIffFlatEqual(a: LabelView, b: LabelView, la: Labels, lb: Labels, cs: bool)
    requires Represents(a, la) && Represents(b, lb)
    ensures var x, y := Window(a, la), Window(b, lb);
            && Short(x) && Short(y)
            && (Compare(x, y, cs).order == 0 <==> FoldBytes(Encode(x), cs) == FoldBytes(Encode(y), cs))
  {
    WindowIsEncoding(a, la);
    WindowIsEncoding(b, lb);
    CompareZero(Window(a, la), Window(b, lb), cs, 0);
    FlatEqualIff(Window(a, la), Window(b, lb), cs);
  }

  // ---------------------------------------------------------------- names

  function NameView(n: Name): (v: LabelView)
    requires n.labelcount > 0
  {
    LabelView(n.ndata, n.offsets, 0, n.labelcount - 1)
  }

  lemma NameRepresents(ls: Labels)
    requires WellFormedName(ls)
    ensures Short(ls) && Represents(NameView(NameOf(ls)), ls) && Window(NameView(NameOf(ls)), ls) == ls
  {
    WellFormedIsShort(ls);
    EncodeLength(ls);
    hide Encode, Starts, WireLength;
    assert Encode(ls)[..WireLength(ls)] == Encode(ls);
  }

  lemma {:induction false} LowerLabelsEqualIff(a: Labels, b: Labels)
    ensures LowerLabels(a) == LowerLabels(b)
            <==> |a| == |b| && forall j | 0 <= j < |a| :: LowerBytes(a[j]) == LowerBytes(b[j])
    ensures LowerLabels(a) == LowerLabels(b) ==> WireLength(a) == WireLength(b)
  {
    LowerKeepsShape(a);
    LowerKeepsShape(b);
    hide LowerBytes, WireLength;
    if LowerLabels(a) == LowerLabels(b) {
      forall j | 0 <= j < |a|
        ensures LowerBytes(a[j]) == LowerBytes(b[j])
      {
        assert LowerLabels(a)[j] == LowerLabels(b)[j];
      }
    }
  }

  /** Label k of a name as Name::equals reaches it, after the first k labels. */
  lemma {:induction false} NameLabel(ls: Labels, k: nat)
    requires WellFormedName(ls) && Short(ls) && k < |ls|
    ensures var pos := WireLength(ls[..k]);
            && pos + 1 + |ls[k]| <= |Encode(ls)|
            && Encode(ls)[pos] == |ls[k]| && Encode(ls)[pos + 1..pos + 1 + |ls[k]|] == ls[k]
            && WireLength(ls[..k + 1]) == pos + 1 + |ls[k]|
  {
    hide Encode, Starts, WireLength;
    NameRepresents(ls);
    LabelBytes(NameView(NameOf(ls)), ls, k);
    StartAt(ls, k);
    EncodeAt(ls, k);
    assert ls[..k + 1] == ls[..k] + [ls[k]];
    EncodeSnoc(ls[..k], ls[k]);
  }

  /** Name::equals: label by label, ignoring case. */
  method NameEquals(a: Name, b: Name, ghost la: Labels, ghost lb: Labels) returns (r: bool)
    requires WellFormedName(la) && Short(la) && a == NameOf(la)
    requires WellFormedName(lb) && Short(lb) && b == NameOf(lb)
    ensures r <==> LowerLabels(la) == LowerLabels(lb)
  {
    hide *;
    NameFields(la);
    NameFields(lb);
    LowerLabelsEqualIff(la, lb);
    if a.length != b.length || a.labelcount != b.labelcount {
      return false;
    }
    var pos := 0;
    var l := a.labelcount;
    while l > 0
      invariant 0 <= l <= a.labelcount
      invariant pos == WireLength(la[..a.labelcount - l]) == WireLength(lb[..a.labelcount - l])
      invariant forall j | 0 <= j < a.labelcount - l :: LowerBytes(la[j]) == LowerBytes(lb[j])
    {
      ghost var k := a.labelcount - l;
      NameLabel(la, k);
      NameLabel(lb, k);
      var count := a.ndata[pos] as int;
      if count != b.ndata[pos] as int {
        assert |LowerBytes(la[k])| != |LowerBytes(lb[k])|;
        return false;
      }
      pos := pos + 1;
      var same := BytesEqual(a.ndata[pos..pos + count], b.ndata[pos..pos + count], false);
      FoldIsLower(la[k]);
      FoldIsLower(lb[k]);
      if !same {
        return false;
      }
      pos := pos + count;
      l := l - 1;
    }
    r := true;
  }

  lemma NameFields(ls: Labels)
    requires WellFormedName(ls) && Short(ls)
    ensures NameOf(ls).ndata == Encode(ls) && NameOf(ls).length == WireLength(ls) && NameOf(ls).labelcount == |ls|
    ensures WireLength(ls[..0]) == 0
  {
  }

  lemma FoldIsLower(s: Bytes)
    ensures FoldBytes(s, false) == LowerBytes(s)
  {
  }

  // ---------------------------------------------------------------- toText

  lemma {:induction false} JoinedSnoc(ls: Labels, l: Bytes)
    ensures Joined(ls + [l]) == if ls == [] then EscapedLabel(l) else Joined(ls) + [DOT] + EscapedLabel(l)
  {
    hide EscapedLabel;
    if ls == [] {
      assert ls + [l] == [l];
    } else {
      assert (ls + [l])[1..] == ls[1..] + [l];
      JoinedSnoc(ls[1..], l);
      if |ls| > 1 {
        var front, rest := EscapedLabel(ls[0]) + [DOT], Joined(ls[1..]);
        Regroup(EscapedLabel(ls[0]), [DOT], rest + [DOT]);
        Regroup(front, rest, [DOT]);
        Regroup(front + rest, [DOT], EscapedLabel(l));
        Regroup(front, rest, [DOT] + EscapedLabel(l));
      }
    }
  }

  lemma {:induction false} EscapedSnoc(l: Bytes, c: Byte)
    ensures EscapedLabel(l + [c]) == EscapedLabel(l) + EscapedByte(c)
  {
    hide EscapedByte, EscapedLabel;
    EscapedCons(l + [c]);
    EscapedNil();
    if l == [] {
      assert l + [c] == [c] && [c][1..] == [];
    } else {
      EscapedCons(l);
      assert (l + [c])[1..] == l[1..] + [c];
      EscapedSnoc(l[1..], c);
    }
  }

  lemma EscapedNil()
    ensures EscapedLabel([]) == []
  {
  }

  /** On two names, compare() is zero exactly when the flat byte-wise equality holds,
      and exactly when the label-by-label equality does. */
  lemma OrderZeroIffNamesEqual(la: Labels, lb: Labels)
    requires WellFormedName(la) && WellFormedName(lb)
    ensures Short(la) && Short(lb)
    ensures Compare(la, lb, false).order == 0 <==> FoldBytes(Encode(la), false) == FoldBytes(Encode(lb), false)
    ensures Compare(la, lb, false).order == 0 <==> LowerLabels(la) == LowerLabels(lb)
  {
    hide Encode, LowerBytes, LowerLabels, WireLength;
    NameRepresents(la);
    NameRepresents(lb);
    OrderZeroIffFlatEqual(NameView(NameOf(la)), NameView(NameOf(lb)), la, lb, false);
    CompareZero(la, lb, false, 0);
  }

  /** The inner loop of toText: one label's bytes, escaped. */
  method EscapeLabel(l: Bytes) returns (t: Bytes)
    ensures t == EscapedLabel(l)
  {
    hide EscapedLabel;
    EscapedNil();
    t := [];
    var i := 0;
    while i < |l|
      invariant 0 <= i <= |l|
      invariant t == EscapedLabel(l[..i])
    {
      var c := l[i];
      assert l[..i + 1] == l[..i] + [c];
      EscapedSnoc(l[..i], c);
      if c == 0x22 || c == 0x28 || c == 0x29 || c == 0x2E || c == 0x3B || c == 0x5C || c == 0x40 || c == 0x24 {
        t := t + [0x5C, c];
      } else if c > 0x20 && c < 0x7f {
        t := t + [c];
      } else {
        t := t + [0x5C, 0x30 + (c / 100) % 10, 0x30 + (c / 10) % 10, 0x30 + c % 10];
      }
      i := i + 1;
    }
    assert l[..i] == l;
  }

  /** The text of a window: of an absolute one the name's, else the labels'. */
  ghost function WindowText(w: Labels, omitFinalDot: bool): (t: Bytes)
    requires w != []
  {
    if Last(w) == [] then NameText(w, omitFinalDot) else Joined(w)
  }

  lemma TextStart(w: Labels)
    requires w != []
    ensures WireLength(w[..0]) == 0 && Joined(w[..0]) == [] && WireLength(w) > 0
  {
  }

  /** Label k of the window, where toText finds it. */
  lemma WindowLabel(v: LabelView, all: Labels, k: nat)
    requires Represents(v, all) && k < |Window(v, all)|
    ensures v.first < |v.offsets| && v.offsets[v.last] < |v.data|
    ensures var w := Window(v, all);
            var np := v.offsets[v.first] as int + WireLength(w[..k]);
            && np + 1 + |w[k]| <= |v.data| && v.data[np] == |w[k]| && v.data[np + 1..np + 1 + |w[k]|] == w[k]
            && WireLength(w[..k + 1]) == WireLength(w[..k]) + 1 + |w[k]|
            && (k + 1 < |w| ==> w[k] != [] && WireLength(w[..k + 1]) < DataLength(v))
            && (k + 1 == |w| ==> WireLength(w[..k + 1]) == DataLength(v))
  {
    hide Represents, WireLength, DataLength, Encode;
    WindowSize(v, all);
    WindowStart(v, all, k);
    WindowLengths(v, all, k);
    LabelBytes(v, all, v.first + k);
    WindowIsEncoding(v, all);
  }

  lemma WindowStart(v: LabelView, all: Labels, k: nat)
    requires Represents(v, all) && k < |Window(v, all)|
    ensures v.offsets[v.first + k] as int == v.offsets[v.first] as int + WireLength(Window(v, all)[..k])
    ensures v.first + k < v.last ==> Window(v, all)[k] != []
  {
    hide Encode, Starts, WireLength;
    var w := Window(v, all);
    StartAt(all, v.first + k);
    StartAt(all, v.first);
    assert all[..v.first + k] == all[..v.first] + w[..k];
    WireLengthAppend(all[..v.first], w[..k]);
    if v.first + k < v.last {
      assert all[..v.last][v.first + k] == w[k];
    }
  }

  lemma WindowLengths(v: LabelView, all: Labels, k: nat)
    requires Represents(v, all) && k < |Window(v, all)|
    ensures v.offsets[v.last] < |v.data|
    ensures var w := Window(v, all);
            && WireLength(w[..k + 1]) == WireLength(w[..k]) + 1 + |w[k]|
            && (k + 1 < |w| ==> WireLength(w[..k + 1]) < DataLength(v))
            && (k + 1 == |w| ==> WireLength(w[..k + 1]) == DataLength(v))
  {
    var w := Window(v, all);
    WindowIsEncoding(v, all);
    hide Represents, DataLength, Encode, Starts;
    assert w[..k + 1] == w[..k] + [w[k]];
    EncodeSnoc(w[..k], w[k]);
    assert w == w[..k + 1] + w[k + 1..];
    WireLengthAppend(w[..k + 1], w[k + 1..]);
  }

  lemma RootText(w: Labels, omitFinalDot: bool, k: nat)
    requires k + 1 == |w| && w[k] == []
    ensures WindowText(w, omitFinalDot)
            == (if k == 0 then [DOT] else if omitFinalDot then Joined(w[..k]) else Joined(w[..k]) + [DOT])
  {
    hide Joined;
  }

  lemma JoinedNext(w: Labels, k: nat)
    requires k < |w| && w[k] != []
    ensures Joined(w[..k + 1]) == (if k == 0 then [] else Joined(w[..k]) + [DOT]) + EscapedLabel(w[k])
    ensures Joined(w[..k + 1]) != []
  {
    hide Joined, EscapedLabel;
    assert w[..k + 1] == w[..k] + [w[k]];
    JoinedSnoc(w[..k], w[k]);
  }

  lemma WholeText(w: Labels, omitFinalDot: bool)
    requires w != [] && w[|w| - 1] != []
    ensures WindowText(w, omitFinalDot) == Joined(w[..|w|])
  {
    assert w[..|w|] == w;
  }

  /** LabelSequence::toText. */
  method ToText(v: LabelView, omitFinalDot: bool, ghost all: Labels) returns (result: Bytes)
    requires Represents(v, all)
    ensures Window(v, all) != [] && result == WindowText(Window(v, all), omitFinalDot)
  {
    hide *;
    WindowSize(v, all);
    ghost var w := Window(v, all);
    WindowIsEncoding(v, all);
    TextStart(w);
    result := [];
    var np := v.offsets[v.first] as int;
    var npEnd := np + DataLength(v);
    ghost var start := np;
    ghost var k := 0;
    while np != npEnd
      invariant 0 <= k <= |w| && np == start + WireLength(w[..k]) && (k < |w| <==> np != npEnd)
      invariant result == Joined(w[..k]) && (result == [] <==> k == 0) && (k > 0 ==> w[k - 1] != [])
      decreases |w| - k
    {
      WindowLabel(v, all, k);
      var count := v.data[np] as int;
      np := np + 1;
      if count == 0 {
        if !omitFinalDot || result == [] {
          result := result + [DOT];
        }
        RootText(w, omitFinalDot, k);
        return;
      }
      if result != [] {
        result := result + [DOT];
      }
      var t := EscapeLabel(v.data[np..np + count]);
      JoinedNext(w, k);
      result := result + t;
      np := np + count;
      k := k + 1;
    }
    WholeText(w, omitFinalDot);
  }
}
