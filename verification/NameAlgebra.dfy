/** Building names from names on their bytes and offset tables: concatenate,
    split, reverse and downcase (slave/dns/name.cpp). Offsets are bytes and are
    added and subtracted modulo 256, as std::plus<char> does. */
module NameAlgebra {
  import opened Wrappers
  import opened DnsLabels
  import opened DnsText
  import opened DnsOrder
  import opened LabelSequences

  datatype AlgebraError = TooLong | OutOfRange

  function AddMod256(o: Byte, d: int): (r: Byte) {
    (o as int + d) % 256
  }

  function ShiftOffsets(offsets: seq<Byte>, d: int): (r: seq<Byte>)
    ensures |r| == |offsets| && forall i | 0 <= i < |r| :: r[i] == AddMod256(offsets[i], d)
  {
    seq(|offsets|, i requires 0 <= i < |offsets| => AddMod256(offsets[i], d))
  }

  // ---------------------------------------------------------------- a name's fields, label by label

  ghost predicate IsName(n: Name, ls: Labels) {
    WellFormedName(ls) && Short(ls) && n == NameOf(ls)
  }

  /** A name is its bytes and offsets: both determined by the labels. */
  lemma {:induction false} NameIsItsParts(n: Name, ls: Labels)
    requires WellFormedName(ls) && Short(ls)
    requires n.ndata == Encode(ls) && n.length == |n.ndata| && n.labelcount == |n.offsets| == |ls|
    requires forall i | 0 <= i < |ls| :: n.offsets[i] == WireLength(ls[..i])
    ensures IsName(n, ls)
  {
    EncodeLength(ls);
    hide Encode, Starts, WireLength;
    forall i | 0 <= i < |ls|
      ensures n.offsets[i] == Starts(ls, 0)[i]
    {
      StartAt(ls, i);
    }
  }

  lemma {:induction false} NameParts(n: Name, ls: Labels)
    requires IsName(n, ls)
    ensures WellFormedName(ls) && Short(ls) && n.ndata == Encode(ls) && |n.ndata| == n.length == WireLength(ls) <= MAX_WIRE
    ensures n.labelcount == |n.offsets| == |ls| > 0 && |ls| <= MAX_LABELS
    ensures forall i | 0 <= i < |ls| :: n.offsets[i] == WireLength(ls[..i])
  {
    EncodeLength(ls);
    WellFormedLabelCount(ls);
    hide Encode, Starts, WireLength;
    forall i | 0 <= i < |ls|
      ensures n.offsets[i] == WireLength(ls[..i])
    {
      StartAt(ls, i);
    }
  }

  lemma WellFormedPieces(ls: Labels)
    requires WellFormedName(ls)
    ensures ls == Init(ls) + [[]] && NonRoot(Init(ls)) && Short(Init(ls))
    ensures WireLength(ls) == WireLength(Init(ls)) + 1
    ensures Short(ls) && Encode(ls) == Encode(Init(ls)) + [0] && |Encode(Init(ls))| == WireLength(Init(ls))
  {
    SplitRoot(ls);
    WellFormedIsShort(ls);
    EncodeSnoc(Init(ls), []);
    assert Encode(Init(ls)) + [0] + [] == Encode(Init(ls)) + [0];
  }

  lemma {:induction false} WellFormedFrom(init: Labels)
    requires NonRoot(init) && WireLength(init) + 1 <= MAX_WIRE
    ensures WellFormedName(init + [[]]) && Short(init + [[]]) && WireLength(init + [[]]) == WireLength(init) + 1
  {
    assert (init + [[]])[..|init|] == init;
    EncodeSnoc(init, []);
  }

  // ---------------------------------------------------------------- concatenate

  function Concatenate(a: Name, b: Name): (r: Result<Name, AlgebraError>)
    requires 0 < a.length <= |a.ndata| && 0 < a.labelcount <= |a.offsets|
  {
    var length := a.length + b.length - 1;
    if length > MAX_WIRE then Err(TooLong)
    else
      var ndata := a.ndata[..a.length - 1] + b.ndata;
      var offsets := a.offsets[..a.labelcount - 1] + ShiftOffsets(b.offsets, a.length - 1);
      Ok(Name(ndata, offsets, length, |offsets|))
  }

  lemma ConcatenatedLabels(la: Labels, lb: Labels)
    requires WellFormedName(la) && WellFormedName(lb) && WireLength(la) + WireLength(lb) - 1 <= MAX_WIRE
    ensures WellFormedName(Init(la) + lb) && Short(Init(la) + lb)
    ensures WireLength(Init(la) + lb) == WireLength(la) + WireLength(lb) - 1
    ensures Encode(Init(la) + lb) == Encode(Init(la)) + Encode(lb)
  {
    hide Encode, WireLength, Short, NonRoot, WellFormedName;
    WellFormedPieces(la);
    WellFormedPieces(lb);
    WellFormedNonEmpty(lb);
    EncodeAppend(Init(la), lb);
    WireLengthAppend(Init(la), lb);
    NonRootAppend(Init(la), Init(lb));
    Regroup(Init(la), Init(lb), [[]]);
    WireLengthAppend(Init(la), Init(lb));
    WellFormedFrom(Init(la) + Init(lb));
  }

  lemma WellFormedNonEmpty(ls: Labels)
    requires WellFormedName(ls)
    ensures |ls| > 0
  {
  }

  lemma NonRootAppend(a: Labels, b: Labels)
    requires NonRoot(a) && NonRoot(b)
    ensures NonRoot(a + b)
  {
    hide Encode, WireLength, Short;
  }

  lemma {:induction false} WireLengthPrefix(ls: Labels, i: nat)
    requires i <= |ls|
    ensures WireLength(ls[..i]) + WireLength(ls[i..]) == WireLength(ls)
  {
    assert ls == ls[..i] + ls[i..];
    WireLengthAppend(ls[..i], ls[i..]);
  }

  lemma {:induction false} ConcatenatedStart(la: Labels, lb: Labels, i: nat)
    requires WellFormedName(la) && i <= |la| - 1 + |lb|
    ensures WireLength((Init(la) + lb)[..i])
            == if i < |la| - 1 then WireLength(la[..i]) else WireLength(la) - 1 + WireLength(lb[..i - (|la| - 1)])
  {
    hide Encode, WireLength, WellFormedName;
    WellFormedPieces(la);
    if i < |la| - 1 {
      assert (Init(la) + lb)[..i] == la[..i];
    } else {
      var j := i - (|la| - 1);
      assert (Init(la) + lb)[..i] == Init(la) + lb[..j];
      WireLengthAppend(Init(la), lb[..j]);
    }
  }

  lemma {:induction false} ConcatenatedOffset(a: Name, b: Name, la: Labels, lb: Labels, i: nat)
    requires IsName(a, la) && IsName(b, lb) && WireLength(la) + WireLength(lb) - 1 <= MAX_WIRE
    requires i < |la| - 1 + |lb|
    ensures var offsets := a.offsets[..a.labelcount - 1] + ShiftOffsets(b.offsets, a.length - 1);
            offsets[i] == WireLength((Init(la) + lb)[..i])
  {
    hide Encode, WireLength, IsName, Short, WellFormedName;
    NameParts(a, la);
    NameParts(b, lb);
    ConcatenatedStart(la, lb, i);
    var k := |la| - 1;
    if i >= k {
      WireLengthPrefix(lb, i - k);
      assert b.offsets[i - k] == WireLength(lb[..i - k]);
    }
  }

  /** Concatenation appends the label lists, dropping the first name's root,
      exactly when the 255-byte check passes; no label or offset limit is then
      exceeded. */
  lemma ConcatenateAppends(a: Name, b: Name, la: Labels, lb: Labels)
    requires IsName(a, la) && IsName(b, lb)
    ensures 0 < a.length <= |a.ndata| && 0 < a.labelcount <= |a.offsets|
    ensures Concatenate(a, b).Ok? <==> WireLength(la) + WireLength(lb) - 1 <= MAX_WIRE
    ensures Concatenate(a, b).Ok? ==> IsName(Concatenate(a, b).value, Init(la) + lb) && |Init(la) + lb| <= MAX_LABELS
  {
    hide Encode, WireLength, IsName, Short, WellFormedName;
    NameParts(a, la);
    NameParts(b, lb);
    WellFormedPieces(la);
    if WireLength(la) + WireLength(lb) - 1 <= MAX_WIRE {
      var r := Concatenate(a, b).value;
      var c := Init(la) + lb;
      ConcatenatedLabels(la, lb);
      WellFormedLabelCount(c);
      assert a.ndata[..a.length - 1] == Encode(Init(la));
      EncodeLength(c);
      forall i | 0 <= i < |c|
        ensures r.offsets[i] == WireLength(c[..i])
      {
        ConcatenatedOffset(a, b, la, lb, i);
      }
      NameIsItsParts(r, c);
    }
  }

  // ---------------------------------------------------------------- split

  /** split(first, n): the n labels from first on, with a root if needed. */
  function Split(a: Name, first: nat, n: nat): (r: Result<Name, AlgebraError>)
    requires a.labelcount == |a.offsets| && a.length == |a.ndata|
    requires forall i | 0 <= i < |a.offsets| :: a.offsets[i] < |a.ndata|
    requires forall i, j | 0 <= i <= j < |a.offsets| :: a.offsets[i] <= a.offsets[j]
  {
    if n == 0 || n > a.labelcount || first > a.labelcount - n then Err(OutOfRange)
    else
      var newlabels := if first + n == a.labelcount then n else n + 1;
      var offsets := ShiftOffsets(a.offsets[first..first + newlabels], -(a.offsets[first] as int));
      var from := a.offsets[first] as int;
      var ndata := a.ndata[from..from + offsets[newlabels - 1] as int] + [0];
      Ok(Name(ndata, offsets, |ndata|, newlabels))
  }

  lemma NameOffsetsAscend(n: Name, ls: Labels)
    requires IsName(n, ls)
    ensures n.labelcount == |n.offsets| && n.length == |n.ndata|
    ensures forall i | 0 <= i < |n.offsets| :: n.offsets[i] < |n.ndata|
    ensures forall i, j | 0 <= i <= j < |n.offsets| :: n.offsets[i] <= n.offsets[j]
  {
    hide Encode, WireLength, IsName, Short, WellFormedName;
    NameParts(n, ls);
    forall i | 0 <= i < |ls|
      ensures n.offsets[i] < |n.ndata|
    {
      WireLengthPrefix(ls, i);
      WireLengthPositive(ls[i..]);
    }
    forall i, j | 0 <= i <= j < |ls|
      ensures n.offsets[i] <= n.offsets[j]
    {
      assert ls[..j][..i] == ls[..i];
      WireLengthPrefix(ls[..j], i);
    }
  }

  lemma WireLengthPositive(ls: Labels)
    requires ls != []
    ensures WireLength(ls) > 0
  {
  }

  /** The labels split() returns. */
  ghost function SplitLabels(ls: Labels, first: nat, n: nat): (r: Labels)
    requires first + n <= |ls|
  {
    if first + n == |ls| then ls[first..] else ls[first..first + n] + [[]]
  }

  lemma SplitWellFormed(ls: Labels, first: nat, n: nat)
    requires WellFormedName(ls) && 0 < n && first + n <= |ls|
    ensures var r := SplitLabels(ls, first, n);
            && WellFormedName(r) && Short(r) && r != []
            && NonRoot(Init(r)) && Init(r) == ls[first..first + |Init(r)|]
            && |r| == (if first + n == |ls| then n else n + 1)
            && first + |Init(r)| < |ls|
  {
    var r := SplitLabels(ls, first, n);
    var k := |r| - 1;
    assert r == ls[first..first + k] + [[]];
    hide *;
    SliceOfName(ls, first, k);
    WellFormedFrom(ls[first..first + k]);
    InitSnoc(ls[first..first + k]);
  }

  lemma InitSnoc(init: Labels)
    ensures Init(init + [[]]) == init
  {
  }

  lemma SliceOfName(ls: Labels, first: nat, k: nat)
    requires WellFormedName(ls) && first + k < |ls|
    ensures NonRoot(ls[first..first + k]) && WireLength(ls[first..first + k]) + 1 <= MAX_WIRE
  {
    hide WireLength;
    var t, init := ls[first..first + k], ls[..|ls| - 1];
    forall i | 0 <= i < |t|
      ensures 1 <= |t[i]| <= MAX_LABELLEN
    {
      assert t[i] == init[first + i];
    }
    WireLengthPrefix(ls, first + k);
    WireLengthPrefix(ls[..first + k], first);
    assert ls[..first + k][first..] == ls[first..first + k];
    WireLengthPositive(ls[first + k..]);
  }

  lemma SplitOffset(a: Name, ls: Labels, first: nat, k: nat)
    requires IsName(a, ls) && first + k < |ls|
    ensures a.offsets[first + k] >= a.offsets[first]
    ensures AddMod256(a.offsets[first + k], -(a.offsets[first] as int)) as int
            == a.offsets[first + k] as int - a.offsets[first] as int == WireLength(ls[first..first + k])
  {
    hide Encode, WireLength, IsName, Short, WellFormedName;
    NameParts(a, ls);
    WireLengthPrefix(ls[..first + k], first);
    assert ls[..first + k][..first] == ls[..first] && ls[..first + k][first..] == ls[first..first + k];
  }

  /** split() is exactly slicing the label list, closed with a root; it is
      refused exactly when no label is asked for or the range is not there. */
  lemma SplitSlices(a: Name, ls: Labels, first: nat, n: nat)
    requires IsName(a, ls)
    ensures a.labelcount == |a.offsets| && a.length == |a.ndata|
    ensures forall i | 0 <= i < |a.offsets| :: a.offsets[i] < |a.ndata|
    ensures forall i, j | 0 <= i <= j < |a.offsets| :: a.offsets[i] <= a.offsets[j]
    ensures Split(a, first, n).Ok? <==> 0 < n && first + n <= |ls|
    ensures 0 < n && first + n <= |ls| ==> IsName(Split(a, first, n).value, SplitLabels(ls, first, n))
  {
    hide Encode, WireLength, IsName, Short, WellFormedName, SplitLabels;
    NameOffsetsAscend(a, ls);
    NameParts(a, ls);
    if 0 < n && first + n <= |ls| {
      var r, s := SplitLabels(ls, first, n), Split(a, first, n).value;
      SplitWellFormed(ls, first, n);
      WellFormedPieces(r);
      var k := |r| - 1;
      SplitOffset(a, ls, first, k);
      SplitBytes(a, ls, first, k);
      SplitOffsets(a, ls, first, n);
      NameIsItsParts(s, r);
    }
  }

  lemma SplitOffsets(a: Name, ls: Labels, first: nat, n: nat)
    requires IsName(a, ls) && 0 < n && first + n <= |ls|
    requires a.labelcount == |a.offsets| && a.length == |a.ndata|
    requires forall i | 0 <= i < |a.offsets| :: a.offsets[i] < |a.ndata|
    requires forall i, j | 0 <= i <= j < |a.offsets| :: a.offsets[i] <= a.offsets[j]
    requires Split(a, first, n).Ok?
    ensures var r, s := SplitLabels(ls, first, n), Split(a, first, n).value;
            |s.offsets| == |r| && forall i | 0 <= i < |r| :: s.offsets[i] == WireLength(r[..i])
  {
    hide *;
    var r, s := SplitLabels(ls, first, n), Split(a, first, n).value;
    NameCounts(a, ls);
    SplitTable(a, first, n);
    SplitCount(ls, first, n);
    forall i | 0 <= i < |r|
      ensures s.offsets[i] == WireLength(r[..i])
    {
      SplitOffset(a, ls, first, i);
      SplitPrefix(ls, first, n, i);
    }
  }

  lemma SplitTable(a: Name, first: nat, n: nat)
    requires a.labelcount == |a.offsets| && a.length == |a.ndata|
    requires forall i | 0 <= i < |a.offsets| :: a.offsets[i] < |a.ndata|
    requires forall i, j | 0 <= i <= j < |a.offsets| :: a.offsets[i] <= a.offsets[j]
    requires Split(a, first, n).Ok?
    ensures var s := Split(a, first, n).value.offsets;
            && |s| == (if first + n == |a.offsets| then n else n + 1)
            && forall i | 0 <= i < |s| ::
                 first + i < |a.offsets| && s[i] == AddMod256(a.offsets[first + i], -(a.offsets[first] as int))
  {
  }

  lemma SplitCount(ls: Labels, first: nat, n: nat)
    requires first + n <= |ls|
    ensures |SplitLabels(ls, first, n)| == if first + n == |ls| then n else n + 1
  {
  }

  lemma NameCounts(a: Name, ls: Labels)
    requires IsName(a, ls)
    ensures |a.offsets| == |ls|
  {
    hide Encode, WireLength, IsName, Short, WellFormedName;
    NameParts(a, ls);
  }

  lemma SplitPrefix(ls: Labels, first: nat, n: nat, i: nat)
    requires first + n <= |ls| && i < |SplitLabels(ls, first, n)|
    ensures first + i <= |ls| && SplitLabels(ls, first, n)[..i] == ls[first..first + i]
  {
  }

  lemma SplitBytes(a: Name, ls: Labels, first: nat, k: nat)
    requires IsName(a, ls) && first + k < |ls|
    ensures Short(ls[first..first + k])
    ensures a.offsets[first] <= a.offsets[first + k] && a.offsets[first + k] as int <= |a.ndata|
    ensures a.ndata[a.offsets[first] as int..a.offsets[first + k] as int] == Encode(ls[first..first + k])
  {
    NameParts(a, ls);
    SplitOffset(a, ls, first, k);
    SplitAt(ls, first + k);
    SplitAt(ls[..first + k], first);
    assert ls[..first + k][..first] == ls[..first] && ls[..first + k][first..] == ls[first..first + k];
    hide Encode, WireLength, IsName, NameOf;
    Middle(a.ndata, Encode(ls[..first]), Encode(ls[first..first + k]), Encode(ls[first + k..]));
  }

  lemma Middle(s: Bytes, x: Bytes, y: Bytes, z: Bytes)
    requires s == x + y + z
    ensures s[|x|..|x| + |y|] == y
  {
  }

  /** Splitting a name in two and concatenating the parts gives it back. */
  lemma SplitThenConcatenate(a: Name, ls: Labels, k: nat)
    requires IsName(a, ls) && 0 < k < |ls|
    ensures a.labelcount == |a.offsets| && a.length == |a.ndata|
    ensures forall i | 0 <= i < |a.offsets| :: a.offsets[i] < |a.ndata|
    ensures forall i, j | 0 <= i <= j < |a.offsets| :: a.offsets[i] <= a.offsets[j]
    ensures var left, right := Split(a, 0, k), Split(a, k, |ls| - k);
            && left.Ok? && right.Ok?
            && 0 < left.value.length <= |left.value.ndata| && 0 < left.value.labelcount <= |left.value.offsets|
            && Concatenate(left.value, right.value) == Ok(a)
  {
    hide Encode, WireLength, IsName, Short, WellFormedName, Split, Concatenate, SplitLabels;
    NameParts(a, ls);
    SplitSlices(a, ls, 0, k);
    SplitSlices(a, ls, k, |ls| - k);
    var left, right := Split(a, 0, k).value, Split(a, k, |ls| - k).value;
    var ll, lr := SplitLabels(ls, 0, k), SplitLabels(ls, k, |ls| - k);
    SplitTwo(ls, k);
    ConcatenateAppends(left, right, ll, lr);
    SameName(a, Concatenate(left, right).value, ls);
  }

  lemma SplitTwo(ls: Labels, k: nat)
    requires WellFormedName(ls) && 0 < k < |ls|
    ensures var ll, lr := SplitLabels(ls, 0, k), SplitLabels(ls, k, |ls| - k);
            ll != [] && Init(ll) + lr == ls && WireLength(ll) + WireLength(lr) - 1 == WireLength(ls)
  {
    var ll, lr := SplitLabels(ls, 0, k), SplitLabels(ls, k, |ls| - k);
    assert Init(ll) == ls[..k] && lr == ls[k..];
    SplitRoot(ll);
    WireLengthPrefix(ls, k);
  }

  lemma SameName(a: Name, b: Name, ls: Labels)
    requires IsName(a, ls) && IsName(b, ls)
    ensures a == b
  {
  }

  // ---------------------------------------------------------------- reverse

  ghost function Reversed(ls: Labels): (r: Labels)
    ensures |r| == |ls|
  {
    if ls == [] then [] else Reversed(ls[1..]) + [ls[0]]
  }

  /** The labels in the opposite order, the root staying last. */
  ghost function ReversedName(ls: Labels): (r: Labels)
    requires ls != []
  {
    Reversed(Init(ls)) + [[]]
  }

  lemma {:induction false} ReversedSnoc(ls: Labels, l: Bytes)
    ensures Reversed(ls + [l]) == [l] + Reversed(ls)
  {
    if ls == [] {
      assert ls + [l] == [l] && [l][1..] == [];
    } else {
      assert (ls + [l])[1..] == ls[1..] + [l];
      ReversedSnoc(ls[1..], l);
    }
  }

  lemma {:induction false} ReversedTwice(ls: Labels)
    ensures Reversed(Reversed(ls)) == ls
  {
    if ls != [] {
      ReversedTwice(ls[1..]);
      ReversedSnoc(Reversed(ls[1..]), ls[0]);
    }
  }

  lemma {:induction false} ReversedKeeps(ls: Labels)
    requires NonRoot(ls)
    ensures NonRoot(Reversed(ls)) && Short(Reversed(ls)) && WireLength(Reversed(ls)) == WireLength(ls)
  {
    if ls != [] {
      ReversedKeeps(ls[1..]);
      EncodeSnoc(Reversed(ls[1..]), ls[0]);
    }
  }

  /** Reversing a name twice gives it back. */
  lemma ReverseIsInvolution(ls: Labels)
    requires WellFormedName(ls)
    ensures WellFormedName(ReversedName(ls)) && WireLength(ReversedName(ls)) == WireLength(ls)
    ensures ReversedName(ReversedName(ls)) == ls
  {
    hide Reversed, NonRoot, WireLength;
    WellFormedPieces(ls);
    ReversedKeeps(Init(ls));
    WellFormedFrom(Reversed(Init(ls)));
    ReversedTwice(Init(ls));
    assert Init(ReversedName(ls)) == Reversed(Init(ls));
  }

  /** The fields that describe the labels copied so far. */
  ghost predicate Copied(ndata: Bytes, offsets: seq<Byte>, labels: Labels) {
    && Short(labels) && ndata == Encode(labels) && |offsets| == |labels| + 1
    && forall j | 0 <= j <= |labels| :: offsets[j] == WireLength(labels[..j])
  }

  lemma CopyOne(ndata: Bytes, offsets: seq<Byte>, labels: Labels, l: Bytes, piece: Bytes)
    requires Copied(ndata, offsets, labels) && |l| <= MAX_LABELLEN && Short([l]) && piece == Encode([l])
    requires WireLength(labels) + 1 + |l| <= MAX_WIRE
    ensures |ndata + piece| <= MAX_WIRE
    ensures Copied(ndata + piece, offsets + [|ndata + piece| as Byte], labels + [l])
  {
    EncodeOne(l, 0);
    EncodeSnoc(labels, l);
    EncodeLength(labels + [l]);
    hide Encode, WireLength;
    var more := labels + [l];
    assert ndata + ([|l| as Byte] + l) == ndata + [|l| as Byte] + l;
    forall j | 0 <= j <= |more|
      ensures (offsets + [|ndata + piece| as Byte])[j] == WireLength(more[..j])
    {
      if j <= |labels| {
        assert more[..j] == labels[..j];
      } else {
        assert more[..j] == more;
      }
    }
  }

  /** Name::reverse. */
  method Reverse(a: Name, ghost ls: Labels) returns (r: Name)
    requires IsName(a, ls)
    ensures IsName(r, ReversedName(ls))
  {
    hide Encode, WireLength, IsName, Short, WellFormedName, NonRoot, Reversed, Copied;
    NameParts(a, ls);
    NameOffsetsAscend(a, ls);
    ReverseStart(ls);
    var offsets: seq<Byte> := [0];
    var ndata: Bytes := [];
    var i := a.labelcount - 1;
    while i > 0
      invariant 0 <= i <= |ls| - 1
      invariant Copied(ndata, offsets, Reversed(ls[i..|ls| - 1]))
    {
      ReverseNext(a, ls, i);
      CopyOne(ndata, offsets, Reversed(ls[i..|ls| - 1]), ls[i - 1],
              a.ndata[a.offsets[i - 1] as int..a.offsets[i] as int]);
      ndata := ndata + a.ndata[a.offsets[i - 1] as int..a.offsets[i] as int];
      offsets := offsets + [|ndata| as Byte];
      i := i - 1;
    }
    ReverseDone(ndata, offsets, ls);
    r := Name(ndata + [0], offsets, a.length, a.labelcount);
  }

  lemma ReverseStart(ls: Labels)
    requires ls != []
    ensures Copied([], [0], Reversed(ls[|ls| - 1..|ls| - 1]))
  {
    assert ls[|ls| - 1..|ls| - 1] == [];
  }

  lemma ReverseNext(a: Name, ls: Labels, i: nat)
    requires IsName(a, ls) && 0 < i < |ls|
    ensures |ls[i - 1]| <= MAX_LABELLEN && Short([ls[i - 1]])
    ensures a.offsets[i - 1] <= a.offsets[i] && a.offsets[i] as int <= |a.ndata|
    ensures a.ndata[a.offsets[i - 1] as int..a.offsets[i] as int] == Encode([ls[i - 1]])
    ensures WireLength(Reversed(ls[i..|ls| - 1])) + 1 + |ls[i - 1]| <= MAX_WIRE
    ensures Reversed(ls[i - 1..|ls| - 1]) == Reversed(ls[i..|ls| - 1]) + [ls[i - 1]]
  {
    hide Encode, IsName;
    NameParts(a, ls);
    SplitBytes(a, ls, i - 1, 1);
    assert ls[i - 1..i] == [ls[i - 1]];
    var tail := ls[i - 1..|ls| - 1];
    assert tail[0] == ls[i - 1] && tail[1..] == ls[i..|ls| - 1];
    assert tail == Init(ls)[i - 1..] && forall k | 0 <= k < |tail| :: tail[k] == Init(ls)[i - 1 + k];
    ReversedKeeps(tail[1..]);
    WellFormedPieces(ls);
    WireLengthPrefix(Init(ls), i - 1);
  }

  lemma {:induction false} ReverseDone(ndata: Bytes, offsets: seq<Byte>, ls: Labels)
    requires WellFormedName(ls) && Copied(ndata, offsets, Reversed(ls[0..|ls| - 1]))
    ensures IsName(Name(ndata + [0], offsets, WireLength(ls), |ls|), ReversedName(ls))
  {
    assert ls[0..|ls| - 1] == Init(ls);
    hide Encode, WireLength, NonRoot, Reversed, IsName;
    ReverseIsInvolution(ls);
    var r := ReversedName(ls);
    WellFormedPieces(r);
    EncodeLength(r);
    assert Init(r) == Reversed(Init(ls));
    forall i | 0 <= i < |r|
      ensures offsets[i] == WireLength(r[..i])
    {
      assert r[..i] == Reversed(Init(ls))[..i];
    }
    NameIsItsParts(Name(ndata + [0], offsets, WireLength(ls), |ls|), r);
  }

  // ---------------------------------------------------------------- downcase

  /** Name::downcase, in place: the bytes become those of the lower-cased
      labels, the length bytes and the offsets staying as they are. */
  method Downcase(ndata: array<Byte>, labelcount: nat, ghost ls: Labels)
    requires WellFormedName(ls) && Short(ls) && ndata[..] == Encode(ls) && labelcount == |ls|
    modifies ndata
    ensures Short(LowerLabels(ls)) && ndata[..] == Encode(LowerLabels(ls))
  {
    hide Encode, WireLength, WellFormedName, Short, LowerBytes, LowerLabels;
    ghost var e := Encode(ls);
    LowerEncode(ls);
    NameFields(ls);
    var pos := 0;
    var labels := labelcount;
    while labels > 0
      invariant 0 <= labels <= labelcount && pos == WireLength(ls[..labelcount - labels]) && pos <= |e| == ndata.Length
      invariant forall j | 0 <= j < pos :: ndata[j] == Lower(e[j])
      invariant forall j | pos <= j < ndata.Length :: ndata[j] == e[j]
    {
      ghost var k := labelcount - labels;
      NameLabel(ls, k);
      ShortAt(ls, k);
      labels := labels - 1;
      var count := ndata[pos] as int;
      pos := pos + 1;
      var stop := pos + count;
      while pos < stop
        invariant pos <= stop <= ndata.Length
        invariant forall j | 0 <= j < pos :: ndata[j] == Lower(e[j])
        invariant forall j | pos <= j < ndata.Length :: ndata[j] == e[j]
      {
        ndata[pos] := Lower(ndata[pos]);
        pos := pos + 1;
      }
    }
    WholeLength(ls);
    assert ndata[..] == LowerBytes(e);
  }

  lemma ShortAt(ls: Labels, k: nat)
    requires Short(ls) && k < |ls|
    ensures |ls[k]| <= MAX_LABELLEN
  {
  }

  lemma {:induction false} WholeLength(ls: Labels)
    requires Short(ls)
    ensures WireLength(ls[..|ls|]) == |Encode(ls)|
  {
    assert ls[..|ls|] == ls;
    EncodeLength(ls);
  }
}
