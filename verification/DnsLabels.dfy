/** Domain names as label lists and as wire bytes with label offsets
    (slave/dns/name.h; sections 2.3.4 and 3.1 of RFC 1035). The root label is
    the empty label, so an absolute name's list ends in []. */
module DnsLabels {
  import opened Wrappers

  const MAX_WIRE: nat := 255
  const MAX_LABELS: nat := 128
  const MAX_LABELLEN: nat := 63

  type Labels = seq<Bytes>

  /** Name::ndata_, offsets_, length_ and labelcount_. */
  datatype Name = Name(ndata: Bytes, offsets: seq<Byte>, length: nat, labelcount: nat)

  /** maptolower: ASCII capitals only. */
  function Lower(b: Byte): (r: Byte) {
    if 65 <= b <= 90 then b + 32 else b
  }

  function LowerBytes(s: Bytes): (r: Bytes)
    ensures |r| == |s| && forall i | 0 <= i < |s| :: r[i] == Lower(s[i])
  {
    if s == [] then [] else [Lower(s[0])] + LowerBytes(s[1..])
  }

  function LowerLabels(ls: Labels): (r: Labels)
    ensures |r| == |ls| && forall i | 0 <= i < |ls| :: r[i] == LowerBytes(ls[i])
  {
    if ls == [] then [] else [LowerBytes(ls[0])] + LowerLabels(ls[1..])
  }

  // ---------------------------------------------------------------- encoding

  ghost predicate Short(ls: Labels) {
    forall i | 0 <= i < |ls| :: |ls[i]| <= MAX_LABELLEN
  }

  /** Length byte and bytes of each label in turn. */
  ghost function Encode(ls: Labels): (r: Bytes)
    requires Short(ls)
  {
    if ls == [] then [] else [|ls[0]| as Byte] + ls[0] + Encode(ls[1..])
  }

  /** Where each label starts, the first at base. */
  ghost function Starts(ls: Labels, base: nat): (r: seq<nat>)
    ensures |r| == |ls|
  {
    if ls == [] then [] else [base] + Starts(ls[1..], base + 1 + |ls[0]|)
  }

  ghost function WireLength(ls: Labels): (n: nat) {
    if ls == [] then 0 else 1 + |ls[0]| + WireLength(ls[1..])
  }

  lemma {:induction false} EncodeLength(ls: Labels)
    requires Short(ls)
    ensures |Encode(ls)| == WireLength(ls)
  {
    if ls != [] {
      EncodeLength(ls[1..]);
    }
  }

  lemma {:induction false} WireLengthAppend(a: Labels, b: Labels)
    ensures WireLength(a + b) == WireLength(a) + WireLength(b)
  {
    if a == [] {
      assert a + b == b;
    } else {
      assert (a + b)[1..] == a[1..] + b;
      WireLengthAppend(a[1..], b);
    }
  }

  lemma {:induction false} EncodeAppend(a: Labels, b: Labels)
    requires Short(a) && Short(b)
    ensures Short(a + b) && Encode(a + b) == Encode(a) + Encode(b)
  {
    if a == [] {
      assert a + b == b;
      assert Encode(a) + Encode(b) == Encode(b);
    } else {
      assert (a + b)[1..] == a[1..] + b;
      EncodeAppend(a[1..], b);
      Regroup([|a[0]| as Byte] + a[0], Encode(a[1..]), Encode(b));
    }
  }

  lemma {:induction false} StartsAppend(a: Labels, b: Labels, base: nat)
    ensures Starts(a + b, base) == Starts(a, base) + Starts(b, base + WireLength(a))
  {
    if a == [] {
      assert a + b == b;
    } else {
      assert (a + b)[1..] == a[1..] + b;
      StartsAppend(a[1..], b, base + 1 + |a[0]|);
      Regroup([base], Starts(a[1..], base + 1 + |a[0]|), Starts(b, base + WireLength(a)));
    }
  }

  lemma {:induction false} StartsShift(ls: Labels, base: nat, d: nat, i: nat)
    requires i < |ls|
    ensures Starts(ls, base + d)[i] == Starts(ls, base)[i] + d
    ensures base <= Starts(ls, base)[i] < base + WireLength(ls)
  {
    if i > 0 {
      StartsShift(ls[1..], base + 1 + |ls[0]|, d, i - 1);
    }
  }

  lemma EncodeOne(l: Bytes, base: nat)
    requires |l| <= MAX_LABELLEN
    ensures Short([l]) && Encode([l]) == [|l| as Byte] + l
    ensures WireLength([l]) == 1 + |l| && Starts([l], base) == [base]
  {
    assert [l][1..] == [];
  }

  lemma {:induction false} EncodeSnoc(ls: Labels, l: Bytes)
    requires Short(ls) && |l| <= MAX_LABELLEN
    ensures Short(ls + [l]) && Encode(ls + [l]) == Encode(ls) + [|l| as Byte] + l
    ensures WireLength(ls + [l]) == WireLength(ls) + 1 + |l| && |Encode(ls)| == WireLength(ls)
    ensures Starts(ls + [l], 0) == Starts(ls, 0) + [WireLength(ls)]
  {
    EncodeOne(l, WireLength(ls));
    EncodeAppend(ls, [l]);
    EncodeLength(ls);
    WireLengthAppend(ls, [l]);
    StartsAppend(ls, [l], 0);
    hide Encode, Starts, WireLength;
    assert Encode(ls) + ([|l| as Byte] + l) == Encode(ls) + [|l| as Byte] + l;
  }

  // ---------------------------------------------------------------- names

  ghost predicate NonRoot(ls: Labels) {
    forall i | 0 <= i < |ls| :: 1 <= |ls[i]| <= MAX_LABELLEN
  }

  /** An absolute name of at most 255 wire bytes: non-empty labels, then root. */
  ghost predicate WellFormedName(ls: Labels) {
    && |ls| > 0 && ls[|ls| - 1] == []
    && NonRoot(ls[..|ls| - 1])
    && WireLength(ls) <= MAX_WIRE
  }

  lemma WellFormedIsShort(ls: Labels)
    requires WellFormedName(ls)
    ensures Short(ls)
  {
    assert forall i | 0 <= i < |ls| - 1 :: ls[i] == ls[..|ls| - 1][i];
  }

  lemma {:induction false} NonRootLength(ls: Labels)
    requires NonRoot(ls)
    ensures WireLength(ls) >= 2 * |ls|
  {
    if ls != [] {
      NonRootLength(ls[1..]);
    }
  }

  lemma {:induction false} SplitRoot(ls: Labels)
    requires |ls| > 0 && ls[|ls| - 1] == []
    ensures ls == ls[..|ls| - 1] + [[]]
    ensures WireLength(ls) == WireLength(ls[..|ls| - 1]) + 1
  {
    var init := ls[..|ls| - 1];
    assert ls == init + [[]];
    WireLengthAppend(init, [[]]);
    assert WireLength([[]]) == 1 + WireLength([[]][1..]);
  }

  /** The 255-byte limit also bounds the number of labels. */
  lemma WellFormedLabelCount(ls: Labels)
    requires WellFormedName(ls)
    ensures |ls| <= MAX_LABELS
  {
    SplitRoot(ls);
    NonRootLength(ls[..|ls| - 1]);
  }

  lemma {:induction false} StartsAreBytes(ls: Labels, i: nat)
    requires WireLength(ls) <= MAX_WIRE && i < |ls|
    ensures 0 <= Starts(ls, 0)[i] < MAX_WIRE
  {
    StartsShift(ls, 0, 0, i);
  }

  /** From a position on stand the length of a label and its bytes. */
  ghost predicate OctetsAt(b: Bytes, at: int, l: Bytes) {
    0 <= at && at + 1 + |l| <= |b| && b[at] == |l| && b[at + 1..at + 1 + |l|] == l
  }

  lemma OctetsBehind(front: Bytes, b: Bytes, at: int, l: Bytes)
    requires OctetsAt(b, at, l)
    ensures OctetsAt(front + b, |front| + at, l)
  {
    var all, i := front + b, |front| + at;
    assert all[i + 1..i + 1 + |l|] == b[at + 1..at + 1 + |l|];
  }

  lemma FirstOctets(ls: Labels, base: nat)
    requires Short(ls) && ls != []
    ensures OctetsAt(Encode(ls), 0, ls[0]) && Starts(ls, base)[0] == base
    ensures Encode(ls) == [|ls[0]| as Byte] + ls[0] + Encode(ls[1..])
    ensures Starts(ls, base) == [base] + Starts(ls[1..], base + 1 + |ls[0]|)
    ensures |ls| > 1 ==> Starts(ls[1..], base + 1 + |ls[0]|)[0] == base + 1 + |ls[0]|
    ensures |ls| == 1 ==> |Encode(ls)| == 1 + |ls[0]|
  {
    assert ([|ls[0]| as Byte] + ls[0] + Encode(ls[1..]))[1..1 + |ls[0]|] == ls[0];
  }

  /** Octet by octet: each label begins where the one before ends, with its length, then
      its bytes. */
  lemma {:induction false} EncodedOctets(ls: Labels, base: nat, i: nat)
    requires Short(ls) && i < |ls|
    ensures var at := Starts(ls, base)[i] - base;
            && OctetsAt(Encode(ls), at, ls[i]) && (i == 0 ==> at == 0)
            && if i + 1 < |ls| then Starts(ls, base)[i + 1] - base == at + 1 + |ls[i]|
               else at + 1 + |ls[i]| == |Encode(ls)|
    decreases |ls|
  {
    hide Encode, Starts, OctetsAt;
    FirstOctets(ls, base);
    if i > 0 {
      var n := 1 + |ls[0]|;
      EncodedOctets(ls[1..], base + n, i - 1);
      OctetsBehind([|ls[0]| as Byte] + ls[0], Encode(ls[1..]), Starts(ls[1..], base + n)[i - 1] - (base + n), ls[i]);
    }
  }

  /** Only the letters A to Z change, to a to z. */
  lemma LowerLetters(c: Byte)
    ensures Lower(c) == if 0x41 <= c <= 0x5a then c + 0x20 else c
  {
  }

  ghost function ByteStarts(ls: Labels): (r: seq<Byte>)
    requires WireLength(ls) <= MAX_WIRE
    ensures |r| == |ls| && forall i | 0 <= i < |ls| :: r[i] == Starts(ls, 0)[i]
  {
    assert forall i | 0 <= i < |ls| :: 0 <= Starts(ls, 0)[i] < MAX_WIRE by {
      forall i | 0 <= i < |ls|
        ensures 0 <= Starts(ls, 0)[i] < MAX_WIRE
      {
        StartsAreBytes(ls, i);
      }
    }
    seq(|ls|, i requires 0 <= i < |ls| => Starts(ls, 0)[i] as Byte)
  }

  /** The Name object of a label list. */
  ghost function NameOf(ls: Labels): (n: Name)
    requires Short(ls) && WireLength(ls) <= MAX_WIRE
  {
    Name(Encode(ls), ByteStarts(ls), WireLength(ls), |ls|)
  }

  // ---------------------------------------------------------------- the encoding determines the labels

  lemma {:induction false} EncodeInjective(a: Labels, b: Labels)
    requires Short(a) && Short(b) && Encode(a) == Encode(b)
    ensures a == b
  {
    if a == [] || b == [] {
      EncodeLength(a);
      EncodeLength(b);
    } else {
      var ea, eb := Encode(a), Encode(b);
      assert ea[0] == |a[0]| && eb[0] == |b[0]|;
      assert ea[1..1 + |a[0]|] == a[0] && eb[1..1 + |b[0]|] == b[0];
      assert ea[1 + |a[0]|..] == Encode(a[1..]) && eb[1 + |b[0]|..] == Encode(b[1..]);
      EncodeInjective(a[1..], b[1..]);
    }
  }

  lemma {:induction false} LowerKeepsShape(ls: Labels)
    ensures WireLength(LowerLabels(ls)) == WireLength(ls)
    ensures Short(ls) ==> Short(LowerLabels(ls))
    ensures forall base :: Starts(LowerLabels(ls), base) == Starts(ls, base)
  {
    if ls != [] {
      LowerKeepsShape(ls[1..]);
    }
  }

  /** Lower-casing the wire bytes lower-cases the labels: a length byte is at
      most 63, below every capital letter. */
  lemma {:induction false} LowerEncode(ls: Labels)
    requires Short(ls)
    ensures Short(LowerLabels(ls)) && LowerBytes(Encode(ls)) == Encode(LowerLabels(ls))
  {
    LowerKeepsShape(ls);
    if ls != [] {
      LowerEncode(ls[1..]);
      LowerAppend([|ls[0]| as Byte], ls[0]);
      LowerAppend([|ls[0]| as Byte] + ls[0], Encode(ls[1..]));
      assert LowerLabels(ls)[1..] == LowerLabels(ls[1..]);
    }
  }

  lemma LowerAppend(a: Bytes, b: Bytes)
    ensures LowerBytes(a + b) == LowerBytes(a) + LowerBytes(b)
  {
  }
}
