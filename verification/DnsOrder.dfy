/** Canonical ordering of names (section 6.1 of RFC 4034) as the comparison of
    label lists from the right (slave/dns/labelsequence.cpp). */
module DnsOrder {
  import opened Wrappers
  import opened DnsLabels

  datatype Relation = SuperDomain | SubDomain | Equal | CommonAncestor | Unrelated

  datatype Comparison = Comparison(order: int, labels: nat, relation: Relation)

  /** Case folding, unless the comparison is case sensitive. */
  function Fold(b: Byte, caseSensitive: bool): (r: Byte) {
    if caseSensitive then b else Lower(b)
  }

  function FoldBytes(s: Bytes, caseSensitive: bool): (r: Bytes) {
    if caseSensitive then s else LowerBytes(s)
  }

  function FoldLabels(ls: Labels, caseSensitive: bool): (r: Labels) {
    if caseSensitive then ls else LowerLabels(ls)
  }

  /** Difference of the first differing bytes, else of the lengths. */
  function LabelOrder(x: Bytes, y: Bytes, cs: bool): (r: int) {
    if x == [] || y == [] then |x| - |y|
    else if Fold(x[0], cs) != Fold(y[0], cs) then Fold(x[0], cs) - Fold(y[0], cs)
    else LabelOrder(x[1..], y[1..], cs)
  }

  function Last(ls: Labels): Bytes
    requires ls != []
  {
    ls[|ls| - 1]
  }

  function Init(ls: Labels): Labels
    requires ls != []
  {
    ls[..|ls| - 1]
  }

  /** Compare from the last label backwards, n labels having agreed so far. */
  function CompareFrom(a: Labels, b: Labels, cs: bool, n: nat): (r: Comparison)
    ensures r.labels >= n
  {
    if a == [] || b == [] then
      Comparison(|a| - |b|, n,
        if |a| < |b| then SuperDomain else if |a| > |b| then SubDomain else Equal)
    else
      var d := LabelOrder(Last(a), Last(b), cs);
      if d != 0 then Comparison(d, n, if n == 0 then Unrelated else CommonAncestor)
      else CompareFrom(Init(a), Init(b), cs, n + 1)
  }

  function Compare(a: Labels, b: Labels, cs: bool): (r: Comparison) {
    CompareFrom(a, b, cs, 0)
  }

  // ---------------------------------------------------------------- labels are totally ordered

  lemma {:induction false} LabelOrderSwap(x: Bytes, y: Bytes, cs: bool)
    ensures LabelOrder(x, y, cs) == -LabelOrder(y, x, cs)
  {
    if x != [] && y != [] && Fold(x[0], cs) == Fold(y[0], cs) {
      LabelOrderSwap(x[1..], y[1..], cs);
    }
  }

  lemma {:induction false} LabelOrderZero(x: Bytes, y: Bytes, cs: bool)
    ensures LabelOrder(x, y, cs) == 0 <==> FoldBytes(x, cs) == FoldBytes(y, cs)
  {
    if x != [] && y != [] {
      LabelOrderZero(x[1..], y[1..], cs);
      assert FoldBytes(x, cs) == [Fold(x[0], cs)] + FoldBytes(x[1..], cs);
      assert FoldBytes(y, cs) == [Fold(y[0], cs)] + FoldBytes(y[1..], cs);
      assert FoldBytes(x, cs)[1..] == FoldBytes(x[1..], cs) && FoldBytes(y, cs)[1..] == FoldBytes(y[1..], cs);
    }
  }

  lemma {:induction false} LabelOrderTransitive(x: Bytes, y: Bytes, z: Bytes, cs: bool)
    requires LabelOrder(x, y, cs) <= 0 && LabelOrder(y, z, cs) <= 0
    ensures LabelOrder(x, z, cs) <= 0
    ensures LabelOrder(x, y, cs) < 0 || LabelOrder(y, z, cs) < 0 ==> LabelOrder(x, z, cs) < 0
  {
    if x != [] && y != [] && z != [] && Fold(x[0], cs) == Fold(y[0], cs) == Fold(z[0], cs) {
      LabelOrderTransitive(x[1..], y[1..], z[1..], cs);
    }
  }

  // ---------------------------------------------------------------- so are names

  lemma {:induction false} CompareSwap(a: Labels, b: Labels, cs: bool, n: nat)
    ensures CompareFrom(a, b, cs, n).order == -CompareFrom(b, a, cs, n).order
    ensures CompareFrom(a, b, cs, n).labels == CompareFrom(b, a, cs, n).labels
    decreases |a|
  {
    if a != [] && b != [] {
      LabelOrderSwap(Last(a), Last(b), cs);
      CompareSwap(Init(a), Init(b), cs, n + 1);
    }
  }

  lemma {:induction false} CompareOrderFrom(a: Labels, b: Labels, cs: bool, n: nat, m: nat)
    ensures CompareFrom(a, b, cs, n).order == CompareFrom(a, b, cs, m).order
    decreases |a|
  {
    if a != [] && b != [] {
      CompareOrderFrom(Init(a), Init(b), cs, n + 1, m + 1);
    }
  }

  lemma {:induction false} CompareTransitive(a: Labels, b: Labels, c: Labels, cs: bool)
    requires Compare(a, b, cs).order <= 0 && Compare(b, c, cs).order <= 0
    ensures Compare(a, c, cs).order <= 0
    ensures Compare(a, b, cs).order < 0 || Compare(b, c, cs).order < 0 ==> Compare(a, c, cs).order < 0
    decreases |a|
  {
    if a != [] && b != [] && c != [] {
      var x, y, z := Last(a), Last(b), Last(c);
      LabelOrderTransitive(x, y, z, cs);
      if LabelOrder(x, y, cs) == 0 && LabelOrder(y, z, cs) == 0 {
        LabelOrderSwap(x, y, cs);
        LabelOrderSwap(y, z, cs);
        LabelOrderSwap(x, z, cs);
        LabelOrderTransitive(z, y, x, cs);
        CompareOrderFrom(Init(a), Init(b), cs, 1, 0);
        CompareOrderFrom(Init(b), Init(c), cs, 1, 0);
        CompareOrderFrom(Init(a), Init(c), cs, 1, 0);
        CompareTransitive(Init(a), Init(b), Init(c), cs);
      }
    }
  }

  lemma {:induction false} CompareZero(a: Labels, b: Labels, cs: bool, n: nat)
    ensures CompareFrom(a, b, cs, n).order == 0 <==> FoldLabels(a, cs) == FoldLabels(b, cs)
    ensures CompareFrom(a, b, cs, n).order == 0 <==> CompareFrom(a, b, cs, n).relation == Equal
    decreases |a|
  {
    hide LabelOrder, FoldLabels, FoldBytes, LowerLabels, LowerBytes;
    if a != [] && b != [] {
      LabelOrderZero(Last(a), Last(b), cs);
      CompareZero(Init(a), Init(b), cs, n + 1);
      FoldSplitLast(a, b, cs);
    } else {
      FoldLength(a, cs);
      FoldLength(b, cs);
    }
  }

  lemma FoldLength(ls: Labels, cs: bool)
    ensures |FoldLabels(ls, cs)| == |ls|
    ensures ls == [] ==> FoldLabels(ls, cs) == []
  {
    hide LowerLabels;
  }

  lemma FoldSplitLast(a: Labels, b: Labels, cs: bool)
    requires a != [] && b != []
    ensures FoldLabels(a, cs) == FoldLabels(b, cs)
            <==> FoldLabels(Init(a), cs) == FoldLabels(Init(b), cs)
                 && FoldBytes(Last(a), cs) == FoldBytes(Last(b), cs)
  {
    hide FoldLabels, FoldBytes;
    assert a == Init(a) + [Last(a)] && b == Init(b) + [Last(b)];
    FoldSnocEqual(Init(a), Last(a), Init(b), Last(b), cs);
  }

  // ---------------------------------------------------------------- common suffix and hierarchy

  /** The last k labels of both agree up to case. */
  ghost predicate AgreeOnLast(a: Labels, b: Labels, cs: bool, k: nat) {
    k <= |a| && k <= |b| && FoldLabels(a[|a| - k..], cs) == FoldLabels(b[|b| - k..], cs)
  }

  /** The number of common labels is the length of the longest common suffix,
      and the relation says whether that suffix is the whole of either name. */
  lemma {:induction false} CommonSuffix(a: Labels, b: Labels, cs: bool, n: nat)
    ensures var r := CompareFrom(a, b, cs, n);
            && n <= r.labels
            && AgreeOnLast(a, b, cs, (r.labels - n) as nat)
            && (forall k: nat | AgreeOnLast(a, b, cs, k) :: k <= r.labels - n)
            && (r.relation == SuperDomain <==> r.labels - n == |a| < |b|)
            && (r.relation == SubDomain <==> r.labels - n == |b| < |a|)
            && (r.relation == Equal <==> r.labels - n == |a| == |b|)
            && (r.relation == Unrelated ==> r.labels == 0)
            && (r.relation == CommonAncestor ==> 0 < r.labels)
    decreases |a|
  {
    hide AgreeOnLast, FoldBytes, LabelOrder;
    var r := CompareFrom(a, b, cs, n);
    var m: nat := if a != [] && b != [] && LabelOrder(Last(a), Last(b), cs) == 0
                  then 1 + (CompareFrom(Init(a), Init(b), cs, n + 1).labels - (n + 1)) else 0;
    AgreeOnNone(a, b, cs);
    if a != [] && b != [] {
      LabelOrderZero(Last(a), Last(b), cs);
      if LabelOrder(Last(a), Last(b), cs) == 0 {
        CommonSuffix(Init(a), Init(b), cs, n + 1);
        AgreeOneMore(a, b, cs, m - 1);
      }
    }
    forall k: nat | AgreeOnLast(a, b, cs, k)
      ensures k <= m
    {
      AgreeBound(a, b, cs, k);
      if k > 0 {
        AgreeOneMore(a, b, cs, k - 1);
      }
    }
  }

  lemma AgreeBound(a: Labels, b: Labels, cs: bool, k: nat)
    requires AgreeOnLast(a, b, cs, k)
    ensures k <= |a| && k <= |b|
  {
  }

  lemma AgreeOnNone(a: Labels, b: Labels, cs: bool)
    ensures AgreeOnLast(a, b, cs, 0)
  {
    assert a[|a|..] == [] && b[|b|..] == [];
  }

  lemma FoldSnoc(x: Labels, u: Bytes, cs: bool)
    ensures FoldLabels(x + [u], cs) == FoldLabels(x, cs) + [FoldBytes(u, cs)]
  {
    assert FoldLabels(x + [u], cs) == FoldLabels(x, cs) + [FoldBytes(u, cs)];
  }

  lemma FoldSnocEqual(x: Labels, u: Bytes, y: Labels, v: Bytes, cs: bool)
    ensures FoldLabels(x + [u], cs) == FoldLabels(y + [v], cs)
            <==> FoldLabels(x, cs) == FoldLabels(y, cs) && FoldBytes(u, cs) == FoldBytes(v, cs)
  {
    hide FoldLabels, FoldBytes;
    var p, q := FoldLabels(x + [u], cs), FoldLabels(y + [v], cs);
    FoldSnoc(x, u, cs);
    FoldSnoc(y, v, cs);
    assert p[..|p| - 1] == FoldLabels(x, cs) && q[..|q| - 1] == FoldLabels(y, cs);
    assert p[|p| - 1] == FoldBytes(u, cs) && q[|q| - 1] == FoldBytes(v, cs);
  }

  lemma AgreeOneMore(a: Labels, b: Labels, cs: bool, k: nat)
    requires a != [] && b != []
    ensures AgreeOnLast(a, b, cs, k + 1)
            <==> FoldBytes(Last(a), cs) == FoldBytes(Last(b), cs) && AgreeOnLast(Init(a), Init(b), cs, k)
  {
    hide FoldLabels, FoldBytes;
    if k < |a| && k < |b| {
      var x, y := Init(a)[|a| - 1 - k..], Init(b)[|b| - 1 - k..];
      assert a[|a| - (k + 1)..] == x + [Last(a)];
      assert b[|b| - (k + 1)..] == y + [Last(b)];
      FoldSnocEqual(x, Last(a), y, Last(b), cs);
    }
  }

  /** compare() is a total order on names up to case: antisymmetric with exact
      sign, transitive, and zero exactly on names equal up to case. */
  lemma CompareIsTotalOrder(a: Labels, b: Labels, c: Labels, cs: bool)
    ensures Compare(a, b, cs).order == -Compare(b, a, cs).order
    ensures Compare(a, b, cs).order == 0 <==> FoldLabels(a, cs) == FoldLabels(b, cs)
    ensures Compare(a, b, cs).order <= 0 && Compare(b, c, cs).order <= 0 ==> Compare(a, c, cs).order <= 0
  {
    CompareSwap(a, b, cs, 0);
    CompareZero(a, b, cs, 0);
    if Compare(a, b, cs).order <= 0 && Compare(b, c, cs).order <= 0 {
      CompareTransitive(a, b, c, cs);
    }
  }

  // ---------------------------------------------------------------- the canonical order

  /** A capital letter counts as its small one, unless case matters. */
  predicate ByteBefore(x: Byte, y: Byte, cs: bool) {
    var u := if !cs && 0x41 <= x <= 0x5a then x + 0x20 else x as int;
    var v := if !cs && 0x41 <= y <= 0x5a then y + 0x20 else y as int;
    u < v
  }

  /** The first k bytes agree up to case, and there x ends first or has the lesser byte. */
  ghost predicate LabelBeforeAt(x: Bytes, y: Bytes, cs: bool, k: nat) {
    && k <= |x| && k < |y|
    && (forall i | 0 <= i < k :: !ByteBefore(x[i], y[i], cs) && !ByteBefore(y[i], x[i], cs))
    && (k == |x| || ByteBefore(x[k], y[k], cs))
  }

  ghost predicate LabelBefore(x: Bytes, y: Bytes, cs: bool) {
    exists k: nat :: LabelBeforeAt(x, y, cs, k)
  }

  lemma {:induction false} LabelOrderIff(x: Bytes, y: Bytes, cs: bool)
    ensures LabelOrder(x, y, cs) < 0 <==> LabelBefore(x, y, cs)
    decreases |x|
  {
    if x == [] || y == [] {
      if y != [] {
        assert LabelBeforeAt(x, y, cs, 0);
      }
    } else {
      LabelOrderIff(x[1..], y[1..], cs);
      if ByteBefore(x[0], y[0], cs) {
        assert LabelBeforeAt(x, y, cs, 0);
      } else if LabelOrder(x, y, cs) < 0 {
        var k: nat :| LabelBeforeAt(x[1..], y[1..], cs, k);
        LabelBeforeLater(x, y, cs, k);
      }
      if k: nat :| LabelBeforeAt(x, y, cs, k) {
        if k > 0 {
          LabelBeforeLater(x, y, cs, k - 1);
        }
      }
    }
  }

  lemma LabelBeforeLater(x: Bytes, y: Bytes, cs: bool, k: nat)
    requires x != [] && y != []
    ensures LabelBeforeAt(x, y, cs, k + 1)
            <==> !ByteBefore(x[0], y[0], cs) && !ByteBefore(y[0], x[0], cs) && LabelBeforeAt(x[1..], y[1..], cs, k)
  {
    hide ByteBefore;
    var u, v := x[1..], y[1..];
    assert forall i | 0 <= i < |u| :: u[i] == x[i + 1];
    assert forall i | 0 <= i < |v| :: v[i] == y[i + 1];
    if !ByteBefore(x[0], y[0], cs) && !ByteBefore(y[0], x[0], cs) && LabelBeforeAt(x[1..], y[1..], cs, k) {
      forall i | 0 <= i < k + 1
        ensures !ByteBefore(x[i], y[i], cs) && !ByteBefore(y[i], x[i], cs)
      {
        if i > 0 {
          assert x[i] == x[1..][i - 1] && y[i] == y[1..][i - 1];
        }
      }
    }
  }

  /** The last k labels agree up to case, and there a ends or has the label that comes
      first. */
  ghost predicate NameBeforeAt(a: Labels, b: Labels, cs: bool, k: nat) {
    && AgreeOnLast(a, b, cs, k) && k < |b|
    && (k == |a| || LabelBefore(a[|a| - 1 - k], b[|b| - 1 - k], cs))
  }

  /** The order is that of section 6.1 of RFC 4034: from the last label backwards, the
      first differing byte decides, the shorter label or name coming first. */
  lemma {:induction false} CanonicalOrder(a: Labels, b: Labels, cs: bool, n: nat)
    ensures CompareFrom(a, b, cs, n).order < 0 <==> exists k: nat :: NameBeforeAt(a, b, cs, k)
    decreases |a|
  {
    hide LabelOrder, LabelBefore, FoldBytes, FoldLabels, AgreeOnLast;
    if a == [] || b == [] {
      AgreeOnNone(a, b, cs);
      if a == [] && b != [] {
        assert NameBeforeAt(a, b, cs, 0);
      }
    } else {
      AgreeOnNone(a, b, cs);
      LabelOrderIff(Last(a), Last(b), cs);
      LabelOrderZero(Last(a), Last(b), cs);
      CanonicalOrder(Init(a), Init(b), cs, n + 1);
      if LabelOrder(Last(a), Last(b), cs) < 0 {
        assert NameBeforeAt(a, b, cs, 0);
      } else if CompareFrom(a, b, cs, n).order < 0 {
        var k: nat :| NameBeforeAt(Init(a), Init(b), cs, k);
        NameBeforeLater(a, b, cs, k);
      }
      if k: nat :| NameBeforeAt(a, b, cs, k) {
        if k > 0 {
          NameBeforeLater(a, b, cs, k - 1);
          assert NameBeforeAt(Init(a), Init(b), cs, k - 1);
        } else {
          assert a[|a| - 1 - 0] == Last(a) && b[|b| - 1 - 0] == Last(b);
        }
      }
    }
  }

  lemma NameBeforeLater(a: Labels, b: Labels, cs: bool, k: nat)
    requires a != [] && b != []
    ensures NameBeforeAt(a, b, cs, k + 1)
            <==> FoldBytes(Last(a), cs) == FoldBytes(Last(b), cs) && NameBeforeAt(Init(a), Init(b), cs, k)
  {
    hide LabelBefore, FoldBytes, FoldLabels;
    AgreeOneMore(a, b, cs, k);
    if k < |Init(a)| {
      assert Init(a)[|Init(a)| - 1 - k] == a[|a| - 1 - (k + 1)];
    }
    if k < |Init(b)| {
      assert Init(b)[|Init(b)| - 1 - k] == b[|b| - 1 - (k + 1)];
    }
  }
}
