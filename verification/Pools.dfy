/** Address pools of a subnet and the round-robin cursor over them
    (master/subnet.go, master/iterative_allocator.go). Addresses are 32-bit
    values in host byte order; sums wrap at 2^32 as Go's uint32 does. */
module Pools {
  import opened Wrappers

  const ADDRESS_SPACE: int := 0x1_0000_0000

  type Address = x: int | 0 <= x < 0x1_0000_0000

  function AddMod32(x: Address, y: Address): (r: Address) {
    if x + y < ADDRESS_SPACE then x + y else x + y - ADDRESS_SPACE
  }

  datatype Pool = Pool(start: Address, end: Address) {
    predicate Includes(a: Address) { start <= a <= end }

    // uint32 arithmetic: the pool of all 2^32 addresses has capacity 0
    function Capacity(): Address
      requires start <= end
    {
      AddMod32(end - start, 1)
    }
  }

  ghost predicate WellFormed(pools: seq<Pool>) {
    forall i | 0 <= i < |pools| :: pools[i].start <= pools[i].end
  }

  predicate InPools(pools: seq<Pool>, a: Address) {
    exists i | 0 <= i < |pools| :: pools[i].Includes(a)
  }

  ghost predicate Disjoint(pools: seq<Pool>) {
    forall i, j | 0 <= i < j < |pools| :: pools[i].end < pools[j].start || pools[j].end < pools[i].start
  }

  /** What the cursor needs of a pool list: 0 is the cursor's "unset" value. */
  ghost predicate Allocatable(pools: seq<Pool>) {
    WellFormed(pools) && Disjoint(pools) && !InPools(pools, 0)
  }

  ghost predicate CursorUsable(pools: seq<Pool>, cursor: Address) {
    |pools| > 0 && (cursor == 0 || InPools(pools, cursor))
  }

  // ---------------------------------------------------------------- searching

  /** Index of the first pool that includes the address, or |pools|. */
  function FindPool(pools: seq<Pool>, a: Address): (k: nat)
    ensures k <= |pools|
    ensures k < |pools| ==> pools[k].Includes(a)
    ensures forall i | 0 <= i < k :: !pools[i].Includes(a)
  {
    if pools == [] then 0
    else if pools[0].Includes(a) then 0
    else 1 + FindPool(pools[1..], a)
  }

  method GetPoolIncludeAddr(pools: seq<Pool>, a: Address) returns (found: Option<Pool>)
    ensures found.Some? <==> InPools(pools, a)
    ensures found.Some? ==> found.value in pools && found.value.Includes(a)
  {
    var i := 0;
    while i < |pools|
      invariant 0 <= i <= |pools|
      invariant forall j | 0 <= j < i :: !pools[j].Includes(a)
    {
      if pools[i].Includes(a) {
        return Some(pools[i]);
      }
      i := i + 1;
    }
    return None;
  }

  // ---------------------------------------------------------------- the cursor

  /** The address the cursor moves to, or None where the Go code panics: an
      empty pool list, or a cursor that has fallen outside every pool. */
  function NextPick(pools: seq<Pool>, cursor: Address): (r: Option<Address>) {
    if |pools| == 0 then None
    else if cursor == 0 then Some(pools[0].start)
    else
      var k := FindPool(pools, cursor);
      if k == |pools| then None
      else if pools[k].Includes(AddMod32(cursor, 1)) then Some(AddMod32(cursor, 1))
      else Some(pools[if k + 1 == |pools| then 0 else k + 1].start)
  }

  /** PickAddr runs exactly when the cursor is unset or inside a pool, and
      then leaves it inside a pool. */
  lemma NextPickDefined(pools: seq<Pool>, cursor: Address)
    ensures CursorUsable(pools, cursor) <==> NextPick(pools, cursor).Some?
    ensures WellFormed(pools) && CursorUsable(pools, cursor) ==> InPools(pools, NextPick(pools, cursor).value)
  {
    if WellFormed(pools) && CursorUsable(pools, cursor) {
      var a := NextPick(pools, cursor).value;
      var k := FindPool(pools, cursor);
      assert exists i | 0 <= i < |pools| :: pools[i].Includes(a) by {
        if cursor == 0 {
          assert pools[0].Includes(a);
        } else if pools[k].Includes(AddMod32(cursor, 1)) {
          assert pools[k].Includes(a);
        } else {
          assert pools[Ring(k + 1, |pools|)].Includes(a);
        }
      }
    }
  }

  class IterativeAllocator {
    var cursor: Address

    constructor ()
      ensures cursor == 0
    {
      cursor := 0;
    }

    method PickAddr(pools: seq<Pool>) returns (addr: Address)
      requires CursorUsable(pools, cursor)
      modifies this
      ensures NextPick(pools, old(cursor)) == Some(addr)
      ensures cursor == addr
    {
      if cursor == 0 {
        cursor := pools[0].start;
        return pools[0].start;
      }
      var last := cursor;
      var k := 0;
      while k < |pools| && !pools[k].Includes(last)
        invariant 0 <= k <= |pools|
        invariant forall i | 0 <= i < k :: !pools[i].Includes(last)
      {
        k := k + 1;
      }
      FindPoolIs(pools, last, k);
      var next := AddMod32(last, 1);
      if pools[k].Includes(next) {
        cursor := next;
        return next;
      }
      RemainderIsRing(k + 1, |pools|);
      cursor := pools[(k + 1) % |pools|].start;
      addr := cursor;
    }
  }

  ghost function Ring(k: nat, n: nat): (r: nat)
    requires k <= n
  {
    if k == n then 0 else k
  }

  lemma RemainderIsRing(k: nat, n: nat)
    requires 0 < n && k <= n
    ensures k % n == Ring(k, n)
  {
  }

  lemma FindPoolIs(pools: seq<Pool>, a: Address, k: nat)
    requires k <= |pools|
    requires k < |pools| ==> pools[k].Includes(a)
    requires forall i | 0 <= i < k :: !pools[i].Includes(a)
    ensures FindPool(pools, a) == k
  {
    var f := FindPool(pools, a);
    assert !(f < k) && !(k < f);
  }

  // ---------------------------------------------------------------- the address space of a pool list

  ghost function PoolAddresses(p: Pool): (s: seq<Address>)
    requires p.start <= p.end
  {
    seq(p.end - p.start + 1, i requires 0 <= i < p.end - p.start + 1 => (p.start + i) as Address)
  }

  /** Every address of the list, pool after pool. */
  ghost function AllAddresses(pools: seq<Pool>): (s: seq<Address>)
    requires WellFormed(pools)
  {
    if pools == [] then [] else PoolAddresses(pools[0]) + AllAddresses(pools[1..])
  }

  /** Where pool i starts inside AllAddresses. */
  ghost function Base(pools: seq<Pool>, i: nat): (b: nat)
    requires WellFormed(pools) && i <= |pools|
  {
    if i == 0 then 0 else |PoolAddresses(pools[0])| + Base(pools[1..], i - 1)
  }

  lemma {:induction false} AddressAt(pools: seq<Pool>, i: nat, j: nat)
    requires WellFormed(pools) && i < |pools| && j <= pools[i].end - pools[i].start
    ensures Base(pools, i) + j < |AllAddresses(pools)|
    ensures AllAddresses(pools)[Base(pools, i) + j] == pools[i].start + j
  {
    if i > 0 {
      AddressAt(pools[1..], i - 1, j);
    }
  }

  lemma {:induction false} BaseNext(pools: seq<Pool>, i: nat)
    requires WellFormed(pools) && i < |pools|
    ensures Base(pools, i + 1) == Base(pools, i) + (pools[i].end - pools[i].start + 1)
    ensures Base(pools, |pools|) == |AllAddresses(pools)|
  {
    BaseEnd(pools);
    if i > 0 {
      BaseNext(pools[1..], i - 1);
    }
  }

  lemma {:induction false} BaseEnd(pools: seq<Pool>)
    requires WellFormed(pools)
    ensures Base(pools, |pools|) == |AllAddresses(pools)|
  {
    if pools != [] {
      BaseEnd(pools[1..]);
    }
  }

  /** Every position of AllAddresses lies in exactly one pool's stretch. */
  lemma {:induction false} Locate(pools: seq<Pool>, p: nat) returns (i: nat, j: nat)
    requires WellFormed(pools) && p < |AllAddresses(pools)|
    ensures i < |pools| && j <= pools[i].end - pools[i].start && p == Base(pools, i) + j
  {
    var n := |PoolAddresses(pools[0])|;
    if p < n {
      i, j := 0, p;
    } else {
      i, j := Locate(pools[1..], p - n);
      i := i + 1;
    }
  }

  lemma AllAddressesExact(pools: seq<Pool>, a: Address)
    requires WellFormed(pools)
    ensures a in AllAddresses(pools) <==> InPools(pools, a)
  {
    if InPools(pools, a) {
      var i :| 0 <= i < |pools| && pools[i].Includes(a);
      AddressAt(pools, i, a - pools[i].start);
    }
    if a in AllAddresses(pools) {
      var p :| 0 <= p < |AllAddresses(pools)| && AllAddresses(pools)[p] == a;
      var i, j := Locate(pools, p);
      AddressAt(pools, i, j);
      assert pools[i].Includes(a);
    }
  }

  ghost predicate NoRepeats(s: seq<Address>) {
    forall x, y | 0 <= x < y < |s| :: s[x] != s[y]
  }

  lemma AllAddressesDistinct(pools: seq<Pool>)
    requires WellFormed(pools) && Disjoint(pools)
    ensures NoRepeats(AllAddresses(pools))
  {
    hide AllAddresses, PoolAddresses, Base;
    var all := AllAddresses(pools);
    forall x, y | 0 <= x < y < |all|
      ensures all[x] != all[y]
    {
      var i, j := Locate(pools, x);
      var k, l := Locate(pools, y);
      AddressAt(pools, i, j);
      AddressAt(pools, k, l);
      assert pools[i].Includes(all[x]) && pools[k].Includes(all[y]);
    }
  }

  // ---------------------------------------------------------------- one pick is one step round the ring

  lemma NextPickInside(pools: seq<Pool>, i: nat, cursor: Address)
    requires Allocatable(pools) && i < |pools| && pools[i].Includes(cursor)
    ensures NextPick(pools, cursor)
            == Some(if cursor < pools[i].end then cursor + 1 else pools[Ring(i + 1, |pools|)].start)
  {
    assert !pools[i].Includes(0);
    FindPoolIs(pools, cursor, i);
  }

  lemma AddressAfter(pools: seq<Pool>, i: nat, j: nat)
    requires WellFormed(pools) && i < |pools| && j <= pools[i].end - pools[i].start
    ensures var all := AllAddresses(pools);
            && Base(pools, i) + j < |all|
            && all[Ring(Base(pools, i) + j + 1, |all|)]
               == if j < pools[i].end - pools[i].start then pools[i].start + j + 1
                  else pools[Ring(i + 1, |pools|)].start
  {
    AddressAt(pools, i, j);
    BaseNext(pools, i);
    if j < pools[i].end - pools[i].start {
      AddressAt(pools, i, j + 1);
    } else {
      AddressAt(pools, Ring(i + 1, |pools|), 0);
    }
  }

  lemma {:induction false} NextPickAdvances(pools: seq<Pool>, p: nat)
    requires Allocatable(pools) && p < |AllAddresses(pools)|
    ensures var all := AllAddresses(pools);
            NextPick(pools, all[p]) == Some(all[Ring(p + 1, |all|)])
  {
    hide AllAddresses, NextPick, Base;
    var i, j := Locate(pools, p);
    AddressAt(pools, i, j);
    AddressAfter(pools, i, j);
    NextPickInside(pools, i, AllAddresses(pools)[p]);
  }

  /** The addresses k successive picks return (fewer if one panics). */
  ghost function Picks(pools: seq<Pool>, cursor: Address, k: nat): (s: seq<Address>)
    decreases k
  {
    if k == 0 then []
    else match NextPick(pools, cursor)
      case None => []
      case Some(a) => [a] + Picks(pools, a, k - 1)
  }

  /** From ring position p on, pick x is the address x + 1 positions further. */
  lemma {:induction false} PicksFrom(pools: seq<Pool>, p: nat, k: nat, x: nat)
    requires Allocatable(pools) && p < |AllAddresses(pools)| && x < k <= |AllAddresses(pools)|
    ensures var all := AllAddresses(pools);
            && |Picks(pools, all[p], k)| == k
            && Picks(pools, all[p], k)[x] == all[if p + 1 + x < |all| then p + 1 + x else p + 1 + x - |all|]
    decreases k
  {
    hide AllAddresses, NextPick, Disjoint, InPools;
    var all := AllAddresses(pools);
    NextPickAdvances(pools, p);
    if k > 1 {
      PicksFrom(pools, Ring(p + 1, |all|), k - 1, if x > 0 then x - 1 else 0);
    }
  }

  /** Position the ring is at: the cursor's own, or just before the first. */
  lemma {:induction false} RingPosition(pools: seq<Pool>, cursor: Address) returns (p: nat)
    requires Allocatable(pools) && CursorUsable(pools, cursor)
    ensures p < |AllAddresses(pools)|
    ensures var all := AllAddresses(pools);
            NextPick(pools, cursor) == NextPick(pools, all[p])
  {
    var all := AllAddresses(pools);
    AddressAt(pools, 0, 0);
    if cursor == 0 {
      p := |all| - 1;
      NextPickAdvances(pools, p);
    } else {
      AllAddressesExact(pools, cursor);
      p :| 0 <= p < |all| && all[p] == cursor;
    }
  }

  lemma PicksAreRotation(pools: seq<Pool>, cursor: Address) returns (k: nat)
    requires Allocatable(pools) && CursorUsable(pools, cursor)
    ensures var all := AllAddresses(pools);
            k <= |all| && Picks(pools, cursor, |all|) == Rotated(all, k)
  {
    hide AllAddresses, NextPick, Disjoint, InPools;
    var all := AllAddresses(pools);
    var p := RingPosition(pools, cursor);
    var picks := Picks(pools, all[p], |all|);
    assert Picks(pools, cursor, |all|) == picks;
    PicksFrom(pools, p, |all|, 0);
    forall x | 0 <= x < |all|
      ensures picks[x] == Rotated(all, p + 1)[x]
    {
      PicksFrom(pools, p, |all|, x);
    }
    k := p + 1;
  }

  /** Round robin: as many picks as there are addresses return every pool
      address exactly once, from an unset cursor or any cursor in a pool. */
  lemma PicksVisitEveryAddressOnce(pools: seq<Pool>, cursor: Address)
    requires Allocatable(pools) && CursorUsable(pools, cursor)
    ensures var picks := Picks(pools, cursor, |AllAddresses(pools)|);
            && |picks| == |AllAddresses(pools)|
            && NoRepeats(picks)
            && (forall a: Address :: a in picks <==> InPools(pools, a))
  {
    var k := PicksAreRotation(pools, cursor);
    AllAddressesDistinct(pools);
    RotatedKeeps(AllAddresses(pools), k);
    forall a: Address
      ensures a in Picks(pools, cursor, |AllAddresses(pools)|) <==> InPools(pools, a)
    {
      AllAddressesExact(pools, a);
    }
  }

  ghost function Rotated(s: seq<Address>, k: nat): (r: seq<Address>)
    requires k <= |s|
  {
    s[k..] + s[..k]
  }

  lemma RotatedKeeps(s: seq<Address>, k: nat)
    requires k <= |s|
    ensures NoRepeats(s) ==> NoRepeats(Rotated(s, k))
    ensures forall a: Address :: a in Rotated(s, k) <==> a in s
  {
    assert s == s[..k] + s[k..];
  }

  // ---------------------------------------------------------------- Capacity()

  /** uint32 running sum of Subnet.Capacity. */
  function CapacitySum(pools: seq<Pool>): (c: Address)
    requires WellFormed(pools)
  {
    if pools == [] then 0 else AddMod32(CapacitySum(pools[..|pools| - 1]), pools[|pools| - 1].Capacity())
  }

  /** How many addresses the pools span, an address in several pools counted in each. */
  ghost function TotalSize(pools: seq<Pool>): (n: nat)
    requires WellFormed(pools)
  {
    if pools == [] then 0 else pools[0].end - pools[0].start + 1 + TotalSize(pools[1..])
  }

  lemma {:induction false} TotalSizeSnoc(pools: seq<Pool>, n: nat)
    requires WellFormed(pools) && n < |pools|
    ensures TotalSize(pools[..n + 1]) == TotalSize(pools[..n]) + (pools[n].end - pools[n].start + 1)
    decreases n
  {
    if n > 0 {
      assert pools[..n + 1][1..] == pools[1..][..n] && pools[..n][1..] == pools[1..][..n - 1];
      TotalSizeSnoc(pools[1..], n - 1);
    } else {
      assert pools[..1][1..] == [];
    }
  }

  /** The 32-bit sum is the number of addresses spanned, modulo 2^32, on any pools. */
  lemma {:induction false} CapacityIsSizeModulo(pools: seq<Pool>)
    requires WellFormed(pools)
    ensures CapacitySum(pools) == TotalSize(pools) % ADDRESS_SPACE
  {
    hide AddMod32, TotalSize;
    EmptySize();
    if pools != [] {
      var n := |pools| - 1;
      CapacityIsSizeModulo(pools[..n]);
      TotalSizeSnoc(pools, n);
      assert pools[..n + 1] == pools;
      AddModulo(TotalSize(pools[..n]), pools[n].end - pools[n].start);
    }
  }

  lemma EmptySize()
    ensures TotalSize([]) == 0
  {
  }

  lemma AddModulo(total: nat, span: Address)
    ensures AddMod32(total % ADDRESS_SPACE, AddMod32(span, 1)) == (total + (span + 1)) % ADDRESS_SPACE
  {
  }

  method SubnetCapacity(pools: seq<Pool>) returns (capacity: Address)
    requires WellFormed(pools)
    ensures capacity == CapacitySum(pools) == TotalSize(pools) % ADDRESS_SPACE
  {
    CapacityIsSizeModulo(pools);
    capacity := 0;
    var i := 0;
    while i < |pools|
      invariant 0 <= i <= |pools|
      invariant capacity == CapacitySum(pools[..i])
    {
      assert pools[..i + 1][..i] == pools[..i];
      capacity := AddMod32(capacity, pools[i].Capacity());
      i := i + 1;
    }
    assert pools[..i] == pools;
  }

  lemma {:induction false} AllAddressesSnoc(pools: seq<Pool>, last: Pool)
    requires WellFormed(pools) && last.start <= last.end
    ensures WellFormed(pools + [last])
    ensures AllAddresses(pools + [last]) == AllAddresses(pools) + PoolAddresses(last)
  {
    if pools == [] {
      assert pools + [last] == [last] && [last][1..] == [];
    } else {
      assert (pools + [last])[1..] == pools[1..] + [last];
      AllAddressesSnoc(pools[1..], last);
    }
  }

  lemma {:induction false} BoundedSetSize(s: set<int>, lo: int, hi: int)
    requires lo <= hi && forall x | x in s :: lo <= x < hi
    ensures |s| <= hi - lo
    decreases hi - lo
  {
    if lo == hi {
      assert forall x :: x !in s;
    } else {
      BoundedSetSize(s - {hi - 1}, lo, hi - 1);
    }
  }

  ghost function Elements(s: seq<Address>): (r: set<int>) {
    if s == [] then {} else Elements(s[..|s| - 1]) + {s[|s| - 1]}
  }

  lemma {:induction false} ElementsOfDistinct(s: seq<Address>, lo: int, hi: int)
    requires NoRepeats(s) && forall i | 0 <= i < |s| :: lo <= s[i] < hi
    ensures |Elements(s)| == |s|
    ensures forall x | x in Elements(s) :: lo <= x < hi && exists i | 0 <= i < |s| :: s[i] == x
  {
    if s != [] {
      ElementsOfDistinct(s[..|s| - 1], lo, hi);
    }
  }

  lemma {:induction false} AllAddressesFitBelow32Bits(pools: seq<Pool>)
    requires Allocatable(pools)
    ensures |AllAddresses(pools)| < ADDRESS_SPACE
  {
    var all := AllAddresses(pools);
    AllAddressesDistinct(pools);
    AllAddressesExact(pools, 0);
    ElementsOfDistinct(all, 1, ADDRESS_SPACE);
    BoundedSetSize(Elements(all), 1, ADDRESS_SPACE);
  }

  lemma AllocatablePrefix(pools: seq<Pool>, k: nat)
    requires Allocatable(pools) && k <= |pools|
    ensures Allocatable(pools[..k])
  {
    assert forall i | 0 <= i < k :: pools[..k][i] == pools[i];
  }

  /** The 32-bit capacity never wraps on such pools: it counts the addresses. */
  lemma {:induction false} CapacityCountsAddresses(pools: seq<Pool>)
    requires Allocatable(pools)
    ensures CapacitySum(pools) == |AllAddresses(pools)|
  {
    if pools != [] {
      var k := |pools| - 1;
      AllocatablePrefix(pools, k);
      CapacityCountsAddresses(pools[..k]);
      assert pools == pools[..k] + [pools[k]];
      AllAddressesSnoc(pools[..k], pools[k]);
      AllAddressesFitBelow32Bits(pools);
    }
  }
}
