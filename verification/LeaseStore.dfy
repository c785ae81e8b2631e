/** The in-memory lease store and its three indexes (master/lease_in_mem.go,
    master/subnet_command.go). */
module LeaseStores {
  import opened Wrappers
  import opened Pools
  import opened Leases

  datatype Store = Store(
    byIp: map<Address, Lease>,
    byMac: map<Mac, Lease>,
    byClient: map<ClientId, Lease>)

  const EMPTY: Store := Store(map[], map[], map[])

  // ---------------------------------------------------------------- operations on the three maps

  function Add(s: Store, lease: Lease): (r: Store) {
    if lease.address in s.byIp then s
    else Store(
      s.byIp[lease.address := lease],
      if lease.mac.Some? then s.byMac[lease.mac.value := lease] else s.byMac,
      if lease.clientId.Some? then s.byClient[lease.clientId.value := lease] else s.byClient)
  }

  function Delete(s: Store, subnetId: SubnetId, a: Address): (r: Store) {
    if a !in s.byIp || s.byIp[a].subnetId != subnetId then s
    else
      var lease := s.byIp[a];
      Store(
        s.byIp - {a},
        if lease.mac.Some? && lease.mac.value in s.byMac && s.byMac[lease.mac.value].address == a
        then s.byMac - {lease.mac.value} else s.byMac,
        if lease.clientId.Some? && lease.clientId.value in s.byClient
           && s.byClient[lease.clientId.value].address == a
        then s.byClient - {lease.clientId.value} else s.byClient)
  }

  function Update(s: Store, lease: Lease): (r: Store) {
    Add(Delete(s, lease.subnetId, lease.address), lease)
  }

  /** The store without the leases at the given addresses, and without every
      index entry that names one of those addresses. */
  ghost function Without(s: Store, gone: set<Address>): (r: Store) {
    Store(
      map a | a in s.byIp && a !in gone :: s.byIp[a],
      map m | m in s.byMac && s.byMac[m].address !in gone :: s.byMac[m],
      map c | c in s.byClient && s.byClient[c].address !in gone :: s.byClient[c])
  }

  ghost function OfSubnet(s: Store, subnetId: SubnetId): (r: set<Address>) {
    set a | a in s.byIp && s.byIp[a].subnetId == subnetId
  }

  ghost function OfSubnetIn(s: Store, subnetId: SubnetId, lo: int, hi: int): (r: set<Address>) {
    set a | a in s.byIp && s.byIp[a].subnetId == subnetId && lo <= a <= hi
  }

  // ---------------------------------------------------------------- invariants

  /** Leases are filed under their own address, and every MAC and client-id
      entry is the lease that is live at its own address. */
  ghost predicate Live(s: Store) {
    && (forall a | a in s.byIp :: s.byIp[a].address == a)
    && (forall m | m in s.byMac ::
          var l := s.byMac[m];
          l.mac == Some(m) && l.address in s.byIp && s.byIp[l.address] == l)
    && (forall c | c in s.byClient ::
          var l := s.byClient[c];
          l.clientId == Some(c) && l.address in s.byIp && s.byIp[l.address] == l)
  }

  /** Apart from the excepted addresses, the client-id index finds every lease
      that has a non-empty client-id. */
  ghost predicate ClientIndexed(s: Store, except: set<Address>) {
    forall a | a in s.byIp && a !in except && s.byIp[a].clientId.Some? && s.byIp[a].clientId.value != [] ::
      var c := s.byIp[a].clientId.value;
      c in s.byClient && s.byClient[c] == s.byIp[a]
  }

  /** The client-id index is the exact inverse on non-empty client-ids. */
  ghost predicate ClientExact(s: Store) {
    ClientIndexed(s, {})
  }

  lemma ClientExactMeansOneLeasePerClient(s: Store, a: Address, b: Address, c: ClientId)
    requires Live(s) && ClientExact(s)
    requires a in s.byIp && b in s.byIp && s.byIp[a].HasClientKey(c) && s.byIp[b].HasClientKey(c)
    ensures a == b
  {
    assert s.byClient[c] == s.byIp[a] && s.byClient[c] == s.byIp[b];
  }

  lemma AddKeepsLive(s: Store, lease: Lease)
    requires Live(s)
    ensures Live(Add(s, lease))
  {
  }

  lemma AddKeepsClientIndexed(s: Store, lease: Lease, except: set<Address>)
    requires Live(s) && ClientIndexed(s, except) && lease.address !in s.byIp
    requires lease.clientId.Some? && lease.clientId.value != [] && lease.clientId.value in s.byClient
             ==> s.byClient[lease.clientId.value].address in except
    ensures ClientIndexed(Add(s, lease), except)
  {
  }

  lemma WithoutKeeps(s: Store, gone: set<Address>, except: set<Address>)
    requires Live(s)
    ensures Live(Without(s, gone))
    ensures ClientIndexed(s, except) ==> ClientIndexed(Without(s, gone), except - gone)
  {
  }

  lemma DeleteIsWithout(s: Store, subnetId: SubnetId, a: Address)
    requires Live(s)
    ensures Delete(s, subnetId, a)
            == if a in s.byIp && s.byIp[a].subnetId == subnetId then Without(s, {a}) else s
  {
    if a in s.byIp && s.byIp[a].subnetId == subnetId {
      var d, w := Delete(s, subnetId, a), Without(s, {a});
      assert d.byIp == w.byIp;
      assert d.byMac == w.byMac;
      assert d.byClient == w.byClient;
    }
  }

  lemma WithoutTwice(s: Store, g: set<Address>, h: set<Address>)
    ensures Without(Without(s, g), h) == Without(s, g + h)
  {
    var l, r := Without(Without(s, g), h), Without(s, g + h);
    assert l.byIp == r.byIp && l.byMac == r.byMac && l.byClient == r.byClient;
  }

  lemma WithoutNothing(s: Store)
    ensures Without(s, {}) == s
  {
    var w := Without(s, {});
    assert w.byIp == s.byIp && w.byMac == s.byMac && w.byClient == s.byClient;
  }

  lemma DeleteKeepsLive(s: Store, subnetId: SubnetId, a: Address)
    requires Live(s)
    ensures Live(Delete(s, subnetId, a))
  {
    DeleteIsWithout(s, subnetId, a);
    WithoutKeeps(s, {a}, {});
  }

  lemma UpdateKeepsLive(s: Store, lease: Lease)
    requires Live(s)
    ensures Live(Update(s, lease))
  {
    DeleteKeepsLive(s, lease.subnetId, lease.address);
    AddKeepsLive(Delete(s, lease.subnetId, lease.address), lease);
  }

  /** DeletePool: the store without the subnet's leases from lo to hi. */
  ghost function WithoutRange(s: Store, subnetId: SubnetId, lo: int, hi: int): (r: Store) {
    Without(s, OfSubnetIn(s, subnetId, lo, hi))
  }

  lemma WithoutEmptyRange(s: Store, subnetId: SubnetId, lo: int, hi: int)
    requires hi < lo
    ensures WithoutRange(s, subnetId, lo, hi) == s
  {
    assert OfSubnetIn(s, subnetId, lo, hi) == {};
    WithoutNothing(s);
  }

  /** Deleting the addresses from lo up to but excluding ip one by one. */
  ghost function DeleteEach(s: Store, subnetId: SubnetId, lo: Address, ip: Address): (r: Store)
    decreases ip
  {
    if ip <= lo then s else Delete(DeleteEach(s, subnetId, lo, ip - 1), subnetId, ip - 1)
  }

  lemma OfSubnetInGrows(s: Store, subnetId: SubnetId, lo: Address, ip: Address)
    requires lo <= ip
    ensures OfSubnetIn(s, subnetId, lo, ip)
            == OfSubnetIn(s, subnetId, lo, ip - 1)
               + if ip in s.byIp && s.byIp[ip].subnetId == subnetId then {ip} else {}
  {
  }

  lemma DeleteNextInRange(s: Store, subnetId: SubnetId, lo: Address, ip: Address)
    requires Live(s) && lo <= ip
    ensures Delete(WithoutRange(s, subnetId, lo, ip - 1), subnetId, ip) == WithoutRange(s, subnetId, lo, ip)
  {
    var g := OfSubnetIn(s, subnetId, lo, ip - 1);
    var here := if ip in s.byIp && s.byIp[ip].subnetId == subnetId then {ip} else {};
    var w := Without(s, g);
    OfSubnetInGrows(s, subnetId, lo, ip);
    WithoutKeeps(s, g, {});
    assert ip in w.byIp <==> ip in s.byIp;
    DeleteIsWithout(w, subnetId, ip);
    WithoutNothing(w);
    WithoutTwice(s, g, here);
  }

  lemma {:induction false} DeleteEachIsWithoutRange(s: Store, subnetId: SubnetId, lo: Address, ip: Address)
    requires Live(s)
    ensures DeleteEach(s, subnetId, lo, ip) == WithoutRange(s, subnetId, lo, ip - 1)
    decreases ip
  {
    hide WithoutRange, Delete, Live;
    if ip <= lo {
      WithoutEmptyRange(s, subnetId, lo, ip - 1);
    } else {
      DeleteEachIsWithoutRange(s, subnetId, lo, ip - 1);
      DeleteNextInRange(s, subnetId, lo, ip - 1);
    }
  }

  /** What DeleteSubnet has done to an index once the leases at the seen
      addresses have been visited: it may already have dropped entries of the
      subnet whose own lease is still to come. */
  ghost predicate PartlyPurged<K>(was: map<K, Lease>, cur: map<K, Lease>, subnetId: SubnetId, seen: set<Address>) {
    && (forall k | k in cur ::
          k in was && cur[k] == was[k] && (was[k].subnetId == subnetId ==> was[k].address !in seen))
    && (forall k | k in was && was[k].subnetId != subnetId :: k in cur)
  }

  function DropOfSubnet<K>(index: map<K, Lease>, key: Option<K>, subnetId: SubnetId): (r: map<K, Lease>) {
    if key.Some? && key.value in index && index[key.value].subnetId == subnetId
    then index - {key.value} else index
  }

  lemma PurgeOne<K>(was: map<K, Lease>, cur: map<K, Lease>, subnetId: SubnetId, seen: set<Address>,
                    a: Address, key: Option<K>)
    requires PartlyPurged(was, cur, subnetId, seen)
    requires forall k | k in was && was[k].address == a :: key == Some(k)
    ensures PartlyPurged(was, DropOfSubnet(cur, key, subnetId), subnetId, seen + {a})
  {
  }

  lemma PurgeOther<K>(was: map<K, Lease>, cur: map<K, Lease>, subnetId: SubnetId, seen: set<Address>, a: Address)
    requires PartlyPurged(was, cur, subnetId, seen)
    requires forall k | k in was && was[k].address == a :: was[k].subnetId != subnetId
    ensures PartlyPurged(was, cur, subnetId, seen + {a})
  {
  }

  lemma NothingPurged<K>(was: map<K, Lease>, subnetId: SubnetId)
    ensures PartlyPurged(was, was, subnetId, {})
  {
  }

  lemma OnlyKeys(s: Store, a: Address)
    requires Live(s) && a in s.byIp
    ensures forall m | m in s.byMac && s.byMac[m].address == a :: s.byIp[a].mac == Some(m) && s.byMac[m] == s.byIp[a]
    ensures forall c | c in s.byClient && s.byClient[c].address == a ::
              s.byIp[a].clientId == Some(c) && s.byClient[c] == s.byIp[a]
    ensures s.byIp[a].address == a
  {
  }

  lemma IndexedAddresses(s: Store, id: SubnetId)
    requires Live(s)
    ensures forall m | m in s.byMac :: s.byMac[m].address in s.byIp
    ensures forall c | c in s.byClient :: s.byClient[c].address in s.byIp
    ensures forall m | m in s.byMac :: s.byMac[m].address in OfSubnet(s, id) <==> s.byMac[m].subnetId == id
    ensures forall c | c in s.byClient :: s.byClient[c].address in OfSubnet(s, id) <==> s.byClient[c].subnetId == id
  {
  }

  lemma FullyPurged<K>(was: map<K, Lease>, cur: map<K, Lease>, subnetId: SubnetId, seen: set<Address>,
                       gone: set<Address>)
    requires PartlyPurged(was, cur, subnetId, seen)
    requires forall k | k in was :: was[k].address in seen
    requires forall k | k in was :: was[k].address in gone <==> was[k].subnetId == subnetId
    ensures cur == map k | k in was && was[k].address !in gone :: was[k]
  {
  }

  // ---------------------------------------------------------------- the mutable store

  class LeaseStore {
    var byIp: map<Address, Lease>
    var byMac: map<Mac, Lease>
    var byClient: map<ClientId, Lease>

    function View(): (s: Store)
      reads this
    {
      Store(byIp, byMac, byClient)
    }

    constructor ()
      ensures View() == EMPTY
      ensures Live(View()) && ClientExact(View())
    {
      byIp, byMac, byClient := map[], map[], map[];
    }

    /** A lease found by address is on file under its own address, and every index
        entry that names the address is that lease. */
    method GetLeaseWithIp(a: Address) returns (lease: Option<Lease>)
      ensures lease == if a in byIp then Some(byIp[a]) else None
      ensures Live(View()) && lease.Some? ==> lease.value.address == a
      ensures Live(View()) ==> forall m | m in byMac && byMac[m].address == a :: lease == Some(byMac[m])
      ensures Live(View()) ==> forall c | c in byClient && byClient[c].address == a :: lease == Some(byClient[c])
    {
      lease := if a in byIp then Some(byIp[a]) else None;
    }

    /** A lease found by MAC is the one live at its address, and carries that MAC. */
    method GetLeaseWithMac(m: Mac) returns (lease: Option<Lease>)
      ensures lease == if m in byMac then Some(byMac[m]) else None
      ensures Live(View()) && lease.Some? ==>
                && lease.value.mac == Some(m)
                && lease.value.address in byIp && byIp[lease.value.address] == lease.value
    {
      lease := if m in byMac then Some(byMac[m]) else None;
    }

    /** A lease found by client-id is the one live at its address, and carries that
        client-id; while the index is exact, it is the only such lease, and none is
        found only when there is none. */
    method GetLeaseWithClient(c: ClientId) returns (lease: Option<Lease>)
      ensures lease == if c in byClient then Some(byClient[c]) else None
      ensures Live(View()) && lease.Some? ==>
                && lease.value.clientId == Some(c)
                && lease.value.address in byIp && byIp[lease.value.address] == lease.value
      ensures Live(View()) && ClientExact(View()) && c != [] ==>
                forall a | a in byIp :: byIp[a].clientId == Some(c) <==> lease == Some(byIp[a])
    {
      lease := if c in byClient then Some(byClient[c]) else None;
    }

    method AddLease(lease: Lease) returns (ok: bool)
      requires Live(View())
      modifies this
      ensures ok <==> lease.address !in old(byIp)
      ensures View() == Add(old(View()), lease) && Live(View())
    {
      AddKeepsLive(View(), lease);
      ok := lease.address !in byIp;
      if ok {
        byIp := byIp[lease.address := lease];
        if lease.mac.Some? {
          byMac := byMac[lease.mac.value := lease];
        }
        if lease.clientId.Some? {
          byClient := byClient[lease.clientId.value := lease];
        }
      }
    }

    method DeleteLease(subnetId: SubnetId, a: Address)
      requires Live(View())
      modifies this
      ensures View() == Delete(old(View()), subnetId, a) && Live(View())
    {
      DeleteKeepsLive(View(), subnetId, a);
      if a in byIp && byIp[a].subnetId == subnetId {
        var lease := byIp[a];
        byIp := byIp - {a};
        if lease.mac.Some? && lease.mac.value in byMac && byMac[lease.mac.value].address == a {
          byMac := byMac - {lease.mac.value};
        }
        if lease.clientId.Some? && lease.clientId.value in byClient
           && byClient[lease.clientId.value].address == a {
          byClient := byClient - {lease.clientId.value};
        }
      }
    }

    method UpdateLease(lease: Lease) returns (ok: bool)
      requires Live(View())
      modifies this
      ensures ok <==> lease.address !in old(byIp) || old(byIp)[lease.address].subnetId == lease.subnetId
      ensures View() == Update(old(View()), lease) && Live(View())
    {
      DeleteLease(lease.subnetId, lease.address);
      ok := AddLease(lease);
    }

    /** The loop's 32-bit counter passes every End below the top address; a
        pool ending at the top address would never leave it. */
    method DeletePool(subnetId: SubnetId, pool: Pool)
      requires Live(View())
      requires pool.end < ADDRESS_SPACE - 1
      modifies this
      ensures View() == WithoutRange(old(View()), subnetId, pool.start, pool.end)
      ensures Live(View())
    {
      ghost var was := View();
      var ip: Address := pool.start;
      while ip <= pool.end
        invariant pool.start <= ip && (ip <= pool.end + 1 || ip == pool.start)
        invariant Live(View())
        invariant View() == DeleteEach(was, subnetId, pool.start, ip)
      {
        DeleteLease(subnetId, ip);
        ip := ip + 1;
      }
      DeleteEachIsWithoutRange(was, subnetId, pool.start, ip);
      if pool.end < pool.start {
        WithoutEmptyRange(was, subnetId, pool.start, pool.end);
      }
    }

    /** Index entries are dropped by subnet here, not by address as in
        DeleteLease; the leases are visited in any order. */
    method DeleteSubnet(subnetId: SubnetId)
      requires Live(View())
      modifies this
      ensures View() == Without(old(View()), OfSubnet(old(View()), subnetId))
      ensures Live(View())
    {
      hide Live, PartlyPurged;
      ghost var was := View();
      NothingPurged(was.byMac, subnetId);
      NothingPurged(was.byClient, subnetId);
      var todo := byIp.Keys;
      ghost var seen: set<Address> := {};
      while todo != {}
        invariant seen !! todo && seen + todo == was.byIp.Keys
        invariant byIp == map a | a in was.byIp && !(a in seen && was.byIp[a].subnetId == subnetId) :: was.byIp[a]
        invariant PartlyPurged(was.byMac, byMac, subnetId, seen)
        invariant PartlyPurged(was.byClient, byClient, subnetId, seen)
        decreases todo
      {
        var a :| a in todo;
        todo := todo - {a};
        seen := seen + {a};
        OnlyKeys(was, a);
        var lease := byIp[a];
        if lease.subnetId == subnetId {
          PurgeOne(was.byMac, byMac, subnetId, seen - {a}, a, lease.mac);
          PurgeOne(was.byClient, byClient, subnetId, seen - {a}, a, lease.clientId);
          byIp := byIp - {lease.address};
          byMac := DropOfSubnet(byMac, lease.mac, subnetId);
          byClient := DropOfSubnet(byClient, lease.clientId, subnetId);
        } else {
          PurgeOther(was.byMac, byMac, subnetId, seen - {a}, a);
          PurgeOther(was.byClient, byClient, subnetId, seen - {a}, a);
        }
        assert seen - {a} + {a} == seen;
      }
      ghost var gone := OfSubnet(was, subnetId);
      IndexedAddresses(was, subnetId);
      FullyPurged(was.byMac, byMac, subnetId, seen, gone);
      FullyPurged(was.byClient, byClient, subnetId, seen, gone);
      WithoutKeeps(was, gone, {});
    }
  }
}
