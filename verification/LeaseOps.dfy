/** The mutations a lease manager performs, their effect on the memory store,
    and the manager that applies each one to memory and then queues it for the
    database (master/hybrid_lease_manager.go, master/lease_db_pool.go). */
module LeaseOps {
  import opened Wrappers
  import opened Pools
  import opened Leases
  import opened LeaseStores

  datatype LeaseOp =
    | AddOp(lease: Lease)
    | UpdateOp(lease: Lease)
    | DeleteOp(subnetId: SubnetId, address: Address)
    | DeletePoolOp(subnetId: SubnetId, pool: Pool)
    | DeleteSubnetOp(subnetId: SubnetId)
  {
    /** The subnet whose worker the operation is routed to. */
    function Subnet(): SubnetId {
      match this
      case AddOp(l) => l.subnetId
      case UpdateOp(l) => l.subnetId
      case DeleteOp(id, _) => id
      case DeletePoolOp(id, _) => id
      case DeleteSubnetOp(id) => id
    }
  }

  ghost function Apply(s: Store, op: LeaseOp): (r: Store) {
    match op
    case AddOp(l) => Add(s, l)
    case UpdateOp(l) => Update(s, l)
    case DeleteOp(id, a) => Delete(s, id, a)
    case DeletePoolOp(id, p) => WithoutRange(s, id, p.start, p.end)
    case DeleteSubnetOp(id) => Without(s, OfSubnet(s, id))
  }

  /** The memory store reports no error, so the operation is also queued. */
  ghost predicate Accepted(s: Store, op: LeaseOp) {
    match op
    case AddOp(l) => l.address !in s.byIp
    case UpdateOp(l) => l.address !in s.byIp || s.byIp[l.address].subnetId == l.subnetId
    case _ => true
  }

  ghost function ApplyAll(s: Store, ops: seq<LeaseOp>): (r: Store)
    decreases |ops|
  {
    if ops == [] then s else ApplyAll(Apply(s, ops[0]), ops[1..])
  }

  ghost predicate AllAccepted(s: Store, ops: seq<LeaseOp>)
    decreases |ops|
  {
    ops == [] || (Accepted(s, ops[0]) && AllAccepted(Apply(s, ops[0]), ops[1..]))
  }

  lemma ApplyKeepsLive(s: Store, op: LeaseOp)
    requires Live(s)
    ensures Live(Apply(s, op))
  {
    match op
    case AddOp(l) => AddKeepsLive(s, l);
    case UpdateOp(l) => UpdateKeepsLive(s, l);
    case DeleteOp(id, a) => DeleteKeepsLive(s, id, a);
    case DeletePoolOp(id, p) => WithoutKeeps(s, OfSubnetIn(s, id, p.start, p.end), {});
    case DeleteSubnetOp(id) => WithoutKeeps(s, OfSubnet(s, id), {});
  }

  /** No sequence of store operations, however mixed, breaks the store's index
      entries: each still points at the lease live at its own address. */
  lemma {:induction false} ApplyAllKeepsLive(s: Store, ops: seq<LeaseOp>)
    requires Live(s)
    ensures Live(ApplyAll(s, ops))
    decreases |ops|
  {
    if ops != [] {
      ApplyKeepsLive(s, ops[0]);
      ApplyAllKeepsLive(Apply(s, ops[0]), ops[1..]);
    }
  }

  /** No two addresses have leases with the same non-empty client-id. */
  ghost predicate OneLeasePerClient(s: Store) {
    forall a, b | a in s.byIp && b in s.byIp && s.byIp[a].clientId.Some? && s.byIp[a].clientId.value != []
                  && s.byIp[a].clientId == s.byIp[b].clientId :: a == b
  }

  /** The store by itself does not keep client-ids unique: two leases filed under one
      client-id are both accepted, and deleting the second then leaves the first with
      no index entry. */
  lemma StoreAloneDoesNotKeepClientExact() returns (two: seq<LeaseOp>, lost: seq<LeaseOp>)
    ensures AllAccepted(EMPTY, two) && Live(ApplyAll(EMPTY, two)) && !OneLeasePerClient(ApplyAll(EMPTY, two))
    ensures AllAccepted(EMPTY, lost) && Live(ApplyAll(EMPTY, lost)) && !ClientExact(ApplyAll(EMPTY, lost))
  {
    var l1 := Lease(1, Normal, 10, Some([7]), 1, 0, "", None, 0, 0);
    var l2 := l1.(address := 2);
    two, lost := [AddOp(l1), AddOp(l2)], [AddOp(l1), AddOp(l2), DeleteOp(1, 2)];
    var s1 := Apply(EMPTY, AddOp(l1));
    var s2 := Apply(s1, AddOp(l2));
    var s3 := Apply(s2, DeleteOp(1, 2));
    assert two[1..] == [AddOp(l2)] && two[1..][1..] == [];
    assert ApplyAll(EMPTY, two) == ApplyAll(s1, two[1..]) == s2;
    assert s2.byIp[1] == l1 && s2.byIp[2] == l2;
    assert AllAccepted(s1, two[1..]);
    assert lost[1..] == [AddOp(l2), DeleteOp(1, 2)] && lost[1..][1..] == [DeleteOp(1, 2)] && lost[1..][1..][1..] == [];
    assert ApplyAll(EMPTY, lost) == ApplyAll(s1, lost[1..]) == ApplyAll(s2, [DeleteOp(1, 2)]) == s3;
    assert AllAccepted(s2, [DeleteOp(1, 2)]);
    assert AllAccepted(s1, lost[1..]);
    ApplyAllKeepsLive(EMPTY, two);
    ApplyAllKeepsLive(EMPTY, lost);
    assert 1 in s3.byIp && s3.byIp[1] == l1 && [7] !in s3.byClient;
  }

  /** The operation files a lease under a non-empty client-id that is on file at
      another address. */
  predicate ClientHeldElsewhere(s: Store, op: LeaseOp) {
    && (op.AddOp? || op.UpdateOp?)
    && op.lease.clientId.Some? && op.lease.clientId.value != [] && op.lease.clientId.value in s.byClient
    && s.byClient[op.lease.clientId.value].address != op.lease.address
  }

  /** From an exact index, exactly which operations keep it exact, and exactly which
      keep one lease per client-id. */
  lemma ApplyKeepsClientExactIff(s: Store, op: LeaseOp)
    requires Live(s) && ClientExact(s) && Accepted(s, op)
    ensures ClientExact(Apply(s, op)) <==> !ClientHeldElsewhere(s, op)
    ensures OneLeasePerClient(Apply(s, op)) <==> !ClientHeldElsewhere(s, op)
  {
    hide Live, ClientIndexed, OneLeasePerClient, Apply;
    ApplyExactIff(s, op);
    ApplyKeepsLive(s, op);
    if ClientHeldElsewhere(s, op) {
      HeldTwice(s, op);
    } else {
      ExactIsOnePerClient(Apply(s, op));
    }
  }

  lemma ExactIsOnePerClient(s: Store)
    requires Live(s) && ClientExact(s)
    ensures OneLeasePerClient(s)
  {
  }

  lemma HeldTwice(s: Store, op: LeaseOp)
    requires Live(s) && Accepted(s, op) && ClientHeldElsewhere(s, op)
    ensures !OneLeasePerClient(Apply(s, op))
  {
    var r, l := Apply(s, op), op.lease;
    var x := s.byClient[l.clientId.value].address;
    assert x in r.byIp && r.byIp[x].clientId == l.clientId;
    assert l.address in r.byIp && r.byIp[l.address] == l;
  }

  lemma ApplyExactIff(s: Store, op: LeaseOp)
    requires Live(s) && ClientExact(s) && Accepted(s, op)
    ensures ClientExact(Apply(s, op)) <==> !ClientHeldElsewhere(s, op)
  {
    hide Live, ClientIndexed;
    match op
    case AddOp(l) => AddKeepsClientExactIff(s, l);
    case UpdateOp(l) => UpdateKeepsClientExactIff(s, l);
    case DeleteOp(id, a) =>
      DeleteIsWithout(s, id, a);
      WithoutKeepsClientExact(s, {a});
    case DeletePoolOp(id, p) => WithoutKeepsClientExact(s, OfSubnetIn(s, id, p.start, p.end));
    case DeleteSubnetOp(id) => WithoutKeepsClientExact(s, OfSubnet(s, id));
  }

  lemma AddKeepsClientExactIff(s: Store, l: Lease)
    requires Live(s) && ClientExact(s) && l.address !in s.byIp
    ensures ClientExact(Add(s, l)) <==> !ClientHeldElsewhere(s, AddOp(l))
  {
    var r := Add(s, l);
    if ClientHeldElsewhere(s, AddOp(l)) {
      var x := s.byClient[l.clientId.value].address;
      assert x in r.byIp && r.byIp[x].clientId == l.clientId && r.byClient[l.clientId.value] == l;
    }
  }

  lemma UpdateKeepsClientExactIff(s: Store, l: Lease)
    requires Live(s) && ClientExact(s) && Accepted(s, UpdateOp(l))
    ensures ClientExact(Update(s, l)) <==> !ClientHeldElsewhere(s, UpdateOp(l))
  {
    hide Live, ClientIndexed;
    var t := Delete(s, l.subnetId, l.address);
    DeleteIsWithout(s, l.subnetId, l.address);
    WithoutKeepsClientExact(s, {l.address});
    DeleteKeepsLive(s, l.subnetId, l.address);
    AddKeepsClientExactIff(t, l);
    HeldAfterDelete(s, l);
  }

  lemma WithoutKeepsClientExact(s: Store, gone: set<Address>)
    requires Live(s) && ClientExact(s)
    ensures ClientExact(Without(s, gone))
  {
    WithoutKeeps(s, gone, {});
    assert {} - gone == {};
  }

  lemma HeldAfterDelete(s: Store, l: Lease)
    requires Live(s)
    ensures ClientHeldElsewhere(Delete(s, l.subnetId, l.address), AddOp(l)) <==> ClientHeldElsewhere(s, UpdateOp(l))
  {
  }

  /** No sequence of accepted operations breaks the index while none of them files a
      client-id held elsewhere. */
  lemma {:induction false} ApplyAllKeepsClientExact(s: Store, ops: seq<LeaseOp>)
    requires Live(s) && ClientExact(s) && AllAccepted(s, ops) && NeverHeldElsewhere(s, ops)
    ensures ClientExact(ApplyAll(s, ops))
    decreases |ops|
  {
    hide Live, ClientIndexed, Apply;
    if ops != [] {
      ApplyKeepsLive(s, ops[0]);
      ApplyKeepsClientExactIff(s, ops[0]);
      ApplyAllKeepsClientExact(Apply(s, ops[0]), ops[1..]);
    }
  }

  ghost predicate NeverHeldElsewhere(s: Store, ops: seq<LeaseOp>)
    decreases |ops|
  {
    ops == [] || (!ClientHeldElsewhere(s, ops[0]) && NeverHeldElsewhere(Apply(s, ops[0]), ops[1..]))
  }

  // ---------------------------------------------------------------- HybridLeaseManager

  class HybridLeaseManager {
    const mem: LeaseStore
    var log: seq<LeaseOp>

    constructor (mem: LeaseStore)
      ensures this.mem == mem && log == []
    {
      this.mem, log := mem, [];
    }

    method AddLease(lease: Lease) returns (ok: bool)
      requires Live(mem.View())
      modifies this, mem
      ensures ok <==> Accepted(old(mem.View()), AddOp(lease))
      ensures mem.View() == Apply(old(mem.View()), AddOp(lease)) && Live(mem.View())
      ensures log == old(log) + if ok then [AddOp(lease)] else []
    {
      ok := mem.AddLease(lease);
      if ok {
        log := log + [AddOp(lease)];
      }
    }

    method UpdateLease(lease: Lease) returns (ok: bool)
      requires Live(mem.View())
      modifies this, mem
      ensures ok <==> Accepted(old(mem.View()), UpdateOp(lease))
      ensures mem.View() == Apply(old(mem.View()), UpdateOp(lease)) && Live(mem.View())
      ensures log == old(log) + if ok then [UpdateOp(lease)] else []
    {
      ok := mem.UpdateLease(lease);
      if ok {
        log := log + [UpdateOp(lease)];
      }
    }

    method DeleteLease(subnetId: SubnetId, a: Address)
      requires Live(mem.View())
      modifies this, mem
      ensures mem.View() == Apply(old(mem.View()), DeleteOp(subnetId, a)) && Live(mem.View())
      ensures log == old(log) + [DeleteOp(subnetId, a)]
    {
      mem.DeleteLease(subnetId, a);
      log := log + [DeleteOp(subnetId, a)];
    }

    method DeletePool(subnetId: SubnetId, pool: Pool)
      requires Live(mem.View()) && pool.end < ADDRESS_SPACE - 1
      modifies this, mem
      ensures mem.View() == Apply(old(mem.View()), DeletePoolOp(subnetId, pool)) && Live(mem.View())
      ensures log == old(log) + [DeletePoolOp(subnetId, pool)]
    {
      mem.DeletePool(subnetId, pool);
      log := log + [DeletePoolOp(subnetId, pool)];
    }

    method DeleteSubnet(subnetId: SubnetId)
      requires Live(mem.View())
      modifies this, mem
      ensures mem.View() == Apply(old(mem.View()), DeleteSubnetOp(subnetId)) && Live(mem.View())
      ensures log == old(log) + [DeleteSubnetOp(subnetId)]
    {
      mem.DeleteSubnet(subnetId);
      log := log + [DeleteSubnetOp(subnetId)];
    }
  }
}
