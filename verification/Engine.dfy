/** The allocation engine of one subnet (master/engine.go). Each operation is
    given first as a function from the engine's value to its reply and the
    store operations it performs, then as the method that carries it out. One
    reading of the clock, `now`, serves a whole operation. */
module Engine {
  import opened Wrappers
  import opened Pools
  import opened Leases
  import opened LeaseStores
  import opened LeaseOps

  datatype EngineError =
    | NoAddressLeft
    | WantUsedAddress
    | WantReservedAddress
    | RequestWithoutTarget
    | ReleaseOthersAddr
    | ReleaseNotExistAddr
    | DeclineOthersAddr
    | DeclineNotExistAddr
    | NotWantReservedAddr
    | WantAddressInOtherSubnet

  datatype Reply =
    | Granted(lease: Lease)
    | Refused(error: EngineError)
    | Done
    | Panic

  /** What an operation answers, does to the store, and leaves as the cursor. */
  datatype Outcome = Outcome(reply: Reply, ops: seq<LeaseOp>, cursor: Address)

  datatype EngineState = EngineState(
    subnet: Subnet,
    hosts: map<Mac, Address>,
    store: Store,
    cursor: Address)

  // ---------------------------------------------------------------- lookups

  function FindOldLease(s: Store, ctx: Context): (r: Option<Lease>) {
    var key := ctx.ClientKey();
    if key != [] && key in s.byClient then Some(s.byClient[key])
    else if ctx.mac.Some? && ctx.mac.value in s.byMac then Some(s.byMac[ctx.mac.value])
    else None
  }

  function HostFor(hosts: map<Mac, Address>, mac: Option<Mac>): (r: Option<Address>) {
    if mac.Some? && mac.value in hosts then Some(hosts[mac.value]) else None
  }

  /** An address is reserved when some other host owns it, or when no host
      does and it lies in a reserved pool. */
  predicate AddressIsReserved(subnet: Subnet, hosts: map<Mac, Address>, a: Address, mac: Option<Mac>) {
    if exists m | m in hosts :: hosts[m] == a then HostFor(hosts, mac) != Some(a)
    else InPools(subnet.reservedPools, a)
  }

  // ---------------------------------------------------------------- building leases

  function RenewedLease(subnet: Subnet, lease: Lease, ctx: Context, now: int): (r: Lease) {
    lease.(subnetId := subnet.id, mac := ctx.mac, state := Normal, clientId := ctx.clientId,
      lastTransaction := now, renewTime := subnet.renewTime, rebindTime := subnet.rebindTime,
      validLifetime := subnet.validLifetime, hostName := ctx.hostName)
  }

  function NewLease(subnet: Subnet, a: Address, ctx: Context, now: int): (r: Lease) {
    Lease(a, Normal, subnet.validLifetime, ctx.clientId, ctx.subnetId, now, ctx.hostName, ctx.mac,
      subnet.renewTime, subnet.rebindTime)
  }

  function ConflictLease(subnet: Subnet, a: Address, ctx: Context, now: int): (r: Lease) {
    Lease(a, Declined, subnet.validLifetime, None, ctx.subnetId, now, ctx.hostName, None,
      subnet.renewTime, subnet.rebindTime)
  }

  // ---------------------------------------------------------------- operations

  /** Only a REQUEST is written to the store; a DISCOVER is a dry run. */
  function RenewOps(lease: Lease, ctx: Context): (ops: seq<LeaseOp>) {
    if ctx.requestType.Request? then [UpdateOp(lease)] else []
  }

  datatype Allocation = Allocation(lease: Lease, ops: seq<LeaseOp>)

  function AllocateAt(subnet: Subnet, s: Store, a: Address, ctx: Context, now: int)
    : (r: Result<Allocation, EngineError>)
  {
    if a !in s.byIp then
      var l := NewLease(subnet, a, ctx, now);
      Ok(Allocation(l, if ctx.requestType.Request? then [AddOp(l)] else []))
    else if !s.byIp[a].IsExpired(now) then Err(WantUsedAddress)
    else
      var l := RenewedLease(subnet, s.byIp[a], ctx, now);
      Ok(Allocation(l, RenewOps(l, ctx)))
  }

  /** The address can be handed to this client now: not reserved against it,
      and under no unexpired lease. */
  predicate Free(e: EngineState, a: Address, ctx: Context, now: int) {
    && !AddressIsReserved(e.subnet, e.hosts, a, ctx.mac)
    && (a in e.store.byIp ==> e.store.byIp[a].IsExpired(now))
  }

  /** allocateUnreservedLease with n picks left. */
  function Search(e: EngineState, ctx: Context, now: int, n: nat, cursor: Address): (r: Outcome)
    decreases n
  {
    if n == 0 then Outcome(Refused(NoAddressLeft), [], cursor)
    else match NextPick(e.subnet.pools, cursor)
      case None => Outcome(Panic, [], cursor)
      case Some(a) =>
        if AddressIsReserved(e.subnet, e.hosts, a, ctx.mac) then Search(e, ctx, now, n - 1, a)
        else match AllocateAt(e.subnet, e.store, a, ctx, now)
          case Err(_) => Search(e, ctx, now, n - 1, a)
          case Ok(alloc) => Outcome(Granted(alloc.lease), alloc.ops, a)
  }

  function PlanLease(e: EngineState, ctx: Context, now: int): (r: Outcome)
    requires WellFormed(e.subnet.pools) && ctx.requestType.Discover?
  {
    var held := FindOldLease(e.store, ctx);
    var host := HostFor(e.hosts, ctx.mac);
    var want := ctx.requestAddr;
    if host.Some? && held.Some? && held.value.address == host.value then
      Outcome(Granted(RenewedLease(e.subnet, held.value, ctx, now)), [], e.cursor)
    else if host.Some? && AllocateAt(e.subnet, e.store, host.value, ctx, now).Ok? then
      Outcome(Granted(AllocateAt(e.subnet, e.store, host.value, ctx, now).value.lease), [], e.cursor)
    else if held.Some? then
      Outcome(Granted(RenewedLease(e.subnet, held.value, ctx, now)), [], e.cursor)
    else if want.Some? && InPools(e.subnet.pools, want.value)
            && !AddressIsReserved(e.subnet, e.hosts, want.value, ctx.mac)
            && AllocateAt(e.subnet, e.store, want.value, ctx, now).Ok? then
      Outcome(Granted(AllocateAt(e.subnet, e.store, want.value, ctx, now).value.lease), [], e.cursor)
    else
      Search(e, ctx, now, CapacitySum(e.subnet.pools), e.cursor)
  }

  function AllocateLease(e: EngineState, ctx: Context, now: int): (r: Outcome)
    requires ctx.requestType.Request?
  {
    if ctx.requestAddr.None? then Outcome(Refused(RequestWithoutTarget), [], e.cursor)
    else
      var want := ctx.requestAddr.value;
      var host := HostFor(e.hosts, ctx.mac);
      var held := FindOldLease(e.store, ctx);
      if AddressIsReserved(e.subnet, e.hosts, want, ctx.mac) then
        Outcome(Refused(WantReservedAddress), [], e.cursor)
      else if PrefersReservation(e.store, host, want, ctx, now) then
        Outcome(Refused(NotWantReservedAddr), [], e.cursor)
      else if held.Some? && held.value.address == want then
        var l := RenewedLease(e.subnet, held.value, ctx, now);
        Outcome(Granted(l), [UpdateOp(l)], e.cursor)
      else if host.None? && !InPools(e.subnet.pools, want) then
        Outcome(Refused(WantAddressInOtherSubnet), [], e.cursor)
      else match AllocateAt(e.subnet, e.store, want, ctx, now)
        case Err(err) => Outcome(Refused(err), [], e.cursor)
        case Ok(alloc) => Outcome(Granted(alloc.lease), alloc.ops + MoveOps(held, alloc.lease), e.cursor)
  }

  /** A client that moves gives its former address back. */
  function MoveOps(held: Option<Lease>, lease: Lease): (ops: seq<LeaseOp>) {
    if held.Some? && held.value.address != lease.address
    then [DeleteOp(held.value.subnetId, held.value.address)] else []
  }

  /** The client has a reservation elsewhere that it could use right now. */
  predicate PrefersReservation(s: Store, host: Option<Address>, want: Address, ctx: Context, now: int) {
    host.Some? && host.value != want
    && (host.value !in s.byIp || s.byIp[host.value].IsExpired(now) || s.byIp[host.value].mac == ctx.mac)
  }

  function ReleaseLease(e: EngineState, ctx: Context): (r: Outcome) {
    var held := FindOldLease(e.store, ctx);
    if held.None? then Outcome(Refused(ReleaseNotExistAddr), [], e.cursor)
    else if Some(held.value.address) != ctx.requestAddr then Outcome(Refused(ReleaseOthersAddr), [], e.cursor)
    else Outcome(Done, [DeleteOp(held.value.subnetId, held.value.address)], e.cursor)
  }

  function DeclineLease(e: EngineState, ctx: Context, now: int): (r: Outcome) {
    var held := FindOldLease(e.store, ctx);
    if held.None? then Outcome(Refused(DeclineNotExistAddr), [], e.cursor)
    else if Some(held.value.address) != ctx.requestAddr then Outcome(Refused(DeclineOthersAddr), [], e.cursor)
    else Outcome(Done, [UpdateOp(held.value.Decline(now))], e.cursor)
  }

  function DeclineConflictIp(e: EngineState, ctx: Context, now: int): (r: Outcome)
    requires ctx.requestAddr.Some?
  {
    var a := ctx.requestAddr.value;
    if a in e.store.byIp then Outcome(Done, [UpdateOp(e.store.byIp[a].Decline(now))], e.cursor)
    else Outcome(Done, [AddOp(ConflictLease(e.subnet, a, ctx, now))], e.cursor)
  }

  // ---------------------------------------------------------------- the engine object

  ghost predicate OwnLeases(s: Store, id: SubnetId) {
    forall a | a in s.byIp :: s.byIp[a].subnetId == id
  }

  ghost predicate StateValid(e: EngineState) {
    && WellFormed(e.subnet.pools)
    && Live(e.store)
    && OwnLeases(e.store, e.subnet.id)
  }

  lemma FoundLeaseIsLive(s: Store, ctx: Context)
    requires Live(s)
    ensures var held := FindOldLease(s, ctx);
            held.Some? ==>
              && held.value.address in s.byIp && s.byIp[held.value.address] == held.value
              && ctx.Presents(held.value)
  {
  }

  lemma ApplyOne(s: Store, op: LeaseOp)
    ensures ApplyAll(s, [op]) == Apply(s, op)
  {
    assert ApplyAll(Apply(s, op), [op][1..]) == Apply(s, op);
  }

  lemma {:induction false} ApplyAllAppend(s: Store, ops: seq<LeaseOp>, more: seq<LeaseOp>)
    ensures ApplyAll(s, ops + more) == ApplyAll(ApplyAll(s, ops), more)
    decreases |ops|
  {
    if ops == [] {
      assert ops + more == more;
    } else {
      assert (ops + more)[1..] == ops[1..] + more;
      ApplyAllAppend(Apply(s, ops[0]), ops[1..], more);
    }
  }

  lemma ApplyKeepsOwn(s: Store, op: LeaseOp, id: SubnetId)
    requires Live(s) && OwnLeases(s, id) && op.Subnet() == id
    ensures Live(Apply(s, op)) && OwnLeases(Apply(s, op), id)
  {
    ApplyKeepsLive(s, op);
  }

  ghost predicate DistinctReservations(hosts: map<Mac, Address>) {
    forall m, n | m in hosts && n in hosts && hosts[m] == hosts[n] :: m == n
  }

  class SubnetEngine {
    const manager: HybridLeaseManager
    const allocator: IterativeAllocator
    var subnet: Subnet
    var hosts: map<Mac, Address>

    ghost function View(): (e: EngineState)
      reads this, manager.mem, allocator
    {
      EngineState(subnet, hosts, manager.mem.View(), allocator.cursor)
    }

    ghost predicate Valid()
      reads this, manager.mem, allocator
    {
      StateValid(View()) && DistinctReservations(hosts)
    }

    constructor (subnet: Subnet, manager: HybridLeaseManager, hosts: map<Mac, Address>)
      ensures View() == EngineState(subnet, hosts, manager.mem.View(), 0)
      ensures this.manager == manager && fresh(allocator)
    {
      this.subnet, this.hosts, this.manager := subnet, hosts, manager;
      allocator := new IterativeAllocator();
    }

    method FindOld(ctx: Context) returns (held: Option<Lease>)
      ensures held == FindOldLease(manager.mem.View(), ctx)
    {
      if ctx.ClientKey() != [] {
        held := manager.mem.GetLeaseWithClient(ctx.ClientKey());
        if held.Some? {
          return;
        }
      }
      if ctx.mac.Some? {
        held := manager.mem.GetLeaseWithMac(ctx.mac.value);
      } else {
        held := None;
      }
    }

    /** The hosts are visited in any order. */
    method GetHostWithIp(a: Address) returns (host: Option<Mac>)
      ensures host.Some? <==> exists m | m in hosts :: hosts[m] == a
      ensures host.Some? ==> host.value in hosts && hosts[host.value] == a
    {
      var todo := hosts.Keys;
      while todo != {}
        invariant todo <= hosts.Keys
        invariant forall m | m in hosts && m !in todo :: hosts[m] != a
        decreases todo
      {
        var m :| m in todo;
        if hosts[m] == a {
          return Some(m);
        }
        todo := todo - {m};
      }
      return None;
    }

    method IsReserved(a: Address, mac: Option<Mac>) returns (r: bool)
      requires DistinctReservations(hosts)
      ensures r == AddressIsReserved(subnet, hosts, a, mac)
      ensures r <==> || (exists m | m in hosts :: hosts[m] == a && mac != Some(m))
                     || ((forall m | m in hosts :: hosts[m] != a)
                         && exists p | p in subnet.reservedPools :: p.start <= a <= p.end)
    {
      var host := GetHostWithIp(a);
      if host.Some? {
        return mac != host;
      }
      var pool := GetPoolIncludeAddr(subnet.reservedPools, a);
      r := pool.Some?;
    }

    method Renew(lease: Lease, ctx: Context, now: int) returns (newLease: Lease)
      requires Valid() && lease.address in manager.mem.byIp
      modifies manager, manager.mem
      ensures newLease == RenewedLease(subnet, lease, ctx, now)
      ensures newLease == Lease(lease.address, Normal, subnet.validLifetime, ctx.clientId, subnet.id, now, ctx.hostName,
                                ctx.mac, subnet.renewTime, subnet.rebindTime)
      ensures manager.mem.View() == ApplyAll(old(manager.mem.View()), RenewOps(newLease, ctx))
      ensures manager.log == old(manager.log) + RenewOps(newLease, ctx)
      ensures Valid()
    {
      newLease := RenewedLease(subnet, lease, ctx, now);
      if ctx.requestType.Request? {
        ApplyOne(manager.mem.View(), UpdateOp(newLease));
        ApplyKeepsOwn(manager.mem.View(), UpdateOp(newLease), subnet.id);
        var _ := manager.UpdateLease(newLease);
      }
    }

    method AllocateWithAddr(a: Address, ctx: Context, now: int) returns (r: Result<Lease, EngineError>)
      requires Valid() && ctx.subnetId == subnet.id
      modifies manager, manager.mem
      ensures var alloc := AllocateAt(subnet, old(manager.mem.View()), a, ctx, now);
              var ops := if alloc.Ok? then alloc.value.ops else [];
              && r == (if alloc.Ok? then Ok(alloc.value.lease) else Err(alloc.error))
              && manager.mem.View() == ApplyAll(old(manager.mem.View()), ops)
              && manager.log == old(manager.log) + ops
      ensures var held := old(manager.mem.View().byIp);
              if a in held && now <= held[a].lastTransaction + held[a].validLifetime then r == Err(WantUsedAddress)
              else r == Ok(Lease(a, Normal, subnet.validLifetime, ctx.clientId, subnet.id, now, ctx.hostName, ctx.mac,
                                 subnet.renewTime, subnet.rebindTime))
      ensures Valid()
    {
      var held := manager.mem.GetLeaseWithIp(a);
      if held.None? {
        var l := NewLease(subnet, a, ctx, now);
        if ctx.requestType.Request? {
          ApplyOne(manager.mem.View(), AddOp(l));
          ApplyKeepsOwn(manager.mem.View(), AddOp(l), subnet.id);
          var _ := manager.AddLease(l);
        }
        return Ok(l);
      }
      if !held.value.IsExpired(now) {
        return Err(WantUsedAddress);
      }
      var l := Renew(held.value, ctx, now);
      r := Ok(l);
    }

    method AllocateUnreserved(ctx: Context, now: int) returns (reply: Reply)
      requires Valid() && ctx.subnetId == subnet.id && ctx.requestType.Discover?
      requires subnet.pools == [] || CursorUsable(subnet.pools, allocator.cursor)
      modifies allocator, manager, manager.mem
      ensures var o := Search(old(View()), ctx, now, CapacitySum(subnet.pools), old(allocator.cursor));
              reply == o.reply && View() == old(View()).(cursor := o.cursor)
      ensures manager.log == old(manager.log)
      ensures subnet.pools == [] || CursorUsable(subnet.pools, allocator.cursor)
      ensures Valid()
    {
      hide Live, OwnLeases, DistinctReservations, AddressIsReserved, NewLease, RenewedLease, WellFormed, Apply,
        NextPick, InPools;
      ghost var e := View();
      var max := SubnetCapacity(subnet.pools);
      var i := 0;
      while i < max
        invariant 0 <= i <= max
        invariant Valid() && View() == e.(cursor := allocator.cursor)
        invariant manager.log == old(manager.log)
        invariant subnet.pools == [] || CursorUsable(subnet.pools, allocator.cursor)
        invariant Search(e, ctx, now, max, e.cursor) == Search(e, ctx, now, max - i, allocator.cursor)
      {
        NextPickDefined(subnet.pools, allocator.cursor);
        var a := allocator.PickAddr(subnet.pools);
        var reserved := IsReserved(a, ctx.mac);
        if !reserved {
          var r := AllocateWithAddr(a, ctx, now);
          if r.Ok? {
            return Granted(r.value);
          }
        }
        i := i + 1;
      }
      reply := Refused(NoAddressLeft);
    }

    method Plan(ctx: Context, now: int) returns (reply: Reply)
      requires Valid() && ctx.subnetId == subnet.id && ctx.requestType.Discover?
      requires subnet.pools == [] || CursorUsable(subnet.pools, allocator.cursor)
      modifies allocator, manager, manager.mem
      ensures var o := PlanLease(old(View()), ctx, now);
              reply == o.reply && View() == old(View()).(cursor := o.cursor)
      ensures manager.log == old(manager.log)
      ensures subnet.pools == [] || CursorUsable(subnet.pools, allocator.cursor)
      ensures Valid()
    {
      hide Live, OwnLeases, DistinctReservations, AddressIsReserved, NewLease, RenewedLease, WellFormed, Apply,
        CapacitySum, CursorUsable, Search, FindOldLease;
      var held := FindOld(ctx);
      FoundLeaseIsLive(manager.mem.View(), ctx);
      var host := HostFor(hosts, ctx.mac);
      if host.Some? {
        if held.Some? && held.value.address == host.value {
          var l := Renew(held.value, ctx, now);
          return Granted(l);
        }
        var r := AllocateWithAddr(host.value, ctx, now);
        if r.Ok? {
          return Granted(r.value);
        }
      }
      if held.Some? {
        var l := Renew(held.value, ctx, now);
        return Granted(l);
      }
      if ctx.requestAddr.Some? {
        var pool := GetPoolIncludeAddr(subnet.pools, ctx.requestAddr.value);
        if pool.Some? {
          var reserved := IsReserved(ctx.requestAddr.value, ctx.mac);
          if !reserved {
            var r := AllocateWithAddr(ctx.requestAddr.value, ctx, now);
            if r.Ok? {
              return Granted(r.value);
            }
          }
        }
      }
      reply := AllocateUnreserved(ctx, now);
    }

    method Allocate(ctx: Context, now: int) returns (reply: Reply)
      requires Valid() && ctx.subnetId == subnet.id && ctx.requestType.Request?
      modifies manager, manager.mem
      ensures var o := AllocateLease(old(View()), ctx, now);
              && reply == o.reply
              && View() == old(View()).(store := ApplyAll(old(manager.mem.View()), o.ops))
              && manager.log == old(manager.log) + o.ops
      ensures Valid()
    {
      hide Live, DistinctReservations, AddressIsReserved, NewLease, RenewedLease, WellFormed, Apply, FindOldLease,
        AllocateAt, MoveOps;
      if ctx.requestAddr.None? {
        return Refused(RequestWithoutTarget);
      }
      var want := ctx.requestAddr.value;
      var reserved := IsReserved(want, ctx.mac);
      if reserved {
        return Refused(WantReservedAddress);
      }
      var host := HostFor(hosts, ctx.mac);
      if host.Some? && host.value != want {
        var blocker := manager.mem.GetLeaseWithIp(host.value);
        if blocker.None? || blocker.value.IsExpired(now) || blocker.value.mac == ctx.mac {
          return Refused(NotWantReservedAddr);
        }
      }
      var held := FindOld(ctx);
      FoundLeaseIsLive(manager.mem.View(), ctx);
      if held.Some? && held.value.address == want {
        var l := Renew(held.value, ctx, now);
        return Granted(l);
      }
      if host.None? {
        var pool := GetPoolIncludeAddr(subnet.pools, want);
        if pool.None? {
          return Refused(WantAddressInOtherSubnet);
        }
      }
      reply := AllocateAndMove(want, held, ctx, now);
    }

    /** The last two steps of AllocateLease: take the wanted address, then give
        up the one held before. */
    method AllocateAndMove(want: Address, held: Option<Lease>, ctx: Context, now: int) returns (reply: Reply)
      requires Valid() && ctx.subnetId == subnet.id
      requires held.Some? ==> held.value.subnetId == subnet.id
      modifies manager, manager.mem
      ensures var alloc := AllocateAt(subnet, old(manager.mem.View()), want, ctx, now);
              var ops := if alloc.Err? then []
                         else alloc.value.ops + MoveOps(held, alloc.value.lease);
              && reply == (if alloc.Err? then Refused(alloc.error) else Granted(alloc.value.lease))
              && manager.mem.View() == ApplyAll(old(manager.mem.View()), ops)
              && manager.log == old(manager.log) + ops
      ensures Valid()
    {
      var r := AllocateWithAddr(want, ctx, now);
      if r.Err? {
        return Refused(r.error);
      }
      ghost var was := manager.mem.View();
      if held.Some? && held.value.address != r.value.address {
        ApplyOne(was, DeleteOp(held.value.subnetId, held.value.address));
        ApplyKeepsOwn(was, DeleteOp(held.value.subnetId, held.value.address), subnet.id);
        manager.DeleteLease(held.value.subnetId, held.value.address);
      }
      ghost var alloc := AllocateAt(subnet, old(manager.mem.View()), want, ctx, now).value;
      ApplyAllAppend(old(manager.mem.View()), alloc.ops, MoveOps(held, alloc.lease));
      reply := Granted(r.value);
    }

    method ReleaseHeld(ctx: Context) returns (reply: Reply)
      requires Valid()
      modifies manager, manager.mem
      ensures var o := ReleaseLease(old(View()), ctx);
              && reply == o.reply
              && View() == old(View()).(store := ApplyAll(old(manager.mem.View()), o.ops))
              && manager.log == old(manager.log) + o.ops
      ensures Valid()
    {
      var held := FindOld(ctx);
      FoundLeaseIsLive(manager.mem.View(), ctx);
      if held.None? {
        return Refused(ReleaseNotExistAddr);
      }
      if Some(held.value.address) != ctx.requestAddr {
        return Refused(ReleaseOthersAddr);
      }
      ApplyOne(manager.mem.View(), DeleteOp(held.value.subnetId, held.value.address));
      ApplyKeepsOwn(manager.mem.View(), DeleteOp(held.value.subnetId, held.value.address), subnet.id);
      manager.DeleteLease(held.value.subnetId, held.value.address);
      reply := Done;
    }

    method DeclineHeld(ctx: Context, now: int) returns (reply: Reply)
      requires Valid()
      modifies manager, manager.mem
      ensures var o := DeclineLease(old(View()), ctx, now);
              && reply == o.reply
              && View() == old(View()).(store := ApplyAll(old(manager.mem.View()), o.ops))
              && manager.log == old(manager.log) + o.ops
      ensures Valid()
    {
      var held := FindOld(ctx);
      FoundLeaseIsLive(manager.mem.View(), ctx);
      if held.None? {
        return Refused(DeclineNotExistAddr);
      }
      if Some(held.value.address) != ctx.requestAddr {
        return Refused(DeclineOthersAddr);
      }
      ApplyOne(manager.mem.View(), UpdateOp(held.value.Decline(now)));
      ApplyKeepsOwn(manager.mem.View(), UpdateOp(held.value.Decline(now)), subnet.id);
      var _ := manager.UpdateLease(held.value.Decline(now));
      reply := Done;
    }

    method DeclineConflict(ctx: Context, now: int) returns (reply: Reply)
      requires Valid() && ctx.subnetId == subnet.id && ctx.requestAddr.Some?
      modifies manager, manager.mem
      ensures var o := DeclineConflictIp(old(View()), ctx, now);
              && reply == o.reply
              && View() == old(View()).(store := ApplyAll(old(manager.mem.View()), o.ops))
              && manager.log == old(manager.log) + o.ops
      ensures Valid()
    {
      var held := manager.mem.GetLeaseWithIp(ctx.requestAddr.value);
      if held.None? {
        var l := ConflictLease(subnet, ctx.requestAddr.value, ctx, now);
        ApplyOne(manager.mem.View(), AddOp(l));
        ApplyKeepsOwn(manager.mem.View(), AddOp(l), subnet.id);
        var _ := manager.AddLease(l);
      } else {
        ApplyOne(manager.mem.View(), UpdateOp(held.value.Decline(now)));
        ApplyKeepsOwn(manager.mem.View(), UpdateOp(held.value.Decline(now)), subnet.id);
        var _ := manager.UpdateLease(held.value.Decline(now));
      }
      reply := Done;
    }
  }
}
