/** The engine as a state machine: client messages and administrator commands
    in any order under a clock that never goes back, and what every run keeps
    (master/engine.go, master/subnet_command.go). */
module EngineRuns {
  import opened Wrappers
  import opened Pools
  import opened Leases
  import opened LeaseStores
  import opened LeaseOps
  import opened Engine

  datatype Step =
    | Message(ctx: Context)
    | AddPool(pool: Pool)
    | AddReservedPool(pool: Pool)
    | RemovePool(pool: Pool)
    | RemoveReservedPool(pool: Pool)
    | AddHost(mac: Mac, address: Address)
    | RemoveHost(mac: Mac, address: Address)
    | SetLifetime(lifetime: int)
    | PurgeSubnet

  datatype Event = Event(now: int, step: Step)

  // ---------------------------------------------------------------- administrator commands

  /** deletePoolFromPools: the list without its first pool equal to p. */
  function RemoveFirst(pools: seq<Pool>, p: Pool): (r: seq<Pool>)
    ensures forall q | q in r :: q in pools
    ensures p !in pools <==> r == pools
  {
    if pools == [] then [] else if pools[0] == p then pools[1..] else [pools[0]] + RemoveFirst(pools[1..], p)
  }

  lemma {:induction false} RemoveFirstAt(pools: seq<Pool>, p: Pool, i: nat)
    requires i < |pools| && pools[i] == p && forall j | 0 <= j < i :: pools[j] != p
    ensures RemoveFirst(pools, p) == pools[..i] + pools[i + 1..]
  {
    if i > 0 {
      RemoveFirstAt(pools[1..], p, i - 1);
      assert pools[..i] == [pools[0]] + pools[1..][..i - 1];
      assert pools[1..][i..] == pools[i + 1..];
    }
  }

  method DeletePoolFromPools(p: Pool, pools: seq<Pool>) returns (rest: seq<Pool>, found: bool)
    ensures found <==> p in pools
    ensures rest == RemoveFirst(pools, p)
  {
    var i := 0;
    while i < |pools|
      invariant 0 <= i <= |pools|
      invariant forall j | 0 <= j < i :: pools[j] != p
    {
      if pools[i] == p {
        RemoveFirstAt(pools, p, i);
        return pools[..i] + pools[i + 1..], true;
      }
      i := i + 1;
    }
    return pools, false;
  }

  /** Only the first of several equal pools goes. */
  lemma {:induction false} RemovesFirst(pools: seq<Pool>, p: Pool, k: nat)
    requires k < |pools| && pools[k] == p && p !in pools[..k]
    ensures RemoveFirst(pools, p) == pools[..k] + pools[k + 1..]
  {
    if k > 0 {
      assert pools[0] == pools[..k][0] && pools[1..][..k - 1] == pools[..k][1..];
      RemovesFirst(pools[1..], p, k - 1);
      assert pools[1..][k..] == pools[k + 1..] && pools[..k] == [pools[0]] + pools[1..][..k - 1];
    }
  }

  /** Deleting a pool that ends at the top address never returns. */
  predicate Deletable(p: Pool) { p.end < ADDRESS_SPACE - 1 }

  /** The configuration after a command. A pool whose start is above its end is
      refused before anything changes. */
  function Reconfigure(e: EngineState, step: Step): (r: EngineState) {
    var s := e.subnet;
    match step
    case AddPool(p) =>
      if p.start <= p.end then e.(subnet := s.(pools := s.pools + [p])) else e
    case AddReservedPool(p) =>
      if p.start <= p.end && Deletable(p) then e.(subnet := s.(reservedPools := s.reservedPools + [p])) else e
    case RemovePool(p) =>
      if Deletable(p) then e.(subnet := s.(pools := RemoveFirst(s.pools, p))) else e
    case RemoveReservedPool(p) => e.(subnet := s.(reservedPools := RemoveFirst(s.reservedPools, p)))
    case AddHost(m, a) => if m in e.hosts then e else e.(hosts := e.hosts[m := a])
    case RemoveHost(m, a) => if m in e.hosts && e.hosts[m] == a then e.(hosts := e.hosts - {m}) else e
    case SetLifetime(t) => e.(subnet := s.(validLifetime := t))
    case _ => e
  }

  // ---------------------------------------------------------------- one step

  /** What HandleRequest and the admin commands assume of their input. */
  predicate Admissible(id: SubnetId, step: Step) {
    step.Message? ==>
      && step.ctx.subnetId == id
      && (step.ctx.requestType.ConflictIp? ==> step.ctx.requestAddr.Some?)
  }

  function Decide(e: EngineState, step: Step, now: int): (r: Outcome)
    requires WellFormed(e.subnet.pools) && Admissible(e.subnet.id, step)
  {
    match step
    case Message(ctx) =>
      (match ctx.requestType
       case Discover => PlanLease(e, ctx, now)
       case Request => AllocateLease(e, ctx, now)
       case Release => ReleaseLease(e, ctx)
       case Decline => DeclineLease(e, ctx, now)
       case ConflictIp => DeclineConflictIp(e, ctx, now))
    case AddReservedPool(p) =>
      Outcome(Done, if p.start <= p.end && Deletable(p) then [DeletePoolOp(e.subnet.id, p)] else [], e.cursor)
    case RemovePool(p) =>
      Outcome(Done, if p in e.subnet.pools && Deletable(p) then [DeletePoolOp(e.subnet.id, p)] else [], e.cursor)
    case RemoveHost(_, a) => Outcome(Done, [DeleteOp(e.subnet.id, a)], e.cursor)
    case PurgeSubnet => Outcome(Done, [DeleteSubnetOp(e.subnet.id)], e.cursor)
    case _ => Outcome(Done, [], e.cursor)
  }

  ghost function Next(e: EngineState, step: Step, now: int): (r: EngineState)
    requires WellFormed(e.subnet.pools) && Admissible(e.subnet.id, step)
    ensures r.subnet.id == e.subnet.id && WellFormed(r.subnet.pools)
  {
    var o := Decide(e, step, now);
    assert forall p | p in e.subnet.pools :: p.start <= p.end;
    Reconfigure(e, step).(store := ApplyAll(e.store, o.ops), cursor := o.cursor)
  }

  // ---------------------------------------------------------------- effect of a step on the store

  /** The store after filing a lease at its address, whatever was there. */
  ghost function Put(s: Store, lease: Lease): (r: Store) {
    Add(Without(s, {lease.address}), lease)
  }

  lemma PutByIp(s: Store, lease: Lease)
    ensures Put(s, lease).byIp == s.byIp[lease.address := lease]
  {
  }

  lemma PutFacts(s: Store, lease: Lease, except: set<Address>)
    requires Live(s) && ClientIndexed(s, {})
    requires lease.clientId.Some? && lease.clientId.value != [] && lease.clientId.value in s.byClient
             ==> s.byClient[lease.clientId.value].address in except + {lease.address}
    ensures Live(Put(s, lease)) && ClientIndexed(Put(s, lease), except)
  {
    var w := Without(s, {lease.address});
    WithoutKeeps(s, {lease.address}, {});
    AddKeepsLive(w, lease);
    AddKeepsClientIndexed(w, lease, except);
  }

  lemma AddOpIsPut(s: Store, lease: Lease)
    requires Live(s) && lease.address !in s.byIp
    ensures Apply(s, AddOp(lease)) == Put(s, lease)
  {
    var w := Without(s, {lease.address});
    assert w.byIp == s.byIp && w.byMac == s.byMac && w.byClient == s.byClient;
  }

  lemma {:induction false} UpdateOpIsPut(s: Store, lease: Lease)
    requires Live(s) && lease.address in s.byIp && s.byIp[lease.address].subnetId == lease.subnetId
    ensures Apply(s, UpdateOp(lease)) == Put(s, lease)
  {
    DeleteIsWithout(s, lease.subnetId, lease.address);
  }

  ghost predicate EngineInv(e: EngineState) {
    StateValid(e) && ClientExact(e.store)
  }

  ghost function After(e: EngineState, o: Outcome): (s: Store) {
    ApplyAll(e.store, o.ops)
  }

  /** A renewed lease carries nothing of the lease it replaces but the address. */
  lemma RenewedIsNew(subnet: Subnet, lease: Lease, ctx: Context, now: int)
    requires ctx.subnetId == subnet.id
    ensures RenewedLease(subnet, lease, ctx, now) == NewLease(subnet, lease.address, ctx, now)
  {
  }

  lemma AllocateAtEffect(e: EngineState, a: Address, ctx: Context, now: int)
    requires EngineInv(e) && ctx.subnetId == e.subnet.id
    ensures var r := AllocateAt(e.subnet, e.store, a, ctx, now);
            && (r.Ok? <==> (a in e.store.byIp ==> e.store.byIp[a].IsExpired(now)))
            && (r.Ok? ==> r.value.lease == NewLease(e.subnet, a, ctx, now))
            && (r.Ok? && ctx.requestType.Request? ==>
                  ApplyAll(e.store, r.value.ops) == Put(e.store, r.value.lease))
            && (r.Ok? && !ctx.requestType.Request? ==> r.value.ops == [])
  {
    var l := NewLease(e.subnet, a, ctx, now);
    if a !in e.store.byIp {
      ApplyOne(e.store, AddOp(l));
      AddOpIsPut(e.store, l);
    } else {
      RenewedIsNew(e.subnet, e.store.byIp[a], ctx, now);
      ApplyOne(e.store, UpdateOp(l));
      UpdateOpIsPut(e.store, l);
    }
  }

  /** The guards a REQUEST passes: the wanted address is not reserved against the
      client, who has no usable reservation elsewhere, and it is the client's own
      or else one the client may have and under no unexpired lease. */
  predicate Grantable(e: EngineState, ctx: Context, now: int) {
    && ctx.requestAddr.Some?
    && var want := ctx.requestAddr.value;
    && var host := HostFor(e.hosts, ctx.mac);
    && var held := FindOldLease(e.store, ctx);
    && !AddressIsReserved(e.subnet, e.hosts, want, ctx.mac)
    && !PrefersReservation(e.store, host, want, ctx, now)
    && (|| (held.Some? && held.value.address == want)
        || (&& (host.Some? || InPools(e.subnet.pools, want))
            && (want in e.store.byIp ==> e.store.byIp[want].IsExpired(now))))
  }

  lemma RequestGrantedIff(e: EngineState, ctx: Context, now: int)
    requires ctx.requestType.Request?
    ensures AllocateLease(e, ctx, now).reply.Granted? <==> Grantable(e, ctx, now)
  {
  }

  /** A granted REQUEST files the client's new lease at the wanted address and,
      when the client held another address, drops that one; a refused REQUEST
      changes nothing. */
  lemma RequestEffect(e: EngineState, ctx: Context, now: int)
    requires EngineInv(e) && ctx.subnetId == e.subnet.id && ctx.requestType.Request?
    ensures var o := AllocateLease(e, ctx, now);
            var held := FindOldLease(e.store, ctx);
            && o.cursor == e.cursor
            && (o.reply.Granted? || (o.reply.Refused? && o.ops == []))
            && (o.reply.Granted? ==>
                  && ctx.requestAddr.Some?
                  && var want := ctx.requestAddr.value;
                  var l := NewLease(e.subnet, want, ctx, now);
                  && o.reply.lease == l
                  && !AddressIsReserved(e.subnet, e.hosts, want, ctx.mac)
                  && (want in e.store.byIp && !e.store.byIp[want].IsExpired(now) ==>
                        held == Some(e.store.byIp[want]))
                  && After(e, o) == if held.Some? && held.value.address != want
                                    then Without(Put(e.store, l), {held.value.address})
                                    else Put(e.store, l))
  {
    var o := AllocateLease(e, ctx, now);
    if o.reply.Granted? {
      var want := ctx.requestAddr.value;
      var held := FindOldLease(e.store, ctx);
      var l := NewLease(e.subnet, want, ctx, now);
      FoundLeaseIsLive(e.store, ctx);
      if held.Some? && held.value.address == want {
        RenewedIsNew(e.subnet, held.value, ctx, now);
        ApplyOne(e.store, UpdateOp(l));
        UpdateOpIsPut(e.store, l);
      } else {
        AllocateAtEffect(e, want, ctx, now);
        var alloc := AllocateAt(e.subnet, e.store, want, ctx, now).value;
        ApplyAllAppend(e.store, alloc.ops, MoveOps(held, l));
        if held.Some? {
          MoveEffect(e, l, held.value);
        }
      }
    }
  }

  lemma MoveEffect(e: EngineState, l: Lease, held: Lease)
    requires EngineInv(e) && held.address != l.address
    requires held.address in e.store.byIp && e.store.byIp[held.address] == held
    ensures ApplyAll(Put(e.store, l), [DeleteOp(held.subnetId, held.address)])
            == Without(Put(e.store, l), {held.address})
  {
    var s := Put(e.store, l);
    WithoutKeeps(e.store, {l.address}, {});
    AddKeepsLive(Without(e.store, {l.address}), l);
    ApplyOne(s, DeleteOp(held.subnetId, held.address));
    DeleteIsWithout(s, held.subnetId, held.address);
  }

  lemma ReleaseEffect(e: EngineState, ctx: Context)
    requires EngineInv(e)
    ensures var o := ReleaseLease(e, ctx);
            && o.cursor == e.cursor && !o.reply.Granted?
            && (o.reply.Refused? ==> o.ops == [])
            && (o.reply == Done ==>
                  && ctx.requestAddr.Some?
                  && ctx.requestAddr.value in e.store.byIp
                  && ctx.Presents(e.store.byIp[ctx.requestAddr.value])
                  && After(e, o) == Without(e.store, {ctx.requestAddr.value}))
  {
    FoundLeaseIsLive(e.store, ctx);
    var held := FindOldLease(e.store, ctx);
    if held.Some? {
      ApplyOne(e.store, DeleteOp(held.value.subnetId, held.value.address));
      DeleteIsWithout(e.store, held.value.subnetId, held.value.address);
    }
  }

  lemma DeclineEffect(e: EngineState, ctx: Context, now: int)
    requires EngineInv(e)
    ensures var o := DeclineLease(e, ctx, now);
            && o.cursor == e.cursor && !o.reply.Granted?
            && (o.reply.Refused? ==> o.ops == [])
            && (o.reply == Done ==>
                  && ctx.requestAddr.Some?
                  && ctx.requestAddr.value in e.store.byIp
                  && var l := e.store.byIp[ctx.requestAddr.value];
                  && ctx.Presents(l)
                  && After(e, o) == Put(e.store, l.Decline(now)))
  {
    FoundLeaseIsLive(e.store, ctx);
    var held := FindOldLease(e.store, ctx);
    if held.Some? {
      ApplyOne(e.store, UpdateOp(held.value.Decline(now)));
      UpdateOpIsPut(e.store, held.value.Decline(now));
    }
  }

  /** The lease that blocks an address after a conflict report. */
  ghost function Blocker(e: EngineState, ctx: Context, now: int): (l: Lease)
    requires ctx.requestAddr.Some?
  {
    var a := ctx.requestAddr.value;
    if a in e.store.byIp then e.store.byIp[a].Decline(now) else ConflictLease(e.subnet, a, ctx, now)
  }

  lemma ConflictEffect(e: EngineState, ctx: Context, now: int)
    requires EngineInv(e) && ctx.subnetId == e.subnet.id && ctx.requestAddr.Some?
    ensures var o := DeclineConflictIp(e, ctx, now);
            && o.cursor == e.cursor && o.reply == Done
            && After(e, o) == Put(e.store, Blocker(e, ctx, now))
  {
    var l := Blocker(e, ctx, now);
    if l.address in e.store.byIp {
      ApplyOne(e.store, UpdateOp(l));
      UpdateOpIsPut(e.store, l);
    } else {
      ApplyOne(e.store, AddOp(l));
      AddOpIsPut(e.store, l);
    }
  }
}
