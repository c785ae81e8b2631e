/** Leases and MAC addresses over the engine's runs (master/engine.go). */
module MacTheorems {
  import opened Wrappers
  import opened Pools
  import opened Leases
  import opened LeaseStores
  import opened LeaseOps
  import opened Engine
  import opened EngineRuns
  import opened EngineTheorems

  /** No two addresses have leases with the same MAC. */
  ghost predicate OneLeasePerMac(s: Store) {
    forall a, b | a in s.byIp && b in s.byIp && s.byIp[a].mac.Some? && s.byIp[a].mac == s.byIp[b].mac :: a == b
  }

  /** Some lease carries the request's MAC and is neither at the wanted address nor the
      one the request is recognised by. */
  ghost predicate MacLeasedElsewhere(s: Store, ctx: Context, want: Address) {
    && ctx.mac.Some?
    && exists x | x in s.byIp :: x != want && s.byIp[x].mac == ctx.mac && Some(s.byIp[x]) != FindOldLease(s, ctx)
  }

  /** Unlike client-ids, MACs need not stay unique: a REQUEST keeps one lease per MAC
      unless it passes the engine's guards while its MAC is leased elsewhere. */
  lemma RequestKeepsOneLeasePerMacIff(e: EngineState, ctx: Context, now: int)
    requires EngineInv(e) && OneLeasePerMac(e.store) && ctx.subnetId == e.subnet.id && ctx.requestType.Request?
    ensures OneLeasePerMac(After(e, AllocateLease(e, ctx, now)))
            <==> !(Grantable(e, ctx, now) && MacLeasedElsewhere(e.store, ctx, ctx.requestAddr.value))
  {
    hide AddressIsReserved, PrefersReservation, InPools, ClientExact, OwnLeases, AllocateLease, FindOldLease, NewLease,
      Put, WellFormed;
    RequestEffect(e, ctx, now);
    RequestGrantedIff(e, ctx, now);
    if Grantable(e, ctx, now) {
      FoundLeaseIsLive(e.store, ctx);
      NewLeaseKeys(e.subnet, ctx.requestAddr.value, ctx, now);
      MovedOneLeasePerMacIff(e.store, ctx, AllocateLease(e, ctx, now).reply.lease);
    }
  }

  lemma MovedOneLeasePerMacIff(s: Store, ctx: Context, l: Lease)
    requires Live(s) && OneLeasePerMac(s) && l.mac == ctx.mac
    ensures var held := FindOldLease(s, ctx);
            var t := Put(s, l);
            OneLeasePerMac(if held.Some? && held.value.address != l.address then Without(t, {held.value.address}) else t)
            <==> !MacLeasedElsewhere(s, ctx, l.address)
  {
    hide Put, FindOldLease, Live;
    FoundLeaseIsLive(s, ctx);
    PutByIp(s, l);
    var held := FindOldLease(s, ctx);
    var t := Put(s, l);
    var after := if held.Some? && held.value.address != l.address then Without(t, {held.value.address}) else t;
    assert l.address in after.byIp && after.byIp[l.address] == l;
    if MacLeasedElsewhere(s, ctx, l.address) {
      var x :| x in s.byIp && x != l.address && s.byIp[x].mac == ctx.mac && Some(s.byIp[x]) != held;
      assert x in after.byIp && after.byIp[x] == s.byIp[x];
    }
  }

  /** The only step that gives one MAC a second lease is a REQUEST that passes the guards
      while its MAC is leased elsewhere. */
  ghost predicate DoublesMac(e: EngineState, step: Step, now: int) {
    && step.Message? && step.ctx.requestType.Request? && Grantable(e, step.ctx, now)
    && MacLeasedElsewhere(e.store, step.ctx, step.ctx.requestAddr.value)
  }

  lemma StepKeepsOneLeasePerMacIff(e: EngineState, step: Step, now: int)
    requires EngineInv(e) && OneLeasePerMac(e.store) && Admissible(e.subnet.id, step)
    ensures OneLeasePerMac(Next(e, step, now).store) <==> !DoublesMac(e, step, now)
  {
    hide AddressIsReserved, PrefersReservation, InPools, ClientExact, OwnLeases, MacLeasedElsewhere, Grantable;
    match step {
      case Message(ctx) =>
        match ctx.requestType {
          case Discover => PlanHasNoOps(e, ctx, now);
          case Request => RequestKeepsOneLeasePerMacIff(e, ctx, now);
          case Release => ReleaseEffect(e, ctx);
          case Decline =>
            DeclineEffect(e, ctx, now);
            if DeclineLease(e, ctx, now).reply == Done {
              PutByIp(e.store, e.store.byIp[ctx.requestAddr.value].Decline(now));
            }
          case ConflictIp =>
            ConflictEffect(e, ctx, now);
            PutByIp(e.store, Blocker(e, ctx, now));
        }
      case AddReservedPool(p) => ApplyOne(e.store, DeletePoolOp(e.subnet.id, p));
      case RemovePool(p) => ApplyOne(e.store, DeletePoolOp(e.subnet.id, p));
      case RemoveHost(_, a) => ApplyOne(e.store, DeleteOp(e.subnet.id, a));
      case PurgeSubnet => ApplyOne(e.store, DeleteSubnetOp(e.subnet.id));
      case _ =>
    }
  }

  /** A run keeps one lease per MAC throughout if and only if none of its steps does
      that. */
  lemma {:induction false} RunKeepsOneLeasePerMacIff(subnet: Subnet, hosts: map<Mac, Address>, events: seq<Event>)
    requires WellFormed(subnet.pools) && AllAdmissible(subnet.id, events)
    ensures (forall i | 0 <= i <= |events| :: OneLeasePerMac(Run(Start(subnet, hosts), events[..i]).store))
            <==> forall i | 0 <= i < |events| ::
                   !DoublesMac(Run(Start(subnet, hosts), events[..i]), events[i].step, events[i].now)
    decreases |events|
  {
    hide OneLeasePerMac, DoublesMac, Next, Run, EngineInv;
    var e := Start(subnet, hosts);
    StartHoldsInv(e);
    if events == [] {
      StartHasOneLeasePerMac(e, events);
    } else {
      var n := |events| - 1;
      RunKeepsOneLeasePerMacIff(subnet, hosts, events[..n]);
      assert forall i | 0 <= i <= n :: events[..n][..i] == events[..i];
      RunKeepsInv(e, events[..n]);
      RunLast(e, events, n);
      if OneLeasePerMac(Run(e, events[..n]).store) {
        StepKeepsOneLeasePerMacIff(Run(e, events[..n]), events[n].step, events[n].now);
      }
    }
  }

  lemma StartHasOneLeasePerMac(e: EngineState, events: seq<Event>)
    requires e.store == EMPTY && WellFormed(e.subnet.pools) && AllAdmissible(e.subnet.id, events)
    ensures OneLeasePerMac(Run(e, events[..0]).store)
  {
  }

  /** The MAC index finds every lease that has a MAC. */
  ghost predicate MacExact(s: Store) {
    forall a | a in s.byIp && s.byIp[a].mac.Some? ::
      s.byIp[a].mac.value in s.byMac && s.byMac[s.byIp[a].mac.value] == s.byIp[a]
  }

  /** The index entry of the request's MAC is such a lease. An index that misses leases
      may have no such entry although MacLeasedElsewhere holds. */
  predicate MacHeldElsewhere(s: Store, ctx: Context, want: Address) {
    && ctx.mac.Some? && ctx.mac.value in s.byMac
    && s.byMac[ctx.mac.value].address != want
    && Some(s.byMac[ctx.mac.value]) != FindOldLease(s, ctx)
  }

  /** A REQUEST keeps the MAC index complete unless it passes the guards while its MAC is
      on file elsewhere. */
  lemma {:induction false} RequestKeepsMacExactIff(e: EngineState, ctx: Context, now: int)
    requires EngineInv(e) && MacExact(e.store) && ctx.subnetId == e.subnet.id && ctx.requestType.Request?
    ensures MacExact(After(e, AllocateLease(e, ctx, now)))
            <==> !(Grantable(e, ctx, now) && MacHeldElsewhere(e.store, ctx, ctx.requestAddr.value))
  {
    hide AddressIsReserved, PrefersReservation, InPools;
    RequestGrantedIff(e, ctx, now);
    if Grantable(e, ctx, now) {
      GrantKeepsMacExactIff(e, ctx, now);
    } else {
      RequestEffect(e, ctx, now);
    }
  }

  lemma GrantKeepsMacExactIff(e: EngineState, ctx: Context, now: int)
    requires EngineInv(e) && MacExact(e.store) && ctx.subnetId == e.subnet.id && ctx.requestType.Request?
    requires AllocateLease(e, ctx, now).reply.Granted?
    ensures ctx.requestAddr.Some?
    ensures MacExact(After(e, AllocateLease(e, ctx, now)))
            <==> !MacHeldElsewhere(e.store, ctx, ctx.requestAddr.value)
  {
    RequestEffect(e, ctx, now);
    FoundLeaseIsLive(e.store, ctx);
    var o := AllocateLease(e, ctx, now);
    var want := ctx.requestAddr.value;
    PutByIp(e.store, o.reply.lease);
    PutByMac(e.store, o.reply.lease);
    var after := After(e, o);
    if MacHeldElsewhere(e.store, ctx, want) {
      var x := e.store.byMac[ctx.mac.value].address;
      assert x in after.byIp && after.byIp[x] == e.store.byIp[x];
      assert want in after.byIp && after.byIp[want] == o.reply.lease;
    } else {
      MovedKeepsMacExact(e, ctx, o.reply.lease);
    }
  }

  lemma PutByMac(s: Store, lease: Lease)
    requires Live(s)
    ensures var r := Put(s, lease);
            && (lease.mac.Some? ==> lease.mac.value in r.byMac && r.byMac[lease.mac.value] == lease)
            && (forall m | m in s.byMac && lease.mac != Some(m) && s.byMac[m].address != lease.address ::
                  m in r.byMac && r.byMac[m] == s.byMac[m])
  {
  }

  lemma MovedKeepsMacExact(e: EngineState, ctx: Context, l: Lease)
    requires EngineInv(e) && MacExact(e.store) && l.mac == ctx.mac
    requires !MacHeldElsewhere(e.store, ctx, l.address)
    ensures var held := FindOldLease(e.store, ctx);
            var s := Put(e.store, l);
            MacExact(if held.Some? && held.value.address != l.address then Without(s, {held.value.address}) else s)
  {
    PutByIp(e.store, l);
    PutByMac(e.store, l);
    FoundLeaseIsLive(e.store, ctx);
  }

  /** A run after which one MAC has leases at two addresses: a client-id already on
      file is presented from the MAC of another client. */
  lemma MacCanHoldTwoLeases() returns (subnet: Subnet, events: seq<Event>, a: Address, b: Address)
    ensures WellFormed(subnet.pools) && AllAdmissible(subnet.id, events) && Timed(events)
    ensures var s := Run(Start(subnet, map[]), events).store;
            && a != b && a in s.byIp && b in s.byIp
            && s.byIp[a].mac.Some? && s.byIp[a].mac == s.byIp[b].mac
  {
    hide Next, Decide, Live, ClientIndexed, OwnLeases, MacExact, Run, NewLease;
    subnet := Subnet(0, 0, 0, 9, [Pool(1, 2)], []);
    var ctx1 := Context(Request, 0, Some([1]), Some(1), Some(1), "");
    var ctx2 := Context(Request, 0, Some([2]), Some(2), Some(2), "");
    var ctx3 := ctx2.(mac := Some(1));
    var e0 := Start(subnet, map[]);
    StartHoldsInv(Start(subnet, map[]));
    EmptyIsMacExact();
    assert subnet.pools[0].Includes(1) && subnet.pools[0].Includes(2);
    var e1 := GrantFirst(e0, ctx1);
    NewLeaseKeys(subnet, 1, ctx1, 0);
    var e2 := GrantFirst(e1, ctx2);
    NewLeaseKeys(subnet, 2, ctx2, 0);
    a, b := 1, 2;
    RenewedUnderMac(e2, ctx3, 1);
    events := [Event(0, Message(ctx1)), Event(0, Message(ctx2)), Event(0, Message(ctx3))];
    RunThree(e0, events);
  }

  lemma NewLeaseKeys(subnet: Subnet, a: Address, ctx: Context, now: int)
    ensures var l := NewLease(subnet, a, ctx, now);
            l.address == a && l.mac == ctx.mac && l.clientId == ctx.clientId && l.subnetId == ctx.subnetId
  {
  }

  /** A client recognised by client-id renews its lease under another MAC; the lease
      that MAC already has stays where it is. */
  lemma RenewedUnderMac(e: EngineState, ctx: Context, x: Address)
    requires EngineInv(e) && Admissible(e.subnet.id, Message(ctx))
    requires ctx.requestType.Request? && ctx.requestAddr.Some? && ctx.requestAddr.value != x
    requires e.hosts == map[] && e.subnet.reservedPools == []
    requires FindOldLease(e.store, ctx).Some? && FindOldLease(e.store, ctx).value.address == ctx.requestAddr.value
    requires x in e.store.byIp && e.store.byIp[x].mac == ctx.mac
    ensures var s := Next(e, Message(ctx), 0).store;
            && x in s.byIp && s.byIp[x] == e.store.byIp[x]
            && ctx.requestAddr.value in s.byIp && s.byIp[ctx.requestAddr.value].mac == ctx.mac
  {
    RequestEffect(e, ctx, 0);
    PutByIp(e.store, NewLease(e.subnet, ctx.requestAddr.value, ctx, 0));
  }

  lemma EmptyIsMacExact()
    ensures MacExact(EMPTY)
  {
  }

  lemma RunThree(e: EngineState, events: seq<Event>)
    requires WellFormed(e.subnet.pools) && AllAdmissible(e.subnet.id, events) && |events| == 3
    ensures var e1 := Next(e, events[0].step, events[0].now);
            var e2 := Next(e1, events[1].step, events[1].now);
            Run(e, events) == Next(e2, events[2].step, events[2].now)
  {
    hide Next;
    assert events[..2][..1][..0] == [] && events[..2][..1] == events[..1];
    assert Run(e, events[..1]) == Next(e, events[0].step, events[0].now);
  }

  /** A request for an unused pool address by a client new to the store. */
  lemma GrantFirst(e: EngineState, ctx: Context) returns (r: EngineState)
    requires EngineInv(e) && MacExact(e.store) && Admissible(e.subnet.id, Message(ctx))
    requires ctx.requestType.Request? && ctx.requestAddr.Some? && ctx.mac.Some? && ctx.ClientKey() != []
    requires e.hosts == map[] && e.subnet.reservedPools == [] && FindOldLease(e.store, ctx) == None
    requires InPools(e.subnet.pools, ctx.requestAddr.value) && ctx.requestAddr.value !in e.store.byIp
    ensures r == Next(e, Message(ctx), 0) && EngineInv(r) && MacExact(r.store)
    ensures r.subnet == e.subnet && r.hosts == e.hosts
    ensures var l := NewLease(e.subnet, ctx.requestAddr.value, ctx, 0);
            && r.store.byIp == e.store.byIp[l.address := l]
            && r.store.byMac == e.store.byMac[ctx.mac.value := l]
            && r.store.byClient == e.store.byClient[ctx.ClientKey() := l]
  {
    var l := NewLease(e.subnet, ctx.requestAddr.value, ctx, 0);
    r := Next(e, Message(ctx), 0);
    StepKeepsInv(e, Message(ctx), 0);
    RequestKeepsMacExactIff(e, ctx, 0);
    RequestEffect(e, ctx, 0);
    AddOpIsPut(e.store, l);
  }
}
