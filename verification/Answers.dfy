/** What the engine answers, told from the leases, the reservations, the pools and the
    clock alone (master/engine.go). */
module Answers {
  import opened Wrappers
  import opened Pools
  import opened Leases
  import opened LeaseStores
  import opened LeaseOps
  import opened Engine
  import opened EngineRuns
  import opened EngineTheorems

  // ---------------------------------------------------------------- the facts an answer depends on

  ghost predicate Within(pools: seq<Pool>, a: Address) {
    exists i | 0 <= i < |pools| :: pools[i].start <= a <= pools[i].end
  }

  /** Some lease at the address has not run out. */
  predicate Taken(s: Store, a: Address, now: int) {
    a in s.byIp && now <= s.byIp[a].lastTransaction + s.byIp[a].validLifetime
  }

  predicate ReservedFor(hosts: map<Mac, Address>, a: Address, mac: Option<Mac>) {
    mac.Some? && mac.value in hosts && hosts[mac.value] == a
  }

  ghost predicate ReservedForOther(hosts: map<Mac, Address>, a: Address, mac: Option<Mac>) {
    exists m | m in hosts :: hosts[m] == a && mac != Some(m)
  }

  /** The address is kept from the client: reserved for others only, or, when reserved
      for nobody, in a reserved pool. */
  ghost predicate Withheld(e: EngineState, a: Address, mac: Option<Mac>) {
    && !ReservedFor(e.hosts, a, mac)
    && (ReservedForOther(e.hosts, a, mac) || Within(e.subnet.reservedPools, a))
  }

  /** Some lease has the client's non-empty client-id. */
  ghost predicate KnownClient(s: Store, ctx: Context) {
    && ctx.clientId.Some? && ctx.clientId.value != []
    && exists x | x in s.byIp :: s.byIp[x].clientId == ctx.clientId
  }

  /** The lease at the address is the client's: it has its client-id or, when no lease
      has that, the MAC index names it for the client's MAC. */
  ghost predicate Owns(s: Store, ctx: Context, a: Address) {
    && a in s.byIp
    && if KnownClient(s, ctx) then s.byIp[a].clientId == ctx.clientId
       else ctx.mac.Some? && ctx.mac.value in s.byMac && s.byMac[ctx.mac.value].address == a
  }

  /** The client has a reservation elsewhere that is free, expired or leased to its MAC. */
  predicate ReservedElsewhere(e: EngineState, ctx: Context, now: int, a: Address) {
    && ctx.mac.Some? && ctx.mac.value in e.hosts
    && var h := e.hosts[ctx.mac.value];
    h != a && (!Taken(e.store, h, now) || e.store.byIp[h].mac == ctx.mac)
  }

  /** Every field of a lease the client is given. */
  predicate IsLeaseFor(l: Lease, subnet: Subnet, a: Address, ctx: Context, now: int) {
    && l.address == a && l.state == Normal && l.subnetId == subnet.id
    && l.clientId == ctx.clientId && l.mac == ctx.mac && l.hostName == ctx.hostName
    && l.lastTransaction == now && l.validLifetime == subnet.validLifetime
    && l.renewTime == subnet.renewTime && l.rebindTime == subnet.rebindTime
  }

  lemma WithinIff(pools: seq<Pool>, a: Address)
    ensures InPools(pools, a) <==> Within(pools, a)
  {
    forall i | 0 <= i < |pools|
      ensures pools[i].Includes(a) <==> pools[i].start <= a <= pools[i].end
    {
    }
  }

  lemma WithheldIff(e: EngineState, a: Address, mac: Option<Mac>)
    ensures AddressIsReserved(e.subnet, e.hosts, a, mac) <==> Withheld(e, a, mac)
  {
    WithinIff(e.subnet.reservedPools, a);
  }

  lemma TakenIff(s: Store, a: Address, now: int)
    ensures Taken(s, a, now) <==> a in s.byIp && !s.byIp[a].IsExpired(now)
  {
  }

  lemma NewLeaseIs(subnet: Subnet, a: Address, ctx: Context, now: int)
    requires ctx.subnetId == subnet.id
    ensures IsLeaseFor(NewLease(subnet, a, ctx, now), subnet, a, ctx, now)
  {
  }

  lemma PrefersIff(e: EngineState, ctx: Context, now: int, a: Address)
    ensures PrefersReservation(e.store, HostFor(e.hosts, ctx.mac), a, ctx, now) <==> ReservedElsewhere(e, ctx, now, a)
  {
  }

  /** The lease a client is recognised by is the one it owns, and it owns at most one. */
  lemma OwnsIff(s: Store, ctx: Context, a: Address)
    requires Live(s) && ClientExact(s)
    ensures Owns(s, ctx, a) <==> a in s.byIp && FindOldLease(s, ctx) == Some(s.byIp[a])
  {
    FoundLeaseIsLive(s, ctx);
    if KnownClient(s, ctx) {
      var x :| x in s.byIp && s.byIp[x].clientId == ctx.clientId;
      assert s.byClient[ctx.clientId.value] == s.byIp[x];
    }
  }

  lemma OwnerFound(s: Store, ctx: Context)
    requires Live(s) && ClientExact(s)
    ensures FindOldLease(s, ctx).None? <==> forall a | a in s.byIp :: !Owns(s, ctx, a)
    ensures FindOldLease(s, ctx).Some? ==> Owns(s, ctx, FindOldLease(s, ctx).value.address)
  {
    hide Owns, FindOldLease;
    FoundLeaseIsLive(s, ctx);
    if FindOldLease(s, ctx).Some? {
      OwnsIff(s, ctx, FindOldLease(s, ctx).value.address);
    } else {
      forall a | a in s.byIp
        ensures !Owns(s, ctx, a)
      {
        OwnsIff(s, ctx, a);
      }
    }
  }

  // ---------------------------------------------------------------- REQUEST

  /** The answer to every REQUEST: which of five refusals, or a lease and its fields. */
  lemma RequestAnswer(e: EngineState, ctx: Context, now: int)
    requires EngineInv(e) && ctx.subnetId == e.subnet.id && ctx.requestType.Request?
    ensures var r := AllocateLease(e, ctx, now).reply;
            if ctx.requestAddr.None? then r == Refused(RequestWithoutTarget)
            else
              var a := ctx.requestAddr.value;
              if Withheld(e, a, ctx.mac) then r == Refused(WantReservedAddress)
              else if ReservedElsewhere(e, ctx, now, a) then r == Refused(NotWantReservedAddr)
              else if Owns(e.store, ctx, a) then r.Granted? && IsLeaseFor(r.lease, e.subnet, a, ctx, now)
              else if (ctx.mac.None? || ctx.mac.value !in e.hosts) && !Within(e.subnet.pools, a)
              then r == Refused(WantAddressInOtherSubnet)
              else if Taken(e.store, a, now) then r == Refused(WantUsedAddress)
              else r.Granted? && IsLeaseFor(r.lease, e.subnet, a, ctx, now)
  {
    hide Withheld, Owns, Within, AddressIsReserved, PrefersReservation, ReservedElsewhere, FindOldLease, InPools,
      NewLease, RenewedLease, IsLeaseFor;
    if ctx.requestAddr.Some? {
      var a := ctx.requestAddr.value;
      WithheldIff(e, a, ctx.mac);
      PrefersIff(e, ctx, now, a);
      FoundLeaseIsLive(e.store, ctx);
      OwnsIff(e.store, ctx, a);
      WithinIff(e.subnet.pools, a);
      AllocateAtEffect(e, a, ctx, now);
      NewLeaseIs(e.subnet, a, ctx, now);
      if FindOldLease(e.store, ctx).Some? {
        RenewedIsNew(e.subnet, FindOldLease(e.store, ctx).value, ctx, now);
      }
    }
  }

  /** A granted REQUEST puts the lease on file, takes the client's other address from it
      and leaves every other lease alone; a refused one changes nothing. */
  lemma RequestFiles(e: EngineState, ctx: Context, now: int)
    requires EngineInv(e) && ctx.subnetId == e.subnet.id && ctx.requestType.Request?
    ensures var o := AllocateLease(e, ctx, now);
            var after := After(e, o).byIp;
            if o.reply.Granted? then
              && ctx.requestAddr.Some?
              && (forall a :: a in after <==>
                    a == ctx.requestAddr.value || (a in e.store.byIp && !Owns(e.store, ctx, a)))
              && (forall a | a in after ::
                    after[a] == if a == ctx.requestAddr.value then o.reply.lease else e.store.byIp[a])
            else after == e.store.byIp
  {
    hide Owns, AddressIsReserved, PrefersReservation, InPools, NewLease, FindOldLease, Put, ClientIndexed, AllocateLease;
    RequestEffect(e, ctx, now);
    FoundLeaseIsLive(e.store, ctx);
    if AllocateLease(e, ctx, now).reply.Granted? {
      PutByIp(e.store, AllocateLease(e, ctx, now).reply.lease);
      forall a | a in e.store.byIp
        ensures Owns(e.store, ctx, a) <==> FindOldLease(e.store, ctx) == Some(e.store.byIp[a])
      {
        OwnsIff(e.store, ctx, a);
      }
      NewLeaseIs(e.subnet, ctx.requestAddr.value, ctx, now);
    }
  }

  // ---------------------------------------------------------------- DISCOVER

  ghost predicate Offers(o: Outcome, e: EngineState, a: Address, ctx: Context, now: int) {
    o.reply.Granted? && IsLeaseFor(o.reply.lease, e.subnet, a, ctx, now)
  }

  /** The answer to every DISCOVER, in order: the client's reservation when it is its own
      lease, free or expired; else its own lease; else the address it wants, from the
      pools, neither withheld nor taken; else the search. */
  lemma DiscoverAnswer(e: EngineState, ctx: Context, now: int)
    requires EngineInv(e) && ctx.subnetId == e.subnet.id && ctx.requestType.Discover?
    ensures var o := PlanLease(e, ctx, now);
            if ctx.mac.Some? && ctx.mac.value in e.hosts
               && var h := e.hosts[ctx.mac.value]; Owns(e.store, ctx, h) || !Taken(e.store, h, now)
            then Offers(o, e, e.hosts[ctx.mac.value], ctx, now)
            else if exists x | x in e.store.byIp :: Owns(e.store, ctx, x)
            then exists x | x in e.store.byIp :: Owns(e.store, ctx, x) && Offers(o, e, x, ctx, now)
            else if ctx.requestAddr.Some? && Within(e.subnet.pools, ctx.requestAddr.value)
                    && !Withheld(e, ctx.requestAddr.value, ctx.mac) && !Taken(e.store, ctx.requestAddr.value, now)
            then Offers(o, e, ctx.requestAddr.value, ctx, now)
            else o == Search(e, ctx, now, CapacitySum(e.subnet.pools), e.cursor)
  {
    hide Withheld, Owns, Within, AddressIsReserved, FindOldLease, InPools, NewLease, RenewedLease, IsLeaseFor, Search;
    OwnerFound(e.store, ctx);
    FoundLeaseIsLive(e.store, ctx);
    var held := FindOldLease(e.store, ctx);
    if held.Some? {
      RenewedIsNew(e.subnet, held.value, ctx, now);
      NewLeaseIs(e.subnet, held.value.address, ctx, now);
    }
    if ctx.mac.Some? && ctx.mac.value in e.hosts {
      var h := e.hosts[ctx.mac.value];
      OwnsIff(e.store, ctx, h);
      AllocateAtEffect(e, h, ctx, now);
      NewLeaseIs(e.subnet, h, ctx, now);
    }
    if ctx.requestAddr.Some? {
      var a := ctx.requestAddr.value;
      WithinIff(e.subnet.pools, a);
      WithheldIff(e, a, ctx.mac);
      AllocateAtEffect(e, a, ctx, now);
      NewLeaseIs(e.subnet, a, ctx, now);
    }
  }

  /** The search offers some pool address that is neither withheld nor taken, and says
      that none is left exactly when there is none. */
  lemma SearchAnswer(e: EngineState, ctx: Context, now: int)
    requires EngineInv(e) && ctx.subnetId == e.subnet.id && ctx.requestType.Discover?
    requires Allocatable(e.subnet.pools) && (e.subnet.pools == [] || CursorUsable(e.subnet.pools, e.cursor))
    ensures var o := Search(e, ctx, now, CapacitySum(e.subnet.pools), e.cursor);
            if forall a: Address | Within(e.subnet.pools, a) :: Withheld(e, a, ctx.mac) || Taken(e.store, a, now)
            then o.reply == Refused(NoAddressLeft)
            else && Offers(o, e, o.cursor, ctx, now) && Within(e.subnet.pools, o.cursor)
                 && !Withheld(e, o.cursor, ctx.mac) && !Taken(e.store, o.cursor, now)
  {
    hide Withheld, Within, AddressIsReserved, InPools, NewLease, IsLeaseFor, Search, Allocatable, CursorUsable,
      CapacitySum, StateValid, ClientExact;
    assert WellFormed(e.subnet.pools) by { StateHasPools(e); }
    NoAddressLeftIff(e, ctx, now);
    forall a: Address
      ensures InPools(e.subnet.pools, a) <==> Within(e.subnet.pools, a)
      ensures Free(e, a, ctx, now) <==> !Withheld(e, a, ctx.mac) && !Taken(e.store, a, now)
    {
      WithinIff(e.subnet.pools, a);
      WithheldIff(e, a, ctx.mac);
    }
    NewLeaseIs(e.subnet, Search(e, ctx, now, CapacitySum(e.subnet.pools), e.cursor).cursor, ctx, now);
  }

  lemma StateHasPools(e: EngineState)
    requires StateValid(e)
    ensures WellFormed(e.subnet.pools)
  {
  }

  // ---------------------------------------------------------------- RELEASE, DECLINE and conflict reports

  /** A RELEASE succeeds exactly for the client's own lease, and then that lease and no
      other goes; a client without a lease and a wrong address are told apart. */
  lemma ReleaseAnswer(e: EngineState, ctx: Context)
    requires EngineInv(e)
    ensures var o := ReleaseLease(e, ctx);
            && After(e, o).byIp == (if o.reply == Done && ctx.requestAddr.Some?
                                    then e.store.byIp - {ctx.requestAddr.value} else e.store.byIp)
            && (o.reply == Done <==> ctx.requestAddr.Some? && Owns(e.store, ctx, ctx.requestAddr.value))
            && (o.reply != Done ==>
                  o.reply == Refused(if exists x | x in e.store.byIp :: Owns(e.store, ctx, x)
                                     then ReleaseOthersAddr else ReleaseNotExistAddr))
  {
    hide Owns, FindOldLease, ClientIndexed;
    ReleaseEffect(e, ctx);
    OwnerFound(e.store, ctx);
    FoundLeaseIsLive(e.store, ctx);
    if ctx.requestAddr.Some? {
      OwnsIff(e.store, ctx, ctx.requestAddr.value);
    }
  }

  /** The lease left where a lease was declined: unusable by key, stamped now, otherwise
      as it was. */
  predicate IsDeclined(l: Lease, was: Lease, now: int) {
    && l.address == was.address && l.state == Declined && l.subnetId == was.subnetId
    && l.clientId == None && l.mac == None && l.hostName == was.hostName
    && l.lastTransaction == now && l.validLifetime == was.validLifetime
    && l.renewTime == was.renewTime && l.rebindTime == was.rebindTime
  }

  /** A DECLINE succeeds exactly for the client's own lease, which it leaves declined. */
  lemma DeclineAnswer(e: EngineState, ctx: Context, now: int)
    requires EngineInv(e)
    ensures var o := DeclineLease(e, ctx, now);
            var after := After(e, o).byIp;
            && (o.reply == Done <==> ctx.requestAddr.Some? && Owns(e.store, ctx, ctx.requestAddr.value))
            && (o.reply == Done ==>
                  var a := ctx.requestAddr.value;
                  && a in after && a in e.store.byIp && IsDeclined(after[a], e.store.byIp[a], now)
                  && after == e.store.byIp[a := after[a]])
            && (o.reply != Done ==>
                  && after == e.store.byIp
                  && o.reply == Refused(if exists x | x in e.store.byIp :: Owns(e.store, ctx, x)
                                        then DeclineOthersAddr else DeclineNotExistAddr))
  {
    hide Owns, FindOldLease, ClientIndexed, Put;
    DeclineEffect(e, ctx, now);
    OwnerFound(e.store, ctx);
    FoundLeaseIsLive(e.store, ctx);
    if ctx.requestAddr.Some? {
      OwnsIff(e.store, ctx, ctx.requestAddr.value);
      if ctx.requestAddr.value in e.store.byIp {
        PutByIp(e.store, e.store.byIp[ctx.requestAddr.value].Decline(now));
      }
    }
  }

  /** A conflict report always succeeds: a lease there is declined, and an address without
      one gets a declined lease of the subnet's lifetime. */
  lemma ConflictAnswer(e: EngineState, ctx: Context, now: int)
    requires EngineInv(e) && ctx.subnetId == e.subnet.id && ctx.requestAddr.Some?
    ensures var o := DeclineConflictIp(e, ctx, now);
            var a := ctx.requestAddr.value;
            var after := After(e, o).byIp;
            && o.reply == Done && a in after && after == e.store.byIp[a := after[a]]
            && if a in e.store.byIp then IsDeclined(after[a], e.store.byIp[a], now)
               else after[a] == Lease(a, Declined, e.subnet.validLifetime, None, e.subnet.id, now, ctx.hostName, None,
                                      e.subnet.renewTime, e.subnet.rebindTime)
  {
    hide ClientIndexed, Put;
    ConflictEffect(e, ctx, now);
    PutByIp(e.store, Blocker(e, ctx, now));
  }

  // ---------------------------------------------------------------- commands

  /** What each administrator's command changes, and that it changes nothing else: pools
      are appended or the first equal one dropped, the first reservation of a MAC stays,
      and the leases deleted are exactly those named. */
  lemma CommandAnswer(e: EngineState, step: Step, now: int)
    requires EngineInv(e) && !step.Message?
    ensures var e' := Next(e, step, now);
            && e'.cursor == e.cursor
            && e'.subnet == e.subnet.(pools := e'.subnet.pools, reservedPools := e'.subnet.reservedPools,
                                      validLifetime := e'.subnet.validLifetime)
            && (forall a :: a in e'.store.byIp <==> a in e.store.byIp && !Deletes(e, step, a))
            && (forall a | a in e'.store.byIp :: e'.store.byIp[a] == e.store.byIp[a])
            && e'.subnet.pools == (match step
                                   case AddPool(p) => e.subnet.pools + if p.start <= p.end then [p] else []
                                   case RemovePool(p) => if p.end < 0xffff_ffff then RemoveFirst(e.subnet.pools, p)
                                                         else e.subnet.pools
                                   case _ => e.subnet.pools)
            && e'.subnet.reservedPools == (match step
                                           case AddReservedPool(p) =>
                                             e.subnet.reservedPools
                                             + if p.start <= p.end < 0xffff_ffff then [p] else []
                                           case RemoveReservedPool(p) => RemoveFirst(e.subnet.reservedPools, p)
                                           case _ => e.subnet.reservedPools)
            && e'.hosts == (match step
                            case AddHost(m, a) => map[m := a] + e.hosts
                            case RemoveHost(m, a) => if m in e.hosts && e.hosts[m] == a then e.hosts - {m} else e.hosts
                            case _ => e.hosts)
            && e'.subnet.validLifetime == (match step case SetLifetime(t) => t case _ => e.subnet.validLifetime)
  {
    CommandLeases(e, step, now);
    hide ApplyAll, StateValid, ClientExact, Deletes;
    assert WellFormed(e.subnet.pools) by { StateHasPools(e); }
  }

  lemma CommandLeases(e: EngineState, step: Step, now: int)
    requires EngineInv(e) && !step.Message?
    ensures var s := ApplyAll(e.store, Decide(e, step, now).ops);
            && (forall a :: a in s.byIp <==> a in e.store.byIp && !Deletes(e, step, a))
            && (forall a | a in s.byIp :: s.byIp[a] == e.store.byIp[a])
  {
    hide ClientIndexed, InPools;
    match step
    case AddReservedPool(p) => ApplyOne(e.store, DeletePoolOp(e.subnet.id, p));
    case RemovePool(p) => ApplyOne(e.store, DeletePoolOp(e.subnet.id, p));
    case RemoveHost(_, x) => ApplyOne(e.store, DeleteOp(e.subnet.id, x));
    case PurgeSubnet => ApplyOne(e.store, DeleteSubnetOp(e.subnet.id));
    case _ =>
  }

  // ---------------------------------------------------------------- reservations

  /** No client is granted an address reserved for another, and none in a reserved pool
      unless it is reserved for it. */
  lemma GrantRespectsReservations(e: EngineState, ctx: Context, now: int)
    requires EngineInv(e) && ctx.subnetId == e.subnet.id && ctx.requestType.Request?
    requires DistinctReservations(e.hosts) && AllocateLease(e, ctx, now).reply.Granted?
    ensures var a := AllocateLease(e, ctx, now).reply.lease.address;
            && !ReservedForOther(e.hosts, a, ctx.mac)
            && (Within(e.subnet.reservedPools, a) ==> ReservedFor(e.hosts, a, ctx.mac))
  {
    hide Owns, Within, EngineInv, AllocateLease, ReservedElsewhere;
    RequestAnswer(e, ctx, now);
  }

  /** Nor is one offered, but for the client's own lease. */
  lemma OfferRespectsReservations(e: EngineState, ctx: Context, now: int)
    requires EngineInv(e) && ctx.subnetId == e.subnet.id && ctx.requestType.Discover?
    requires DistinctReservations(e.hosts) && PlanLease(e, ctx, now).reply.Granted?
    ensures var a := PlanLease(e, ctx, now).reply.lease.address;
            || Owns(e.store, ctx, a)
            || (&& !ReservedForOther(e.hosts, a, ctx.mac)
                && (Within(e.subnet.reservedPools, a) ==> ReservedFor(e.hosts, a, ctx.mac)))
  {
    hide Owns, Within, PlanLease, Search, NewLease, AddressIsReserved;
    DiscoverAnswer(e, ctx, now);
    SearchOffersFree(e, ctx, now, CapacitySum(e.subnet.pools), e.cursor);
    WithheldIff(e, PlanLease(e, ctx, now).reply.lease.address, ctx.mac);
    NewLeaseIs(e.subnet, PlanLease(e, ctx, now).cursor, ctx, now);
  }

  /** The client an address is reserved for is granted it when it is free, expired or its
      own, in a reserved pool or not, and is offered nothing else. */
  lemma ReservationIsHonoured(e: EngineState, ctx: Context, now: int, a: Address)
    requires EngineInv(e) && ctx.subnetId == e.subnet.id
    requires ReservedFor(e.hosts, a, ctx.mac) && (Owns(e.store, ctx, a) || !Taken(e.store, a, now))
    ensures ctx.requestType.Discover? ==> Offers(PlanLease(e, ctx, now), e, a, ctx, now)
    ensures ctx.requestType.Request? && ctx.requestAddr == Some(a) ==>
              Offers(AllocateLease(e, ctx, now), e, a, ctx, now)
  {
    hide Owns, Within, PlanLease, AllocateLease;
    match ctx.requestType
    case Discover => DiscoverAnswer(e, ctx, now);
    case Request => RequestAnswer(e, ctx, now);
    case _ =>
  }

  // ---------------------------------------------------------------- in every run

  /** In every state a run reaches, REQUESTs and DISCOVERs respect reservations and
      RELEASEs and DECLINEs succeed exactly for the client's own lease. */
  lemma AnswersInEveryRun(subnet: Subnet, hosts: map<Mac, Address>, events: seq<Event>, ctx: Context, now: int)
    requires WellFormed(subnet.pools) && AllAdmissible(subnet.id, events) && Admissible(subnet.id, Message(ctx))
    ensures var e := Run(Start(subnet, hosts), events);
            var o := Decide(e, Message(ctx), now);
            && (o.reply.Granted? && DistinctReservations(e.hosts) ==>
                  var a := o.reply.lease.address;
                  || (ctx.requestType.Discover? && Owns(e.store, ctx, a))
                  || (&& !ReservedForOther(e.hosts, a, ctx.mac)
                      && (Within(e.subnet.reservedPools, a) ==> ReservedFor(e.hosts, a, ctx.mac))))
            && (ctx.requestType.Release? || ctx.requestType.Decline? ==>
                  (o.reply == Done <==> ctx.requestAddr.Some? && Owns(e.store, ctx, ctx.requestAddr.value)))
  {
    hide EngineInv, Run, Owns, Within, ReservedForOther, DistinctReservations, PlanLease, AllocateLease,
      ReleaseLease, DeclineLease, DeclineConflictIp;
    StartHoldsInv(Start(subnet, hosts));
    RunKeepsInv(Start(subnet, hosts), events);
    var e := Run(Start(subnet, hosts), events);
    match ctx.requestType
    case Discover =>
      if PlanLease(e, ctx, now).reply.Granted? && DistinctReservations(e.hosts) {
        OfferRespectsReservations(e, ctx, now);
      }
    case Request =>
      if AllocateLease(e, ctx, now).reply.Granted? && DistinctReservations(e.hosts) {
        GrantRespectsReservations(e, ctx, now);
      }
    case Release => ReleaseAnswer(e, ctx);
    case Decline => DeclineAnswer(e, ctx, now);
    case ConflictIp => ConflictAnswer(e, ctx, now);
  }
}
