/** What every run of the engine guarantees: exact indexes, take-over only by
    key, complete search, quarantine of declined addresses, offers honoured. */
module EngineTheorems {
  import opened Wrappers
  import opened Pools
  import opened Leases
  import opened LeaseStores
  import opened LeaseOps
  import opened Engine
  import opened EngineRuns

  // ---------------------------------------------------------------- every step keeps the invariant

  lemma RequestKeepsInv(e: EngineState, ctx: Context, now: int)
    requires EngineInv(e) && ctx.subnetId == e.subnet.id && ctx.requestType.Request?
    ensures var s := After(e, AllocateLease(e, ctx, now));
            Live(s) && ClientExact(s) && OwnLeases(s, e.subnet.id)
  {
    hide AddressIsReserved, PrefersReservation, InPools, WellFormed;
    RequestEffect(e, ctx, now);
    var o := AllocateLease(e, ctx, now);
    if o.reply.Granted? {
      var l := o.reply.lease;
      var held := FindOldLease(e.store, ctx);
      FoundLeaseIsLive(e.store, ctx);
      var except := if held.Some? then {held.value.address} else {};
      PutFacts(e.store, l, except);
      WithoutKeeps(Put(e.store, l), except, except);
      assert except - except == {};
    }
  }

  lemma PutKeylessKeepsInv(e: EngineState, l: Lease)
    requires EngineInv(e) && l.clientId.None? && l.subnetId == e.subnet.id
    ensures var s := Put(e.store, l);
            Live(s) && ClientExact(s) && OwnLeases(s, e.subnet.id)
  {
    PutFacts(e.store, l, {});
  }

  lemma RemovalKeepsInv(e: EngineState, op: LeaseOp)
    requires EngineInv(e) && (op.DeleteOp? || op.DeletePoolOp? || op.DeleteSubnetOp?)
    ensures var s := ApplyAll(e.store, [op]);
            Live(s) && ClientExact(s) && OwnLeases(s, e.subnet.id)
  {
    ApplyOne(e.store, op);
    match op
    case DeleteOp(id, a) =>
      DeleteIsWithout(e.store, id, a);
      WithoutKeeps(e.store, {a}, {});
    case DeletePoolOp(id, p) => WithoutKeeps(e.store, OfSubnetIn(e.store, id, p.start, p.end), {});
    case DeleteSubnetOp(id) => WithoutKeeps(e.store, OfSubnet(e.store, id), {});
  }

  lemma SearchHasNoOps(e: EngineState, ctx: Context, now: int, n: nat, cursor: Address)
    requires ctx.requestType.Discover?
    ensures Search(e, ctx, now, n, cursor).ops == []
    decreases n
  {
  }

  /** A DISCOVER never changes the store. */
  lemma PlanHasNoOps(e: EngineState, ctx: Context, now: int)
    requires WellFormed(e.subnet.pools) && ctx.requestType.Discover?
    ensures PlanLease(e, ctx, now).ops == []
  {
    SearchHasNoOps(e, ctx, now, CapacitySum(e.subnet.pools), e.cursor);
  }

  lemma StepKeepsInv(e: EngineState, step: Step, now: int)
    requires EngineInv(e) && Admissible(e.subnet.id, step)
    ensures EngineInv(Next(e, step, now))
  {
    var o := Decide(e, step, now);
    match step {
      case Message(ctx) =>
        match ctx.requestType {
          case Discover => PlanHasNoOps(e, ctx, now);
          case Request => RequestKeepsInv(e, ctx, now);
          case Release =>
            ReleaseEffect(e, ctx);
            if o.reply == Done {
              WithoutKeeps(e.store, {ctx.requestAddr.value}, {});
            }
          case Decline =>
            DeclineEffect(e, ctx, now);
            if o.reply == Done {
              PutKeylessKeepsInv(e, e.store.byIp[ctx.requestAddr.value].Decline(now));
            }
          case ConflictIp =>
            ConflictEffect(e, ctx, now);
            PutKeylessKeepsInv(e, Blocker(e, ctx, now));
        }
      case AddReservedPool(p) => RemovalKeepsInv(e, DeletePoolOp(e.subnet.id, p));
      case RemovePool(p) => RemovalKeepsInv(e, DeletePoolOp(e.subnet.id, p));
      case RemoveHost(_, a) => RemovalKeepsInv(e, DeleteOp(e.subnet.id, a));
      case PurgeSubnet => RemovalKeepsInv(e, DeleteSubnetOp(e.subnet.id));
      case _ =>
    }
  }

  // ---------------------------------------------------------------- runs

  ghost predicate AllAdmissible(id: SubnetId, events: seq<Event>) {
    forall i | 0 <= i < |events| :: Admissible(id, events[i].step)
  }

  /** The clock never goes back. */
  ghost predicate Timed(events: seq<Event>) {
    forall i, j | 0 <= i < j < |events| :: events[i].now <= events[j].now
  }

  ghost function Run(e: EngineState, events: seq<Event>): (r: EngineState)
    requires WellFormed(e.subnet.pools) && AllAdmissible(e.subnet.id, events)
    ensures WellFormed(r.subnet.pools) && r.subnet.id == e.subnet.id
  {
    if events == [] then e
    else
      var n := |events| - 1;
      Next(Run(e, events[..n]), events[n].step, events[n].now)
  }

  ghost function Start(subnet: Subnet, hosts: map<Mac, Address>): (e: EngineState) {
    EngineState(subnet, hosts, EMPTY, 0)
  }

  lemma StartHoldsInv(e: EngineState)
    requires e.store == EMPTY && WellFormed(e.subnet.pools)
    ensures EngineInv(e)
  {
  }

  lemma {:induction false} RunKeepsInv(e: EngineState, events: seq<Event>)
    requires EngineInv(e) && AllAdmissible(e.subnet.id, events)
    ensures EngineInv(Run(e, events))
  {
    hide Live, ClientIndexed, OwnLeases, Decide, Reconfigure, ApplyAll;
    if events != [] {
      var n := |events| - 1;
      RunKeepsInv(e, events[..n]);
      StepKeepsInv(Run(e, events[..n]), events[n].step, events[n].now);
    }
  }

  /** In every state reached from an empty store, by client messages and
      administrator commands in any order, each index entry is the lease live
      at its own address, and the client-id index is the exact inverse of the
      leases on non-empty client-ids: one lease per client-id. */
  lemma IndexesExactInEveryRun(subnet: Subnet, hosts: map<Mac, Address>, events: seq<Event>)
    requires WellFormed(subnet.pools) && AllAdmissible(subnet.id, events)
    ensures var s := Run(Start(subnet, hosts), events).store;
            && Live(s)
            && (forall c, l: Lease | c != [] ::
                  (c in s.byClient && s.byClient[c] == l)
                  <==> (l.address in s.byIp && s.byIp[l.address] == l && l.clientId == Some(c)))
            && (forall a, b, c | a in s.byIp && b in s.byIp
                                 && s.byIp[a].HasClientKey(c) && s.byIp[b].HasClientKey(c) :: a == b)
  {
    RunKeepsInv(Start(subnet, hosts), events);
    var s := Run(Start(subnet, hosts), events).store;
    forall a, b, c | a in s.byIp && b in s.byIp && s.byIp[a].HasClientKey(c) && s.byIp[b].HasClientKey(c)
      ensures a == b
    {
      ClientExactMeansOneLeasePerClient(s, a, b, c);
    }
  }

  // ---------------------------------------------------------------- who may take over an address

  ghost function Offered(o: Outcome): (r: Option<Address>) {
    if o.reply.Granted? then Some(o.reply.lease.address) else None
  }

  lemma SearchOffersFree(e: EngineState, ctx: Context, now: int, n: nat, cursor: Address)
    requires EngineInv(e) && ctx.subnetId == e.subnet.id && ctx.requestType.Discover?
    ensures var o := Search(e, ctx, now, n, cursor);
            && !o.reply.Done?
            && (o.reply.Granted? ==>
                  && InPools(e.subnet.pools, o.cursor)
                  && Free(e, o.cursor, ctx, now)
                  && o.reply.lease == NewLease(e.subnet, o.cursor, ctx, now))
    decreases n
  {
    if n > 0 && NextPick(e.subnet.pools, cursor).Some? {
      var a := NextPick(e.subnet.pools, cursor).value;
      NextPickDefined(e.subnet.pools, cursor);
      AllocateAtEffect(e, a, ctx, now);
      SearchOffersFree(e, ctx, now, n - 1, a);
    }
  }

  /** What a DISCOVER may offer: the client's own lease, or an address under no
      unexpired lease. */
  lemma PlanOffers(e: EngineState, ctx: Context, now: int)
    requires EngineInv(e) && ctx.subnetId == e.subnet.id && ctx.requestType.Discover?
    ensures var o := PlanLease(e, ctx, now);
            && !o.reply.Done?
            && (o.reply.Granted? ==>
                  var a := o.reply.lease.address;
                  && o.reply.lease == NewLease(e.subnet, a, ctx, now)
                  && (|| (FindOldLease(e.store, ctx).Some? && FindOldLease(e.store, ctx).value.address == a)
                      || (a in e.store.byIp ==> e.store.byIp[a].IsExpired(now))))
  {
    var held := FindOldLease(e.store, ctx);
    var host := HostFor(e.hosts, ctx.mac);
    if held.Some? {
      RenewedIsNew(e.subnet, held.value, ctx, now);
    }
    if host.Some? {
      AllocateAtEffect(e, host.value, ctx, now);
    }
    if ctx.requestAddr.Some? {
      AllocateAtEffect(e, ctx.requestAddr.value, ctx, now);
    }
    SearchOffersFree(e, ctx, now, CapacitySum(e.subnet.pools), e.cursor);
  }

  /** The lease at an address is no longer the one that was there. */
  ghost predicate Displaced(before: Store, after: Store, a: Address)
    requires a in before.byIp
  {
    a !in after.byIp || after.byIp[a] != before.byIp[a]
  }

  lemma TakeOverNeedsKey(e: EngineState, ctx: Context, now: int, a: Address)
    requires EngineInv(e) && Admissible(e.subnet.id, Message(ctx))
    requires a in e.store.byIp && !e.store.byIp[a].IsExpired(now)
    ensures var o := Decide(e, Message(ctx), now);
            Displaced(e.store, After(e, o), a) || Offered(o) == Some(a)
            ==> ctx.Presents(e.store.byIp[a]) || ReportsConflict(ctx, a)
  {
    FoundLeaseIsLive(e.store, ctx);
    match ctx.requestType
    case Discover =>
      PlanHasNoOps(e, ctx, now);
      PlanOffers(e, ctx, now);
    case Request => RequestTakeOver(e, ctx, now, a);
    case Release => ReleaseEffect(e, ctx);
    case Decline =>
      DeclineEffect(e, ctx, now);
      if DeclineLease(e, ctx, now).reply == Done {
        PutByIp(e.store, e.store.byIp[ctx.requestAddr.value].Decline(now));
      }
    case ConflictIp =>
      ConflictEffect(e, ctx, now);
      PutByIp(e.store, Blocker(e, ctx, now));
  }

  /** The one message that may displace a lease without its key; by
      DeclineBlocks it leaves the address declined. */
  predicate ReportsConflict(ctx: Context, a: Address) {
    ctx.requestType.ConflictIp? && ctx.requestAddr == Some(a)
  }

  lemma RequestTakeOver(e: EngineState, ctx: Context, now: int, a: Address)
    requires EngineInv(e) && ctx.subnetId == e.subnet.id && ctx.requestType.Request?
    requires a in e.store.byIp && !e.store.byIp[a].IsExpired(now)
    ensures var o := AllocateLease(e, ctx, now);
            (Displaced(e.store, After(e, o), a) || Offered(o) == Some(a)) ==> ctx.Presents(e.store.byIp[a])
  {
    hide AddressIsReserved, PrefersReservation, InPools, ClientExact, OwnLeases;
    RequestEffect(e, ctx, now);
    FoundLeaseIsLive(e.store, ctx);
    var o := AllocateLease(e, ctx, now);
    if o.reply.Granted? {
      PutByIp(e.store, o.reply.lease);
    }
  }

  /** In every run, no message is given, moves or removes an address under an
      unexpired lease unless it presents that lease's client-id or MAC or
      reports a conflict at that very address. */
  lemma TakeOverNeedsKeyInEveryRun(subnet: Subnet, hosts: map<Mac, Address>, events: seq<Event>,
                                   ctx: Context, now: int, a: Address)
    requires WellFormed(subnet.pools) && AllAdmissible(subnet.id, events)
    requires Admissible(subnet.id, Message(ctx))
    requires var s := Run(Start(subnet, hosts), events).store; a in s.byIp && !s.byIp[a].IsExpired(now)
    ensures var e := Run(Start(subnet, hosts), events);
            var o := Decide(e, Message(ctx), now);
            Displaced(e.store, After(e, o), a) || Offered(o) == Some(a)
            ==> ctx.Presents(e.store.byIp[a]) || ReportsConflict(ctx, a)
  {
    RunKeepsInv(Start(subnet, hosts), events);
    TakeOverNeedsKey(Run(Start(subnet, hosts), events), ctx, now, a);
  }

  // ---------------------------------------------------------------- the search is complete

  /** Pick k is the first free one, and the outcome offers it. */
  ghost predicate OffersPick(e: EngineState, ctx: Context, now: int, picks: seq<Address>, k: nat, o: Outcome)
    requires k < |picks|
  {
    && Free(e, picks[k], ctx, now)
    && (forall j | 0 <= j < k :: !Free(e, picks[j], ctx, now))
    && o == Outcome(Granted(NewLease(e.subnet, picks[k], ctx, now)), [], picks[k])
  }

  lemma {:induction false} SearchFindsFirstFree(e: EngineState, ctx: Context, now: int, n: nat, cursor: Address)
    requires EngineInv(e) && ctx.subnetId == e.subnet.id && ctx.requestType.Discover?
    requires n == 0 || CursorUsable(e.subnet.pools, cursor)
    ensures var picks := Picks(e.subnet.pools, cursor, n);
            var o := Search(e, ctx, now, n, cursor);
            && |picks| == n
            && (|| (o.reply == Refused(NoAddressLeft) && forall k | 0 <= k < n :: !Free(e, picks[k], ctx, now))
                || exists k | 0 <= k < n :: OffersPick(e, ctx, now, picks, k, o))
    decreases n
  {
    if n > 0 {
      var o := Search(e, ctx, now, n, cursor);
      var a := NextPick(e.subnet.pools, cursor).value;
      var picks := Picks(e.subnet.pools, cursor, n);
      var rest := Picks(e.subnet.pools, a, n - 1);
      NextPickDefined(e.subnet.pools, cursor);
      AllocateAtEffect(e, a, ctx, now);
      SearchFindsFirstFree(e, ctx, now, n - 1, a);
      if Free(e, a, ctx, now) {
        assert OffersPick(e, ctx, now, picks, 0, o);
      } else if o.reply != Refused(NoAddressLeft) {
        var k :| 0 <= k < n - 1 && OffersPick(e, ctx, now, rest, k, o);
        assert OffersPick(e, ctx, now, picks, k + 1, o);
      }
    }
  }

  /** allocateUnreservedLease reports that no address is left exactly when no
      pool address is free for this client, and otherwise offers a free one. */
  lemma NoAddressLeftIff(e: EngineState, ctx: Context, now: int)
    requires EngineInv(e) && ctx.subnetId == e.subnet.id && ctx.requestType.Discover?
    requires Allocatable(e.subnet.pools)
    requires e.subnet.pools == [] || CursorUsable(e.subnet.pools, e.cursor)
    ensures var o := Search(e, ctx, now, CapacitySum(e.subnet.pools), e.cursor);
            && (o.reply == Refused(NoAddressLeft) <==>
                  forall a | InPools(e.subnet.pools, a) :: !Free(e, a, ctx, now))
            && (o.reply != Refused(NoAddressLeft) ==>
                  && o.reply == Granted(NewLease(e.subnet, o.cursor, ctx, now))
                  && InPools(e.subnet.pools, o.cursor)
                  && Free(e, o.cursor, ctx, now))
  {
    var pools := e.subnet.pools;
    var n := CapacitySum(pools);
    CapacityCountsAddresses(pools);
    SearchFindsFirstFree(e, ctx, now, n, e.cursor);
    SearchOffersFree(e, ctx, now, n, e.cursor);
    if pools != [] {
      PicksVisitEveryAddressOnce(pools, e.cursor);
      var picks := Picks(pools, e.cursor, n);
      var o := Search(e, ctx, now, n, e.cursor);
      if o.reply == Refused(NoAddressLeft) {
        forall a | InPools(pools, a)
          ensures !Free(e, a, ctx, now)
        {
          assert a in picks;
        }
      }
    }
  }

  // ---------------------------------------------------------------- declined addresses stay out

  /** A lease without keys sits at the address until at least the given time. */
  ghost predicate Blocked(s: Store, a: Address, until: int) {
    && a in s.byIp
    && s.byIp[a].mac.None? && s.byIp[a].clientId.None?
    && until <= s.byIp[a].ExpiresAt()
  }

  ghost predicate Clocked(s: Store, t: int) {
    forall a | a in s.byIp :: s.byIp[a].lastTransaction <= t
  }

  lemma StepKeepsClocked(e: EngineState, step: Step, now: int, t: int)
    requires EngineInv(e) && Admissible(e.subnet.id, step) && Clocked(e.store, t) && t <= now
    ensures Clocked(Next(e, step, now).store, now)
  {
    match step {
      case Message(ctx) =>
        match ctx.requestType {
          case Discover => PlanHasNoOps(e, ctx, now);
          case Request =>
            RequestEffect(e, ctx, now);
            if AllocateLease(e, ctx, now).reply.Granted? {
              PutByIp(e.store, AllocateLease(e, ctx, now).reply.lease);
            }
          case Release => ReleaseEffect(e, ctx);
          case Decline =>
            DeclineEffect(e, ctx, now);
            if DeclineLease(e, ctx, now).reply == Done {
              PutByIp(e.store, e.store.byIp[ctx.requestAddr.value].Decline(now));
            }
          case ConflictIp =>
            ConflictEffect(e, ctx, now);
            PutByIp(e.store, Blocker(e, ctx, now));
        }
      case AddReservedPool(p) => ApplyOne(e.store, DeletePoolOp(e.subnet.id, p));
      case RemovePool(p) => ApplyOne(e.store, DeletePoolOp(e.subnet.id, p));
      case RemoveHost(_, a) => ApplyOne(e.store, DeleteOp(e.subnet.id, a));
      case PurgeSubnet => ApplyOne(e.store, DeleteSubnetOp(e.subnet.id));
      case _ =>
    }
  }

  lemma MessageKeepsBlocked(e: EngineState, ctx: Context, now: int, a: Address, until: int)
    requires EngineInv(e) && Admissible(e.subnet.id, Message(ctx))
    requires Clocked(e.store, now) && Blocked(e.store, a, until) && now <= until
    ensures var o := Decide(e, Message(ctx), now);
            Offered(o) != Some(a) && Blocked(After(e, o), a, until)
  {
    if ctx.requestType.ConflictIp? {
      ConflictEffect(e, ctx, now);
      PutByIp(e.store, Blocker(e, ctx, now));
    } else {
      TakeOverNeedsKey(e, ctx, now, a);
    }
  }

  lemma {:induction false} RunKeepsClocked(e: EngineState, events: seq<Event>, t: int)
    requires EngineInv(e) && AllAdmissible(e.subnet.id, events) && e.store == EMPTY
    requires Timed(events) && forall i | 0 <= i < |events| :: events[i].now <= t
    ensures Clocked(Run(e, events).store, t)
  {
    hide Live, ClientIndexed, OwnLeases, Decide, Reconfigure, ApplyAll;
    if events != [] {
      var n := |events| - 1;
      RunKeepsInv(e, events[..n]);
      RunKeepsClocked(e, events[..n], events[n].now);
      StepKeepsClocked(Run(e, events[..n]), events[n].step, events[n].now, events[n].now);
    }
  }

  /** The event is a DECLINE or conflict report for the address, and succeeds. */
  ghost predicate Declines(e: EngineState, event: Event, a: Address)
    requires WellFormed(e.subnet.pools) && Admissible(e.subnet.id, event.step)
  {
    && event.step.Message?
    && (event.step.ctx.requestType.Decline? || event.step.ctx.requestType.ConflictIp?)
    && event.step.ctx.requestAddr == Some(a)
    && Decide(e, event.step, event.now).reply == Done
  }

  /** A declined lease keeps its lifetime; one made for a conflict has the subnet's. */
  function DeclinedLifetime(e: EngineState, a: Address): (t: int) {
    if a in e.store.byIp then e.store.byIp[a].validLifetime else e.subnet.validLifetime
  }

  lemma DeclineBlocks(e: EngineState, event: Event, a: Address)
    requires EngineInv(e) && Admissible(e.subnet.id, event.step) && Declines(e, event, a)
    ensures var s := Next(e, event.step, event.now).store;
            && a in s.byIp && Blocked(s, a, s.byIp[a].ExpiresAt())
            && s.byIp[a].state == Declined && s.byIp[a].lastTransaction == event.now
            && s.byIp[a].validLifetime == DeclinedLifetime(e, a)
  {
    var ctx := event.step.ctx;
    if ctx.requestType.Decline? {
      DeclineEffect(e, ctx, event.now);
      PutByIp(e.store, e.store.byIp[a].Decline(event.now));
    } else {
      ConflictEffect(e, ctx, event.now);
      PutByIp(e.store, Blocker(e, ctx, event.now));
    }
  }

  /** The command deletes the lease at the address. */
  predicate Deletes(e: EngineState, step: Step, a: Address) {
    match step
    case AddReservedPool(p) => Deletable(p) && p.Includes(a)
    case RemovePool(p) => p in e.subnet.pools && Deletable(p) && p.Includes(a)
    case RemoveHost(_, x) => x == a
    case PurgeSubnet => true
    case _ => false
  }

  /** Up to time `until`, exactly the deleting commands unblock a blocked address. */
  lemma StepKeepsBlockedIff(e: EngineState, step: Step, now: int, a: Address, until: int)
    requires EngineInv(e) && Admissible(e.subnet.id, step)
    requires Clocked(e.store, now) && Blocked(e.store, a, until) && now <= until
    ensures Blocked(Next(e, step, now).store, a, until) <==> !Deletes(e, step, a)
    ensures Offered(Decide(e, step, now)) != Some(a)
  {
    hide PlanLease, AllocateLease, ReleaseLease, DeclineLease, DeclineConflictIp, ClientIndexed, InPools;
    match step
    case Message(ctx) => MessageKeepsBlocked(e, ctx, now, a, until);
    case AddReservedPool(p) => ApplyOne(e.store, DeletePoolOp(e.subnet.id, p));
    case RemovePool(p) => ApplyOne(e.store, DeletePoolOp(e.subnet.id, p));
    case RemoveHost(_, x) => ApplyOne(e.store, DeleteOp(e.subnet.id, x));
    case PurgeSubnet => ApplyOne(e.store, DeleteSubnetOp(e.subnet.id));
    case _ =>
  }

  /** Without such a command a blocked address stays blocked up to time `until`. */
  lemma {:induction false} RunKeepsBlocked(e: EngineState, events: seq<Event>, d: nat, a: Address, until: int)
    requires EngineInv(e) && AllAdmissible(e.subnet.id, events) && e.store == EMPTY && Timed(events)
    requires d <= |events| && Blocked(Run(e, events[..d]).store, a, until)
    requires forall k | d <= k < |events| ::
               events[k].now <= until && !Deletes(Run(e, events[..k]), events[k].step, a)
    ensures Blocked(Run(e, events).store, a, until)
  {
    hide Live, ClientIndexed, OwnLeases, Decide, Next, Run, Blocked, Deletes;
    var n := |events| - 1;
    if d == |events| {
      assert events[..d] == events;
    } else {
      assert forall k | 0 <= k <= n :: events[..n][..k] == events[..k];
      assert events[..n + 1] == events;
      RunKeepsInv(e, events[..n]);
      RunKeepsClocked(e, events[..n], events[n].now);
      RunKeepsBlocked(e, events[..n], d, a, until);
      RunLast(e, events, n);
      StepKeepsBlockedIff(Run(e, events[..n]), events[n].step, events[n].now, a, until);
    }
  }

  /** In every run from an empty store: once event d, a DECLINE or conflict
      report for the address, has succeeded, no later event i offers or grants
      the address while the clock has not passed the time of that report plus
      the lifetime of the lease that was there, or else of the subnet, unless a
      command in between deleted the lease it left. */
  lemma DeclinedAddressStaysOut(subnet: Subnet, hosts: map<Mac, Address>, events: seq<Event>,
                                d: nat, i: nat, a: Address)
    requires WellFormed(subnet.pools) && AllAdmissible(subnet.id, events) && Timed(events)
    requires d < i < |events| && Declines(Run(Start(subnet, hosts), events[..d]), events[d], a)
    requires forall k | d < k < i :: !Deletes(Run(Start(subnet, hosts), events[..k]), events[k].step, a)
    ensures var s := Run(Start(subnet, hosts), events[..d + 1]).store;
            && a in s.byIp && s.byIp[a].state == Declined && s.byIp[a].lastTransaction == events[d].now
            && (events[i].now <= events[d].now + DeclinedLifetime(Run(Start(subnet, hosts), events[..d]), a) ==>
                  var e := Run(Start(subnet, hosts), events[..i]);
                  Offered(Decide(e, events[i].step, events[i].now)) != Some(a))
  {
    hide Decide, Reconfigure, ApplyAll, Next, Run, Live, ClientIndexed, OwnLeases, Deletes;
    var start := Start(subnet, hosts);
    StartHoldsInv(start);
    RunLast(start, events, d);
    RunKeepsInv(start, events[..d]);
    DeclineBlocks(Run(start, events[..d]), events[d], a);
    var s := Run(start, events[..d + 1]).store;
    var until := s.byIp[a].ExpiresAt();
    if events[i].now <= until {
      assert forall k | 0 <= k <= i :: events[..i][..k] == events[..k];
      RunKeepsInv(start, events[..i]);
      RunKeepsClocked(start, events[..i], events[i].now);
      RunKeepsBlocked(start, events[..i], d + 1, a, until);
      StepKeepsBlockedIff(Run(start, events[..i]), events[i].step, events[i].now, a, until);
    }
  }

  lemma RunLast(e: EngineState, events: seq<Event>, d: nat)
    requires WellFormed(e.subnet.pools) && AllAdmissible(e.subnet.id, events) && d < |events|
    ensures Run(e, events[..d + 1]) == Next(Run(e, events[..d]), events[d].step, events[d].now)
  {
    assert events[..d + 1][..d] == events[..d];
  }

  // ---------------------------------------------------------------- offers are honoured

  /** No reservations, and no lease a client could find lies in a reserved pool. */
  ghost predicate ReservedPoolsClear(e: EngineState) {
    && e.hosts == map[]
    && forall a | a in e.store.byIp && (e.store.byIp[a].mac.Some? || e.store.byIp[a].clientId.Some?) ::
         !InPools(e.subnet.reservedPools, a)
  }

  lemma ReservedPoolsGrow(pools: seq<Pool>, p: Pool, a: Address)
    ensures InPools(pools + [p], a) <==> InPools(pools, a) || p.Includes(a)
  {
    if InPools(pools, a) {
      var i :| 0 <= i < |pools| && pools[i].Includes(a);
      assert (pools + [p])[i].Includes(a);
    }
    if p.Includes(a) {
      assert (pools + [p])[|pools|].Includes(a);
    }
  }

  lemma ReservedPoolsShrink(pools: seq<Pool>, p: Pool, a: Address)
    requires InPools(RemoveFirst(pools, p), a)
    ensures InPools(pools, a)
  {
    var rest := RemoveFirst(pools, p);
    var i :| 0 <= i < |rest| && rest[i].Includes(a);
    assert rest[i] in pools;
  }

  lemma StepKeepsReservedClear(e: EngineState, step: Step, now: int)
    requires EngineInv(e) && Admissible(e.subnet.id, step) && ReservedPoolsClear(e) && !step.AddHost?
    ensures ReservedPoolsClear(Next(e, step, now))
  {
    hide PrefersReservation, WellFormed, ClientExact;
    match step {
      case Message(ctx) =>
        match ctx.requestType {
          case Discover => PlanHasNoOps(e, ctx, now);
          case Request =>
            RequestEffect(e, ctx, now);
            if AllocateLease(e, ctx, now).reply.Granted? {
              PutByIp(e.store, AllocateLease(e, ctx, now).reply.lease);
            }
          case Release => ReleaseEffect(e, ctx);
          case Decline =>
            DeclineEffect(e, ctx, now);
            if DeclineLease(e, ctx, now).reply == Done {
              PutByIp(e.store, e.store.byIp[ctx.requestAddr.value].Decline(now));
            }
          case ConflictIp =>
            ConflictEffect(e, ctx, now);
            PutByIp(e.store, Blocker(e, ctx, now));
        }
      case AddReservedPool(p) =>
        ApplyOne(e.store, DeletePoolOp(e.subnet.id, p));
        forall a: Address { ReservedPoolsGrow(e.subnet.reservedPools, p, a); }
      case RemoveReservedPool(p) =>
        forall a | InPools(RemoveFirst(e.subnet.reservedPools, p), a) {
          ReservedPoolsShrink(e.subnet.reservedPools, p, a);
        }
      case RemovePool(p) => ApplyOne(e.store, DeletePoolOp(e.subnet.id, p));
      case RemoveHost(_, a) => ApplyOne(e.store, DeleteOp(e.subnet.id, a));
      case PurgeSubnet => ApplyOne(e.store, DeleteSubnetOp(e.subnet.id));
      case _ =>
    }
  }

  lemma {:induction false} RunKeepsReservedClear(e: EngineState, events: seq<Event>)
    requires EngineInv(e) && AllAdmissible(e.subnet.id, events) && ReservedPoolsClear(e)
    requires forall i | 0 <= i < |events| :: !events[i].step.AddHost?
    ensures ReservedPoolsClear(Run(e, events))
  {
    hide Live, ClientIndexed, OwnLeases, Decide, Reconfigure, ApplyAll;
    if events != [] {
      var n := |events| - 1;
      RunKeepsInv(e, events[..n]);
      RunKeepsReservedClear(e, events[..n]);
      StepKeepsReservedClear(Run(e, events[..n]), events[n].step, events[n].now);
    }
  }

  /** The REQUEST by which a client takes up an offer. */
  function TakeUp(ctx: Context, a: Address): (r: Context) {
    ctx.(requestType := Request, requestAddr := Some(a))
  }

  /** With reservations: the offer is granted exactly when the address is by
      then not reserved against the client and the client has no reservation of
      its own that it could use instead. */
  lemma OfferGrantedIff(e: EngineState, ctx: Context, now: int, cursor: Address, now': int)
    requires EngineInv(e) && ctx.subnetId == e.subnet.id && ctx.requestType.Discover? && now <= now'
    requires PlanLease(e, ctx, now).reply.Granted?
    ensures var a := PlanLease(e, ctx, now).reply.lease.address;
            var e' := e.(cursor := cursor);
            var o := AllocateLease(e', TakeUp(ctx, a), now');
            && (o.reply.Granted? <==>
                  && !AddressIsReserved(e.subnet, e.hosts, a, ctx.mac)
                  && !PrefersReservation(e.store, HostFor(e.hosts, ctx.mac), a, TakeUp(ctx, a), now'))
            && (o.reply.Granted? ==>
                  && o.reply.lease == NewLease(e.subnet, a, ctx, now')
                  && a in After(e', o).byIp && After(e', o).byIp[a] == o.reply.lease)
  {
    hide AddressIsReserved, InPools, ClientExact, OwnLeases, WellFormed, Search;
    var a := PlanLease(e, ctx, now).reply.lease.address;
    var e' := e.(cursor := cursor);
    var req := TakeUp(ctx, a);
    FoundLeaseIsLive(e.store, ctx);
    SearchOffersFree(e, ctx, now, CapacitySum(e.subnet.pools), e.cursor);
    assert FindOldLease(e'.store, req) == FindOldLease(e.store, ctx);
    AllocateAtEffect(e', a, req, now');
    RequestEffect(e', req, now');
    PutByIp(e.store, NewLease(e.subnet, a, req, now'));
  }

  lemma OfferNotReserved(e: EngineState, ctx: Context, now: int)
    requires EngineInv(e) && ReservedPoolsClear(e) && ctx.subnetId == e.subnet.id && ctx.requestType.Discover?
    requires PlanLease(e, ctx, now).reply.Granted?
    ensures !AddressIsReserved(e.subnet, e.hosts, PlanLease(e, ctx, now).reply.lease.address, ctx.mac)
  {
    FoundLeaseIsLive(e.store, ctx);
    SearchOffersFree(e, ctx, now, CapacitySum(e.subnet.pools), e.cursor);
  }

  /** Without host reservations, in every run: the address a DISCOVER is offered
      is granted to the same client whenever it asks for it next, however much
      later, and the grant is on file. */
  lemma OffersAreHonoured(subnet: Subnet, events: seq<Event>, ctx: Context, now: int, now': int)
    requires WellFormed(subnet.pools) && AllAdmissible(subnet.id, events)
    requires forall i | 0 <= i < |events| :: !events[i].step.AddHost?
    requires ctx.subnetId == subnet.id && ctx.requestType.Discover? && now <= now'
    requires PlanLease(Run(Start(subnet, map[]), events), ctx, now).reply.Granted?
    ensures var e := Run(Start(subnet, map[]), events);
            var a := PlanLease(e, ctx, now).reply.lease.address;
            var e' := Next(e, Message(ctx), now);
            var o := AllocateLease(e', TakeUp(ctx, a), now');
            && o.reply == Granted(NewLease(e.subnet, a, ctx, now'))
            && a in After(e', o).byIp && After(e', o).byIp[a] == o.reply.lease
  {
    hide Search, FindOldLease, InPools, RenewedLease, Live, ClientExact, OwnLeases, AllocateAt, MoveOps, NewLease;
    var start := Start(subnet, map[]);
    StartHoldsInv(Start(subnet, map[]));
    RunKeepsInv(start, events);
    RunKeepsReservedClear(start, events);
    var e := Run(start, events);
    PlanHasNoOps(e, ctx, now);
    OfferNotReserved(e, ctx, now);
    OfferGrantedIff(e, ctx, now, PlanLease(e, ctx, now).cursor, now');
  }
}
