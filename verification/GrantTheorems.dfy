/** How long a grant lasts: over every run, a granted address is the client's until the
    lease runs out (master/engine.go, master/lease.go). */
module GrantTheorems {
  import opened Wrappers
  import opened Pools
  import opened Leases
  import opened LeaseStores
  import opened LeaseOps
  import opened Engine
  import opened EngineRuns
  import opened EngineTheorems
  import opened Answers

  /** A lease at the address lasts at least until the given time. */
  predicate HeldUntil(s: Store, a: Address, until: int) {
    a in s.byIp && until <= s.byIp[a].lastTransaction + s.byIp[a].validLifetime
  }

  /** A REQUEST that passes every guard, told from the state alone. */
  ghost predicate WillGrant(e: EngineState, ctx: Context, now: int) {
    && ctx.requestAddr.Some?
    && var a := ctx.requestAddr.value;
    && !Withheld(e, a, ctx.mac) && !ReservedElsewhere(e, ctx, now, a)
    && (|| Owns(e.store, ctx, a)
        || (&& ((ctx.mac.Some? && ctx.mac.value in e.hosts) || Within(e.subnet.pools, a))
            && !Taken(e.store, a, now)))
  }

  lemma WillGrantIff(e: EngineState, ctx: Context, now: int)
    requires EngineInv(e) && ctx.subnetId == e.subnet.id && ctx.requestType.Request?
    ensures AllocateLease(e, ctx, now).reply.Granted? <==> WillGrant(e, ctx, now)
  {
    hide EngineInv, AllocateLease, Withheld, ReservedElsewhere, Owns, Within;
    RequestAnswer(e, ctx, now);
  }

  /** The step takes the lease at the address away: its owner releases, declines or moves
      off it, a conflict is reported there, or a command deletes it. */
  ghost predicate Removes(e: EngineState, step: Step, now: int, a: Address) {
    match step
    case Message(ctx) =>
      (match ctx.requestType
       case Discover => false
       case Request => WillGrant(e, ctx, now) && ctx.requestAddr != Some(a) && Owns(e.store, ctx, a)
       case Release => ctx.requestAddr == Some(a) && Owns(e.store, ctx, a)
       case Decline => ctx.requestAddr == Some(a) && Owns(e.store, ctx, a)
       case ConflictIp => ctx.requestAddr == Some(a))
    case _ => Deletes(e, step, a)
  }

  /** Its owner renews the lease, so that it now ends before the given time. */
  ghost predicate Shortens(e: EngineState, step: Step, now: int, a: Address, until: int) {
    && step.Message? && step.ctx.requestType.Request? && step.ctx.requestAddr == Some(a)
    && WillGrant(e, step.ctx, now) && now + e.subnet.validLifetime < until
  }

  /** No other step ends a lease early, and none gives the address to a client that does
      not present the lease's client-id or MAC. */
  lemma StepKeepsHeld(e: EngineState, step: Step, now: int, a: Address, until: int)
    requires EngineInv(e) && Admissible(e.subnet.id, step) && HeldUntil(e.store, a, until) && now <= until
    ensures !Removes(e, step, now, a) && !Shortens(e, step, now, a, until) ==>
              HeldUntil(Next(e, step, now).store, a, until)
    ensures Offered(Decide(e, step, now)) == Some(a) ==> step.Message? && step.ctx.Presents(e.store.byIp[a])
  {
    hide PlanLease, AllocateLease, ReleaseLease, DeclineLease, DeclineConflictIp, ClientIndexed, InPools, WillGrant,
      Owns;
    TakenIff(e.store, a, now);
    match step
    case Message(ctx) =>
      TakeOverNeedsKey(e, ctx, now, a);
      MessageKeepsHeld(e, ctx, now, a, until);
    case AddReservedPool(p) => ApplyOne(e.store, DeletePoolOp(e.subnet.id, p));
    case RemovePool(p) => ApplyOne(e.store, DeletePoolOp(e.subnet.id, p));
    case RemoveHost(_, x) => ApplyOne(e.store, DeleteOp(e.subnet.id, x));
    case PurgeSubnet => ApplyOne(e.store, DeleteSubnetOp(e.subnet.id));
    case _ =>
  }

  lemma MessageKeepsHeld(e: EngineState, ctx: Context, now: int, a: Address, until: int)
    requires EngineInv(e) && Admissible(e.subnet.id, Message(ctx)) && HeldUntil(e.store, a, until) && now <= until
    ensures ReportsConflict(ctx, a) ==> Offered(Decide(e, Message(ctx), now)) != Some(a)
    ensures !Removes(e, Message(ctx), now, a) && !Shortens(e, Message(ctx), now, a, until) ==>
              HeldUntil(After(e, Decide(e, Message(ctx), now)), a, until)
  {
    hide PlanLease, AllocateLease, ReleaseLease, DeclineLease, DeclineConflictIp, ClientIndexed, InPools, WillGrant,
      Owns, ApplyAll;
    match ctx.requestType
    case Discover => PlanHasNoOps(e, ctx, now); NoOps(e.store);
    case Request =>
      WillGrantIff(e, ctx, now);
      RequestAnswer(e, ctx, now);
      RequestFiles(e, ctx, now);
    case Release => ReleaseAnswer(e, ctx);
    case Decline => DeclineAnswer(e, ctx, now);
    case ConflictIp => ConflictAnswer(e, ctx, now);
  }

  lemma NoOps(s: Store)
    ensures ApplyAll(s, []) == s
  {
  }

  lemma {:induction false} RunKeepsHeld(e: EngineState, events: seq<Event>, d: nat, a: Address, until: int)
    requires EngineInv(e) && AllAdmissible(e.subnet.id, events)
    requires d <= |events| && HeldUntil(Run(e, events[..d]).store, a, until)
    requires forall k | d <= k < |events| ::
               && events[k].now <= until
               && !Removes(Run(e, events[..k]), events[k].step, events[k].now, a)
               && !Shortens(Run(e, events[..k]), events[k].step, events[k].now, a, until)
    ensures HeldUntil(Run(e, events).store, a, until)
  {
    hide Live, ClientIndexed, OwnLeases, Decide, Next, Run, HeldUntil, Removes, Shortens;
    var n := |events| - 1;
    if d == |events| {
      assert events[..d] == events;
    } else {
      assert forall k | 0 <= k <= n :: events[..n][..k] == events[..k];
      assert events[..n + 1] == events;
      RunKeepsInv(e, events[..n]);
      RunKeepsHeld(e, events[..n], d, a, until);
      RunLast(e, events, n);
      StepKeepsHeld(Run(e, events[..n]), events[n].step, events[n].now, a, until);
    }
  }

  /** Event g is a REQUEST that is granted the address. */
  ghost predicate Grants(e: EngineState, event: Event, a: Address)
    requires WellFormed(e.subnet.pools) && Admissible(e.subnet.id, event.step)
  {
    && event.step.Message? && event.step.ctx.requestType.Request? && event.step.ctx.requestAddr == Some(a)
    && Decide(e, event.step, event.now).reply.Granted?
  }

  /** In every run from an empty store: once event g has granted an address, a lease of
      its subnet's lifetime is on file there, and up to the end of that lifetime no later
      event i offers or grants the address to a client that does not present the
      client-id or MAC of the lease there, unless in between that lease was removed or
      cut short by its owner's renewal. */
  lemma GrantedAddressIsKept(subnet: Subnet, hosts: map<Mac, Address>, events: seq<Event>, g: nat, i: nat, a: Address)
    requires WellFormed(subnet.pools) && AllAdmissible(subnet.id, events) && Timed(events)
    requires g < i < |events| && Grants(Run(Start(subnet, hosts), events[..g]), events[g], a)
    requires var until := events[g].now + Run(Start(subnet, hosts), events[..g]).subnet.validLifetime;
             forall k | g < k < i ::
               && !Removes(Run(Start(subnet, hosts), events[..k]), events[k].step, events[k].now, a)
               && !Shortens(Run(Start(subnet, hosts), events[..k]), events[k].step, events[k].now, a, until)
    ensures var was := Run(Start(subnet, hosts), events[..g]);
            var first := Run(Start(subnet, hosts), events[..g + 1]).store;
            var e := Run(Start(subnet, hosts), events[..i]);
            && a in first.byIp && IsLeaseFor(first.byIp[a], was.subnet, a, events[g].step.ctx, events[g].now)
            && (events[i].now <= events[g].now + was.subnet.validLifetime ==>
                  && a in e.store.byIp
                  && (Offered(Decide(e, events[i].step, events[i].now)) == Some(a) ==>
                        events[i].step.Message? && events[i].step.ctx.Presents(e.store.byIp[a])))
  {
    hide Decide, Reconfigure, ApplyAll, Next, Run, Live, ClientIndexed, OwnLeases, Removes, Shortens;
    var start := Start(subnet, hosts);
    StartHoldsInv(start);
    RunLast(start, events, g);
    RunKeepsInv(start, events[..g]);
    var was := Run(start, events[..g]);
    var until := events[g].now + was.subnet.validLifetime;
    GrantIsOnFile(was, events[g], a);
    if events[i].now <= until {
      assert forall k | 0 <= k <= i :: events[..i][..k] == events[..k];
      RunKeepsInv(start, events[..i]);
      RunKeepsHeld(start, events[..i], g + 1, a, until);
      StepKeepsHeld(Run(start, events[..i]), events[i].step, events[i].now, a, until);
    }
  }

  /** Its owner is granted the address again. */
  ghost predicate Renews(e: EngineState, step: Step, now: int, a: Address) {
    step.Message? && step.ctx.requestType.Request? && step.ctx.requestAddr == Some(a) && WillGrant(e, step.ctx, now)
  }

  /** While a lease lasts, only its removal or renewal changes it. */
  lemma StepKeepsLease(e: EngineState, step: Step, now: int, a: Address)
    requires EngineInv(e) && Admissible(e.subnet.id, step) && a in e.store.byIp
    requires !Removes(e, step, now, a) && !Renews(e, step, now, a)
    ensures var s := Next(e, step, now).store; a in s.byIp && s.byIp[a] == e.store.byIp[a]
  {
    hide PlanLease, AllocateLease, ReleaseLease, DeclineLease, DeclineConflictIp, ClientIndexed, InPools, WillGrant,
      Owns;
    match step
    case Message(ctx) => MessageKeepsLease(e, ctx, now, a);
    case AddReservedPool(p) => ApplyOne(e.store, DeletePoolOp(e.subnet.id, p));
    case RemovePool(p) => ApplyOne(e.store, DeletePoolOp(e.subnet.id, p));
    case RemoveHost(_, x) => ApplyOne(e.store, DeleteOp(e.subnet.id, x));
    case PurgeSubnet => ApplyOne(e.store, DeleteSubnetOp(e.subnet.id));
    case _ =>
  }

  lemma MessageKeepsLease(e: EngineState, ctx: Context, now: int, a: Address)
    requires EngineInv(e) && Admissible(e.subnet.id, Message(ctx)) && a in e.store.byIp
    requires !Removes(e, Message(ctx), now, a) && !Renews(e, Message(ctx), now, a)
    ensures var s := After(e, Decide(e, Message(ctx), now)); a in s.byIp && s.byIp[a] == e.store.byIp[a]
  {
    hide PlanLease, AllocateLease, ReleaseLease, DeclineLease, DeclineConflictIp, ClientIndexed, InPools, WillGrant,
      Owns, ApplyAll;
    match ctx.requestType
    case Discover => PlanHasNoOps(e, ctx, now); NoOps(e.store);
    case Request =>
      WillGrantIff(e, ctx, now);
      RequestFiles(e, ctx, now);
    case Release => ReleaseAnswer(e, ctx);
    case Decline => DeclineAnswer(e, ctx, now);
    case ConflictIp => ConflictAnswer(e, ctx, now);
  }

  lemma {:induction false} RunKeepsLease(e: EngineState, events: seq<Event>, d: nat, a: Address)
    requires EngineInv(e) && AllAdmissible(e.subnet.id, events)
    requires d <= |events| && a in Run(e, events[..d]).store.byIp
    requires forall k | d <= k < |events| ::
               && !Removes(Run(e, events[..k]), events[k].step, events[k].now, a)
               && !Renews(Run(e, events[..k]), events[k].step, events[k].now, a)
    ensures var s := Run(e, events).store; a in s.byIp && s.byIp[a] == Run(e, events[..d]).store.byIp[a]
  {
    hide Live, ClientIndexed, OwnLeases, Decide, Next, Run, Removes, Renews;
    var n := |events| - 1;
    if d == |events| {
      assert events[..d] == events;
    } else {
      assert forall k | 0 <= k <= n :: events[..n][..k] == events[..k];
      assert events[..n + 1] == events;
      RunKeepsInv(e, events[..n]);
      RunKeepsLease(e, events[..n], d, a);
      RunLast(e, events, n);
      StepKeepsLease(Run(e, events[..n]), events[n].step, events[n].now, a);
    }
  }

  /** In every run: a granted lease stays exactly as granted until it is removed or
      renewed, and up to the end of its lifetime nobody without its client-id or MAC is
      offered or granted its address. */
  lemma GrantedLeaseStays(subnet: Subnet, hosts: map<Mac, Address>, events: seq<Event>, g: nat, i: nat, a: Address)
    requires WellFormed(subnet.pools) && AllAdmissible(subnet.id, events)
    requires g < i < |events| && Grants(Run(Start(subnet, hosts), events[..g]), events[g], a)
    requires forall k | g < k < i ::
               && !Removes(Run(Start(subnet, hosts), events[..k]), events[k].step, events[k].now, a)
               && !Renews(Run(Start(subnet, hosts), events[..k]), events[k].step, events[k].now, a)
    ensures var was := Run(Start(subnet, hosts), events[..g]);
            var e := Run(Start(subnet, hosts), events[..i]);
            && a in e.store.byIp && IsLeaseFor(e.store.byIp[a], was.subnet, a, events[g].step.ctx, events[g].now)
            && (events[i].now <= events[g].now + was.subnet.validLifetime
                && Offered(Decide(e, events[i].step, events[i].now)) == Some(a) ==>
                  events[i].step.Message? && events[i].step.ctx.Presents(e.store.byIp[a]))
  {
    hide Decide, Reconfigure, ApplyAll, Next, Run, Live, ClientIndexed, OwnLeases, Removes, Renews;
    var start := Start(subnet, hosts);
    StartHoldsInv(start);
    RunLast(start, events, g);
    RunKeepsInv(start, events[..g]);
    GrantIsOnFile(Run(start, events[..g]), events[g], a);
    assert forall k | 0 <= k <= i :: events[..i][..k] == events[..k];
    RunKeepsInv(start, events[..i]);
    RunKeepsLease(start, events[..i], g + 1, a);
    var until := events[g].now + Run(start, events[..g]).subnet.validLifetime;
    if events[i].now <= until {
      StepKeepsHeld(Run(start, events[..i]), events[i].step, events[i].now, a, until);
    }
  }

  lemma GrantIsOnFile(e: EngineState, event: Event, a: Address)
    requires EngineInv(e) && Admissible(e.subnet.id, event.step) && Grants(e, event, a)
    ensures var s := Next(e, event.step, event.now).store;
            a in s.byIp && IsLeaseFor(s.byIp[a], e.subnet, a, event.step.ctx, event.now)
  {
    hide AllocateLease, ApplyAll, Owns, Withheld, Within, ReservedElsewhere;
    RequestAnswer(e, event.step.ctx, event.now);
    RequestFiles(e, event.step.ctx, event.now);
  }

  /** When the lifetime has passed, the address is its owner's, or anyone's whose it may
      be: it is granted exactly when it is not withheld, the client is not to have another,
      and it is in a pool or the client has a reservation. */
  lemma ExpiredAddressIsGranted(e: EngineState, ctx: Context, now: int, a: Address)
    requires EngineInv(e) && ctx.subnetId == e.subnet.id && ctx.requestType.Request? && ctx.requestAddr == Some(a)
    requires a in e.store.byIp && e.store.byIp[a].lastTransaction + e.store.byIp[a].validLifetime < now
    ensures Offers(AllocateLease(e, ctx, now), e, a, ctx, now) <==>
            && !Withheld(e, a, ctx.mac) && !ReservedElsewhere(e, ctx, now, a)
            && (Owns(e.store, ctx, a) || Within(e.subnet.pools, a) || (ctx.mac.Some? && ctx.mac.value in e.hosts))
  {
    hide AllocateLease, Owns, Within, EngineInv, Withheld, ReservedElsewhere;
    RequestAnswer(e, ctx, now);
  }
}
