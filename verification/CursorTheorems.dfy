/** The round-robin cursor over the engine's runs, and the nil dereference it guards
    against (master/iterative_allocator.go, master/subnet_command.go). */
module CursorTheorems {
  import opened Wrappers
  import opened Pools
  import opened Leases
  import opened LeaseStores
  import opened LeaseOps
  import opened Engine
  import opened EngineRuns
  import opened EngineTheorems

  ghost predicate CursorOk(e: EngineState) {
    e.cursor == 0 || InPools(e.subnet.pools, e.cursor)
  }

  lemma {:induction false} SearchKeepsCursor(e: EngineState, ctx: Context, now: int, n: nat, cursor: Address)
    requires WellFormed(e.subnet.pools) && (n == 0 || CursorUsable(e.subnet.pools, cursor))
    ensures var o := Search(e, ctx, now, n, cursor);
            o.reply != Panic && (o.cursor == cursor || InPools(e.subnet.pools, o.cursor))
    decreases n
  {
    if n > 0 {
      NextPickDefined(e.subnet.pools, cursor);
      SearchKeepsCursor(e, ctx, now, n - 1, NextPick(e.subnet.pools, cursor).value);
    }
  }

  /** While the cursor is unset or in a pool, no client message panics or loses it. */
  lemma MessageKeepsCursor(e: EngineState, ctx: Context, now: int)
    requires EngineInv(e) && Admissible(e.subnet.id, Message(ctx)) && CursorOk(e)
    ensures Decide(e, Message(ctx), now).reply != Panic && CursorOk(Next(e, Message(ctx), now))
  {
    match ctx.requestType
    case Discover =>
      SearchKeepsCursor(e, ctx, now, CapacitySum(e.subnet.pools), e.cursor);
    case Request => RequestEffect(e, ctx, now);
    case Release => ReleaseEffect(e, ctx);
    case Decline => DeclineEffect(e, ctx, now);
    case ConflictIp => ConflictEffect(e, ctx, now);
  }

  // ---------------------------------------------------------------- panics

  /** A search dereferences nil exactly when it makes a pick and the cursor is neither
      unset nor in a pool. */
  lemma SearchPanicsIff(e: EngineState, ctx: Context, now: int)
    requires WellFormed(e.subnet.pools)
    ensures var pools := e.subnet.pools;
            Search(e, ctx, now, CapacitySum(pools), e.cursor).reply == Panic <==> CapacitySum(pools) > 0 && !CursorOk(e)
  {
    NextPickDefined(e.subnet.pools, e.cursor);
    if CapacitySum(e.subnet.pools) == 0 || CursorUsable(e.subnet.pools, e.cursor) {
      SearchKeepsCursor(e, ctx, now, CapacitySum(e.subnet.pools), e.cursor);
    }
  }

  predicate InUse(s: Store, a: Address, now: int) {
    a in s.byIp && !s.byIp[a].IsExpired(now)
  }

  /** A DISCOVER that neither its reservation, nor its own lease, nor the address it
      wants can answer. */
  predicate FallsToSearch(e: EngineState, ctx: Context, now: int) {
    && FindOldLease(e.store, ctx).None?
    && (HostFor(e.hosts, ctx.mac).Some? ==> InUse(e.store, HostFor(e.hosts, ctx.mac).value, now))
    && (ctx.requestAddr.Some? && InPools(e.subnet.pools, ctx.requestAddr.value)
        && !AddressIsReserved(e.subnet, e.hosts, ctx.requestAddr.value, ctx.mac) ==>
          InUse(e.store, ctx.requestAddr.value, now))
  }

  /** Exactly which messages panic. */
  lemma MessagePanicsIff(e: EngineState, ctx: Context, now: int)
    requires EngineInv(e) && Admissible(e.subnet.id, Message(ctx))
    ensures Decide(e, Message(ctx), now).reply == Panic
            <==> && ctx.requestType.Discover? && FallsToSearch(e, ctx, now)
                 && CapacitySum(e.subnet.pools) > 0 && !CursorOk(e)
  {
    hide Search, CapacitySum, CursorOk, AddressIsReserved, NewLease, RenewedLease;
    match ctx.requestType
    case Discover => SearchPanicsIff(e, ctx, now);
    case Request => RequestEffect(e, ctx, now);
    case Release => ReleaseEffect(e, ctx);
    case Decline => DeclineEffect(e, ctx, now);
    case ConflictIp => ConflictEffect(e, ctx, now);
  }

  /** On disjoint pools without 0.0.0.0, the capacity is positive as soon as there is a
      pool. */
  lemma CapacityPositiveIff(pools: seq<Pool>)
    requires Allocatable(pools)
    ensures CapacitySum(pools) > 0 <==> pools != []
  {
    CapacityCountsAddresses(pools);
    if pools != [] {
      assert pools[0].Includes(pools[0].start);
      AllAddressesExact(pools, pools[0].start);
    }
  }

  // ---------------------------------------------------------------- losing the cursor

  /** The command deletes a pool the cursor is in. */
  predicate LosesCursor(e: EngineState, step: Step) {
    step.RemovePool? && Deletable(step.pool) && step.pool in e.subnet.pools
    && e.cursor != 0 && step.pool.Includes(e.cursor)
  }

  lemma PoolStays(pools: seq<Pool>, p: Pool, a: Address)
    requires InPools(pools, a) && (p in pools ==> !p.Includes(a))
    ensures InPools(RemoveFirst(pools, p), a)
  {
    var i :| 0 <= i < |pools| && pools[i].Includes(a);
    RemoveFirstKeepsRest(pools, p);
    assert pools[i] in RemoveFirst(pools, p);
  }

  lemma {:induction false} RemoveFirstKeepsRest(pools: seq<Pool>, p: Pool)
    ensures forall q | q in pools && q != p :: q in RemoveFirst(pools, p)
  {
    if pools != [] && pools[0] != p {
      RemoveFirstKeepsRest(pools[1..], p);
    }
  }

  /** No step but the deletion of the pool the cursor is in loses the cursor. */
  lemma StepKeepsCursor(e: EngineState, step: Step, now: int)
    requires EngineInv(e) && Admissible(e.subnet.id, step) && CursorOk(e) && !LosesCursor(e, step)
    ensures CursorOk(Next(e, step, now))
  {
    match step
    case Message(ctx) => MessageKeepsCursor(e, ctx, now);
    case AddPool(p) => ReservedPoolsGrow(e.subnet.pools, p, e.cursor);
    case RemovePool(p) =>
      if e.cursor != 0 && Deletable(p) {
        PoolStays(e.subnet.pools, p, e.cursor);
      }
    case _ =>
  }

  /** Of disjoint pools, that deletion always loses it: exactly which steps do. */
  lemma StepLosesCursorIff(e: EngineState, step: Step, now: int)
    requires EngineInv(e) && Admissible(e.subnet.id, step) && Allocatable(e.subnet.pools) && CursorOk(e)
    ensures CursorOk(Next(e, step, now)) <==> !LosesCursor(e, step)
  {
    if LosesCursor(e, step) {
      var rest := RemoveFirst(e.subnet.pools, step.pool);
      RemovedIsGone(e.subnet.pools, step.pool);
      forall j | 0 <= j < |rest|
        ensures !rest[j].Includes(e.cursor)
      {
        assert rest[j] in rest;
      }
    } else {
      StepKeepsCursor(e, step, now);
    }
  }

  /** In every run whose commands never delete the pool the cursor is in, no message
      panics. */
  lemma {:induction false} RunNeverPanics(subnet: Subnet, hosts: map<Mac, Address>, events: seq<Event>)
    requires WellFormed(subnet.pools) && AllAdmissible(subnet.id, events)
    requires forall i | 0 <= i < |events| :: !LosesCursor(Run(Start(subnet, hosts), events[..i]), events[i].step)
    ensures CursorOk(Run(Start(subnet, hosts), events))
    ensures forall i | 0 <= i < |events| && events[i].step.Message? ::
              Decide(Run(Start(subnet, hosts), events[..i]), events[i].step, events[i].now).reply != Panic
    decreases |events|
  {
    hide Next, Decide, LosesCursor, EngineInv, Admissible, Run, CursorOk;
    var start := Start(subnet, hosts);
    if events == [] {
      StartCursorOk(start, events);
    } else {
      var n := |events| - 1;
      var init := events[..n];
      assert forall i | 0 <= i <= n :: init[..i] == events[..i];
      assert forall i | 0 <= i < n :: init[i] == events[i];
      RunNeverPanics(subnet, hosts, init);
      StartHoldsInv(Start(subnet, hosts));
      RunKeepsInv(start, init);
      RunLast(start, events, n);
      assert events[..n + 1] == events;
      var e := Run(start, init);
      assert !LosesCursor(e, events[n].step);
      StepKeepsCursor(e, events[n].step, events[n].now);
      if events[n].step.Message? {
        MessageKeepsCursor(e, events[n].step.ctx, events[n].now);
      }
      forall i | 0 <= i < |events| && events[i].step.Message?
        ensures Decide(Run(start, events[..i]), events[i].step, events[i].now).reply != Panic
      {
        if i < n {
          assert init[i].step.Message?;
        }
      }
    }
  }

  lemma StartCursorOk(e: EngineState, events: seq<Event>)
    requires WellFormed(e.subnet.pools) && AllAdmissible(e.subnet.id, events) && events == [] && e.cursor == 0
    ensures CursorOk(Run(e, events))
  {
  }

  /** A run that ends in a panic: a DISCOVER sets the cursor, its pool is deleted, and
      the next client's DISCOVER falls to the search. */
  lemma DeletedPoolCanPanic() returns (subnet: Subnet, events: seq<Event>)
    ensures WellFormed(subnet.pools) && AllAdmissible(subnet.id, events) && Timed(events) && |events| == 3
    ensures Decide(Run(Start(subnet, map[]), events[..2]), events[2].step, events[2].now).reply == Panic
  {
    hide Decide, Next, Run, EngineInv;
    var p, q := Pool(1, 1), Pool(2, 2);
    subnet := Subnet(0, 0, 0, 9, [p, q], []);
    var ctx1 := Context(Discover, 0, Some([1]), Some(1), None, "");
    var ctx2 := Context(Discover, 0, Some([2]), Some(2), None, "");
    events := [Event(0, Message(ctx1)), Event(0, RemovePool(p)), Event(0, Message(ctx2))];
    var e0 := Start(subnet, map[]);
    var e1 := Next(e0, Message(ctx1), 0);
    var e2 := Next(e1, RemovePool(p), 0);
    FirstOffer(e0, ctx1);
    PoolDeleted(e1, p);
    StartHoldsInv(Start(subnet, map[]));
    RunTwo(e0, events[..2]);
    RunKeepsInv(e0, events[..2]);
    FallsAndPanics(e2, ctx2);
  }

  lemma FirstOffer(e: EngineState, ctx: Context)
    requires e == Start(Subnet(0, 0, 0, 9, [Pool(1, 1), Pool(2, 2)], []), map[])
    requires ctx == Context(Discover, 0, Some([1]), Some(1), None, "")
    ensures Next(e, Message(ctx), 0) == e.(cursor := 1)
  {
    var pools := e.subnet.pools;
    assert pools[..1][..0] == [] && pools[..1] == [Pool(1, 1)];
    assert CapacitySum(pools[..1]) == 1;
    assert CapacitySum(pools) == 2;
    assert NextPick(pools, 0) == Some(1);
    PlanHasNoOps(e, ctx, 0);
  }

  lemma PoolDeleted(e: EngineState, p: Pool)
    requires WellFormed(e.subnet.pools) && e.store == EMPTY && e.subnet.pools == [p, Pool(2, 2)] && Deletable(p)
    ensures Next(e, RemovePool(p), 0) == e.(subnet := e.subnet.(pools := [Pool(2, 2)]))
  {
    ApplyOne(e.store, DeletePoolOp(e.subnet.id, p));
    assert e.subnet.pools[1..] == [Pool(2, 2)];
  }

  lemma FallsAndPanics(e: EngineState, ctx: Context)
    requires EngineInv(e) && Admissible(e.subnet.id, Message(ctx)) && ctx.requestType.Discover? && ctx.requestAddr.None?
    requires e.store == EMPTY && e.hosts == map[] && e.subnet.pools == [Pool(2, 2)] && e.cursor == 1
    ensures Decide(e, Message(ctx), 0).reply == Panic
  {
    hide Decide;
    assert e.subnet.pools[..0] == [];
    assert CapacitySum(e.subnet.pools) == 1;
    MessagePanicsIff(e, ctx, 0);
  }

  lemma RunTwo(e: EngineState, events: seq<Event>)
    requires WellFormed(e.subnet.pools) && AllAdmissible(e.subnet.id, events) && |events| == 2
    ensures var e1 := Next(e, events[0].step, events[0].now);
            Run(e, events) == Next(e1, events[1].step, events[1].now)
  {
    hide Next;
    assert events[..1][..0] == [];
    assert Run(e, events[..1]) == Next(e, events[0].step, events[0].now);
  }

  /** Of disjoint pools, the named one goes and no other overlaps it. */
  lemma {:induction false} RemovedIsGone(pools: seq<Pool>, p: Pool)
    requires Disjoint(pools) && WellFormed(pools)
    ensures p !in RemoveFirst(pools, p)
    ensures forall q, a: Address | p in pools && q in RemoveFirst(pools, p) :: !(p.Includes(a) && q.Includes(a))
  {
    if pools != [] && pools[0] != p {
      RemovedIsGone(pools[1..], p);
    }
  }
}
