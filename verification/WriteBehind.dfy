/** The write-behind lease log: several subnets, each with its own engine and
    memory store, send their operations through fixed routes to a few workers
    that batch them into one shared table (master/lease_db_pool.go,
    master/hybrid_lease_manager.go). Every interleaving of client messages,
    administrator commands, sends, receives, ticks and shutdown is a run. */
module WriteBehind {
  import opened Wrappers
  import opened Pools
  import opened Leases
  import opened LeaseStores
  import opened LeaseOps
  import opened Engine
  import opened EngineRuns
  import opened EngineTheorems
  import opened Rows

  const OPT_CHAN_LEN: nat := 1024

  datatype System = System(
    engines: map<SubnetId, EngineState>,
    outbox: map<SubnetId, seq<LeaseOp>>,   // done in memory, not yet on the channel
    route: map<SubnetId, nat>,
    channels: seq<seq<LeaseOp>>,
    buffers: seq<seq<LeaseOp>>,
    rows: Table,
    closed: bool,
    finished: set<nat>)

  datatype Action =
    | Handle(subnet: SubnetId, step: Step, now: int)
    | Send(subnet: SubnetId)
    | Receive(worker: nat)
    | TickWorker(worker: nat)
    | Close
    | Finish(worker: nat)

  /** Which subnet an address belongs to: subnets use disjoint addresses. */
  type Ownership = Address -> SubnetId

  ghost predicate OwnedOp(op: LeaseOp, owner: Ownership) {
    op.AddOp? || op.UpdateOp? ==> owner(op.lease.address) == op.lease.subnetId
  }

  // ---------------------------------------------------------------- steps

  ghost predicate Running(sys: System, w: nat) {
    w < |sys.channels| && w < |sys.buffers| && w !in sys.finished
  }

  ghost predicate Enabled(sys: System, act: Action, owner: Ownership) {
    match act
    case Handle(s, step, now) =>
      && !sys.closed && s in sys.engines && s in sys.outbox && sys.outbox[s] == []
      && WellFormed(sys.engines[s].subnet.pools) && Admissible(sys.engines[s].subnet.id, step)
      && forall op | op in Decide(sys.engines[s], step, now).ops :: OwnedOp(op, owner)
    case Send(s) =>
      && !sys.closed && s in sys.outbox && sys.outbox[s] != [] && s in sys.route
      && sys.route[s] < |sys.channels| && |sys.channels[sys.route[s]]| < OPT_CHAN_LEN
    case Receive(w) => Running(sys, w) && sys.channels[w] != []
    case TickWorker(w) => Running(sys, w)
    case Close => !sys.closed && forall s | s in sys.outbox :: sys.outbox[s] == []
    case Finish(w) => Running(sys, w) && sys.closed && sys.channels[w] == []
  }

  ghost function FlushWorker(sys: System, w: nat): (r: System)
    requires w < |sys.buffers|
  {
    sys.(rows := Replay(sys.rows, sys.buffers[w]), buffers := sys.buffers[w := []])
  }

  ghost function Move(sys: System, w: nat): (r: System)
    requires w < |sys.channels| && w < |sys.buffers| && sys.channels[w] != []
  {
    sys.(buffers := sys.buffers[w := sys.buffers[w] + [sys.channels[w][0]]],
      channels := sys.channels[w := sys.channels[w][1..]])
  }

  ghost function Act(sys: System, act: Action, owner: Ownership): (r: System)
    requires Enabled(sys, act, owner)
  {
    match act
    case Handle(s, step, now) =>
      var e := sys.engines[s];
      sys.(engines := sys.engines[s := Next(e, step, now)],
        outbox := sys.outbox[s := Decide(e, step, now).ops])
    case Send(s) =>
      var w := sys.route[s];
      sys.(channels := sys.channels[w := sys.channels[w] + [sys.outbox[s][0]]],
        outbox := sys.outbox[s := sys.outbox[s][1..]])
    case Receive(w) =>
      var m := Move(sys, w);
      if |m.buffers[w]| == OPT_BUF_COUNT then FlushWorker(m, w) else m
    case TickWorker(w) => FlushWorker(sys, w)
    case Close => sys.(closed := true)
    case Finish(w) => FlushWorker(sys, w).(finished := sys.finished + {w})
  }

  // ---------------------------------------------------------------- the part of the table one subnet owns

  ghost predicate OwnedRows(t: Table, owner: Ownership) {
    forall a | a in t :: t[a].subnetId == owner(a)
  }

  ghost function Part(t: Table, owner: Ownership, s: SubnetId): (r: Table) {
    map a | a in t && owner(a) == s :: t[a]
  }

  ghost function Filter(ops: seq<LeaseOp>, s: SubnetId): (r: seq<LeaseOp>) {
    if ops == [] then []
    else if ops[0].Subnet() == s then [ops[0]] + Filter(ops[1..], s)
    else Filter(ops[1..], s)
  }

  lemma {:induction false} FilterAppend(ops: seq<LeaseOp>, more: seq<LeaseOp>, s: SubnetId)
    ensures Filter(ops + more, s) == Filter(ops, s) + Filter(more, s)
  {
    if ops == [] {
      assert ops + more == more;
    } else {
      assert (ops + more)[1..] == ops[1..] + more;
      FilterAppend(ops[1..], more, s);
      if ops[0].Subnet() == s {
        Regroup([ops[0]], Filter(ops[1..], s), Filter(more, s));
      }
    }
  }

  lemma {:induction false} FilterNone(ops: seq<LeaseOp>, s: SubnetId)
    requires forall i | 0 <= i < |ops| :: ops[i].Subnet() != s
    ensures Filter(ops, s) == []
  {
    if ops != [] {
      FilterNone(ops[1..], s);
    }
  }

  lemma PartApply(t: Table, op: LeaseOp, owner: Ownership, s: SubnetId)
    requires OwnedRows(t, owner) && OwnedOp(op, owner)
    ensures OwnedRows(ApplyRow(t, op), owner)
    ensures Part(ApplyRow(t, op), owner, s)
            == if op.Subnet() == s then ApplyRow(Part(t, owner, s), op) else Part(t, owner, s)
  {
  }

  /** Operations of different subnets do not disturb each other: seen from one
      subnet, a replay is the replay of its own operations. */
  lemma {:induction false} PartReplay(t: Table, ops: seq<LeaseOp>, owner: Ownership, s: SubnetId)
    requires OwnedRows(t, owner) && forall op | op in ops :: OwnedOp(op, owner)
    ensures OwnedRows(Replay(t, ops), owner)
    ensures Part(Replay(t, ops), owner, s) == Replay(Part(t, owner, s), Filter(ops, s))
    decreases |ops|
  {
    if ops != [] {
      PartApply(t, ops[0], owner, s);
      PartReplay(ApplyRow(t, ops[0]), ops[1..], owner, s);
      if ops[0].Subnet() == s {
        assert Filter(ops, s)[1..] == Filter(ops[1..], s);
      } else {
        assert Filter(ops, s) == Filter(ops[1..], s);
      }
    }
  }

  // ---------------------------------------------------------------- what the engine sends

  /** Each operation is accepted by memory and, if an update, has a lease to
      replace: the operations on which memory and table stay in step. */
  ghost predicate InStepAll(s: Store, ops: seq<LeaseOp>)
    decreases |ops|
  {
    ops == []
    || (&& Accepted(s, ops[0]) && !(ops[0].UpdateOp? && ops[0].lease.address !in s.byIp)
        && InStepAll(Apply(s, ops[0]), ops[1..]))
  }

  lemma {:induction false} ReplayInStep(s: Store, ops: seq<LeaseOp>)
    requires Live(s) && InStepAll(s, ops)
    ensures MemRows(ApplyAll(s, ops)) == Replay(MemRows(s), ops)
    decreases |ops|
  {
    if ops != [] {
      InStepIff(s, ops[0]);
      ApplyKeepsLive(s, ops[0]);
      hide Apply, ApplyRow, Live, MemRows, Accepted;
      ReplayInStep(Apply(s, ops[0]), ops[1..]);
    }
  }

  lemma InStepOne(s: Store, op: LeaseOp)
    requires Accepted(s, op) && !(op.UpdateOp? && op.lease.address !in s.byIp)
    ensures InStepAll(s, [op])
  {
    assert [op][1..] == [];
  }

  lemma InStepTwo(s: Store, op: LeaseOp, id: SubnetId, a: Address)
    requires Accepted(s, op) && !(op.UpdateOp? && op.lease.address !in s.byIp)
    ensures InStepAll(s, [op, DeleteOp(id, a)])
  {
    assert [op, DeleteOp(id, a)][1..] == [DeleteOp(id, a)];
    InStepOne(Apply(s, op), DeleteOp(id, a));
  }

  lemma AllocateInStep(e: EngineState, ctx: Context, now: int)
    requires EngineInv(e) && ctx.subnetId == e.subnet.id && ctx.requestType.Request?
    ensures var ops := AllocateLease(e, ctx, now).ops;
            InStepAll(e.store, ops) && forall op | op in ops :: op.Subnet() == e.subnet.id
  {
    hide InStepAll, Apply;
    AllocateOps(e, ctx, now);
    var ops := AllocateLease(e, ctx, now).ops;
    if |ops| == 0 {
      assert ops == [];
      InStepNone(e.store);
    } else if |ops| == 1 {
      InStepOne(e.store, ops[0]);
      assert ops == [ops[0]];
    } else {
      InStepTwo(e.store, ops[0], ops[1].subnetId, ops[1].address);
      assert ops == [ops[0], DeleteOp(ops[1].subnetId, ops[1].address)];
    }
  }

  lemma InStepNone(s: Store)
    ensures InStepAll(s, [])
  {
  }

  /** A REQUEST sends nothing, an add or update, or one of these and a deletion. */
  lemma AllocateOps(e: EngineState, ctx: Context, now: int)
    requires EngineInv(e) && ctx.subnetId == e.subnet.id && ctx.requestType.Request?
    ensures var ops := AllocateLease(e, ctx, now).ops;
            && |ops| <= 2 && (forall op | op in ops :: op.Subnet() == e.subnet.id)
            && (|ops| > 0 ==> Accepted(e.store, ops[0]) && !(ops[0].UpdateOp? && ops[0].lease.address !in e.store.byIp))
            && (|ops| == 2 ==> ops[1].DeleteOp?)
  {
    hide InStepAll, Apply, AddressIsReserved, PrefersReservation, InPools;
    FoundLeaseIsLive(e.store, ctx);
  }

  /** The engine never sends the one kind of operation that would drive memory
      and table apart. */
  lemma {:induction false} DecideInStep(e: EngineState, step: Step, now: int)
    requires EngineInv(e) && Admissible(e.subnet.id, step)
    ensures var ops := Decide(e, step, now).ops;
            InStepAll(e.store, ops) && forall op | op in ops :: op.Subnet() == e.subnet.id
  {
    match step {
      case Message(ctx) =>
        FoundLeaseIsLive(e.store, ctx);
        var held := FindOldLease(e.store, ctx);
        match ctx.requestType {
          case Discover => PlanHasNoOps(e, ctx, now);
          case Request => AllocateInStep(e, ctx, now);
          case Release =>
            if held.Some? {
              InStepOne(e.store, DeleteOp(held.value.subnetId, held.value.address));
            }
          case Decline =>
            if held.Some? {
              InStepOne(e.store, UpdateOp(held.value.Decline(now)));
            }
          case ConflictIp =>
            var l := Blocker(e, ctx, now);
            InStepOne(e.store, if l.address in e.store.byIp then UpdateOp(l) else AddOp(l));
        }
      case AddReservedPool(p) => InStepOne(e.store, DeletePoolOp(e.subnet.id, p));
      case RemovePool(p) => InStepOne(e.store, DeletePoolOp(e.subnet.id, p));
      case RemoveHost(_, a) => InStepOne(e.store, DeleteOp(e.subnet.id, a));
      case PurgeSubnet => InStepOne(e.store, DeleteSubnetOp(e.subnet.id));
      case _ =>
    }
  }

  lemma {:induction false} HandleInStep(e: EngineState, step: Step, now: int)
    requires EngineInv(e) && Admissible(e.subnet.id, step)
    ensures var ops := Decide(e, step, now).ops;
            && MemRows(Next(e, step, now).store) == Replay(MemRows(e.store), ops)
            && forall op | op in ops :: op.Subnet() == e.subnet.id
  {
    DecideInStep(e, step, now);
    ReplayInStep(e.store, Decide(e, step, now).ops);
  }

  // ---------------------------------------------------------------- the invariant

  ghost predicate Wired(sys: System) {
    && |sys.buffers| == |sys.channels|
    && (forall s | s in sys.engines ::
          && EngineInv(sys.engines[s]) && sys.engines[s].subnet.id == s
          && s in sys.outbox && s in sys.route && sys.route[s] < |sys.channels|)
  }

  ghost predicate Sent(ops: seq<LeaseOp>, known: set<SubnetId>, owner: Ownership) {
    forall i | 0 <= i < |ops| :: OwnedOp(ops[i], owner) && ops[i].Subnet() in known
  }

  /** Every operation in the queue was sent by a known subnet to its own worker. */
  ghost predicate Routed(ops: seq<LeaseOp>, known: set<SubnetId>, route: map<SubnetId, nat>, w: nat, owner: Ownership) {
    forall i | 0 <= i < |ops| ::
      && OwnedOp(ops[i], owner)
      && ops[i].Subnet() in known && ops[i].Subnet() in route && route[ops[i].Subnet()] == w
  }

  ghost predicate FromSubnet(ops: seq<LeaseOp>, s: SubnetId, owner: Ownership) {
    forall i | 0 <= i < |ops| :: ops[i].Subnet() == s && OwnedOp(ops[i], owner)
  }

  ghost predicate PendingRouted(sys: System, owner: Ownership) {
    && (forall w | 0 <= w < |sys.channels| :: Routed(sys.channels[w], sys.engines.Keys, sys.route, w, owner))
    && (forall w | 0 <= w < |sys.buffers| :: Routed(sys.buffers[w], sys.engines.Keys, sys.route, w, owner))
    && (forall s | s in sys.outbox :: FromSubnet(sys.outbox[s], s, owner) && (sys.outbox[s] != [] ==> s in sys.engines))
  }

  /** What worker w still has to write. */
  ghost function Pending(sys: System, w: nat): (ops: seq<LeaseOp>)
    requires w < |sys.buffers| && w < |sys.channels|
  {
    sys.buffers[w] + sys.channels[w]
  }

  /** The subnet's memory is its part of the table with its pending operations
      replayed: the worker's buffer, then the channel, then the outbox. */
  ghost predicate InSync(sys: System, owner: Ownership, s: SubnetId)
    requires Wired(sys) && s in sys.engines
  {
    MemRows(sys.engines[s].store)
    == Replay(Part(sys.rows, owner, s), Filter(Pending(sys, sys.route[s]), s) + sys.outbox[s])
  }

  ghost predicate SysInv(sys: System, owner: Ownership) {
    && Wired(sys)
    && OwnedRows(sys.rows, owner) && (forall a | a in sys.rows :: owner(a) in sys.engines)
    && PendingRouted(sys, owner)
    && forall s | s in sys.engines :: InSync(sys, owner, s)
  }

  // ---------------------------------------------------------------- queues seen from one subnet

  lemma FilterSendOwn(p: seq<LeaseOp>, out: seq<LeaseOp>, s: SubnetId)
    requires out != [] && out[0].Subnet() == s
    ensures Filter(p + [out[0]], s) + out[1..] == Filter(p, s) + out
  {
    FilterAppend(p, [out[0]], s);
    assert Filter([out[0]], s) == [out[0]] + Filter([out[0]][1..], s);
    assert out == [out[0]] + out[1..];
  }

  lemma FilterSendOther(p: seq<LeaseOp>, op: LeaseOp, q: SubnetId)
    requires op.Subnet() != q
    ensures Filter(p + [op], q) == Filter(p, q)
  {
    FilterAppend(p, [op], q);
    FilterNone([op], q);
  }

  lemma {:induction false} ReplayFlush(t: Table, batch: seq<LeaseOp>, chan: seq<LeaseOp>, out: seq<LeaseOp>, q: SubnetId)
    ensures Replay(Replay(t, Filter(batch, q)), Filter([] + chan, q) + out)
            == Replay(t, Filter(batch + chan, q) + out)
  {
    FilterAppend(batch, chan, q);
    assert [] + chan == chan;
    assert Filter(batch, q) + Filter(chan, q) + out == Filter(batch, q) + (Filter(chan, q) + out);
    ReplayAppend(t, Filter(batch, q), Filter(chan, q) + out);
  }

  lemma {:induction false} ReplayMore(t: Table, sent: seq<LeaseOp>, ops: seq<LeaseOp>)
    ensures Replay(t, sent + ops) == Replay(Replay(t, sent + []), ops)
  {
    assert sent + [] == sent;
    ReplayAppend(t, sent, ops);
  }

  lemma RoutedParts(ops: seq<LeaseOp>, op: LeaseOp, known: set<SubnetId>, route: map<SubnetId, nat>, w: nat,
                    owner: Ownership)
    ensures Routed(ops, known, route, w, owner) && Routed([op], known, route, w, owner)
            ==> Routed(ops + [op], known, route, w, owner)
    ensures ops != [] && Routed(ops, known, route, w, owner)
            ==> Routed([ops[0]], known, route, w, owner) && Routed(ops[1..], known, route, w, owner)
  {
  }

  lemma OutboxHead(ops: seq<LeaseOp>, s: SubnetId, owner: Ownership, known: set<SubnetId>, route: map<SubnetId, nat>)
    requires FromSubnet(ops, s, owner) && ops != [] && s in known && s in route
    ensures ops[0].Subnet() == s && FromSubnet(ops[1..], s, owner)
    ensures Routed([ops[0]], known, route, route[s], owner)
  {
  }

  // ---------------------------------------------------------------- every action keeps the invariant

  lemma HandleInSync(sys: System, s: SubnetId, step: Step, now: int, owner: Ownership, q: SubnetId)
    requires SysInv(sys, owner) && Enabled(sys, Handle(s, step, now), owner) && q in sys.engines
    requires Wired(Act(sys, Handle(s, step, now), owner))
    ensures InSync(Act(sys, Handle(s, step, now), owner), owner, q)
  {
    hide Decide, Next, EngineInv, MemRows, Part, OwnedOp, Filter, Replay, PendingRouted, OwnedRows;
    assert InSync(sys, owner, q);
    if q == s {
      HandleInStep(sys.engines[s], step, now);
      ReplayMore(Part(sys.rows, owner, s), Filter(Pending(sys, sys.route[s]), s),
                 Decide(sys.engines[s], step, now).ops);
    }
  }

  lemma HandleFromSubnet(e: EngineState, step: Step, now: int, owner: Ownership)
    requires EngineInv(e) && Admissible(e.subnet.id, step)
    requires forall op | op in Decide(e, step, now).ops :: OwnedOp(op, owner)
    ensures FromSubnet(Decide(e, step, now).ops, e.subnet.id, owner)
  {
    hide Decide, Live, ClientIndexed, OwnLeases, OwnedOp;
    HandleInStep(e, step, now);
    var ops := Decide(e, step, now).ops;
    assert forall i | 0 <= i < |ops| :: ops[i] in ops;
  }

  lemma HandleKeeps(sys: System, s: SubnetId, step: Step, now: int, owner: Ownership)
    requires SysInv(sys, owner) && Enabled(sys, Handle(s, step, now), owner)
    ensures SysInv(Act(sys, Handle(s, step, now), owner), owner)
  {
    hide Decide, Next, EngineInv, MemRows, Part, OwnedOp, Filter, Replay, OwnedRows, Routed, FromSubnet, InSync;
    var r := Act(sys, Handle(s, step, now), owner);
    assert r.engines.Keys == sys.engines.Keys;
    StepKeepsInv(sys.engines[s], step, now);
    HandleFromSubnet(sys.engines[s], step, now, owner);
    forall q | q in r.engines
      ensures InSync(r, owner, q)
    {
      HandleInSync(sys, s, step, now, owner, q);
    }
  }

  lemma SendInSync(sys: System, s: SubnetId, owner: Ownership, q: SubnetId)
    requires SysInv(sys, owner) && Enabled(sys, Send(s), owner) && q in sys.engines
    requires sys.outbox[s][0].Subnet() == s && Wired(Act(sys, Send(s), owner))
    ensures InSync(Act(sys, Send(s), owner), owner, q)
  {
    hide Decide, EngineInv, MemRows, Part, OwnedOp, Filter, Replay, PendingRouted, OwnedRows;
    var r := Act(sys, Send(s), owner);
    var w := sys.route[s];
    assert InSync(sys, owner, q);
    assert Pending(r, w) == Pending(sys, w) + [sys.outbox[s][0]];
    if q == s {
      FilterSendOwn(Pending(sys, w), sys.outbox[s], s);
    } else if sys.route[q] == w {
      FilterSendOther(Pending(sys, w), sys.outbox[s][0], q);
    }
  }

  lemma SendKeeps(sys: System, s: SubnetId, owner: Ownership)
    requires SysInv(sys, owner) && Enabled(sys, Send(s), owner)
    ensures SysInv(Act(sys, Send(s), owner), owner)
  {
    hide Decide, EngineInv, MemRows, Part, OwnedOp, Filter, Replay, OwnedRows, Routed, FromSubnet, InSync;
    var r := Act(sys, Send(s), owner);
    var w := sys.route[s];
    OutboxHead(sys.outbox[s], s, owner, sys.engines.Keys, sys.route);
    RoutedParts(sys.channels[w], sys.outbox[s][0], sys.engines.Keys, sys.route, w, owner);
    forall q | q in r.engines
      ensures InSync(r, owner, q)
    {
      SendInSync(sys, s, owner, q);
    }
  }

  lemma MoveInSync(sys: System, w: nat, owner: Ownership, q: SubnetId)
    requires SysInv(sys, owner) && Running(sys, w) && sys.channels[w] != [] && q in sys.engines
    ensures Wired(Move(sys, w)) && InSync(Move(sys, w), owner, q)
  {
    hide EngineInv, MemRows, Part, OwnedOp, Filter, Replay, PendingRouted, OwnedRows;
    assert InSync(sys, owner, q);
    assert Pending(Move(sys, w), sys.route[q]) == Pending(sys, sys.route[q]);
  }

  lemma MoveKeeps(sys: System, w: nat, owner: Ownership)
    requires SysInv(sys, owner) && Running(sys, w) && sys.channels[w] != []
    ensures SysInv(Move(sys, w), owner)
  {
    hide EngineInv, MemRows, Part, OwnedOp, Filter, Replay, OwnedRows, Routed, FromSubnet, InSync;
    var op := sys.channels[w][0];
    RoutedParts(sys.channels[w], op, sys.engines.Keys, sys.route, w, owner);
    RoutedParts(sys.buffers[w], op, sys.engines.Keys, sys.route, w, owner);
    forall q | q in sys.engines
      ensures Wired(Move(sys, w)) && InSync(Move(sys, w), owner, q)
    {
      MoveInSync(sys, w, owner, q);
    }
  }

  lemma ApplyRowOwners(t: Table, op: LeaseOp, owner: Ownership, known: set<SubnetId>)
    requires forall a | a in t :: owner(a) in known
    requires OwnedOp(op, owner) && op.Subnet() in known
    ensures forall a | a in ApplyRow(t, op) :: owner(a) in known
  {
  }

  lemma {:induction false} ReplayOwners(t: Table, ops: seq<LeaseOp>, owner: Ownership, known: set<SubnetId>)
    requires forall a | a in t :: owner(a) in known
    requires Sent(ops, known, owner)
    ensures forall a | a in Replay(t, ops) :: owner(a) in known
    decreases |ops|
  {
    if ops != [] {
      ApplyRowOwners(t, ops[0], owner, known);
      ReplayOwners(ApplyRow(t, ops[0]), ops[1..], owner, known);
    }
  }

  lemma RoutedOwned(ops: seq<LeaseOp>, known: set<SubnetId>, route: map<SubnetId, nat>, w: nat, owner: Ownership)
    requires Routed(ops, known, route, w, owner)
    ensures forall op | op in ops :: OwnedOp(op, owner)
    ensures forall q | q in route && route[q] != w :: Filter(ops, q) == []
  {
    hide OwnedOp;
    forall q | q in route && route[q] != w
      ensures Filter(ops, q) == []
    {
      FilterNone(ops, q);
    }
  }

  lemma FlushInSync(sys: System, w: nat, owner: Ownership, q: SubnetId)
    requires SysInv(sys, owner) && Running(sys, w) && q in sys.engines
    ensures Wired(FlushWorker(sys, w)) && OwnedRows(FlushWorker(sys, w).rows, owner)
    ensures InSync(FlushWorker(sys, w), owner, q)
  {
    hide EngineInv, MemRows, Part, OwnedOp, Filter, Replay, OwnedRows, Routed, FromSubnet;
    var batch := sys.buffers[w];
    assert InSync(sys, owner, q);
    RoutedOwned(batch, sys.engines.Keys, sys.route, w, owner);
    PartReplay(sys.rows, batch, owner, q);
    ReplayNothing(Part(sys.rows, owner, q));
    ReplayFlush(Part(sys.rows, owner, q), batch, sys.channels[w], sys.outbox[q], q);
  }

  lemma ReplayNothing(t: Table)
    ensures Replay(t, []) == t
  {
  }

  lemma FlushKeeps(sys: System, w: nat, owner: Ownership)
    requires SysInv(sys, owner) && Running(sys, w)
    ensures SysInv(FlushWorker(sys, w), owner)
  {
    hide EngineInv, MemRows, Part, OwnedOp, Filter, Replay, OwnedRows, FromSubnet, InSync;
    var batch := sys.buffers[w];
    ReplayOwners(sys.rows, batch, owner, sys.engines.Keys);
    RoutedOwned(batch, sys.engines.Keys, sys.route, w, owner);
    PartReplay(sys.rows, batch, owner, 0);
    forall q | q in sys.engines
      ensures Wired(FlushWorker(sys, w)) && InSync(FlushWorker(sys, w), owner, q)
    {
      FlushInSync(sys, w, owner, q);
    }
  }

  lemma SameTablesKeep(sys: System, r: System, owner: Ownership)
    requires SysInv(sys, owner) && r == sys.(closed := r.closed, finished := r.finished)
    ensures SysInv(r, owner)
  {
    hide EngineInv, MemRows, Part, OwnedOp, Replay, Filter, OwnedRows, Routed, FromSubnet;
    forall q | q in r.engines
      ensures InSync(r, owner, q)
    {
      assert InSync(sys, owner, q);
    }
  }

  lemma ActKeeps(sys: System, act: Action, owner: Ownership)
    requires SysInv(sys, owner) && Enabled(sys, act, owner)
    ensures SysInv(Act(sys, act, owner), owner)
  {
    hide SysInv, Decide, Next;
    match act
    case Handle(s, step, now) => HandleKeeps(sys, s, step, now, owner);
    case Send(s) => SendKeeps(sys, s, owner);
    case Receive(w) =>
      MoveKeeps(sys, w, owner);
      FlushKeeps(Move(sys, w), w, owner);
    case TickWorker(w) => FlushKeeps(sys, w, owner);
    case Close => SameTablesKeep(sys, sys.(closed := true), owner);
    case Finish(w) =>
      FlushKeeps(sys, w, owner);
      SameTablesKeep(FlushWorker(sys, w), Act(sys, act, owner), owner);
  }

  // ---------------------------------------------------------------- queue bounds and shutdown

  ghost predicate Bounded(sys: System) {
    && |sys.buffers| == |sys.channels|
    && (forall w | 0 <= w < |sys.buffers| :: |sys.buffers[w]| < OPT_BUF_COUNT)
    && (forall w | 0 <= w < |sys.channels| :: |sys.channels[w]| <= OPT_CHAN_LEN)
  }

  /** After Close nothing is sent any more, and a finished worker has written
      everything it was sent. */
  ghost predicate ClosedDown(sys: System) {
    && (sys.closed ==> forall s | s in sys.outbox :: sys.outbox[s] == [])
    && (sys.finished != {} ==> sys.closed)
    && (forall w | w in sys.finished && w < |sys.channels| && w < |sys.buffers| ::
          sys.channels[w] == [] && sys.buffers[w] == [])
  }

  lemma ActKeepsBounds(sys: System, act: Action, owner: Ownership)
    requires Bounded(sys) && ClosedDown(sys) && Enabled(sys, act, owner)
    ensures Bounded(Act(sys, act, owner)) && ClosedDown(Act(sys, act, owner))
  {
    hide Decide, Next, Replay, OwnedOp;
  }

  // ---------------------------------------------------------------- runs

  ghost predicate Initial(sys: System) {
    && !sys.closed && sys.finished == {} && sys.rows == map[]
    && |sys.buffers| == |sys.channels|
    && (forall w | 0 <= w < |sys.channels| :: sys.channels[w] == [] && sys.buffers[w] == [])
    && sys.outbox.Keys == sys.engines.Keys && sys.route.Keys == sys.engines.Keys
    && (forall s | s in sys.engines ::
          && sys.engines[s].store == EMPTY && sys.engines[s].subnet.id == s
          && WellFormed(sys.engines[s].subnet.pools)
          && sys.outbox[s] == [] && sys.route[s] < |sys.channels|)
  }

  ghost predicate IsRun(states: seq<System>, acts: seq<Action>, owner: Ownership) {
    && |states| == |acts| + 1 && Initial(states[0])
    && forall i | 0 <= i < |acts| ::
         Enabled(states[i], acts[i], owner) && states[i + 1] == Act(states[i], acts[i], owner)
  }

  lemma InitialInv(sys: System, owner: Ownership)
    requires Initial(sys)
    ensures SysInv(sys, owner) && Bounded(sys) && ClosedDown(sys)
  {
    hide EngineInv, MemRows, Part, Replay, Filter, OwnedOp;
    forall s | s in sys.engines
      ensures EngineInv(sys.engines[s])
    {
      StartHoldsInv(sys.engines[s]);
    }
    assert Wired(sys);
    forall s | s in sys.engines
      ensures InSync(sys, owner, s)
    {
      assert Pending(sys, sys.route[s]) == [];
      StartInSync(owner, s);
    }
  }

  lemma StartInSync(owner: Ownership, s: SubnetId)
    ensures MemRows(EMPTY) == Replay(Part(map[], owner, s), Filter([], s) + [])
  {
    assert Part(map[], owner, s) == map[] == MemRows(EMPTY);
  }

  /** In every run, at every moment, each subnet's memory is its part of the
      table with its worker's buffer, then the channel, then what is about to
      be sent, replayed in order. */
  lemma {:induction false} RunInSync(states: seq<System>, acts: seq<Action>, owner: Ownership, i: nat)
    requires IsRun(states, acts, owner) && i < |states|
    ensures SysInv(states[i], owner) && Bounded(states[i]) && ClosedDown(states[i])
    decreases i
  {
    hide SysInv, Bounded, ClosedDown, Enabled, Act, Initial;
    if i == 0 {
      InitialInv(states[0], owner);
    } else {
      RunInSync(states, acts, owner, i - 1);
      ActKeeps(states[i - 1], acts[i - 1], owner);
      ActKeepsBounds(states[i - 1], acts[i - 1], owner);
    }
  }

  /** In every state of a run fewer than 40 operations wait in a worker's buffer and at
      most 1024 in its channel; a sender is blocked exactly by a full channel, the 40th
      operation and every tick and the end of a worker write the buffer out, in order. */
  lemma WritesInEveryRun(states: seq<System>, acts: seq<Action>, owner: Ownership, i: nat, w: nat)
    requires IsRun(states, acts, owner) && i < |states| && w < |states[i].channels|
    ensures var sys := states[i];
            && w < |sys.buffers| && |sys.buffers[w]| < 40 && |sys.channels[w]| <= 1024
            && (forall s | !sys.closed && s in sys.outbox && sys.outbox[s] != [] && s in sys.route && sys.route[s] == w ::
                  Enabled(sys, Send(s), owner) <==> |sys.channels[w]| < 1024)
            && (Enabled(sys, Receive(w), owner) ==>
                  var next := Act(sys, Receive(w), owner);
                  var all := sys.buffers[w] + [sys.channels[w][0]];
                  && next.channels == sys.channels[w := sys.channels[w][1..]]
                  && (if |all| == 40
                      then next.rows == Replay(sys.rows, all) && next.buffers == sys.buffers[w := []]
                      else next.rows == sys.rows && next.buffers == sys.buffers[w := all]))
            && (forall act | (act == TickWorker(w) || act == Finish(w)) && Enabled(sys, act, owner) ::
                  var next := Act(sys, act, owner);
                  && next.rows == Replay(sys.rows, sys.buffers[w]) && next.buffers == sys.buffers[w := []]
                  && next.channels == sys.channels)
  {
    hide Replay, Decide, Next, OwnedOp, SysInv, Initial;
    RunInSync(states, acts, owner, i);
  }

  /** The table a set of engines would fill, each subnet its own addresses. */
  ghost predicate TableIsMemory(t: Table, sys: System, owner: Ownership) {
    forall a ::
      && (a in t <==> owner(a) in sys.engines && a in sys.engines[owner(a)].store.byIp)
      && (a in t ==> t[a] == FromLease(sys.engines[owner(a)].store.byIp[a]))
  }

  lemma PartsMakeTable(t: Table, sys: System, owner: Ownership)
    requires forall a | a in t :: owner(a) in sys.engines
    requires forall s | s in sys.engines :: Part(t, owner, s) == MemRows(sys.engines[s].store)
    ensures TableIsMemory(t, sys, owner)
  {
    forall a: Address
      ensures a in t <==> owner(a) in sys.engines && a in sys.engines[owner(a)].store.byIp
      ensures a in t ==> t[a] == FromLease(sys.engines[owner(a)].store.byIp[a])
    {
      var s := owner(a);
      if s in sys.engines {
        assert Part(t, owner, s) == MemRows(sys.engines[s].store);
        assert a in Part(t, owner, s) <==> a in t;
      }
    }
  }

  /** When Stop has returned, every worker has finished and the table holds
      exactly the leases in memory. */
  lemma StoppedTableIsMemory(states: seq<System>, acts: seq<Action>, owner: Ownership)
    requires IsRun(states, acts, owner)
    requires var sys := states[|acts|]; forall w: nat | w < |sys.channels| :: w in sys.finished
    requires var sys := states[|acts|]; sys.closed
    ensures TableIsMemory(states[|acts|].rows, states[|acts|], owner)
  {
    var sys := states[|acts|];
    RunInSync(states, acts, owner, |acts|);
    hide EngineInv, MemRows, Part, OwnedOp, OwnedRows, PendingRouted, Initial, Enabled, Act;
    forall s | s in sys.engines
      ensures Part(sys.rows, owner, s) == MemRows(sys.engines[s].store)
    {
      assert InSync(sys, owner, s);
      assert Pending(sys, sys.route[s]) == [];
    }
    PartsMakeTable(sys.rows, sys, owner);
  }

  // ---------------------------------------------------------------- all workers at once

  /** The queues of the workers from w on, each buffer before its channel. */
  ghost function AllPending(sys: System, w: nat): (ops: seq<LeaseOp>)
    requires |sys.buffers| == |sys.channels| && w <= |sys.channels|
    decreases |sys.channels| - w
  {
    if w == |sys.channels| then [] else Pending(sys, w) + AllPending(sys, w + 1)
  }

  lemma {:induction false} AllPendingSent(sys: System, w: nat, owner: Ownership)
    requires Wired(sys) && PendingRouted(sys, owner) && w <= |sys.channels|
    ensures Sent(AllPending(sys, w), sys.engines.Keys, owner)
    decreases |sys.channels| - w
  {
    if w < |sys.channels| {
      hide EngineInv, OwnedOp;
      AllPendingSent(sys, w + 1, owner);
      assert Routed(sys.buffers[w], sys.engines.Keys, sys.route, w, owner);
      assert Routed(sys.channels[w], sys.engines.Keys, sys.route, w, owner);
    }
  }

  lemma {:induction false} FilterAllPending(sys: System, w: nat, owner: Ownership, s: SubnetId)
    requires Wired(sys) && PendingRouted(sys, owner) && w <= |sys.channels| && s in sys.engines
    ensures Filter(AllPending(sys, w), s) == if w <= sys.route[s] then Filter(Pending(sys, sys.route[s]), s) else []
    decreases |sys.channels| - w
  {
    hide EngineInv, OwnedOp, Filter;
    if w == |sys.channels| {
      FilterNone([], s);
    } else {
      FilterAllPending(sys, w + 1, owner, s);
      FilterAppend(Pending(sys, w), AllPending(sys, w + 1), s);
      FilterAppend(sys.buffers[w], sys.channels[w], s);
      RoutedOwned(sys.buffers[w], sys.engines.Keys, sys.route, w, owner);
      RoutedOwned(sys.channels[w], sys.engines.Keys, sys.route, w, owner);
    }
  }

  /** In every run, whenever nothing is between memory and a channel, the table
      with the workers' queues replayed one after another is memory. */
  lemma ReplayedTableIsMemory(states: seq<System>, acts: seq<Action>, owner: Ownership, i: nat)
    requires IsRun(states, acts, owner) && i < |states|
    requires forall s | s in states[i].outbox :: states[i].outbox[s] == []
    ensures var sys := states[i];
            && |sys.buffers| == |sys.channels|
            && TableIsMemory(Replay(sys.rows, AllPending(sys, 0)), sys, owner)
  {
    var sys := states[i];
    RunInSync(states, acts, owner, i);
    hide EngineInv, MemRows, Part, OwnedOp, OwnedRows, PendingRouted, Initial, Enabled, Act, Replay, Filter;
    var ops := AllPending(sys, 0);
    forall s | s in sys.engines
      ensures Part(Replay(sys.rows, ops), owner, s) == MemRows(sys.engines[s].store)
    {
      assert InSync(sys, owner, s);
      AllPendingSent(sys, 0, owner);
      FilterAllPending(sys, 0, owner, s);
      PartReplay(sys.rows, ops, owner, s);
      assert Filter(ops, s) + [] == Filter(ops, s);
    }
    AllPendingSent(sys, 0, owner);
    ReplayOwners(sys.rows, ops, owner, sys.engines.Keys);
    PartsMakeTable(Replay(sys.rows, ops), sys, owner);
  }

  // ---------------------------------------------------------------- a lease on its way

  lemma FirstGrant(e: EngineState, ctx: Context)
    requires WellFormed(e.subnet.pools) && Admissible(e.subnet.id, Message(ctx)) && ctx.requestType.Request?
    requires e.store == EMPTY && e.hosts == map[] && e.subnet.reservedPools == []
    requires ctx.requestAddr.Some? && InPools(e.subnet.pools, ctx.requestAddr.value)
    ensures Decide(e, Message(ctx), 0).ops == [AddOp(NewLease(e.subnet, ctx.requestAddr.value, ctx, 0))]
  {
  }

  lemma OneQueued(t: Table, l: Lease)
    requires l.address !in t
    ensures Replay(t, [AddOp(l)]) == t[l.address := FromLease(l)]
  {
    assert [AddOp(l)][1..] == [];
  }

  /** One operation on its way through a single worker, from outbox to table. */
  lemma DrainOne(s1: System, op: LeaseOp, owner: Ownership) returns (s2: System, s3: System, s4: System, s5: System)
    requires s1.outbox == map[1 := [op]] && s1.route == map[1 := 0] && s1.channels == [[]] && s1.buffers == [[]]
    requires !s1.closed && s1.finished == {}
    ensures Enabled(s1, Send(1), owner) && s2 == Act(s1, Send(1), owner)
    ensures Enabled(s2, Receive(0), owner) && s3 == Act(s2, Receive(0), owner)
    ensures Enabled(s3, Close, owner) && s4 == Act(s3, Close, owner)
    ensures Enabled(s4, Finish(0), owner) && s5 == Act(s4, Finish(0), owner)
    ensures s5.closed && |s5.channels| == 1 && s5.finished == {0} && s5.rows == Replay(s1.rows, [op])
  {
    hide Decide, Next, Replay;
    s2 := s1.(channels := [[op]], outbox := map[1 := []]);
    assert [op][1..] == [] && [] + [op] == [op];
    assert s1.channels[0 := [op]] == [[op]] && s1.outbox[1 := []] == map[1 := []];
    assert s2 == Act(s1, Send(1), owner);
    s3 := s2.(channels := [[]], buffers := [[op]]);
    assert s2.channels[0 := []] == [[]] && s2.buffers[0 := [op]] == [[op]];
    assert s3 == Act(s2, Receive(0), owner);
    s4 := s3.(closed := true);
    s5 := s4.(rows := Replay(s1.rows, [op]), buffers := [[]], finished := {0});
    assert s4.buffers[0 := []] == [[]] && s4.finished + {0} == {0};
    assert s5 == Act(s4, Finish(0), owner);
  }

  /** Such runs exist: a lease is granted, queued, received and, when the workers have
      stopped, is in the table. */
  lemma LeaseReachesTable() returns (states: seq<System>, acts: seq<Action>, owner: Ownership, l: Lease)
    ensures IsRun(states, acts, owner)
    ensures var sys := states[|acts|];
            && sys.closed && |sys.channels| == 1 && sys.finished == {0}
            && sys.rows == map[l.address := FromLease(l)]
  {
    hide Decide, Next, Replay, NewLease, Act, Enabled, FromLease, Initial;
    var subnet := Subnet(1, 60, 60, 60, [Pool(10, 20)], []);
    var e := Start(subnet, map[]);
    var ctx := Context(Request, 1, Some([7]), Some(5), Some(10), "");
    assert subnet.pools[0].Includes(10);
    l := NewLease(subnet, 10, ctx, 0);
    FirstGrant(e, ctx);
    NewLeaseIs(subnet, ctx);
    owner := _ => 1;
    var s0 := System(map[1 := e], map[1 := []], map[1 := 0], [[]], [[]], map[], false, {});
    HandleOne(s0, e, Message(ctx), l, owner);
    var s1 := Act(s0, Handle(1, Message(ctx), 0), owner);
    var s2, s3, s4, s5 := DrainOne(s1, AddOp(l), owner);
    OneQueued(map[], l);
    states, acts := [s0, s1, s2, s3, s4, s5], [Handle(1, Message(ctx), 0), Send(1), Receive(0), Close, Finish(0)];
  }

  lemma HandleOne(s0: System, e: EngineState, step: Step, l: Lease, owner: Ownership)
    requires s0 == System(map[1 := e], map[1 := []], map[1 := 0], [[]], [[]], map[], false, {})
    requires e.store == EMPTY && e.subnet.id == 1 && WellFormed(e.subnet.pools) && Admissible(1, step)
    requires Decide(e, step, 0).ops == [AddOp(l)] && OwnedOp(AddOp(l), owner)
    ensures Initial(s0) && Enabled(s0, Handle(1, step, 0), owner)
    ensures var s1 := Act(s0, Handle(1, step, 0), owner);
            s1 == s0.(engines := s1.engines, outbox := map[1 := [AddOp(l)]])
  {
    hide Decide, Next;
    assert s0.outbox[1 := [AddOp(l)]] == map[1 := [AddOp(l)]];
  }

  lemma NewLeaseIs(subnet: Subnet, ctx: Context)
    requires ctx.subnetId == 1
    ensures NewLease(subnet, 10, ctx, 0).address == 10 && NewLease(subnet, 10, ctx, 0).subnetId == 1
  {
  }
}
