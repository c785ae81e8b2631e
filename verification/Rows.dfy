/** The lease table and the worker that writes it (master/lease_in_db.go,
    master/lease_db_pool.go). Addresses are unique in the table, and every
    database call succeeds. */
module Rows {
  import opened Wrappers
  import opened Pools
  import opened Leases
  import opened LeaseStores
  import opened LeaseOps

  datatype Row = Row(
    address: Address,
    state: LeaseState,
    validLifetime: int,
    clientId: Bytes,
    subnetId: SubnetId,
    expire: int,
    hostName: string,
    mac: Option<Mac>)

  type Table = map<Address, Row>

  function FromLease(l: Lease): (r: Row) {
    Row(l.address, l.state, l.validLifetime, if l.clientId.Some? then l.clientId.value else [],
      l.subnetId, l.ExpiresAt(), l.hostName, l.mac)
  }

  function ToLease(r: Row): (l: Lease) {
    Lease(r.address, r.state, r.validLifetime, Some(r.clientId), r.subnetId, r.expire - r.validLifetime,
      r.hostName, r.mac, 0, 0)
  }

  /** Each column of a lease's row, and each field of the lease made from any row: the
      end of the lease is stored, and its last transaction counted back from it. */
  lemma ColumnsAndFields(l: Lease, r: Row)
    ensures var c := FromLease(l);
            && c.address == l.address && c.state == l.state && c.subnetId == l.subnetId
            && c.validLifetime == l.validLifetime && c.expire == l.lastTransaction + l.validLifetime
            && c.hostName == l.hostName && c.mac == l.mac
            && c.clientId == match l.clientId case None => [] case Some(id) => id
    ensures var m := ToLease(r);
            && m.address == r.address && m.state == r.state && m.subnetId == r.subnetId
            && m.validLifetime == r.validLifetime && m.lastTransaction == r.expire - r.validLifetime
            && m.hostName == r.hostName && m.mac == r.mac && m.clientId == Some(r.clientId)
            && m.renewTime == 0 && m.rebindTime == 0
  {
  }

  /** A lease read back from its row: the renew and rebind times are gone, and
      a missing client-id has become an empty one. */
  lemma RowRoundTrip(l: Lease)
    ensures ToLease(FromLease(l))
            == l.(clientId := if l.clientId.Some? then l.clientId else Some([]), renewTime := 0, rebindTime := 0)
    ensures ToLease(FromLease(l)).ExpiresAt() == l.ExpiresAt()
    ensures FromLease(ToLease(FromLease(l))) == FromLease(l)
  {
  }

  // ---------------------------------------------------------------- replaying operations on the table

  function ApplyRow(t: Table, op: LeaseOp): (r: Table) {
    match op
    case AddOp(l) => if l.address in t then t else t[l.address := FromLease(l)]
    case UpdateOp(l) => if l.address in t then t[l.address := FromLease(l)] else t
    case DeleteOp(id, a) => if a in t && t[a].subnetId == id then t - {a} else t
    case DeletePoolOp(id, p) => map a | a in t && !(t[a].subnetId == id && p.Includes(a)) :: t[a]
    case DeleteSubnetOp(id) => map a | a in t && t[a].subnetId != id :: t[a]
  }

  function Replay(t: Table, ops: seq<LeaseOp>): (r: Table)
    decreases |ops|
  {
    if ops == [] then t else Replay(ApplyRow(t, ops[0]), ops[1..])
  }

  lemma {:induction false} ReplayAppend(t: Table, ops: seq<LeaseOp>, more: seq<LeaseOp>)
    ensures Replay(t, ops + more) == Replay(Replay(t, ops), more)
    decreases |ops|
  {
    if ops == [] {
      assert ops + more == more;
    } else {
      assert (ops + more)[1..] == ops[1..] + more;
      ReplayAppend(ApplyRow(t, ops[0]), ops[1..], more);
    }
  }

  /** The table a store's leases would fill. */
  ghost function MemRows(s: Store): (t: Table) {
    map a | a in s.byIp :: FromLease(s.byIp[a])
  }

  /** Memory and table stay in step on every accepted operation but one: an
      update of an address memory does not hold is added to memory, while in
      the table it finds no row to update. */
  lemma InStepIff(s: Store, op: LeaseOp)
    requires Live(s) && Accepted(s, op)
    ensures MemRows(Apply(s, op)) == ApplyRow(MemRows(s), op)
            <==> !(op.UpdateOp? && op.lease.address !in s.byIp)
  {
    hide Live, MemRows, ApplyRow, Apply;
    match op
    case AddOp(l) => InStepAdd(s, l);
    case UpdateOp(l) => InStepUpdate(s, l);
    case DeleteOp(_, _) => InStepDelete(s, op);
    case DeletePoolOp(_, _) => InStepPurge(s, op);
    case DeleteSubnetOp(_) => InStepPurge(s, op);
  }

  /** Updating any lease in an empty store separates them. */
  lemma OutOfStep(l: Lease)
    ensures Live(EMPTY) && Accepted(EMPTY, UpdateOp(l))
    ensures MemRows(Apply(EMPTY, UpdateOp(l))) != ApplyRow(MemRows(EMPTY), UpdateOp(l))
  {
    InStepIff(EMPTY, UpdateOp(l));
  }

  lemma InStepAdd(s: Store, l: Lease)
    requires Live(s) && l.address !in s.byIp
    ensures MemRows(Apply(s, AddOp(l))) == ApplyRow(MemRows(s), AddOp(l))
  {
    hide Live, FromLease;
    assert MemRows(Apply(s, AddOp(l))) == MemRows(s)[l.address := FromLease(l)];
  }

  lemma InStepUpdate(s: Store, l: Lease)
    requires Live(s) && Accepted(s, UpdateOp(l))
    ensures MemRows(Apply(s, UpdateOp(l))) == ApplyRow(MemRows(s), UpdateOp(l)) <==> l.address in s.byIp
  {
    hide Live, FromLease;
    var t, t' := MemRows(s), MemRows(Apply(s, UpdateOp(l)));
    assert t' == t[l.address := FromLease(l)];
    assert l.address in t' && (l.address in ApplyRow(t, UpdateOp(l)) <==> l.address in s.byIp);
  }

  lemma InStepDelete(s: Store, op: LeaseOp)
    requires Live(s) && op.DeleteOp?
    ensures MemRows(Apply(s, op)) == ApplyRow(MemRows(s), op)
  {
    assert MemRows(Apply(s, op)) == ApplyRow(MemRows(s), op);
  }

  lemma InStepPurge(s: Store, op: LeaseOp)
    requires Live(s) && (op.DeletePoolOp? || op.DeleteSubnetOp?)
    ensures MemRows(Apply(s, op)) == ApplyRow(MemRows(s), op)
  {
    assert MemRows(Apply(s, op)) == ApplyRow(MemRows(s), op);
  }

  // ---------------------------------------------------------------- one worker

  const OPT_BUF_COUNT: nat := 40

  /** What a worker's select delivers. */
  datatype Signal = Opt(op: LeaseOp) | Load | Tick

  function OpsOf(signals: seq<Signal>): (ops: seq<LeaseOp>) {
    if signals == [] then []
    else
      var n := |signals| - 1;
      OpsOf(signals[..n]) + if signals[n].Opt? then [signals[n].op] else []
  }

  /** The tables that the loads among the signals should find. */
  function LoadsSeen(t: Table, signals: seq<Signal>): (r: seq<Table>) {
    if signals == [] then []
    else
      var n := |signals| - 1;
      LoadsSeen(t, signals[..n]) + if signals[n].Load? then [Replay(t, OpsOf(signals[..n]))] else []
  }

  lemma {:induction false} SignalNext(t: Table, signals: seq<Signal>, n: nat)
    requires n < |signals|
    ensures var ops := OpsOf(signals[..n]);
            && OpsOf(signals[..n + 1]) == (if signals[n].Opt? then ops + [signals[n].op] else ops)
            && LoadsSeen(t, signals[..n + 1])
               == if signals[n].Load? then LoadsSeen(t, signals[..n]) + [Replay(t, ops)]
                  else LoadsSeen(t, signals[..n])
  {
    assert signals[..n + 1][..n] == signals[..n];
  }

  lemma NothingYet(t: Table)
    ensures Replay(t, []) == t && OpsOf([]) == [] && LoadsSeen(t, []) == []
  {
  }

  /** The addresses an operation can change. */
  predicate Targets(op: LeaseOp, a: Address) {
    match op
    case AddOp(l) => a == l.address
    case UpdateOp(l) => a == l.address
    case DeleteOp(_, b) => a == b
    case DeletePoolOp(_, p) => p.Includes(a)
    case DeleteSubnetOp(_) => true
  }

  class LeaseDb {
    var rows: Table

    /** One statement. Rows it does not target stay; an insert never replaces, an
        update never creates, and a deletion removes exactly the given subnet's rows. */
    method ApplyOp(op: LeaseOp)
      modifies this
      ensures rows == ApplyRow(old(rows), op)
      ensures forall a: Address | !Targets(op, a) ::
                (a in rows <==> a in old(rows)) && (a in rows ==> rows[a] == old(rows)[a])
      ensures op.AddOp? ==> op.lease.address in rows && old(rows).Keys <= rows.Keys
      ensures op.AddOp? ==> forall a | a in old(rows) :: rows[a] == old(rows)[a]
      ensures op.UpdateOp? ==> rows.Keys == old(rows).Keys
      ensures !op.AddOp? && !op.UpdateOp? ==>
                forall a: Address :: a in rows <==>
                  a in old(rows) && !(Targets(op, a) && old(rows)[a].subnetId == op.Subnet())
    {
      match op {
        case AddOp(l) =>
          if l.address !in rows {
            rows := rows[l.address := FromLease(l)];
          }
        case UpdateOp(l) =>
          if l.address in rows {
            rows := rows[l.address := FromLease(l)];
          }
        case DeleteOp(id, a) =>
          if a in rows && rows[a].subnetId == id {
            rows := rows - {a};
          }
        case DeletePoolOp(id, p) =>
          rows := map a | a in rows && !(rows[a].subnetId == id && p.Includes(a)) :: rows[a];
        case DeleteSubnetOp(id) =>
          rows := map a | a in rows && rows[a].subnetId != id :: rows[a];
      }
    }
  }

  class Worker {
    const db: LeaseDb
    var optBuf: seq<LeaseOp>

    constructor (db: LeaseDb)
      ensures this.db == db && optBuf == []
    {
      this.db, optBuf := db, [];
    }

    /** One transaction: the whole buffer, in order. */
    method Flush()
      modifies this, db
      ensures optBuf == [] && db.rows == Replay(old(db.rows), old(optBuf))
    {
      var i := 0;
      while i < |optBuf|
        invariant 0 <= i <= |optBuf| && optBuf == old(optBuf)
        invariant Replay(old(db.rows), optBuf) == Replay(db.rows, optBuf[i..])
      {
        assert optBuf[i..][1..] == optBuf[i + 1..];
        db.ApplyOp(optBuf[i]);
        i := i + 1;
      }
      optBuf := [];
    }

    /** Runs until the channel is closed. Every queued operation reaches the
        table once and in order; a load sees everything queued before it. */
    method RunDb(signals: seq<Signal>) returns (loaded: seq<Table>)
      requires optBuf == []
      modifies this, db
      ensures optBuf == [] && db.rows == Replay(old(db.rows), OpsOf(signals))
      ensures loaded == LoadsSeen(old(db.rows), signals)
    {
      hide ApplyRow, Replay, OpsOf, LoadsSeen;
      NothingYet(db.rows);
      assert signals[..0] == [];
      loaded := [];
      var n := 0;
      while n < |signals|
        invariant 0 <= n <= |signals| && |optBuf| < OPT_BUF_COUNT
        invariant Replay(old(db.rows), OpsOf(signals[..n])) == Replay(db.rows, optBuf)
        invariant loaded == LoadsSeen(old(db.rows), signals[..n])
      {
        SignalNext(old(db.rows), signals, n);
        match signals[n] {
          case Opt(op) =>
            ReplayAppend(old(db.rows), OpsOf(signals[..n]), [op]);
            ReplayAppend(db.rows, optBuf, [op]);
            optBuf := optBuf + [op];
            if |optBuf| == OPT_BUF_COUNT {
              Flush();
            }
          case Load =>
            Flush();
            loaded := loaded + [db.rows];
          case Tick =>
            Flush();
        }
        NothingYet(db.rows);
        n := n + 1;
      }
      assert signals[..n] == signals;
      Flush();
    }
  }
}
