/** The write-behind log can be brought to a stop at any time, full channels or not, and
    once closed it cannot avoid it (master/lease_db_pool.go). */
module Shutdown {
  import opened Leases
  import opened LeaseOps
  import opened Rows
  import opened WriteBehind

  /** A stretch of a run, from any state. */
  ghost predicate IsPath(states: seq<System>, acts: seq<Action>, owner: Ownership) {
    && |states| == |acts| + 1
    && forall i | 0 <= i < |acts| ::
         Enabled(states[i], acts[i], owner) && states[i + 1] == Act(states[i], acts[i], owner)
  }

  ghost predicate Stopped(sys: System) {
    sys.closed && forall w: nat | w < |sys.channels| :: w in sys.finished
  }

  /** What RunInSync shows of every state of a run. */
  ghost predicate Consistent(sys: System, owner: Ownership) {
    SysInv(sys, owner) && Bounded(sys) && ClosedDown(sys)
  }

  // ---------------------------------------------------------------- what is left to do

  ghost function Unsent(sys: System): (r: set<(SubnetId, nat)>) {
    set s, i: nat | s in sys.outbox && i < |sys.outbox[s]| :: (s, i)
  }

  ghost function Unreceived(sys: System): (r: set<(nat, nat)>) {
    set w: nat, i: nat | w < |sys.channels| && i < |sys.channels[w]| :: (w, i)
  }

  ghost function Unfinished(sys: System): (r: set<nat>) {
    set w: nat | w < |sys.channels| && w !in sys.finished
  }

  /** An action that leaves less to do. */
  ghost predicate Progress(sys: System, next: System) {
    || Unsent(next) < Unsent(sys)
    || (Unsent(next) == Unsent(sys) && Unreceived(next) < Unreceived(sys))
    || (Unsent(next) == Unsent(sys) && Unreceived(next) == Unreceived(sys) && !sys.closed && next.closed)
    || (&& Unsent(next) == Unsent(sys) && Unreceived(next) == Unreceived(sys) && sys.closed && next.closed
        && Unfinished(next) < Unfinished(sys))
  }

  lemma ReceiveProgress(sys: System, w: nat, owner: Ownership)
    requires Bounded(sys) && ClosedDown(sys) && w < |sys.channels| && sys.channels[w] != []
    ensures Enabled(sys, Receive(w), owner) && Progress(sys, Act(sys, Receive(w), owner))
  {
    hide Replay;
    var next := Act(sys, Receive(w), owner);
    var n := |sys.channels[w]| - 1;
    assert next.channels == sys.channels[w := sys.channels[w][1..]];
    assert (w, n) in Unreceived(sys) && (w, n) !in Unreceived(next);
    assert Unsent(next) == Unsent(sys);
  }

  lemma SendProgress(sys: System, s: SubnetId, owner: Ownership)
    requires Consistent(sys, owner) && s in sys.outbox && sys.outbox[s] != []
    requires forall w: nat | w < |sys.channels| :: sys.channels[w] == []
    ensures Enabled(sys, Send(s), owner) && Progress(sys, Act(sys, Send(s), owner))
  {
    hide InSync, OwnedRows, OwnedOp;
    var next := Act(sys, Send(s), owner);
    var n := |sys.outbox[s]| - 1;
    assert next.outbox == sys.outbox[s := sys.outbox[s][1..]];
    assert (s, n) in Unsent(sys) && (s, n) !in Unsent(next);
  }

  lemma CloseProgress(sys: System, owner: Ownership)
    requires !sys.closed && forall s | s in sys.outbox :: sys.outbox[s] == []
    ensures Enabled(sys, Close, owner) && Progress(sys, Act(sys, Close, owner))
  {
    var next := Act(sys, Close, owner);
    assert Unsent(next) == Unsent(sys) && Unreceived(next) == Unreceived(sys);
  }

  lemma FinishProgress(sys: System, w: nat, owner: Ownership)
    requires Bounded(sys) && sys.closed && w < |sys.channels| && w !in sys.finished && sys.channels[w] == []
    ensures Enabled(sys, Finish(w), owner) && Progress(sys, Act(sys, Finish(w), owner))
  {
    hide Replay;
    var next := Act(sys, Finish(w), owner);
    assert Unsent(next) == Unsent(sys) && Unreceived(next) == Unreceived(sys);
    assert w in Unfinished(sys) && w !in Unfinished(next);
  }

  /** Until everything has stopped, some action can be taken that leaves less to do. */
  lemma SomeProgress(sys: System, owner: Ownership) returns (act: Action)
    requires Consistent(sys, owner) && !Stopped(sys)
    ensures Enabled(sys, act, owner) && Progress(sys, Act(sys, act, owner))
    ensures sys.closed ==> act.Receive? || act.Finish?
  {
    hide Enabled, Act, Progress, SysInv;
    if w: nat :| w < |sys.channels| && sys.channels[w] != [] {
      act := Receive(w);
      ReceiveProgress(sys, w, owner);
    } else if s :| s in sys.outbox && sys.outbox[s] != [] {
      act := Send(s);
      SendProgress(sys, s, owner);
    } else if !sys.closed {
      act := Close;
      CloseProgress(sys, owner);
    } else {
      var w: nat :| w < |sys.channels| && w !in sys.finished;
      act := Finish(w);
      FinishProgress(sys, w, owner);
    }
  }

  /** From every state the invariants allow, a stop can be reached. */
  lemma {:induction false} CanStop(sys: System, owner: Ownership) returns (states: seq<System>, acts: seq<Action>)
    requires Consistent(sys, owner)
    ensures IsPath(states, acts, owner) && states[0] == sys && Stopped(states[|acts|])
    decreases Unsent(sys), Unreceived(sys), !sys.closed, Unfinished(sys)
  {
    hide Enabled, Act, Stopped, SysInv, Bounded, ClosedDown, Unsent, Unreceived, Unfinished;
    if Stopped(sys) {
      states, acts := [sys], [];
    } else {
      var act := SomeProgress(sys, owner);
      var next := Act(sys, act, owner);
      ActKeeps(sys, act, owner);
      ActKeepsBounds(sys, act, owner);
      var more, rest := CanStop(next, owner);
      states, acts := [sys] + more, [act] + rest;
    }
  }

  /** Every run can be continued to a stop, at which the table is memory. */
  lemma EveryRunCanStop(states: seq<System>, acts: seq<Action>, owner: Ownership)
    returns (states': seq<System>, acts': seq<Action>)
    requires IsRun(states, acts, owner)
    ensures IsRun(states', acts', owner) && states <= states' && acts <= acts'
    ensures Stopped(states'[|acts'|]) && TableIsMemory(states'[|acts'|].rows, states'[|acts'|], owner)
  {
    hide Enabled, Act, Stopped, SysInv, Bounded, ClosedDown, Initial, TableIsMemory;
    RunInSync(states, acts, owner, |acts|);
    var more, rest := CanStop(states[|acts|], owner);
    states', acts' := states + more[1..], acts + rest;
    Joined(states, acts, more, rest, owner);
    StoppedTable(states', acts', owner);
  }

  lemma StoppedTable(states: seq<System>, acts: seq<Action>, owner: Ownership)
    requires IsRun(states, acts, owner) && Stopped(states[|acts|])
    ensures TableIsMemory(states[|acts|].rows, states[|acts|], owner)
  {
    hide IsRun, TableIsMemory;
    StoppedTableIsMemory(states, acts, owner);
  }

  lemma Joined(states: seq<System>, acts: seq<Action>, more: seq<System>, rest: seq<Action>, owner: Ownership)
    requires IsRun(states, acts, owner) && IsPath(more, rest, owner) && more[0] == states[|acts|]
    ensures IsRun(states + more[1..], acts + rest, owner)
    ensures (states + more[1..])[|acts + rest|] == more[|rest|]
  {
    hide Enabled, Act, Initial;
    var all, done := states + more[1..], acts + rest;
    forall i | 0 <= i < |done|
      ensures Enabled(all[i], done[i], owner) && all[i + 1] == Act(all[i], done[i], owner)
    {
      if i < |acts| {
        assert all[i] == states[i] && all[i + 1] == states[i + 1];
      } else {
        assert all[i] == more[i - |acts|] && all[i + 1] == more[i - |acts| + 1];
      }
    }
  }

  // ---------------------------------------------------------------- after Close

  ghost function Load(channels: seq<seq<LeaseOp>>): (n: nat) {
    if channels == [] then 0 else |channels[0]| + Load(channels[1..])
  }

  /** What the workers still have to do: operations to receive, workers to finish. */
  ghost function Work(sys: System): (n: nat) {
    Load(sys.channels) + |Unfinished(sys)|
  }

  /** The actions other than ticks. */
  ghost function Moves(acts: seq<Action>): (n: nat) {
    if acts == [] then 0
    else (if acts[|acts| - 1].TickWorker? then 0 else 1) + Moves(acts[..|acts| - 1])
  }

  lemma {:induction false} LoadTakesOne(channels: seq<seq<LeaseOp>>, w: nat)
    requires w < |channels| && channels[w] != []
    ensures Load(channels) == Load(channels[w := channels[w][1..]]) + 1
  {
    var less := channels[w := channels[w][1..]];
    if w == 0 {
      assert less[1..] == channels[1..];
    } else {
      assert less[1..] == channels[1..][w - 1 := channels[1..][w - 1][1..]];
      LoadTakesOne(channels[1..], w - 1);
    }
  }

  lemma {:induction false} NoLoad(channels: seq<seq<LeaseOp>>)
    requires forall w: nat | w < |channels| :: channels[w] == []
    ensures Load(channels) == 0
  {
    if channels != [] {
      NoLoad(channels[1..]);
    }
  }

  /** A closed log has stopped exactly when no work is left. */
  lemma StoppedIffNoWork(sys: System)
    requires sys.closed && Bounded(sys) && ClosedDown(sys)
    ensures Stopped(sys) <==> Work(sys) == 0
  {
    if Stopped(sys) {
      assert Unfinished(sys) == {};
      NoLoad(sys.channels);
    } else {
      var w: nat :| w < |sys.channels| && w !in sys.finished;
      assert w in Unfinished(sys);
    }
  }

  /** After Close, every action but a tick does exactly one piece of the work. */
  lemma ActDoesWork(sys: System, act: Action, owner: Ownership)
    requires sys.closed && Bounded(sys) && ClosedDown(sys) && Enabled(sys, act, owner)
    ensures Act(sys, act, owner).closed
    ensures Work(sys) == Work(Act(sys, act, owner)) + if act.TickWorker? then 0 else 1
  {
    hide Replay, Load, Unfinished;
    var next := Act(sys, act, owner);
    match act
    case Receive(w) =>
      assert next.channels == sys.channels[w := sys.channels[w][1..]];
      LoadTakesOne(sys.channels, w);
      SameUnfinished(sys, next);
    case TickWorker(w) => SameUnfinished(sys, next);
    case Finish(w) => OneFinishes(sys, next, w);
    case _ =>
  }

  lemma SameUnfinished(sys: System, next: System)
    requires |next.channels| == |sys.channels| && next.finished == sys.finished
    ensures Unfinished(next) == Unfinished(sys)
  {
  }

  lemma OneFinishes(sys: System, next: System, w: nat)
    requires |next.channels| == |sys.channels| && w < |sys.channels| && w !in sys.finished
    requires next.finished == sys.finished + {w}
    ensures |Unfinished(sys)| == |Unfinished(next)| + 1
  {
    assert Unfinished(sys) == Unfinished(next) + {w} && w !in Unfinished(next);
  }

  lemma {:induction false} PathDoesWork(states: seq<System>, acts: seq<Action>, owner: Ownership)
    requires IsPath(states, acts, owner) && Consistent(states[0], owner) && states[0].closed
    ensures var last := states[|acts|];
            last.closed && Consistent(last, owner) && Moves(acts) + Work(last) == Work(states[0])
    decreases |acts|
  {
    hide Enabled, Act, Work, SysInv, Bounded, ClosedDown;
    if acts != [] {
      var n := |acts| - 1;
      PathDoesWork(states[..n + 1], acts[..n], owner);
      ActKeeps(states[n], acts[n], owner);
      ActKeepsBounds(states[n], acts[n], owner);
      ActDoesWork(states[n], acts[n], owner);
    }
  }

  /** Once closed, no continuation moves more often than there is work, it has stopped
      exactly when it has moved that often, and until then it can move again: whatever
      the order, workers that keep moving stop, and then the table is memory. */
  lemma ClosedRunMustStop(before: seq<System>, done: seq<Action>, states: seq<System>, acts: seq<Action>,
                          owner: Ownership)
    requires IsRun(before, done, owner) && before[|done|].closed
    requires IsPath(states, acts, owner) && states[0] == before[|done|]
    ensures Moves(acts) <= Work(states[0])
    ensures Stopped(states[|acts|]) <==> Moves(acts) == Work(states[0])
    ensures Moves(acts) < Work(states[0]) ==>
              exists act :: Enabled(states[|acts|], act, owner) && !act.TickWorker?
    ensures Moves(acts) == Work(states[0]) ==> TableIsMemory(states[|acts|].rows, states[|acts|], owner)
  {
    hide Enabled, Act, Work, Stopped, SysInv, Bounded, ClosedDown, Initial, TableIsMemory;
    RunInSync(before, done, owner, |done|);
    PathDoesWork(states, acts, owner);
    var last := states[|acts|];
    StoppedIffNoWork(last);
    if Stopped(last) {
      Joined(before, done, states, acts, owner);
      StoppedTable(before + states[1..], done + acts, owner);
    } else {
      var act := SomeProgress(last, owner);
    }
  }
}
