/** Termination: when follow-ups fall in rank, every call is served and returns. */
module FsmProgress {
  import opened Fsm
  import opened FsmConcurrency
  import opened FsmTheorems

  // ---- a measure that every step but an arrival lowers -----------------------------

  function CountWaiting(tasks: seq<Task>): nat {
    if tasks == [] then 0
    else CountWaiting(tasks[..|tasks| - 1]) + if tasks[|tasks| - 1].pc.Waiting? then 1 else 0
  }

  /** Channel operations a call may still make. */
  function Pending(task: Task): nat {
    if task.sent == [] then 2 else if !task.returned then 1 else 0
  }

  function SumPending(tasks: seq<Task>): nat {
    if tasks == [] then 0 else SumPending(tasks[..|tasks| - 1]) + Pending(tasks[|tasks| - 1])
  }

  function Distance(pc: Pc): nat {
    match pc
    case Take(_, _) => 6
    case Event(_, _, _) => 5
    case Exit(_, _, _) => 4
    case Switch(_, _) => 3
    case Entry(_, _) => 2
    case Drain => 1
    case _ => 0
  }

  /** Bounds the follow-ups the lock holder has still to drain. */
  ghost function Ahead(fsm: Fsm, rank: (nat, Mem) -> nat, sys: Sys): nat
    requires LockInv(sys)
  {
    match sys.lock
    case None => 0
    case Some(t) =>
      var f := Finish(fsm, t, sys.mem, sys.tasks[t].pc);
      if Settled(f) then 0 else rank(t, f) + 1
  }

  function HolderDistance(sys: Sys): nat
    requires sys.lock.Some? ==> sys.lock.value < |sys.tasks|
  {
    match sys.lock
    case None => 0
    case Some(t) => Distance(sys.tasks[t].pc)
  }

  ghost predicate Lower(fsm: Fsm, rank: (nat, Mem) -> nat, after: Sys, sys: Sys)
    requires LockInv(sys) && LockInv(after)
  {
    var w', w := CountWaiting(after.tasks), CountWaiting(sys.tasks);
    var a', a := Ahead(fsm, rank, after), Ahead(fsm, rank, sys);
    var d', d := HolderDistance(after), HolderDistance(sys);
    w' < w || (w' == w && (a' < a || (a' == a && (d' < d
      || (d' == d && SumPending(after.tasks) < SumPending(sys.tasks))))))
  }

  lemma {:induction false} CountUpdate(tasks: seq<Task>, t: nat, task: Task)
    requires t < |tasks|
    ensures CountWaiting(tasks[t := task]) + (if tasks[t].pc.Waiting? then 1 else 0)
            == CountWaiting(tasks) + (if task.pc.Waiting? then 1 else 0)
    ensures SumPending(tasks[t := task]) + Pending(tasks[t]) == SumPending(tasks) + Pending(task)
  {
    var n := |tasks| - 1;
    if t < n {
      CountUpdate(tasks[..n], t, task);
      assert tasks[t := task][..n] == tasks[..n][t := task];
    } else {
      assert tasks[t := task][..n] == tasks[..n];
    }
  }

  lemma TurnNearer(fsm: Fsm, owner: nat, m: Mem, pc: Pc)
    requires InSection(pc) && !pc.Crashed?
    ensures var turn := TurnOf(fsm, owner, m, pc); turn.more || Distance(turn.pc) < Distance(pc)
  {}

  /** Whatever the scheduler picks, the measure falls. */
  lemma StepLowers(fsm: Fsm, rank: (nat, Mem) -> nat, init: Mem, sys: Sys, a: Action)
    requires Inv(fsm, init, sys) && Ranked(fsm, rank)
    requires Enabled(fsm, sys, a) && !a.Arrive?
    ensures Inv(fsm, init, Apply(fsm, sys, a))
    ensures Lower(fsm, rank, Apply(fsm, sys, a), sys)
  {
    var after := Apply(fsm, sys, a);
    match a
    case Lock(t) =>
      LockKeeps(fsm, init, sys, t);
      CountUpdate(sys.tasks, t, after.tasks[t]);
    case Run(t) =>
      RunLowers(fsm, rank, init, sys, t);
    case Send(t) =>
      SendKeeps(fsm, init, sys, t);
      CountUpdate(sys.tasks, t, after.tasks[t]);
    case Receive(t) =>
      ReceiveKeeps(fsm, init, sys, t);
      assert ChannelOk(fsm, sys, t);
      CountUpdate(sys.tasks, t, after.tasks[t]);
  }

  lemma RunLowers(fsm: Fsm, rank: (nat, Mem) -> nat, init: Mem, sys: Sys, t: nat)
    requires Inv(fsm, init, sys) && Ranked(fsm, rank) && Enabled(fsm, sys, Run(t))
    ensures Inv(fsm, init, RunStep(fsm, sys, t))
    ensures Lower(fsm, rank, RunStep(fsm, sys, t), sys)
  {
    var after := RunStep(fsm, sys, t);
    var pc := sys.tasks[t].pc;
    RunKeeps(fsm, init, sys, t);
    TurnKeeps(fsm, t, sys.mem, pc);
    TurnNearer(fsm, t, sys.mem, pc);
    CountUpdate(sys.tasks, t, after.tasks[t]);
    assert RankFalls(fsm, rank, t, sys.mem);
  }

  // ---- some step is always possible ----------------------------------------------

  ghost predicate AllFinished(sys: Sys) {
    forall t: nat :: t < |sys.tasks| ==> Finished(sys.tasks[t])
  }

  /** No deadlock: while a call is unfinished some goroutine can move. */
  lemma SomeStep(fsm: Fsm, init: Mem, sys: Sys) returns (a: Action)
    requires Inv(fsm, init, sys) && !sys.mem.crashed && !AllFinished(sys)
    ensures Enabled(fsm, sys, a) && !a.Arrive?
  {
    if sys.lock.Some? {
      assert ChannelOk(fsm, sys, sys.lock.value);
      a := Run(sys.lock.value);
    } else {
      var t: nat :| t < |sys.tasks| && !Finished(sys.tasks[t]);
      var task := sys.tasks[t];
      assert ChannelOk(fsm, sys, t);
      assert !InSection(task.pc);
      if task.pc.Waiting? {
        a := Lock(t);
      } else if task.sent == [] {
        assert WasServed(sys.served, t);
        var i: nat :| i < |sys.served| && sys.served[i].task == t;
        assert Transitional(fsm, task.ev) ==> VerdictAt(fsm, init, sys, i);
        a := Send(t);
      } else {
        a := Receive(t);
      }
    }
  }

  lemma {:induction false} ExecFrom(fsm: Fsm, sys: Sys, first: seq<Action>, rest: seq<Action>)
    ensures Exec(fsm, Exec(fsm, sys, first), rest) == Exec(fsm, sys, first + rest)
  {
    if rest == [] {
      assert first + rest == first;
    } else {
      ExecFrom(fsm, sys, first, rest[..|rest| - 1]);
      assert (first + rest)[..|first + rest| - 1] == first + rest[..|rest| - 1];
    }
  }

  lemma StaysSafe(fsm: Fsm, init: Mem, sys: Sys)
    requires Inv(fsm, init, sys) && fsm.Constructed() && fsm.NonNil() && !init.crashed
    ensures !sys.mem.crashed
  {
    SerialSafe(fsm, init, sys.served);
    if sys.lock.Some? {
      FinishExtends(fsm, sys.lock.value, sys.mem, sys.tasks[sys.lock.value].pc);
    }
  }

  /** While a call is unfinished some step lowers the measure. */
  lemma Advance(fsm: Fsm, rank: (nat, Mem) -> nat, init: Mem, sys: Sys) returns (a: Action)
    requires Inv(fsm, init, sys) && Ranked(fsm, rank) && !AllFinished(sys)
    requires fsm.Constructed() && fsm.NonNil() && !init.crashed
    ensures Enabled(fsm, sys, a) && !a.Arrive?
    ensures Inv(fsm, init, Apply(fsm, sys, a)) && Lower(fsm, rank, Apply(fsm, sys, a), sys)
  {
    StaysSafe(fsm, init, sys);
    a := SomeStep(fsm, init, sys);
    StepLowers(fsm, rank, init, sys, a);
  }

  lemma ExecOne(fsm: Fsm, sys: Sys, a: Action, rest: seq<Action>)
    requires Enabled(fsm, sys, a)
    ensures Exec(fsm, sys, [a] + rest) == Exec(fsm, Apply(fsm, sys, a), rest)
  {
    assert [a][..0] == [];
    assert Exec(fsm, sys, []) == sys;
    ExecFrom(fsm, sys, [a], rest);
  }

  lemma {:induction false} FinishAll(fsm: Fsm, rank: (nat, Mem) -> nat, init: Mem, sys: Sys) returns (more: seq<Action>)
    requires Inv(fsm, init, sys) && Ranked(fsm, rank)
    requires fsm.Constructed() && fsm.NonNil() && !init.crashed
    ensures forall a <- more :: !a.Arrive?
    ensures AllFinished(Exec(fsm, sys, more)) && Inv(fsm, init, Exec(fsm, sys, more))
    decreases CountWaiting(sys.tasks), Ahead(fsm, rank, sys), HolderDistance(sys), SumPending(sys.tasks)
  {
    if AllFinished(sys) {
      more := [];
    } else {
      var a := Advance(fsm, rank, init, sys);
      var rest := FinishAll(fsm, rank, init, Apply(fsm, sys, a));
      ExecOne(fsm, sys, a, rest);
      more := [a] + rest;
    }
  }

  // ---- every scheduler -------------------------------------------------------------

  /** Where an endless sequence of choices leads in k steps. */
  function Under(fsm: Fsm, sys: Sys, sched: nat -> Action, k: nat): Sys {
    if k == 0 then sys
    else
      var before := Under(fsm, sys, sched, k - 1);
      if Enabled(fsm, before, sched(k - 1)) then Apply(fsm, before, sched(k - 1)) else before
  }

  /** The scheduler moves some goroutine as long as a call is unfinished, and no new
      calls come. */
  ghost predicate Busy(fsm: Fsm, sys: Sys, sched: nat -> Action) {
    forall k: nat :: BusyAt(fsm, sys, sched, k)
  }

  ghost predicate BusyAt(fsm: Fsm, sys: Sys, sched: nat -> Action, k: nat) {
    var now := Under(fsm, sys, sched, k);
    AllFinished(now) || (Enabled(fsm, now, sched(k)) && !sched(k).Arrive?)
  }

  lemma {:induction false} FinishesFrom(fsm: Fsm, rank: (nat, Mem) -> nat, init: Mem, sys: Sys, sched: nat -> Action,
                                        k: nat, now: Sys)
    returns (n: nat)
    requires now == Under(fsm, sys, sched, k)
    requires Inv(fsm, init, now) && Ranked(fsm, rank) && Busy(fsm, sys, sched)
    ensures AllFinished(Under(fsm, sys, sched, n))
    decreases CountWaiting(now.tasks), Ahead(fsm, rank, now), HolderDistance(now), SumPending(now.tasks)
  {
    if AllFinished(now) {
      n := k;
    } else {
      assert BusyAt(fsm, sys, sched, k);
      StepLowers(fsm, rank, init, now, sched(k));
      assert Under(fsm, sys, sched, k + 1) == Apply(fsm, now, sched(k));
      n := FinishesFrom(fsm, rank, init, sys, sched, k + 1, Apply(fsm, now, sched(k)));
    }
  }

  /** From every reachable state, whoever is given the next step each time: all calls
      in hand come to their end.  No fairness is needed. */
  lemma EverySchedulerFinishes(fsm: Fsm, rank: (nat, Mem) -> nat, s: StateType, info: Info, acts: seq<Action>,
                               sched: nat -> Action)
    returns (n: nat)
    requires Ranked(fsm, rank)
    requires Busy(fsm, Exec(fsm, Boot(Start(s, info)), acts), sched)
    ensures AllFinished(Under(fsm, Exec(fsm, Boot(Start(s, info)), acts), sched, n))
  {
    var init := Start(s, info);
    var sys := Exec(fsm, Boot(init), acts);
    Reachable(fsm, init, acts);
    assert Under(fsm, sys, sched, 0) == sys;
    n := FinishesFrom(fsm, rank, init, sys, sched, 0, sys);
  }

  lemma HolderUnfinished(sys: Sys)
    requires LockInv(sys) && sys.lock.Some?
    ensures !AllFinished(sys)
  {
    assert InSection(sys.tasks[sys.lock.value].pc);
  }

  /** From every reachable state the calls in hand can all be brought to their end, and
      then the lock is free and nothing is armed.  EverySchedulerFinishes says that no
      scheduler can put this off, SomeStep that it never runs out of steps before. */
  lemma EveryCallReturns(fsm: Fsm, rank: (nat, Mem) -> nat, s: StateType, info: Info, acts: seq<Action>)
    returns (more: seq<Action>)
    requires fsm.Constructed() && fsm.NonNil() && Ranked(fsm, rank)
    ensures forall a <- more :: !a.Arrive?
    ensures var after := Exec(fsm, Boot(Start(s, info)), acts + more);
      AllFinished(after) && after.lock.None? && after.mem.next.None?
  {
    var init := Start(s, info);
    Reachable(fsm, init, acts);
    more := FinishAll(fsm, rank, init, Exec(fsm, Boot(init), acts));
    ExecFrom(fsm, Boot(init), acts, more);
    var after := Exec(fsm, Boot(init), acts + more);
    if after.lock.Some? {
      HolderUnfinished(after);
    }
  }
}
