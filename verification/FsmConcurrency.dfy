/** Any number of SendEvent and SyncSendEvent calls on one state, as a step system.

    A task is one such call together with the function it runs under State.slock.
    Each step is one action of one goroutine: taking the lock, one table look-up,
    one callback, the state change, one turn of the drain loop, releasing the
    lock, or one operation on the capacity-1 error channel.  The scheduler is
    arbitrary, so the worker pool promises no order.

    Assumed of the callers, as the source's comments ask: no ForceSetState, no
    SetNextEvent from outside a callback, no SyncSendEvent from inside one. */
module FsmConcurrency {
  import opened Options
  import opened Fsm

  datatype Pc =
    | Waiting                              // wants the lock
    | Take(ev: EventData, report: bool)    // holds it, about to look the event up
    | Event(ev: EventData, from: StateType, to: StateType)
    | Exit(ev: EventData, from: StateType, to: StateType)
    | Switch(ev: EventData, to: StateType)
    | Entry(ev: EventData, to: StateType)
    | Drain                                // at the head of the drain loop
    | Released                             // gave the lock back
    | Crashed                              // called a nil function

  /** `sent` is every verdict ever sent for the call, `chan` what is in its
      channel now, `returned` whether the verdict was received. */
  datatype Task = Task(ev: EventData, sync: bool, pc: Pc,
                       sent: seq<Verdict>, chan: seq<Verdict>, returned: bool)

  /** History: a task that took the lock, and the follow-ups it has drained. */
  datatype Served = Served(task: nat, ev: EventData, follows: nat)

  datatype Sys = Sys(mem: Mem, lock: Option<nat>, tasks: seq<Task>, served: seq<Served>)

  datatype Action = Arrive(ev: EventData, sync: bool) | Lock(t: nat) | Run(t: nat) | Send(t: nat) | Receive(t: nat)

  const CHAN_CAPACITY := 1

  function Start(s: StateType, info: Info): Mem {
    Mem(s, None, info, [], false)
  }

  function Boot(init: Mem): Sys {
    Sys(init, None, [], [])
  }

  predicate InSection(pc: Pc) {
    !pc.Waiting? && !pc.Released?
  }

  predicate Transitional(fsm: Fsm, ev: EventData) {
    ev.evType !in fsm.events
  }

  /** A send in transit blocks while the channel is full. */
  predicate Enabled(fsm: Fsm, sys: Sys, a: Action) {
    match a
    case Arrive(_, _) => true
    case Lock(t) => t < |sys.tasks| && sys.lock.None? && sys.tasks[t].pc.Waiting?
    case Run(t) =>
      && t < |sys.tasks| && sys.lock == Some(t)
      && InSection(sys.tasks[t].pc) && !sys.tasks[t].pc.Crashed?
      && (sys.tasks[t].pc.Take? && sys.tasks[t].pc.report && Transitional(fsm, sys.tasks[t].pc.ev)
          ==> |sys.tasks[t].chan| < CHAN_CAPACITY)
    case Send(t) => AtSend(fsm, sys, t) && |sys.tasks[t].chan| < CHAN_CAPACITY
    case Receive(t) =>
      && t < |sys.tasks| && |sys.tasks[t].chan| > 0
      && (sys.tasks[t].sync ==> sys.tasks[t].pc.Released? && !sys.tasks[t].returned)
  }

  /** The goroutine of a non-transitional call stands at its send statement: after
      Submit when asynchronous, after the critical section when synchronous. */
  predicate AtSend(fsm: Fsm, sys: Sys, t: nat) {
    && t < |sys.tasks| && !Transitional(fsm, sys.tasks[t].ev) && sys.tasks[t].sent == []
    && (sys.tasks[t].sync ==> sys.tasks[t].pc.Released?)
  }

  function Post(task: Task, v: Verdict): Task {
    task.(sent := task.sent + [v], chan := task.chan + [v])
  }

  /** The outcome of one step of the lock holder: the state, its program counter,
      the verdict it sent if any, and whether it took up one more follow-up. */
  datatype Turn = Turn(mem: Mem, pc: Pc, told: seq<Verdict>, more: bool)

  function TakeTurn(fsm: Fsm, owner: nat, m: Mem, ev: EventData, report: bool): Turn {
    if !Transitional(fsm, ev) then
      match fsm.handler
      case None => Turn(m.(crashed := true), Crashed, [], false)
      case Some(cb) => Turn(Invoke(m, owner, Handler, cb, ev), Drain, [], false)
    else
      var told := if report then [VerdictOf(fsm, m.current, ev.evType)] else [];
      if fsm.Defined(m.current, ev.evType) then
        Turn(m, Event(ev, m.current, fsm.transitions[Tuple(m.current, ev.evType)]), told, false)
      else Turn(m, Drain, told, false)
  }

  function TurnOf(fsm: Fsm, owner: nat, m: Mem, pc: Pc): Turn
    requires InSection(pc) && !pc.Crashed?
  {
    match pc
    case Take(ev, report) => TakeTurn(fsm, owner, m, ev, report)
    case Event(ev, from, to) =>
      Turn(InvokeIfAny(fsm, m, owner, from, ev), if from == to then Drain else Exit(ev, from, to), [], false)
    case Exit(ev, from, to) =>
      (match fsm.CallbackOf(from)
       case None => Turn(m.(crashed := true), Crashed, [], false)
       case Some(cb) => Turn(Invoke(m, owner, Of(from), cb, ev.Clone(EXIT_EVENT)), Switch(ev, to), [], false))
    case Switch(ev, to) => Turn(m.(current := to), Entry(ev, to), [], false)
    case Entry(ev, to) => Turn(EntryPart(fsm, m, owner, ev, to), Drain, [], false)
    case Drain =>
      (match m.next
       case None => Turn(m, Released, [], false)
       case Some(ev) => Turn(m.(next := None), Take(ev, false), [], true))
  }

  function Move(sys: Sys, t: nat, turn: Turn): Sys
    requires t < |sys.tasks|
  {
    var task := sys.tasks[t];
    Sys(turn.mem,
        if turn.pc.Released? then None else sys.lock,
        sys.tasks[t := task.(pc := turn.pc, sent := task.sent + turn.told, chan := task.chan + turn.told)],
        if turn.more then OneMore(sys.served) else sys.served)
  }

  function RunStep(fsm: Fsm, sys: Sys, t: nat): Sys
    requires Enabled(fsm, sys, Run(t))
  {
    Move(sys, t, TurnOf(fsm, t, sys.mem, sys.tasks[t].pc))
  }

  function OneMore(served: seq<Served>): seq<Served> {
    if served == [] then []
    else served[|served| - 1 := served[|served| - 1].(follows := served[|served| - 1].follows + 1)]
  }

  function Apply(fsm: Fsm, sys: Sys, a: Action): Sys
    requires Enabled(fsm, sys, a)
  {
    match a
    case Arrive(ev, sync) => sys.(tasks := sys.tasks + [Task(ev, sync, Waiting, [], [], false)])
    case Lock(t) =>
      sys.(lock := Some(t),
           tasks := sys.tasks[t := sys.tasks[t].(pc := Take(sys.tasks[t].ev, true))],
           served := sys.served + [Served(t, sys.tasks[t].ev, 0)])
    case Run(t) => RunStep(fsm, sys, t)
    case Send(t) => sys.(tasks := sys.tasks[t := Post(sys.tasks[t], Accepted)])
    case Receive(t) => sys.(tasks := sys.tasks[t := sys.tasks[t].(chan := sys.tasks[t].chan[1..], returned := true)])
  }

  /** A run of the scheduler; an action that is not enabled does nothing. */
  function Exec(fsm: Fsm, sys: Sys, acts: seq<Action>): Sys {
    if acts == [] then sys
    else
      var before := Exec(fsm, sys, acts[..|acts| - 1]);
      var a := acts[|acts| - 1];
      if Enabled(fsm, before, a) then Apply(fsm, before, a) else before
  }

  // ---- the sequential reference ---------------------------------------------

  /** One task start to finish: its event, then its follow-ups. */
  function Whole(fsm: Fsm, m: Mem, s: Served): Mem {
    DrainN(fsm, s.task, HandleOne(fsm, s.task, m, s.ev), s.follows)
  }

  /** Tasks one after another, none starting before the previous one is through. */
  function Serial(fsm: Fsm, init: Mem, served: seq<Served>): Mem {
    if served == [] then init
    else Whole(fsm, Serial(fsm, init, served[..|served| - 1]), served[|served| - 1])
  }

  /** What is left of the event in hand. */
  function Finish(fsm: Fsm, owner: nat, m: Mem, pc: Pc): Mem {
    match pc
    case Take(ev, _) => HandleOne(fsm, owner, m, ev)
    case Event(ev, from, to) => EventPart(fsm, m, owner, ev, from, to)
    case Exit(ev, from, to) => ExitPart(fsm, m, owner, ev, from, to)
    case Switch(ev, to) => SwitchPart(fsm, m, owner, ev, to)
    case Entry(ev, to) => EntryPart(fsm, m, owner, ev, to)
    case _ => m
  }

  // ---- the invariant --------------------------------------------------------

  ghost predicate LockInv(sys: Sys) {
    && (sys.lock.Some? ==> sys.lock.value < |sys.tasks|)
    && (forall t: nat :: t < |sys.tasks| ==> (InSection(sys.tasks[t].pc) <==> sys.lock == Some(t)))
  }

  ghost predicate ServedInv(sys: Sys) {
    && (forall i: nat :: i < |sys.served| ==>
          && sys.served[i].task < |sys.tasks|
          && sys.served[i].ev == sys.tasks[sys.served[i].task].ev
          && !sys.tasks[sys.served[i].task].pc.Waiting?)
    && (forall i: nat, j: nat :: i < j < |sys.served| ==> sys.served[i].task != sys.served[j].task)
    && (forall t: nat :: t < |sys.tasks| && !sys.tasks[t].pc.Waiting? ==> WasServed(sys.served, t))
    && (sys.lock.Some? ==> |sys.served| > 0 && sys.served[|sys.served| - 1].task == sys.lock.value)
  }

  ghost predicate WasServed(served: seq<Served>, t: nat) {
    exists i: nat :: i < |served| && served[i].task == t
  }

  predicate PcOk(fsm: Fsm, m: Mem, pc: Pc) {
    && (m.crashed <==> pc.Crashed?)
    && match pc
       case Take(_, _) => m.next.None?
       case Event(ev, from, to) => from == m.current && IsEdge(fsm, ev, from, to)
       case Exit(ev, from, to) => from == m.current && IsEdge(fsm, ev, from, to) && from != to
       case Switch(ev, to) => IsEdge(fsm, ev, m.current, to) && m.current != to && fsm.CallbackOf(m.current).Some?
       case Entry(ev, to) => m.current == to
       case _ => true
  }

  predicate IsEdge(fsm: Fsm, ev: EventData, from: StateType, to: StateType) {
    Transitional(fsm, ev) && fsm.Defined(from, ev.evType) && fsm.transitions[Tuple(from, ev.evType)] == to
  }

  ghost predicate MemInv(fsm: Fsm, init: Mem, sys: Sys)
    requires LockInv(sys)
  {
    match sys.lock
    case None => sys.mem == Serial(fsm, init, sys.served) && Settled(sys.mem) && !sys.mem.crashed
    case Some(t) =>
      && PcOk(fsm, sys.mem, sys.tasks[t].pc)
      && Finish(fsm, t, sys.mem, sys.tasks[t].pc) == Serial(fsm, init, sys.served)
  }

  /** The look-up whose result the caller is told about has not happened yet. */
  predicate Unreported(sys: Sys, t: nat)
    requires t < |sys.tasks|
  {
    sys.tasks[t].pc.Take? && sys.tasks[t].pc.report
  }

  /** The first look-up is made on the state the previous tasks left. */
  ghost predicate FirstInv(fsm: Fsm, init: Mem, sys: Sys)
    requires LockInv(sys) && ServedInv(sys)
  {
    sys.lock.Some? && Unreported(sys, sys.lock.value) ==>
      var k := |sys.served| - 1;
      && sys.tasks[sys.lock.value].pc.ev == sys.served[k].ev
      && sys.mem == Serial(fsm, init, sys.served[..k])
      && sys.served[k].follows == 0
  }

  /** The state a task finds when it has the lock. */
  function SeenBy(fsm: Fsm, init: Mem, served: seq<Served>, i: nat): StateType
    requires i < |served|
  {
    Serial(fsm, init, served[..i]).current
  }

  ghost predicate VerdictInv(fsm: Fsm, init: Mem, sys: Sys)
    requires LockInv(sys) && ServedInv(sys)
  {
    && (forall t: nat :: t < |sys.tasks| ==> ChannelOk(fsm, sys, t))
    && (forall i: nat :: i < |sys.served| && Transitional(fsm, sys.served[i].ev) ==> VerdictAt(fsm, init, sys, i))
  }

  ghost predicate VerdictAt(fsm: Fsm, init: Mem, sys: Sys, i: nat)
    requires ServedInv(sys) && i < |sys.served|
  {
    var task := sys.tasks[sys.served[i].task];
    task.sent == if Unreported(sys, sys.served[i].task) then []
                 else [VerdictOf(fsm, SeenBy(fsm, init, sys.served, i), sys.served[i].ev.evType)]
  }

  predicate ChannelOk(fsm: Fsm, sys: Sys, t: nat)
    requires t < |sys.tasks|
  {
    var task := sys.tasks[t];
    && task.chan == (if task.returned then [] else task.sent)
    && |task.sent| <= 1
    && (task.returned ==> |task.sent| == 1)
    && (Transitional(fsm, task.ev) && (task.pc.Waiting? || Unreported(sys, t)) ==> task.sent == [])
    && (!Transitional(fsm, task.ev) ==> task.sent == [] || task.sent == [Accepted])
    && (!Transitional(fsm, task.ev) && task.sync && !task.pc.Released? ==> task.sent == [])
    && (task.sync && task.returned ==> task.pc.Released?)
  }

  ghost predicate Inv(fsm: Fsm, init: Mem, sys: Sys) {
    && LockInv(sys) && ServedInv(sys)
    && MemInv(fsm, init, sys) && FirstInv(fsm, init, sys) && VerdictInv(fsm, init, sys)
  }

  // ---- every step keeps it ----------------------------------------------------

  lemma ArriveKeeps(fsm: Fsm, init: Mem, sys: Sys, a: Action)
    requires Inv(fsm, init, sys) && a.Arrive?
    ensures Inv(fsm, init, Apply(fsm, sys, a))
  {
    var after := Apply(fsm, sys, a);
    forall t: nat | t < |after.tasks| && !after.tasks[t].pc.Waiting? ensures WasServed(after.served, t) {
      assert WasServed(sys.served, t);
    }
    forall t: nat | t < |after.tasks| ensures ChannelOk(fsm, after, t) {
      assert t < |sys.tasks| ==> ChannelOk(fsm, sys, t);
    }
  }

  /** A channel operation touches what task t sent and received, and nothing else. */
  ghost predicate ChannelStep(sys: Sys, after: Sys, t: nat) {
    && t < |sys.tasks| && |after.tasks| == |sys.tasks|
    && after.mem == sys.mem && after.lock == sys.lock && after.served == sys.served
    && (forall u: nat :: u < |sys.tasks| && u != t ==> after.tasks[u] == sys.tasks[u])
    && after.tasks[t].pc == sys.tasks[t].pc && after.tasks[t].ev == sys.tasks[t].ev
    && after.tasks[t].sync == sys.tasks[t].sync
  }

  lemma ChannelKeeps(fsm: Fsm, init: Mem, sys: Sys, after: Sys, t: nat)
    requires Inv(fsm, init, sys) && ChannelStep(sys, after, t)
    ensures LockInv(after) && ServedInv(after) && MemInv(fsm, init, after) && FirstInv(fsm, init, after)
  {
    forall u: nat | u < |after.tasks| && !after.tasks[u].pc.Waiting? ensures WasServed(after.served, u) {
      assert WasServed(sys.served, u);
    }
  }

  lemma SendKeeps(fsm: Fsm, init: Mem, sys: Sys, t: nat)
    requires Inv(fsm, init, sys) && Enabled(fsm, sys, Send(t))
    ensures Inv(fsm, init, Apply(fsm, sys, Send(t)))
  {
    var after := Apply(fsm, sys, Send(t));
    ChannelKeeps(fsm, init, sys, after, t);
    forall u: nat | u < |after.tasks| ensures ChannelOk(fsm, after, u) {
      assert ChannelOk(fsm, sys, u);
    }
    forall i: nat | i < |after.served| && Transitional(fsm, after.served[i].ev)
      ensures VerdictAt(fsm, init, after, i)
    {
      assert VerdictAt(fsm, init, sys, i);
    }
  }

  lemma ReceiveKeeps(fsm: Fsm, init: Mem, sys: Sys, t: nat)
    requires Inv(fsm, init, sys) && Enabled(fsm, sys, Receive(t))
    ensures Inv(fsm, init, Apply(fsm, sys, Receive(t)))
  {
    var after := Apply(fsm, sys, Receive(t));
    ChannelKeeps(fsm, init, sys, after, t);
    forall u: nat | u < |after.tasks| ensures ChannelOk(fsm, after, u) {
      assert ChannelOk(fsm, sys, u);
    }
    forall i: nat | i < |after.served| && Transitional(fsm, after.served[i].ev)
      ensures VerdictAt(fsm, init, after, i)
    {
      assert VerdictAt(fsm, init, sys, i);
    }
  }

  lemma LockKeeps(fsm: Fsm, init: Mem, sys: Sys, t: nat)
    requires Inv(fsm, init, sys) && Enabled(fsm, sys, Lock(t))
    ensures Inv(fsm, init, Apply(fsm, sys, Lock(t)))
  {
    var after := Apply(fsm, sys, Lock(t));
    var k := |sys.served|;
    assert after.served[..k] == sys.served;
    LockKeepsServed(fsm, init, sys, t);
    DrainZero(fsm, t, HandleOne(fsm, t, sys.mem, sys.tasks[t].ev));
    forall u: nat | u < |after.tasks| ensures ChannelOk(fsm, after, u) {
      assert ChannelOk(fsm, sys, u);
    }
    forall i: nat | i < |after.served| && Transitional(fsm, after.served[i].ev)
      ensures VerdictAt(fsm, init, after, i)
    {
      if i < k {
        assert VerdictAt(fsm, init, sys, i);
        assert after.served[..i] == sys.served[..i];
      } else {
        assert ChannelOk(fsm, sys, t);
      }
    }
  }

  lemma LockKeepsServed(fsm: Fsm, init: Mem, sys: Sys, t: nat)
    requires Inv(fsm, init, sys) && Enabled(fsm, sys, Lock(t))
    ensures LockInv(Apply(fsm, sys, Lock(t))) && ServedInv(Apply(fsm, sys, Lock(t)))
  {
    var after := Apply(fsm, sys, Lock(t));
    var k := |sys.served|;
    forall i: nat | i < k ensures sys.served[i].task != t {
      assert !sys.tasks[sys.served[i].task].pc.Waiting?;
    }
    forall u: nat | u < |after.tasks| && !after.tasks[u].pc.Waiting? ensures WasServed(after.served, u) {
      if u == t {
        assert after.served[k].task == t;
      } else {
        assert WasServed(sys.served, u);
        var i: nat :| i < k && sys.served[i].task == u;
        assert after.served[i].task == u;
      }
    }
  }

  lemma DrainZero(fsm: Fsm, owner: nat, m: Mem)
    ensures DrainN(fsm, owner, m, 0) == m
  {}

  predicate SameTasks(a: seq<Served>, b: seq<Served>) {
    |a| == |b| && forall i: nat :: i < |a| ==> a[i].task == b[i].task && a[i].ev == b[i].ev
  }

  /** A step of the lock holder touches its own task only, and only forward. */
  ghost predicate HolderStep(sys: Sys, after: Sys, t: nat) {
    && t < |sys.tasks| && |after.tasks| == |sys.tasks| && sys.lock == Some(t)
    && (forall u: nat :: u < |sys.tasks| && u != t ==> after.tasks[u] == sys.tasks[u])
    && after.tasks[t].ev == sys.tasks[t].ev && after.tasks[t].sync == sys.tasks[t].sync
    && SameTasks(sys.served, after.served)
    && !after.tasks[t].pc.Waiting?
    && after.lock == (if after.tasks[t].pc.Released? then None else Some(t))
  }

  lemma HolderKeepsServed(sys: Sys, after: Sys, t: nat)
    requires LockInv(sys) && ServedInv(sys) && HolderStep(sys, after, t)
    ensures LockInv(after) && ServedInv(after)
  {
    forall u: nat | u < |after.tasks| && !after.tasks[u].pc.Waiting? ensures WasServed(after.served, u) {
      assert WasServed(sys.served, u);
      var i: nat :| i < |sys.served| && sys.served[i].task == u;
      assert after.served[i].task == u;
    }
  }

  lemma SerialOneMore(fsm: Fsm, init: Mem, served: seq<Served>)
    requires served != []
    ensures Serial(fsm, init, OneMore(served))
            == Follow(fsm, served[|served| - 1].task, Serial(fsm, init, served))
  {
    var k := |served| - 1;
    assert OneMore(served)[..k] == served[..k];
    var m := HandleOne(fsm, served[k].task, Serial(fsm, init, served[..k]), served[k].ev);
    assert DrainN(fsm, served[k].task, m, served[k].follows + 1)
        == Follow(fsm, served[k].task, DrainN(fsm, served[k].task, m, served[k].follows));
  }

  /** One step of the lock holder brings the event in hand nearer its end without
      changing what that end is; a turn of the drain loop adds one follow-up. */
  lemma TurnKeeps(fsm: Fsm, owner: nat, m: Mem, pc: Pc)
    requires InSection(pc) && !pc.Crashed? && PcOk(fsm, m, pc)
    ensures var turn := TurnOf(fsm, owner, m, pc);
      && !turn.pc.Waiting? && PcOk(fsm, turn.mem, turn.pc)
      && Finish(fsm, owner, turn.mem, turn.pc)
         == (if turn.more then Follow(fsm, owner, m) else Finish(fsm, owner, m, pc))
      && (turn.more ==> pc.Drain?)
      && (turn.pc.Released? ==> pc.Drain? && turn.mem == m && Settled(m))
  {}

  lemma TurnTells(fsm: Fsm, owner: nat, m: Mem, pc: Pc)
    requires InSection(pc) && !pc.Crashed?
    ensures var turn := TurnOf(fsm, owner, m, pc);
      && !(turn.pc.Take? && turn.pc.report)
      && turn.told == if pc.Take? && pc.report && Transitional(fsm, pc.ev)
                      then [VerdictOf(fsm, m.current, pc.ev.evType)] else []
  {}

  lemma MoveShape(sys: Sys, t: nat, turn: Turn)
    requires LockInv(sys) && t < |sys.tasks| && sys.lock == Some(t) && !turn.pc.Waiting?
    ensures HolderStep(sys, Move(sys, t, turn), t)
    ensures forall i: nat :: i < |sys.served| ==> Move(sys, t, turn).served[..i] == sys.served[..i]
  {
    var after := Move(sys, t, turn);
    forall i: nat | i < |sys.served| ensures after.served[..i] == sys.served[..i] {}
  }

  lemma MoveKeepsMem(fsm: Fsm, init: Mem, sys: Sys, t: nat, turn: Turn)
    requires LockInv(sys) && ServedInv(sys) && MemInv(fsm, init, sys) && sys.lock == Some(t)
    requires PcOk(fsm, turn.mem, turn.pc)
    requires Finish(fsm, t, turn.mem, turn.pc)
             == if turn.more then Follow(fsm, t, sys.mem) else Finish(fsm, t, sys.mem, sys.tasks[t].pc)
    requires turn.more || turn.pc.Released? ==> sys.tasks[t].pc.Drain?
    requires turn.pc.Released? ==> turn.mem == sys.mem && Settled(turn.mem)
    requires LockInv(Move(sys, t, turn))
    ensures MemInv(fsm, init, Move(sys, t, turn))
  {
    SerialOneMore(fsm, init, sys.served);
    var after := Move(sys, t, turn);
    assert after.served == if turn.more then OneMore(sys.served) else sys.served;
  }

  lemma MoveKeepsChannels(fsm: Fsm, init: Mem, sys: Sys, t: nat, turn: Turn)
    requires LockInv(sys) && ServedInv(sys) && FirstInv(fsm, init, sys) && VerdictInv(fsm, init, sys)
    requires sys.lock == Some(t) && !turn.pc.Waiting? && !(turn.pc.Take? && turn.pc.report)
    requires turn.told == if Unreported(sys, t) && Transitional(fsm, sys.tasks[t].pc.ev)
                          then [VerdictOf(fsm, sys.mem.current, sys.tasks[t].pc.ev.evType)] else []
    ensures forall u: nat :: u < |sys.tasks| ==> ChannelOk(fsm, Move(sys, t, turn), u)
  {
    var after := Move(sys, t, turn);
    assert ChannelOk(fsm, sys, t);
    forall u: nat | u < |after.tasks| ensures ChannelOk(fsm, after, u) {
      assert ChannelOk(fsm, sys, u);
    }
  }

  lemma MoveKeepsVerdict(fsm: Fsm, init: Mem, sys: Sys, t: nat, turn: Turn, i: nat)
    requires LockInv(sys) && ServedInv(sys) && FirstInv(fsm, init, sys) && VerdictInv(fsm, init, sys)
    requires sys.lock == Some(t) && !turn.pc.Waiting? && !(turn.pc.Take? && turn.pc.report)
    requires turn.told == if Unreported(sys, t) && Transitional(fsm, sys.tasks[t].pc.ev)
                          then [VerdictOf(fsm, sys.mem.current, sys.tasks[t].pc.ev.evType)] else []
    requires LockInv(Move(sys, t, turn)) && ServedInv(Move(sys, t, turn))
    requires i < |sys.served| && Transitional(fsm, sys.served[i].ev)
    ensures VerdictAt(fsm, init, Move(sys, t, turn), i)
  {
    var after := Move(sys, t, turn);
    MoveShape(sys, t, turn);
    assert VerdictAt(fsm, init, sys, i);
    assert after.served[..i] == sys.served[..i];
    if sys.served[i].task != t {
      assert after.tasks[sys.served[i].task] == sys.tasks[sys.served[i].task];
    } else {
      assert i == |sys.served| - 1;
      assert after.tasks[t].sent == sys.tasks[t].sent + turn.told;
    }
  }

  lemma MoveKeepsVerdicts(fsm: Fsm, init: Mem, sys: Sys, t: nat, turn: Turn)
    requires LockInv(sys) && ServedInv(sys) && FirstInv(fsm, init, sys) && VerdictInv(fsm, init, sys)
    requires sys.lock == Some(t) && !turn.pc.Waiting? && !(turn.pc.Take? && turn.pc.report)
    requires turn.told == if Unreported(sys, t) && Transitional(fsm, sys.tasks[t].pc.ev)
                          then [VerdictOf(fsm, sys.mem.current, sys.tasks[t].pc.ev.evType)] else []
    requires LockInv(Move(sys, t, turn)) && ServedInv(Move(sys, t, turn))
    ensures VerdictInv(fsm, init, Move(sys, t, turn))
  {
    var after := Move(sys, t, turn);
    MoveShape(sys, t, turn);
    MoveKeepsChannels(fsm, init, sys, t, turn);
    forall i: nat | i < |after.served| && Transitional(fsm, after.served[i].ev)
      ensures VerdictAt(fsm, init, after, i)
    {
      MoveKeepsVerdict(fsm, init, sys, t, turn, i);
    }
  }

  lemma RunKeeps(fsm: Fsm, init: Mem, sys: Sys, t: nat)
    requires Inv(fsm, init, sys) && Enabled(fsm, sys, Run(t))
    ensures Inv(fsm, init, RunStep(fsm, sys, t))
  {
    var turn := TurnOf(fsm, t, sys.mem, sys.tasks[t].pc);
    TurnKeeps(fsm, t, sys.mem, sys.tasks[t].pc);
    TurnTells(fsm, t, sys.mem, sys.tasks[t].pc);
    MoveShape(sys, t, turn);
    HolderKeepsServed(sys, Move(sys, t, turn), t);
    MoveKeepsMem(fsm, init, sys, t, turn);
    MoveKeepsVerdicts(fsm, init, sys, t, turn);
  }

  lemma {:induction false} Reachable(fsm: Fsm, init: Mem, acts: seq<Action>)
    requires Settled(init) && !init.crashed
    ensures Inv(fsm, init, Exec(fsm, Boot(init), acts))
  {
    if acts != [] {
      var a := acts[|acts| - 1];
      var sys := Exec(fsm, Boot(init), acts[..|acts| - 1]);
      Reachable(fsm, init, acts[..|acts| - 1]);
      if Enabled(fsm, sys, a) {
        match a
        case Arrive(_, _) => ArriveKeeps(fsm, init, sys, a);
        case Lock(t) => LockKeeps(fsm, init, sys, t);
        case Run(t) => RunKeeps(fsm, init, sys, t);
        case Send(t) => SendKeeps(fsm, init, sys, t);
        case Receive(t) => ReceiveKeeps(fsm, init, sys, t);
      }
    }
  }
}
