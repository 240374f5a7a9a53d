/** What holds in every run of the engine, for every scheduler. */
module FsmTheorems {
  import opened Options
  import opened Fsm
  import opened FsmConcurrency

  // ---- serialisability --------------------------------------------------------

  /** `after` only appended callback records of this owner. */
  ghost predicate Extends(m: Mem, after: Mem, owner: nat) {
    && m.trace <= after.trace
    && (forall k: nat :: |m.trace| <= k < |after.trace| ==> after.trace[k].owner == owner)
    && (m.crashed ==> after.crashed)
  }

  lemma HandleOneExtends(fsm: Fsm, owner: nat, m: Mem, ev: EventData)
    ensures Extends(m, HandleOne(fsm, owner, m, ev), owner)
  {}

  lemma {:induction false} DrainExtends(fsm: Fsm, owner: nat, m: Mem, n: nat)
    ensures Extends(m, DrainN(fsm, owner, m, n), owner)
  {
    if n > 0 {
      DrainExtends(fsm, owner, m, n - 1);
      var d := DrainN(fsm, owner, m, n - 1);
      if !Settled(d) {
        HandleOneExtends(fsm, owner, d.(next := None), d.next.value);
      }
    }
  }

  lemma WholeExtends(fsm: Fsm, m: Mem, s: Served)
    ensures Extends(m, Whole(fsm, m, s), s.task)
  {
    HandleOneExtends(fsm, s.task, m, s.ev);
    DrainExtends(fsm, s.task, HandleOne(fsm, s.task, m, s.ev), s.follows);
  }

  lemma EntryExtends(fsm: Fsm, owner: nat, m: Mem, ev: EventData, to: StateType)
    ensures Extends(m, EntryPart(fsm, m, owner, ev, to), owner)
    ensures Extends(m, SwitchPart(fsm, m, owner, ev, to), owner)
  {}

  lemma ExitExtends(fsm: Fsm, owner: nat, m: Mem, ev: EventData, from: StateType, to: StateType)
    ensures Extends(m, ExitPart(fsm, m, owner, ev, from, to), owner)
  {}

  lemma FinishExtends(fsm: Fsm, owner: nat, m: Mem, pc: Pc)
    ensures Extends(m, Finish(fsm, owner, m, pc), owner)
  {
    match pc
    case Take(ev, _) => HandleOneExtends(fsm, owner, m, ev);
    case Event(ev, from, to) => ExitExtends(fsm, owner, InvokeIfAny(fsm, m, owner, from, ev), ev, from, to);
    case Exit(ev, from, to) => ExitExtends(fsm, owner, m, ev, from, to);
    case Switch(ev, to) => EntryExtends(fsm, owner, m, ev, to);
    case Entry(ev, to) => EntryExtends(fsm, owner, m, ev, to);
    case _ =>
  }

  ghost predicate DistinctTasks(served: seq<Served>) {
    forall i: nat, j: nat :: i < j < |served| ==> served[i].task != served[j].task
  }

  /** The records of one task are never split by a record of another one. */
  ghost predicate Contiguous(trace: seq<Call>) {
    forall i: nat, j: nat, k: nat :: i < j < k < |trace| && trace[i].owner == trace[k].owner
      ==> trace[j].owner == trace[i].owner
  }

  lemma {:induction false} SerialContiguous(fsm: Fsm, init: Mem, served: seq<Served>)
    requires DistinctTasks(served) && init.trace == []
    ensures Contiguous(Serial(fsm, init, served).trace)
    ensures forall c <- Serial(fsm, init, served).trace :: WasServed(served, c.owner)
  {
    if served != [] {
      var k := |served| - 1;
      var before := Serial(fsm, init, served[..k]);
      SerialContiguous(fsm, init, served[..k]);
      WholeExtends(fsm, before, served[k]);
      var after := Whole(fsm, before, served[k]);
      forall c <- after.trace ensures WasServed(served, c.owner) {
        var p: nat :| p < |after.trace| && after.trace[p] == c;
        if p < |before.trace| {
          assert c == before.trace[p];
          assert WasServed(served[..k], c.owner);
          var i: nat :| i < k && served[..k][i].task == c.owner;
          assert served[i].task == c.owner;
        } else {
          assert served[k].task == c.owner;
        }
      }
      forall p: nat | p < |before.trace|
        ensures after.trace[p] == before.trace[p] && after.trace[p].owner != served[k].task
      {
        assert before.trace[p] in before.trace;
        assert WasServed(served[..k], before.trace[p].owner);
      }
    }
  }

  /** Every task found a state that the tasks before it had drained and left whole. */
  ghost predicate EachStartsSettled(fsm: Fsm, init: Mem, served: seq<Served>) {
    forall i: nat :: i < |served| ==> StartsSettled(fsm, init, served, i)
  }

  predicate StartsSettled(fsm: Fsm, init: Mem, served: seq<Served>, i: nat)
    requires i < |served|
  {
    Serial(fsm, init, served[..i]).next.None? && !Serial(fsm, init, served[..i]).crashed
  }

  /** Every interleaving is a sequential run of the tasks in the order in which they
      took the lock, each drained before the next one starts: a free state is what that
      run leaves, a held one is on its way from what the previous tasks left to what the
      run leaves, and no two tasks' callbacks are ever mixed. */
  lemma Serialisable(fsm: Fsm, s: StateType, info: Info, acts: seq<Action>)
    ensures var init := Start(s, info); var sys := Exec(fsm, Boot(init), acts);
      && DistinctTasks(sys.served)
      && EachStartsSettled(fsm, init, sys.served)
      && (forall i: nat :: i < |sys.served| ==>
            sys.served[i].task < |sys.tasks| && sys.served[i].ev == sys.tasks[sys.served[i].task].ev)
      && (sys.lock.None? ==> sys.mem == Serial(fsm, init, sys.served) && sys.mem.next.None?)
      && (sys.lock.Some? ==>
            && sys.served != [] && sys.served[|sys.served| - 1].task == sys.lock.value
            && Serial(fsm, init, sys.served[..|sys.served| - 1]).trace <= sys.mem.trace
            && sys.mem.trace <= Serial(fsm, init, sys.served).trace)
      && Contiguous(sys.mem.trace)
  {
    var init := Start(s, info);
    var sys := Exec(fsm, Boot(init), acts);
    Reachable(fsm, init, acts);
    SerialContiguous(fsm, init, sys.served);
    AfterPrevious(fsm, init, acts);
    if sys.lock.Some? {
      FinishExtends(fsm, sys.lock.value, sys.mem, sys.tasks[sys.lock.value].pc);
    }
  }

  /** The previous tasks' part of the history is complete when a task takes over. */
  ghost predicate PreviousDone(fsm: Fsm, init: Mem, sys: Sys) {
    && EachStartsSettled(fsm, init, sys.served)
    && (sys.lock.Some? ==>
          && sys.served != []
          && Serial(fsm, init, sys.served[..|sys.served| - 1]).trace <= sys.mem.trace)
  }

  lemma LockKeepsPrevious(fsm: Fsm, init: Mem, sys: Sys, t: nat)
    requires Inv(fsm, init, sys) && PreviousDone(fsm, init, sys) && Enabled(fsm, sys, Lock(t))
    ensures PreviousDone(fsm, init, Apply(fsm, sys, Lock(t)))
  {
    var after := Apply(fsm, sys, Lock(t));
    assert after.served[..|sys.served|] == sys.served;
    forall i: nat | i < |after.served| ensures StartsSettled(fsm, init, after.served, i) {
      if i < |sys.served| {
        assert StartsSettled(fsm, init, sys.served, i);
        assert after.served[..i] == sys.served[..i];
      }
    }
  }

  lemma RunKeepsPrevious(fsm: Fsm, init: Mem, sys: Sys, t: nat)
    requires Inv(fsm, init, sys) && PreviousDone(fsm, init, sys) && Enabled(fsm, sys, Run(t))
    ensures PreviousDone(fsm, init, Apply(fsm, sys, Run(t)))
  {
    var turn := TurnOf(fsm, t, sys.mem, sys.tasks[t].pc);
    var after := Move(sys, t, turn);
    TurnKeeps(fsm, t, sys.mem, sys.tasks[t].pc);
    MoveShape(sys, t, turn);
    TurnAppends(fsm, t, sys.mem, sys.tasks[t].pc);
    forall i: nat | i < |after.served| ensures StartsSettled(fsm, init, after.served, i) {
      assert StartsSettled(fsm, init, sys.served, i);
      assert after.served[..i] == sys.served[..i];
    }
  }

  /** The other actions touch neither the state nor the record of who was served. */
  lemma ActionKeepsPrevious(fsm: Fsm, init: Mem, sys: Sys, a: Action)
    requires Inv(fsm, init, sys) && PreviousDone(fsm, init, sys) && Enabled(fsm, sys, a)
    ensures PreviousDone(fsm, init, Apply(fsm, sys, a))
  {
    match a
    case Run(t) => RunKeepsPrevious(fsm, init, sys, t);
    case Lock(t) => LockKeepsPrevious(fsm, init, sys, t);
    case _ =>
      forall i: nat | i < |sys.served| ensures StartsSettled(fsm, init, Apply(fsm, sys, a).served, i) {
        assert StartsSettled(fsm, init, sys.served, i);
      }
  }

  lemma {:induction false} AfterPrevious(fsm: Fsm, init: Mem, acts: seq<Action>)
    requires Settled(init) && !init.crashed
    ensures PreviousDone(fsm, init, Exec(fsm, Boot(init), acts))
  {
    if acts != [] {
      var a := acts[|acts| - 1];
      var sys := Exec(fsm, Boot(init), acts[..|acts| - 1]);
      AfterPrevious(fsm, init, acts[..|acts| - 1]);
      Reachable(fsm, init, acts[..|acts| - 1]);
      if Enabled(fsm, sys, a) {
        ActionKeepsPrevious(fsm, init, sys, a);
      }
    }
  }

  lemma TurnAppends(fsm: Fsm, owner: nat, m: Mem, pc: Pc)
    requires InSection(pc) && !pc.Crashed?
    ensures m.trace <= TurnOf(fsm, owner, m, pc).mem.trace
  {}

  // ---- the callback trace -------------------------------------------------------

  /** A record without its owner and its effect. */
  datatype Seen = Seen(who: Who, ev: EventData, at: StateType)

  function Strip(trace: seq<Call>): seq<Seen> {
    seq(|trace|, i requires 0 <= i < |trace| => Seen(trace[i].who, trace[i].ev, trace[i].seen))
  }

  /** One event that had an effect: given to the generic handler, or a table entry. */
  datatype Block = Generic(ev: EventData) | Edge(from: StateType, ev: EventData, to: StateType)

  function If(c: bool, x: Seen): seq<Seen> {
    if c then [x] else []
  }

  /** The callbacks an event stands for: its own callback in the source state and,
      only when the state changes, exit of the source directly before entry of the
      target, all with the payload of the event.  A state without a callback has no event and entry calls. */
  function Render(fsm: Fsm, b: Block): seq<Seen> {
    match b
    case Generic(ev) => [Seen(Handler, ev, "")]
    case Edge(from, ev, to) =>
      If(fsm.CallbackOf(from).Some?, Seen(Of(from), ev, from))
      + if from == to then []
        else [Seen(Of(from), EventData("Exit Event", ev.evDat), from)]
             + If(fsm.CallbackOf(to).Some?, Seen(Of(to), EventData("Entry Event", ev.evDat), to))
  }

  /** The handler may run in any state. */
  function Forget(x: Seen): Seen {
    if x.who.Handler? then x.(at := "") else x
  }

  function ForgetAll(xs: seq<Seen>): seq<Seen> {
    seq(|xs|, i requires 0 <= i < |xs| => Forget(xs[i]))
  }

  function RenderAll(fsm: Fsm, bs: seq<Block>): seq<Seen> {
    if bs == [] then [] else RenderAll(fsm, bs[..|bs| - 1]) + Render(fsm, bs[|bs| - 1])
  }

  /** The blocks lead from `s` to `e` along the transition table. */
  ghost predicate IsPath(fsm: Fsm, s: StateType, bs: seq<Block>, e: StateType) {
    if bs == [] then s == e
    else
      match bs[|bs| - 1]
      case Generic(ev) => ev.evType in fsm.events && IsPath(fsm, s, bs[..|bs| - 1], e)
      case Edge(from, ev, to) => to == e && IsEdge(fsm, ev, from, to) && IsPath(fsm, s, bs[..|bs| - 1], from)
  }

  /** `m` is reached from state `s` along these blocks, and its trace is theirs. */
  ghost predicate Explains(fsm: Fsm, s: StateType, bs: seq<Block>, m: Mem) {
    IsPath(fsm, s, bs, m.current) && ForgetAll(Strip(m.trace)) == RenderAll(fsm, bs)
  }

  lemma Longer(fsm: Fsm, s: StateType, bs: seq<Block>, b: Block, m: Mem, after: Mem)
    requires Explains(fsm, s, bs, m)
    requires ForgetAll(Strip(after.trace)) == ForgetAll(Strip(m.trace)) + Render(fsm, b)
    requires match b
             case Generic(ev) => ev.evType in fsm.events && after.current == m.current
             case Edge(from, ev, to) => from == m.current && to == after.current && IsEdge(fsm, ev, from, to)
    ensures Explains(fsm, s, bs + [b], after)
  {
    assert (bs + [b])[..|bs|] == bs;
  }

  lemma EdgeTrace(fsm: Fsm, owner: nat, m: Mem, ev: EventData, to: StateType)
    requires !EventPart(fsm, m, owner, ev, m.current, to).crashed
    ensures EventPart(fsm, m, owner, ev, m.current, to).current == to
    ensures ForgetAll(Strip(EventPart(fsm, m, owner, ev, m.current, to).trace))
            == ForgetAll(Strip(m.trace)) + Render(fsm, Edge(m.current, ev, to))
  {}

  lemma HandleOneBlock(fsm: Fsm, owner: nat, m: Mem, ev: EventData, s: StateType, bs: seq<Block>)
    returns (after: seq<Block>)
    requires Explains(fsm, s, bs, m) && !HandleOne(fsm, owner, m, ev).crashed
    ensures Explains(fsm, s, after, HandleOne(fsm, owner, m, ev))
  {
    var m' := HandleOne(fsm, owner, m, ev);
    if !Transitional(fsm, ev) {
      after := bs + [Generic(ev)];
      assert ForgetAll(Strip(m'.trace)) == ForgetAll(Strip(m.trace)) + Render(fsm, Generic(ev));
      Longer(fsm, s, bs, Generic(ev), m, m');
    } else if fsm.Defined(m.current, ev.evType) {
      var to := fsm.transitions[Tuple(m.current, ev.evType)];
      after := bs + [Edge(m.current, ev, to)];
      EdgeTrace(fsm, owner, m, ev, to);
      Longer(fsm, s, bs, Edge(m.current, ev, to), m, m');
    } else {
      after := bs;
    }
  }

  lemma {:induction false} DrainBlocks(fsm: Fsm, owner: nat, m: Mem, n: nat, s: StateType, bs: seq<Block>)
    returns (after: seq<Block>)
    requires Explains(fsm, s, bs, m) && !DrainN(fsm, owner, m, n).crashed
    ensures Explains(fsm, s, after, DrainN(fsm, owner, m, n))
  {
    if n == 0 {
      after := bs;
    } else {
      var d := DrainN(fsm, owner, m, n - 1);
      after := DrainBlocks(fsm, owner, m, n - 1, s, bs);
      if !Settled(d) {
        after := HandleOneBlock(fsm, owner, d.(next := None), d.next.value, s, after);
      }
    }
  }

  lemma {:induction false} SerialBlocks(fsm: Fsm, init: Mem, served: seq<Served>) returns (bs: seq<Block>)
    requires init.trace == [] && !Serial(fsm, init, served).crashed
    ensures Explains(fsm, init.current, bs, Serial(fsm, init, served))
  {
    if served == [] {
      bs := [];
    } else {
      var x := served[|served| - 1];
      var before := Serial(fsm, init, served[..|served| - 1]);
      var first := HandleOne(fsm, x.task, before, x.ev);
      WholeExtends(fsm, before, x);
      DrainExtends(fsm, x.task, first, x.follows);
      bs := SerialBlocks(fsm, init, served[..|served| - 1]);
      bs := HandleOneBlock(fsm, x.task, before, x.ev, init.current, bs);
      bs := DrainBlocks(fsm, x.task, first, x.follows, init.current, bs);
    }
  }

  /** Handling an event crashes exactly when it needs a nil function: the generic
      handler, or the exit callback of a state that is left.  In a machine NewFsm let
      through the latter is a key that is bound to nil. */
  lemma CrashIff(fsm: Fsm, owner: nat, m: Mem, ev: EventData)
    requires fsm.Constructed() && !m.crashed
    ensures HandleOne(fsm, owner, m, ev).crashed <==>
      if ev.evType in fsm.events then fsm.handler.None?
      else
        && fsm.Defined(m.current, ev.evType)
        && fsm.transitions[Tuple(m.current, ev.evType)] != m.current
        && m.current in fsm.callbacks && fsm.callbacks[m.current].None?
  {
    if fsm.Defined(m.current, ev.evType) {
      assert Tuple(m.current, ev.evType) in fsm.transitions;
    }
  }

  /** The exit callback is called without a nil test; what NewFsm checks, together
      with callbacks that are not nil themselves, is enough for it to be there. */
  lemma HandleOneSafe(fsm: Fsm, owner: nat, m: Mem, ev: EventData)
    requires fsm.Constructed() && fsm.NonNil() && !m.crashed
    ensures !HandleOne(fsm, owner, m, ev).crashed
  {
    if Transitional(fsm, ev) && fsm.Defined(m.current, ev.evType) {
      assert Tuple(m.current, ev.evType) in fsm.transitions;
      assert m.current in fsm.callbacks;
    }
  }

  lemma {:induction false} DrainSafe(fsm: Fsm, owner: nat, m: Mem, n: nat)
    requires fsm.Constructed() && fsm.NonNil() && !m.crashed
    ensures !DrainN(fsm, owner, m, n).crashed
  {
    if n > 0 {
      DrainSafe(fsm, owner, m, n - 1);
      var d := DrainN(fsm, owner, m, n - 1);
      if !Settled(d) {
        HandleOneSafe(fsm, owner, d.(next := None), d.next.value);
      }
    }
  }

  lemma {:induction false} SerialSafe(fsm: Fsm, init: Mem, served: seq<Served>)
    requires fsm.Constructed() && fsm.NonNil() && !init.crashed
    ensures !Serial(fsm, init, served).crashed
  {
    if served != [] {
      var x := served[|served| - 1];
      var before := Serial(fsm, init, served[..|served| - 1]);
      SerialSafe(fsm, init, served[..|served| - 1]);
      HandleOneSafe(fsm, x.task, before, x.ev);
      DrainSafe(fsm, x.task, HandleOne(fsm, x.task, before, x.ev), x.follows);
    }
  }

  /** In every run of a machine NewFsm built from non-nil callbacks nothing crashes,
      and the trace is cut into blocks along a path of the table from the initial
      state, complete whenever the lock is free. */
  lemma TraceGrammar(fsm: Fsm, s: StateType, info: Info, acts: seq<Action>) returns (bs: seq<Block>, whole: Mem)
    requires fsm.Constructed() && fsm.NonNil()
    ensures var sys := Exec(fsm, Boot(Start(s, info)), acts);
      && !sys.mem.crashed
      && Explains(fsm, s, bs, whole)
      && sys.mem.trace <= whole.trace
      && (sys.lock.None? ==> sys.mem == whole)
  {
    var init := Start(s, info);
    var sys := Exec(fsm, Boot(init), acts);
    Reachable(fsm, init, acts);
    SerialSafe(fsm, init, sys.served);
    whole := Serial(fsm, init, sys.served);
    bs := SerialBlocks(fsm, init, sys.served);
    if sys.lock.Some? {
      FinishExtends(fsm, sys.lock.value, sys.mem, sys.tasks[sys.lock.value].pc);
    }
  }

  // ---- the follow-up slot ---------------------------------------------------------

  /** The follow-up left by these callbacks: the last one armed. */
  function LastPut(start: Option<EventData>, calls: seq<Call>): Option<EventData> {
    if calls == [] then start
    else match calls[|calls| - 1].arm
         case Keep => LastPut(start, calls[..|calls| - 1])
         case Put(next) => next
  }

  lemma InvokePuts(start: Option<EventData>, m0: Mem, m: Mem, owner: nat, who: Who, cb: Callback, ev: EventData)
    requires m0.trace <= m.trace && m.next == LastPut(start, m.trace[|m0.trace|..])
    ensures var m' := Invoke(m, owner, who, cb, ev);
      m0.trace <= m'.trace && m'.next == LastPut(start, m'.trace[|m0.trace|..])
  {
    var m' := Invoke(m, owner, who, cb, ev);
    var calls := m'.trace[|m0.trace|..];
    assert calls[..|calls| - 1] == m.trace[|m0.trace|..];
  }

  /** Of all the follow-ups armed while one event is handled only the last survives. */
  lemma OnlyLastArmed(fsm: Fsm, owner: nat, m: Mem, ev: EventData)
    ensures m.trace <= HandleOne(fsm, owner, m, ev).trace
    ensures HandleOne(fsm, owner, m, ev).next
            == LastPut(m.next, HandleOne(fsm, owner, m, ev).trace[|m.trace|..])
  {
    assert m.trace[|m.trace|..] == [];
    if !Transitional(fsm, ev) {
      if fsm.handler.Some? {
        InvokePuts(m.next, m, m, owner, Handler, fsm.handler.value, ev);
      }
    } else if fsm.Defined(m.current, ev.evType) {
      var from, to := m.current, fsm.transitions[Tuple(m.current, ev.evType)];
      if fsm.CallbackOf(from).Some? {
        var cb := fsm.CallbackOf(from).value;
        InvokePuts(m.next, m, m, owner, Of(from), cb, ev);
        var m1 := Invoke(m, owner, Of(from), cb, ev);
        if from != to {
          InvokePuts(m.next, m, m1, owner, Of(from), cb, ev.Clone(EXIT_EVENT));
          var m2 := Invoke(m1, owner, Of(from), cb, ev.Clone(EXIT_EVENT)).(current := to);
          if fsm.CallbackOf(to).Some? {
            InvokePuts(m.next, m, m2, owner, Of(to), fsm.CallbackOf(to).value, ev.Clone(ENTRY_EVENT));
          }
        }
      }
    }
  }

  /** An event with no table entry for the state it finds changes nothing but the
      slot it was taken from; every other one runs a callback or crashes. */
  lemma UndefinedFollowUp(fsm: Fsm, owner: nat, m: Mem)
    requires !Settled(m)
    requires fsm.Constructed() && fsm.NonNil()
    ensures Follow(fsm, owner, m) == m.(next := None)
            <==> VerdictOf(fsm, m.current, m.next.value.evType).UnknownTransition?
  {
    var ev := m.next.value;
    HandleOneSafe(fsm, owner, m.(next := None), ev);
    if fsm.Defined(m.current, ev.evType) {
      assert Tuple(m.current, ev.evType) in fsm.transitions;
    }
  }

  // ---- verdicts -----------------------------------------------------------------

  /** Nothing is left to do for this call; an asynchronous caller may or may not
      have looked at its channel. */
  predicate Finished(task: Task) {
    task.pc.Released? && |task.sent| == 1 && (task.sync ==> task.returned)
  }

  /** A transitional call is past its first look-up, where it is told. */
  predicate LookedUp(fsm: Fsm, sys: Sys, t: nat)
    requires t < |sys.tasks|
  {
    Transitional(fsm, sys.tasks[t].ev) && !sys.tasks[t].pc.Waiting? && !Unreported(sys, t)
  }

  /** A call is never told twice.  A transitional one has been told exactly when it is
      past its first look-up, whether or not its drain ever ends.  What any call is told
      is what the table says about the state it found when it took the lock. */
  lemma ExactlyOneVerdict(fsm: Fsm, s: StateType, info: Info, acts: seq<Action>, t: nat)
    requires t < |Exec(fsm, Boot(Start(s, info)), acts).tasks|
    ensures var init := Start(s, info); var sys := Exec(fsm, Boot(init), acts); var task := sys.tasks[t];
      && |task.sent| <= 1
      && task.chan == (if task.returned then [] else task.sent)
      && (Transitional(fsm, task.ev) ==> (|task.sent| == 1 <==> LookedUp(fsm, sys, t)))
      && (LookedUp(fsm, sys, t) || Finished(task) ==> exists i: nat ::
            && i < |sys.served| && sys.served[i].task == t
            && task.sent ==
               [if task.ev.evType in fsm.events
                   || Tuple(Serial(fsm, init, sys.served[..i]).current, task.ev.evType) in fsm.transitions
                then Accepted else UnknownTransition])
  {
    var init := Start(s, info);
    var sys := Exec(fsm, Boot(init), acts);
    var task := sys.tasks[t];
    Reachable(fsm, init, acts);
    assert ChannelOk(fsm, sys, t);
    if LookedUp(fsm, sys, t) || Finished(task) {
      assert WasServed(sys.served, t);
      var i: nat :| i < |sys.served| && sys.served[i].task == t;
      if Transitional(fsm, task.ev) {
        assert VerdictAt(fsm, init, sys, i);
      } else {
        assert task.sent == [Accepted];
      }
      assert task.sent == [VerdictOf(fsm, SeenBy(fsm, init, sys.served, i), task.ev.evType)];
    }
  }

  /** No goroutine that reaches a send on the error channel ever waits there. */
  lemma NoSenderBlocks(fsm: Fsm, s: StateType, info: Info, acts: seq<Action>, t: nat)
    requires t < |Exec(fsm, Boot(Start(s, info)), acts).tasks|
    ensures var sys := Exec(fsm, Boot(Start(s, info)), acts);
      && (AtSend(fsm, sys, t) ==> Enabled(fsm, sys, Send(t)))
      && (sys.lock == Some(t) && !sys.mem.crashed ==> Enabled(fsm, sys, Run(t)))
  {
    var init := Start(s, info);
    Reachable(fsm, init, acts);
    assert ChannelOk(fsm, Exec(fsm, Boot(init), acts), t);
  }

  /** A synchronous call whose section is over is never stuck: a transitional one can
      receive its verdict at once, a non-transitional one can send it or receive it. */
  lemma SyncCallReturns(fsm: Fsm, s: StateType, info: Info, acts: seq<Action>, t: nat)
    requires t < |Exec(fsm, Boot(Start(s, info)), acts).tasks|
    ensures var sys := Exec(fsm, Boot(Start(s, info)), acts); var task := sys.tasks[t];
      task.sync && task.pc.Released? && !task.returned ==>
        if Transitional(fsm, task.ev) || task.sent != [] then Enabled(fsm, sys, Receive(t))
        else Enabled(fsm, sys, Send(t))
  {
    ExactlyOneVerdict(fsm, s, info, acts, t);
  }
}
