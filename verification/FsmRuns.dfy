/** The drain loop on the runs from one initial state: which events a run can come to, and
    when every run drains. */
module FsmRuns {
  import opened Options
  import opened Fsm
  import opened FsmConcurrency
  import opened FsmTheorems
  import opened FsmProgress
  import opened FsmFollowUps

  // ---- the events a run can come to, told from the tables ---------------------------------

  /** Handling the event calls a nil function. */
  predicate Stops(fsm: Fsm, x: StateEventTuple) {
    if x.event in fsm.events then fsm.handler.None?
    else x in fsm.transitions && fsm.transitions[x] != x.state && fsm.CallbackOf(x.state).None?
  }

  /** The state it leaves. */
  function Landing(fsm: Fsm, x: StateEventTuple): StateType {
    if x.event !in fsm.events && x in fsm.transitions then fsm.transitions[x] else x.state
  }

  /** What can be handled right after x: its follow-up if it has one, else any event that
      is sent, in the state x leaves. */
  predicate Comes(fsm: Fsm, x: StateEventTuple, y: StateEventTuple) {
    && !Stops(fsm, x)
    && (FollowUp(fsm, x) == Some(y) || (FollowUp(fsm, x).None? && y.state == Landing(fsm, x)))
  }

  ghost predicate Script(fsm: Fsm, s: StateType, xs: seq<StateEventTuple>) {
    && (xs != [] ==> xs[0].state == s)
    && (forall i :: 0 < i < |xs| ==> Comes(fsm, xs[i - 1], xs[i]))
  }

  ghost predicate EndsAt(fsm: Fsm, s: StateType, xs: seq<StateEventTuple>, x: StateEventTuple) {
    xs != [] && Script(fsm, s, xs) && xs[|xs| - 1] == x
  }

  ghost predicate CanCome(fsm: Fsm, s: StateType, x: StateEventTuple) {
    exists xs: seq<StateEventTuple> :: EndsAt(fsm, s, xs, x)
  }

  /** No event that a run can come to leads back to itself. */
  ghost predicate AcyclicFrom(fsm: Fsm, s: StateType) {
    forall x: StateEventTuple, n: nat :: n > 0 && CanCome(fsm, s, x) ==> Path(fsm, x, n) != Some(x)
  }

  lemma ScriptSnoc(fsm: Fsm, s: StateType, xs: seq<StateEventTuple>, y: StateEventTuple)
    requires Script(fsm, s, xs)
    requires if xs == [] then y.state == s else Comes(fsm, xs[|xs| - 1], y)
    ensures EndsAt(fsm, s, xs + [y], y)
  {}

  /** What the whole run has to do to end: the drain of the task that was served last, from
      where the event in hand leaves it. */
  ghost predicate DrainsAfter(fsm: Fsm, s: StateType, info: Info, acts: seq<Action>) {
    var sys := Exec(fsm, Boot(Start(s, info)), acts);
    sys.served != [] ==>
      Drains(fsm, sys.served[|sys.served| - 1].task, Serial(fsm, Start(s, info), sys.served))
  }

  ghost predicate EveryRunDrains(fsm: Fsm, s: StateType, info: Info) {
    forall acts: seq<Action> :: DrainsAfter(fsm, s, info, acts)
  }

  // ---- a run is at the end of a script -------------------------------------------------------

  lemma FollowLands(fsm: Fsm, owner: nat, m: Mem)
    requires Uniform(fsm) && !Settled(m)
    ensures var f, x := Follow(fsm, owner, m), NodeOf(m);
      && (f.crashed <==> Stops(fsm, x))
      && (!f.crashed ==> f.current == Landing(fsm, x))
  {
    var ev, m0 := m.next.value, m.(next := None);
    if ev.evType !in fsm.events && fsm.Defined(m.current, ev.evType) {
      EventPartKind(fsm, m0, owner, ev, fsm.transitions[Tuple(m.current, ev.evType)]);
    }
  }

  /** The state stands at the end of the script: with a follow-up armed that is its last
      event, else with its last event and that one's follow-ups done. */
  ghost predicate At(fsm: Fsm, s: StateType, xs: seq<StateEventTuple>, m: Mem) {
    && !m.crashed && Script(fsm, s, xs)
    && if m.next.Some? then EndsAt(fsm, s, xs, NodeOf(m))
       else if xs == [] then m.current == s
       else
         var x := xs[|xs| - 1];
         !Stops(fsm, x) && FollowUp(fsm, x).None? && m.current == Landing(fsm, x)
  }

  lemma FollowAt(fsm: Fsm, owner: nat, s: StateType, xs: seq<StateEventTuple>, m: Mem)
    returns (ys: seq<StateEventTuple>)
    requires Uniform(fsm) && !Settled(m) && EndsAt(fsm, s, xs, NodeOf(m))
    ensures Follow(fsm, owner, m).crashed || At(fsm, s, ys, Follow(fsm, owner, m))
  {
    var f := Follow(fsm, owner, m);
    FollowStep(fsm, owner, m);
    FollowLands(fsm, owner, m);
    ys := xs;
    if !Settled(f) {
      ys := xs + [NodeOf(f)];
      ScriptSnoc(fsm, s, xs, NodeOf(f));
    }
  }

  lemma {:induction false} DrainAt(fsm: Fsm, owner: nat, s: StateType, xs: seq<StateEventTuple>, m: Mem, n: nat)
    returns (ys: seq<StateEventTuple>)
    requires Uniform(fsm) && (m.crashed || At(fsm, s, xs, m))
    ensures DrainN(fsm, owner, m, n).crashed || At(fsm, s, ys, DrainN(fsm, owner, m, n))
  {
    if n == 0 {
      ys := xs;
    } else {
      var d := DrainN(fsm, owner, m, n - 1);
      ys := DrainAt(fsm, owner, s, xs, m, n - 1);
      if !Settled(d) {
        ys := FollowAt(fsm, owner, s, ys, d);
      }
    }
  }

  /** Handling an event that was sent is a turn of the drain loop that finds it armed. */
  lemma SentIsArmed(fsm: Fsm, owner: nat, m: Mem, ev: EventData)
    requires m.next.None? && !m.crashed
    ensures HandleOne(fsm, owner, m, ev) == Follow(fsm, owner, m.(next := Some(ev)))
  {
    assert m.(next := Some(ev)).(next := None) == m;
  }

  lemma WholeAt(fsm: Fsm, s: StateType, xs: seq<StateEventTuple>, m: Mem, x: Served)
    returns (ys: seq<StateEventTuple>)
    requires Uniform(fsm) && At(fsm, s, xs, m) && m.next.None?
    ensures Whole(fsm, m, x).crashed || At(fsm, s, ys, Whole(fsm, m, x))
  {
    var y := Tuple(m.current, x.ev.evType);
    ScriptSnoc(fsm, s, xs, y);
    SentIsArmed(fsm, x.task, m, x.ev);
    ys := FollowAt(fsm, x.task, s, xs + [y], m.(next := Some(x.ev)));
    ys := DrainAt(fsm, x.task, s, ys, HandleOne(fsm, x.task, m, x.ev), x.follows);
  }

  lemma PrefixSettled(fsm: Fsm, init: Mem, served: seq<Served>)
    requires EachStartsSettled(fsm, init, served) && served != []
    ensures EachStartsSettled(fsm, init, served[..|served| - 1])
  {
    var front := served[..|served| - 1];
    forall i: nat | i < |front| ensures StartsSettled(fsm, init, front, i) {
      SettledBefore(fsm, init, served, i);
      assert front[..i] == served[..i];
    }
  }

  lemma {:induction false} SerialAt(fsm: Fsm, init: Mem, served: seq<Served>) returns (xs: seq<StateEventTuple>)
    requires Uniform(fsm) && EachStartsSettled(fsm, init, served) && init.next.None? && !init.crashed
    ensures Serial(fsm, init, served).crashed || At(fsm, init.current, xs, Serial(fsm, init, served))
  {
    if served == [] {
      xs := [];
    } else {
      var k := |served| - 1;
      PrefixSettled(fsm, init, served);
      SettledBefore(fsm, init, served, k);
      xs := SerialAt(fsm, init, served[..k]);
      xs := WholeAt(fsm, init.current, xs, Serial(fsm, init, served[..k]), served[k]);
    }
  }

  // ---- without a cycle every run drains --------------------------------------------------------

  lemma {:induction false} PathCanCome(fsm: Fsm, s: StateType, x: StateEventTuple, n: nat)
    requires CanCome(fsm, s, x) && Path(fsm, x, n).Some?
    ensures CanCome(fsm, s, Path(fsm, x, n).value)
  {
    if n > 0 {
      PathBelow(fsm, x, n - 1, n);
      PathCanCome(fsm, s, x, n - 1);
      var y, z := Path(fsm, x, n - 1).value, Path(fsm, x, n).value;
      var xs: seq<StateEventTuple> :| EndsAt(fsm, s, xs, y);
      ScriptSnoc(fsm, s, xs, z);
    }
  }

  lemma NoRepeatFrom(fsm: Fsm, s: StateType, x: StateEventTuple)
    requires AcyclicFrom(fsm, s) && CanCome(fsm, s, x)
    ensures NoRepeat(fsm, x)
  {
    forall i: nat, n: nat | i < n && Path(fsm, x, i).Some? ensures Path(fsm, x, i) != Path(fsm, x, n) {
      PathCanCome(fsm, s, x, i);
      if Path(fsm, x, i) == Path(fsm, x, n) {
        Repeats(fsm, x, i, n);
      }
    }
  }

  lemma AcyclicRunDrains(fsm: Fsm, s: StateType, info: Info, acts: seq<Action>)
    requires Uniform(fsm) && AcyclicFrom(fsm, s)
    ensures DrainsAfter(fsm, s, info, acts)
  {
    var init := Start(s, info);
    var sys := Exec(fsm, Boot(init), acts);
    AfterPrevious(fsm, init, acts);
    if sys.served != [] {
      var owner, f := sys.served[|sys.served| - 1].task, Serial(fsm, init, sys.served);
      var xs := SerialAt(fsm, init, sys.served);
      if Settled(f) {
        assert Settled(DrainN(fsm, owner, f, 0));
      } else {
        NoRepeatFrom(fsm, s, NodeOf(f));
        PathEnds(fsm, NodeOf(f));
        DrainWalks(fsm, owner, f, |Universe(fsm, f.current)| + 1);
      }
    }
  }

  // ---- every script is run ----------------------------------------------------------------------

  /** The lock holder is about to look this event up. */
  predicate Taking(sys: Sys, x: StateEventTuple) {
    && sys.lock.Some? && sys.lock.value < |sys.tasks| && !sys.mem.crashed
    && sys.tasks[sys.lock.value].pc.Take?
    && Tuple(sys.mem.current, sys.tasks[sys.lock.value].pc.ev.evType) == x
  }

  lemma HolderMoves(fsm: Fsm, init: Mem, sys: Sys, t: nat)
    requires Inv(fsm, init, sys) && sys.lock == Some(t) && !sys.tasks[t].pc.Crashed?
    ensures Enabled(fsm, sys, Run(t)) && Inv(fsm, init, RunStep(fsm, sys, t))
  {
    assert ChannelOk(fsm, sys, t);
    RunKeeps(fsm, init, sys, t);
  }

  /** The holder, left alone, brings the event in hand to its end. */
  lemma {:induction false} RunEvent(fsm: Fsm, init: Mem, sys: Sys, t: nat) returns (more: seq<Action>)
    requires Inv(fsm, init, sys) && sys.lock == Some(t)
    requires !Finish(fsm, t, sys.mem, sys.tasks[t].pc).crashed
    ensures var after := Exec(fsm, sys, more);
      && Inv(fsm, init, after) && after.lock == Some(t) && after.tasks[t].pc.Drain?
      && after.mem == Finish(fsm, t, sys.mem, sys.tasks[t].pc)
    decreases Distance(sys.tasks[t].pc)
  {
    var pc := sys.tasks[t].pc;
    if pc.Drain? {
      more := [];
    } else {
      assert !pc.Crashed?;
      HolderMoves(fsm, init, sys, t);
      TurnKeeps(fsm, t, sys.mem, pc);
      TurnNearer(fsm, t, sys.mem, pc);
      var rest := RunEvent(fsm, init, RunStep(fsm, sys, t), t);
      ExecOne(fsm, sys, Run(t), rest);
      more := [Run(t)] + rest;
    }
  }

  /** One turn at the head of the drain loop. */
  lemma DrainTurn(fsm: Fsm, init: Mem, sys: Sys, t: nat)
    requires Inv(fsm, init, sys) && sys.lock == Some(t) && sys.tasks[t].pc.Drain? && !sys.mem.crashed
    ensures Enabled(fsm, sys, Run(t)) && Inv(fsm, init, RunStep(fsm, sys, t))
    ensures sys.mem.next.Some? ==> Taking(RunStep(fsm, sys, t), NodeOf(sys.mem))
    ensures sys.mem.next.None? ==> RunStep(fsm, sys, t).lock.None? && RunStep(fsm, sys, t).mem == sys.mem
  {
    HolderMoves(fsm, init, sys, t);
  }

  /** With the lock free any event can be sent and taken. */
  lemma SendAndTake(fsm: Fsm, init: Mem, sys: Sys, x: StateEventTuple) returns (more: seq<Action>)
    requires Inv(fsm, init, sys) && sys.lock.None? && sys.mem.current == x.state
    ensures Inv(fsm, init, Exec(fsm, sys, more)) && Taking(Exec(fsm, sys, more), x)
  {
    var a, t := Arrive(EventData(x.event, 0), true), |sys.tasks|;
    var sys1 := Apply(fsm, sys, a);
    ArriveKeeps(fsm, init, sys, a);
    assert sys1.tasks[t].pc.Waiting?;
    LockKeeps(fsm, init, sys1, t);
    ExecOne(fsm, sys1, Lock(t), []);
    ExecOne(fsm, sys, a, [Lock(t)]);
    assert [Lock(t)] + [] == [Lock(t)];
    more := [a] + [Lock(t)];
  }

  /** From where x is taken, a run goes on to any event that can come after it. */
  lemma GoOn(fsm: Fsm, init: Mem, sys: Sys, x: StateEventTuple, y: StateEventTuple) returns (more: seq<Action>)
    requires Uniform(fsm) && Inv(fsm, init, sys) && Taking(sys, x) && Comes(fsm, x, y)
    ensures Inv(fsm, init, Exec(fsm, sys, more)) && Taking(Exec(fsm, sys, more), y)
  {
    var t := sys.lock.value;
    var ev := sys.tasks[t].pc.ev;
    var m := sys.mem.(next := Some(ev));
    SentIsArmed(fsm, t, sys.mem, ev);
    FollowStep(fsm, t, m);
    FollowLands(fsm, t, m);
    var first := RunEvent(fsm, init, sys, t);
    var sys1 := Exec(fsm, sys, first);
    DrainTurn(fsm, init, sys1, t);
    var sys2 := RunStep(fsm, sys1, t);
    var rest: seq<Action> := [];
    if FollowUp(fsm, x).None? {
      rest := SendAndTake(fsm, init, sys2, y);
    } else {
      assert Exec(fsm, sys2, []) == sys2;
    }
    ExecOne(fsm, sys1, Run(t), rest);
    ExecFrom(fsm, sys, first, [Run(t)] + rest);
    more := first + ([Run(t)] + rest);
  }

  lemma {:induction false} ScriptRun(fsm: Fsm, s: StateType, info: Info, xs: seq<StateEventTuple>)
    returns (acts: seq<Action>)
    requires Uniform(fsm) && xs != [] && Script(fsm, s, xs)
    ensures Inv(fsm, Start(s, info), Exec(fsm, Boot(Start(s, info)), acts))
    ensures Taking(Exec(fsm, Boot(Start(s, info)), acts), xs[|xs| - 1])
    decreases |xs|
  {
    var init, k := Start(s, info), |xs| - 1;
    if k == 0 {
      Reachable(fsm, init, []);
      acts := SendAndTake(fsm, init, Boot(init), xs[0]);
    } else {
      var before := ScriptRun(fsm, s, info, xs[..k]);
      var more := GoOn(fsm, init, Exec(fsm, Boot(init), before), xs[k - 1], xs[k]);
      ExecFrom(fsm, Boot(init), before, more);
      acts := before + more;
    }
  }

  /** What is about to be taken leads back to itself: the drain does not end. */
  lemma CycleInHand(fsm: Fsm, owner: nat, m: Mem, ev: EventData, n: nat)
    requires Uniform(fsm) && m.next.None? && !m.crashed && n > 0
    requires Path(fsm, Tuple(m.current, ev.evType), n) == Some(Tuple(m.current, ev.evType))
    ensures !Drains(fsm, owner, HandleOne(fsm, owner, m, ev))
  {
    var m' := m.(next := Some(ev));
    SentIsArmed(fsm, owner, m, ev);
    forall k: nat ensures !Settled(DrainN(fsm, owner, HandleOne(fsm, owner, m, ev), k)) {
      DrainShift(fsm, owner, m', k);
      CycleGoesOn(fsm, NodeOf(m'), n, k + 1);
      DrainWalks(fsm, owner, m', k + 1);
    }
  }

  lemma CycleIsRun(fsm: Fsm, s: StateType, info: Info, x: StateEventTuple, n: nat) returns (acts: seq<Action>)
    requires Uniform(fsm) && CanCome(fsm, s, x) && n > 0 && Path(fsm, x, n) == Some(x)
    ensures !DrainsAfter(fsm, s, info, acts)
  {
    var xs: seq<StateEventTuple> :| EndsAt(fsm, s, xs, x);
    acts := ScriptRun(fsm, s, info, xs);
    var sys := Exec(fsm, Boot(Start(s, info)), acts);
    var t := sys.lock.value;
    CycleInHand(fsm, t, sys.mem, sys.tasks[t].pc.ev, n);
  }

  /** With callbacks that decide on state and event type: every run from this initial
      state drains, whatever is sent and however it is scheduled, if and only if no event
      that a run can come to leads back to itself. */
  lemma RunsDrainIff(fsm: Fsm, s: StateType, info: Info)
    requires Uniform(fsm)
    ensures EveryRunDrains(fsm, s, info) <==> AcyclicFrom(fsm, s)
  {
    if AcyclicFrom(fsm, s) {
      forall acts: seq<Action> ensures DrainsAfter(fsm, s, info, acts) {
        AcyclicRunDrains(fsm, s, info, acts);
      }
    }
    if x: StateEventTuple, n: nat :| n > 0 && CanCome(fsm, s, x) && Path(fsm, x, n) == Some(x) {
      var acts := CycleIsRun(fsm, s, info, x, n);
    }
  }
}
