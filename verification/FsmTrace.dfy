/** The callback trace at every moment of every run, also in the middle of an event. */
module FsmTrace {
  import opened Options
  import opened Fsm
  import opened FsmConcurrency
  import opened FsmTheorems

  /** What of the event in hand is in the trace already, with the state unchanged. */
  function Begun(fsm: Fsm, s: StateType, pc: Pc): seq<Seen> {
    match pc
    case Exit(ev, from, _) => If(fsm.CallbackOf(from).Some?, Seen(Of(from), ev, from))
    case Switch(ev, _) =>
      If(fsm.CallbackOf(s).Some?, Seen(Of(s), ev, s)) + [Seen(Of(s), EventData("Exit Event", ev.evDat), s)]
    case _ => []
  }

  /** What of it is still to come, with the state changed. */
  function Missing(fsm: Fsm, pc: Pc): seq<Seen> {
    match pc
    case Entry(ev, to) => If(fsm.CallbackOf(to).Some?, Seen(Of(to), EventData("Entry Event", ev.evDat), to))
    case _ => []
  }

  /** Blocks along a path from s to the current state, and a beginning of the next one. */
  ghost predicate Grown(fsm: Fsm, s: StateType, bs: seq<Block>, m: Mem, pc: Pc) {
    && IsPath(fsm, s, bs, m.current)
    && ForgetAll(Strip(m.trace)) + Missing(fsm, pc) == RenderAll(fsm, bs) + Begun(fsm, m.current, pc)
  }

  lemma Snoc(fsm: Fsm, bs: seq<Block>, b: Block)
    ensures RenderAll(fsm, bs + [b]) == RenderAll(fsm, bs) + Render(fsm, b)
    ensures (bs + [b])[..|bs|] == bs && (bs + [b])[|bs|] == b
  {
    assert (bs + [b])[..|bs|] == bs;
  }

  lemma InvokeTrace(m: Mem, owner: nat, who: Who, cb: Callback, ev: EventData)
    ensures ForgetAll(Strip(Invoke(m, owner, who, cb, ev).trace))
            == ForgetAll(Strip(m.trace)) + [Forget(Seen(who, ev, m.current))]
  {}

  /** Nothing begun and nothing missing: the trace is the blocks. */
  lemma Even(fsm: Fsm, s: StateType, bs: seq<Block>, m: Mem, pc: Pc)
    requires Begun(fsm, m.current, pc) == [] && Missing(fsm, pc) == []
    ensures Grown(fsm, s, bs, m, pc) <==> Explains(fsm, s, bs, m)
  {
    var t, r := ForgetAll(Strip(m.trace)), RenderAll(fsm, bs);
    assert t + [] == t && r + [] == r;
  }

  lemma TakeGrows(fsm: Fsm, owner: nat, m: Mem, pc: Pc, s: StateType, bs: seq<Block>) returns (after: seq<Block>)
    requires pc.Take? && Grown(fsm, s, bs, m, pc)
    ensures var turn := TurnOf(fsm, owner, m, pc); Grown(fsm, s, after, turn.mem, turn.pc)
  {
    var turn := TurnOf(fsm, owner, m, pc);
    Even(fsm, s, bs, m, pc);
    after := bs;
    if !Transitional(fsm, pc.ev) && fsm.handler.Some? {
      after := bs + [Generic(pc.ev)];
      Snoc(fsm, bs, Generic(pc.ev));
      InvokeTrace(m, owner, Handler, fsm.handler.value, pc.ev);
    }
    Even(fsm, s, after, turn.mem, turn.pc);
  }

  lemma EventCall(fsm: Fsm, owner: nat, m: Mem, pc: Pc)
    requires pc.Event? && PcOk(fsm, m, pc)
    ensures ForgetAll(Strip(TurnOf(fsm, owner, m, pc).mem.trace))
            == ForgetAll(Strip(m.trace)) + If(fsm.CallbackOf(pc.from).Some?, Seen(Of(pc.from), pc.ev, pc.from))
  {
    if fsm.CallbackOf(pc.from).Some? {
      InvokeTrace(m, owner, Of(pc.from), fsm.CallbackOf(pc.from).value, pc.ev);
    }
  }

  lemma EventGrows(fsm: Fsm, owner: nat, m: Mem, pc: Pc, s: StateType, bs: seq<Block>) returns (after: seq<Block>)
    requires pc.Event? && PcOk(fsm, m, pc) && Grown(fsm, s, bs, m, pc)
    ensures var turn := TurnOf(fsm, owner, m, pc); Grown(fsm, s, after, turn.mem, turn.pc)
  {
    var turn := TurnOf(fsm, owner, m, pc);
    Even(fsm, s, bs, m, pc);
    EventCall(fsm, owner, m, pc);
    after := bs;
    if pc.from == pc.to {
      var b := Edge(pc.from, pc.ev, pc.to);
      after := bs + [b];
      Snoc(fsm, bs, b);
      assert Render(fsm, b) == If(fsm.CallbackOf(pc.from).Some?, Seen(Of(pc.from), pc.ev, pc.from));
      Even(fsm, s, after, turn.mem, turn.pc);
    } else {
      assert turn.pc == Exit(pc.ev, pc.from, pc.to) && turn.mem.current == m.current;
      var t := ForgetAll(Strip(turn.mem.trace));
      assert t + [] == t;
    }
  }

  lemma ExitGrows(fsm: Fsm, owner: nat, m: Mem, pc: Pc, s: StateType, bs: seq<Block>)
    requires pc.Exit? && PcOk(fsm, m, pc) && Grown(fsm, s, bs, m, pc)
    ensures var turn := TurnOf(fsm, owner, m, pc); Grown(fsm, s, bs, turn.mem, turn.pc)
  {
    var turn := TurnOf(fsm, owner, m, pc);
    var t, r, call := ForgetAll(Strip(m.trace)), RenderAll(fsm, bs), Begun(fsm, m.current, pc);
    assert t == r + call by {
      assert t + [] == t;
    }
    if fsm.CallbackOf(pc.from).Some? {
      InvokeTrace(m, owner, Of(pc.from), fsm.CallbackOf(pc.from).value, pc.ev.Clone(EXIT_EVENT));
      var exit := [Seen(Of(pc.from), pc.ev.Clone(EXIT_EVENT), m.current)];
      assert ForgetAll(Strip(turn.mem.trace)) + [] == r + (call + exit);
    } else {
      assert r + [] == r;
    }
  }

  lemma SwitchGrows(fsm: Fsm, owner: nat, m: Mem, pc: Pc, s: StateType, bs: seq<Block>) returns (after: seq<Block>)
    requires pc.Switch? && PcOk(fsm, m, pc) && Grown(fsm, s, bs, m, pc)
    ensures var turn := TurnOf(fsm, owner, m, pc); Grown(fsm, s, after, turn.mem, turn.pc)
  {
    var b := Edge(m.current, pc.ev, pc.to);
    var t, r, begun := ForgetAll(Strip(m.trace)), RenderAll(fsm, bs), Begun(fsm, m.current, pc);
    var entry := Missing(fsm, Entry(pc.ev, pc.to));
    assert t == r + begun by {
      assert t + [] == t;
    }
    after := bs + [b];
    Snoc(fsm, bs, b);
    assert Render(fsm, b) == begun + entry;
    assert t + entry == r + (begun + entry) + [];
  }

  lemma EntryGrows(fsm: Fsm, owner: nat, m: Mem, pc: Pc, s: StateType, bs: seq<Block>)
    requires pc.Entry? && PcOk(fsm, m, pc) && Grown(fsm, s, bs, m, pc)
    ensures var turn := TurnOf(fsm, owner, m, pc); Grown(fsm, s, bs, turn.mem, turn.pc)
  {
    var turn := TurnOf(fsm, owner, m, pc);
    var t, r := ForgetAll(Strip(m.trace)), RenderAll(fsm, bs);
    assert t + Missing(fsm, pc) == r by {
      assert r + [] == r;
    }
    if fsm.CallbackOf(pc.to).Some? {
      InvokeTrace(m, owner, Of(pc.to), fsm.CallbackOf(pc.to).value, pc.ev.Clone(ENTRY_EVENT));
    } else {
      assert t + [] == t;
    }
    Even(fsm, s, bs, turn.mem, turn.pc);
  }

  lemma TurnGrows(fsm: Fsm, owner: nat, m: Mem, pc: Pc, s: StateType, bs: seq<Block>) returns (after: seq<Block>)
    requires InSection(pc) && !pc.Crashed? && PcOk(fsm, m, pc) && Grown(fsm, s, bs, m, pc)
    ensures var turn := TurnOf(fsm, owner, m, pc); Grown(fsm, s, after, turn.mem, turn.pc)
  {
    after := bs;
    match pc
    case Take(_, _) => after := TakeGrows(fsm, owner, m, pc, s, bs);
    case Event(_, _, _) => after := EventGrows(fsm, owner, m, pc, s, bs);
    case Exit(_, _, _) => ExitGrows(fsm, owner, m, pc, s, bs);
    case Switch(_, _) => after := SwitchGrows(fsm, owner, m, pc, s, bs);
    case Entry(_, _) => EntryGrows(fsm, owner, m, pc, s, bs);
    case Drain =>
  }

  /** Where the task in the critical section stands. */
  function HolderPc(sys: Sys): Pc
    requires sys.lock.Some? ==> sys.lock.value < |sys.tasks|
  {
    if sys.lock.None? then Released else sys.tasks[sys.lock.value].pc
  }

  /** One step of the system. */
  lemma StepGrows(fsm: Fsm, init: Mem, sys: Sys, a: Action, bs: seq<Block>) returns (after: seq<Block>)
    requires Inv(fsm, init, sys) && Enabled(fsm, sys, a)
    requires Grown(fsm, init.current, bs, sys.mem, HolderPc(sys))
    requires LockInv(Apply(fsm, sys, a))
    ensures Grown(fsm, init.current, after, Apply(fsm, sys, a).mem, HolderPc(Apply(fsm, sys, a)))
  {
    after := bs;
    if a.Run? {
      after := TurnGrows(fsm, a.t, sys.mem, sys.tasks[a.t].pc, init.current, bs);
    }
  }

  lemma StepInv(fsm: Fsm, init: Mem, acts: seq<Action>)
    requires Settled(init) && !init.crashed && acts != []
    ensures Inv(fsm, init, Exec(fsm, Boot(init), acts[..|acts| - 1]))
    ensures LockInv(Exec(fsm, Boot(init), acts))
  {
    Reachable(fsm, init, acts);
    Reachable(fsm, init, acts[..|acts| - 1]);
  }

  /** At every moment, with the lock free or held: the trace is made of complete blocks
      along a path of the table from the initial state to the current one, and of the
      beginning of one more block while an event is being handled.  (After the state
      change, the block lacks its entry call.)  Nothing is asked of the machine. */
  lemma {:induction false} AlwaysGrown(fsm: Fsm, s: StateType, info: Info, acts: seq<Action>) returns (bs: seq<Block>)
    ensures var sys := Exec(fsm, Boot(Start(s, info)), acts);
      LockInv(sys) && Grown(fsm, s, bs, sys.mem, HolderPc(sys))
  {
    var init := Start(s, info);
    if acts == [] {
      bs := [];
      Reachable(fsm, init, acts);
    } else {
      var before := Exec(fsm, Boot(init), acts[..|acts| - 1]);
      bs := AlwaysGrown(fsm, s, info, acts[..|acts| - 1]);
      StepInv(fsm, init, acts);
      if Enabled(fsm, before, acts[|acts| - 1]) {
        bs := StepGrows(fsm, init, before, acts[|acts| - 1], bs);
      }
    }
  }

  // ---- what the callbacks are given and what they leave --------------------------------------

  function Added(m: Mem, after: Mem): seq<Call>
    requires |m.trace| <= |after.trace|
  {
    after.trace[|m.trace|..]
  }

  /** The calls that handling one event adds, position by position: the generic handler
      with the event; or the event callback of the state found with the event, its exit
      callback and the entry callback of the state entered with the payload of the event
      under the two reserved types. */
  lemma CallsOfEvent(fsm: Fsm, owner: nat, m: Mem, ev: EventData)
    requires !HandleOne(fsm, owner, m, ev).crashed
    ensures var after := HandleOne(fsm, owner, m, ev); var from := m.current;
      && m.trace <= after.trace
      && var calls := Added(m, after);
         if ev.evType in fsm.events then
           |calls| == 1 && calls[0].who == Handler && calls[0].ev == ev && after.current == from
         else if Tuple(from, ev.evType) !in fsm.transitions then calls == [] && after == m
         else
           var to := fsm.transitions[Tuple(from, ev.evType)];
           var own := from in fsm.callbacks && fsm.callbacks[from].Some?;
           var next := to in fsm.callbacks && fsm.callbacks[to].Some?;
           && after.current == to
           && (own ==> |calls| > 0 && calls[0].who == Of(from) && calls[0].ev == ev)
           && (from == to ==> |calls| == if own then 1 else 0)
           && (from != to ==>
                 && own && |calls| == (if next then 3 else 2)
                 && calls[1].who == Of(from) && calls[1].ev == EventData("Exit Event", ev.evDat)
                 && (next ==> calls[2].who == Of(to) && calls[2].ev == EventData("Entry Event", ev.evDat)))
  {}

  /** A call did what its callback says of what it was given, in its own state. */
  ghost predicate Genuine(fsm: Fsm, c: Call) {
    match c.who
    case Handler =>
      fsm.handler.Some? && Effect(c.left, c.arm) == fsm.handler.value(c.seen, c.info, c.ev)
    case Of(s) =>
      && s == c.seen && s in fsm.callbacks && fsm.callbacks[s].Some?
      && Effect(c.left, c.arm) == fsm.callbacks[s].value(c.seen, c.info, c.ev)
  }

  /** The user data goes from each call to the next one. */
  ghost predicate Threaded(start: Info, trace: seq<Call>, end: Info) {
    && (trace == [] ==> end == start)
    && (trace != [] ==> trace[0].info == start && trace[|trace| - 1].left == end)
    && (forall k :: 0 < k < |trace| ==> trace[k].info == trace[k - 1].left)
  }

  ghost predicate Sound(fsm: Fsm, start: Info, m: Mem) {
    Threaded(start, m.trace, m.info) && forall k :: 0 <= k < |m.trace| ==> Genuine(fsm, m.trace[k])
  }

  lemma InvokeSound(fsm: Fsm, start: Info, m: Mem, owner: nat, who: Who, cb: Callback, ev: EventData)
    requires Sound(fsm, start, m)
    requires match who
             case Handler => fsm.handler == Some(cb)
             case Of(s) => s == m.current && fsm.CallbackOf(s) == Some(cb)
    ensures Sound(fsm, start, Invoke(m, owner, who, cb, ev))
  {
    var after := Invoke(m, owner, who, cb, ev);
    assert Genuine(fsm, after.trace[|m.trace|]);
    forall k | 0 <= k < |m.trace| ensures Genuine(fsm, after.trace[k]) {
      assert after.trace[k] == m.trace[k];
    }
  }

  lemma TurnSound(fsm: Fsm, start: Info, owner: nat, m: Mem, pc: Pc)
    requires InSection(pc) && !pc.Crashed? && PcOk(fsm, m, pc) && Sound(fsm, start, m)
    ensures Sound(fsm, start, TurnOf(fsm, owner, m, pc).mem)
  {
    match pc
    case Take(ev, _) =>
      if !Transitional(fsm, ev) && fsm.handler.Some? {
        InvokeSound(fsm, start, m, owner, Handler, fsm.handler.value, ev);
      }
    case Event(ev, from, _) =>
      if fsm.CallbackOf(from).Some? {
        InvokeSound(fsm, start, m, owner, Of(from), fsm.CallbackOf(from).value, ev);
      }
    case Exit(ev, from, _) =>
      if fsm.CallbackOf(from).Some? {
        InvokeSound(fsm, start, m, owner, Of(from), fsm.CallbackOf(from).value, ev.Clone(EXIT_EVENT));
      }
    case Entry(ev, to) =>
      if fsm.CallbackOf(to).Some? {
        InvokeSound(fsm, start, m, owner, Of(to), fsm.CallbackOf(to).value, ev.Clone(ENTRY_EVENT));
      }
    case _ =>
  }

  /** In every run each call is one of the callback that the machine has for it, in its
      own state, on the user data the call before it left (the first one on the initial
      data, and the last one leaves what the state holds). */
  lemma {:induction false} AlwaysSound(fsm: Fsm, s: StateType, info: Info, acts: seq<Action>)
    ensures Sound(fsm, info, Exec(fsm, Boot(Start(s, info)), acts).mem)
  {
    var init := Start(s, info);
    if acts != [] {
      var before := Exec(fsm, Boot(init), acts[..|acts| - 1]);
      var a := acts[|acts| - 1];
      AlwaysSound(fsm, s, info, acts[..|acts| - 1]);
      StepInv(fsm, init, acts);
      if Enabled(fsm, before, a) && a.Run? {
        TurnSound(fsm, info, a.t, before.mem, before.tasks[a.t].pc);
      }
    }
  }

  /** Every call of a block carries the payload of its event. */
  lemma BlockCarriesPayload(fsm: Fsm, b: Block)
    ensures forall x <- Render(fsm, b) ::
      && x.ev.evDat == b.ev.evDat
      && (x.ev.evType == b.ev.evType || x.ev.evType == "Exit Event" || x.ev.evType == "Entry Event")
  {}
}
