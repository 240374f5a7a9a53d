/** The engine as it is written: a State object that its methods update in place. */
module FsmEngine {
  import opened Options
  import opened Fsm

  class State {
    var current: StateType
    var next: Option<EventData>
    var info: Info
    ghost var trace: seq<Call>

    constructor (i: StateType, d: Info)
      ensures View() == Mem(i, None, d, [], false)
    {
      current, next, info, trace := i, None, d, [];
    }

    ghost function View(): Mem
      reads this
    {
      Mem(current, next, info, trace, false)
    }

    method SetState(now: StateType)
      modifies this`current
      ensures View() == old(View()).(current := now)
    {
      current := now;
    }

    method SetNextEvent(ev: Option<EventData>)
      modifies this`next
      ensures View() == old(View()).(next := ev)
    {
      next := ev;
    }

    /** Runs a callback on the object. */
    method Run(ghost owner: nat, ghost who: Who, cb: Callback, ev: EventData)
      modifies this
      ensures View() == Invoke(old(View()), owner, who, cb, ev)
    {
      var e := cb(current, info, ev);
      trace := trace + [Call(owner, who, ev, current, info, e.info, e.arm)];
      info := e.info;
      if e.arm.Put? {
        SetNextEvent(e.arm.next);
      }
    }
  }

  /** fsm.transit.  `said` is what went down the error channel, which is nil for a
      follow-up event (`report` false). */
  method Transit(fsm: Fsm, state: State, ghost owner: nat, ev: EventData, report: bool)
    returns (said: Option<Verdict>)
    requires fsm.Constructed() && fsm.NonNil() && ev.evType !in fsm.events
    modifies state
    ensures state.View() == HandleOne(fsm, owner, old(state.View()), ev)
    ensures said == if !report then None
                    else if Tuple(old(state.current), ev.evType) in fsm.transitions then Some(Accepted)
                    else Some(UnknownTransition)
  {
    var current := state.current;
    said := None;
    if fsm.Defined(current, ev.evType) {
      var nextState := fsm.transitions[Tuple(current, ev.evType)];
      if report {
        said := Some(Accepted);
      }
      assert Tuple(current, ev.evType) in fsm.transitions;
      assert current in fsm.callbacks;
      var curCallback := fsm.CallbackOf(current);
      var nextCallback := fsm.CallbackOf(nextState);
      if curCallback.Some? {
        state.Run(owner, Of(current), curCallback.value, ev);
      }
      if current != nextState {
        state.Run(owner, Of(current), curCallback.value, ev.Clone(EXIT_EVENT));
        state.SetState(nextState);
        if nextCallback.Some? {
          state.Run(owner, Of(nextState), nextCallback.value, ev.Clone(ENTRY_EVENT));
        }
      }
    } else {
      if report {
        said := Some(UnknownTransition);
      }
    }
  }

  /** The body of the drain loop. */
  method DrainOne(fsm: Fsm, state: State, ghost owner: nat)
    requires fsm.Constructed() && fsm.NonNil() && state.next.Some?
    modifies state
    ensures state.View() == Follow(fsm, owner, old(state.View()))
  {
    var next := state.next.value;
    state.SetNextEvent(None);
    if next.evType in fsm.events {
      state.Run(owner, Handler, fsm.handler.value, next);
    } else {
      var _ := Transit(fsm, state, owner, next, false);
    }
  }

  /** fsm.processNextEvent: the loop ends because the armed events fall in rank. */
  method ProcessNextEvent(fsm: Fsm, state: State, ghost owner: nat, ghost rank: (nat, Mem) -> nat)
    returns (ghost turns: nat)
    requires fsm.Constructed() && fsm.NonNil() && Ranked(fsm, rank)
    modifies state
    ensures state.View() == DrainN(fsm, owner, old(state.View()), turns)
    ensures state.next.None?
  {
    turns := 0;
    while state.next.Some?
      invariant state.View() == DrainN(fsm, owner, old(state.View()), turns)
      decreases if Settled(state.View()) then 0 else rank(owner, state.View()) + 1
    {
      assert RankFalls(fsm, rank, owner, state.View());
      DrainOne(fsm, state, owner);
      turns := turns + 1;
    }
  }

  /** The function fsm.handleEvent runs under the state's lock, and the one verdict
      its caller receives. */
  method HandleEvent(fsm: Fsm, state: State, ghost owner: nat, ev: EventData, ghost rank: (nat, Mem) -> nat)
    returns (verdict: Verdict, ghost turns: nat)
    requires fsm.Constructed() && fsm.NonNil() && Ranked(fsm, rank)
    modifies state
    ensures state.View() == DrainN(fsm, owner, HandleOne(fsm, owner, old(state.View()), ev), turns)
    ensures state.next.None?
    ensures verdict.Accepted? <==>
      ev.evType in fsm.events || Tuple(old(state.current), ev.evType) in fsm.transitions
  {
    if ev.evType in fsm.events {
      state.Run(owner, Handler, fsm.handler.value, ev);
      turns := ProcessNextEvent(fsm, state, owner, rank);
      verdict := Accepted;
    } else {
      var said := Transit(fsm, state, owner, ev, true);
      turns := ProcessNextEvent(fsm, state, owner, rank);
      verdict := said.value;
    }
  }
}
