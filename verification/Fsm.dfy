/** The table-driven state machine of internal/common/fsm: its tables, the checks
    made when it is built, and what handling one event does to a state.

    A callback is a function of what it can see (the current state, the user data
    behind State.info and the event).  It may rewrite the user data and may call
    SetNextEvent; it cannot see or change anything else of the state. */
module Fsm {
  import opened Options

  type StateType = string
  type EventType = string

  // Both stand for the unsafe.Pointer payloads: opaque values, only copied.
  type Payload = int
  type Info = int

  const ENTRY_EVENT: EventType := "Entry Event"
  const EXIT_EVENT: EventType := "Exit Event"

  datatype StateEventTuple = Tuple(state: StateType, event: EventType)

  type Table = map<StateEventTuple, StateType>

  datatype EventData = EventData(evType: EventType, evDat: Payload) {
    /** The same payload under another event type. */
    function Clone(t: EventType): EventData {
      EventData(t, evDat)
    }
  }

  /** What a callback did about the follow-up slot: nothing, or a last call of
      SetNextEvent with this argument (None is the nil event). */
  datatype Arm = Keep | Put(next: Option<EventData>)

  datatype Effect = Effect(info: Info, arm: Arm)

  type Callback = (StateType, Info, EventData) -> Effect

  /** None in the callback table is a key bound to a nil function. */
  datatype Fsm = Fsm(
    transitions: Table,
    callbacks: map<StateType, Option<Callback>>,
    events: set<EventType>,
    handler: Option<Callback>)
  {
    /** Reading the callback map: an absent key gives the nil function too. */
    function CallbackOf(s: StateType): Option<Callback> {
      if s in callbacks then callbacks[s] else None
    }

    predicate Defined(s: StateType, ev: EventType) {
      Tuple(s, ev) in transitions
    }

    /** What NewFsm checks before it hands the machine out. */
    ghost predicate Constructed() {
      && (forall key <- transitions :: key.state in callbacks)
      && (forall key <- transitions :: key.event !in events)
    }

    /** No nil function was supplied where the engine calls without a guard. */
    ghost predicate NonNil() {
      && (forall s <- callbacks :: callbacks[s].Some?)
      && (events != {} ==> handler.Some?)
    }
  }

  // ---- construction --------------------------------------------------------

  datatype FsmOptions = FsmOptions(
    transitions: Table,
    callbacks: map<StateType, Option<Callback>>,
    handler: Option<Callback>,
    nonTransitional: seq<EventType>)

  datatype Built = Built(fsm: Fsm) | UnknownState | EventInTransitions

  ghost function SourceStates(t: Table): set<StateType> {
    set key <- t.Keys :: key.state
  }

  ghost function TableEvents(t: Table): set<EventType> {
    set key <- t.Keys :: key.event
  }

  method KnownParts(t: Table) returns (states: set<StateType>, events: set<EventType>)
    ensures states == SourceStates(t) && events == TableEvents(t)
  {
    states, events := {}, {};
    var todo := t.Keys;
    while todo != {}
      invariant todo <= t.Keys
      invariant states <= SourceStates(t) && events <= TableEvents(t)
      invariant forall key <- t.Keys - todo :: key.state in states && key.event in events
      decreases |todo|
    {
      var key :| key in todo;
      states, events := states + {key.state}, events + {key.event};
      todo := todo - {key};
    }
  }

  method AllHaveCallback(states: set<StateType>, callbacks: map<StateType, Option<Callback>>) returns (ok: bool)
    ensures ok <==> states <= callbacks.Keys
  {
    var todo := states;
    while todo != {}
      invariant todo <= states && states - todo <= callbacks.Keys
      decreases |todo|
    {
      var s :| s in todo;
      if s !in callbacks {
        return false;
      }
      todo := todo - {s};
    }
    ok := true;
  }

  method CollectEvents(list: seq<EventType>, known: set<EventType>) returns (r: Option<set<EventType>>)
    ensures r.None? <==> exists ev <- known :: ev in list
    ensures r.Some? ==> forall ev :: ev in r.value <==> ev in list
  {
    var events: set<EventType> := {};
    for i := 0 to |list|
      invariant forall ev :: ev in events <==> ev in list[..i]
      invariant events !! known
    {
      if list[i] in known {
        return None;
      }
      events := events + {list[i]};
    }
    assert list[..|list|] == list;
    r := Some(events);
  }

  /** Builds the machine or panics; which panic comes first is part of the contract. */
  method NewFsm(opts: FsmOptions) returns (r: Built)
    ensures r.UnknownState? <==> !(SourceStates(opts.transitions) <= opts.callbacks.Keys)
    ensures r.EventInTransitions? <==>
      && SourceStates(opts.transitions) <= opts.callbacks.Keys
      && exists ev <- TableEvents(opts.transitions) :: ev in opts.nonTransitional
    ensures r.Built? ==>
      && r.fsm.Constructed()
      && r.fsm.transitions == opts.transitions
      && r.fsm.callbacks == opts.callbacks
      && r.fsm.handler == opts.handler
      && (forall ev :: ev in r.fsm.events <==> ev in opts.nonTransitional)
  {
    var knownStates, knownEvents := KnownParts(opts.transitions);
    var ok := AllHaveCallback(knownStates, opts.callbacks);
    if !ok {
      return UnknownState;
    }
    var events := CollectEvents(opts.nonTransitional, knownEvents);
    if events.None? {
      return EventInTransitions;
    }
    r := Built(Fsm(opts.transitions, opts.callbacks, events.value, opts.handler));
    forall key <- opts.transitions ensures key.state in opts.callbacks && key.event !in events.value {
      assert key.state in knownStates && key.event in knownEvents;
    }
  }

  // ---- one event -----------------------------------------------------------

  datatype Who = Handler | Of(state: StateType)

  /** One callback invocation: for which task, whose callback, with which event, which
      current state and user data it saw, what user data it left, and what it did about
      the follow-up slot. */
  datatype Call = Call(owner: nat, who: Who, ev: EventData, seen: StateType, info: Info, left: Info, arm: Arm)

  /** A state, with the history of callback invocations on it.  `crashed` records
      the call of a nil function, which stops the goroutine holding the lock. */
  datatype Mem = Mem(current: StateType, next: Option<EventData>, info: Info,
                     trace: seq<Call>, crashed: bool)

  datatype Verdict = Accepted | UnknownTransition

  /** What the engine reports for an event found in this state. */
  function VerdictOf(fsm: Fsm, s: StateType, ev: EventType): Verdict {
    if ev in fsm.events || fsm.Defined(s, ev) then Accepted else UnknownTransition
  }

  /** Running one callback. */
  function Invoke(m: Mem, owner: nat, who: Who, cb: Callback, ev: EventData): Mem {
    var e := cb(m.current, m.info, ev);
    m.(info := e.info,
       next := if e.arm.Keep? then m.next else e.arm.next,
       trace := m.trace + [Call(owner, who, ev, m.current, m.info, e.info, e.arm)])
  }

  /** A callback call guarded by a nil test. */
  function InvokeIfAny(fsm: Fsm, m: Mem, owner: nat, s: StateType, ev: EventData): Mem {
    match fsm.CallbackOf(s)
    case None => m
    case Some(cb) => Invoke(m, owner, Of(s), cb, ev)
  }

  function EntryPart(fsm: Fsm, m: Mem, owner: nat, ev: EventData, to: StateType): Mem {
    InvokeIfAny(fsm, m, owner, to, ev.Clone(ENTRY_EVENT))
  }

  function SwitchPart(fsm: Fsm, m: Mem, owner: nat, ev: EventData, to: StateType): Mem {
    EntryPart(fsm, m.(current := to), owner, ev, to)
  }

  /** The exit callback is called without a nil test. */
  function ExitPart(fsm: Fsm, m: Mem, owner: nat, ev: EventData, from: StateType, to: StateType): Mem {
    match fsm.CallbackOf(from)
    case None => m.(crashed := true)
    case Some(cb) => SwitchPart(fsm, Invoke(m, owner, Of(from), cb, ev.Clone(EXIT_EVENT)), owner, ev, to)
  }

  function EventPart(fsm: Fsm, m: Mem, owner: nat, ev: EventData, from: StateType, to: StateType): Mem {
    var m1 := InvokeIfAny(fsm, m, owner, from, ev);
    if from == to then m1 else ExitPart(fsm, m1, owner, ev, from, to)
  }

  /** Handling one event, up to the point where the follow-up slot is looked at. */
  function HandleOne(fsm: Fsm, owner: nat, m: Mem, ev: EventData): Mem {
    if ev.evType in fsm.events then
      match fsm.handler
      case None => m.(crashed := true)
      case Some(cb) => Invoke(m, owner, Handler, cb, ev)
    else if fsm.Defined(m.current, ev.evType) then
      EventPart(fsm, m, owner, ev, m.current, fsm.transitions[Tuple(m.current, ev.evType)])
    else m
  }

  // ---- the drain loop ------------------------------------------------------

  /** One turn of the drain loop. */
  function Follow(fsm: Fsm, owner: nat, m: Mem): Mem {
    if m.crashed || m.next.None? then m
    else HandleOne(fsm, owner, m.(next := None), m.next.value)
  }

  function DrainN(fsm: Fsm, owner: nat, m: Mem, n: nat): Mem {
    if n == 0 then m else Follow(fsm, owner, DrainN(fsm, owner, m, n - 1))
  }

  predicate Settled(m: Mem) {
    m.crashed || m.next.None?
  }

  /** The drain loop ends on this state. */
  ghost predicate Drains(fsm: Fsm, owner: nat, m: Mem) {
    exists n: nat :: Settled(DrainN(fsm, owner, m, n))
  }

  /** The drain loop ends on every state, whoever runs it. */
  ghost predicate AlwaysDrains(fsm: Fsm) {
    forall owner: nat, m: Mem :: Drains(fsm, owner, m)
  }

  /** `rank` falls each time a drained event leaves another one armed. */
  ghost predicate Ranked(fsm: Fsm, rank: (nat, Mem) -> nat) {
    forall owner: nat, m: Mem :: RankFalls(fsm, rank, owner, m)
  }

  ghost predicate RankFalls(fsm: Fsm, rank: (nat, Mem) -> nat, owner: nat, m: Mem) {
    !Settled(m) && !Settled(Follow(fsm, owner, m)) ==> rank(owner, Follow(fsm, owner, m)) < rank(owner, m)
  }

  lemma {:induction false} DrainShift(fsm: Fsm, owner: nat, m: Mem, n: nat)
    ensures DrainN(fsm, owner, Follow(fsm, owner, m), n) == DrainN(fsm, owner, m, n + 1)
  {
    if n == 0 {
      assert DrainN(fsm, owner, m, 0) == m;
    } else {
      DrainShift(fsm, owner, m, n - 1);
    }
  }

  lemma {:induction false} RankedDrains(fsm: Fsm, rank: (nat, Mem) -> nat, owner: nat, m: Mem) returns (n: nat)
    requires Ranked(fsm, rank)
    ensures Settled(DrainN(fsm, owner, m, n))
    ensures n <= if Settled(m) then 0 else rank(owner, m) + 1
    decreases if Settled(m) then 0 else rank(owner, m) + 1
  {
    if Settled(m) {
      n := 0;
    } else {
      assert RankFalls(fsm, rank, owner, m);
      var k := RankedDrains(fsm, rank, owner, Follow(fsm, owner, m));
      DrainShift(fsm, owner, m, k);
      n := k + 1;
    }
  }

  /** The least number of turns, counted down from one that is enough. */
  ghost function Least(fsm: Fsm, owner: nat, m: Mem, n: nat): (k: nat)
    requires Settled(DrainN(fsm, owner, m, n))
    ensures k <= n && Settled(DrainN(fsm, owner, m, k))
    ensures forall j: nat :: j < k ==> !Settled(DrainN(fsm, owner, m, j))
  {
    if n == 0 then n
    else if Settled(DrainN(fsm, owner, m, n - 1)) then Least(fsm, owner, m, n - 1)
    else UnsettledBelow(fsm, owner, m, n - 1); n
  }

  lemma {:induction false} UnsettledBelow(fsm: Fsm, owner: nat, m: Mem, n: nat)
    requires !Settled(DrainN(fsm, owner, m, n))
    ensures forall j: nat :: j <= n ==> !Settled(DrainN(fsm, owner, m, j))
  {
    if n > 0 {
      UnsettledBelow(fsm, owner, m, n - 1);
    }
  }

  ghost function Turns(fsm: Fsm, owner: nat, m: Mem): nat {
    if Drains(fsm, owner, m) then
      var n: nat :| Settled(DrainN(fsm, owner, m, n));
      Least(fsm, owner, m, n)
    else 0
  }

  lemma TurnsFall(fsm: Fsm, owner: nat, m: Mem)
    requires AlwaysDrains(fsm)
    ensures RankFalls(fsm, (o: nat, x: Mem) => Turns(fsm, o, x), owner, m)
  {
    var f := Follow(fsm, owner, m);
    if !Settled(m) && !Settled(f) {
      assert Drains(fsm, owner, m) && Drains(fsm, owner, f);
      var k := Turns(fsm, owner, m);
      assert DrainN(fsm, owner, m, 0) == m;
      DrainShift(fsm, owner, m, k - 1);
      assert Settled(DrainN(fsm, owner, f, k - 1));
    }
  }

  /** Termination as a rank, which the proofs on runs take as a parameter.  (That there
      is one says nothing more than that the loop ends; module FsmFollowUps gives
      conditions on the callbacks.) */
  lemma DrainsIffRanked(fsm: Fsm)
    ensures AlwaysDrains(fsm) <==> exists rank: (nat, Mem) -> nat :: Ranked(fsm, rank)
  {
    if AlwaysDrains(fsm) {
      var rank := (o: nat, x: Mem) => Turns(fsm, o, x);
      forall owner: nat, m: Mem ensures RankFalls(fsm, rank, owner, m) {
        TurnsFall(fsm, owner, m);
      }
      assert Ranked(fsm, rank);
    }
    if rank: (nat, Mem) -> nat :| Ranked(fsm, rank) {
      forall owner: nat, m: Mem ensures Drains(fsm, owner, m) {
        var n := RankedDrains(fsm, rank, owner, m);
      }
    }
  }
}
