/** When the drain loop ends, told from what the callbacks may arm. */
module FsmFollowUps {
  import opened Options
  import opened Fsm
  import opened FsmConcurrency
  import opened FsmTheorems
  import opened FsmProgress

  // ---- a rank on states and events ------------------------------------------------------

  type EventRank = (StateType, EventType) -> nat

  /** What is armed here has a rank under the bound in the state where it will be found. */
  predicate Below(r: EventRank, arm: Arm, to: StateType, bound: nat) {
    arm.Put? && arm.next.Some? ==> r(to, arm.next.value.evType) < bound
  }

  /** Whatever the user data and the payload, the callback arms nothing of higher rank. */
  ghost predicate ArmsBelow(r: EventRank, cb: Option<Callback>, at: StateType, evType: EventType,
                            to: StateType, bound: nat)
  {
    cb.Some? ==>
      forall info: Info, dat: Payload :: Below(r, cb.value(at, info, EventData(evType, dat)).arm, to, bound)
  }

  /** A table entry: the event and exit callbacks of its state and the entry callback of
      its target only arm follow-ups that rank below it in the target. */
  ghost predicate EdgeRanked(fsm: Fsm, r: EventRank, key: StateEventTuple)
    requires key in fsm.transitions
  {
    var from, to, bound := key.state, fsm.transitions[key], r(key.state, key.event);
    && ArmsBelow(r, fsm.CallbackOf(from), from, key.event, to, bound)
    && (from != to ==>
          && ArmsBelow(r, fsm.CallbackOf(from), from, EXIT_EVENT, to, bound)
          && ArmsBelow(r, fsm.CallbackOf(to), to, ENTRY_EVENT, to, bound))
  }

  ghost predicate HandlerRanked(fsm: Fsm, r: EventRank, s: StateType, evType: EventType) {
    ArmsBelow(r, fsm.handler, s, evType, s, r(s, evType))
  }

  /** Callbacks only arm follow-ups of strictly smaller rank. */
  ghost predicate EventRanked(fsm: Fsm, r: EventRank) {
    && (forall key <- fsm.transitions :: EdgeRanked(fsm, r, key))
    && (forall s: StateType, evType <- fsm.events :: HandlerRanked(fsm, r, s, evType))
  }

  /** The rank of the follow-up that is armed. */
  function RankOf(r: EventRank, m: Mem): nat {
    if m.next.Some? then r(m.current, m.next.value.evType) else 0
  }

  function RankBy(r: EventRank): (nat, Mem) -> nat {
    (owner: nat, m: Mem) => RankOf(r, m)
  }

  lemma EventRankedFalls(fsm: Fsm, r: EventRank, owner: nat, m: Mem)
    requires EventRanked(fsm, r)
    ensures RankFalls(fsm, RankBy(r), owner, m)
  {
    if !Settled(m) {
      var s, ev := m.current, m.next.value;
      if ev.evType in fsm.events {
        assert HandlerRanked(fsm, r, s, ev.evType);
        assert ev == EventData(ev.evType, ev.evDat);
      } else if fsm.Defined(s, ev.evType) {
        assert EdgeRanked(fsm, r, Tuple(s, ev.evType));
        assert ev == EventData(ev.evType, ev.evDat);
      }
    }
  }

  /** When callbacks only arm follow-ups of smaller rank, the drain loop ends from every
      state, in no more turns than the rank of what is armed and one. */
  lemma EventRankedDrains(fsm: Fsm, r: EventRank, owner: nat, m: Mem) returns (n: nat)
    requires EventRanked(fsm, r)
    ensures Ranked(fsm, RankBy(r))
    ensures Settled(DrainN(fsm, owner, m, n)) && n <= RankOf(r, m) + 1
  {
    forall o: nat, x: Mem ensures RankFalls(fsm, RankBy(r), o, x) {
      EventRankedFalls(fsm, r, o, x);
    }
    n := RankedDrains(fsm, RankBy(r), owner, m);
  }

  /** So with such callbacks every scheduler brings every call to its end. */
  lemma EventRankedFinishes(fsm: Fsm, r: EventRank, s: StateType, info: Info, acts: seq<Action>, sched: nat -> Action)
    returns (n: nat)
    requires EventRanked(fsm, r)
    requires Busy(fsm, Exec(fsm, Boot(Start(s, info)), acts), sched)
    ensures AllFinished(Under(fsm, Exec(fsm, Boot(Start(s, info)), acts), sched, n))
  {
    var _ := EventRankedDrains(fsm, r, 0, Start(s, info));
    n := EverySchedulerFinishes(fsm, RankBy(r), s, info, acts, sched);
  }

  // ---- the follow-up graph ---------------------------------------------------------------

  /** What kind of call of SetNextEvent a callback made, payloads aside. */
  datatype Kind = Kept | Armed(next: Option<EventType>)

  function KindOf(arm: Arm): Kind {
    match arm
    case Keep => Kept
    case Put(None) => Armed(None)
    case Put(Some(ev)) => Armed(Some(ev.evType))
  }

  function KindAt(cb: Option<Callback>, at: StateType, evType: EventType): Kind {
    match cb
    case None => Kept
    case Some(f) => KindOf(f(at, 0, EventData(evType, 0)).arm)
  }

  /** The callback decides on state and event type alone which event type it arms. */
  ghost predicate UniformCallback(cb: Option<Callback>) {
    cb.Some? ==> forall at: StateType, info: Info, evType: EventType, dat: Payload ::
      KindOf(cb.value(at, info, EventData(evType, dat)).arm) == KindAt(cb, at, evType)
  }

  ghost predicate Uniform(fsm: Fsm) {
    (forall s <- fsm.callbacks :: UniformCallback(fsm.callbacks[s])) && UniformCallback(fsm.handler)
  }

  /** Two callbacks one after the other: the later call of SetNextEvent wins. */
  function Then(a: Kind, b: Kind): Kind {
    if b.Kept? then a else b
  }

  function EdgeKind(fsm: Fsm, from: StateType, evType: EventType, to: StateType): Kind {
    var own := fsm.CallbackOf(from);
    var event := KindAt(own, from, evType);
    if from == to then event
    else if own.None? then Kept
    else Then(Then(event, KindAt(own, from, EXIT_EVENT)), KindAt(fsm.CallbackOf(to), to, ENTRY_EVENT))
  }

  function Leads(k: Kind, to: StateType): Option<StateEventTuple> {
    if k.Armed? && k.next.Some? then Some(Tuple(to, k.next.value)) else None
  }

  /** The event that follows an event, with the state it is found in. */
  function FollowUp(fsm: Fsm, x: StateEventTuple): Option<StateEventTuple> {
    if x.event in fsm.events then Leads(KindAt(fsm.handler, x.state, x.event), x.state)
    else if x in fsm.transitions then
      Leads(EdgeKind(fsm, x.state, x.event, fsm.transitions[x]), fsm.transitions[x])
    else None
  }

  function Path(fsm: Fsm, x: StateEventTuple, n: nat): Option<StateEventTuple> {
    if n == 0 then Some(x)
    else match Path(fsm, x, n - 1)
         case None => None
         case Some(y) => FollowUp(fsm, y)
  }

  /** No event leads back to itself in the same state. */
  ghost predicate Acyclic(fsm: Fsm) {
    forall x: StateEventTuple, n: nat :: n > 0 ==> Path(fsm, x, n) != Some(x)
  }

  lemma {:induction false} PathAdd(fsm: Fsm, x: StateEventTuple, i: nat, j: nat)
    requires Path(fsm, x, i).Some?
    ensures Path(fsm, x, i + j) == Path(fsm, Path(fsm, x, i).value, j)
  {
    if j > 0 {
      PathAdd(fsm, x, i, j - 1);
    }
  }

  lemma {:induction false} PathBelow(fsm: Fsm, x: StateEventTuple, i: nat, n: nat)
    requires i <= n && Path(fsm, x, n).Some?
    ensures Path(fsm, x, i).Some?
  {
    if i < n {
      PathBelow(fsm, x, i, n - 1);
    }
  }

  // ---- the drain loop walks along it -----------------------------------------------------

  function NodeOf(m: Mem): StateEventTuple
    requires m.next.Some?
  {
    Tuple(m.current, m.next.value.evType)
  }

  /** What is armed is of this kind over what was armed before. */
  predicate ArmedBy(before: Option<EventData>, k: Kind, after: Option<EventData>) {
    match k
    case Kept => after == before
    case Armed(None) => after.None?
    case Armed(Some(t)) => after.Some? && after.value.evType == t
  }

  lemma InvokeKind(m: Mem, owner: nat, who: Who, cb: Callback, ev: EventData)
    requires UniformCallback(Some(cb))
    ensures ArmedBy(m.next, KindAt(Some(cb), m.current, ev.evType), Invoke(m, owner, who, cb, ev).next)
  {
    assert ev == EventData(ev.evType, ev.evDat);
    assert KindOf(cb(m.current, m.info, EventData(ev.evType, ev.evDat)).arm) == KindAt(Some(cb), m.current, ev.evType);
  }

  lemma AnyKind(fsm: Fsm, m: Mem, owner: nat, s: StateType, ev: EventData)
    requires Uniform(fsm)
    ensures ArmedBy(m.next, KindAt(fsm.CallbackOf(s), m.current, ev.evType), InvokeIfAny(fsm, m, owner, s, ev).next)
  {
    if fsm.CallbackOf(s).Some? {
      InvokeKind(m, owner, Of(s), fsm.CallbackOf(s).value, ev);
    }
  }

  lemma EventPartKind(fsm: Fsm, m: Mem, owner: nat, ev: EventData, to: StateType)
    requires Uniform(fsm) && m.next.None? && !m.crashed
    ensures var f := EventPart(fsm, m, owner, ev, m.current, to);
      && f.crashed == (m.current != to && fsm.CallbackOf(m.current).None?)
      && (!f.crashed ==> f.current == to && ArmedBy(None, EdgeKind(fsm, m.current, ev.evType, to), f.next))
  {
    var from := m.current;
    AnyKind(fsm, m, owner, from, ev);
    var m1 := InvokeIfAny(fsm, m, owner, from, ev);
    if from != to && fsm.CallbackOf(from).Some? {
      AnyKind(fsm, m1, owner, from, ev.Clone(EXIT_EVENT));
      var m2 := Invoke(m1, owner, Of(from), fsm.CallbackOf(from).value, ev.Clone(EXIT_EVENT)).(current := to);
      AnyKind(fsm, m2, owner, to, ev.Clone(ENTRY_EVENT));
    }
  }

  lemma FollowStep(fsm: Fsm, owner: nat, m: Mem)
    requires Uniform(fsm) && !Settled(m)
    ensures var f := Follow(fsm, owner, m);
      && (Settled(f) <==> FollowUp(fsm, NodeOf(m)).None?)
      && (!Settled(f) ==> FollowUp(fsm, NodeOf(m)) == Some(NodeOf(f)))
  {
    var ev, m0 := m.next.value, m.(next := None);
    if ev.evType in fsm.events {
      if fsm.handler.Some? {
        InvokeKind(m0, owner, Handler, fsm.handler.value, ev);
      }
    } else if fsm.Defined(m.current, ev.evType) {
      EventPartKind(fsm, m0, owner, ev, fsm.transitions[Tuple(m.current, ev.evType)]);
    }
  }

  lemma {:induction false} DrainWalks(fsm: Fsm, owner: nat, m: Mem, n: nat)
    requires Uniform(fsm) && !Settled(m)
    ensures var d := DrainN(fsm, owner, m, n);
      && (Settled(d) <==> Path(fsm, NodeOf(m), n).None?)
      && (!Settled(d) ==> Path(fsm, NodeOf(m), n) == Some(NodeOf(d)))
  {
    if n > 0 {
      DrainWalks(fsm, owner, m, n - 1);
      var d := DrainN(fsm, owner, m, n - 1);
      if !Settled(d) {
        FollowStep(fsm, owner, d);
      }
    }
  }

  // ---- a path without a cycle ends ---------------------------------------------------------

  /** Every event that can have a follow-up on a path from state s. */
  ghost function Universe(fsm: Fsm, s: StateType): set<StateEventTuple> {
    fsm.transitions.Keys + set t <- fsm.transitions.Values + {s}, e <- fsm.events :: Tuple(t, e)
  }

  lemma {:induction false} PathStays(fsm: Fsm, x: StateEventTuple, n: nat)
    requires Path(fsm, x, n).Some?
    ensures Path(fsm, x, n).value.state in fsm.transitions.Values + {x.state}
  {
    if n > 0 {
      PathBelow(fsm, x, n - 1, n);
      PathStays(fsm, x, n - 1);
      var y := Path(fsm, x, n - 1).value;
      assert y in fsm.transitions ==> fsm.transitions[y] in fsm.transitions.Values;
    }
  }

  lemma PathInUniverse(fsm: Fsm, x: StateEventTuple, n: nat)
    requires Path(fsm, x, n + 1).Some?
    ensures Path(fsm, x, n).Some? && Path(fsm, x, n).value in Universe(fsm, x.state)
  {
    PathBelow(fsm, x, n, n + 1);
    PathStays(fsm, x, n);
    var y := Path(fsm, x, n).value;
    assert y == Tuple(y.state, y.event);
  }

  ghost function Visited(fsm: Fsm, x: StateEventTuple, n: nat): set<StateEventTuple>
    requires Path(fsm, x, n).Some?
  {
    if n == 0 then {}
    else
      PathBelow(fsm, x, n - 1, n);
      Visited(fsm, x, n - 1) + {Path(fsm, x, n - 1).value}
  }

  lemma {:induction false} VisitedAt(fsm: Fsm, x: StateEventTuple, n: nat, y: StateEventTuple) returns (i: nat)
    requires Path(fsm, x, n).Some? && y in Visited(fsm, x, n)
    ensures i < n && Path(fsm, x, i) == Some(y)
  {
    PathBelow(fsm, x, n - 1, n);
    if y == Path(fsm, x, n - 1).value {
      i := n - 1;
    } else {
      i := VisitedAt(fsm, x, n - 1, y);
    }
  }

  /** The path from x comes to no event twice. */
  ghost predicate NoRepeat(fsm: Fsm, x: StateEventTuple) {
    forall i: nat, n: nat :: i < n && Path(fsm, x, i).Some? ==> Path(fsm, x, i) != Path(fsm, x, n)
  }

  lemma Repeats(fsm: Fsm, x: StateEventTuple, i: nat, n: nat)
    requires i < n && Path(fsm, x, i).Some? && Path(fsm, x, i) == Path(fsm, x, n)
    ensures Path(fsm, Path(fsm, x, i).value, n - i) == Path(fsm, x, i)
  {
    PathAdd(fsm, x, i, n - i);
  }

  lemma AcyclicNoRepeat(fsm: Fsm, x: StateEventTuple)
    requires Acyclic(fsm)
    ensures NoRepeat(fsm, x)
  {
    forall i: nat, n: nat | i < n && Path(fsm, x, i).Some? ensures Path(fsm, x, i) != Path(fsm, x, n) {
      if Path(fsm, x, i) == Path(fsm, x, n) {
        Repeats(fsm, x, i, n);
      }
    }
  }

  lemma NewNode(fsm: Fsm, x: StateEventTuple, n: nat)
    requires NoRepeat(fsm, x) && Path(fsm, x, n).Some?
    ensures Path(fsm, x, n).value !in Visited(fsm, x, n)
  {
    if Path(fsm, x, n).value in Visited(fsm, x, n) {
      var i := VisitedAt(fsm, x, n, Path(fsm, x, n).value);
    }
  }

  lemma OneLarger<T>(a: set<T>, x: T)
    requires x !in a
    ensures |a + {x}| == |a| + 1
  {}

  lemma {:induction false} VisitedSize(fsm: Fsm, x: StateEventTuple, n: nat)
    requires NoRepeat(fsm, x) && Path(fsm, x, n).Some?
    ensures |Visited(fsm, x, n)| == n
  {
    if n > 0 {
      PathBelow(fsm, x, n - 1, n);
      VisitedSize(fsm, x, n - 1);
      NewNode(fsm, x, n - 1);
      OneLarger(Visited(fsm, x, n - 1), Path(fsm, x, n - 1).value);
    }
  }

  lemma {:induction false} VisitedWithin(fsm: Fsm, x: StateEventTuple, n: nat)
    requires Path(fsm, x, n).Some?
    ensures Visited(fsm, x, n) <= Universe(fsm, x.state)
  {
    if n > 0 {
      PathBelow(fsm, x, n - 1, n);
      VisitedWithin(fsm, x, n - 1);
      PathInUniverse(fsm, x, n - 1);
    }
  }

  lemma {:induction false} SubsetSize<T>(a: set<T>, b: set<T>)
    requires a <= b
    ensures |a| <= |b|
    decreases |a|
  {
    if a != {} {
      var x :| x in a;
      SubsetSize(a - {x}, b - {x});
    }
  }

  /** The path is over after as many steps as there are events that can lead on, and one. */
  lemma PathEnds(fsm: Fsm, x: StateEventTuple)
    requires NoRepeat(fsm, x)
    ensures Path(fsm, x, |Universe(fsm, x.state)| + 1).None?
  {
    var n := |Universe(fsm, x.state)| + 1;
    if Path(fsm, x, n).Some? {
      VisitedSize(fsm, x, n);
      VisitedWithin(fsm, x, n);
      SubsetSize(Visited(fsm, x, n), Universe(fsm, x.state));
    }
  }

  lemma {:induction false} CycleGoesOn(fsm: Fsm, x: StateEventTuple, n: nat, k: nat)
    requires n > 0 && Path(fsm, x, n) == Some(x)
    ensures Path(fsm, x, k).Some?
  {
    if k <= n {
      PathBelow(fsm, x, k, n);
    } else {
      CycleGoesOn(fsm, x, n, k - n);
      PathAdd(fsm, x, n, k - n);
    }
  }

  /** With callbacks that decide on state and event type, the drain loop always ends if
      and only if no event leads back to itself in the finite graph of follow-ups. */
  lemma DrainsIffAcyclic(fsm: Fsm)
    requires Uniform(fsm)
    ensures AlwaysDrains(fsm) <==> Acyclic(fsm)
  {
    if Acyclic(fsm) {
      forall owner: nat, m: Mem ensures Drains(fsm, owner, m) {
        AcyclicDrains(fsm, owner, m);
      }
    }
    if x: StateEventTuple, n: nat :| n > 0 && Path(fsm, x, n) == Some(x) {
      CycleDrainsNot(fsm, x, n);
    }
  }

  lemma AcyclicDrains(fsm: Fsm, owner: nat, m: Mem)
    requires Uniform(fsm) && Acyclic(fsm)
    ensures Drains(fsm, owner, m)
    ensures Settled(DrainN(fsm, owner, m, |Universe(fsm, m.current)| + 1)) || Settled(m)
  {
    if Settled(m) {
      assert Settled(DrainN(fsm, owner, m, 0));
    } else {
      var n := |Universe(fsm, m.current)| + 1;
      AcyclicNoRepeat(fsm, NodeOf(m));
      PathEnds(fsm, NodeOf(m));
      DrainWalks(fsm, owner, m, n);
      assert Settled(DrainN(fsm, owner, m, n));
    }
  }

  lemma CycleDrainsNot(fsm: Fsm, x: StateEventTuple, n: nat)
    requires Uniform(fsm) && n > 0 && Path(fsm, x, n) == Some(x)
    ensures !AlwaysDrains(fsm)
  {
    var m := Mem(x.state, Some(EventData(x.event, 0)), 0, [], false);
    forall k: nat ensures !Settled(DrainN(fsm, 0, m, k)) {
      CycleGoesOn(fsm, x, n, k);
      DrainWalks(fsm, 0, m, k);
    }
    assert !Drains(fsm, 0, m);
  }

  /** Without a cycle every scheduler brings every call to its end. */
  lemma AcyclicFinishes(fsm: Fsm, s: StateType, info: Info, acts: seq<Action>, sched: nat -> Action) returns (n: nat)
    requires Uniform(fsm) && Acyclic(fsm)
    requires Busy(fsm, Exec(fsm, Boot(Start(s, info)), acts), sched)
    ensures AllFinished(Under(fsm, Exec(fsm, Boot(Start(s, info)), acts), sched, n))
  {
    DrainsIffAcyclic(fsm);
    DrainsIffRanked(fsm);
    var rank: (nat, Mem) -> nat :| Ranked(fsm, rank);
    n := EverySchedulerFinishes(fsm, rank, s, info, acts, sched);
  }

  // ---- a machine that does not drain --------------------------------------------------------

  const TICK: EventType := "Tick"

  /** One non-transitional event, whose handler arms it again. */
  function Restless(): Fsm {
    Fsm(map[], map[], {TICK}, Some((s: StateType, info: Info, ev: EventData) => Effect(info, Put(Some(ev)))))
  }

  /** NewFsm lets this machine through, and once a Tick is armed the drain loop goes on
      for ever. */
  lemma {:induction false} RestlessNeverDrains(owner: nat, m: Mem, n: nat)
    requires !m.crashed && m.next.Some? && m.next.value.evType == TICK
    ensures Restless().Constructed() && Restless().NonNil()
    ensures DrainN(Restless(), owner, m, n).next == m.next && !Settled(DrainN(Restless(), owner, m, n))
  {
    if n > 0 {
      RestlessNeverDrains(owner, m, n - 1);
    }
  }

  lemma RestlessWhole(m: Mem, x: Served)
    requires !m.crashed && x.ev.evType == TICK
    ensures !Settled(Whole(Restless(), m, x))
  {
    var f := HandleOne(Restless(), x.task, m, x.ev);
    assert f.next == Some(x.ev) && !f.crashed;
    RestlessNeverDrains(x.task, f, x.follows);
  }

  lemma AfterTick(init: Mem, served: seq<Served>, i: nat)
    requires i < |served| && StartsSettled(Restless(), init, served, i) && served[i].ev.evType == TICK
    ensures !Settled(Serial(Restless(), init, served[..i + 1]))
  {
    RestlessWhole(Serial(Restless(), init, served[..i]), served[i]);
    assert served[..i + 1][..i] == served[..i];
  }

  lemma SettledBefore(fsm: Fsm, init: Mem, served: seq<Served>, i: nat)
    requires EachStartsSettled(fsm, init, served) && i < |served|
    ensures StartsSettled(fsm, init, served, i) && Settled(Serial(fsm, init, served[..i]))
  {}

  lemma TickIsLast(init: Mem, served: seq<Served>, i: nat)
    requires EachStartsSettled(Restless(), init, served) && i < |served| && served[i].ev.evType == TICK
    ensures i == |served| - 1 && !Settled(Serial(Restless(), init, served))
  {
    SettledBefore(Restless(), init, served, i);
    AfterTick(init, served, i);
    if i + 1 < |served| {
      SettledBefore(Restless(), init, served, i + 1);
    } else {
      assert served[..i + 1] == served;
    }
  }

  /** On runs: the first Tick that is served takes the lock and has it at every moment
      from then on, so its section is never over and no other call is ever served. */
  lemma RestlessHoldsLock(s: StateType, info: Info, acts: seq<Action>, t: nat)
    requires t < |Exec(Restless(), Boot(Start(s, info)), acts).tasks|
    requires var task := Exec(Restless(), Boot(Start(s, info)), acts).tasks[t];
      task.ev.evType == TICK && !task.pc.Waiting?
    ensures var sys := Exec(Restless(), Boot(Start(s, info)), acts);
      sys.lock == Some(t) && !sys.tasks[t].pc.Released?
  {
    var fsm, init := Restless(), Start(s, info);
    var sys := Exec(fsm, Boot(init), acts);
    Reachable(fsm, init, acts);
    AfterPrevious(fsm, init, acts);
    assert WasServed(sys.served, t);
    var i: nat :| i < |sys.served| && sys.served[i].task == t;
    TickIsLast(init, sys.served, i);
  }
}
