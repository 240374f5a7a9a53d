/** Start-up (internal/context/context_init.go): the boot goroutine, the NGAP reader it
    starts, and one goroutine per NG Setup Response, which all meet on the unbuffered
    channel IsReadyNgap.  Appending one list entry is taken as one step. */
module Boot {
  datatype BootPc =
    | Begin          // the context is being filled
    | Connected      // newAmf and the SCTP association are done, the reader runs
    | Waiting        // NG Setup Request sent, receiving from IsReadyNgap
    | F1Starting     // received; about to start the F1 server
    | F1Running

  /** A goroutine handling a response with `total` list entries. */
  datatype HandlerPc = Storing(k: nat) | Activating | Sending | Done

  datatype Handler = Handler(total: nat, pc: HandlerPc)

  /** One entry of the AMF's lists: the response it came from and its place there. */
  datatype Entry = Entry(response: nat, index: nat)

  datatype Sys = Sys(boot: BootPc, amfActive: bool, entries: seq<Entry>, handlers: seq<Handler>)

  /** `Meet` is the rendezvous of a sender with the boot goroutine's receive. */
  datatype Action = Boots | Response(total: nat) | Handle(h: nat) | Meet(h: nat)

  function Start(): Sys {
    Sys(Begin, false, [], [])
  }

  predicate Enabled(s: Sys, a: Action) {
    match a
    case Boots => s.boot.Begin? || s.boot.Connected? || s.boot.F1Starting?
    case Response(_) => !s.boot.Begin?
    case Handle(h) => h < |s.handlers| && (s.handlers[h].pc.Storing? || s.handlers[h].pc.Activating?)
    case Meet(h) => h < |s.handlers| && s.handlers[h].pc.Sending? && s.boot.Waiting?
  }

  function Moved(s: Sys, h: nat, pc: HandlerPc): Sys
    requires h < |s.handlers|
  {
    s.(handlers := s.handlers[h := s.handlers[h].(pc := pc)])
  }

  function HandleStep(s: Sys, h: nat): Sys
    requires Enabled(s, Handle(h))
  {
    match s.handlers[h].pc
    case Storing(k) =>
      if k < s.handlers[h].total then
        Moved(s, h, Storing(k + 1)).(entries := s.entries + [Entry(h, k)])
      else Moved(s, h, Activating)
    case Activating => Moved(s, h, Sending).(amfActive := true)
  }

  function Apply(s: Sys, a: Action): Sys
    requires Enabled(s, a)
  {
    match a
    case Boots =>
      s.(boot := if s.boot.Begin? then Connected else if s.boot.Connected? then Waiting else F1Running)
    case Response(total) => s.(handlers := s.handlers + [Handler(total, Storing(0))])
    case Handle(h) => HandleStep(s, h)
    case Meet(h) => Moved(s, h, Done).(boot := F1Starting)
  }

  function Exec(s: Sys, acts: seq<Action>): Sys {
    if acts == [] then s
    else
      var before := Exec(s, acts[..|acts| - 1]);
      var a := acts[|acts| - 1];
      if Enabled(before, a) then Apply(before, a) else before
  }

  // ---- what every interleaving keeps ----------------------------------------------------

  /** The entries of one response, in the order in which they were stored. */
  function EntriesOf(entries: seq<Entry>, h: nat): seq<nat> {
    if entries == [] then []
    else
      var front := EntriesOf(entries[..|entries| - 1], h);
      if entries[|entries| - 1].response == h then front + [entries[|entries| - 1].index] else front
  }

  function Counting(n: nat): (s: seq<nat>)
    ensures |s| == n
  {
    seq(n, i => i)
  }

  /** Every entry of response h is in the AMF's lists, once and in order. */
  predicate FullyStored(s: Sys, h: nat)
    requires h < |s.handlers|
  {
    EntriesOf(s.entries, h) == Counting(s.handlers[h].total)
  }

  function StoredBy(x: Handler): nat {
    match x.pc
    case Storing(k) => k
    case _ => x.total
  }

  predicate HandlerOk(s: Sys, h: nat)
    requires h < |s.handlers|
  {
    && StoredBy(s.handlers[h]) <= s.handlers[h].total
    && EntriesOf(s.entries, h) == Counting(StoredBy(s.handlers[h]))
    && (s.handlers[h].pc.Sending? || s.handlers[h].pc.Done? ==> s.amfActive)
  }

  predicate Served(s: Sys) {
    s.boot.F1Starting? || s.boot.F1Running?
  }

  ghost predicate SomeDone(s: Sys) {
    exists h: nat :: h < |s.handlers| && s.handlers[h].pc.Done?
  }

  ghost predicate Inv(s: Sys) {
    && (forall h: nat :: h < |s.handlers| ==> HandlerOk(s, h))
    && (forall e <- s.entries :: e.response < |s.handlers|)
    && (Served(s) <==> SomeDone(s))
    && (forall h: nat, g: nat :: h < g < |s.handlers| ==> !(s.handlers[h].pc.Done? && s.handlers[g].pc.Done?))
  }

  lemma EntriesSnoc(entries: seq<Entry>, e: Entry, h: nat)
    ensures EntriesOf(entries + [e], h) == EntriesOf(entries, h) + if e.response == h then [e.index] else []
  {
    assert (entries + [e])[..|entries|] == entries;
  }

  lemma {:induction false} NoEntries(entries: seq<Entry>, h: nat)
    requires forall e <- entries :: e.response < h
    ensures EntriesOf(entries, h) == []
  {
    if entries != [] {
      assert entries[|entries| - 1] in entries;
      NoEntries(entries[..|entries| - 1], h);
    }
  }

  lemma CountingSnoc(k: nat)
    ensures Counting(k + 1) == Counting(k) + [k]
  {}

  /** Handler h stores one more entry. */
  lemma StoringKeepsOk(s: Sys, h: nat, g: nat)
    requires g < |s.handlers| && HandlerOk(s, g)
    requires Enabled(s, Handle(h)) && s.handlers[h].pc.Storing? && s.handlers[h].pc.k < s.handlers[h].total
    ensures HandlerOk(HandleStep(s, h), g)
  {
    var k := s.handlers[h].pc.k;
    var after := HandleStep(s, h);
    EntriesSnoc(s.entries, Entry(h, k), g);
    if g == h {
      CountingSnoc(k);
      assert after.handlers[g] == Handler(s.handlers[g].total, Storing(k + 1));
    } else {
      assert after.handlers[g] == s.handlers[g];
    }
  }

  lemma HandleKeepsOk(s: Sys, h: nat, g: nat)
    requires g < |s.handlers| && HandlerOk(s, g)
    requires Enabled(s, Handle(h)) && HandlerOk(s, h)
    ensures HandlerOk(HandleStep(s, h), g)
  {
    var x := s.handlers[h];
    if x.pc.Storing? && x.pc.k < x.total {
      StoringKeepsOk(s, h, g);
    } else {
      var after := HandleStep(s, h);
      assert after.entries == s.entries;
      if g != h {
        assert after.handlers[g] == s.handlers[g];
      }
    }
  }

  lemma HandleKeepsDone(s: Sys, h: nat)
    requires Enabled(s, Handle(h))
    ensures var after := HandleStep(s, h);
      && |after.handlers| == |s.handlers| && after.boot == s.boot
      && (forall g: nat :: g < |s.handlers| ==> (after.handlers[g].pc.Done? <==> s.handlers[g].pc.Done?))
      && (forall e <- after.entries :: e in s.entries || e.response == h)
  {}

  lemma HandleKeeps(s: Sys, h: nat)
    requires Inv(s) && Enabled(s, Handle(h))
    ensures Inv(HandleStep(s, h))
  {
    var after := HandleStep(s, h);
    assert HandlerOk(s, h);
    HandleKeepsDone(s, h);
    forall g: nat | g < |after.handlers| ensures HandlerOk(after, g) {
      assert HandlerOk(s, g);
      HandleKeepsOk(s, h, g);
    }
    if SomeDone(s) {
      var d: nat :| d < |s.handlers| && s.handlers[d].pc.Done?;
      assert after.handlers[d].pc.Done?;
    }
  }

  lemma ResponseKeeps(s: Sys, total: nat)
    requires Inv(s) && Enabled(s, Response(total))
    ensures Inv(Apply(s, Response(total)))
  {
    var after := Apply(s, Response(total));
    NoEntries(s.entries, |s.handlers|);
    forall g: nat | g < |after.handlers| ensures HandlerOk(after, g) {
      assert g < |s.handlers| ==> HandlerOk(s, g);
    }
    if SomeDone(s) {
      var d: nat :| d < |s.handlers| && s.handlers[d].pc.Done?;
      assert after.handlers[d].pc.Done?;
    }
  }

  lemma MeetKeeps(s: Sys, h: nat)
    requires Inv(s) && Enabled(s, Meet(h))
    ensures Inv(Apply(s, Meet(h)))
  {
    var after := Apply(s, Meet(h));
    forall g: nat | g < |after.handlers| ensures HandlerOk(after, g) {
      assert HandlerOk(s, g);
    }
    assert after.handlers[h].pc.Done?;
  }

  lemma BootsKeeps(s: Sys)
    requires Inv(s) && Enabled(s, Boots)
    ensures Inv(Apply(s, Boots))
  {
    var after := Apply(s, Boots);
    forall g: nat | g < |after.handlers| ensures HandlerOk(after, g) {
      assert HandlerOk(s, g);
    }
  }

  lemma {:induction false} Reachable(acts: seq<Action>)
    ensures Inv(Exec(Start(), acts))
  {
    if acts != [] {
      var s := Exec(Start(), acts[..|acts| - 1]);
      var a := acts[|acts| - 1];
      Reachable(acts[..|acts| - 1]);
      if Enabled(s, a) {
        match a
        case Boots => BootsKeeps(s);
        case Response(total) => ResponseKeeps(s, total);
        case Handle(h) => HandleKeeps(s, h);
        case Meet(h) => MeetKeeps(s, h);
      }
    }
  }

  /** Whatever the interleaving, F1 is only started once some NG Setup Response has been
      stored completely, and the AMF counts as active then and from then on. */
  lemma F1AfterSetup(acts: seq<Action>, more: seq<Action>)
    requires Served(Exec(Start(), acts))
    ensures exists h: nat ::
      && h < |Exec(Start(), acts).handlers|
      && Exec(Start(), acts).handlers[h].pc.Done?
      && FullyStored(Exec(Start(), acts), h)
    ensures Exec(Start(), acts + more).amfActive
  {
    var s := Exec(Start(), acts);
    Reachable(acts);
    var h: nat :| h < |s.handlers| && s.handlers[h].pc.Done?;
    assert HandlerOk(s, h);
    assert FullyStored(s, h);
    StaysActive(acts, more);
  }

  lemma {:induction false} StaysActive(acts: seq<Action>, more: seq<Action>)
    requires Exec(Start(), acts).amfActive
    ensures Exec(Start(), acts + more).amfActive
  {
    if more == [] {
      assert acts + more == acts;
    } else {
      StaysActive(acts, more[..|more| - 1]);
      assert (acts + more)[..|acts + more| - 1] == acts + more[..|more| - 1];
    }
  }

  /** The boot goroutine receives once: at most one handler gets past its send, and it
      does so exactly when boot moves on. */
  lemma OneHandlerReturns(acts: seq<Action>, h: nat, g: nat)
    requires h < |Exec(Start(), acts).handlers| && g < |Exec(Start(), acts).handlers| && h != g
    ensures var s := Exec(Start(), acts);
      && !(s.handlers[h].pc.Done? && s.handlers[g].pc.Done?)
      && (s.handlers[h].pc.Done? || s.handlers[g].pc.Done? ==> Served(s))
  {
    Reachable(acts);
  }

  /** Every other handler that reaches its send then stands there for good. */
  lemma {:induction false} WaitsForGood(acts: seq<Action>, more: seq<Action>, h: nat, g: nat)
    requires h < |Exec(Start(), acts).handlers| && g < |Exec(Start(), acts).handlers| && h != g
    requires Exec(Start(), acts).handlers[h].pc.Done? && Exec(Start(), acts).handlers[g].pc.Sending?
    ensures var s := Exec(Start(), acts + more);
      && g < |s.handlers| && s.handlers[g].pc.Sending? && Served(s)
      && !Enabled(s, Meet(g)) && !Enabled(s, Handle(g))
  {
    if more == [] {
      assert acts + more == acts;
      OneHandlerReturns(acts, h, g);
    } else {
      WaitsForGood(acts, more[..|more| - 1], h, g);
      assert (acts + more)[..|acts + more| - 1] == acts + more[..|more| - 1];
    }
  }

  /** Steps a handler still has before its rendezvous is over. */
  function Ahead(x: Handler): nat
    requires StoredBy(x) <= x.total
  {
    match x.pc
    case Storing(k) => x.total - k + 3
    case Activating => 2
    case Sending => 1
    case Done => 0
  }

  lemma {:induction false} ExecFrom(s: Sys, first: seq<Action>, rest: seq<Action>)
    ensures Exec(Exec(s, first), rest) == Exec(s, first + rest)
  {
    if rest == [] {
      assert first + rest == first;
    } else {
      ExecFrom(s, first, rest[..|rest| - 1]);
      assert (first + rest)[..|first + rest| - 1] == first + rest[..|rest| - 1];
    }
  }

  lemma {:induction false} FirstHandlerArrives(s: Sys) returns (more: seq<Action>)
    requires s.boot.Waiting? && |s.handlers| > 0 && !s.handlers[0].pc.Done? && HandlerOk(s, 0)
    ensures forall a <- more :: !a.Response?
    ensures Served(Exec(s, more))
    decreases Ahead(s.handlers[0])
  {
    var a := if s.handlers[0].pc.Sending? then Meet(0) else Handle(0);
    assert [a][..0] == [];
    assert Exec(s, [a]) == Apply(s, a);
    if a.Meet? {
      more := [a];
    } else {
      HandleKeepsOk(s, 0, 0);
      var rest := FirstHandlerArrives(Apply(s, a));
      ExecFrom(s, [a], rest);
      more := [a] + rest;
    }
  }

  /** A boot that waits can be brought on, with no new response, once one has come. */
  lemma BootNotStuck(acts: seq<Action>) returns (more: seq<Action>)
    requires Exec(Start(), acts).boot.Waiting? && |Exec(Start(), acts).handlers| > 0
    ensures forall a <- more :: !a.Response?
    ensures Served(Exec(Start(), acts + more))
  {
    var s := Exec(Start(), acts);
    Reachable(acts);
    assert !SomeDone(s);
    assert !s.handlers[0].pc.Done?;
    more := FirstHandlerArrives(s);
    ExecFrom(Start(), acts, more);
  }
}
