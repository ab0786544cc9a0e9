/**
  The whole event loop as a state machine: sockets, timers, and handlers that may do anything the interface offers
  while they are being called. Nothing is assumed of a handler beyond the calls it makes.
  */
module EloopRuns {
  import opened Sequences
  import T = EloopTimers

  datatype Kind = Read | Write | Exception

  /** `struct eloop_sock` */
  datatype Entry = Entry(sock: nat, handler: int, eloopData: int, userData: int)

  /** `struct eloop_sock_table` */
  datatype Table = Table(entries: seq<Entry>, changed: bool)

  /** What a handler can ask of the loop. */
  datatype Action =
    | RegisterTimeout(secs: nat, usecs: nat, handler: int, eloopData: int, userData: int)
    | CancelTimeout(handler: int, eloopData: int, userData: int)
    | CancelTimeoutOne(handler: int, eloopData: int, userData: int)
    | AdjustTimeout(secs: nat, usecs: nat, handler: int, eloopData: int, userData: int, deplete: bool)
    | RegisterSock(kind: Kind, entry: Entry)
    | UnregisterSock(kind: Kind, sock: nat)
    | Terminate

  /** The outcome of one `select`: `fatal` is an error that ends the loop, `hits` says that its result was positive. */
  datatype Selection = Selection(fatal: bool, hits: bool, readable: set<nat>, writable: set<nat>, exceptional: set<nat>)

  /**
    All that the loop does not decide itself: clock and allocator, the actions of the n-th handler called, the outcome
    of the n-th `select`, and how many signal handlers are due after it.
    */
  datatype World = World(
    clock: T.Clock,
    refuses: nat -> bool,
    script: nat -> seq<Action>,
    select: nat -> Selection,
    signals: nat -> nat)

  function Script(w: World, n: nat): seq<Action> {
    w.script(n)
  }

  function SelectionOf(w: World, n: nat): Selection {
    w.select(n)
  }

  function Signals(w: World, n: nat): nat {
    w.signals(n)
  }

  predicate Refused(w: World, n: nat) {
    w.refuses(n)
  }

  /** One call of a socket handler, with the entry it was called for. */
  datatype Call = Call(kind: Kind, entry: Entry)

  /** One call of a timeout handler, with the contexts it is given. */
  datatype TimerCall = TimerCall(handler: int, eloopData: int, userData: int)

  /** `struct eloop_data`; `allocs`, `calls` and `turns` count what has been asked of the world so far. */
  datatype Loop = Loop(
    timers: T.State,
    readers: Table,
    writers: Table,
    exceptions: Table,
    count: int,
    maxSock: int,
    terminate: bool,
    failed: bool,
    allocs: nat,
    calls: nat,
    turns: nat,
    trace: seq<Call>,
    timerCalls: seq<TimerCall>)

  const START: Loop :=
    Loop(T.START, Table([], false), Table([], false), Table([], false), 0, 0, false, false, 0, 0, 0, [], [])

  function Of(s: Loop, kind: Kind): Table {
    match kind
    case Read => s.readers
    case Write => s.writers
    case Exception => s.exceptions
  }

  function With(s: Loop, kind: Kind, t: Table): (r: Loop)
    ensures forall k :: Of(r, k) == if k == kind then t else Of(s, k)
    ensures r.(readers := s.readers, writers := s.writers, exceptions := s.exceptions) == s
  {
    match kind
    case Read => s.(readers := t)
    case Write => s.(writers := t)
    case Exception => s.(exceptions := t)
  }

  // ----- socket tables -----

  /** `eloop_sock_table_add_sock` */
  function AddSock(w: World, s: Loop, kind: Kind, e: Entry): Loop {
    if Refused(w, s.allocs) then s.(allocs := s.allocs + 1)
    else With(s, kind, Table(Of(s, kind).entries + [e], true)).(
         count := s.count + 1, maxSock := if e.sock > s.maxSock then e.sock else s.maxSock, allocs := s.allocs + 1)
  }

  /** The place of the first entry for the socket. */
  function Place(entries: seq<Entry>, sock: nat): (k: nat)
    ensures k <= |entries| && (k < |entries| ==> entries[k].sock == sock)
    ensures forall i :: 0 <= i < k ==> entries[i].sock != sock
  {
    if entries == [] || entries[0].sock == sock then 0 else 1 + Place(entries[1..], sock)
  }

  /** `eloop_sock_table_remove_sock` */
  function RemoveSock(s: Loop, kind: Kind, sock: nat): Loop {
    var entries := Of(s, kind).entries;
    var k := Place(entries, sock);
    if k == |entries| then s
    else With(s, kind, Table(RemoveAt(entries, k), true)).(count := s.count - 1)
  }

  function Perform(w: World, s: Loop, a: Action): Loop {
    match a
    case RegisterTimeout(secs, usecs, h, e, u) => s.(timers := T.Register(w.clock, s.timers, secs, usecs, h, e, u))
    case CancelTimeout(h, e, u) => s.(timers := T.Cancel(s.timers, h, e, u))
    case CancelTimeoutOne(h, e, u) => s.(timers := T.CancelOne(s.timers, h, e, u))
    case AdjustTimeout(secs, usecs, h, e, u, deplete) =>
      s.(timers := T.Adjust(w.clock, s.timers, secs, usecs, h, e, u, deplete))
    case RegisterSock(kind, e) => AddSock(w, s, kind, e)
    case UnregisterSock(kind, sock) => RemoveSock(s, kind, sock)
    case Terminate => s.(terminate := true)
  }

  function PerformAll(w: World, s: Loop, actions: seq<Action>): Loop
    decreases |actions|
  {
    if actions == [] then s else PerformAll(w, Perform(w, s, actions[0]), actions[1..])
  }

  /** A handler runs: the next script of the world. */
  function CallHandler(w: World, s: Loop): Loop {
    PerformAll(w, s.(calls := s.calls + 1), Script(w, s.calls))
  }

  /** The table is as it was, unless its flag says that it changed. */
  predicate Steady(s: Loop, r: Loop, kind: Kind) {
    Of(r, kind).changed || Of(r, kind) == Of(s, kind)
  }

  lemma PerformSteady(w: World, s: Loop, a: Action, kind: Kind)
    ensures Steady(s, Perform(w, s, a), kind)
  {
    hide T.Register, T.Cancel, T.CancelOne, T.Adjust, Place, RemoveAt;
  }

  lemma {:induction false} PerformAllSteady(w: World, s: Loop, actions: seq<Action>, kind: Kind)
    ensures Steady(s, PerformAll(w, s, actions), kind)
    decreases |actions|
  {
    hide Perform;
    if actions != [] {
      PerformSteady(w, s, actions[0], kind);
      PerformAllSteady(w, Perform(w, s, actions[0]), actions[1..], kind);
    }
  }

  /** `eloop_sock_table_dispatch` from entry `i` on: it stops as soon as a handler has changed this table. */
  function DispatchFrom(w: World, s: Loop, kind: Kind, ready: set<nat>, i: nat): Loop
    decreases |Of(s, kind).entries| - i
  {
    var entries := Of(s, kind).entries;
    if i >= |entries| then s
    else if entries[i].sock !in ready then DispatchFrom(w, s, kind, ready, i + 1)
    else
      var t := s.(trace := s.trace + [Call(kind, entries[i])]);
      PerformAllSteady(w, t.(calls := s.calls + 1), Script(w, s.calls), kind);
      var r := CallHandler(w, t);
      if Of(r, kind).changed then r else DispatchFrom(w, r, kind, ready, i + 1)
  }

  function Unflagged(s: Loop, kind: Kind): Loop {
    With(s, kind, Of(s, kind).(changed := false))
  }

  function Dispatch(w: World, s: Loop, kind: Kind, ready: set<nat>): Loop {
    DispatchFrom(w, Unflagged(s, kind), kind, ready, 0)
  }

  // ----- turns of eloop_run -----

  predicate Waiting(s: Loop) {
    && !s.terminate && !s.failed
    && (s.timers.timers != [] || s.readers.entries != [] || s.writers.entries != [] || s.exceptions.entries != [])
  }

  function CallHandlers(w: World, s: Loop, n: nat): Loop
    decreases n
  {
    if n == 0 then s else CallHandlers(w, CallHandler(w, s), n - 1)
  }

  /** The sockets of a table, as `eloop_sock_table_set_fds` collects them. */
  function Socks(entries: seq<Entry>): set<nat> {
    set e | e in entries :: e.sock
  }

  function TimerTraced(s: Loop, t: T.Timer): Loop {
    s.(timerCalls := s.timerCalls + [TimerCall(t.handler, t.eloopData, t.userData)])
  }

  /** The look at the first timer, and its handler if it is due. */
  function ExpireAndCall(w: World, s: Loop): Loop {
    var r := s.(timers := T.Expire(w.clock, s.timers));
    if s.timers.timers != [] && !T.Before(T.Reading(w.clock, s.timers.ticks), s.timers.timers[0].due)
      then CallHandler(w, TimerTraced(r, s.timers.timers[0]))
    else r
  }

  predicate SomeChanged(s: Loop) {
    s.readers.changed || s.writers.changed || s.exceptions.changed
  }

  /** Up to and including `select`: the time it may wait is computed, and its outcome is the world's. */
  function AfterSelect(s: Loop): Loop {
    s.(turns := s.turns + 1, timers := if s.timers.timers == [] then s.timers else T.Tick(s.timers))
  }

  /** The sockets of a table that `select` was given and reported. */
  function ReadySocks(w: World, s: Loop, kind: Kind): set<nat> {
    var chosen := SelectionOf(w, s.turns);
    (match kind
     case Read => chosen.readable
     case Write => chosen.writable
     case Exception => chosen.exceptional) * Socks(Of(s, kind).entries)
  }

  function AllUnflagged(s: Loop): Loop {
    Unflagged(Unflagged(Unflagged(s, Read), Write), Exception)
  }

  /** A turn up to the dispatches: `select`, the signal handlers that are due, and the first timer. */
  function Prepared(w: World, s: Loop): Loop {
    ExpireAndCall(w, CallHandlers(w, AllUnflagged(AfterSelect(s)), Signals(w, s.turns)))
  }

  /** The state in which the dispatch of one kind begins: readers first, then writers, then exceptions. */
  function UpTo(w: World, s: Loop, kind: Kind): Loop {
    match kind
    case Read => Prepared(w, s)
    case Write => Dispatch(w, Prepared(w, s), Read, ReadySocks(w, s, Read))
    case Exception =>
      Dispatch(w, Dispatch(w, Prepared(w, s), Read, ReadySocks(w, s, Read)), Write, ReadySocks(w, s, Write))
  }

  /** Whether a turn gets to the dispatches at all. */
  predicate Dispatches(w: World, s: Loop) {
    !SelectionOf(w, s.turns).fatal && SelectionOf(w, s.turns).hits && !SomeChanged(Prepared(w, s))
  }

  /** One turn of the loop of `eloop_run`. */
  function Turn(w: World, s: Loop): Loop {
    if SelectionOf(w, s.turns).fatal then AfterSelect(s).(failed := true)
    else if !Dispatches(w, s) then Prepared(w, s)
    else Dispatch(w, UpTo(w, s, Exception), Exception, ReadySocks(w, s, Exception))
  }

  /** The first `n` turns, or fewer if the loop ends before. */
  function Turns(w: World, s: Loop, n: nat): Loop
    decreases n
  {
    if n == 0 || !Waiting(s) then s else Turns(w, Turn(w, s), n - 1)
  }

  // ----- what every run keeps -----

  /** `eloop.count` is the sum of the table counts and `eloop.max_sock` bounds every registered socket. */
  predicate Tallied(s: Loop) {
    && s.count == |s.readers.entries| + |s.writers.entries| + |s.exceptions.entries|
    && (forall e :: e in s.readers.entries ==> e.sock <= s.maxSock)
    && (forall e :: e in s.writers.entries ==> e.sock <= s.maxSock)
    && (forall e :: e in s.exceptions.entries ==> e.sock <= s.maxSock)
  }

  ghost predicate Inv(w: World, s: Loop) {
    && T.Inv(s.timers) && (T.Monotone(w.clock) ==> T.FiredFirst(w.clock, s.timers))
    && Tallied(s)
  }

  lemma AddSockKeeps(w: World, s: Loop, kind: Kind, e: Entry)
    requires Tallied(s)
    ensures Tallied(AddSock(w, s, kind, e))
  {}

  lemma RemoveSockKeeps(s: Loop, kind: Kind, sock: nat)
    requires Tallied(s)
    ensures Tallied(RemoveSock(s, kind, sock))
  {
    var entries := Of(s, kind).entries;
    var k := Place(entries, sock);
    if k < |entries| {
      RemovedMembers(entries, k);
    }
  }

  lemma PerformKeeps(w: World, s: Loop, a: Action)
    requires T.NormalClock(w.clock) && Inv(w, s)
    ensures Inv(w, Perform(w, s, a))
  {
    hide T.Inv, T.FiredFirst, T.Monotone, T.Register, T.Cancel, T.CancelOne, T.Adjust, T.NormalClock, AddSock,
      RemoveSock;
    match a
    case RegisterTimeout(secs, usecs, h, e, u) => T.RegisterKeeps(w.clock, s.timers, secs, usecs, h, e, u);
    case CancelTimeout(h, e, u) => T.CancelKeeps(w.clock, s.timers, h, e, u);
    case CancelTimeoutOne(h, e, u) => T.CancelOneKeeps(w.clock, s.timers, h, e, u);
    case AdjustTimeout(secs, usecs, h, e, u, d) => T.AdjustKeeps(w.clock, s.timers, secs, usecs, h, e, u, d);
    case RegisterSock(kind, e) => AddSockKeeps(w, s, kind, e); SockTimers(w, s, kind, e, 0);
    case UnregisterSock(kind, sock) => RemoveSockKeeps(s, kind, sock); SockTimers(w, s, kind, Entry(0, 0, 0, 0), sock);
    case Terminate =>
  }

  lemma AddingKeeps(w: World, s: Loop, kind: Kind, e: Entry)
    requires T.NormalClock(w.clock) && Inv(w, s)
    ensures Inv(w, AddSock(w, s, kind, e))
  {
    hide Inv, AddSock, RemoveSock;
    PerformKeeps(w, s, RegisterSock(kind, e));
  }

  lemma RemovingKeeps(w: World, s: Loop, kind: Kind, sock: nat)
    requires T.NormalClock(w.clock) && Inv(w, s)
    ensures Inv(w, RemoveSock(s, kind, sock))
  {
    hide Inv, AddSock, RemoveSock;
    PerformKeeps(w, s, UnregisterSock(kind, sock));
  }

  lemma SockTimers(w: World, s: Loop, kind: Kind, e: Entry, sock: nat)
    ensures AddSock(w, s, kind, e).timers == s.timers && AddSock(w, s, kind, e).trace == s.trace
    ensures RemoveSock(s, kind, sock).timers == s.timers && RemoveSock(s, kind, sock).trace == s.trace
  {}

  lemma {:induction false} PerformAllKeeps(w: World, s: Loop, actions: seq<Action>)
    requires T.NormalClock(w.clock) && Inv(w, s)
    ensures Inv(w, PerformAll(w, s, actions))
    decreases |actions|
  {
    hide Inv, Perform, T.NormalClock;
    if actions != [] {
      PerformKeeps(w, s, actions[0]);
      PerformAllKeeps(w, Perform(w, s, actions[0]), actions[1..]);
    }
  }

  lemma CountedKeeps(w: World, s: Loop)
    requires Inv(w, s)
    ensures Inv(w, s.(calls := s.calls + 1))
  {
    hide T.Inv, T.FiredFirst, T.Monotone;
  }

  lemma CallKeeps(w: World, s: Loop)
    requires T.NormalClock(w.clock) && Inv(w, s)
    ensures Inv(w, CallHandler(w, s))
  {
    hide Inv, T.NormalClock, PerformAll;
    CountedKeeps(w, s);
    PerformAllKeeps(w, s.(calls := s.calls + 1), Script(w, s.calls));
  }

  lemma {:induction false} CallHandlersKeep(w: World, s: Loop, n: nat)
    requires T.NormalClock(w.clock) && Inv(w, s)
    ensures Inv(w, CallHandlers(w, s, n))
    decreases n
  {
    hide Inv, CallHandler, T.NormalClock;
    if n > 0 {
      CallKeeps(w, s);
      CallHandlersKeep(w, CallHandler(w, s), n - 1);
    }
  }

  lemma UnflaggedKeeps(w: World, s: Loop, kind: Kind)
    requires Inv(w, s)
    ensures Inv(w, Unflagged(s, kind))
  {
    hide T.Inv, T.FiredFirst, T.Monotone;
  }

  lemma TracedKeeps(w: World, s: Loop, c: Call)
    requires Inv(w, s)
    ensures Inv(w, s.(trace := s.trace + [c]))
  {
    hide T.Inv, T.FiredFirst, T.Monotone;
  }

  lemma {:induction false} DispatchKeeps(w: World, s: Loop, kind: Kind, ready: set<nat>, i: nat)
    requires T.NormalClock(w.clock) && Inv(w, s)
    ensures Inv(w, DispatchFrom(w, s, kind, ready, i))
    decreases |Of(s, kind).entries| - i
  {
    hide Inv, PerformAll, T.NormalClock;
    var entries := Of(s, kind).entries;
    if i < |entries| {
      if entries[i].sock !in ready {
        DispatchKeeps(w, s, kind, ready, i + 1);
      } else {
        var c := Call(kind, entries[i]);
        var t := s.(trace := s.trace + [c]);
        TracedKeeps(w, s, c);
        CallKeeps(w, t);
        PerformAllSteady(w, t.(calls := s.calls + 1), Script(w, s.calls), kind);
        var r := CallHandler(w, t);
        if !Of(r, kind).changed {
          DispatchKeeps(w, r, kind, ready, i + 1);
        }
      }
    }
  }

  /** One entry of a dispatch. */
  lemma DispatchStep(w: World, s: Loop, kind: Kind, ready: set<nat>, i: nat)
    ensures var entries := Of(s, kind).entries;
            var whole := DispatchFrom(w, s, kind, ready, i);
            && (i >= |entries| ==> whole == s)
            && (i < |entries| && entries[i].sock !in ready ==> whole == DispatchFrom(w, s, kind, ready, i + 1))
            && (i < |entries| && entries[i].sock in ready ==>
                  var r := CallHandler(w, s.(trace := s.trace + [Call(kind, entries[i])]));
                  && Steady(s, r, kind)
                  && whole == if Of(r, kind).changed then r else DispatchFrom(w, r, kind, ready, i + 1))
  {
    hide PerformAll;
    var entries := Of(s, kind).entries;
    if i < |entries| && entries[i].sock in ready {
      HandlerCall(w, s, kind, Call(kind, entries[i]));
    }
  }

  lemma ExpiredKeeps(w: World, s: Loop)
    requires T.NormalClock(w.clock) && Inv(w, s)
    ensures Inv(w, s.(timers := T.Expire(w.clock, s.timers)))
  {
    hide T.Inv, T.FiredFirst, T.Monotone, T.Expire, T.NormalClock;
    T.ExpireKeeps(w.clock, s.timers);
  }

  lemma TimerTracedKeeps(w: World, s: Loop, t: T.Timer)
    requires Inv(w, s)
    ensures Inv(w, TimerTraced(s, t))
  {
    hide T.Inv, T.FiredFirst, T.Monotone;
  }

  lemma ExpireCallKeeps(w: World, s: Loop)
    requires T.NormalClock(w.clock) && Inv(w, s)
    ensures Inv(w, ExpireAndCall(w, s))
  {
    hide Inv, CallHandler, T.Expire, T.NormalClock, T.Before;
    ExpiredKeeps(w, s);
    var r := s.(timers := T.Expire(w.clock, s.timers));
    if s.timers.timers != [] {
      TimerTracedKeeps(w, r, s.timers.timers[0]);
      CallKeeps(w, TimerTraced(r, s.timers.timers[0]));
    }
  }

  lemma AfterSelectKeeps(w: World, s: Loop)
    requires T.NormalClock(w.clock) && Inv(w, s)
    ensures Inv(w, AfterSelect(s)) && Inv(w, AfterSelect(s).(failed := true))
  {
    hide T.Inv, T.FiredFirst, T.Monotone, T.NormalClock, T.Tick;
    T.TickKeeps(w.clock, s.timers);
  }

  lemma TurnKeeps(w: World, s: Loop)
    requires T.NormalClock(w.clock) && Inv(w, s)
    ensures Inv(w, Turn(w, s))
  {
    hide Inv, T.NormalClock, CallHandlers, ExpireAndCall, DispatchFrom, Unflagged, AfterSelect, ReadySocks, SomeChanged;
    var clear := AllUnflagged(AfterSelect(s));
    AfterSelectKeeps(w, s);
    UnflaggedKeeps(w, AfterSelect(s), Read);
    UnflaggedKeeps(w, Unflagged(AfterSelect(s), Read), Write);
    UnflaggedKeeps(w, Unflagged(Unflagged(AfterSelect(s), Read), Write), Exception);
    CallHandlersKeep(w, clear, Signals(w, s.turns));
    ExpireCallKeeps(w, CallHandlers(w, clear, Signals(w, s.turns)));
    WholeDispatchKeeps(w, UpTo(w, s, Read), Read, ReadySocks(w, s, Read));
    WholeDispatchKeeps(w, UpTo(w, s, Write), Write, ReadySocks(w, s, Write));
    WholeDispatchKeeps(w, UpTo(w, s, Exception), Exception, ReadySocks(w, s, Exception));
  }

  lemma WholeDispatchKeeps(w: World, s: Loop, kind: Kind, ready: set<nat>)
    requires T.NormalClock(w.clock) && Inv(w, s)
    ensures Inv(w, Dispatch(w, s, kind, ready))
  {
    hide Inv, T.NormalClock, DispatchFrom;
    UnflaggedKeeps(w, s, kind);
    DispatchKeeps(w, Unflagged(s, kind), kind, ready, 0);
  }

  lemma {:induction false} TurnsKeep(w: World, s: Loop, n: nat)
    requires T.NormalClock(w.clock) && Inv(w, s)
    ensures Inv(w, Turns(w, s, n))
    decreases n
  {
    hide Inv, T.NormalClock, Turn;
    if n > 0 && Waiting(s) {
      TurnKeeps(w, s);
      TurnsKeep(w, Turn(w, s), n - 1);
    }
  }

  lemma StartKeeps(w: World)
    ensures Inv(w, START)
  {}

  /**
    Every run, from any sequence of calls made before `eloop_run` on, under any world whose clock is monotone:
    the queue is ordered; each registered timer is either pending or has fired or been cancelled, once; timers fired in
    the order of deadline and registration, none early and none while an earlier one was pending.
    */
  lemma EveryRunKeepsTime(w: World, setup: seq<Action>, n: nat, id: nat)
    requires T.Monotone(w.clock)
    ensures var r := Turns(w, PerformAll(w, START, setup), n).timers;
            && T.Ordered(r.timers) && T.AllNormal(r.timers)
            && (T.Ids(r.timers)[id] + T.Ended(r.log)[id] == if id < r.nextId then 1 else 0)
            && T.FiredInTime(r.log) && T.FiredInOrder(r.log)
  {
    hide Turns, PerformAll;
    RunInvariant(w, setup, n);
    var r := Turns(w, PerformAll(w, START, setup), n).timers;
    assert (T.Ids(r.timers) + T.Ended(r.log))[id] == T.Issued(r.nextId)[id];
  }

  lemma RunInvariant(w: World, setup: seq<Action>, n: nat)
    requires T.NormalClock(w.clock)
    ensures Inv(w, Turns(w, PerformAll(w, START, setup), n))
  {
    hide Inv, T.NormalClock, Turns, PerformAll;
    StartKeeps(w);
    PerformAllKeeps(w, START, setup);
    TurnsKeep(w, PerformAll(w, START, setup), n);
  }

  /** Every run: the counts agree and the maximum bounds all sockets. */
  lemma EveryRunKeepsTables(w: World, setup: seq<Action>, n: nat)
    requires T.NormalClock(w.clock)
    ensures Tallied(Turns(w, PerformAll(w, START, setup), n))
  {
    hide Turns, PerformAll;
    RunInvariant(w, setup, n);
  }

  // ----- one dispatch -----

  /** The entries from place `i` on whose sockets are ready. */
  function Ready(entries: seq<Entry>, ready: set<nat>, i: nat): seq<Entry>
    decreases |entries| - i
  {
    if i >= |entries| then []
    else (if entries[i].sock in ready then [entries[i]] else []) + Ready(entries, ready, i + 1)
  }

  function CallsOf(kind: Kind, es: seq<Entry>): (calls: seq<Call>)
    ensures |calls| == |es| && forall i :: 0 <= i < |es| ==> calls[i] == Call(kind, es[i])
  {
    seq(|es|, i requires 0 <= i < |es| => Call(kind, es[i]))
  }

  lemma {:induction false} PerformAllQuiet(w: World, s: Loop, actions: seq<Action>)
    ensures PerformAll(w, s, actions).trace == s.trace
    decreases |actions|
  {
    if actions != [] {
      PerformAllQuiet(w, Perform(w, s, actions[0]), actions[1..]);
    }
  }

  /**
    Whatever the handlers do, a dispatch serves a prefix of the ready entries, in the order of registration; it serves
    all of them unless a handler changed this very table.
    */
  lemma {:induction false} DispatchServesPrefix(w: World, s: Loop, kind: Kind, ready: set<nat>, i: nat)
    requires !Of(s, kind).changed
    ensures var entries := Of(s, kind).entries;
            var all := Ready(entries, ready, i);
            var r := DispatchFrom(w, s, kind, ready, i);
            var n := |r.trace| - |s.trace|;
            && 0 <= n <= |all| && r.trace == s.trace + CallsOf(kind, all[..n])
            && (!Of(r, kind).changed ==> n == |all|)
    decreases |Of(s, kind).entries| - i
  {
    hide PerformAll, CallHandler, Ready, CallsOf;
    var entries := Of(s, kind).entries;
    var all := Ready(entries, ready, i);
    ReadyStep(entries, ready, i);
    if i < |entries| && entries[i].sock !in ready {
      DispatchServesPrefix(w, s, kind, ready, i + 1);
    } else if i < |entries| {
      var c := Call(kind, entries[i]);
      HandlerCall(w, s, kind, c);
      var r := CallHandler(w, s.(trace := s.trace + [c]));
      if Of(r, kind).changed {
        assert CallsOf(kind, all[..1]) == [c];
      } else {
        DispatchServesPrefix(w, r, kind, ready, i + 1);
        var n := |DispatchFrom(w, r, kind, ready, i + 1).trace| - |r.trace|;
        assert CallsOf(kind, all[..n + 1]) == [c] + CallsOf(kind, all[1..][..n]);
      }
    }
  }

  lemma ReadyStep(entries: seq<Entry>, ready: set<nat>, i: nat)
    ensures i >= |entries| ==> Ready(entries, ready, i) == []
    ensures i < |entries| && entries[i].sock !in ready ==> Ready(entries, ready, i) == Ready(entries, ready, i + 1)
    ensures i < |entries| && entries[i].sock in ready ==>
      Ready(entries, ready, i) == [entries[i]] + Ready(entries, ready, i + 1)
  {}

  /** A handler adds nothing to the trace by itself and leaves the table alone or raises its flag. */
  lemma HandlerCall(w: World, s: Loop, kind: Kind, c: Call)
    ensures var r := CallHandler(w, s.(trace := s.trace + [c])); r.trace == s.trace + [c] && Steady(s, r, kind)
  {
    var t := s.(trace := s.trace + [c], calls := s.calls + 1);
    PerformAllSteady(w, t, Script(w, s.calls), kind);
    PerformAllQuiet(w, t, Script(w, s.calls));
  }

  /** No handler touches the tables of this kind. */
  ghost predicate LeavesAlone(w: World, kind: Kind) {
    forall n: nat, a :: a in Script(w, n) ==>
      !(a.RegisterSock? && a.kind == kind) && !(a.UnregisterSock? && a.kind == kind)
  }

  lemma {:induction false} UntouchedStays(w: World, s: Loop, actions: seq<Action>, kind: Kind)
    requires forall a :: a in actions ==> !(a.RegisterSock? && a.kind == kind) && !(a.UnregisterSock? && a.kind == kind)
    ensures Of(PerformAll(w, s, actions), kind) == Of(s, kind)
    decreases |actions|
  {
    if actions != [] {
      assert actions[0] in actions;
      UntouchedStays(w, Perform(w, s, actions[0]), actions[1..], kind);
    }
  }

  lemma {:induction false} UntouchedDispatch(w: World, s: Loop, kind: Kind, ready: set<nat>, i: nat)
    requires LeavesAlone(w, kind) && !Of(s, kind).changed
    ensures !Of(DispatchFrom(w, s, kind, ready, i), kind).changed
    decreases |Of(s, kind).entries| - i
  {
    hide PerformAll;
    var entries := Of(s, kind).entries;
    if i < |entries| {
      if entries[i].sock !in ready {
        UntouchedDispatch(w, s, kind, ready, i + 1);
      } else {
        var t := s.(trace := s.trace + [Call(kind, entries[i])]);
        UntouchedStays(w, t.(calls := s.calls + 1), Script(w, s.calls), kind);
        UntouchedDispatch(w, CallHandler(w, t), kind, ready, i + 1);
      }
    }
  }

  /** If no handler changes the table, each ready entry is served once, in the order of registration. */
  lemma DispatchServesAll(w: World, s: Loop, kind: Kind, ready: set<nat>)
    requires LeavesAlone(w, kind)
    ensures var entries := Of(s, kind).entries;
            Dispatch(w, s, kind, ready).trace == s.trace + CallsOf(kind, Ready(entries, ready, 0))
  {
    var u := Unflagged(s, kind);
    UntouchedDispatch(w, u, kind, ready, 0);
    DispatchServesPrefix(w, u, kind, ready, 0);
    var all := Ready(Of(s, kind).entries, ready, 0);
    assert all[..|all|] == all;
  }

  // ----- what select was given, and what is served -----

  lemma {:induction false} DispatchSteady(w: World, s: Loop, kind: Kind, ready: set<nat>, i: nat, other: Kind)
    ensures Steady(s, DispatchFrom(w, s, kind, ready, i), other)
    decreases |Of(s, kind).entries| - i
  {
    hide CallHandler;
    DispatchStep(w, s, kind, ready, i);
    var entries := Of(s, kind).entries;
    if i < |entries| {
      if entries[i].sock !in ready {
        DispatchSteady(w, s, kind, ready, i + 1, other);
      } else {
        var c := Call(kind, entries[i]);
        HandlerCall(w, s, kind, c);
        HandlerCall(w, s, other, c);
        var r := CallHandler(w, s.(trace := s.trace + [c]));
        if !Of(r, kind).changed {
          DispatchSteady(w, r, kind, ready, i + 1, other);
        }
      }
    }
  }

  lemma {:induction false} CallHandlersSteady(w: World, s: Loop, n: nat, kind: Kind)
    ensures Steady(s, CallHandlers(w, s, n), kind) && CallHandlers(w, s, n).trace == s.trace
    decreases n
  {
    if n > 0 {
      CallSteady(w, s, kind);
      hide CallHandler;
      CallHandlersSteady(w, CallHandler(w, s), n - 1, kind);
    }
  }

  lemma CallSteady(w: World, s: Loop, kind: Kind)
    ensures Steady(s, CallHandler(w, s), kind) && CallHandler(w, s).trace == s.trace
  {
    PerformAllSteady(w, s.(calls := s.calls + 1), Script(w, s.calls), kind);
    PerformAllQuiet(w, s.(calls := s.calls + 1), Script(w, s.calls));
  }

  /** A turn that gets to its dispatches begins them with the tables that `select` was given. */
  lemma PreparedTable(w: World, s: Loop, kind: Kind)
    ensures Prepared(w, s).trace == s.trace
    ensures !SomeChanged(Prepared(w, s)) ==> Of(Prepared(w, s), kind) == Table(Of(s, kind).entries, false)
  {
    var clear := AllUnflagged(AfterSelect(s));
    var b := CallHandlers(w, clear, Signals(w, s.turns));
    CallHandlersSteady(w, clear, Signals(w, s.turns), kind);
    if b.timers.timers != [] {
      CallSteady(w, TimerTraced(b.(timers := T.Expire(w.clock, b.timers)), b.timers.timers[0]), kind);
    }
    hide CallHandlers, CallHandler, T.Expire, T.Before;
  }

  /** Before its own dispatch a table is the one `select` was given, or its flag is up; for readers it never is. */
  lemma UpToTable(w: World, s: Loop, kind: Kind)
    requires Dispatches(w, s)
    ensures kind.Read? ==> !Of(UpTo(w, s, kind), kind).changed
    ensures !Of(UpTo(w, s, kind), kind).changed ==> Of(UpTo(w, s, kind), kind).entries == Of(s, kind).entries
  {
    PreparedTable(w, s, kind);
    hide Prepared, DispatchFrom, ReadySocks;
    var b, c := UpTo(w, s, Read), UpTo(w, s, Write);
    DispatchSteady(w, Unflagged(b, Read), Read, ReadySocks(w, s, Read), 0, kind);
    DispatchSteady(w, Unflagged(c, Write), Write, ReadySocks(w, s, Write), 0, kind);
  }

  /**
    The calls that a turn adds for one kind: a prefix, in order, of the ready entries at the start of that dispatch.
    */
  predicate ServesPrefix(w: World, s: Loop, kind: Kind) {
    var b := UpTo(w, s, kind);
    var r := Dispatch(w, b, kind, ReadySocks(w, s, kind));
    var all := Ready(Of(b, kind).entries, ReadySocks(w, s, kind), 0);
    var n := |r.trace| - |b.trace|;
    0 <= n <= |all| && r.trace == b.trace + CallsOf(kind, all[..n]) && (!Of(r, kind).changed ==> n == |all|)
  }

  /** A turn makes the calls of its three dispatches and no others. */
  lemma TurnServes(w: World, s: Loop)
    ensures !Dispatches(w, s) ==> Turn(w, s).trace == s.trace
    ensures UpTo(w, s, Read).trace == s.trace
    ensures forall kind :: ServesPrefix(w, s, kind)
  {
    PreparedTable(w, s, Read);
    hide Prepared, DispatchFrom, ReadySocks;
    forall kind ensures ServesPrefix(w, s, kind) {
      DispatchServesPrefix(w, Unflagged(UpTo(w, s, kind), kind), kind, ReadySocks(w, s, kind), 0);
    }
  }

  /** The call is for an entry of the table that `select` was given. */
  predicate Watched(s: Loop, c: Call) {
    c.entry in Of(s, c.kind).entries
  }

  lemma {:induction false} ReadyMembers(entries: seq<Entry>, ready: set<nat>, i: nat)
    ensures forall e :: e in Ready(entries, ready, i) ==> e in entries && e.sock in ready
    decreases |entries| - i
  {
    if i < |entries| {
      ReadyMembers(entries, ready, i + 1);
    }
  }

  /**
    A call of the turn that begins in `s` is for a socket that `select` was given and reported ready. It is for an entry
    of the table that `select` was given: always among readers, and among writers and exceptions unless an earlier
    dispatch of the same turn had changed that table.
    */
  predicate ServedSafely(w: World, s: Loop, c: Call) {
    && c.entry.sock in ReadySocks(w, s, c.kind) && c.entry.sock in Socks(Of(s, c.kind).entries)
    && (c.kind.Read? || !Of(UpTo(w, s, c.kind), c.kind).changed ==> Watched(s, c))
  }

  /** Every call of a turn is safe in that sense. */
  lemma TurnServesWatched(w: World, s: Loop, i: nat)
    requires |s.trace| <= i < |Turn(w, s).trace|
    ensures ServedSafely(w, s, Turn(w, s).trace[i])
  {
    hide Prepared, DispatchFrom, Ready, Dispatch, ReadySocks, ServedSafely;
    var x, y := UpTo(w, s, Write), UpTo(w, s, Exception);
    var kind := if i < |x.trace| then Read else if i < |y.trace| then Write else Exception;
    TurnPart(w, s, i, kind);
    var c := Turn(w, s).trace[i];
    ReadyMembers(Of(UpTo(w, s, kind), kind).entries, ReadySocks(w, s, kind), 0);
    UpToTable(w, s, kind);
    ReadySocksGiven(w, s, kind);
    ServedEntry(w, s, c);
  }

  /** The calls of a turn belong to its three dispatches in turn. */
  lemma TurnPart(w: World, s: Loop, i: nat, kind: Kind)
    requires |s.trace| <= i < |Turn(w, s).trace|
    requires kind == if i < |UpTo(w, s, Write).trace| then Read
                     else if i < |UpTo(w, s, Exception).trace| then Write else Exception
    ensures Dispatches(w, s)
    ensures var all := Ready(Of(UpTo(w, s, kind), kind).entries, ReadySocks(w, s, kind), 0);
            var c := Turn(w, s).trace[i];
            c.kind == kind && c.entry in all
  {
    hide Prepared, Ready, Dispatch, ReadySocks, ServesPrefix;
    TurnServes(w, s);
    var x, y, z := UpTo(w, s, Write), UpTo(w, s, Exception), Turn(w, s);
    assert ServesPrefix(w, s, Read) && ServesPrefix(w, s, Write) && ServesPrefix(w, s, Exception);
    PrefixPart(w, s, Read, i);
    PrefixPart(w, s, Write, i);
    PrefixPart(w, s, Exception, i);
    assert i < |x.trace| ==> x.trace[i] == y.trace[i];
    assert i < |y.trace| ==> y.trace[i] == z.trace[i];
  }

  lemma PrefixPart(w: World, s: Loop, kind: Kind, i: nat)
    requires ServesPrefix(w, s, kind)
    ensures var b := UpTo(w, s, kind);
            var r := Dispatch(w, b, kind, ReadySocks(w, s, kind));
            && b.trace <= r.trace
            && (|b.trace| <= i < |r.trace| ==>
                  r.trace[i].kind == kind && r.trace[i].entry in Ready(Of(b, kind).entries, ReadySocks(w, s, kind), 0))
  {
    hide UpTo, Ready, Dispatch, ReadySocks;
  }

  lemma ServedEntry(w: World, s: Loop, c: Call)
    requires c.entry in Of(UpTo(w, s, c.kind), c.kind).entries && c.entry.sock in ReadySocks(w, s, c.kind)
    requires ReadySocks(w, s, c.kind) <= Socks(Of(s, c.kind).entries)
    requires c.kind.Read? ==> !Of(UpTo(w, s, c.kind), c.kind).changed
    requires !Of(UpTo(w, s, c.kind), c.kind).changed ==>
      Of(UpTo(w, s, c.kind), c.kind).entries == Of(s, c.kind).entries
    ensures ServedSafely(w, s, c)
  {
    hide UpTo, ReadySocks;
  }

  lemma ReadySocksGiven(w: World, s: Loop, kind: Kind)
    ensures ReadySocks(w, s, kind) <= Socks(Of(s, kind).entries)
  {}

  // ----- the exact condition -----

  /** The same world with other handlers. */
  function Scripted(w: World, script: nat -> seq<Action>): World {
    w.(script := script)
  }

  /** With these handlers the dispatch serves only entries of `watched`. */
  predicate ServesOnly(w: World, s: Loop, kind: Kind, ready: set<nat>, watched: seq<Entry>) {
    var r := Dispatch(w, s, kind, ready);
    forall i :: |s.trace| <= i < |r.trace| ==> r.trace[i].entry in watched
  }

  /**
    A dispatch serves only entries that `select` was given, whatever its handlers do, if and only if no ready entry of
    the table it starts with is a new one. By `UpToTable` that can fail only for writers and exceptions, and only after
    an earlier dispatch of the turn changed the table.
    */
  lemma ServesOnlyExactly(w: World, s: Loop, kind: Kind, ready: set<nat>, watched: seq<Entry>)
    ensures (forall script: nat -> seq<Action> :: ServesOnly(Scripted(w, script), s, kind, ready, watched))
       <==> (forall e :: e in Ready(Of(s, kind).entries, ready, 0) ==> e in watched)
  {
    var all := Ready(Of(s, kind).entries, ready, 0);
    hide ServesOnly, Ready;
    if forall e :: e in all ==> e in watched {
      forall script: nat -> seq<Action> ensures ServesOnly(Scripted(w, script), s, kind, ready, watched) {
        OldServed(Scripted(w, script), s, kind, ready, watched);
      }
    }
    if forall script: nat -> seq<Action> :: ServesOnly(Scripted(w, script), s, kind, ready, watched) {
      var quiet: nat -> seq<Action> := n => [];
      assert ServesOnly(Scripted(w, quiet), s, kind, ready, watched);
      AllServed(Scripted(w, quiet), s, kind, ready, watched);
    }
  }

  lemma OldServed(w: World, s: Loop, kind: Kind, ready: set<nat>, watched: seq<Entry>)
    requires forall e :: e in Ready(Of(s, kind).entries, ready, 0) ==> e in watched
    ensures ServesOnly(w, s, kind, ready, watched)
  {
    DispatchServesPrefix(w, Unflagged(s, kind), kind, ready, 0);
    hide DispatchFrom, Ready;
  }

  lemma AllServed(w: World, s: Loop, kind: Kind, ready: set<nat>, watched: seq<Entry>)
    requires LeavesAlone(w, kind) && ServesOnly(w, s, kind, ready, watched)
    ensures forall e :: e in Ready(Of(s, kind).entries, ready, 0) ==> e in watched
  {
    DispatchServesAll(w, s, kind, ready);
    hide Dispatch, Ready;
    var r, all := Dispatch(w, s, kind, ready), Ready(Of(s, kind).entries, ready, 0);
    forall e | e in all ensures e in watched {
      var j :| 0 <= j < |all| && all[j] == e;
      assert r.trace[|s.trace| + j] == Call(kind, e);
    }
  }

  // ----- runs -----

  lemma {:induction false} TurnsSnoc(w: World, s: Loop, n: nat)
    ensures var r := Turns(w, s, n); Turns(w, s, n + 1) == if Waiting(r) then Turn(w, r) else r
    decreases n
  {
    hide Turn;
    if n > 0 && Waiting(s) {
      TurnsSnoc(w, Turn(w, s), n - 1);
    }
  }

  /**
    Over every run, whatever handlers do: each turn adds calls to the trace, and each of them is safe in that sense.
    */
  lemma EveryRunServesWatched(w: World, setup: seq<Action>, n: nat, i: nat)
    ensures var s, r := Turns(w, PerformAll(w, START, setup), n), Turns(w, PerformAll(w, START, setup), n + 1);
            s.trace <= r.trace && (|s.trace| <= i < |r.trace| ==> ServedSafely(w, s, r.trace[i]))
  {
    hide Turns, PerformAll, Turn, ServedSafely;
    var start := PerformAll(w, START, setup);
    TurnsSnoc(w, start, n);
    var s, r := Turns(w, start, n), Turns(w, start, n + 1);
    if Waiting(s) {
      TurnExtends(w, s);
      if |s.trace| <= i < |r.trace| {
        TurnServesWatched(w, s, i);
      }
    }
  }

  lemma TurnExtends(w: World, s: Loop)
    ensures s.trace <= Turn(w, s).trace
  {
    TurnServes(w, s);
    assert ServesPrefix(w, s, Read) && ServesPrefix(w, s, Write) && ServesPrefix(w, s, Exception);
    hide Prepared, DispatchFrom, Ready, ReadySocks;
  }

  // ----- a turn that serves an entry select was not given -----

  const READER: Entry := Entry(3, 1, 0, 0)
  const WRITER: Entry := Entry(5, 2, 0, 0)
  const NEW_WRITER: Entry := Entry(5, 3, 0, 0)

  /** The first handler called swaps the writer on socket 5 for another one; sockets 3 and 5 are always ready. */
  function SwappingWorld(): World {
    World(T.Clock(n => T.Time(0, 0), n => false), n => false,
          n => if n == 0 then [UnregisterSock(Write, 5), RegisterSock(Write, NEW_WRITER)] else [],
          n => Selection(false, true, {3}, {5}, {}), n => 0)
  }

  /** The loop with both sockets registered and no flag up. */
  const TWO_SOCKETS: Loop :=
    START.(readers := Table([READER], false), writers := Table([WRITER], false), count := 2, maxSock := 5, allocs := 2)

  lemma SwapSetup()
    ensures PerformAll(SwappingWorld(), START, [RegisterSock(Read, READER), RegisterSock(Write, WRITER)])
         == TWO_SOCKETS.(readers := Table([READER], true), writers := Table([WRITER], true))
  {
    PerformTwo(SwappingWorld(), START, RegisterSock(Read, READER), RegisterSock(Write, WRITER));
  }

  lemma SwapPrepared(s: Loop)
    requires s == TWO_SOCKETS.(readers := Table([READER], true), writers := Table([WRITER], true))
    ensures Prepared(SwappingWorld(), s) == TWO_SOCKETS.(turns := 1)
    ensures var w := SwappingWorld();
            ReadySocks(w, s, Read) == {3} && ReadySocks(w, s, Write) == {5} && ReadySocks(w, s, Exception) == {}
  {}

  /** What the reader's handler does. */
  lemma SwapHandler(t: Loop)
    requires t == TWO_SOCKETS.(turns := 1, trace := [Call(Read, READER)])
    ensures CallHandler(SwappingWorld(), t) == t.(calls := 1, writers := Table([NEW_WRITER], true), allocs := 3)
  {
    var w := SwappingWorld();
    assert Script(w, 0) == [UnregisterSock(Write, 5), RegisterSock(Write, NEW_WRITER)];
    PerformTwo(w, t.(calls := 1), UnregisterSock(Write, 5), RegisterSock(Write, NEW_WRITER));
    assert RemoveAt([WRITER], 0) == [];
  }

  /**
    A reader's handler replaces the writer of a socket. The dispatch of writers takes down the flag that says so and
    calls the new entry on the strength of a result that `select` gave for the old one.
    */
  lemma NewWriterServed()
    ensures var w := SwappingWorld();
            var s := PerformAll(w, START, [RegisterSock(Read, READER), RegisterSock(Write, WRITER)]);
            && Turn(w, s).trace == [Call(Read, READER), Call(Write, NEW_WRITER)]
            && !Watched(s, Call(Write, NEW_WRITER)) && Of(UpTo(w, s, Write), Write).changed
  {
    var w := SwappingWorld();
    var s := PerformAll(w, START, [RegisterSock(Read, READER), RegisterSock(Write, WRITER)]);
    SwapSetup();
    SwapPrepared(s);
    var c := TWO_SOCKETS.(turns := 1);
    hide PerformAll, Prepared, ReadySocks, Dispatch;
    OneDispatch(w, c, Read, {3}, READER);
    assert [] + [Call(Read, READER)] == [Call(Read, READER)];
    SwapHandler(c.(trace := [Call(Read, READER)]));
    hide CallHandler;
    var d := UpTo(w, s, Write);
    assert d.writers == Table([NEW_WRITER], true) && d.trace == [Call(Read, READER)];
    OneDispatch(w, d, Write, {5}, NEW_WRITER);
    CallSteady(w, Unflagged(d, Write).(trace := d.trace + [Call(Write, NEW_WRITER)]), Write);
    NothingReady(w, UpTo(w, s, Exception), Exception);
  }

  lemma NothingReady(w: World, s: Loop, kind: Kind)
    ensures Dispatch(w, s, kind, {}).trace == s.trace
  {
    DispatchServesPrefix(w, Unflagged(s, kind), kind, {}, 0);
    NoneReady(Of(s, kind).entries, 0);
  }

  lemma {:induction false} NoneReady(entries: seq<Entry>, i: nat)
    ensures Ready(entries, {}, i) == []
    decreases |entries| - i
  {
    if i < |entries| {
      NoneReady(entries, i + 1);
    }
  }

  lemma PerformTwo(w: World, s: Loop, a: Action, b: Action)
    ensures PerformAll(w, s, [a, b]) == Perform(w, Perform(w, s, a), b)
  {
    hide Perform;
    var r := Perform(w, s, a);
    assert [a, b][1..] == [b] && [b][1..] == [];
    assert PerformAll(w, r, [b]) == PerformAll(w, Perform(w, r, b), []);
  }

  /** A dispatch of a table with one entry, which is ready. */
  lemma OneDispatch(w: World, s: Loop, kind: Kind, ready: set<nat>, e: Entry)
    requires Of(s, kind).entries == [e] && e.sock in ready
    ensures Dispatch(w, s, kind, ready) == CallHandler(w, Unflagged(s, kind).(trace := s.trace + [Call(kind, e)]))
  {
    var u := Unflagged(s, kind);
    DispatchStep(w, u, kind, ready, 0);
    DispatchStep(w, CallHandler(w, u.(trace := u.trace + [Call(kind, e)])), kind, ready, 1);
  }
}
