/**
  Who is called in a run of the event loop: how often, which timers with which contexts, and which entries of the
  tables; and what one registration or removal does to a table.
  */
module EloopCalls {
  import opened EloopRuns
  import T = EloopTimers

  // ----- calls are accounted for -----

  /** The timers that fired, in order, as their handlers see them. */
  function FiredOf(log: seq<T.Event>): seq<TimerCall> {
    if log == [] then []
    else
      (if log[0].Fired? then [TimerCall(log[0].timer.handler, log[0].timer.eloopData, log[0].timer.userData)] else []) +
      FiredOf(log[1..])
  }

  lemma {:induction false} FiredConcat(a: seq<T.Event>, b: seq<T.Event>)
    ensures FiredOf(a + b) == FiredOf(a) + FiredOf(b)
    decreases |a|
  {
    if a == [] {
      assert a + b == b;
    } else {
      assert (a + b)[1..] == a[1..] + b;
      FiredConcat(a[1..], b);
    }
  }

  lemma {:induction false} NoneFired(log: seq<T.Event>)
    requires forall e :: e in log ==> !e.Fired?
    ensures FiredOf(log) == []
    decreases |log|
  {
    if log != [] {
      assert log[0] in log;
      NoneFired(log[1..]);
    }
  }

  /** From `s` to `r`: handlers called besides those that the two traces show, and both traces grow by what happened. */
  predicate Accounted(s: Loop, r: Loop, others: nat) {
    && s.trace <= r.trace && s.timerCalls <= r.timerCalls
    && r.calls - s.calls == others + (|r.trace| - |s.trace|) + (|r.timerCalls| - |s.timerCalls|)
    && FiredOf(r.timers.log) == FiredOf(s.timers.log) + r.timerCalls[|s.timerCalls|..]
    && r.turns == s.turns && r.failed == s.failed
  }

  lemma AccountedBoth(s: Loop, m: Loop, r: Loop, a: nat, b: nat)
    requires Accounted(s, m, a) && Accounted(m, r, b)
    ensures Accounted(s, r, a + b)
  {
    hide FiredOf;
    assert r.timerCalls[|s.timerCalls|..] == m.timerCalls[|s.timerCalls|..] + r.timerCalls[|m.timerCalls|..];
  }

  /** A log that grows by registrations and cancellations. */
  predicate Quieter(s: T.State, r: T.State) {
    s.log <= r.log && forall e :: e in r.log[|s.log|..] ==> !e.Fired?
  }

  lemma {:induction false} CancellationsQuiet(ts: seq<T.Timer>)
    ensures forall e :: e in T.Cancellations(ts) ==> !e.Fired?
    decreases |ts|
  {
    if ts != [] {
      CancellationsQuiet(ts[1..]);
    }
  }

  lemma TimersQuieter(c: T.Clock, s: T.State, secs: nat, usecs: nat, h: int, e: int, u: int)
    ensures Quieter(s, T.Register(c, s, secs, usecs, h, e, u))
    ensures Quieter(s, T.Cancel(s, h, e, u)) && Quieter(s, T.CancelOne(s, h, e, u))
  {
    CancellationsQuiet(T.Select(s.timers, false, h, e, u));
    hide T.Insert, T.Select, T.Later;
  }

  lemma AdjustQuieter(c: T.Clock, s: T.State, secs: nat, usecs: nat, h: int, e: int, u: int, deplete: bool)
    ensures Quieter(s, T.Adjust(c, s, secs, usecs, h, e, u, deplete))
  {
    hide T.Register, T.Cancel, T.Replaces, T.First;
    TimersQuieter(c, T.Tick(s), secs, usecs, h, e, u);
    var m := T.Cancel(T.Tick(s), h, e, u);
    TimersQuieter(c, m, secs, usecs, h, e, u);
    var r := T.Register(c, m, secs, usecs, h, e, u);
    assert r.log[|s.log|..] == m.log[|s.log|..] + r.log[|m.log|..];
  }

  lemma PerformAccounted(w: World, s: Loop, a: Action)
    ensures Accounted(s, Perform(w, s, a), 0)
  {
    hide T.Register, T.Cancel, T.CancelOne, T.Adjust, FiredOf, AddSock, RemoveSock;
    var r := Perform(w, s, a);
    assert r.trace == s.trace && r.timerCalls == s.timerCalls && r.calls == s.calls && r.turns == s.turns &&
      r.failed == s.failed by {
      SocksQuiet(w, s, a);
    }
    assert Quieter(s.timers, r.timers) by {
      match a
      case RegisterTimeout(secs, usecs, h, e, u) => TimersQuieter(w.clock, s.timers, secs, usecs, h, e, u);
      case CancelTimeout(h, e, u) => TimersQuieter(w.clock, s.timers, 0, 0, h, e, u);
      case CancelTimeoutOne(h, e, u) => TimersQuieter(w.clock, s.timers, 0, 0, h, e, u);
      case AdjustTimeout(secs, usecs, h, e, u, d) => AdjustQuieter(w.clock, s.timers, secs, usecs, h, e, u, d);
      case _ => SocksQuiet(w, s, a);
    }
    var more := r.timers.log[|s.timers.log|..];
    assert r.timers.log == s.timers.log + more;
    FiredConcat(s.timers.log, more);
    NoneFired(more);
  }

  lemma SocksQuiet(w: World, s: Loop, a: Action)
    ensures var r := Perform(w, s, a);
            r.trace == s.trace && r.timerCalls == s.timerCalls && r.calls == s.calls && r.turns == s.turns &&
              r.failed == s.failed
    ensures a.RegisterSock? || a.UnregisterSock? || a.Terminate? ==> Perform(w, s, a).timers == s.timers
  {
    hide T.Register, T.Cancel, T.CancelOne, T.Adjust, Place;
  }

  lemma {:induction false} PerformAllAccounted(w: World, s: Loop, actions: seq<Action>)
    ensures Accounted(s, PerformAll(w, s, actions), 0)
    decreases |actions|
  {
    hide Perform, FiredOf;
    if actions != [] {
      hide Accounted;
      var m := Perform(w, s, actions[0]);
      PerformAccounted(w, s, actions[0]);
      PerformAllAccounted(w, m, actions[1..]);
      AccountedBoth(s, m, PerformAll(w, m, actions[1..]), 0, 0);
    }
  }

  lemma CallAccounted(w: World, s: Loop)
    ensures Accounted(s, CallHandler(w, s), 1)
  {
    PerformAllAccounted(w, s.(calls := s.calls + 1), Script(w, s.calls));
    hide PerformAll, FiredOf;
  }

  lemma {:induction false} CallHandlersAccounted(w: World, s: Loop, n: nat)
    ensures Accounted(s, CallHandlers(w, s, n), n)
    decreases n
  {
    hide CallHandler, FiredOf;
    if n > 0 {
      hide Accounted;
      var m := CallHandler(w, s);
      CallAccounted(w, s);
      CallHandlersAccounted(w, m, n - 1);
      AccountedBoth(s, m, CallHandlers(w, m, n - 1), 1, n - 1);
    }
  }

  lemma FiredSnoc(log: seq<T.Event>, e: T.Event)
    requires e.Fired?
    ensures FiredOf(log + [e]) == FiredOf(log) + [TimerCall(e.timer.handler, e.timer.eloopData, e.timer.userData)]
  {
    FiredConcat(log, [e]);
    assert [e][1..] == [];
  }

  lemma ExpireAccounted(w: World, s: Loop)
    ensures Accounted(s, ExpireAndCall(w, s), 0)
  {
    hide CallHandler, FiredOf, Accounted;
    var ts := s.timers.timers;
    if ts != [] && !T.Before(T.Reading(w.clock, s.timers.ticks), ts[0].due) {
      var m := TimerTraced(s.(timers := T.Expire(w.clock, s.timers)), ts[0]);
      FiringAccounted(w, s);
      CallAccounted(w, m);
      FiringThenCall(s, m, CallHandler(w, m));
    } else {
      NotFiring(w, s);
    }
  }

  lemma NotFiring(w: World, s: Loop)
    requires var ts := s.timers.timers; ts == [] || T.Before(T.Reading(w.clock, s.timers.ticks), ts[0].due)
    ensures Accounted(s, s.(timers := T.Expire(w.clock, s.timers)), 0)
  {
    hide FiredOf;
  }

  /** The firing itself is traced and logged; the call is still to come. */
  predicate Firing(s: Loop, m: Loop) {
    && m.trace == s.trace && m.calls == s.calls && m.turns == s.turns && m.failed == s.failed
    && s.timerCalls <= m.timerCalls && |m.timerCalls| == |s.timerCalls| + 1
    && FiredOf(m.timers.log) == FiredOf(s.timers.log) + m.timerCalls[|s.timerCalls|..]
  }

  lemma FiringAccounted(w: World, s: Loop)
    requires s.timers.timers != [] && !T.Before(T.Reading(w.clock, s.timers.ticks), s.timers.timers[0].due)
    ensures Firing(s, TimerTraced(s.(timers := T.Expire(w.clock, s.timers)), s.timers.timers[0]))
  {
    hide FiredOf, T.Before;
    var t := s.timers.timers[0];
    FiredSnoc(s.timers.log, T.Fired(t, T.Reading(w.clock, s.timers.ticks), s.timers.timers[1..]));
  }

  lemma FiringThenCall(s: Loop, m: Loop, r: Loop)
    requires Firing(s, m) && Accounted(m, r, 1)
    ensures Accounted(s, r, 0)
  {
    hide FiredOf;
    assert r.timerCalls[|s.timerCalls|..] == m.timerCalls[|s.timerCalls|..] + r.timerCalls[|m.timerCalls|..];
  }

  lemma {:induction false} DispatchFromAccounted(w: World, s: Loop, kind: Kind, ready: set<nat>, i: nat)
    ensures Accounted(s, DispatchFrom(w, s, kind, ready, i), 0)
    decreases |Of(s, kind).entries| - i
  {
    hide CallHandler, FiredOf, DispatchFrom;
    DispatchStep(w, s, kind, ready, i);
    var entries := Of(s, kind).entries;
    if i < |entries| {
      if entries[i].sock !in ready {
        DispatchFromAccounted(w, s, kind, ready, i + 1);
      } else {
        var t := s.(trace := s.trace + [Call(kind, entries[i])]);
        var r := CallHandler(w, t);
        CallAccounted(w, t);
        assert Accounted(s, r, 0);
        if !Of(r, kind).changed {
          DispatchFromAccounted(w, r, kind, ready, i + 1);
          AccountedBoth(s, r, DispatchFrom(w, r, kind, ready, i + 1), 0, 0);
        }
      }
    }
  }

  lemma DispatchAccounted(w: World, s: Loop, kind: Kind, ready: set<nat>)
    ensures Accounted(s, Dispatch(w, s, kind, ready), 0)
  {
    hide FiredOf, DispatchFrom;
    DispatchFromAccounted(w, Unflagged(s, kind), kind, ready, 0);
  }

  lemma PreparedAccounted(w: World, s: Loop)
    ensures Accounted(AfterSelect(s), Prepared(w, s), Signals(w, s.turns))
  {
    hide FiredOf, CallHandlers, ExpireAndCall, AfterSelect;
    var n := Signals(w, s.turns);
    var clear := AllUnflagged(AfterSelect(s));
    CallHandlersAccounted(w, clear, n);
    ExpireAccounted(w, CallHandlers(w, clear, n));
    AccountedBoth(clear, CallHandlers(w, clear, n), Prepared(w, s), n, 0);
  }

  lemma TurnAccounted(w: World, s: Loop)
    requires !SelectionOf(w, s.turns).fatal
    ensures Accounted(AfterSelect(s), Turn(w, s), Signals(w, s.turns))
  {
    hide FiredOf, Prepared, Dispatch, AfterSelect, Accounted, ReadySocks, SomeChanged;
    var n := Signals(w, s.turns);
    PreparedAccounted(w, s);
    if Dispatches(w, s) {
      var a := AfterSelect(s);
      var b, c, d := UpTo(w, s, Read), UpTo(w, s, Write), UpTo(w, s, Exception);
      DispatchAccounted(w, b, Read, ReadySocks(w, s, Read));
      DispatchAccounted(w, c, Write, ReadySocks(w, s, Write));
      DispatchAccounted(w, d, Exception, ReadySocks(w, s, Exception));
      AccountedBoth(a, b, c, n, 0);
      AccountedBoth(a, c, d, n, 0);
      AccountedBoth(a, d, Turn(w, s), n, 0);
    }
  }

  /**
    Every turn but one whose `select` fails: as many handlers are called as there are signals due, timers fired and
    socket calls traced, and the calls of timers are those of the timers that fired, in order and with their contexts.
    */
  lemma TurnCallsFired(w: World, s: Loop)
    requires !SelectionOf(w, s.turns).fatal
    ensures var r := Turn(w, s);
            && s.trace <= r.trace && s.timerCalls <= r.timerCalls
            && FiredOf(r.timers.log) == FiredOf(s.timers.log) + r.timerCalls[|s.timerCalls|..]
            && r.calls == s.calls + Signals(w, s.turns) + (|FiredOf(r.timers.log)| - |FiredOf(s.timers.log)|) +
                          (|r.trace| - |s.trace|)
  {
    hide FiredOf, Turn;
    TurnAccounted(w, s);
  }

  lemma FatalTurnCallsNone(w: World, s: Loop)
    requires SelectionOf(w, s.turns).fatal
    ensures var r := Turn(w, s);
            r.failed && r.calls == s.calls && r.trace == s.trace && r.timerCalls == s.timerCalls &&
              r.timers.log == s.timers.log && r.turns == s.turns + 1
  {}

  /** The signal handlers due after the first `n` turns. */
  function SignalsUntil(w: World, n: nat): nat {
    if n == 0 then 0 else SignalsUntil(w, n - 1) + Signals(w, n - 1)
  }

  /** All calls so far: those of signals, timers and sockets, and the timers called are those that fired. */
  predicate AllAccounted(w: World, s: Loop) {
    && s.timerCalls == FiredOf(s.timers.log)
    && (s.failed ==> s.turns > 0)
    && s.calls == SignalsUntil(w, if s.failed then s.turns - 1 else s.turns) + |s.timerCalls| + |s.trace|
  }

  lemma TurnKeepsAccounts(w: World, s: Loop)
    requires AllAccounted(w, s) && !s.failed
    ensures AllAccounted(w, Turn(w, s))
  {
    hide FiredOf, Turn;
    if SelectionOf(w, s.turns).fatal {
      FatalTurnCallsNone(w, s);
    } else {
      TurnAccounted(w, s);
      var r := Turn(w, s);
      assert r.timerCalls == s.timerCalls + r.timerCalls[|s.timerCalls|..];
    }
  }

  lemma {:induction false} TurnsKeepAccounts(w: World, s: Loop, n: nat)
    requires AllAccounted(w, s)
    ensures AllAccounted(w, Turns(w, s, n))
    decreases n
  {
    hide AllAccounted, Turn;
    if n > 0 && Waiting(s) {
      TurnKeepsAccounts(w, s);
      TurnsKeepAccounts(w, Turn(w, s), n - 1);
    }
  }

  /**
    Over every run, whatever handlers do: the timeout handlers called are those of the timers that fired, in order and
    with their contexts, and every call of a handler is one for a signal, a timer or a socket.
    */
  lemma EveryRunCallsFired(w: World, setup: seq<Action>, n: nat)
    ensures var r := Turns(w, PerformAll(w, START, setup), n);
            && r.timerCalls == FiredOf(r.timers.log)
            && r.turns >= (if r.failed then 1 else 0)
            && r.calls == SignalsUntil(w, if r.failed then r.turns - 1 else r.turns) + |r.timerCalls| + |r.trace|
  {
    hide Turns, PerformAll;
    PerformAllAccounted(w, START, setup);
    var s := PerformAll(w, START, setup);
    assert AllAccounted(w, s);
    TurnsKeepAccounts(w, s, n);
  }

  /** Without signals, a turn calls the handler of the first timer exactly when that is due, and no other timer's. */
  lemma TurnCallsDueTimer(w: World, s: Loop)
    requires !SelectionOf(w, s.turns).fatal && Signals(w, s.turns) == 0
    ensures var ts := s.timers.timers;
            Turn(w, s).timerCalls == s.timerCalls +
            if ts != [] && !T.Before(T.Reading(w.clock, s.timers.ticks + 1), ts[0].due)
            then [TimerCall(ts[0].handler, ts[0].eloopData, ts[0].userData)] else []
  {
    hide CallHandler, T.Before, FiredOf;
    PreparedCalls(w, s);
    if Dispatches(w, s) {
      hide Prepared, Dispatch, ReadySocks;
      DispatchCallsNoTimer(w, UpTo(w, s, Read), Read, ReadySocks(w, s, Read));
      DispatchCallsNoTimer(w, UpTo(w, s, Write), Write, ReadySocks(w, s, Write));
      DispatchCallsNoTimer(w, UpTo(w, s, Exception), Exception, ReadySocks(w, s, Exception));
    }
  }

  lemma PreparedCalls(w: World, s: Loop)
    requires Signals(w, s.turns) == 0
    ensures var ts := s.timers.timers;
            Prepared(w, s).timerCalls == s.timerCalls +
            if ts != [] && !T.Before(T.Reading(w.clock, s.timers.ticks + 1), ts[0].due)
            then [TimerCall(ts[0].handler, ts[0].eloopData, ts[0].userData)] else []
  {
    hide CallHandler, T.Before;
    var clear := AllUnflagged(AfterSelect(s));
    assert CallHandlers(w, clear, 0) == clear;
    if s.timers.timers != [] {
      CallQuiet(w, TimerTraced(clear.(timers := T.Expire(w.clock, clear.timers)), s.timers.timers[0]));
    }
  }

  lemma {:induction false} PerformAllCallsNone(w: World, s: Loop, actions: seq<Action>)
    ensures PerformAll(w, s, actions).timerCalls == s.timerCalls
    decreases |actions|
  {
    if actions != [] {
      PerformAllCallsNone(w, Perform(w, s, actions[0]), actions[1..]);
    }
  }

  lemma CallQuiet(w: World, s: Loop)
    ensures CallHandler(w, s).timerCalls == s.timerCalls
  {
    PerformAllCallsNone(w, s.(calls := s.calls + 1), Script(w, s.calls));
  }

  lemma {:induction false} DispatchFromCallsNoTimer(w: World, s: Loop, kind: Kind, ready: set<nat>, i: nat)
    ensures DispatchFrom(w, s, kind, ready, i).timerCalls == s.timerCalls
    decreases |Of(s, kind).entries| - i
  {
    hide CallHandler, DispatchFrom;
    DispatchStep(w, s, kind, ready, i);
    var entries := Of(s, kind).entries;
    if i < |entries| {
      if entries[i].sock !in ready {
        DispatchFromCallsNoTimer(w, s, kind, ready, i + 1);
      } else {
        var t := s.(trace := s.trace + [Call(kind, entries[i])]);
        var r := CallHandler(w, t);
        CallQuiet(w, t);
        if !Of(r, kind).changed {
          DispatchFromCallsNoTimer(w, r, kind, ready, i + 1);
        }
      }
    }
  }

  lemma DispatchCallsNoTimer(w: World, s: Loop, kind: Kind, ready: set<nat>)
    ensures Dispatch(w, s, kind, ready).timerCalls == s.timerCalls
  {
    hide DispatchFrom;
    DispatchFromCallsNoTimer(w, Unflagged(s, kind), kind, ready, 0);
  }

  // ----- a turn that serves everything -----

  /** The entries whose sockets are in the set, in order. */
  function InSet(entries: seq<Entry>, socks: set<nat>): seq<Entry> {
    if entries == [] then []
    else (if entries[0].sock in socks then [entries[0]] else []) + InSet(entries[1..], socks)
  }

  lemma {:induction false} ReadyIs(entries: seq<Entry>, socks: set<nat>, given: set<nat>, i: nat)
    requires i <= |entries| && forall e :: e in entries ==> e.sock in given
    ensures Ready(entries, socks * given, i) == InSet(entries[i..], socks)
    decreases |entries| - i
  {
    if i < |entries| {
      assert entries[i] in entries;
      assert entries[i..][1..] == entries[i + 1..];
      ReadyIs(entries, socks, given, i + 1);
    }
  }

  /** No handler touches any table. */
  ghost predicate TouchesNone(w: World) {
    forall kind :: LeavesAlone(w, kind)
  }

  lemma CallTouchesNone(w: World, s: Loop, kind: Kind)
    requires TouchesNone(w)
    ensures Of(CallHandler(w, s), kind) == Of(s, kind)
  {
    assert LeavesAlone(w, kind);
    UntouchedStays(w, s.(calls := s.calls + 1), Script(w, s.calls), kind);
  }

  lemma {:induction false} CallHandlersTouchNone(w: World, s: Loop, n: nat, kind: Kind)
    requires TouchesNone(w)
    ensures Of(CallHandlers(w, s, n), kind) == Of(s, kind)
    decreases n
  {
    hide CallHandler, TouchesNone;
    if n > 0 {
      CallTouchesNone(w, s, kind);
      CallHandlersTouchNone(w, CallHandler(w, s), n - 1, kind);
    }
  }

  lemma PreparedTouchesNone(w: World, s: Loop, kind: Kind)
    requires TouchesNone(w)
    ensures Of(Prepared(w, s), kind) == Table(Of(s, kind).entries, false)
  {
    hide CallHandler, CallHandlers, TouchesNone, T.Expire, T.Before;
    var clear := AllUnflagged(AfterSelect(s));
    var b := CallHandlers(w, clear, Signals(w, s.turns));
    CallHandlersTouchNone(w, clear, Signals(w, s.turns), kind);
    if b.timers.timers != [] {
      CallTouchesNone(w, TimerTraced(b.(timers := T.Expire(w.clock, b.timers)), b.timers.timers[0]), kind);
    }
  }

  lemma {:induction false} DispatchTouchesNone(w: World, s: Loop, kind: Kind, ready: set<nat>, i: nat, other: Kind)
    requires TouchesNone(w)
    ensures Of(DispatchFrom(w, s, kind, ready, i), other) == Of(s, other)
    decreases |Of(s, kind).entries| - i
  {
    hide CallHandler, DispatchFrom, TouchesNone;
    DispatchStep(w, s, kind, ready, i);
    var entries := Of(s, kind).entries;
    if i < |entries| {
      if entries[i].sock !in ready {
        DispatchTouchesNone(w, s, kind, ready, i + 1, other);
      } else {
        var t := s.(trace := s.trace + [Call(kind, entries[i])]);
        var r := CallHandler(w, t);
        CallTouchesNone(w, t, kind);
        CallTouchesNone(w, t, other);
        if !Of(r, kind).changed {
          DispatchTouchesNone(w, r, kind, ready, i + 1, other);
        }
      }
    }
  }

  /** One dispatch of a turn in a world whose handlers leave the tables alone. */
  lemma DispatchServes(w: World, s: Loop, kind: Kind, entries: seq<Entry>, socks: set<nat>)
    requires TouchesNone(w) && Of(s, kind).entries == entries
    ensures var r := Dispatch(w, s, kind, socks * Socks(entries));
            && r.trace == s.trace + CallsOf(kind, InSet(entries, socks))
            && forall other :: Of(r, other).entries == Of(s, other).entries
  {
    hide DispatchFrom, Ready, CallsOf;
    var ready := socks * Socks(entries);
    assert LeavesAlone(w, kind);
    DispatchServesAll(w, s, kind, ready);
    ReadyIs(entries, socks, Socks(entries), 0);
    assert entries[0..] == entries;
    forall other ensures Of(Dispatch(w, s, kind, ready), other).entries == Of(s, other).entries {
      DispatchTouchesNone(w, Unflagged(s, kind), kind, ready, 0, other);
    }
  }

  /**
    When handlers leave the tables alone and `select` reports hits, a turn calls each reader, then each writer, then
    each exception handler whose socket was reported, once each and in the order of registration; without hits it calls
    none.
    */
  lemma TurnServesAll(w: World, s: Loop)
    requires TouchesNone(w) && !SelectionOf(w, s.turns).fatal
    ensures var chosen := SelectionOf(w, s.turns);
            Turn(w, s).trace == if !chosen.hits then s.trace else
            s.trace + CallsOf(Read, InSet(s.readers.entries, chosen.readable)) +
            CallsOf(Write, InSet(s.writers.entries, chosen.writable)) +
            CallsOf(Exception, InSet(s.exceptions.entries, chosen.exceptional))
  {
    hide Prepared, Dispatch, CallsOf, TouchesNone;
    var chosen := SelectionOf(w, s.turns);
    PreparedTouchesNone(w, s, Read);
    PreparedTouchesNone(w, s, Write);
    PreparedTouchesNone(w, s, Exception);
    PreparedTable(w, s, Read);
    DispatchServes(w, UpTo(w, s, Read), Read, s.readers.entries, chosen.readable);
    DispatchServes(w, UpTo(w, s, Write), Write, s.writers.entries, chosen.writable);
    DispatchServes(w, UpTo(w, s, Exception), Exception, s.exceptions.entries, chosen.exceptional);
  }

  // ----- when a run ends -----

  /** The loop was asked to end, or `select` failed, or nothing is registered. */
  predicate AtRest(s: Loop) {
    || s.terminate || s.failed
    || (s.timers.timers == [] && s.readers.entries == [] && s.writers.entries == [] && s.exceptions.entries == [])
  }

  lemma TurnCounted(w: World, s: Loop)
    ensures Turn(w, s).turns == s.turns + 1
  {
    hide Turn;
    if SelectionOf(w, s.turns).fatal {
      FatalTurnCallsNone(w, s);
    } else {
      TurnAccounted(w, s);
    }
  }

  /** A run makes all its turns unless it comes to rest before, and then it stays as it is. */
  lemma {:induction false} RunsUntilRest(w: World, s: Loop, n: nat)
    ensures var r := Turns(w, s, n);
            && s.turns <= r.turns <= s.turns + n
            && (r.turns < s.turns + n ==> AtRest(r))
            && (AtRest(s) ==> r == s) && (!AtRest(s) && n > 0 ==> r == Turns(w, Turn(w, s), n - 1))
    decreases n
  {
    hide Turn;
    if n > 0 && Waiting(s) {
      TurnCounted(w, s);
      RunsUntilRest(w, Turn(w, s), n - 1);
    }
  }

  // ----- one table -----

  /** The entries for the socket. */
  function For(entries: seq<Entry>, sock: nat): seq<Entry> {
    if entries == [] then []
    else (if entries[0].sock == sock then [entries[0]] else []) + For(entries[1..], sock)
  }

  /** The entries for all other sockets. */
  function Others(entries: seq<Entry>, sock: nat): seq<Entry> {
    if entries == [] then []
    else (if entries[0].sock == sock then [] else [entries[0]]) + Others(entries[1..], sock)
  }

  lemma {:induction false} ForConcat(a: seq<Entry>, b: seq<Entry>, sock: nat)
    ensures For(a + b, sock) == For(a, sock) + For(b, sock)
    ensures Others(a + b, sock) == Others(a, sock) + Others(b, sock)
    decreases |a|
  {
    if a == [] {
      assert a + b == b;
    } else {
      assert (a + b)[1..] == a[1..] + b;
      ForConcat(a[1..], b, sock);
      ForHead(a, sock);
      ForHead(a + b, sock);
      hide For, Others;
    }
  }

  lemma ForHead(a: seq<Entry>, sock: nat)
    requires a != []
    ensures For(a, sock) == if a[0].sock == sock then [a[0]] + For(a[1..], sock) else For(a[1..], sock)
    ensures Others(a, sock) == if a[0].sock == sock then Others(a[1..], sock) else [a[0]] + Others(a[1..], sock)
  {}

  lemma {:induction false} NoneFor(a: seq<Entry>, sock: nat)
    requires forall e :: e in a ==> e.sock != sock
    ensures For(a, sock) == [] && Others(a, sock) == a
    decreases |a|
  {
    if a != [] {
      assert a[0] in a;
      NoneFor(a[1..], sock);
    }
  }

  /** The first entry for the socket is taken out, if there is one. */
  predicate FirstRemoved(before: seq<Entry>, after: seq<Entry>, sock: nat) {
    if forall e :: e in before ==> e.sock != sock then after == before
    else exists k :: 0 <= k < |before| && before[k].sock == sock && (forall i :: 0 <= i < k ==> before[i].sock != sock)
                     && after == before[..k] + before[k + 1..]
  }

  lemma ForOne(e: Entry)
    ensures For([e], e.sock) == [e] && Others([e], e.sock) == []
  {
    assert [e][1..] == [];
  }

  lemma RemovedAt(before: seq<Entry>, k: nat, sock: nat)
    requires k < |before| && before[k].sock == sock && forall i :: 0 <= i < k ==> before[i].sock != sock
    ensures var after := before[..k] + before[k + 1..];
            && Others(after, sock) == Others(before, sock) && For(before, sock) == [before[k]] + For(after, sock)
  {
    hide For, Others;
    var a, b := before[..k], before[k + 1..];
    assert before == a + ([before[k]] + b);
    ForConcat(a, [before[k]] + b, sock);
    ForConcat([before[k]], b, sock);
    ForConcat(a, b, sock);
    NoneFor(a, sock);
    ForOne(before[k]);
    assert [] + Others(b, sock) == Others(b, sock);
  }

  /** The other sockets keep their entries in order, and this one loses its first. */
  lemma RemovedFirst(before: seq<Entry>, after: seq<Entry>, sock: nat)
    requires FirstRemoved(before, after, sock)
    ensures Others(after, sock) == Others(before, sock)
    ensures For(after, sock) == if For(before, sock) == [] then [] else For(before, sock)[1..]
    ensures For(before, sock) == [] <==> forall e :: e in before ==> e.sock != sock
  {
    hide For, Others;
    if forall e :: e in before ==> e.sock != sock {
      NoneFor(before, sock);
    } else {
      var k :| 0 <= k < |before| && before[k].sock == sock && (forall i :: 0 <= i < k ==> before[i].sock != sock)
               && after == before[..k] + before[k + 1..];
      RemovedAt(before, k, sock);
      assert before[k] in before;
    }
  }

  /**
    What `eloop_unregister_sock` does to the tables: the first entry for the socket goes, every other entry stays where
    it was, and so do the other two tables and everything else.
    */
  lemma UnregisterRemovesFirst(w: World, s: Loop, kind: Kind, sock: nat)
    ensures var r := Perform(w, s, UnregisterSock(kind, sock));
            var before, after := Of(s, kind).entries, Of(r, kind).entries;
            && FirstRemoved(before, after, sock)
            && Others(after, sock) == Others(before, sock)
            && For(after, sock) == (if For(before, sock) == [] then [] else For(before, sock)[1..])
            && (forall other :: other != kind ==> Of(r, other) == Of(s, other))
            && Of(r, kind).changed == (Of(s, kind).changed || For(before, sock) != [])
            && r.count == s.count - (if For(before, sock) == [] then 0 else 1)
            && r.(readers := s.readers, writers := s.writers, exceptions := s.exceptions, count := s.count) == s
  {
    hide For, Others;
    var r := Perform(w, s, UnregisterSock(kind, sock));
    var before, after := Of(s, kind).entries, Of(r, kind).entries;
    var k := Place(before, sock);
    if k < |before| {
      assert before[k] in before && before[k].sock == sock;
      assert after == before[..k] + before[k + 1..];
    }
    RemovedFirst(before, after, sock);
  }

  lemma RemoveSockRemovesFirst(w: World, s: Loop, kind: Kind, sock: nat)
    ensures FirstRemoved(Of(s, kind).entries, Of(RemoveSock(s, kind, sock), kind).entries, sock)
  {
    hide RemoveSock, FirstRemoved, For, Others;
    UnregisterRemovesFirst(w, s, kind, sock);
  }

  /**
    `eloop_register_sock`: the entry goes to the end of its table, or nothing but the attempt to get memory happens.
    */
  lemma RegisterAppends(w: World, s: Loop, kind: Kind, e: Entry)
    ensures var r := Perform(w, s, RegisterSock(kind, e));
            && r.allocs == s.allocs + 1
            && (Refused(w, s.allocs) ==> r.(allocs := s.allocs) == s)
            && (!Refused(w, s.allocs) ==>
                  && Of(r, kind) == Table(Of(s, kind).entries + [e], true) && r.count == s.count + 1
                  && r.maxSock >= e.sock && r.maxSock >= s.maxSock && (r.maxSock == e.sock || r.maxSock == s.maxSock)
                  && (forall other :: other != kind ==> Of(r, other) == Of(s, other))
                  && r.(readers := s.readers, writers := s.writers, exceptions := s.exceptions, count := s.count,
                        maxSock := s.maxSock, allocs := s.allocs) == s)
  {}

  /** Registering an entry for a new socket and taking it out again restores the entries of all tables and the count. */
  lemma RegisterThenUnregister(w: World, s: Loop, kind: Kind, e: Entry)
    requires forall x :: x in Of(s, kind).entries ==> x.sock != e.sock
    ensures var r := Perform(w, Perform(w, s, RegisterSock(kind, e)), UnregisterSock(kind, e.sock));
            (forall k :: Of(r, k).entries == Of(s, k).entries) && r.count == s.count
  {
    hide Perform, FirstRemoved, For, Others;
    var m := Perform(w, s, RegisterSock(kind, e));
    RegisterAppends(w, s, kind, e);
    UnregisterRemovesFirst(w, m, kind, e.sock);
    var entries, after := Of(s, kind).entries, Of(Perform(w, m, UnregisterSock(kind, e.sock)), kind).entries;
    if Refused(w, s.allocs) {
      NoneRemoved(entries, e.sock, after);
    } else {
      LastRemoved(entries, e, after);
    }
  }

  lemma NoneRemoved(a: seq<Entry>, sock: nat, after: seq<Entry>)
    requires (forall x :: x in a ==> x.sock != sock) && FirstRemoved(a, after, sock)
    ensures after == a && For(a, sock) == []
  {
    NoneFor(a, sock);
  }

  lemma LastRemoved(a: seq<Entry>, e: Entry, after: seq<Entry>)
    requires (forall x :: x in a ==> x.sock != e.sock) && FirstRemoved(a + [e], after, e.sock)
    ensures after == a && For(a + [e], e.sock) == [e]
  {
    hide For, Others;
    var b := a + [e];
    NoneFor(a, e.sock);
    ForConcat(a, [e], e.sock);
    ForOne(e);
    assert b[|a|] in b && b[..|a|] + b[|a| + 1..] == a;
  }
}
