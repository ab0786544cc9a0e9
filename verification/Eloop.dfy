/** eloop.c, select variant: the global state, the socket tables, the dispatch loops and the main loop. */
module Eloop {
  import opened Sequences
  import opened EloopRuns
  import Calls = EloopCalls
  import T = EloopTimers
  import Q = EloopQueue

  /** `struct eloop_sock_table`; the table grows by reallocation and shrinks by moving its tail. */
  class SockTable {
    var table: seq<Entry>
    var changed: bool

    constructor ()
      ensures table == [] && !changed
    {
      table, changed := [], false;
    }
  }

  /** `eloop_sock_table_set_fds` */
  method SetFds(table: SockTable) returns (fds: set<nat>)
    ensures fds == Socks(table.table)
  {
    fds := {};
    for i := 0 to |table.table|
      invariant fds == Socks(table.table[..i])
    {
      fds := fds + {table.table[i].sock};
      assert table.table[..i + 1] == table.table[..i] + [table.table[i]];
      SocksSnoc(table.table[..i], table.table[i]);
    }
    assert table.table[..|table.table|] == table.table;
  }

  lemma SocksSnoc(entries: seq<Entry>, e: Entry)
    ensures Socks(entries + [e]) == Socks(entries) + {e.sock}
  {
    assert forall x :: x in entries + [e] <==> x in entries || x == e;
  }

  lemma PlaceIs(entries: seq<Entry>, sock: nat, k: nat)
    requires k <= |entries| && (forall i :: 0 <= i < k ==> entries[i].sock != sock)
    requires k < |entries| ==> entries[k].sock == sock
    ensures Place(entries, sock) == k
  {}

  class EventLoop {
    const world: World
    const timeouts: Q.Timeouts
    const readers: SockTable
    const writers: SockTable
    const exceptions: SockTable
    var count: int
    var maxSock: int
    var terminate: bool
    var failed: bool
    var allocs: nat
    var calls: nat
    var turns: nat
    ghost var trace: seq<Call>
    ghost var timerCalls: seq<TimerCall>

    ghost function Repr(): set<object>
      reads this, timeouts
    {
      {this, timeouts, timeouts.head, readers, writers, exceptions} + set n | n in timeouts.ring
    }

    ghost function Now(): Loop
      reads Repr()
    {
      Loop(timeouts.Now(), TableOf(Read), TableOf(Write), TableOf(Exception),
           count, maxSock, terminate, failed, allocs, calls, turns, trace, timerCalls)
    }

    /** `eloop_get_sock_table` */
    function GetSockTable(kind: Kind): SockTable {
      match kind
      case Read => readers
      case Write => writers
      case Exception => exceptions
    }

    ghost function TableOf(kind: Kind): Table
      reads GetSockTable(kind)
    {
      Table(GetSockTable(kind).table, GetSockTable(kind).changed)
    }

    ghost predicate Valid()
      reads Repr()
    {
      && timeouts.Valid() && timeouts.clock == world.clock && T.NormalClock(world.clock)
      && readers != writers && writers != exceptions && readers != exceptions
      && Inv(world, Now())
    }

    /** `eloop_init` */
    constructor (world: World)
      requires T.NormalClock(world.clock)
      ensures Valid() && Now() == START && this.world == world && fresh(Repr())
    {
      hide Inv, T.NormalClock, Q.Timeouts.Valid, Q.Timeouts.Now, Of, With;
      this.world := world;
      timeouts := new Q.Timeouts(world.clock);
      readers := new SockTable();
      writers := new SockTable();
      exceptions := new SockTable();
      count, maxSock, terminate, failed, allocs, calls, turns := 0, 0, false, false, 0, 0, 0;
      trace, timerCalls := [], [];
      new;
      StartKeeps(world);
      assert Now() == START;
    }

    /** The tables are three, and the timers in order. */
    ghost predicate Separate()
      reads Repr()
    {
      timeouts.Valid() && readers != writers && writers != exceptions && readers != exceptions
    }

    /** `eloop_sock_table_add_sock`, once there is room for the entry. */
    method AddEntry(kind: Kind, e: Entry)
      requires Separate()
      modifies this`maxSock, this`count, GetSockTable(kind)
      ensures var s := old(Now());
              Now() == With(s, kind, Table(Of(s, kind).entries + [e], true)).(
                         count := s.count + 1, maxSock := if e.sock > s.maxSock then e.sock else s.maxSock)
    {
      hide Q.Timeouts.Valid, Q.Timeouts.Now;
      var table := GetSockTable(kind);
      table.table := table.table + [e];
      if e.sock > maxSock {
        maxSock := e.sock;
      }
      count := count + 1;
      table.changed := true;
    }

    /** `eloop_register_sock` */
    method RegisterSock(kind: Kind, e: Entry) returns (r: int)
      requires Valid()
      modifies this, GetSockTable(kind)
      ensures Valid() && Now() == AddSock(world, old(Now()), kind, e)
      ensures r == if Refused(world, old(allocs)) then -1 else 0
      ensures GetSockTable(kind).table == old(GetSockTable(kind).table) + if r == 0 then [e] else []
    {
      hide Inv, T.NormalClock, Q.Timeouts.Valid, Q.Timeouts.Now, Refused;
      AddingKeeps(world, Now(), kind, e);
      allocs := allocs + 1;
      if Refused(world, allocs - 1) {
        return -1;
      }
      AddEntry(kind, e);
      r := 0;
    }

    /** `eloop_unregister_sock` and `eloop_sock_table_remove_sock` */
    method UnregisterSock(kind: Kind, sock: nat)
      requires Valid()
      modifies this, GetSockTable(kind)
      ensures Valid() && Now() == RemoveSock(old(Now()), kind, sock)
      ensures Calls.FirstRemoved(old(GetSockTable(kind).table), GetSockTable(kind).table, sock)
    {
      hide Inv, T.NormalClock, Q.Timeouts.Valid, Q.Timeouts.Now, Place, RemoveAt, Calls.FirstRemoved;
      RemovingKeeps(world, Now(), kind, sock);
      Calls.RemoveSockRemovesFirst(world, Now(), kind, sock);
      var table := GetSockTable(kind);
      var i := 0;
      while i < |table.table|
        invariant i <= |table.table| && forall j :: 0 <= j < i ==> table.table[j].sock != sock
      {
        if table.table[i].sock == sock {
          break;
        }
        i := i + 1;
      }
      PlaceIs(table.table, sock, i);
      if i == |table.table| {
        return;
      }
      table.table := RemoveAt(table.table, i);
      count := count - 1;
      table.changed := true;
    }

    /** A call into the interface. */
    method Perform(a: Action)
      requires Valid()
      modifies Repr()
      ensures Valid() && Now() == EloopRuns.Perform(world, old(Now()), a) && fresh(Repr() - old(Repr()))
    {
      hide Inv, T.NormalClock, Q.Timeouts.Valid, Q.Timeouts.Now, T.Register, T.Cancel, T.CancelOne, T.Adjust, AddSock,
        RemoveSock;
      PerformKeeps(world, Now(), a);
      match a
      case RegisterTimeout(secs, usecs, h, e, u) => var _ := timeouts.Register(secs, usecs, h, e, u);
      case CancelTimeout(h, e, u) => var _ := timeouts.Cancel(h, e, u);
      case CancelTimeoutOne(h, e, u) => var _, _ := timeouts.CancelOne(h, e, u);
      case AdjustTimeout(secs, usecs, h, e, u, deplete) => var _ := timeouts.Adjust(secs, usecs, h, e, u, deplete);
      case RegisterSock(kind, e) => var _ := RegisterSock(kind, e);
      case UnregisterSock(kind, sock) => UnregisterSock(kind, sock);
      case Terminate => terminate := true;
    }

    /** A handler runs. */
    method CallHandler()
      requires Valid()
      modifies Repr()
      ensures Valid() && Now() == EloopRuns.CallHandler(world, old(Now())) && fresh(Repr() - old(Repr()))
    {
      ghost var s := Now();
      hide Inv, T.NormalClock, Q.Timeouts.Valid, Q.Timeouts.Now, EloopRuns.Perform;
      var actions := Script(world, calls);
      CountedKeeps(world, s);
      calls := calls + 1;
      assert actions[0..] == actions;
      for i := 0 to |actions|
        invariant Valid() && fresh(Repr() - old(Repr()))
        invariant PerformAll(world, Now(), actions[i..]) == EloopRuns.CallHandler(world, s)
      {
        assert actions[i..][0] == actions[i] && actions[i..][1..] == actions[i + 1..];
        Perform(actions[i]);
      }
    }

    lemma TableIs(kind: Kind)
      ensures Of(Now(), kind).entries == GetSockTable(kind).table &&
        Of(Now(), kind).changed == GetSockTable(kind).changed
    {}

    /** `table->changed = 0` */
    method ClearFlag(kind: Kind)
      requires Valid()
      modifies GetSockTable(kind)`changed
      ensures Valid() && Now() == Unflagged(old(Now()), kind)
    {
      hide Inv, T.NormalClock, Q.Timeouts.Valid, Q.Timeouts.Now;
      UnflaggedKeeps(world, Now(), kind);
      var table := GetSockTable(kind);
      table.changed := false;
    }

    /** The handler of the i-th entry of a table is called. */
    method CallEntry(kind: Kind, ready: set<nat>, i: nat)
      requires Valid() && i < |GetSockTable(kind).table| && GetSockTable(kind).table[i].sock in ready
      modifies Repr()
      ensures Valid() && fresh(Repr() - old(Repr()))
      ensures var s := old(Now()); var c := Call(kind, Of(s, kind).entries[i]);
              Now() == EloopRuns.CallHandler(world, s.(trace := s.trace + [c]))
    {
      hide Inv, T.NormalClock, Q.Timeouts.Valid, Q.Timeouts.Now, EloopRuns.CallHandler;
      TableIs(kind);
      ghost var s := Now();
      ghost var c := Call(kind, GetSockTable(kind).table[i]);
      TracedKeeps(world, s, c);
      trace := trace + [c];
      CallHandler();
    }

    /** `eloop_sock_table_dispatch` */
    method Dispatch(kind: Kind, ready: set<nat>)
      requires Valid()
      modifies Repr()
      ensures Valid() && Now() == EloopRuns.Dispatch(world, old(Now()), kind, ready) && fresh(Repr() - old(Repr()))
    {
      hide Inv, T.NormalClock, Q.Timeouts.Valid, Q.Timeouts.Now, EloopRuns.CallHandler, DispatchFrom, Unflagged, Of;
      ghost var goal := EloopRuns.Dispatch(world, Now(), kind, ready);
      var table := GetSockTable(kind);
      ClearFlag(kind);
      var i := 0;
      TableIs(kind);
      while i < |table.table|
        invariant Valid() && fresh(Repr() - old(Repr())) && i <= |table.table|
        invariant goal == DispatchFrom(world, Now(), kind, ready, i)
        decreases |table.table| - i
      {
        TableIs(kind);
        DispatchStep(world, Now(), kind, ready, i);
        if table.table[i].sock in ready {
          CallEntry(kind, ready, i);
          TableIs(kind);
          if table.changed {
            return;
          }
        }
        i := i + 1;
      }
      TableIs(kind);
      DispatchStep(world, Now(), kind, ready, i);
    }

    /** How long to wait, and `select`. */
    method Await() returns (chosen: Selection)
      requires Valid()
      modifies this`turns, timeouts`ticks
      ensures Valid() && Now() == AfterSelect(old(Now()))
      ensures chosen == SelectionOf(world, old(turns))
    {
      hide Inv, T.NormalClock, Q.Timeouts.Valid, Q.Payloads;
      AfterSelectKeeps(world, Now());
      var limited, wait := timeouts.WaitTime();
      chosen := SelectionOf(world, turns);
      turns := turns + 1;
    }

    /** The first part of a turn: which sockets to watch, how long to wait, and `select`. */
    method Select() returns (chosen: Selection, fr: set<nat>, fw: set<nat>, fe: set<nat>)
      requires Valid()
      modifies Repr()
      ensures Valid() && Now() == AfterSelect(old(Now())) && fresh(Repr() - old(Repr()))
      ensures var s := old(Now());
              && chosen == SelectionOf(world, s.turns)
              && fr == Socks(s.readers.entries) && fw == Socks(s.writers.entries) && fe == Socks(s.exceptions.entries)
    {
      hide Inv, T.NormalClock, Q.Timeouts.Valid, Q.Payloads, Socks, AfterSelect;
      fr := SetFds(readers);
      fw := SetFds(writers);
      fe := SetFds(exceptions);
      chosen := Await();
    }

    /** `eloop_process_pending_signals`: the signal handlers that are due run. */
    method ProcessPendingSignals(n: nat)
      requires Valid()
      modifies Repr()
      ensures Valid() && Now() == CallHandlers(world, old(Now()), n) && fresh(Repr() - old(Repr()))
    {
      hide Inv, T.NormalClock, Q.Timeouts.Valid, Q.Timeouts.Now, EloopRuns.CallHandler;
      ghost var goal := CallHandlers(world, Now(), n);
      var left := n;
      while left > 0
        invariant Valid() && fresh(Repr() - old(Repr())) && goal == CallHandlers(world, Now(), left)
      {
        CallHandler();
        left := left - 1;
      }
    }

    /** The first timeout, if it is due: it is taken out before its handler runs. */
    method FireTimeout()
      requires Valid()
      modifies Repr()
      ensures Valid() && Now() == ExpireAndCall(world, old(Now())) && fresh(Repr() - old(Repr()))
    {
      hide Inv, T.NormalClock, Q.Timeouts.Valid, Q.Timeouts.Now, EloopRuns.CallHandler, T.Expire, T.Before;
      ghost var s := Now();
      ExpiredKeeps(world, s);
      TicksOf();
      var due, handler, eloopData, userData := timeouts.Expire();
      if due {
        TimerTracedKeeps(world, Now(), s.timers.timers[0]);
        timerCalls := timerCalls + [TimerCall(handler, eloopData, userData)];
        CallHandler();
      }
    }

    lemma TicksOf()
      ensures timeouts.Now().ticks == timeouts.ticks
    {}

    /** Between `select` and the dispatches: flags down, pending signals, the first timeout. */
    method Prepare(pending: nat)
      requires Valid()
      modifies Repr()
      ensures Valid() && fresh(Repr() - old(Repr()))
      ensures Now() == ExpireAndCall(world, CallHandlers(world, AllUnflagged(old(Now())), pending))
    {
      hide Inv, T.NormalClock, Q.Timeouts.Valid, Q.Timeouts.Now, CallHandlers, ExpireAndCall, Unflagged;
      ClearFlag(Read);
      ClearFlag(Write);
      ClearFlag(Exception);
      ProcessPendingSignals(pending);
      FireTimeout();
    }

    /** One turn of the loop of `eloop_run`. */
    method Turn()
      requires Valid()
      modifies Repr()
      ensures Valid() && Now() == EloopRuns.Turn(world, old(Now())) && fresh(Repr() - old(Repr()))
    {
      hide Inv, T.NormalClock, Q.Timeouts.Valid, Q.Timeouts.Now, CallHandlers, ExpireAndCall, EloopRuns.Dispatch,
        Unflagged, AllUnflagged,
        AfterSelect, Socks;
      ghost var s := Now();
      AfterSelectKeeps(world, s);
      var pending := Signals(world, turns);
      var chosen, fr, fw, fe := Select();
      if chosen.fatal {
        failed := true;
        return;
      }
      Prepare(pending);
      if !chosen.hits || readers.changed || writers.changed || exceptions.changed {
        return;
      }
      Dispatch(Read, chosen.readable * fr);
      Dispatch(Write, chosen.writable * fw);
      Dispatch(Exception, chosen.exceptional * fe);
    }

    /** The first `n` turns of `eloop_run`, which need not end by itself. */
    method Run(n: nat)
      requires Valid()
      modifies Repr()
      ensures Valid() && Now() == Turns(world, old(Now()), n) && fresh(Repr() - old(Repr()))
    {
      hide Inv, T.NormalClock, Q.Timeouts.Valid, Q.Timeouts.Now, EloopRuns.Turn;
      ghost var goal := Turns(world, Now(), n);
      var left := n;
      while left > 0 && !terminate && !failed && (!timeouts.Empty() || |readers.table| > 0 || |writers.table| > 0 ||
        |exceptions.table| > 0)
        invariant Valid() && fresh(Repr() - old(Repr())) && goal == Turns(world, Now(), left)
        decreases left
      {
        Turn();
        left := left - 1;
      }
    }
  }
}
