/** The ring of pending timeouts: `struct dl_list` links, and the operations of eloop.c that walk and relink it. */
module EloopQueue {
  import opened Sequences
  import opened EloopTimers

  /** `struct eloop_timeout`, its list node included. The list head is a node whose other fields are never read. */
  class Timeout {
    var next: Timeout?
    var prev: Timeout?
    var due: Time
    var handler: int
    var eloopData: int
    var userData: int
    ghost var id: nat

    constructor (due: Time, handler: int, eloopData: int, userData: int, ghost id: nat)
      ensures this.due == due && this.handler == handler && this.eloopData == eloopData && this.userData == userData
      ensures this.id == id && next == null && prev == null
    {
      next, prev := null, null;
      this.due, this.handler, this.eloopData, this.userData, this.id := due, handler, eloopData, userData, id;
    }

    /** `dl_list_init` */
    constructor Head()
      ensures next == this && prev == this
    {
      due, handler, eloopData, userData, id := Time(0, 0), 0, 0, 0, 0;
      new;
      next, prev := this, this;
    }
  }

  ghost function Payload(t: Timeout): Timer
    reads t`id, t`due, t`handler, t`eloopData, t`userData
  {
    Timer(t.id, t.due, t.handler, t.eloopData, t.userData)
  }

  ghost function Payloads(ring: seq<Timeout>): (ts: seq<Timer>)
    reads ring`id, ring`due, ring`handler, ring`eloopData, ring`userData
    ensures |ts| == |ring|
  {
    if ring == [] then [] else [Payload(ring[0])] + Payloads(ring[1..])
  }

  lemma {:induction false} PayloadAt(ring: seq<Timeout>, i: nat)
    requires i < |ring|
    ensures Payloads(ring)[i] == Payload(ring[i])
    decreases |ring|
  {
    if i > 0 {
      PayloadAt(ring[1..], i - 1);
    }
  }

  lemma PayloadsAt(ring: seq<Timeout>)
    ensures forall i :: 0 <= i < |ring| ==> Payloads(ring)[i] == Payload(ring[i])
  {
    forall i | 0 <= i < |ring| ensures Payloads(ring)[i] == Payload(ring[i]) {
      PayloadAt(ring, i);
    }
  }

  lemma {:induction false} PayloadsConcat(a: seq<Timeout>, b: seq<Timeout>)
    ensures Payloads(a + b) == Payloads(a) + Payloads(b)
    decreases |a|
  {
    if a == [] {
      assert a + b == b;
    } else {
      assert (a + b)[1..] == a[1..] + b;
      PayloadsConcat(a[1..], b);
    }
  }

  lemma PayloadsSnoc(a: seq<Timeout>, t: Timeout)
    ensures Payloads(a + [t]) == Payloads(a) + [Payload(t)]
  {
    PayloadsConcat(a, [t]);
    assert [t][1..] == [];
  }

  lemma PayloadsAround(a: seq<Timeout>, t: Timeout, b: seq<Timeout>)
    ensures Payloads(a + [t] + b) == Payloads(a) + [Payload(t)] + Payloads(b)
  {
    PayloadsConcat(a + [t], b);
    PayloadsSnoc(a, t);
  }

  lemma PayloadsSplit(ring: seq<Timeout>, k: nat)
    requires k <= |ring|
    ensures Payloads(ring[..k]) == Payloads(ring)[..k] && Payloads(ring[k..]) == Payloads(ring)[k..]
  {
    assert ring == ring[..k] + ring[k..];
    PayloadsConcat(ring[..k], ring[k..]);
  }

  /** One ring through the head and all nodes, in order, no node twice, `next` and `prev` inverse to each other. */
  ghost predicate Ring(head: Timeout, ring: seq<Timeout>)
    reads head`next, head`prev, ring`next, ring`prev
  {
    && head !in ring
    && (forall i, j :: 0 <= i < j < |ring| ==> ring[i] != ring[j])
    && head.next == (if ring == [] then head else ring[0])
    && head.prev == (if ring == [] then head else ring[|ring| - 1])
    && (forall i {:trigger ring[i].next} :: 0 <= i < |ring| ==>
       ring[i].next == if i + 1 < |ring| then ring[i + 1] else head)
    && (forall i {:trigger ring[i].prev} :: 0 <= i < |ring| ==> ring[i].prev == if i > 0 then ring[i - 1] else head)
  }

  /** `dl_list_add`: behind `list`, which is the head (`i` is 0) or the node before place `i`. */
  method DlListAdd(list: Timeout, item: Timeout, ghost head: Timeout, ghost ring: seq<Timeout>, ghost i: nat)
    requires Ring(head, ring) && i <= |ring| && list == (if i == 0 then head else ring[i - 1])
    requires item != head && item !in ring
    modifies head`next, head`prev, ring`next, ring`prev, item`next, item`prev
    ensures Ring(head, InsertAt(ring, i, item))
  {
    item.next := list.next;
    item.prev := list;
    list.next.prev := item;
    list.next := item;
    hide InsertAt;
  }

  /** `dl_list_del` on the node at place `i`. */
  method DlListDel(item: Timeout, ghost head: Timeout, ghost ring: seq<Timeout>, ghost i: nat)
    requires Ring(head, ring) && i < |ring| && item == ring[i]
    modifies head`next, head`prev, ring`next, ring`prev
    ensures Ring(head, RemoveAt(ring, i))
    ensures item.next == null && item.prev == null
  {
    item.next.prev := item.prev;
    item.prev.next := item.next;
    item.next := null;
    item.prev := null;
    hide RemoveAt;
  }

  lemma SlotIs(ts: seq<Timer>, due: Time, k: nat)
    requires k <= |ts| && (forall i :: 0 <= i < k ==> !Before(due, ts[i].due)) && (k < |ts| ==> Before(due, ts[k].due))
    ensures Slot(ts, due) == k
  {}

  lemma FirstIs(ts: seq<Timer>, h: int, e: int, u: int, k: nat)
    requires k <= |ts| && (forall i :: 0 <= i < k ==> !Exactly(ts[i], h, e, u)) &&
      (k < |ts| ==> Exactly(ts[k], h, e, u))
    ensures First(ts, h, e, u) == k
  {}

  /** A node put into the ring at its slot puts its timer into the queue. */
  lemma InsertPayloads(ring: seq<Timeout>, timeout: Timeout, k: nat)
    requires k <= |ring| && k == Slot(Payloads(ring), timeout.due)
    ensures var r := InsertAt(ring, k, timeout);
            && Payloads(r) == Insert(Payloads(ring), Payload(timeout))
            && forall n :: n in r <==> n in ring || n == timeout
  {
    hide Slot, Payloads;
    InsertedMembers(ring, k, timeout);
    PayloadsSplit(ring, k);
    PayloadsAround(ring[..k], timeout, ring[k..]);
  }

  lemma ReadingNormal(c: Clock, i: nat)
    requires NormalClock(c)
    ensures Normal(Reading(c, i))
  {}

  /** Where the links of a ring lead. */
  lemma RingNext(head: Timeout, ring: seq<Timeout>, i: nat)
    requires Ring(head, ring)
    ensures head.next == (if ring == [] then head else ring[0]) && head !in ring
    ensures i < |ring| ==> ring[i].next == (if i + 1 < |ring| then ring[i + 1] else head) && ring[i] != head
  {}

  lemma SelectSnoc(ts: seq<Timer>, j: nat, keep: bool, h: int, e: int, u: int)
    requires j < |ts|
    ensures Select(ts[..j + 1], keep, h, e, u) ==
            if Matches(ts[j], h, e, u) != keep then Select(ts[..j], keep, h, e, u) + [ts[j]]
              else Select(ts[..j], keep, h, e, u)
  {
    hide Matches;
    assert ts[..j + 1] == ts[..j] + [ts[j]] && [ts[j]][1..] == [];
    SelectConcat(ts[..j], [ts[j]], keep, h, e, u);
  }

  lemma {:induction false} CancellationsSnoc(ts: seq<Timer>, t: Timer)
    ensures Cancellations(ts + [t]) == Cancellations(ts) + [Cancelled(t)]
    decreases |ts|
  {
    if ts == [] {
      assert [t][1..] == [];
    } else {
      assert (ts + [t])[1..] == ts[1..] + [t];
      CancellationsSnoc(ts[1..], t);
    }
  }

  lemma SelectNothing(ts: seq<Timer>, h: int, e: int, u: int)
    ensures ts[..0] == [] && forall keep :: Select([], keep, h, e, u) == []
    ensures Cancellations([]) == [] && Payloads([]) == []
  {}

  /** The part of `struct eloop_data` that holds the timeouts, with the clock and the allocator it asks. */
  class Timeouts {
    const clock: Clock
    const head: Timeout
    var ticks: nat
    var allocs: nat
    ghost var ring: seq<Timeout>
    ghost var nextId: nat
    ghost var log: seq<Event>

    ghost function Now(): State
      reads this, ring`id, ring`due, ring`handler, ring`eloopData, ring`userData
    {
      State(Payloads(ring), ticks, allocs, nextId, log)
    }

    ghost predicate Valid()
      reads this, head, ring
    {
      NormalClock(clock) && Ring(head, ring) && Inv(Now())
    }

    constructor (clock: Clock)
      requires NormalClock(clock)
      ensures Valid() && Now() == START && this.clock == clock && fresh(head) && ring == []
    {
      this.clock := clock;
      head := new Timeout.Head();
      ticks, allocs, ring, nextId, log := 0, 0, [], 0, [];
    }

    /** `dl_list_empty` */
    predicate Empty()
      requires Valid()
      reads this, head, ring
      ensures Empty() <==> Now().timers == []
    {
      head.next == head
    }

    /** `os_get_reltime` */
    method GetReltime() returns (now: Time)
      modifies this`ticks
      ensures now == Reading(clock, old(ticks)) && ticks == old(ticks) + 1
    {
      now := Reading(clock, ticks);
      ticks := ticks + 1;
    }

    /** `eloop_register_timeout` */
    method Register(secs: nat, usecs: nat, handler: int, eloopData: int, userData: int) returns (r: int)
      requires Valid()
      modifies this, head, ring
      ensures Valid() && Now() == EloopTimers.Register(clock, old(Now()), secs, usecs, handler, eloopData, userData)
      ensures r == if Refused(clock, old(allocs)) then -1 else 0
      ensures fresh(set n | n in ring && n !in old(ring))
    {
      hide Inv, Ring, Payloads, Granting, NormalClock, FiredFirst, Monotone;
      ghost var s := Now();
      RegisterKeeps(clock, s, secs, usecs, handler, eloopData, userData);
      allocs := allocs + 1;
      if clock.refuses(allocs - 1) {
        return -1;
      }
      Granted(secs, usecs, handler, eloopData, userData, s);
      r := 0;
    }

    method Granted(secs: nat, usecs: nat, handler: int, eloopData: int, userData: int, ghost s: State)
      requires NormalClock(clock) && Ring(head, ring) && Now() == s.(allocs := s.allocs + 1)
      modifies this, head, ring
      ensures Ring(head, ring) && fresh(set n | n in ring && n !in old(ring))
      ensures Now() == Granting(clock, s, secs, usecs, handler, eloopData, userData)
    {
      hide Ring, Insert, Slot, Later, Payloads;
      var now := GetReltime();
      var due := After(now, secs, usecs);
      var timeout := new Timeout(due, handler, eloopData, userData, nextId);
      assert Payloads(ring) == s.timers;
      Place(timeout);
      log := log + [Registered(Payload(timeout))];
      nextId := nextId + 1;
    }

    /** The loop of `eloop_register_timeout`: in front of the first timeout that is due later, or at the end. */
    method Place(timeout: Timeout)
      requires Ring(head, ring) && timeout != head && timeout !in ring
      modifies this`ring, head`next, head`prev, ring`next, ring`prev, timeout`next, timeout`prev
      ensures Ring(head, ring) && Payloads(ring) == Insert(old(Payloads(ring)), Payload(timeout))
      ensures forall n :: n in ring <==> n in old(ring) || n == timeout
    {
      hide Slot, Insert;
      ghost var ts := Payloads(ring);
      PayloadsAt(ring);
      var tmp := head.next;
      ghost var i := 0;
      while tmp != head
        invariant i <= |ring| && tmp == (if i < |ring| then ring[i] else head)
        invariant forall j :: 0 <= j < i ==> !Before(timeout.due, ts[j].due)
        decreases |ring| - i
      {
        if Before(timeout.due, tmp.due) {
          break;
        }
        tmp := tmp.next;
        i := i + 1;
      }
      SlotIs(ts, timeout.due, i);
      // behind the node before `tmp`; at the end of the loop that is dl_list_add_tail
      Link(tmp.prev, timeout, i);
    }

    method Link(list: Timeout, timeout: Timeout, ghost i: nat)
      requires Ring(head, ring) && timeout != head && timeout !in ring
      requires i <= |ring| && list == (if i == 0 then head else ring[i - 1])
      requires i == Slot(Payloads(ring), timeout.due)
      modifies this`ring, head`next, head`prev, ring`next, ring`prev, timeout`next, timeout`prev
      ensures Ring(head, ring) && Payloads(ring) == Insert(old(Payloads(ring)), Payload(timeout))
      ensures forall n :: n in ring <==> n in old(ring) || n == timeout
    {
      hide Slot, Ring, Insert, Payloads;
      ghost var ts := Payloads(ring);
      DlListAdd(list, timeout, head, ring, i);
      assert Payloads(ring) == ts;
      InsertPayloads(ring, timeout, i);
      ring := InsertAt(ring, i, timeout);
    }

    method After(now: Time, secs: nat, usecs: nat) returns (due: Time)
      requires Normal(now)
      ensures due == Later(now, secs, usecs)
    {
      var sec, usec := now.sec + secs, now.usec + usecs;
      while usec >= MICROS
        invariant usec >= 0 && sec * MICROS + usec == Micros(now) + secs * MICROS + usecs
      {
        sec := sec + 1;
        usec := usec - MICROS;
      }
      due := Time(sec, usec);
      BeforeMicros(due, Later(now, secs, usecs));
    }

    /** `eloop_remove_timeout` on the timeout at place `i`. */
    method RemoveTimeout(timeout: Timeout, ghost i: nat)
      requires Ring(head, ring) && i < |ring| && timeout == ring[i]
      modifies this`ring, head`next, head`prev, ring`next, ring`prev
      ensures Ring(head, ring) && ring == RemoveAt(old(ring), i)
      ensures forall n :: n in ring ==> n in old(ring)
    {
      hide Ring;
      DlListDel(timeout, head, ring, i);
      RemovedMembers(ring, i);
      ring := RemoveAt(ring, i);
    }

    /** `eloop_cancel_timeout`: the link to the next timeout is read before the current one may go. */
    method Cancel(handler: int, eloopData: int, userData: int) returns (removed: int)
      requires Valid()
      modifies this`ring, this`log, head`next, head`prev, ring`next, ring`prev
      ensures Valid() && Now() == EloopTimers.Cancel(old(Now()), handler, eloopData, userData)
      ensures removed == |Select(old(Now()).timers, false, handler, eloopData, userData)|
      ensures forall n :: n in ring ==> n in old(ring)
    {
      ghost var s := Now();
      CancelKeeps(clock, s, handler, eloopData, userData);
      hide Inv, Ring, Payloads, NormalClock, Select, Cancellations, FiredFirst, Monotone;
      removed := CancelMatching(handler, eloopData, userData, s);
    }

    method CancelMatching(handler: int, eloopData: int, userData: int, ghost s: State) returns (removed: int)
      requires Ring(head, ring) && Payloads(ring) == s.timers && log == s.log
      modifies this`ring, this`log, head`next, head`prev, ring`next, ring`prev
      ensures Ring(head, ring) && Payloads(ring) == Select(s.timers, true, handler, eloopData, userData)
      ensures log == s.log + Cancellations(Select(s.timers, false, handler, eloopData, userData))
      ensures removed == |Select(s.timers, false, handler, eloopData, userData)|
      ensures forall n :: n in ring ==> n in old(ring)
    {
      hide Ring, Payloads, Select, Cancellations;
      ghost var all := ring;
      RingNext(head, ring, 0);
      var timeout := head.next;
      var next := timeout.next;
      removed := 0;
      ghost var j: nat, kept: seq<Timeout> := 0, [];
      SelectNothing(s.timers, handler, eloopData, userData);
      while timeout != head
        invariant j <= |all| && ring == kept + all[j..] && Ring(head, ring)
        invariant timeout == if j < |all| then all[j] else head
        invariant j < |all| ==> next == if j + 1 < |all| then all[j + 1] else head
        invariant Payloads(kept) == Select(s.timers[..j], true, handler, eloopData, userData)
        invariant log == s.log + Cancellations(Select(s.timers[..j], false, handler, eloopData, userData))
        invariant removed == |Select(s.timers[..j], false, handler, eloopData, userData)|
        invariant head !in all && forall n :: n in ring ==> n in old(ring)
        decreases |all| - j
      {
        assert forall i :: 0 <= i < |ring| ==> ring[i] in old(ring);
        j, kept, removed := CancelStep(timeout, handler, eloopData, userData, removed, all, s, j, kept);
        RingNext(head, ring, |kept|);
        timeout := next;
        next := next.next;
      }
      assert s.timers[..j] == s.timers && kept + [] == kept;
    }

    method CancelStep(timeout: Timeout, handler: int, eloopData: int, userData: int, removed: int,
                      ghost all: seq<Timeout>, ghost s: State, ghost j: nat, ghost kept: seq<Timeout>)
      returns (ghost j': nat, ghost kept': seq<Timeout>, removed': int)
      requires Ring(head, ring) && j < |all| && ring == kept + all[j..] && Payloads(all) == s.timers &&
        timeout == all[j]
      requires Payloads(kept) == Select(s.timers[..j], true, handler, eloopData, userData)
      requires log == s.log + Cancellations(Select(s.timers[..j], false, handler, eloopData, userData))
      requires removed == |Select(s.timers[..j], false, handler, eloopData, userData)|
      modifies this`ring, this`log, head`next, head`prev, ring`next, ring`prev
      ensures j' == j + 1 && Ring(head, ring) && ring == kept' + all[j'..]
      ensures Payloads(kept') == Select(s.timers[..j'], true, handler, eloopData, userData)
      ensures log == s.log + Cancellations(Select(s.timers[..j'], false, handler, eloopData, userData))
      ensures removed' == |Select(s.timers[..j'], false, handler, eloopData, userData)|
      ensures forall n :: n in ring ==> n in old(ring)
    {
      hide Ring, Payloads, Select, Cancellations, Matches;
      SelectSnoc(s.timers, j, true, handler, eloopData, userData);
      SelectSnoc(s.timers, j, false, handler, eloopData, userData);
      CancellationsSnoc(Select(s.timers[..j], false, handler, eloopData, userData), s.timers[j]);
      PayloadAt(all, j);
      j', kept', removed' := j + 1, kept, removed;
      assert ring[|kept|] == timeout;
      if Meets(timeout, handler, eloopData, userData) {
        RemoveTimeout(timeout, |kept|);
        assert ring == kept + all[j + 1..];
        ghost var before := Cancellations(Select(s.timers[..j], false, handler, eloopData, userData));
        log := log + [Cancelled(s.timers[j])];
        assert s.log + before + [Cancelled(s.timers[j])] == s.log + (before + [Cancelled(s.timers[j])]);
        removed' := removed + 1;
      } else {
        PayloadsSnoc(kept, timeout);
        kept' := kept + [timeout];
      }
    }

    /** The condition under which `eloop_cancel_timeout` removes a timeout. */
    predicate Meets(timeout: Timeout, handler: int, eloopData: int, userData: int)
      reads timeout
      ensures Meets(timeout, handler, eloopData, userData) == Matches(Payload(timeout), handler, eloopData, userData)
    {
      && timeout.handler == handler
      && (timeout.eloopData == eloopData || eloopData == ALL_CTX)
      && (timeout.userData == userData || userData == ALL_CTX)
    }

    /** The search loop of the functions below: the first timeout with exactly these contexts, or the head. */
    method Find(handler: int, eloopData: int, userData: int) returns (tmp: Timeout, ghost k: nat)
      requires Ring(head, ring)
      ensures k == First(Payloads(ring), handler, eloopData, userData)
      ensures tmp == if k < |ring| then ring[k] else head
    {
      hide First;
      PayloadsAt(ring);
      tmp, k := head.next, 0;
      while tmp != head
        invariant k <= |ring| && tmp == (if k < |ring| then ring[k] else head)
        invariant forall j :: 0 <= j < k ==> !Exactly(Payload(ring[j]), handler, eloopData, userData)
        decreases |ring| - k
      {
        if tmp.handler == handler && tmp.eloopData == eloopData && tmp.userData == userData {
          break;
        }
        tmp := tmp.next;
        k := k + 1;
      }
      FirstIs(Payloads(ring), handler, eloopData, userData, k);
    }

    /** `eloop_is_timeout_registered` */
    method IsRegistered(handler: int, eloopData: int, userData: int) returns (r: bool)
      requires Valid()
      ensures r <==> exists t :: t in Now().timers && Exactly(t, handler, eloopData, userData)
    {
      hide Inv, Ring, Payloads, NormalClock;
      var tmp; ghost var k;
      tmp, k := Find(handler, eloopData, userData);
      RingNext(head, ring, k);
      r := tmp != head;
      assert r ==> Now().timers[k] in Now().timers;
      assert forall t :: t in Now().timers ==> exists i :: 0 <= i < |Now().timers| && Now().timers[i] == t;
    }

    /** The time left until `due`, zero when it has passed. */
    static function Left(now: Time, due: Time): (left: Time)
      requires Normal(now) && Normal(due)
      ensures Normal(left) && Micros(left) == if Micros(now) < Micros(due) then Micros(due) - Micros(now) else 0
    {
      BeforeMicros(now, due);
      if Before(now, due) then Difference(due, now) else Time(0, 0)
    }

    /** The timeout at place `k` leaves the ring and the log says why. */
    method TakeOut(timeout: Timeout, ghost k: nat, ghost why: Event)
      requires Ring(head, ring) && k < |ring| && timeout == ring[k]
      modifies this`ring, this`log, head`next, head`prev, ring`next, ring`prev
      ensures Ring(head, ring) && log == old(log) + [why]
      ensures Payloads(ring) == old(Payloads(ring))[..k] + old(Payloads(ring))[k + 1..]
      ensures forall n :: n in ring ==> n in old(ring)
    {
      hide Ring, Payloads;
      PayloadsSplit(ring, k);
      PayloadsSplit(ring, k + 1);
      PayloadsConcat(ring[..k], ring[k + 1..]);
      RemoveTimeout(timeout, k);
      log := log + [why];
    }

    /** `eloop_cancel_timeout_one` */
    method CancelOne(handler: int, eloopData: int, userData: int) returns (removed: int, remaining: Time)
      requires Valid()
      modifies this`ticks, this`ring, this`log, head`next, head`prev, ring`next, ring`prev
      ensures Valid() && Now() == EloopTimers.CancelOne(old(Now()), handler, eloopData, userData)
      ensures forall n :: n in ring ==> n in old(ring)
      ensures var s := old(Now()); var k := First(s.timers, handler, eloopData, userData);
              if k == |s.timers| then removed == 0 && remaining == Time(0, 0)
              else
                && removed == 1 && Normal(s.timers[k].due) && Normal(Reading(clock, s.ticks))
                && remaining == Left(Reading(clock, s.ticks), s.timers[k].due)
    {
      ghost var s := Now();
      hide Inv, Ring, Payloads, First, FiredFirst, Monotone, Before;
      CancelOneKeeps(clock, s, handler, eloopData, userData);
      InvOrdered(s);
      var now := GetReltime();
      remaining, removed := Time(0, 0), 0;
      var timeout; ghost var k;
      timeout, k := Find(handler, eloopData, userData);
      RingNext(head, ring, k);
      if timeout != head {
        PayloadAt(ring, k);
        assert s.timers[k] in s.timers;
        removed := 1;
        if Before(now, timeout.due) {
          remaining := Sub(timeout.due, now);
        }
        TakeOut(timeout, k, Cancelled(s.timers[k]));
      }
    }

    /** `eloop_deplete_timeout` and `eloop_replenish_timeout`, which differ in the direction of one comparison. */
    method Adjust(secs: nat, usecs: nat, handler: int, eloopData: int, userData: int, deplete: bool) returns (r: int)
      requires Valid()
      modifies this, head, ring
      ensures Valid() && Now() == EloopTimers.Adjust(clock, old(Now()), secs, usecs, handler, eloopData, userData,
        deplete)
      ensures r == AdjustResult(clock, old(Now()), secs, usecs, handler, eloopData, userData, deplete)
      ensures fresh(set n | n in ring && n !in old(ring))
    {
      ghost var s, before := Now(), ring;
      hide Inv, Ring, Payloads, First, EloopTimers.Register, EloopTimers.Cancel, FiredFirst, Monotone, NormalClock;
      InvOrdered(s);
      TickKeeps(clock, s);
      var tmp; ghost var k;
      tmp, k := Find(handler, eloopData, userData);
      RingNext(head, ring, k);
      if tmp == head {
        return -1;
      }
      PayloadAt(ring, k);
      assert s.timers[k] in s.timers;
      assert Normal(Reading(clock, s.ticks)) by {
        ReadingNormal(clock, s.ticks);
      }
      var requested := Time(secs, usecs);
      var now := GetReltime();
      var remaining := Sub(tmp.due, now);
      r := 0;
      if (if deplete then Before(requested, remaining) else Before(remaining, requested)) {
        var _ := Cancel(handler, eloopData, userData);
        assert forall i :: 0 <= i < |ring| ==> ring[i] in before;
        var _ := Register(secs, usecs, handler, eloopData, userData);
        r := 1;
      }
    }

    /** The part of a turn of `eloop_run` that looks at the first timeout and takes it out when it is due. */
    method Expire() returns (due: bool, handler: int, eloopData: int, userData: int)
      requires Valid()
      modifies this`ticks, this`ring, this`log, head`next, head`prev, ring`next, ring`prev
      ensures Valid() && Now() == EloopTimers.Expire(clock, old(Now()))
      ensures forall n :: n in ring ==> n in old(ring)
      ensures var ts := old(Now()).timers;
              && (due <==> ts != [] && !Before(Reading(clock, old(ticks)), ts[0].due))
              && (due ==> handler == ts[0].handler && eloopData == ts[0].eloopData && userData == ts[0].userData)
    {
      ghost var s := Now();
      hide Inv, Ring, Payloads, FiredFirst, Monotone, Before, NormalClock;
      ExpireKeeps(clock, s);
      RingNext(head, ring, 0);
      due, handler, eloopData, userData := false, 0, 0, 0;
      var timeout := head.next;
      if timeout != head {
        PayloadAt(ring, 0);
        var now := GetReltime();
        if !Before(now, timeout.due) {
          due, handler, eloopData, userData := true, timeout.handler, timeout.eloopData, timeout.userData;
          TakeOut(timeout, 0, Fired(s.timers[0], now, s.timers[1..]));
          assert s.timers[..0] + s.timers[1..] == s.timers[1..];
        }
      }
    }

    /**
      The other look at the first timeout in a turn of `eloop_run`: how long `select` may wait, if it may not wait for
      ever.
      */
    method WaitTime() returns (limited: bool, wait: Time)
      requires Valid()
      modifies this`ticks
      ensures Valid() && Now() == if old(ring) == [] then old(Now()) else Tick(old(Now()))
      ensures limited <==> ring != []
      ensures limited ==>
        var t := old(Now()).timers[0]; var now := Reading(clock, old(ticks));
        Normal(t.due) && Normal(now) && wait == Left(now, t.due)
    {
      ghost var s := Now();
      hide Inv, Ring, Payloads, FiredFirst, Monotone, NormalClock;
      TickKeeps(clock, s);
      InvOrdered(s);
      RingNext(head, ring, 0);
      limited, wait := false, Time(0, 0);
      var timeout := head.next;
      if timeout != head {
        PayloadAt(ring, 0);
        assert s.timers[0] in s.timers;
        ReadingNormal(clock, ticks);
        var now := GetReltime();
        limited := true;
        BeforeMicros(now, timeout.due);
        if Before(now, timeout.due) {
          wait := Sub(timeout.due, now);
        }
      }
    }
  }
}
