/**
  The timers of the wpa_supplicant event loop as a function of the operations applied to them:
  registration, cancellation, depletion, replenishment and expiry, with the history they leave.
  */
module EloopTimers {
  const MICROS: int := 1000000

  /** `struct os_reltime` */
  datatype Time = Time(sec: int, usec: int)

  predicate Normal(t: Time) {
    0 <= t.usec < MICROS
  }

  /** `os_reltime_before` */
  predicate Before(a: Time, b: Time) {
    a.sec < b.sec || (a.sec == b.sec && a.usec < b.usec)
  }

  function Micros(t: Time): int {
    t.sec * MICROS + t.usec
  }

  /** The time `secs` seconds and `usecs` microseconds after `now`. */
  function Later(now: Time, secs: nat, usecs: nat): (t: Time)
    ensures Normal(t) && Micros(t) == Micros(now) + secs * MICROS + usecs
  {
    var u := now.usec + usecs;
    Time(now.sec + secs + u / MICROS, u % MICROS)
  }

  /** On normalised times the order is that of the microseconds. */
  lemma BeforeMicros(a: Time, b: Time)
    requires Normal(a) && Normal(b)
    ensures Before(a, b) <==> Micros(a) < Micros(b)
    ensures a == b <==> Micros(a) == Micros(b)
  {}

  /** `os_reltime_sub`: one borrow is enough when both times are normalised. */
  method Sub(a: Time, b: Time) returns (res: Time)
    requires Normal(a) && Normal(b)
    ensures Normal(res) && Micros(res) == Micros(a) - Micros(b)
    ensures res == Difference(a, b)
  {
    var sec, usec := a.sec - b.sec, a.usec - b.usec;
    if usec < 0 {
      sec := sec - 1;
      usec := usec + MICROS;
    }
    res := Time(sec, usec);
  }

  /** The difference, normalised when both times are. */
  function Difference(a: Time, b: Time): (d: Time)
    ensures Normal(a) && Normal(b) ==> Normal(d)
    ensures Micros(d) == Micros(a) - Micros(b)
  {
    if a.usec < b.usec then Time(a.sec - b.sec - 1, a.usec - b.usec + MICROS) else Time(a.sec - b.sec, a.usec - b.usec)
  }

  // ----- timers -----

  /** `id` counts registrations; it stands for the identity of the `struct eloop_timeout`. */
  datatype Timer = Timer(id: nat, due: Time, handler: int, eloopData: int, userData: int)

  /** `ELOOP_ALL_CTX` */
  const ALL_CTX: int := -1

  predicate Matches(t: Timer, handler: int, eloopData: int, userData: int) {
    && t.handler == handler
    && (t.eloopData == eloopData || eloopData == ALL_CTX)
    && (t.userData == userData || userData == ALL_CTX)
  }

  predicate Exactly(t: Timer, handler: int, eloopData: int, userData: int) {
    t.handler == handler && t.eloopData == eloopData && t.userData == userData
  }

  /** By deadline, and in the order of registration among equal deadlines. */
  predicate Earlier(a: Timer, b: Timer) {
    Before(a.due, b.due) || (a.due == b.due && a.id < b.id)
  }

  predicate Ordered(ts: seq<Timer>) {
    forall i, j :: 0 <= i < j < |ts| ==> Earlier(ts[i], ts[j])
  }

  /** How many timers stay in front of a new one. */
  function Slot(ts: seq<Timer>, due: Time): (k: nat)
    ensures k <= |ts|
    ensures forall i :: 0 <= i < k ==> !Before(due, ts[i].due)
    ensures k < |ts| ==> Before(due, ts[k].due)
  {
    if ts == [] || Before(due, ts[0].due) then 0 else 1 + Slot(ts[1..], due)
  }

  function Insert(ts: seq<Timer>, t: Timer): seq<Timer> {
    var k := Slot(ts, t.due);
    ts[..k] + [t] + ts[k..]
  }

  /** The timers that `eloop_cancel_timeout` leaves (`keep`) or removes. */
  function Select(ts: seq<Timer>, keep: bool, handler: int, eloopData: int, userData: int): seq<Timer> {
    if ts == [] then []
    else (if Matches(ts[0], handler, eloopData, userData) != keep then [ts[0]] else []) +
         Select(ts[1..], keep, handler, eloopData, userData)
  }

  /** The first timer with exactly this handler and these contexts; `|ts|` if there is none. */
  function First(ts: seq<Timer>, handler: int, eloopData: int, userData: int): (k: nat)
    ensures k <= |ts|
    ensures forall i :: 0 <= i < k ==> !Exactly(ts[i], handler, eloopData, userData)
    ensures k < |ts| ==> Exactly(ts[k], handler, eloopData, userData)
  {
    if ts == [] || Exactly(ts[0], handler, eloopData, userData) then 0
      else 1 + First(ts[1..], handler, eloopData, userData)
  }

  // ----- operations -----

  /** What the environment decides: clock readings and refused allocations, each in the order of asking. */
  datatype Clock = Clock(now: nat -> Time, refuses: nat -> bool)

  datatype Event =
    | Registered(timer: Timer)
    | Cancelled(timer: Timer)
    | Fired(timer: Timer, now: Time, pending: seq<Timer>)

  function Reading(c: Clock, i: nat): Time {
    c.now(i)
  }

  predicate Refused(c: Clock, i: nat) {
    c.refuses(i)
  }

  datatype State = State(timers: seq<Timer>, ticks: nat, allocs: nat, nextId: nat, log: seq<Event>)

  ghost predicate NormalClock(c: Clock) {
    forall i: nat :: Normal(Reading(c, i))
  }

  /** Later readings are never before earlier ones. */
  ghost predicate Monotone(c: Clock) {
    NormalClock(c) && forall i: nat, j: nat :: i <= j ==> !Before(Reading(c, j), Reading(c, i))
  }

  const START: State := State([], 0, 0, 0, [])

  /** `eloop_register_timeout` */
  function Register(c: Clock, s: State, secs: nat, usecs: nat, handler: int, eloopData: int, userData: int): State
  {
    if Refused(c, s.allocs) then s.(allocs := s.allocs + 1)
    else Granting(c, s, secs, usecs, handler, eloopData, userData)
  }

  function Granting(c: Clock, s: State, secs: nat, usecs: nat, handler: int, eloopData: int, userData: int): State
  {
    var t := Timer(s.nextId, Later(Reading(c, s.ticks), secs, usecs), handler, eloopData, userData);
    State(Insert(s.timers, t), s.ticks + 1, s.allocs + 1, s.nextId + 1, s.log + [Registered(t)])
  }

  function Cancellations(ts: seq<Timer>): seq<Event> {
    if ts == [] then [] else [Cancelled(ts[0])] + Cancellations(ts[1..])
  }

  /** `eloop_cancel_timeout` */
  function Cancel(s: State, handler: int, eloopData: int, userData: int): State {
    s.(timers := Select(s.timers, true, handler, eloopData, userData),
       log := s.log + Cancellations(Select(s.timers, false, handler, eloopData, userData)))
  }

  /** `eloop_cancel_timeout_one` */
  function CancelOne(s: State, handler: int, eloopData: int, userData: int): State {
    var k := First(s.timers, handler, eloopData, userData);
    if k == |s.timers| then s.(ticks := s.ticks + 1)
    else s.(timers := s.timers[..k] + s.timers[k + 1..], ticks := s.ticks + 1, log := s.log + [Cancelled(s.timers[k])])
  }

  /** Whether `eloop_deplete_timeout` (or `eloop_replenish_timeout`) replaces the k-th timer. */
  predicate Replaces(c: Clock, s: State, k: nat, secs: nat, usecs: nat, deplete: bool)
    requires k < |s.timers|
  {
    var remaining := Difference(s.timers[k].due, Reading(c, s.ticks));
    if deplete then Before(Time(secs, usecs), remaining) else Before(remaining, Time(secs, usecs))
  }

  predicate AllNormal(ts: seq<Timer>) {
    forall t :: t in ts ==> Normal(t.due)
  }

  /** `os_get_reltime` whose result is not stored. */
  function Tick(s: State): State {
    s.(ticks := s.ticks + 1)
  }

  /** `eloop_deplete_timeout` and `eloop_replenish_timeout` */
  function Adjust(c: Clock, s: State, secs: nat, usecs: nat, handler: int, eloopData: int, userData: int,
                  deplete: bool): State
  {
    var k := First(s.timers, handler, eloopData, userData);
    if k == |s.timers| then s
    else
      if Replaces(c, s, k, secs, usecs, deplete) then
        Register(c, Cancel(Tick(s), handler, eloopData, userData), secs, usecs, handler, eloopData, userData)
      else Tick(s)
  }

  /** One look at the first timer, as once per turn of `eloop_run`: it is removed when it is due. */
  function Expire(c: Clock, s: State): State {
    if s.timers == [] then s
    else
      var now := Reading(c, s.ticks);
      if Before(now, s.timers[0].due) then s.(ticks := s.ticks + 1)
      else s.(timers := s.timers[1..], ticks := s.ticks + 1, log := s.log + [Fired(s.timers[0], now, s.timers[1..])])
  }

  // ----- what every operation keeps -----

  function Ids(ts: seq<Timer>): multiset<nat> {
    if ts == [] then multiset{} else multiset{ts[0].id} + Ids(ts[1..])
  }

  function EndOf(e: Event): multiset<nat> {
    if e.Registered? then multiset{} else multiset{e.timer.id}
  }

  /** The timers that are over: fired or cancelled. */
  function Ended(log: seq<Event>): multiset<nat> {
    if log == [] then multiset{} else EndOf(log[0]) + Ended(log[1..])
  }

  /** Each of the first `n` registration numbers once. */
  function Issued(n: nat): (m: multiset<nat>)
    ensures forall i: nat :: m[i] == if i < n then 1 else 0
  {
    if n == 0 then multiset{} else Issued(n - 1) + multiset{n - 1}
  }

  /** registered = pending + fired + cancelled, each registration counted once */
  predicate Balanced(s: State) {
    Ids(s.timers) + Ended(s.log) == Issued(s.nextId)
  }

  /** The log starts every timer's history with its registration. */
  predicate AllRegistered(s: State) {
    && (forall t :: t in s.timers ==> Registered(t) in s.log && t.id < s.nextId)
    && (forall e :: e in s.log ==> Registered(e.timer) in s.log && e.timer.id < s.nextId && Normal(e.timer.due))
  }

  /** No timer fired early or while an earlier one was pending. */
  predicate FiredInTime(log: seq<Event>) {
    forall e :: e in log && e.Fired? ==>
      !Before(e.now, e.timer.due) && forall t :: t in e.pending ==> Earlier(e.timer, t)
  }

  predicate Inv(s: State) {
    Ordered(s.timers) && AllNormal(s.timers) && AllRegistered(s) && Balanced(s) && FiredInTime(s.log)
  }

  /** Timers fired in the order of deadline and registration. */
  predicate FiredInOrder(log: seq<Event>) {
    forall i, j :: 0 <= i < j < |log| && log[i].Fired? && log[j].Fired? ==> Earlier(log[i].timer, log[j].timer)
  }

  /** Everything that fired precedes all that is pending and was due at the next reading. */
  ghost predicate FiredFirst(c: Clock, s: State) {
    && FiredInOrder(s.log)
    && (forall e, t :: e in s.log && e.Fired? && t in s.timers ==> Earlier(e.timer, t))
    && (forall e :: e in s.log && e.Fired? ==> !Before(Reading(c, s.ticks), e.timer.due))
  }

  // ----- counting -----

  lemma {:induction false} IdsConcat(a: seq<Timer>, b: seq<Timer>)
    ensures Ids(a + b) == Ids(a) + Ids(b)
    decreases |a|
  {
    if a == [] {
      assert a + b == b;
    } else {
      assert (a + b)[1..] == a[1..] + b;
      IdsConcat(a[1..], b);
    }
  }

  lemma IdsOne(t: Timer)
    ensures Ids([t]) == multiset{t.id}
  {
    assert [t][1..] == [];
  }

  /** Taking one timer out, or putting it in, changes the count by one. */
  lemma IdsAround(a: seq<Timer>, t: Timer, b: seq<Timer>)
    ensures Ids(a + [t] + b) == Ids(a + b) + multiset{t.id}
  {
    IdsConcat(a + [t], b);
    IdsConcat(a, [t]);
    IdsConcat(a, b);
    IdsOne(t);
  }

  lemma {:induction false} EndedConcat(a: seq<Event>, b: seq<Event>)
    ensures Ended(a + b) == Ended(a) + Ended(b)
    decreases |a|
  {
    if a == [] {
      assert a + b == b;
    } else {
      assert (a + b)[1..] == a[1..] + b;
      EndedConcat(a[1..], b);
    }
  }

  lemma EndedSnoc(log: seq<Event>, e: Event)
    ensures Ended(log + [e]) == Ended(log) + EndOf(e)
  {
    EndedConcat(log, [e]);
    assert [e][1..] == [];
  }

  lemma {:induction false} EndedCancellations(ts: seq<Timer>)
    ensures Ended(Cancellations(ts)) == Ids(ts)
    ensures forall e :: e in Cancellations(ts) ==> e.Cancelled? && e.timer in ts
    decreases |ts|
  {
    if ts != [] {
      var r := Cancellations(ts);
      EndedCancellations(ts[1..]);
      assert r[0] == Cancelled(ts[0]) && r[1..] == Cancellations(ts[1..]);
      forall e | e in r ensures e.Cancelled? && e.timer in ts {
        assert e == r[0] || e in r[1..];
      }
    }
  }

  // ----- selection and insertion -----

  lemma {:induction false} SelectMembers(ts: seq<Timer>, keep: bool, h: int, e: int, u: int)
    ensures forall t :: t in Select(ts, keep, h, e, u) <==> t in ts && Matches(t, h, e, u) != keep
    decreases |ts|
  {
    if ts != [] {
      hide Matches;
      SelectMembers(ts[1..], keep, h, e, u);
      assert forall t :: t in ts <==> t == ts[0] || t in ts[1..];
    }
  }

  lemma {:induction false} SelectOrdered(ts: seq<Timer>, keep: bool, h: int, e: int, u: int)
    requires Ordered(ts)
    ensures Ordered(Select(ts, keep, h, e, u))
    decreases |ts|
  {
    if ts != [] {
      hide Matches, Earlier;
      SelectOrdered(ts[1..], keep, h, e, u);
      SelectMembers(ts[1..], keep, h, e, u);
      var rest := Select(ts[1..], keep, h, e, u);
      forall t | t in rest ensures Earlier(ts[0], t) {
        var i :| 0 <= i < |ts[1..]| && ts[1..][i] == t;
        assert ts[i + 1] == t;
      }
    }
  }

  lemma {:induction false} SelectSplits(ts: seq<Timer>, h: int, e: int, u: int)
    ensures Ids(Select(ts, true, h, e, u)) + Ids(Select(ts, false, h, e, u)) == Ids(ts)
    decreases |ts|
  {
    if ts != [] {
      hide Matches;
      SelectSplits(ts[1..], h, e, u);
      SelectStep(ts, true, h, e, u);
      SelectStep(ts, false, h, e, u);
    }
  }

  lemma SelectStep(ts: seq<Timer>, keep: bool, h: int, e: int, u: int)
    requires ts != []
    ensures Ids(Select(ts, keep, h, e, u)) ==
            (if Matches(ts[0], h, e, u) != keep then multiset{ts[0].id} else multiset{}) +
              Ids(Select(ts[1..], keep, h, e, u))
  {
    hide Matches;
    var head := if Matches(ts[0], h, e, u) != keep then [ts[0]] else [];
    IdsConcat(head, Select(ts[1..], keep, h, e, u));
    IdsOne(ts[0]);
  }

  lemma InsertMembers(ts: seq<Timer>, t: Timer)
    ensures forall x :: x in Insert(ts, t) <==> x in ts || x == t
    ensures Ids(Insert(ts, t)) == Ids(ts) + multiset{t.id}
  {
    var k := Slot(ts, t.due);
    assert ts[..k] + ts[k..] == ts;
    IdsAround(ts[..k], t, ts[k..]);
    forall x ensures x in Insert(ts, t) <==> x in ts || x == t {
      assert x in ts <==> x in ts[..k] || x in ts[k..];
    }
  }

  /** A new timer goes behind all that are due no later, so it follows them in every respect. */
  lemma InsertOrdered(ts: seq<Timer>, t: Timer)
    requires Ordered(ts) && AllNormal(ts) && Normal(t.due) && forall x :: x in ts ==> x.id < t.id
    ensures Ordered(Insert(ts, t))
  {
    var k := Slot(ts, t.due);
    var r := Insert(ts, t);
    forall i, j | 0 <= i < j < |r| ensures Earlier(r[i], r[j]) {
      assert i < k ==> r[i] == ts[i];
      assert i > k ==> r[i] == ts[i - 1];
      assert j < k ==> r[j] == ts[j];
      assert j > k ==> r[j] == ts[j - 1];
      if j == k {
        assert ts[i] in ts;
      } else if i == k {
        assert j - 1 > k ==> Earlier(ts[k], ts[j - 1]);
      }
    }
  }

  // ----- what every operation keeps -----

  /** Timers leave the queue, each with an entry in the log. */
  lemma DropKeeps(s: State, r: State, events: seq<Event>)
    requires Inv(s)
    requires r.log == s.log + events && r.nextId == s.nextId
    requires Ordered(r.timers) && forall t :: t in r.timers ==> t in s.timers
    requires forall e :: e in events ==> !e.Registered? && e.timer in s.timers
    requires FiredInTime(events)
    requires Ids(r.timers) + Ended(events) == Ids(s.timers)
    ensures Inv(r)
  {
    hide Ordered, Ids, Ended, Earlier;
    assert forall e :: e in r.log <==> e in s.log || e in events;
    EndedConcat(s.log, events);
  }

  lemma DropKeepsOrder(c: Clock, s: State, r: State, events: seq<Event>)
    requires Inv(s) && Monotone(c) && FiredFirst(c, s)
    requires r.log == s.log + events && s.ticks <= r.ticks
    requires forall t :: t in r.timers ==> t in s.timers
    requires forall e :: e in events ==> !e.Fired?
    ensures FiredFirst(c, r)
  {
    hide Ordered, Balanced, FiredInTime, Earlier;
    assert forall e :: e in r.log <==> e in s.log || e in events;
    assert forall i :: |s.log| <= i < |r.log| ==> r.log[i] in events;
    forall e | e in r.log && e.Fired? ensures !Before(Reading(c, r.ticks), e.timer.due) {
      assert e in s.log && Normal(e.timer.due);
      assert !Before(Reading(c, r.ticks), Reading(c, s.ticks));
    }
  }

  lemma InvOrdered(s: State)
    requires Inv(s)
    ensures Ordered(s.timers) && AllNormal(s.timers)
  {}

  lemma InvOlder(s: State)
    requires Inv(s)
    ensures forall t :: t in s.timers ==> t.id < s.nextId
  {}

  /** What a granted registration changes. */
  lemma GrantingFacts(c: Clock, s: State, secs: nat, usecs: nat, h: int, e: int, u: int)
    requires NormalClock(c) && Inv(s)
    ensures var t := Timer(s.nextId, Later(Reading(c, s.ticks), secs, usecs), h, e, u);
            var r := Granting(c, s, secs, usecs, h, e, u);
            && Ordered(r.timers) && (forall x :: x in r.timers <==> x in s.timers || x == t)
            && Ids(r.timers) == Ids(s.timers) + multiset{t.id} && Ended(r.log) == Ended(s.log)
            && !Before(t.due, Reading(c, s.ticks))
  {
    var t := Timer(s.nextId, Later(Reading(c, s.ticks), secs, usecs), h, e, u);
    InvOrdered(s);
    InvOlder(s);
    hide Inv, Ordered, AllNormal, Ids, Ended, Insert;
    InsertOrdered(s.timers, t);
    InsertMembers(s.timers, t);
    EndedSnoc(s.log, Registered(t));
    BeforeMicros(Reading(c, s.ticks), t.due);
  }

  lemma RegisterKeeps(c: Clock, s: State, secs: nat, usecs: nat, h: int, e: int, u: int)
    requires NormalClock(c) && Inv(s)
    ensures Inv(Register(c, s, secs, usecs, h, e, u))
    ensures Monotone(c) && FiredFirst(c, s) ==> FiredFirst(c, Register(c, s, secs, usecs, h, e, u))
  {
    hide Inv, FiredFirst;
    if Refused(c, s.allocs) {
      RefusedKeeps(c, s);
    } else {
      var t := Timer(s.nextId, Later(Reading(c, s.ticks), secs, usecs), h, e, u);
      GrantingFacts(c, s, secs, usecs, h, e, u);
      hide Inv, FiredFirst, Monotone, Ordered, Ids, Ended, Insert, Before;
      RegisteredKeeps(s, Granting(c, s, secs, usecs, h, e, u), t);
      if Monotone(c) && FiredFirst(c, s) {
        RegisteredKeepsOrder(c, s, Granting(c, s, secs, usecs, h, e, u), t);
      }
    }
  }

  lemma RefusedKeeps(c: Clock, s: State)
    requires Inv(s)
    ensures Inv(s.(allocs := s.allocs + 1))
    ensures FiredFirst(c, s) ==> FiredFirst(c, s.(allocs := s.allocs + 1))
  {
    hide FiredInTime, FiredInOrder, Ids, Ended, Ordered;
  }

  lemma RegisteredKeeps(s: State, r: State, t: Timer)
    requires Inv(s) && t.id == s.nextId && Normal(t.due)
    requires r.log == s.log + [Registered(t)] && r.nextId == s.nextId + 1
    requires Ordered(r.timers) && forall x :: x in r.timers <==> x in s.timers || x == t
    requires Ids(r.timers) == Ids(s.timers) + multiset{t.id} && Ended(r.log) == Ended(s.log)
    ensures Inv(r)
  {
    hide Ordered, Ids, Ended, Earlier;
    assert forall e :: e in r.log <==> e in s.log || e == Registered(t);
    assert Issued(r.nextId) == Issued(s.nextId) + multiset{s.nextId};
  }

  /** A timer registered after others fired is due no earlier than they were. */
  lemma RegisteredKeepsOrder(c: Clock, s: State, r: State, t: Timer)
    requires Inv(s) && Monotone(c) && FiredFirst(c, s) && t.id == s.nextId && Normal(t.due)
    requires !Before(t.due, Reading(c, s.ticks)) && r.ticks == s.ticks + 1
    requires r.log == s.log + [Registered(t)] && forall x :: x in r.timers <==> x in s.timers || x == t
    ensures FiredFirst(c, r)
  {
    hide Ordered, Balanced, FiredInTime;
    assert forall e :: e in r.log <==> e in s.log || e == Registered(t);
    forall e | e in r.log && e.Fired?
      ensures Earlier(e.timer, t) && !Before(Reading(c, r.ticks), e.timer.due)
    {
      assert !Before(Reading(c, s.ticks), e.timer.due) && Normal(e.timer.due) && Normal(Reading(c, s.ticks));
      assert !Before(Reading(c, r.ticks), Reading(c, s.ticks)) && Normal(Reading(c, r.ticks));
    }
  }

  lemma CancelKeeps(c: Clock, s: State, h: int, e: int, u: int)
    requires Inv(s)
    ensures Inv(Cancel(s, h, e, u))
    ensures Monotone(c) && FiredFirst(c, s) ==> FiredFirst(c, Cancel(s, h, e, u))
  {
    hide Select, Inv, FiredFirst, FiredInTime, Monotone, Ordered;
    var r := Cancel(s, h, e, u);
    var gone := Select(s.timers, false, h, e, u);
    var events := Cancellations(gone);
    SelectMembers(s.timers, true, h, e, u);
    SelectMembers(s.timers, false, h, e, u);
    SelectSplits(s.timers, h, e, u);
    EndedCancellations(gone);
    assert Ordered(r.timers) by {
      InvOrdered(s);
      SelectOrdered(s.timers, true, h, e, u);
    }
    QuietInTime(events);
    DropKeeps(s, r, events);
    if Monotone(c) && FiredFirst(c, s) {
      DropKeepsOrder(c, s, r, events);
    }
  }

  lemma QuietInTime(events: seq<Event>)
    requires forall e :: e in events ==> !e.Fired?
    ensures FiredInTime(events)
  {}

  lemma TickKeeps(c: Clock, s: State)
    requires Inv(s)
    ensures Inv(Tick(s))
    ensures Monotone(c) && FiredFirst(c, s) ==> FiredFirst(c, Tick(s))
  {
    if Monotone(c) && FiredFirst(c, s) {
      assert s.log + [] == s.log;
      DropKeepsOrder(c, s, Tick(s), []);
    }
  }

  lemma EarlierDiffers(ts: seq<Timer>, k: nat)
    requires k < |ts| && Ordered(ts)
    ensures forall i :: 0 <= i < |ts| && i != k ==> ts[i] != ts[k]
  {}

  /** The k-th timer leaves. */
  lemma RemovalFacts(ts: seq<Timer>, k: nat)
    requires k < |ts| && Ordered(ts)
    ensures var r := ts[..k] + ts[k + 1..];
            && Ordered(r) && (forall t :: t in r ==> t in ts && t != ts[k])
            && Ids(r) + multiset{ts[k].id} == Ids(ts)
    ensures forall t :: t in ts[k + 1..] ==> Earlier(ts[k], t)
  {
    hide Ids, Earlier;
    var r := ts[..k] + ts[k + 1..];
    assert ts == ts[..k] + [ts[k]] + ts[k + 1..];
    IdsAround(ts[..k], ts[k], ts[k + 1..]);
    EarlierDiffers(ts, k);
    assert forall i :: 0 <= i < |r| ==> r[i] == ts[if i < k then i else i + 1];
  }

  lemma CancelOneKeeps(c: Clock, s: State, h: int, e: int, u: int)
    requires Inv(s)
    ensures Inv(CancelOne(s, h, e, u))
    ensures Monotone(c) && FiredFirst(c, s) ==> FiredFirst(c, CancelOne(s, h, e, u))
  {
    hide Inv, FiredFirst, Monotone, Exactly;
    var k := First(s.timers, h, e, u);
    if k < |s.timers| {
      var r := CancelOne(s, h, e, u);
      assert r == s.(timers := s.timers[..k] + s.timers[k + 1..], ticks := s.ticks + 1,
        log := s.log + [Cancelled(s.timers[k])]);
      hide CancelOne, First;
      RemovalKeeps(c, s, k, r);
    } else {
      hide First;
      TickKeeps(c, s);
    }
  }

  /** The k-th timer is cancelled. */
  lemma RemovalKeeps(c: Clock, s: State, k: nat, r: State)
    requires Inv(s) && k < |s.timers|
    requires r == s.(timers := s.timers[..k] + s.timers[k + 1..], ticks := s.ticks + 1,
      log := s.log + [Cancelled(s.timers[k])])
    ensures Inv(r)
    ensures Monotone(c) && FiredFirst(c, s) ==> FiredFirst(c, r)
  {
    hide Inv, FiredFirst, FiredInTime, Monotone, Ordered, Before, AllNormal;
    var events := [Cancelled(s.timers[k])];
    InvOrdered(s);
    RemovalFacts(s.timers, k);
    EndedSnoc([], events[0]);
    assert [] + events == events;
    QuietInTime(events);
    DropKeeps(s, r, events);
    if Monotone(c) && FiredFirst(c, s) {
      DropKeepsOrder(c, s, r, events);
    }
  }

  lemma ExpireKeeps(c: Clock, s: State)
    requires Inv(s)
    ensures Inv(Expire(c, s))
    ensures Monotone(c) && FiredFirst(c, s) ==> FiredFirst(c, Expire(c, s))
  {
    hide Inv, FiredFirst, Monotone;
    if s.timers != [] && !Before(Reading(c, s.ticks), s.timers[0].due) {
      FiringKeeps(c, s);
      if Monotone(c) && FiredFirst(c, s) {
        ExpireKeepsOrder(c, s);
      }
    } else {
      hide Reading;
      TickKeeps(c, s);
    }
  }

  lemma FiringKeeps(c: Clock, s: State)
    requires Inv(s) && s.timers != [] && !Before(Reading(c, s.ticks), s.timers[0].due)
    ensures Inv(Expire(c, s))
  {
    hide Inv, Ordered, Ids, Before;
    var f := Fired(s.timers[0], Reading(c, s.ticks), s.timers[1..]);
    InvOrdered(s);
    RemovalFacts(s.timers, 0);
    assert s.timers[..0] + s.timers[0 + 1..] == s.timers[1..];
    EndedSnoc([], f);
    assert [] + [f] == [f];
    assert Ended([]) == multiset{};
    OneInTime(f);
    hide FiredInTime;
    DropKeeps(s, Expire(c, s), [f]);
  }

  lemma OneInTime(f: Event)
    requires f.Fired? && !Before(f.now, f.timer.due) && forall t :: t in f.pending ==> Earlier(f.timer, t)
    ensures FiredInTime([f])
  {}

  lemma ExpireKeepsOrder(c: Clock, s: State)
    requires Inv(s) && Monotone(c) && FiredFirst(c, s)
    requires s.timers != [] && !Before(Reading(c, s.ticks), s.timers[0].due)
    ensures FiredFirst(c, Expire(c, s))
  {
    hide Balanced, FiredInTime, Earlier;
    var t, r := s.timers[0], Expire(c, s);
    var f := Fired(t, Reading(c, s.ticks), s.timers[1..]);
    assert forall e :: e in r.log <==> e in s.log || e == f;
    assert forall x :: x in r.timers ==> x in s.timers && Earlier(t, x);
    assert t in s.timers;
    forall e | e in r.log && e.Fired? ensures !Before(Reading(c, r.ticks), e.timer.due) {
      assert !Before(Reading(c, s.ticks), e.timer.due) && Normal(e.timer.due);
      assert !Before(Reading(c, r.ticks), Reading(c, s.ticks));
    }
  }

  lemma AdjustKeeps(c: Clock, s: State, secs: nat, usecs: nat, h: int, e: int, u: int, deplete: bool)
    requires NormalClock(c) && Inv(s)
    ensures Inv(Adjust(c, s, secs, usecs, h, e, u, deplete))
    ensures Monotone(c) && FiredFirst(c, s) ==> FiredFirst(c, Adjust(c, s, secs, usecs, h, e, u, deplete))
  {
    hide Inv, FiredFirst, NormalClock, Cancel, Register, Replaces, First, Tick, AllNormal;
    InvOrdered(s);
    TickKeeps(c, s);
    CancelKeeps(c, Tick(s), h, e, u);
    RegisterKeeps(c, Cancel(Tick(s), h, e, u), secs, usecs, h, e, u);
  }

  // ----- depletion and replenishment -----

  function Min(a: Time, b: Time): Time {
    if Before(b, a) then b else a
  }

  function Max(a: Time, b: Time): Time {
    if Before(a, b) then b else a
  }

  /** What the two calls return: -1 when there is no such timer, 1 when it was replaced, 0 when it stays. */
  function AdjustResult(c: Clock, s: State, secs: nat, usecs: nat, h: int, e: int, u: int, deplete: bool): int
  {
    var k := First(s.timers, h, e, u);
    if k == |s.timers| then -1 else if Replaces(c, s, k, secs, usecs, deplete) then 1 else 0
  }

  lemma {:induction false} SelectConcat(a: seq<Timer>, b: seq<Timer>, keep: bool, h: int, e: int, u: int)
    ensures Select(a + b, keep, h, e, u) == Select(a, keep, h, e, u) + Select(b, keep, h, e, u)
    decreases |a|
  {
    hide Matches;
    if a == [] {
      assert a + b == b;
    } else {
      assert (a + b)[1..] == a[1..] + b;
      SelectConcat(a[1..], b, keep, h, e, u);
      var head := if Matches(a[0], h, e, u) != keep then [a[0]] else [];
      var x, y := Select(a[1..], keep, h, e, u), Select(b, keep, h, e, u);
      assert head + (x + y) == head + x + y;
    }
  }

  lemma {:induction false} SelectAll(ts: seq<Timer>, h: int, e: int, u: int)
    requires forall t :: t in ts ==> !Matches(t, h, e, u)
    ensures Select(ts, true, h, e, u) == ts
    decreases |ts|
  {
    if ts != [] {
      assert ts[0] in ts;
      SelectAll(ts[1..], h, e, u);
    }
  }

  lemma {:induction false} SelectAllMatch(ts: seq<Timer>, h: int, e: int, u: int)
    requires forall t :: t in ts ==> Matches(t, h, e, u)
    ensures Select(ts, true, h, e, u) == []
    decreases |ts|
  {
    if ts != [] {
      assert ts[0] in ts;
      SelectAllMatch(ts[1..], h, e, u);
    }
  }

  /** A matching timer among timers that do not match is the first match. */
  lemma MatchAmongOthers(ts: seq<Timer>, t: Timer, h: int, e: int, u: int)
    requires Exactly(t, h, e, u) && forall x :: x in ts ==> !Matches(x, h, e, u)
    ensures var r := Insert(ts, t); var f := First(r, h, e, u); f < |r| && r[f] == t
  {
    var k := Slot(ts, t.due);
    var r := Insert(ts, t);
    hide Slot, First, Insert;
    var f := First(r, h, e, u);
    assert |r| == |ts| + 1 && r[k] == t && forall i :: 0 <= i < k ==> r[i] == ts[i] by {
      SlotFacts(ts, t);
    }
    forall i | 0 <= i < k ensures !Exactly(r[i], h, e, u) {
      assert r[i] == ts[i] && ts[i] in ts;
      assert !Matches(ts[i], h, e, u);
    }
  }

  lemma SlotFacts(ts: seq<Timer>, t: Timer)
    ensures var k := Slot(ts, t.due); var r := Insert(ts, t);
            |r| == |ts| + 1 && r[k] == t && r == ts[..k] + [t] + ts[k..] && forall i :: 0 <= i < k ==> r[i] == ts[i]
  {}

  /** Selecting the others drops nothing else. */
  lemma OthersStay(ts: seq<Timer>, t: Timer, h: int, e: int, u: int)
    requires Exactly(t, h, e, u) && forall x :: x in ts ==> !Matches(x, h, e, u)
    ensures Select(Insert(ts, t), true, h, e, u) == ts
  {
    hide Slot, Select, Matches, Exactly, Insert;
    var k := Slot(ts, t.due);
    SlotFacts(ts, t);
    SelectConcat(ts[..k] + [t], ts[k..], true, h, e, u);
    SelectConcat(ts[..k], [t], true, h, e, u);
    SelectAll(ts[..k], h, e, u);
    SelectAll(ts[k..], h, e, u);
    SelectNone(t, h, e, u) by {
      ExactMatches(t, h, e, u);
    }
    assert ts[..k] + [] + ts[k..] == ts;
  }

  lemma ExactMatches(t: Timer, h: int, e: int, u: int)
    requires Exactly(t, h, e, u)
    ensures Matches(t, h, e, u)
  {}

  lemma SelectNone(t: Timer, h: int, e: int, u: int)
    requires Matches(t, h, e, u)
    ensures Select([t], true, h, e, u) == []
  {
    assert [t][1..] == [];
  }

  /** The comparison with the remaining time is the comparison of the deadlines. */
  lemma ReplacesCompares(c: Clock, s: State, k: nat, secs: nat, usecs: nat, deplete: bool)
    requires NormalClock(c) && AllNormal(s.timers) && k < |s.timers| && usecs < MICROS
    ensures var target := Later(Reading(c, s.ticks), secs, usecs);
            Replaces(c, s, k, secs, usecs, deplete) <==>
            if deplete then Before(target, s.timers[k].due) else Before(s.timers[k].due, target)
  {
    var due, now := s.timers[k].due, Reading(c, s.ticks);
    assert s.timers[k] in s.timers;
    var target := Later(now, secs, usecs);
    BeforeMicros(target, due);
    BeforeMicros(due, target);
    BeforeMicros(Time(secs, usecs), Difference(due, now));
    BeforeMicros(Difference(due, now), Time(secs, usecs));
  }

  /**
    With a clock that stands still during the call, a normalised request, no wildcard and memory for the new timer:
    the earliest matching deadline becomes the minimum (or maximum) of its old value and now + request,
    the other timers keep their places, and the result says whether anything changed.
    */
  lemma AdjustMovesEarliest(c: Clock, s: State, secs: nat, usecs: nat, h: int, e: int, u: int, deplete: bool)
    requires NormalClock(c) && Inv(s) && usecs < MICROS && e != ALL_CTX && u != ALL_CTX
    requires Reading(c, s.ticks) == Reading(c, s.ticks + 1) && !Refused(c, s.allocs)
    ensures var r := Adjust(c, s, secs, usecs, h, e, u, deplete);
            var result := AdjustResult(c, s, secs, usecs, h, e, u, deplete);
            var k, k' := First(s.timers, h, e, u), First(r.timers, h, e, u);
            var target := Later(Reading(c, s.ticks), secs, usecs);
            && Select(r.timers, true, h, e, u) == Select(s.timers, true, h, e, u)
            && (result == -1 <==> k == |s.timers|)
            && (result == 1 <==> r.timers != s.timers)
            && (k == |s.timers| ==> r == s)
            && (k < |s.timers| ==>
                  && k' < |r.timers|
                  && r.timers[k'].due == (if deplete then Min(s.timers[k].due, target)
                     else Max(s.timers[k].due, target)))
  {
    hide Select, Inv, NormalClock, First, Later, Replaces, Difference;
    var k := First(s.timers, h, e, u);
    InvOrdered(s);
    if k < |s.timers| {
      ReplacesCompares(c, s, k, secs, usecs, deplete);
      if Replaces(c, s, k, secs, usecs, deplete) {
        ReplacedTimer(c, s, secs, usecs, h, e, u, deplete);
      }
    }
  }

  /** The queue when the result is 1. */
  lemma AdjustedTimers(c: Clock, s: State, secs: nat, usecs: nat, h: int, e: int, u: int, deplete: bool)
    requires AdjustResult(c, s, secs, usecs, h, e, u, deplete) == 1
    ensures var others := Select(s.timers, true, h, e, u);
            var t := Timer(s.nextId, Later(Reading(c, s.ticks + 1), secs, usecs), h, e, u);
            Adjust(c, s, secs, usecs, h, e, u, deplete).timers ==
            if Refused(c, s.allocs) then others else Insert(others, t)
  {
    hide Select, Insert, Replaces, First, Later;
  }

  /** The queue after a replacement. */
  lemma ReplacedTimer(c: Clock, s: State, secs: nat, usecs: nat, h: int, e: int, u: int, deplete: bool)
    requires NormalClock(c) && Inv(s) && e != ALL_CTX && u != ALL_CTX
    requires Reading(c, s.ticks) == Reading(c, s.ticks + 1) && !Refused(c, s.allocs)
    requires var k := First(s.timers, h, e, u); k < |s.timers| && Replaces(c, s, k, secs, usecs, deplete)
    ensures var r := Adjust(c, s, secs, usecs, h, e, u, deplete);
            var k' := First(r.timers, h, e, u);
            && Select(r.timers, true, h, e, u) == Select(s.timers, true, h, e, u) && r.timers != s.timers
            && k' < |r.timers| && r.timers[k'].due == Later(Reading(c, s.ticks), secs, usecs)
  {
    var others := Select(s.timers, true, h, e, u);
    var t := Timer(s.nextId, Later(Reading(c, s.ticks), secs, usecs), h, e, u);
    SelectMembers(s.timers, true, h, e, u);
    assert t !in s.timers;
    hide Select, Insert, Adjust, Replaces, Later, First, Inv;
    AdjustedTimers(c, s, secs, usecs, h, e, u, deplete);
    MatchAmongOthers(others, t, h, e, u);
    OthersStay(others, t, h, e, u);
    InsertMembers(others, t);
  }

  /** The earliest matching deadline is the one the call looks at. */
  lemma FirstIsEarliest(ts: seq<Timer>, h: int, e: int, u: int)
    requires Ordered(ts)
    ensures var k := First(ts, h, e, u);
            forall t :: t in ts && Exactly(t, h, e, u) ==> k < |ts| && (t == ts[k] || Earlier(ts[k], t))
  {
    var k := First(ts, h, e, u);
    forall t | t in ts && Exactly(t, h, e, u) ensures k < |ts| && (t == ts[k] || Earlier(ts[k], t)) {
      var i :| 0 <= i < |ts| && ts[i] == t;
    }
  }

  /** A matching timer put among timers that do not match is the only match. */
  lemma InsertedAlone(ts: seq<Timer>, t: Timer, h: int, e: int, u: int)
    requires Exactly(t, h, e, u) && forall x :: x in ts ==> !Matches(x, h, e, u)
    ensures var r := Insert(ts, t);
            && t in r
            && (forall i :: 0 <= i < |r| && Exactly(r[i], h, e, u) ==> r[i] == t)
            && (forall i, j :: 0 <= i < j < |r| ==> !Exactly(r[i], h, e, u) || !Exactly(r[j], h, e, u))
  {
    var k := Slot(ts, t.due);
    var r := Insert(ts, t);
    SlotFacts(ts, t);
    hide Slot, Insert;
    assert r[k] == t;
    forall i | 0 <= i < |r| && i != k ensures !Exactly(r[i], h, e, u) {
      assert r[i] == ts[if i < k then i else i - 1];
      assert r[i] in ts;
      assert !Matches(r[i], h, e, u);
    }
  }

  /**
    With result 1, a timer with these contexts is pending afterwards if and only if memory for it was not refused.
    It is the new one, and the only one.
    */
  lemma AdjustedExactly(c: Clock, s: State, secs: nat, usecs: nat, h: int, e: int, u: int, deplete: bool)
    requires AdjustResult(c, s, secs, usecs, h, e, u, deplete) == 1
    ensures var r := Adjust(c, s, secs, usecs, h, e, u, deplete).timers;
            var t := Timer(s.nextId, Later(Reading(c, s.ticks + 1), secs, usecs), h, e, u);
            && ((exists i :: 0 <= i < |r| && Exactly(r[i], h, e, u)) <==> !Refused(c, s.allocs))
            && (forall i :: 0 <= i < |r| && Exactly(r[i], h, e, u) ==> r[i] == t)
            && (forall i, j :: 0 <= i < j < |r| ==> !Exactly(r[i], h, e, u) || !Exactly(r[j], h, e, u))
  {
    AdjustedTimers(c, s, secs, usecs, h, e, u, deplete);
    var others := Select(s.timers, true, h, e, u);
    SelectMembers(s.timers, true, h, e, u);
    hide Select, Insert, Adjust, AdjustResult, Later, First;
    if Refused(c, s.allocs) {
      forall i | 0 <= i < |others| ensures !Exactly(others[i], h, e, u) {
        assert others[i] in others;
      }
    } else {
      InsertedAlone(others, Timer(s.nextId, Later(Reading(c, s.ticks + 1), secs, usecs), h, e, u), h, e, u);
    }
  }

  /**
    With result 1, every timer but the one replaced is still pending if and only if no other timer matches: the call
    looks at the first match only, and cancels them all.
    */
  lemma AdjustSparesOthers(c: Clock, s: State, secs: nat, usecs: nat, h: int, e: int, u: int, deplete: bool)
    requires Inv(s) && AdjustResult(c, s, secs, usecs, h, e, u, deplete) == 1
    ensures var ts, r := s.timers, Adjust(c, s, secs, usecs, h, e, u, deplete).timers;
            var k := First(ts, h, e, u);
            (forall i :: 0 <= i < |ts| && i != k ==> ts[i] in r) <==>
            (forall i :: 0 <= i < |ts| && i != k ==> !Matches(ts[i], h, e, u))
  {
    AdjustedTimers(c, s, secs, usecs, h, e, u, deplete);
    var others := Select(s.timers, true, h, e, u);
    var t := Timer(s.nextId, Later(Reading(c, s.ticks + 1), secs, usecs), h, e, u);
    SelectMembers(s.timers, true, h, e, u);
    InsertMembers(others, t);
    InvOlder(s);
    hide Select, Insert, Adjust, AdjustResult, Later, First, Matches, Inv;
    var r := Adjust(c, s, secs, usecs, h, e, u, deplete).timers;
    assert forall i :: 0 <= i < |s.timers| ==> s.timers[i] in s.timers && s.timers[i] != t;
    assert forall i :: 0 <= i < |s.timers| ==> (s.timers[i] in r <==> !Matches(s.timers[i], h, e, u));
  }

  /** A clock that stands still and refuses the `n`-th allocation. */
  function Refusing(n: nat): Clock {
    Clock((i: nat) => Time(0, 0), (i: nat) => i == n)
  }

  /** Two timers with equal contexts, due after 10 and after 20 seconds. */
  function TwoTimers(c: Clock): State {
    Register(c, Register(c, START, 10, 0, 1, 0, 0), 20, 0, 1, 0, 0)
  }

  lemma TwoTimersPending(n: nat)
    requires n >= 2
    ensures TwoTimers(Refusing(n)).timers == [Timer(0, Time(10, 0), 1, 0, 0), Timer(1, Time(20, 0), 1, 0, 0)]
    ensures TwoTimers(Refusing(n)).allocs == 2 && TwoTimers(Refusing(n)).nextId == 2
  {
    var c := Refusing(n);
    var a, b := Timer(0, Time(10, 0), 1, 0, 0), Timer(1, Time(20, 0), 1, 0, 0);
    assert Reading(c, 0) == Reading(c, 1) == Time(0, 0) && Later(Time(0, 0), 10, 0) == a.due &&
      Later(Time(0, 0), 20, 0) == b.due;
    var one := Register(c, START, 10, 0, 1, 0, 0);
    assert one.timers == Insert([], a) == [a];
    assert Slot([a], b.due) == 1 by {
      assert [a][1..] == [];
    }
    assert Insert([a], b) == [a, b];
  }

  /** Shortening the first of two timers to 5 seconds makes the second vanish; the result is 1. */
  lemma LaterTimerVanishes()
    ensures var c := Refusing(9);
            && AdjustResult(c, TwoTimers(c), 5, 0, 1, 0, 0, true) == 1
            && Adjust(c, TwoTimers(c), 5, 0, 1, 0, 0, true).timers == [Timer(2, Time(5, 0), 1, 0, 0)]
  {
    AdjustedTwo(9);
  }

  /** The same with the allocation refused leaves no timer at all; the result is 1. */
  lemma BothTimersVanish()
    ensures var c := Refusing(2);
            && AdjustResult(c, TwoTimers(c), 5, 0, 1, 0, 0, true) == 1
            && Adjust(c, TwoTimers(c), 5, 0, 1, 0, 0, true).timers == []
  {
    AdjustedTwo(2);
  }

  lemma AdjustedTwo(n: nat)
    requires n >= 2
    ensures var c := Refusing(n);
            && AdjustResult(c, TwoTimers(c), 5, 0, 1, 0, 0, true) == 1
            && Adjust(c, TwoTimers(c), 5, 0, 1, 0, 0, true).timers ==
               if n == 2 then [] else [Timer(2, Time(5, 0), 1, 0, 0)]
  {
    var c := Refusing(n);
    var s := TwoTimers(c);
    TwoTimersPending(n);
    hide TwoTimers;
    assert First(s.timers, 1, 0, 0) == 0;
    assert Reading(c, s.ticks) == Time(0, 0);
    assert Reading(c, s.ticks + 1) == Time(0, 0);
    assert Replaces(c, s, 0, 5, 0, true);
    AdjustedTimers(c, s, 5, 0, 1, 0, 0, true);
    assert forall t :: t in s.timers ==> Matches(t, 1, 0, 0);
    SelectAllMatch(s.timers, 1, 0, 0);
    assert Later(Time(0, 0), 5, 0) == Time(5, 0);
    var t := Timer(2, Time(5, 0), 1, 0, 0);
    assert Insert([], t) == [t];
  }

  /** When memory is refused the call still returns 1, although every matching timer is gone. */
  lemma AdjustLosesTimer(c: Clock, s: State, secs: nat, usecs: nat, h: int, e: int, u: int, deplete: bool)
    requires Refused(c, s.allocs) && AdjustResult(c, s, secs, usecs, h, e, u, deplete) == 1
    ensures var r := Adjust(c, s, secs, usecs, h, e, u, deplete);
            r.timers == Select(s.timers, true, h, e, u) && forall t :: t in r.timers ==> !Matches(t, h, e, u)
  {
    AdjustedTimers(c, s, secs, usecs, h, e, u, deplete);
    SelectMembers(s.timers, true, h, e, u);
  }
}
