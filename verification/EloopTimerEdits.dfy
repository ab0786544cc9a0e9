/** What each call of the timer interface does to the queue, told by microseconds, handlers and contexts alone. */
module EloopTimerEdits {
  import opened EloopTimers

  /** A time in microseconds. */
  function At(t: Time): int {
    t.sec * 1000000 + t.usec
  }

  /**
    A granted registration puts one timer with this handler and these contexts, due that much after the clock was read,
    behind every timer that is due no later and in front of all others.
    */
  lemma RegisterPlaces(c: Clock, s: State, secs: nat, usecs: nat, h: int, e: int, u: int) returns (k: nat, t: Timer)
    requires NormalClock(c) && Inv(s) && !Refused(c, s.allocs)
    ensures k <= |s.timers| && t.id == s.nextId && t.handler == h && t.eloopData == e && t.userData == u
    ensures At(t.due) == At(Reading(c, s.ticks)) + secs * 1000000 + usecs
    ensures Register(c, s, secs, usecs, h, e, u).timers == s.timers[..k] + [t] + s.timers[k..]
    ensures forall i :: 0 <= i < |s.timers| ==> (i < k <==> At(s.timers[i].due) <= At(t.due))
  {
    hide Inv, Earlier;
    InvOrdered(s);
    t := Timer(s.nextId, Later(Reading(c, s.ticks), secs, usecs), h, e, u);
    k := Slot(s.timers, t.due);
    SlotFacts(s.timers, t);
    forall i | 0 <= i < |s.timers| ensures i < k <==> At(s.timers[i].due) <= At(t.due) {
      assert s.timers[i] in s.timers;
      BeforeMicros(t.due, s.timers[i].due);
      if i >= k {
        LaterOnes(s.timers, k, i);
        assert s.timers[k] in s.timers;
        BeforeMicros(t.due, s.timers[k].due);
        BeforeMicros(s.timers[i].due, s.timers[k].due);
      }
    }
  }

  lemma LaterOnes(ts: seq<Timer>, k: nat, i: nat)
    requires Ordered(ts) && k <= i < |ts|
    ensures !Before(ts[i].due, ts[k].due)
  {
    if k < i {
      assert Earlier(ts[k], ts[i]);
    }
  }

  /** The handler is the same, and so is each context unless any will do. */
  predicate Meant(t: Timer, h: int, e: int, u: int) {
    t.handler == h && (e == -1 || t.eloopData == e) && (u == -1 || t.userData == u)
  }

  /** A cancellation leaves exactly the timers that are not meant, in the order of deadline and registration. */
  lemma CancelLeaves(s: State, h: int, e: int, u: int)
    requires Inv(s)
    ensures var r := Cancel(s, h, e, u);
            && Ordered(r.timers) && (forall t :: t in r.timers <==> t in s.timers && !Meant(t, h, e, u))
            && r == s.(timers := r.timers, log := r.log)
  {
    hide Inv, Select, Earlier;
    InvOrdered(s);
    SelectMembers(s.timers, true, h, e, u);
    SelectOrdered(s.timers, true, h, e, u);
  }

  /** Cancelling one takes out the first timer with just this handler and these contexts, or none. */
  lemma CancelOneTakesFirst(s: State, h: int, e: int, u: int)
    ensures var r := CancelOne(s, h, e, u).timers;
            if forall t :: t in s.timers ==> !(t.handler == h && t.eloopData == e && t.userData == u) then r == s.timers
            else exists k :: TakenAt(s.timers, r, k, h, e, u)
  {
    var k := First(s.timers, h, e, u);
    var r := CancelOne(s, h, e, u).timers;
    if k < |s.timers| {
      assert s.timers[k] in s.timers;
      assert TakenAt(s.timers, r, k, h, e, u);
    }
  }

  /** The timer at `k`, the first with this handler and these contexts, is taken out. */
  predicate TakenAt(before: seq<Timer>, after: seq<Timer>, k: nat, h: int, e: int, u: int) {
    && k < |before| && after == before[..k] + before[k + 1..]
    && before[k].handler == h && before[k].eloopData == e && before[k].userData == u
    && forall i :: 0 <= i < k ==> !(before[i].handler == h && before[i].eloopData == e && before[i].userData == u)
  }
}
