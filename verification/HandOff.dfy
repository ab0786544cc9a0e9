/**
  The hand-off of main-server.c: one bounded queue, two readers that share a counter. A message leaves the queue when
  both have taken it. The readers' critical sections exclude each other (`cnt_mutex`); pushes may come at any time.
  Every node is taken to keep the text it was pushed with.
  */
module HandOff {
  import opened Bytes
  import OsList

  datatype Reader = DataManager | StorageManager

  /** One value for each reader. */
  datatype Both<T> = Both(data: T, storage: T) {
    function Of(r: Reader): T {
      if r == DataManager then data else storage
    }

    function With(r: Reader, v: T): (b: Both<T>)
      ensures forall q: Reader :: b.Of(q) == if q == r then v else Of(q)
    {
      if r == DataManager then Both(v, storage) else Both(data, v)
    }
  }

  /** `accepted` and the two `got` lists are history: what was pushed, and what each reader went on to work with. */
  datatype State = State(
    queue: seq<bytes>,
    capacity: nat,
    cnt: nat,
    held: Option<(Reader, bytes)>,
    oldMsg: Both<bytes>,
    got: Both<seq<bytes>>,
    accepted: seq<bytes>)

  /** A push by the connection manager; a reader that has the mutex and the first message; the rest of its section. */
  datatype Step = Push(msg: bytes) | Fetch(reader: Reader) | Finish

  function Start(capacity: nat): State {
    State([], capacity, 0, None, Both([], []), Both([], []), [])
  }

  datatype Section = Section(queue: seq<bytes>, cnt: nat, oldMsg: bytes, delivered: bool)

  /** The section behind `list_get_data_first_node`: compare, count, and remove at two. */
  function Work(queue: seq<bytes>, cnt: nat, oldMsg: bytes, msg: bytes): Section {
    if msg == oldMsg then Section(queue, cnt, oldMsg, false)
    else if cnt + 1 == 2 then Section(if queue == [] then [] else queue[1..], 0, msg, true)
    else Section(queue, cnt + 1, msg, true)
  }

  function Next(s: State, step: Step): State {
    match step
    case Push(msg) =>
      if |s.queue| == s.capacity then s else s.(queue := s.queue + [msg], accepted := s.accepted + [msg])
    case Fetch(r) =>
      if s.held.Some? || s.queue == [] then s else s.(held := Some((r, s.queue[0])))
    case Finish =>
      if s.held.None? then s
      else
        var (r, msg) := s.held.value;
        var w := Work(s.queue, s.cnt, s.oldMsg.Of(r), msg);
        s.(queue := w.queue, cnt := w.cnt, held := None, oldMsg := s.oldMsg.With(r, w.oldMsg),
           got := if w.delivered then s.got.With(r, s.got.Of(r) + [msg]) else s.got)
  }

  function Run(s: State, steps: seq<Step>): State
    decreases |steps|
  {
    if steps == [] then s else Run(Next(s, steps[0]), steps[1..])
  }

  /** What a reader remembers before the i-th message. */
  function Before(accepted: seq<bytes>, i: nat): bytes
    requires i <= |accepted|
  {
    if i == 0 then [] else accepted[i - 1]
  }

  /** Number of messages that have left the queue. */
  function Gone(s: State): int {
    |s.accepted| - |s.queue|
  }

  predicate Inv(s: State) {
    && |s.queue| <= s.capacity
    && Gone(s) >= 0 && s.queue == s.accepted[Gone(s)..]
    && Behind(s, DataManager) && Behind(s, StorageManager)
    && s.cnt == |s.got.Of(DataManager)| + |s.got.Of(StorageManager)| - 2 * Gone(s) && s.cnt <= 1
    && (s.held.Some? ==> s.queue != [] && s.held.value.1 == s.queue[0])
  }

  /**
    A reader has taken the messages that left, perhaps the first in the queue, in order, each unlike the one before.
    */
  predicate Behind(s: State, r: Reader)
    requires Gone(s) >= 0
  {
    var n := |s.got.Of(r)|;
    && Gone(s) <= n <= Gone(s) + 1 && n <= |s.accepted|
    && s.got.Of(r) == s.accepted[..n] && s.oldMsg.Of(r) == Before(s.accepted, n)
    && forall i :: 0 <= i < n ==> s.accepted[i] != Before(s.accepted, i)
  }

  lemma StartInv(capacity: nat)
    ensures Inv(Start(capacity))
  {}

  lemma PushKeeps(s: State, msg: bytes)
    requires Inv(s)
    ensures Inv(Next(s, Push(msg)))
  {
    if |s.queue| < s.capacity {
      var t := Next(s, Push(msg));
      assert t.accepted[Gone(t)..] == s.accepted[Gone(s)..] + [msg];
      PushedBehind(s, t, DataManager, msg);
      PushedBehind(s, t, StorageManager, msg);
    }
  }

  lemma PushedBehind(s: State, t: State, r: Reader, msg: bytes)
    requires Gone(s) >= 0 && Behind(s, r)
    requires t == s.(queue := s.queue + [msg], accepted := s.accepted + [msg])
    ensures Behind(t, r)
  {
    var n := |s.got.Of(r)|;
    assert t.accepted[..n] == s.accepted[..n];
    forall i | 0 <= i < n ensures t.accepted[i] != Before(t.accepted, i) {
      assert Before(t.accepted, i) == Before(s.accepted, i);
    }
  }

  /** The reader's own side of a delivery. */
  lemma TakerBehind(s: State, t: State, r: Reader)
    requires 0 <= Gone(s) == |s.got.Of(r)| < |s.accepted| && Behind(s, r) && s.oldMsg.Of(r) != s.accepted[Gone(s)]
    requires t.accepted == s.accepted && Gone(s) <= Gone(t) <= Gone(s) + 1
    requires t.got.Of(r) == s.got.Of(r) + [s.accepted[Gone(s)]] && t.oldMsg.Of(r) == s.accepted[Gone(s)]
    ensures Behind(t, r)
  {
    hide Before;
    var k := Gone(s);
    assert s.accepted[..k] + [s.accepted[k]] == s.accepted[..k + 1];
    assert Before(s.accepted, k + 1) == s.accepted[k] by {
      BeforeNext(s.accepted, k);
    }
  }

  lemma BeforeNext(accepted: seq<bytes>, k: nat)
    requires k < |accepted|
    ensures Before(accepted, k + 1) == accepted[k]
  {}

  lemma OtherBehind(s: State, t: State, q: Reader)
    requires Inv(s) && Behind(s, q) && t.accepted == s.accepted && t.got.Of(q) == s.got.Of(q) &&
      t.oldMsg.Of(q) == s.oldMsg.Of(q)
    requires Gone(s) <= Gone(t) <= |s.got.Of(q)|
    ensures Behind(t, q)
  {}

  lemma FinishKeeps(s: State)
    requires Inv(s) && s.held.Some?
    ensures Inv(Next(s, Finish))
  {
    var (r, msg) := s.held.value;
    var other := if r == DataManager then StorageManager else DataManager;
    var t := Next(s, Finish);
    var k := Gone(s);
    Counted(s, r, other);
    hide Behind, Before;
    if msg == s.oldMsg.Of(r) {
      assert t == s.(held := None);
      OtherBehind(s, t, r);
      OtherBehind(s, t, other);
    } else {
      FinishTakes(s, r, msg, t);
      TakerBehind(s, t, r);
      OtherBehind(s, t, other);
    }
  }

  lemma FinishTakes(s: State, r: Reader, msg: bytes, t: State)
    requires s.held == Some((r, msg)) && t == Next(s, Finish) && msg != s.oldMsg.Of(r) && s.queue != []
    requires 0 <= Gone(s) && s.queue == s.accepted[Gone(s)..]
    ensures t.held.None? && t.accepted == s.accepted && t.capacity == s.capacity && |t.queue| <= |s.queue|
    ensures t.got.Of(r) == s.got.Of(r) + [msg] && t.oldMsg.Of(r) == msg
    ensures forall q: Reader :: q != r ==> t.got.Of(q) == s.got.Of(q) && t.oldMsg.Of(q) == s.oldMsg.Of(q)
    ensures s.cnt + 1 == 2 ==> t.cnt == 0 && Gone(t) == Gone(s) + 1
    ensures s.cnt + 1 != 2 ==> t.cnt == s.cnt + 1 && Gone(t) == Gone(s)
    ensures t.queue == t.accepted[Gone(t)..]
  {}

  /** The counter says whether the other reader has been here before. */
  lemma Counted(s: State, r: Reader, other: Reader)
    requires Inv(s) && s.queue != [] && r != other
    ensures Behind(s, r) && Behind(s, other) && s.queue[0] == s.accepted[Gone(s)]
    ensures s.oldMsg.Of(r) != s.queue[0] ==> |s.got.Of(r)| == Gone(s) && |s.got.Of(other)| == Gone(s) + s.cnt
  {}

  lemma NextKeeps(s: State, step: Step)
    requires Inv(s)
    ensures Inv(Next(s, step))
  {
    match step
    case Push(msg) => PushKeeps(s, msg);
    case Fetch(r) =>
    case Finish =>
      if s.held.Some? {
        FinishKeeps(s);
      }
  }

  lemma {:induction false} RunKeeps(s: State, steps: seq<Step>)
    requires Inv(s)
    ensures Inv(Run(s, steps))
    decreases |steps|
  {
    if steps != [] {
      NextKeeps(s, steps[0]);
      RunKeeps(Next(s, steps[0]), steps[1..]);
    }
  }

  /**
    Over all interleavings: each reader has taken a prefix of the accepted messages, in push order and each once; a
    message has left the queue only if both have taken it; the queue stays within its capacity.
    */
  lemma EachTakenOnceInOrder(capacity: nat, steps: seq<Step>, r: Reader)
    ensures var s := Run(Start(capacity), steps);
            && |s.queue| <= capacity && 0 <= Gone(s) <= |s.got.Of(r)| <= Gone(s) + 1 && |s.got.Of(r)| <= |s.accepted|
            && s.got.Of(r) == s.accepted[..|s.got.Of(r)|] && s.queue == s.accepted[Gone(s)..]
            && (s.queue == [] ==> s.got.Of(r) == s.accepted)
  {
    StartInv(capacity);
    RunKeeps(Start(capacity), steps);
    RunCapacity(Start(capacity), steps);
    var s := Run(Start(capacity), steps);
    assert Behind(s, r);
    assert s.accepted[..|s.accepted|] == s.accepted;
  }

  lemma {:induction false} RunCapacity(s: State, steps: seq<Step>)
    ensures Run(s, steps).capacity == s.capacity
    decreases |steps|
  {
    if steps != [] {
      RunCapacity(Next(s, steps[0]), steps[1..]);
    }
  }

  // ----- when the queue can be drained -----

  /** The messages still queued are each unlike the one accepted before (the first of all: not empty). */
  predicate Fresh(s: State)
    requires Inv(s)
  {
    forall i :: Gone(s) <= i < |s.accepted| ==> s.accepted[i] != Before(s.accepted, i)
  }

  predicate NoPush(steps: seq<Step>) {
    forall step :: step in steps ==> !step.Push?
  }

  /** A reader's whole section, undisturbed. */
  function Turn(r: Reader): seq<Step> {
    [Fetch(r), Finish]
  }

  function TurnOf(s: State, r: Reader): State
  {
    Next(Next(s, Fetch(r)), Finish)
  }

  /**
    A reader takes the first message exactly when it has not done so yet and the message differs from the one before.
    */
  lemma TurnTakes(s: State, r: Reader)
    requires Inv(s) && s.held.None? && s.queue != []
    ensures var t := TurnOf(s, r); var k := Gone(s);
            && Inv(t) && t.held.None? && t.accepted == s.accepted
            && (t.got.Of(r) != s.got.Of(r) <==> |s.got.Of(r)| == k && s.accepted[k] != Before(s.accepted, k))
            && (t.got.Of(r) != s.got.Of(r) ==> t.got.Of(r) == s.got.Of(r) + [s.accepted[k]])
            && (forall q: Reader :: q != r ==> t.got.Of(q) == s.got.Of(q))
  {
    NextKeeps(s, Fetch(r));
    NextKeeps(Next(s, Fetch(r)), Finish);
    assert Behind(s, r);
    assert s.queue[0] == s.accepted[Gone(s)];
  }

  lemma Counts(s: State)
    requires Inv(s)
    ensures var d, t := |s.got.data|, |s.got.storage|;
            Gone(s) <= d <= Gone(s) + 1 && Gone(s) <= t <= Gone(s) + 1 && d + t <= 2 * Gone(s) + 1
  {
    assert Behind(s, DataManager) && Behind(s, StorageManager);
  }

  /** One turn of each reader removes a message that differs from the one before. */
  lemma BothTurnsRemove(s: State)
    requires Inv(s) && s.held.None? && s.queue != [] && s.queue[0] != Before(s.accepted, Gone(s))
    ensures var t := TurnOf(TurnOf(s, DataManager), StorageManager);
            Inv(t) && t.held.None? && t.accepted == s.accepted && Gone(t) == Gone(s) + 1
  {
    assert s.queue[0] == s.accepted[Gone(s)];
    var u := TurnOf(s, DataManager);
    var t := TurnOf(u, StorageManager);
    TurnTakes(s, DataManager);
    Counts(s);
    Counts(u);
    hide Inv, TurnOf, Before;
    if u.queue == [] {
      assert t == u by {
        IdleTurn(u, StorageManager);
      }
    } else {
      TurnTakes(u, StorageManager);
      Counts(t);
    }
  }

  lemma IdleTurn(s: State, r: Reader)
    requires s.queue == [] && s.held.None?
    ensures TurnOf(s, r) == s
  {}

  lemma {:induction false} RunConcat(s: State, a: seq<Step>, b: seq<Step>)
    ensures Run(s, a + b) == Run(Run(s, a), b)
    decreases |a|
  {
    if a == [] {
      assert a + b == b;
    } else {
      assert (a + b)[1..] == a[1..] + b;
      RunConcat(Next(s, a[0]), a[1..], b);
    }
  }

  lemma RunTurn(s: State, r: Reader)
    ensures Run(s, Turn(r)) == TurnOf(s, r)
  {
    assert Turn(r)[1..] == [Finish] && [Finish][1..] == [];
  }

  lemma {:induction false} Drain(s: State) returns (steps: seq<Step>)
    requires Inv(s) && s.held.None? && Fresh(s)
    ensures NoPush(steps) && Run(s, steps).queue == []
    decreases |s.queue|
  {
    if s.queue == [] {
      steps := [];
    } else {
      assert s.queue[0] == s.accepted[Gone(s)];
      BothTurnsRemove(s);
      hide TurnOf, Turn, Run, Before;
      var u := TurnOf(s, DataManager);
      var t := TurnOf(u, StorageManager);
      var rest := Drain(t);
      var both := Turn(DataManager) + Turn(StorageManager);
      steps := both + rest;
      RunConcat(s, both, rest);
      RunConcat(s, Turn(DataManager), Turn(StorageManager));
      RunTurn(s, DataManager);
      RunTurn(u, StorageManager);
    }
  }

  ghost predicate CanDrain(s: State)
  {
    exists steps: seq<Step> :: NoPush(steps) && Run(s, steps).queue == []
  }

  lemma {:induction false} RunExtends(s: State, steps: seq<Step>)
    ensures s.accepted <= Run(s, steps).accepted
    decreases |steps|
  {
    if steps != [] {
      RunExtends(Next(s, steps[0]), steps[1..]);
    }
  }

  /**
    A queued message that repeats the one accepted before it keeps the queue filled over every run, pushes included.
    */
  lemma RepeatedStays(s: State, steps: seq<Step>)
    requires Inv(s) && !Fresh(s)
    ensures var t := Run(s, steps); t.queue != [] && Inv(t) && !Fresh(t)
  {
    var t := Run(s, steps);
    RunKeeps(s, steps);
    RunExtends(s, steps);
    var i :| Gone(s) <= i < |s.accepted| && s.accepted[i] == Before(s.accepted, i);
    assert t.accepted[i] == Before(t.accepted, i);
    assert Behind(t, DataManager);
  }

  /** The queue becomes empty on some run of both readers and the connection manager. */
  ghost predicate CanEmpty(s: State)
  {
    exists steps: seq<Step> :: Run(s, steps).queue == []
  }

  /**
    The exact condition of progress: the readers can empty the queue if and only if no queued message repeats the one
    accepted before it, and further pushes do not help. A repeated message stays in the queue for ever.
    */
  lemma DrainsExactlyWhenFresh(s: State)
    requires Inv(s) && s.held.None?
    ensures CanDrain(s) <==> Fresh(s)
    ensures CanEmpty(s) <==> Fresh(s)
  {
    if Fresh(s) {
      var steps := Drain(s);
    } else {
      forall steps: seq<Step> ensures Run(s, steps).queue != [] {
        RepeatedStays(s, steps);
      }
    }
  }

  lemma RunTwo(s: State, a: Step, b: Step)
    ensures Run(s, [a, b]) == Next(Next(s, a), b)
  {
    hide Next;
    var one := Next(s, a);
    assert [a, b][1..] == [b] && [b][1..] == [];
    assert Run(s, [a, b]) == Run(one, [b]) == Run(Next(one, b), []);
  }

  /** Accepting the message accepted last once more. */
  lemma PushRepeats(s: State, msg: bytes)
    requires Inv(s) && |s.queue| < s.capacity && Before(s.accepted, |s.accepted|) == msg
    ensures Inv(Next(s, Push(msg))) && !Fresh(Next(s, Push(msg)))
  {
    PushKeeps(s, msg);
    hide Inv;
    var t, i := Next(s, Push(msg)), |s.accepted|;
    assert t.accepted[i] == msg && Before(t.accepted, i) == Before(s.accepted, i);
  }

  /** Two equal messages in a row: whatever happens afterwards, the queue is never empty again. */
  lemma EqualMessagesStay(capacity: nat, msg: bytes, steps: seq<Step>)
    requires capacity >= 2
    ensures Run(Start(capacity), [Push(msg), Push(msg)] + steps).queue != []
  {
    var one := Next(Start(capacity), Push(msg));
    var s := Next(one, Push(msg));
    assert one.accepted == [] + [msg] && |one.queue| == 1 && one.capacity == capacity;
    BeforeNext(one.accepted, 0);
    hide Run, Next, Inv, Fresh, Before;
    StartInv(capacity);
    NextKeeps(Start(capacity), Push(msg));
    PushRepeats(one, msg);
    RunTwo(Start(capacity), Push(msg), Push(msg));
    RepeatedStays(s, steps);
    RunConcat(Start(capacity), [Push(msg), Push(msg)], steps);
  }

  // ----- the critical section as code -----

  /** What the two readers share. */
  class Shared {
    const list: OsList.List
    var cnt: nat

    constructor (list: OsList.List)
      ensures this.list == list && cnt == 0
    {
      this.list, cnt := list, 0;
    }
  }

  /** The local variable of a reader that outlives a turn of its loop. */
  class ReaderState {
    var oldMsg: bytes

    constructor ()
      ensures oldMsg == []
    {
      oldMsg := [];
    }
  }

  /**
    The section under `cnt_mutex` behind `list_get_data_first_node`, in `data_mgr` and in `storage_mgr`. The list may
    have grown since the message was read, and nothing is supposed of what it holds.
    */
  method FinishSection(shared: Shared, reader: ReaderState, msg: bytes) returns (delivered: bool)
    requires shared.list.Valid()
    modifies shared, reader, shared.list, shared.list.nodes`prev
    ensures shared.list.Valid()
    ensures Section(shared.list.Queue(), shared.cnt, reader.oldMsg, delivered) ==
            Work(old(shared.list.Queue()), old(shared.cnt), old(reader.oldMsg), msg)
  {
    hide OsList.List.Valid, OsList.Contents;
    delivered := msg != reader.oldMsg;
    if !delivered {
      return;
    }
    reader.oldMsg := msg;
    shared.cnt := shared.cnt + 1;
    if shared.cnt == 2 {
      shared.cnt := 0;
      var _ := shared.list.RemoveFirstNode();
    }
  }

  /** The whole section, when nothing is pushed meanwhile. */
  method CriticalSection(shared: Shared, reader: ReaderState) returns (delivered: bool, msg: bytes)
    requires shared.list.Valid() && shared.list.Queue() != []
    modifies shared, reader, shared.list, shared.list.nodes`prev
    ensures shared.list.Valid() && msg == old(shared.list.Queue())[0]
    ensures Section(shared.list.Queue(), shared.cnt, reader.oldMsg, delivered) ==
            Work(old(shared.list.Queue()), old(shared.cnt), old(reader.oldMsg), old(shared.list.Queue())[0])
  {
    hide OsList.List.Valid, OsList.Contents, Work;
    msg := shared.list.GetDataFirstNode();
    delivered := FinishSection(shared, reader, msg);
  }
}
