/** The averaging window of data_mgr: five slots per sensor, used in turn. Arithmetic is over the reals. */
module Averages {
  import opened Bytes

  /** Slots of a row: 0 is the place of the next reading, 1 to 5 hold readings. */
  const SLOTS: nat := 5
  const SENSORS: nat := 5

  /** The sum of the `n` latest readings. */
  function Latest(h: seq<real>, n: nat): real
    requires n <= |h|
  {
    if n == 0 then 0.0 else h[|h| - n] + Latest(h, n - 1)
  }

  /** What should be computed after the readings `h`: from the fifth on, the mean of the five latest. */
  function Expected(h: seq<real>): Option<real> {
    if |h| < SLOTS then None else Some(Latest(h, SLOTS) / 5.0)
  }

  /** The slot of the j-th reading, counted from 0. */
  function SlotOf(j: nat): nat {
    1 + j % SLOTS
  }

  /** Slot `k` of a row with history `h`: the latest reading that belongs there, or the initial 0. */
  function SlotValue(h: seq<real>, k: nat): real
    requires 1 <= k <= SLOTS
  {
    if h == [] then 0.0
    else if SlotOf(|h| - 1) == k then h[|h| - 1]
    else SlotValue(h[..|h| - 1], k)
  }

  /** How many readings ago slot `k` was written, after `n` of them. */
  function Age(n: nat, k: nat): (d: nat)
    requires 1 <= k <= SLOTS
    ensures d < SLOTS
  {
    (n + SLOTS - k) % SLOTS
  }

  lemma Ages(n: nat)
    ensures n % 5 == 0 ==> Age(n, 1) == 4 && Age(n, 2) == 3 && Age(n, 3) == 2 && Age(n, 4) == 1 && Age(n, 5) == 0
    ensures n % 5 == 1 ==> Age(n, 1) == 0 && Age(n, 2) == 4 && Age(n, 3) == 3 && Age(n, 4) == 2 && Age(n, 5) == 1
    ensures n % 5 == 2 ==> Age(n, 1) == 1 && Age(n, 2) == 0 && Age(n, 3) == 4 && Age(n, 4) == 3 && Age(n, 5) == 2
    ensures n % 5 == 3 ==> Age(n, 1) == 2 && Age(n, 2) == 1 && Age(n, 3) == 0 && Age(n, 4) == 4 && Age(n, 5) == 3
    ensures n % 5 == 4 ==> Age(n, 1) == 3 && Age(n, 2) == 2 && Age(n, 3) == 1 && Age(n, 4) == 0 && Age(n, 5) == 4
  {}

  /**
    Five readings fill five slots: going round the slots adds up the five latest readings, wherever the round begins.
    */
  lemma SlotsSumLatest(h: seq<real>)
    requires |h| >= SLOTS
    ensures SlotValue(h, 1) + SlotValue(h, 2) + SlotValue(h, 3) + SlotValue(h, 4) + SlotValue(h, 5) == Latest(h, SLOTS)
  {
    hide SlotValue, Latest, Age;
    LatestFive(h);
    RecentSlot(h, 1);
    RecentSlot(h, 2);
    RecentSlot(h, 3);
    RecentSlot(h, 4);
    RecentSlot(h, 5);
    Ages(|h|);
  }

  lemma LatestFive(h: seq<real>)
    requires |h| >= SLOTS
    ensures var n := |h|; Latest(h, SLOTS) == h[n - 5] + h[n - 4] + h[n - 3] + h[n - 2] + h[n - 1]
  {
    var n := |h|;
    assert Latest(h, 0) == 0.0;
    assert Latest(h, 1) == h[n - 1];
    assert Latest(h, 2) == h[n - 2] + h[n - 1];
    assert Latest(h, 3) == h[n - 3] + (h[n - 2] + h[n - 1]);
    assert Latest(h, 4) == h[n - 4] + (h[n - 3] + (h[n - 2] + h[n - 1]));
  }

  /** A slot holds the one of the five latest readings whose number belongs to it. */
  lemma RecentSlot(h: seq<real>, k: nat)
    requires |h| >= SLOTS && 1 <= k <= SLOTS
    ensures SlotValue(h, k) == h[|h| - 1 - Age(|h|, k)]
  {
    assert SlotOf(|h| - 1 - Age(|h|, k)) == k;
    SlotBack(h, k, Age(|h|, k));
  }

  /** Looking back for a slot's reading. */
  lemma {:induction false} SlotBack(h: seq<real>, k: nat, d: nat)
    requires d < SLOTS && d < |h| && 1 <= k <= SLOTS && SlotOf(|h| - 1 - d) == k
    ensures SlotValue(h, k) == h[|h| - 1 - d]
    decreases d
  {
    if d > 0 {
      assert SlotOf(|h| - 1) != k;
      SlotBack(h[..|h| - 1], k, d - 1);
    }
  }

  /** `avg`: the slots 1 to 5 of a row. */
  method Avg(val: array2<real>, id: nat) returns (ret: real)
    requires id < val.Length0 && val.Length1 == 6
    ensures ret == (val[id, 1] + val[id, 2] + val[id, 3] + val[id, 4] + val[id, 5]) / 5.0
  {
    ret := 0.0;
    var i := 1;
    while i <= 5
      invariant 1 <= i <= 6
      invariant i == 1 ==> ret == 0.0
      invariant i == 2 ==> ret == val[id, 1]
      invariant i == 3 ==> ret == val[id, 1] + val[id, 2]
      invariant i == 4 ==> ret == val[id, 1] + val[id, 2] + val[id, 3]
      invariant i == 5 ==> ret == val[id, 1] + val[id, 2] + val[id, 3] + val[id, 4]
      invariant i == 6 ==> ret == val[id, 1] + val[id, 2] + val[id, 3] + val[id, 4] + val[id, 5]
    {
      ret := ret + val[id, i];
      i := i + 1;
    }
    ret := ret / 5.0;
  }

  /** From one reading to the next: slot 5 is followed by slot 1, and is first reached with the fifth reading. */
  lemma SlotAfter(n: nat)
    ensures 1 <= SlotOf(n) <= SLOTS && SlotOf(n + 1) == if SlotOf(n) == SLOTS then 1 else SlotOf(n) + 1
    ensures if SlotOf(n) == SLOTS then n + 1 >= SLOTS else n + 1 >= SLOTS <==> n >= SLOTS
  {}

  /** The arrays `val` and `check` of data_mgr, and as ghost the readings so far. */
  class Window {
    const val: array2<real>
    const check: array<bool>
    ghost var history: seq<seq<real>>

    /** The row of a sensor is the image of its readings. */
    ghost predicate Row(id: nat)
      requires 1 <= id <= SENSORS && val.Length0 == 6 && val.Length1 == 6 && check.Length == SENSORS && |history| == 6
      reads this, val, check
    {
      var h := history[id];
      && val[id, 0] == SlotOf(|h|) as real
      && (check[id - 1] <==> |h| >= SLOTS)
      && forall k :: 1 <= k <= SLOTS ==> val[id, k] == SlotValue(h, k)
    }

    ghost predicate Valid()
      reads this, val, check
    {
      && val.Length0 == 6 && val.Length1 == 6 && check.Length == SENSORS && |history| == 6
      && forall id :: 1 <= id <= SENSORS ==> Row(id)
    }

    constructor ()
      ensures Valid() && fresh(val) && fresh(check) && forall id :: 1 <= id <= SENSORS ==> history[id] == []
    {
      val := new real[6, 6]((i, j) => if j == 0 && i >= 1 then 1.0 else 0.0);
      check := new bool[5](i => false);
      history := seq(6, i => []);
    }

    /** The part of the loop of data_mgr that handles one reading; None stands for "no average yet". */
    method Record(id: nat, temp: real) returns (average: Option<real>)
      requires Valid() && 1 <= id <= SENSORS
      modifies this`history, val, check
      ensures Valid() && history == old(history)[id := old(history)[id] + [temp]]
      ensures 1.0 <= val[id, 0] <= 5.0
      ensures average == Expected(history[id])
    {
      hide SlotValue, SlotOf, Latest;
      ghost var h := history[id];
      ghost var h' := h + [temp];
      SlotAfter(|h|);
      assert Row(id);
      var slot := val[id, 0].Floor;
      assert slot == SlotOf(|h|);
      average := None;
      val[id, slot] := temp;
      val[id, 0] := val[id, 0] + 1.0;
      history := history[id := h'];
      Written(h, temp);
      if check[id - 1] {
        var a := Avg(val, id);
        average := Some(a);
      }
      if val[id, 0] > 5.0 {
        val[id, 0] := 1.0;
        if !check[id - 1] {
          check[id - 1] := true;
          var a := Avg(val, id);
          average := Some(a);
        }
      }
      if |h'| >= SLOTS {
        SlotsSumLatest(h');
      }
      assert Row(id);
      forall i | 1 <= i <= SENSORS && i != id ensures Row(i) {
        assert old(Row(i)) && history[i] == old(history)[i];
      }
    }
  }

  lemma Written(h: seq<real>, temp: real)
    ensures forall k :: 1 <= k <= SLOTS ==> SlotValue(h + [temp], k) == if k == SlotOf(|h|) then temp
      else SlotValue(h, k)
  {
    assert (h + [temp])[..|h|] == h;
  }

  /** The readings of one sensor in a stream of (sensor, temperature) pairs. */
  function ReadingsOf(stream: seq<(nat, real)>, id: nat): seq<real> {
    if stream == [] then []
    else
      var n := |stream| - 1;
      ReadingsOf(stream[..n], id) + if stream[n].0 == id then [stream[n].1] else []
  }

  /**
    For every stream of readings from sensors 1 to 5, each reading yields the mean of that sensor's five latest, or
    nothing.
    */
  method RecordAll(stream: seq<(nat, real)>) returns (averages: seq<Option<real>>)
    requires forall i :: 0 <= i < |stream| ==> 1 <= stream[i].0 <= SENSORS
    ensures |averages| == |stream|
    ensures forall i :: 0 <= i < |stream| ==> averages[i] == Expected(ReadingsOf(stream[..i + 1], stream[i].0))
  {
    var w := new Window();
    averages := [];
    for i := 0 to |stream|
      invariant w.Valid() && fresh(w) && fresh(w.val) && fresh(w.check)
      invariant |averages| == i
      invariant forall id :: 1 <= id <= SENSORS ==> w.history[id] == ReadingsOf(stream[..i], id)
      invariant forall j :: 0 <= j < i ==> averages[j] == Expected(ReadingsOf(stream[..j + 1], stream[j].0))
    {
      assert stream[..i + 1][..i] == stream[..i];
      var a := w.Record(stream[i].0, stream[i].1);
      averages := averages + [a];
    }
  }
}
