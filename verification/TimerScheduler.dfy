/**
  timer/module_timer.c: a fixed array of timers, a work list ordered by deadline and a free list.

  Each method is one critical section under g_sem; the current time is a parameter.  The lists are
  sequences of slots.
 */
module TimerScheduler {
  import opened Arithmetic
  import opened TimerQueue

  const MAX_TIMER_NUMBER: nat := 0xFFF

  const TIMER_ERROR: int := -1

  const TIMER_OK: int := 1

  // ---------- what holds between calls ----------

  /**
    A slot's history: when it was last armed, for which interval in microseconds, and how often it
    fired since; how many messages it was set up to send, and sent; whether it was last set up by
    SetMsgTimer, and the queue named then; the function and parameter of the last SetTimer that had
    it, 0 if none did.
   */
  datatype History = History(
    armed: int, period: int, fired: nat, quota: int, sent: nat,
    message: bool, queue: int, func: nat, parameter: nat)

  /** n intervals; the product, by addition. */
  function Intervals(n: nat, iv: int): int {
    if n == 0 then 0 else Intervals(n - 1, iv) + iv
  }

  lemma {:induction false} IntervalsIsProduct(n: nat, iv: int)
    ensures Intervals(n, iv) == n * iv
  {
    if n > 0 {
      IntervalsIsProduct(n - 1, iv);
      assert n * iv == (n - 1) * iv + iv;
    }
  }

  /** The instant of the latest firing, or of the arming if there was none. */
  function Latest(t: Timer, h: History): int {
    h.armed + Intervals(h.fired, Micros(t.interval))
  }

  /** A running timer is due exactly one interval after its latest firing. */
  predicate Running(t: Timer, h: History, clock: int) {
    && Normal(t.tv) && Normal(t.interval) && t.interval.usec % 1000 == 0 && Micros(t.interval) > 0
    && Micros(t.tv) == Latest(t, h) + Micros(t.interval)
    && Latest(t, h) <= clock
    && Micros(t.interval) == h.period && t.msgid == h.queue
    && (if h.message then h.queue >= 0 else h.func != 0)
    && (t.func == 0 && h.quota > 0 ==> t.times > 0 && t.times + h.sent == h.quota)
    && (t.func == 0 && h.quota <= 0 ==> t.times <= 0)
  }

  predicate SlotOk(t: Timer, h: History, k: nat, working: bool, clock: int) {
    && t.id == k && t.state == (if working then 1 else 0) && (working ==> Running(t, h, clock))
    && SameFunction(t, h)
  }

  /** The slot holds the function that SetTimer last put there, with its parameter. */
  predicate SameFunction(t: Timer, h: History) {
    t.func == h.func && t.parameter == h.parameter
  }

  ghost predicate SlotIn(ts: seq<Timer>, past: seq<History>, work: seq<nat>, clock: int, k: nat)
    requires k < |ts| == |past|
  {
    SlotOk(ts[k], past[k], k, k in work, clock)
  }

  ghost predicate Consistent(ts: seq<Timer>, past: seq<History>, work: seq<nat>, free: seq<nat>, clock: int) {
    && |past| == |ts| && Partition(work, free, |ts|) && Sorted(ts, work)
    && forall k: nat {:trigger SlotIn(ts, past, work, clock, k)} :: k < |ts| ==> SlotIn(ts, past, work, clock, k)
  }

  /** Slot k is on exactly one of the lists, unless it is id. */
  predicate OnceBut(work: seq<nat>, free: seq<nat>, n: nat, k: nat, id: nat) {
    multiset(work)[k] + multiset(free)[k] == if k < n && k != id then 1 else 0
  }

  /** The same while slot id is on neither list. */
  ghost predicate Detached(ts: seq<Timer>, past: seq<History>, work: seq<nat>, free: seq<nat>, clock: int, id: nat) {
    && |past| == |ts| && id < |ts| && Sorted(ts, work)
    && (forall k: nat {:trigger OnceBut(work, free, |ts|, k, id)} :: OnceBut(work, free, |ts|, k, id))
    && forall k: nat {:trigger SlotIn(ts, past, work, clock, k)} ::
         k < |ts| && k != id ==> SlotIn(ts, past, work, clock, k)
  }

  const NO_HISTORY := History(0, 0, 0, 0, 0, false, 0, 0, 0)

  /** A slot after the array was cleared. */
  const ZERO := Timer(0, 0, 0, 0, Time(0, 0), Time(0, 0), 0, 0)

  function NoHistory(n: nat): (r: seq<History>)
    ensures |r| == n && forall i :: 0 <= i < n ==> r[i] == NO_HISTORY
  {
    seq(n, i => NO_HISTORY)
  }

  lemma OneMore(free: seq<nat>, n: nat)
    requires Partition([], free, n)
    ensures Partition([], free + [n], n + 1)
  {
    var free', n' := free + [n], n + 1;
    forall k: nat
      ensures Once([], free', n', k)
    {
      assert Once([], free, n, k);
    }
  }

  lemma AllFree(ts: seq<Timer>, past: seq<History>, free: seq<nat>, clock: int)
    requires |past| == |ts| && Partition([], free, |ts|)
    requires forall k :: 0 <= k < |ts| ==> ts[k] == ZERO.(id := k) && past[k] == NO_HISTORY
    ensures Consistent(ts, past, [], free, clock)
  {
  }

  lemma LaterClock(ts: seq<Timer>, past: seq<History>, work: seq<nat>, free: seq<nat>, clock: int, clock': int)
    requires Consistent(ts, past, work, free, clock) && clock <= clock'
    ensures Consistent(ts, past, work, free, clock')
  {
    forall k: nat | k < |ts|
      ensures SlotIn(ts, past, work, clock', k)
    {
      assert SlotIn(ts, past, work, clock, k);
    }
  }

  lemma DetachedAlone(ts: seq<Timer>, past: seq<History>, work: seq<nat>, free: seq<nat>, clock: int, id: nat)
    requires Detached(ts, past, work, free, clock, id)
    ensures id !in work && id !in free
  {
    assert OnceBut(work, free, |ts|, id, id);
    assert id in work <==> multiset(work)[id] > 0;
    assert id in free <==> multiset(free)[id] > 0;
  }

  /** Lists with the same members but id agree on all other slots. */
  lemma SlotsKept(ts: seq<Timer>, past: seq<History>, work: seq<nat>, work': seq<nat>, clock: int, id: nat)
    requires |past| == |ts|
    requires multiset(work) == multiset(work') + multiset{id} || multiset(work') == multiset(work) + multiset{id}
    requires forall k: nat {:trigger SlotIn(ts, past, work, clock, k)} ::
      k < |ts| && k != id ==> SlotIn(ts, past, work, clock, k)
    ensures forall k: nat {:trigger SlotIn(ts, past, work', clock, k)} ::
      k < |ts| && k != id ==> SlotIn(ts, past, work', clock, k)
  {
    forall k: nat | k < |ts| && k != id
      ensures SlotIn(ts, past, work', clock, k)
    {
      assert SlotIn(ts, past, work, clock, k);
      assert k in work' <==> multiset(work')[k] > 0;
      assert k in work <==> multiset(work)[k] > 0;
    }
  }

  /** Taking a slot off one of the lists. */
  lemma TakenOff(work: seq<nat>, free: seq<nat>, work': seq<nat>, free': seq<nat>, n: nat, id: nat)
    requires Partition(work, free, n)
    requires multiset(work) + multiset(free) == multiset(work') + multiset(free') + multiset{id}
    ensures id < n && forall k: nat {:trigger OnceBut(work', free', n, k, id)} :: OnceBut(work', free', n, k, id)
  {
    assert Once(work, free, n, id);
    assert (multiset(work) + multiset(free))[id] == (multiset(work') + multiset(free') + multiset{id})[id];
    forall k: nat
      ensures OnceBut(work', free', n, k, id)
    {
      assert Once(work, free, n, k);
      assert (multiset(work) + multiset(free))[k] == (multiset(work') + multiset(free') + multiset{id})[k];
    }
  }

  /** Putting it back on one of them. */
  lemma PutBack(work: seq<nat>, free: seq<nat>, work': seq<nat>, free': seq<nat>, n: nat, id: nat)
    requires id < n && forall k: nat {:trigger OnceBut(work, free, n, k, id)} :: OnceBut(work, free, n, k, id)
    requires multiset(work') + multiset(free') == multiset(work) + multiset(free) + multiset{id}
    ensures Partition(work', free', n)
  {
    forall k: nat
      ensures Once(work', free', n, k)
    {
      assert OnceBut(work, free, n, k, id);
      assert (multiset(work') + multiset(free'))[k] == (multiset(work) + multiset(free) + multiset{id})[k];
    }
  }

  lemma DetachFree(ts: seq<Timer>, past: seq<History>, work: seq<nat>, free: seq<nat>, clock: int)
    requires Consistent(ts, past, work, free, clock) && free != []
    ensures Detached(ts, past, work, free[1..], clock, free[0])
  {
    HeadMembers(free);
    TakenOff(work, free, work, free[1..], |ts|, free[0]);
  }

  lemma DetachHead(ts: seq<Timer>, past: seq<History>, work: seq<nat>, free: seq<nat>, clock: int)
    requires Consistent(ts, past, work, free, clock) && work != []
    ensures Detached(ts, past, work[1..], free, clock, work[0])
  {
    HeadMembers(work);
    TakenOff(work, free, work[1..], free, |ts|, work[0]);
    SlotsKept(ts, past, work, work[1..], clock, work[0]);
    TailSorted(ts, work);
  }

  lemma DetachErased(ts: seq<Timer>, past: seq<History>, work: seq<nat>, free: seq<nat>, clock: int, id: nat)
    requires Consistent(ts, past, work, free, clock) && id in work
    ensures Detached(ts, past, Erased(work, id), free, clock, id)
  {
    ErasedMembers(work, id);
    ErasedSorted(ts, work, id);
    assert multiset(work)[id] > 0;
    assert multiset(work) == multiset(Erased(work, id)) + multiset{id};
    TakenOff(work, free, Erased(work, id), free, |ts|, id);
    SlotsKept(ts, past, work, Erased(work, id), clock, id);
  }

  /** What happens to the detached slot itself is free. */
  lemma DetachedFrame(ts: seq<Timer>, past: seq<History>, work: seq<nat>, free: seq<nat>, clock: int, clock': int,
                      id: nat, t: Timer, h: History)
    requires Detached(ts, past, work, free, clock, id) && clock <= clock'
    ensures Detached(ts[id := t], past[id := h], work, free, clock', id)
  {
    DetachedAlone(ts, past, work, free, clock, id);
    SortedFrame(ts, ts[id := t], work, id);
    var ts', past' := ts[id := t], past[id := h];
    forall k: nat | k < |ts| && k != id
      ensures SlotIn(ts', past', work, clock', k)
    {
      assert SlotIn(ts, past, work, clock, k);
    }
  }

  lemma AttachFree(ts: seq<Timer>, past: seq<History>, work: seq<nat>, free: seq<nat>, clock: int, id: nat)
    requires Detached(ts, past, work, free, clock, id) && ts[id].id == id && ts[id].state == 0
    requires SameFunction(ts[id], past[id])
    ensures Consistent(ts, past, work, free + [id], clock)
  {
    DetachedAlone(ts, past, work, free, clock, id);
    PutBack(work, free, work, free + [id], |ts|, id);
    assert SlotIn(ts, past, work, clock, id);
  }

  lemma AttachWork(ts: seq<Timer>, past: seq<History>, work: seq<nat>, free: seq<nat>, clock: int, id: nat, k: nat)
    requires Detached(ts, past, work, free, clock, id) && k <= |work|
    requires ts[id].id == id && ts[id].state == 1 && Running(ts[id], past[id], clock)
    requires SameFunction(ts[id], past[id])
    requires Placed(ts, work, id, k)
    ensures Consistent(ts, past, InsertedAt(work, k, id), free, clock)
  {
    var work' := InsertedAt(work, k, id);
    InsertedMembers(work, k, id);
    InsertedSorted(ts, work, k, id);
    SlotsKept(ts, past, work, work', clock, id);
    PutBack(work, free, work', free, |ts|, id);
    assert work'[k] == id;
    assert SlotIn(ts, past, work', clock, id);
  }

  /** k is the place before the first timer that is not due earlier. */
  ghost predicate Placed(ts: seq<Timer>, work: seq<nat>, id: nat, k: nat)
  {
    && k <= |work|
    && (forall i :: 0 <= i < k ==> Deadline(ts, work[i]) < Deadline(ts, id))
    && (k < |work| ==> Deadline(ts, work[k]) >= Deadline(ts, id))
  }

  /** In an ordered list, the head is due first. */
  lemma HeadIsEarliest(ts: seq<Timer>, work: seq<nat>, id: nat)
    requires Sorted(ts, work) && id in work
    ensures Deadline(ts, work[0]) <= Deadline(ts, id)
  {
    var i: nat :| i < |work| && work[i] == id;
    assert i > 0 ==> InOrder(ts, work, 0, i);
  }

  /** A timer after one more firing: due one interval after the instant it was due at. */
  function Fired(t: Timer): (r: Timer)
    ensures r == t.(tv := r.tv) && Normal(r.tv) && Micros(r.tv) == Micros(t.tv) + Micros(t.interval)
  {
    t.(tv := Plus(t.tv, t.interval))
  }

  /** A message timer after one more message; the last of a limited number ends it. */
  function AfterMessage(t: Timer): (r: Timer)
    ensures r == t.(tv := r.tv, times := r.times, state := r.state)
    ensures Normal(r.tv) && Micros(r.tv) == Micros(t.tv) + Micros(t.interval)
    ensures r.times == (if t.times > 0 then t.times - 1 else t.times) && r.state == if t.times == 1 then 0 else t.state
  {
    if t.times <= 0 then Fired(t)
    else Fired(t).(times := t.times - 1, state := if t.times == 1 then 0 else t.state)
  }

  /** Firing once moves the schedule on by one interval, with no drift. */
  lemma FiredOnce(t: Timer, h: History, clock: int, now: int)
    requires Running(t, h, clock) && Micros(t.tv) <= now
    ensures Latest(Fired(t), h.(fired := h.fired + 1)) == Micros(t.tv) == h.armed + (h.fired + 1) * Micros(t.interval)
    ensures t.func != 0 ==> Running(Fired(t), h.(fired := h.fired + 1), now)
    ensures t.func == 0 && t.times != 1 ==> Running(AfterMessage(t), h.(fired := h.fired + 1, sent := h.sent + 1), now)
  {
    IntervalsIsProduct(h.fired + 1, Micros(t.interval));
  }

  /**
    Once nothing is due, every running timer has fired exactly as often as its interval fits into
    the time since it was armed.
   */
  lemma FiringCount(t: Timer, h: History, clock: int)
    requires Running(t, h, clock) && Micros(t.tv) > clock
    ensures h.fired == (clock - h.armed) / Micros(t.interval)
  {
    IntervalsIsProduct(h.fired, Micros(t.interval));
    var passed, step := clock - h.armed, Micros(t.interval);
    ModUnique(passed, step, h.fired, passed - h.fired * step);
  }

  /** The timer has fired exactly as often as its interval fits into the time since it was armed. */
  predicate CaughtUp(t: Timer, h: History, now: Time) {
    Micros(t.interval) > 0 && h.fired == (Micros(now) - h.armed) / Micros(t.interval)
  }

  /** A number of messages to go, after one; 0 or less means without end. */
  function LessOne(times: int): int {
    if times > 0 then times - 1 else times
  }

  /** What one round of the timer thread did. */
  datatype Outcome =
    | NothingToDo
    | NotYet(wakeAt: Time)
    | Called(id: nat, func: nat, parameter: nat)
    | Sent(id: nat, msgid: int, last: bool)

  class Scheduler {
    const timers: array<Timer>
    var work: seq<nat>
    var free: seq<nat>

    ghost var past: seq<History>
    ghost var clock: int

    ghost predicate Valid()
      reads this, timers
    {
      timers.Length == MAX_TIMER_NUMBER && Consistent(timers[..], past, work, free, clock)
    }

    /** timerInit. */
    constructor ()
      ensures Valid() && fresh(timers) && work == [] && |free| == MAX_TIMER_NUMBER
      ensures forall k :: 0 <= k < |free| ==> free[k] == k
      ensures past == NoHistory(MAX_TIMER_NUMBER)
    {
      timers := new Timer[MAX_TIMER_NUMBER](i => ZERO);
      work, free, clock, past := [], [], 0, NoHistory(MAX_TIMER_NUMBER);
      new;
      FillFree();
      AllFree(timers[..], past, free, clock);
    }

    /** All slots get their numbers and go on the free list. */
    method FillFree()
      requires free == [] && forall k :: 0 <= k < timers.Length ==> timers[k] == ZERO
      modifies this`free, timers
      ensures |free| == timers.Length && (forall k :: 0 <= k < |free| ==> free[k] == k)
      ensures Partition([], free, timers.Length)
      ensures forall k :: 0 <= k < timers.Length ==> timers[k] == ZERO.(id := k)
    {
      var b: nat := 0;
      while b < timers.Length
        invariant b <= timers.Length && |free| == b
        invariant forall k :: 0 <= k < b ==> free[k] == k
        invariant Partition([], free, b)
        invariant forall k :: 0 <= k < timers.Length ==> timers[k] == if k < b then ZERO.(id := k) else ZERO
      {
        timers[b] := timers[b].(id := b);
        OneMore(free, b);
        free := free + [b];
        b := b + 1;
      }
    }

    /** insertTimer: before the first timer that is not due earlier. */
    method InsertTimer(id: nat) returns (code: int, ghost k: nat)
      requires Detached(timers[..], past, work, free, clock, id)
      requires timers[id].id == id && timers[id].state == 1 && Running(timers[id], past[id], clock)
      requires SameFunction(timers[id], past[id])
      modifies this`work
      ensures k <= |old(work)| && work == InsertedAt(old(work), k, id) && Placed(timers[..], old(work), id, k)
      ensures Consistent(timers[..], past, work, free, clock)
      ensures code == (if old(work) == [] then 1 else if k < |old(work)| then 2 else 3)
    {
      ghost var ts := timers[..];
      if work == [] {
        k := 0;
        AttachWork(ts, past, work, free, clock, id, 0);
        work := [id] + work;
        return 1, 0;
      }
      var i := 0;
      while i < |work|
        invariant i <= |work| && work == old(work)
        invariant forall j :: 0 <= j < i ==> Deadline(ts, work[j]) < Deadline(ts, id)
      {
        Listed(i, id);
        var t := timers[work[i]];
        NotBeforeIsOrder(t.tv, timers[id].tv);
        if NotBefore(t.tv, timers[id].tv) {
          AttachWork(ts, past, work, free, clock, id, i);
          work := work[..i] + [id] + work[i..];
          return 2, i;
        }
        i := i + 1;
      }
      AttachWork(ts, past, work, free, clock, id, i);
      work := work + [id];
      return 3, i;
    }

    lemma Listed(i: nat, id: nat)
      requires Detached(timers[..], past, work, free, clock, id) && i < |work|
      ensures work[i] < timers.Length && Normal(timers[work[i]].tv)
      ensures Deadline(timers[..], work[i]) == Micros(timers[work[i]].tv)
      ensures Deadline(timers[..], id) == Micros(timers[id].tv)
    {
      var x := work[i];
      DetachedAlone(timers[..], past, work, free, clock, id);
      assert multiset(work)[x] > 0;
      assert OnceBut(work, free, timers.Length, x, id);
      assert SlotIn(timers[..], past, work, clock, x);
    }

    /** A slot's data as SetTimer, SetMsgTimer and ChangeTimerTime set its times: due one interval from now. */
    static function Armed(t: Timer, ms: int, now: Time): (r: Timer)
      requires ms > 0 && Normal(now)
      ensures r == t.(tv := r.tv, interval := r.interval) && DueIn(r, ms, now)
    {
      t.(interval := FromMillis(ms), tv := Plus(now, FromMillis(ms)))
    }

    /** The timer is due ms milliseconds from now, and at this interval from then on. */
    static predicate DueIn(t: Timer, ms: int, now: Time) {
      && Normal(t.tv) && Micros(t.tv) == Micros(now) + 1000 * ms
      && Normal(t.interval) && t.interval.usec % 1000 == 0 && Micros(t.interval) == 1000 * ms
    }

    /** The detached slot id gets its new data and goes on the work list. */
    method Launch(id: nat, t: Timer, ghost h: History, now: Time) returns (ghost k: nat)
      requires timers.Length == MAX_TIMER_NUMBER && Detached(timers[..], past, work, free, clock, id)
      requires t.id == id && t.state == 1 && Running(t, h, if clock < Micros(now) then Micros(now) else clock)
      requires SameFunction(t, h)
      modifies this`work, this`past, this`clock, timers
      ensures Valid() && timers[..] == old(timers[..])[id := t] && past == old(past)[id := h]
      ensures clock == if old(clock) < Micros(now) then Micros(now) else old(clock)
      ensures k <= |old(work)| && work == InsertedAt(old(work), k, id) && Placed(timers[..], old(work), id, k)
    {
      ghost var clock' := if clock < Micros(now) then Micros(now) else clock;
      DetachedFrame(timers[..], past, work, free, clock, clock', id, t, h);
      timers[id] := t;
      past := past[id := h];
      clock := clock';
      assert timers[..] == old(timers[..])[id := t];
      var code;
      code, k := InsertTimer(id);
    }

    /** GetTimerID. */
    method GetTimerID() returns (id: int)
      requires Valid()
      modifies this`free
      ensures old(free) == [] ==> id == TIMER_ERROR && free == [] && Valid()
      ensures old(free) != [] ==> id == old(free)[0] && free == old(free)[1..]
      ensures old(free) != [] ==> 0 <= id < timers.Length && Detached(timers[..], past, work, free, clock, id)
      ensures old(free) != [] ==> SameFunction(timers[id], past[id])
    {
      if free == [] {
        return TIMER_ERROR;
      }
      PartitionMeans(work, free, timers.Length, free[0]);
      StateMeans(free[0]);
      DetachFree(timers[..], past, work, free, clock);
      id := free[0];
      free := free[1..];
    }

    /** The slot's data for a function timer. */
    static function FunctionTimer(t: Timer, id: nat, ms: int, func: nat, parameter: nat, now: Time): Timer
      requires ms > 0 && Normal(now)
    {
      Armed(t, ms, now).(state := 1, id := id, func := func, parameter := parameter, msgid := -1)
    }

    /** The slot's data for a message timer: func stays what an earlier use left there. */
    static function MessageTimer(t: Timer, id: nat, ms: int, msgid: int, times: int, now: Time): Timer
      requires ms > 0 && Normal(now)
    {
      Armed(t, ms, now).(state := 1, id := id, msgid := msgid, times := times)
    }

    /**
      SetTimer: a function timer, due one interval from now; -1 for bad arguments or if no slot is
      free.  The slot keeps nothing but times from its earlier use.
     */
    method SetTimer(ms: int, func: nat, parameter: nat, now: Time) returns (id: int, ghost k: nat)
      requires Valid() && Normal(now)
      modifies this`work, this`free, this`past, this`clock, timers
      ensures Valid()
      ensures id == TIMER_ERROR <==> ms <= 0 || func == 0 || old(free) == []
      ensures id == TIMER_ERROR ==>
        timers[..] == old(timers[..]) && work == old(work) && free == old(free) && past == old(past)
      ensures id != TIMER_ERROR ==>
        && 0 <= id < timers.Length && old(free) == [id] + free
        && k <= |old(work)| && work == InsertedAt(old(work), k, id) && Placed(timers[..], old(work), id, k)
        && timers[..] == old(timers[..])[id := timers[id]] && DueIn(timers[id], ms, now)
        && timers[id] == Timer(1, old(timers[id].times), -1, id, timers[id].tv, timers[id].interval, func, parameter)
        && past == old(past)[id := History(Micros(now), 1000 * ms, 0, 0, 0, false, -1, func, parameter)]
    {
      k := 0;
      if ms <= 0 || func == 0 {
        return TIMER_ERROR, 0;
      }
      id := GetTimerID();
      if id != TIMER_ERROR {
        ghost var h := History(Micros(now), 1000 * ms, 0, 0, 0, false, -1, func, parameter);
        k := Launch(id, FunctionTimer(timers[id], id, ms, func, parameter, now), h, now);
      }
    }

    /** SetMsgTimer: a message timer, due one interval from now; function and parameter are what an earlier use left. */
    method SetMsgTimer(ms: int, msgid: int, times: int, now: Time) returns (id: int, ghost k: nat)
      requires Valid() && Normal(now)
      modifies this`work, this`free, this`past, this`clock, timers
      ensures Valid()
      ensures id == TIMER_ERROR <==> ms <= 0 || msgid < 0 || old(free) == []
      ensures id == TIMER_ERROR ==>
        timers[..] == old(timers[..]) && work == old(work) && free == old(free) && past == old(past)
      ensures id != TIMER_ERROR ==>
        && 0 <= id < timers.Length && old(free) == [id] + free
        && k <= |old(work)| && work == InsertedAt(old(work), k, id) && Placed(timers[..], old(work), id, k)
        && timers[..] == old(timers[..])[id := timers[id]] && DueIn(timers[id], ms, now)
        && timers[id] == Timer(1, times, msgid, id, timers[id].tv, timers[id].interval,
                               old(past[id].func), old(past[id].parameter))
        && past == old(past)[id := History(Micros(now), 1000 * ms, 0, times, 0, true, msgid,
                                           old(past[id].func), old(past[id].parameter))]
    {
      k := 0;
      if ms <= 0 || msgid < 0 {
        return TIMER_ERROR, 0;
      }
      id := GetTimerID();
      if id != TIMER_ERROR {
        ghost var h := History(Micros(now), 1000 * ms, 0, times, 0, true, msgid, past[id].func, past[id].parameter);
        k := Launch(id, MessageTimer(timers[id], id, ms, msgid, times, now), h, now);
      }
    }

    /** A slot is on the work list exactly when its state says so. */
    lemma StateMeans(id: nat)
      requires Valid() && id < timers.Length
      ensures timers[id].state == 1 <==> id in work
      ensures timers[id].state == 0 <==> id in free
      ensures id in work ==> Running(timers[id], past[id], clock) && timers[id].id == id
      ensures SameFunction(timers[id], past[id])
    {
      PartitionMeans(work, free, timers.Length, id);
      assert SlotIn(timers[..], past, work, clock, id);
    }

    /** The detached slot id gets its new data and goes on the free list. */
    method Retire(id: nat, t: Timer, ghost h: History, ghost clock': int)
      requires timers.Length == MAX_TIMER_NUMBER && Detached(timers[..], past, work, free, clock, id)
      requires t.id == id && t.state == 0 && clock <= clock' && SameFunction(t, h)
      modifies this`free, this`past, this`clock, timers
      ensures Valid() && timers[..] == old(timers[..])[id := t] && past == old(past)[id := h]
      ensures free == old(free) + [id]
      ensures clock == clock'
    {
      DetachedFrame(timers[..], past, work, free, clock, clock', id, t, h);
      timers[id] := t;
      past := past[id := h];
      clock := clock';
      assert timers[..] == old(timers[..])[id := t];
      AttachFree(timers[..], past, work, free, clock, id);
      free := free + [id];
    }

    /** KillTimer: a running timer stops; any other id is ignored. */
    method KillTimer(id: nat)
      requires Valid()
      modifies this`work, this`free, this`past, this`clock, timers
      ensures Valid()
      ensures id !in old(work) ==>
        timers[..] == old(timers[..]) && work == old(work) && free == old(free) && past == old(past)
      ensures id in old(work) ==>
        && id < timers.Length && work == Erased(old(work), id) && free == old(free) + [id]
        && timers[..] == old(timers[..])[id := old(timers[id]).(state := 0)] && past == old(past)
    {
      PartitionMeans(work, free, timers.Length, id);
      if id >= MAX_TIMER_NUMBER {
        return;
      }
      StateMeans(id);
      if timers[id].state == 0 {
        return;
      }
      DetachErased(timers[..], past, work, free, clock, id);
      work := Erased(work, id);
      assert past[id := past[id]] == past;
      Retire(id, timers[id].(state := 0), past[id], clock);
    }

    /** ChangeTimerTime: a running timer starts over with a new interval. */
    method ChangeTimerTime(id: nat, ms: int, now: Time) returns (code: int, ghost k: nat)
      requires Valid() && Normal(now)
      modifies this`work, this`past, this`clock, timers
      ensures Valid()
      ensures code == (if ms <= 0 || id !in old(work) then TIMER_ERROR else TIMER_OK)
      ensures code == TIMER_ERROR ==> timers[..] == old(timers[..]) && work == old(work) && past == old(past)
      ensures code == TIMER_OK ==>
        && id < timers.Length && k <= |Erased(old(work), id)| && work == InsertedAt(Erased(old(work), id), k, id)
        && Placed(timers[..], Erased(old(work), id), id, k) && DueIn(timers[id], ms, now)
        && timers[..] == old(timers[..])[id := old(timers[id]).(tv := timers[id].tv, interval := timers[id].interval)]
        && past == old(past)[id := old(past)[id].(armed := Micros(now), period := 1000 * ms, fired := 0)]
    {
      k := 0;
      PartitionMeans(work, free, timers.Length, id);
      if id >= MAX_TIMER_NUMBER || ms <= 0 {
        return TIMER_ERROR, 0;
      }
      StateMeans(id);
      if timers[id].state == 0 {
        return TIMER_ERROR, 0;
      }
      DetachErased(timers[..], past, work, free, clock, id);
      work := Erased(work, id);
      ghost var h := past[id].(armed := Micros(now), period := 1000 * ms, fired := 0);
      k := Launch(id, Armed(timers[id], ms, now), h, now);
      code := TIMER_OK;
    }

    /** GetTimerTime: the interval in milliseconds, or 0 for a slot that is not running. */
    method GetTimerTime(id: nat) returns (ms: int)
      requires Valid()
      ensures id !in work ==> ms == 0
      ensures id in work ==> id < timers.Length && ms * 1000 == Micros(timers[id].interval) == past[id].period
    {
      PartitionMeans(work, free, timers.Length, id);
      if id >= MAX_TIMER_NUMBER {
        return 0;
      }
      StateMeans(id);
      if timers[id].state == 0 {
        return 0;
      }
      ms := timers[id].interval.sec * 1000 + timers[id].interval.usec / 1000;
    }

    /** Timers that are due at the given instant. */
    ghost predicate Due(id: nat, now: Time)
      reads this, timers
      requires timers.Length == MAX_TIMER_NUMBER
    {
      id in work && id < timers.Length && Micros(timers[id].tv) <= Micros(now)
    }

    /** What the head of the work list says about all of it. */
    lemma HeadMeans(now: Time)
      requires Valid() && work != [] && Normal(now)
      ensures work[0] < timers.Length && timers[work[0]].state == 1 && Running(timers[work[0]], past[work[0]], clock)
      ensures timers[work[0]].id == work[0] && SameFunction(timers[work[0]], past[work[0]])
      ensures NotBefore(now, timers[work[0]].tv) <==> Due(work[0], now)
      ensures forall id <- work :: id < timers.Length && Micros(timers[work[0]].tv) <= Micros(timers[id].tv)
      ensures !Due(work[0], now) ==> forall id :: !Due(id, now)
    {
      PartitionMeans(work, free, timers.Length, work[0]);
      StateMeans(work[0]);
      NotBeforeIsOrder(now, timers[work[0]].tv);
      forall id | id in work
        ensures id < timers.Length && Micros(timers[work[0]].tv) <= Micros(timers[id].tv)
      {
        PartitionMeans(work, free, timers.Length, id);
        HeadIsEarliest(timers[..], work, id);
      }
    }

    lemma AllCaughtUp(now: Time)
      requires Valid() && clock == Micros(now) && forall id :: !Due(id, now)
      ensures forall id <- work :: id < timers.Length && CaughtUp(timers[id], past[id], now)
    {
      forall id | id in work
        ensures id < timers.Length && CaughtUp(timers[id], past[id], now)
      {
        PartitionMeans(work, free, timers.Length, id);
        StateMeans(id);
        assert !Due(id, now);
        FiringCount(timers[id], past[id], clock);
      }
    }

    /**
      One round of the timer thread.  It fires a timer exactly if one is due, then the one that is
      due first, and moves its schedule on by one interval.  A timer sends its message exactly if its
      slot was never set up by SetTimer; otherwise it calls the function left there.  A message
      timer set up for a number of messages leaves the work list with the last of them.
     */
    method Tick(now: Time) returns (r: Outcome, ghost k: nat)
      requires Valid() && Normal(now)
      modifies this`work, this`free, this`past, this`clock, timers
      ensures Valid()
      ensures r.NothingToDo? <==> old(work) == []
      ensures r.Called? || r.Sent? <==> exists id :: old(Due(id, now))
      ensures r.NothingToDo? || r.NotYet? ==>
        && timers[..] == old(timers[..]) && work == old(work) && free == old(free) && past == old(past)
      ensures r.NotYet? ==> clock == (if old(clock) < Micros(now) then Micros(now) else old(clock))
      ensures r.NotYet? && clock == Micros(now) ==>
        forall id <- work :: id < timers.Length && CaughtUp(timers[id], past[id], now)
      ensures r.Called? || r.Sent? ==>
        && old(work) != [] && r.id == old(work)[0] && old(Due(r.id, now))
        && old(past[r.id].armed + (past[r.id].fired + 1) * Micros(timers[r.id].interval))
           == old(Micros(timers[r.id].tv)) <= Micros(now)
        && forall id <- old(work) :: id < timers.Length && old(Micros(timers[r.id].tv)) <= old(Micros(timers[id].tv))
      ensures r.Called? || r.Sent? ==> (r.Sent? <==> old(past[r.id].func) == 0) && (r.Sent? ==> r.msgid >= 0)
      ensures r.Called? || r.Sent? ==>
        && Normal(timers[r.id].tv)
        && Micros(timers[r.id].tv) == old(Micros(timers[r.id].tv) + Micros(timers[r.id].interval))
      ensures r.Called? ==>
        && r.func == old(past[r.id].func) != 0 && r.parameter == old(past[r.id].parameter)
        && timers[..] == old(timers[..])[r.id := old(timers[r.id]).(tv := timers[r.id].tv)]
        && past == old(past)[r.id := old(past)[r.id].(fired := old(past)[r.id].fired + 1)]
        && k < |old(work)| && work == InsertedAt(old(work)[1..], k, r.id) && free == old(free)
        && Placed(timers[..], old(work)[1..], r.id, k)
      ensures r.Sent? ==>
        && old(past[r.id].func) == 0 && r.msgid == old(past[r.id].queue)
        && timers[..] == old(timers[..])[r.id := old(timers[r.id]).(
             tv := timers[r.id].tv, times := LessOne(old(timers[r.id].times)), state := if r.last then 0 else 1)]
        && past == old(past)[r.id := old(past)[r.id].(fired := old(past)[r.id].fired + 1,
                                                      sent := old(past)[r.id].sent + 1)]
        && (r.last <==> old(past)[r.id].quota > 0 && past[r.id].sent == old(past)[r.id].quota)
        && (r.last ==> work == old(work)[1..] && free == old(free) + [r.id])
        && (!r.last ==> k < |old(work)| && work == InsertedAt(old(work)[1..], k, r.id) && free == old(free))
        && (!r.last ==> Placed(timers[..], old(work)[1..], r.id, k))
    {
      k := 0;
      if work == [] {
        return NothingToDo, 0;
      }
      HeadMeans(now);
      var id := work[0];
      var t := timers[id];
      if t.state == 0 {
        assert false;
      }
      if !NotBefore(now, t.tv) {
        ghost var clock' := if clock < Micros(now) then Micros(now) else clock;
        LaterClock(timers[..], past, work, free, clock, clock');
        clock := clock';
        if clock == Micros(now) {
          AllCaughtUp(now);
        }
        return NotYet(t.tv), 0;
      }
      FiredOnce(t, past[id], clock, Micros(now));
      r, k := Fire(id, now);
    }

    /** The branch of the thread that fires the head of the work list. */
    method Fire(id: nat, now: Time) returns (r: Outcome, ghost k: nat)
      requires Valid() && Normal(now) && work != [] && id == work[0] && id < timers.Length
      requires Running(timers[id], past[id], clock) && Micros(timers[id].tv) <= Micros(now)
      requires timers[id].id == id && timers[id].state == 1
      requires SameFunction(timers[id], past[id])
      modifies this`work, this`free, this`past, this`clock, timers
      ensures Valid() && (r.Called? || r.Sent?) && r.id == id && (r.Sent? ==> r.msgid >= 0)
      ensures Normal(timers[id].tv) && Micros(timers[id].tv) == old(Micros(timers[id].tv) + Micros(timers[id].interval))
      ensures r.Called? ==>
        && r.func == old(past[id].func) != 0 && r.parameter == old(past[id].parameter)
        && timers[..] == old(timers[..])[id := old(timers[id]).(tv := timers[id].tv)]
        && past == old(past)[id := old(past)[id].(fired := old(past)[id].fired + 1)]
        && k < |old(work)| && work == InsertedAt(old(work)[1..], k, id) && free == old(free)
        && Placed(timers[..], old(work)[1..], id, k)
      ensures r.Sent? ==>
        && old(past[id].func) == 0 && r.msgid == old(past[id].queue)
        && timers[..] == old(timers[..])[id := old(timers[id]).(
             tv := timers[id].tv, times := LessOne(old(timers[id].times)), state := if r.last then 0 else 1)]
        && past == old(past)[id := old(past)[id].(fired := old(past)[id].fired + 1, sent := old(past)[id].sent + 1)]
        && (r.last <==> old(past)[id].quota > 0 && past[id].sent == old(past)[id].quota)
        && (r.last ==> work == old(work)[1..] && free == old(free) + [id])
        && (!r.last ==> k < |old(work)| && work == InsertedAt(old(work)[1..], k, id) && free == old(free))
        && (!r.last ==> Placed(timers[..], old(work)[1..], id, k))
    {
      var t := timers[id];
      ghost var h, clock' := past[id], if clock < Micros(now) then Micros(now) else clock;
      FiredOnce(t, h, clock, clock');
      DetachHead(timers[..], past, work, free, clock);
      work := work[1..];
      k := 0;
      if t.func != 0 {
        k := Launch(id, Fired(t), h.(fired := h.fired + 1), now);
        r := Called(id, t.func, t.parameter);
      } else if t.msgid >= 0 {
        ghost var h' := h.(fired := h.fired + 1, sent := h.sent + 1);
        if t.times == 1 {
          Retire(id, AfterMessage(t), h', clock');
          r := Sent(id, t.msgid, true);
        } else {
          k := Launch(id, AfterMessage(t), h', now);
          r := Sent(id, t.msgid, false);
        }
      } else {
        assert false;
      }
    }

    /** The first free slot is set up and given back, and is then the last one. */
    method SetAndKill(ms: int, msgid: int, now: Time)
      requires Valid() && Normal(now) && ms > 0 && msgid >= 0 && work == [] && free != []
      modifies this`work, this`free, this`past, this`clock, timers
      ensures Valid() && work == [] && free == old(free)[1..] + [old(free)[0]]
      ensures |past| == |old(past)| == MAX_TIMER_NUMBER
      ensures forall k: nat :: k < MAX_TIMER_NUMBER && k != old(free)[0] ==> past[k] == old(past[k])
    {
      var id, k := SetMsgTimer(ms, msgid, 0, now);
      var slot: nat := id;
      AloneInList(k, slot);
      KillTimer(slot);
    }
  }

  /**
    A concrete run in which a message timer calls a function instead of sending its message: a
    function timer is set and killed, the free list goes round once, and the slot is set up again.
   */
  method StaleFunction(ms: int, func: nat, parameter: nat, msgid: int, now: Time) returns (s: Scheduler, r: Outcome)
    requires ms > 0 && func != 0 && msgid >= 0 && Normal(now)
    ensures r == Called(0, func, parameter) && s.Valid() && s.past[0].message
  {
    s := new Scheduler();
    ghost var free := s.free;
    var id, k := s.SetTimer(ms, func, parameter, now);
    assert free[0] == id == 0;
    var slot: nat := id;
    AloneInList(k, slot);
    s.KillTimer(slot);
    var i := 1;
    while i < MAX_TIMER_NUMBER
      invariant 1 <= i <= MAX_TIMER_NUMBER && s.Valid() && fresh(s) && fresh(s.timers)
      invariant s.work == [] && |s.free| == MAX_TIMER_NUMBER && s.free[MAX_TIMER_NUMBER - i] == 0
      invariant |s.past| == MAX_TIMER_NUMBER && s.past[0].func == func && s.past[0].parameter == parameter
    {
      FreeOnce(s.work, s.free, s.timers.Length, 0, MAX_TIMER_NUMBER - i);
      s.SetAndKill(ms, msgid, now);
      i := i + 1;
    }
    id, k := s.SetMsgTimer(ms, msgid, 1, now);
    assert s.work == [0];
    assert s.Due(0, s.timers[0].tv);
    r, k := s.Tick(s.timers[0].tv);
  }

  // ---------- what fires is what was asked for ----------

  /** A call on the scheduler, or a round of its thread. */
  datatype Call =
    | CallSet(ms: int, func: nat, parameter: nat, now: Time)
    | CallSetMsg(ms: int, msgid: int, times: int, now: Time)
    | CallKill(id: nat)
    | CallChange(id: nat, ms: int, now: Time)
    | Round(now: Time)

  /** What became of it. */
  datatype Event =
    | Nothing
    | FunctionSet(id: nat, func: nat, parameter: nat)
    | MessageSet(id: nat, queue: int)
    | Did(r: Outcome)

  /** Function and parameter of the last SetTimer that got slot id; 0 if none did. */
  function LastFunction(trace: seq<Event>, id: nat): (nat, nat) {
    if trace == [] then (0, 0) else
      var e := trace[|trace| - 1];
      if e.FunctionSet? && e.id == id then (e.func, e.parameter) else LastFunction(trace[..|trace| - 1], id)
  }

  /** The queue named when slot id was last set up. */
  function LastQueue(trace: seq<Event>, id: nat): int {
    if trace == [] then 0 else
      var e := trace[|trace| - 1];
      if e.MessageSet? && e.id == id then e.queue
      else if e.FunctionSet? && e.id == id then -1 else LastQueue(trace[..|trace| - 1], id)
  }

  /**
    A firing after the given events: the last function given to the slot, with its parameter, if there
    ever was one; otherwise a message to the queue given last.
   */
  predicate AsAsked(trace: seq<Event>, e: Event) {
    match e
    case Did(Called(id, func, parameter)) => (func, parameter) == LastFunction(trace, id) && func != 0
    case Did(Sent(id, msgid, last)) => LastFunction(trace, id).0 == 0 && msgid == LastQueue(trace, id) >= 0
    case _ => true
  }

  /** The slots' histories record the events. */
  ghost predicate Recorded(past: seq<History>, trace: seq<Event>) {
    forall id: nat :: id < |past| ==>
      (past[id].func, past[id].parameter) == LastFunction(trace, id) && past[id].queue == LastQueue(trace, id)
  }

  lemma RecordedNext(past: seq<History>, past': seq<History>, trace: seq<Event>, e: Event)
    requires Recorded(past, trace) && |past'| == |past|
    requires forall id: nat :: id < |past| ==>
      && (past'[id].func, past'[id].parameter)
         == (if e.FunctionSet? && e.id == id then (e.func, e.parameter) else (past[id].func, past[id].parameter))
      && past'[id].queue == if e.MessageSet? && e.id == id then e.queue
                            else if e.FunctionSet? && e.id == id then -1 else past[id].queue
    ensures Recorded(past', trace + [e])
  {
    assert (trace + [e])[..|trace|] == trace;
  }

  /** One call, and what became of it. */
  method Perform(s: Scheduler, c: Call, ghost trace: seq<Event>) returns (e: Event)
    requires s.Valid() && Recorded(s.past, trace) && (c.CallKill? || Normal(c.now))
    modifies s, s.timers
    ensures s.Valid() && Recorded(s.past, trace + [e]) && AsAsked(trace, e)
    ensures c.Round? ==> e.Did?
  {
    ghost var past := s.past;
    e := Nothing;
    match c {
      case CallSet(ms, func, parameter, now) =>
        var id, k := s.SetTimer(ms, func, parameter, now);
        if id != TIMER_ERROR {
          e := FunctionSet(id, func, parameter);
        }
      case CallSetMsg(ms, msgid, times, now) =>
        var id, k := s.SetMsgTimer(ms, msgid, times, now);
        if id != TIMER_ERROR {
          e := MessageSet(id, msgid);
        }
      case CallKill(id) =>
        s.KillTimer(id);
      case CallChange(id, ms, now) =>
        var code, k := s.ChangeTimerTime(id, ms, now);
      case Round(now) =>
        var r, k := s.Tick(now);
        e := Did(r);
    }
    RecordedNext(past, s.past, trace, e);
  }

  /** Every run of calls and rounds from initialisation: whatever fires is what was asked for last. */
  method Play(calls: seq<Call>) returns (trace: seq<Event>)
    requires forall c <- calls :: c.CallKill? || Normal(c.now)
    ensures |trace| == |calls| && forall i :: 0 <= i < |trace| ==> AsAsked(trace[..i], trace[i])
    ensures forall i :: 0 <= i < |trace| && calls[i].Round? ==> trace[i].Did?
  {
    var s := new Scheduler();
    trace := [];
    while |trace| < |calls|
      invariant |trace| <= |calls| && s.Valid() && fresh(s) && fresh(s.timers) && Recorded(s.past, trace)
      invariant forall i :: 0 <= i < |trace| ==> AsAsked(trace[..i], trace[i])
      invariant forall i :: 0 <= i < |trace| && calls[i].Round? ==> trace[i].Did?
    {
      var e := Perform(s, calls[|trace|], trace);
      assert forall i :: 0 <= i < |trace| ==> (trace + [e])[..i] == trace[..i];
      assert (trace + [e])[..|trace|] == trace;
      trace := trace + [e];
    }
  }
}
