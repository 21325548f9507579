/**
  Times and deadline-ordered lists of timer/module_timer.c, as values.
 */
module TimerQueue {

  /** struct timeval. */
  datatype Time = Time(sec: int, usec: int)

  const MILLION: int := 1_000_000

  predicate Normal(t: Time) {
    0 <= t.usec < MILLION
  }

  function Micros(t: Time): int {
    t.sec * MILLION + t.usec
  }

  /** cmptime: not earlier than. */
  predicate NotBefore(a: Time, b: Time) {
    a.sec > b.sec || (a.sec == b.sec && a.usec >= b.usec)
  }

  /** On normalised times the comparison field by field is that of the instants. */
  lemma NotBeforeIsOrder(a: Time, b: Time)
    requires Normal(a) && Normal(b)
    ensures NotBefore(a, b) <==> Micros(a) >= Micros(b)
  {
  }

  /** The source's sum of two times, with the carry. */
  function Plus(t: Time, d: Time): (r: Time)
    ensures Normal(r) && Micros(r) == Micros(t) + Micros(d)
  {
    Time(t.sec + d.sec + (t.usec + d.usec) / MILLION, (t.usec + d.usec) % MILLION)
  }

  /** An interval given in milliseconds. */
  function FromMillis(ms: int): (r: Time)
    requires ms > 0
    ensures Normal(r) && r.usec % 1000 == 0 && Micros(r) == ms * 1000
  {
    Time(ms / 1000, ms % 1000 * 1000)
  }

  /** st_timer without its list links; func 0 is NULL. */
  datatype Timer = Timer(
    state: int, times: int, msgid: int, id: nat,
    tv: Time, interval: Time, func: nat, parameter: nat)

  function Deadline(ts: seq<Timer>, id: nat): int {
    if id < |ts| then Micros(ts[id].tv) else 0
  }

  predicate InOrder(ts: seq<Timer>, work: seq<nat>, i: nat, j: nat)
    requires i < j < |work|
  {
    Deadline(ts, work[i]) <= Deadline(ts, work[j])
  }

  ghost predicate Sorted(ts: seq<Timer>, work: seq<nat>) {
    forall i: nat, j: nat {:trigger InOrder(ts, work, i, j)} :: i < j < |work| ==> InOrder(ts, work, i, j)
  }

  function InsertedAt(s: seq<nat>, k: nat, x: nat): seq<nat>
    requires k <= |s|
  {
    s[..k] + [x] + s[k..]
  }

  /** list_erase. */
  function Erased(s: seq<nat>, x: nat): seq<nat> {
    if s == [] then [] else if s[0] == x then s[1..] else [s[0]] + Erased(s[1..], x)
  }

  /** A slot inserted into an empty list and erased again. */
  lemma AloneInList(k: nat, x: nat)
    requires k == 0
    ensures InsertedAt([], k, x) == [x] && Erased([x], x) == []
  {
  }

  lemma InsertedMembers(s: seq<nat>, k: nat, x: nat)
    requires k <= |s|
    ensures multiset(InsertedAt(s, k, x)) == multiset(s) + multiset{x}
  {
    assert s == s[..k] + s[k..];
  }

  /** x goes before the first entry that is not earlier. */
  lemma InsertedSorted(ts: seq<Timer>, s: seq<nat>, k: nat, x: nat)
    requires Sorted(ts, s) && k <= |s|
    requires forall i :: 0 <= i < k ==> Deadline(ts, s[i]) < Deadline(ts, x)
    requires k < |s| ==> Deadline(ts, s[k]) >= Deadline(ts, x)
    ensures Sorted(ts, InsertedAt(s, k, x))
  {
    var r := InsertedAt(s, k, x);
    forall i: nat, j: nat | i < j < |r|
      ensures InOrder(ts, r, i, j)
    {
      var i', j' := if i < k then i else i - 1, j - 1;
      assert r[i] == if i == k then x else s[i'];
      assert r[j] == if j < k then s[j] else if j == k then x else s[j'];
      assert j < k ==> InOrder(ts, s, i, j);
      assert i != k && k < j && i' < j' ==> InOrder(ts, s, i', j');
      assert k < j' ==> InOrder(ts, s, k, j');
    }
  }

  lemma {:induction false} ErasedPlace(s: seq<nat>, x: nat) returns (k: nat)
    requires x in s
    ensures k < |s| && s[k] == x && Erased(s, x) == s[..k] + s[k + 1..]
  {
    if s[0] == x {
      k := 0;
    } else {
      k := ErasedPlace(s[1..], x);
      k := k + 1;
      assert s[..k] == [s[0]] + s[1..][..k - 1] && s[k + 1..] == s[1..][k..];
    }
  }

  lemma ErasedMembers(s: seq<nat>, x: nat)
    requires x in s
    ensures multiset(Erased(s, x)) == multiset(s) - multiset{x}
  {
    var k := ErasedPlace(s, x);
    assert s == s[..k] + [x] + s[k + 1..];
  }

  lemma ErasedSorted(ts: seq<Timer>, s: seq<nat>, x: nat)
    requires Sorted(ts, s) && x in s
    ensures Sorted(ts, Erased(s, x))
  {
    var k := ErasedPlace(s, x);
    CutSorted(ts, s, k);
  }

  lemma CutSorted(ts: seq<Timer>, s: seq<nat>, k: nat)
    requires Sorted(ts, s) && k < |s|
    ensures Sorted(ts, s[..k] + s[k + 1..])
  {
    var r := s[..k] + s[k + 1..];
    forall i: nat, j: nat | i < j < |r|
      ensures InOrder(ts, r, i, j)
    {
      var i', j' := if i < k then i else i + 1, if j < k then j else j + 1;
      assert r[i] == s[i'] && r[j] == s[j'];
      assert InOrder(ts, s, i', j');
    }
  }

  lemma TailSorted(ts: seq<Timer>, s: seq<nat>)
    requires Sorted(ts, s) && s != []
    ensures Sorted(ts, s[1..])
  {
    var r := s[1..];
    forall i: nat, j: nat | i < j < |r|
      ensures InOrder(ts, r, i, j)
    {
      assert InOrder(ts, s, i + 1, j + 1);
    }
  }

  /** A change to a timer that is not listed does not disturb the order. */
  lemma SortedFrame(ts: seq<Timer>, ts': seq<Timer>, work: seq<nat>, id: nat)
    requires Sorted(ts, work) && |ts'| == |ts| && id !in work
    requires forall k: nat :: k < |ts| && k != id ==> ts'[k] == ts[k]
    ensures Sorted(ts', work)
  {
    forall i: nat, j: nat | i < j < |work|
      ensures InOrder(ts', work, i, j)
    {
      assert InOrder(ts, work, i, j);
    }
  }

  // ---------- work list and free list ----------

  /** Slot k is on exactly one of the lists, once; slots from n on are on none. */
  predicate Once(work: seq<nat>, free: seq<nat>, n: nat, k: nat) {
    multiset(work)[k] + multiset(free)[k] == if k < n then 1 else 0
  }

  /** Every slot is on exactly one of the lists. */
  ghost predicate Partition(work: seq<nat>, free: seq<nat>, n: nat) {
    forall k: nat {:trigger Once(work, free, n, k)} :: Once(work, free, n, k)
  }

  lemma PartitionMeans(work: seq<nat>, free: seq<nat>, n: nat, id: nat)
    requires Partition(work, free, n)
    ensures id < n <==> id in work || id in free
    ensures !(id in work && id in free)
    ensures multiset(work)[id] <= 1 && multiset(free)[id] <= 1
  {
    assert Once(work, free, n, id);
    assert id in work <==> multiset(work)[id] > 0;
    assert id in free <==> multiset(free)[id] > 0;
  }

  /** A list of slots has no slot twice. */
  lemma FreeOnce(work: seq<nat>, free: seq<nat>, n: nat, i: nat, j: nat)
    requires Partition(work, free, n) && i < j < |free|
    ensures free[i] != free[j]
  {
    PartitionMeans(work, free, n, free[i]);
    assert free == free[..j] + free[j..];
    assert free[i] == free[..j][i];
  }

  lemma HeadMembers(s: seq<nat>)
    requires s != []
    ensures multiset(s) == multiset(s[1..]) + multiset{s[0]}
  {
    assert s == [s[0]] + s[1..];
  }
}
