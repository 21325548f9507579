/** Sequence-number arithmetic of the UDP link (udp/ex_udp.h). */
module UdpSequence {
  import opened Arithmetic

  // The ring length and the modulus of the numbers on the wire have no fixed value here: any
  // ring of at least two slots whose gap lists fit a packet, and any multiple of its length, at
  // least twice.  The header has 511 and 4 * 511.  The two comparison macros are written out
  // branch by branch; the lemmas say which modular windows they decide and how those windows
  // relate to the unbounded ("absolute") numbers that the proofs carry.

  const MAX_PACKET_DATA_SIZE: nat := 1464

  type RingLength = n: nat | 2 <= n && 2 * (n - 1) < MAX_PACKET_DATA_SIZE witness 0x1FF

  const MAX_PACKET_NUMBER: RingLength

  type Modulus = q: nat | 2 * MAX_PACKET_NUMBER <= q && Rem(q, MAX_PACKET_NUMBER) == 0 witness FourRings()

  const MAX_PACKET_SEQ: Modulus

  /** The modulus of the header: four times the ring length. */
  function FourRings(): (q: nat)
    ensures 2 * MAX_PACKET_NUMBER <= q && Rem(q, MAX_PACKET_NUMBER) == 0
  {
    var n := MAX_PACKET_NUMBER;
    assert Rem(n, n) == Rem(0, n) == 0;
    assert Rem(n + n, n) == Rem(n, n);
    assert Rem(n + n + n, n) == Rem(n + n, n);
    assert Rem(n + n + n + n, n) == Rem(n + n + n, n);
    n + n + n + n
  }

  /** a % MAX_PACKET_SEQ: the number that travels on the wire for absolute number a. */
  function Wire(a: nat): (w: nat)
    ensures w < MAX_PACKET_SEQ
  {
    Rem(a, MAX_PACKET_SEQ)
  }

  /** a % MAX_PACKET_NUMBER: the ring slot of absolute (or wire) number a. */
  function SlotOf(a: nat): (i: nat)
    ensures i < MAX_PACKET_NUMBER
  {
    Rem(a, MAX_PACKET_NUMBER)
  }

  /** The macro CMP_SEQ, for a ring of n slots and numbers modulo q. */
  predicate CmpSeqIn(n: nat, q: nat, head: nat, tail: nat) {
    || (head > tail && head < tail + n)
    || (head < tail && head + q < tail + n)
  }

  /** The macro CMP_SEQ_ORDER, for a ring of n slots and numbers modulo q. */
  predicate CmpSeqOrderIn(n: nat, q: nat, head: nat, mid: nat, tail: nat) {
    || (head <= mid && mid < tail && head + n > tail)
    || (head <= mid && head > tail && head + n > tail + q)
    || (head > tail && mid < tail && head + n > tail + q)
  }

  predicate CmpSeq(head: nat, tail: nat) {
    CmpSeqIn(MAX_PACKET_NUMBER, MAX_PACKET_SEQ, head, tail)
  }

  predicate CmpSeqOrder(head: nat, mid: nat, tail: nat) {
    CmpSeqOrderIn(MAX_PACKET_NUMBER, MAX_PACKET_SEQ, head, mid, tail)
  }

  /** CMP_SEQ decides exactly the window 0 < head - tail < n (mod q), whatever n and q are. */
  lemma CmpSeqIsWindow(n: nat, q: nat, head: nat, tail: nat)
    requires 0 < n <= q && head < q && tail < q
    ensures CmpSeqIn(n, q, head, tail) <==> 0 < (head - tail) % q < n
  {
    ModNear(head - tail, q);
  }

  /** CMP_SEQ_ORDER decides exactly mid - head < tail - head < n (mod q), whatever n and q are. */
  lemma CmpSeqOrderIsWindow(n: nat, q: nat, head: nat, mid: nat, tail: nat)
    requires 0 < n <= q && head < q && mid < q && tail < q
    ensures CmpSeqOrderIn(n, q, head, mid, tail)
            <==> (mid - head) % q < (tail - head) % q < n
  {
    ModNear(mid - head, q);
    ModNear(tail - head, q);
  }

  // ---------- distances ----------

  /** How many steps w lies after from: (w - from) modulo the sequence modulus. */
  function Offset(from: nat, w: nat): (d: nat)
    requires from < MAX_PACKET_SEQ
    ensures w < MAX_PACKET_SEQ ==> d < MAX_PACKET_SEQ
  {
    if from <= w then w - from else w + MAX_PACKET_SEQ - from
  }

  /** Ahead of b by less than the modulus, wire numbers are as far apart as absolute ones. */
  lemma WireOffset(a: nat, b: nat)
    requires b <= a < b + MAX_PACKET_SEQ
    ensures Offset(Wire(b), Wire(a)) == a - b
  {
    RemAdd(b, a - b, MAX_PACKET_SEQ);
    assert Wire(b) + (a - b) >= MAX_PACKET_SEQ ==> Wire(a) == Wire(b) + (a - b) - MAX_PACKET_SEQ;
  }

  /** Behind b by at most the modulus, they are the rest of it apart. */
  lemma WireBehind(a: nat, b: nat)
    requires a < b <= a + MAX_PACKET_SEQ
    ensures Offset(Wire(b), Wire(a)) == a + MAX_PACKET_SEQ - b
  {
    assert Wire(a + MAX_PACKET_SEQ) == Wire(a);
    WireOffset(a + MAX_PACKET_SEQ, b);
  }

  /** Walking on from h to wire number w. */
  lemma OffsetWire(h: nat, w: nat)
    requires w < MAX_PACKET_SEQ
    ensures Wire(h + Offset(Wire(h), w)) == w && SlotOf(h + Offset(Wire(h), w)) == SlotOf(w)
  {
    RemAdd(h, Offset(Wire(h), w), MAX_PACKET_SEQ);
    SlotOfWire(h + Offset(Wire(h), w));
  }

  /** The macros on wire numbers, in terms of distances. */
  lemma CmpSeqOffset(head: nat, tail: nat)
    requires head < MAX_PACKET_SEQ && tail < MAX_PACKET_SEQ
    ensures CmpSeq(head, tail) <==> 0 < Offset(tail, head) < MAX_PACKET_NUMBER
  {
  }

  lemma CmpSeqOrderOffset(head: nat, mid: nat, tail: nat)
    requires head < MAX_PACKET_SEQ && mid < MAX_PACKET_SEQ && tail < MAX_PACKET_SEQ
    ensures CmpSeqOrder(head, mid, tail) <==> Offset(head, mid) < Offset(head, tail) < MAX_PACKET_NUMBER
  {
  }

  // ---------- how old a packet may be ----------

  /** How far behind the reader a delivered data packet may be. */
  const LIFETIME: nat := MAX_PACKET_SEQ - MAX_PACKET_NUMBER

  /** The receive test of UserDataRecv. */
  predicate InReceiveWindow(seqNo: nat, read: nat) {
    CmpSeq(seqNo, read) || seqNo == read
  }

  /**
    Within the lifetime bound the receive test on wire numbers is exactly the window test on
    absolute numbers, and the bound cannot be relaxed: one number older is taken for a new one.
   */
  lemma ReceiveWindowExact(a: nat, r: nat)
    ensures r <= a + LIFETIME && a < r + MAX_PACKET_NUMBER
            ==> (InReceiveWindow(Wire(a), Wire(r)) <==> r <= a)
    ensures r == a + LIFETIME + 1 ==> InReceiveWindow(Wire(a), Wire(r))
  {
    CmpSeqOffset(Wire(a), Wire(r));
    if r <= a < r + MAX_PACKET_SEQ {
      WireOffset(a, r);
    } else if a < r <= a + MAX_PACKET_SEQ {
      WireBehind(a, r);
    }
  }

  /**
    The acknowledgement test of SeqReportAck, with a window (c, m) narrower than the ring: it
    accepts exactly the reports c <= a, for reports up to LIFETIME + 1 behind c; one number older,
    with the window at its widest, is accepted wrongly.
   */
  lemma ReportWindowExact(c: nat, a: nat, m: nat)
    requires c < m < c + MAX_PACKET_NUMBER && a < m
    ensures c <= a + LIFETIME + 1 ==> (CmpSeqOrder(Wire(c), Wire(a), Wire(m)) <==> c <= a)
    ensures m == c + MAX_PACKET_NUMBER - 1 && c == a + LIFETIME + 2
            ==> CmpSeqOrder(Wire(c), Wire(a), Wire(m))
  {
    CmpSeqOrderOffset(Wire(c), Wire(a), Wire(m));
    WireOffset(m, c);
    if c <= a {
      WireOffset(a, c);
    } else if c <= a + MAX_PACKET_SEQ {
      WireBehind(a, c);
    }
  }

  // ---------- slots ----------

  /** Wire numbers and slots are faithful on stretches shorter than the modulus and the ring. */
  lemma WireInjective(a: nat, b: nat)
    requires Wire(a) == Wire(b) && a < b + MAX_PACKET_SEQ && b < a + MAX_PACKET_SEQ
    ensures a == b
  {
    RemUnique(a, b, MAX_PACKET_SEQ);
  }

  lemma SlotInjective(a: nat, b: nat)
    requires SlotOf(a) == SlotOf(b) && a < b + MAX_PACKET_NUMBER && b < a + MAX_PACKET_NUMBER
    ensures a == b
  {
    RemUnique(a, b, MAX_PACKET_NUMBER);
  }

  lemma SlotOfWire(a: nat)
    ensures SlotOf(Wire(a)) == SlotOf(a)
  {
    RemNested(a, MAX_PACKET_SEQ, MAX_PACKET_NUMBER);
  }

  /** Counting on from a wire number. */
  lemma WireNext(w: nat)
    requires w < MAX_PACKET_SEQ
    ensures Wire(w + 1) == if w + 1 == MAX_PACKET_SEQ then 0 else w + 1
  {
    assert Rem(0, MAX_PACKET_SEQ) == 0;
  }

  lemma WireSucc(a: nat)
    ensures Wire(Wire(a) + 1) == Wire(a + 1)
  {
    RemAdd(a, 1, MAX_PACKET_SEQ);
  }

  lemma SlotSucc(a: nat)
    ensures SlotOf(Wire(a) + 1) == SlotOf(a + 1)
  {
    SlotOfWire(a);
    RemAdd(Wire(a), 1, MAX_PACKET_NUMBER);
    RemAdd(a, 1, MAX_PACKET_NUMBER);
  }

  lemma SlotWrap(a: nat)
    ensures SlotOf(a + MAX_PACKET_NUMBER) == SlotOf(a)
  {
  }
}
