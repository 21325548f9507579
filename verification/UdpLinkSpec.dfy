/**
  What each handler of the UDP link does, as functions on values.

  Tx holds the fields of s_link that a sender uses, Rx those that a receiver uses; UdpLink
  proves that the in-place handlers compute these functions.
 */
module UdpLinkSpec {
  import opened Arithmetic
  import opened UdpSequence

  const LEN_PACKET_HEAD: nat := 8

  datatype Option<+T> = None | Some(value: T)

  /** One element of paArraySend or paArrayRecv: header number, header check number, length, data. */
  datatype Slot = Slot(seqNo: nat, seqCheck: nat, len: nat, buf: seq<Byte>)

  /** The packet types of the established phase. */
  datatype Packet =
    | UserData(seqNo: nat, seqCheck: nat, len: nat, buf: seq<Byte>)
    | SeqCheckPacket(seqNo: nat, seqCheck: nat)
    | SeqReportPacket(seqNo: nat, seqCheck: nat)
    | SeqLackPacket(entries: seq<nat>, seqCheck: nat)

  datatype Tx = Tx(maxSend: nat, checkSend: nat, ring: seq<Slot>) {
    predicate Ok() {
      maxSend < MAX_PACKET_SEQ && checkSend < MAX_PACKET_SEQ && |ring| == MAX_PACKET_NUMBER
    }

    /** The number every outgoing packet carries in seqCheck (SendMsg). */
    function NextUnacked(): nat {
      Wire(checkSend + 1)
    }

    /** The free-slot test of exSend. */
    predicate CanSend() {
      SlotOf(maxSend + 1) != SlotOf(checkSend)
    }
  }

  datatype Rx = Rx(read: nat, readMax: nat, ring: seq<Slot>) {
    predicate Ok() {
      read < MAX_PACKET_SEQ && readMax < MAX_PACKET_SEQ && |ring| == MAX_PACKET_NUMBER
    }

    /** The number before the one to be read next: what SEQ_REPORT carries. */
    function Reported(): nat {
      if read == 0 then MAX_PACKET_SEQ - 1 else read - 1
    }
  }

  predicate ValidLength(len: int) {
    0 < len <= MAX_PACKET_DATA_SIZE
  }

  predicate Holds(ring: seq<Slot>, s: nat)
    requires |ring| == MAX_PACKET_NUMBER
  {
    ring[SlotOf(s)].seqNo == s && ring[SlotOf(s)].len != 0
  }

  // ---------- sender ----------

  /** exSend after its free-slot test; sent says whether sendto succeeded. */
  function Send(t: Tx, buf: seq<Byte>, sent: bool): Tx
    requires t.Ok()
  {
    var slot := Slot(t.maxSend, t.NextUnacked(), LEN_PACKET_HEAD + |buf|, buf);
    Tx(if sent then Wire(t.maxSend + 1) else t.maxSend,
       t.checkSend,
       t.ring[SlotOf(t.maxSend) := slot])
  }

  function DataOf(slot: Slot): Packet {
    UserData(slot.seqNo, slot.seqCheck, slot.len, slot.buf)
  }

  /** SeqReportAck. */
  function ReportAck(t: Tx, seqNo: nat): Tx {
    if CmpSeqOrder(t.checkSend, seqNo, t.maxSend) then t.(checkSend := seqNo) else t
  }

  predicate Resendable(t: Tx, entry: nat) {
    entry < MAX_PACKET_SEQ && CmpSeqOrder(t.NextUnacked(), entry, t.maxSend)
  }

  /** One retransmission: SendMsg refreshes seqCheck in the slot it sends. */
  function Refresh(t: Tx, entry: nat): Tx
    requires t.Ok()
  {
    var i := SlotOf(entry);
    t.(ring := t.ring[i := t.ring[i].(seqCheck := t.NextUnacked())])
  }

  /** SeqLackAck: resend the listed packets up to the first entry outside the window. */
  function LackAck(t: Tx, entries: seq<nat>): (r: (Tx, seq<Packet>))
    requires t.Ok()
    ensures r.0.Ok() && r.0.maxSend == t.maxSend && r.0.checkSend == t.checkSend
    decreases |entries|
  {
    if entries == [] || !Resendable(t, entries[0]) then (t, [])
    else
      var t1 := Refresh(t, entries[0]);
      var rest := LackAck(t1, entries[1..]);
      (rest.0, [DataOf(t1.ring[SlotOf(entries[0])])] + rest.1)
  }

  /** After usp entries, with the sender at t and out sent, the rest of the list completes SeqLackAck. */
  predicate Answering(t0: Tx, entries: seq<nat>, t: Tx, usp: nat, out: seq<Packet>)
    requires t0.Ok() && t.Ok() && usp <= |entries|
  {
    var rest := LackAck(t, entries[usp..]);
    LackAck(t0, entries) == (rest.0, out + rest.1)
  }

  lemma AnswerStart(t: Tx, entries: seq<nat>)
    requires t.Ok()
    ensures Answering(t, entries, t, 0, [])
  {
    assert entries[0..] == entries;
    assert [] + LackAck(t, entries).1 == LackAck(t, entries).1;
  }

  lemma AnswerOne(t0: Tx, entries: seq<nat>, t: Tx, usp: nat, out: seq<Packet>)
    requires t0.Ok() && t.Ok() && usp < |entries| && Answering(t0, entries, t, usp, out) && Resendable(t, entries[usp])
    ensures var t1 := Refresh(t, entries[usp]);
      Answering(t0, entries, t1, usp + 1, out + [DataOf(t1.ring[SlotOf(entries[usp])])])
  {
    var t1 := Refresh(t, entries[usp]);
    var p, rest := DataOf(t1.ring[SlotOf(entries[usp])]), LackAck(t1, entries[usp + 1..]);
    assert entries[usp..][0] == entries[usp] && entries[usp..][1..] == entries[usp + 1..];
    assert LackAck(t, entries[usp..]) == (rest.0, [p] + rest.1);
    assert out + ([p] + rest.1) == (out + [p]) + rest.1;
  }

  lemma AnswerEnd(t0: Tx, entries: seq<nat>, t: Tx, usp: nat, out: seq<Packet>)
    requires t0.Ok() && t.Ok() && usp <= |entries| && Answering(t0, entries, t, usp, out)
    requires usp < |entries| ==> !Resendable(t, entries[usp])
    ensures LackAck(t0, entries) == (t, out)
  {
    assert LackAck(t, entries[usp..]) == (t, []);
    assert out + [] == out;
  }

  /** SeqCheck, when its rate limit is open: a probe if anything is unacknowledged. */
  function Probe(t: Tx): Option<Packet> {
    if t.maxSend != t.NextUnacked() then Some(SeqCheckPacket(t.maxSend, t.NextUnacked())) else None
  }

  // ---------- receiver ----------

  /** UserDataRecv. */
  function Accept(r: Rx, p: Packet): Rx
    requires r.Ok() && p.UserData?
  {
    if InReceiveWindow(p.seqNo, r.read) && !Holds(r.ring, p.seqNo) then
      r.(ring := r.ring[SlotOf(p.seqNo) := Slot(p.seqNo, p.seqCheck, p.len, p.buf)])
    else r
  }

  /** exRecv, once the next packet is in its slot. */
  function Take(r: Rx): (Rx, seq<Byte>)
    requires r.Ok() && Holds(r.ring, r.read)
  {
    var i := SlotOf(r.read);
    (Rx(Wire(r.read + 1), r.readMax, r.ring[i := r.ring[i].(len := 0)]),
     r.ring[i].buf)
  }

  /** SeqCheckAck: the new receiver state and whether a report goes back. */
  function CheckAck(r: Rx, seqNo: nat, seqCheck: nat): (Rx, bool) {
    if r.read == seqNo || CmpSeqOrder(seqCheck, r.read, seqNo) then
      (r.(readMax := seqNo), seqCheck != r.read)
    else (r, false)
  }

  /** The wire numbers in [from, to) that are not in the ring, in order. */
  function Missing(ring: seq<Slot>, from: nat, to: nat): seq<nat>
    requires |ring| == MAX_PACKET_NUMBER && from < MAX_PACKET_SEQ && to < MAX_PACKET_SEQ
    decreases Offset(from, to)
  {
    if from == to then []
    else
      WireNext(from);
      (if Holds(ring, from) then [] else [from]) + Missing(ring, Wire(from + 1), to)
  }

  /** SeqLack, when its rate limit is open. */
  function Lacking(r: Rx): seq<nat>
    requires r.Ok()
  {
    if CmpSeq(r.readMax, r.read) then Missing(r.ring, r.read, r.readMax) else []
  }

  // ---------- what a gap list holds ----------

  lemma OffsetNext(from: nat, w: nat)
    requires from < MAX_PACKET_SEQ && w < MAX_PACKET_SEQ
    ensures w != from ==> Offset(from, w) == 1 + Offset(Wire(from + 1), w)
    ensures Offset(from, w) == 0 <==> w == from
  {
    WireNext(from);
  }

  lemma MissingStep(ring: seq<Slot>, from: nat, to: nat)
    requires |ring| == MAX_PACKET_NUMBER && from < MAX_PACKET_SEQ && to < MAX_PACKET_SEQ && from != to
    ensures var next := Wire(from + 1);
      && Missing(ring, from, to) == (if Holds(ring, from) then [] else [from]) + Missing(ring, next, to)
      && Offset(from, to) == 1 + Offset(next, to)
      && (next == to ==> Missing(ring, next, to) == [])
  {
    OffsetNext(from, to);
  }

  /** One number further in the making of a gap list. */
  lemma ListedOne(ring: seq<Slot>, buf: seq<nat>, from: nat, to: nat, all: seq<nat>)
    requires |ring| == MAX_PACKET_NUMBER && from < MAX_PACKET_SEQ && to < MAX_PACKET_SEQ && from != to
    requires buf + Missing(ring, from, to) == all
    ensures var next := Wire(from + 1);
      && (if Holds(ring, from) then buf else buf + [from]) + Missing(ring, next, to) == all
      && Offset(from, to) == 1 + Offset(next, to)
      && (next == to ==> (if Holds(ring, from) then buf else buf + [from]) == all)
  {
    MissingStep(ring, from, to);
    var rest := Missing(ring, Wire(from + 1), to);
    assert buf + ([from] + rest) == (buf + [from]) + rest;
    assert [] + rest == rest;
  }

  /** A gap list holds exactly the missing numbers of [from, to). */
  lemma {:induction false} MissingMember(ring: seq<Slot>, from: nat, to: nat, w: nat)
    requires |ring| == MAX_PACKET_NUMBER && from < MAX_PACKET_SEQ && to < MAX_PACKET_SEQ
    ensures w in Missing(ring, from, to)
            <==> w < MAX_PACKET_SEQ && Offset(from, w) < Offset(from, to) && !Holds(ring, w)
    decreases Offset(from, to)
  {
    OffsetNext(from, to);
    if from != to {
      var next := Wire(from + 1);
      MissingMember(ring, next, to, w);
      if w < MAX_PACKET_SEQ {
        OffsetNext(from, w);
      }
    }
  }

  /** What comes after the first candidate lies one step further from it. */
  lemma TailOffset(ring: seq<Slot>, from: nat, to: nat, w: nat)
    requires |ring| == MAX_PACKET_NUMBER && from < MAX_PACKET_SEQ && to < MAX_PACKET_SEQ && from != to
    requires w in Missing(ring, Wire(from + 1), to)
    ensures Offset(from, w) == 1 + Offset(Wire(from + 1), w)
  {
    var next := Wire(from + 1);
    MissingMember(ring, next, to, w);
    OffsetNext(from, w);
    OffsetNext(from, to);
  }

  /** A gap list is in order, hence without repeats. */
  lemma {:induction false} MissingOrdered(ring: seq<Slot>, from: nat, to: nat, i: nat, j: nat)
    requires |ring| == MAX_PACKET_NUMBER && from < MAX_PACKET_SEQ && to < MAX_PACKET_SEQ
    requires i < j < |Missing(ring, from, to)|
    ensures Offset(from, Missing(ring, from, to)[i]) < Offset(from, Missing(ring, from, to)[j])
    decreases Offset(from, to)
  {
    OffsetNext(from, to);
    var next := Wire(from + 1);
    var k := if Holds(ring, from) then 0 else 1;
    MissingShift(ring, from, to, k, j);
    TailOffset(ring, from, to, Missing(ring, next, to)[j - k]);
    if i < k {
      OffsetNext(from, from);
    } else {
      MissingShift(ring, from, to, k, i);
      MissingOrdered(ring, next, to, i - k, j - k);
      TailOffset(ring, from, to, Missing(ring, next, to)[i - k]);
    }
  }

  lemma MissingShift(ring: seq<Slot>, from: nat, to: nat, k: nat, j: nat)
    requires |ring| == MAX_PACKET_NUMBER && from < MAX_PACKET_SEQ && to < MAX_PACKET_SEQ
    requires k == (if Holds(ring, from) then 0 else 1) && k <= j < |Missing(ring, from, to)|
    ensures from != to && j - k < |Missing(ring, Wire(from + 1), to)|
    ensures Missing(ring, from, to)[j] == Missing(ring, Wire(from + 1), to)[j - k]
  {
  }

  lemma {:induction false} MissingLength(ring: seq<Slot>, from: nat, to: nat)
    requires |ring| == MAX_PACKET_NUMBER && from < MAX_PACKET_SEQ && to < MAX_PACKET_SEQ
    ensures |Missing(ring, from, to)| <= Offset(from, to)
    decreases Offset(from, to)
  {
    OffsetNext(from, to);
    if from != to {
      MissingLength(ring, Wire(from + 1), to);
    }
  }

  /** The list of SeqLack is shorter than the ring, and never fills a packet with its two-byte entries. */
  lemma LackingFits(r: Rx)
    requires r.Ok()
    ensures |Lacking(r)| < MAX_PACKET_NUMBER
    ensures 2 * |Lacking(r)| < MAX_PACKET_DATA_SIZE
  {
    CmpSeqOffset(r.readMax, r.read);
    MissingLength(r.ring, r.read, r.readMax);
  }

  /** The count of a list that fits is no whole number of packets. */
  lemma NeverFull(n: nat)
    requires 0 < 2 * n < MAX_PACKET_DATA_SIZE
    ensures n * 2 % MAX_PACKET_DATA_SIZE != 0
  {
  }
}
