/**
  The link object s_link and its handlers, updating the sequence numbers and the two packet
  rings in place (udp/ex_udp.c).  Packets handed to SendMsg are returned in out; the clock
  enters as `open` (the rate limit of the call has elapsed) and sendto's result as `sendOk`.
 */
module UdpLink {
  import opened Arithmetic
  import opened UdpSequence
  import opened UdpLinkSpec
  import UdpDelivery

  const EX_UDP_OK := 1
  const EX_UDP_ERROR := -1

  class Link {
    var linkState: int
    var prioritySendLack: bool
    var seqRead: nat
    var seqReadMax: nat
    var seqMaxSend: nat
    var seqCheckSend: nat
    const paArrayRecv: array<Slot>
    const paArraySend: array<Slot>

    ghost predicate Valid()
      reads this, paArrayRecv, paArraySend
    {
      && paArrayRecv != paArraySend
      && TxView().Ok() && RxView().Ok()
    }

    ghost function TxView(): Tx
      reads this, paArraySend
    {
      Tx(seqMaxSend, seqCheckSend, paArraySend[..])
    }

    ghost function RxView(): Rx
      reads this, paArrayRecv
    {
      Rx(seqRead, seqReadMax, paArrayRecv[..])
    }

    /** add_list, followed by a completed handshake. */
    constructor ()
      ensures Valid() && fresh(paArrayRecv) && fresh(paArraySend)
      ensures linkState == 2 && !prioritySendLack
      ensures TxView() == UdpDelivery.Initial().tx && RxView() == UdpDelivery.Initial().rx
    {
      linkState, prioritySendLack := 2, false;
      seqRead, seqReadMax, seqMaxSend, seqCheckSend := 1, 0, 1, 0;
      paArrayRecv := new Slot[MAX_PACKET_NUMBER](i => UdpDelivery.EMPTY_SLOT);
      paArraySend := new Slot[MAX_PACKET_NUMBER](i => UdpDelivery.EMPTY_SLOT);
      new;
      paArrayRecv[0] := paArrayRecv[0].(seqNo := 1);
      paArraySend[0] := paArraySend[0].(seqNo := 1);
    }

    /** exSend in non-blocking mode. */
    method ExSend(buf: seq<Byte>, sendOk: bool) returns (ret: int, out: seq<Packet>)
      requires Valid()
      modifies this`seqMaxSend, paArraySend
      ensures Valid() && RxView() == old(RxView())
      ensures !ValidLength(|buf|) ==> ret == EX_UDP_ERROR
      ensures ValidLength(|buf|) && (prioritySendLack || !old(TxView()).CanSend() || !sendOk) ==> ret == 0
      ensures ValidLength(|buf|) && !prioritySendLack && old(TxView()).CanSend() && sendOk ==> ret == |buf|
      ensures if ValidLength(|buf|) && !prioritySendLack && old(TxView()).CanSend()
              then TxView() == Send(old(TxView()), buf, sendOk)
                   && out == if sendOk then [DataOf(paArraySend[SlotOf(old(seqMaxSend))])] else []
              else TxView() == old(TxView()) && out == []
    {
      out := [];
      if |buf| <= 0 || |buf| > MAX_PACKET_DATA_SIZE {
        return EX_UDP_ERROR, out;
      }
      var lenSend: int, rest := |buf|, buf;
      while lenSend > 0
        invariant lenSend == |rest|
        invariant Valid() && RxView() == old(RxView())
        invariant lenSend == |buf| ==> rest == buf && out == [] && TxView() == old(TxView())
        invariant lenSend != |buf| ==>
                    && lenSend == 0 && sendOk && !prioritySendLack && old(TxView()).CanSend()
                    && TxView() == Send(old(TxView()), buf, true)
                    && out == [DataOf(paArraySend[SlotOf(old(seqMaxSend))])]
      {
        if !prioritySendLack && SlotOf(seqMaxSend + 1) != SlotOf(seqCheckSend) {
          var lenT := if lenSend >= MAX_PACKET_DATA_SIZE then MAX_PACKET_DATA_SIZE else lenSend;
          assert rest[..lenT] == buf;
          var slot := Slot(seqMaxSend, Wire(seqCheckSend + 1), LEN_PACKET_HEAD + lenT, rest[..lenT]);
          paArraySend[SlotOf(seqMaxSend)] := slot;
          if !sendOk {
            return 0, [];
          }
          out := out + [DataOf(slot)];
          lenSend := lenSend - lenT;
          rest := rest[lenT..];
          seqMaxSend := Wire(seqMaxSend + 1);
        } else {
          return 0, out;
        }
      }
      ret := |buf|;
    }

    /** SeqReportAck (the round-trip estimate is left out). */
    method SeqReportAck(seqNo: nat) returns (ret: int)
      requires Valid() && seqNo < MAX_PACKET_SEQ
      modifies this`seqCheckSend
      ensures Valid() && RxView() == old(RxView())
      ensures ret == if linkState < 2 then EX_UDP_ERROR else EX_UDP_OK
      ensures TxView() == if linkState < 2 then old(TxView()) else ReportAck(old(TxView()), seqNo)
    {
      if linkState < 2 {
        return EX_UDP_ERROR;
      }
      if CmpSeqOrder(seqCheckSend, seqNo, seqMaxSend) {
        seqCheckSend := seqNo;
      }
      ret := EX_UDP_OK;
    }

    /** SeqLackAck: resend what a gap list asks for, stopping at the first entry outside the window. */
    method SeqLackAck(entries: seq<nat>) returns (ret: int, out: seq<Packet>)
      requires Valid()
      modifies this`prioritySendLack, paArraySend
      ensures Valid() && RxView() == old(RxView())
      ensures linkState < 2 ==> ret == EX_UDP_ERROR && out == [] && TxView() == old(TxView())
      ensures linkState >= 2 ==> ret == EX_UDP_OK && !prioritySendLack
      ensures linkState >= 2 ==> (TxView(), out) == LackAck(old(TxView()), entries)
    {
      out := [];
      if linkState < 2 {
        return EX_UDP_ERROR, out;
      }
      var seqCheckSendT := Wire(seqCheckSend + 1);
      prioritySendLack := true;
      AnswerStart(TxView(), entries);
      var usp := 0;
      while usp < |entries|
        invariant 0 <= usp <= |entries| && Valid() && RxView() == old(RxView())
        invariant Answering(old(TxView()), entries, TxView(), usp, out)
      {
        var w := entries[usp];
        if MAX_PACKET_SEQ > w {
          if CmpSeqOrder(seqCheckSendT, w, seqMaxSend) {
            AnswerOne(old(TxView()), entries, TxView(), usp, out);
            var p := Resend(SlotOf(w), w);
            out := out + [p];
          } else {
            break;
          }
        } else {
          break;
        }
        usp := usp + 1;
      }
      AnswerEnd(old(TxView()), entries, TxView(), usp, out);
      prioritySendLack := false;
      ret := EX_UDP_OK;
    }

    /** SendMsg on a slot of the send ring: the slot's seqCheck is brought up to date and the packet goes out. */
    method Resend(i: nat, ghost w: nat) returns (p: Packet)
      requires Valid() && i == SlotOf(w)
      modifies paArraySend
      ensures Valid() && RxView() == old(RxView()) && TxView() == Refresh(old(TxView()), w)
      ensures p == DataOf(TxView().ring[i])
    {
      paArraySend[i] := paArraySend[i].(seqCheck := Wire(seqCheckSend + 1));
      p := DataOf(paArraySend[i]);
    }

    /** SeqCheck: probe the peer if something is unacknowledged. */
    method SeqCheck(open: bool) returns (out: seq<Packet>)
      requires Valid()
      ensures out == if linkState == 2 && open && Probe(TxView()).Some? then [Probe(TxView()).value] else []
    {
      out := [];
      if linkState == 2 && seqMaxSend != Wire(seqCheckSend + 1) && open {
        out := [SeqCheckPacket(seqMaxSend, Wire(seqCheckSend + 1))];
      }
    }

    /** SeqCheckAck. */
    method SeqCheckAck(seqNo: nat, seqCheck: nat) returns (ret: int, out: seq<Packet>)
      requires Valid() && seqNo < MAX_PACKET_SEQ
      modifies this`seqReadMax
      ensures Valid() && TxView() == old(TxView())
      ensures linkState < 2 ==> RxView() == old(RxView()) && out == [] && ret == EX_UDP_ERROR
      ensures linkState >= 2 ==> RxView() == CheckAck(old(RxView()), seqNo, seqCheck).0
      ensures linkState >= 2 ==>
        out == if CheckAck(old(RxView()), seqNo, seqCheck).1
               then [SeqReportPacket(RxView().Reported(), TxView().NextUnacked())] else []
      ensures var known := seqRead == seqNo || CmpSeqOrder(seqCheck, seqRead, seqNo);
        ret == if linkState >= 2 && known then EX_UDP_OK else EX_UDP_ERROR
    {
      out := [];
      if linkState < 2 {
        return EX_UDP_ERROR, out;
      }
      if seqRead == seqNo || CmpSeqOrder(seqCheck, seqRead, seqNo) {
        seqReadMax := seqNo;
        if seqCheck != seqRead {
          out := [SeqReportPacket(if seqRead == 0 then MAX_PACKET_SEQ - 1 else seqRead - 1,
                                  Wire(seqCheckSend + 1))];
        }
        return EX_UDP_OK, out;
      }
      ret := EX_UDP_ERROR;
    }

    /** UserDataRecv. */
    method UserDataRecv(p: Packet) returns (ret: int)
      requires Valid() && p.UserData? && p.seqNo < MAX_PACKET_SEQ
      modifies paArrayRecv
      ensures Valid() && TxView() == old(TxView())
      ensures RxView() == if linkState < 2 then old(RxView()) else Accept(old(RxView()), p)
      ensures ret == if linkState >= 2 && InReceiveWindow(p.seqNo, seqRead) then EX_UDP_OK else EX_UDP_ERROR
    {
      if linkState < 2 {
        return EX_UDP_ERROR;
      }
      if CmpSeq(p.seqNo, seqRead) || p.seqNo == seqRead {
        var i := SlotOf(p.seqNo);
        if paArrayRecv[i].seqNo != p.seqNo || paArrayRecv[i].len == 0 {
          paArrayRecv[i] := Slot(p.seqNo, p.seqCheck, p.len, p.buf);
        }
        return EX_UDP_OK;
      }
      ret := EX_UDP_ERROR;
    }

    /** SeqLack: one packet with every gap, or none; the mid-loop flush is never taken. */
    method SeqLack(open: bool) returns (out: seq<Packet>)
      requires Valid()
      ensures out == if open && Lacking(RxView()) != []
                     then [SeqLackPacket(Lacking(RxView()), TxView().NextUnacked())] else []
    {
      out := [];
      if open && CmpSeq(seqReadMax, seqRead) {
        LackingFits(RxView());
        assert seqRead != seqReadMax;
        var buf := ListMissing(paArrayRecv, seqRead, seqReadMax);
        if |buf| > 0 {
          NeverFull(|buf|);
        }
        if |buf| * 2 % MAX_PACKET_DATA_SIZE != 0 {
          out := [SeqLackPacket(buf, Wire(seqCheckSend + 1))];
        }
      }
    }

    /** The loop of SeqLack, from the number to be read next to the highest known one. */
    static method ListMissing(ring: array<Slot>, read: nat, readMax: nat) returns (buf: seq<nat>)
      requires ring.Length == MAX_PACKET_NUMBER && read < MAX_PACKET_SEQ && readMax < MAX_PACKET_SEQ && read != readMax
      requires 2 * |Missing(ring[..], read, readMax)| < MAX_PACKET_DATA_SIZE
      ensures buf == Missing(ring[..], read, readMax)
    {
      ghost var all := Missing(ring[..], read, readMax);
      var seqReadLast: nat := read;
      buf := [];
      assert [] + all == all;
      while true
        invariant seqReadLast < MAX_PACKET_SEQ && seqReadLast != readMax
        invariant buf + Missing(ring[..], seqReadLast, readMax) == all
        decreases Offset(seqReadLast, readMax)
      {
        buf := NoteGap(ring, seqReadLast, buf, readMax, all);
        seqReadLast := Wire(seqReadLast + 1);
        if seqReadLast == readMax {
          break;
        }
      }
    }

    /** One round of the loop: a number that is not in the ring is added to the list, which never fills a packet. */
    static method NoteGap(ring: array<Slot>, seqReadLast: nat, buf: seq<nat>, ghost readMax: nat, ghost all: seq<nat>)
      returns (buf': seq<nat>)
      requires ring.Length == MAX_PACKET_NUMBER && seqReadLast < MAX_PACKET_SEQ && readMax < MAX_PACKET_SEQ
      requires seqReadLast != readMax && buf + Missing(ring[..], seqReadLast, readMax) == all
      requires 2 * |all| < MAX_PACKET_DATA_SIZE
      ensures buf' + Missing(ring[..], Wire(seqReadLast + 1), readMax) == all
      ensures Offset(seqReadLast, readMax) == 1 + Offset(Wire(seqReadLast + 1), readMax)
      ensures Wire(seqReadLast + 1) == readMax ==> buf' == all
    {
      ListedOne(ring[..], buf, seqReadLast, readMax, all);
      buf' := buf;
      var i := SlotOf(seqReadLast);
      if ring[i].seqNo != seqReadLast || ring[i].len == 0 {
        buf' := buf' + [seqReadLast];
        NeverFull(|buf'|);
        if |buf'| * 2 % MAX_PACKET_DATA_SIZE == 0 {
          assert false;  // the flush
        }
      }
    }

    /** SeqReport: the number read last, then the gap list. */
    method SeqReport(open: bool) returns (out: seq<Packet>)
      requires Valid()
      ensures linkState != 2 ==> out == []
      ensures linkState == 2 ==>
        out == [SeqReportPacket(RxView().Reported(), TxView().NextUnacked())]
               + if open && Lacking(RxView()) != []
                 then [SeqLackPacket(Lacking(RxView()), TxView().NextUnacked())] else []
    {
      out := [];
      if linkState == 2 {
        var lack := SeqLack(open);
        out := [SeqReportPacket(if seqRead == 0 then MAX_PACKET_SEQ - 1 else seqRead - 1,
                                Wire(seqCheckSend + 1))] + lack;
      }
    }

    /** exRecv in non-blocking mode: the next payload in order, or a report. */
    method ExRecv(open: bool) returns (got: Option<seq<Byte>>, out: seq<Packet>)
      requires Valid()
      modifies this`seqRead, paArrayRecv
      ensures Valid() && TxView() == old(TxView())
      ensures if Holds(old(RxView()).ring, old(seqRead))
              then (RxView(), got) == (Take(old(RxView())).0, Some(Take(old(RxView())).1)) && out == []
              else RxView() == old(RxView()) && got == None
      ensures !Holds(old(RxView()).ring, old(seqRead)) && linkState == 2 ==>
        out == [SeqReportPacket(RxView().Reported(), TxView().NextUnacked())]
               + if open && Lacking(RxView()) != []
                 then [SeqLackPacket(Lacking(RxView()), TxView().NextUnacked())] else []
      ensures !Holds(old(RxView()).ring, old(seqRead)) && linkState != 2 ==> out == []
    {
      var i := SlotOf(seqRead);
      if paArrayRecv[i].seqNo != seqRead || paArrayRecv[i].len == 0 {
        out := SeqReport(open);
        return None, out;
      }
      got, out := Some(paArrayRecv[i].buf), [];
      paArrayRecv[i] := paArrayRecv[i].(len := 0);
      seqRead := Wire(seqRead + 1);
    }
  }
}
