/**
  What each step of the link does, in absolute numbers and without the handlers' own terms: the
  sender's window is C + 1 .. M, the receiver reads R next.
 */
module UdpEffects {
  import opened Arithmetic
  import opened UdpSequence
  import opened UdpLinkSpec
  import opened UdpDelivery

  /** The packet that carries payload buf as number a, sent while C is acknowledged. */
  function DataPacket(s: State, a: nat, buf: seq<Byte>): Packet {
    UserData(Wire(a), Wire(s.acked + 1), 8 + |buf|, buf)
  }

  /** exSend accepts a payload of valid length, as number M, exactly if the window has room and sendto succeeds. */
  lemma SendEffect(s: State, buf: seq<Byte>, sendOk: bool)
    requires Inv(s)
    ensures var n, p := Next(s, ExSend(buf, sendOk)), DataPacket(s, s.M(), buf);
      if 0 < |buf| <= MAX_PACKET_DATA_SIZE && s.M() + 1 < s.acked + MAX_PACKET_NUMBER then
        && n == s.(tx := n.tx, sent := n.sent, forward := n.forward)
        && n.sent == (if sendOk then s.sent + [buf] else s.sent)
        && n.forward == (if sendOk then s.forward + {Flight(s.M(), p)} else s.forward)
        && n.tx.ring == s.tx.ring[SlotOf(s.M()) := Slot(p.seqNo, p.seqCheck, p.len, buf)]
      else n == s
  {
    CanSendExact(s);
    SlotOfWire(s.M());
    WireSucc(s.acked);
  }

  /** A probe goes out exactly if something is unacknowledged; it names M and C + 1. */
  lemma ProbeEffect(s: State)
    requires Inv(s)
    ensures Next(s, SendProbe)
         == if s.acked + 1 < s.M()
            then s.(forward := s.forward + {Flight(0, SeqCheckPacket(Wire(s.M()), Wire(s.acked + 1)))}) else s
  {
    WireSucc(s.acked);
    if s.acked + 1 < s.M() && Wire(s.M()) == Wire(s.acked + 1) {
      WireInjective(s.M(), s.acked + 1);
    }
  }

  /** Number a waits in the receive ring. */
  predicate Waits(s: State, a: nat)
    requires s.rx.Ok()
  {
    s.rx.ring[SlotOf(a)].len != 0 && s.rx.ring[SlotOf(a)].seqNo == Wire(a)
  }

  /** A number on the wire waits in the slot that it would itself have. */
  lemma WaitsOnWire(s: State, w: nat)
    requires s.rx.Ok() && w < MAX_PACKET_SEQ
    ensures Wire(w) == w && (Waits(s, w) <==> Holds(s.rx.ring, w))
  {
  }

  /** Data is stored, as it came, exactly if it is not read yet and not there; anything else changes nothing. */
  lemma DataEffect(s: State, f: Flight)
    requires Inv(s) && Enabled(s, ArriveData(f))
    ensures var n, p := Next(s, ArriveData(f)), f.packet;
      n == if s.R() <= f.abs && !Waits(s, f.abs)
           then s.(rx := s.rx.(ring := s.rx.ring[SlotOf(f.abs) := Slot(p.seqNo, p.seqCheck, p.len, p.buf)])) else s
  {
    assert Genuine(s.sent, f);
    ReceiveWindowExact(f.abs, s.R());
    SlotOfWire(f.abs);
  }

  /** exRecv returns the next payload exactly if number R is there, and empties its slot. */
  lemma ReadEffect(s: State, lackOpen: bool)
    requires Inv(s)
    ensures var n := Next(s, ExRecv(lackOpen));
      if Waits(s, s.R()) then
        && s.R() < s.M() && n.delivered == s.delivered + [s.sent[s.R() - 1]]
        && n == s.(rx := n.rx, delivered := n.delivered) && n.rx.readMax == s.rx.readMax
        && n.rx.ring == s.rx.ring[SlotOf(s.R()) := s.rx.ring[SlotOf(s.R())].(len := 0)]
      else n == s.(backward := n.backward)
  {
    SlotOfWire(s.R());
    assert ReceiveSlot(s.sent, s.rx.ring, s.R());
  }

  /** readMax is ahead of R by less than the ring length, so there may be gaps to report. */
  predicate Ahead(s: State) {
    0 < Offset(Wire(s.R()), s.rx.readMax) < MAX_PACKET_NUMBER
  }

  /** A gap list names exactly the numbers from R on below readMax that are not there; none unless readMax is ahead. */
  lemma GapList(s: State, w: nat)
    requires Inv(s)
    ensures w in Lacking(s.rx) <==>
      && Ahead(s) && w < MAX_PACKET_SEQ
      && Offset(Wire(s.R()), w) < Offset(Wire(s.R()), s.rx.readMax) && !Waits(s, w)
    ensures !Ahead(s) ==> Lacking(s.rx) == []
  {
    CmpSeqOffset(s.rx.readMax, s.rx.read);
    MissingMember(s.rx.ring, s.rx.read, s.rx.readMax, w);
    if w < MAX_PACKET_SEQ {
      WaitsOnWire(s, w);
    }
  }

  /** A report, or an exRecv without a packet, reports R - 1, and the gaps if there are any. */
  lemma ReportSent(s: State, lackOpen: bool)
    requires Inv(s)
    ensures var n, gaps := Next(s, SendReport(lackOpen)), Lacking(s.rx);
      n == s.(backward := s.backward + {Flight(|s.delivered|, SeqReportPacket(Wire(|s.delivered|), s.seqCheck))}
                          + if lackOpen && gaps != [] then {Flight(0, SeqLackPacket(gaps, s.seqCheck))} else {})
    ensures !Waits(s, s.R()) ==> Next(s, ExRecv(lackOpen)) == Next(s, SendReport(lackOpen))
  {
    ReportedNumber(s);
    SlotOfWire(s.R());
  }

  /** The window that a probe names, from seqCheck to below seqNo, holds the number to be read next, or ends with it. */
  predicate HoldsNext(s: State, seqNo: nat, seqCheck: nat)
    requires seqCheck < MAX_PACKET_SEQ
  {
    Wire(s.R()) == seqNo || Offset(seqCheck, Wire(s.R())) < Offset(seqCheck, seqNo) < MAX_PACKET_NUMBER
  }

  /**
    An arriving probe of any age: if its window holds R, the receiver notes its end, and reports
    R - 1 exactly if R is not the number that the sender takes for the next one; otherwise nothing
    happens.
   */
  lemma CheckEffect(s: State, f: Flight)
    requires Inv(s) && Enabled(s, ArriveCheck(f))
    ensures f.packet.seqCheck < MAX_PACKET_SEQ
    ensures var n, p := Next(s, ArriveCheck(f)), f.packet;
      var report := Flight(|s.delivered|, SeqReportPacket(Wire(|s.delivered|), s.seqCheck));
      n == if !HoldsNext(s, p.seqNo, p.seqCheck) then s
           else s.(rx := s.rx.(readMax := p.seqNo),
                   backward := s.backward + if p.seqCheck == Wire(s.R()) then {} else {report})
  {
    assert Genuine(s.sent, f);
    ReportedNumber(s);
    CmpSeqOrderOffset(f.packet.seqCheck, s.rx.read, f.packet.seqNo);
  }

  /**
    The sender's current probe: the receiver learns M, and reports exactly if it has read something
    that is not acknowledged.  The report then acknowledges all that was read.
   */
  lemma ProbeAnswered(s: State, f: Flight)
    requires Inv(s) && f == Flight(0, SeqCheckPacket(Wire(s.M()), Wire(s.acked + 1))) && f in s.forward
    ensures var n, report := Next(s, ArriveCheck(f)), ReportFlight(s);
      && n == s.(rx := s.rx.(readMax := Wire(s.M())), backward := n.backward)
      && n.backward == s.backward + (if s.acked < |s.delivered| then {report} else {})
      && (s.acked < |s.delivered| ==> Next(n, ArriveReport(report)).acked == |s.delivered|)
  {
    CheckEffect(s, f);
    ReportedNumber(s);
    CurrentRange(s);
    CheckKeepsInv(s, f);
    if s.acked < |s.delivered| {
      assert ReportFlight(s) in Next(s, ArriveCheck(f)).backward;
      ReportCounts(Next(s, ArriveCheck(f)), ReportFlight(s));
    }
  }

  /** The window C + 1 .. M holds R or ends with it; it begins with R exactly if all that was read is acknowledged. */
  lemma CurrentRange(s: State)
    requires Numbers(s)
    ensures HoldsNext(s, Wire(s.M()), Wire(s.acked + 1))
    ensures Wire(s.R()) == Wire(s.acked + 1) <==> s.acked == |s.delivered|
  {
    if s.R() < s.M() {
      WireOffset(s.R(), s.acked + 1);
      WireOffset(s.M(), s.acked + 1);
    }
    if Wire(s.R()) == Wire(s.acked + 1) {
      WireInjective(s.R(), s.acked + 1);
    }
  }

  /** The report of R - 1 acknowledges everything read. */
  lemma ReportCounts(s: State, f: Flight)
    requires Inv(s) && f == ReportFlight(s) && f in s.backward && s.acked < |s.delivered|
    ensures Enabled(s, ArriveReport(f)) && Next(s, ArriveReport(f)).acked == |s.delivered|
  {
    ReportKeepsInv(s, f);
  }

  /** An arriving report moves C to its number, never back, and changes nothing else. */
  lemma ReportEffect(s: State, f: Flight)
    requires Inv(s) && Enabled(s, ArriveReport(f))
    ensures var c := if f.abs < s.acked then s.acked else f.abs;
      Next(s, ArriveReport(f)) == s.(tx := s.tx.(checkSend := Wire(c)), acked := c)
  {
    ReportKeepsInv(s, f);
    assert Truthful(s, f);
  }

  // ---------- retransmission ----------

  /** The wire number w names an unacknowledged packet. */
  ghost predicate Names(s: State, w: nat) {
    exists a: nat :: s.acked < a < s.M() && w == Wire(a)
  }

  lemma NamesExact(s: State, w: nat)
    requires Numbers(s)
    ensures Resendable(s.tx, w) <==> Names(s, w)
  {
    ResendableExact(s, w);
    if Resendable(s.tx, w) {
      assert s.acked < Resolve(s, w) < s.M() && w == Wire(Resolve(s, w));
    }
  }

  /** The slot that an entry asks for, as it goes out. */
  function Outgoing(t: Tx, entry: nat): Packet
    requires t.Ok()
  {
    DataOf(t.ring[SlotOf(entry)].(seqCheck := t.NextUnacked()))
  }

  /** How many entries are answered, and with what: all up to the first that fails the window test. */
  lemma {:induction false} AnswerPrefix(t: Tx, entries: seq<nat>) returns (k: nat)
    requires t.Ok()
    ensures k <= |entries| && (forall i :: 0 <= i < k ==> Resendable(t, entries[i]))
    ensures k < |entries| ==> !Resendable(t, entries[k])
    ensures var out := LackAck(t, entries).1;
      |out| == k && forall i :: 0 <= i < k ==> out[i] == Outgoing(t, entries[i])
    decreases |entries|
  {
    k := 0;
    if entries != [] && Resendable(t, entries[0]) {
      var t1 := Refresh(t, entries[0]);
      k := AnswerPrefix(t1, entries[1..]);
      forall j | 1 <= j <= k
        ensures Resendable(t, entries[j]) && Outgoing(t1, entries[j]) == Outgoing(t, entries[j])
      {
        assert entries[1..][j - 1] == entries[j] && Resendable(t1, entries[1..][j - 1]);
      }
      assert k < |entries[1..]| ==> entries[1..][k] == entries[k + 1];
      k := k + 1;
    }
  }

  /**
    An arriving gap list of any age: its entries are answered up to the first that names no
    unacknowledged packet, each with the payload first sent under that number; nothing else changes
    but seqCheck in the slots sent again.
   */
  lemma LackEffect(s: State, f: Flight) returns (k: nat)
    requires Inv(s) && Enabled(s, ArriveLack(f))
    ensures var n, entries := Next(s, ArriveLack(f)), f.packet.entries;
      && k <= |entries| && (forall i :: 0 <= i < k ==> Names(s, entries[i]))
      && (k < |entries| ==> !Names(s, entries[k]))
      && n == s.(tx := n.tx, forward := n.forward) && SameData(s.tx.ring, n.tx.ring)
      && n.tx == s.tx.(ring := n.tx.ring)
      && (forall g :: g in n.forward <==> g in s.forward || exists i :: 0 <= i < k && SentAgain(s, entries[i], g))
  {
    var entries := f.packet.entries;
    k := AnswerPrefix(s.tx, entries);
    LackKeepsRing(s.tx, entries);
    forall i | 0 <= i < |entries|
      ensures Resendable(s.tx, entries[i]) <==> Names(s, entries[i])
    {
      NamesExact(s, entries[i]);
    }
    LaunchedAre(s, entries, k);
  }

  /** g carries, under the number that w names, what was first sent under it. */
  predicate SentAgain(s: State, w: nat, g: Flight) {
    && s.acked < g.abs < s.M() && w == Wire(g.abs) && g.packet == DataPacket(s, g.abs, s.sent[g.abs - 1])
  }

  lemma LaunchedAre(s: State, entries: seq<nat>, k: nat)
    requires Inv(s) && k <= |entries| && |LackAck(s.tx, entries).1| == k
    requires forall i :: 0 <= i < k ==>
      Resendable(s.tx, entries[i]) && LackAck(s.tx, entries).1[i] == Outgoing(s.tx, entries[i])
    ensures forall g :: g in Launched(s, LackAck(s.tx, entries).1) <==>
      exists i :: 0 <= i < k && SentAgain(s, entries[i], g)
  {
    forall g | g in Launched(s, LackAck(s.tx, entries).1)
      ensures exists i :: 0 <= i < k && SentAgain(s, entries[i], g)
    {
      var out := LackAck(s.tx, entries).1;
      var i :| 0 <= i < k && out[i].UserData? && g == Flight(Resolve(s, out[i].seqNo), out[i]);
      OneSentAgain(s, entries[i]);
    }
    forall i, g | 0 <= i < k && SentAgain(s, entries[i], g)
      ensures g in Launched(s, LackAck(s.tx, entries).1)
    {
      SentIsLaunched(s, entries, i, g);
    }
  }

  lemma SentIsLaunched(s: State, entries: seq<nat>, i: nat, g: Flight)
    requires Inv(s) && i < |LackAck(s.tx, entries).1| <= |entries| && Resendable(s.tx, entries[i])
    requires LackAck(s.tx, entries).1[i] == Outgoing(s.tx, entries[i]) && SentAgain(s, entries[i], g)
    ensures g in Launched(s, LackAck(s.tx, entries).1)
  {
    OneSentAgain(s, entries[i]);
    WireInjective(g.abs, Resolve(s, entries[i]));
    assert LackAck(s.tx, entries).1[i] in LackAck(s.tx, entries).1;
  }

  lemma OneSentAgain(s: State, w: nat)
    requires Inv(s) && Resendable(s.tx, w)
    ensures var p := Outgoing(s.tx, w);
      p.UserData? && p.seqNo == w && SentAgain(s, w, Flight(Resolve(s, w), p)) && Wire(Resolve(s, w)) == w
  {
    ResendableExact(s, w);
    WireSucc(s.acked);
    assert SendSlot(s.sent, s.tx.ring, Resolve(s, w));
  }

  /** A new link has nothing to probe for and no gap to report. */
  lemma QuietStart()
    ensures Inv(Initial()) && Next(Initial(), SendProbe) == Initial() && Lacking(Initial().rx) == []
  {
    InitialInv();
    ProbeEffect(Initial());
    GapList(Initial(), 0);
  }
}
