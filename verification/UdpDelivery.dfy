/** One direction of an established UDP link as a step system: sender, receiver and a lossy network. */
module UdpDelivery {
  import opened Arithmetic
  import opened UdpSequence
  import opened UdpLinkSpec

  // Packets are never taken out of the network, so any of them may be delivered any number of
  // times, in any order, or never.  Each carries, for the proof only, the absolute number it was
  // sent under; handlers see the packet alone.  The one assumption about the network is the
  // packet lifetime: no USER_DATA arrives once it is more than LIFETIME numbers old, and no
  // SEQ_REPORT once it is more than LIFETIME + 1 numbers old.

  datatype Flight = Flight(abs: nat, packet: Packet)

  /**
    sent and delivered are the payloads accepted by exSend and returned by exRecv so far;
    acked is the absolute number behind SeqCheckSend.  seqCheck is what the receiving end's own
    sender puts into every packet that goes back; the other direction of the link decides it.
   */
  datatype State = State(
    tx: Tx, rx: Rx,
    forward: set<Flight>, backward: set<Flight>,
    sent: seq<seq<Byte>>, delivered: seq<seq<Byte>>, acked: nat, seqCheck: nat)
  {
    /** Absolute numbers: next to send, next to read. */
    function M(): nat { |sent| + 1 }
    function R(): nat { |delivered| + 1 }
  }

  /** One handler or API call, run without interruption. */
  datatype Event =
    | ExSend(buf: seq<Byte>, sendOk: bool)
    | SendProbe
    | ExRecv(lackOpen: bool)
    | SendReport(lackOpen: bool)
    | ArriveData(f: Flight)
    | ArriveCheck(f: Flight)
    | ArriveReport(f: Flight)
    | ArriveLack(f: Flight)
    | OtherDirection(seqCheck: nat)

  const EMPTY_SLOT := Slot(0, 0, 0, [])

  /** The link after add_list and the handshake. */
  function Initial(): State {
    var ring := seq(MAX_PACKET_NUMBER, i => EMPTY_SLOT)[0 := EMPTY_SLOT.(seqNo := 1)];
    State(Tx(1, 0, ring), Rx(1, 0, ring), {}, {}, [], [], 0, Wire(1))
  }

  /** A packet can arrive if it was sent and, for data and reports, is not too old. */
  predicate Enabled(s: State, e: Event) {
    match e
    case ExSend(_, _) => true
    case SendProbe => true
    case ExRecv(_) => true
    case SendReport(_) => true
    case ArriveData(f) => f in s.forward && f.packet.UserData? && s.R() <= f.abs + LIFETIME
    case ArriveCheck(f) => f in s.forward && f.packet.SeqCheckPacket?
    case ArriveReport(f) => f in s.backward && f.packet.SeqReportPacket? && s.acked <= f.abs + LIFETIME + 1
    case ArriveLack(f) => f in s.backward && f.packet.SeqLackPacket?
    case OtherDirection(_) => true
  }

  /** SeqReport: a report, and the gap list if its rate limit is open and it is not empty. */
  function Reported(s: State, lackOpen: bool): State
    requires s.rx.Ok()
  {
    var lack := if lackOpen && Lacking(s.rx) != [] then {LackFlight(s)} else {};
    s.(backward := s.backward + {ReportFlight(s)} + lack)
  }

  function ReportFlight(s: State): Flight {
    Flight(|s.delivered|, SeqReportPacket(s.rx.Reported(), s.seqCheck))
  }

  function LackFlight(s: State): Flight
    requires s.rx.Ok()
  {
    Flight(0, SeqLackPacket(Lacking(s.rx), s.seqCheck))
  }

  /** The absolute number in the sender's window that entry w of a gap list stands for. */
  function Resolve(s: State, w: nat): nat {
    s.acked + 1 + Offset(s.tx.NextUnacked(), w)
  }

  function Launched(s: State, packets: seq<Packet>): set<Flight> {
    set p | p in packets && p.UserData? :: Flight(Resolve(s, p.seqNo), p)
  }

  function Next(s: State, e: Event): State
    requires s.tx.Ok() && s.rx.Ok() && Enabled(s, e)
  {
    match e
    case ExSend(buf, sendOk) =>
      if !ValidLength(|buf|) || !s.tx.CanSend() then s
      else
        var tx := Send(s.tx, buf, sendOk);
        if !sendOk then s.(tx := tx)
        else
          s.(tx := tx, sent := s.sent + [buf],
             forward := s.forward + {Flight(s.M(), DataOf(tx.ring[SlotOf(s.tx.maxSend)]))})
    case SendProbe =>
      (match Probe(s.tx)
       case Some(p) => s.(forward := s.forward + {Flight(0, p)})
       case None => s)
    case ExRecv(lackOpen) =>
      if Holds(s.rx.ring, s.rx.read) then
        var (rx, buf) := Take(s.rx);
        s.(rx := rx, delivered := s.delivered + [buf])
      else Reported(s, lackOpen)
    case SendReport(lackOpen) => Reported(s, lackOpen)
    case ArriveData(f) => s.(rx := Accept(s.rx, f.packet))
    case ArriveCheck(f) =>
      var (rx, report) := CheckAck(s.rx, f.packet.seqNo, f.packet.seqCheck);
      var s1 := s.(rx := rx);
      if report then
        s1.(backward := s.backward + {ReportFlight(s)})
      else s1
    case ArriveReport(f) =>
      var tx := ReportAck(s.tx, f.packet.seqNo);
      s.(tx := tx, acked := if CmpSeqOrder(s.tx.checkSend, f.packet.seqNo, s.tx.maxSend) then f.abs else s.acked)
    case ArriveLack(f) =>
      var (tx, packets) := LackAck(s.tx, f.packet.entries);
      s.(tx := tx, forward := s.forward + Launched(s, packets))
    case OtherDirection(check) => s.(seqCheck := check)
  }

  // ---------- the invariant ----------

  /** 1 <= M - C < ring length, C < R <= M, and the real fields are C, M and R modulo the modulus. */
  predicate Numbers(s: State) {
    && s.tx.Ok() && s.rx.Ok()
    && s.acked < s.M() < s.acked + MAX_PACKET_NUMBER
    && s.acked < s.R() <= s.M()
    && s.tx.maxSend == Wire(s.M()) && s.tx.checkSend == Wire(s.acked) && s.rx.read == Wire(s.R())
  }

  predicate Payloads(s: State) {
    forall i :: 0 <= i < |s.sent| ==> ValidLength(|s.sent[i]|)
  }

  /** slot holds what was first sent under number a. */
  predicate Carries(sent: seq<seq<Byte>>, slot: Slot, a: nat) {
    && 1 <= a <= |sent| && slot.seqNo == Wire(a)
    && slot.buf == sent[a - 1] && slot.len == LEN_PACKET_HEAD + |sent[a - 1]|
  }

  /** Number a sits in its slot of a send ring. */
  predicate SendSlot(sent: seq<seq<Byte>>, ring: seq<Slot>, a: nat)
    requires |ring| == MAX_PACKET_NUMBER
  {
    Carries(sent, ring[SlotOf(a)], a)
  }

  ghost predicate SendHeld(sent: seq<seq<Byte>>, ring: seq<Slot>, acked: nat)
    requires |ring| == MAX_PACKET_NUMBER
  {
    forall a: nat {:trigger SendSlot(sent, ring, a)} :: acked < a <= |sent| ==> SendSlot(sent, ring, a)
  }

  /** Every unacknowledged number still sits in its slot of the send ring. */
  ghost predicate SendRing(s: State)
    requires s.tx.Ok()
  {
    SendHeld(s.sent, s.tx.ring, s.acked)
  }

  /** The slot of number a in a receive ring is empty or holds that number. */
  predicate ReceiveSlot(sent: seq<seq<Byte>>, ring: seq<Slot>, a: nat)
    requires |ring| == MAX_PACKET_NUMBER
  {
    ring[SlotOf(a)].len != 0 ==> Carries(sent, ring[SlotOf(a)], a)
  }

  ghost predicate ReceiveHeld(sent: seq<seq<Byte>>, ring: seq<Slot>, read: nat)
    requires |ring| == MAX_PACKET_NUMBER
  {
    forall a: nat {:trigger ReceiveSlot(sent, ring, a)} ::
      read <= a < read + MAX_PACKET_NUMBER ==> ReceiveSlot(sent, ring, a)
  }

  /** Every slot of the receive ring is empty or holds the number of [R, R + ring length) that maps to it. */
  ghost predicate ReceiveRing(s: State)
    requires s.rx.Ok()
  {
    ReceiveHeld(s.sent, s.rx.ring, s.R())
  }

  predicate Network(s: State) {
    && (forall f <- s.forward :: Genuine(s.sent, f))
    && (forall f <- s.backward :: f.packet.SeqReportPacket? ==> Truthful(s, f))
    && (forall f <- s.backward :: f.packet.SeqReportPacket? || f.packet.SeqLackPacket?)
  }

  predicate Genuine(sent: seq<seq<Byte>>, f: Flight) {
    match f.packet
    case UserData(w, k, len, buf) => Carries(sent, Slot(w, k, len, buf), f.abs)
    case SeqCheckPacket(w, k) => w < MAX_PACKET_SEQ && k < MAX_PACKET_SEQ
    case _ => false
  }

  predicate Truthful(s: State, f: Flight)
    requires f.packet.SeqReportPacket?
  {
    f.abs <= |s.delivered| && f.packet.seqNo == Wire(f.abs)
  }

  ghost predicate Inv(s: State) {
    && Numbers(s) && Payloads(s) && SendRing(s) && ReceiveRing(s) && Network(s)
    && s.delivered <= s.sent
  }

  /** Nothing accepted or delivered is taken back. */
  predicate Grows(s: State, s': State) {
    s.sent <= s'.sent && s.delivered <= s'.delivered
  }

  lemma InitialInv()
    ensures Inv(Initial())
  {
  }

  // ---------- every step keeps the invariant ----------

  /** The number about to be sent never shares a slot with an unacknowledged one. */
  lemma FreshSlot(s: State, a: nat)
    requires Numbers(s) && s.acked < a < s.M()
    ensures SlotOf(a) != SlotOf(s.tx.maxSend)
  {
    SlotOfWire(s.M());
    if SlotOf(a) == SlotOf(s.M()) {
      SlotInjective(a, s.M());
    }
  }

  /** exSend's test on ring slots is the window test M + 1 - C < ring length. */
  lemma CanSendExact(s: State)
    requires Numbers(s)
    ensures s.tx.CanSend() <==> s.M() + 1 < s.acked + MAX_PACKET_NUMBER
  {
    SlotOfWire(s.acked);
    SlotSucc(s.M());
    if s.M() + 1 == s.acked + MAX_PACKET_NUMBER {
      SlotWrap(s.acked);
    } else if SlotOf(s.M() + 1) == SlotOf(s.acked) {
      SlotInjective(s.M() + 1, s.acked);
    }
  }

  lemma ExSendKeepsInv(s: State, buf: seq<Byte>, sendOk: bool)
    requires Inv(s)
    ensures Inv(Next(s, ExSend(buf, sendOk))) && Grows(s, Next(s, ExSend(buf, sendOk)))
  {
    if ValidLength(|buf|) && s.tx.CanSend() {
      SentHeld(s, buf, sendOk);
      if sendOk {
        SendAccepted(s, buf);
      } else {
        SendingKeepsInv(s, s.(tx := Send(s.tx, buf, false)));
      }
    }
  }

  /** A send that succeeds. */
  lemma SendAccepted(s: State, buf: seq<Byte>)
    requires Inv(s) && ValidLength(|buf|) && s.tx.CanSend()
    requires SendHeld(s.sent + [buf], Send(s.tx, buf, true).ring, s.acked)
    requires Carries(s.sent + [buf], Send(s.tx, buf, true).ring[SlotOf(s.tx.maxSend)], s.M())
    ensures var s' := Next(s, ExSend(buf, true)); Inv(s') && Grows(s, s')
  {
    CanSendExact(s);
    WireSucc(s.M());
    SendingKeepsInv(s, Next(s, ExSend(buf, true)));
  }

  /** A step that changes the sender and what was sent, and puts genuine packets on their way. */
  lemma SendingKeepsInv(s: State, s': State)
    requires Inv(s) && s' == s.(tx := s'.tx, sent := s'.sent, forward := s'.forward) && s.sent <= s'.sent
    requires Numbers(s') && Payloads(s') && SendRing(s')
    requires forall f <- s'.forward :: f in s.forward || Genuine(s'.sent, f)
    ensures Inv(s') && Grows(s, s')
  {
    SentGrows(s, s');
  }

  /** The send ring after a packet was put into it; only a successful sendto makes it count as sent. */
  lemma SentHeld(s: State, buf: seq<Byte>, sendOk: bool)
    requires Inv(s)
    ensures var sent := if sendOk then s.sent + [buf] else s.sent;
      SendHeld(sent, Send(s.tx, buf, sendOk).ring, s.acked)
    ensures Carries(s.sent + [buf], Send(s.tx, buf, sendOk).ring[SlotOf(s.tx.maxSend)], s.M())
  {
    var sent, ring := if sendOk then s.sent + [buf] else s.sent, Send(s.tx, buf, sendOk).ring;
    SlotOfWire(s.M());
    forall a: nat | s.acked < a <= |sent|
      ensures SendSlot(sent, ring, a)
    {
      if a < s.M() {
        FreshSlot(s, a);
        assert SendSlot(s.sent, s.tx.ring, a);
      }
    }
  }

  /** What was true of the packets and of the receive ring stays true when sent grows. */
  lemma SentGrows(s: State, s': State)
    requires Inv(s) && s'.rx == s.rx && s'.delivered == s.delivered
    requires s.sent <= s'.sent
    ensures ReceiveRing(s')
    ensures forall f <- s.forward :: Genuine(s'.sent, f)
  {
    forall a: nat | s'.R() <= a < s'.R() + MAX_PACKET_NUMBER
      ensures ReceiveSlot(s'.sent, s'.rx.ring, a)
    {
      assert ReceiveSlot(s.sent, s.rx.ring, a);
    }
  }

  /** A step that only notes readMax and sends reports or gap lists back. */
  lemma AnsweringKeepsInv(s: State, s': State)
    requires Inv(s) && s' == s.(rx := s'.rx, backward := s'.backward)
    requires s'.rx == s.rx.(readMax := s'.rx.readMax) && s'.rx.readMax < MAX_PACKET_SEQ
    requires forall f <- s'.backward :: f in s.backward || f == ReportFlight(s) || f.packet.SeqLackPacket?
    ensures Inv(s') && Grows(s, s')
  {
    ReportedNumber(s);
  }

  lemma ReportedKeepsInv(s: State, lackOpen: bool)
    requires Inv(s)
    ensures Inv(Reported(s, lackOpen)) && Grows(s, Reported(s, lackOpen))
  {
    AnsweringKeepsInv(s, Reported(s, lackOpen));
  }

  /** SEQ_REPORT carries the number of the last packet read. */
  lemma ReportedNumber(s: State)
    requires Numbers(s)
    ensures s.rx.Reported() == Wire(|s.delivered|)
  {
    WireSucc(|s.delivered|);
    WireNext(Wire(|s.delivered|));
  }

  /** Reading: the slot at R holds sent[R - 1], and emptying it makes room for the number one ring further on. */
  lemma TakeKeepsInv(s: State)
    requires Inv(s) && Holds(s.rx.ring, s.rx.read)
    ensures Inv(Next(s, ExRecv(true))) && Next(s, ExRecv(true)) == Next(s, ExRecv(false))
    ensures Grows(s, Next(s, ExRecv(true)))
    ensures Next(s, ExRecv(true)).delivered == s.sent[..s.R()]
  {
    WireSucc(s.R());
    TakenPayload(s);
    TakenHeld(s);
  }

  lemma TakenPayload(s: State)
    requires Inv(s) && Holds(s.rx.ring, s.rx.read)
    ensures s.R() <= |s.sent| && s.delivered + [Take(s.rx).1] == s.sent[..s.R()]
  {
    SlotOfWire(s.R());
    assert ReceiveSlot(s.sent, s.rx.ring, s.R());
    assert s.delivered + [s.sent[s.R() - 1]] == s.sent[..s.R()];
  }

  lemma TakenHeld(s: State)
    requires Inv(s) && Holds(s.rx.ring, s.rx.read)
    ensures ReceiveHeld(s.sent, Take(s.rx).0.ring, s.R() + 1)
  {
    var ring := Take(s.rx).0.ring;
    SlotOfWire(s.R());
    forall a: nat | s.R() < a < s.R() + 1 + MAX_PACKET_NUMBER
      ensures ReceiveSlot(s.sent, ring, a)
    {
      if a == s.R() + MAX_PACKET_NUMBER {
        SlotWrap(s.R());
      } else {
        assert ReceiveSlot(s.sent, s.rx.ring, a);
      }
    }
  }

  /** Arriving data: stored only in the slot of its own number, inside [R, M). */
  lemma DataKeepsInv(s: State, f: Flight)
    requires Inv(s) && Enabled(s, ArriveData(f))
    ensures Inv(Next(s, ArriveData(f))) && Grows(s, Next(s, ArriveData(f)))
  {
    var s' := Next(s, ArriveData(f));
    var b := f.abs;
    assert Genuine(s.sent, f);
    ReceiveWindowExact(b, s.R());
    SlotOfWire(b);
    forall a: nat | s'.R() <= a < s'.R() + MAX_PACKET_NUMBER
      ensures ReceiveSlot(s'.sent, s'.rx.ring, a)
    {
      assert ReceiveSlot(s.sent, s.rx.ring, a);
      if s'.rx != s.rx && SlotOf(a) == SlotOf(b) {
        SlotInjective(a, b);
      }
    }
  }

  lemma CheckKeepsInv(s: State, f: Flight)
    requires Inv(s) && Enabled(s, ArriveCheck(f))
    ensures Inv(Next(s, ArriveCheck(f))) && Grows(s, Next(s, ArriveCheck(f)))
  {
    assert Genuine(s.sent, f);
    AnsweringKeepsInv(s, Next(s, ArriveCheck(f)));
  }

  /** An accepted report moves C forward, never past R - 1. */
  lemma ReportKeepsInv(s: State, f: Flight)
    requires Inv(s) && Enabled(s, ArriveReport(f))
    ensures Inv(Next(s, ArriveReport(f))) && Grows(s, Next(s, ArriveReport(f)))
    ensures Next(s, ArriveReport(f)).acked == if f.abs < s.acked then s.acked else f.abs
  {
    assert Truthful(s, f);
    ReportWindowExact(s.acked, f.abs, s.M());
    var s' := Next(s, ArriveReport(f));
    forall a: nat | s'.acked < a < s'.M()
      ensures SendSlot(s'.sent, s'.tx.ring, a)
    {
      assert SendSlot(s.sent, s.tx.ring, a);
    }
  }

  /** An entry of any gap list that passes the window test names exactly one unacknowledged number. */
  lemma ResendableExact(s: State, w: nat)
    requires Numbers(s)
    ensures Resendable(s.tx, w) ==>
      s.acked < Resolve(s, w) < s.M() && Wire(Resolve(s, w)) == w && SlotOf(Resolve(s, w)) == SlotOf(w)
    ensures forall a: nat :: s.acked < a < s.M() && w == Wire(a) ==> Resendable(s.tx, w) && Resolve(s, w) == a
  {
    if Resendable(s.tx, w) {
      ResendableNamed(s, w);
    }
    forall a: nat | s.acked < a < s.M() && w == Wire(a)
      ensures Resendable(s.tx, w) && Resolve(s, w) == a
    {
      NamedResendable(s, a);
    }
  }

  lemma ResendableNamed(s: State, w: nat)
    requires Numbers(s) && Resendable(s.tx, w)
    ensures s.acked < Resolve(s, w) < s.M() && Wire(Resolve(s, w)) == w && SlotOf(Resolve(s, w)) == SlotOf(w)
  {
    var h := s.acked + 1;
    WireSucc(s.acked);
    WindowOfNumbers(h, w, s.M());
    assert Resolve(s, w) == h + Offset(Wire(h), w);
  }

  lemma NamedResendable(s: State, a: nat)
    requires Numbers(s) && s.acked < a < s.M()
    ensures Resendable(s.tx, Wire(a)) && Resolve(s, Wire(a)) == a
  {
    WireSucc(s.acked);
    WireOffset(a, s.acked + 1);
    WindowOfNumbers(s.acked + 1, Wire(a), s.M());
  }

  /** The window test from h to m: passed exactly by the wire numbers of h .. m - 1. */
  lemma WindowOfNumbers(h: nat, w: nat, m: nat)
    requires h <= m < h + MAX_PACKET_NUMBER
    ensures w < MAX_PACKET_SEQ ==>
      (CmpSeqOrder(Wire(h), w, Wire(m)) <==> h + Offset(Wire(h), w) < m)
    ensures w < MAX_PACKET_SEQ ==>
      Wire(h + Offset(Wire(h), w)) == w && SlotOf(h + Offset(Wire(h), w)) == SlotOf(w)
  {
    WireOffset(m, h);
    if w < MAX_PACKET_SEQ {
      CmpSeqOrderOffset(Wire(h), w, Wire(m));
      OffsetWire(h, w);
    }
  }

  /** Only seqCheck changes in the send ring. */
  predicate SameData(ring: seq<Slot>, ring': seq<Slot>) {
    |ring'| == |ring| && forall i :: 0 <= i < |ring| ==> ring'[i].(seqCheck := 0) == ring[i].(seqCheck := 0)
  }

  lemma SameDataHeld(sent: seq<seq<Byte>>, ring: seq<Slot>, ring': seq<Slot>, acked: nat)
    requires |ring| == MAX_PACKET_NUMBER && SendHeld(sent, ring, acked) && SameData(ring, ring')
    ensures SendHeld(sent, ring', acked)
  {
    forall a: nat | acked < a <= |sent|
      ensures SendSlot(sent, ring', a)
    {
      assert SendSlot(sent, ring, a);
      assert ring'[SlotOf(a)].(seqCheck := 0) == ring[SlotOf(a)].(seqCheck := 0);
    }
  }

  lemma {:induction false} LackKeepsRing(t: Tx, entries: seq<nat>)
    requires t.Ok()
    ensures SameData(t.ring, LackAck(t, entries).0.ring)
    decreases |entries|
  {
    if entries != [] {
      LackKeepsRing(Refresh(t, entries[0]), entries[1..]);
    }
  }

  /** With C at acked and its successor next on the wire, p carries what was first sent under its number. */
  predicate Original(sent: seq<seq<Byte>>, acked: nat, next: nat, p: Packet)
    requires next < MAX_PACKET_SEQ
  {
    p.UserData? && Genuine(sent, Flight(acked + 1 + Offset(next, p.seqNo), p))
  }

  /** Every retransmission carries the payload first sent under its number, and the ring's data stays. */
  lemma LackKeepsData(s: State, entries: seq<nat>)
    requires Numbers(s) && SendRing(s)
    ensures SameData(s.tx.ring, LackAck(s.tx, entries).0.ring)
    ensures forall p <- LackAck(s.tx, entries).1 :: Original(s.sent, s.acked, s.tx.NextUnacked(), p)
  {
    LackKeepsRing(s.tx, entries);
    forall i: nat | i < |LackAck(s.tx, entries).1|
      ensures Original(s.sent, s.acked, s.tx.NextUnacked(), LackAck(s.tx, entries).1[i])
    {
      LackOriginal(s, entries, i);
    }
  }

  lemma {:induction false} LackOriginal(s: State, entries: seq<nat>, i: nat)
    requires Numbers(s) && SendRing(s) && i < |LackAck(s.tx, entries).1|
    ensures Original(s.sent, s.acked, s.tx.NextUnacked(), LackAck(s.tx, entries).1[i])
    decreases |entries|
  {
    var s1 := Refreshed(s, entries[0]);
    var rest := LackAck(s1.tx, entries[1..]).1;
    assert LackAck(s.tx, entries).1 == [DataOf(s1.tx.ring[SlotOf(entries[0])])] + rest;
    if i == 0 {
      RefreshedGenuine(s, entries[0]);
    } else {
      LackOriginal(s1, entries[1..], i - 1);
    }
  }

  ghost function Refreshed(s: State, w: nat): (s1: State)
    requires Numbers(s) && SendRing(s)
    ensures Numbers(s1) && SendRing(s1) && s1.tx == Refresh(s.tx, w)
    ensures s1.sent == s.sent && s1.acked == s.acked && s1.tx.NextUnacked() == s.tx.NextUnacked()
  {
    SameDataHeld(s.sent, s.tx.ring, Refresh(s.tx, w).ring, s.acked);
    s.(tx := Refresh(s.tx, w))
  }

  lemma RefreshedGenuine(s: State, w: nat)
    requires Numbers(s) && SendRing(s) && Resendable(s.tx, w)
    ensures Original(s.sent, s.acked, s.tx.NextUnacked(), DataOf(Refresh(s.tx, w).ring[SlotOf(w)]))
  {
    ResendableNamed(s, w);
    assert SendSlot(s.sent, s.tx.ring, Resolve(s, w));
  }

  lemma LackKeepsInv(s: State, f: Flight)
    requires Inv(s) && Enabled(s, ArriveLack(f))
    ensures Inv(Next(s, ArriveLack(f))) && Grows(s, Next(s, ArriveLack(f)))
  {
    var (tx, packets) := LackAck(s.tx, f.packet.entries);
    LackKeepsData(s, f.packet.entries);
    SameDataHeld(s.sent, s.tx.ring, tx.ring, s.acked);
    LaunchedGenuine(s, packets);
    SendingKeepsInv(s, Next(s, ArriveLack(f)));
  }

  lemma LaunchedGenuine(s: State, packets: seq<Packet>)
    requires s.tx.Ok() && forall p <- packets :: Original(s.sent, s.acked, s.tx.NextUnacked(), p)
    ensures forall f <- Launched(s, packets) :: Genuine(s.sent, f)
  {
  }

  lemma ProbeKeepsInv(s: State)
    requires Inv(s)
    ensures Inv(Next(s, SendProbe)) && Grows(s, Next(s, SendProbe))
  {
  }

  lemma CheckFieldKeepsInv(s: State, check: nat)
    requires Inv(s)
    ensures Inv(Next(s, OtherDirection(check))) && Grows(s, Next(s, OtherDirection(check)))
  {
  }

  lemma StepKeepsInv(s: State, e: Event)
    requires Inv(s) && Enabled(s, e)
    ensures Inv(Next(s, e)) && Grows(s, Next(s, e))
  {
    match e
    case ExSend(buf, sendOk) => ExSendKeepsInv(s, buf, sendOk);
    case SendProbe => ProbeKeepsInv(s);
    case ExRecv(lackOpen) =>
      if Holds(s.rx.ring, s.rx.read) {
        TakeKeepsInv(s);
      } else {
        ReportedKeepsInv(s, lackOpen);
      }
    case SendReport(lackOpen) => ReportedKeepsInv(s, lackOpen);
    case ArriveData(f) => DataKeepsInv(s, f);
    case ArriveCheck(f) => CheckKeepsInv(s, f);
    case ArriveReport(f) => ReportKeepsInv(s, f);
    case ArriveLack(f) => LackKeepsInv(s, f);
    case OtherDirection(check) => CheckFieldKeepsInv(s, check);
  }

  // ---------- whole runs ----------

  /** s' is reached from s by the given events. */
  ghost predicate Runs(s: State, events: seq<Event>, s': State)
    decreases |events|
  {
    if events == [] then s' == s
    else
      && s.tx.Ok() && s.rx.Ok() && Enabled(s, events[0])
      && Runs(Next(s, events[0]), events[1..], s')
  }

  lemma {:induction false} RunKeepsInv(s: State, events: seq<Event>, s': State)
    requires Inv(s) && Runs(s, events, s')
    ensures Inv(s') && Grows(s, s')
    decreases |events|
  {
    if events != [] {
      StepKeepsInv(s, events[0]);
      RunKeepsInv(Next(s, events[0]), events[1..], s');
    }
  }

  /**
    No loss, no reordering, no duplication: in every run, whatever the network does, what
    exRecv has returned is a prefix of what exSend has accepted.
   */
  lemma DeliveryInOrder(events: seq<Event>, s: State)
    requires Runs(Initial(), events, s)
    ensures Numbers(s)
    ensures s.delivered <= s.sent
    ensures s.acked <= |s.delivered|
    ensures 1 <= s.M() - s.acked <= MAX_PACKET_NUMBER - 1
    ensures SendRing(s) && ReceiveRing(s)
  {
    InitialInv();
    RunKeepsInv(Initial(), events, s);
  }
}
