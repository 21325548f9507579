/** Recovery: whatever the network lost before, one exchange without loss brings the receiver up to the sender. */
module UdpRecovery {
  import opened UdpSequence
  import opened UdpLinkSpec
  import opened UdpDelivery

  // The exchange is a probe and its arrival, a drain, the report and the gap list that an empty
  // exRecv sends, the arrival of every retransmission, a second drain, and a last report; each
  // stage is made of steps of UdpDelivery.

  /** Number a waits in the receive ring. */
  predicate Waiting(s: State, a: nat)
    requires s.rx.Ok()
  {
    Holds(s.rx.ring, Wire(a))
  }

  // ---------- the stages ----------

  function ProbeFlight(s: State): Flight {
    Flight(0, SeqCheckPacket(s.tx.maxSend, s.tx.NextUnacked()))
  }

  ghost function Probed(s: State): State
    requires Inv(s) && s.acked + 1 < s.M()
  {
    ProbeSent(s);
    StepKeepsInv(s, SendProbe);
    Next(Next(s, SendProbe), ArriveCheck(ProbeFlight(s)))
  }

  /** exRecv until the next number is not there. */
  ghost function Drained(s: State): State
    requires Inv(s)
    decreases s.M() - s.R()
  {
    if !Waiting(s, s.R()) then s
    else
      TakeKeepsInv(s);
      Drained(Next(s, ExRecv(true)))
  }

  /** An exRecv that finds nothing, and the arrival of its report. */
  ghost function Acknowledged(s: State): State
    requires Inv(s) && !Waiting(s, s.R())
  {
    StepKeepsInv(s, ExRecv(true));
    Next(Next(s, ExRecv(true)), ArriveReport(ReportFlight(s)))
  }

  /** The arrival of the gap list, if one was sent. */
  ghost function Resent(s: State): State
    requires Inv(s) && (Lacking(s.rx) != [] ==> LackFlight(s) in s.backward)
  {
    if Lacking(s.rx) == [] then s else Next(s, ArriveLack(LackFlight(s)))
  }

  predicate CanArrive(s: State, fs: seq<Flight>) {
    forall i :: 0 <= i < |fs| ==> Enabled(s, ArriveData(fs[i]))
  }

  lemma StillCanArrive(s: State, fs: seq<Flight>)
    requires Inv(s) && fs != [] && CanArrive(s, fs)
    ensures Inv(Next(s, ArriveData(fs[0]))) && CanArrive(Next(s, ArriveData(fs[0])), fs[1..])
  {
    DataKeepsInv(s, fs[0]);
    forall i | 0 <= i < |fs| - 1
      ensures Enabled(Next(s, ArriveData(fs[0])), ArriveData(fs[1..][i]))
    {
      assert Enabled(s, ArriveData(fs[i + 1]));
    }
  }

  /** The arrival of data packets, in the order given. */
  ghost function Arrived(s: State, fs: seq<Flight>): (r: State)
    requires Inv(s) && CanArrive(s, fs)
    ensures Inv(r) && r.sent == s.sent && r.delivered == s.delivered
    decreases |fs|
  {
    if fs == [] then s
    else
      StillCanArrive(s, fs);
      Arrived(Next(s, ArriveData(fs[0])), fs[1..])
  }

  /** The retransmissions that the gap list of s calls for. */
  function Retransmissions(s: State): seq<Flight>
    requires s.tx.Ok() && s.rx.Ok()
  {
    var packets := LackAck(s.tx, Lacking(s.rx)).1;
    seq(|packets|, i requires 0 <= i < |packets| =>
      if packets[i].UserData? then Flight(Resolve(s, packets[i].seqNo), packets[i]) else Flight(0, packets[i]))
  }

  ghost function Refilled(s: State): (r: State)
    requires Inv(s) && (Lacking(s.rx) != [] ==> LackFlight(s) in s.backward)
    requires s.acked == |s.delivered|
    ensures Inv(r) && r.sent == s.sent && r.delivered == s.delivered
  {
    ResentInv(s);
    Arrived(Resent(s), Retransmissions(s))
  }

  /** Both ends know what the other has: the receiver knows M, the sender R, and the gap list is out. */
  ghost predicate Informed(s: State) {
    && Inv(s) && s.acked == |s.delivered| && s.rx.readMax == Wire(s.M())
    && (Lacking(s.rx) != [] ==> LackFlight(s) in s.backward)
  }

  /** The first half of the exchange: probe, drain, report and gap list. */
  ghost function Inform(s: State): State
    requires Inv(s) && s.acked + 1 < s.M()
  {
    ProbedState(s);
    DrainedState(Probed(s));
    Acknowledged(Drained(Probed(s)))
  }

  /** The second half: retransmissions, drain, report. */
  ghost function Complete(s: State): State
    requires Informed(s)
  {
    DrainedState(Refilled(s));
    Acknowledged(Drained(Refilled(s)))
  }

  /** The whole exchange. */
  ghost function Exchange(s: State): State
    requires Inv(s) && s.acked + 1 < s.M()
  {
    InformState(s);
    Complete(Inform(s))
  }

  // ---------- what each stage establishes ----------

  lemma ProbeSent(s: State)
    requires Inv(s) && s.acked + 1 < s.M()
    ensures Probe(s.tx) == Some(ProbeFlight(s).packet)
  {
    WireSucc(s.acked);
    if s.tx.maxSend == s.tx.NextUnacked() {
      WireInjective(s.M(), s.acked + 1);
    }
  }

  /** The probe is never taken for a stale one: the receiver learns M. */
  lemma ProbedState(s: State)
    requires Inv(s) && s.acked + 1 < s.M()
    ensures Inv(Probed(s)) && Probed(s).rx.readMax == Wire(s.M())
    ensures Probed(s).sent == s.sent && Probed(s).delivered == s.delivered
  {
    ProbeSent(s);
    StepKeepsInv(s, SendProbe);
    ProbeArrives(Next(s, SendProbe), ProbeFlight(s));
  }

  lemma ProbeArrives(s: State, f: Flight)
    requires Inv(s) && s.acked + 1 < s.M() && f == ProbeFlight(s) && f in s.forward
    ensures var n := Next(s, ArriveCheck(f));
      Inv(n) && n.rx.readMax == Wire(s.M()) && n.sent == s.sent && n.delivered == s.delivered
  {
    CheckKeepsInv(s, f);
    ProbeNoticed(s);
  }

  lemma ProbeNoticed(s: State)
    requires Numbers(s) && s.acked + 1 < s.M()
    ensures CheckAck(s.rx, s.tx.maxSend, s.tx.NextUnacked()).0 == s.rx.(readMax := Wire(s.M()))
  {
    WireSucc(s.acked);
    if s.R() < s.M() {
      ReportWindowExact(s.acked + 1, s.R(), s.M());
    }
  }

  lemma {:induction false} DrainedState(s: State)
    requires Inv(s)
    ensures var d := Drained(s);
      && Inv(d) && !Waiting(d, d.R())
      && d.sent == s.sent && d.rx.readMax == s.rx.readMax
      && d.tx == s.tx && d.acked == s.acked
    decreases s.M() - s.R()
  {
    if Waiting(s, s.R()) {
      TakeKeepsInv(s);
      DrainedState(Next(s, ExRecv(true)));
    }
  }

  /** A drain of a ring without gaps reads everything that was sent. */
  lemma {:induction false} DrainsAll(s: State)
    requires Inv(s) && (forall a: nat :: s.R() <= a < s.M() ==> Waiting(s, a))
    ensures Drained(s).delivered == s.sent
    decreases s.M() - s.R()
  {
    if s.R() == s.M() {
      NothingBeyond(s);
    } else {
      assert Waiting(s, s.R());
      TakeKeepsInv(s);
      var s1 := Next(s, ExRecv(true));
      forall a: nat | s1.R() <= a < s1.M()
        ensures Waiting(s1, a)
      {
        assert Waiting(s, a);
        SlotOfWire(a);
        SlotOfWire(s.R());
        if SlotOf(a) == SlotOf(s.R()) {
          SlotInjective(a, s.R());
        }
      }
      DrainsAll(s1);
    }
  }

  /** Nothing that was not sent is ever in the ring. */
  lemma NothingBeyond(s: State)
    requires Inv(s) && s.R() == s.M()
    ensures !Waiting(s, s.R())
    ensures s.delivered == s.sent
  {
    SlotOfWire(s.R());
    assert ReceiveSlot(s.sent, s.rx.ring, s.R());
  }

  lemma AcknowledgedState(s: State)
    requires Inv(s) && !Waiting(s, s.R())
    ensures var a := Acknowledged(s);
      && Inv(a) && a.rx == s.rx && a.sent == s.sent && a.delivered == s.delivered
      && a.acked == |s.delivered|
      && (Lacking(a.rx) != [] ==> LackFlight(a) in a.backward)
  {
    StepKeepsInv(s, ExRecv(true));
    ReportKeepsInv(Next(s, ExRecv(true)), ReportFlight(s));
  }

  /** With C = R - 1 and readMax = M, the gap list is the list of missing absolute numbers. */
  lemma LackingMeaning(s: State, a: nat)
    requires Inv(s) && s.rx.readMax == Wire(s.M()) && s.R() <= a < s.M()
    ensures Wire(a) in Lacking(s.rx) <==> !Waiting(s, a)
  {
    CmpSeqOffset(s.rx.readMax, s.rx.read);
    WireOffset(s.M(), s.R());
    WireOffset(a, s.R());
    MissingMember(s.rx.ring, s.rx.read, s.rx.readMax, Wire(a));
  }

  /** Every entry of that list passes the sender's window test. */
  lemma LackingResendable(s: State, w: nat)
    requires Inv(s) && s.rx.readMax == Wire(s.M()) && s.acked == |s.delivered|
    requires w in Lacking(s.rx)
    ensures Resendable(s.tx, w)
  {
    MissingMember(s.rx.ring, s.rx.read, s.rx.readMax, w);
    WireOffset(s.M(), s.R());
    var a := s.R() + Offset(s.rx.read, w);
    OffsetWire(s.R(), w);
    ResendableExact(s, w);
    assert s.acked < a < s.M() && w == Wire(a);
  }

  predicate AllResendable(t: Tx, entries: seq<nat>)
    requires t.Ok()
  {
    forall i :: 0 <= i < |entries| ==> Resendable(t, entries[i]) && t.ring[SlotOf(entries[i])].seqNo == entries[i]
  }

  /** When every entry passes, SeqLackAck resends every one of them. */
  lemma {:induction false} ResendsAll(t: Tx, entries: seq<nat>)
    requires t.Ok() && AllResendable(t, entries)
    ensures var out := LackAck(t, entries).1;
      |out| == |entries| && forall i :: 0 <= i < |out| ==> out[i].UserData? && out[i].seqNo == entries[i]
    decreases |entries|
  {
    if entries != [] {
      var t1, rest := Refresh(t, entries[0]), entries[1..];
      forall i | 0 <= i < |rest|
        ensures Resendable(t1, rest[i]) && t1.ring[SlotOf(rest[i])].seqNo == rest[i]
      {
        assert Resendable(t, entries[i + 1]) && t.ring[SlotOf(entries[i + 1])].seqNo == entries[i + 1];
      }
      ResendsAll(t1, rest);
    }
  }

  lemma ResentInv(s: State)
    requires Inv(s) && (Lacking(s.rx) != [] ==> LackFlight(s) in s.backward)
    requires s.acked == |s.delivered|
    ensures Inv(Resent(s)) && Resent(s).rx == s.rx
    ensures Resent(s).sent == s.sent && Resent(s).delivered == s.delivered
    ensures CanArrive(Resent(s), Retransmissions(s))
  {
    LackKeepsData(s, Lacking(s.rx));
    if Lacking(s.rx) != [] {
      LackKeepsInv(s, LackFlight(s));
    }
    var packets := LackAck(s.tx, Lacking(s.rx)).1;
    forall i | 0 <= i < |packets|
      ensures Enabled(Resent(s), ArriveData(Retransmissions(s)[i]))
    {
      assert packets[i] in packets;
      ResendableExact(s, packets[i].seqNo);
      assert Genuine(s.sent, Flight(Resolve(s, packets[i].seqNo), packets[i]));
    }
  }

  /** A duplicate or a neighbour never displaces a waiting packet, and data in the window is kept. */
  lemma ArrivalKeepsWaiting(s: State, f: Flight, a: nat)
    requires Inv(s) && Enabled(s, ArriveData(f)) && s.R() <= a < s.M()
    requires Waiting(s, a) || f.abs == a
    ensures Waiting(Next(s, ArriveData(f)), a)
  {
    assert Genuine(s.sent, f);
    var b := f.abs;
    ReceiveWindowExact(b, s.R());
    SlotOfWire(a);
    SlotOfWire(b);
    if Waiting(s, a) && SlotOf(a) == SlotOf(b) && s.R() <= b {
      SlotInjective(a, b);
    }
  }

  lemma {:induction false} ArrivedKeepsWaiting(s: State, fs: seq<Flight>, a: nat)
    requires Inv(s) && CanArrive(s, fs) && s.R() <= a < s.M()
    requires Waiting(s, a)
    ensures Waiting(Arrived(s, fs), a)
    decreases |fs|
  {
    if fs != [] {
      StillCanArrive(s, fs);
      ArrivalKeepsWaiting(s, fs[0], a);
      ArrivedKeepsWaiting(Next(s, ArriveData(fs[0])), fs[1..], a);
    }
  }

  lemma {:induction false} ArrivedWaiting(s: State, fs: seq<Flight>, a: nat, i: nat)
    requires Inv(s) && CanArrive(s, fs) && s.R() <= a < s.M()
    requires i < |fs| && fs[i].abs == a
    ensures Waiting(Arrived(s, fs), a)
    decreases i
  {
    StillCanArrive(s, fs);
    var s1 := Next(s, ArriveData(fs[0]));
    if i == 0 {
      ArrivalKeepsWaiting(s, fs[0], a);
      ArrivedKeepsWaiting(s1, fs[1..], a);
    } else {
      ArrivedWaiting(s1, fs[1..], a, i - 1);
    }
  }

  /** Every missing number is among the retransmissions. */
  lemma RetransmissionOf(s: State, a: nat) returns (i: nat)
    requires Inv(s) && s.acked == |s.delivered| && s.rx.readMax == Wire(s.M())
    requires s.R() <= a < s.M() && !Waiting(s, a)
    ensures i < |Retransmissions(s)| && Retransmissions(s)[i].abs == a
  {
    var lack := Lacking(s.rx);
    forall k | 0 <= k < |lack|
      ensures Resendable(s.tx, lack[k]) && s.tx.ring[SlotOf(lack[k])].seqNo == lack[k]
    {
      LackingResendable(s, lack[k]);
      ResendableExact(s, lack[k]);
      assert SendSlot(s.sent, s.tx.ring, Resolve(s, lack[k]));
    }
    ResendsAll(s.tx, lack);
    LackingMeaning(s, a);
    i :| 0 <= i < |lack| && lack[i] == Wire(a);
    ResendableExact(s, Wire(a));
  }

  /** After the retransmissions no gap is left below M. */
  lemma NoGapLeft(s: State, a: nat)
    requires Informed(s) && s.R() <= a < s.M()
    ensures Waiting(Refilled(s), a)
  {
    ResentInv(s);
    if Waiting(s, a) {
      ArrivedKeepsWaiting(Resent(s), Retransmissions(s), a);
    } else {
      var i := RetransmissionOf(s, a);
      ArrivedWaiting(Resent(s), Retransmissions(s), a, i);
    }
  }

  lemma InformState(s: State)
    requires Inv(s) && s.acked + 1 < s.M()
    ensures Informed(Inform(s)) && Inform(s).sent == s.sent
  {
    ProbedState(s);
    ReportAfterDrain(Probed(s));
  }

  lemma ReportAfterDrain(p: State)
    requires Inv(p) && p.rx.readMax == Wire(p.M())
    ensures Inv(Drained(p)) && !Waiting(Drained(p), Drained(p).R())
    ensures Informed(Acknowledged(Drained(p))) && Acknowledged(Drained(p)).sent == p.sent
  {
    DrainedState(p);
    ReportWhenDrained(Drained(p));
  }

  lemma ReportWhenDrained(d: State)
    requires Inv(d) && !Waiting(d, d.R()) && d.rx.readMax == Wire(d.M())
    ensures Informed(Acknowledged(d)) && Acknowledged(d).sent == d.sent
  {
    AcknowledgedState(d);
  }

  lemma CompleteState(s: State)
    requires Informed(s)
    ensures var e := Complete(s);
      Inv(e) && e.sent == s.sent && e.delivered == s.sent && e.acked == |s.sent|
  {
    var f := Refilled(s);
    forall n: nat | f.R() <= n < f.M()
      ensures Waiting(f, n)
    {
      NoGapLeft(s, n);
    }
    DrainsAll(f);
    DrainedState(f);
    AcknowledgedState(Drained(f));
  }

  /**
    Recovery.  From any state of any run in which something is unacknowledged, one loss-free
    exchange ends with every accepted payload delivered (R = M) and acknowledged (C = M - 1).
   */
  lemma ExchangeRecovers(s: State)
    requires Inv(s) && s.acked + 1 < s.M()
    ensures Exchange(s).sent == s.sent
    ensures Exchange(s).delivered == s.sent
    ensures Exchange(s).acked == |s.sent|
    ensures Inv(Exchange(s))
  {
    InformState(s);
    CompleteState(Inform(s));
  }

  // ---------- the exchange is a run ----------

  lemma {:induction false} RunsConcat(s: State, first: seq<Event>, mid: State, second: seq<Event>, s': State)
    requires Runs(s, first, mid) && Runs(mid, second, s')
    ensures Runs(s, first + second, s')
    decreases |first|
  {
    if first == [] {
      assert first + second == second;
    } else {
      RunsConcat(Next(s, first[0]), first[1..], mid, second, s');
      assert (first + second)[1..] == first[1..] + second;
    }
  }

  lemma StepRuns(s: State, e: Event)
    requires Inv(s) && Enabled(s, e)
    ensures Runs(s, [e], Next(s, e))
  {
    assert Runs(Next(s, e), [], Next(s, e));
  }

  lemma {:induction false} DrainedRuns(s: State) returns (events: seq<Event>)
    requires Inv(s)
    ensures Runs(s, events, Drained(s))
    decreases s.M() - s.R()
  {
    events := [];
    if Waiting(s, s.R()) {
      TakeKeepsInv(s);
      events := DrainedRuns(Next(s, ExRecv(true)));
      StepRuns(s, ExRecv(true));
      RunsConcat(s, [ExRecv(true)], Next(s, ExRecv(true)), events, Drained(s));
      events := [ExRecv(true)] + events;
    }
  }

  lemma {:induction false} ArrivedRuns(s: State, fs: seq<Flight>) returns (events: seq<Event>)
    requires Inv(s) && CanArrive(s, fs)
    ensures Runs(s, events, Arrived(s, fs))
    decreases |fs|
  {
    events := [];
    if fs != [] {
      StillCanArrive(s, fs);
      var e := ArriveData(fs[0]);
      events := ArrivedRuns(Next(s, e), fs[1..]);
      StepRuns(s, e);
      RunsConcat(s, [e], Next(s, e), events, Arrived(s, fs));
      events := [e] + events;
    }
  }

  lemma TwoStepsRun(s: State, e1: Event, e2: Event)
    requires Inv(s) && Enabled(s, e1) && Inv(Next(s, e1)) && Enabled(Next(s, e1), e2)
    ensures Runs(s, [e1, e2], Next(Next(s, e1), e2))
  {
    StepRuns(s, e1);
    StepRuns(Next(s, e1), e2);
    RunsConcat(s, [e1], Next(s, e1), [e2], Next(Next(s, e1), e2));
    assert [e1] + [e2] == [e1, e2];
  }

  lemma RefilledRuns(s: State) returns (events: seq<Event>)
    requires Inv(s) && (Lacking(s.rx) != [] ==> LackFlight(s) in s.backward)
    requires s.acked == |s.delivered|
    ensures Runs(s, events, Refilled(s))
  {
    ResentInv(s);
    events := ArrivedRuns(Resent(s), Retransmissions(s));
    if Lacking(s.rx) != [] {
      var e := ArriveLack(LackFlight(s));
      StepRuns(s, e);
      RunsConcat(s, [e], Resent(s), events, Refilled(s));
      events := [e] + events;
    }
  }

  lemma AcknowledgedRuns(s: State) returns (events: seq<Event>)
    requires Inv(s) && !Waiting(s, s.R())
    ensures Runs(s, events, Acknowledged(s))
  {
    StepKeepsInv(s, ExRecv(true));
    events := [ExRecv(true), ArriveReport(ReportFlight(s))];
    TwoStepsRun(s, events[0], events[1]);
  }

  lemma InformRuns(s: State) returns (events: seq<Event>)
    requires Inv(s) && s.acked + 1 < s.M()
    ensures Runs(s, events, Inform(s))
  {
    ProbedState(s);
    ProbeSent(s);
    StepKeepsInv(s, SendProbe);
    var p := Probed(s);
    var probe := [SendProbe, ArriveCheck(ProbeFlight(s))];
    TwoStepsRun(s, probe[0], probe[1]);
    DrainedState(p);
    var drain := DrainedRuns(p);
    var ack := AcknowledgedRuns(Drained(p));
    RunsConcat(s, probe, p, drain, Drained(p));
    RunsConcat(s, probe + drain, Drained(p), ack, Inform(s));
    events := probe + drain + ack;
  }

  lemma CompleteRuns(s: State) returns (events: seq<Event>)
    requires Informed(s)
    ensures Runs(s, events, Complete(s))
  {
    var fill := RefilledRuns(s);
    var f := Refilled(s);
    DrainedState(f);
    var drain := DrainedRuns(f);
    var ack := AcknowledgedRuns(Drained(f));
    RunsConcat(s, fill, f, drain, Drained(f));
    RunsConcat(s, fill + drain, Drained(f), ack, Complete(s));
    events := fill + drain + ack;
  }

  /** Every reachable state with unacknowledged packets can be run on to a state with none. */
  lemma ReachableRecovers(past: seq<Event>, s: State) returns (exchange: seq<Event>)
    requires Runs(Initial(), past, s) && s.acked + 1 < s.M()
    ensures Inv(s) && Runs(s, exchange, Exchange(s)) && Runs(Initial(), past + exchange, Exchange(s))
    ensures Exchange(s).delivered == Exchange(s).sent == s.sent && Exchange(s).acked == |s.sent|
  {
    InitialInv();
    RunKeepsInv(Initial(), past, s);
    ExchangeRecovers(s);
    InformState(s);
    var inform := InformRuns(s);
    var complete := CompleteRuns(Inform(s));
    RunsConcat(s, inform, Inform(s), complete, Exchange(s));
    exchange := inform + complete;
    RunsConcat(Initial(), past, s, exchange, Exchange(s));
  }
}
