// What one complete pass over a flight achieves at the receiver, whatever partial
// fragments arrived before under other MTUs.
module DtlsCompleteness {
  import opened Reassembly
  import opened HandshakeWire
  import opened DtlsReceiveModel
  import opened DtlsSendModel
  import opened DtlsFlight
  import opened DtlsSystem

  /** What the receiver does: it processes fragments, and its handshake takes
      messages in between. */
  datatype Input = Fragment(f: Frag) | TakeMessage

  function Process(st: State, inputs: seq<Input>, maxLen: nat): (r: (State, Result))
    requires |st.slots| == FLIGHT
    ensures |r.0.slots| == FLIGHT
    decreases |inputs|
  {
    if inputs == [] then (st, Success)
    else
      match inputs[0]
      case TakeMessage => Process(if Current(st).Complete() then Next(st) else st, inputs[1..], maxLen)
      case Fragment(f) =>
        var (st', r) := AcceptFrag(st, f, maxLen);
        if r != Success then (st', r) else Process(st', inputs[1..], maxLen)
  }

  /** The fragment's message was taken already, or its slot has these bytes. */
  ghost predicate Covered(st: State, f: Frag)
    requires |st.slots| == FLIGHT
  {
    f.seqNum < st.readSeq ||
    (var slot := st.slots[f.seqNum % FLIGHT];
     slot.Held? && slot.seqNum == f.seqNum && Range(f.off, f.off + |f.body|) <= slot.got)
  }

  ghost predicate AllGenuine(inputs: seq<Input>, queued: seq<Msg>) {
    forall k :: 0 <= k < |inputs| && inputs[k].Fragment? ==> Genuine(inputs[k].f, queued)
  }

  /** A fragment that raises no error when it arrives in `st`. */
  predicate Acceptable(st: State, f: Frag, maxLen: nat) {
    f.msgLen <= maxLen && (st.epoch == 1 ==> f.seqNum == st.readSeq) && f.seqNum != st.readSeq + FLIGHT
  }

  function AfterInput(st: State, input: Input, maxLen: nat): (st': State)
    requires |st.slots| == FLIGHT
    ensures |st'.slots| == FLIGHT
  {
    match input
    case TakeMessage => if Current(st).Complete() then Next(st) else st
    case Fragment(f) => AcceptFrag(st, f, maxLen).0
  }

  /** Every fragment is acceptable when its turn comes. */
  predicate AllAcceptable(st: State, inputs: seq<Input>, maxLen: nat)
    requires |st.slots| == FLIGHT
    decreases |inputs|
  {
    inputs == [] ||
    ((inputs[0].Fragment? ==> Acceptable(st, inputs[0].f, maxLen))
     && AllAcceptable(AfterInput(st, inputs[0], maxLen), inputs[1..], maxLen))
  }

  /** The fragments that are not ignored as too far ahead when their turn comes. */
  function Heard(st: State, inputs: seq<Input>, maxLen: nat): seq<Frag>
    requires |st.slots| == FLIGHT
    decreases |inputs|
  {
    if inputs == [] then []
    else
      (if inputs[0].Fragment? && inputs[0].f.seqNum < st.readSeq + FLIGHT then [inputs[0].f] else [])
      + Heard(AfterInput(st, inputs[0], maxLen), inputs[1..], maxLen)
  }

  lemma AcceptCovers(st: State, f: Frag, maxLen: nat, queued: seq<Msg>)
    requires ReceiverOk(st, queued) && Queueable(queued) && Genuine(f, queued)
    requires Acceptable(st, f, maxLen) && f.seqNum < st.readSeq + FLIGHT
    ensures Covered(AcceptFrag(st, f, maxLen).0, f)
  {
    if st.readSeq <= f.seqNum {
      var slot := st.slots[f.seqNum % FLIGHT];
      assert Honest(slot, queued);
      if slot.Held? {
        SlotHoldsThatMessage(st, f);
      }
    }
  }

  lemma AcceptKeepsCovered(st: State, f: Frag, maxLen: nat, g: Frag, queued: seq<Msg>)
    requires ReceiverOk(st, queued) && Queueable(queued) && Genuine(f, queued) && Covered(st, g)
    ensures Covered(AcceptFrag(st, f, maxLen).0, g)
  {
    if st.readSeq <= f.seqNum < st.readSeq + FLIGHT && st.slots[f.seqNum % FLIGHT].Held? {
      SlotHoldsThatMessage(st, f);
    }
  }

  lemma TakeKeepsReceiver(st: State, queued: seq<Msg>)
    requires ReceiverOk(st, queued) && Queueable(queued) && Current(st).Complete()
    ensures ReceiverOk(Next(st), queued) && Next(st).readSeq == st.readSeq + 1
    ensures forall g: Frag :: Covered(st, g) ==> Covered(Next(st), g)
  {
    CurrentIsDue(st);
    CompleteIsTheMessage(Current(st), queued);
    NextKeepsRing(st);
    forall i | 0 <= i < FLIGHT ensures Honest(Next(st).slots[i], queued) {
      assert Honest(st.slots[i], queued);
    }
    forall g: Frag | Covered(st, g) ensures Covered(Next(st), g) {
      if g.seqNum % FLIGHT == st.readSeq % FLIGHT && g.seqNum > st.readSeq { CurrentIsDue(st); }
    }
  }

  /** A genuine fragment raises no error iff it is acceptable; then it leaves its
      bytes behind, unless it is ignored as too far ahead, and takes nothing away. */
  lemma FragmentKeepsReceiver(st: State, f: Frag, maxLen: nat, queued: seq<Msg>)
    requires ReceiverOk(st, queued) && Queueable(queued) && Genuine(f, queued)
    ensures var (st', r) := AcceptFrag(st, f, maxLen);
            && (r == Success <==> Acceptable(st, f, maxLen))
            && ReceiverOk(st', queued) && st'.readSeq == st.readSeq
            && (Acceptable(st, f, maxLen) && f.seqNum < st.readSeq + FLIGHT ==> Covered(st', f))
            && forall g: Frag :: Covered(st, g) ==> Covered(st', g)
  {
    GenuineFragment(st, f, maxLen, queued);
    AcceptFragKeepsRing(st, f, maxLen);
    if Acceptable(st, f, maxLen) && f.seqNum < st.readSeq + FLIGHT { AcceptCovers(st, f, maxLen, queued); }
    forall g: Frag | Covered(st, g) ensures Covered(AcceptFrag(st, f, maxLen).0, g) {
      AcceptKeepsCovered(st, f, maxLen, g, queued);
    }
  }

  lemma InputKeepsReceiver(st: State, input: Input, maxLen: nat, queued: seq<Msg>)
    requires ReceiverOk(st, queued) && Queueable(queued) && (input.Fragment? ==> Genuine(input.f, queued))
    ensures var st' := AfterInput(st, input, maxLen);
            && ReceiverOk(st', queued) && st.readSeq <= st'.readSeq
            && (input.Fragment? && Acceptable(st, input.f, maxLen) && input.f.seqNum < st.readSeq + FLIGHT ==> Covered(st', input.f))
            && forall g: Frag :: Covered(st, g) ==> Covered(st', g)
  {
    assert |st.slots| == FLIGHT;
    hide AcceptFrag, Covered, ReceiverOk, Queueable, Genuine, Next, Current;
    match input
    case TakeMessage => if Current(st).Complete() { TakeKeepsReceiver(st, queued); }
    case Fragment(f) => FragmentKeepsReceiver(st, f, maxLen, queued);
  }

  /** Over any sequence of genuine inputs, no error is raised iff every fragment is
      acceptable in its turn, and then each one heard is covered at the end. */
  lemma {:induction false} ProcessCovers(st: State, inputs: seq<Input>, maxLen: nat, queued: seq<Msg>)
    requires ReceiverOk(st, queued) && Queueable(queued) && AllGenuine(inputs, queued)
    ensures var (st', r) := Process(st, inputs, maxLen);
            && (r == Success <==> AllAcceptable(st, inputs, maxLen))
            && ReceiverOk(st', queued) && st.readSeq <= st'.readSeq
            && (forall g: Frag :: Covered(st, g) ==> Covered(st', g))
            && (r == Success ==> forall f :: f in Heard(st, inputs, maxLen) ==> Covered(st', f))
    decreases |inputs|
  {
    if inputs == [] {
      return;
    }
    hide AcceptFrag, Covered, ReceiverOk, Queueable, Genuine, Next, Current, Acceptable;
    InputKeepsReceiver(st, inputs[0], maxLen, queued);
    if inputs[0].Fragment? {
      FragmentKeepsReceiver(st, inputs[0].f, maxLen, queued);
      if !Acceptable(st, inputs[0].f, maxLen) {
        return;
      }
    }
    assert forall k :: 0 <= k < |inputs[1..]| ==> inputs[1..][k] == inputs[k + 1];
    ProcessCovers(AfterInput(st, inputs[0], maxLen), inputs[1..], maxLen, queued);
  }

  ghost predicate AllHeard(recs: seq<Sealed>, heard: seq<Frag>) {
    forall k :: 0 <= k < |recs| && recs[k].what.EmitFrag? ==> recs[k].what.f in heard
  }

  /** A message of the flight whose every piece is covered is complete. */
  lemma {:induction false} CoveredMessageIsComplete(st: State, recs: seq<Sealed>, flight: seq<Outgoing>, i: nat, queued: seq<Msg>)
    requires ReceiverOk(st, queued)
    requires Tiles(recs, flight, 0, 0, |flight|, 0) && DistinctSeqs(flight)
    requires forall k :: 0 <= k < |recs| && recs[k].what.EmitFrag? ==> Covered(st, recs[k].what.f)
    requires i < |flight| && flight[i].item.Message? && flight[i].item.seqNum >= st.readSeq
    requires flight[i].item.seqNum < |queued| && queued[flight[i].item.seqNum] == Msg(flight[i].item.typ, flight[i].item.body)
    ensures var slot := st.slots[flight[i].item.seqNum % FLIGHT];
            slot.Complete() && slot.seqNum == flight[i].item.seqNum
            && slot.typ == flight[i].item.typ && slot.body == flight[i].item.body
  {
    var m := flight[i].item;
    var slot := st.slots[m.seqNum % FLIGHT];
    var k := EachMessageAppears(recs, flight, 0, |flight|, i);
    assert Covered(st, recs[k].what.f);
    assert Honest(slot, queued);
    forall j: nat | j < |m.body| ensures j in slot.got {
      EachByteOnce(recs, flight, 0, 0, |flight|, 0, i, j);
      var k := CarriedSomewhere(recs, m.seqNum, j);
      assert Covered(st, recs[k].what.f);
    }
    assert slot.got == Range(0, |m.body|);
    CompleteIsTheMessage(slot, queued);
  }

  /** Retransmission completeness. Let the sender resend its whole flight under any
      MTU, and let the receiver, in whatever honest state earlier passes left it,
      hear at least those fragments, in any order, mixed with fragments of other
      passes and of flights still far ahead, repeated, with messages taken in
      between, in any epoch. Then an error is raised iff some fragment was not
      acceptable in its turn, and if none was, every message of the flight has been taken or is complete with
      the type and body that were queued. */
  lemma {:induction false} OnePassCompletes(sys: System, mtu: nat, writes: seq<bool>, flushed: bool,
                         st: State, inputs: seq<Input>, maxLen: nat)
    requires Inv(sys) && ReceiverOk(st, sys.queued) && AllGenuine(inputs, sys.queued)
    requires Retransmit(sys.tx, mtu, writes, flushed).2 == AllSent
    requires AllHeard(Flatten(Retransmit(sys.tx, mtu, writes, flushed).1), Heard(st, inputs, maxLen))
    ensures var (st', r) := Process(st, inputs, maxLen);
            && (r == Success <==> AllAcceptable(st, inputs, maxLen))
            && (r == Success ==> FlightReceived(sys.tx.flight, st'))
  {
    ProcessCovers(st, inputs, maxLen, sys.queued);
    hide Inv, Retransmit, Process, Covered, ReceiverOk, Heard, AllAcceptable, FlightReceived;
    if Process(st, inputs, maxLen).1 == Success {
      CoveredIsReceived(sys, mtu, writes, flushed, Process(st, inputs, maxLen).0, Heard(st, inputs, maxLen));
    }
  }

  /** Every message of the flight was taken or is complete in its slot. */
  ghost predicate FlightReceived(flight: seq<Outgoing>, st: State)
    requires |st.slots| == FLIGHT
  {
    forall i :: 0 <= i < |flight| && flight[i].item.Message? ==>
      var m := flight[i].item;
      var slot := st.slots[m.seqNum % FLIGHT];
      m.seqNum < st.readSeq ||
      (slot.Complete() && slot.seqNum == m.seqNum && slot.typ == m.typ && slot.body == m.body)
  }

  /** A receiver that covers all the pieces of a whole pass has the flight. */
  lemma {:induction false} CoveredIsReceived(sys: System, mtu: nat, writes: seq<bool>, flushed: bool, st: State, heard: seq<Frag>)
    requires Inv(sys) && ReceiverOk(st, sys.queued)
    requires Retransmit(sys.tx, mtu, writes, flushed).2 == AllSent
    requires AllHeard(Flatten(Retransmit(sys.tx, mtu, writes, flushed).1), heard)
    requires forall f :: f in heard ==> Covered(st, f)
    ensures FlightReceived(sys.tx.flight, st)
  {
    var s := sys.tx.(written := 0, offset := 0);
    var recs := Flatten(Retransmit(sys.tx, mtu, writes, flushed).1);
    SendFlightTiles(s, mtu, writes, flushed);
    hide Retransmit, SendFlight, Tiles, Covered, ReceiverOk;
    forall k | 0 <= k < |recs| && recs[k].what.EmitFrag? ensures Covered(st, recs[k].what.f) {
      assert recs[k].what.f in heard;
    }
    forall i | 0 <= i < |sys.tx.flight| && sys.tx.flight[i].item.Message? && sys.tx.flight[i].item.seqNum >= st.readSeq
      ensures var m := sys.tx.flight[i].item;
              var slot := st.slots[m.seqNum % FLIGHT];
              slot.Complete() && slot.seqNum == m.seqNum && slot.typ == m.typ && slot.body == m.body
    {
      CoveredMessageIsComplete(st, recs, sys.tx.flight, i, sys.queued);
    }
  }
}
