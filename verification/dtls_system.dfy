// A sender and a receiver joined by a network that loses, duplicates and reorders
// records: what the receiver hands to its handshake, over every run.
module DtlsSystem {
  import opened Basics
  import opened Reassembly
  import opened HandshakeWire
  import opened DtlsReceiveModel
  import opened DtlsSendModel
  import opened DtlsFlight
  import opened ReplayWindow

  datatype Msg = Msg(typ: byte, body: seq<byte>)

  // ---- Genuine fragments and honest slots ----

  /** A fragment cut from the message queued under its sequence number. */
  predicate Genuine(f: Frag, queued: seq<Msg>) {
    && f.seqNum < |queued|
    && var m := queued[f.seqNum];
    && f.typ == m.typ && f.msgLen == |m.body| && f.off + |f.body| <= |m.body|
    && f.body == m.body[f.off..f.off + |f.body|]
  }

  predicate Queueable(queued: seq<Msg>) {
    |queued| < U16 && forall k :: 0 <= k < |queued| ==> |queued[k].body| < U24
  }

  /** What a slot has received agrees with the queued message. */
  ghost predicate Honest(slot: Slot, queued: seq<Msg>) {
    slot.Held? ==>
      && slot.seqNum < |queued|
      && var m := queued[slot.seqNum];
      && slot.typ == m.typ && |slot.body| == |m.body|
      && forall j :: j in slot.got ==> j < |m.body| && slot.body[j] == m.body[j]
  }

  ghost predicate ReceiverOk(st: State, queued: seq<Msg>) {
    RingOk(st) && forall i :: 0 <= i < FLIGHT ==> Honest(st.slots[i], queued)
  }

  lemma PieceKeepsHonest(slot: Slot, f: Frag, queued: seq<Msg>)
    requires Genuine(f, queued) && Honest(slot, queued) && slot.Held? && slot.seqNum == f.seqNum
    ensures Honest(AddPiece(slot, f), queued)
  {
    var m := queued[f.seqNum];
    var slot' := AddPiece(slot, f);
    forall j | j in slot'.got ensures j < |m.body| && slot'.body[j] == m.body[j] {
      if f.off <= j < f.off + |f.body| && !slot.Complete() { assert f.body[j - f.off] == m.body[j]; }
    }
  }

  /** A genuine fragment keeps the receiver honest, and is refused exactly when
      the message is over the limit, is not the one due although epoch 1 has
      begun, or is exactly seven ahead of the one due - while fragments still
      further ahead are ignored. */
  lemma GenuineFragment(st: State, f: Frag, maxLen: nat, queued: seq<Msg>)
    requires ReceiverOk(st, queued) && Genuine(f, queued) && Queueable(queued)
    ensures ReceiverOk(AcceptFrag(st, f, maxLen).0, queued)
    ensures AcceptFrag(st, f, maxLen).1 != Success <==>
            f.msgLen > maxLen || (st.epoch == 1 && f.seqNum != st.readSeq) || f.seqNum == st.readSeq + FLIGHT
  {
    AcceptFragKeepsRing(st, f, maxLen);
    var (st', r) := AcceptFrag(st, f, maxLen);
    var idx := f.seqNum % FLIGHT;
    if st.readSeq <= f.seqNum < st.readSeq + FLIGHT {
      var slot := st.slots[idx];
      assert Honest(slot, queued);
      if slot.Held? { SlotHoldsThatMessage(st, f); }
      PieceKeepsHonest(if slot.Held? then slot else EmptySlot(f), f, queued);
    }
    forall i | 0 <= i < FLIGHT ensures Honest(st'.slots[i], queued) {
      assert Honest(st.slots[i], queued);
    }
  }

  /** The same at a concrete state: before anything has arrived, a whole message
      numbered 7 is refused with an error, while one numbered 8 is ignored. */
  lemma SevenAheadIsRefused(queued: seq<Msg>)
    requires |queued| == 9 && queued[7] == queued[8] == Msg(1, [5])
    ensures Genuine(Frag(1, 1, 7, 0, [5]), queued) && AcceptFrag(Initial, Frag(1, 1, 7, 0, [5]), 100) == (Initial, Error(InternalError))
    ensures Genuine(Frag(1, 1, 8, 0, [5]), queued) && AcceptFrag(Initial, Frag(1, 1, 8, 0, [5]), 100) == (Initial, Success)
  {
  }

  /** A complete honest slot holds the queued message. */
  lemma CompleteIsTheMessage(slot: Slot, queued: seq<Msg>)
    requires Honest(slot, queued) && slot.Complete()
    ensures slot.seqNum < |queued| && Msg(slot.typ, slot.body) == queued[slot.seqNum]
  {
    var m := queued[slot.seqNum];
    forall j | 0 <= j < |m.body| ensures slot.body[j] == m.body[j] { assert j in Range(0, |m.body|); }
  }

  // ---- The network ----

  /** A sealed record as the receiver's record layer sees it. */
  function OnWire(rec: Sealed): Record
    requires rec.what.EmitFrag? ==> rec.what.f.Encodable()
  {
    match rec.what
    case EmitCcs => Record(rec.nonce.epoch, rec.nonce.seqNum, ChangeCipherSpec, [1], true)
    case EmitFrag(f) => Record(rec.nonce.epoch, rec.nonce.seqNum, Handshake, Serialize(f), true)
  }

  datatype System = System(tx: Sender, net: seq<Sealed>, rx: State, queued: seq<Msg>, delivered: seq<Msg>)

  datatype Event =
    | Queue(typ: byte, body: seq<byte>)                            // the sender's handshake adds a message
    | QueueCcs
    | NewWriteEpoch(aead: Aead)
    | Flush(mtu: nat, writes: seq<bool>, flushed: bool)
    | Resend(mtu: nat, writes: seq<bool>, flushed: bool)           // the retransmission timer fires
    | Deliver(i: nat, maxLen: nat)                                 // any record sent so far, any number of times
    | Forge(rec: Record, maxLen: nat)                              // a record that the sender never sealed
    | Take                                                         // the receiver's handshake takes a message
    | TakeCcs                                                      // with Deliver or Forge before it, `OpenCcs`
    | NewReadEpoch

  function Sent(sys: System, r: (Sender, seq<seq<Sealed>>, SendResult)): System {
    sys.(tx := r.0, net := sys.net + Flatten(r.1))
  }

  function Step(sys: System, e: Event): (sys': System)
    requires |sys.rx.slots| == FLIGHT
    ensures |sys'.rx.slots| == FLIGHT
  {
    match e
    case Queue(typ, body) =>
      var r := AddMessage(sys.tx, typ, body);
      // Beyond 2^16 messages sequence numbers repeat; see the README.
      if r.None? || |body| >= U24 || |sys.queued| + 1 >= U16 then sys
      else sys.(tx := r.value, queued := sys.queued + [Msg(typ, body)])
    case QueueCcs => var r := AddOutgoing(sys.tx, Ccs); if r.Some? then sys.(tx := r.value) else sys
    case NewWriteEpoch(aead) => sys.(tx := NextWriteEpoch(sys.tx, aead))
    case Flush(mtu, writes, flushed) => Sent(sys, FlushFlight(sys.tx, mtu, writes, flushed))
    case Resend(mtu, writes, flushed) => Sent(sys, Retransmit(sys.tx, mtu, writes, flushed))
    case Deliver(i, maxLen) =>
      if i < |sys.net| && (sys.net[i].what.EmitFrag? ==> sys.net[i].what.f.Encodable())
      then sys.(rx := Open(sys.rx, OnWire(sys.net[i]), maxLen).0) else sys
    case Forge(rec, maxLen) => sys.(rx := Open(sys.rx, rec.(authentic := false), maxLen).0)
    case Take =>
      var due := Current(sys.rx);
      if due.Complete() then sys.(rx := Next(sys.rx), delivered := sys.delivered + [Msg(due.typ, due.body)]) else sys
    case TakeCcs => sys.(rx := sys.rx.(hasCcs := false))
    case NewReadEpoch => if HasUnprocessed(sys.rx) then sys else sys.(rx := NextEpoch(sys.rx))
  }

  /** A forged record that does not get through: the read cipher is not the null
      cipher, or the record has another epoch or a number already seen or stale. */
  predicate Stopped(st: State, rec: Record) {
    st.epoch >= 1 || rec.epoch != st.epoch || Discards(st.window, rec.FullSeq())
  }

  /** A connection before its first handshake message. */
  predicate Fresh(sys: System) {
    && sys.tx.flight == [] && sys.tx.writeSeq == 0
    && sys.net == [] && sys.queued == [] && sys.delivered == []
    && sys.rx == Initial
  }

  // ---- The invariant ----

  ghost predicate FlightOk(tx: Sender, queued: seq<Msg>) {
    DistinctSeqs(tx.flight) &&
    forall i :: 0 <= i < |tx.flight| && tx.flight[i].item.Message? ==>
      var m := tx.flight[i].item;
      m.seqNum < |queued| && queued[m.seqNum] == Msg(m.typ, m.body)
  }

  ghost predicate RecordsOk(recs: seq<Sealed>, queued: seq<Msg>) {
    forall k :: 0 <= k < |recs| && recs[k].what.EmitFrag? ==> Genuine(recs[k].what.f, queued)
  }

  ghost predicate Inv(sys: System) {
    && Queueable(sys.queued)
    && sys.tx.writeSeq == |sys.queued|
    && FlightOk(sys.tx, sys.queued)
    && RecordsOk(sys.net, sys.queued)
    && ReceiverOk(sys.rx, sys.queued)
    && sys.rx.readSeq <= |sys.queued|
    && sys.delivered == sys.queued[..sys.rx.readSeq]
  }

  lemma SealMessageGenuine(s: Sender, maxOut: nat, queued: seq<Msg>)
    requires FlightOk(s, queued) && s.written < |s.flight|
    ensures var (s', r) := SealMessage(s, maxOut);
            FlightOk(s', queued) && (r.Whole? || r.Partial? ==> RecordsOk([r.rec], queued))
  {
  }

  lemma SealMessageKeepsQueue(s: Sender, maxOut: nat)
    requires s.written < |s.flight|
    ensures var (s', r) := SealMessage(s, maxOut);
            s'.flight == s.flight && s'.writeSeq == s.writeSeq && s'.written == s.written
            && (r.Whole? ==> r.rec.wireLen <= maxOut)
  {
  }

  lemma GenuineAppend(a: seq<Sealed>, b: seq<Sealed>, queued: seq<Msg>)
    requires RecordsOk(a, queued) && RecordsOk(b, queued)
    ensures RecordsOk(a + b, queued)
  {
  }

  lemma SameFlightOk(s: Sender, s': Sender, queued: seq<Msg>)
    requires FlightOk(s, queued) && s'.flight == s.flight
    ensures FlightOk(s', queued)
  {
  }

  lemma NoRecordsOk(queued: seq<Msg>)
    ensures RecordsOk([], queued)
  {
  }

  lemma {:induction false} SealPacketGenuine(s: Sender, maxOut: nat, progress: bool, queued: seq<Msg>)
    requires FlightOk(s, queued)
    ensures var (s', p) := SealPacket(s, maxOut, progress);
            && FlightOk(s', queued) && s'.writeSeq == s.writeSeq
            && (p.Packet? ==> RecordsOk(p.records, queued))
    decreases |s.flight| - s.written
  {
    hide *;
    NoRecordsOk(queued);
    SealPacketUnfolds(s, maxOut, progress);
    if s.written >= |s.flight| {
      return;
    }
    SealMessageGenuine(s, maxOut, queued);
    var (s', r) := SealMessage(s, maxOut);
    SealMessageKeepsQueue(s, maxOut);
    if r.Whole? {
      var s1 := s'.(written := s.written + 1);
      SameFlightOk(s', s1, queued);
      SealPacketGenuine(s1, maxOut - r.rec.wireLen, true, queued);
      var rest := SealPacket(s1, maxOut - r.rec.wireLen, true).1;
      if rest.Packet? { GenuineAppend([r.rec], rest.records, queued); }
    }
  }

  lemma {:induction false} SendFlightGenuine(s: Sender, mtu: nat, writes: seq<bool>, flushed: bool, queued: seq<Msg>)
    requires FlightOk(s, queued)
    ensures var (s', ps, r) := SendFlight(s, mtu, writes, flushed);
            FlightOk(s', queued) && s'.writeSeq == s.writeSeq && RecordsOk(Flatten(ps), queued)
    decreases |writes|
  {
    hide SealPacket, FlightOk, RecordsOk;
    NoRecordsOk(queued);
    if s.written >= |s.flight| {
      return;
    }
    SealPacketGenuine(s, mtu, false, queued);
    var (s', p) := SealPacket(s, mtu, false);
    SameFlightOk(s', s'.(written := s.written, offset := s.offset), queued);
    if p.Packet? && writes != [] && writes[0] {
      SendFlightGenuine(s', mtu, writes[1..], flushed, queued);
      var ps := SendFlight(s', mtu, writes[1..], flushed).1;
      assert ([p.records] + ps)[1..] == ps;
      GenuineAppend(p.records, Flatten(ps), queued);
    }
  }

  lemma OnePieceRecord(st: State, f: Frag, maxLen: nat)
    requires |st.slots| == FLIGHT && f.Encodable()
    ensures AcceptPayload(st, Serialize(f), maxLen) == AcceptFrag(st, f, maxLen)
  {
    ParseSerialized(f, []);
    assert Serialize(f) + [] == Serialize(f);
  }

  lemma OpenKeepsReceiver(st: State, rec: Sealed, maxLen: nat, queued: seq<Msg>)
    requires ReceiverOk(st, queued) && Queueable(queued)
    requires rec.what.EmitFrag? ==> rec.what.f.Encodable() && Genuine(rec.what.f, queued)
    ensures ReceiverOk(Open(st, OnWire(rec), maxLen).0, queued)
    ensures Open(st, OnWire(rec), maxLen).0.readSeq == st.readSeq
  {
    var w := st.(window := Recorded(st.window, OnWire(rec).FullSeq()));
    if rec.what.EmitFrag? {
      OnePieceRecord(w, rec.what.f, maxLen);
      GenuineFragment(w, rec.what.f, maxLen, queued);
      AcceptFragKeepsRing(w, rec.what.f, maxLen);
    }
    hide AcceptPayload, AcceptFrag, Recorded;
  }

  lemma TakeIsInOrder(sys: System)
    requires Inv(sys) && Current(sys.rx).Complete()
    ensures var due := Current(sys.rx);
            sys.rx.readSeq < |sys.queued| && Msg(due.typ, due.body) == sys.queued[sys.rx.readSeq]
    ensures ReceiverOk(Next(sys.rx), sys.queued)
  {
    CurrentIsDue(sys.rx);
    CompleteIsTheMessage(Current(sys.rx), sys.queued);
    NextKeepsRing(sys.rx);
  }

  lemma SentKeepsInv(sys: System, tx: Sender, mtu: nat, writes: seq<bool>, flushed: bool)
    requires Inv(sys) && tx.flight == sys.tx.flight && tx.writeSeq == sys.tx.writeSeq
    ensures Inv(Sent(sys, SendFlight(tx, mtu, writes, flushed)))
  {
    SendFlightGenuine(tx, mtu, writes, flushed, sys.queued);
    var ps := SendFlight(tx, mtu, writes, flushed).1;
    GenuineAppend(sys.net, Flatten(ps), sys.queued);
    hide SendFlight, ReceiverOk, RecordsOk;
  }

  /** Appending to the queue changes nothing already said about its prefix. */
  lemma QueueKeepsInv(sys: System, typ: byte, body: seq<byte>)
    requires Inv(sys)
    ensures Inv(Step(sys, Queue(typ, body)))
  {
    var queued := sys.queued + [Msg(typ, body)];
    forall k | 0 <= k < |sys.net| && sys.net[k].what.EmitFrag? ensures Genuine(sys.net[k].what.f, queued) {
      assert queued[sys.net[k].what.f.seqNum] == sys.queued[sys.net[k].what.f.seqNum];
    }
    forall i | 0 <= i < FLIGHT ensures Honest(sys.rx.slots[i], queued) {
      assert Honest(sys.rx.slots[i], sys.queued);
    }
    assert queued[..sys.rx.readSeq] == sys.queued[..sys.rx.readSeq];
  }

  lemma DeliverKeepsInv(sys: System, i: nat, maxLen: nat)
    requires Inv(sys) && i < |sys.net|
    ensures Inv(Step(sys, Deliver(i, maxLen)))
  {
    if sys.net[i].what.EmitFrag? ==> sys.net[i].what.f.Encodable() {
      OpenKeepsReceiver(sys.rx, sys.net[i], maxLen, sys.queued);
    }
    hide Open, ReceiverOk, Queueable, FlightOk, OnWire;
  }

  lemma StoppedLeavesNothing(st: State, rec: Record, maxLen: nat)
    requires |st.slots| == FLIGHT && Stopped(st, rec)
    ensures Open(st, rec.(authentic := false), maxLen) == (st, Discard)
  {
  }

  lemma StepKeepsInv(sys: System, e: Event)
    requires Inv(sys) && (e.Forge? ==> Stopped(sys.rx, e.rec))
    ensures Inv(Step(sys, e))
  {
    hide Open, SendFlight, RecordsOk, AddMessage;
    match e
    case Queue(typ, body) => QueueKeepsInv(sys, typ, body);
    case QueueCcs =>
    case NewWriteEpoch(aead) =>
    case Flush(mtu, writes, flushed) => SentKeepsInv(sys, sys.tx.(complete := true), mtu, writes, flushed);
    case Resend(mtu, writes, flushed) => SentKeepsInv(sys, sys.tx.(written := 0, offset := 0), mtu, writes, flushed);
    case Deliver(i, maxLen) => if i < |sys.net| { DeliverKeepsInv(sys, i, maxLen); }
    case Forge(rec, maxLen) => StoppedLeavesNothing(sys.rx, rec, maxLen);
    case Take => if Current(sys.rx).Complete() { TakeIsInOrder(sys); }
    case TakeCcs =>
    case NewReadEpoch =>
  }

  // ---- Every run ----

  function Run(sys: System, events: seq<Event>): (sys': System)
    requires |sys.rx.slots| == FLIGHT
    ensures |sys'.rx.slots| == FLIGHT
    decreases |events|
  {
    if events == [] then sys
    else Run(Step(sys, events[0]), events[1..])
  }

  /** Every forgery of the run is stopped when it arrives. */
  predicate Guarded(sys: System, events: seq<Event>)
    requires |sys.rx.slots| == FLIGHT
    decreases |events|
  {
    events == [] ||
    ((events[0].Forge? ==> Stopped(sys.rx, events[0].rec)) && Guarded(Step(sys, events[0]), events[1..]))
  }

  lemma {:induction false} RunKeepsInv(sys: System, events: seq<Event>)
    requires Inv(sys) && Guarded(sys, events)
    ensures Inv(Run(sys, events))
    decreases |events|
  {
    if events != [] {
      StepKeepsInv(sys, events[0]);
      RunKeepsInv(Step(sys, events[0]), events[1..]);
    }
  }

  /** The safety theorem. Whatever the MTUs, failed writes, retransmissions, epoch
      changes, losses, duplications and reorderings of a run, and whatever is forged
      once the read epoch is 1 or later, the messages handed to the receiver's
      handshake are the first messages the sender queued: same types, same bodies,
      same order, none skipped. In epoch 0, where the cipher is null, it takes the
      epoch or the replay check to stop a forgery; DtlsForgery shows that nothing
      less will do. */
  lemma SafeDelivery(sys: System, events: seq<Event>)
    requires Fresh(sys) && Guarded(sys, events)
    ensures var sys' := Run(sys, events);
            && sys'.delivered <= sys'.queued
            && |sys'.delivered| == sys'.rx.readSeq
  {
    RunKeepsInv(sys, events);
  }
}
