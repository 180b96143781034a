// What a DTLS endpoint does with the handshake records it receives, as functions
// on a value: the record checks, the fragment loop, the ring of seven messages
// under reassembly, and the read epoch.
module DtlsReceiveModel {
  import opened Basics
  import opened Reassembly
  import opened HandshakeWire
  import opened ReplayWindow

  const FLIGHT := 7                 // SSL_MAX_HANDSHAKE_FLIGHT
  const MAX_PLAIN_LENGTH := 16384   // SSL3_RT_MAX_PLAIN_LENGTH
  const SEQ48 := 0x1_0000_0000_0000

  datatype ContentType = ChangeCipherSpec | AlertRecord | Handshake | ApplicationData | OtherContent

  datatype Alert = DecodeError | IllegalParameter | UnexpectedMessage | InternalError | RecordOverflow

  datatype Result = Success | Discard | Error(alert: Alert) | ReceivedAlert

  /** A record whose header parsed. `authentic` says whether the AEAD would open it;
      the null cipher of epoch 0 opens everything and does not ask. */
  datatype Record = Record(epoch: nat, seqNum: nat, content: ContentType, payload: seq<byte>, authentic: bool) {
    predicate Valid() {
      epoch < U16 && seqNum < SEQ48
    }

    /** The 8 sequence bytes of the header read as one big-endian number. */
    function FullSeq(): nat {
      epoch * SEQ48 + seqNum
    }
  }

  datatype Slot = Vacant | Held(typ: byte, seqNum: nat, body: seq<byte>, got: set<nat>) {
    predicate Complete() {
      Held? && got == Range(0, |body|)
    }
  }

  datatype State = State(
    readSeq: nat,        // handshake_read_seq, a uint16_t
    slots: seq<Slot>,    // incoming_messages
    epoch: nat,          // r_epoch
    window: Window,
    hasCcs: bool,
    hasMessage: bool)

  const Initial := State(0, [Vacant, Vacant, Vacant, Vacant, Vacant, Vacant, Vacant], 0, Cleared, false, false)

  // ---- Fragments ----

  /** `bytes` with `piece` copied over it at `off`. */
  function Overwrite(bytes: seq<byte>, off: nat, piece: seq<byte>): (r: seq<byte>)
    requires off + |piece| <= |bytes|
    ensures |r| == |bytes|
    ensures forall j :: 0 <= j < |r| ==> r[j] == if off <= j < off + |piece| then piece[j - off] else bytes[j]
  {
    bytes[..off] + piece + bytes[off + |piece|..]
  }

  function EmptySlot(f: Frag): Slot {
    Held(f.typ, f.seqNum, seq(f.msgLen, _ => 0), {})
  }

  function AddPiece(slot: Slot, f: Frag): Slot
    requires slot.Held? && f.off + |f.body| <= |slot.body|
  {
    if slot.Complete() then slot
    else slot.(body := Overwrite(slot.body, f.off, f.body), got := slot.got + Range(f.off, f.off + |f.body|))
  }

  /** One turn of the fragment loop of `dtls1_open_handshake`. */
  function AcceptFrag(st: State, f: Frag, maxLen: nat): (r: (State, Result))
    requires |st.slots| == FLIGHT
    ensures |r.0.slots| == FLIGHT
  {
    if f.off > f.msgLen || f.off + |f.body| > f.msgLen || f.msgLen > maxLen then (st, Error(IllegalParameter))
    else if st.epoch == 1 && f.seqNum != st.readSeq then (st, Error(UnexpectedMessage))
    else if f.seqNum < st.readSeq || f.seqNum > st.readSeq + FLIGHT then (st, Success)
    else if f.seqNum - st.readSeq >= FLIGHT then (st, Error(InternalError))
    else
      var idx := f.seqNum % FLIGHT;
      var slot := st.slots[idx];
      if slot.Held? && (slot.typ != f.typ || |slot.body| != f.msgLen) then (st, Error(IllegalParameter))
      else
        var slot := if slot.Held? then slot else EmptySlot(f);
        (st.(slots := st.slots[idx := AddPiece(slot, f)]), Success)
  }

  function AcceptPayload(st: State, payload: seq<byte>, maxLen: nat): (r: (State, Result))
    requires |st.slots| == FLIGHT
    ensures |r.0.slots| == FLIGHT
    decreases |payload|
  {
    if payload == [] then (st, Success)
    else
      match Parse(payload)
      case None => (st, Error(DecodeError))
      case Some((f, rest)) =>
        var (st', r) := AcceptFrag(st, f, maxLen);
        if r != Success then (st', r) else AcceptPayload(st', rest, maxLen)
  }

  // ---- Records ----

  /** Dropped without a trace: a record of another epoch or a replay, and under a
      cipher a forgery. */
  predicate Dropped(st: State, rec: Record) {
    || rec.epoch != st.epoch || Discards(st.window, rec.FullSeq())
    || !(st.epoch == 0 || rec.authentic)
  }

  /** `dtls1_open_handshake`, including the record checks of `dtls_open_record`. */
  function Open(st: State, rec: Record, maxLen: nat): (r: (State, Result))
    requires |st.slots| == FLIGHT
    ensures |r.0.slots| == FLIGHT
  {
    if Dropped(st, rec) then (st, Discard)
    else if |rec.payload| > MAX_PLAIN_LENGTH then (st, Error(RecordOverflow))
    else
      var st := st.(window := Recorded(st.window, rec.FullSeq()));
      ByContent(st, rec, maxLen)
  }

  function ByContent(st: State, rec: Record, maxLen: nat): (r: (State, Result))
    requires |st.slots| == FLIGHT
    ensures |r.0.slots| == FLIGHT
  {
    var nullCipher := st.epoch == 0;
    match rec.content
    case AlertRecord => (st, ReceivedAlert)
    case ApplicationData => (st, if nullCipher then Error(UnexpectedMessage) else Discard)
    case ChangeCipherSpec =>
      if !nullCipher then (st, Error(UnexpectedMessage))
      else if rec.payload != [1] then (st, Error(IllegalParameter))
      else (st.(hasCcs := true), Success)
    case Handshake => AcceptPayload(st, rec.payload, maxLen)
    case OtherContent => (st, Error(UnexpectedMessage))
  }

  /** `dtls1_open_change_cipher_spec`: takes the ChangeCipherSpec that has arrived,
      reading a record first if there is none. */
  function OpenCcs(st: State, rec: Record, maxLen: nat): (r: (State, Result))
    requires |st.slots| == FLIGHT
    ensures |r.0.slots| == FLIGHT
    ensures r.1 == Success ==> !r.0.hasCcs
  {
    var (st', r) := if st.hasCcs then (st, Success) else Open(st, rec, maxLen);
    if r != Success then (st', r)
    else if st'.hasCcs then (st'.(hasCcs := false), Success)
    else (st', Discard)
  }

  // ---- Handing messages to the handshake ----

  function Current(st: State): Slot
    requires |st.slots| == FLIGHT
  {
    st.slots[st.readSeq % FLIGHT]
  }

  /** `dtls1_next_message`; the sequence number wraps at 16 bits. */
  function Next(st: State): State
    requires |st.slots| == FLIGHT
  {
    st.(slots := st.slots[st.readSeq % FLIGHT := Vacant], readSeq := (st.readSeq + 1) % U16, hasMessage := false)
  }

  /** `dtls_has_unprocessed_handshake_data`. */
  predicate HasUnprocessed(st: State)
    requires |st.slots| == FLIGHT
  {
    st.hasCcs || exists i :: 0 <= i < FLIGHT && st.slots[i].Held? && !(st.hasMessage && i == st.readSeq % FLIGHT)
  }

  /** `dtls1_set_read_state` when nothing is left over. */
  function NextEpoch(st: State): State {
    st.(epoch := (st.epoch + 1) % U16, window := Cleared)
  }

  // ---- The ring invariant ----

  /** An occupied slot `i` holds a message of the receive window whose sequence
      number is congruent to `i`, although 65536 is not a multiple of 7. */
  ghost predicate RingOk(st: State) {
    && |st.slots| == FLIGHT
    && st.readSeq < U16
    && (forall i :: 0 <= i < FLIGHT && st.slots[i].Held? ==>
          && st.slots[i].seqNum % FLIGHT == i
          && st.readSeq <= st.slots[i].seqNum < st.readSeq + FLIGHT
          && st.slots[i].seqNum < U16
          && st.slots[i].got <= Range(0, |st.slots[i].body|))
    && (st.hasMessage ==> Current(st).Complete())
  }

  lemma SlotsAreDistinct(a: nat, b: nat, start: nat)
    requires start <= a < start + FLIGHT && start <= b < start + FLIGHT && a % FLIGHT == b % FLIGHT
    ensures a == b
  {
  }

  lemma InitialRing()
    ensures RingOk(Initial)
  {
  }

  lemma AcceptFragKeepsRing(st: State, f: Frag, maxLen: nat)
    requires RingOk(st) && f.seqNum < U16
    ensures RingOk(AcceptFrag(st, f, maxLen).0)
    ensures AcceptFrag(st, f, maxLen).0.readSeq == st.readSeq
    ensures AcceptFrag(st, f, maxLen).0.hasMessage == st.hasMessage
  {
    var (st', r) := AcceptFrag(st, f, maxLen);
    if st' != st {
      var idx := f.seqNum % FLIGHT;
      if st.slots[idx].Held? { SlotsAreDistinct(f.seqNum, st.slots[idx].seqNum, st.readSeq); }
    }
  }

  /** Any fragment at all is refused, and then changes nothing, iff it runs over its
      message or the message over the limit, epoch 1 expects another message, it is
      exactly seven ahead of the one due, or it disagrees with what its slot holds. */
  lemma RefusedExactly(st: State, f: Frag, maxLen: nat)
    requires RingOk(st)
    ensures var slot := st.slots[f.seqNum % 7];
            AcceptFrag(st, f, maxLen).1 != Success <==>
              || f.off + |f.body| > f.msgLen || f.msgLen > maxLen
              || (st.epoch == 1 && f.seqNum != st.readSeq)
              || f.seqNum == st.readSeq + 7
              || (st.readSeq <= f.seqNum < st.readSeq + 7 && slot.Held? && (slot.typ != f.typ || |slot.body| != f.msgLen))
    ensures AcceptFrag(st, f, maxLen).1 != Success ==> AcceptFrag(st, f, maxLen).0 == st
  {
  }

  lemma {:induction false} AcceptPayloadKeepsRing(st: State, payload: seq<byte>, maxLen: nat)
    requires RingOk(st)
    ensures RingOk(AcceptPayload(st, payload, maxLen).0)
    decreases |payload|
  {
    if payload != [] && Parse(payload).Some? {
      var (f, rest) := Parse(payload).value;
      AcceptFragKeepsRing(st, f, maxLen);
      var (st', r) := AcceptFrag(st, f, maxLen);
      if r == Success { AcceptPayloadKeepsRing(st', rest, maxLen); }
    }
  }

  lemma OpenKeepsRing(st: State, rec: Record, maxLen: nat)
    requires RingOk(st)
    ensures RingOk(Open(st, rec, maxLen).0)
  {
    AcceptPayloadKeepsRing(st.(window := Recorded(st.window, rec.FullSeq())), rec.payload, maxLen);
  }

  lemma NextKeepsRing(st: State)
    requires RingOk(st) && Current(st).Complete()
    ensures RingOk(Next(st))
  {
    var st' := Next(st);
    forall i | 0 <= i < FLIGHT && st'.slots[i].Held?
      ensures st'.readSeq <= st'.slots[i].seqNum < st'.readSeq + FLIGHT
    {
      assert st.slots[i].seqNum != st.readSeq;
    }
  }

  /** The source's assertion `frag->seq == msg_hdr->seq`: a fragment that reaches
      an occupied slot belongs to the message held there. */
  lemma SlotHoldsThatMessage(st: State, f: Frag)
    requires RingOk(st) && st.readSeq <= f.seqNum < st.readSeq + FLIGHT
    requires st.slots[f.seqNum % FLIGHT].Held?
    ensures st.slots[f.seqNum % FLIGHT].seqNum == f.seqNum
  {
    SlotsAreDistinct(f.seqNum, st.slots[f.seqNum % FLIGHT].seqNum, st.readSeq);
  }

  /** A complete message in the slot due next is the one with the sequence number
      due next, unless the window holds a later one there, which it cannot. */
  lemma CurrentIsDue(st: State)
    requires RingOk(st) && Current(st).Held?
    ensures Current(st).seqNum == st.readSeq
  {
    SlotsAreDistinct(st.readSeq, Current(st).seqNum, st.readSeq);
  }

  // ---- Every run ----

  datatype Op =
    | OpenRecord(rec: Record, maxLen: nat)
    | OpenChangeCipherSpec(rec: Record, maxLen: nat)
    | GetMessage
    | NextMessage
    | SetReadState

  function Apply(st: State, op: Op): (r: State)
    requires |st.slots| == FLIGHT
    ensures |r.slots| == FLIGHT
  {
    match op
    case OpenRecord(rec, maxLen) => Open(st, rec, maxLen).0
    case OpenChangeCipherSpec(rec, maxLen) => OpenCcs(st, rec, maxLen).0
    case GetMessage => st.(hasMessage := st.hasMessage || Current(st).Complete())
    case NextMessage => if st.hasMessage then Next(st) else st
    case SetReadState => if HasUnprocessed(st) then st else NextEpoch(st)
  }

  function AfterOps(st: State, ops: seq<Op>): (r: State)
    requires |st.slots| == FLIGHT
    ensures |r.slots| == FLIGHT
    decreases |ops|
  {
    if ops == [] then st else AfterOps(Apply(st, ops[0]), ops[1..])
  }

  lemma ApplyKeepsRing(st: State, op: Op)
    requires RingOk(st)
    ensures RingOk(Apply(st, op))
  {
    match op
    case OpenRecord(rec, maxLen) => OpenKeepsRing(st, rec, maxLen);
    case OpenChangeCipherSpec(rec, maxLen) => OpenKeepsRing(st, rec, maxLen);
    case GetMessage =>
    case NextMessage => if st.hasMessage { NextKeepsRing(st); }
    case SetReadState =>
  }

  lemma {:induction false} RingFrom(st: State, ops: seq<Op>)
    requires RingOk(st)
    ensures RingOk(AfterOps(st, ops))
    decreases |ops|
  {
    hide Apply;
    if ops != [] {
      ApplyKeepsRing(st, ops[0]);
      RingFrom(Apply(st, ops[0]), ops[1..]);
    }
  }

  /** In every run, whatever records arrive, through any number of epoch changes and
      however often the sequence number wraps, the ring is sound: a fragment of the window that finds its slot occupied
      finds its own message there. */
  lemma RingAlwaysHolds(ops: seq<Op>, f: Frag)
    ensures var st := AfterOps(Initial, ops);
            && RingOk(st)
            && (st.readSeq <= f.seqNum < st.readSeq + FLIGHT && st.slots[f.seqNum % FLIGHT].Held? ==>
                  st.slots[f.seqNum % FLIGHT].seqNum == f.seqNum)
  {
    InitialRing();
    RingFrom(Initial, ops);
    var st := AfterOps(Initial, ops);
    if st.readSeq <= f.seqNum < st.readSeq + FLIGHT && st.slots[f.seqNum % FLIGHT].Held? { SlotHoldsThatMessage(st, f); }
  }

  // ---- Changing the epoch ----

  lemma OpenTouchesCcs(st: State, rec: Record, maxLen: nat)
    requires |st.slots| == FLIGHT
    ensures var (st', r) := Open(st, rec, maxLen);
            && st'.epoch == st.epoch && st'.readSeq == st.readSeq && st'.hasMessage == st.hasMessage
            && (st'.hasCcs <==> st.hasCcs || (!Dropped(st, rec) && rec.content == ChangeCipherSpec && st.epoch == 0 && rec.payload == [1]))
  {
    hide AcceptPayload, Dropped;
    PayloadTouchesSlotsOnly(st.(window := Recorded(st.window, rec.FullSeq())), rec.payload, maxLen);
  }

  lemma {:induction false} PayloadTouchesSlotsOnly(st: State, payload: seq<byte>, maxLen: nat)
    requires |st.slots| == FLIGHT
    ensures var st' := AcceptPayload(st, payload, maxLen).0;
            st' == st.(slots := st'.slots)
    decreases |payload|
  {
    if payload != [] && Parse(payload).Some? {
      var (f, rest) := Parse(payload).value;
      var (st', r) := AcceptFrag(st, f, maxLen);
      if r == Success { PayloadTouchesSlotsOnly(st', rest, maxLen); }
    }
  }

  /** A ChangeCipherSpec is taken exactly when one has arrived before or the record
      read now is one: under the null cipher, of this epoch, new and well formed. */
  lemma CcsTakenExactly(st: State, rec: Record, maxLen: nat)
    requires |st.slots| == FLIGHT
    ensures OpenCcs(st, rec, maxLen).1 == Success <==>
            st.hasCcs || (!Dropped(st, rec) && rec.content == ChangeCipherSpec && st.epoch == 0 && rec.payload == [1])
    ensures OpenCcs(st, rec, maxLen).1 == Success && st.hasCcs ==> OpenCcs(st, rec, maxLen).0 == st.(hasCcs := false)
  {
    OpenTouchesCcs(st, rec, maxLen);
    hide Dropped, AcceptPayload;
  }

  /** Taking a ChangeCipherSpec is reading a record, if none is pending, and then
      clearing the flag; a refused or dropped record leaves no flag to clear. */
  lemma OpenCcsIsOpenThenTake(st: State, rec: Record, maxLen: nat)
    requires |st.slots| == FLIGHT
    ensures OpenCcs(st, rec, maxLen).0 == (if st.hasCcs then st else Open(st, rec, maxLen).0).(hasCcs := false)
  {
    OpenTouchesCcs(st, rec, maxLen);
    hide AcceptPayload;
  }

  /** After a ChangeCipherSpec is taken the read epoch can change, exactly when no
      slot but the current message's is occupied; until it is taken it cannot. */
  lemma EpochChangeExactly(st: State, rec: Record, maxLen: nat)
    requires RingOk(st)
    ensures st.hasCcs ==> Apply(st, SetReadState) == st
    ensures var (st', r) := OpenCcs(st, rec, maxLen);
            r == Success ==>
              (Apply(st', SetReadState) == NextEpoch(st') <==>
               forall i :: 0 <= i < FLIGHT && st'.slots[i].Held? ==> st'.hasMessage && i == st'.readSeq % FLIGHT)
  {
    hide Open;
  }

  /** A whole epoch change from the start: ChangeCipherSpec arrives, is taken, and
      the next epoch begins with an empty window. */
  lemma EpochOneIsReached()
    ensures var ccs := Record(0, 5, ChangeCipherSpec, [1], true);
            AfterOps(Initial, [OpenChangeCipherSpec(ccs, 100), SetReadState]) == Initial.(epoch := 1)
  {
    var ccs := Record(0, 5, ChangeCipherSpec, [1], true);
    var st := Initial.(window := Recorded(Cleared, 5));
    FirstOfEpoch(5);
    CcsArrives(Initial, ccs, 100);
    NothingHeldChanges(st);
    hide *;
    TwoOps(Initial, OpenChangeCipherSpec(ccs, 100), SetReadState);
  }

  lemma FirstOfEpoch(n: nat)
    requires n > 0
    ensures !Discards(Cleared, n)
  {
  }

  lemma NothingHeldChanges(st: State)
    requires st.slots == Initial.slots && !st.hasCcs
    ensures Apply(st, SetReadState) == NextEpoch(st)
  {
  }

  lemma TwoOps(st: State, a: Op, b: Op)
    requires |st.slots| == FLIGHT
    ensures AfterOps(st, [a, b]) == Apply(Apply(st, a), b)
  {
    hide Apply;
    assert [a, b][1..] == [b] && [b][1..] == [];
    assert AfterOps(Apply(st, a), [b]) == AfterOps(Apply(Apply(st, a), b), []);
  }

  lemma CcsArrives(st: State, rec: Record, maxLen: nat)
    requires |st.slots| == FLIGHT && !Dropped(st, rec) && rec.content == ChangeCipherSpec && rec.payload == [1]
    requires st.epoch == 0 && !st.hasCcs
    ensures Apply(st, OpenChangeCipherSpec(rec, maxLen)) == st.(window := Recorded(st.window, rec.FullSeq()))
  {
    hide Dropped, Recorded;
  }
}
