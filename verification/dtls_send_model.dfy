// How a DTLS endpoint sends a flight (sections 4.2.3 and 4.2.4 of RFC 6347), as
// functions on a value: at most seven queued messages, a cursor into them, and
// the record counters of the current and the previous write epoch.
module DtlsSendModel {
  import opened Basics
  import opened Reassembly
  import opened HandshakeWire
  import opened DtlsReceiveModel

  const RECORD_HEADER := 13   // DTLS1_RT_HEADER_LENGTH

  /** What the code knows of a cipher: the length of its explicit nonce, a bound on
      its expansion, and the length it actually produces. */
  datatype Aead = Aead(nonceLen: nat, maxOverhead: nat, ciphertextLen: nat -> nat) {
    ghost predicate Valid() {
      nonceLen <= maxOverhead && forall n: nat :: ciphertextLen(n) <= n + maxOverhead
    }
  }

  datatype Item = Ccs | Message(typ: byte, seqNum: nat, body: seq<byte>)

  /** What a DTLS_OUTGOING_MESSAGE stands for. */
  datatype Outgoing = Outgoing(item: Item, epoch: nat)

  datatype Nonce = Nonce(epoch: nat, seqNum: nat)

  datatype Emitted = EmitCcs | EmitFrag(f: Frag) {
    function Length(): nat {
      if EmitCcs? then 1 else HEADER_LENGTH + |f.body|
    }
  }

  datatype Sealed = Sealed(nonce: Nonce, what: Emitted, wireLen: nat)

  datatype Sender = Sender(
    flight: seq<Outgoing>,
    written: nat,          // outgoing_written
    offset: nat,           // outgoing_offset
    complete: bool,        // outgoing_messages_complete
    writeSeq: nat,         // handshake_write_seq
    epoch: nat,            // w_epoch
    seqNow: nat,           // low 48 bits of write_sequence
    seqPrev: nat,          // low 48 bits of last_write_sequence
    aead: Aead,
    aeadPrev: Aead,
    used: seq<Nonce>,      // history: every (epoch, sequence number) given to an AEAD
    overflowed: bool)      // history: some record counter wrapped

  // ---- The queue ----

  function ClearFlight(s: Sender): Sender {
    s.(flight := [], written := 0, offset := 0, complete := false)
  }

  /** `add_outgoing`; None when the flight already holds seven messages. */
  function AddOutgoing(s: Sender, item: Item): Option<Sender> {
    var s := if s.complete then ClearFlight(s) else s;
    if |s.flight| >= FLIGHT then None
    else
      var s := if item.Ccs? then s else s.(writeSeq := (s.writeSeq + 1) % U16);
      Some(s.(flight := s.flight + [Outgoing(item, s.epoch)]))
  }

  /** `dtls1_init_message`, the body, `dtls1_finish_message` and `dtls1_add_message`. */
  function AddMessage(s: Sender, typ: byte, body: seq<byte>): Option<Sender> {
    AddOutgoing(s, Message(typ, s.writeSeq, body))
  }

  /** `dtls1_set_write_state`. */
  function NextWriteEpoch(s: Sender, aead: Aead): Sender {
    s.(epoch := (s.epoch + 1) % U16, seqPrev := s.seqNow, seqNow := 0, aeadPrev := s.aead, aead := aead)
  }

  // ---- Sealing ----

  /** Everything but the fragment offset, the record counters and the history. */
  ghost predicate SameQueue(s: Sender, s': Sender) {
    s' == s.(offset := s'.offset, seqNow := s'.seqNow, seqPrev := s'.seqPrev, used := s'.used, overflowed := s'.overflowed)
  }

  /** `dtls_seal_record`: the AEAD consumes a nonce, then the counter advances and
      the call fails if the counter wraps. */
  function SealRecord(s: Sender, previous: bool, what: Emitted, maxOut: nat)
      : (r: (Sender, Option<Sealed>))
    ensures SameQueue(s, r.0) && r.0.offset == s.offset
    ensures r.1.Some? ==> r.1.value.wireLen <= maxOut && r.1.value.what == what
  {
    if previous && s.epoch == 0 then (s, None)
    else
      var aead := if previous then s.aeadPrev else s.aead;
      var nonce := if previous then Nonce(s.epoch - 1, s.seqPrev) else Nonce(s.epoch, s.seqNow);
      var len := aead.ciphertextLen(what.Length());
      if RECORD_HEADER + len > maxOut then (s, None)
      else
        var next := (nonce.seqNum + 1) % SEQ48;
        var s := s.(used := s.used + [nonce], overflowed := s.overflowed || next == 0);
        var s := if previous then s.(seqPrev := next) else s.(seqNow := next);
        (s, if next == 0 || len >= U16 then None else Some(Sealed(nonce, what, RECORD_HEADER + len)))
  }

  datatype SealOutcome = SealError | NoProgress | Partial(rec: Sealed) | Whole(rec: Sealed)

  predicate UsesPrevious(s: Sender, m: Outgoing) {
    s.epoch >= 1 && m.epoch == s.epoch - 1
  }

  function AeadFor(s: Sender, m: Outgoing): Aead {
    if UsesPrevious(s, m) then s.aeadPrev else s.aead
  }

  function SealCcs(s: Sender, m: Outgoing, maxOut: nat): (r: (Sender, SealOutcome))
    ensures SameQueue(s, r.0)
    ensures !r.1.Partial? && (r.1.Whole? ==> r.1.rec.wireLen <= maxOut && r.1.rec.what == EmitCcs)
  {
    if maxOut < 1 + RECORD_HEADER + AeadFor(s, m).maxOverhead then (s, NoProgress)
    else
      var (s', r) := SealRecord(s, UsesPrevious(s, m), EmitCcs, maxOut);
      (s', if r.None? then SealError else Whole(r.value))
  }

  /** The bytes of the body that still fit: all of them, or as many as the room
      left after the two headers and the cipher's expansion. */
  function Todo(left: nat, maxOut: nat, overhead: nat): nat
    requires maxOut >= HEADER_LENGTH + overhead
  {
    var room := maxOut - HEADER_LENGTH - overhead;
    if left > room then room else left
  }

  /** The fragment of message `m` with `n` body bytes from `off`. */
  function Piece(m: Item, off: nat, n: nat): Frag
    requires m.Message? && off + n <= |m.body|
  {
    Frag(m.typ, |m.body|, m.seqNum, off, m.body[off..off + n])
  }

  function SealFragment(s: Sender, m: Outgoing, maxOut: nat): (r: (Sender, SealOutcome))
    requires m.item.Message? && s.offset <= |m.item.body|
    ensures SameQueue(s, r.0)
    ensures r.1.Whole? || r.1.Partial? ==> r.1.rec.wireLen <= maxOut
  {
    var overhead := RECORD_HEADER + AeadFor(s, m).maxOverhead;
    var prefix := RECORD_HEADER + AeadFor(s, m).nonceLen;
    if maxOut < HEADER_LENGTH + 1 + overhead || maxOut < prefix then (s, NoProgress)
    else
      var left := |m.item.body| - s.offset;
      var todo := Todo(left, maxOut, overhead);
      if HEADER_LENGTH + todo > maxOut - prefix then (s, SealError)
      else
        var (s', r) := SealRecord(s, UsesPrevious(s, m), EmitFrag(Piece(m.item, s.offset, todo)), maxOut);
        if r.None? then (s', SealError)
        else if todo == left then (s'.(offset := 0), Whole(r.value))
        else (s'.(offset := s.offset + todo), Partial(r.value))
  }

  /** `seal_next_message`. */
  function SealMessage(s: Sender, maxOut: nat): (r: (Sender, SealOutcome))
    requires s.written < |s.flight|
    ensures SameQueue(s, r.0)
    ensures r.1.Whole? || r.1.Partial? ==> r.1.rec.wireLen <= maxOut
  {
    var m := s.flight[s.written];
    if !UsesPrevious(s, m) && m.epoch != s.epoch then (s, SealError)
    else if m.item.Ccs? then SealCcs(s, m, maxOut)
    else if s.offset > |m.item.body| then (s, SealError)
    else SealFragment(s, m, maxOut)
  }

  datatype Packet = PacketError | Packet(records: seq<Sealed>)

  /** `seal_next_packet` from the current cursor, `progress` telling whether the
      packet already holds a record. */
  function SealPacket(s: Sender, maxOut: nat, progress: bool): (Sender, Packet)
    decreases |s.flight| - s.written
  {
    if s.written >= |s.flight| then (s, if progress then Packet([]) else PacketError)
    else
      var (s', r) := SealMessage(s, maxOut);
      match r
      case SealError => (s', PacketError)
      case NoProgress => (s', if progress then Packet([]) else PacketError)
      case Partial(rec) => (s', Packet([rec]))
      case Whole(rec) =>
        var (s'', rest) := SealPacket(s'.(written := s.written + 1), maxOut - rec.wireLen, true);
        (s'', if rest.PacketError? then rest else Packet([rec] + rest.records))
  }

  lemma SealPacketUnfolds(s: Sender, maxOut: nat, progress: bool)
    ensures SealPacket(s, maxOut, progress) ==
            if s.written >= |s.flight| then (s, if progress then Packet([]) else PacketError)
            else
              var (s', r) := SealMessage(s, maxOut);
              match r
              case SealError => (s', PacketError)
              case NoProgress => (s', if progress then Packet([]) else PacketError)
              case Partial(rec) => (s', Packet([rec]))
              case Whole(rec) =>
                var (s'', rest) := SealPacket(s'.(written := s.written + 1), maxOut - rec.wireLen, true);
                (s'', if rest.PacketError? then rest else Packet([rec] + rest.records))
  {
  }

  datatype SendResult = AllSent | Blocked | SendError

  /** `send_flight` with a given MTU, given results of the datagram writes and of
      the final flush: the sender afterwards and the packets that were written. A
      failed write puts the cursor back to where the packet began. */
  function SendFlight(s: Sender, mtu: nat, writes: seq<bool>, flushed: bool): (Sender, seq<seq<Sealed>>, SendResult)
    decreases |writes|
  {
    if s.written >= |s.flight| then (s, [], if flushed then AllSent else Blocked)
    else
      var (s', p) := SealPacket(s, mtu, false);
      if p.PacketError? then (s', [], SendError)
      else if writes == [] || !writes[0] then (s'.(written := s.written, offset := s.offset), [], Blocked)
      else
        var (s'', ps, r) := SendFlight(s', mtu, writes[1..], flushed);
        (s'', [p.records] + ps, r)
  }

  /** `dtls1_flush_flight`. */
  function FlushFlight(s: Sender, mtu: nat, writes: seq<bool>, flushed: bool): (Sender, seq<seq<Sealed>>, SendResult) {
    SendFlight(s.(complete := true), mtu, writes, flushed)
  }

  /** `dtls1_retransmit_outgoing_messages`. */
  function Retransmit(s: Sender, mtu: nat, writes: seq<bool>, flushed: bool): (Sender, seq<seq<Sealed>>, SendResult) {
    SendFlight(s.(written := 0, offset := 0), mtu, writes, flushed)
  }
}
