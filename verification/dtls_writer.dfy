// The sending half of a DTLS endpoint as the source keeps it: seven slots of
// serialized messages and a cursor that the sealing loops advance. Every method is
// proved to be the corresponding function of DtlsSendModel.
module DtlsWriter {
  import opened Basics
  import opened Reassembly
  import opened HandshakeWire
  import opened DtlsReceiveModel
  import opened DtlsSendModel
  import opened DtlsFlight
  import opened DtlsNonces

  /** DTLS_OUTGOING_MESSAGE. */
  datatype Stored = Stored(data: seq<byte>, epoch: nat, isCcs: bool)

  predicate Represents(m: Stored, o: Outgoing) {
    && m.epoch == o.epoch
    && match o.item
       case Ccs => m.isCcs
       case Message(typ, seqNum, body) =>
         var f := Frag(typ, |body|, seqNum, 0, body);
         !m.isCcs && f.Encodable() && m.data == Serialize(f)
  }

  // ---- Building messages ----

  /** `dtls1_init_message` with the body appended: the length field is still zero. */
  function InitMessage(typ: byte, seqNum: nat, body: seq<byte>): (b: seq<byte>)
    requires seqNum < U16 && |body| < U24
    ensures |b| == HEADER_LENGTH + |body|
  {
    Header(typ, 0, seqNum, 0, |body|) + body
  }

  /** `dtls1_finish_message`: copies the fragment length into the length field. */
  function FinishMessage(b: seq<byte>): seq<byte>
    requires |b| >= HEADER_LENGTH
  {
    Overwrite(b, 1, b[9..12])
  }

  lemma MessageIsOneWholeFragment(typ: byte, seqNum: nat, body: seq<byte>)
    requires seqNum < U16 && |body| < U24
    ensures FinishMessage(InitMessage(typ, seqNum, body)) == Serialize(Frag(typ, |body|, seqNum, 0, body))
  {
    var b := InitMessage(typ, seqNum, body);
    assert b[9..12] == U24Bytes(|body|);
    assert b[..1] == [typ] && b[4..6] == U16Bytes(seqNum) && b[6..9] == U24Bytes(0) && b[12..] == body;
    assert FinishMessage(b) == [typ] + U24Bytes(|body|) + U16Bytes(seqNum) + U24Bytes(0) + U24Bytes(|body|) + body;
  }

  class Writer {
    const messages: array<Stored>   // outgoing_messages
    var len: nat                    // outgoing_messages_len
    var written: nat
    var offset: nat
    var complete: bool
    var writeSeq: nat
    var epoch: nat
    var seqNow: nat
    var seqPrev: nat
    var aead: Aead
    var aeadPrev: Aead
    ghost var flight: seq<Outgoing>
    ghost var used: seq<Nonce>
    ghost var overflowed: bool

    ghost predicate Valid()
      reads this, messages
    {
      && messages.Length == FLIGHT
      && len <= FLIGHT && |flight| == len
      && writeSeq < U16
      && (forall i :: 0 <= i < len ==> Represents(messages[i], flight[i]))
    }

    ghost function Model(): Sender
      reads this
    {
      Sender(flight, written, offset, complete, writeSeq, epoch, seqNow, seqPrev, aead, aeadPrev, used, overflowed)
    }

    constructor (aead: Aead)
      ensures Valid() && fresh(messages)
      ensures Model() == Sender([], 0, 0, false, 0, 0, 0, 0, aead, aead, [], false)
    {
      messages := new Stored[FLIGHT](_ => Stored([], 0, false));
      len, written, offset, complete, writeSeq, epoch, seqNow, seqPrev := 0, 0, 0, false, 0, 0, 0, 0;
      this.aead, aeadPrev := aead, aead;
      flight, used, overflowed := [], [], false;
    }

    method ClearOutgoing()
      requires Valid()
      modifies this
      ensures Valid() && Model() == ClearFlight(old(Model()))
    {
      len, written, offset, complete := 0, 0, 0, false;
      flight := [];
    }

    method Add(isCcs: bool, data: seq<byte>, ghost item: Item) returns (ok: bool)
      requires Valid() && Represents(Stored(data, epoch, isCcs), Outgoing(item, epoch))
      modifies this, messages
      ensures Valid()
      ensures var r := AddOutgoing(old(Model()), item);
              ok == r.Some? && Model() == if ok then r.value else old(Model())
    {
      if complete {
        ClearOutgoing();
      }
      if len >= FLIGHT {
        return false;
      }
      if !isCcs {
        writeSeq := (writeSeq + 1) % U16;
      }
      messages[len] := Stored(data, epoch, isCcs);
      flight := flight + [Outgoing(item, epoch)];
      len := len + 1;
      ok := true;
    }

    method AddHandshakeMessage(typ: byte, body: seq<byte>) returns (ok: bool)
      requires Valid() && |body| < U24
      modifies this, messages
      ensures Valid()
      ensures var r := AddMessage(old(Model()), typ, body);
              ok == r.Some? && Model() == if ok then r.value else old(Model())
    {
      MessageIsOneWholeFragment(typ, writeSeq, body);
      ok := Add(false, FinishMessage(InitMessage(typ, writeSeq, body)), Message(typ, writeSeq, body));
    }

    method AddChangeCipherSpec() returns (ok: bool)
      requires Valid()
      modifies this, messages
      ensures Valid()
      ensures var r := AddOutgoing(old(Model()), Ccs);
              ok == r.Some? && Model() == if ok then r.value else old(Model())
    {
      ok := Add(true, [], Ccs);
    }

    method SetWriteState(next: Aead)
      requires Valid()
      modifies this
      ensures Valid() && Model() == NextWriteEpoch(old(Model()), next)
      ensures epoch == (old(epoch) + 1) % 65536 && seqNow == 0 && aead == next
      // What was queued is still sealed with the cipher and the counter it had, and
      // no nonce comes back, unless the 16-bit epoch wraps.
      ensures old(epoch) + 1 < U16 ==>
                forall i :: 0 <= i < len && flight[i].epoch == old(epoch) ==>
                  UsesPrevious(Model(), flight[i]) && AeadFor(Model(), flight[i]) == old(aead) && seqPrev == old(seqNow)
      ensures old(epoch) + 1 < U16 && NoncesOk(old(Model())) ==> NoncesOk(Model())
    {
      epoch := (epoch + 1) % U16;
      seqPrev := seqNow;
      seqNow := 0;
      aeadPrev := aead;
      aead := next;
    }

    method Seal(previous: bool, what: Emitted, maxOut: nat) returns (r: Option<Sealed>)
      requires Valid() && (previous ==> epoch >= 1)
      modifies this`seqNow, this`seqPrev, this`used, this`overflowed
      ensures Valid()
      ensures (Model(), r) == SealRecord(old(Model()), previous, what, maxOut)
      ensures r.Some? ==> r.value.what == what && r.value.wireLen <= maxOut && used == old(used) + [r.value.nonce]
      // It fails iff the record does not fit, is 2^16 bytes long or takes the last number.
      ensures var len := (if previous then aeadPrev else aead).ciphertextLen(what.Length());
              r.None? <==> 13 + len > maxOut || len >= 65536 || (if previous then old(seqPrev) else old(seqNow)) % SEQ48 == SEQ48 - 1
      // A number is used up even if the record is not returned, and never twice.
      ensures used == old(used) || used == old(used) + [Nonce(if previous then epoch - 1 else epoch,
                                                             if previous then old(seqPrev) else old(seqNow))]
      ensures NoncesOk(old(Model())) && !old(overflowed) ==>
                NoncesOk(Model()) && (r.Some? ==> !overflowed && r.value.nonce !in old(used))
    {
      SealIsFresh(Model(), previous, what, maxOut);
      hide NoncesOk, Emitted.Length, Represents;
      var e, a, counter := epoch, aead, seqNow;
      if previous {
        e, a, counter := epoch - 1, aeadPrev, seqPrev;
      }
      var n := a.ciphertextLen(what.Length());
      if RECORD_HEADER + n > maxOut {
        return None;
      }
      used := used + [Nonce(e, counter)];
      var next := (counter + 1) % SEQ48;
      if previous { seqPrev := next; } else { seqNow := next; }
      if next == 0 {
        overflowed := true;
        return None;
      }
      if n >= U16 {
        return None;
      }
      r := Some(Sealed(Nonce(e, counter), what, RECORD_HEADER + n));
    }

    method SealChangeCipherSpec(previous: bool, maxOut: nat, ghost o: Outgoing) returns (r: SealOutcome)
      requires Valid() && previous == UsesPrevious(Model(), o)
      modifies this`seqNow, this`seqPrev, this`used, this`overflowed
      ensures Valid()
      ensures (Model(), r) == SealCcs(old(Model()), o, maxOut)
    {
      var overhead := RECORD_HEADER + (if previous then aeadPrev else aead).maxOverhead;
      if maxOut < 1 + overhead {
        return NoProgress;
      }
      var sealed := Seal(previous, EmitCcs, maxOut);
      r := if sealed.None? then SealError else Whole(sealed.value);
    }

    /** Lines 679-719: one fragment of the parsed message `hdr`. */
    method SealNextFragment(previous: bool, hdr: Frag, maxOut: nat, ghost o: Outgoing) returns (r: SealOutcome)
      requires Valid() && previous == UsesPrevious(Model(), o)
      requires o.item.Message? && hdr == Piece(o.item, 0, |o.item.body|) && offset <= |hdr.body|
      modifies this`offset, this`seqNow, this`seqPrev, this`used, this`overflowed
      ensures Valid()
      ensures (Model(), r) == SealFragment(old(Model()), o, maxOut)
    {
      var a := if previous then aeadPrev else aead;
      var overhead, prefix := RECORD_HEADER + a.maxOverhead, RECORD_HEADER + a.nonceLen;
      if maxOut < HEADER_LENGTH + 1 + overhead || maxOut < prefix {
        return NoProgress;
      }
      var body := hdr.body[offset..];
      var todo := |body|;
      if todo > maxOut - HEADER_LENGTH - overhead {
        todo := maxOut - HEADER_LENGTH - overhead;
      }
      if HEADER_LENGTH + todo > maxOut - prefix {
        return SealError;
      }
      var piece := Frag(hdr.typ, hdr.msgLen, hdr.seqNum, offset, body[..todo]);
      assert piece == Piece(o.item, offset, todo);
      var sealed := Seal(previous, EmitFrag(piece), maxOut);
      hide SealRecord;
      if sealed.None? {
        return SealError;
      }
      if todo == |body| {
        offset := 0;
        return Whole(sealed.value);
      }
      offset := offset + todo;
      return Partial(sealed.value);
    }

    method SealNextMessage(maxOut: nat) returns (r: SealOutcome)
      requires Valid() && written < len
      modifies this`offset, this`seqNow, this`seqPrev, this`used, this`overflowed
      ensures Valid()
      ensures (Model(), r) == SealMessage(old(Model()), maxOut)
    {
      var m := messages[written];
      ghost var o := flight[written];
      assert Represents(m, o);
      var previous := epoch >= 1 && m.epoch == epoch - 1;
      if !previous && m.epoch != epoch {
        return SealError;
      }
      if m.isCcs {
        r := SealChangeCipherSpec(previous, maxOut, o);
        hide SealCcs;
        return;
      }
      StoredMessageParses(m, o);
      var parsed := Parse(m.data);
      if parsed.None? {
        return SealError;
      }
      var (hdr, rest) := parsed.value;
      if hdr.off != 0 || hdr.msgLen != |hdr.body| || offset > |hdr.body| || rest != [] {
        return SealError;
      }
      r := SealNextFragment(previous, hdr, maxOut, o);
      hide SealFragment;
    }

    method SealNextPacket(maxOut: nat) returns (p: Packet)
      requires Valid() && written < len
      modifies this`written, this`offset, this`seqNow, this`seqPrev, this`used, this`overflowed
      ensures Valid()
      ensures (Model(), p) == SealPacket(old(Model()), maxOut, false)
    {
      var records, room, progress := [], maxOut, false;
      hide SealMessage, SealPacket, Prefixed, Represents;
      ghost var goal := SealPacket(Model(), maxOut, false);
      NothingBefore(goal);
      while written < len
        invariant Valid() && len == old(len) && progress == (records != [])
        invariant goal == Prefixed(records, SealPacket(Model(), room, progress))
        decreases len - written
      {
        ghost var before, roomBefore := Model(), room;
        var r := SealNextMessage(room);
        PacketStep(goal, records, before, roomBefore, progress, r);
        match r
        case SealError => return PacketError;
        case NoProgress =>
          return if progress then Packet(records) else PacketError;
        case Partial(rec) => return Packet(records + [rec]);
        case Whole(rec) =>
          records, room, progress := records + [rec], room - rec.wireLen, true;
          written := written + 1;
      }
      PacketEnd(goal, records, Model(), room, progress);
      p := if progress then Packet(records) else PacketError;
    }

    /** `send_flight`: `writes` are the results of the datagram writes in order. */
    method Send(mtu: nat, writes: seq<bool>, flushed: bool) returns (packets: seq<seq<Sealed>>, r: SendResult)
      requires Valid()
      modifies this`written, this`offset, this`seqNow, this`seqPrev, this`used, this`overflowed
      ensures Valid()
      ensures (Model(), packets, r) == SendFlight(old(Model()), mtu, writes, flushed)
    {
      hide SealPacket, SendFlight, Represents;
      var tried := 0;
      packets := [];
      ghost var goal := SendFlight(Model(), mtu, writes, flushed);
      assert [] + goal.1 == goal.1 && writes[0..] == writes;
      while written < len
        invariant Valid() && len == old(len) && tried <= |writes|
        invariant goal == After(packets, SendFlight(Model(), mtu, writes[tried..], flushed))
        decreases |writes| - tried
      {
        ghost var before := Model();
        var oldWritten, oldOffset := written, offset;
        var p := SealNextPacket(mtu);
        SendStep(goal, packets, before, mtu, writes[tried..], flushed);
        if p.PacketError? {
          return packets, SendError;
        }
        if tried == |writes| || !writes[tried] {
          written, offset := oldWritten, oldOffset;
          return packets, Blocked;
        }
        assert writes[tried..][1..] == writes[tried + 1..];
        packets, tried := packets + [p.records], tried + 1;
      }
      SendEnd(goal, packets, Model(), mtu, writes[tried..], flushed);
      r := if flushed then AllSent else Blocked;
    }

    method Flush(mtu: nat, writes: seq<bool>, flushed: bool) returns (packets: seq<seq<Sealed>>, r: SendResult)
      requires Valid()
      modifies this
      ensures Valid()
      ensures (Model(), packets, r) == FlushFlight(old(Model()), mtu, writes, flushed)
    {
      complete := true;
      packets, r := Send(mtu, writes, flushed);
    }

    method RetransmitOutgoing(mtu: nat, writes: seq<bool>, flushed: bool) returns (packets: seq<seq<Sealed>>, r: SendResult)
      requires Valid()
      modifies this
      ensures Valid()
      ensures (Model(), packets, r) == Retransmit(old(Model()), mtu, writes, flushed)
      ensures flight == old(flight) && forall k :: 0 <= k < |packets| ==> PacketLen(packets[k]) <= mtu
      ensures r != SendError ==> Tiles(Flatten(packets), flight, 0, 0, written, offset)
      ensures r == AllSent ==> written == len && offset == 0
    {
      written, offset := 0, 0;
      SendFlightTiles(Model(), mtu, writes, flushed);
      packets, r := Send(mtu, writes, flushed);
    }
  }

  /** The rest of a pass after `packets`. */
  function After(packets: seq<seq<Sealed>>, rest: (Sender, seq<seq<Sealed>>, SendResult)): (Sender, seq<seq<Sealed>>, SendResult) {
    (rest.0, packets + rest.1, rest.2)
  }

  lemma SendEnd(goal: (Sender, seq<seq<Sealed>>, SendResult), packets: seq<seq<Sealed>>,
                s: Sender, mtu: nat, writes: seq<bool>, flushed: bool)
    requires s.written >= |s.flight| && goal == After(packets, SendFlight(s, mtu, writes, flushed))
    ensures goal == (s, packets, if flushed then AllSent else Blocked)
  {
    assert packets + [] == packets;
  }

  lemma SendStep(goal: (Sender, seq<seq<Sealed>>, SendResult), packets: seq<seq<Sealed>>,
                 s: Sender, mtu: nat, writes: seq<bool>, flushed: bool)
    requires s.written < |s.flight| && goal == After(packets, SendFlight(s, mtu, writes, flushed))
    ensures var (s', p) := SealPacket(s, mtu, false);
            if p.PacketError? then goal == (s', packets, SendError)
            else if writes == [] || !writes[0] then goal == (s'.(written := s.written, offset := s.offset), packets, Blocked)
            else goal == After(packets + [p.records], SendFlight(s', mtu, writes[1..], flushed))
  {
    var (s', p) := SealPacket(s, mtu, false);
    hide SealPacket;
    assert packets + [] == packets;
    if p.Packet? && writes != [] && writes[0] {
      var rest := SendFlight(s', mtu, writes[1..], flushed).1;
      assert packets + ([p.records] + rest) == packets + [p.records] + rest;
    }
  }

  /** The rest of a packet after `records`. */
  function Prefixed(records: seq<Sealed>, rest: (Sender, Packet)): (Sender, Packet) {
    (rest.0, if rest.1.PacketError? then rest.1 else Packet(records + rest.1.records))
  }

  lemma NothingBefore(goal: (Sender, Packet))
    ensures goal == Prefixed([], goal)
  {
    assert goal.1.Packet? ==> [] + goal.1.records == goal.1.records;
  }

  lemma PacketEnd(goal: (Sender, Packet), records: seq<Sealed>, s: Sender, room: nat, progress: bool)
    requires s.written >= |s.flight| && goal == Prefixed(records, SealPacket(s, room, progress))
    ensures goal == (s, if progress then Packet(records) else PacketError)
  {
    assert records + [] == records;
  }

  lemma PacketStep(goal: (Sender, Packet), records: seq<Sealed>, s: Sender, room: nat, progress: bool, r: SealOutcome)
    requires s.written < |s.flight| && r == SealMessage(s, room).1
    requires goal == Prefixed(records, SealPacket(s, room, progress))
    ensures var s' := SealMessage(s, room).0;
            match r
            case SealError => goal == (s', PacketError)
            case NoProgress => goal == (s', if progress then Packet(records) else PacketError)
            case Partial(rec) => goal == (s', Packet(records + [rec]))
            case Whole(rec) =>
              goal == Prefixed(records + [rec], SealPacket(s'.(written := s.written + 1), room - rec.wireLen, true))
  {
    SealPacketUnfolds(s, room, progress);
    hide SealMessage, SealPacket;
    assert records + [] == records;
    match r
    case Whole(rec) =>
      var rest := SealPacket(SealMessage(s, room).0.(written := s.written + 1), room - rec.wireLen, true).1;
      assert rest.Packet? ==> records + ([rec] + rest.records) == records + [rec] + rest.records;
    case _ =>
  }

  lemma StoredMessageParses(m: Stored, o: Outgoing)
    requires Represents(m, o) && !m.isCcs
    ensures Parse(m.data) == Some((Piece(o.item, 0, |o.item.body|), []))
  {
    var item := o.item;
    ParseSerialized(Frag(item.typ, |item.body|, item.seqNum, 0, item.body), []);
    assert m.data + [] == m.data;
    assert item.body[0..|item.body|] == item.body;
  }
}
