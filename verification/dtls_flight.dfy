// What a pass over a flight sends: the records of one `send_flight`, resumed as
// often as need be, cut every message into contiguous pieces from offset 0 to its
// length, in order, and fit the MTU.
module DtlsFlight {
  import opened Reassembly
  import opened HandshakeWire
  import opened DtlsSendModel

  /** The cursor is inside the flight, and a nonzero offset lies inside a body. */
  ghost predicate CursorOk(s: Sender) {
    && s.written <= |s.flight|
    && (s.offset > 0 ==>
          s.written < |s.flight| && s.flight[s.written].item.Message? && s.offset < |s.flight[s.written].item.body|)
  }

  /** `what` is the piece of `item` at offset `o`. */
  predicate IsPiece(what: Emitted, item: Item, o: nat) {
    match item
    case Ccs => what == EmitCcs && o == 0
    case Message(_, _, body) => what.EmitFrag? && o + |what.f.body| <= |body| && what.f == Piece(item, o, |what.f.body|)
  }

  predicate EndsItem(what: Emitted, item: Item, o: nat) {
    item.Ccs? || (what.EmitFrag? && o + |what.f.body| == |item.body|)
  }

  /** `recs` are exactly the pieces between cursor (w, o) and cursor (w', o'). */
  predicate Tiles(recs: seq<Sealed>, flight: seq<Outgoing>, w: nat, o: nat, w': nat, o': nat)
    decreases |recs|
  {
    if recs == [] then w == w' && o == o'
    else
      && w < |flight|
      && var item, what := flight[w].item, recs[0].what;
      && IsPiece(what, item, o)
      && if EndsItem(what, item, o) then Tiles(recs[1..], flight, w + 1, 0, w', o')
         else |what.f.body| > 0 && Tiles(recs[1..], flight, w, o + |what.f.body|, w', o')
  }

  lemma {:induction false} TilesAppend(a: seq<Sealed>, b: seq<Sealed>, flight: seq<Outgoing>,
                                       w: nat, o: nat, w1: nat, o1: nat, w2: nat, o2: nat)
    requires Tiles(a, flight, w, o, w1, o1) && Tiles(b, flight, w1, o1, w2, o2)
    ensures Tiles(a + b, flight, w, o, w2, o2)
    decreases |a|
  {
    if a == [] {
      assert a + b == b;
    } else {
      assert (a + b)[0] == a[0] && (a + b)[1..] == a[1..] + b;
      var item, what := flight[w].item, a[0].what;
      if EndsItem(what, item, o) {
        TilesAppend(a[1..], b, flight, w + 1, 0, w1, o1, w2, o2);
      } else {
        TilesAppend(a[1..], b, flight, w, o + |what.f.body|, w1, o1, w2, o2);
      }
    }
  }

  function PacketLen(recs: seq<Sealed>): nat {
    if recs == [] then 0 else recs[0].wireLen + PacketLen(recs[1..])
  }

  /** One record: it is the piece at the cursor, and the cursor moves past it. */
  lemma SealMessageTiles(s: Sender, maxOut: nat)
    requires CursorOk(s) && s.written < |s.flight|
    ensures var (s', r) := SealMessage(s, maxOut);
            && s'.flight == s.flight && s'.written == s.written
            && (r.Whole? || r.Partial? ==> r.rec.wireLen <= maxOut)
            && (r.Whole? ==>
                  && CursorOk(s'.(written := s.written + 1)) && s'.offset == 0
                  && Tiles([r.rec], s.flight, s.written, s.offset, s.written + 1, 0))
            && (r.Partial? ==>
                  && CursorOk(s') && s'.offset > s.offset
                  && Tiles([r.rec], s.flight, s.written, s.offset, s.written, s'.offset))
            && (r.NoProgress? ==> s' == s)
  {
  }

  lemma {:induction false} SealPacketTiles(s: Sender, maxOut: nat, progress: bool)
    requires CursorOk(s)
    ensures var (s', p) := SealPacket(s, maxOut, progress);
            p.Packet? ==>
              && s'.flight == s.flight && CursorOk(s')
              && Tiles(p.records, s.flight, s.written, s.offset, s'.written, s'.offset)
              && PacketLen(p.records) <= maxOut
              && (!progress ==> p.records != [])
    decreases |s.flight| - s.written
  {
    hide *;
    NothingTiles(s);
    SealPacketUnfolds(s, maxOut, progress);
    if s.written >= |s.flight| {
      return;
    }
    SealMessageTiles(s, maxOut);
    var (s', r) := SealMessage(s, maxOut);
    if r.Partial? {
      OneRecordLen(r.rec);
    } else if r.Whole? {
      var s1 := s'.(written := s.written + 1);
      SealPacketTiles(s1, maxOut - r.rec.wireLen, true);
      var (s2, rest) := SealPacket(s1, maxOut - r.rec.wireLen, true);
      if rest.Packet? {
        PrependTile(r.rec, rest.records, s, s1, s2);
      }
    }
  }

  lemma NothingTiles(s: Sender)
    ensures Tiles([], s.flight, s.written, s.offset, s.written, s.offset) && PacketLen([]) == 0
  {
  }

  lemma OneRecordLen(rec: Sealed)
    ensures PacketLen([rec]) == rec.wireLen
  {
  }

  lemma PrependTile(rec: Sealed, recs: seq<Sealed>, s: Sender, s1: Sender, s2: Sender)
    requires Tiles([rec], s.flight, s.written, s.offset, s1.written, s1.offset)
    requires Tiles(recs, s.flight, s1.written, s1.offset, s2.written, s2.offset)
    ensures Tiles([rec] + recs, s.flight, s.written, s.offset, s2.written, s2.offset)
    ensures PacketLen([rec] + recs) == rec.wireLen + PacketLen(recs)
  {
    TilesAppend([rec], recs, s.flight, s.written, s.offset, s1.written, s1.offset, s2.written, s2.offset);
    assert ([rec] + recs)[1..] == recs;
  }

  function Flatten(packets: seq<seq<Sealed>>): seq<Sealed> {
    if packets == [] then [] else packets[0] + Flatten(packets[1..])
  }

  /** One `send_flight` from any cursor: every packet fits the MTU, and the packets
      written tile the flight from the old cursor to the new one - to the very end
      when the call reports success, and up to the failed packet otherwise. */
  lemma {:induction false} SendFlightTiles(s: Sender, mtu: nat, writes: seq<bool>, flushed: bool)
    requires CursorOk(s)
    ensures var (s', ps, r) := SendFlight(s, mtu, writes, flushed);
            && (forall k :: 0 <= k < |ps| ==> PacketLen(ps[k]) <= mtu)
            && (r != SendError ==>
                  && s'.flight == s.flight && CursorOk(s')
                  && Tiles(Flatten(ps), s.flight, s.written, s.offset, s'.written, s'.offset))
            && (r == AllSent ==> s'.written == |s.flight| && s'.offset == 0)
    decreases |writes|
  {
    if s.written < |s.flight| {
      SealPacketTiles(s, mtu, false);
      var (s', p) := SealPacket(s, mtu, false);
      if p.Packet? && writes != [] && writes[0] {
        SendFlightTiles(s', mtu, writes[1..], flushed);
        var (s'', ps, r) := SendFlight(s', mtu, writes[1..], flushed);
        assert ([p.records] + ps)[1..] == ps;
        if r != SendError {
          TilesAppend(p.records, Flatten(ps), s.flight, s.written, s.offset, s'.written, s'.offset, s''.written, s''.offset);
        }
      }
    }
  }

  // ---- Each byte exactly once ----

  predicate Carries(rec: Sealed, seqNum: nat, j: nat) {
    rec.what.EmitFrag? && rec.what.f.seqNum == seqNum && rec.what.f.off <= j < rec.what.f.off + |rec.what.f.body|
  }

  function CountCarrying(recs: seq<Sealed>, seqNum: nat, j: nat): nat {
    if recs == [] then 0 else (if Carries(recs[0], seqNum, j) then 1 else 0) + CountCarrying(recs[1..], seqNum, j)
  }

  predicate DistinctSeqs(flight: seq<Outgoing>) {
    forall i, k :: 0 <= i < k < |flight| && flight[i].item.Message? && flight[k].item.Message? ==>
      flight[i].item.seqNum != flight[k].item.seqNum
  }

  /** Byte `j` of item `i` lies between the two cursors. */
  predicate Between(i: nat, j: nat, w: nat, o: nat, w': nat, o': nat) {
    (w < i || (w == i && o <= j)) && (i < w' || (i == w' && j < o'))
  }

  lemma {:induction false} TilesMoveForward(recs: seq<Sealed>, flight: seq<Outgoing>, w: nat, o: nat, w': nat, o': nat)
    requires Tiles(recs, flight, w, o, w', o')
    ensures w < w' || (w == w' && o <= o')
    decreases |recs|
  {
    if recs != [] {
      var item, what := flight[w].item, recs[0].what;
      if EndsItem(what, item, o) {
        TilesMoveForward(recs[1..], flight, w + 1, 0, w', o');
      } else {
        TilesMoveForward(recs[1..], flight, w, o + |what.f.body|, w', o');
      }
    }
  }

  /** Records that tile from one cursor to another carry every byte in between
      exactly once and no other byte of the flight. */
  lemma {:induction false} EachByteOnce(recs: seq<Sealed>, flight: seq<Outgoing>, w: nat, o: nat, w': nat, o': nat, i: nat, j: nat)
    requires Tiles(recs, flight, w, o, w', o') && DistinctSeqs(flight)
    requires i < |flight| && flight[i].item.Message? && j < |flight[i].item.body|
    ensures CountCarrying(recs, flight[i].item.seqNum, j) == if Between(i, j, w, o, w', o') then 1 else 0
    decreases |recs|
  {
    if recs != [] {
      var item, what := flight[w].item, recs[0].what;
      if EndsItem(what, item, o) {
        TilesMoveForward(recs[1..], flight, w + 1, 0, w', o');
        EachByteOnce(recs[1..], flight, w + 1, 0, w', o', i, j);
      } else {
        TilesMoveForward(recs[1..], flight, w, o + |what.f.body|, w', o');
        EachByteOnce(recs[1..], flight, w, o + |what.f.body|, w', o', i, j);
      }
    }
  }

  lemma {:induction false} CarriedSomewhere(recs: seq<Sealed>, seqNum: nat, j: nat) returns (k: nat)
    requires CountCarrying(recs, seqNum, j) > 0
    ensures k < |recs| && Carries(recs[k], seqNum, j)
  {
    if Carries(recs[0], seqNum, j) {
      k := 0;
    } else {
      k := CarriedSomewhere(recs[1..], seqNum, j);
      k := k + 1;
    }
  }

  /** Every message passed over, even an empty one, has a piece among the records. */
  lemma {:induction false} EachMessageAppears(recs: seq<Sealed>, flight: seq<Outgoing>, w: nat, w': nat, i: nat) returns (k: nat)
    requires Tiles(recs, flight, w, 0, w', 0) && w <= i < w' && i < |flight| && flight[i].item.Message?
    ensures k < |recs| && recs[k].what.EmitFrag? && IsPiece(recs[k].what, flight[i].item, recs[k].what.f.off)
  {
    k := MessageAppearsFrom(recs, flight, w, 0, w', 0, i);
  }

  lemma {:induction false} MessageAppearsFrom(recs: seq<Sealed>, flight: seq<Outgoing>, w: nat, o: nat, w': nat, o': nat, i: nat)
      returns (k: nat)
    requires Tiles(recs, flight, w, o, w', o') && w <= i < w' && i < |flight| && flight[i].item.Message?
    ensures k < |recs| && recs[k].what.EmitFrag? && IsPiece(recs[k].what, flight[i].item, recs[k].what.f.off)
    decreases |recs|
  {
    if w == i {
      k := 0;
    } else {
      var item, what := flight[w].item, recs[0].what;
      if EndsItem(what, item, o) {
        k := MessageAppearsFrom(recs[1..], flight, w + 1, 0, w', o', i);
      } else {
        k := MessageAppearsFrom(recs[1..], flight, w, o + |what.f.body|, w', o', i);
      }
      k := k + 1;
    }
  }

  // ---- An ample MTU always suffices ----

  /** The MTU leaves room for a record header, the cipher's expansion, a fragment
      header and one body byte in either epoch, and no record can reach 2^16. */
  ghost predicate Ample(s: Sender, mtu: nat) {
    && s.aead.Valid() && s.aeadPrev.Valid()
    && mtu >= RECORD_HEADER + s.aead.maxOverhead + HEADER_LENGTH + 1
    && mtu >= RECORD_HEADER + s.aeadPrev.maxOverhead + HEADER_LENGTH + 1
    && mtu < U16
  }

  /** Queued under the current write epoch or the one before. */
  ghost predicate EpochsOk(s: Sender) {
    forall i :: 0 <= i < |s.flight| ==> s.flight[i].epoch == s.epoch || UsesPrevious(s, s.flight[i])
  }

  ghost predicate Ready(s: Sender, mtu: nat) {
    CursorOk(s) && EpochsOk(s) && Ample(s, mtu) && !s.overflowed
  }

  lemma SealMessageSucceeds(s: Sender, mtu: nat, maxOut: nat)
    requires Ready(s, mtu) && s.written < |s.flight| && maxOut <= mtu
    ensures var (s', r) := SealMessage(s, maxOut);
            && s'.flight == s.flight && s'.written == s.written
            && (r.SealError? ==> s'.overflowed)
            && (r.NoProgress? ==> maxOut < mtu && s' == s)
            && (r.Partial? ==> Ready(s', mtu))
            && (r.Whole? ==> Ready(s'.(written := s.written + 1), mtu))
  {
  }

  /** With an ample MTU a packet fails only because a record counter wrapped. */
  lemma {:induction false} SealPacketSucceeds(s: Sender, mtu: nat, maxOut: nat, progress: bool)
    requires Ready(s, mtu)
    requires maxOut == mtu || (progress && maxOut <= mtu)
    requires progress || s.written < |s.flight|
    ensures var (s', p) := SealPacket(s, maxOut, progress);
            if p.PacketError? then s'.overflowed else Ready(s', mtu)
    decreases |s.flight| - s.written
  {
    hide *;
    SealPacketUnfolds(s, maxOut, progress);
    if s.written >= |s.flight| {
      return;
    }
    SealMessageSucceeds(s, mtu, maxOut);
    var (s', r) := SealMessage(s, maxOut);
    if r.Whole? {
      SealPacketSucceeds(s'.(written := s.written + 1), mtu, maxOut - r.rec.wireLen, true);
    }
  }

  /** So a pass stops early only at a failed write, and if every write and the
      flush succeed it sends the whole flight. */
  lemma {:induction false} SendFlightSucceeds(s: Sender, mtu: nat, writes: seq<bool>, flushed: bool)
    requires Ready(s, mtu)
    ensures var (s', ps, r) := SendFlight(s, mtu, writes, flushed);
            && |ps| <= |writes|
            && (r == SendError ==> s'.overflowed)
            && (r == Blocked ==> s'.written >= |s.flight| || |ps| == |writes| || !writes[|ps|])
    decreases |writes|
  {
    if s.written < |s.flight| {
      SealPacketSucceeds(s, mtu, mtu, false);
      SealPacketTiles(s, mtu, false);
      var (s', p) := SealPacket(s, mtu, false);
      hide SealPacket, Ready;
      if p.Packet? && writes != [] && writes[0] {
        SendFlightSucceeds(s', mtu, writes[1..], flushed);
      }
    }
  }

  /** What is left to send, counting one unit per body byte and one per item. */
  function Work(flight: seq<Outgoing>, w: nat): nat
    decreases |flight| - w
  {
    if w >= |flight| then 0
    else 1 + (if flight[w].item.Message? then |flight[w].item.body| else 0) + Work(flight, w + 1)
  }

  function Remaining(s: Sender): int {
    Work(s.flight, s.written) - s.offset
  }

  lemma TilesDoWork(recs: seq<Sealed>, flight: seq<Outgoing>, w: nat, o: nat, w': nat, o': nat)
    requires Tiles(recs, flight, w, o, w', o')
    ensures Work(flight, w') - o' + |recs| <= Work(flight, w) - o
    decreases |recs|
  {
    if recs != [] {
      var item, what := flight[w].item, recs[0].what;
      if EndsItem(what, item, o) {
        TilesDoWork(recs[1..], flight, w + 1, 0, w', o');
      } else {
        TilesDoWork(recs[1..], flight, w, o + |what.f.body|, w', o');
      }
    }
  }

  lemma {:induction false} NoEmptyPackets(s: Sender, mtu: nat, writes: seq<bool>, flushed: bool)
    requires CursorOk(s)
    ensures var (s', ps, r) := SendFlight(s, mtu, writes, flushed);
            && |Flatten(ps)| >= |ps|
            && (r == Blocked ==> s'.written < |s.flight| || !flushed)
    decreases |writes|
  {
    if s.written < |s.flight| {
      SealPacketTiles(s, mtu, false);
      var (s', p) := SealPacket(s, mtu, false);
      hide SealPacket;
      if p.Packet? && writes != [] && writes[0] {
        NoEmptyPackets(s', mtu, writes[1..], flushed);
        var ps := SendFlight(s', mtu, writes[1..], flushed).1;
        assert ([p.records] + ps)[1..] == ps;
      }
    }
  }

  /** A pass needs no more packets than there is work: with that many successful
      writes and a successful flush the whole flight has been sent. */
  lemma PassTerminates(s: Sender, mtu: nat, writes: seq<bool>)
    requires Ready(s, mtu)
    requires |writes| >= Remaining(s) && forall k :: 0 <= k < |writes| ==> writes[k]
    ensures var (s', ps, r) := SendFlight(s, mtu, writes, true);
            r == AllSent || s'.overflowed
  {
    SendFlightSucceeds(s, mtu, writes, true);
    SendFlightTiles(s, mtu, writes, true);
    NoEmptyPackets(s, mtu, writes, true);
    var (s', ps, r) := SendFlight(s, mtu, writes, true);
    if r == Blocked {
      TilesDoWork(Flatten(ps), s.flight, s.written, s.offset, s'.written, s'.offset);
    }
  }

  // ---- Queueing ----

  /** What a flight that is complete leaves behind: nothing, and the cursor at the
      start. A message is refused iff a flight under way holds seven already; else it
      comes last, in the current epoch, behind a cursor that stays where it was. */
  lemma QueueingKeepsCursor(s: Sender, item: Item)
    requires CursorOk(s)
    ensures AddOutgoing(s, item).Some? <==> s.complete || |s.flight| < 7
    ensures AddOutgoing(s, item).Some? ==>
              var s' := AddOutgoing(s, item).value;
              && CursorOk(s') && !s'.complete
              && s'.flight == (if s.complete then [] else s.flight) + [Outgoing(item, s.epoch)]
              && (if s.complete then s'.written == 0 && s'.offset == 0 else s'.written == s.written && s'.offset == s.offset)
  {
  }

  /** So whatever is queued is sent: a pass that reports success after it has pieces of
      the new message, up to its end. */
  lemma QueuedIsSent(s: Sender, m: Item, mtu: nat, writes: seq<bool>)
    requires CursorOk(s) && m.Message? && AddOutgoing(s, m).Some? && DistinctSeqs(AddOutgoing(s, m).value.flight)
    ensures var (s', ps, r) := FlushFlight(AddOutgoing(s, m).value, mtu, writes, true);
            r == AllSent ==>
              && (forall j: nat :: j < |m.body| ==> CountCarrying(Flatten(ps), m.seqNum, j) == 1)
              && exists k :: 0 <= k < |Flatten(ps)| && Flatten(ps)[k].what.EmitFrag? && Flatten(ps)[k].what.f.seqNum == m.seqNum
  {
    QueueingKeepsCursor(s, m);
    var s1 := AddOutgoing(s, m).value;
    var i := |s1.flight| - 1;
    assert s1.flight[i].item == m;
    NewestIsUnsent(s, m);
    SendFlightTiles(s1.(complete := true), mtu, writes, true);
    var (s', ps, r) := SendFlight(s1.(complete := true), mtu, writes, true);
    hide SendFlight, Tiles, AddOutgoing, CursorOk;
    if r == AllSent {
      forall j: nat | j < |m.body| ensures CountCarrying(Flatten(ps), m.seqNum, j) == 1 {
        EachByteOnce(Flatten(ps), s1.flight, s1.written, s1.offset, s'.written, s'.offset, i, j);
      }
      var k := MessageAppearsFrom(Flatten(ps), s1.flight, s1.written, s1.offset, s'.written, s'.offset, i);
    }
  }

  lemma NewestIsUnsent(s: Sender, m: Item)
    requires CursorOk(s) && AddOutgoing(s, m).Some?
    ensures var s1 := AddOutgoing(s, m).value;
            s1.written < |s1.flight| && (s1.written == |s1.flight| - 1 ==> s1.offset == 0)
  {
  }

  /** A flush closes the flight, so that the next message begins a new one, and a
      retransmission leaves that as it is; neither changes what is queued. */
  lemma {:induction false} FlushCloses(s: Sender, mtu: nat, writes: seq<bool>, flushed: bool)
    ensures FlushFlight(s, mtu, writes, flushed).0.complete
    ensures Retransmit(s, mtu, writes, flushed).0.complete == s.complete
    ensures FlushFlight(s, mtu, writes, flushed).0.flight == Retransmit(s, mtu, writes, flushed).0.flight == s.flight
  {
    SendKeepsQueue(s.(complete := true), mtu, writes, flushed);
    SendKeepsQueue(s.(written := 0, offset := 0), mtu, writes, flushed);
    hide SendFlight;
  }

  lemma {:induction false} SendKeepsQueue(s: Sender, mtu: nat, writes: seq<bool>, flushed: bool)
    ensures var s' := SendFlight(s, mtu, writes, flushed).0; s'.complete == s.complete && s'.flight == s.flight
    decreases |writes|
  {
    if s.written < |s.flight| {
      PacketKeepsQueue(s, mtu, false);
      var (s', p) := SealPacket(s, mtu, false);
      hide SealPacket;
      if p.Packet? && writes != [] && writes[0] { SendKeepsQueue(s', mtu, writes[1..], flushed); }
    }
  }

  lemma {:induction false} PacketKeepsQueue(s: Sender, maxOut: nat, progress: bool)
    ensures var s' := SealPacket(s, maxOut, progress).0; s'.complete == s.complete && s'.flight == s.flight
    decreases |s.flight| - s.written
  {
    hide SealMessage;
    SealPacketUnfolds(s, maxOut, progress);
    if s.written < |s.flight| && SealMessage(s, maxOut).1.Whole? {
      var (s', r) := SealMessage(s, maxOut);
      PacketKeepsQueue(s'.(written := s.written + 1), maxOut - r.rec.wireLen, true);
    }
  }
}
