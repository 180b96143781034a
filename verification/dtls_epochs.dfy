// Which key each record of a flight is sealed with: the one of the epoch in which its
// message was queued, however often the flight is cut and resent across a change of
// epoch; and how full the packets are.
module DtlsEpochs {
  import opened Basics
  import opened Reassembly
  import opened HandshakeWire
  import opened DtlsSendModel
  import opened DtlsFlight

  /** The write ciphers at hand: those of epoch `now` and of the one before. */
  datatype Keys = Keys(now: nat, current: Aead, previous: Aead) {
    function For(epoch: nat): Aead {
      if epoch == now then current else previous
    }
  }

  function KeysOf(s: Sender): Keys {
    Keys(s.epoch, s.aead, s.aeadPrev)
  }

  /** The record has the epoch in which its item was queued, one of the two at hand,
      and the length that the cipher of that epoch gives it. */
  ghost predicate SealedFor(rec: Sealed, o: Outgoing, keys: Keys) {
    && (o.epoch == keys.now || o.epoch + 1 == keys.now)
    && rec.nonce.epoch == o.epoch
    && rec.wireLen == 13 + keys.For(o.epoch).ciphertextLen(if rec.what.EmitCcs? then 1 else 12 + |rec.what.f.body|)
  }

  /** All the records from cursor (w, o) on are. */
  ghost predicate AllSealedFor(recs: seq<Sealed>, flight: seq<Outgoing>, w: nat, o: nat, keys: Keys)
    decreases |recs|
  {
    recs == [] ||
    (w < |flight| && SealedFor(recs[0], flight[w], keys) &&
     if EndsItem(recs[0].what, flight[w].item, o) then AllSealedFor(recs[1..], flight, w + 1, 0, keys)
     else recs[0].what.EmitFrag? && AllSealedFor(recs[1..], flight, w, o + |recs[0].what.f.body|, keys))
  }

  lemma {:induction false} SealedAppend(a: seq<Sealed>, b: seq<Sealed>, flight: seq<Outgoing>,
                                        w: nat, o: nat, w1: nat, o1: nat, keys: Keys)
    requires Tiles(a, flight, w, o, w1, o1)
    requires AllSealedFor(a, flight, w, o, keys) && AllSealedFor(b, flight, w1, o1, keys)
    ensures AllSealedFor(a + b, flight, w, o, keys)
    decreases |a|
  {
    hide SealedFor;
    if a == [] {
      assert a + b == b;
    } else {
      assert (a + b)[0] == a[0] && (a + b)[1..] == a[1..] + b;
      if EndsItem(a[0].what, flight[w].item, o) {
        SealedAppend(a[1..], b, flight, w + 1, 0, w1, o1, keys);
      } else {
        SealedAppend(a[1..], b, flight, w, o + |a[0].what.f.body|, w1, o1, keys);
      }
    }
  }

  lemma RecordSealedFor(s: Sender, o: Outgoing, what: Emitted, maxOut: nat)
    requires o.epoch == s.epoch || UsesPrevious(s, o)
    ensures var (s', r) := SealRecord(s, UsesPrevious(s, o), what, maxOut);
            KeysOf(s') == KeysOf(s) && (r.Some? ==> SealedFor(r.value, o, KeysOf(s)) && r.value.what == what)
  {
  }

  lemma MessageSealedFor(s: Sender, maxOut: nat)
    requires CursorOk(s) && s.written < |s.flight|
    ensures var (s', r) := SealMessage(s, maxOut);
            KeysOf(s') == KeysOf(s) && (r.Whole? || r.Partial? ==> SealedFor(r.rec, s.flight[s.written], KeysOf(s)))
  {
    var o := s.flight[s.written];
    if o.epoch == s.epoch || UsesPrevious(s, o) {
      RecordSealedFor(s, o, EmitCcs, maxOut);
      if o.item.Message? && s.offset <= |o.item.body| { FragmentSealedFor(s, o, maxOut); }
    }
    hide SealRecord, SealFragment, SealedFor, CursorOk;
  }

  lemma FragmentSealedFor(s: Sender, o: Outgoing, maxOut: nat)
    requires (o.epoch == s.epoch || UsesPrevious(s, o)) && o.item.Message? && s.offset <= |o.item.body|
    ensures var (s', r) := SealFragment(s, o, maxOut);
            KeysOf(s') == KeysOf(s) && (r.Whole? || r.Partial? ==> SealedFor(r.rec, o, KeysOf(s)))
  {
    var overhead := RECORD_HEADER + AeadFor(s, o).maxOverhead;
    if maxOut >= HEADER_LENGTH + overhead {
      var todo := Todo(|o.item.body| - s.offset, maxOut, overhead);
      RecordSealedFor(s, o, EmitFrag(DtlsSendModel.Piece(o.item, s.offset, todo)), maxOut);
    }
    hide SealRecord, SealedFor;
  }

  lemma OneSealed(rec: Sealed, flight: seq<Outgoing>, w: nat, o: nat, w1: nat, o1: nat, keys: Keys)
    requires Tiles([rec], flight, w, o, w1, o1) && SealedFor(rec, flight[w], keys)
    ensures AllSealedFor([rec], flight, w, o, keys)
  {
    hide SealedFor;
    assert [rec][1..] == [];
  }

  lemma NoneSealed(flight: seq<Outgoing>, w: nat, o: nat, keys: Keys)
    ensures AllSealedFor([], flight, w, o, keys)
  {
  }

  lemma {:induction false} PacketSealedFor(s: Sender, maxOut: nat, progress: bool)
    requires CursorOk(s)
    ensures var (s', p) := SealPacket(s, maxOut, progress);
            p.Packet? ==> KeysOf(s') == KeysOf(s) && AllSealedFor(p.records, s.flight, s.written, s.offset, KeysOf(s))
    decreases |s.flight| - s.written
  {
    hide *;
    NoneSealed(s.flight, s.written, s.offset, KeysOf(s));
    SealPacketUnfolds(s, maxOut, progress);
    if s.written >= |s.flight| {
      return;
    }
    SealMessageTiles(s, maxOut);
    MessageSealedFor(s, maxOut);
    var (s', r) := SealMessage(s, maxOut);
    if r.Partial? {
      OneSealed(r.rec, s.flight, s.written, s.offset, s.written, s'.offset, KeysOf(s));
    } else if r.Whole? {
      var s1 := s'.(written := s.written + 1);
      SameKeys(s', s1);
      PacketSealedFor(s1, maxOut - r.rec.wireLen, true);
      OneSealed(r.rec, s.flight, s.written, s.offset, s1.written, 0, KeysOf(s));
      var rest := SealPacket(s1, maxOut - r.rec.wireLen, true).1;
      if rest.Packet? { SealedAppend([r.rec], rest.records, s.flight, s.written, s.offset, s1.written, 0, KeysOf(s)); }
    }
  }

  lemma SameKeys(s: Sender, s': Sender)
    requires s' == s.(written := s'.written)
    ensures KeysOf(s') == KeysOf(s)
  {
  }

  /** The key theorem. Every record that a pass writes is sealed in the epoch in which
      its message was queued and with the cipher of that epoch. */
  lemma {:induction false} FlightSealedFor(s: Sender, mtu: nat, writes: seq<bool>, flushed: bool)
    requires CursorOk(s)
    ensures AllSealedFor(Flatten(SendFlight(s, mtu, writes, flushed).1), s.flight, s.written, s.offset, KeysOf(s))
    decreases |writes|
  {
    if s.written >= |s.flight| {
      return;
    }
    SealPacketTiles(s, mtu, false);
    PacketSealedFor(s, mtu, false);
    var (s', p) := SealPacket(s, mtu, false);
    hide SealPacket, CursorOk, AllSealedFor, Tiles;
    NoneSealed(s.flight, s.written, s.offset, KeysOf(s));
    if p.Packet? && writes != [] && writes[0] {
      FlightSealedFor(s', mtu, writes[1..], flushed);
      var ps := SendFlight(s', mtu, writes[1..], flushed).1;
      assert ([p.records] + ps)[1..] == ps;
      SealedAppend(p.records, Flatten(ps), s.flight, s.written, s.offset, s'.written, s'.offset, KeysOf(s));
    }
  }

  /** Said of single records: the fragment of a message has the message's epoch. */
  lemma {:induction false} FragmentHasItsEpoch(recs: seq<Sealed>, flight: seq<Outgoing>, w: nat, o: nat, w': nat, o': nat,
                                               keys: Keys, k: nat, i: nat)
    requires Tiles(recs, flight, w, o, w', o') && AllSealedFor(recs, flight, w, o, keys) && DistinctSeqs(flight)
    requires k < |recs| && recs[k].what.EmitFrag? && i < |flight|
    requires flight[i].item.Message? && flight[i].item.seqNum == recs[k].what.f.seqNum
    ensures SealedFor(recs[k], flight[i], keys)
    decreases |recs|
  {
    hide SealedFor;
    var item, what := flight[w].item, recs[0].what;
    if k > 0 {
      if EndsItem(what, item, o) {
        FragmentHasItsEpoch(recs[1..], flight, w + 1, 0, w', o', keys, k - 1, i);
      } else {
        FragmentHasItsEpoch(recs[1..], flight, w, o + |what.f.body|, w', o', keys, k - 1, i);
      }
    }
  }

  /** At an input: a message of epoch 0 that is sent after the change to epoch 1 takes
      the next number of epoch 0 and the length of its cipher. */
  lemma OldMessageOldEpoch(s: Sender)
    requires s.flight == [Outgoing(Message(16, 0, [5]), 0)] && s.written == 0 && s.offset == 0
    requires s.epoch == 1 && s.seqNow == 0 && s.seqPrev == 3
    requires s.aeadPrev.nonceLen == 8 && s.aeadPrev.maxOverhead == 24 && s.aeadPrev.ciphertextLen(13) == 37
    ensures SealMessage(s, 100).1 == Whole(Sealed(Nonce(0, 3), EmitFrag(Frag(16, 1, 0, 0, [5])), 50))
  {
    var body: seq<byte> := [5];
    assert body[0..1] == body;
  }

  // ---- Packets are full ----

  /** A packet ends at the end of the flight, or inside a message whose piece takes all
      the room the cipher leaves, or where not one more byte of the next item fits. */
  ghost predicate Full(s: Sender, records: seq<Sealed>, room: nat) {
    || s.written >= |s.flight|
    || (s.offset > 0 && records != [] && LastFills(s, records, room))
    || NothingMoreFits(s, room - PacketLen(records))
  }

  ghost predicate LastFills(s: Sender, records: seq<Sealed>, room: nat)
    requires records != [] && s.written < |s.flight|
  {
    var last := records[|records| - 1];
    var overhead := KeysOf(s).For(s.flight[s.written].epoch).maxOverhead;
    last.what.EmitFrag? && PacketLen(records[..|records| - 1]) + 13 + overhead + 12 + |last.what.f.body| == room
  }

  ghost predicate NothingMoreFits(s: Sender, left: int)
    requires s.written < |s.flight|
  {
    var o := s.flight[s.written];
    var a := KeysOf(s).For(o.epoch);
    if o.item.Ccs? then left < 13 + a.maxOverhead + 1
    else left < 13 + a.maxOverhead + 12 + 1 || left < 13 + a.nonceLen
  }

  lemma MessageFills(s: Sender, maxOut: nat)
    requires CursorOk(s) && s.written < |s.flight|
    ensures var (s', r) := SealMessage(s, maxOut);
            && (r.NoProgress? ==> NothingMoreFits(s, maxOut))
            && (r.Partial? ==> LastFills(s', [r.rec], maxOut) && s'.offset > 0)
  {
    assert forall rec: Sealed :: [rec][..0] == [];
  }

  lemma {:induction false} PacketsAreFull(s: Sender, maxOut: nat, progress: bool)
    requires CursorOk(s)
    ensures var (s', p) := SealPacket(s, maxOut, progress);
            p.Packet? ==> Full(s', p.records, maxOut)
    decreases |s.flight| - s.written
  {
    hide *;
    SealPacketUnfolds(s, maxOut, progress);
    if s.written >= |s.flight| {
      FullAtEnd(s, maxOut);
      return;
    }
    SealMessageTiles(s, maxOut);
    MessageFills(s, maxOut);
    var (s', r) := SealMessage(s, maxOut);
    if r.NoProgress? {
      FullNow(s, maxOut);
    } else if r.Partial? {
      FullPartial(s', [r.rec], maxOut);
    } else if r.Whole? {
      var s1 := s'.(written := s.written + 1);
      PacketsAreFull(s1, maxOut - r.rec.wireLen, true);
      var (s2, rest) := SealPacket(s1, maxOut - r.rec.wireLen, true);
      if rest.Packet? { FullPrepend(s2, r.rec, rest.records, maxOut); }
    }
  }

  lemma FullAtEnd(s: Sender, room: nat)
    requires s.written >= |s.flight|
    ensures Full(s, [], room)
  {
  }

  lemma FullNow(s: Sender, room: nat)
    requires s.written < |s.flight| && NothingMoreFits(s, room)
    ensures Full(s, [], room)
  {
  }

  lemma FullPartial(s: Sender, records: seq<Sealed>, room: nat)
    requires s.written < |s.flight| && s.offset > 0 && records != [] && LastFills(s, records, room)
    ensures Full(s, records, room)
  {
  }

  lemma FullPrepend(s: Sender, rec: Sealed, rest: seq<Sealed>, room: nat)
    requires rec.wireLen <= room && Full(s, rest, room - rec.wireLen)
    ensures Full(s, [rec] + rest, room)
  {
    assert ([rec] + rest)[1..] == rest;
    if rest != [] {
      var all := [rec] + rest;
      assert all[..|all| - 1] == [rec] + rest[..|rest| - 1];
      assert all[..|all| - 1][1..] == rest[..|rest| - 1];
    }
  }
}
