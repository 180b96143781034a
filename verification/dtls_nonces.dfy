// No two records are sealed under the same epoch and sequence number (section
// 4.1 of RFC 6347), even while a flight that spans two epochs is retransmitted
// with the saved counter of the previous epoch.
module DtlsNonces {
  import opened Reassembly
  import opened HandshakeWire
  import opened DtlsReceiveModel
  import opened DtlsSendModel

  ghost predicate Distinct(used: seq<Nonce>) {
    forall i, j :: 0 <= i < j < |used| ==> used[i] != used[j]
  }

  /** Both counters are past every number used in their epoch. */
  ghost predicate CountersAhead(used: seq<Nonce>, epoch: nat, seqNow: nat, seqPrev: nat) {
    && seqNow < SEQ48 && seqPrev < SEQ48
    && forall i :: 0 <= i < |used| ==>
      && used[i].epoch <= epoch
      && (used[i].epoch == epoch ==> used[i].seqNum < seqNow)
      && (used[i].epoch + 1 == epoch ==> used[i].seqNum < seqPrev)
  }

  ghost predicate NoncesOk(s: Sender) {
    Distinct(s.used) && (s.overflowed || CountersAhead(s.used, s.epoch, s.seqNow, s.seqPrev))
  }

  lemma SealRecordNonces(s: Sender, previous: bool, what: Emitted, maxOut: nat)
    requires NoncesOk(s) && !s.overflowed
    ensures NoncesOk(SealRecord(s, previous, what, maxOut).0)
    ensures SealRecord(s, previous, what, maxOut).1.Some? ==> !SealRecord(s, previous, what, maxOut).0.overflowed
  {
  }

  /** The nonce of a sealed record was never used before. */
  lemma SealIsFresh(s: Sender, previous: bool, what: Emitted, maxOut: nat)
    ensures NoncesOk(s) && !s.overflowed ==>
              var (s', r) := SealRecord(s, previous, what, maxOut);
              NoncesOk(s') && (r.Some? ==> !s'.overflowed && r.value.nonce !in s.used)
  {
    if NoncesOk(s) && !s.overflowed {
      SealRecordNonces(s, previous, what, maxOut);
    }
  }

  lemma OffsetIsNoCounter(s: Sender)
    ensures forall offset: nat :: NoncesOk(s) ==> NoncesOk(s.(offset := offset))
  {
  }

  lemma SealFragmentNonces(s: Sender, m: Outgoing, maxOut: nat)
    requires NoncesOk(s) && !s.overflowed && m.item.Message? && s.offset <= |m.item.body|
    ensures var (s', r) := SealFragment(s, m, maxOut);
            NoncesOk(s') && (!r.SealError? ==> !s'.overflowed)
  {
    hide SealRecord, Piece, NoncesOk, UsesPrevious, AeadFor, Emitted.Length, SameQueue;
    var overhead := RECORD_HEADER + AeadFor(s, m).maxOverhead;
    if maxOut < HEADER_LENGTH + 1 + overhead {
      return;
    }
    var todo := Todo(|m.item.body| - s.offset, maxOut, overhead);
    var what := EmitFrag(Piece(m.item, s.offset, todo));
    SealRecordNonces(s, UsesPrevious(s, m), what, maxOut);
    OffsetIsNoCounter(SealRecord(s, UsesPrevious(s, m), what, maxOut).0);
  }

  lemma SealMessageNonces(s: Sender, maxOut: nat)
    requires NoncesOk(s) && !s.overflowed && s.written < |s.flight|
    ensures var (s', r) := SealMessage(s, maxOut);
            NoncesOk(s') && (!r.SealError? ==> !s'.overflowed)
  {
    var m := s.flight[s.written];
    if m.item.Ccs? {
      SealRecordNonces(s, UsesPrevious(s, m), EmitCcs, maxOut);
    } else if s.offset <= |m.item.body| {
      SealFragmentNonces(s, m, maxOut);
    }
    hide SealRecord, SealFragment, NoncesOk;
  }

  lemma {:induction false} SealPacketNonces(s: Sender, maxOut: nat, progress: bool)
    requires NoncesOk(s) && !s.overflowed
    ensures var (s', p) := SealPacket(s, maxOut, progress);
            NoncesOk(s') && (p.Packet? ==> !s'.overflowed)
    decreases |s.flight| - s.written
  {
    hide *;
    SealPacketUnfolds(s, maxOut, progress);
    if s.written >= |s.flight| {
      return;
    }
    SealMessageNonces(s, maxOut);
    var (s', r) := SealMessage(s, maxOut);
    if r.Whole? {
      SealFits(s, maxOut);
      CursorIsNoCounter(s', s.written + 1);
      var s1 := s'.(written := s.written + 1);
      SealPacketNonces(s1, maxOut - r.rec.wireLen, true);
      assert SealPacket(s, maxOut, progress).0 == SealPacket(s1, maxOut - r.rec.wireLen, true).0;
    }
  }

  lemma CursorIsNoCounter(s: Sender, written: nat)
    ensures NoncesOk(s.(written := written)) == NoncesOk(s)
  {
    hide Distinct, CountersAhead;
  }

  lemma SealFits(s: Sender, maxOut: nat)
    requires s.written < |s.flight|
    ensures var (s', r) := SealMessage(s, maxOut);
            SameQueue(s, s') && s'.flight == s.flight && (r.Whole? ==> r.rec.wireLen <= maxOut)
  {
    hide SealCcs, SealFragment;
  }

  lemma {:induction false} SendFlightNonces(s: Sender, mtu: nat, writes: seq<bool>, flushed: bool)
    requires NoncesOk(s) && !s.overflowed
    ensures NoncesOk(SendFlight(s, mtu, writes, flushed).0)
    decreases |writes|
  {
    if s.written >= |s.flight| {
      return;
    }
    SealPacketNonces(s, mtu, false);
    var (s', p) := SealPacket(s, mtu, false);
    assert NoncesOk(s'.(written := s.written, offset := s.offset)) == NoncesOk(s');
    hide SealPacket, NoncesOk;
    if p.Packet? && writes != [] && writes[0] {
      SendFlightNonces(s', mtu, writes[1..], flushed);
    }
  }

  /** Everything that can make a DTLS endpoint seal, or move its counters. */
  datatype Op =
    | Queue(item: Item)
    | Flush(mtu: nat, writes: seq<bool>, flushed: bool)
    | Resend(mtu: nat, writes: seq<bool>, flushed: bool)
    | SealNow(what: Emitted, maxOut: nat)
    | NewEpoch(aead: Aead)

  function Apply(s: Sender, op: Op): Sender {
    match op
    case Queue(item) => var r := AddOutgoing(s, item); if r.Some? then r.value else s
    case Flush(mtu, writes, flushed) => FlushFlight(s, mtu, writes, flushed).0
    case Resend(mtu, writes, flushed) => Retransmit(s, mtu, writes, flushed).0
    case SealNow(what, maxOut) => SealRecord(s, false, what, maxOut).0
    case NewEpoch(aead) => NextWriteEpoch(s, aead)
  }

  function Run(s: Sender, ops: seq<Op>): Sender {
    if ops == [] then s else Apply(Run(s, ops[..|ops| - 1]), ops[|ops| - 1])
  }

  lemma ApplyNonces(s: Sender, op: Op)
    requires NoncesOk(s) && !s.overflowed
    requires op.NewEpoch? ==> s.epoch + 1 < U16
    ensures NoncesOk(Apply(s, op))
  {
    match op
    case Queue(item) =>
    case Flush(mtu, writes, flushed) => SendFlightNonces(s.(complete := true), mtu, writes, flushed);
    case Resend(mtu, writes, flushed) => SendFlightNonces(s.(written := 0, offset := 0), mtu, writes, flushed);
    case SealNow(what, maxOut) => SealRecordNonces(s, false, what, maxOut);
    case NewEpoch(aead) =>
  }

  /** Over every run up to and including the first counter overflow, and while the
      write epoch does not wrap, all (epoch, sequence number) pairs differ. */
  lemma {:induction false} NoncesNeverRepeat(s: Sender, ops: seq<Op>)
    requires s.used == [] && !s.overflowed && s.seqNow < SEQ48 && s.seqPrev < SEQ48
    requires forall k :: 0 <= k < |ops| ==> !Run(s, ops[..k]).overflowed
    requires forall k :: 0 <= k < |ops| && ops[k].NewEpoch? ==> Run(s, ops[..k]).epoch + 1 < U16
    ensures NoncesOk(Run(s, ops))
  {
    if ops != [] {
      var before := ops[..|ops| - 1];
      forall k | 0 <= k < |before| ensures before[..k] == ops[..k] {}
      NoncesNeverRepeat(s, before);
      assert !Run(s, ops[..|ops| - 1]).overflowed;
      ApplyNonces(Run(s, before), ops[|ops| - 1]);
    }
  }

  /** The overflow clause cannot go: after a counter wraps, the next seal of that
      epoch repeats the first number. */
  lemma OverflowRepeats(s: Sender, what: Emitted, maxOut: nat)
    requires s.seqNow == SEQ48 - 1 && Nonce(s.epoch, 0) in s.used
    requires RECORD_HEADER + s.aead.ciphertextLen(what.Length()) <= maxOut
    ensures SealRecord(s, false, what, maxOut).1.None?
    ensures var s1 := SealRecord(s, false, what, maxOut).0;
            !Distinct(SealRecord(s1, false, what, maxOut).0.used)
  {
    var s1 := SealRecord(s, false, what, maxOut).0;
    var used := SealRecord(s1, false, what, maxOut).0.used;
    var i :| 0 <= i < |s.used| && s.used[i] == Nonce(s.epoch, 0);
    assert used[i] == used[|used| - 1];
  }
}
