// Which records the receiver takes in, over every run and in every epoch, and what
// has to arrive for a flight to be received.
module DtlsDelivery {
  import opened Words
  import opened HandshakeWire
  import opened ReplayWindow
  import opened DtlsReceiveModel
  import opened DtlsSendModel
  import opened DtlsFlight
  import opened DtlsSystem
  import opened DtlsCompleteness

  // ---- Records over a run ----

  /** A record that is to be taken in, `seen` being the numbers taken in so far in this
      epoch: of this epoch, not taken in before, less than 64 behind any other, and
      authentic unless the cipher is null. */
  predicate Expected(epoch: nat, seen: seq<nat>, rec: Record) {
    && rec.epoch == epoch
    && rec.FullSeq() !in seen
    && (forall n :: n in seen ==> n < rec.FullSeq() + 64)
    && (epoch == 0 || rec.authentic)
  }

  /** The numbers taken in after one more operation, nothing but the headers, the
      lengths and the changes of epoch being looked at. */
  function Noted(st: State, seen: seq<nat>, op: Op): seq<nat>
    requires |st.slots| == FLIGHT
  {
    match op
    case OpenRecord(rec, _) => NotedRecord(st, seen, rec)
    case OpenChangeCipherSpec(rec, _) => if st.hasCcs then seen else NotedRecord(st, seen, rec)
    case SetReadState => if HasUnprocessed(st) then seen else []
    case _ => seen
  }

  function NotedRecord(st: State, seen: seq<nat>, rec: Record): seq<nat> {
    if Expected(st.epoch, seen, rec) && |rec.payload| <= 16384 then seen + [rec.FullSeq()] else seen
  }

  /** The state after a run, and the numbers taken in since the epoch began. */
  function Follow(st: State, seen: seq<nat>, ops: seq<Op>): (r: (State, seq<nat>))
    requires |st.slots| == FLIGHT
    ensures |r.0.slots| == FLIGHT
    decreases |ops|
  {
    if ops == [] then (st, seen) else Follow(Apply(st, ops[0]), Noted(st, seen, ops[0]), ops[1..])
  }

  ghost predicate Remembers(st: State, seen: seq<nat>) {
    Exact(st.window, Elements(seen))
  }

  lemma ExpectedExactly(st: State, seen: seq<nat>, rec: Record)
    requires Remembers(st, seen)
    ensures Dropped(st, rec) <==> !Expected(st.epoch, seen, rec)
  {
    var w, n := st.window, rec.FullSeq();
    if n <= w.maxSeq && w.maxSeq - n < WORD {
      var i: nat := w.maxSeq - n;
      assert Bit(w.bits, i) <==> w.maxSeq - i in Elements(seen);
    }
    if w.maxSeq != 0 { assert w.maxSeq in Elements(seen); }
    forall m | m in seen ensures m <= w.maxSeq { assert m in Elements(seen); }
    assert n in seen <==> n in Elements(seen);
  }

  lemma OpenRemembers(st: State, seen: seq<nat>, rec: Record, maxLen: nat)
    requires |st.slots| == FLIGHT && Remembers(st, seen)
    ensures Remembers(Open(st, rec, maxLen).0, NotedRecord(st, seen, rec))
    ensures Open(st, rec, maxLen).0.epoch == st.epoch
  {
    ExpectedExactly(st, seen, rec);
    OpenWindow(st, rec, maxLen);
    RecordedIsExact(st.window, Elements(seen), rec.FullSeq());
    assert Elements(seen + [rec.FullSeq()]) == Elements(seen) + {rec.FullSeq()};
    hide Exact, Dropped, Expected, Recorded, Open;
  }

  lemma OpenWindow(st: State, rec: Record, maxLen: nat)
    requires |st.slots| == FLIGHT
    ensures var st' := Open(st, rec, maxLen).0;
            && st'.epoch == st.epoch
            && st'.window == if Dropped(st, rec) || |rec.payload| > 16384 then st.window else Recorded(st.window, rec.FullSeq())
  {
    PayloadTouchesSlotsOnly(st.(window := Recorded(st.window, rec.FullSeq())), rec.payload, maxLen);
    hide AcceptPayload, Dropped, Recorded;
  }

  lemma ApplyRemembers(st: State, seen: seq<nat>, op: Op)
    requires |st.slots| == FLIGHT && Remembers(st, seen)
    ensures Remembers(Apply(st, op), Noted(st, seen, op))
  {
    hide Exact, Open, NotedRecord, HasUnprocessed;
    match op
    case OpenRecord(rec, maxLen) => OpenRemembers(st, seen, rec, maxLen);
    case OpenChangeCipherSpec(rec, maxLen) => OpenRemembers(st, seen, rec, maxLen);
    case GetMessage =>
    case NextMessage =>
    case SetReadState => NothingSeen();
  }

  lemma NothingSeen()
    ensures Exact(Cleared, Elements([]))
  {
    ClearedIsExact();
    assert Elements([]) == {};
  }

  lemma {:induction false} FollowRemembers(st: State, seen: seq<nat>, ops: seq<Op>)
    requires |st.slots| == FLIGHT && Remembers(st, seen)
    ensures Remembers(Follow(st, seen, ops).0, Follow(st, seen, ops).1)
    decreases |ops|
  {
    hide Apply, Noted, Remembers;
    if ops != [] {
      ApplyRemembers(st, seen, ops[0]);
      FollowRemembers(Apply(st, ops[0]), Noted(st, seen, ops[0]), ops[1..]);
    }
  }

  /** Taking a record in changes the window. */
  lemma WindowMoves(w: Window, seen: set<nat>, n: nat)
    requires Exact(w, seen) && n !in seen && w.maxSeq < n + WORD
    ensures Recorded(w, n) != w
  {
    RecordedIsExact(w, seen, n);
    var i := w.maxSeq - n;
    assert 0 <= i < WORD ==> (Bit(w.bits, i) <==> w.maxSeq - i in seen);
  }

  /** Over every run, through any number of epochs, a record is discarded as a record
      iff its epoch is not the current one, or its number was taken in before or is 64
      or more behind another, or a cipher is in place and it does not authenticate. */
  lemma DiscardedExactlyInRuns(ops: seq<Op>, rec: Record, maxLen: nat)
    ensures var (st, seen) := Follow(Initial, [], ops);
            Open(st, rec, maxLen) == (st, Discard) <==>
              || rec.epoch != st.epoch || rec.FullSeq() in seen
              || (exists n :: n in seen && n >= rec.FullSeq() + 64)
              || (st.epoch >= 1 && !rec.authentic)
  {
    NothingSeen();
    FollowRemembers(Initial, [], ops);
    var (st, seen) := Follow(Initial, [], ops);
    DiscardedWhenRemembered(st, seen, rec, maxLen);
  }

  lemma DiscardedWhenRemembered(st: State, seen: seq<nat>, rec: Record, maxLen: nat)
    requires |st.slots| == FLIGHT && Remembers(st, seen)
    ensures Open(st, rec, maxLen) == (st, Discard) <==> !Expected(st.epoch, seen, rec)
  {
    ExpectedExactly(st, seen, rec);
    OpenWindow(st, rec, maxLen);
    if Expected(st.epoch, seen, rec) && |rec.payload| <= 16384 {
      var n := rec.FullSeq();
      assert n !in Elements(seen);
      if st.window.maxSeq != 0 { assert st.window.maxSeq in Elements(seen); }
      WindowMoves(st.window, Elements(seen), n);
    }
    hide Exact, Recorded, ByContent, Elements;
  }

  /** What becomes of a record that is taken in: too long a one is an error, and the
      others are handled by their content. */
  lemma TakenInByContent(st: State, seen: seq<nat>, rec: Record, maxLen: nat)
    requires |st.slots| == FLIGHT && Remembers(st, seen) && Expected(st.epoch, seen, rec)
    ensures var (st', r) := Open(st, rec, maxLen);
            var noted := st.(window := st'.window);
            if |rec.payload| > 16384 then (st', r) == (st, Error(RecordOverflow))
            else if rec.content == Handshake then (st', r) == AcceptPayload(noted, rec.payload, maxLen)
            else if rec.content == ChangeCipherSpec && st.epoch == 0 && rec.payload == [1] then
              (st', r) == (noted.(hasCcs := true), Success)
            else
              st' == noted && r == (if rec.content == AlertRecord then ReceivedAlert
                                    else if rec.content == ApplicationData && st.epoch > 0 then Discard
                                    else if rec.content == ChangeCipherSpec && st.epoch == 0 then Error(IllegalParameter)
                                    else Error(UnexpectedMessage))
  {
    ExpectedExactly(st, seen, rec);
    PayloadTouchesSlotsOnly(st.(window := Recorded(st.window, rec.FullSeq())), rec.payload, maxLen);
    hide AcceptPayload, Recorded, Dropped, Expected, Remembers;
  }

  // ---- What has to arrive ----

  /** What reaches the receiver: sealed records, and calls of its handshake. */
  datatype Input = Arrive(rec: Sealed) | TakeMessage | TakeCcs | ChangeEpoch

  function Step(st: State, seen: seq<nat>, input: Input, maxLen: nat): (r: (State, seq<nat>, Result))
    requires |st.slots| == FLIGHT && (input.Arrive? ==> Sendable(input.rec))
    ensures |r.0.slots| == FLIGHT
  {
    match input
    case Arrive(rec) =>
      var (st', r) := Open(st, OnWire(rec), maxLen);
      (st', NotedRecord(st, seen, OnWire(rec)), r)
    case TakeMessage => (if Current(st).Complete() then Next(st) else st, seen, Success)
    case TakeCcs => (st.(hasCcs := false), seen, Success)
    case ChangeEpoch => if HasUnprocessed(st) then (st, seen, Success) else (NextEpoch(st), [], Success)
  }

  predicate Sendable(rec: Sealed) {
    rec.what.EmitFrag? ==> rec.what.f.Encodable()
  }

  /** A run up to the first error. */
  function Process(st: State, seen: seq<nat>, inputs: seq<Input>, maxLen: nat): (r: (State, seq<nat>, bool))
    requires |st.slots| == FLIGHT && forall k :: 0 <= k < |inputs| && inputs[k].Arrive? ==> Sendable(inputs[k].rec)
    ensures |r.0.slots| == FLIGHT
    decreases |inputs|
  {
    if inputs == [] then (st, seen, true)
    else
      var (st', seen', r) := Step(st, seen, inputs[0], maxLen);
      if r.Error? then (st', seen', false) else Process(st', seen', inputs[1..], maxLen)
  }

  /** The fragments in records taken in, but for those too far ahead in their turn. */
  function Heard(st: State, seen: seq<nat>, inputs: seq<Input>, maxLen: nat): seq<Frag>
    requires |st.slots| == FLIGHT && forall k :: 0 <= k < |inputs| && inputs[k].Arrive? ==> Sendable(inputs[k].rec)
    decreases |inputs|
  {
    if inputs == [] then []
    else
      var (st', seen', _) := Step(st, seen, inputs[0], maxLen);
      HeardNow(st, seen, inputs[0]) + Heard(st', seen', inputs[1..], maxLen)
  }

  function HeardNow(st: State, seen: seq<nat>, input: Input): seq<Frag>
    requires input.Arrive? ==> Sendable(input.rec)
  {
    if input.Arrive? && input.rec.what.EmitFrag? && Expected(st.epoch, seen, OnWire(input.rec))
       && input.rec.what.f.seqNum < st.readSeq + FLIGHT
    then [input.rec.what.f] else []
  }

  /** No error comes of it: dropped as a record, or of acceptable length and content. */
  predicate Fine(st: State, seen: seq<nat>, input: Input, maxLen: nat)
    requires input.Arrive? ==> Sendable(input.rec)
  {
    input.Arrive? && Expected(st.epoch, seen, OnWire(input.rec)) ==>
      match input.rec.what
      case EmitCcs => st.epoch == 0
      case EmitFrag(f) => 12 + |f.body| <= 16384 && Acceptable(st, f, maxLen)
  }

  predicate AllFine(st: State, seen: seq<nat>, inputs: seq<Input>, maxLen: nat)
    requires |st.slots| == FLIGHT && forall k :: 0 <= k < |inputs| && inputs[k].Arrive? ==> Sendable(inputs[k].rec)
    decreases |inputs|
  {
    inputs == [] ||
    (Fine(st, seen, inputs[0], maxLen) &&
     var (st', seen', _) := Step(st, seen, inputs[0], maxLen);
     AllFine(st', seen', inputs[1..], maxLen))
  }

  ghost predicate GenuineInput(input: Input, queued: seq<Msg>) {
    input.Arrive? && input.rec.what.EmitFrag? ==> Genuine(input.rec.what.f, queued)
  }

  lemma GenuineIsSendable(input: Input, queued: seq<Msg>)
    requires GenuineInput(input, queued) && Queueable(queued)
    ensures input.Arrive? ==> Sendable(input.rec)
  {
    if input.Arrive? && input.rec.what.EmitFrag? { assert |queued[input.rec.what.f.seqNum].body| < U24; }
  }

  /** The window, the flags and the epoch are no matter for what is reassembled. */
  lemma OnlySlotsMatter(st: State, st': State, queued: seq<Msg>)
    requires ReceiverOk(st, queued) && st'.slots == st.slots && st'.readSeq == st.readSeq && st'.hasMessage == st.hasMessage
    ensures ReceiverOk(st', queued) && forall g: Frag :: Covered(st, g) ==> Covered(st', g)
  {
    forall i | 0 <= i < FLIGHT ensures Honest(st'.slots[i], queued) { assert Honest(st.slots[i], queued); }
  }

  /** What one input keeps and brings. */
  ghost predicate Brings(st: State, seen: seq<nat>, input: Input, queued: seq<Msg>, st': State, seen': seq<nat>)
    requires |st.slots| == FLIGHT == |st'.slots| && (input.Arrive? ==> Sendable(input.rec))
  {
    && ReceiverOk(st', queued) && Remembers(st', seen') && st.readSeq <= st'.readSeq
    && (forall g: Frag :: Covered(st, g) ==> Covered(st', g))
    && forall f :: f in HeardNow(st, seen, input) ==> Covered(st', f)
  }

  lemma FragmentArrives(st: State, seen: seq<nat>, rec: Sealed, maxLen: nat, queued: seq<Msg>)
    requires ReceiverOk(st, queued) && Queueable(queued) && Remembers(st, seen)
    requires rec.what.EmitFrag? && Genuine(rec.what.f, queued) && Sendable(rec)
    requires Expected(st.epoch, seen, OnWire(rec)) && 12 + |rec.what.f.body| <= 16384
    ensures var (st', r) := Open(st, OnWire(rec), maxLen);
            && (r == Success <==> Acceptable(st, rec.what.f, maxLen)) && (r.Success? || r.Error?)
            && ReceiverOk(st', queued) && st'.readSeq == st.readSeq
            && (forall g: Frag :: Covered(st, g) ==> Covered(st', g))
            && (r == Success && rec.what.f.seqNum < st.readSeq + FLIGHT ==> Covered(st', rec.what.f))
  {
    hide *;
    WireOfFragment(rec);
    SlotCountOf(st, queued);
    TakenInByContent(st, seen, OnWire(rec), maxLen);
    var st' := Open(st, OnWire(rec), maxLen).0;
    var noted := st.(window := st'.window);
    OnePieceRecord(noted, rec.what.f, maxLen);
    OnlySlotsMatter(st, noted, queued);
    FragmentKeepsReceiver(noted, rec.what.f, maxLen, queued);
    SameAcceptable(st, noted, rec.what.f, maxLen);
    NeverDiscards(noted, rec.what.f, maxLen);
  }

  lemma WireOfFragment(rec: Sealed)
    requires rec.what.EmitFrag? && Sendable(rec)
    ensures OnWire(rec).content == Handshake && OnWire(rec).payload == Serialize(rec.what.f)
    ensures rec.what.f.Encodable() && |Serialize(rec.what.f)| == 12 + |rec.what.f.body|
  {
  }

  lemma SlotCountOf(st: State, queued: seq<Msg>)
    requires ReceiverOk(st, queued)
    ensures |st.slots| == FLIGHT
  {
  }

  lemma SameAcceptable(st: State, st': State, f: Frag, maxLen: nat)
    requires st' == st.(window := st'.window)
    ensures Acceptable(st, f, maxLen) == Acceptable(st', f, maxLen)
  {
  }

  lemma NeverDiscards(st: State, f: Frag, maxLen: nat)
    requires |st.slots| == FLIGHT
    ensures AcceptFrag(st, f, maxLen).1.Success? || AcceptFrag(st, f, maxLen).1.Error?
  {
  }

  lemma UnexpectedArrives(st: State, seen: seq<nat>, rec: Sealed, maxLen: nat)
    requires |st.slots| == FLIGHT && Remembers(st, seen) && Sendable(rec) && !Expected(st.epoch, seen, OnWire(rec))
    ensures Open(st, OnWire(rec), maxLen) == (st, Discard)
  {
    DiscardedWhenRemembered(st, seen, OnWire(rec), maxLen);
    hide Remembers, Expected, Open;
  }

  lemma CcsArrivesHere(st: State, seen: seq<nat>, rec: Sealed, maxLen: nat)
    requires |st.slots| == FLIGHT && Remembers(st, seen) && rec.what.EmitCcs? && Expected(st.epoch, seen, OnWire(rec))
    ensures var (st', r) := Open(st, OnWire(rec), maxLen);
            st' == st.(window := st'.window, hasCcs := st'.hasCcs) && (r.Error? <==> st.epoch != 0)
  {
    TakenInByContent(st, seen, OnWire(rec), maxLen);
    hide Remembers, Expected, Open;
  }

  lemma LongArrives(st: State, seen: seq<nat>, rec: Sealed, maxLen: nat)
    requires |st.slots| == FLIGHT && Remembers(st, seen) && Sendable(rec) && Expected(st.epoch, seen, OnWire(rec))
    requires rec.what.EmitFrag? && 12 + |rec.what.f.body| > 16384
    ensures Open(st, OnWire(rec), maxLen) == (st, Error(RecordOverflow))
  {
    WireOfFragment(rec);
    TakenInByContent(st, seen, OnWire(rec), maxLen);
    hide Remembers, Expected, Open;
  }

  lemma RecordBrings(st: State, seen: seq<nat>, rec: Sealed, maxLen: nat, queued: seq<Msg>)
    requires ReceiverOk(st, queued) && Queueable(queued) && Remembers(st, seen)
    requires Sendable(rec) && (rec.what.EmitFrag? ==> Genuine(rec.what.f, queued))
    ensures |st.slots| == FLIGHT
    ensures var (st', r) := Open(st, OnWire(rec), maxLen);
            && (r.Error? <==> !Fine(st, seen, Arrive(rec), maxLen))
            && (!r.Error? ==> Brings(st, seen, Arrive(rec), queued, st', NotedRecord(st, seen, OnWire(rec))))
  {
    SlotCountOf(st, queued);
    OpenRemembers(st, seen, OnWire(rec), maxLen);
    var st' := Open(st, OnWire(rec), maxLen).0;
    hide ReceiverOk, Queueable, Remembers, Expected, Covered, Genuine, OnWire, Open, Acceptable, NotedRecord, Sendable;
    if !Expected(st.epoch, seen, OnWire(rec)) {
      UnexpectedArrives(st, seen, rec, maxLen);
    } else if rec.what.EmitCcs? {
      CcsArrivesHere(st, seen, rec, maxLen);
      CcsKeeps(st, st', queued);
    } else if 12 + |rec.what.f.body| > 16384 {
      LongArrives(st, seen, rec, maxLen);
    } else {
      FragmentArrives(st, seen, rec, maxLen, queued);
    }
  }

  lemma CcsKeeps(st: State, st': State, queued: seq<Msg>)
    requires ReceiverOk(st, queued) && st' == st.(window := st'.window, hasCcs := st'.hasCcs)
    ensures ReceiverOk(st', queued) && forall g: Frag :: Covered(st, g) ==> Covered(st', g)
  {
    OnlySlotsMatter(st, st', queued);
  }

  lemma InputBrings(st: State, seen: seq<nat>, input: Input, maxLen: nat, queued: seq<Msg>)
    requires ReceiverOk(st, queued) && Queueable(queued) && Remembers(st, seen)
    requires (input.Arrive? ==> Sendable(input.rec)) && GenuineInput(input, queued)
    ensures |st.slots| == FLIGHT
    ensures var (st', seen', r) := Step(st, seen, input, maxLen);
            && (r.Error? <==> !Fine(st, seen, input, maxLen))
            && (!r.Error? ==> Brings(st, seen, input, queued, st', seen'))
  {
    SlotCountOf(st, queued);
    hide Open, Queueable, Genuine, NotedRecord, Current, Next;
    match input
    case Arrive(rec) =>
      hide ReceiverOk, Remembers, Covered, Brings, Fine;
      RecordBrings(st, seen, rec, maxLen, queued);
    case TakeMessage =>
      hide ReceiverOk, Covered;
      if Current(st).Complete() { TakeKeepsReceiver(st, queued); SameWindow(st); }
    case TakeCcs =>
      OnlySlotsMatter(st, st.(hasCcs := false), queued);
    case ChangeEpoch =>
      OnlySlotsMatter(st, NextEpoch(st), queued);
      NothingSeen();
  }

  lemma SameWindow(st: State)
    requires |st.slots| == FLIGHT
    ensures Next(st).window == st.window
  {
  }

  /** Over all inputs, in any epochs: an error arises iff some record that was taken in
      was not acceptable in its turn; if none does, every fragment heard is covered. */
  lemma {:induction false} RecordsCover(st: State, seen: seq<nat>, inputs: seq<Input>, maxLen: nat, queued: seq<Msg>)
    requires ReceiverOk(st, queued) && Queueable(queued) && Remembers(st, seen)
    requires forall k :: 0 <= k < |inputs| ==> GenuineInput(inputs[k], queued)
    requires forall k :: 0 <= k < |inputs| && inputs[k].Arrive? ==> Sendable(inputs[k].rec)
    ensures |st.slots| == FLIGHT
    ensures var (st', seen', ok) := Process(st, seen, inputs, maxLen);
            && (ok <==> AllFine(st, seen, inputs, maxLen))
            && (ok ==>
                  && ReceiverOk(st', queued) && st.readSeq <= st'.readSeq
                  && (forall g: Frag :: Covered(st, g) ==> Covered(st', g))
                  && forall f :: f in Heard(st, seen, inputs, maxLen) ==> Covered(st', f))
    decreases |inputs|
  {
    SlotCountOf(st, queued);
    hide ReceiverOk, Queueable, Remembers, GenuineInput, Sendable, Covered, Step, Fine, HeardNow;
    if inputs != [] {
      InputBrings(st, seen, inputs[0], maxLen, queued);
      var (st', seen', r) := Step(st, seen, inputs[0], maxLen);
      var rest := inputs[1..];
      assert forall k :: 0 <= k < |rest| ==> rest[k] == inputs[k + 1];
      if !r.Error? { RecordsCover(st', seen', rest, maxLen, queued); }
    }
  }

  /** Completeness of retransmission, over records and in any epochs. Let the sender
      resend its whole flight under any MTU, and let the receiver, in whatever honest
      state it is, take in at least the records of that pass, each in its epoch,
      mixed with others, replays and reordering, its handshake taking messages and
      changing the epoch in between. Then an error arises iff some record was not
      acceptable in its turn, and if none does, every message of the flight has been
      taken or is complete with the type and body that were queued. */
  lemma {:induction false} FlightIsReceived(sys: System, mtu: nat, writes: seq<bool>, flushed: bool,
                                            st: State, seen: seq<nat>, inputs: seq<Input>, maxLen: nat)
    requires Inv(sys) && ReceiverOk(st, sys.queued) && Remembers(st, seen)
    requires forall k :: 0 <= k < |inputs| ==> GenuineInput(inputs[k], sys.queued)
    requires forall k :: 0 <= k < |inputs| && inputs[k].Arrive? ==> Sendable(inputs[k].rec)
    requires Retransmit(sys.tx, mtu, writes, flushed).2 == AllSent
    requires |st.slots| == FLIGHT && AllHeard(Flatten(Retransmit(sys.tx, mtu, writes, flushed).1), Heard(st, seen, inputs, maxLen))
    ensures var (st', _, ok) := Process(st, seen, inputs, maxLen);
            && (ok <==> AllFine(st, seen, inputs, maxLen))
            && (ok ==> FlightReceived(sys.tx.flight, st'))
  {
    RecordsCover(st, seen, inputs, maxLen, sys.queued);
    var st' := Process(st, seen, inputs, maxLen).0;
    hide Inv, Process, Heard, AllFine, ReceiverOk, Covered, GenuineInput, Retransmit;
    if Process(st, seen, inputs, maxLen).2 {
      CoveredIsReceived(sys, mtu, writes, flushed, st', Heard(st, seen, inputs, maxLen));
    }
  }
}
