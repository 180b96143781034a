// What a forged record can do: nothing once a cipher is in place, and in epoch 0,
// under the null cipher, as much as the free room in the ring allows.
module DtlsForgery {
  import opened Basics
  import opened Reassembly
  import opened HandshakeWire
  import opened ReplayWindow
  import opened DtlsReceiveModel
  import opened DtlsSystem

  /** A record as its forger can make it: any header and any content, but not the
      seal of the AEAD. */
  function Forged(epoch: nat, seqNum: nat, content: ContentType, payload: seq<byte>): Record {
    Record(epoch, seqNum, content, payload, false)
  }

  /** A forgery is discarded, and then without effect, exactly when it is stopped. */
  lemma DiscardedExactly(st: State, rec: Record, maxLen: nat)
    requires |st.slots| == FLIGHT && !rec.authentic
    ensures Open(st, rec, maxLen).1 == Discard <==> Stopped(st, rec)
    ensures Stopped(st, rec) ==> Open(st, rec, maxLen).0 == st
  {
    if !Stopped(st, rec) && rec.content == Handshake {
      PayloadNeverDiscards(st.(window := Recorded(st.window, rec.FullSeq())), rec.payload, maxLen);
    }
    hide AcceptPayload, Discards;
  }

  lemma {:induction false} PayloadNeverDiscards(st: State, payload: seq<byte>, maxLen: nat)
    requires |st.slots| == FLIGHT
    ensures AcceptPayload(st, payload, maxLen).1 != Discard
    decreases |payload|
  {
    if payload != [] && Parse(payload).Some? {
      var (f, rest) := Parse(payload).value;
      var (st', r) := AcceptFrag(st, f, maxLen);
      if r == Success { PayloadNeverDiscards(st', rest, maxLen); }
    }
  }

  // ---- The free room ----

  /** Message `k` of the window can still take in bytes: its slot is vacant, or holds
      a message of acceptable length with a byte missing. */
  predicate Free(st: State, k: nat, maxLen: nat)
    requires |st.slots| == FLIGHT
  {
    var slot := st.slots[k % FLIGHT];
    st.readSeq <= k < st.readSeq + FLIGHT && k < U16
    && (slot.Held? ==> !slot.Complete() && |slot.body| <= maxLen)
  }

  lemma FullRingTakesNothing(st: State, f: Frag, maxLen: nat)
    requires RingOk(st) && f.seqNum < U16 && st.epoch == 0 && !Free(st, f.seqNum, maxLen)
    ensures AcceptFrag(st, f, maxLen).0 == st
  {
  }

  lemma {:induction false} FullRingIgnores(st: State, payload: seq<byte>, maxLen: nat)
    requires RingOk(st) && st.epoch == 0 && forall k: nat :: !Free(st, k, maxLen)
    ensures AcceptPayload(st, payload, maxLen).0 == st
    decreases |payload|
  {
    hide RingOk, Free, AcceptFrag;
    if payload != [] && Parse(payload).Some? {
      var (f, rest) := Parse(payload).value;
      FullRingTakesNothing(st, f, maxLen);
      if AcceptFrag(st, f, maxLen).1 == Success { FullRingIgnores(st, rest, maxLen); }
    }
  }

  lemma HarmlessWhenStoppedOrFull(st: State, queued: seq<Msg>, rec: Record, maxLen: nat)
    requires ReceiverOk(st, queued) && !rec.authentic
    requires Stopped(st, rec) || forall k: nat :: !Free(st, k, maxLen)
    ensures ReceiverOk(Open(st, rec, maxLen).0, queued)
  {
    if !Stopped(st, rec) {
      var w := st.(window := Recorded(st.window, rec.FullSeq()));
      forall k: nat ensures !Free(w, k, maxLen) { assert !Free(st, k, maxLen); }
      FullRingIgnores(w, rec.payload, maxLen);
    }
    hide AcceptPayload, Free, Discards, Recorded;
  }

  // ---- A forgery that does harm ----

  /** A fragment that spoils message `k`: a message of another type if its slot is
      vacant, and otherwise a wrong byte where one is missing. */
  lemma Spoiler(st: State, queued: seq<Msg>, k: nat, maxLen: nat) returns (f: Frag)
    requires ReceiverOk(st, queued) && Queueable(queued) && st.epoch == 0 && Free(st, k, maxLen)
    ensures f.Encodable() && f.seqNum == k && |f.body| <= 1
    ensures var (st', r) := AcceptFrag(st, f, maxLen);
            && r == Success && st'.readSeq == st.readSeq && !Honest(st'.slots[k % FLIGHT], queued)
            && (st.slots[k % FLIGHT].Vacant? ==> st'.slots[k % FLIGHT].Complete())
  {
    var slot := st.slots[k % FLIGHT];
    assert Honest(slot, queued);
    if slot.Vacant? {
      f := Frag(if k < |queued| && queued[k].typ == 1 then 2 else 1, 0, k, 0, []);
    } else {
      SlotHoldsThatMessage(st, Frag(0, 0, k, 0, []));
      assert slot.seqNum == k && slot.got <= Range(0, |slot.body|);
      assert exists j :: j in Range(0, |slot.body|) && j !in slot.got;
      var j: nat :| j in Range(0, |slot.body|) && j !in slot.got;
      f := Frag(slot.typ, |slot.body|, k, j, [if queued[k].body[j] == 1 then 2 else 1]);
      assert j in AddPiece(slot, f).got && AddPiece(slot, f).body[j] != queued[k].body[j];
    }
  }

  lemma OpenOneFragment(st: State, n: nat, f: Frag, maxLen: nat)
    requires |st.slots| == FLIGHT && f.Encodable() && |f.body| <= 1
    requires !Stopped(st, Forged(0, n, Handshake, Serialize(f)))
    ensures Open(st, Forged(0, n, Handshake, Serialize(f)), maxLen)
            == AcceptFrag(st.(window := Recorded(st.window, n)), f, maxLen)
  {
    OnePieceRecord(st.(window := Recorded(st.window, n)), f, maxLen);
    hide AcceptFrag, AcceptPayload, Discards, Recorded, Serialize;
  }

  /** The exact condition. A forger who may choose content and payload cannot hurt
      the receiver iff the record's header stops it or the ring has no free room. */
  lemma HarmlessExactly(st: State, queued: seq<Msg>, epoch: nat, n: nat, maxLen: nat)
    requires ReceiverOk(st, queued) && Queueable(queued)
    ensures (forall content, payload :: ReceiverOk(Open(st, Forged(epoch, n, content, payload), maxLen).0, queued))
            <==> Stopped(st, Forged(epoch, n, Handshake, [])) || forall k: nat :: !Free(st, k, maxLen)
  {
    if Stopped(st, Forged(epoch, n, Handshake, [])) || forall k: nat :: !Free(st, k, maxLen) {
      forall content, payload ensures ReceiverOk(Open(st, Forged(epoch, n, content, payload), maxLen).0, queued) {
        HarmlessWhenStoppedOrFull(st, queued, Forged(epoch, n, content, payload), maxLen);
      }
    } else {
      var k: nat :| Free(st, k, maxLen);
      HarmfulWhenFree(st, queued, n, k, maxLen);
    }
  }

  lemma HarmfulWhenFree(st: State, queued: seq<Msg>, n: nat, k: nat, maxLen: nat)
    requires ReceiverOk(st, queued) && Queueable(queued)
    requires !Stopped(st, Forged(0, n, Handshake, [])) && Free(st, k, maxLen)
    ensures exists payload :: !ReceiverOk(Open(st, Forged(0, n, Handshake, payload), maxLen).0, queued)
  {
    var w := st.(window := Recorded(st.window, n));
    var f := Spoiler(w, queued, k, maxLen);
    OpenOneFragment(st, n, f, maxLen);
    assert !Honest(Open(st, Forged(0, n, Handshake, Serialize(f)), maxLen).0.slots[k % FLIGHT], queued);
  }

  // ---- What the handshake then receives ----

  lemma RunUnfolds(sys: System, events: seq<Event>)
    requires |sys.rx.slots| == FLIGHT
    ensures Run(sys, events) == if events == [] then sys else Run(Step(sys, events[0]), events[1..])
  {
  }

  lemma StepForge(sys: System, e: Event)
    requires |sys.rx.slots| == FLIGHT && e.Forge? && !e.rec.authentic
    ensures Step(sys, e) == sys.(rx := Open(sys.rx, e.rec, e.maxLen).0)
  {
    hide Open;
  }

  lemma StepTake(sys: System)
    requires |sys.rx.slots| == FLIGHT
    ensures var due := Current(sys.rx);
            due.Complete() ==>
              Step(sys, Take) == sys.(rx := Next(sys.rx), delivered := sys.delivered + [Msg(due.typ, due.body)])
  {
    hide Next, Current;
  }

  lemma TwoSteps(sys: System, a: Event, b: Event)
    requires |sys.rx.slots| == FLIGHT
    ensures Run(sys, [a, b]) == Step(Step(sys, a), b)
  {
    hide Step;
    RunUnfolds(sys, [a, b]);
    RunUnfolds(Step(sys, a), [b]);
    RunUnfolds(Step(Step(sys, a), b), []);
    assert [a, b][1..] == [b] && [b][1..] == [];
  }

  /** One forged record makes a spoiled message complete where the one due belongs. */
  lemma SpoilerArrives(st: State, queued: seq<Msg>, n: nat, maxLen: nat) returns (payload: seq<byte>)
    requires ReceiverOk(st, queued) && Queueable(queued)
    requires !Stopped(st, Forged(0, n, Handshake, [])) && Current(st).Vacant?
    ensures var slot := Current(Open(st, Forged(0, n, Handshake, payload), maxLen).0);
            slot.Complete() && slot.seqNum == st.readSeq && !Honest(slot, queued)
  {
    var w := st.(window := Recorded(st.window, n));
    var f := Spoiler(w, queued, st.readSeq, maxLen);
    payload := Serialize(f);
    OpenOneFragment(st, n, f, maxLen);
    AcceptFragKeepsRing(w, f, maxLen);
    CurrentIsDue(AcceptFrag(w, f, maxLen).0);
    hide AcceptFrag, Honest, Recorded, Serialize, Open;
  }

  lemma SpoiledIsNoPrefix(slot: Slot, queued: seq<Msg>, delivered: seq<Msg>)
    requires slot.Complete() && slot.seqNum == |delivered| && !Honest(slot, queued)
    ensures !(delivered + [Msg(slot.typ, slot.body)] <= queued)
  {
    assert (delivered + [Msg(slot.typ, slot.body)])[|delivered|] == Msg(slot.typ, slot.body);
  }

  /** In every state in which nothing of the message due has arrived, any header
      that is not stopped lets one forged record pass for that message. */
  lemma ForgeryIsDelivered(sys: System, n: nat, maxLen: nat) returns (payload: seq<byte>)
    requires Inv(sys) && !Stopped(sys.rx, Forged(0, n, Handshake, [])) && Current(sys.rx).Vacant?
    ensures var sys' := Run(sys, [Forge(Forged(0, n, Handshake, payload), maxLen), Take]);
            && |sys'.delivered| == |sys.delivered| + 1
            && !(sys'.delivered <= sys'.queued)
  {
    assert |sys.rx.slots| == FLIGHT && |sys.delivered| == sys.rx.readSeq;
    hide Open, Next, Honest, ReceiverOk, Slot.Complete, Run, Current, Stopped, FlightOk, RecordsOk;
    payload := SpoilerArrives(sys.rx, sys.queued, n, maxLen);
    var forge := Forge(Forged(0, n, Handshake, payload), maxLen);
    TwoSteps(sys, forge, Take);
    StepForge(sys, forge);
    StepTake(Step(sys, forge));
    SpoiledIsNoPrefix(Current(Step(sys, forge).rx), sys.queued, sys.delivered);
  }

  /** At an input: one message is queued, nothing is sent, and the handshake is
      handed the forger's byte. */
  lemma ForgedFirstMessage(sys: System)
    requires Fresh(sys)
    ensures var forged := Forged(0, 0, Handshake, Serialize(Frag(1, 1, 0, 0, [6])));
            var sys' := Run(sys, [Queue(1, [5]), Forge(forged, 100), Take]);
            sys'.queued == [Msg(1, [5])] && sys'.delivered == [Msg(1, [6])]
  {
    var forge := Forge(Forged(0, 0, Handshake, Serialize(Frag(1, 1, 0, 0, [6]))), 100);
    var events := [Queue(1, [5]), forge, Take];
    var sys1 := Step(sys, Queue(1, [5]));
    assert sys1.rx == Initial && sys1.queued == [Msg(1, [5])] && sys1.delivered == [];
    ForgeryFillsFirstSlot();
    hide *;
    RunUnfolds(sys, events);
    RunUnfolds(sys1, [forge, Take]);
    var sys2 := Step(sys1, forge);
    RunUnfolds(sys2, [Take]);
    var sys3 := Step(sys2, Take);
    RunUnfolds(sys3, []);
    assert events[1..] == [forge, Take] && [forge, Take][1..] == [Take] && [Take][1..] == [];
    StepForge(sys1, forge);
    StepTake(sys2);
  }

  lemma FillsAtOnce(f: Frag)
    requires f.off == 0 && |f.body| == f.msgLen && f.body != []
    ensures AddPiece(EmptySlot(f), f) == Held(f.typ, f.seqNum, f.body, Range(0, f.msgLen))
  {
    var slot := AddPiece(EmptySlot(f), f);
    assert 0 in Range(0, f.msgLen);
    assert slot.body == f.body;
  }

  lemma ForgeryFillsFirstSlot()
    ensures var f := Frag(1, 1, 0, 0, [6]);
            Current(Open(Initial, Forged(0, 0, Handshake, Serialize(f)), 100).0) == Held(1, 0, [6], Range(0, 1))
  {
    var f := Frag(1, 1, 0, 0, [6]);
    OpenOneFragment(Initial, 0, f, 100);
    FillsAtOnce(f);
    hide Open, AddPiece;
  }
}
