// The receiving half of a DTLS endpoint as the source keeps it: an array of seven
// message objects, each with its own buffer and mask, updated in place. Every
// method is proved to be the corresponding function of DtlsReceiveModel.
module DtlsReader {
  import opened Basics
  import opened Reassembly
  import opened HandshakeWire
  import opened DtlsReceiveModel
  import ReplayWindow

  ghost predicate Represents(m: HmFragment?, slot: Slot)
    reads if m != null then {m, m.data, m.reassembly} else {}
  {
    if m == null then slot == Vacant
    else m.Valid() && slot == Held(m.typ, m.seqNum, m.data[HEADER_LENGTH..], m.Got())
  }

  lemma RepresentedFields(m: HmFragment, slot: Slot)
    requires Represents(m, slot)
    ensures slot.Held? && slot.typ == m.typ && slot.seqNum == m.seqNum && |slot.body| == m.msgLen
    ensures m.reassembly == null ==> slot.Complete()
  {
  }

  predicate Clashes(slot: Slot, f: Frag) {
    slot.Held? && (slot.typ != f.typ || |slot.body| != f.msgLen)
  }

  function WithSlot(st: State, f: Frag): State
    requires |st.slots| == FLIGHT
  {
    var idx := f.seqNum % FLIGHT;
    if st.slots[idx].Held? then st else st.(slots := st.slots[idx := EmptySlot(f)])
  }

  class Reader {
    const incoming: array<HmFragment?>
    const window: ReplayWindow.Bitmap
    var readSeq: nat
    var epoch: nat
    var hasCcs: bool
    var hasMessage: bool
    ghost var slots: seq<Slot>   // what the seven messages stand for
    ghost var Repr: set<object>

    /** The message objects and their buffers are separate from one another. */
    ghost predicate Separate()
      requires incoming in Repr
      reads this, Repr
    {
      && (forall i :: 0 <= i < incoming.Length && incoming[i] != null ==> Owns(incoming[i]))
      && (forall i, j :: 0 <= i < j < incoming.Length && incoming[i] != null && incoming[j] != null ==>
            Disjoint(incoming[i], incoming[j]))
    }

    ghost predicate Owns(m: HmFragment)
      reads this, Repr
    {
      && m in Repr && m.data in Repr && m.data as object != incoming
      && (m.reassembly != null ==>
            m.reassembly in Repr && m.reassembly as object != m.data && m.reassembly as object != incoming)
    }

    ghost predicate Disjoint(a: HmFragment, b: HmFragment)
      reads a, b
    {
      && a != b
      && a.data != b.data
      && (a.reassembly != null ==> a.reassembly != b.reassembly && a.reassembly as object != b.data)
      && (b.reassembly != null ==> b.reassembly as object != a.data)
    }

    ghost predicate Shape()
      reads this, Repr
    {
      && this in Repr && incoming in Repr && window in Repr && window.Valid()
      && incoming.Length == FLIGHT == |slots|
      && Separate()
      && (forall i :: 0 <= i < FLIGHT ==> Represents(incoming[i], slots[i]))
    }

    ghost function Model(): State
      reads this, window
    {
      State(readSeq, slots, epoch, window.Model(), hasCcs, hasMessage)
    }

    ghost predicate Valid()
      reads this, Repr
    {
      Shape() && RingOk(Model())
    }

    constructor ()
      ensures Valid() && fresh(Repr)
      ensures Model() == Initial
    {
      incoming := new HmFragment?[FLIGHT](_ => null);
      window := new ReplayWindow.Bitmap();
      readSeq, epoch, hasCcs, hasMessage := 0, 0, false, false;
      slots := Initial.slots;
      new;
      Repr := {this, incoming, window};
      InitialRing();
    }

    static method Copy(data: array<byte>, at: nat, piece: seq<byte>)
      requires at + |piece| <= data.Length
      modifies data
      ensures data[..] == Overwrite(old(data[..]), at, piece)
    {
      for k := 0 to |piece|
        invariant forall j :: 0 <= j < data.Length ==> data[j] == if at <= j < at + k then piece[j - at] else old(data[j])
      {
        data[at + k] := piece[k];
      }
    }

    /** Copies the body into the message and marks it, as lines 399-402 do. */
    static method Store(m: HmFragment, f: Frag, ghost slot: Slot)
      requires Represents(m, slot) && m.reassembly != null && m.reassembly as object != m.data
      requires f.off + |f.body| <= m.msgLen
      modifies m`reassembly, m.reassembly, m.data
      ensures m.reassembly == null || m.reassembly == old(m.reassembly)
      ensures Represents(m, AddPiece(slot, f))
    {
      Copy(m.data, HEADER_LENGTH + f.off, f.body);
      assert m.data[HEADER_LENGTH..] == Overwrite(old(m.data[HEADER_LENGTH..]), f.off, f.body);
      m.Mark(f.off, f.off + |f.body|);
    }

    /** `dtls1_hm_fragment_new`. */
    static method NewMessage(f: Frag) returns (m: HmFragment)
      requires f.Encodable()
      ensures Represents(m, EmptySlot(f))
      ensures fresh(m) && fresh(m.data)
      ensures m.reassembly != null ==> fresh(m.reassembly) && m.reassembly as object != m.data
    {
      m := new HmFragment(Header(f.typ, f.msgLen, f.seqNum, 0, f.msgLen), f.typ, f.seqNum, f.msgLen);
    }

    /** Puts a new, empty message into its vacant slot. */
    method Insert(f: Frag) returns (m: HmFragment)
      requires Shape() && f.Encodable() && incoming[f.seqNum % FLIGHT] == null
      modifies incoming, this`Repr, this`slots
      ensures Shape() && fresh(Repr - old(Repr))
      ensures incoming[f.seqNum % FLIGHT] == m
      ensures Model() == WithSlot(old(Model()), f)
    {
      hide RingOk, HmFragment.Valid, HmFragment.Got, EmptySlot;
      var idx := f.seqNum % FLIGHT;
      m := NewMessage(f);
      incoming[idx] := m;
      slots := slots[idx := EmptySlot(f)];
      Repr := Repr + {m, m.data} + (if m.reassembly != null then {m.reassembly} else {});
    }

    /** The message for this fragment, creating it if need be; null goes with an
        alert. */
    method GetIncomingMessage(f: Frag) returns (m: HmFragment?, r: Result)
      requires Valid() && f.Encodable()
      modifies incoming, this`Repr, this`slots
      ensures Shape() && fresh(Repr - old(Repr))
      ensures m == null <==> f.seqNum < readSeq || f.seqNum - readSeq >= FLIGHT || Clashes(old(Model()).slots[f.seqNum % FLIGHT], f)
      ensures m == null ==> Model() == old(Model())
      ensures m == null ==> r == Error(if f.seqNum < readSeq || f.seqNum - readSeq >= FLIGHT then InternalError else IllegalParameter)
      ensures m != null ==> incoming[f.seqNum % FLIGHT] == m && Model() == WithSlot(old(Model()), f)
    {
      if f.seqNum < readSeq || f.seqNum - readSeq >= FLIGHT {
        return null, Error(InternalError);
      }
      m, r := incoming[f.seqNum % FLIGHT], Success;
      assert Represents(m, slots[f.seqNum % FLIGHT]);
      if m == null {
        m := Insert(f);
        return;
      }
      SlotHoldsThatMessage(Model(), f);
      assert m.seqNum == f.seqNum;  // the source's own assertion
      if m.typ != f.typ || m.msgLen != f.msgLen {
        m, r := null, Error(IllegalParameter);
      }
    }

    /** Stores the fragment in the message of slot `idx`; the other six are not
        touched. */
    method StoreAt(idx: nat, m: HmFragment, f: Frag)
      requires Shape() && idx < FLIGHT && incoming[idx] == m && m.reassembly != null
      requires f.off + |f.body| <= m.msgLen
      modifies this`slots, m`reassembly, m.reassembly, m.data
      ensures Shape()
      ensures slots == old(slots)[idx := AddPiece(old(slots[idx]), f)]
    {
      hide RingOk, HmFragment.Valid, HmFragment.Got, AddPiece;
      RepresentedFields(m, slots[idx]);
      forall i | 0 <= i < FLIGHT && i != idx && incoming[i] != null
        ensures Disjoint(m, incoming[i]) || Disjoint(incoming[i], m)
      {
      }
      Store(m, f, slots[idx]);
      slots := slots[idx := AddPiece(slots[idx], f)];
    }

    /** One turn of the fragment loop. */
    method AcceptFragment(f: Frag, maxLen: nat) returns (r: Result)
      requires Valid() && f.Encodable()
      modifies Repr
      ensures Valid() && fresh(Repr - old(Repr))
      ensures (Model(), r) == AcceptFrag(old(Model()), f, maxLen)
    {
      hide RingOk, HmFragment.Valid, HmFragment.Got, Represents;
      if f.off > f.msgLen || f.off + |f.body| > f.msgLen || f.msgLen > maxLen {
        return Error(IllegalParameter);
      }
      if epoch == 1 && f.seqNum != readSeq {
        return Error(UnexpectedMessage);
      }
      if f.seqNum < readSeq || f.seqNum > readSeq + FLIGHT {
        return Success;
      }
      AcceptFragKeepsRing(Model(), f, maxLen);
      var m: HmFragment?;
      m, r := GetIncomingMessage(f);
      if m == null {
        return;
      }
      r := Success;
      var idx := f.seqNum % FLIGHT;
      ghost var slot := slots[idx];
      RepresentedFields(m, slot);
      if m.reassembly == null {
        assert slots == old(slots)[idx := slot];
        return;
      }
      StoreAt(idx, m, f);
      assert slots == old(slots)[idx := AddPiece(slot, f)];
    }

    /** The fragment loop over one record. */
    method AcceptRecord(payload: seq<byte>, maxLen: nat) returns (r: Result)
      requires Valid()
      modifies Repr
      ensures Valid() && fresh(Repr - old(Repr))
      ensures (Model(), r) == AcceptPayload(old(Model()), payload, maxLen)
    {
      var rest := payload;
      while rest != []
        invariant Valid() && fresh(Repr - old(Repr))
        invariant AcceptPayload(old(Model()), payload, maxLen) == AcceptPayload(Model(), rest, maxLen)
        decreases |rest|
      {
        var parsed := Parse(rest);
        if parsed.None? {
          return Error(DecodeError);
        }
        r := AcceptFragment(parsed.value.0, maxLen);
        if r != Success {
          return;
        }
        rest := parsed.value.1;
      }
      r := Success;
    }

    method RecordSequence(n: nat)
      requires Valid()
      modifies window
      ensures Valid()
      ensures Model() == old(Model()).(window := ReplayWindow.Recorded(old(window.Model()), n))
    {
      window.Record(n);
    }

    method OpenHandshake(rec: Record, maxLen: nat) returns (r: Result)
      requires Valid()
      modifies Repr
      ensures Valid() && fresh(Repr - old(Repr))
      ensures (Model(), r) == Open(old(Model()), rec, maxLen)
      ensures Dropped(old(Model()), rec) ==> r == Discard && Model() == old(Model())
    {
      if rec.epoch != epoch {
        return Discard;
      }
      var replayed := window.ShouldDiscard(rec.FullSeq());
      if replayed || !(epoch == 0 || rec.authentic) {
        return Discard;
      }
      if |rec.payload| > MAX_PLAIN_LENGTH {
        return Error(RecordOverflow);
      }
      RecordSequence(rec.FullSeq());
      r := Dispatch(rec, maxLen);
    }

    method TakeCcs()
      requires Valid()
      modifies this`hasCcs
      ensures Valid() && Model() == old(Model()).(hasCcs := false)
    {
      hasCcs := false;
    }

    /** `dtls1_open_change_cipher_spec`. */
    method OpenChangeCipherSpec(rec: Record, maxLen: nat) returns (r: Result)
      requires Valid()
      modifies Repr
      ensures Valid() && fresh(Repr - old(Repr))
      ensures (Model(), r) == OpenCcs(old(Model()), rec, maxLen)
      ensures r == Success ==> !hasCcs
      ensures old(hasCcs) ==> r == Success && Model() == old(Model()).(hasCcs := false)
    {
      hide Open, RingOk, HmFragment.Valid, HmFragment.Got, Represents;
      if !hasCcs {
        r := OpenHandshake(rec, maxLen);
        if r != Success {
          return;
        }
      }
      if !hasCcs {
        return Discard;
      }
      TakeCcs();
      r := Success;
    }

    /** The content-type switch of `dtls1_open_handshake`. */
    method Dispatch(rec: Record, maxLen: nat) returns (r: Result)
      requires Valid()
      modifies Repr
      ensures Valid() && fresh(Repr - old(Repr))
      ensures (Model(), r) == ByContent(old(Model()), rec, maxLen)
    {
      match rec.content
      case AlertRecord => r := ReceivedAlert;
      case ApplicationData => r := if epoch == 0 then Error(UnexpectedMessage) else Discard;
      case ChangeCipherSpec =>
        if epoch != 0 {
          r := Error(UnexpectedMessage);
        } else if rec.payload != [1] {
          r := Error(IllegalParameter);
        } else {
          hasCcs := true;
          r := Success;
        }
      case Handshake => r := AcceptRecord(rec.payload, maxLen);
      case OtherContent => r := Error(UnexpectedMessage);
    }

    /** `dtls1_get_message`: the message due next, if it is complete. */
    method GetMessage() returns (ready: bool, typ: byte, body: seq<byte>)
      requires Valid()
      modifies this`hasMessage
      ensures Valid()
      ensures ready <==> Current(old(Model())).Complete()
      ensures ready ==> Current(Model()) == Held(typ, readSeq, body, Range(0, |body|))
      ensures Model() == old(Model()).(hasMessage := old(hasMessage) || ready)
    {
      var m := incoming[readSeq % FLIGHT];
      assert Represents(m, slots[readSeq % FLIGHT]);
      if m == null || m.reassembly != null {
        return false, 0, [];
      }
      CurrentIsDue(Model());
      hasMessage := true;
      return true, m.typ, m.data[HEADER_LENGTH..];
    }

    method NextMessage()
      requires Valid() && hasMessage
      modifies Repr
      ensures Valid() && fresh(Repr - old(Repr))
      ensures Model() == Next(old(Model()))
    {
      NextKeepsRing(Model());
      incoming[readSeq % FLIGHT] := null;
      slots := slots[readSeq % FLIGHT := Vacant];
      readSeq := (readSeq + 1) % U16;
      hasMessage := false;
    }

    method HasUnprocessedHandshakeData() returns (r: bool)
      requires Valid()
      ensures r <==> HasUnprocessed(Model())
    {
      if hasCcs {
        return true;
      }
      for i := 0 to FLIGHT
        invariant forall j :: 0 <= j < i && slots[j].Held? ==> hasMessage && j == readSeq % FLIGHT
      {
        assert Represents(incoming[i], slots[i]);
        if !(hasMessage && i == readSeq % FLIGHT) && incoming[i] != null {
          return true;
        }
      }
      return false;
    }

    /** `dtls1_set_read_state`: refused while data of the old epoch is left over. */
    method SetReadState() returns (ok: bool)
      requires Valid()
      modifies this`epoch, window
      ensures Valid()
      ensures ok <==> !HasUnprocessed(old(Model()))
      ensures Model() == if ok then NextEpoch(old(Model())) else old(Model())
    {
      var leftover := HasUnprocessedHandshakeData();
      if leftover {
        return false;
      }
      epoch := (epoch + 1) % U16;
      window.Clear();
      ok := true;
    }
  }
}
