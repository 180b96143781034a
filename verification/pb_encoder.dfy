// nanopb's encoder, step by step over an output stream. Every method outputs the
// bytes that PbEncodeModel says, on a writing and on a sizing stream alike.
module PbEncoder {
  import opened Basics
  import opened PbWire
  import opened PbDescriptor
  import opened PbEncodeModel
  import opened PbIterator
  import opened PbOutput

  /** `whole` is what was output so far, then `e`, then `rest`: after the attempt
      at `e` either one step more is done or the whole has failed. */
  lemma OutputsStep(s0: StreamState, s1: StreamState, s2: StreamState, acc: seq<byte>,
                    e: Result<seq<byte>>, rest: Result<seq<byte>>, r: Status)
    requires s0.Valid() && Outputs(s0, s1, Ok(acc), Done) && Outputs(s1, s2, e, r)
    ensures r.Error? ==> Outputs(s0, s2, Then(Ok(acc), Then(e, rest)), r)
    ensures r.Done? ==> e.Ok? && Outputs(s0, s2, Ok(acc + e.value), Done)
    ensures r.Done? ==> Then(Ok(acc), Then(e, rest)) == Then(Ok(acc + e.value), rest)
  {
    OutputsThen(s0, s1, s2, Ok(acc), e, r);
    ThenAssociates(Ok(acc), e, rest);
    if r.Error? { OutputsFailed(s0, s2, Then(Ok(acc), e), rest, r); }
    hide Outputs;
  }

  lemma ThenAssociates(a: Result<seq<byte>>, b: Result<seq<byte>>, c: Result<seq<byte>>)
    ensures Then(a, Then(b, c)) == Then(Then(a, b), c)
  {
    if a.Ok? && b.Ok? && c.Ok? {
      assert a.value + (b.value + c.value) == a.value + b.value + c.value;
    }
  }

  lemma NothingThen(e: Result<seq<byte>>)
    ensures Then(Ok([]), e) == e && Then(e, Ok([])) == e
  {
    if e.Ok? { assert [] + e.value == e.value && e.value + [] == e.value; }
  }

  // ---- Single values ----

  method EncodeScalar(stream: OStream, f: Field, v: Value) returns (r: Status)
    requires stream.Valid()
    modifies stream`pos, stream`bytesWritten, stream.buf
    ensures Outputs(old(stream.State()), stream.State(), EncScalar(f, v), r)
  {
    if f.ltype.Packable() {
      if !v.Int? {
        return Error(InField(IllTyped));
      }
      if !IntSizeOk(f) {
        return Error(InField(BadDataSize));
      }
      if f.ltype.Fixed32? {
        r := stream.Write(LittleEndian(ToU64(v.n), 4));
      } else if f.ltype.Fixed64? {
        r := stream.Write(LittleEndian(ToU64(v.n), 8));
      } else if f.ltype.Svarint? {
        r := stream.EncodeVarint(Zigzag(v.n));
      } else {
        r := stream.EncodeVarint(ToU64(v.n));
      }
      return;
    }
    if !v.Blob? {
      return Error(InField(IllTyped));
    }
    if f.ltype.Bytes? && BYTES_OFFSET + |v.bytes| > f.dataSize {
      return Error(InField(BytesTooLong));
    }
    r := stream.EncodeString(v.bytes);
  }

  function CountedResult(body: Result<seq<byte>>): Result<seq<byte>> {
    if body.Err? then body else Ok(CountedBytes(body.value))
  }

  lemma CountedIsThen(body: seq<byte>)
    ensures Then(Ok(VarintBytes(ToU64(|body|))), Ok(body)) == CountedResult(Ok(body))
  {
  }

  /** `pb_encode_submessage`: one pass to learn the size, one to write. The second
      writes exactly that size, so "submsg size changed" is never reported. */
  method EncodeSubmessage(stream: OStream, d: Desc, slots: seq<Slot>) returns (r: Status)
    requires stream.Valid() && |slots| == NumSlots(d)
    modifies stream`pos, stream`bytesWritten, stream.buf
    ensures Outputs(old(stream.State()), stream.State(), CountedResult(Enc(d, slots)), r)
    decreases d, |d.fields| + 2, 0
  {
    hide Enc, CountedBytes;
    var sizing := new OStream(null, 0, 0);
    r := Encode(sizing, d, slots);
    if r.Error? {
      return;
    }
    ghost var body := Enc(d, slots).value;
    var size := sizing.bytesWritten;
    CountedIsThen(body);
    ghost var s0 := stream.State();
    r := stream.EncodeVarint(ToU64(size));
    ghost var s1 := stream.State();
    if r.Error? {
      OutputsFailed(s0, s1, Ok(VarintBytes(ToU64(size))), Ok(body), r);
      return;
    }
    r := WriteBody(stream, d, slots, size);
    OutputsThen(s0, s1, stream.State(), Ok(VarintBytes(ToU64(size))), Ok(body), r);
  }

  /** What a substream wrote, seen from its parent. */
  lemma SubstreamWrites(s: StreamState, sub: StreamState, sub': StreamState, body: seq<byte>, r: Status)
    requires s.Valid() && !s.sizing && s.written + |body| <= s.max
    requires sub == StreamState(false, s.image, s.pos, |body|, 0) && Outputs(sub, sub', Ok(body), r)
    ensures r.Done? && sub'.written == |body|
    ensures Outputs(s, s.(image := sub'.image, pos := sub'.pos, written := s.written + sub'.written), Ok(body), Done)
  {
    var at := s.pos;
    assert sub'.image == Put(s.image, at, body);
    assert sub'.image[s.End()..] == s.image[s.End()..];
    assert sub'.image[..at] == s.image[..at];
  }

  /** The writing pass, over a substream of the given size. */
  method WriteBody(stream: OStream, d: Desc, slots: seq<Slot>, size: nat) returns (r: Status)
    requires stream.Valid() && |slots| == NumSlots(d)
    requires Enc(d, slots).Ok? && |Enc(d, slots).value| == size
    modifies stream`pos, stream`bytesWritten, stream.buf
    ensures Outputs(old(stream.State()), stream.State(), Ok(Enc(d, slots).value), r)
    decreases d, |d.fields| + 1, 1
  {
    hide Enc;
    if stream.buf == null {
      stream.Count(size);
      return Done;
    }
    ghost var s := stream.State();
    if stream.bytesWritten + size > stream.maxSize {
      return Error(StreamFull);
    }
    var substream := new OStream(stream.buf, stream.pos, size);
    ghost var sub := substream.State();
    r := Encode(substream, d, slots);
    SubstreamWrites(s, sub, substream.State(), Enc(d, slots).value, r);
    hide Outputs, Put;
    stream.bytesWritten := stream.bytesWritten + substream.bytesWritten;
    stream.pos := substream.pos;
    if substream.bytesWritten != size {
      r := Error(SizeChanged);
    }
  }

  method EncodeValue(stream: OStream, f: Field, v: Value) returns (r: Status)
    requires stream.Valid()
    modifies stream`pos, stream`bytesWritten, stream.buf
    ensures Outputs(old(stream.State()), stream.State(), EncValue(f, v), r)
    decreases f, 0
  {
    if !f.ltype.Submessage? {
      r := EncodeScalar(stream, f, v);
      return;
    }
    if !v.Record? || |v.slots| != NumSlots(f.sub) {
      return Error(InField(IllTyped));
    }
    r := EncodeSubmessage(stream, f.sub, v.slots);
  }

  method EncodeTagged(stream: OStream, f: Field, v: Value) returns (r: Status)
    requires stream.Valid()
    modifies stream`pos, stream`bytesWritten, stream.buf
    ensures Outputs(old(stream.State()), stream.State(), EncTagged(f, v), r)
    decreases f, 1
  {
    ghost var s0 := stream.State();
    r := EncodeTag(stream, f, WireType(f.ltype));
    ghost var s1 := stream.State();
    ghost var tag: Result<seq<byte>> := Ok(TagBytes(f, WireType(f.ltype)));
    if r.Error? {
      OutputsFailed(s0, s1, tag, EncValue(f, v), r);
      return;
    }
    r := EncodeValue(stream, f, v);
    OutputsThen(s0, s1, stream.State(), tag, EncValue(f, v), r);
  }

  /** `pb_encode_tag`. */
  method EncodeTag(stream: OStream, f: Field, wireType: nat) returns (r: Status)
    requires stream.Valid()
    modifies stream`pos, stream`bytesWritten, stream.buf
    ensures stream.Valid() && Outputs(old(stream.State()), stream.State(), Ok(TagBytes(f, wireType)), r)
  {
    r := stream.EncodeVarint(ToU64(8 * f.tag + wireType));
  }

  // ---- Arrays ----

  /** The size of a packed array's data: known for fixed-width entries, otherwise
      found by encoding them on a sizing stream. */
  method PackedSize(f: Field, items: seq<Value>) returns (r: Status, size: nat)
    requires f.ltype.Packable()
    ensures r.Done? <==> PackedBody(f, items).Ok?
    ensures r.Done? ==> size == |PackedBody(f, items).value|
    ensures r.Error? ==> r.e == InField(PackedBody(f, items).error)
  {
    var sizing := new OStream(null, 0, 0);
    r := EncodePacked(sizing, f, items);
    size := sizing.bytesWritten;
  }

  /** The entries of a packed array. */
  method EncodePacked(stream: OStream, f: Field, items: seq<Value>) returns (r: Status)
    requires stream.Valid()
    modifies stream`pos, stream`bytesWritten, stream.buf
    ensures Outputs(old(stream.State()), stream.State(), PackedBody(f, items), r)
  {
    ghost var s0 := stream.State();
    ghost var acc: seq<byte> := [];
    OutputsNothing(s0);
    NothingThen(PackedBody(f, items));
    for i := 0 to |items|
      invariant Outputs(s0, stream.State(), Ok(acc), Done)
      invariant PackedBody(f, items) == Then(Ok(acc), PackedBody(f, items[i..]))
    {
      hide Outputs, EncScalar;
      ghost var s1 := stream.State();
      r := EncodeScalar(stream, f, items[i]);
      ghost var e := EncScalar(f, items[i]);
      assert items[i..][1..] == items[i + 1..];
      OutputsStep(s0, s1, stream.State(), acc, e, PackedBody(f, items[i + 1..]), r);
      if r.Error? {
        return;
      }
      acc := acc + e.value;
    }
    NothingThen(Ok(acc));
    r := Done;
  }

  /** Entries with a tag each. */
  method EncodeEntries(stream: OStream, f: Field, items: seq<Value>) returns (r: Status)
    requires stream.Valid()
    modifies stream`pos, stream`bytesWritten, stream.buf
    ensures Outputs(old(stream.State()), stream.State(), EncItems(f, items), r)
    decreases f, 2
  {
    ghost var s0 := stream.State();
    ghost var acc: seq<byte> := [];
    OutputsNothing(s0);
    NothingThen(EncItems(f, items));
    for i := 0 to |items|
      invariant Outputs(s0, stream.State(), Ok(acc), Done)
      invariant EncItems(f, items) == Then(Ok(acc), EncItems(f, items[i..]))
    {
      hide Outputs, EncTagged;
      ghost var s1 := stream.State();
      r := EncodeTagged(stream, f, items[i]);
      ghost var e := EncTagged(f, items[i]);
      assert items[i..][1..] == items[i + 1..];
      OutputsStep(s0, s1, stream.State(), acc, e, EncItems(f, items[i + 1..]), r);
      if r.Error? {
        return;
      }
      acc := acc + e.value;
    }
    NothingThen(Ok(acc));
    r := Done;
  }

  /** `encode_array`. */
  method EncodeArray(stream: OStream, f: Field, items: seq<Value>) returns (r: Status)
    requires stream.Valid()
    modifies stream`pos, stream`bytesWritten, stream.buf
    ensures Outputs(old(stream.State()), stream.State(), EncArray(f, items), r)
    decreases f, 3
  {
    if |items| == 0 {
      OutputsNothing(stream.State());
      return Done;
    }
    if |items| > f.arraySize {
      return Error(InField(ArrayTooLong));
    }
    if f.ltype.Packable() {
      r := EncodePackedArray(stream, f, items);
    } else {
      r := EncodeEntries(stream, f, items);
    }
  }

  /** Tag, then the size, then the data. */
  method EncodePackedArray(stream: OStream, f: Field, items: seq<Value>) returns (r: Status)
    requires stream.Valid() && 0 < |items| <= f.arraySize && f.ltype.Packable()
    modifies stream`pos, stream`bytesWritten, stream.buf
    ensures Outputs(old(stream.State()), stream.State(), EncArray(f, items), r)
  {
    hide Outputs, PackedBody, VarintBytes;
    ghost var s0 := stream.State();
    ghost var body := PackedBody(f, items);
    ghost var tag := TagBytes(f, WT_STRING);
    ghost var rest := CountedResult(body);
    assert EncArray(f, items) == if body.Err? then body else Then(Ok(tag), rest);
    r := EncodeTag(stream, f, WT_STRING);
    ghost var s1 := stream.State();
    if r.Error? {
      FailedEarly(s0, s1, tag, body, r);
      return;
    }
    var size: nat;
    r, size := PackedSize(f, items);
    if r.Error? {
      FailedLate(s0, s1, tag, body, r);
      return;
    }
    CountedIsThen(body.value);
    ghost var count := VarintBytes(ToU64(size));
    r := stream.EncodeVarint(ToU64(size));
    ghost var s2 := stream.State();
    OutputsStep(s0, s1, s2, tag, Ok(count), body, r);
    if r.Error? {
      return;
    }
    if stream.buf == null {
      stream.Count(size);
      r := Done;
      Counted(s2, body.value);
    } else {
      r := EncodePacked(stream, f, items);
    }
    OutputsThen(s0, s2, stream.State(), Ok(tag + count), body, r);
  }

  lemma Counted(s: StreamState, body: seq<byte>)
    requires s.Valid() && s.sizing
    ensures Outputs(s, s.(written := s.written + |body|), Ok(body), Done)
  {
  }

  lemma FailedEarly(s0: StreamState, s1: StreamState, tag: seq<byte>, body: Result<seq<byte>>, r: Status)
    requires s0.Valid() && Outputs(s0, s1, Ok(tag), r) && r.Error?
    ensures Outputs(s0, s1, if body.Err? then body else Then(Ok(tag), CountedResult(body)), r)
  {
  }

  lemma FailedLate(s0: StreamState, s1: StreamState, tag: seq<byte>, body: Result<seq<byte>>, r: Status)
    requires s0.Valid() && Outputs(s0, s1, Ok(tag), Done) && body.Err? && r == Error(InField(body.error))
    ensures Outputs(s0, s1, body, r)
  {
  }

  // ---- Fields and messages ----

  /** `encode_basic_field`. */
  method EncodeField(stream: OStream, f: Field, slot: Slot) returns (r: Status)
    requires stream.Valid()
    modifies stream`pos, stream`bytesWritten, stream.buf
    ensures Outputs(old(stream.State()), stream.State(), EncField(f, slot), r)
    decreases f, 4
  {
    hide Outputs, EncTagged, EncArray;
    OutputsNothing(stream.State());
    r := Done;
    match slot
    case Plain(v) =>
      var implicitHas := !f.Implicit() || !IsZero(f, v);
      if implicitHas {
        r := EncodeTagged(stream, f, v);
      }
    case Maybe(has, v) =>
      if has {
        r := EncodeTagged(stream, f, v);
      }
    case Many(items) => r := EncodeArray(stream, f, items);
    case NoChoice =>
    case Choice(which, v) =>
      if which == f.tag {
        r := EncodeTagged(stream, f, v);
      }
  }

  /** `pb_encode`. */
  method Encode(stream: OStream, d: Desc, slots: seq<Slot>) returns (r: Status)
    requires stream.Valid() && |slots| == NumSlots(d)
    modifies stream`pos, stream`bytesWritten, stream.buf
    ensures Outputs(old(stream.State()), stream.State(), Enc(d, slots), r)
    decreases d, |d.fields| + 1, 0
  {
    hide EncField, DataAt, SizeAt, RequiredBefore, Within, Put;
    ghost var s0 := stream.State();
    ghost var acc: seq<byte> := [];
    OutputsNothing(s0);
    NothingThen(Enc(d, slots));
    if |d.fields| == 0 {
      return Done;
    }
    var iter := new FieldIter(d);
    var more := true;
    ghost var i := 0;
    while more
      invariant iter.Coherent() && iter.d == d && fresh(iter)
      invariant 0 <= i <= |d.fields| && (more ==> i == iter.pos) && (more <==> i < |d.fields|)
      invariant stream.Valid() && Outputs(s0, stream.State(), Ok(acc), Done)
      invariant Enc(d, slots) == Then(Ok(acc), EncFrom(d, slots, i))
      decreases |d.fields| - i
    {
      hide Outputs, EncField;
      ghost var s1 := stream.State();
      var slot := slots[iter.slot];
      r := EncodeField(stream, d.fields[iter.pos], slot);
      ghost var e := EncField(d.fields[i], slot);
      OutputsStep(s0, s1, stream.State(), acc, e, EncFrom(d, slots, i + 1), r);
      if r.Error? {
        return;
      }
      acc := acc + e.value;
      more := iter.Next();
      i := i + 1;
    }
    NothingThen(Ok(acc));
    r := Done;
  }

  /** `pb_get_encoded_size`. */
  method GetEncodedSize(d: Desc, slots: seq<Slot>) returns (r: Status, size: nat)
    requires |slots| == NumSlots(d)
    ensures r.Done? <==> Enc(d, slots).Ok?
    ensures r.Done? ==> size == |Enc(d, slots).value|
    ensures r.Error? ==> r.e == InField(Enc(d, slots).error)
  {
    var stream := new OStream(null, 0, 0);
    r := Encode(stream, d, slots);
    size := stream.bytesWritten;
  }

  /** `pb_ostream_from_buffer` and `pb_encode`: it succeeds exactly when the buffer
      is at least as large as the size that `GetEncodedSize` reports. */
  method EncodeToBuffer(buf: array<byte>, d: Desc, slots: seq<Slot>) returns (r: Status, n: nat)
    requires |slots| == NumSlots(d)
    modifies buf
    ensures r.Done? <==> Enc(d, slots).Ok? && |Enc(d, slots).value| <= buf.Length
    ensures r.Done? ==> n == |Enc(d, slots).value| && buf[..] == Enc(d, slots).value + old(buf[n..])
    ensures r != Error(SizeChanged)
  {
    hide Enc;
    var stream := new OStream(buf, 0, buf.Length);
    r := Encode(stream, d, slots);
    n := stream.bytesWritten;
  }
}
