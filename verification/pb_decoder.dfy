// nanopb's decoder, step by step over an input stream, with the field iterator and
// the bit mask of required fields. Every method is proved to be the corresponding
// function of PbDecodeModel.
module PbDecoder {
  import opened Basics
  import opened PbWire
  import opened PbDescriptor
  import opened PbEncodeModel
  import opened PbDecodeModel
  import opened PbDecodeLaws
  import opened PbIterator
  import opened PbRequired
  import opened PbInput

  ghost predicate TagsDistinct(d: Desc) {
    forall i, j :: 0 <= i < |d.fields| && 0 <= j < |d.fields| && d.fields[i].tag == d.fields[j].tag ==> i == j
  }

  /** Descriptors for which the required-field mask works: fewer than 64 required
      fields in each message and not exactly 32. */
  ghost predicate Supported(d: Desc)
    decreases d
  {
    && |d.fields| > 0 && TagsDistinct(d)
    && RequiredCount(d) < MAX_REQUIRED && RequiredCount(d) != WORD
    && forall i :: 0 <= i < |d.fields| ==> FieldSupported(d.fields[i])
  }

  ghost predicate FieldSupported(f: Field)
    decreases f
  {
    f.dataSize < U32 && (f.ltype.Submessage? ==> Supported(f.sub))
  }

  /** The outcome of a read agrees with the specification's. */
  ghost predicate Reads<T>(spec: Read<T>, r: Option<T>, after: seq<byte>) {
    if spec.Got? then r == Some(spec.value) && after == spec.rest else r.None?
  }

  // ---- Single values ----

  /** `pb_dec_varint` .. `pb_dec_svarint`. */
  method DecodeInt(stream: IStream, f: Field) returns (r: Option<Value>)
    requires stream.Valid() && (f.ltype.Varint? || f.ltype.Uvarint? || f.ltype.Svarint?)
    modifies stream
    ensures stream.Valid() && stream.End() == old(stream.End())
    ensures Reads(ReadScalar(f, old(stream.Remaining())), r, stream.Remaining())
    ensures IntSizeOk(f) ==>
              var u := Varint64(old(stream.Remaining()));
              r == if u.Got? && IntInRange(f, WireInt(f, u.value)) then Some(Int(WireInt(f, u.value))) else None
  {
    hide Groups, DecInt, WireInt, IntInRange;
    var ok, u := stream.DecodeVarint();
    if !ok {
      return None;
    }
    if IntSizeOk(f) { DecIntExactly(f, u); }
    var n := DecInt(f, u);
    r := if n.Some? then Some(Int(n.value)) else None;
  }

  /** `pb_dec_bytes`, `pb_dec_string` and `pb_dec_fixed_length_bytes`. */
  method DecodeBlob(stream: IStream, f: Field) returns (r: Option<Value>)
    requires stream.Valid() && f.dataSize < U32
    requires !f.ltype.Packable() && !f.ltype.Submessage?
    modifies stream
    ensures stream.Valid() && stream.End() == old(stream.End())
    ensures Reads(ReadScalar(f, old(stream.Remaining())), r, stream.Remaining())
  {
    hide Groups, Zeros, CString, DecBlob, Varint32;
    ghost var before := stream.Remaining();
    var ok, size := stream.DecodeVarint32();
    if !ok {
      return None;
    }
    if !LengthOk(f, size) {
      TooLong(f, before);
      return None;
    }
    if size == 0 && f.ltype.FixedBytes? {
      Empty(f, before);
      return Some(Blob(Zeros(f.dataSize)));
    }
    var s;
    ok, s := stream.Read(size);
    if !ok {
      return None;
    }
    r := Some(Blob(if f.ltype.String? then CString(s) else s));
    FitsBlob(f, s);
  }

  /** The three checks on a counted length. The one for strings is made on a 32-bit
      sum that wraps at the largest length. */
  predicate LengthOk(f: Field, size: nat) {
    if f.ltype.Bytes? then size + BYTES_OFFSET <= f.dataSize
    else if f.ltype.String? then
      var allocSize := (size + 1) % U32;
      size <= allocSize <= f.dataSize
    else size == 0 || size == f.dataSize
  }

  lemma TooLong(f: Field, b: seq<byte>)
    requires f.dataSize < U32 && !f.ltype.Packable() && !f.ltype.Submessage?
    requires Varint32(b).Got? && !LengthOk(f, Varint32(b).value)
    ensures ReadScalar(f, b).Bad?
  {
    hide Varint32, CString;
  }

  lemma Empty(f: Field, b: seq<byte>)
    requires f.ltype.FixedBytes? && Varint32(b).Got? && Varint32(b).value == 0
    ensures ReadScalar(f, b) == Got(Blob(Zeros(f.dataSize)), Varint32(b).rest)
  {
    hide Varint32, Zeros;
  }

  lemma FitsBlob(f: Field, s: seq<byte>)
    requires LengthOk(f, |s|) && |s| < U32 && f.dataSize < U32 && !f.ltype.Packable() && !f.ltype.Submessage?
    requires f.ltype.FixedBytes? ==> s != []
    ensures DecBlob(f, s) == Some(if f.ltype.String? then CString(s) else s)
  {
    hide CString;
  }

  method DecodeScalar(stream: IStream, f: Field) returns (r: Option<Value>)
    requires stream.Valid() && f.dataSize < U32 && !f.ltype.Submessage?
    modifies stream
    ensures stream.Valid() && stream.End() == old(stream.End())
    ensures Reads(ReadScalar(f, old(stream.Remaining())), r, stream.Remaining())
  {
    if f.ltype.Fixed32? || f.ltype.Fixed64? {
      var ok, s := stream.Read(if f.ltype.Fixed32? then 4 else 8);
      r := if ok then Some(Int(FromLittleEndian(s))) else None;
    } else if f.ltype.Packable() {
      r := DecodeInt(stream, f);
    } else {
      r := DecodeBlob(stream, f);
    }
  }

  /** `pb_dec_submessage`. */
  method DecodeSubmessage(stream: IStream, f: Field, prior: Value) returns (r: Option<Value>)
    requires stream.Valid() && FieldSupported(f) && f.ltype.Submessage?
    modifies stream
    ensures stream.Valid() && stream.End() == old(stream.End())
    ensures Reads(ReadValue(f, prior, old(stream.Remaining())), r, stream.Remaining())
    decreases stream.bytesLeft, 0
  {
    hide Counted, Dec, Defaults, TagsDistinct, RequiredBefore;
    var substream := stream.MakeStringSubstream();
    if substream == null {
      return None;
    }
    var target := Target(f, prior);
    if !target.Record? || |target.slots| != NumSlots(f.sub) {
      stream.CloseStringSubstream(substream);
      return None;
    }
    var slots := DecodeNoinit(substream, f.sub, target.slots);
    stream.CloseStringSubstream(substream);
    r := if slots.Some? then Some(Record(slots.value)) else None;
  }

  method DecodeValue(stream: IStream, f: Field, prior: Value) returns (r: Option<Value>)
    requires stream.Valid() && FieldSupported(f)
    modifies stream
    ensures stream.Valid() && stream.End() == old(stream.End())
    ensures Reads(ReadValue(f, prior, old(stream.Remaining())), r, stream.Remaining())
    decreases stream.bytesLeft, 1
  {
    hide ReadScalar, Supported;
    if f.ltype.Submessage? {
      r := DecodeSubmessage(stream, f, prior);
    } else {
      r := DecodeScalar(stream, f);
    }
  }

  // ---- Fields ----

  /** The packed branch of `decode_static_field`. */
  method DecodePacked(stream: IStream, f: Field, items: seq<Value>) returns (r: Option<seq<Value>>)
    requires stream.Valid() && f.dataSize < U32 && f.ltype.Packable()
    modifies stream
    ensures stream.Valid() && stream.End() == old(stream.End())
    ensures var body := Counted(old(stream.Remaining()));
            if body.Bad? then r.None?
            else r == ReadPacked(f, items, body.value) && (r.Some? ==> stream.Remaining() == body.rest)
  {
    hide Counted, ReadScalar;
    var substream := stream.MakeStringSubstream();
    if substream == null {
      return None;
    }
    ghost var body := substream.Remaining();
    var all := items;
    var status := true;
    while status && substream.bytesLeft > 0 && |all| < f.arraySize
      invariant substream.Valid() && substream.End() == old(stream.End()) - stream.bytesLeft
      invariant status ==> ReadPacked(f, items, body) == ReadPacked(f, all, substream.Remaining())
      invariant !status ==> ReadPacked(f, items, body).None?
      decreases status, substream.bytesLeft
      modifies substream
    {
      var v := DecodeScalar(substream, f);
      if v.Some? {
        all := all + [v.value];
      } else {
        status := false;
      }
    }
    if substream.bytesLeft != 0 {
      status := false;
    }
    stream.CloseStringSubstream(substream);
    r := if status then Some(all) else None;
  }

  /** `decode_static_field`. */
  method DecodeField(stream: IStream, f: Field, slot: Slot, wireType: nat) returns (r: Option<Slot>)
    requires stream.Valid() && FieldSupported(f)
    modifies stream
    ensures stream.Valid() && stream.End() == old(stream.End())
    ensures Reads(ReadField(f, slot, wireType, old(stream.Remaining())), r, stream.Remaining())
    decreases stream.bytesLeft, 2
  {
    hide ReadValue, Counted, ReadPacked, Supported;
    var v: Option<Value>;
    match f.htype {
      case Required =>
        if !slot.Plain? {
          return None;
        }
        v := DecodeValue(stream, f, slot.v);
        r := if v.Some? then Some(Plain(v.value)) else None;
      case Optional =>
        if (if f.Implicit() then !slot.Plain? else !slot.Maybe?) {
          return None;
        }
        v := DecodeValue(stream, f, slot.v);
        r := if v.Some? then Some(if f.Implicit() then Plain(v.value) else Maybe(true, v.value)) else None;
      case Repeated =>
        if !slot.Many? {
          return None;
        }
        if wireType == WT_STRING && f.ltype.Packable() {
          var items := DecodePacked(stream, f, slot.items);
          r := if items.Some? then Some(Many(items.value)) else None;
          return;
        }
        if |slot.items| >= f.arraySize {
          return None;
        }
        v := DecodeValue(stream, f, Int(0));
        r := if v.Some? then Some(Many(slot.items + [v.value])) else None;
      case OneOf =>
        v := DecodeValue(stream, f, Int(0));
        r := if v.Some? then Some(Choice(f.tag, v.value)) else None;
    }
  }

  // ---- Messages ----

  lemma TheFieldFound(d: Desc, i: nat)
    requires TagsDistinct(d) && i < |d.fields|
    ensures Find(d, d.fields[i].tag) == Some(i)
  {
  }

  /** The outcome of one turn of the loop, and the words of the mask after it. */
  ghost predicate Turned(d: Desc, spec: Step, words: seq<nat>, eof: bool, slots: Option<seq<Slot>>, words': seq<nat>, after: seq<byte>)
    requires |words| == 2 && RequiredCount(d) < MAX_REQUIRED
    requires spec.Next? && spec.field.Some? ==> spec.field.value < |d.fields|
  {
    match spec
    case Stop => eof && slots.None?
    case Fail => !eof && slots.None?
    case Next(field, s, rest) => slots == Some(s) && after == rest && words' == Recorded(d, words, field)
  }

  ghost function Recorded(d: Desc, words: seq<nat>, field: Option<nat>): seq<nat>
    requires |words| == 2 && RequiredCount(d) < MAX_REQUIRED
    requires field.Some? ==> field.value < |d.fields|
  {
    if field.Some? && d.fields[field.value].htype.Required? && RequiredBefore(d, field.value) < MAX_REQUIRED
    then Marked(words, RequiredBefore(d, field.value)) else words
  }

  /** One turn of the loop of `pb_decode_noinit`. */
  method DecodeNext(stream: IStream, iter: FieldIter, d: Desc, slots: seq<Slot>, words: seq<nat>)
      returns (eof: bool, r: Option<seq<Slot>>, words': seq<nat>)
    requires stream.Valid() && Supported(d) && |slots| == NumSlots(d) && |words| == 2
    requires iter.Coherent() && iter.d == d && stream.bytesLeft > 0
    modifies stream, iter
    ensures stream.Valid() && stream.End() == old(stream.End()) && iter.Coherent()
    ensures |words'| == 2
    ensures Turned(d, StepOf(d, slots, old(stream.Remaining())), words, eof, r, words', stream.Remaining())
    decreases stream.bytesLeft, 3, 0
  {
    hide ReadTag, Skip, ReadField, Find, Marked, TagsDistinct, DataAt, SizeAt, RequiredBefore, Supported, FieldSupported;
    eof, r, words' := false, None, words;
    var ok, wireType, tag, end := stream.DecodeTag();
    if !ok {
      eof := end;
      return;
    }
    ghost var rest := stream.Remaining();
    var found := iter.Find(tag);
    if !found {
      var skipped := stream.SkipField(wireType);
      if skipped {
        r := Some(slots);
      }
      return;
    }
    var f := d.fields[iter.pos];
    TheFieldFound(d, iter.pos) by { SupportedParts(d, iter.pos); }
    SupportedParts(d, iter.pos);
    ghost var s := SlotIndex(d, iter.pos);
    if f.htype.Required? && iter.requiredIndex < MAX_REQUIRED {
      words' := Marked(words, iter.requiredIndex);
    }
    var slot := DecodeField(stream, f, slots[iter.slot], wireType);
    if slot.Some? {
      r := Some(slots[iter.slot := slot.value]);
    }
  }

  lemma SupportedParts(d: Desc, i: nat)
    requires Supported(d) && i < |d.fields|
    ensures TagsDistinct(d) && RequiredCount(d) < MAX_REQUIRED && FieldSupported(d.fields[i])
  {
  }

  /** The number of required fields, found by walking to the end of the array. */
  method CountRequired(iter: FieldIter) returns (count: nat)
    requires iter.Coherent()
    modifies iter
    ensures iter.Coherent() && count == RequiredCount(iter.d)
  {
    count := 0;
    var lastIsRequired, more := false, true;
    while more
      invariant iter.Coherent()
      invariant !more ==> count == RequiredBefore(iter.d, |iter.d.fields| - 1)
      invariant !more ==> lastIsRequired == iter.d.fields[|iter.d.fields| - 1].htype.Required?
      decreases more, |iter.d.fields| - iter.pos
    {
      count := iter.requiredIndex;
      lastIsRequired := iter.d.fields[iter.pos].htype.Required?;
      more := iter.Next();
    }
    if lastIsRequired {
      count := count + 1;
    }
  }

  /** The comparison of the words with what they should be. */
  method CheckRequired(words: seq<nat>, count: nat) returns (ok: bool)
    requires |words| == 2 && count < MAX_REQUIRED && count != WORD
    ensures ok <==> Passes(words, count)
  {
    if count == 0 {
      return true;
    }
    for i := 0 to count / WORD
      invariant forall k :: 0 <= k < i ==> words[k] == ALL_BITS
    {
      if words[i] != ALL_BITS {
        return false;
      }
    }
    ok := words[count / WORD] == LastWord(count);
  }

  lemma RunUnfolds(d: Desc, slots: seq<Slot>, seen: set<nat>, b: seq<byte>)
    requires |slots| == NumSlots(d)
    ensures Run(d, slots, seen, b) ==
            if b == [] || StepOf(d, slots, b).Stop? then Finished(slots, seen)
            else if StepOf(d, slots, b).Fail? then Failed
            else
              var r := StepOf(d, slots, b);
              Run(d, r.slots, Seen(seen, r.field), r.rest)
  {
  }

  lemma RecordedTracks(d: Desc, words: seq<nat>, seen: set<nat>, field: Option<nat>)
    requires Tracks(words, d, seen) && RequiredCount(d) < MAX_REQUIRED
    requires field.Some? ==> field.value < |d.fields|
    ensures Tracks(Recorded(d, words, field), d, Seen(seen, field))
  {
    if field.Some? { MarkTracks(words, d, seen, field.value); }
  }

  /** The end of `pb_decode_noinit`: the struct, unless a required field is missing. */
  method Finish(iter: FieldIter, d: Desc, slots: seq<Slot>, words: seq<nat>, ghost seen: set<nat>) returns (r: Option<seq<Slot>>)
    requires iter.Coherent() && iter.d == d && Tracks(words, d, seen)
    requires RequiredCount(d) < MAX_REQUIRED && RequiredCount(d) != WORD
    modifies iter
    ensures r == if AllRequired(d, seen) then Some(slots) else None
  {
    hide Passes, RequiredBefore, Tracks;
    assert |words| == 2 by { TwoWords(words, d, seen); }
    var count := CountRequired(iter);
    RequiredCheckIsExact(words, d, seen);
    var ok := CheckRequired(words, count);
    r := if ok then Some(slots) else None;
  }

  lemma TwoWords(words: seq<nat>, d: Desc, seen: set<nat>)
    requires Tracks(words, d, seen)
    ensures |words| == 2
  {
  }

  /** `pb_decode_noinit`. */
  method DecodeNoinit(stream: IStream, d: Desc, slots: seq<Slot>) returns (r: Option<seq<Slot>>)
    requires stream.Valid() && Supported(d) && |slots| == NumSlots(d)
    modifies stream
    ensures stream.Valid() && stream.End() == old(stream.End())
    ensures r == Dec(d, slots, old(stream.Remaining()))
    decreases stream.bytesLeft, 3, 1
  {
    SupportedParts(d, 0);
    assert RequiredCount(d) != WORD;
    hide Run, StepOf, Tracks, RequiredBefore, Supported, FieldSupported, TagsDistinct, DataAt, SizeAt, Recorded;
    var iter := new FieldIter(d);
    var words: seq<nat> := [0, 0];
    ghost var seen: set<nat> := {};
    NoneSeen(d);
    var dest := slots;
    while stream.bytesLeft > 0
      invariant stream.Valid() && stream.End() == old(stream.End()) && stream.bytesLeft <= old(stream.bytesLeft)
      invariant iter.Coherent() && iter.d == d && fresh(iter)
      invariant |dest| == NumSlots(d) && |words| == 2 && Tracks(words, d, seen)
      invariant Run(d, slots, {}, old(stream.Remaining())) == Run(d, dest, seen, stream.Remaining())
      decreases stream.bytesLeft
    {
      ghost var before := stream.Remaining();
      RunUnfolds(d, dest, seen, before);
      ghost var step := StepOf(d, dest, before);
      var eof, next, words' := DecodeNext(stream, iter, d, dest, words);
      if next.None? {
        if !eof {
          return None;
        }
        r := Finish(iter, d, dest, words, seen);
        return;
      }
      RecordedTracks(d, words, seen, step.field);
      dest, words, seen := next.value, words', Seen(seen, step.field);
    }
    RunUnfolds(d, dest, seen, stream.Remaining());
    r := Finish(iter, d, dest, words, seen);
  }

  /** `pb_decode`. */
  method DecodeInto(stream: IStream, d: Desc) returns (r: Option<seq<Slot>>)
    requires stream.Valid() && Supported(d)
    modifies stream
    ensures stream.Valid() && stream.End() == old(stream.End())
    ensures r == Decode(d, old(stream.Remaining()))
  {
    hide Supported;
    r := DecodeNoinit(stream, d, Defaults(d));
  }
}
