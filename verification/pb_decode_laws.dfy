// What holds of the decoder on every input: whole fields are read the same
// whatever follows them, so decoding a concatenation is merging, unknown fields
// are invisible, and a decoded struct is always within its declared bounds.
module PbDecodeLaws {
  import opened Basics
  import opened PbWire
  import opened PbDescriptor
  import opened PbEncodeModel
  import opened PbDecodeModel

  // ---- Reading does not look ahead ----

  lemma ReadTagExtend(b: seq<byte>, c: seq<byte>)
    requires ReadTag(b).Tag?
    ensures ReadTag(b + c) == ReadTag(b).(rest := ReadTag(b).rest + c)
  {
    GroupsExtend(b, 5, c);
  }

  lemma SkipFieldExtend(wireType: nat, b: seq<byte>, c: seq<byte>)
    requires Skip(wireType, b).Some?
    ensures Skip(wireType, b + c) == Some(Skip(wireType, b).value + c)
  {
    if wireType == WT_VARINT { SkipExtend(b, c); }
    else if wireType == WT_64BIT { TakeExtend(b, 8, c); }
    else if wireType == WT_STRING { CountedExtend(b, c); }
    else { TakeExtend(b, 4, c); }
  }

  lemma ReadScalarExtend(f: Field, b: seq<byte>, c: seq<byte>)
    requires ReadScalar(f, b).Got?
    ensures ReadScalar(f, b + c) == Got(ReadScalar(f, b).value, ReadScalar(f, b).rest + c)
  {
    if f.ltype.Fixed32? || f.ltype.Fixed64? {
      TakeExtend(b, if f.ltype.Fixed32? then 4 else 8, c);
    } else if f.ltype.Packable() {
      GroupsExtend(b, 10, c);
    } else {
      CountedExtend(b, c);
    }
  }

  lemma {:induction false} ReadValueExtend(f: Field, prior: Value, b: seq<byte>, c: seq<byte>)
    requires ReadValue(f, prior, b).Got?
    ensures ReadValue(f, prior, b + c) == Got(ReadValue(f, prior, b).value, ReadValue(f, prior, b).rest + c)
  {
    if f.ltype.Submessage? { CountedExtend(b, c); } else { ReadScalarExtend(f, b, c); }
  }

  lemma {:induction false} ReadFieldExtend(f: Field, slot: Slot, wireType: nat, b: seq<byte>, c: seq<byte>)
    requires ReadField(f, slot, wireType, b).Got?
    ensures ReadField(f, slot, wireType, b + c) ==
            Got(ReadField(f, slot, wireType, b).value, ReadField(f, slot, wireType, b).rest + c)
  {
    hide ReadValue, Counted;
    match f.htype
    case Required => ReadValueExtend(f, slot.v, b, c);
    case Optional => ReadValueExtend(f, slot.v, b, c);
    case Repeated =>
      if wireType == WT_STRING && f.ltype.Packable() { CountedExtend(b, c); } else { ReadValueExtend(f, Int(0), b, c); }
    case OneOf => ReadValueExtend(f, Int(0), b, c);
  }

  lemma {:induction false} StepExtend(d: Desc, slots: seq<Slot>, b: seq<byte>, c: seq<byte>)
    requires |slots| == NumSlots(d) && StepOf(d, slots, b).Next?
    ensures StepOf(d, slots, b + c) == StepOf(d, slots, b).(rest := StepOf(d, slots, b).rest + c)
  {
    hide ReadField, Skip, Find, ReadTag;
    ReadTagExtend(b, c);
    var tag := ReadTag(b);
    match Find(d, tag.number)
    case None => SkipFieldExtend(tag.wireType, tag.rest, c);
    case Some(i) => ReadFieldExtend(d.fields[i], slots[SlotIndex(d, i)], tag.wireType, tag.rest, c);
  }

  // ---- Concatenation is merge ----

  /** Decoding `b` into `slots` reads whole fields up to the last byte. */
  predicate Whole(d: Desc, slots: seq<Slot>, b: seq<byte>)
    requires |slots| == NumSlots(d)
    decreases |b|
  {
    b == [] || (var r := StepOf(d, slots, b); r.Next? && Whole(d, r.slots, r.rest))
  }

  /** The loop over `a + b` is the loop over `a` followed by the loop over `b`. */
  lemma {:induction false} RunAppend(d: Desc, slots: seq<Slot>, seen: set<nat>, a: seq<byte>, b: seq<byte>)
    requires |slots| == NumSlots(d) && Whole(d, slots, a)
    ensures Run(d, slots, seen, a).Finished?
    ensures Run(d, slots, seen, a + b) == Run(d, Run(d, slots, seen, a).slots, Run(d, slots, seen, a).seen, b)
    decreases |a|
  {
    if a == [] {
      assert a + b == b;
    } else {
      StepExtend(d, slots, a, b);
      var r := StepOf(d, slots, a);
      RunAppend(d, r.slots, Seen(seen, r.field), r.rest, b);
    }
  }

  /** Fields seen earlier only add to those seen; they do not change the struct. */
  lemma {:induction false} RunSeen(d: Desc, slots: seq<Slot>, seen: set<nat>, b: seq<byte>)
    requires |slots| == NumSlots(d)
    ensures Run(d, slots, seen, b) ==
            (var r := Run(d, slots, {}, b); if r.Finished? then r.(seen := seen + r.seen) else r)
    decreases |b|
  {
    if b != [] && StepOf(d, slots, b).Next? {
      var r := StepOf(d, slots, b);
      RunSeen(d, r.slots, Seen(seen, r.field), r.rest);
      RunSeen(d, r.slots, Seen({}, r.field), r.rest);
      var last := Run(d, r.slots, {}, r.rest);
      if last.Finished? {
        assert Seen(seen, r.field) + last.seen == seen + (Seen({}, r.field) + last.seen);
      }
    } else {
      assert seen + {} == seen;
    }
  }

  /** Merge: when `a` is whole fields and decoding `a` and then `b` into the same
      struct succeeds, decoding `a + b` succeeds with the same struct. */
  lemma ConcatenationIsMerge(d: Desc, slots: seq<Slot>, a: seq<byte>, b: seq<byte>)
    requires |slots| == NumSlots(d) && Whole(d, slots, a) && Dec(d, slots, a).Some?
    requires Dec(d, Dec(d, slots, a).value, b).Some?
    ensures Dec(d, slots, a + b) == Dec(d, Dec(d, slots, a).value, b)
  {
    RunAppend(d, slots, {}, a, b);
    var r := Run(d, slots, {}, a);
    RunSeen(d, r.slots, r.seen, b);
  }

  /** A varint of which only continuation bytes have arrived: it is cut off, and from
      the sixth byte on it is too long. */
  lemma {:induction false} CutOffGroups(t: seq<byte>, limit: nat)
    requires forall k :: 0 <= k < |t| ==> t[k] >= 128
    ensures Groups(t, limit) == Bad(if |t| <= limit then [] else t[limit..])
    decreases limit
  {
    if limit > 0 && t != [] {
      forall k | 0 <= k < |t| - 1 ensures t[1..][k] >= 128 { assert t[k + 1] >= 128; }
      CutOffGroups(t[1..], limit - 1);
    }
  }

  /** Whole fields are needed. A zero tag, however long its varint, ends the message
      and hides what follows it; a tag cut off by the end of the stream is accepted in
      silence, wherever it is cut off; a tag that is too long is an error. */
  lemma EndsOfMessage(d: Desc, slots: seq<Slot>, a: seq<byte>, zero: seq<byte>, tag: seq<byte>)
    requires |slots| == NumSlots(d) && Whole(d, slots, a)
    requires Varint32(zero).Got? && Varint32(zero).value == 0
    requires tag != [] && forall k :: 0 <= k < |tag| ==> tag[k] >= 128
    ensures Dec(d, slots, a + zero) == Dec(d, slots, a)
    ensures Dec(d, slots, a + tag) == if |tag| <= 5 then Dec(d, slots, a) else None
  {
    RunAppend(d, slots, {}, a, zero);
    RunAppend(d, slots, {}, a, tag);
    CutOffGroups(tag, 5);
    assert ReadTag(zero).EndOfMessage?;
    assert if |tag| <= 5 then ReadTag(tag).EndOfMessage? else ReadTag(tag).BadTag?;
    hide ReadTag, Whole;
  }

  /** The bytes of field `f` carrying `body` as a counted string. */
  function StringField(f: Field, body: seq<byte>): seq<byte> {
    TagBytes(f, WT_STRING) + CountedBytes(body)
  }

  lemma TagRoundTrip(tag: nat, wireType: nat, c: seq<byte>)
    requires 0 < tag < 0x2000_0000 && wireType < 8
    ensures ReadTag(VarintBytes(8 * tag + wireType) + c) == Tag(tag, wireType, c)
  {
    Varint32RoundTrip(8 * tag + wireType, c);
  }

  lemma FieldTagRoundTrip(f: Field, wireType: nat, c: seq<byte>)
    requires 0 < f.tag < 0x2000_0000 && wireType < 8
    ensures ReadTag(TagBytes(f, wireType) + c) == Tag(f.tag, wireType, c)
  {
    assert ToU64(8 * f.tag + wireType) == 8 * f.tag + wireType;
    TagRoundTrip(f.tag, wireType, c);
    hide ReadTag, VarintBytes;
  }

  lemma StepOnField(d: Desc, slots: seq<Slot>, i: nat, wireType: nat, c: seq<byte>)
    requires |slots| == NumSlots(d) && DescOk(d) && i < |d.fields| && wireType < 8
    ensures StepOf(d, slots, TagBytes(d.fields[i], wireType) + c) ==
            (var s := SlotIndex(d, i);
             var r := ReadField(d.fields[i], slots[s], wireType, c);
             if r.Got? then Next(Some(i), slots[s := r.value], r.rest) else Fail)
  {
    assert FieldOk(d.fields[i]);
    FieldTagRoundTrip(d.fields[i], wireType, c);
    FindIsUnique(d, i);
    hide ReadField, ReadTag, Find, DescOk, TagBytes, FieldOk;
  }

  /** The slot of a required or optional submessage field. */
  predicate HoldsStruct(f: Field, slot: Slot) {
    && f.ltype.Submessage?
    && ((f.htype.Required? && slot.Plain?) || (f.htype.Optional? && !f.Implicit() && slot.Maybe?))
    && slot.v.Record? && |slot.v.slots| == NumSlots(f.sub)
  }

  function WithStruct(f: Field, slots: seq<Slot>): Slot {
    if f.htype.Required? then Plain(Record(slots)) else Maybe(true, Record(slots))
  }

  /** Two occurrences of one optional or required submessage are merged: they have
      the effect of a single occurrence with their contents concatenated. */
  lemma SubmessagesMerge(d: Desc, slots: seq<Slot>, i: nat, a: seq<byte>, b: seq<byte>, seen: set<nat>, c: seq<byte>)
    requires |slots| == NumSlots(d) && DescOk(d) && i < |d.fields| && |a + b| < U32
    requires HoldsStruct(d.fields[i], slots[SlotIndex(d, i)])
    requires var sub := slots[SlotIndex(d, i)].v.slots;
             var desc := d.fields[i].sub;
             Whole(desc, sub, a) && Dec(desc, sub, a).Some? && Dec(desc, Dec(desc, sub, a).value, b).Some?
    ensures Run(d, slots, seen, StringField(d.fields[i], a) + (StringField(d.fields[i], b) + c)) ==
            Run(d, slots, seen, StringField(d.fields[i], a + b) + c)
  {
    var f, s := d.fields[i], SlotIndex(d, i);
    var sub := slots[s].v.slots;
    ConcatenationIsMerge(f.sub, sub, a, b);
    OneSubmessage(d, slots, i, a, seen, StringField(f, b) + c);
    var slots1 := slots[s := WithStruct(f, Dec(f.sub, sub, a).value)];
    OneSubmessage(d, slots1, i, b, seen + {i}, c);
    OneSubmessage(d, slots, i, a + b, seen, c);
    hide Run, Dec, DescOk;
    assert seen + {i} + {i} == seen + {i};
    var last := WithStruct(f, Dec(f.sub, sub, a + b).value);
    assert slots1[s := last] == slots[s := last];
  }

  lemma OneSubmessage(d: Desc, slots: seq<Slot>, i: nat, body: seq<byte>, seen: set<nat>, c: seq<byte>)
    requires |slots| == NumSlots(d) && DescOk(d) && i < |d.fields| && |body| < U32
    requires HoldsStruct(d.fields[i], slots[SlotIndex(d, i)])
    requires Dec(d.fields[i].sub, slots[SlotIndex(d, i)].v.slots, body).Some?
    ensures var s := SlotIndex(d, i);
            Run(d, slots, seen, StringField(d.fields[i], body) + c) ==
            Run(d, slots[s := WithStruct(d.fields[i], Dec(d.fields[i].sub, slots[s].v.slots, body).value)], seen + {i}, c)
  {
    var f, slot := d.fields[i], slots[SlotIndex(d, i)];
    hide *;
    StructIsRead(f, slot, body, c);
    StringFieldIs(f, body, c);
    StepOnField(d, slots, i, WT_STRING, CountedBytes(body) + c);
    RunStep(d, slots, seen, StringField(f, body) + c);
  }

  lemma StringFieldIs(f: Field, body: seq<byte>, c: seq<byte>)
    ensures StringField(f, body) + c == TagBytes(f, WT_STRING) + (CountedBytes(body) + c)
  {
    hide TagBytes, CountedBytes;
  }

  lemma StructIsRead(f: Field, slot: Slot, body: seq<byte>, c: seq<byte>)
    requires HoldsStruct(f, slot) && |body| < U32 && Dec(f.sub, slot.v.slots, body).Some?
    ensures ReadField(f, slot, WT_STRING, CountedBytes(body) + c) == Got(WithStruct(f, Dec(f.sub, slot.v.slots, body).value), c)
  {
    CountedRoundTrip(body, c);
    hide Counted, CountedBytes, Dec;
  }

  lemma RunStep(d: Desc, slots: seq<Slot>, seen: set<nat>, b: seq<byte>)
    requires |slots| == NumSlots(d)
    ensures StepOf(d, slots, b).Fail? ==> Run(d, slots, seen, b) == Failed
    ensures StepOf(d, slots, b).Next? ==>
              var r := StepOf(d, slots, b);
              Run(d, slots, seen, b) == Run(d, r.slots, Seen(seen, r.field), r.rest)
    ensures forall i :: Seen(seen, Some(i)) == seen + {i}
  {
    hide StepOf;
    NothingToRead(d, slots);
  }

  lemma NothingToRead(d: Desc, slots: seq<Slot>)
    requires |slots| == NumSlots(d)
    ensures StepOf(d, slots, []).Stop?
  {
  }

  // ---- Packed and unpacked entries ----

  /** An entry of an array of integers may stand by itself or in a packed string: both
      have the same effect, an error for a full array included. */
  lemma UnpackedIsPacked(d: Desc, slots: seq<Slot>, i: nat, wireType: nat, entry: seq<byte>, seen: set<nat>, c: seq<byte>)
    requires |slots| == NumSlots(d) && DescOk(d) && i < |d.fields| && wireType < 8 && wireType != 2
    requires d.fields[i].htype.Repeated? && d.fields[i].ltype.Packable()
    requires |entry| < U32 && ReadScalar(d.fields[i], entry).Got? && ReadScalar(d.fields[i], entry).rest == []
    ensures Run(d, slots, seen, TagBytes(d.fields[i], wireType) + (entry + c))
            == Run(d, slots, seen, StringField(d.fields[i], entry) + c)
  {
    var f, slot := d.fields[i], slots[SlotIndex(d, i)];
    EntryEitherWay(f, slot, wireType, entry, c);
    StepOnField(d, slots, i, wireType, entry + c);
    StepOnField(d, slots, i, WT_STRING, CountedBytes(entry) + c);
    Associates(TagBytes(f, WT_STRING), CountedBytes(entry), c);
    hide DescOk, ReadField, ReadScalar, CountedBytes, TagBytes, StepOf;
  }

  lemma EntryEitherWay(f: Field, slot: Slot, wireType: nat, entry: seq<byte>, c: seq<byte>)
    requires f.htype.Repeated? && f.ltype.Packable() && wireType != 2
    requires |entry| < U32 && ReadScalar(f, entry).Got? && ReadScalar(f, entry).rest == []
    ensures var one, packed := ReadField(f, slot, wireType, entry + c), ReadField(f, slot, WT_STRING, CountedBytes(entry) + c);
            if one.Got? then packed == one && one.rest == c else packed.Bad?
  {
    ReadScalarExtend(f, entry, c);
    assert [] + c == c;
    CountedRoundTrip(entry, c);
    hide ReadScalar, Counted, CountedBytes;
    if slot.Many? { OnePacked(f, slot.items, entry); }
  }

  lemma OnePacked(f: Field, items: seq<Value>, entry: seq<byte>)
    requires ReadScalar(f, entry).Got? && ReadScalar(f, entry).rest == []
    ensures ReadPacked(f, items, entry) == if |items| >= f.arraySize then None else Some(items + [ReadScalar(f, entry).value])
  {
    hide ReadScalar;
    assert ReadPacked(f, items + [ReadScalar(f, entry).value], []) == Some(items + [ReadScalar(f, entry).value]);
  }

  // ---- Unknown fields ----

  /** The payload of a field of this wire type, its varints as long as they like: for
      a varint one last byte without continuation bit, else as many bytes as the type
      or the length in front says. */
  predicate WellFormed(payload: seq<byte>, wireType: nat) {
    if wireType == 0 then payload != [] && payload[|payload| - 1] < 128 && forall k :: 0 <= k < |payload| - 1 ==> payload[k] >= 128
    else if wireType == 1 then |payload| == 8
    else if wireType == 5 then |payload| == 4
    else wireType == 2 && Varint32(payload).Got? && |Varint32(payload).rest| == Varint32(payload).value
  }

  /** A field with this tag, as the decoder takes tags, and a well-formed payload. */
  predicate FieldBytes(u: seq<byte>, tag: nat, wireType: nat) {
    ReadTag(u).Tag? && ReadTag(u).number == tag && ReadTag(u).wireType == wireType && WellFormed(ReadTag(u).rest, wireType)
  }

  /** The skipper stops at the first byte without continuation bit. */
  lemma {:induction false} SkipVarintExact(payload: seq<byte>)
    ensures SkipVarint(payload) == Some([]) <==>
            payload != [] && payload[|payload| - 1] < 128 && forall k :: 0 <= k < |payload| - 1 ==> payload[k] >= 128
  {
    if |payload| > 1 && payload[0] >= 128 {
      var rest := payload[1..];
      SkipVarintExact(rest);
      assert rest[|rest| - 1] == payload[|payload| - 1];
      assert forall k :: 0 <= k < |rest| - 1 ==> rest[k] == payload[k + 1];
      assert forall k :: 0 < k < |payload| - 1 ==> payload[k] == rest[k - 1];
    }
  }

  /** Skipping consumes a payload just to its end iff it is well formed, and then
      whatever follows it. */
  lemma SkipIsExact(payload: seq<byte>, wireType: nat, c: seq<byte>)
    ensures Skip(wireType, payload) == Some([]) <==> WellFormed(payload, wireType)
    ensures WellFormed(payload, wireType) ==> Skip(wireType, payload + c) == Some(c)
  {
    SkipVarintExact(payload);
    hide SkipVarint, Groups;
    if WellFormed(payload, wireType) {
      SkipFieldExtend(wireType, payload, c);
      assert [] + c == c;
    }
  }

  lemma StepOnUnknown(d: Desc, slots: seq<Slot>, u: seq<byte>, tag: nat, wireType: nat, b: seq<byte>)
    requires |slots| == NumSlots(d) && FieldBytes(u, tag, wireType)
    requires forall i :: 0 <= i < |d.fields| ==> d.fields[i].tag != tag
    ensures StepOf(d, slots, u + b) == Next(None, slots, b)
  {
    ReadTagExtend(u, b);
    SkipIsExact(ReadTag(u).rest, wireType, b);
    hide Skip, ReadTag, WellFormed;
  }

  /** Inserting, at any field boundary, a well-formed field whose tag the
      descriptor does not have changes neither the result nor the struct. */
  lemma UnknownFieldIsInvisible(d: Desc, slots: seq<Slot>, a: seq<byte>, u: seq<byte>, tag: nat, wireType: nat, b: seq<byte>)
    requires |slots| == NumSlots(d) && Whole(d, slots, a)
    requires FieldBytes(u, tag, wireType)
    requires forall i :: 0 <= i < |d.fields| ==> d.fields[i].tag != tag
    ensures Dec(d, slots, a + u + b) == Dec(d, slots, a + b)
  {
    assert u != [];
    hide FieldBytes, StepOf;
    assert a + u + b == a + (u + b);
    RunAppend(d, slots, {}, a, b);
    RunAppend(d, slots, {}, a, u + b);
    var r := Run(d, slots, {}, a);
    StepOnUnknown(d, r.slots, u, tag, wireType, b);
    assert Run(d, r.slots, r.seen, u + b) == Run(d, r.slots, Seen(r.seen, None), b);
  }

  // ---- Decoded structs stay within their declared bounds ----

  /** A counted string is accepted iff its buffer has room for it, for a string with a
      terminator; where the length is fixed it has to be that one, or zero, which
      stands for all zeros. */
  lemma BlobsExactly(f: Field, s: seq<byte>)
    ensures f.ltype.Bytes? ==> DecBlob(f, s) == if 4 + |s| <= f.dataSize then Some(s) else None
    ensures f.ltype.String? ==> (DecBlob(f, s).Some? <==> |s| < f.dataSize)
    ensures f.ltype.String? && |s| < f.dataSize && (forall k :: 0 <= k < |s| ==> s[k] != 0) ==> DecBlob(f, s) == Some(s)
    ensures f.ltype.FixedBytes? ==> (DecBlob(f, s).Some? <==> |s| == f.dataSize || s == [])
    ensures f.ltype.FixedBytes? && |s| == f.dataSize ==> DecBlob(f, s) == Some(s)
    ensures f.ltype.FixedBytes? && s == [] ==> DecBlob(f, s) == Some(seq(f.dataSize, _ => 0))
  {
  }

  lemma DecIntInRange(f: Field, u: nat)
    requires u < U64 && f.ltype.Packable() && IntSizeOk(f) && DecInt(f, u).Some?
    ensures IntInRange(f, DecInt(f, u).value)
  {
  }

  /** The integer that the varint `u` stands for: sign-extended, for a field of up to
      32 bits from its low 32 bits, or zigzag, or as it is. */
  function WireInt(f: Field, u: nat): int
    requires u < U64
  {
    if f.ltype.Varint? then Signed(u, if f.dataSize == 8 then U64 else U32)
    else if f.ltype.Svarint? then Unzigzag(u)
    else u
  }

  /** The casts change nothing or are found out: an integer is accepted, unchanged,
      iff it fits the C type of its field. */
  lemma DecIntExactly(f: Field, u: nat)
    requires u < U64 && (f.ltype.Varint? || f.ltype.Uvarint? || f.ltype.Svarint?) && IntSizeOk(f)
    ensures DecInt(f, u) == if IntInRange(f, WireInt(f, u)) then Some(WireInt(f, u)) else None
  {
    hide Unzigzag;
    var n := WireInt(f, u);
    if f.ltype.Varint? || f.ltype.Svarint? { CastExactly(n, Width(f)); }
    if f.ltype.Uvarint? && u >= Width(f) { assert u % Width(f) < Width(f); }
  }

  /** Casting to a signed type of one of the four widths keeps just the numbers in
      its range. */
  lemma CastExactly(n: int, width: nat)
    requires width == 0x100 || width == U16 || width == U32 || width == U64
    ensures Signed(ToU64(n), width) == n <==> 0 - width / 2 <= n < width / 2
  {
    if 0 - width / 2 <= n < width / 2 {
      if n >= 0 {
        assert ToU64(n) == n;
      } else {
        assert ToU64(n) == n + U64;
        if width == 0x100 { assert (n + U64) % 0x100 == n + 0x100; }
        else if width == U16 { assert (n + U64) % U16 == n + U16; }
        else if width == U32 { assert (n + U64) % U32 == n + U32; }
      }
    }
  }

  lemma ReadScalarTyped(f: Field, b: seq<byte>)
    requires FieldOk(f) && !f.ltype.Submessage? && ReadScalar(f, b).Got?
    ensures ScalarTyped(f, ReadScalar(f, b).value)
  {
    if f.ltype.Fixed32? || f.ltype.Fixed64? {
      FromLittleEndianBound(Take(b, if f.ltype.Fixed32? then 4 else 8).value);
      PowersOf256();
    } else if f.ltype.Packable() {
      DecIntInRange(f, Varint64(b).value);
    }
  }

  lemma {:induction false} ReadPackedTyped(f: Field, items: seq<Value>, body: seq<byte>)
    requires FieldOk(f) && f.ltype.Packable() && ReadPacked(f, items, body).Some? && |items| <= f.arraySize
    requires forall k :: 0 <= k < |items| ==> ValueTyped(f, items[k])
    ensures var r := ReadPacked(f, items, body).value;
            |r| <= f.arraySize && forall k :: 0 <= k < |r| ==> ValueTyped(f, r[k])
    decreases |body|
  {
    if body != [] {
      ReadScalarTyped(f, body);
      var r := ReadScalar(f, body);
      ReadPackedTyped(f, items + [r.value], r.rest);
    }
  }

  lemma {:induction false} ReadValueTyped(f: Field, prior: Value, b: seq<byte>)
    requires FieldOk(f) && ReadValue(f, prior, b).Got?
    requires f.ltype.Submessage? && (f.htype.Required? || f.htype.Optional?) ==> ValueTyped(f, prior)
    ensures ValueTyped(f, ReadValue(f, prior, b).value)
    decreases |b|, 0
  {
    if f.ltype.Submessage? {
      DefaultsTyped(f.sub);
      DecKeepsTyped(f.sub, Target(f, prior).slots, Counted(b).value);
    } else {
      ReadScalarTyped(f, b);
    }
  }

  lemma {:induction false} ReadFieldTyped(f: Field, slot: Slot, wireType: nat, b: seq<byte>)
    requires FieldOk(f) && SlotTyped(f, slot) && ReadField(f, slot, wireType, b).Got?
    ensures SlotTyped(f, ReadField(f, slot, wireType, b).value)
    decreases |b|, 1
  {
    hide ReadValue, ReadScalar, ReadPacked, ScalarTyped, DescOk;
    match f.htype
    case Required => ReadValueTyped(f, slot.v, b);
    case Optional => ReadValueTyped(f, slot.v, b);
    case Repeated =>
      if wireType == WT_STRING && f.ltype.Packable() {
        ReadPackedTyped(f, slot.items, Counted(b).value);
      } else {
        ReadValueTyped(f, Int(0), b);
      }
    case OneOf => ReadValueTyped(f, Int(0), b);
  }

  lemma {:induction false} RunKeepsTyped(d: Desc, slots: seq<Slot>, seen: set<nat>, b: seq<byte>)
    requires DescOk(d) && Typed(d, slots) && Run(d, slots, seen, b).Finished?
    ensures Typed(d, Run(d, slots, seen, b).slots)
    decreases |b|, 2
  {
    assert |slots| == NumSlots(d);
    hide Typed, DescOk, StepOf;
    if b != [] && StepOf(d, slots, b).Next? {
      var r := StepOf(d, slots, b);
      StepKeepsTyped(d, slots, b);
      RunKeepsTyped(d, r.slots, Seen(seen, r.field), r.rest);
    }
  }

  /** Writing a slot keeps the other fields typed: those of the same union are no
      longer chosen. */
  lemma {:induction false} StepKeepsTyped(d: Desc, slots: seq<Slot>, b: seq<byte>)
    requires DescOk(d) && Typed(d, slots) && StepOf(d, slots, b).Next?
    ensures Typed(d, StepOf(d, slots, b).slots)
    decreases |b|, 1
  {
    var tag := ReadTag(b);
    if Find(d, tag.number).None? { return; }
    var i := Find(d, tag.number).value;
    var s := SlotIndex(d, i);
    assert FieldOk(d.fields[i]);
    ReadFieldTyped(d.fields[i], slots[s], tag.wireType, tag.rest);
    var slot := ReadField(d.fields[i], slots[s], tag.wireType, tag.rest).value;
    WriteSlotTyped(d, slots, i, slot);
  }

  lemma WriteSlotTyped(d: Desc, slots: seq<Slot>, i: nat, slot: Slot)
    requires DescOk(d) && Typed(d, slots) && i < |d.fields| && SlotTyped(d.fields[i], slot)
    requires slot.Choice? ==> slot.which == d.fields[i].tag
    ensures Typed(d, slots[SlotIndex(d, i) := slot])
  {
    var slots' := slots[SlotIndex(d, i) := slot];
    forall j | 0 <= j < |d.fields| ensures SlotTyped(d.fields[j], slots'[SlotIndex(d, j)]) {
      if i <= j { SlotsAscend(d, i, j); } else { SlotsAscend(d, j, i); }
      assert i != j ==> d.fields[i].tag != d.fields[j].tag;
    }
  }

  /** Whatever bytes arrive, decoding keeps a struct well typed: integers fit their
      C types, strings and byte arrays fit their buffers, no array exceeds its
      capacity, and a union's content has the type of the member chosen. */
  lemma {:induction false} DecKeepsTyped(d: Desc, slots: seq<Slot>, b: seq<byte>)
    requires DescOk(d) && Typed(d, slots) && Dec(d, slots, b).Some?
    ensures Typed(d, Dec(d, slots, b).value)
    decreases |b|, 3
  {
    RunKeepsTyped(d, slots, {}, b);
  }
}
