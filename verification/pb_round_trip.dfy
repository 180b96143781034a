// Decoding what was encoded: the codec round trip, for every descriptor tree.
module PbRoundTrip {
  import opened Basics
  import opened PbWire
  import opened PbDescriptor
  import opened PbEncodeModel
  import opened PbDecodeModel
  import opened PbDecodeLaws

  // ---- A struct up to presence ----

  function NormValue(f: Field, v: Value): Value
    decreases f, 0
  {
    if f.ltype.Submessage? && v.Record? && |v.slots| == NumSlots(f.sub) then Record(Norm(f.sub, v.slots)) else v
  }

  function NormItems(f: Field, items: seq<Value>): (r: seq<Value>)
    ensures |r| == |items|
    decreases f, 1, |items|
  {
    if items == [] then [] else [NormValue(f, items[0])] + NormItems(f, items[1..])
  }

  /** `base` with field `f` of `slot` put in, if it is present there. */
  function Restore(f: Field, slot: Slot, base: Slot): Slot
    decreases f, 2
  {
    match slot
    case Plain(v) => Plain(NormValue(f, v))
    case Maybe(has, v) => if has then Maybe(true, NormValue(f, v)) else base
    case Many(items) => Many(NormItems(f, items))
    case NoChoice => base
    case Choice(which, v) => if which == f.tag then Choice(which, NormValue(f, v)) else base
  }

  /** The defaults with the first `n` fields of `slots` put in. */
  function NormTo(d: Desc, slots: seq<Slot>, n: nat): (r: seq<Slot>)
    requires |slots| == NumSlots(d) && n <= |d.fields|
    ensures |r| == NumSlots(d)
    decreases d, n
  {
    if n == 0 then Defaults(d)
    else
      var base := NormTo(d, slots, n - 1);
      var s := SlotIndex(d, n - 1);
      base[s := Restore(d.fields[n - 1], slots[s], base[s])]
  }

  /** The struct with everything absent replaced by its default: values whose has_
      flag is false, unions whose which_ tag names no member. */
  function Norm(d: Desc, slots: seq<Slot>): (r: seq<Slot>)
    requires |slots| == NumSlots(d)
    ensures |r| == NumSlots(d)
    decreases d, |d.fields| + 1
  {
    NormTo(d, slots, |d.fields|)
  }

  // ---- Strings that fit ----

  /** The decoder wants room for a terminator; the encoder does not insist. */
  ghost predicate ValueReadable(f: Field, v: Value)
    decreases f, 0
  {
    && (f.ltype.String? && v.Blob? ==> |v.bytes| < f.dataSize)
    && (f.ltype.Submessage? && v.Record? && |v.slots| == NumSlots(f.sub) ==> Readable(f.sub, v.slots))
  }

  ghost predicate AllReadable(f: Field, items: seq<Value>)
    decreases f, 1
  {
    forall k :: 0 <= k < |items| ==> ValueReadable(f, items[k])
  }

  ghost predicate SlotReadable(f: Field, slot: Slot)
    decreases f, 2
  {
    match slot
    case Plain(v) => (f.Implicit() && IsZero(f, v)) || ValueReadable(f, v)
    case Maybe(has, v) => has ==> ValueReadable(f, v)
    case Many(items) => AllReadable(f, items)
    case NoChoice => true
    case Choice(which, v) => which == f.tag ==> ValueReadable(f, v)
  }

  /** Every string that is present, at any depth, is terminated inside its buffer. */
  ghost predicate Readable(d: Desc, slots: seq<Slot>)
    requires |slots| == NumSlots(d)
    decreases d
  {
    forall i :: 0 <= i < |d.fields| ==> SlotReadable(d.fields[i], slots[SlotIndex(d, i)])
  }

  ghost predicate ReadableFrom(d: Desc, slots: seq<Slot>, i: nat)
    requires |slots| == NumSlots(d)
  {
    forall j :: i <= j < |d.fields| ==> SlotReadable(d.fields[j], slots[SlotIndex(d, j)])
  }

  // ---- Scalars ----

  lemma SignedOfUnsigned(n: int, width: nat)
    requires width == 0x100 || width == U16 || width == U32 || width == U64
    requires 0 - width / 2 <= n < width / 2
    ensures Signed(ToU64(n), width) == n
  {
    if n < 0 {
      assert ToU64(n) == n + U64;
      assert (n + U64) % width == n + width;
    }
  }

  lemma SignedTwice(n: int)
    requires -0x8000_0000 <= n < 0x8000_0000
    ensures Signed(ToU64(n), U32) == n
  {
  }

  lemma IntRoundTrip(f: Field, n: int)
    requires f.ltype.Varint? || f.ltype.Uvarint? || f.ltype.Svarint?
    requires IntSizeOk(f) && IntInRange(f, n)
    ensures EncInt(f.ltype, n) < U64 && DecInt(f, EncInt(f.ltype, n)) == Some(n)
  {
    if f.ltype.Uvarint? { return; }
    SignedOfUnsigned(n, Width(f));
    if f.ltype.Svarint? {
      ZigzagRoundTrip(n);
      hide Zigzag, Unzigzag, Signed, ToU64;
    } else {
      if f.dataSize != 8 { SignedTwice(n); }
      hide Signed, ToU64;
    }
  }

  lemma FixedRoundTrip(f: Field, n: nat, c: seq<byte>)
    requires (f.ltype.Fixed32? && n < U32) || (f.ltype.Fixed64? && n < U64)
    ensures ReadScalar(f, LittleEndian(n, if f.ltype.Fixed32? then 4 else 8) + c) == Got(Int(n), c)
  {
    var k := if f.ltype.Fixed32? then 4 else 8;
    PowersOf256();
    LittleEndianRoundTrip(n, k);
    var b := LittleEndian(n, k);
    assert (b + c)[..k] == b && (b + c)[k..] == c;
  }

  lemma VarintRoundTrip(f: Field, n: int, c: seq<byte>)
    requires f.ltype.Varint? || f.ltype.Uvarint? || f.ltype.Svarint?
    requires IntSizeOk(f) && IntInRange(f, n)
    ensures ReadScalar(f, VarintBytes(EncInt(f.ltype, n)) + c) == Got(Int(n), c)
  {
    IntRoundTrip(f, n);
    Varint64RoundTrip(EncInt(f.ltype, n), c);
    hide EncInt, DecInt, Varint64, VarintBytes, IntInRange, IntSizeOk;
  }

  lemma BlobRoundTrip(f: Field, v: Value, c: seq<byte>)
    requires FieldOk(f) && ScalarTyped(f, v) && !f.ltype.Packable() && |v.bytes| < U32
    ensures var r := ReadScalar(f, CountedBytes(v.bytes) + c);
            if ValueReadable(f, v) then r == Got(v, c) else r.Bad?
  {
    CountedRoundTrip(v.bytes, c);
    hide Counted, CountedBytes, DescOk;
  }

  lemma ScalarRoundTrip(f: Field, v: Value, c: seq<byte>)
    requires FieldOk(f) && ScalarTyped(f, v) && EncScalar(f, v).Ok? && |EncScalar(f, v).value| < U32
    ensures var r := ReadScalar(f, EncScalar(f, v).value + c);
            if ValueReadable(f, v) then r == Got(v, c) else r.Bad?
  {
    hide ReadScalar, VarintBytes, LittleEndian, CountedBytes, EncInt, DescOk;
    if f.ltype.Fixed32? || f.ltype.Fixed64? {
      FixedRoundTrip(f, v.n, c);
    } else if f.ltype.Packable() {
      VarintRoundTrip(f, v.n, c);
    } else {
      BlobRoundTrip(f, v, c);
    }
  }

  lemma {:induction false} PackedRoundTrip(f: Field, before: seq<Value>, items: seq<Value>)
    requires FieldOk(f) && f.ltype.Packable() && |before| + |items| <= f.arraySize
    requires forall k :: 0 <= k < |items| ==> ScalarTyped(f, items[k])
    requires PackedBody(f, items).Ok? && |PackedBody(f, items).value| < U32
    ensures ReadPacked(f, before, PackedBody(f, items).value) == Some(before + items)
    decreases |items|
  {
    if items == [] {
      assert before + items == before;
    } else {
      var rest := PackedBody(f, items[1..]).value;
      ScalarRoundTrip(f, items[0], rest);
      PackedRoundTrip(f, before + [items[0]], items[1..]);
      assert before + [items[0]] + items[1..] == before + items;
    }
  }

  lemma {:induction false} ScalarsStay(f: Field, items: seq<Value>)
    requires !f.ltype.Submessage?
    ensures NormItems(f, items) == items
  {
    if items != [] { ScalarsStay(f, items[1..]); }
  }

  // ---- Values, fields, messages ----

  lemma SubmessageIsCounted(f: Field, prior: Value, body: seq<byte>, c: seq<byte>)
    requires f.ltype.Submessage? && |body| < U32 && Target(f, prior) == Record(Defaults(f.sub))
    ensures var r := ReadValue(f, prior, CountedBytes(body) + c);
            var slots := Decode(f.sub, body);
            if slots.Some? then r == Got(Record(slots.value), c) else r.Bad?
  {
    CountedRoundTrip(body, c);
    hide Counted, CountedBytes, Run;
  }

  lemma {:induction false} ValueRoundTrip(f: Field, prior: Value, v: Value, c: seq<byte>)
    requires FieldOk(f) && ValueTyped(f, v) && EncValue(f, v).Ok? && |EncValue(f, v).value| < U32
    requires f.ltype.Submessage? ==> Target(f, prior) == Record(Defaults(f.sub))
    ensures var r := ReadValue(f, prior, EncValue(f, v).value + c);
            if ValueReadable(f, v) then r == Got(NormValue(f, v), c) else r.Bad?
    decreases f, 0
  {
    hide Counted, CountedBytes, Decode, Norm, Enc, Typed, Readable, DescOk, ReadScalar, EncScalar, ScalarTyped;
    if f.ltype.Submessage? {
      var body := Enc(f.sub, v.slots).value;
      assert |body| < |CountedBytes(body)|;
      RoundTrip(f.sub, v.slots);
      SubmessageIsCounted(f, prior, body, c);
    } else {
      ScalarRoundTrip(f, v, c);
    }
  }

  /** One field of `slots` written as a tag and a value. */
  lemma {:induction false} TaggedRoundTrip(d: Desc, cur: seq<Slot>, i: nat, prior: Value, v: Value, seen: set<nat>, c: seq<byte>)
    requires DescOk(d) && |cur| == NumSlots(d) && i < |d.fields|
    requires ValueTyped(d.fields[i], v) && EncTagged(d.fields[i], v).Ok? && |EncTagged(d.fields[i], v).value| < U32
    requires var f, slot := d.fields[i], cur[SlotIndex(d, i)];
             match f.htype
             case Required => slot == Plain(prior)
             case Optional => if f.Implicit() then slot == Plain(prior) else slot.Maybe? && slot.v == prior
             case Repeated => slot.Many? && |slot.items| < f.arraySize && !f.ltype.Packable()
             case OneOf => true
    requires d.fields[i].ltype.Submessage? ==> Target(d.fields[i], prior) == Record(Defaults(d.fields[i].sub))
    ensures var f, s := d.fields[i], SlotIndex(d, i);
            Run(d, cur, seen, EncTagged(f, v).value + c) ==
            if ValueReadable(f, v) then Run(d, cur[s := Placed(f, cur[s], NormValue(f, v))], seen + {i}, c) else Failed
    decreases d.fields[i], 1
  {
    var f, slot := d.fields[i], cur[SlotIndex(d, i)];
    var base := if f.htype.Repeated? || f.htype.OneOf? then Int(0) else prior;
    hide *;
    FieldOkAt(d, i);
    EncTaggedSplits(f, v, c);
    var b := EncValue(f, v).value + c;
    StepOnField(d, cur, i, WireType(f.ltype), b);
    SameTarget(f, prior, base);
    ValueRoundTrip(f, base, v, c);
    PlaceValue(f, slot, base, b);
    RunStep(d, cur, seen, EncTagged(f, v).value + c);
  }

  lemma EncTaggedSplits(f: Field, v: Value, c: seq<byte>)
    requires EncTagged(f, v).Ok?
    ensures WireType(f.ltype) < 8 && EncValue(f, v).Ok? && |EncValue(f, v).value| < |EncTagged(f, v).value|
    ensures EncTagged(f, v).value + c == TagBytes(f, WireType(f.ltype)) + (EncValue(f, v).value + c)
  {
    hide EncValue, TagBytes;
  }

  lemma SameTarget(f: Field, prior: Value, base: Value)
    requires f.htype.Repeated? || f.htype.OneOf? || base == prior
    ensures Target(f, base) == Target(f, prior)
  {
  }

  /** A field that is read is placed into its slot. */
  lemma PlaceValue(f: Field, slot: Slot, base: Value, b: seq<byte>)
    requires match f.htype
             case Required => slot == Plain(base)
             case Optional => if f.Implicit() then slot == Plain(base) else slot.Maybe? && slot.v == base
             case Repeated => slot.Many? && |slot.items| < f.arraySize && !f.ltype.Packable() && base == Int(0)
             case OneOf => base == Int(0)
    ensures var r := ReadValue(f, base, b);
            var placed := ReadField(f, slot, WireType(f.ltype), b);
            if r.Got? then placed == Got(Placed(f, slot, r.value), r.rest) else placed.Bad?
  {
    hide ReadValue;
  }

  lemma FieldOkAt(d: Desc, i: nat)
    requires DescOk(d) && i < |d.fields|
    ensures FieldOk(d.fields[i])
  {
  }

  /** `slot` after value `v` has been read into it. */
  function Placed(f: Field, slot: Slot, v: Value): Slot {
    match f.htype
    case Required => Plain(v)
    case Optional => if f.Implicit() then Plain(v) else Maybe(true, v)
    case Repeated => if slot.Many? then Many(slot.items + [v]) else slot
    case OneOf => Choice(f.tag, v)
  }

  lemma AllReadableSplit(f: Field, items: seq<Value>)
    requires items != []
    ensures AllReadable(f, items) <==> ValueReadable(f, items[0]) && AllReadable(f, items[1..])
  {
    hide ValueReadable;
    assert forall k :: 0 < k < |items| ==> items[k] == items[1..][k - 1];
  }

  /** The non-packed array field `i` with these entries. */
  function WithItems(d: Desc, cur: seq<Slot>, i: nat, items: seq<Value>): (r: seq<Slot>)
    requires |cur| == NumSlots(d) && i < |d.fields|
    ensures |r| == |cur|
  {
    cur[SlotIndex(d, i) := Many(items)]
  }

  lemma ItemsSplit(f: Field, before: seq<Value>, items: seq<Value>, c: seq<byte>)
    requires items != [] && EncItems(f, items).Ok?
    ensures EncTagged(f, items[0]).Ok? && EncItems(f, items[1..]).Ok?
    ensures |EncTagged(f, items[0]).value| + |EncItems(f, items[1..]).value| == |EncItems(f, items).value|
    ensures EncItems(f, items).value + c == EncTagged(f, items[0]).value + (EncItems(f, items[1..]).value + c)
    ensures before + NormItems(f, items) == before + [NormValue(f, items[0])] + NormItems(f, items[1..])
    ensures AllReadable(f, items) <==> ValueReadable(f, items[0]) && AllReadable(f, items[1..])
  {
    AllReadableSplit(f, items);
    hide EncTagged, AllReadable, NormValue, ValueReadable;
    Associates(EncTagged(f, items[0]).value, EncItems(f, items[1..]).value, c);
    Associates(before, [NormValue(f, items[0])], NormItems(f, items[1..]));
  }

  /** The first entry of an array, read into the array as it is so far. */
  lemma {:induction false} ItemRoundTrip(d: Desc, cur: seq<Slot>, i: nat, before: seq<Value>, v: Value, seen: set<nat>, c: seq<byte>)
    requires DescOk(d) && |cur| == NumSlots(d) && i < |d.fields|
    requires d.fields[i].htype.Repeated? && !d.fields[i].ltype.Packable() && |before| < d.fields[i].arraySize
    requires ValueTyped(d.fields[i], v) && EncTagged(d.fields[i], v).Ok? && |EncTagged(d.fields[i], v).value| < U32
    ensures var f := d.fields[i];
            Run(d, WithItems(d, cur, i, before), seen, EncTagged(f, v).value + c) ==
            if ValueReadable(f, v) then Run(d, WithItems(d, cur, i, before + [NormValue(f, v)]), seen + {i}, c) else Failed
    decreases d.fields[i], 2, 0
  {
    TaggedRoundTrip(d, WithItems(d, cur, i, before), i, Int(0), v, seen, c);
    hide Run, EncTagged, DescOk, ValueTyped, ValueReadable, NormValue;
    var items := before + [NormValue(d.fields[i], v)];
    assert WithItems(d, cur, i, before)[SlotIndex(d, i) := Many(items)] == WithItems(d, cur, i, items);
  }

  lemma NoItems(f: Field, before: seq<Value>, c: seq<byte>)
    ensures EncItems(f, []) == Ok([]) && [] + c == c && before + NormItems(f, []) == before && AllReadable(f, [])
  {
  }

  lemma {:induction false} ItemsRoundTrip(d: Desc, cur: seq<Slot>, i: nat, before: seq<Value>, items: seq<Value>,
                                          seen: set<nat>, c: seq<byte>)
    requires DescOk(d) && |cur| == NumSlots(d) && i < |d.fields|
    requires d.fields[i].htype.Repeated? && !d.fields[i].ltype.Packable() && |before| + |items| <= d.fields[i].arraySize
    requires forall k :: 0 <= k < |items| ==> ValueTyped(d.fields[i], items[k])
    requires EncItems(d.fields[i], items).Ok? && |EncItems(d.fields[i], items).value| < U32
    ensures var f := d.fields[i];
            Run(d, WithItems(d, cur, i, before), seen, EncItems(f, items).value + c) ==
            if AllReadable(f, items)
            then Run(d, WithItems(d, cur, i, before + NormItems(f, items)), if items == [] then seen else seen + {i}, c)
            else Failed
    decreases d.fields[i], 2, |items|
  {
    var f := d.fields[i];
    hide *;
    if items == [] {
      NoItems(f, before, c);
      return;
    }
    ItemsSplit(f, before, items, c);
    ItemRoundTrip(d, cur, i, before, items[0], seen, EncItems(f, items[1..]).value + c);
    ItemsRoundTrip(d, cur, i, before + [NormValue(f, items[0])], items[1..], seen + {i}, c);
    assert seen + {i} + {i} == seen + {i};
  }

  function SeenAfter(seen: set<nat>, i: nat, bytes: seq<byte>): set<nat> {
    if bytes == [] then seen else seen + {i}
  }

  lemma {:induction false} PackedFieldRoundTrip(d: Desc, cur: seq<Slot>, i: nat, items: seq<Value>, seen: set<nat>, c: seq<byte>)
    requires DescOk(d) && |cur| == NumSlots(d) && i < |d.fields| && items != []
    requires var f := d.fields[i]; f.htype.Repeated? && f.ltype.Packable() && cur[SlotIndex(d, i)] == Many([]) && |items| <= f.arraySize
    requires forall k :: 0 <= k < |items| ==> ScalarTyped(d.fields[i], items[k])
    requires PackedBody(d.fields[i], items).Ok? && |PackedBody(d.fields[i], items).value| < U32
    ensures Run(d, cur, seen, EncArray(d.fields[i], items).value + c) ==
            Run(d, cur[SlotIndex(d, i) := Many(items)], seen + {i}, c)
  {
    var f := d.fields[i];
    assert FieldOk(f);
    var body := PackedBody(f, items).value;
    assert EncArray(f, items).value + c == TagBytes(f, WT_STRING) + (CountedBytes(body) + c);
    StepOnField(d, cur, i, WT_STRING, CountedBytes(body) + c);
    CountedRoundTrip(body, c);
    PackedRoundTrip(f, [], items);
    assert [] + items == items;
    hide Counted, CountedBytes, DescOk, StepOf, ReadPacked, PackedBody, ScalarTyped;
  }

  /** One whole field: the loop reads it back into the struct, or fails on a string
      that is not terminated. */
  lemma {:induction false} FieldRoundTrip(d: Desc, slot: Slot, cur: seq<Slot>, i: nat, seen: set<nat>, c: seq<byte>)
    requires DescOk(d) && |cur| == NumSlots(d) && i < |d.fields| && SlotTyped(d.fields[i], slot)
    requires d.fields[i].htype.OneOf? || cur[SlotIndex(d, i)] == DefaultSlot(d.fields[i])
    requires EncField(d.fields[i], slot).Ok? && |EncField(d.fields[i], slot).value| < U32
    ensures var f, s := d.fields[i], SlotIndex(d, i);
            var bytes := EncField(f, slot).value;
            Run(d, cur, seen, bytes + c) ==
            if SlotReadable(f, slot) then Run(d, cur[s := Restore(f, slot, cur[s])], SeenAfter(seen, i, bytes), c) else Failed
    decreases d.fields[i], 3
  {
    var f, s := d.fields[i], SlotIndex(d, i);
    assert FieldOk(f);
    hide Run, EncTagged, DescOk, ValueTyped, ValueReadable, NormValue, Defaults;
    if EncField(f, slot).value == [] {
      AbsentField(f, slot, cur[s]);
      assert [] + c == c && cur[s := cur[s]] == cur;
      return;
    }
    match slot
    case Plain(v) => TaggedRoundTrip(d, cur, i, InitialValue(f), v, seen, c);
    case Maybe(has, v) => TaggedRoundTrip(d, cur, i, InitialValue(f), v, seen, c);
    case Many(items) => ArrayRoundTrip(d, cur, i, items, seen, c);
    case NoChoice =>
    case Choice(which, v) => TaggedRoundTrip(d, cur, i, Int(0), v, seen, c);
  }

  lemma {:induction false} ArrayRoundTrip(d: Desc, cur: seq<Slot>, i: nat, items: seq<Value>, seen: set<nat>, c: seq<byte>)
    requires DescOk(d) && |cur| == NumSlots(d) && i < |d.fields| && items != [] && |items| <= d.fields[i].arraySize
    requires d.fields[i].htype.Repeated? && cur[SlotIndex(d, i)] == Many([])
    requires forall k :: 0 <= k < |items| ==> ValueTyped(d.fields[i], items[k])
    requires EncArray(d.fields[i], items).Ok? && |EncArray(d.fields[i], items).value| < U32
    ensures var f, s := d.fields[i], SlotIndex(d, i);
            Run(d, cur, seen, EncArray(f, items).value + c) ==
            if AllReadable(f, items)
            then Run(d, cur[s := Many(NormItems(f, items))], seen + {i}, c) else Failed
    decreases d.fields[i], 2, |items| + 1
  {
    var f, s := d.fields[i], SlotIndex(d, i);
    hide Run, EncTagged, DescOk, NormValue, NormItems;
    if f.ltype.Packable() {
      PackedFieldRoundTrip(d, cur, i, items, seen, c);
      ScalarsStay(f, items);
    } else {
      hide ValueTyped, ValueReadable;
      ItemsRoundTrip(d, cur, i, [], items, seen, c);
      assert [] + NormItems(f, items) == NormItems(f, items);
      assert WithItems(d, cur, i, []) == cur;
    }
  }

  lemma ItemsWriteSomething(f: Field, items: seq<Value>)
    requires items != [] && EncItems(f, items).Ok?
    ensures EncItems(f, items).value != []
  {
  }

  /** A field that writes nothing is absent, and leaves the decoder's default. */
  lemma {:induction false} AbsentField(f: Field, slot: Slot, base: Slot)
    requires FieldOk(f) && SlotTyped(f, slot) && EncField(f, slot) == Ok([])
    requires f.htype.OneOf? || base == DefaultSlot(f)
    ensures Restore(f, slot, base) == base && SlotReadable(f, slot)
    ensures !f.htype.Required?
  {
    if slot.Many? && slot.items != [] && !f.ltype.Packable() { ItemsWriteSomething(f, slot.items); }
  }

  lemma {:induction false} UntouchedSlot(d: Desc, slots: seq<Slot>, n: nat, i: nat)
    requires |slots| == NumSlots(d) && n <= i < |d.fields| && !d.fields[i].htype.OneOf?
    ensures NormTo(d, slots, n)[SlotIndex(d, i)] == DefaultSlot(d.fields[i])
    decreases n
  {
    if n == 0 {
      DefaultsAt(d, |d.fields|, i);
    } else {
      SlotsAscend(d, n - 1, i);
      UntouchedSlot(d, slots, n - 1, i);
    }
  }

  function BytesOf(d: Desc, slots: seq<Slot>, i: nat): seq<byte>
    requires |slots| == NumSlots(d) && i < |d.fields|
  {
    var r := EncField(d.fields[i], slots[SlotIndex(d, i)]);
    if r.Ok? then r.value else []
  }

  /** The fields seen after reading what fields `i` and on wrote. */
  function SeenFrom(d: Desc, slots: seq<Slot>, i: nat, seen: set<nat>): set<nat>
    requires |slots| == NumSlots(d) && i <= |d.fields|
    decreases |d.fields| - i
  {
    if i == |d.fields| then seen else SeenFrom(d, slots, i + 1, SeenAfter(seen, i, BytesOf(d, slots, i)))
  }

  lemma {:induction false} RequiredAreSeen(d: Desc, slots: seq<Slot>, i: nat, seen: set<nat>)
    requires DescOk(d) && Typed(d, slots) && i <= |d.fields| && EncFrom(d, slots, i).Ok?
    ensures seen <= SeenFrom(d, slots, i, seen)
    ensures forall j :: i <= j < |d.fields| && d.fields[j].htype.Required? ==> j in SeenFrom(d, slots, i, seen)
    decreases |d.fields| - i
  {
    assert |slots| == NumSlots(d);
    hide *;
    SeenFromUnfolds(d, slots, i, seen);
    if i < |d.fields| {
      EncFromSplits(d, slots, i);
      RequiredAreSeen(d, slots, i + 1, SeenAfter(seen, i, BytesOf(d, slots, i)));
      RequiredSeenHere(d, slots, i, seen);
    }
  }

  lemma SeenFromUnfolds(d: Desc, slots: seq<Slot>, i: nat, seen: set<nat>)
    requires |slots| == NumSlots(d) && i <= |d.fields|
    ensures SeenFrom(d, slots, i, seen) ==
            if i == |d.fields| then seen else SeenFrom(d, slots, i + 1, SeenAfter(seen, i, BytesOf(d, slots, i)))
  {
    hide BytesOf, SeenAfter;
  }

  lemma RequiredSeenHere(d: Desc, slots: seq<Slot>, i: nat, seen: set<nat>)
    requires DescOk(d) && Typed(d, slots) && |slots| == NumSlots(d) && i < |d.fields|
    requires EncField(d.fields[i], slots[SlotIndex(d, i)]).Ok?
    requires EncField(d.fields[i], slots[SlotIndex(d, i)]).value == BytesOf(d, slots, i)
    ensures seen <= SeenAfter(seen, i, BytesOf(d, slots, i))
    ensures d.fields[i].htype.Required? ==> i in SeenAfter(seen, i, BytesOf(d, slots, i))
  {
    TypedFields(d, slots, i);
    hide DescOk, Typed, FieldOk, SlotTyped, EncField, BytesOf;
    if d.fields[i].htype.Required? { RequiredIsWritten(d.fields[i], slots[SlotIndex(d, i)]); }
  }

  lemma RequiredIsWritten(f: Field, slot: Slot)
    requires f.htype.Required? && SlotTyped(f, slot) && EncField(f, slot).Ok?
    ensures EncField(f, slot).value != []
  {
  }

  lemma EncFromSplits(d: Desc, slots: seq<Slot>, i: nat)
    requires |slots| == NumSlots(d) && i < |d.fields| && EncFrom(d, slots, i).Ok?
    ensures var here, rest := EncField(d.fields[i], slots[SlotIndex(d, i)]), EncFrom(d, slots, i + 1);
            && here.Ok? && rest.Ok? && here.value == BytesOf(d, slots, i)
            && EncFrom(d, slots, i).value == BytesOf(d, slots, i) + rest.value
  {
    hide EncField;
  }

  lemma TypedFields(d: Desc, slots: seq<Slot>, i: nat)
    requires DescOk(d) && Typed(d, slots) && i < |d.fields|
    ensures |slots| == NumSlots(d) && FieldOk(d.fields[i]) && SlotTyped(d.fields[i], slots[SlotIndex(d, i)])
  {
    hide FieldOk, SlotTyped;
  }

  lemma NormToStep(d: Desc, slots: seq<Slot>, i: nat)
    requires |slots| == NumSlots(d) && i < |d.fields|
    ensures var s, cur := SlotIndex(d, i), NormTo(d, slots, i);
            NormTo(d, slots, i + 1) == cur[s := Restore(d.fields[i], slots[s], cur[s])]
  {
  }

  function BytesFrom(d: Desc, slots: seq<Slot>, i: nat): seq<byte>
    requires |slots| == NumSlots(d) && i <= |d.fields|
  {
    var r := EncFrom(d, slots, i);
    if r.Ok? then r.value else []
  }

  /** Reading what field `i` wrote is one step from `NormTo(i)` to `NormTo(i + 1)`. */
  ghost predicate ReadsOne(d: Desc, slots: seq<Slot>, i: nat, seen: set<nat>, c: seq<byte>)
    requires |slots| == NumSlots(d) && i < |d.fields|
  {
    Run(d, NormTo(d, slots, i), seen, BytesFrom(d, slots, i) + c) ==
    if SlotReadable(d.fields[i], slots[SlotIndex(d, i)])
    then Run(d, NormTo(d, slots, i + 1), SeenAfter(seen, i, BytesOf(d, slots, i)), BytesFrom(d, slots, i + 1) + c)
    else Failed
  }

  /** Reading what fields `i` and on wrote completes the struct. */
  ghost predicate ReadsRest(d: Desc, slots: seq<Slot>, i: nat, seen: set<nat>, c: seq<byte>)
    requires |slots| == NumSlots(d) && i <= |d.fields|
  {
    Run(d, NormTo(d, slots, i), seen, BytesFrom(d, slots, i) + c) ==
    if ReadableFrom(d, slots, i) then Run(d, Norm(d, slots), SeenFrom(d, slots, i, seen), c) else Failed
  }

  lemma FromSplits(d: Desc, slots: seq<Slot>, i: nat, seen: set<nat>)
    requires |slots| == NumSlots(d) && i < |d.fields|
    ensures ReadableFrom(d, slots, i) <==> SlotReadable(d.fields[i], slots[SlotIndex(d, i)]) && ReadableFrom(d, slots, i + 1)
    ensures SeenFrom(d, slots, i, seen) == SeenFrom(d, slots, i + 1, SeenAfter(seen, i, BytesOf(d, slots, i)))
  {
    hide SlotReadable, BytesOf;
  }

  lemma ReadsOneMore(d: Desc, slots: seq<Slot>, i: nat, seen: set<nat>, c: seq<byte>)
    requires |slots| == NumSlots(d) && i < |d.fields|
    requires ReadsOne(d, slots, i, seen, c) && ReadsRest(d, slots, i + 1, SeenAfter(seen, i, BytesOf(d, slots, i)), c)
    ensures ReadsRest(d, slots, i, seen, c)
  {
    FromSplits(d, slots, i, seen);
    hide SlotReadable, BytesOf, Run, Norm, NormTo, BytesFrom, ReadableFrom, SeenFrom;
  }

  lemma NothingLeft(d: Desc, slots: seq<Slot>, seen: set<nat>, c: seq<byte>)
    requires |slots| == NumSlots(d)
    ensures ReadsRest(d, slots, |d.fields|, seen, c)
  {
    assert [] + c == c;
  }

  ghost predicate Writable(d: Desc, slots: seq<Slot>, i: nat)
    requires |slots| == NumSlots(d) && i <= |d.fields|
  {
    DescOk(d) && Typed(d, slots) && EncFrom(d, slots, i).Ok? && |BytesFrom(d, slots, i)| < U32
  }

  lemma WritableSplits(d: Desc, slots: seq<Slot>, i: nat, c: seq<byte>)
    requires |slots| == NumSlots(d) && i < |d.fields| && Writable(d, slots, i)
    ensures Writable(d, slots, i + 1)
    ensures EncField(d.fields[i], slots[SlotIndex(d, i)]) == Ok(BytesOf(d, slots, i)) && |BytesOf(d, slots, i)| < U32
    ensures BytesFrom(d, slots, i) + c == BytesOf(d, slots, i) + (BytesFrom(d, slots, i + 1) + c)
  {
    hide DescOk, Typed, EncField;
    EncFromSplits(d, slots, i);
    hide EncFrom, BytesOf;
    Associates(BytesOf(d, slots, i), EncFrom(d, slots, i + 1).value, c);
  }

  lemma WritableField(d: Desc, slots: seq<Slot>, i: nat)
    requires |slots| == NumSlots(d) && i < |d.fields| && Writable(d, slots, i)
    ensures DescOk(d) && FieldOk(d.fields[i]) && SlotTyped(d.fields[i], slots[SlotIndex(d, i)])
  {
    hide DescOk, Typed, FieldOk, SlotTyped, EncFrom, BytesFrom;
    TypedFields(d, slots, i);
  }

  lemma {:induction false} FieldInMessage(d: Desc, slots: seq<Slot>, i: nat, seen: set<nat>, c: seq<byte>)
    requires |slots| == NumSlots(d) && i < |d.fields| && Writable(d, slots, i)
    ensures ReadsOne(d, slots, i, seen, c)
    decreases d, |d.fields| - i, 0
  {
    hide Writable, BytesOf, BytesFrom, DescOk, FieldOk, SlotTyped, NormTo, Run, EncField, SlotReadable, SeenAfter, Restore;
    WritableSplits(d, slots, i, c);
    WritableField(d, slots, i);
    NormToStep(d, slots, i);
    var f, s := d.fields[i], SlotIndex(d, i);
    if !f.htype.OneOf? { UntouchedSlot(d, slots, i, i); }
    FieldRoundTrip(d, slots[s], NormTo(d, slots, i), i, seen, BytesFrom(d, slots, i + 1) + c);
  }

  lemma {:induction false} MessageRoundTrip(d: Desc, slots: seq<Slot>, i: nat, seen: set<nat>, c: seq<byte>)
    requires |slots| == NumSlots(d) && i <= |d.fields| && Writable(d, slots, i)
    ensures ReadsRest(d, slots, i, seen, c)
    decreases d, |d.fields| - i, 1
  {
    hide *;
    if i == |d.fields| {
      NothingLeft(d, slots, seen, c);
      return;
    }
    FieldInMessage(d, slots, i, seen, c);
    WritableSplits(d, slots, i, c);
    MessageRoundTrip(d, slots, i + 1, SeenAfter(seen, i, BytesOf(d, slots, i)), c);
    ReadsOneMore(d, slots, i, seen, c);
  }

  /** Reading the encoding of a well-typed struct consumes exactly its bytes and
      rebuilds the struct up to presence - if and only if each string present leaves
      room for its terminator. */
  lemma {:induction false} ReadsBack(d: Desc, slots: seq<Slot>, c: seq<byte>)
    requires DescOk(d) && Typed(d, slots)
    requires Enc(d, slots).Ok? && |Enc(d, slots).value| < U32
    ensures Run(d, Defaults(d), {}, Enc(d, slots).value + c) ==
            if Readable(d, slots) then Run(d, Norm(d, slots), SeenFrom(d, slots, 0, {}), c) else Failed
    ensures AllRequired(d, SeenFrom(d, slots, 0, {}))
    decreases d, |d.fields| + 1
  {
    MessageRoundTrip(d, slots, 0, {}, c);
    RequiredAreSeen(d, slots, 0, {});
    assert ReadableFrom(d, slots, 0) <==> Readable(d, slots) by { hide SlotReadable; }
    hide Run, EncFrom, SlotReadable, DescOk, Typed, Norm;
  }

  /** The round trip, with the exact condition under which it holds. */
  lemma {:induction false} RoundTrip(d: Desc, slots: seq<Slot>)
    requires DescOk(d) && Typed(d, slots)
    requires Enc(d, slots).Ok? && |Enc(d, slots).value| < U32
    ensures Decode(d, Enc(d, slots).value) == if Readable(d, slots) then Some(Norm(d, slots)) else None
    decreases d, |d.fields| + 2
  {
    ReadsBack(d, slots, []);
    hide EncFrom, DescOk, Typed, Norm, Readable, SeenFrom;
    assert Enc(d, slots).value + [] == Enc(d, slots).value;
  }

  // ---- Encoding a typed struct never fails ----

  lemma {:induction false} ValueEncodes(f: Field, v: Value)
    requires FieldOk(f) && ValueTyped(f, v)
    ensures EncValue(f, v).Ok?
    decreases f, 0
  {
    if f.ltype.Submessage? { TypedEncodes(f.sub, v.slots, 0); }
  }

  lemma {:induction false} ItemsEncode(f: Field, items: seq<Value>)
    requires FieldOk(f) && forall k :: 0 <= k < |items| ==> ValueTyped(f, items[k])
    ensures EncItems(f, items).Ok?
    ensures f.ltype.Packable() ==> PackedBody(f, items).Ok?
    decreases f, 1, |items|
  {
    if items != [] {
      ValueEncodes(f, items[0]);
      ItemsEncode(f, items[1..]);
    }
  }

  lemma {:induction false} SlotEncodes(f: Field, slot: Slot)
    requires FieldOk(f) && SlotTyped(f, slot)
    ensures EncField(f, slot).Ok?
    decreases f, 2
  {
    hide ValueTyped, DescOk, EncValue, ScalarTyped;
    match slot
    case Plain(v) => ValueEncodes(f, v);
    case Maybe(_, v) => ValueEncodes(f, v);
    case Many(items) => ItemsEncode(f, items);
    case NoChoice =>
    case Choice(which, v) => if which == f.tag { ValueEncodes(f, v); }
  }

  lemma {:induction false} TypedEncodes(d: Desc, slots: seq<Slot>, i: nat)
    requires |slots| == NumSlots(d) && i <= |d.fields| && DescOk(d) && Typed(d, slots)
    ensures EncFrom(d, slots, i).Ok?
    decreases d, |d.fields| - i
  {
    hide EncField, DescOk, Typed, FieldOk, SlotTyped;
    if i < |d.fields| {
      TypedFields(d, slots, i);
      SlotEncodes(d.fields[i], slots[SlotIndex(d, i)]);
      TypedEncodes(d, slots, i + 1);
    }
  }
}
