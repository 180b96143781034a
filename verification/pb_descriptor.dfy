// Message descriptors of nanopb and the values of the structs they describe.
// Static allocation only; pb_size_t is 32 bits wide.
module PbDescriptor {
  import opened Basics
  import opened PbWire

  const SIZE_MAX: nat := U32 - 1      // PB_SIZE_MAX
  const BYTES_OFFSET := 4             // offsetof(pb_bytes_array_t, bytes)

  datatype LType = Varint | Uvarint | Svarint | Fixed32 | Fixed64 | Bytes | String | Submessage | FixedBytes {
    /** Up to PB_LTYPE_LAST_PACKABLE. */
    predicate Packable() {
      Varint? || Uvarint? || Svarint? || Fixed32? || Fixed64?
    }
  }

  datatype HType = Required | Optional | Repeated | OneOf

  /** An entry of a `pb_field_t` array. `sub` and `dflt` are the two uses of `ptr`. */
  datatype Field = Field(tag: nat, ltype: LType, htype: HType,
                         dataOffset: nat, sizeOffset: int, dataSize: nat, arraySize: nat,
                         sub: Desc, dflt: Option<Value>) {
    /** A proto3 field: optional, but with no has_ flag. */
    predicate Implicit() {
      htype.Optional? && sizeOffset == 0
    }
  }

  /** The array, without its terminator. */
  datatype Desc = Desc(fields: seq<Field>)

  /** The content of a struct member: an integer, the bytes of a string up to its
      terminator or of a byte array up to its size, or a nested struct. */
  datatype Value = Int(n: int) | Blob(bytes: seq<byte>) | Record(slots: seq<Slot>)

  /** A struct member with its has_, _count or which_ companion. All the members of
      a union are one slot. */
  datatype Slot =
    | Plain(v: Value)
    | Maybe(has: bool, v: Value)
    | Many(items: seq<Value>)
    | NoChoice
    | Choice(which: nat, v: Value)

  // ---- Where a field lives in the struct ----

  /** A union member after the first keeps the position of the one before it. */
  predicate Joins(prev: Field, cur: Field) {
    prev.htype.OneOf? && cur.htype.OneOf? && cur.dataOffset == SIZE_MAX
  }

  function SlotAt(d: Desc, i: nat): nat
    requires i < |d.fields|
  {
    if i == 0 then 0
    else SlotAt(d, i - 1) + if Joins(d.fields[i - 1], d.fields[i]) then 0 else 1
  }

  /** The number of struct members that the first `n` fields occupy. */
  function SlotCount(d: Desc, n: nat): nat
    requires n <= |d.fields|
  {
    if n == 0 then 0 else SlotAt(d, n - 1) + 1
  }

  function NumSlots(d: Desc): nat {
    SlotCount(d, |d.fields|)
  }

  lemma {:induction false} SlotsAscend(d: Desc, i: nat, j: nat)
    requires i <= j < |d.fields|
    ensures SlotAt(d, i) <= SlotAt(d, j) < NumSlots(d)
    ensures i < j && SlotAt(d, i) == SlotAt(d, j) ==> d.fields[i].htype.OneOf? && d.fields[j].htype.OneOf?
  {
    if j < |d.fields| - 1 { SlotOrder(d, j, |d.fields| - 1); }
    if i < j { SlotOrder(d, i, j); }
  }

  lemma {:induction false} SlotOrder(d: Desc, i: nat, j: nat)
    requires i < j < |d.fields|
    ensures SlotAt(d, i) <= SlotAt(d, j)
    ensures SlotAt(d, i) == SlotAt(d, j) ==> d.fields[i].htype.OneOf? && d.fields[j].htype.OneOf?
  {
    if i < j - 1 { SlotOrder(d, i, j - 1); }
  }

  // ---- Well-formed descriptors and the values they describe ----

  /** `sizeof` of the C type is one the codec knows. */
  predicate IntSizeOk(f: Field) {
    match f.ltype
    case Fixed32 => f.dataSize == 4
    case Fixed64 => f.dataSize == 8
    case _ => f.dataSize == 1 || f.dataSize == 2 || f.dataSize == 4 || f.dataSize == 8
  }

  /** 2^(8 * dataSize). */
  function Width(f: Field): (w: nat)
    ensures w > 0
  {
    if f.dataSize == 1 then 0x100 else if f.dataSize == 2 then U16 else if f.dataSize == 4 then U32 else U64
  }

  predicate IntInRange(f: Field, n: int) {
    match f.ltype
    case Varint => 0 - Width(f) / 2 <= n < Width(f) / 2
    case Svarint => 0 - Width(f) / 2 <= n < Width(f) / 2
    case _ => 0 <= n < Width(f)
  }

  ghost predicate ScalarTyped(f: Field, v: Value) {
    match f.ltype
    case Bytes => v.Blob? && BYTES_OFFSET + |v.bytes| <= f.dataSize
    case String => v.Blob? && |v.bytes| <= f.dataSize && forall k :: 0 <= k < |v.bytes| ==> v.bytes[k] != 0
    case FixedBytes => v.Blob? && |v.bytes| == f.dataSize
    case Submessage => false
    case _ => v.Int? && IntInRange(f, v.n)
  }

  ghost predicate ValueTyped(f: Field, v: Value)
    decreases f, 0
  {
    if f.ltype.Submessage? then v.Record? && Typed(f.sub, v.slots) else ScalarTyped(f, v)
  }

  ghost predicate SlotTyped(f: Field, slot: Slot)
    decreases f, 1
  {
    match f.htype
    case Required => slot.Plain? && ValueTyped(f, slot.v)
    case Optional => (if f.Implicit() then slot.Plain? else slot.Maybe?) && ValueTyped(f, slot.v)
    case Repeated => slot.Many? && |slot.items| <= f.arraySize && forall k :: 0 <= k < |slot.items| ==> ValueTyped(f, slot.items[k])
    case OneOf => slot.NoChoice? || (slot.Choice? && (slot.which == f.tag ==> ValueTyped(f, slot.v)))
  }

  ghost predicate Typed(d: Desc, slots: seq<Slot>)
    decreases d
  {
    |slots| == NumSlots(d) && forall i :: 0 <= i < |d.fields| ==> SlotTyped(d.fields[i], slots[SlotIndex(d, i)])
  }

  function SlotIndex(d: Desc, i: nat): (s: nat)
    requires i < |d.fields|
    ensures s == SlotAt(d, i) < NumSlots(d)
  {
    SlotsAscend(d, i, i);
    SlotAt(d, i)
  }

  ghost predicate FieldOk(f: Field)
    decreases f
  {
    && 0 < f.tag < 0x2000_0000
    && f.dataSize < U32 && f.arraySize < U32
    && (f.ltype.Packable() ==> IntSizeOk(f))
    && (f.ltype.Bytes? ==> BYTES_OFFSET <= f.dataSize)
    && (f.ltype.Submessage? ==> DescOk(f.sub) && !f.Implicit())
    && (f.dflt.Some? ==> !f.ltype.Submessage? && !f.Implicit() && ScalarTyped(f, f.dflt.value))
    && (f.htype.Repeated? || f.htype.OneOf? ==> f.sizeOffset != 0)
  }

  /** A descriptor as the generator emits it: not empty, tags valid and distinct. */
  ghost predicate DescOk(d: Desc)
    decreases d
  {
    && |d.fields| > 0
    && (forall i :: 0 <= i < |d.fields| ==> FieldOk(d.fields[i]))
    && (forall i, j :: 0 <= i < |d.fields| && 0 <= j < |d.fields| && d.fields[i].tag == d.fields[j].tag ==> i == j)
  }

  // ---- Looking up a tag ----

  function Find(d: Desc, tag: nat): (r: Option<nat>)
    ensures r.Some? ==> r.value < |d.fields| && d.fields[r.value].tag == tag
    ensures r.None? ==> forall i :: 0 <= i < |d.fields| ==> d.fields[i].tag != tag
  {
    FindFrom(d, tag, 0)
  }

  function FindFrom(d: Desc, tag: nat, i: nat): (r: Option<nat>)
    requires i <= |d.fields|
    ensures r.Some? ==> i <= r.value < |d.fields| && d.fields[r.value].tag == tag
    ensures r.None? ==> forall j :: i <= j < |d.fields| ==> d.fields[j].tag != tag
    decreases |d.fields| - i
  {
    if i == |d.fields| then None
    else if d.fields[i].tag == tag then Some(i)
    else FindFrom(d, tag, i + 1)
  }

  lemma FindIsUnique(d: Desc, i: nat)
    requires DescOk(d) && i < |d.fields|
    ensures Find(d, d.fields[i].tag) == Some(i)
  {
  }

  // ---- Defaults ----

  function Zeros(n: nat): (b: seq<byte>)
    ensures |b| == n
  {
    seq(n, _ => 0)
  }

  /** All bytes zero. */
  function ZeroOf(f: Field): Value {
    if f.ltype.Packable() then Int(0)
    else if f.ltype.FixedBytes? then Blob(Zeros(f.dataSize))
    else Blob([])
  }

  function InitialValue(f: Field): Value
    decreases f, 0
  {
    if f.ltype.Submessage? then Record(Defaults(f.sub))
    else if f.dflt.Some? then f.dflt.value
    else ZeroOf(f)
  }

  /** `pb_field_set_to_default`. */
  function DefaultSlot(f: Field): Slot
    decreases f, 1
  {
    match f.htype
    case Required => Plain(InitialValue(f))
    case Optional => if f.Implicit() then Plain(InitialValue(f)) else Maybe(false, InitialValue(f))
    case Repeated => Many([])
    case OneOf => NoChoice
  }

  /** `pb_message_set_to_defaults`, for the first `n` fields. */
  function DefaultsTo(d: Desc, n: nat): (slots: seq<Slot>)
    requires n <= |d.fields|
    ensures |slots| == SlotCount(d, n)
    decreases d, n
  {
    if n == 0 then []
    else
      var before := DefaultsTo(d, n - 1);
      if n > 1 && Joins(d.fields[n - 2], d.fields[n - 1]) then before
      else before + [DefaultSlot(d.fields[n - 1])]
  }

  function Defaults(d: Desc): (slots: seq<Slot>)
    ensures |slots| == NumSlots(d)
    decreases d, |d.fields| + 1
  {
    DefaultsTo(d, |d.fields|)
  }

  lemma {:induction false} DefaultsAt(d: Desc, n: nat, i: nat)
    requires i < n <= |d.fields|
    ensures SlotAt(d, i) < SlotCount(d, n) && DefaultsTo(d, n)[SlotAt(d, i)] == DefaultSlot(d.fields[i])
    decreases n
  {
    SlotsAscend(d, i, n - 1);
    if i < n - 1 {
      DefaultsAt(d, n - 1, i);
    } else if n > 1 && Joins(d.fields[n - 2], d.fields[n - 1]) {
      DefaultsAt(d, n - 1, n - 2);
    }
  }

  lemma {:induction false} InitialValueTyped(f: Field)
    requires FieldOk(f)
    ensures ValueTyped(f, InitialValue(f))
    decreases f, 0
  {
    if f.ltype.Submessage? { DefaultsTyped(f.sub); }
  }

  lemma {:induction false} DefaultsTyped(d: Desc)
    requires DescOk(d)
    ensures Typed(d, Defaults(d))
    decreases d, 1
  {
    forall i | 0 <= i < |d.fields| ensures SlotTyped(d.fields[i], Defaults(d)[SlotIndex(d, i)]) {
      DefaultsAt(d, |d.fields|, i);
      InitialValueTyped(d.fields[i]);
    }
  }
}
