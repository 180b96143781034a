// What nanopb's encoder writes for a struct, as a function to bytes.
module PbEncodeModel {
  import opened Basics
  import opened PbWire
  import opened PbDescriptor

  datatype EncError = ArrayTooLong | BadDataSize | BytesTooLong | IllTyped

  datatype Result<+T> = Ok(value: T) | Err(error: EncError)

  /** Output `a` and then output `b`; the first error wins. */
  function Then(a: Result<seq<byte>>, b: Result<seq<byte>>): Result<seq<byte>> {
    if a.Err? then a else if b.Err? then b else Ok(a.value + b.value)
  }

  // ---- Tags ----

  const WT_VARINT := 0
  const WT_64BIT := 1
  const WT_STRING := 2
  const WT_32BIT := 5

  /** `pb_encode_tag_for_field`. */
  function WireType(l: LType): nat {
    match l
    case Varint => WT_VARINT
    case Uvarint => WT_VARINT
    case Svarint => WT_VARINT
    case Fixed32 => WT_32BIT
    case Fixed64 => WT_64BIT
    case _ => WT_STRING
  }

  function TagBytes(f: Field, wireType: nat): (b: seq<byte>)
    ensures |b| > 0
  {
    VarintBytes(ToU64(8 * f.tag + wireType))
  }

  // ---- Single values ----

  /** The 64-bit word that represents integer `n` on the wire. */
  function EncInt(l: LType, n: int): nat {
    if l.Svarint? then Zigzag(n) else ToU64(n)
  }

  /** `pb_enc_varint` .. `pb_enc_fixed64`, `pb_enc_bytes`, `pb_enc_string` and
      `pb_enc_fixed_length_bytes`. A value of another type than the field's has no
      counterpart in the source; encoding one is an error here. */
  function EncScalar(f: Field, v: Value): Result<seq<byte>> {
    if f.ltype.Packable() then
      if !v.Int? then Err(IllTyped)
      else if !IntSizeOk(f) then Err(BadDataSize)
      else if f.ltype.Fixed32? then Ok(LittleEndian(ToU64(v.n), 4))
      else if f.ltype.Fixed64? then Ok(LittleEndian(ToU64(v.n), 8))
      else Ok(VarintBytes(EncInt(f.ltype, v.n)))
    else if !v.Blob? then Err(IllTyped)
    else if f.ltype.Bytes? && BYTES_OFFSET + |v.bytes| > f.dataSize then Err(BytesTooLong)
    else Ok(CountedBytes(v.bytes))
  }

  function EncValue(f: Field, v: Value): Result<seq<byte>>
    decreases f, 0
  {
    if !f.ltype.Submessage? then EncScalar(f, v)
    else if !v.Record? || |v.slots| != NumSlots(f.sub) then Err(IllTyped)
    else
      var body := Enc(f.sub, v.slots);
      if body.Err? then body else Ok(CountedBytes(body.value))
  }

  function EncTagged(f: Field, v: Value): Result<seq<byte>>
    decreases f, 1
  {
    Then(Ok(TagBytes(f, WireType(f.ltype))), EncValue(f, v))
  }

  // ---- Arrays ----

  function EncItems(f: Field, items: seq<Value>): Result<seq<byte>>
    decreases f, 2, |items|
  {
    if items == [] then Ok([]) else Then(EncTagged(f, items[0]), EncItems(f, items[1..]))
  }

  function PackedBody(f: Field, items: seq<Value>): Result<seq<byte>> {
    if items == [] then Ok([]) else Then(EncScalar(f, items[0]), PackedBody(f, items[1..]))
  }

  /** `encode_array`. */
  function EncArray(f: Field, items: seq<Value>): Result<seq<byte>>
    decreases f, 3
  {
    if items == [] then Ok([])
    else if |items| > f.arraySize then Err(ArrayTooLong)
    else if !f.ltype.Packable() then EncItems(f, items)
    else
      var body := PackedBody(f, items);
      if body.Err? then body else Ok(TagBytes(f, WT_STRING) + CountedBytes(body.value))
  }

  // ---- Fields and messages ----

  /** `pb_check_proto3_default_value` for anything but a submessage. */
  predicate IsZero(f: Field, v: Value) {
    match v
    case Int(n) => n == 0
    case Blob(bytes) => if f.ltype.FixedBytes? then f.dataSize == 0 else bytes == []
    case Record(_) => false
  }

  /** `encode_basic_field`. */
  function EncField(f: Field, slot: Slot): Result<seq<byte>>
    decreases f, 4
  {
    match slot
    case Plain(v) => if f.Implicit() && IsZero(f, v) then Ok([]) else EncTagged(f, v)
    case Maybe(has, v) => if has then EncTagged(f, v) else Ok([])
    case Many(items) => EncArray(f, items)
    case NoChoice => Ok([])
    case Choice(which, v) => if which == f.tag then EncTagged(f, v) else Ok([])
  }

  function EncFrom(d: Desc, slots: seq<Slot>, i: nat): Result<seq<byte>>
    requires |slots| == NumSlots(d) && i <= |d.fields|
    decreases d, |d.fields| - i
  {
    if i == |d.fields| then Ok([])
    else Then(EncField(d.fields[i], slots[SlotIndex(d, i)]), EncFrom(d, slots, i + 1))
  }

  /** `pb_encode`. */
  function Enc(d: Desc, slots: seq<Slot>): Result<seq<byte>>
    requires |slots| == NumSlots(d)
    decreases d, |d.fields| + 1
  {
    EncFrom(d, slots, 0)
  }
}
