// The bytes of the protocol buffer wire format in numbers: what the encoder writes
// can be read by any other implementation, and not just by the decoder here.
module PbFormat {
  import opened Basics
  import opened Words
  import opened PbWire
  import opened PbDescriptor
  import opened PbEncodeModel

  // ---- Single bytes ----

  /** Byte `j` of a varint holds bits 7j to 7j+6; all but the last have bit 7 set, and
      the last is zero only for the number zero. */
  lemma {:induction false} VarintByte(n: nat, j: nat)
    requires j < |VarintBytes(n)|
    ensures VarintBytes(n)[j] == n / Pow128(j) % 128 + if j < |VarintBytes(n)| - 1 then 128 else 0
    ensures j == |VarintBytes(n)| - 1 && n > 0 ==> VarintBytes(n)[j] > 0
  {
    if n >= 128 && j > 0 {
      VarintByte(n / 128, j - 1);
      DivideTwice(n, 128, Pow128(j - 1));
    }
  }

  /** Byte `j` of a fixed-width word holds bits 8j to 8j+7. */
  lemma {:induction false} LittleEndianByte(n: nat, k: nat, j: nat)
    requires j < k
    ensures LittleEndian(n, k)[j] == n / Pow256(j) % 256
  {
    if j > 0 {
      LittleEndianByte(n / 256, k - 1, j - 1);
      DivideTwice(n, 256, Pow256(j - 1));
    }
  }

  lemma DivideTwice(n: nat, a: nat, b: nat)
    requires (a == 128 || a == 256) && b > 0
    ensures a * b > 0 && n / a / b == n / (a * b)
  {
    var m, q, r := n / a, n / a / b, n / a % b;
    assert m == b * q + r;
    Associative(a, b, q);
    DivisionIsUnique(a * b, q, a * r + n % a);
  }

  lemma Associative(a: nat, b: nat, c: nat)
    ensures a * b * c == a * (b * c)
  {
  }

  // ---- One entry ----

  /** The wire type in numbers: varint 0, eight bytes 1, counted 2, four bytes 5. */
  function TypeNumber(l: LType): nat {
    if l.Varint? || l.Uvarint? || l.Svarint? then 0
    else if l.Fixed64? then 1
    else if l.Fixed32? then 5
    else 2
  }

  /** The payload of value `v`: integers by the C type of the field, negative ones as
      their 64-bit two's complement or zigzag; everything else counted. `content` is
      what the encoder writes for a nested struct. */
  predicate IsPayload(f: Field, v: Value, payload: seq<byte>) {
    if f.ltype.Varint? || f.ltype.Uvarint? then
      v.Int? && payload == VarintBytes(if v.n < 0 then v.n % 0x1_0000_0000_0000_0000 else v.n)
    else if f.ltype.Svarint? then
      v.Int? && payload == VarintBytes(if v.n < 0 then -2 * v.n - 1 else 2 * v.n)
    else if f.ltype.Fixed32? then
      v.Int? && |payload| == 4 && forall j :: 0 <= j < 4 ==> payload[j] == v.n / Pow256(j) % 256
    else if f.ltype.Fixed64? then
      v.Int? && |payload| == 8 && forall j :: 0 <= j < 8 ==> payload[j] == v.n / Pow256(j) % 256
    else if f.ltype.Submessage? then
      v.Record? && |v.slots| == NumSlots(f.sub) &&
      var body := Enc(f.sub, v.slots);
      body.Ok? && payload == VarintBytes(|body.value|) + body.value
    else v.Blob? && payload == VarintBytes(|v.bytes|) + v.bytes
  }

  /** A key, made of the tag and a wire type, and a payload. */
  ghost predicate IsEntry(f: Field, v: Value, b: seq<byte>) {
    exists payload :: IsPayload(f, v, payload) && b == VarintBytes(8 * f.tag + TypeNumber(f.ltype)) + payload
  }

  /** Nothing reaches 2^64 bytes. */
  predicate Addressable(b: seq<byte>) {
    |b| < U64
  }

  lemma IntegerPayload(f: Field, v: Value)
    requires FieldOk(f) && f.ltype.Packable() && ScalarTyped(f, v)
    ensures EncScalar(f, v).Ok? && IsPayload(f, v, EncScalar(f, v).value)
  {
    if f.ltype.Svarint? {
      ZigzagRoundTrip(v.n);
    } else if f.ltype.Fixed32? || f.ltype.Fixed64? {
      var k := if f.ltype.Fixed32? then 4 else 8;
      assert ToU64(v.n) == v.n;
      forall j | 0 <= j < k ensures LittleEndian(v.n, k)[j] == v.n / Pow256(j) % 256 { LittleEndianByte(v.n, k, j); }
    }
  }

  lemma ValuePayload(f: Field, v: Value)
    requires FieldOk(f) && ValueTyped(f, v) && EncValue(f, v).Ok? && Addressable(EncValue(f, v).value)
    ensures IsPayload(f, v, EncValue(f, v).value)
  {
    if f.ltype.Submessage? {
      var body := Enc(f.sub, v.slots).value;
      assert ToU64(|body|) == |body|;
    } else if f.ltype.Packable() {
      IntegerPayload(f, v);
    } else {
      assert ToU64(|v.bytes|) == |v.bytes|;
    }
  }

  lemma TagNumber(f: Field, k: nat)
    requires FieldOk(f) && k < 8
    ensures TagBytes(f, k) == VarintBytes(8 * f.tag + k)
  {
    assert ToU64(8 * f.tag + k) == 8 * f.tag + k;
  }

  lemma EntryFormat(f: Field, v: Value)
    requires FieldOk(f) && ValueTyped(f, v) && EncTagged(f, v).Ok? && Addressable(EncTagged(f, v).value)
    ensures IsEntry(f, v, EncTagged(f, v).value)
  {
    TagNumber(f, TypeNumber(f.ltype));
    ValuePayload(f, v);
    var payload := EncValue(f, v).value;
    hide FieldOk, ValueTyped, EncValue, VarintBytes, IsPayload;
    assert EncTagged(f, v).value == VarintBytes(8 * f.tag + TypeNumber(f.ltype)) + payload;
  }

  // ---- Arrays ----

  /** `b` is one piece after the other. */
  function Joined(pieces: seq<seq<byte>>): seq<byte> {
    if pieces == [] then [] else pieces[0] + Joined(pieces[1..])
  }

  ghost predicate AllEntries(f: Field, items: seq<Value>, pieces: seq<seq<byte>>) {
    |pieces| == |items| && forall k :: 0 <= k < |items| ==> IsEntry(f, items[k], pieces[k])
  }

  ghost predicate AllPayloads(f: Field, items: seq<Value>, pieces: seq<seq<byte>>) {
    |pieces| == |items| && forall k :: 0 <= k < |items| ==> IsPayload(f, items[k], pieces[k])
  }

  /** An array of integers is one counted entry of wire type 2 with the payloads one
      after the other; any other array is one entry for each item. */
  ghost predicate IsArray(f: Field, items: seq<Value>, b: seq<byte>) {
    if items == [] then b == []
    else if f.ltype.Packable() then exists pieces :: PackedAs(f, items, b, pieces)
    else exists pieces :: AllEntries(f, items, pieces) && b == Joined(pieces)
  }

  ghost predicate PackedAs(f: Field, items: seq<Value>, b: seq<byte>, pieces: seq<seq<byte>>) {
    AllPayloads(f, items, pieces) && b == VarintBytes(8 * f.tag + 2) + (VarintBytes(|Joined(pieces)|) + Joined(pieces))
  }

  lemma {:induction false} ItemsFormat(f: Field, items: seq<Value>) returns (pieces: seq<seq<byte>>)
    requires FieldOk(f) && forall k :: 0 <= k < |items| ==> ValueTyped(f, items[k])
    requires EncItems(f, items).Ok? && Addressable(EncItems(f, items).value)
    ensures AllEntries(f, items, pieces) && EncItems(f, items).value == Joined(pieces)
    decreases |items|
  {
    hide FieldOk, ValueTyped, EncTagged, IsEntry;
    if items == [] {
      return [];
    }
    EntryFormat(f, items[0]);
    var rest := ItemsFormat(f, items[1..]);
    pieces := [EncTagged(f, items[0]).value] + rest;
    assert pieces[1..] == rest;
  }

  lemma {:induction false} PackedFormat(f: Field, items: seq<Value>) returns (pieces: seq<seq<byte>>)
    requires FieldOk(f) && f.ltype.Packable() && forall k :: 0 <= k < |items| ==> ValueTyped(f, items[k])
    ensures PackedBody(f, items).Ok?
    ensures AllPayloads(f, items, pieces) && PackedBody(f, items).value == Joined(pieces)
    decreases |items|
  {
    hide FieldOk, ScalarTyped, EncScalar, IsPayload;
    if items == [] {
      return [];
    }
    IntegerPayload(f, items[0]);
    var rest := PackedFormat(f, items[1..]);
    pieces := [EncScalar(f, items[0]).value] + rest;
    assert pieces[1..] == rest;
  }

  lemma ArrayFormat(f: Field, items: seq<Value>)
    requires FieldOk(f) && forall k :: 0 <= k < |items| ==> ValueTyped(f, items[k])
    requires EncArray(f, items).Ok? && Addressable(EncArray(f, items).value)
    ensures IsArray(f, items, EncArray(f, items).value)
  {
    hide FieldOk, ValueTyped, IsPayload, IsEntry, VarintBytes;
    if items == [] {
      return;
    }
    if f.ltype.Packable() {
      PackedArrayFormat(f, items);
    } else {
      var pieces := ItemsFormat(f, items);
      hide EncItems, AllEntries, Joined;
      assert AllEntries(f, items, pieces) && EncArray(f, items).value == Joined(pieces);
    }
  }

  lemma PackedArrayFormat(f: Field, items: seq<Value>)
    requires FieldOk(f) && f.ltype.Packable() && items != [] && forall k :: 0 <= k < |items| ==> ValueTyped(f, items[k])
    requires EncArray(f, items).Ok? && Addressable(EncArray(f, items).value)
    ensures exists pieces :: PackedAs(f, items, EncArray(f, items).value, pieces)
  {
    var pieces := PackedFormat(f, items);
    hide *;
    PackedBytes(f, items, Joined(pieces));
    PackedAsIntro(f, items, EncArray(f, items).value, pieces);
  }

  lemma PackedAsIntro(f: Field, items: seq<Value>, b: seq<byte>, pieces: seq<seq<byte>>)
    requires AllPayloads(f, items, pieces)
    requires b == VarintBytes(8 * f.tag + 2) + (VarintBytes(|Joined(pieces)|) + Joined(pieces))
    ensures PackedAs(f, items, b, pieces)
  {
  }

  lemma PackedBytes(f: Field, items: seq<Value>, body: seq<byte>)
    requires FieldOk(f) && f.ltype.Packable() && items != [] && PackedBody(f, items) == Ok(body)
    requires EncArray(f, items).Ok? && Addressable(EncArray(f, items).value)
    ensures EncArray(f, items).value == VarintBytes(8 * f.tag + 2) + (VarintBytes(|body|) + body)
  {
    hide VarintBytes, PackedBody, FieldOk, CountedBytes;
    TagNumber(f, 2);
    assert EncArray(f, items).value == TagBytes(f, 2) + CountedBytes(body);
    CountedNumber(body);
  }

  lemma CountedNumber(s: seq<byte>)
    requires Addressable(s)
    ensures CountedBytes(s) == VarintBytes(|s|) + s
  {
    hide VarintBytes;
    assert ToU64(|s|) == |s|;
  }

  // ---- Fields and messages ----

  predicate AllZero(f: Field, v: Value) {
    v == Int(0) || (v == Blob([]) && !f.ltype.FixedBytes?) || (f.ltype.FixedBytes? && f.dataSize == 0)
  }

  /** A field as it appears in a message: required ones always, optional ones with
      their has_ flag, proto3 ones unless all zero, union members when chosen. */
  ghost predicate IsField(f: Field, slot: Slot, b: seq<byte>) {
    match f.htype
    case Required => slot.Plain? && IsEntry(f, slot.v, b)
    case Optional =>
      if slot.Maybe? then (if slot.has then IsEntry(f, slot.v, b) else b == [])
      else slot.Plain? && (if AllZero(f, slot.v) then b == [] else IsEntry(f, slot.v, b))
    case Repeated => slot.Many? && IsArray(f, slot.items, b)
    case OneOf => if slot.Choice? && slot.which == f.tag then IsEntry(f, slot.v, b) else b == []
  }

  lemma FieldFormat(f: Field, slot: Slot)
    requires FieldOk(f) && SlotTyped(f, slot) && EncField(f, slot).Ok? && Addressable(EncField(f, slot).value)
    ensures IsField(f, slot, EncField(f, slot).value)
  {
    hide ValueTyped, EncTagged, EncArray, IsEntry, IsArray;
    match slot
    case Plain(v) => if !(f.Implicit() && IsZero(f, v)) { EntryFormat(f, v); } ZeroValues(f, v);
    case Maybe(has, v) => if has { EntryFormat(f, v); }
    case Many(items) => ArrayFormat(f, items);
    case NoChoice =>
    case Choice(which, v) => if which == f.tag { EntryFormat(f, v); }
  }

  lemma ZeroValues(f: Field, v: Value)
    requires FieldOk(f) && ValueTyped(f, v)
    ensures f.Implicit() ==>
              (IsZero(f, v) <==> AllZero(f, v))
  {
  }

  /** One piece for each field from `i` on, in the order of the descriptor. */
  ghost predicate AllFields(d: Desc, slots: seq<Slot>, i: nat, pieces: seq<seq<byte>>)
    requires |slots| == NumSlots(d) && i <= |d.fields|
  {
    |pieces| == |d.fields| - i
    && forall k :: i <= k < |d.fields| ==> IsField(d.fields[k], slots[SlotIndex(d, k)], pieces[k - i])
  }

  ghost predicate IsMessage(d: Desc, slots: seq<Slot>, b: seq<byte>)
    requires |slots| == NumSlots(d)
  {
    exists pieces :: AllFields(d, slots, 0, pieces) && b == Joined(pieces)
  }

  lemma {:induction false} MessageFormatFrom(d: Desc, slots: seq<Slot>, i: nat) returns (pieces: seq<seq<byte>>)
    requires DescOk(d) && Typed(d, slots) && |slots| == NumSlots(d) && i <= |d.fields|
    requires EncFrom(d, slots, i).Ok? && Addressable(EncFrom(d, slots, i).value)
    ensures AllFields(d, slots, i, pieces) && EncFrom(d, slots, i).value == Joined(pieces)
    decreases |d.fields| - i
  {
    hide *;
    if i == |d.fields| {
      pieces := [];
      NoFields(d, slots);
      return;
    }
    EncFromStep(d, slots, i);
    TypedFieldAt(d, slots, i);
    var first := EncField(d.fields[i], slots[SlotIndex(d, i)]).value;
    FieldFormat(d.fields[i], slots[SlotIndex(d, i)]);
    var rest := MessageFormatFrom(d, slots, i + 1);
    pieces := [first] + rest;
    PutFirst(d, slots, i, first, rest);
  }

  lemma NoFields(d: Desc, slots: seq<Slot>)
    requires |slots| == NumSlots(d)
    ensures EncFrom(d, slots, |d.fields|) == Ok([]) && Joined([]) == [] && AllFields(d, slots, |d.fields|, [])
  {
  }

  lemma EncFromStep(d: Desc, slots: seq<Slot>, i: nat)
    requires |slots| == NumSlots(d) && i < |d.fields| && EncFrom(d, slots, i).Ok? && Addressable(EncFrom(d, slots, i).value)
    ensures EncField(d.fields[i], slots[SlotIndex(d, i)]).Ok? && EncFrom(d, slots, i + 1).Ok?
    ensures EncFrom(d, slots, i).value == EncField(d.fields[i], slots[SlotIndex(d, i)]).value + EncFrom(d, slots, i + 1).value
    ensures Addressable(EncField(d.fields[i], slots[SlotIndex(d, i)]).value) && Addressable(EncFrom(d, slots, i + 1).value)
  {
    hide EncField;
  }

  lemma PutFirst(d: Desc, slots: seq<Slot>, i: nat, first: seq<byte>, rest: seq<seq<byte>>)
    requires |slots| == NumSlots(d) && i < |d.fields| && AllFields(d, slots, i + 1, rest)
    requires IsField(d.fields[i], slots[SlotIndex(d, i)], first)
    ensures Joined([first] + rest) == first + Joined(rest) && AllFields(d, slots, i, [first] + rest)
  {
    hide IsField, SlotAt, NumSlots;
    var pieces := [first] + rest;
    assert pieces[1..] == rest;
    forall k | i <= k < |d.fields| ensures IsField(d.fields[k], slots[SlotIndex(d, k)], pieces[k - i]) {
      if k > i { assert pieces[k - i] == rest[k - (i + 1)]; }
    }
  }

  lemma TypedFieldAt(d: Desc, slots: seq<Slot>, i: nat)
    requires DescOk(d) && Typed(d, slots) && i < |d.fields|
    ensures FieldOk(d.fields[i]) && |slots| == NumSlots(d) && SlotTyped(d.fields[i], slots[SlotIndex(d, i)])
  {
  }

  /** The message format. A struct encodes to its fields in the order of the
      descriptor, each in the format of the standard. */
  lemma MessageFormat(d: Desc, slots: seq<Slot>)
    requires DescOk(d) && Typed(d, slots) && Enc(d, slots).Ok? && Addressable(Enc(d, slots).value)
    ensures IsMessage(d, slots, Enc(d, slots).value)
  {
    var pieces := MessageFormatFrom(d, slots, 0);
    assert Enc(d, slots).value == Joined(pieces);
  }

  /** What has no place in the struct is not encoded: an array over its capacity, bytes
      over their buffer, an integer of no known size. */
  lemma OversizeFails(f: Field, items: seq<Value>, v: Value)
    ensures |items| > f.arraySize && items != [] ==> EncField(f, Many(items)) == Err(ArrayTooLong)
    ensures f.ltype.Bytes? && v.Blob? && 4 + |v.bytes| > f.dataSize ==> EncTagged(f, v) == Err(BytesTooLong)
    ensures f.ltype.Varint? && v.Int? && f.dataSize !in {1, 2, 4, 8} ==> EncTagged(f, v) == Err(BadDataSize)
  {
  }

  // ---- At inputs ----

  /** The example of the protocol buffer documentation, a negative zigzag number, the
      two fixed widths and a string. */
  lemma KnownBytes(f: Field)
    requires f.tag == 1
    ensures f.ltype.Varint? && IntSizeOk(f) ==> EncTagged(f, Int(150)) == Ok([0x08, 0x96, 0x01])
    ensures f.ltype.Svarint? && IntSizeOk(f) ==> EncTagged(f, Int(-1)) == Ok([0x08, 0x01])
    ensures f.ltype.Fixed32? && IntSizeOk(f) ==> EncTagged(f, Int(7)) == Ok([0x0D, 7, 0, 0, 0])
    ensures f.ltype.Fixed64? && IntSizeOk(f) ==> EncTagged(f, Int(7)) == Ok([0x09, 7, 0, 0, 0, 0, 0, 0, 0])
    ensures f.ltype.String? ==> EncTagged(f, Blob([104, 105])) == Ok([0x0A, 2, 104, 105])
  {
    assert VarintBytes(150) == [0x96, 0x01] by { assert VarintBytes(1) == [1]; }
    assert VarintBytes(1) == [1] && VarintBytes(2) == [2];
    SevenInFourAndEight();
    assert CountedBytes([104, 105]) == [2, 104, 105];
    hide LittleEndian, VarintBytes, CountedBytes, EncTagged;
    var head: seq<byte> := [8 + TypeNumber(f.ltype)];
    assert f.ltype.Varint? ==> head + [0x96, 0x01] == [0x08, 0x96, 0x01];
    assert f.ltype.Svarint? ==> head + [0x01] == [0x08, 0x01];
    assert f.ltype.Fixed32? ==> head + [7, 0, 0, 0] == [0x0D, 7, 0, 0, 0];
    assert f.ltype.Fixed64? ==> head + [7, 0, 0, 0, 0, 0, 0, 0] == [0x09, 7, 0, 0, 0, 0, 0, 0, 0];
    assert f.ltype.String? ==> head + [2, 104, 105] == [0x0A, 2, 104, 105];
    match f.ltype {
      case Varint => if IntSizeOk(f) { EntryOfTagOne(f, Int(150), [0x96, 0x01]); }
      case Svarint => if IntSizeOk(f) { assert Zigzag(-1) == 1; EntryOfTagOne(f, Int(-1), [0x01]); }
      case Fixed32 => if IntSizeOk(f) { EntryOfTagOne(f, Int(7), [7, 0, 0, 0]); }
      case Fixed64 => if IntSizeOk(f) { EntryOfTagOne(f, Int(7), [7, 0, 0, 0, 0, 0, 0, 0]); }
      case String => EntryOfTagOne(f, Blob([104, 105]), [2, 104, 105]);
      case _ =>
    }
  }

  lemma EntryOfTagOne(f: Field, v: Value, payload: seq<byte>)
    requires f.tag == 1 && !f.ltype.Submessage? && EncScalar(f, v) == Ok(payload)
    ensures EncTagged(f, v) == Ok([8 + TypeNumber(f.ltype)] + payload)
  {
    assert ToU64(8 + TypeNumber(f.ltype)) == 8 + TypeNumber(f.ltype);
    hide EncScalar;
  }

  lemma SevenInFourAndEight()
    ensures LittleEndian(7, 4) == [7, 0, 0, 0] && LittleEndian(7, 8) == [7, 0, 0, 0, 0, 0, 0, 0]
  {
    assert LittleEndian(0, 1) == [0];
    assert LittleEndian(0, 2) == [0, 0];
    assert LittleEndian(0, 3) == [0, 0, 0];
    assert LittleEndian(0, 5) == [0, 0, 0, 0, 0];
    assert LittleEndian(0, 7) == [0, 0, 0, 0, 0, 0, 0];
  }

  // ---- Reading, in numbers ----

  /** A varint is read iff one of its first `limit` bytes has no continuation bit; it
      ends there, and byte `j` holds bits 7j to 7j+6 of it. */
  lemma {:induction false} GroupsExactly(b: seq<byte>, limit: nat, k: nat)
    requires forall j :: 0 <= j < k && j < |b| ==> b[j] >= 128
    ensures k >= limit || k >= |b| ==> Groups(b, limit).Bad?
    ensures k < limit && k < |b| && b[k] < 128 ==> Groups(b, limit).Got? && Groups(b, limit).rest == b[k + 1..]
    decreases limit
  {
    if limit > 0 && b != [] && k > 0 {
      forall j | 0 <= j < k - 1 && j < |b[1..]| ensures b[1..][j] >= 128 { assert b[j + 1] >= 128; }
      GroupsExactly(b[1..], limit - 1, k - 1);
    }
  }

  lemma {:induction false} GroupsDigit(b: seq<byte>, limit: nat, j: nat)
    requires Groups(b, limit).Got? && j < |b| - |Groups(b, limit).rest|
    ensures Groups(b, limit).value / Pow128(j) % 128 == b[j] % 128
    decreases limit
  {
    if b[0] >= 128 {
      var tail := Groups(b[1..], limit - 1);
      if j > 0 {
        GroupsDigit(b[1..], limit - 1, j - 1);
        DivisionIsUnique(128, tail.value, b[0] - 128);
        DivideTwice(Groups(b, limit).value, 128, Pow128(j - 1));
      } else {
        DivisionIsUnique(128, tail.value, b[0] - 128);
      }
    }
  }

  /** `pb_decode_varint32` reads at most five bytes and `pb_decode_varint` ten. */
  lemma LongestVarints(b: seq<byte>, k: nat)
    requires k < |b| && b[k] < 128 && forall j :: 0 <= j < k ==> b[j] >= 128
    ensures Varint32(b).Got? <==> k < 5
    ensures Varint64(b).Got? <==> k < 10
    ensures k < 5 ==> Varint32(b).rest == b[k + 1..]
    ensures k < 10 ==> Varint64(b).rest == b[k + 1..]
  {
    GroupsExactly(b, 5, k);
    GroupsExactly(b, 10, k);
    hide Groups;
  }
}
