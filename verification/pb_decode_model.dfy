// What nanopb's decoder does to a struct, as a function of the struct and the bytes.
module PbDecodeModel {
  import opened Basics
  import opened PbWire
  import opened PbDescriptor
  import opened PbEncodeModel

  // ---- Tags and skipping ----

  datatype Tag = Tag(number: nat, wireType: nat, rest: seq<byte>) | EndOfMessage | BadTag

  /** `pb_decode_tag`. A tag cut off by the end of the stream, and a zero tag, end
      the message without an error. */
  function ReadTag(b: seq<byte>): (r: Tag)
    ensures r.Tag? ==> |r.rest| < |b|
  {
    match Varint32(b)
    case Bad(rest) => if rest == [] then EndOfMessage else BadTag
    case Got(n, rest) => if n == 0 then EndOfMessage else Tag(n / 8, n % 8, rest)
  }

  function Rest<T>(r: Read<T>): Option<seq<byte>> {
    if r.Got? then Some(r.rest) else None
  }

  /** `pb_skip_field`. */
  function Skip(wireType: nat, b: seq<byte>): (r: Option<seq<byte>>)
    ensures r.Some? ==> |r.value| <= |b|
  {
    if wireType == WT_VARINT then SkipVarint(b)
    else if wireType == WT_64BIT then Rest(Take(b, 8))
    else if wireType == WT_STRING then Rest(Counted(b))
    else if wireType == WT_32BIT then Rest(Take(b, 4))
    else None
  }

  // ---- Single values ----

  /** `pb_dec_varint`, `pb_dec_uvarint` and `pb_dec_svarint` after the varint has
      been read: None is "integer too large" or "invalid data_size". */
  function DecInt(f: Field, u: nat): Option<int>
    requires u < U64
  {
    if !IntSizeOk(f) then None
    else if f.ltype.Varint? then
      var n := Signed(u, if f.dataSize == 8 then U64 else U32);
      if Signed(ToU64(n), Width(f)) == n then Some(Signed(ToU64(n), Width(f))) else None
    else if f.ltype.Svarint? then
      var n := Unzigzag(u);
      if Signed(ToU64(n), Width(f)) == n then Some(Signed(ToU64(n), Width(f))) else None
    else if u % Width(f) == u then Some(u % Width(f)) else None
  }

  /** The bytes of a C string: those before the first NUL. */
  function CString(s: seq<byte>): (r: seq<byte>)
    ensures |r| <= |s| && forall k :: 0 <= k < |r| ==> r[k] != 0
    ensures (forall k :: 0 <= k < |s| ==> s[k] != 0) ==> r == s
  {
    if s == [] || s[0] == 0 then [] else [s[0]] + CString(s[1..])
  }

  /** What a counted string on the wire becomes in memory. */
  function DecBlob(f: Field, s: seq<byte>): Option<seq<byte>> {
    match f.ltype
    case Bytes => if BYTES_OFFSET + |s| > f.dataSize then None else Some(s)
    case String => if |s| + 1 > f.dataSize then None else Some(CString(s))
    case _ => if s == [] then Some(Zeros(f.dataSize)) else if |s| != f.dataSize then None else Some(s)
  }

  function ReadScalar(f: Field, b: seq<byte>): (r: Read<Value>)
    ensures r.Got? ==> |r.rest| < |b|
  {
    if f.ltype.Fixed32? || f.ltype.Fixed64? then
      var r := Take(b, if f.ltype.Fixed32? then 4 else 8);
      if r.Got? then Got(Int(FromLittleEndian(r.value)), r.rest) else Bad(r.rest)
    else if f.ltype.Packable() then
      var r := Varint64(b);
      if r.Bad? then Bad(r.rest)
      else
        var n := DecInt(f, r.value);
        if n.Some? then Got(Int(n.value), r.rest) else Bad(r.rest)
    else
      var r := Counted(b);
      if r.Bad? then Bad(r.rest)
      else
        var s := DecBlob(f, r.value);
        if s.Some? then Got(Blob(s.value), r.rest) else Bad(r.rest)
  }

  /** The struct a submessage is decoded into: a fresh one for an array entry or a
      union member, else the one already there. */
  function Target(f: Field, prior: Value): Value {
    if f.htype.Repeated? || f.htype.OneOf? then Record(Defaults(f.sub)) else prior
  }

  function ReadValue(f: Field, prior: Value, b: seq<byte>): (r: Read<Value>)
    ensures r.Got? ==> |r.rest| < |b|
    decreases |b|, 0
  {
    if !f.ltype.Submessage? then ReadScalar(f, b)
    else
      var body := Counted(b);
      var target := Target(f, prior);
      if body.Bad? then Bad(body.rest)
      else if !target.Record? || |target.slots| != NumSlots(f.sub) then Bad(body.rest)
      else
        var r := Dec(f.sub, target.slots, body.value);
        if r.Some? then Got(Record(r.value), body.rest) else Bad(body.rest)
  }

  // ---- Fields ----

  /** The entries of a packed array, appended to `items`. */
  function ReadPacked(f: Field, items: seq<Value>, body: seq<byte>): Option<seq<Value>>
    decreases |body|
  {
    if body == [] then Some(items)
    else if |items| >= f.arraySize then None
    else
      var r := ReadScalar(f, body);
      if r.Got? then ReadPacked(f, items + [r.value], r.rest) else None
  }

  /** `decode_static_field`. */
  function ReadField(f: Field, slot: Slot, wireType: nat, b: seq<byte>): (r: Read<Slot>)
    ensures r.Got? ==> |r.rest| < |b|
    decreases |b|, 1
  {
    match f.htype
    case Required =>
      if !slot.Plain? then Bad(b)
      else
        var r := ReadValue(f, slot.v, b);
        if r.Got? then Got(Plain(r.value), r.rest) else Bad(r.rest)
    case Optional =>
      if (if f.Implicit() then !slot.Plain? else !slot.Maybe?) then Bad(b)
      else
        var r := ReadValue(f, slot.v, b);
        if r.Bad? then Bad(r.rest)
        else Got(if f.Implicit() then Plain(r.value) else Maybe(true, r.value), r.rest)
    case Repeated =>
      if !slot.Many? then Bad(b)
      else if wireType == WT_STRING && f.ltype.Packable() then
        var body := Counted(b);
        if body.Bad? then Bad(body.rest)
        else
          var items := ReadPacked(f, slot.items, body.value);
          if items.Some? then Got(Many(items.value), body.rest) else Bad(body.rest)
      else if |slot.items| >= f.arraySize then Bad(b)
      else
        var r := ReadValue(f, Int(0), b);
        if r.Got? then Got(Many(slot.items + [r.value]), r.rest) else Bad(r.rest)
    case OneOf =>
      var r := ReadValue(f, Int(0), b);
      if r.Got? then Got(Choice(f.tag, r.value), r.rest) else Bad(r.rest)
  }

  // ---- Messages ----

  /** One turn of the loop of `pb_decode_noinit`. */
  datatype Step =
    | Stop
    | Fail
    | Next(field: Option<nat>, slots: seq<Slot>, rest: seq<byte>)

  function StepOf(d: Desc, slots: seq<Slot>, b: seq<byte>): (r: Step)
    requires |slots| == NumSlots(d)
    ensures r.Next? ==> |r.rest| < |b| && |r.slots| == |slots|
    ensures r.Next? && r.field.Some? ==> r.field.value < |d.fields|
    decreases |b|, 2
  {
    match ReadTag(b)
    case EndOfMessage => Stop
    case BadTag => Fail
    case Tag(number, wireType, rest) =>
      match Find(d, number)
      case None =>
        var r := Skip(wireType, rest);
        if r.Some? then Next(None, slots, r.value) else Fail
      case Some(i) =>
        var s := SlotIndex(d, i);
        var r := ReadField(d.fields[i], slots[s], wireType, rest);
        if r.Got? then Next(Some(i), slots[s := r.value], r.rest) else Fail
  }

  /** How the loop ends: with the struct and the set of fields that occurred. */
  datatype Outcome = Failed | Finished(slots: seq<Slot>, seen: set<nat>)

  function Seen(seen: set<nat>, field: Option<nat>): set<nat> {
    if field.Some? then seen + {field.value} else seen
  }

  function Run(d: Desc, slots: seq<Slot>, seen: set<nat>, b: seq<byte>): (r: Outcome)
    requires |slots| == NumSlots(d)
    ensures r.Finished? ==> |r.slots| == |slots|
    decreases |b|, 3
  {
    if b == [] then Finished(slots, seen)
    else
      match StepOf(d, slots, b)
      case Stop => Finished(slots, seen)
      case Fail => Failed
      case Next(field, slots', rest) => Run(d, slots', Seen(seen, field), rest)
  }

  predicate AllRequired(d: Desc, seen: set<nat>) {
    forall i :: 0 <= i < |d.fields| && d.fields[i].htype.Required? ==> i in seen
  }

  /** `pb_decode_noinit`: None is an error. */
  function Dec(d: Desc, slots: seq<Slot>, b: seq<byte>): (r: Option<seq<Slot>>)
    requires |slots| == NumSlots(d)
    ensures r.Some? ==> |r.value| == NumSlots(d)
    decreases |b|, 4
  {
    var r := Run(d, slots, {}, b);
    if r.Finished? && AllRequired(d, r.seen) then Some(r.slots) else None
  }

  /** `pb_decode`. */
  function Decode(d: Desc, b: seq<byte>): Option<seq<Slot>> {
    Dec(d, Defaults(d), b)
  }
}
