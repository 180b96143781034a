// What the round trip may change is invisible to the encoder: a struct and its
// normal form encode to the same bytes.
module PbPresence {
  import opened PbDescriptor
  import opened PbEncodeModel
  import opened PbRoundTrip

  /** Field `i` in the normal form so far: as restored from `slots` once its turn
      has come; before that, and for another member of its union, not chosen. */
  ghost predicate Restored(d: Desc, slots: seq<Slot>, n: nat, i: nat, slot: Slot)
    requires |slots| == NumSlots(d) && i < |d.fields|
  {
    var f, mine := d.fields[i], slots[SlotIndex(d, i)];
    if !f.htype.OneOf? then slot == if n <= i then DefaultSlot(f) else Restore(f, mine, DefaultSlot(f))
    else if i < n && mine.Choice? && mine.which == f.tag then slot == Choice(f.tag, NormValue(f, mine.v))
    else slot.NoChoice? || (slot.Choice? && slot.which != f.tag)
  }

  lemma TagsDiffer(d: Desc, i: nat, j: nat)
    requires DescOk(d) && i < |d.fields| && j < |d.fields| && i != j
    ensures d.fields[i].tag != d.fields[j].tag
  {
  }

  predicate UnionShape(f: Field, slot: Slot) {
    f.htype.OneOf? <==> slot.NoChoice? || slot.Choice?
  }

  lemma UnionSlot(d: Desc, slots: seq<Slot>, i: nat)
    requires |slots| == NumSlots(d) && i < |d.fields| && DescOk(d) && Typed(d, slots)
    ensures UnionShape(d.fields[i], slots[SlotIndex(d, i)])
  {
    TypedFields(d, slots, i);
  }

  lemma NormSlotStart(d: Desc, slots: seq<Slot>, i: nat)
    requires |slots| == NumSlots(d) && i < |d.fields|
    ensures Restored(d, slots, 0, i, NormTo(d, slots, 0)[SlotIndex(d, i)])
  {
    DefaultsAt(d, |d.fields|, i);
  }

  lemma NormSlotStep(d: Desc, slots: seq<Slot>, j: nat, i: nat)
    requires |slots| == NumSlots(d) && j < |d.fields| && i < |d.fields|
    requires Restored(d, slots, j, i, NormTo(d, slots, j)[SlotIndex(d, i)])
    requires i != j ==> d.fields[i].tag != d.fields[j].tag
    requires UnionShape(d.fields[j], slots[SlotIndex(d, j)])
    ensures Restored(d, slots, j + 1, i, NormTo(d, slots, j + 1)[SlotIndex(d, i)])
  {
    if i < j { SlotsAscend(d, i, j); } else if j < i { SlotsAscend(d, j, i); }
    NormToStep(d, slots, j);
    hide NormTo, NormValue, NormItems, Defaults;
  }

  lemma {:induction false} NormSlot(d: Desc, slots: seq<Slot>, n: nat, i: nat)
    requires |slots| == NumSlots(d) && n <= |d.fields| && i < |d.fields| && DescOk(d) && Typed(d, slots)
    ensures Restored(d, slots, n, i, NormTo(d, slots, n)[SlotIndex(d, i)])
    decreases n
  {
    hide *;
    if n == 0 {
      NormSlotStart(d, slots, i);
    } else {
      NormSlot(d, slots, n - 1, i);
      UnionSlot(d, slots, n - 1);
      if i != n - 1 { TagsDiffer(d, i, n - 1); }
      NormSlotStep(d, slots, n - 1, i);
    }
  }

  lemma {:induction false} ValueEncodesTheSame(f: Field, v: Value)
    requires FieldOk(f) && ValueTyped(f, v)
    ensures EncValue(f, NormValue(f, v)) == EncValue(f, v)
    decreases f, 0
  {
    if f.ltype.Submessage? { EncodesTheSame(f.sub, v.slots); }
  }

  lemma {:induction false} ItemsEncodeTheSame(f: Field, items: seq<Value>)
    requires FieldOk(f) && forall k :: 0 <= k < |items| ==> ValueTyped(f, items[k])
    ensures EncItems(f, NormItems(f, items)) == EncItems(f, items)
    decreases f, 1, |items|
  {
    if items != [] {
      ValueEncodesTheSame(f, items[0]);
      ItemsEncodeTheSame(f, items[1..]);
      assert NormItems(f, items)[1..] == NormItems(f, items[1..]);
      hide DescOk, ValueTyped, EncValue, NormValue;
    }
  }

  lemma {:induction false} ArrayEncodesTheSame(f: Field, items: seq<Value>)
    requires FieldOk(f) && forall k :: 0 <= k < |items| ==> ValueTyped(f, items[k])
    ensures EncArray(f, NormItems(f, items)) == EncArray(f, items)
    decreases f, 2
  {
    if f.ltype.Packable() { ScalarsStay(f, items); } else { ItemsEncodeTheSame(f, items); }
  }

  lemma {:induction false} FieldEncodesTheSame(d: Desc, slots: seq<Slot>, i: nat)
    requires |slots| == NumSlots(d) && i < |d.fields| && DescOk(d) && Typed(d, slots)
    ensures EncField(d.fields[i], Norm(d, slots)[SlotIndex(d, i)]) == EncField(d.fields[i], slots[SlotIndex(d, i)])
    decreases d, 0
  {
    hide DescOk, Typed, FieldOk, SlotTyped, NormTo, EncTagged, EncArray, NormValue, NormItems, ValueTyped, Defaults;
    TypedFields(d, slots, i);
    NormSlot(d, slots, |d.fields|, i);
    SlotEncodesTheSame(d.fields[i], slots[SlotIndex(d, i)], if d.fields[i].htype.OneOf? then NoChoice else DefaultSlot(d.fields[i]));
  }

  lemma {:induction false} SlotEncodesTheSame(f: Field, slot: Slot, base: Slot)
    requires FieldOk(f) && SlotTyped(f, slot) && base == DefaultSlot(f)
    ensures EncField(f, Restore(f, slot, base)) == EncField(f, slot)
    ensures UnionShape(f, slot)
    decreases f, 3
  {
    hide DescOk, ValueTyped, EncValue, Defaults, EncArray, NormItems;
    match slot
    case Plain(v) => ValueEncodesTheSame(f, v);
    case Maybe(_, v) => ValueEncodesTheSame(f, v);
    case Many(items) => ArrayEncodesTheSame(f, items);
    case NoChoice =>
    case Choice(which, v) => if which == f.tag { ValueEncodesTheSame(f, v); }
  }

  lemma {:induction false} EncodesTheSameFrom(d: Desc, slots: seq<Slot>, i: nat)
    requires |slots| == NumSlots(d) && i <= |d.fields| && DescOk(d) && Typed(d, slots)
    ensures EncFrom(d, Norm(d, slots), i) == EncFrom(d, slots, i)
    decreases d, 1, |d.fields| - i
  {
    hide DescOk, Typed, Norm, EncField;
    if i < |d.fields| {
      FieldEncodesTheSame(d, slots, i);
      EncodesTheSameFrom(d, slots, i + 1);
    }
  }

  /** Re-encoding what was decoded reproduces the bytes. */
  lemma {:induction false} EncodesTheSame(d: Desc, slots: seq<Slot>)
    requires DescOk(d) && Typed(d, slots)
    ensures Enc(d, Norm(d, slots)) == Enc(d, slots)
    decreases d, 2
  {
    EncodesTheSameFrom(d, slots, 0);
  }
}
