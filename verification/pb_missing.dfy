// When decoding succeeds: every field can be read and every required field occurs,
// at each level of nesting.
module PbMissing {
  import opened Basics
  import opened PbWire
  import opened PbDescriptor
  import opened PbDecodeModel
  import opened PbDecodeLaws

  /** The tag numbers that stand at the field boundaries of `b`. */
  function Keys(d: Desc, slots: seq<Slot>, b: seq<byte>): seq<nat>
    requires |slots| == NumSlots(d)
    decreases |b|
  {
    if b == [] then []
    else
      var r := StepOf(d, slots, b);
      if r.Next? then [ReadTag(b).number] + Keys(d, r.slots, r.rest) else []
  }

  /** Field after field can be read, up to the last byte or to what ends a message. */
  predicate Readable(d: Desc, slots: seq<Slot>, b: seq<byte>)
    requires |slots| == NumSlots(d)
    decreases |b|
  {
    b == [] || ReadTag(b).EndOfMessage? || (var r := StepOf(d, slots, b); r.Next? && Readable(d, r.slots, r.rest))
  }

  lemma StepCases(d: Desc, slots: seq<Slot>, b: seq<byte>)
    requires |slots| == NumSlots(d) && DescOk(d)
    ensures StepOf(d, slots, b).Stop? <==> ReadTag(b).EndOfMessage?
    ensures StepOf(d, slots, b).Next? ==>
              ReadTag(b).Tag? &&
              forall i :: 0 <= i < |d.fields| ==> (StepOf(d, slots, b).field == Some(i) <==> d.fields[i].tag == ReadTag(b).number)
  {
    var tag := ReadTag(b);
    if tag.Tag? && Find(d, tag.number).Some? { FindIsUnique(d, Find(d, tag.number).value); }
    forall i | 0 <= i < |d.fields| && tag.Tag? && d.fields[i].tag == tag.number ensures Find(d, tag.number) == Some(i) {
      FindIsUnique(d, i);
    }
    hide DescOk, ReadField, ReadTag, Skip, Find;
  }

  /** The loop ends with a struct iff all can be read, and the fields it has then seen
      are those whose tags occur. */
  lemma {:induction false} RunSees(d: Desc, slots: seq<Slot>, seen: set<nat>, b: seq<byte>)
    requires |slots| == NumSlots(d) && DescOk(d)
    ensures var r := Run(d, slots, seen, b);
            && (r.Finished? <==> Readable(d, slots, b))
            && (r.Finished? ==>
                  forall i :: 0 <= i < |d.fields| ==> (i in r.seen <==> i in seen || d.fields[i].tag in Keys(d, slots, b)))
    decreases |b|
  {
    hide DescOk, StepOf, ReadTag;
    if b != [] {
      StepCases(d, slots, b);
      var r := StepOf(d, slots, b);
      if r.Next? {
        RunSees(d, r.slots, Seen(seen, r.field), r.rest);
      }
    }
  }

  /** The tag of every required field is among these. */
  predicate NoneMissing(d: Desc, keys: seq<nat>) {
    forall i :: 0 <= i < |d.fields| && d.fields[i].htype.Required? ==> d.fields[i].tag in keys
  }

  /** Decoding succeeds iff all fields can be read and at some field boundary there is
      a tag for each required one. */
  lemma DecodesExactly(d: Desc, slots: seq<Slot>, b: seq<byte>)
    requires |slots| == NumSlots(d) && DescOk(d)
    ensures Dec(d, slots, b).Some? <==> Readable(d, slots, b) && NoneMissing(d, Keys(d, slots, b))
  {
    RunSees(d, slots, {}, b);
    hide Run, Readable, Keys, DescOk;
  }

  lemma {:induction false} WholeIsReadable(d: Desc, slots: seq<Slot>, b: seq<byte>)
    requires |slots| == NumSlots(d) && Whole(d, slots, b)
    ensures Readable(d, slots, b)
    decreases |b|
  {
    if b != [] { WholeIsReadable(d, StepOf(d, slots, b).slots, StepOf(d, slots, b).rest); }
  }

  /** So whole fields decode iff no required one is missing. */
  lemma MissingFieldFails(d: Desc, slots: seq<Slot>, b: seq<byte>)
    requires |slots| == NumSlots(d) && DescOk(d) && Whole(d, slots, b)
    ensures Dec(d, slots, b).Some? <==> NoneMissing(d, Keys(d, slots, b))
  {
    WholeIsReadable(d, slots, b);
    DecodesExactly(d, slots, b);
  }

  /** The same one level down, and so at every level: a submessage can be read iff its
      contents can and lack no required field - in a struct of its own for array
      entries and union members, else in the one already there. */
  lemma NestedExactly(f: Field, prior: Value, body: seq<byte>, c: seq<byte>)
    requires f.ltype.Submessage? && DescOk(f.sub) && |body| < U32
    requires f.htype.Required? || f.htype.Optional? ==> prior.Record? && |prior.slots| == NumSlots(f.sub)
    ensures var slots := if f.htype.Required? || f.htype.Optional? then prior.slots else Defaults(f.sub);
            ReadValue(f, prior, CountedBytes(body) + c).Got? <==>
            Readable(f.sub, slots, body) && NoneMissing(f.sub, Keys(f.sub, slots, body))
  {
    hide *;
    TargetIs(f, prior);
    var slots := Target(f, prior).slots;
    CountedRoundTrip(body, c);
    ValueOf(f, prior, CountedBytes(body) + c);
    DecodesExactly(f.sub, slots, body);
  }

  lemma TargetIs(f: Field, prior: Value)
    requires f.htype.Required? || f.htype.Optional? ==> prior.Record? && |prior.slots| == NumSlots(f.sub)
    ensures Target(f, prior).Record? && |Target(f, prior).slots| == NumSlots(f.sub)
    ensures Target(f, prior).slots == if f.htype.Required? || f.htype.Optional? then prior.slots else Defaults(f.sub)
  {
    hide Defaults;
  }

  lemma ValueOf(f: Field, prior: Value, b: seq<byte>)
    requires f.ltype.Submessage? && Counted(b).Got?
    requires Target(f, prior).Record? && |Target(f, prior).slots| == NumSlots(f.sub)
    ensures ReadValue(f, prior, b).Got? <==> Dec(f.sub, Target(f, prior).slots, Counted(b).value).Some?
  {
    hide Counted, Dec, Target;
  }

  /** At an input: no message without its required field, however short. */
  lemma EmptyMessageFails(d: Desc)
    requires DescOk(d) && d.fields[0].htype.Required?
    ensures Decode(d, []).None?
  {
    MissingFieldFails(d, Defaults(d), []);
  }
}
