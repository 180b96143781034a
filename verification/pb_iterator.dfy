// The field iterator that encoder and decoder share: it walks a descriptor and
// keeps pointers into the struct in step with it.
module PbIterator {
  import opened PbDescriptor

  // ---- A fresh walk from the first field ----

  /** The bytes a field takes in the struct. */
  function Footprint(f: Field): nat {
    if f.htype.Repeated? then f.dataSize * f.arraySize else f.dataSize
  }

  /** The offset of field `i` in the struct. */
  function DataAt(d: Desc, i: nat): nat
    requires i < |d.fields|
  {
    if i == 0 then d.fields[0].dataOffset
    else if Joins(d.fields[i - 1], d.fields[i]) then DataAt(d, i - 1)
    else DataAt(d, i - 1) + Footprint(d.fields[i - 1]) + d.fields[i].dataOffset
  }

  /** The offset of its has_, _count or which_ companion. */
  function SizeAt(d: Desc, i: nat): int
    requires i < |d.fields|
  {
    if i > 0 && Joins(d.fields[i - 1], d.fields[i]) then SizeAt(d, i - 1)
    else DataAt(d, i) + d.fields[i].sizeOffset
  }

  /** The number of required fields among the first `i`. */
  function RequiredBefore(d: Desc, i: nat): nat
    requires i <= |d.fields|
  {
    if i == 0 then 0 else RequiredBefore(d, i - 1) + if d.fields[i - 1].htype.Required? then 1 else 0
  }

  class FieldIter {
    const d: Desc
    var pos: nat             // the field that `pos` points at
    var data: nat            // pData, as an offset from dest_struct
    var size: int            // pSize, likewise
    var requiredIndex: nat   // required_field_index
    var slot: nat            // the struct member at `data`

    /** Every pointer is where a fresh walk to the same field would have put it. */
    ghost predicate Coherent()
      reads this
    {
      && pos < |d.fields|
      && data == DataAt(d, pos) && size == SizeAt(d, pos)
      && requiredIndex == RequiredBefore(d, pos)
      && slot == SlotAt(d, pos)
    }

    constructor (d: Desc)
      requires |d.fields| > 0
      ensures Coherent() && this.d == d && pos == 0
    {
      this.d := d;
      pos, requiredIndex, slot := 0, 0, 0;
      data := d.fields[0].dataOffset;
      size := d.fields[0].dataOffset + d.fields[0].sizeOffset;
    }

    method Begin()
      requires |d.fields| > 0
      modifies this
      ensures Coherent() && pos == 0
    {
      pos, requiredIndex, slot := 0, 0, 0;
      data := d.fields[0].dataOffset;
      size := data + d.fields[0].sizeOffset;
    }

    /** Advances; after the last field it wraps to the first and returns false. */
    method Next() returns (more: bool)
      requires Coherent()
      modifies this
      ensures Coherent()
      ensures more <==> old(pos) + 1 < |d.fields|
      ensures pos == if more then old(pos) + 1 else 0
    {
      var prev := d.fields[pos];
      if pos + 1 == |d.fields| {
        Begin();
        return false;
      }
      pos := pos + 1;
      var cur := d.fields[pos];
      if Joins(prev, cur) {
        return true;
      }
      if prev.htype.Required? {
        requiredIndex := requiredIndex + 1;
      }
      data := data + Footprint(prev) + cur.dataOffset;
      size := data + cur.sizeOffset;
      slot := slot + 1;
      more := true;
    }

    /** Searches all the fields, starting where the iterator stands; it succeeds iff
        the tag exists, and otherwise comes back to where it began. */
    method Find(tag: nat) returns (found: bool)
      requires Coherent()
      modifies this
      ensures Coherent()
      ensures found <==> exists i :: 0 <= i < |d.fields| && d.fields[i].tag == tag
      ensures found ==> d.fields[pos].tag == tag
      ensures !found ==> pos == old(pos)
    {
      var start := pos;
      ghost var n := |d.fields|;
      ghost var k := 0;
      while true
        invariant Coherent() && 0 <= k < n
        invariant pos == if start + k < n then start + k else start + k - n
        invariant forall i :: start <= i < start + k && i < n ==> d.fields[i].tag != tag
        invariant forall i :: 0 <= i < start + k - n ==> d.fields[i].tag != tag
        decreases n - k
      {
        if d.fields[pos].tag == tag {
          return true;
        }
        var _ := Next();
        k := k + 1;
        if pos == start {
          return false;
        }
      }
    }
  }

  // ---- What the required index means ----

  lemma {:induction false} RequiredAscend(d: Desc, i: nat, j: nat)
    requires i <= j <= |d.fields|
    ensures RequiredBefore(d, i) <= RequiredBefore(d, j)
    decreases j
  {
    if i < j { RequiredAscend(d, i, j - 1); }
  }

  /** Different required fields have different indices, all below the count. */
  lemma RequiredIndicesDiffer(d: Desc, i: nat, j: nat)
    requires i < |d.fields| && j < |d.fields| && d.fields[i].htype.Required? && d.fields[j].htype.Required?
    ensures RequiredBefore(d, i) == RequiredBefore(d, j) <==> i == j
    ensures RequiredBefore(d, i) < RequiredBefore(d, |d.fields|)
  {
    RequiredAscend(d, i + 1, |d.fields|);
    if i < j { RequiredAscend(d, i + 1, j); }
    if j < i { RequiredAscend(d, j + 1, i); }
  }

  /** Every index below the count belongs to a required field. */
  lemma {:induction false} RequiredIndexTaken(d: Desc, n: nat, k: nat) returns (i: nat)
    requires n <= |d.fields| && k < RequiredBefore(d, n)
    ensures i < n && d.fields[i].htype.Required? && RequiredBefore(d, i) == k
  {
    if k < RequiredBefore(d, n - 1) {
      i := RequiredIndexTaken(d, n - 1, k);
    } else {
      i := n - 1;
    }
  }
}
