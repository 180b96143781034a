// Reassembly of one handshake message from fragments (section 4.2.3 of RFC 6347):
// a byte mask whose bit `j % 8` of byte `j / 8` says that body byte `j` arrived.
module Reassembly {
  import opened Basics

  // ---- Bits of one mask byte ----

  function OneBit(k: nat): bv8
    requires k < 8
  {
    if k == 0 then 1 else if k == 1 then 2 else if k == 2 then 4 else if k == 3 then 8
    else if k == 4 then 16 else if k == 5 then 32 else if k == 6 then 64 else 128
  }

  predicate Has(b: bv8, k: nat)
    requires k < 8
  {
    b & OneBit(k) != 0
  }

  /** Bits `start`, inclusive, to `end`, exclusive, computed as the source does. */
  function BitRange(start: nat, end: nat): bv8
    requires start <= 8 && end <= 8
  {
    var below: bv32 := (1 << start) - 1;
    var upTo: bv32 := (1 << end) - 1;
    ((!below & upTo) & 0xff) as bv8
  }

  lemma BitRangeExact(start: nat, end: nat, k: nat)
    requires start <= 8 && end <= 8 && k < 8
    ensures Has(BitRange(start, end), k) <==> start <= k < end
  {
  }

  lemma OrHas(a: bv8, b: bv8, k: nat)
    requires k < 8
    ensures Has(a | b, k) <==> Has(a, k) || Has(b, k)
  {
  }

  lemma FullHas(k: nat)
    requires k < 8
    ensures Has(0xff, k) && !Has(0, k)
  {
  }

  lemma SameBits(a: bv8, b: bv8)
    requires forall k: nat :: k < 8 ==> Has(a, k) == Has(b, k)
    ensures a == b
  {
    assert Has(a, 0) == Has(b, 0) && Has(a, 1) == Has(b, 1) && Has(a, 2) == Has(b, 2) && Has(a, 3) == Has(b, 3);
    assert Has(a, 4) == Has(b, 4) && Has(a, 5) == Has(b, 5) && Has(a, 6) == Has(b, 6) && Has(a, 7) == Has(b, 7);
  }

  // ---- The mask as a set of positions ----

  predicate Marked(mask: seq<bv8>, j: nat)
    requires j < 8 * |mask|
  {
    Has(mask[j / 8], j % 8)
  }

  function Positions(mask: seq<bv8>, n: nat): set<nat>
    requires n <= 8 * |mask|
  {
    set j: nat | j < n && Marked(mask, j)
  }

  function Range(start: nat, end: nat): set<nat> {
    set j: nat | j < end && AtLeast(j, start)
  }

  predicate AtLeast(j: nat, start: nat) {
    start <= j
  }

  /** Where position `p` falls inside byte `i`, clamped to that byte. */
  function Clamp(p: nat, i: nat): nat {
    if p <= 8 * i then 0 else if p >= 8 * i + 8 then 8 else p - 8 * i
  }

  predicate NoStrayBits(mask: seq<bv8>, n: nat) {
    forall j: nat :: n <= j < 8 * |mask| ==> !Marked(mask, j)
  }

  ghost predicate ByteMarked(before: bv8, after: bv8, i: nat, start: nat, end: nat) {
    forall k: nat :: k < 8 ==> (Has(after, k) <==> Has(before, k) || start <= 8 * i + k < end)
  }

  lemma MarkByte(before: bv8, i: nat, start: nat, end: nat)
    ensures ByteMarked(before, before | BitRange(Clamp(start, i), Clamp(end, i)), i, start, end)
  {
    var lo, hi := Clamp(start, i), Clamp(end, i);
    forall k: nat | k < 8
      ensures Has(before | BitRange(lo, hi), k) <==> Has(before, k) || start <= 8 * i + k < end
    {
      OrHas(before, BitRange(lo, hi), k);
      BitRangeExact(lo, hi, k);
    }
  }

  lemma MarkWholeByte(before: bv8, i: nat, start: nat, end: nat)
    requires start <= 8 * i && 8 * i + 8 <= end
    ensures ByteMarked(before, 0xff, i, start, end)
  {
    forall k: nat | k < 8 ensures Has(0xff, k) { FullHas(k); }
  }

  lemma MarkedMask(before: seq<bv8>, after: seq<bv8>, n: nat, start: nat, end: nat)
    requires |before| == |after| && n <= 8 * |before| && start <= end <= n
    requires NoStrayBits(before, n)
    requires forall i: nat :: i < |before| ==> ByteMarked(before[i], after[i], i, start, end)
    ensures Positions(after, n) == Positions(before, n) + Range(start, end)
    ensures NoStrayBits(after, n)
  {
    forall j: nat | j < 8 * |before|
      ensures Marked(after, j) <==> Marked(before, j) || start <= j < end
    {
      assert ByteMarked(before[j / 8], after[j / 8], j / 8, start, end);
      assert 8 * (j / 8) + j % 8 == j;
    }
  }

  /** The completeness test of the source, over the mask bytes. */
  predicate LooksComplete(mask: seq<bv8>, n: nat)
    requires |mask| == (n + 7) / 8
  {
    && (forall i: nat :: i < n / 8 ==> mask[i] == 0xff)
    && (n % 8 != 0 ==> mask[n / 8] == BitRange(0, n % 8))
  }

  lemma CompleteIsAllPositions(mask: seq<bv8>, n: nat)
    requires |mask| == (n + 7) / 8 && NoStrayBits(mask, n)
    ensures LooksComplete(mask, n) <==> Positions(mask, n) == Range(0, n)
  {
    if LooksComplete(mask, n) {
      forall j: nat | j < n ensures Marked(mask, j) {
        FullHas(j % 8);
        if j / 8 == n / 8 { BitRangeExact(0, n % 8, j % 8); }
      }
    }
    if Positions(mask, n) == Range(0, n) {
      forall j: nat | j < n ensures Marked(mask, j) { assert j in Range(0, n); }
      forall i: nat | i < n / 8 ensures mask[i] == 0xff {
        forall k: nat | k < 8 ensures Has(mask[i], k) == Has(0xff, k) {
          assert Marked(mask, 8 * i + k);
          FullHas(k);
        }
        SameBits(mask[i], 0xff);
      }
      if n % 8 != 0 {
        var i := n / 8;
        forall k: nat | k < 8 ensures Has(mask[i], k) == Has(BitRange(0, n % 8), k) {
          assert Marked(mask, 8 * i + k) == Has(mask[i], k);
          BitRangeExact(0, n % 8, k);
        }
        SameBits(mask[i], BitRange(0, n % 8));
      }
    }
  }

  // ---- One message under reassembly ----

  const HEADER_LENGTH := 12

  class HmFragment {
    const typ: byte
    const seqNum: nat
    const msgLen: nat
    const data: array<byte>       // the 12-byte header, then the body
    var reassembly: array?<bv8>   // null once the message is complete

    ghost predicate Valid()
      reads this, reassembly
    {
      && data.Length == HEADER_LENGTH + msgLen
      && (reassembly != null ==>
            && msgLen > 0
            && reassembly.Length == (msgLen + 7) / 8
            && NoStrayBits(reassembly[..], msgLen)
            && Positions(reassembly[..], msgLen) != Range(0, msgLen))
    }

    /** The body positions received so far. */
    ghost function Got(): set<nat>
      requires Valid()
      reads this, reassembly
    {
      if reassembly == null then Range(0, msgLen) else Positions(reassembly[..], msgLen)
    }

    constructor (header: seq<byte>, typ: byte, seqNum: nat, msgLen: nat)
      requires |header| == HEADER_LENGTH
      ensures Valid() && fresh(data) && (reassembly != null ==> fresh(reassembly))
      ensures this.typ == typ && this.seqNum == seqNum && this.msgLen == msgLen
      ensures data[..HEADER_LENGTH] == header && data[HEADER_LENGTH..] == seq(msgLen, _ => 0)
      ensures Got() == {}
      ensures reassembly == null <==> msgLen == 0
    {
      this.typ, this.seqNum, this.msgLen := typ, seqNum, msgLen;
      data := new byte[HEADER_LENGTH + msgLen](i => if 0 <= i < |header| then header[i] else 0);
      reassembly := null;
      new;
      if msgLen > 0 {
        reassembly := new bv8[(msgLen + 7) / 8](_ => 0);
        forall j: nat | j < 8 * reassembly.Length ensures !Marked(reassembly[..], j) { FullHas(j % 8); }
        assert 0 in Range(0, msgLen);
      }
    }

    /** `reassembly[i] |= bit_range(lo, hi)`. */
    method OrRange(i: nat, lo: nat, hi: nat, ghost start: nat, ghost end: nat)
      requires reassembly != null && i < reassembly.Length
      requires lo == Clamp(start, i) && hi == Clamp(end, i)
      modifies reassembly
      ensures reassembly[..] == old(reassembly[..])[i := reassembly[i]]
      ensures ByteMarked(old(reassembly[i]), reassembly[i], i, start, end)
    {
      MarkByte(reassembly[i], i, start, end);
      reassembly[i] := reassembly[i] | BitRange(lo, hi);
    }

    /** `reassembly[i] = 0xff` for the bytes that lie wholly inside the range. */
    method FillBytes(first: nat, last: nat, ghost start: nat, ghost end: nat)
      requires reassembly != null && first <= last <= reassembly.Length
      requires first < last ==> start <= 8 * first && 8 * last <= end
      modifies reassembly
      ensures forall m: nat :: m < first || last <= m < reassembly.Length ==> reassembly[m] == old(reassembly[m])
      ensures forall m: nat :: first <= m < last ==> ByteMarked(old(reassembly[m]), reassembly[m], m, start, end)
    {
      for i := first to last
        invariant forall m: nat :: m < first || i <= m < reassembly.Length ==> reassembly[m] == old(reassembly[m])
        invariant forall m: nat :: first <= m < i ==> ByteMarked(old(reassembly[m]), reassembly[m], m, start, end)
      {
        MarkWholeByte(reassembly[i], i, start, end);
        reassembly[i] := 0xff;
      }
    }

    /** Sets the bits of the range, as `dtls1_hm_fragment_mark` does in place. */
    method MarkBits(start: nat, end: nat)
      requires reassembly != null && reassembly.Length == (msgLen + 7) / 8
      requires NoStrayBits(reassembly[..], msgLen) && start < end <= msgLen
      modifies reassembly
      ensures NoStrayBits(reassembly[..], msgLen)
      ensures Positions(reassembly[..], msgLen) == Positions(old(reassembly[..]), msgLen) + Range(start, end)
    {
      ghost var before := reassembly[..];
      var first, last := start / 8, end / 8;
      if first == last {
        OrRange(first, start % 8, end % 8, start, end);
      } else {
        OrRange(first, start % 8, 8, start, end);
        FillBytes(first + 1, last, start, end);
        if end % 8 != 0 {
          OrRange(last, 0, end % 8, start, end);
        }
      }
      forall m: nat | m < |before| ensures ByteMarked(before[m], reassembly[m], m, start, end) {
        if m < first || m > last || (m == last && end % 8 == 0 && first != last) {
          assert reassembly[m] == before[m];
        }
      }
      MarkedMask(before, reassembly[..], msgLen, start, end);
    }

    method IsComplete() returns (r: bool)
      requires reassembly != null && reassembly.Length == (msgLen + 7) / 8
      requires NoStrayBits(reassembly[..], msgLen)
      ensures r <==> Positions(reassembly[..], msgLen) == Range(0, msgLen)
    {
      CompleteIsAllPositions(reassembly[..], msgLen);
      for i := 0 to msgLen / 8
        invariant forall m: nat :: m < i ==> reassembly[m] == 0xff
      {
        if reassembly[i] != 0xff {
          return false;
        }
      }
      if msgLen % 8 != 0 && reassembly[msgLen / 8] != BitRange(0, msgLen % 8) {
        return false;
      }
      return true;
    }

    /** Marks body bytes `start`, inclusive, to `end`, exclusive, as received, and
        drops the mask exactly when the positions received are all of them. */
    method Mark(start: nat, end: nat)
      requires Valid() && reassembly != null && start <= end <= msgLen
      modifies this`reassembly, reassembly
      ensures Valid()
      ensures Got() == old(Got()) + Range(start, end)
      ensures reassembly == null || reassembly == old(reassembly)
      ensures reassembly == null <==> Got() == Range(0, msgLen)
    {
      if start == end {
        return;
      }
      MarkBits(start, end);
      var complete := IsComplete();
      if complete {
        reassembly := null;
      }
    }
  }
}
