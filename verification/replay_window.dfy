// The anti-replay window of the DTLS record layer (section 4.1.2.6 of RFC 6347).
module ReplayWindow {
  import opened Words

  const WORD := 64  // bits in uint64_t, hence also the window size

  /** `bits` is the 64-bit map; bit `i` stands for sequence number `maxSeq - i`. */
  datatype Window = Window(bits: nat, maxSeq: nat)

  const Cleared := Window(0, 0)

  predicate Discards(w: Window, n: nat) {
    n <= w.maxSeq && (w.maxSeq - n >= WORD || Bit(w.bits, w.maxSeq - n))
  }

  /** The window moved so that `n` is not beyond its right edge. */
  function Slid(w: Window, n: nat): (w': Window)
    ensures n <= w'.maxSeq
  {
    if n <= w.maxSeq then w
    else Window(if n - w.maxSeq >= WORD then 0 else ShiftLeft(w.bits, n - w.maxSeq, WORD), n)
  }

  function Recorded(w: Window, n: nat): Window {
    var slid := Slid(w, n);
    var idx := slid.maxSeq - n;
    if idx < WORD then slid.(bits := SetBit(slid.bits, idx)) else slid
  }

  /** Within the window a bit is set iff that number was recorded. */
  ghost predicate Covers(w: Window, seen: set<nat>) {
    && w.bits < Pow2(WORD)
    && (forall i: nat :: i < WORD ==> (Bit(w.bits, i) <==> w.maxSeq - i in seen))
  }

  /** And the right edge is the largest recorded number. */
  ghost predicate Exact(w: Window, seen: set<nat>) {
    && Covers(w, seen)
    && (forall n :: n in seen ==> n <= w.maxSeq)
    && (w.maxSeq == 0 || w.maxSeq in seen)
  }

  lemma ClearedIsExact()
    ensures Exact(Cleared, {})
  {
    forall i: nat ensures !Bit(0, i) { ZeroHasNoBits(i); }
  }

  lemma SlidCovers(w: Window, seen: set<nat>, n: nat)
    requires Exact(w, seen)
    ensures Covers(Slid(w, n), seen)
  {
    if n <= w.maxSeq { return; }
    var shift := n - w.maxSeq;
    if shift < WORD { ShiftStaysInWord(w.bits, shift, WORD); }
    forall i: nat | i < WORD ensures Bit(Slid(w, n).bits, i) <==> n - i in seen {
      if shift >= WORD { ZeroHasNoBits(i); } else { ShiftedBit(w.bits, shift, WORD, i); }
    }
  }

  lemma SetCovers(w: Window, seen: set<nat>, n: nat)
    requires Covers(w, seen) && n <= w.maxSeq < n + WORD
    ensures Covers(w.(bits := SetBit(w.bits, w.maxSeq - n)), seen + {n})
  {
    SetBitStaysInWord(w.bits, w.maxSeq - n, WORD);
    forall i: nat { SetBitExact(w.bits, w.maxSeq - n, i); }
  }

  lemma RecordedIsExact(w: Window, seen: set<nat>, n: nat)
    requires Exact(w, seen)
    ensures Exact(Recorded(w, n), seen + {n})
  {
    hide Bit, ShiftLeft, SetBit, Pow2;
    SlidCovers(w, seen, n);
    if Slid(w, n).maxSeq - n < WORD { SetCovers(Slid(w, n), seen, n); }
  }

  /** The class of the source; its two operations are the functions above. `seen`
      are the numbers recorded since the last clearing. */
  class Bitmap {
    var bits: nat
    var maxSeq: nat
    ghost var seen: set<nat>

    ghost predicate Valid()
      reads this
    {
      Exact(Model(), seen)
    }

    ghost function Model(): Window
      reads this
    {
      Window(bits, maxSeq)
    }

    constructor ()
      ensures Valid() && Model() == Cleared && seen == {}
    {
      bits, maxSeq, seen := 0, 0, {};
      new;
      ClearedIsExact();
    }

    method Clear()
      modifies this
      ensures Valid() && Model() == Cleared && seen == {}
    {
      bits, maxSeq, seen := 0, 0, {};
      ClearedIsExact();
    }

    method ShouldDiscard(n: nat) returns (r: bool)
      requires Valid()
      ensures r <==> n in seen || n + WORD <= maxSeq
      ensures r == Discards(Model(), n)
    {
      if n > maxSeq {
        return false;
      }
      var idx: nat := maxSeq - n;
      assert idx < WORD ==> (Bit(bits, idx) <==> maxSeq - idx in seen);
      r := idx >= WORD || Bit(bits, idx);
    }

    method Record(n: nat)
      requires Valid()
      modifies this
      ensures Valid() && seen == old(seen) + {n}
      ensures Model() == Recorded(old(Model()), n)
    {
      RecordedIsExact(Model(), seen, n);
      if n > maxSeq {
        var shift := n - maxSeq;
        if shift >= WORD {
          bits := 0;
        } else {
          bits := ShiftLeft(bits, shift, WORD);
        }
        maxSeq := n;
      }
      var idx := maxSeq - n;
      if idx < WORD {
        bits := SetBit(bits, idx);
      }
      seen := seen + {n};
      hide Exact, SetBit, ShiftLeft;
    }
  }

  /** What happens to the records that arrive within one epoch: a record that the
      window lets through is recorded only if it also authenticates. */
  datatype Arrival = Arrival(seqNum: nat, authentic: bool)

  predicate Accepts(w: Window, a: Arrival) {
    !Discards(w, a.seqNum) && a.authentic
  }

  function After(w: Window, run: seq<Arrival>): Window {
    if run == [] then w
    else
      var w := After(w, run[..|run| - 1]);
      var a := run[|run| - 1];
      if Accepts(w, a) then Recorded(w, a.seqNum) else w
  }

  /** The sequence numbers accepted over a run, in order of acceptance. */
  function Accepted(run: seq<Arrival>): seq<nat> {
    if run == [] then []
    else
      var before := run[..|run| - 1];
      var a := run[|run| - 1];
      if Accepts(After(Cleared, before), a) then Accepted(before) + [a.seqNum] else Accepted(before)
  }

  ghost function Elements(s: seq<nat>): set<nat> {
    set n | n in s
  }

  ghost predicate IsMax(m: nat, s: seq<nat>) {
    (m in s || m == 0) && forall n :: n in s ==> n <= m
  }

  lemma {:induction false} RunIsExact(run: seq<Arrival>)
    ensures Exact(After(Cleared, run), Elements(Accepted(run)))
  {
    if run == [] {
      ClearedIsExact();
      assert Elements([]) == {};
    } else {
      var before, a := run[..|run| - 1], run[|run| - 1];
      RunIsExact(before);
      if Accepts(After(Cleared, before), a) {
        RecordedIsExact(After(Cleared, before), Elements(Accepted(before)), a.seqNum);
        assert Elements(Accepted(before) + [a.seqNum]) == Elements(Accepted(before)) + {a.seqNum};
      }
    }
  }

  lemma EdgeIsMax(w: Window, s: seq<nat>, m: nat)
    requires Exact(w, Elements(s)) && IsMax(m, s)
    ensures w.maxSeq == m
  {
    if m in s { assert m in Elements(s); }
    if w.maxSeq != 0 { assert w.maxSeq in Elements(s); }
  }

  /** The window is exact over every run of an epoch: a number is discarded iff it
      was accepted before or lies 64 or more behind the largest accepted one. */
  lemma DiscardIsExact(run: seq<Arrival>, n: nat, m: nat)
    requires IsMax(m, Accepted(run))
    ensures Discards(After(Cleared, run), n) <==> n in Accepted(run) || n + WORD <= m
  {
    RunIsExact(run);
    var w := After(Cleared, run);
    var seen := Elements(Accepted(run));
    EdgeIsMax(w, Accepted(run), m);
    assert n in seen <==> n in Accepted(run);
    if n <= m && m - n < WORD {
      var i: nat := m - n;
      assert Bit(w.bits, i) <==> m - i in seen;
    }
  }

  /** Hence no record is accepted twice. */
  lemma {:induction false} AcceptedOnce(run: seq<Arrival>)
    ensures forall i, j :: 0 <= i < j < |Accepted(run)| ==> Accepted(run)[i] != Accepted(run)[j]
  {
    if run != [] {
      var before, a := run[..|run| - 1], run[|run| - 1];
      var w := After(Cleared, before);
      AcceptedOnce(before);
      RunIsExact(before);
      forall n | n in Accepted(before) ensures n <= w.maxSeq { assert n in Elements(Accepted(before)); }
      if w.maxSeq != 0 { assert w.maxSeq in Elements(Accepted(before)); }
      DiscardIsExact(before, a.seqNum, w.maxSeq);
    }
  }
}
