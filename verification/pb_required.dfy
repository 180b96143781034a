// The decoder's bookkeeping of required fields: two 32-bit words, one bit for each
// required field, and the comparison made at the end of a message.
module PbRequired {
  import opened Words
  import opened PbDescriptor
  import opened PbDecodeModel
  import opened PbIterator

  const MAX_REQUIRED := 64   // PB_MAX_REQUIRED_FIELDS
  const WORD := 32
  const ALL_BITS: nat := 0xFFFF_FFFF

  function RequiredCount(d: Desc): nat {
    RequiredBefore(d, |d.fields|)
  }

  /** Field `i` is required, occurred, and has required index `k`. */
  ghost predicate Marks(d: Desc, seen: set<nat>, i: nat, k: nat) {
    i in seen && i < |d.fields| && d.fields[i].htype.Required? && RequiredBefore(d, i) == k
  }

  predicate BitAt(words: seq<nat>, k: nat)
    requires |words| == 2 && k < MAX_REQUIRED
  {
    Bit(words[k / WORD], k % WORD)
  }

  /** Bit `k` is set iff the required field with index `k` occurred. */
  ghost predicate Tracks(words: seq<nat>, d: Desc, seen: set<nat>) {
    && |words| == 2 && words[0] < Pow2(WORD) && words[1] < Pow2(WORD)
    && forall k: nat :: k < MAX_REQUIRED ==> (BitAt(words, k) <==> exists i :: Marks(d, seen, i, k))
  }

  lemma NoneSeen(d: Desc)
    ensures Tracks([0, 0], d, {})
  {
    forall k: nat ensures !Bit(0, k) { ZeroHasNoBits(k); }
  }

  /** `fields_seen[index >> 5] |= 1 << (index & 31)`. */
  function Marked(words: seq<nat>, index: nat): seq<nat>
    requires |words| == 2 && index < MAX_REQUIRED
    ensures |Marked(words, index)| == 2
  {
    words[index / WORD := SetBit(words[index / WORD], index % WORD)]
  }

  lemma MarkedBits(words: seq<nat>, index: nat)
    requires |words| == 2 && words[0] < Pow2(WORD) && words[1] < Pow2(WORD) && index < MAX_REQUIRED
    ensures var w := Marked(words, index);
            && w[0] < Pow2(WORD) && w[1] < Pow2(WORD)
            && forall k: nat :: k < MAX_REQUIRED ==> (BitAt(w, k) <==> k == index || BitAt(words, k))
  {
    hide Bit, SetBit, Pow2;
    var w := words[index / WORD];
    SetBitStaysInWord(w, index % WORD, WORD);
    forall k: nat { SetBitExact(w, index % WORD, k); }
  }

  lemma SeenOneMore(d: Desc, seen: set<nat>, i: nat, k: nat)
    ensures (exists j :: Marks(d, seen + {i}, j, k)) <==> (exists j :: Marks(d, seen, j, k)) || Marks(d, {i}, i, k)
  {
    if j :| Marks(d, seen + {i}, j, k) { assert j == i || Marks(d, seen, j, k); }
    if j :| Marks(d, seen, j, k) { assert Marks(d, seen + {i}, j, k); }
    if Marks(d, {i}, i, k) { assert Marks(d, seen + {i}, i, k); }
  }

  lemma MarkTracks(words: seq<nat>, d: Desc, seen: set<nat>, i: nat)
    requires Tracks(words, d, seen) && i < |d.fields| && RequiredCount(d) < MAX_REQUIRED
    ensures !d.fields[i].htype.Required? ==> Tracks(words, d, seen + {i})
    ensures d.fields[i].htype.Required? ==>
              RequiredBefore(d, i) < MAX_REQUIRED && Tracks(Marked(words, RequiredBefore(d, i)), d, seen + {i})
  {
    hide Pow2, Marked;
    var after := words;
    if d.fields[i].htype.Required? {
      RequiredIndicesDiffer(d, i, i);
      after := Marked(words, RequiredBefore(d, i));
      MarkedBits(words, RequiredBefore(d, i));
    }
    forall k: nat | k < MAX_REQUIRED
      ensures BitAt(after, k) <==> exists j :: Marks(d, seen + {i}, j, k)
    {
      hide BitAt, RequiredBefore;
      SeenOneMore(d, seen, i, k);
      assert BitAt(words, k) <==> exists j :: Marks(d, seen, j, k);
      assert Marks(d, {i}, i, k) <==> d.fields[i].htype.Required? && RequiredBefore(d, i) == k;
    }
  }

  /** `allbits >> (32 - (count & 31))`; a shift by 32 is undefined. */
  function LastWord(count: nat): nat
    requires count % WORD != 0
  {
    ALL_BITS / Pow2(WORD - count % WORD)
  }

  /** The final comparison. */
  predicate Passes(words: seq<nat>, count: nat)
    requires |words| == 2 && count < MAX_REQUIRED && count != WORD
  {
    count > 0 ==> (forall i :: 0 <= i < count / WORD ==> words[i] == ALL_BITS) && words[count / WORD] == LastWord(count)
  }

  // ---- Words of ones ----

  lemma {:induction false} OnesBit(c: nat, i: nat)
    ensures Bit(Pow2(c) - 1, i) <==> i < c
  {
    if c == 0 {
      ZeroHasNoBits(i);
    } else if i > 0 {
      assert (Pow2(c) - 1) / 2 == Pow2(c - 1) - 1;
      OnesBit(c - 1, i - 1);
    }
  }

  lemma {:induction false} PowSplit(a: nat, b: nat)
    ensures Pow2(a + b) == Pow2(a) * Pow2(b)
  {
    if a > 0 {
      PowSplit(a - 1, b);
      assert 2 * (Pow2(a - 1) * Pow2(b)) == Pow2(a) * Pow2(b);
    }
  }

  lemma AllBitsIsOnes()
    ensures ALL_BITS == Pow2(WORD) - 1
  {
    assert Pow2(8) == 256;
    PowSplit(8, 8);
    PowSplit(16, 16);
    hide Pow2;
  }

  lemma ShiftedOnes(p: nat, q: nat)
    requires p > 0 && q > 0
    ensures (p * q - 1) / p == q - 1
  {
    assert p * (q - 1) == p * q - p;
    DivisionIsUnique(p, q - 1, p - 1);
  }

  lemma LastWordIsOnes(count: nat)
    requires count % WORD != 0
    ensures LastWord(count) == Pow2(count % WORD) - 1
  {
    hide Pow2;
    var c := count % WORD;
    AllBitsIsOnes();
    PowSplit(WORD - c, c);
    ShiftedOnes(Pow2(WORD - c), Pow2(c));
  }

  /** The low `c` bits and no others, of a 32-bit word, are set. */
  predicate LowOnes(word: nat, c: nat) {
    forall i: nat :: i < WORD ==> (Bit(word, i) <==> i < c)
  }

  lemma {:induction false} PowAscends(c: nat, n: nat)
    requires c <= n
    ensures Pow2(c) <= Pow2(n)
  {
    if c < n { PowAscends(c, n - 1); }
  }

  lemma OnesExactly(word: nat, c: nat)
    requires word < Pow2(WORD) && c <= WORD
    ensures word == Pow2(c) - 1 <==> LowOnes(word, c)
  {
    hide Pow2, Bit;
    PowAscends(c, WORD);
    var ones := Pow2(c) - 1;
    forall i: nat ensures Bit(ones, i) <==> i < c { OnesBit(c, i); }
    if LowOnes(word, c) { WordFromBits(word, WORD, ones); }
  }

  // ---- The comparison is exact ----

  ghost predicate AllSet(words: seq<nat>, count: nat)
    requires |words| == 2 && count < MAX_REQUIRED
  {
    forall k: nat :: k < count ==> BitAt(words, k)
  }

  ghost predicate NoneSetFrom(words: seq<nat>, count: nat)
    requires |words| == 2
  {
    forall k: nat :: count <= k < MAX_REQUIRED ==> !BitAt(words, k)
  }

  lemma OneWordSet(words: seq<nat>, count: nat)
    requires |words| == 2 && NoneSetFrom(words, count) && count < WORD
    ensures AllSet(words, count) <==> LowOnes(words[0], count)
  {
    hide Bit;
    assert forall i: nat :: i < WORD ==> (BitAt(words, i) <==> Bit(words[0], i));
  }

  lemma TwoWordsSet(words: seq<nat>, count: nat)
    requires |words| == 2 && NoneSetFrom(words, count) && WORD < count < MAX_REQUIRED
    ensures AllSet(words, count) <==> LowOnes(words[0], WORD) && LowOnes(words[1], count - WORD)
  {
    hide Bit;
    forall i: nat | i < WORD ensures Bit(words[0], i) <==> BitAt(words, i) {}
    forall k: nat | WORD <= k < MAX_REQUIRED ensures BitAt(words, k) <==> Bit(words[1], k - WORD) {}
    forall i: nat | i < WORD ensures Bit(words[1], i) <==> BitAt(words, WORD + i) {}
  }

  lemma WordsSet(words: seq<nat>, count: nat)
    requires |words| == 2 && words[0] < Pow2(WORD) && words[1] < Pow2(WORD)
    requires 0 < count < MAX_REQUIRED && count != WORD && NoneSetFrom(words, count)
    ensures Passes(words, count) <==> AllSet(words, count)
  {
    hide Pow2, LastWord, LowOnes, AllSet, NoneSetFrom;
    LastWordIsOnes(count);
    AllBitsIsOnes();
    if count < WORD {
      OnesExactly(words[0], count);
      OneWordSet(words, count);
    } else {
      OnesExactly(words[0], WORD);
      OnesExactly(words[1], count - WORD);
      TwoWordsSet(words, count);
      assert Passes(words, count) <==> words[0] == ALL_BITS && words[1] == LastWord(count);
    }
  }

  /** At the end of a message the comparison succeeds iff every required field
      occurred, for any number of required fields below 64 other than 32. */
  lemma RequiredCheckIsExact(words: seq<nat>, d: Desc, seen: set<nat>)
    requires Tracks(words, d, seen) && RequiredCount(d) < MAX_REQUIRED && RequiredCount(d) != WORD
    ensures Passes(words, RequiredCount(d)) <==> AllRequired(d, seen)
  {
    var count := RequiredCount(d);
    forall i, k: nat | Marks(d, seen, i, k) ensures k < count { RequiredIndicesDiffer(d, i, i); }
    if count == 0 {
      forall i | 0 <= i < |d.fields| ensures !d.fields[i].htype.Required? {
        if d.fields[i].htype.Required? { RequiredIndicesDiffer(d, i, i); }
      }
      return;
    }
    assert NoneSetFrom(words, count);
    WordsSet(words, count);
    hide Bit, Pow2, LastWord, Passes, RequiredBefore;
    if AllRequired(d, seen) {
      forall k: nat | k < count ensures BitAt(words, k) {
        var i := RequiredIndexTaken(d, |d.fields|, k);
        assert Marks(d, seen, i, k);
      }
    }
    if Passes(words, count) {
      forall i: nat | i < |d.fields| && d.fields[i].htype.Required? ensures i in seen {
        RequiredIndicesDiffer(d, i, i);
        var k := RequiredBefore(d, i);
        assert BitAt(words, k);
        var j :| Marks(d, seen, j, k);
        RequiredIndicesDiffer(d, i, j);
      }
    }
  }
}
