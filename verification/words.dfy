// Unsigned machine words as natural numbers: bit `i` of a word, a left shift
// that drops the bits leaving a `w`-bit word, and `word | (1 << i)`.
module Words {

  function Pow2(n: nat): (r: nat)
    ensures r > 0
  {
    if n == 0 then 1 else 2 * Pow2(n - 1)
  }

  predicate Bit(m: nat, i: nat) {
    if i == 0 then m % 2 == 1 else Bit(m / 2, i - 1)
  }

  function ShiftLeft(m: nat, s: nat, w: nat): nat
    decreases s
  {
    if s == 0 then m else ShiftLeft((2 * m) % Pow2(w), s - 1, w)
  }

  function SetBit(m: nat, i: nat): nat {
    if Bit(m, i) then m else m + Pow2(i)
  }

  lemma {:induction false} ZeroHasNoBits(i: nat)
    ensures !Bit(0, i)
  {
    if i > 0 { ZeroHasNoBits(i - 1); }
  }

  lemma MultipleIsFar(p: nat, d: int)
    ensures d >= 1 ==> p * d >= p
    ensures d <= -1 ==> p * d <= 0 - p
  {
  }

  lemma DivisionIsUnique(p: nat, q: int, r: nat)
    requires r < p
    ensures (p * q + r) % p == r && (p * q + r) / p == q
  {
    var x := p * q + r;
    var d := x / p - q;
    assert p * (x / p) + x % p == x;
    assert p * (x / p) == p * d + p * q;
    assert p * d == r - x % p;
    MultipleIsFar(p, d);
  }

  lemma HalfOfRemainder(m: nat, p: nat)
    requires p > 0
    ensures (m % (2 * p)) / 2 == (m / 2) % p
    ensures (m % (2 * p)) % 2 == m % 2
  {
    var q, r := m / (2 * p), m % (2 * p);
    assert m == (2 * p) * q + r == 2 * (p * q) + r;
    assert m / 2 == p * q + r / 2;
    DivisionIsUnique(p, q, r / 2);
  }

  lemma {:induction false} LowBits(m: nat, w: nat, i: nat)
    requires i < w
    ensures Bit(m % Pow2(w), i) == Bit(m, i)
  {
    HalfOfRemainder(m, Pow2(w - 1));
    if i > 0 { LowBits(m / 2, w - 1, i - 1); }
  }

  lemma DoubledBit(m: nat, w: nat, i: nat)
    requires i < w
    ensures Bit((2 * m) % Pow2(w), i) <==> i > 0 && Bit(m, i - 1)
  {
    LowBits(2 * m, w, i);
  }

  lemma {:induction false} ShiftedBit(m: nat, s: nat, w: nat, i: nat)
    requires i < w
    ensures Bit(ShiftLeft(m, s, w), i) <==> s <= i && Bit(m, i - s)
    decreases s
  {
    if s > 0 {
      var m' := (2 * m) % Pow2(w);
      ShiftedBit(m', s - 1, w, i);
      if s - 1 <= i { DoubledBit(m, w, i - (s - 1)); }
    }
  }

  lemma {:induction false} AddedBit(m: nat, k: nat, i: nat)
    requires !Bit(m, k)
    ensures Bit(m + Pow2(k), i) <==> i == k || Bit(m, i)
  {
    if i > 0 && k > 0 {
      assert (m + Pow2(k)) / 2 == m / 2 + Pow2(k - 1);
      AddedBit(m / 2, k - 1, i - 1);
    }
  }

  lemma SetBitExact(m: nat, k: nat, i: nat)
    ensures Bit(SetBit(m, k), i) <==> i == k || Bit(m, i)
  {
    if !Bit(m, k) { AddedBit(m, k, i); }
  }

  lemma {:induction false} ShiftStaysInWord(m: nat, s: nat, w: nat)
    requires m < Pow2(w)
    ensures ShiftLeft(m, s, w) < Pow2(w)
    decreases s
  {
    if s > 0 { ShiftStaysInWord((2 * m) % Pow2(w), s - 1, w); }
  }

  lemma {:induction false} WordFromBits(m: nat, w: nat, m': nat)
    requires m < Pow2(w) && m' < Pow2(w)
    requires forall i: nat :: i < w ==> Bit(m, i) == Bit(m', i)
    ensures m == m'
  {
    if w > 0 {
      assert Bit(m, 0) == Bit(m', 0);
      forall i: nat | i < w - 1 ensures Bit(m / 2, i) == Bit(m' / 2, i) {
        assert Bit(m, i + 1) == Bit(m', i + 1);
      }
      WordFromBits(m / 2, w - 1, m' / 2);
    }
  }

  lemma {:induction false} SetBitStaysInWord(m: nat, k: nat, w: nat)
    requires m < Pow2(w) && k < w
    ensures SetBit(m, k) < Pow2(w)
  {
    if k > 0 && !Bit(m, k) {
      SetBitStaysInWord(m / 2, k - 1, w - 1);
    }
  }
}
