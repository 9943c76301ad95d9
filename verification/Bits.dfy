/** Bitwise operators of unsigned machine words, over their numeric values. */
module Bits {

  function Or(a: nat, b: nat): nat {
    if a == 0 && b == 0 then 0
    else 2 * Or(a / 2, b / 2) + (if a % 2 == 1 || b % 2 == 1 then 1 else 0)
  }

  function And(a: nat, b: nat): nat {
    if a == 0 || b == 0 then 0
    else 2 * And(a / 2, b / 2) + (if a % 2 == 1 && b % 2 == 1 then 1 else 0)
  }

  function Pow2(k: nat): (p: nat)
    ensures p >= 1
  {
    if k == 0 then 1 else 2 * Pow2(k - 1)
  }

  lemma {:induction false} OrZero(a: nat)
    ensures Or(a, 0) == a
  {
    if a != 0 { OrZero(a / 2); }
  }

  function ShiftLeft(x: nat, k: nat): nat {
    if k == 0 then x else 2 * ShiftLeft(x, k - 1)
  }

  function ShiftRight(x: nat, k: nat): nat {
    if k == 0 then x else ShiftRight(x / 2, k - 1)
  }

  /** Or-ing into a word whose low `k` bits are clear is addition. */
  lemma {:induction false} OrDisjoint(high: nat, k: nat, low: nat)
    requires low < Pow2(k)
    ensures Or(ShiftLeft(high, k), low) == ShiftLeft(high, k) + low
  {
    if k == 0 {
      OrZero(high);
    } else if ShiftLeft(high, k) != 0 || low != 0 {
      OrDisjoint(high, k - 1, low / 2);
      OrHalves(ShiftLeft(high, k - 1), low);
    }
  }

  lemma OrHalves(half: nat, low: nat)
    requires half != 0 || low != 0
    ensures Or(2 * half, low) == 2 * Or(half, low / 2) + low % 2
  {
    assert 2 * half / 2 == half;
  }

  /** Masking with ones in the top `w` of `w + k` bits clears the low `k` bits and keeps the rest. */
  lemma {:induction false} AndHighMask(x: nat, w: nat, k: nat)
    requires x < Pow2(w + k)
    ensures var high := And(x, ShiftLeft(Pow2(w) - 1, k));
            high == ShiftLeft(ShiftRight(x, k), k) && high <= x < high + Pow2(k)
    decreases w + k
  {
    if k == 0 {
      AndLowMask(x, w);
    } else {
      AndHighMask(x / 2, w, k - 1);
      AndDouble(x, ShiftLeft(Pow2(w) - 1, k - 1));
    }
  }

  lemma AndDouble(x: nat, mask: nat)
    ensures And(x, 2 * mask) == 2 * And(x / 2, mask)
  {
    if x != 0 && mask != 0 { assert 2 * mask / 2 == mask; }
  }

  lemma {:induction false} AndLowMask(x: nat, w: nat)
    requires x < Pow2(w)
    ensures And(x, Pow2(w) - 1) == x
  {
    if w > 0 && x != 0 {
      AndLowMask(x / 2, w - 1);
    }
  }

  lemma ShiftBy17(x: nat)
    ensures ShiftLeft(x, 17) == 0x2_0000 * x
  {
    assert ShiftLeft(x, 1) == 2 * x;
    assert ShiftLeft(x, 2) == 4 * x;
    assert ShiftLeft(x, 4) == 16 * x;
    assert ShiftLeft(x, 6) == 64 * x;
    assert ShiftLeft(x, 8) == 256 * x;
    assert ShiftLeft(x, 10) == 1024 * x;
    assert ShiftLeft(x, 12) == 4096 * x;
    assert ShiftLeft(x, 14) == 16384 * x;
    assert ShiftLeft(x, 16) == 65536 * x;
  }
}
