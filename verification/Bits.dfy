/** Bitwise operators on unsigned words, bit by bit, and what they compute. */
module Bits {
  import opened PlaceValue

  function And(x: nat, y: nat): nat {
    if x == 0 || y == 0 then 0
    else 2 * And(x / 2, y / 2) + (if x % 2 == 1 && y % 2 == 1 then 1 else 0)
  }

  function Or(x: nat, y: nat): nat
    decreases x + y
  {
    if x == 0 && y == 0 then 0
    else 2 * Or(x / 2, y / 2) + (if x % 2 == 1 || y % 2 == 1 then 1 else 0)
  }

  /** The `width` low bits of `x`. */
  function Low(x: nat, width: nat): nat {
    if width == 0 then 0 else 2 * Low(x / 2, width - 1) + x % 2
  }

  /** `x << k` in a word of `width` bits: bits shifted out at the top are lost. */
  function Shl(x: nat, k: nat, width: nat): nat {
    if k == 0 then Low(x, width)
    else if width == 0 then 0
    else 2 * Shl(x, k - 1, width - 1)
  }

  lemma {:induction false} LowIsModulo(x: nat, width: nat)
    ensures 0 < Pow(2, width) && Low(x, width) == x % Pow(2, width)
  {
    PowPositive(2, width);
    if width != 0 {
      LowIsModulo(x / 2, width - 1);
      DivDiv(x, 2, Pow(2, width - 1));
    }
  }

  /** Shifting multiplies, modulo the word. */
  lemma {:induction false} ShlIsProduct(x: nat, k: nat, width: nat)
    ensures 0 < Pow(2, width) && Shl(x, k, width) == x * Pow(2, k) % Pow(2, width)
  {
    PowPositive(2, width);
    if k == 0 {
      LowIsModulo(x, width);
    } else if width != 0 {
      var h, w := x * Pow(2, k - 1), Pow(2, width - 1);
      ShlIsProduct(x, k - 1, width - 1);
      assert x * Pow(2, k) == 2 * h by { Double(x, Pow(2, k - 1)); }
      DivModUnique(2, h, 0);
      DivDiv(2 * h, 2, w);
    }
  }

  lemma Double(x: nat, p: nat)
    ensures x * (2 * p) == 2 * (x * p)
  {
  }

  lemma {:induction false} OrWithZero(x: nat)
    ensures Or(0, x) == x
  {
    if x != 0 {
      OrWithZero(x / 2);
    }
  }

  /** Or-ing a `k`-bit word under `k` zero bits adds it. */
  lemma {:induction false} OrBelow(x: nat, y: nat, k: nat)
    requires y < Pow(2, k)
    ensures Or(x * Pow(2, k), y) == x * Pow(2, k) + y
  {
    if k == 0 {
      if x != 0 {
        OrBelow(x / 2, 0, 0);
      }
    } else {
      var h := x * Pow(2, k - 1);
      assert x * Pow(2, k) == 2 * h by { assert x * (2 * Pow(2, k - 1)) == 2 * (x * Pow(2, k - 1)); }
      OrBelow(x, y / 2, k - 1);
    }
  }

  lemma {:induction false} AndAllOnes(x: nat, width: nat)
    requires x < Pow(2, width)
    ensures And(x, Pow(2, width) - 1) == x
  {
    if x != 0 {
      AndAllOnes(x / 2, width - 1);
    }
  }

  /** Masking off the low `k` bits rounds down to a multiple of `2^k`. */
  lemma {:induction false} AndHighOnes(x: nat, width: nat, k: nat)
    requires x < Pow(2, width) && k <= width
    ensures 0 < Pow(2, k) <= Pow(2, width)
    ensures And(x, Pow(2, width) - Pow(2, k)) == x / Pow(2, k) * Pow(2, k)
  {
    PowPositive(2, k);
    PowPositive(2, width);
    if k == 0 {
      AndAllOnes(x, width);
    } else {
      var p, w := Pow(2, k - 1), Pow(2, width - 1);
      AndHighOnes(x / 2, width - 1, k - 1);
      RoundDownHalves(x, p);
      assert Pow(2, width) - Pow(2, k) == 2 * (w - p);
      AndEven(x, w - p);
    }
  }

  lemma AndEven(x: nat, m: nat)
    ensures And(x, 2 * m) == 2 * And(x / 2, m)
  {
  }

  lemma RoundDownHalves(x: nat, p: nat)
    requires 0 < p
    ensures x / (2 * p) * (2 * p) == 2 * (x / 2 / p * p)
  {
    DivDiv(x, 2, p);
    var q := x / (2 * p);
    assert q * (2 * p) == 2 * (q * p);
  }

  /** Shifting all ones left by `k` leaves ones from bit `k` up. */
  lemma ShiftedOnes(width: nat, k: nat)
    requires k <= width
    ensures 0 < Pow(2, k) <= Pow(2, width)
    ensures Shl(Pow(2, width) - 1, k, width) == Pow(2, width) - Pow(2, k)
  {
    PowAdd(2, k, width - k);
    PowPositive(2, k);
    PowPositive(2, width - k);
    MulMonotonic(1, Pow(2, width - k), Pow(2, k));
    ShlIsProduct(Pow(2, width) - 1, k, width);
    WrapAllOnes(Pow(2, width), Pow(2, k));
  }

  lemma WrapAllOnes(w: nat, p: nat)
    requires 0 < p <= w
    ensures (w - 1) * p % w == w - p
  {
    DivModUnique(w, p - 1, w - p);
    assert (w - 1) * p == w * (p - 1) + (w - p);
  }
}
