/** Big-endian positional numerals in an arbitrary base. */
module PlaceValue {

  function Pow(b: nat, n: nat): nat {
    if n == 0 then 1 else b * Pow(b, n - 1)
  }

  predicate IsNumeral(b: nat, ds: seq<nat>) {
    forall i :: 0 <= i < |ds| ==> ds[i] < b
  }

  /** The number that the big-endian digits `ds` denote in base `b`. */
  function Value(b: nat, ds: seq<nat>): nat {
    if ds == [] then 0 else Value(b, ds[..|ds| - 1]) * b + ds[|ds| - 1]
  }

  /** The `n` low-order digits of `v`, most significant first. */
  function Digits(b: nat, v: nat, n: nat): (ds: seq<nat>)
    requires 2 <= b
    ensures |ds| == n && IsNumeral(b, ds)
  {
    if n == 0 then [] else Digits(b, v / b, n - 1) + [v % b]
  }

  /** The shortest numeral of `v`; zero has the empty numeral. */
  function Numeral(b: nat, v: nat): (ds: seq<nat>)
    requires 2 <= b
    ensures IsNumeral(b, ds)
    ensures v != 0 ==> ds != [] && ds[0] != 0
    decreases v
  {
    if v == 0 then [] else
      QuotientIsSmaller(b, v);
      Numeral(b, v / b) + [v % b]
  }

  function Zeros(n: nat): (ds: seq<nat>)
    ensures |ds| == n && forall i :: 0 <= i < n ==> ds[i] == 0
  {
    seq(n, _ => 0)
  }

  /** `v` divided `k` times by `b`. */
  function Quotient(b: nat, v: nat, k: nat): nat
    requires 2 <= b
  {
    if k == 0 then v else Quotient(b, v, k - 1) / b
  }

  lemma QuotientIsSmaller(b: nat, v: nat)
    requires 2 <= b && 0 < v
    ensures v / b < v
  {
    DivMod(b, v);
    if v / b >= v {
      assert b * (v / b) >= 2 * (v / b) by { MulMonotonic(2, b, v / b); }
      assert false;
    }
  }

  lemma MulMonotonic(x: nat, y: nat, z: nat)
    requires x <= y
    ensures x * z <= y * z && z * x <= z * y
  {
  }

  lemma DivMod(b: nat, v: nat)
    requires 0 < b
    ensures v == b * (v / b) + v % b && v % b < b
  {
  }

  lemma Recompose(b: nat, v: nat)
    requires 0 < b
    ensures v / b * b + v % b == v
  {
    DivMod(b, v);
  }

  lemma QuotientFits(b: nat, v: nat, p: nat)
    requires 0 < b && v < b * p
    ensures v / b < p
  {
    DivMod(b, v);
    if v / b >= p {
      MulMonotonic(p, v / b, b);
      assert false;
    }
  }

  /** Quotient and remainder are the only way to split `v`. */
  lemma DivModUnique(b: nat, q: nat, r: nat)
    requires r < b
    ensures (b * q + r) / b == q && (b * q + r) % b == r
  {
    var v := b * q + r;
    DivMod(b, v);
    var q', r' := v / b, v % b;
    assert b * (q - q') == r' - r;
    if q < q' {
      MulMonotonic(1, q' - q, b);
      assert false;
    } else if q' < q {
      MulMonotonic(1, q - q', b);
      assert false;
    }
  }

  /** Splitting `v` by `a`, and the quotient by `b`, splits `v` by `a * b`. */
  lemma SplitTwice(v: nat, a: nat, b: nat, x: nat, r: nat, q: nat, d: nat)
    requires v == a * x + r && r < a && x == b * q + d && d < b
    ensures v == a * b * q + (d * a + r) && d * a + r < a * b
  {
    DigitFits(d, b, a, r);
    assert a * (b * q + d) == a * b * q + d * a;
  }

  lemma ZeroDivides(b: nat)
    requires 0 < b
    ensures 0 / b == 0 && 0 % b == 0
  {
  }

  lemma DivDiv(v: nat, a: nat, b: nat)
    requires 0 < a && 0 < b
    ensures 0 < a * b && v / a / b == v / (a * b)
    ensures v % (a * b) == v / a % b * a + v % a
  {
    DivMod(a, v);
    DivMod(b, v / a);
    SplitTwice(v, a, b, v / a, v % a, v / a / b, v / a % b);
    DivModUnique(a * b, v / a / b, v / a % b * a + v % a);
  }

  lemma {:induction false} PowAdd(b: nat, m: nat, n: nat)
    ensures Pow(b, m + n) == Pow(b, m) * Pow(b, n)
  {
    if m != 0 {
      PowAdd(b, m - 1, n);
      assert b * (Pow(b, m - 1) * Pow(b, n)) == b * Pow(b, m - 1) * Pow(b, n);
    }
  }

  lemma PowDouble(b: nat, n: nat, p: nat)
    requires Pow(b, n) == p
    ensures Pow(b, 2 * n) == p * p
  {
    PowAdd(b, n, n);
  }

  lemma {:induction false} PowPositive(b: nat, n: nat)
    requires 0 < b
    ensures 0 < Pow(b, n)
  {
    if n != 0 {
      PowPositive(b, n - 1);
    }
  }

  lemma ValueAppend(b: nat, ds: seq<nat>, d: nat)
    ensures Value(b, ds + [d]) == Value(b, ds) * b + d
  {
    assert (ds + [d])[..|ds|] == ds;
  }

  lemma PowMonotonic(b: nat, m: nat, n: nat)
    requires 0 < b && m <= n
    ensures Pow(b, m) <= Pow(b, n)
  {
    PowPositive(b, n - m);
    PowAdd(b, m, n - m);
    MulMonotonic(1, Pow(b, n - m), Pow(b, m));
  }

  lemma {:induction false} ValueConcat(b: nat, x: seq<nat>, y: seq<nat>)
    ensures Value(b, x + y) == Value(b, x) * Pow(b, |y|) + Value(b, y)
  {
    if y == [] {
      assert x + y == x;
    } else {
      var y' := y[..|y| - 1];
      assert (x + y)[..|x + y| - 1] == x + y';
      ValueConcat(b, x, y');
      Regroup(Value(b, x), Pow(b, |y'|), Value(b, y'), b);
      assert Value(b, x + y) == Value(b, x + y') * b + y[|y| - 1];
    }
  }

  lemma Regroup(x: nat, p: nat, y: nat, b: nat)
    ensures (x * p + y) * b == x * (b * p) + y * b
  {
  }

  lemma {:induction false} ValueZeros(b: nat, n: nat)
    ensures Value(b, Zeros(n)) == 0
  {
    if n != 0 {
      assert Zeros(n)[..n - 1] == Zeros(n - 1);
      ValueZeros(b, n - 1);
    }
  }

  lemma LeadingZeros(b: nat, n: nat, ds: seq<nat>)
    ensures Value(b, Zeros(n) + ds) == Value(b, ds)
  {
    ValueConcat(b, Zeros(n), ds);
    ValueZeros(b, n);
  }

  lemma DigitFits(v: nat, p: nat, b: nat, d: nat)
    requires v < p && d < b
    ensures v * b + d < b * p
  {
    MulMonotonic(v + 1, p, b);
  }

  lemma {:induction false} ValueBound(b: nat, ds: seq<nat>)
    requires 0 < b && IsNumeral(b, ds)
    ensures Value(b, ds) < Pow(b, |ds|)
  {
    if ds != [] {
      var ds' := ds[..|ds| - 1];
      ValueBound(b, ds');
      DigitFits(Value(b, ds'), Pow(b, |ds'|), b, ds[|ds| - 1]);
    }
  }

  lemma OneDigitLess(b: nat, v: nat, n: nat)
    requires 0 < b && 0 < n && v < Pow(b, n)
    ensures v / b < Pow(b, n - 1)
  {
    QuotientFits(b, v, Pow(b, n - 1));
  }

  lemma ValueOfLastDigit(b: nat, v: nat, n: nat)
    requires 2 <= b && 0 < n && Value(b, Digits(b, v / b, n - 1)) == v / b
    ensures Value(b, Digits(b, v, n)) == v
  {
    DigitsStep(b, v, n);
    ValueAppend(b, Digits(b, v / b, n - 1), v % b);
    hide Digits, Value;
    Recompose(b, v);
  }

  /** A number that fits `n` digits is the value of its `n` digits. */
  lemma {:induction false} ValueOfDigits(b: nat, v: nat, n: nat)
    requires 2 <= b && v < Pow(b, n)
    ensures Value(b, Digits(b, v, n)) == v
  {
    hide Digits, Value, Pow;
    if n == 0 {
      NoDigits(b, v);
    } else {
      OneDigitLess(b, v, n);
      ValueOfDigits(b, v / b, n - 1);
      ValueOfLastDigit(b, v, n);
    }
  }

  lemma NoDigits(b: nat, v: nat)
    requires 2 <= b && v < Pow(b, 0)
    ensures Value(b, Digits(b, v, 0)) == v
  {
  }

  /** A numeral is the digits of its value: fixed-width numerals are unique. */
  lemma {:induction false} DigitsOfValue(b: nat, ds: seq<nat>)
    requires 2 <= b && IsNumeral(b, ds)
    ensures Digits(b, Value(b, ds), |ds|) == ds
  {
    if ds != [] {
      var ds', d := ds[..|ds| - 1], ds[|ds| - 1];
      DivModUnique(b, Value(b, ds'), d);
      DigitsOfValue(b, ds');
    }
  }

  lemma {:induction false} NumeralLength(b: nat, v: nat, n: nat)
    requires 2 <= b && v < Pow(b, n)
    ensures |Numeral(b, v)| <= n
  {
    if v != 0 {
      QuotientIsSmaller(b, v);
      OneDigitLess(b, v, n);
      NumeralLength(b, v / b, n - 1);
    }
  }

  /** Any wide enough fixed-width numeral is the shortest one behind zeros. */
  lemma {:induction false} DigitsArePaddedNumeral(b: nat, v: nat, n: nat)
    requires 2 <= b && |Numeral(b, v)| <= n
    ensures Digits(b, v, n) == Zeros(n - |Numeral(b, v)|) + Numeral(b, v)
  {
    hide Digits, Numeral;
    if n == 0 {
    } else if v == 0 {
      ZeroDivides(b);
      EmptyNumeral(b);
      DigitsStep(b, 0, n);
      DigitsArePaddedNumeral(b, 0, n - 1);
      PadAppend(n - 1, [], 0);
    } else {
      NumeralStep(b, v);
      DigitsStep(b, v, n);
      DigitsArePaddedNumeral(b, v / b, n - 1);
      PadAppend(n - 1 - |Numeral(b, v / b)|, Numeral(b, v / b), v % b);
    }
  }

  lemma EmptyNumeral(b: nat)
    requires 2 <= b
    ensures Numeral(b, 0) == []
  {
  }

  lemma DigitsStep(b: nat, v: nat, n: nat)
    requires 2 <= b && 0 < n
    ensures Digits(b, v, n) == Digits(b, v / b, n - 1) + [v % b]
  {
  }

  lemma NumeralStep(b: nat, v: nat)
    requires 2 <= b && 0 < v
    ensures v / b < v && Numeral(b, v) == Numeral(b, v / b) + [v % b]
  {
    QuotientIsSmaller(b, v);
  }

  /** One more digit behind padding, where a zero counts as padding only before the first digit. */
  lemma PadAppend(zeros: nat, ds: seq<nat>, d: nat)
    ensures Zeros(zeros) + ds + [d] == Zeros(zeros) + (ds + [d])
    ensures ds == [] && d == 0 ==> Zeros(zeros) + ds + [d] == Zeros(zeros + 1)
  {
  }

  lemma {:induction false} QuotientShift(b: nat, v: nat, k: nat)
    requires 2 <= b
    ensures Quotient(b, v, k + 1) == Quotient(b, v / b, k)
  {
    if k != 0 {
      QuotientShift(b, v, k - 1);
    }
  }

  /** Digit `i` from the right is what `i` divisions leave, modulo the base. */
  lemma {:induction false} DigitFromRight(b: nat, v: nat, n: nat, i: nat)
    requires 2 <= b && i < n
    ensures Digits(b, v, n)[n - 1 - i] == Quotient(b, v, i) % b
  {
    if i != 0 {
      DigitFromRight(b, v / b, n - 1, i - 1);
      QuotientShift(b, v, i - 1);
    }
  }

  lemma {:induction false} QuotientIsDivision(b: nat, v: nat, k: nat)
    requires 2 <= b
    ensures 0 < Pow(b, k) && Quotient(b, v, k) == v / Pow(b, k)
  {
    hide Quotient, Pow;
    PowPositive(b, k);
    if k == 0 {
      NoDivision(b, v);
    } else {
      QuotientIsDivision(b, v, k - 1);
      OneMoreDivision(b, v, k);
      PowStep(b, k);
      DivDiv(v, Pow(b, k - 1), b);
    }
  }

  lemma NoDivision(b: nat, v: nat)
    requires 2 <= b
    ensures Quotient(b, v, 0) == v / Pow(b, 0)
  {
  }

  lemma OneMoreDivision(b: nat, v: nat, k: nat)
    requires 2 <= b && 0 < k
    ensures Quotient(b, v, k) == Quotient(b, v, k - 1) / b
  {
  }

  lemma PowStep(b: nat, k: nat)
    requires 0 < k
    ensures Pow(b, k) == Pow(b, k - 1) * b
  {
  }

  /** The shortest numeral has more than `k` digits exactly while `k` divisions leave something. */
  lemma {:induction false} NumeralLongerThan(b: nat, v: nat, k: nat)
    requires 2 <= b
    ensures k < |Numeral(b, v)| <==> Quotient(b, v, k) != 0
  {
    if v == 0 {
      QuotientOfZero(b, k);
    } else if k != 0 {
      QuotientIsSmaller(b, v);
      NumeralLongerThan(b, v / b, k - 1);
      QuotientShift(b, v, k - 1);
    }
  }

  lemma {:induction false} QuotientOfZero(b: nat, k: nat)
    requires 2 <= b
    ensures Quotient(b, 0, k) == 0
  {
    if k != 0 {
      QuotientOfZero(b, k - 1);
      DivModUnique(b, 0, 0);
    }
  }
}
