/** Bitwise operations on unsigned integers of any width, defined bit by bit. */
module Bits {
  function Pow2(k: nat): (p: nat)
    ensures p >= 1
  {
    if k == 0 then 1 else 2 * Pow2(k - 1)
  }

  function And(a: nat, b: nat): nat
    decreases a
  {
    if a == 0 then 0 else (if a % 2 == 1 && b % 2 == 1 then 1 else 0) + 2 * And(a / 2, b / 2)
  }

  function Or(a: nat, b: nat): nat
    decreases a + b
  {
    if a == 0 && b == 0 then 0
    else (if a % 2 == 1 || b % 2 == 1 then 1 else 0) + 2 * Or(a / 2, b / 2)
  }

  lemma {:induction false} OrZero(b: nat)
    ensures Or(0, b) == b
  {
    if b > 0 {
      OrZero(b / 2);
    }
  }

  /** On disjoint bit ranges the bitwise or is an addition. */
  lemma {:induction false} OrDisjoint(a: nat, b: nat, k: nat)
    requires b < Pow2(k)
    ensures Or(a * Pow2(k), b) == a * Pow2(k) + b
    decreases k
  {
    if k == 0 {
      OrComm(a, 0);
      OrZero(a);
    } else {
      Halve(a, k);
      OrDisjoint(a, b / 2, k - 1);
      if a == 0 {
        OrZero(b);
      }
    }
  }

  lemma Halve(a: nat, k: nat)
    requires k > 0
    ensures a * Pow2(k) == 2 * (a * Pow2(k - 1))
  {
  }

  lemma {:induction false} OrComm(a: nat, b: nat)
    ensures Or(a, b) == Or(b, a)
    decreases a + b
  {
    if a > 0 || b > 0 {
      OrComm(a / 2, b / 2);
    }
  }

  lemma {:induction false} AndZero(a: nat)
    ensures And(a, 0) == 0
  {
    if a > 0 {
      AndZero(a / 2);
    }
  }

  lemma {:induction false} AndComm(a: nat, b: nat)
    ensures And(a, b) == And(b, a)
    decreases a
  {
    if a == 0 {
      AndZero(b);
    } else {
      AndComm(a / 2, b / 2);
    }
  }

  /** Each bit of the results is what the operation makes of the two bits. */
  lemma {:induction false} BitOfBoth(a: nat, b: nat, k: nat)
    ensures And(a, b) / Pow2(k) % 2 == 1 <==> a / Pow2(k) % 2 == 1 && b / Pow2(k) % 2 == 1
    ensures Or(a, b) / Pow2(k) % 2 == 1 <==> a / Pow2(k) % 2 == 1 || b / Pow2(k) % 2 == 1
    decreases k
  {
    if k == 0 {
      AndOrStep(a, b);
    } else {
      AndOrStep(a, b);
      hide And, Or;
      BitOfBoth(a / 2, b / 2, k - 1);
      HalfQuotient(And(a, b), Pow2(k - 1));
      HalfQuotient(Or(a, b), Pow2(k - 1));
      HalfQuotient(a, Pow2(k - 1));
      HalfQuotient(b, Pow2(k - 1));
    }
  }

  lemma AndOrStep(a: nat, b: nat)
    ensures And(a, b) / 2 == And(a / 2, b / 2) && (And(a, b) % 2 == 1 <==> a % 2 == 1 && b % 2 == 1)
    ensures Or(a, b) / 2 == Or(a / 2, b / 2) && (Or(a, b) % 2 == 1 <==> a % 2 == 1 || b % 2 == 1)
  {
  }

  lemma Even(a: nat, b: nat, unit: nat)
    ensures a * (b * (2 * unit)) == 2 * (a * b) * unit
  {
  }

  lemma Quotient(m: nat, q: nat, unit: nat, low: nat)
    requires low < unit && m == q * unit + low
    ensures m / unit == q
  {
    var p := m / unit;
    Monotone(p + 1, q, unit);
    Monotone(q + 1, p, unit);
  }

  lemma Monotone(a: nat, b: nat, unit: nat)
    ensures a <= b ==> a * unit <= b * unit
    ensures a * unit == (a - 1) * unit + unit
  {
    if a <= b {
      assert b * unit == a * unit + (b - a) * unit;
    }
  }

  lemma HalfQuotient(value: nat, unit: nat)
    requires unit > 0
    ensures value / 2 / unit == value / (2 * unit)
  {
    var q := value / 2 / unit;
    var r := value / 2 % unit;
    assert value == q * (2 * unit) + (2 * r + value % 2) by { assert value / 2 == q * unit + r; Even(q, 1, unit); }
    Quotient(value, q, 2 * unit, 2 * r + value % 2);
  }

  /** Clearing bits that are cleared already changes nothing. */
  lemma {:induction false} AndIdempotent(a: nat, b: nat)
    ensures And(And(a, b), b) == And(a, b)
    decreases a
  {
    if a > 0 {
      AndIdempotent(a / 2, b / 2);
      var x := And(a, b);
      assert x / 2 == And(a / 2, b / 2) && (x % 2 == 1 <==> a % 2 == 1 && b % 2 == 1);
    }
  }

  lemma {:induction false} AndBound(a: nat, b: nat)
    ensures And(a, b) <= a && And(a, b) <= b
    decreases a
  {
    if a > 0 {
      AndBound(a / 2, b / 2);
    }
  }

  /** The operation works separately on a high and a low part. */
  lemma {:induction false} AndSplit(a: nat, b: nat, c: nat, d: nat, k: nat)
    requires b < Pow2(k) && d < Pow2(k)
    ensures And(a * Pow2(k) + b, c * Pow2(k) + d) == And(a, c) * Pow2(k) + And(b, d)
    decreases k
  {
    if k > 0 {
      Halve(a, k);
      Halve(c, k);
      Halve(And(a, c), k);
      AndSplit(a, b / 2, c, d / 2, k - 1);
      var x, y := a * Pow2(k) + b, c * Pow2(k) + d;
      assert x / 2 == a * Pow2(k - 1) + b / 2 && x % 2 == b % 2;
      assert y / 2 == c * Pow2(k - 1) + d / 2 && y % 2 == d % 2;
    }
  }

  /** All ones below bit n keep a value below 2^n as it is. */
  lemma {:induction false} AndOnes(v: nat, n: nat)
    requires v < Pow2(n)
    ensures And(v, Pow2(n) - 1) == v
    decreases n
  {
    if n > 0 {
      AndOnes(v / 2, n - 1);
      assert (Pow2(n) - 1) / 2 == Pow2(n - 1) - 1 && (Pow2(n) - 1) % 2 == 1;
    }
  }

  /** A contiguous mask keeps the upper bits and clears the lower ones. */
  lemma AndPrefixMask(v: nat, width: nat, prefix: nat)
    requires prefix <= width && v < Pow2(width)
    ensures var low := Pow2(width - prefix);
            && Pow2(width) == Pow2(prefix) * low
            && And(v, Pow2(width) - low) == (v / low) * low
  {
    hide Pow2, And;
    var low := Pow2(width - prefix);
    PowSum(prefix, width - prefix);
    var hi, lo := DivParts(v, Pow2(prefix), low);
    OneLess(Pow2(prefix), low);
    AndSplit(hi, lo, Pow2(prefix) - 1, 0, width - prefix);
    AndOnes(hi, prefix);
    AndZero(lo);
  }

  lemma OneLess(a: nat, b: nat)
    requires a > 0
    ensures a * b - b == (a - 1) * b + 0
  {
  }

  lemma DivParts(v: nat, p: nat, low: nat) returns (hi: nat, lo: nat)
    requires low > 0 && v < p * low
    ensures hi == v / low && lo < low && v == hi * low + lo && hi < p
  {
    hi, lo := v / low, v % low;
    assert hi >= p ==> hi * low >= p * low;
  }

  lemma Pow2Of32()
    ensures Pow2(8) == 0x100 && Pow2(32) == 0x1_0000_0000
  {
    PowSum(8, 8);
    PowSum(16, 16);
  }

  lemma {:induction false} PowSum(a: nat, b: nat)
    ensures Pow2(a + b) == Pow2(a) * Pow2(b)
    decreases a
  {
    if a > 0 {
      PowSum(a - 1, b);
      assert Pow2(a) * Pow2(b) == 2 * (Pow2(a - 1) * Pow2(b));
    }
  }
}
