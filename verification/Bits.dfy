/** Bit operations on machine words, stated on natural numbers. A C shift left by k is a multiplication by Pow2(k)
    followed by the reduction to the word's width; `|` and `&` are defined bit by bit, and the lemmas say when they
    are an addition or a remainder. */
module Bits {

  function Pow2(n: nat): (r: nat)
    ensures r >= 1
  {
    if n == 0 then 1 else 2 * Pow2(n - 1)
  }

  function Or(a: nat, b: nat): nat
    decreases a + b
  {
    if a == 0 && b == 0 then 0
    else (if a % 2 == 1 || b % 2 == 1 then 1 else 0) + 2 * Or(a / 2, b / 2)
  }

  function And(a: nat, b: nat): nat
    decreases a + b
  {
    if a == 0 && b == 0 then 0
    else (if a % 2 == 1 && b % 2 == 1 then 1 else 0) + 2 * And(a / 2, b / 2)
  }

  lemma {:induction false} Pow2Values()
    ensures Pow2(6) == 64 && Pow2(7) == 128 && Pow2(14) == 0x4000 && Pow2(21) == 0x20_0000 && Pow2(28) == 0x1000_0000
    ensures Pow2(32) == 0x1_0000_0000 && Pow2(64) == 0x1_0000_0000_0000_0000
  {
    assert Pow2(3) == 8;
    assert Pow2(6) == 64;
    Pow2Sum(7, 7); Pow2Sum(14, 7); Pow2Sum(14, 14); Pow2Sum(28, 4);
    assert Pow2(4) == 16;
    Pow2Sum(32, 32);
  }

  lemma {:induction false} Pow2Sum(a: nat, b: nat)
    ensures Pow2(a + b) == Pow2(a) * Pow2(b)
  {
    if a > 0 {
      Pow2Sum(a - 1, b);
      assert Pow2(a + b) == 2 * (Pow2(a - 1) * Pow2(b));
      assert 2 * (Pow2(a - 1) * Pow2(b)) == (2 * Pow2(a - 1)) * Pow2(b);
    }
  }

  lemma {:induction false} OrZero(a: nat)
    ensures Or(a, 0) == a && Or(0, a) == a
  {
    if a > 0 {
      OrZero(a / 2);
    }
  }

  lemma {:induction false} OrDouble(a: nat, b: nat, low: nat)
    requires low < 2
    ensures Or(2 * a, 2 * b + low) == 2 * Or(a, b) + low
  {
    assert 2 * a / 2 == a && (2 * b + low) / 2 == b;
    if a == 0 && b == 0 {
      assert Or(a, b) == 0;
    }
  }

  /** Or-ing a word whose k low bits are zero changes only the bits above them. */
  lemma {:induction false} OrHigh(q: nat, h: nat, low: nat, k: nat)
    requires low < Pow2(k)
    ensures q * Pow2(k) >= 0 && h * Pow2(k) + low >= 0
    ensures Or(q * Pow2(k), h * Pow2(k) + low) == Or(q, h) * Pow2(k) + low
  {
    if k > 0 {
      var p := Pow2(k - 1);
      var a, b := q * p, h * p + low / 2;
      OrHigh(q, h, low / 2, k - 1);
      Double(q, p);
      Double(h, p);
      Double(Or(q, h), p);
      OrDouble(a, b, low % 2);
      calc {
        Or(q * Pow2(k), h * Pow2(k) + low);
        Or(2 * a, 2 * b + low % 2);
        2 * Or(a, b) + low % 2;
        2 * (Or(q, h) * p + low / 2) + low % 2;
        Or(q, h) * Pow2(k) + low;
      }
    }
  }

  /** Bits that do not overlap: or-ing a word into the low k zero bits of another adds it. */
  lemma {:induction false} OrDisjoint(h: nat, low: nat, k: nat)
    requires low < Pow2(k)
    ensures h * Pow2(k) >= 0
    ensures Or(h * Pow2(k), low) == h * Pow2(k) + low
  {
    OrHigh(h, 0, low, k);
    OrZero(h);
  }

  lemma {:induction false} Double(h: nat, p: nat)
    ensures h * (2 * p) == 2 * (h * p)
  {
  }

  lemma {:induction false} AndZero(a: nat)
    ensures And(a, 0) == 0
  {
    if a > 0 {
      AndZero(a / 2);
    }
  }

  /** Masking with k low ones is the remainder modulo Pow2(k). */
  lemma {:induction false} AndLow(a: nat, k: nat)
    ensures And(a, Pow2(k) - 1) == a % Pow2(k)
  {
    if k == 0 {
      AndZero(a);
    } else {
      var p := Pow2(k - 1);
      AndLow(a / 2, k - 1);
      assert (Pow2(k) - 1) / 2 == p - 1;
      HalfMod(a, p);
    }
  }

  lemma {:induction false} HalfMod(a: nat, p: nat)
    requires p > 0
    ensures a % (2 * p) == 2 * (a / 2 % p) + a % 2
  {
    var q, r := a / 2 / p, a / 2 % p;
    assert a / 2 == q * p + r;
    assert a == (2 * p) * q + (2 * r + a % 2);
    ModUnique(a, 2 * p, q, 2 * r + a % 2);
  }

  lemma {:induction false} ModUnique(a: int, m: int, q: int, r: int)
    requires 0 <= r < m && a == m * q + r
    ensures a % m == r && a / m == q
  {
    var q', r' := a / m, a % m;
    var d := q' - q;
    assert m * d == r - r' by {
      assert a == m * q' + r';
      assert m * d == m * q' - m * q;
    }
    assert m * (-d) == -(m * d);
    if d >= 1 {
      AtLeast(m, d);
    } else if d <= -1 {
      AtLeast(m, -d);
    }
  }

  lemma {:induction false} AtLeast(m: int, d: int)
    requires m >= 0 && d >= 1
    ensures m * d >= m
  {
  }

  lemma {:induction false} AndDouble(a: nat, b: nat, low: nat)
    requires low < 2
    ensures And(2 * a + low, 2 * b) == 2 * And(a, b)
  {
    assert (2 * a + low) / 2 == a && 2 * b / 2 == b;
    if a == 0 && b == 0 {
      assert And(a, b) == 0;
    }
  }

  /** Masking with a mask whose k low bits are zero looks only at the bits above them. */
  lemma {:induction false} AndHigh(q: nat, r: nat, m: nat, k: nat)
    requires r < Pow2(k)
    ensures q * Pow2(k) + r >= 0 && m * Pow2(k) >= 0
    ensures And(q * Pow2(k) + r, m * Pow2(k)) == Pow2(k) * And(q, m)
  {
    if k > 0 {
      var p := Pow2(k - 1);
      var a, b := q * p + r / 2, m * p;
      AndHigh(q, r / 2, m, k - 1);
      assert And(a, b) == p * And(q, m);
      Double(q, p);
      Double(m, p);
      Double(And(q, m), p);
      AndDouble(a, b, r % 2);
      calc {
        And(q * Pow2(k) + r, m * Pow2(k));
        And(2 * a + r % 2, 2 * b);
        2 * And(a, b);
        2 * (And(q, m) * p);
        And(q, m) * Pow2(k);
      }
    }
  }

  lemma {:induction false} AndOne(a: nat)
    ensures And(a, 1) == a % 2
  {
    assert Pow2(1) == 2;
    AndLow(a, 1);
  }

  /** The masks the stop-bit reader uses, as arithmetic on one byte. */
  lemma {:induction false} StopMask(b: nat)
    requires b < 256
    ensures And(b, 0x80) == (if b >= 128 then 0x80 else 0)
  {
    Pow2Values();
    AndHigh(b / 128, b % 128, 1, 7);
    AndOne(b / 128);
  }

  lemma {:induction false} OrStop(b: nat)
    requires b < 256
    ensures Or(0x80, b) == 128 + b % 128
  {
    Pow2Values();
    OrHigh(1, b / 128, b % 128, 7);
    assert Or(0, 0) == 0;
    assert Or(1, 0) == 1 && Or(1, 1) == 1;
  }

  lemma {:induction false} DataMask(b: nat)
    requires b < 256
    ensures And(b, 0x7F) == b % 128
  {
    Pow2Values();
    AndLow(b, 7);
  }

  lemma {:induction false} TopDataMask(b: nat)
    requires b < 256
    ensures And(b, 0x40) == (if b % 128 >= 64 then 0x40 else 0)
  {
    Pow2Values();
    AndHigh(b / 64, b % 64, 1, 6);
    AndOne(b / 64);
  }

  lemma {:induction false} Int32Masks(b: nat)
    requires b < 256
    ensures And(b, 0x70) == b / 16 % 8 * 16
    ensures And(b, 0x08) == (if b / 8 % 2 == 1 then 0x08 else 0)
  {
    assert Pow2(3) == 8;
    assert Pow2(4) == 16;
    AndHigh(b / 16, b % 16, 7, 4);
    AndLow(b / 16, 3);
    AndHigh(b / 8, b % 8, 1, 3);
    AndOne(b / 8);
  }

  lemma {:induction false} Int64Masks(b: nat)
    requires b < 256
    ensures And(b, 0x7E) == b / 2 % 64 * 2
    ensures And(b, 0x01) == b % 2
  {
    Pow2Values();
    assert Pow2(1) == 2;
    AndHigh(b / 2, b % 2, 63, 1);
    AndLow(b / 2, 6);
    AndOne(b);
  }
}
