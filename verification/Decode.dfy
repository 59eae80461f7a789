/** The decoders of stop-bit integers: shift-and-or loops over machine words, sign extension, and the range
    checks on masked bits (FAST 1.1, section 10.6.1). */
module Decode {
  import opened Bits
  import opened StopBit

  method CountStopBitEncoded(nbytes: nat, bytes: seq<byte>) returns (n: nat)
    requires nbytes <= |bytes|
    ensures n == CountStop(bytes[..nbytes])
  {
    var i := 0;
    while i < nbytes
      invariant i <= nbytes && NoStop(bytes[..i])
    {
      StopMask(bytes[i]);
      if And(bytes[i], 0x80) != 0 {
        assert bytes[..nbytes] == bytes[..i + 1] + bytes[i + 1..nbytes];
        assert bytes[..i + 1][..i] == bytes[..i];
        CountStopDelimits(bytes[..i + 1], bytes[i + 1..nbytes]);
        return i + 1;
      }
      i := i + 1;
    }
    CountStopFinds(bytes[..nbytes]);
    return 0;
  }

  lemma {:induction false} OrGroup(h: nat, b: nat)
    requires b < 128
    ensures Or(h * 128, b) == h * 128 + b
  {
    Pow2Values();
    OrDisjoint(h, b, 7);
  }

  lemma {:induction false} ModShift(a: int, q: int, m: int)
    requires m > 0
    ensures (a + m * q) % m == a % m
  {
    var d, r := a / m, a % m;
    assert a + m * q == m * (d + q) + r;
    ModUnique(a + m * q, m, d + q, r);
  }

  /** A multiple of 128 stays one in a word. */
  function HighPart(w: Width, x: nat): nat { x % (w.Modulus() / 128) }

  lemma {:induction false} MulMod(x: nat, k: nat)
    requires k > 0
    ensures x * 128 % (128 * k) == x % k * 128
  {
    var q, r := x / k, x % k;
    assert x == k * q + r;
    assert x * 128 == (128 * k) * q + r * 128;
    ModUnique(x * 128, 128 * k, q, r * 128);
  }

  lemma {:induction false} ModGroup(w: Width, x: nat)
    ensures x * 128 % w.Modulus() == HighPart(w, x) * 128 && HighPart(w, x) * 128 + 128 <= w.Modulus()
  {
    MulMod(x, w.Modulus() / 128);
  }

  lemma {:induction false} ShiftMod(m: int, q: int, n: int, b: int)
    requires 0 <= n && 0 <= b < 128 && n + b < m
    ensures (m * q + n + b) % m == n + b
    ensures (m * q + n + b) * 128 % m == (n + b) * 128 % m
  {
    ModUnique(m * q + n + b, m, q, n + b);
    assert (m * q + n + b) * 128 == (n + b) * 128 + m * (128 * q) by {
      assert (m * q) * 128 == m * (128 * q);
    }
    ModShift((n + b) * 128, 128 * q, m);
  }

  /** One round of the decoding loop: or the next group in, then make room for the one after. */
  lemma {:induction false} ShiftStep(w: Width, x: nat, b: nat)
    requires b < 128
    ensures x * 128 % w.Modulus() >= 0
    ensures Or(x * 128 % w.Modulus(), b) == (x * 128 + b) % w.Modulus()
    ensures Or(x * 128 % w.Modulus(), b) * 128 % w.Modulus() == (x * 128 + b) * 128 % w.Modulus()
  {
    ModGroup(w, x);
    var h := HighPart(w, x);
    OrGroup(h, b);
    ShiftStepAt(w.Modulus(), x, h, b);
  }

  lemma {:induction false} ShiftStepAt(m: int, x: nat, h: nat, b: nat)
    requires m > 0 && b < 128 && x * 128 % m == h * 128 && h * 128 + 128 <= m
    ensures h * 128 + b == (x * 128 + b) % m
    ensures (h * 128 + b) * 128 % m == (x * 128 + b) * 128 % m
  {
    var q := x * 128 / m;
    assert x * 128 == m * q + h * 128;
    ShiftMod(m, q, h * 128, b);
  }

  /** The word between two rounds: the groups so far, moved up by seven, in the word's width. */
  function Raised(w: Width, s: seq<byte>): (n: nat) {
    Value(s) * 128 % w.Modulus()
  }

  lemma {:induction false} RaisedStep(w: Width, s: seq<byte>, b: byte)
    requires b < 128
    ensures Or(Raised(w, s), b) == Value(s + [b]) % w.Modulus()
    ensures Or(Raised(w, s), b) * 128 % w.Modulus() == Raised(w, s + [b])
  {
    assert (s + [b])[..|s|] == s;
    ShiftStep(w, Value(s), b);
  }

  /** decode_uint32 and decode_uint64: one loop at two widths. */
  method DecodeUnsigned(w: Width, nbytes: nat, bytes: seq<byte>) returns (n: nat)
    requires nbytes <= |bytes|
    requires nbytes > 0 ==> NoStop(bytes[..nbytes - 1])
    ensures n == Value(bytes[..nbytes]) % w.Modulus()
  {
    n := 0;
    if nbytes == 0 { return; }
    var i := 0;
    while i < nbytes - 1
      invariant 0 <= i <= nbytes - 1
      invariant n == Raised(w, bytes[..i])
    {
      assert bytes[i] < 128 by { assert bytes[..nbytes - 1][i] == bytes[i]; }
      assert bytes[..i + 1] == bytes[..i] + [bytes[i]];
      RaisedStep(w, bytes[..i], bytes[i]);
      n := Or(n, bytes[i]);
      n := n * 128 % w.Modulus();
      i := i + 1;
    }
    LastGroup(w, bytes[..nbytes]);
    assert bytes[..nbytes][..i] == bytes[..i];
    n := Or(n, And(bytes[i], 0x7F));
  }

  lemma {:induction false} LastGroup(w: Width, s: seq<byte>)
    requires s != []
    ensures Or(Raised(w, s[..|s| - 1]), And(s[|s| - 1], 0x7F)) == Value(s) % w.Modulus()
  {
    var init, b := s[..|s| - 1], s[|s| - 1];
    DataMask(b);
    RaisedStep(w, init, b % 128);
    DataOnly(init, b);
    assert init + [b] == s;
  }

  /** The stop bit of the last byte does not count. */
  lemma {:induction false} DataOnly(init: seq<byte>, b: byte)
    ensures Value(init + [b % 128]) == Value(init + [b])
  {
    assert (init + [b % 128])[..|init|] == init == (init + [b])[..|init|];
  }

  lemma {:induction false} WidthIsPow2(w: Width)
    ensures w.Modulus() == Pow2(w.Bits()) && w.Half() == Pow2(w.Bits() - 1)
  {
    Pow2Values();
    assert Pow2(32) == 2 * Pow2(31) && Pow2(64) == 2 * Pow2(63);
  }

  /** Fewer groups than the word holds: the value is small and the sign is the first group's top bit. */
  lemma {:induction false} SmallValue(w: Width, s: seq<byte>)
    requires s != [] && 7 * |s| < w.Bits()
    ensures Value(s) < Pow2(7 * |s|) <= w.Half()
    ensures -w.Half() <= SignedValue(s) < w.Half()
    ensures SignedValue(s) == Value(s) - (if s[0] % 128 >= 64 then Pow2(7 * |s|) else 0)
    ensures SignedValue(s) < 0 <==> s[0] % 128 >= 64
  {
    var k, p := 7 * |s|, Pow128(|s| - 1);
    ValueHead(s);
    Pow128IsPow2(|s|);
    FirstGroup(s[0], p);
    WidthIsPow2(w);
    Pow2Sum(k, w.Bits() - 1 - k);
    AtLeast(Pow2(k), Pow2(w.Bits() - 1 - k));
  }

  lemma {:induction false} OrTop(c: nat, p: nat, k: nat, low: nat)
    requires c >= 1 && p == Pow2(k) && low < p
    ensures c * p - p >= 0
    ensures Or(c * p - p, low) == c * p - p + low
  {
    assert (c - 1) * p == c * p - p;
    OrDisjoint(c - 1, low, k);
  }

  lemma {:induction false} SignExtension(w: Width, s: seq<byte>)
    requires s != [] && 7 * |s| < w.Bits()
    ensures Value(s) < Pow2(7 * |s|) <= w.Half() < w.Modulus()
    ensures Or(w.Modulus() - Pow2(7 * |s|), Value(s)) == w.Modulus() - Pow2(7 * |s|) + Value(s)
  {
    var k := 7 * |s|;
    SmallValue(w, s);
    OrWidth(w, k, Value(s));
  }

  lemma {:induction false} OrWidth(w: Width, k: nat, low: nat)
    requires k < w.Bits() && low < Pow2(k)
    ensures w.Modulus() - Pow2(k) >= 0
    ensures Or(w.Modulus() - Pow2(k), low) == w.Modulus() - Pow2(k) + low
  {
    WidthIsPow2(w);
    Pow2Sum(w.Bits() - k, k);
    OrTop(Pow2(w.Bits() - k), Pow2(k), k, low);
  }

  lemma {:induction false} FirstGroup(b: byte, p: nat)
    ensures Signed7(b) * p == (b % 128) * p - (if b % 128 >= 64 then 128 * p else 0)
    ensures b % 128 < 64 ==> (b % 128) * p + p <= 64 * p
    ensures b % 128 >= 64 ==> Signed7(b) * p >= -64 * p
    ensures b % 128 >= 64 ==> Signed7(b) * p + p <= 0
  {
  }

  lemma {:induction false} SignWeight(s: seq<byte>)
    requires s != []
    ensures SignedValue(s) == Value(s) - (if s[0] % 128 >= 64 then Pow2(7 * |s|) else 0)
  {
    ValueHead(s);
    Pow128IsPow2(|s|);
    FirstGroup(s[0], Pow128(|s| - 1));
  }

  /** From MaxBytes() groups on, the sign group's weight is a multiple of the word, so it wraps away. */
  lemma {:induction false} SignWrapsAway(w: Width, s: seq<byte>)
    requires s != [] && 7 * |s| >= w.Bits()
    ensures w.WrapSigned(SignedValue(s)) == w.ToSigned(Value(s) % w.Modulus())
  {
    SignWeight(s);
    if s[0] % 128 >= 64 {
      WidthIsPow2(w);
      Pow2Sum(w.Bits(), 7 * |s| - w.Bits());
      WrapsAway(Value(s), Pow2(7 * |s| - w.Bits()), w.Modulus());
    }
  }

  lemma {:induction false} WrapsAway(v: int, q: int, m: int)
    requires m > 0
    ensures (v - m * q) % m == v % m
  {
    assert v - m * q == v + m * -q;
    ModShift(v, -q, m);
  }

  /** What the decoder does with the unsigned value: ones above it when the sign bit is set and there is room. */
  function Extended(w: Width, s: seq<byte>): nat
    requires s != []
  {
    var n := Value(s) % w.Modulus();
    var p := Pow2(7 * |s|);
    if s[0] % 128 >= 64 && 7 * |s| < w.Bits() && p <= w.Modulus() then Or(w.Modulus() - p, n) else n
  }

  lemma {:induction false} ExtendedIsSigned(w: Width, s: seq<byte>)
    requires s != []
    ensures 7 * |s| < w.Bits() ==> Pow2(7 * |s|) <= w.Modulus()
    ensures w.ToSigned(Extended(w, s)) == w.WrapSigned(SignedValue(s))
  {
    if 7 * |s| < w.Bits() {
      SmallValue(w, s);
      SignExtension(w, s);
      SmallMod(Value(s), w.Modulus());
    } else {
      SignWrapsAway(w, s);
    }
  }

  lemma {:induction false} SmallMod(x: nat, m: nat)
    requires x < m
    ensures x % m == x
  {
  }

  /** decode_int32 and decode_int64: decode, then sign extend when the groups do not fill the word. */
  method DecodeSigned(w: Width, nbytes: nat, bytes: seq<byte>) returns (r: int)
    requires nbytes <= |bytes|
    requires nbytes > 0 ==> NoStop(bytes[..nbytes - 1])
    ensures r == w.WrapSigned(SignedValue(bytes[..nbytes]))
  {
    if nbytes == 0 { return 0; }
    var n := DecodeUnsigned(w, nbytes, bytes);
    ghost var s := bytes[..nbytes];
    assert s[0] == bytes[0];
    TopDataMask(bytes[0]);
    ExtendedIsSigned(w, s);
    var nbits := nbytes * 7;
    if And(bytes[0], 0x40) != 0 {
      if nbits < w.Bits() {
        n := Or(w.Modulus() - Pow2(nbits), n);
      }
    }
    r := w.ToSigned(n);
  }

  // ---------- range checks ----------

  /** The dynamic error D2 of the unsigned readers, as the number the groups denote decides it. */
  predicate UnsignedOutOfRange(w: Width, s: seq<byte>) {
    |s| > w.MaxBytes() || Value(s) >= w.Modulus()
  }

  predicate SignedOutOfRange(w: Width, s: seq<byte>) {
    |s| > w.MaxBytes() || SignedValue(s) < -w.Half() || SignedValue(s) >= w.Half()
  }

  /** The readers look only at the length and at masked bits of the first group; that test is the numeric range
      check. */
  lemma {:induction false} TopGroup32(b: byte, r: nat)
    requires r < 0x1000_0000
    ensures (b % 128) * 0x1000_0000 + r >= 0x1_0000_0000 <==> And(b, 0x70) > 0
    ensures -0x8000_0000 <= Signed7(b) * 0x1000_0000 + r < 0x8000_0000 <==>
              And(b, 0x70) == (if And(b, 0x08) == 0x08 then 0x70 else 0)
  {
    Int32Masks(b);
    TopBits32(b, r, And(b, 0x70), And(b, 0x08));
  }

  lemma {:induction false} TopBits32(b: byte, r: nat, extra: nat, sign: nat)
    requires r < 0x1000_0000
    requires extra == b / 16 % 8 * 16 && sign == (if b / 8 % 2 == 1 then 0x08 else 0)
    ensures (b % 128) * 0x1000_0000 + r >= 0x1_0000_0000 <==> extra > 0
    ensures -0x8000_0000 <= Signed7(b) * 0x1000_0000 + r < 0x8000_0000 <==> extra == (if sign == 0x08 then 0x70 else 0)
  {
  }

  lemma {:induction false} TopGroup64(b: byte, r: nat)
    requires r < 0x8000_0000_0000_0000
    ensures (b % 128) * 0x8000_0000_0000_0000 + r >= 0x1_0000_0000_0000_0000 <==> And(b, 0x7E) > 0
    ensures -0x8000_0000_0000_0000 <= Signed7(b) * 0x8000_0000_0000_0000 + r < 0x8000_0000_0000_0000 <==>
              And(b, 0x7E) == (if And(b, 0x01) == 0x01 then 0x7E else 0)
  {
    Int64Masks(b);
    TopBits64(b, r, And(b, 0x7E), And(b, 0x01));
  }

  lemma {:induction false} TopBits64(b: byte, r: nat, extra: nat, sign: nat)
    requires r < 0x8000_0000_0000_0000
    requires extra == b / 2 % 64 * 2 && sign == b % 2
    ensures (b % 128) * 0x8000_0000_0000_0000 + r >= 0x1_0000_0000_0000_0000 <==> extra > 0
    ensures -0x8000_0000_0000_0000 <= Signed7(b) * 0x8000_0000_0000_0000 + r < 0x8000_0000_0000_0000 <==>
              extra == (if sign == 0x01 then 0x7E else 0)
  {
  }

  /** With the most groups allowed, everything below the first group is less than one of its units. */
  lemma {:induction false} FullLength(w: Width, s: seq<byte>)
    requires |s| == w.MaxBytes()
    ensures w.W32? ==> Value(s) == (s[0] % 128) * 0x1000_0000 + Value(s[1..]) && Value(s[1..]) < 0x1000_0000
    ensures w.W64? ==>
              Value(s) == (s[0] % 128) * 0x8000_0000_0000_0000 + Value(s[1..]) && Value(s[1..]) < 0x8000_0000_0000_0000
    ensures w.W32? ==> SignedValue(s) == Signed7(s[0]) * 0x1000_0000 + Value(s[1..])
    ensures w.W64? ==> SignedValue(s) == Signed7(s[0]) * 0x8000_0000_0000_0000 + Value(s[1..])
  {
    Pow128Values();
    ValueHead(s);
  }

  lemma {:induction false} UnsignedAcceptance(w: Width, s: seq<byte>)
    ensures UnsignedOutOfRange(w, s) <==>
              (if |s| == w.MaxBytes() then And(s[0], w.ExtraBits()) > 0 else w.MaxBytes() < |s|)
  {
    if |s| == w.MaxBytes() {
      FullLength(w, s);
      if w.W32? { TopGroup32(s[0], Value(s[1..])); } else { TopGroup64(s[0], Value(s[1..])); }
    } else if 0 < |s| < w.MaxBytes() {
      Pow128Values();
      ValueHead(s);
      Pow128Monotone(|s|, w.MaxBytes() - 1);
    }
  }

  lemma {:induction false} SignedAcceptance(w: Width, s: seq<byte>)
    ensures SignedOutOfRange(w, s) <==>
              (if |s| == w.MaxBytes() then
                 if And(s[0], w.SignBit()) == w.SignBit() then And(s[0], w.ExtraBits()) != w.ExtraBits()
                 else And(s[0], w.ExtraBits()) != 0
               else w.MaxBytes() < |s|)
  {
    if |s| == w.MaxBytes() {
      FullLength(w, s);
      if w.W32? { TopGroup32(s[0], Value(s[1..])); } else { TopGroup64(s[0], Value(s[1..])); }
    } else if 0 < |s| < w.MaxBytes() {
      SmallValue(w, s);
    }
  }
}
