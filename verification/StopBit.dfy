/** The stop-bit codec: 7-bit groups, most significant first, the last one marked by bit 0x80.
    `Value` and `SignedValue` are the numbers a string of groups denotes (FAST 1.1, section 10.6.1);
    the encodings are the shortest strings that denote them. */
module StopBit {
  import opened Bits

  type byte = b: int | 0 <= b < 256

  datatype Width = W32 | W64 {
    function Modulus(): (m: int) ensures m > 0 { if W32? then 0x1_0000_0000 else 0x1_0000_0000_0000_0000 }
    function Half(): int { if W32? then 0x8000_0000 else 0x8000_0000_0000_0000 }
    function Bits(): nat { if W32? then 32 else 64 }
    /** The most groups an integer of this width may take: 5 or 10. */
    function MaxBytes(): nat { if W32? then 5 else 10 }
    /** In the first of MaxBytes() groups: the word's sign bit, and the bits beyond the word. */
    function SignBit(): nat { if W32? then 0x08 else 0x01 }
    function ExtraBits(): nat { if W32? then 0x70 else 0x7E }
    /** The two's complement number a word of this width stands for, and the wrap-around into it. */
    function ToSigned(u: int): int { if u >= Half() then u - Modulus() else u }
    function WrapSigned(x: int): (r: int)
      ensures -Half() <= x < Half() ==> r == x
    {
      ToSigned(x % Modulus())
    }
    function WrapUnsigned(x: int): (r: int)
      ensures 0 <= r < Modulus()
      ensures 0 <= x < Modulus() ==> r == x
    {
      x % Modulus()
    }
  }

  /** Number of bytes up to and including the first one with the stop bit, 0 when there is none. */
  function CountStop(s: seq<byte>): (n: nat)
    ensures n <= |s|
  {
    if s == [] then 0
    else if s[0] >= 128 then 1
    else
      var r := CountStop(s[1..]);
      if r == 0 then 0 else r + 1
  }

  lemma {:induction false} CountStopFinds(s: seq<byte>)
    ensures CountStop(s) > 0 ==> IsStopBit(s[..CountStop(s)])
    ensures CountStop(s) == 0 <==> NoStop(s)
  {
    if s != [] && s[0] < 128 {
      CountStopFinds(s[1..]);
      var r := CountStop(s[1..]);
      if r > 0 {
        var t := s[1..][..r];
        assert s[..r + 1] == [s[0]] + t;
        assert s[..r + 1][..r] == [s[0]] + t[..r - 1];
        assert t[r - 1] == s[r];
      } else {
        assert forall i :: 0 < i < |s| ==> s[i] == s[1..][i - 1];
      }
    }
  }

  /** A complete stop-bit string: exactly the last byte carries the stop bit. */
  predicate IsStopBit(s: seq<byte>) {
    |s| > 0 && s[|s| - 1] >= 128 && NoStop(s[..|s| - 1])
  }

  predicate NoStop(s: seq<byte>) {
    forall i :: 0 <= i < |s| ==> s[i] < 128
  }

  /** Stop-bit strings are self-delimiting: whatever follows, the count finds their end. */
  lemma {:induction false} CountStopDelimits(s: seq<byte>, rest: seq<byte>)
    requires IsStopBit(s)
    ensures CountStop(s + rest) == |s|
    ensures (s + rest)[..|s|] == s && (s + rest)[|s|..] == rest
  {
    if |s| > 1 {
      assert s[..|s| - 1][0] == s[0];
      assert s[1..][..|s| - 2] == s[..|s| - 1][1..];
      CountStopDelimits(s[1..], rest);
      assert (s + rest)[1..] == s[1..] + rest;
    }
  }

  function Pow128(n: nat): (r: nat)
    ensures r >= 1
  {
    if n == 0 then 1 else 128 * Pow128(n - 1)
  }

  function Value(s: seq<byte>): nat {
    if s == [] then 0 else Value(s[..|s| - 1]) * 128 + s[|s| - 1] % 128
  }

  /** The top data bit of a group is the sign of a signed integer's first group. */
  function Signed7(b: byte): int {
    if b % 128 >= 64 then b % 128 - 128 else b % 128
  }

  function SignedValue(s: seq<byte>): int {
    if s == [] then 0
    else if |s| == 1 then Signed7(s[0])
    else SignedValue(s[..|s| - 1]) * 128 + s[|s| - 1] % 128
  }

  lemma {:induction false} ValueHead(s: seq<byte>)
    requires s != []
    ensures Value(s) == (s[0] % 128) * Pow128(|s| - 1) + Value(s[1..])
    ensures SignedValue(s) == Signed7(s[0]) * Pow128(|s| - 1) + Value(s[1..])
    ensures Value(s) < Pow128(|s|)
    ensures Value(s[1..]) < Pow128(|s| - 1)
  {
    if |s| > 1 {
      var init := s[..|s| - 1];
      ValueHead(init);
      assert s[1..][..|s| - 2] == init[1..];
      Scale(s[0] % 128, Pow128(|s| - 2));
      Scale(Signed7(s[0]), Pow128(|s| - 2));
    }
  }

  lemma {:induction false} Scale(a: int, p: int)
    ensures a * p * 128 == a * (128 * p)
  {
  }

  lemma {:induction false} Pow128IsPow2(n: nat)
    ensures Pow128(n) == Pow2(7 * n)
  {
    if n > 0 {
      Pow128IsPow2(n - 1);
      Pow2Sum(7, 7 * (n - 1));
      Pow2Values();
    }
  }

  lemma {:induction false} Pow128Values()
    ensures Pow128(4) == 0x1000_0000 && Pow128(5) == 0x8_0000_0000
    ensures Pow128(9) == 0x8000_0000_0000_0000 && Pow128(10) == 0x40_0000_0000_0000_0000
  {
    assert Pow128(2) == 0x4000;
    assert Pow128(4) == 0x1000_0000;
    assert Pow128(6) == 0x400_0000_0000;
    assert Pow128(8) == 0x100_0000_0000_0000;
    assert Pow128(10) == 128 * Pow128(9);
  }

  lemma {:induction false} Pow128Monotone(m: nat, n: nat)
    requires m <= n
    ensures Pow128(m) <= Pow128(n)
  {
    if m < n {
      Pow128Monotone(m, n - 1);
    }
  }

  // ---------- the shortest encoding ----------

  function UnsignedGroups(x: nat): (s: seq<byte>)
    ensures s != [] && NoStop(s)
  {
    if x < 128 then [x] else UnsignedGroups(x / 128) + [x % 128]
  }

  function SignedGroups(x: int): (s: seq<byte>)
    ensures s != [] && NoStop(s)
    decreases if x < 0 then -x else x
  {
    if -64 <= x < 64 then [x % 128] else SignedGroups(x / 128) + [x % 128]
  }

  function Marked(s: seq<byte>): (m: seq<byte>)
    requires s != [] && NoStop(s)
    ensures |m| == |s|
  {
    s[..|s| - 1] + [s[|s| - 1] + 128]
  }

  lemma {:induction false} MarkedEnd(prefix: seq<byte>, s: seq<byte>)
    requires s != [] && NoStop(s)
    ensures (prefix + s)[|prefix| + |s| - 1 := 128 + s[|s| - 1]] == prefix + Marked(s)
  {
  }

  /** What the encoders append for an unsigned and for a signed integer. */
  function EncodeUnsigned(x: nat): (s: seq<byte>) { Marked(UnsignedGroups(x)) }

  function EncodeSigned(x: int): (s: seq<byte>) { Marked(SignedGroups(x)) }

  lemma {:induction false} MarkedValue(s: seq<byte>)
    requires s != [] && NoStop(s)
    ensures IsStopBit(Marked(s)) && Value(Marked(s)) == Value(s) && SignedValue(Marked(s)) == SignedValue(s)
  {
    assert Marked(s)[..|s| - 1] == s[..|s| - 1];
  }
}
