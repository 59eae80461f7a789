/** Presence maps: stop-bit bytes read as bits, seven to a byte, most significant first
    (FAST 1.1, section 10.5). */
module PresenceMap {
  import opened Bits
  import opened StopBit

  predicate Bit(b: nat, k: nat) {
    b / Pow2(k) % 2 == 1
  }

  /** The seven data bits of one byte, in the order they are used up. */
  function Bits7(b: byte): (bits: seq<bool>)
    ensures |bits| == 7
  {
    seq(7, k requires 0 <= k < 7 => Bit(b, 6 - k))
  }

  function PmapBits(s: seq<byte>): (bits: seq<bool>)
    ensures |bits| == 7 * |s|
  {
    if s == [] then [] else PmapBits(s[..|s| - 1]) + Bits7(s[|s| - 1])
  }

  lemma {:induction false} MaskedBit(b: nat, k: nat)
    ensures And(b, Pow2(k)) != 0 <==> Bit(b, k)
  {
    DivNat(b, Pow2(k));
    AndPower(b / Pow2(k), b % Pow2(k), k);
  }

  lemma {:induction false} DivNat(b: nat, p: nat)
    requires p > 0
    ensures b / p >= 0 && b / p * p + b % p == b
  {
    var q: int, r: int := b / p, b % p;
    assert b == p * q + r;
    if q < 0 { NegativeProduct(p, q); }
  }

  lemma {:induction false} NegativeProduct(p: int, q: int)
    requires p > 0 && q < 0
    ensures p * q <= -p
  {
    AtLeast(p, -q);
    assert p * -q == -(p * q);
  }

  lemma {:induction false} AndPower(q: nat, r: nat, k: nat)
    requires r < Pow2(k)
    ensures q * Pow2(k) + r >= 0
    ensures And(q * Pow2(k) + r, Pow2(k)) == (if q % 2 == 1 then Pow2(k) else 0)
  {
    AndHigh(q, r, 1, k);
    AndOne(q);
  }

  lemma {:induction false} SmallPowers()
    ensures Pow2(0) == 1 && Pow2(1) == 2 && Pow2(2) == 4 && Pow2(3) == 8 && Pow2(4) == 16 && Pow2(5) == 32
    ensures Pow2(6) == 64 && Pow2(7) == 128
  {
    assert Pow2(2) == 4;
    assert Pow2(4) == 16;
    assert Pow2(6) == 64;
  }

  /** The decoder shifts the stop bit itself down to get each mask. */
  lemma {:induction false} StopShifted(j: nat)
    requires 1 <= j <= 7
    ensures 0x80 / Pow2(j) == Pow2(7 - j)
  {
    SmallPowers();
  }

  method DecodePmap(nbytes: nat, bytes: seq<byte>, pmapRes: array<bool>)
    requires nbytes <= |bytes| && 7 * nbytes <= pmapRes.Length
    modifies pmapRes
    ensures pmapRes[..7 * nbytes] == PmapBits(bytes[..nbytes])
  {
    var pmapIdx := 0;
    var i := 0;
    while i < nbytes
      invariant 0 <= i <= nbytes && pmapIdx == 7 * i
      invariant pmapRes[..pmapIdx] == PmapBits(bytes[..i])
    {
      var j := 1;
      while j < 8
        invariant 1 <= j <= 8 && pmapIdx == 7 * i + j - 1
        invariant pmapRes[..pmapIdx] == PmapBits(bytes[..i]) + Bits7(bytes[i])[..j - 1]
      {
        StopShifted(j);
        MaskedBit(bytes[i], 7 - j);
        pmapRes[pmapIdx] := And(bytes[i], 0x80 / Pow2(j)) != 0;
        pmapIdx := pmapIdx + 1;
        j := j + 1;
      }
      assert bytes[..i + 1][..i] == bytes[..i];
      i := i + 1;
    }
  }

  // ---------- the client's side ----------

  function Weight(bits: seq<bool>, k: nat): nat {
    if k < |bits| && bits[k] then 1 else 0
  }

  /** One unfinished presence-map byte: up to seven bits from the top, the rest zero. */
  function Pack(bits: seq<bool>): (b: byte)
    requires |bits| <= 7
    ensures b < 128
  {
    64 * Weight(bits, 0) + 32 * Weight(bits, 1) + 16 * Weight(bits, 2) + 8 * Weight(bits, 3) +
    4 * Weight(bits, 4) + 2 * Weight(bits, 5) + Weight(bits, 6)
  }

  /** Bits in the bytes before the last one; the whole map then has Full(n) + 7 bits. */
  function Full(n: nat): nat { if n == 0 then 0 else (n - 1) / 7 * 7 }

  function PmapGroups(p: seq<bool>): (s: seq<byte>)
    ensures s != [] && NoStop(s)
    decreases |p|
  {
    var k := Full(|p|);
    if k == 0 then [Pack(p)] else PmapGroups(p[..k]) + [Pack(p[k..])]
  }

  function EncodePmap(p: seq<bool>): (s: seq<byte>) {
    Marked(PmapGroups(p))
  }

  function Zeros(n: nat): (z: seq<bool>) ensures |z| == n { seq(n, _ => false) }

  lemma {:induction false} DigitAt(h: nat, d: nat, low: nat, p: nat)
    requires d < 2 && low < p
    ensures (p * (2 * h + d) + low) / p % 2 == d
  {
    ModUnique(p * (2 * h + d) + low, p, 2 * h + d, low);
  }

  lemma {:induction false} UnpackAt(bits: seq<bool>, k: nat, top: nat)
    requires |bits| <= 7 && k < 7
    ensures Bit(128 * top + Pack(bits), 6 - k) == (k < |bits| && bits[k])
  {
    SmallPowers();
    var a, b, c, d := Weight(bits, 0), Weight(bits, 1), Weight(bits, 2), Weight(bits, 3);
    var e, f, g := Weight(bits, 4), Weight(bits, 5), Weight(bits, 6);
    match k
    case 0 => DigitAt(top, a, 32 * b + 16 * c + 8 * d + 4 * e + 2 * f + g, 64);
    case 1 => DigitAt(2 * top + a, b, 16 * c + 8 * d + 4 * e + 2 * f + g, 32);
    case 2 => DigitAt(4 * top + 2 * a + b, c, 8 * d + 4 * e + 2 * f + g, 16);
    case 3 => DigitAt(8 * top + 4 * a + 2 * b + c, d, 4 * e + 2 * f + g, 8);
    case 4 => DigitAt(16 * top + 8 * a + 4 * b + 2 * c + d, e, 2 * f + g, 4);
    case 5 => DigitAt(32 * top + 16 * a + 8 * b + 4 * c + 2 * d + e, f, g, 2);
    case _ => DigitAt(64 * top + 32 * a + 16 * b + 8 * c + 4 * d + 2 * e + f, g, 0, 1);
  }

  lemma {:induction false} Unpack(bits: seq<bool>)
    requires |bits| <= 7
    ensures Bits7(Pack(bits)) == bits + Zeros(7 - |bits|) == Bits7(Pack(bits) + 128)
  {
    forall k | 0 <= k < 7
      ensures Bits7(Pack(bits))[k] == (bits + Zeros(7 - |bits|))[k] == Bits7(Pack(bits) + 128)[k]
    {
      UnpackAt(bits, k, 0);
      UnpackAt(bits, k, 1);
    }
  }

  /** Decoding gives back the bits, zero-padded to the next positive multiple of seven. */
  lemma {:induction false} PmapRoundTrip(p: seq<bool>)
    ensures IsStopBit(EncodePmap(p))
    ensures 7 * |EncodePmap(p)| == Full(|p|) + 7 >= |p|
    ensures PmapBits(EncodePmap(p)) == p + Zeros(Full(|p|) + 7 - |p|)
  {
    GroupsRoundTrip(p);
    MarkedValue(PmapGroups(p));
    var s, m := PmapGroups(p), EncodePmap(p);
    var k := Full(|p|);
    assert m[..|s| - 1] == s[..|s| - 1];
    Unpack(p[k..]);
    assert s[|s| - 1] == Pack(p[k..]) by { assert k == 0 ==> p[k..] == p; }
  }

  lemma {:induction false} GroupCount(p: seq<bool>)
    ensures 7 * |PmapGroups(p)| == Full(|p|) + 7 >= |p|
    decreases |p|
  {
    var k := Full(|p|);
    if k > 0 {
      GroupCount(p[..k]);
    }
  }

  lemma {:induction false} GroupsRoundTrip(p: seq<bool>)
    ensures 7 * |PmapGroups(p)| == Full(|p|) + 7 >= |p|
    ensures PmapBits(PmapGroups(p)) == p + Zeros(Full(|p|) + 7 - |p|)
    decreases |p|
  {
    GroupCount(p);
    var k := Full(|p|);
    Unpack(p[k..]);
    if k == 0 {
      assert p[k..] == p;
      PmapBitsSnoc([], Pack(p));
      assert [] + [Pack(p)] == PmapGroups(p);
    } else {
      GroupsRoundTrip(p[..k]);
      assert Full(k) + 7 == k;
      assert p == p[..k] + p[k..];
      PmapBitsSnoc(PmapGroups(p[..k]), Pack(p[k..]));
    }
  }

  lemma {:induction false} PmapBitsSnoc(s: seq<byte>, b: byte)
    ensures PmapBits(s + [b]) == PmapBits(s) + Bits7(b)
  {
    assert (s + [b])[..|s|] == s;
  }

  // ---------- maps of any length ----------

  /** A presence map is followed by zeros for ever. */
  predicate BitAt(bits: seq<bool>, k: nat) { k < |bits| && bits[k] }

  /** The map cut off after n bits, or filled up with zeros. */
  function Resized(bits: seq<bool>, n: nat): (r: seq<bool>)
    ensures |r| == n
  {
    if n <= |bits| then bits[..n] else bits + Zeros(n - |bits|)
  }

  /** The map on so many bytes: an overlong one, one without trailing zeros, or what lies between. */
  function MapBytes(bits: seq<bool>, size: nat): seq<byte> { EncodePmap(Resized(bits, 7 * size)) }

  /** Only zeros are cut off. */
  predicate HoldsMap(bits: seq<bool>, size: nat) { size > 0 && forall k | 7 * size <= k < |bits| :: !bits[k] }

  lemma {:induction false} MapRoundTrip(bits: seq<bool>, size: nat)
    requires size > 0
    ensures IsStopBit(MapBytes(bits, size)) && |MapBytes(bits, size)| == size
    ensures PmapBits(MapBytes(bits, size)) == Resized(bits, 7 * size)
  {
    var r := Resized(bits, 7 * size);
    PmapRoundTrip(r);
    assert Full(|r|) + 7 == |r|;
    assert r + Zeros(0) == r;
  }

  /** A map of this length stands for the bits exactly when only zeros are cut off. */
  lemma {:induction false} MapStands(bits: seq<bool>, size: nat)
    requires size > 0
    ensures (forall k: nat :: BitAt(PmapBits(MapBytes(bits, size)), k) == BitAt(bits, k)) <==> HoldsMap(bits, size)
  {
    MapRoundTrip(bits, size);
    var r := Resized(bits, 7 * size);
    if HoldsMap(bits, size) {
      forall k: nat
        ensures BitAt(r, k) == BitAt(bits, k)
      {
      }
    } else {
      var k :| 7 * size <= k < |bits| && bits[k];
      assert BitAt(r, k) != BitAt(bits, k);
    }
  }

  lemma {:induction false} PaddedPack(bits: seq<bool>, z: nat)
    requires |bits| + z <= 7
    ensures Pack(bits + Zeros(z)) == Pack(bits)
  {
    assert forall k: nat | k < 7 :: Weight(bits + Zeros(z), k) == Weight(bits, k);
  }

  /** The plain encoding, which fills the last byte with zeros, is the map on just enough bytes for all bits. */
  lemma {:induction false} PlainMap(bits: seq<bool>)
    ensures var size := |EncodePmap(bits)|; HoldsMap(bits, size) && MapBytes(bits, size) == EncodePmap(bits)
  {
    PmapRoundTrip(bits);
    var k, r := Full(|bits|), Resized(bits, Full(|bits|) + 7);
    assert r == bits + Zeros(k + 7 - |bits|);
    assert Full(|r|) == k && r[..k] == bits[..k] && r[k..] == bits[k..] + Zeros(k + 7 - |bits|);
    PaddedPack(bits[k..], k + 7 - |bits|);
    assert k == 0 ==> r[k..] == r && bits[k..] == bits;
    assert PmapGroups(r) == PmapGroups(bits);
  }
}
