/** The client's encoders: each appends to a growing byte array. */
module Encode {
  import opened Bits
  import opened StopBit
  import opened PresenceMap

  class ByteArray {
    var data: seq<byte>

    constructor ()
      ensures data == []
    {
      data := [];
    }

    method Append(s: seq<byte>)
      modifies this
      ensures data == old(data) + s
    {
      data := data + s;
    }
  }

  // ---------- presence map ----------

  lemma {:induction false} PackBit(bits: seq<bool>, b: bool)
    requires |bits| < 7
    ensures Pack(bits + [b]) == Pack(bits) + (if b then Pow2(6 - |bits|) else 0)
    ensures Or(Pow2(6 - |bits|), Pack(bits)) == Pack(bits) + Pow2(6 - |bits|)
  {
    SmallPowers();
    var u := |bits|;
    forall k | 0 <= k < 7
      ensures Weight(bits + [b], k) == (if k == u && b then 1 else Weight(bits, k))
    {
    }
    var h := PackHigh(bits);
    OrLowBit(h, u, Pack(bits));
  }

  /** The unused low bits of a partial byte are zero. */
  lemma {:induction false} PackHigh(bits: seq<bool>) returns (h: nat)
    requires |bits| < 7
    ensures Pack(bits) == h * Pow2(7 - |bits|)
  {
    SmallPowers();
    var a, b, c, d := Weight(bits, 0), Weight(bits, 1), Weight(bits, 2), Weight(bits, 3);
    var e, f := Weight(bits, 4), Weight(bits, 5);
    match |bits|
    case 0 => h := 0;
    case 1 => h := a;
    case 2 => h := 2 * a + b;
    case 3 => h := 4 * a + 2 * b + c;
    case 4 => h := 8 * a + 4 * b + 2 * c + d;
    case 5 => h := 16 * a + 8 * b + 4 * c + 2 * d + e;
    case _ => h := 32 * a + 16 * b + 8 * c + 4 * d + 2 * e + f;
  }

  lemma {:induction false} OrLowBit(h: nat, u: nat, x: nat)
    requires u < 7 && x == h * Pow2(7 - u)
    ensures Or(Pow2(6 - u), x) == x + Pow2(6 - u)
  {
    var p := Pow2(6 - u);
    assert Pow2(7 - u) == 2 * p;
    assert x == (2 * h) * p + 0;
    OrHigh(1, 2 * h, 0, 6 - u);
    OrDouble(0, h, 0);
    assert Or(1, 2 * h) == 2 * h + 1 by {
      OrZero(h);
      assert Or(1, 2 * h) == 1 + 2 * Or(0, h);
    }
    assert (2 * h + 1) * p == (2 * h) * p + p;
    assert 1 * p == p;
  }

  /** Adding one bit to a presence map: a new byte when the last one is full, else a bit in the last byte. */
  lemma {:induction false} GroupsSnoc(p: seq<bool>, b: bool)
    ensures var k := Full(|p|);
            var s := PmapGroups(p);
            PmapGroups(p + [b]) ==
              (if |p| == k + 7 then s + [Pack([b])] else s[..|s| - 1] + [Pack(p[k..] + [b])])
    ensures PmapGroups(p)[|PmapGroups(p)| - 1] == Pack(p[Full(|p|)..])
  {
    var k := Full(|p|);
    var q := p + [b];
    if k == 0 { assert p[k..] == p; }
    if |p| == k + 7 {
      assert Full(|q|) == |p|;
      assert q[..|p|] == p && q[|p|..] == [b];
    } else {
      assert Full(|q|) == k;
      assert q[..k] == p[..k] && q[k..] == p[k..] + [b];
    }
  }

  method EncodePmapInto(pmap: seq<bool>, arr: ByteArray)
    modifies arr
    ensures arr.data == old(arr.data) + EncodePmap(pmap)
  {
    var a: seq<byte> := arr.data;
    var i := |a|;
    var mask: nat := 0;
    ghost var was := a;
    a := a + [0];
    mask := 0x40;
    var j := 0;
    while j < |pmap|
      invariant 0 <= j <= |pmap| && mask == NextMask(j)
      invariant a == StateAt(was, pmap, j) && i == |a| - 1
    {
      NextState(was, pmap, j);
      a, i, mask := PutBit(a, i, mask, pmap[j], StateAt(was, pmap, j + 1));
      j := j + 1;
    }
    LastState(a, was, pmap);
    a := a[i := Or(0x80, a[i])];
    arr.data := a;
  }

  /** The body of the loop over the bits. */
  method PutBit(a0: seq<byte>, i0: nat, mask0: nat, bit: bool, ghost next: seq<byte>)
    returns (a: seq<byte>, i: nat, mask: nat)
    requires SetsBit(a0, next, mask0, bit) && i0 == |a0| - 1
    ensures a == next && i == |a| - 1 && mask == (if mask0 == 0 then 0x40 else mask0) / 2
  {
    a, i, mask := a0, i0, mask0;
    if mask == 0 {
      a := a + [0];
      mask := 0x40;
      i := i + 1;
    }
    if bit {
      a := a[i := Or(mask, a[i])];
    }
    mask := mask / 2;
  }

  /** One round of the loop, from array a to array a': a new byte when the mask has run out, then the bit. */
  predicate SetsBit(a: seq<byte>, a': seq<byte>, mask: nat, b: bool) {
    var s, m := if mask == 0 then a + [0] else a, if mask == 0 then 0x40 else mask;
    s != [] && Or(m, s[|s| - 1]) < 128 && a' == if b then s[|s| - 1 := Or(m, s[|s| - 1])] else s
  }

  /** The array before round j. */
  function StateAt(was: seq<byte>, pmap: seq<bool>, j: nat): seq<byte>
    requires j <= |pmap|
  {
    if j == 0 then was + [0] else was + PmapGroups(pmap[..j])
  }

  lemma {:induction false} NextState(was: seq<byte>, pmap: seq<bool>, j: nat)
    requires j < |pmap|
    ensures SetsBit(StateAt(was, pmap, j), StateAt(was, pmap, j + 1), NextMask(j), pmap[j])
  {
    assert pmap[..j + 1] == pmap[..j] + [pmap[j]];
    BitAppended(was, pmap[..j], pmap[j]);
    if j == 0 {
      EmptyGroups(pmap[..0]);
    }
  }

  lemma {:induction false} AllStates(was: seq<byte>, pmap: seq<bool>)
    ensures StateAt(was, pmap, |pmap|) == was + PmapGroups(pmap)
  {
    assert pmap[..|pmap|] == pmap;
    if pmap == [] { EmptyGroups(pmap); }
  }

  lemma {:induction false} LastState(a: seq<byte>, was: seq<byte>, pmap: seq<bool>)
    requires a == StateAt(was, pmap, |pmap|)
    ensures a != [] && Or(0x80, a[|a| - 1]) < 256
    ensures a[|a| - 1 := Or(0x80, a[|a| - 1])] == was + EncodePmap(pmap)
  {
    AllStates(was, pmap);
    SetStopBit(a, was, PmapGroups(pmap));
  }

  lemma {:induction false} EmptyGroups(p: seq<bool>)
    requires p == []
    ensures PmapGroups(p) == [0]
  {
    assert Pack(p) == 0;
  }

  lemma {:induction false} SetStopBit(a: seq<byte>, was: seq<byte>, groups: seq<byte>)
    requires groups != [] && NoStop(groups) && a == was + groups
    ensures Or(0x80, a[|a| - 1]) < 256
    ensures a[|a| - 1 := Or(0x80, a[|a| - 1])] == was + Marked(groups)
  {
    LastByte(was, groups);
    OrStopLow(a[|a| - 1]);
    MarkedEnd(was, groups);
  }

  lemma {:induction false} OrStopLow(b: nat)
    requires b < 128
    ensures Or(0x80, b) == 128 + b
  {
    Pow2Values();
    OrDisjoint(1, b, 7);
  }

  lemma {:induction false} LastByte(was: seq<byte>, groups: seq<byte>)
    requires groups != [] && NoStop(groups)
    ensures (was + groups)[|was + groups| - 1] == groups[|groups| - 1] < 128
  {
  }

  lemma {:induction false} BitAppended(was: seq<byte>, p: seq<bool>, b: bool)
    ensures SetsBit(was + PmapGroups(p), was + PmapGroups(p + [b]), NextMask(|p|), b)
  {
    var s, t := PmapGroups(p), PmapGroups(p + [b]);
    if NextMask(|p|) == 0 {
      NewByte(p, b);
      assert was + s + [0] == was + (s + [0]);
      s := s + [0];
      SetInTail(was, s, t, 0x40, b);
    } else {
      SameByte(p, b);
      SetInTail(was, s, t, NextMask(|p|), b);
    }
  }

  lemma {:induction false} SetInTail(was: seq<byte>, s: seq<byte>, t: seq<byte>, m: nat, b: bool)
    requires Extends(t, s, m, b)
    ensures (was + s)[|was| + |s| - 1] == s[|s| - 1]
    ensures was + t == (if b then (was + s)[|was| + |s| - 1 := Or(m, s[|s| - 1])] else was + s)
  {
  }

  /** `next` is `t` with the bit at mask m of its last byte set or left clear. */
  predicate Extends(next: seq<byte>, t: seq<byte>, m: nat, b: bool) {
    && t != [] && |next| == |t| && m < 128
    && Or(m, t[|t| - 1]) < 128
    && next == (if b then t[|t| - 1 := Or(m, t[|t| - 1])] else t)
  }

  lemma {:induction false} ExtendsByPacking(front: seq<byte>, bits: seq<bool>, b: bool)
    requires |bits| < 7
    ensures Extends(front + [Pack(bits + [b])], front + [Pack(bits)], Pow2(6 - |bits|), b)
  {
    var t, m := front + [Pack(bits)], Pow2(6 - |bits|);
    assert m < 128 by { SmallPowers(); }
    PackBit(bits, true);
    PackBit(bits, b);
    assert t[|t| - 1] == Pack(bits);
    assert t[|t| - 1 := Pack(bits + [b])] == front + [Pack(bits + [b])];
  }

  lemma {:induction false} NewByte(p: seq<bool>, b: bool)
    requires NextMask(|p|) == 0
    ensures Extends(PmapGroups(p + [b]), PmapGroups(p) + [0], 0x40, b)
  {
    MaskPlace(|p|);
    GroupsSnoc(p, b);
    assert PmapGroups(p + [b]) == PmapGroups(p) + [Pack([b])];
    FirstBit(PmapGroups(p), b);
  }

  lemma {:induction false} FirstBit(front: seq<byte>, b: bool)
    ensures Extends(front + [Pack([b])], front + [0], 0x40, b)
  {
    assert Pow2(6) == 64 by { SmallPowers(); }
    ExtendsByPacking(front, [], b);
    assert [] + [b] == [b];
  }

  lemma {:induction false} SameByte(p: seq<bool>, b: bool)
    requires NextMask(|p|) != 0
    ensures Extends(PmapGroups(p + [b]), PmapGroups(p), NextMask(|p|), b)
  {
    MaskPlace(|p|);
    GroupsSnoc(p, b);
    var bits, t := p[Full(|p|)..], PmapGroups(p);
    ExtendsByPacking(t[..|t| - 1], bits, b);
    assert t == t[..|t| - 1] + [Pack(bits)];
  }

  /** The mask as the loop moves it: down one bit a round, back to the top once it has run out. */
  function NextMask(j: nat): (m: nat)
    ensures m < 128
  {
    if j == 0 then 0x40 else (if NextMask(j - 1) == 0 then 0x40 else NextMask(j - 1)) / 2
  }

  /** It has run out exactly when the last byte is full, and otherwise points at the first unused bit. */
  lemma {:induction false} MaskPlace(j: nat)
    ensures NextMask(j) == (if j == Full(j) + 7 then 0 else Pow2(6 - (j - Full(j))))
  {
    SmallPowers();
    if j > 0 {
      MaskPlace(j - 1);
      if j - 1 == Full(j - 1) + 7 {
        assert Full(j) == j - 1;
      } else {
        assert Full(j) == Full(j - 1);
      }
    }
  }

  // ---------- integers: the reference encodings ----------

  /** Decoding what was encoded: a complete stop-bit string whose number is the one that was sent. */
  lemma {:induction false} UnsignedRoundTrip(x: nat)
    ensures IsStopBit(EncodeUnsigned(x)) && Value(EncodeUnsigned(x)) == x
  {
    UnsignedGroupsValue(x);
    MarkedValue(UnsignedGroups(x));
  }

  lemma {:induction false} UnsignedGroupsValue(x: nat)
    ensures Value(UnsignedGroups(x)) == x
  {
    if x >= 128 {
      UnsignedGroupsValue(x / 128);
    }
  }

  lemma {:induction false} SignedRoundTrip(x: int)
    ensures IsStopBit(EncodeSigned(x)) && SignedValue(EncodeSigned(x)) == x
  {
    SignedGroupsValue(x);
    MarkedValue(SignedGroups(x));
  }

  lemma {:induction false} SignedGroupsValue(x: int)
    ensures SignedValue(SignedGroups(x)) == x
    decreases if x < 0 then -x else x
  {
    if !(-64 <= x < 64) {
      SignedGroupsValue(x / 128);
    }
  }

  /** No stop-bit string for the same number is shorter. */
  lemma {:induction false} UnsignedShortest(s: seq<byte>)
    requires s != []
    ensures |UnsignedGroups(Value(s))| <= |s|
  {
    if |s| > 1 {
      UnsignedShortest(s[..|s| - 1]);
    }
  }

  lemma {:induction false} SignedShortest(s: seq<byte>)
    requires s != []
    ensures |SignedGroups(SignedValue(s))| <= |s|
  {
    if |s| > 1 {
      SignedShortest(s[..|s| - 1]);
      assert SignedValue(s) / 128 == SignedValue(s[..|s| - 1]);
    }
  }

  /** How many groups a number takes. */
  lemma {:induction false} UnsignedLength(x: nat, n: nat)
    requires n > 0
    ensures |UnsignedGroups(x)| <= n <==> x < Pow128(n)
  {
    if n == 1 {
      assert Pow128(1) == 128;
    } else if x >= 128 {
      UnsignedLength(x / 128, n - 1);
    }
  }

  lemma {:induction false} SignedLength(x: int, n: nat)
    requires n > 0
    ensures |SignedGroups(x)| <= n <==> -64 * Pow128(n - 1) <= x < 64 * Pow128(n - 1)
    decreases n
  {
    if n > 1 && !(-64 <= x < 64) {
      SignedLength(x / 128, n - 1);
    }
  }

  // ---------- integers: the client's loops ----------

  lemma {:induction false} UnsignedStep(x: nat, tail: seq<byte>)
    ensures UnsignedGroups(x) + tail == (if x / 128 != 0 then UnsignedGroups(x / 128) else []) + ([x % 128] + tail)
    ensures And(x, 0x7F) == x % 128
  {
    LowGroup(x);
  }

  lemma {:induction false} SignedStep(x: int, tail: seq<byte>)
    ensures x / 64 == 0 || x / 64 == -1 ==> SignedGroups(x) == [x % 128]
    ensures !(x / 64 == 0 || x / 64 == -1) ==>
              x / 64 / 2 == x / 128 && SignedGroups(x) + tail == SignedGroups(x / 128) + ([x % 128] + tail)
  {
  }

  lemma {:induction false} ClientRange(v: int)
    ensures v >= 0 ==> (|UnsignedGroups(v)| <= 9 <==> v < 0x8000_0000_0000_0000)
    ensures |SignedGroups(v)| <= 9 <==> -0x4000_0000_0000_0000 <= v < 0x4000_0000_0000_0000
  {
    Pow128Values();
    assert Pow128(9) == 128 * Pow128(8);
    if v >= 0 { UnsignedLength(v, 9); }
    SignedLength(v, 9);
  }

  /** The buffer is filled backwards from slot 9; a tenth group would be stored below slot 0,
      and that is what ok = false reports. */
  method EncodeUint64(v: nat, arr: ByteArray) returns (ok: bool)
    requires v < 0x1_0000_0000_0000_0000
    modifies arr
    ensures ok <==> v < 0x8000_0000_0000_0000
    ensures arr.data == if ok then old(arr.data) + EncodeUnsigned(v) else old(arr.data)
  {
    var buf := new byte[17];
    var x, i, more := v, 9, true;
    ClientRange(v);
    while more
      invariant 0 <= i <= 9 && (more || i < 9) && x >= 0 && arr.data == old(arr.data)
      invariant UnsignedGroups(v) == (if more then UnsignedGroups(x) else []) + buf[i..9]
      decreases more, x
    {
      if i == 0 { return false; }
      ghost var tail := buf[i..9];
      UnsignedStep(x, tail);
      i := i - 1;
      buf[i] := And(x, 0x7F);
      assert buf[i..9] == [x % 128] + tail;
      x := x / 128;
      more := x != 0;
    }
    MarkBuffer(buf, i, UnsignedGroups(v));
    arr.Append(buf[i..9]);
    ok := true;
  }

  /** buf[maxc - 1] |= 0x80 */
  method MarkBuffer(buf: array<byte>, ghost i: nat, ghost groups: seq<byte>)
    requires buf.Length == 17 && i < 9 && NoStop(groups) && buf[i..9] == groups
    modifies buf
    ensures buf[i..9] == Marked(groups)
  {
    ghost var last: byte := groups[8 - i];
    assert buf[8] == last < 128;
    OrStopLow(last);
    buf[8] := Or(0x80, buf[8]);
    assert buf[i..8] == groups[..8 - i];
    assert buf[i..9] == buf[i..8] + [buf[8]];
  }

  lemma {:induction false} LowGroup(x: nat)
    ensures And(x, 0x7F) == x % 128
  {
    Pow2Values();
    AndLow(x, 7);
  }

  method EncodeUint32(v: nat, arr: ByteArray)
    requires v < 0x1_0000_0000
    modifies arr
    ensures arr.data == old(arr.data) + EncodeUnsigned(v)
  {
    var ok := EncodeUint64(v, arr);
  }

  /** The arithmetic right shift of a negative number rounds down, which is Dafny's `/`. */
  method EncodeInt64(v: int, arr: ByteArray) returns (ok: bool)
    requires -0x8000_0000_0000_0000 <= v < 0x8000_0000_0000_0000
    modifies arr
    ensures ok <==> -0x4000_0000_0000_0000 <= v < 0x4000_0000_0000_0000
    ensures arr.data == if ok then old(arr.data) + EncodeSigned(v) else old(arr.data)
  {
    var buf := new byte[17];
    var x, i, more := v, 9, true;
    ClientRange(v);
    while more
      invariant 0 <= i <= 9 && (more || i < 9) && arr.data == old(arr.data)
      invariant SignedGroups(v) == (if more then SignedGroups(x) else []) + buf[i..9]
      decreases more, if x < 0 then -x else x
    {
      if i == 0 { return false; }
      ghost var tail := buf[i..9];
      SignedStep(x, tail);
      i := i - 1;
      buf[i] := x % 128;
      assert buf[i..9] == [x % 128] + tail;
      x := x / 64;
      if x == 0 || x == -1 {
        more := false;
      } else {
        x := x / 2;
      }
    }
    MarkBuffer(buf, i, SignedGroups(v));
    arr.Append(buf[i..9]);
    ok := true;
  }

  method EncodeInt32(v: int, arr: ByteArray)
    requires -0x8000_0000 <= v < 0x8000_0000
    modifies arr
    ensures arr.data == old(arr.data) + EncodeSigned(v)
  {
    var ok := EncodeInt64(v, arr);
  }

  // ---------- strings and byte vectors ----------

  /** A string on the wire: its characters, the last one marked. The empty string is a lone marked zero. */
  function AsciiBytes(s: seq<byte>): (w: seq<byte>)
    ensures |w| == if s == [] then 1 else |s|
  {
    if s == [] then [0x80] else s[..|s| - 1] + [128 + s[|s| - 1] % 128]
  }

  /** What is appended for a string is one stop-bit string exactly when no character before the last is marked
      already. */
  lemma {:induction false} AsciiDelimited(s: seq<byte>)
    requires s != []
    ensures IsStopBit(AsciiBytes(s)) <==> NoStop(s[..|s| - 1])
    ensures NoStop(s) ==> AsciiBytes(s) == Marked(s)
  {
    assert AsciiBytes(s)[..|s| - 1] == s[..|s| - 1];
  }

  /** The characters of a C string; the client refuses the empty one. */
  method EncodeAscii(str: seq<byte>, arr: ByteArray) returns (ok: bool)
    modifies arr
    ensures ok <==> str != []
    ensures arr.data == if ok then old(arr.data) + AsciiBytes(str) else old(arr.data)
  {
    var len := |str|;
    if len == 0 { return false; }
    OrStop(str[len - 1]);
    var b := Or(0x80, str[len - 1]);
    arr.Append(str[..len - 1]);
    arr.Append([b]);
    assert arr.data == old(arr.data) + (str[..len - 1] + [b]);
    ok := true;
  }

  function HexValue(c: char): (n: int)
    ensures -1 <= n < 16
  {
    if '0' <= c <= '9' then c as int - '0' as int
    else if 'A' <= c <= 'F' then c as int - 'A' as int + 10
    else if 'a' <= c <= 'f' then c as int - 'a' as int + 10
    else -1
  }

  type nibble = n: int | 0 <= n < 16

  function HexDigits(str: string): (d: seq<nibble>) {
    if str == [] then []
    else
      var n := HexValue(str[|str| - 1]);
      HexDigits(str[..|str| - 1]) + (if n < 0 then [] else [n])
  }

  function ToLower(c: char): char { if 'A' <= c <= 'Z' then c + 32 as char else c }

  predicate SameLetters(s: string, t: string) {
    |s| == |t| && forall i | 0 <= i < |s| :: ToLower(s[i]) == ToLower(t[i])
  }

  /** Capital and small letters are the same digits. */
  lemma {:induction false} CaseIgnored(s: string, t: string)
    requires SameLetters(s, t)
    ensures HexDigits(s) == HexDigits(t)
    decreases |s|
  {
    if s != [] {
      var k := |s| - 1;
      assert ToLower(s[k]) == ToLower(t[k]);
      assert HexValue(s[k]) == HexValue(t[k]);
      CaseIgnored(s[..k], t[..k]);
    }
  }

  /** Digits in pairs, first digit in the high half; a digit left over is a high half on its own. */
  function Paired(d: seq<nibble>): (s: seq<byte>) {
    if d == [] then []
    else if Odd(d) then
      var b: byte := (d[|d| - 1] as int) * 16;
      Paired(d[..|d| - 1]) + [b]
    else
      var b: byte := (d[|d| - 2] as int) * 16 + d[|d| - 1] as int;
      Paired(d[..|d| - 2]) + [b]
  }

  predicate Odd(d: seq<nibble>) { |d| % 2 == 1 }

  lemma {:induction false} NibbleOr(c: nat, b: nat)
    requires c < 16 && b < 16
    ensures Or(b * 16, c) == b * 16 + c
  {
    SmallPowers();
    OrDisjoint(b, c, 4);
  }

  lemma {:induction false} PairedHigh(d: seq<nibble>, c: nibble)
    requires !Odd(d)
    ensures Odd(d + [c]) && Paired(d + [c]) == Paired(d) + [c * 16]
  {
    assert (d + [c])[..|d|] == d;
  }

  lemma {:induction false} PairedLow(d: seq<nibble>, high: nibble, c: nibble)
    requires !Odd(d)
    ensures !Odd(d + [high] + [c]) && Paired(d + [high] + [c]) == Paired(d) + [high * 16 + c]
  {
    assert (d + [high] + [c])[..|d|] == d;
  }

  lemma {:induction false} HexSnoc(str: string, c: char)
    ensures HexDigits(str + [c]) == HexDigits(str) + (if HexValue(c) < 0 then [] else [HexValue(c)])
  {
    assert (str + [c])[..|str|] == str;
  }

  /** Between two characters: the digits already paired, and the one that b holds in its high half. */
  predicate HexHeld(str: string, even: seq<nibble>, shf: int, b: byte) {
    && !Odd(even)
    && if shf == 8 then b == 0 && HexDigits(str) == even
       else shf == 4 && b % 16 == 0 && HexDigits(str) == even + [b / 16]
  }

  lemma {:induction false} HexNext(str: string, c: char, even: seq<nibble>, shf: int, b: byte)
    requires HexHeld(str, even, shf, b)
    ensures var n := HexValue(c);
            if n < 0 then HexHeld(str + [c], even, shf, b)
            else if shf == 8 then Or(b, n * 16) == n * 16 && HexHeld(str + [c], even, 4, n * 16)
            else Or(b, n) < 256 && HexHeld(str + [c], even + [b / 16] + [n], 8, 0)
                 && Paired(even + [b / 16] + [n]) == Paired(even) + [Or(b, n)]
  {
    var n := HexValue(c);
    HexSnoc(str, c);
    if n >= 0 && shf == 8 {
      OrZero(n * 16);
    } else if n >= 0 {
      NibbleOr(n, b / 16);
      PairedLow(even, b / 16, n);
    }
  }

  method EncodeHex(str: string, arr: ByteArray)
    modifies arr
    ensures arr.data == old(arr.data) + Paired(HexDigits(str))
  {
    var b: byte := 0;
    var shf, i := 8, 0;
    ghost var even: seq<nibble>, done: seq<byte> := [], [];
    while i < |str|
      invariant 0 <= i <= |str| && HexHeld(str[..i], even, shf, b)
      invariant done == Paired(even) && arr.data == old(arr.data) + done
    {
      var c := HexValue(str[i]);
      HexNext(str[..i], str[i], even, shf, b);
      assert str[..i + 1] == str[..i] + [str[i]];
      i := i + 1;
      if c >= 0 {
        shf := shf - 4;
        if shf == 0 {
          even := even + [b / 16] + [c];
          b := Or(b, c);
          arr.Append([b]);
          done := done + [b];
          shf := 8;
          b := 0;
        } else {
          b := Or(b, c * 16);
        }
      }
    }
    assert str[..i] == str;
    if shf != 8 {
      PairedHigh(even, b / 16);
      arr.Append([b]);
    }
  }

  method EncodeBytevec(str: string, arr: ByteArray)
    requires |str| < 0x1_0000_0000
    modifies arr
    ensures arr.data == old(arr.data) + EncodeUnsigned((|str| + 1) / 2) + Paired(HexDigits(str))
  {
    EncodeUint32((|str| + 1) / 2, arr);
    EncodeHex(str, arr);
  }

  // ---------- hex text of a byte vector, as the display prints it ----------

  function HexChar(n: int): char
    requires 0 <= n < 16
  {
    if n < 10 then '0' + n as char else 'a' + (n - 10) as char
  }

  function HexText(v: seq<byte>): string {
    if v == [] then "" else HexText(v[..|v| - 1]) + [HexChar(v[|v| - 1] / 16), HexChar(v[|v| - 1] % 16)]
  }

  /** Encoding the printed form of a byte vector gives the vector back, with nothing skipped or padded. */
  lemma {:induction false} HexRoundTrip(v: seq<byte>)
    ensures |HexText(v)| == 2 * |v| == |HexDigits(HexText(v))|
    ensures Paired(HexDigits(HexText(v))) == v
  {
    if v != [] {
      var init, b := v[..|v| - 1], v[|v| - 1];
      HexRoundTrip(init);
      HexByte(HexText(init), init, b);
      assert v == init + [b];
    }
  }

  lemma {:induction false} HexByte(t: string, v: seq<byte>, b: byte)
    requires Paired(HexDigits(t)) == v && !Odd(HexDigits(t))
    ensures HexDigits(t + [HexChar(b / 16), HexChar(b % 16)]) == HexDigits(t) + [b / 16] + [b % 16]
    ensures Paired(HexDigits(t) + [b / 16] + [b % 16]) == v + [b]
  {
    var hi: nibble, low: nibble := b / 16, b % 16;
    assert t + [HexChar(hi), HexChar(low)] == t + [HexChar(hi)] + [HexChar(low)];
    HexSnoc(t, HexChar(hi));
    HexSnoc(t + [HexChar(hi)], HexChar(low));
    HexCharValue(hi);
    HexCharValue(low);
    PairedLow(HexDigits(t), hi, low);
  }

  lemma {:induction false} HexCharValue(n: int)
    requires 0 <= n < 16
    ensures HexValue(HexChar(n)) == n
  {
  }

  predicate LowerHex(t: string) { forall i | 0 <= i < |t| :: LowerDigit(t[i]) }

  predicate LowerDigit(c: char) { '0' <= c <= '9' || 'a' <= c <= 'f' }

  function ByteOf(c: char, e: char): byte
    requires LowerDigit(c) && LowerDigit(e)
  {
    HexValue(c) * 16 + HexValue(e)
  }

  lemma {:induction false} TypedByte(t: string, c: char, e: char)
    requires !Odd(HexDigits(t)) && LowerDigit(c) && LowerDigit(e)
    ensures |HexDigits(t + [c] + [e])| == |HexDigits(t)| + 2
    ensures Paired(HexDigits(t + [c] + [e])) == Paired(HexDigits(t)) + [ByteOf(c, e)]
  {
    var hi: nibble, low: nibble := HexValue(c), HexValue(e);
    HexSnoc(t, c);
    HexSnoc(t + [c], e);
    PairedLow(HexDigits(t), hi, low);
  }

  lemma {:induction false} ShownByte(v: seq<byte>, c: char, e: char)
    requires LowerDigit(c) && LowerDigit(e)
    ensures HexText(v + [ByteOf(c, e)]) == HexText(v) + [c, e]
  {
    assert (v + [ByteOf(c, e)])[..|v|] == v;
    HexCharBack(c);
    HexCharBack(e);
    Nibbles(HexValue(c), HexValue(e));
  }

  lemma {:induction false} Nibbles(hi: nat, low: nat)
    requires low < 16
    ensures (hi * 16 + low) / 16 == hi && (hi * 16 + low) % 16 == low
  {
  }

  lemma {:induction false} LastTwo(t: string)
    requires |t| >= 2
    ensures t == t[..|t| - 2] + [t[|t| - 2]] + [t[|t| - 1]] == t[..|t| - 2] + [t[|t| - 2], t[|t| - 1]]
  {
  }

  /** The other way round: what was typed in lower-case hexadecimal is what is displayed. */
  lemma {:induction false} HexTyped(t: string)
    requires |t| % 2 == 0 && LowerHex(t)
    ensures |HexDigits(t)| == |t| && HexText(Paired(HexDigits(t))) == t
    decreases |t|
  {
    if t != "" {
      var init, c, e := t[..|t| - 2], t[|t| - 2], t[|t| - 1];
      HexTyped(init);
      LastTwo(t);
      TypedByte(init, c, e);
      ShownByte(Paired(HexDigits(init)), c, e);
    }
  }

  lemma {:induction false} HexCharBack(c: char)
    requires LowerDigit(c)
    ensures HexValue(c) >= 0 && HexChar(HexValue(c)) == c
  {
  }
}
