/** Byte vectors given in hexadecimal, as initial values in a template. */
module InitialValues {
  import opened Bits
  import opened StopBit
  import opened Encode

  /** Characters are taken in pairs; one left over at the end is ignored. */
  predicate HexPairs(str: string) { forall i | 0 <= i < |str| / 2 * 2 :: HexValue(str[i]) >= 0 }

  function PairAt(str: string, i: nat): byte
    requires HexPairs(str) && 2 * i + 1 < |str|
  {
    HexValue(str[2 * i]) * 16 + HexValue(str[2 * i + 1])
  }

  function HexBytes(str: string): (s: seq<byte>)
    requires HexPairs(str)
    ensures |s| == |str| / 2
  {
    seq(|str| / 2, i requires 0 <= i < |str| / 2 => PairAt(str, i))
  }

  /** The byte vector branch of string_to_field_value: refused at the first character that is no digit. */
  method StringToByteVector(str: string) returns (ok: bool, bytes: seq<byte>)
    ensures ok == HexPairs(str)
    ensures ok ==> bytes == HexBytes(str)
  {
    ok, bytes := false, [];
    var len := |str|;
    var buf := new byte[len / 2];
    var i := 0;
    while i + 1 < len
      invariant 0 <= i <= len && i % 2 == 0
      invariant forall k | 0 <= k < i :: HexValue(str[k]) >= 0
      invariant forall k | 0 <= k < i / 2 :: buf[k] as int == HexValue(str[2 * k]) * 16 + HexValue(str[2 * k + 1])
    {
      var nibble1, nibble2 := HexValue(str[i]), HexValue(str[i + 1]);
      if nibble1 == -1 || nibble2 == -1 { return; }
      NibbleOr(nibble2, nibble1);
      buf[i / 2] := Or(nibble1 * 16, nibble2);
      i := i + 2;
    }
    ok, bytes := true, buf[..];
  }

  /** Capital and small letters are the same digits. */
  lemma {:induction false} PairsIgnoreCase(s: string, t: string)
    requires SameLetters(s, t)
    ensures HexPairs(s) == HexPairs(t) && (HexPairs(s) ==> HexBytes(s) == HexBytes(t))
  {
    forall i | 0 <= i < |s|
      ensures HexValue(s[i]) == HexValue(t[i])
    {
      assert ToLower(s[i]) == ToLower(t[i]);
    }
  }

  /** Reading the text a byte vector is displayed as. */
  lemma {:induction false} HexTextReads(v: seq<byte>)
    ensures HexPairs(HexText(v)) && HexBytes(HexText(v)) == v
  {
    HexTextAt(v);
    var t := HexText(v);
    forall i | 0 <= i < |v|
      ensures HexBytes(t)[i] == v[i]
    {
      HexCharValue(v[i] as int / 16);
      HexCharValue(v[i] as int % 16);
    }
  }

  lemma {:induction false} HexTextAt(v: seq<byte>)
    ensures |HexText(v)| == 2 * |v|
    ensures forall i | 0 <= i < |v| ::
              HexText(v)[2 * i] == HexChar(v[i] as int / 16) && HexText(v)[2 * i + 1] == HexChar(v[i] as int % 16)
    ensures HexPairs(HexText(v))
  {
    if v != [] {
      var init, b := v[..|v| - 1], v[|v| - 1];
      HexTextAt(init);
      HexCharValue(b as int / 16);
      HexCharValue(b as int % 16);
      assert forall i | 0 <= i < |init| :: v[i] == init[i];
    }
  }
}
