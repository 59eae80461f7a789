/** Decimal initial values: the parser that trims and shifts its text in place, and the printer that puts the
    point back. */
module Decimals {
  import opened StopBit
  import opened Fields

  /** x * 10^n */
  function Scale(x: int, n: nat): int { if n == 0 then x else 10 * Scale(x, n - 1) }

  lemma {:induction false} ScaleSum(x: int, a: nat, b: nat)
    ensures Scale(x, a + b) == Scale(Scale(x, a), b)
  {
    if b > 0 {
      ScaleSum(x, a, b - 1);
    }
  }

  lemma {:induction false} ScaleOne(x: int, y: int, n: nat)
    ensures Scale(x, n) == Scale(y, n) <==> x == y
    ensures Scale(-x, n) == -Scale(x, n)
  {
    if n > 0 {
      ScaleOne(x, y, n - 1);
    }
  }

  /** Scaling leads away from zero, and to a last digit zero. */
  lemma {:induction false} ScaleSize(x: int, n: nat)
    ensures x == 0 <==> Scale(x, n) == 0
    ensures if x >= 0 then Scale(x, n) >= x else Scale(x, n) <= x
    ensures n > 0 ==> Scale(x, n) % 10 == 0
  {
    if n > 0 {
      ScaleSize(x, n - 1);
    }
  }

  predicate IsDigit(c: char) { '0' <= c <= '9' }

  predicate AllDigits(s: string) { forall i | 0 <= i < |s| :: IsDigit(s[i]) }

  function Digit(c: char): nat { if IsDigit(c) then c as int - '0' as int else 0 }

  function DigitsValue(s: string): nat {
    if s == "" then 0 else DigitsValue(s[..|s| - 1]) * 10 + Digit(s[|s| - 1])
  }

  // ---------- strtoll ----------

  function SignLength(s: string): (n: nat)
    ensures n <= |s|
  {
    if s != "" && (s[0] == '-' || s[0] == '+') then 1 else 0
  }

  function Signed(s: string, x: int): int { if s != "" && s[0] == '-' then -x else x }

  function DigitRun(s: string): (n: nat)
    ensures n <= |s|
  {
    if s == "" || !IsDigit(s[0]) then 0 else 1 + DigitRun(s[1..])
  }

  function Saturated(x: int): int {
    if x >= 0x8000_0000_0000_0000 then 0x7FFF_FFFF_FFFF_FFFF
    else if x < -0x8000_0000_0000_0000 then -0x8000_0000_0000_0000
    else x
  }

  /** In base ten, on text without white space: a sign, then the digits up to the first other character. */
  function StrToLL(s: string): int {
    var body := s[SignLength(s)..];
    Saturated(Signed(s, DigitsValue(body[..DigitRun(body)])))
  }

  lemma {:induction false} FullRun(s: string)
    requires AllDigits(s)
    ensures DigitRun(s) == |s|
  {
    if s != "" {
      FullRun(s[1..]);
    }
  }

  // ---------- what the parser computes ----------

  predicate Allowed(c: char) { IsDigit(c) || c == '-' || c == '+' || c == '.' }

  /** The last point among the first n characters, or -1. */
  function LastPoint(s: string, n: nat): (k: int)
    requires n <= |s|
    ensures -1 <= k < n
  {
    if n == 0 then -1 else if s[n - 1] == '.' then n - 1 else LastPoint(s, n - 1)
  }

  /** Only digits, signs and points, and one point at most. */
  predicate AcceptedTo(s: string, n: nat)
    requires n <= |s|
  {
    forall i | 0 <= i < n :: Allowed(s[i]) && (s[i] == '.' ==> i == LastPoint(s, n))
  }

  predicate Accepted(s: string) { AcceptedTo(s, |s|) }

  /** The point, or the length when there is none. */
  function PointOf(s: string): nat { if LastPoint(s, |s|) < 0 then |s| else LastPoint(s, |s|) }

  /** The last digit other than zero among the first n characters, or 0. */
  function LastDigitOf(s: string, n: nat): (r: nat)
    requires n <= |s|
    ensures r == 0 || r < n
  {
    if n == 0 then 0
    else if IsDigit(s[n - 1]) && s[n - 1] != '0' then n - 1
    else LastDigitOf(s, n - 1)
  }

  function RightOf(s: string): nat { LastDigitOf(s, |s|) }

  /** Up to the last digit that counts, without the point. */
  function Trimmed(s: string): string {
    var dot, right := PointOf(s), RightOf(s);
    if s == "" then "" else if dot <= right then s[..dot] + s[dot + 1..right + 1] else s[..right + 1]
  }

  /** How far the point is behind that digit. */
  function Exponent(s: string): int {
    var dot, right := PointOf(s), RightOf(s);
    if s == "" then 0 else if dot <= right then dot - right else dot - 1 - right
  }

  function Parse(s: string): Option<FieldValue> {
    if !Accepted(s) then None
    else
      var m := StrToLL(Trimmed(s));
      Some(FieldValue(m, if m == 0 then 0 else Exponent(s), []))
  }

  // ---------- the parser ----------

  /** Arithmetic of C's unsigned int. */
  function Unsigned(x: int): nat { W32.WrapUnsigned(x) }

  /** What the scan has found in the first n characters. */
  predicate Scanned(s: string, n: nat, dot: nat, right: nat) {
    && n <= |s| && AcceptedTo(s, n) && right == LastDigitOf(s, n)
    && dot == if LastPoint(s, n) < 0 then |s| else LastPoint(s, n)
  }

  lemma {:induction false} PointPlace(s: string, n: nat)
    requires n <= |s|
    ensures LastPoint(s, n) >= 0 ==> s[LastPoint(s, n)] == '.'
    ensures forall i | LastPoint(s, n) < i < n :: s[i] != '.'
  {
    if n > 0 && s[n - 1] != '.' {
      PointPlace(s, n - 1);
    }
  }

  lemma {:induction false} ScanStep(s: string, i: nat, dot: nat, right: nat)
    requires i < |s| && Scanned(s, i, dot, right)
    ensures var c := s[i];
            if !Allowed(c) || (c == '.' && dot != |s|) then !Accepted(s)
            else
              var counts := IsDigit(c) && c != '0' && i > right;
              Scanned(s, i + 1, if c == '.' then i else dot, if counts then i else right)
  {
    PointPlace(s, i);
    if s[i] == '.' && dot != |s| {
      assert s[dot] == '.' && dot < i;
    }
  }

  /** The loop over the characters. */
  method Scan(buf: array<char>, len: nat, ghost s: string) returns (ok: bool, dot: nat, right: nat)
    requires len == |s| < buf.Length && buf[..len] == s
    ensures ok == Accepted(s)
    ensures ok ==> Scanned(s, len, dot, right)
  {
    ok, dot, right := false, len, 0;
    var i: nat := 0;
    while i < len
      invariant 0 <= i <= len && Scanned(s, i, dot, right)
    {
      ScanStep(s, i, dot, right);
      var c := buf[i];
      assert c == s[i];
      if c == '-' || c == '+' || c == '0' {
      } else if c == '.' {
        if dot != len { return; }
        dot := i;
      } else {
        if !IsDigit(c) { return; }
        if i > right { right := i; }
      }
      i := i + 1;
    }
    ok := true;
  }

  /** Moving what is behind the point over it, or nothing when the point is further right. */
  predicate Moved(b: seq<char>, c: seq<char>, dot: nat, right: nat) {
    && |c| == |b| && right < |b|
    && (forall k | dot <= k < right :: c[k] == b[k + 1])
    && forall k | 0 <= k < |b| && !(dot <= k < right) :: c[k] == b[k]
  }

  lemma {:induction false} TrimmedAt(s: string, k: nat)
    requires s != "" && PointOf(s) <= RightOf(s) && k < RightOf(s)
    ensures Trimmed(s)[k] == s[if k < PointOf(s) then k else k + 1]
  {
    var dot, right := PointOf(s), RightOf(s);
    if k >= dot {
      assert Trimmed(s)[k] == s[dot + 1..right + 1][k - dot];
    }
  }

  lemma {:induction false} MovedIsTrimmed(s: string, b: seq<char>, c: seq<char>, dot: nat, right: nat)
    requires |b| == |s| + 1 && b[..|s|] == s && Scanned(s, |s|, dot, right) && Moved(b, c, dot, right)
    ensures dot <= |s|
    ensures var end := if dot <= right then right else right + 1; end <= |s| && c[..end] == Trimmed(s)
  {
    PointPlace(s, |s|);
    if s != "" {
      var end := if dot <= right then right else right + 1;
      assert |Trimmed(s)| == end;
      forall k | 0 <= k < end
        ensures c[k] == Trimmed(s)[k]
      {
        var j := if dot <= k < right then k + 1 else k;
        assert c[k] == b[j] == b[..|s|][j] == s[j];
        if dot <= right { TrimmedAt(s, k); }
      }
    }
  }

  /** memmove(dot + buf, 1 + dot + buf, right - dot) */
  method ScootOver(buf: array<char>, dot: nat, right: nat)
    requires dot <= right < buf.Length
    modifies buf
    ensures Moved(old(buf[..]), buf[..], dot, right)
  {
    forall k | dot <= k < right { buf[k] := buf[k + 1]; }
  }

  /** string_to_decimal_value: the digits after the point are moved over it, then the text is cut off behind
      the last digit that counts. */
  method StringToDecimalValue(str: string) returns (ok: bool, value: FieldValue)
    requires |str| < 0x8000_0000
    ensures ok == Parse(str).Some? && (ok ==> value == Parse(str).value)
  {
    value := BLANK;
    var len := |str|;
    var buf := new char[len + 1](k => if 0 <= k < |str| then str[k] else '\0');
    assert buf[..len] == str;
    var dot: int, right: int;
    ok, dot, right := Scan(buf, len, str);
    if !ok { return; }
    ghost var b, d, r := buf[..], dot, right;
    if dot <= right {
      ScootOver(buf, dot, right);
      right := Unsigned(right - 1);
    }
    MovedIsTrimmed(str, b, buf[..], d, r);
    dot := Unsigned(dot - 1);
    var exponent := W32.ToSigned(dot) - W32.ToSigned(right);
    var end := Unsigned(1 + right);
    CountedUnsigned(d, r);
    buf[end] := '\0';
    var mantissa := StrToLL(buf[..end]);
    if mantissa == 0 {
      exponent := 0;
    }
    value := FieldValue(mantissa, exponent, []);
    assert str[..len] == str && buf[..end] == Trimmed(str);
  }

  /** The counts pass through -1 as unsigned numbers and come out right. */
  lemma {:induction false} CountedUnsigned(dot: nat, right: nat)
    requires dot <= 0x7FFF_FFFF && right <= 0x7FFF_FFFF
    ensures var r := if dot <= right then Unsigned(right - 1) else right;
            && Unsigned(1 + r) == (if dot <= right then right else right + 1)
            && W32.ToSigned(Unsigned(dot - 1)) - W32.ToSigned(r) ==
                 (if dot <= right then dot - right else dot - 1 - right)
  {
  }

  // ---------- what the text denotes ----------

  /** An optional sign, then digits with at most one point. */
  predicate WellFormedText(s: string) {
    Accepted(s) && forall i | SignLength(s) <= i < |s| :: s[i] == '.' || IsDigit(s[i])
  }

  function Undotted(s: string): string {
    var dot := PointOf(s);
    if dot >= |s| then s else s[..dot] + s[dot + 1..]
  }

  /** The number of digits behind the point. */
  function Fraction(s: string): nat {
    var dot := PointOf(s);
    if dot >= |s| then 0 else |s| - 1 - dot
  }

  /** The text stands for Denoted(s) / 10^Fraction(s). */
  function Denoted(s: string): int { Signed(s, DigitsValue(Undotted(s)[SignLength(Undotted(s))..])) }

  function TrimmedValue(s: string): int { Signed(Trimmed(s), DigitsValue(Trimmed(s)[SignLength(Trimmed(s))..])) }

  lemma {:induction false} DigitsValueZeros(s: string, n: nat)
    requires n <= |s| && forall i | n <= i < |s| :: s[i] == '0'
    ensures DigitsValue(s) == Scale(DigitsValue(s[..n]), |s| - n)
  {
    if n == |s| {
      assert s[..n] == s;
    } else {
      var t := s[..|s| - 1];
      DigitsValueZeros(t, n);
      assert t[..n] == s[..n];
    }
  }

  lemma {:induction false} RightPlace(s: string, n: nat)
    requires n <= |s|
    ensures var r := LastDigitOf(s, n);
            (forall i | r < i < n && IsDigit(s[i]) :: s[i] == '0') && (r > 0 ==> IsDigit(s[r]) && s[r] != '0')
  {
    if n > 0 && !(IsDigit(s[n - 1]) && s[n - 1] != '0') {
      RightPlace(s, n - 1);
    }
  }

  /** Where the characters other than the point are. */
  function Place(s: string, k: nat): nat { if k < PointOf(s) then k else k + 1 }

  lemma {:induction false} UndottedAt(s: string, k: nat)
    requires k < |Undotted(s)|
    ensures Place(s, k) < |s| && Undotted(s)[k] == s[Place(s, k)]
    ensures Accepted(s) ==> s[Place(s, k)] != '.'
  {
    var dot := PointOf(s);
    PointPlace(s, |s|);
    if dot < |s| && k >= dot {
      assert Undotted(s)[k] == s[dot + 1..][k - dot];
    }
  }

  lemma {:induction false} UndottedSign(s: string)
    requires WellFormedText(s)
    ensures SignLength(Undotted(s)) == SignLength(s) && (SignLength(s) == 1 ==> Undotted(s)[0] == s[0])
    ensures AllDigits(Undotted(s)[SignLength(s)..])
  {
    var u, n := Undotted(s), SignLength(s);
    PointPlace(s, |s|);
    if u != "" { UndottedAt(s, 0); }
    forall k | n <= k < |u|
      ensures IsDigit(u[k])
    {
      UndottedAt(s, k);
    }
  }

  /** The text without its point, beyond what is kept: zeros only. */
  lemma {:induction false} TrimmedPrefix(s: string)
    requires WellFormedText(s)
    ensures var u, t := Undotted(s), Trimmed(s);
            |t| <= |u| && t == u[..|t|] && forall i | |t| <= i < |u| && i >= SignLength(s) :: u[i] == '0'
    ensures s != "" ==> Exponent(s) + Fraction(s) == |Undotted(s)| - |Trimmed(s)|
  {
    var u, t, dot, right := Undotted(s), Trimmed(s), PointOf(s), RightOf(s);
    PointPlace(s, |s|);
    RightPlace(s, |s|);
    if s != "" {
      assert |t| == if dot <= right then right else right + 1;
      forall k | 0 <= k < |t|
        ensures t[k] == u[k]
      {
        UndottedAt(s, k);
        if dot <= right { TrimmedAt(s, k); }
      }
      forall i | |t| <= i < |u| && i >= SignLength(s)
        ensures u[i] == '0'
      {
        UndottedAt(s, i);
        assert s[Place(s, i)] == '.' || IsDigit(s[Place(s, i)]);
      }
    }
  }

  lemma {:induction false} TrimmedDigits(s: string)
    requires WellFormedText(s)
    ensures var u, t, n := Undotted(s), Trimmed(s), SignLength(s);
            && n <= |t| <= |u| && SignLength(t) == n && AllDigits(t[n..])
            && DigitsValue(u[n..]) == Scale(DigitsValue(t[n..]), |u| - |t|)
            && Signed(t, DigitsValue(t[n..])) == Signed(s, DigitsValue(t[n..]))
  {
    var u, t, n := Undotted(s), Trimmed(s), SignLength(s);
    TrimmedPrefix(s);
    UndottedSign(s);
    PointPlace(s, |s|);
    assert t != "" ==> t[0] == u[0];
    assert n == 0 && t != "" ==> IsDigit(u[n..][0]);
    assert n <= |t|;
    CutZeros(u, |t|, n);
  }

  lemma {:induction false} CutZeros(u: string, k: nat, n: nat)
    requires n <= k <= |u| && forall i | k <= i < |u| :: u[i] == '0'
    ensures DigitsValue(u[n..]) == Scale(DigitsValue(u[..k][n..]), |u| - k)
  {
    assert u[n..][..k - n] == u[..k][n..];
    forall i | k - n <= i < |u[n..]|
      ensures u[n..][i] == '0'
    {
      assert u[n..][i] == u[n + i];
    }
    DigitsValueZeros(u[n..], k - n);
  }

  lemma {:induction false} TrimmedReads(s: string)
    requires WellFormedText(s)
    ensures StrToLL(Trimmed(s)) == Saturated(TrimmedValue(s))
    ensures Scale(TrimmedValue(s), |Undotted(s)| - |Trimmed(s)|) == Denoted(s)
  {
    var u, t, n := Undotted(s), Trimmed(s), SignLength(s);
    TrimmedDigits(s);
    UndottedSign(s);
    FullRun(t[n..]);
    assert t[n..][..|t| - n] == t[n..];
    ScaleOne(DigitsValue(t[n..]), 0, |u| - |t|);
  }

  lemma {:induction false} LastKept(s: string)
    requires WellFormedText(s) && Trimmed(s) != "" && RightOf(s) > 0
    ensures var c := Trimmed(s)[|Trimmed(s)| - 1]; IsDigit(c) && c != '0'
  {
    var t, right := Trimmed(s), RightOf(s);
    RightPlace(s, |s|);
    PointPlace(s, |s|);
    TrimmedPrefix(s);
    UndottedAt(s, |t| - 1);
    assert Place(s, |t| - 1) == right;
  }

  /** What is kept ends in a digit other than zero, unless it is zero altogether. */
  lemma {:induction false} TrimmedLast(s: string)
    requires WellFormedText(s)
    ensures TrimmedValue(s) == 0 || TrimmedValue(s) % 10 != 0
  {
    var t, n := Trimmed(s), SignLength(s);
    TrimmedDigits(s);
    if |t| > n {
      if RightOf(s) > 0 { LastKept(s); }
      LastOf(t[n..], RightOf(s), t[|t| - 1]);
    }
  }

  lemma {:induction false} LastOf(v: string, right: nat, c: char)
    requires v != "" && AllDigits(v) && v[|v| - 1] == c && (right == 0 ==> |v| == 1) && (right > 0 ==> c != '0')
    ensures DigitsValue(v) == 0 || (DigitsValue(v) % 10 != 0 && (0 - DigitsValue(v)) % 10 != 0)
  {
    if right > 0 {
      LastDigit(v);
    } else {
      OneDigit(v);
    }
  }

  lemma {:induction false} OneDigit(v: string)
    requires |v| == 1 && AllDigits(v)
    ensures 0 <= DigitsValue(v) < 10
  {
    assert v[..0] == "";
  }

  lemma {:induction false} LastDigit(v: string)
    requires v != "" && AllDigits(v)
    ensures Digit(v[|v| - 1]) != 0 ==> DigitsValue(v) % 10 != 0 && (0 - DigitsValue(v)) % 10 != 0
  {
  }

  /** Mantissa and exponent denote what the text does, both scaled by the digits behind the point. */
  predicate Exact(v: FieldValue, s: string) {
    v.exponent + Fraction(s) >= 0 && Scale(v.num, v.exponent + Fraction(s)) == Denoted(s)
  }

  predicate CanonicalDecimal(v: FieldValue) { v.num % 10 != 0 || (v.num == 0 && v.exponent == 0) }

  /** Parsing is exact exactly when the digits that are kept fit 64 bits, and then canonical. */
  lemma {:induction false} ParseExact(s: string)
    requires WellFormedText(s)
    ensures Parse(s).Some?
    ensures Exact(Parse(s).value, s) <==> InRange(Int64, TrimmedValue(s))
    ensures Exact(Parse(s).value, s) ==> CanonicalDecimal(Parse(s).value)
  {
    var m, v, x := StrToLL(Trimmed(s)), Parse(s).value, TrimmedValue(s);
    TrimmedReads(s);
    TrimmedPrefix(s);
    TrimmedLast(s);
    var z := |Undotted(s)| - |Trimmed(s)|;
    ScaleSize(x, z);
    if x == 0 {
      ScaleSize(0, Fraction(s));
    } else {
      assert s != "" && v.exponent + Fraction(s) == z;
      ScaleOne(m, x, z);
    }
  }
}
