/** Decimal values as text: the printer, and that the parser reads its text back. */
module DecimalPrinting {
  import opened Fields
  import opened Decimals

  const MAX_MANT := 21
  const MAX_EXPT := 10

  function DigitChar(d: nat): (c: char)
    requires d < 10
    ensures IsDigit(c) && Digit(c) == d
  {
    d as char + '0'
  }

  /** %d of a number that is not negative. */
  function Numeral(n: nat): (s: string)
    ensures s != ""
  {
    (if n < 10 then "" else Numeral(n / 10)) + [DigitChar(n % 10)]
  }

  function Zeros(n: nat): string { seq(n, _ => '0') }

  function Minus(mant: int): string { if mant < 0 then "-" else "" }

  function Abs(x: int): nat { if x < 0 then -x else x }

  /** %d, and %u of a number that is not negative. */
  function NumberText(x: int): string { Minus(x) + Numeral(Abs(x)) }

  /** The text of mant * 10^expt; no text for larger exponents, and always the same one for exponent zero. */
  function Printed(expt: int, mant: int): Option<string> {
    var ds := Numeral(Abs(mant));
    if expt == 0 then Some("1")
    else if expt < -MAX_EXPT || expt > MAX_EXPT then None
    else if expt > 0 then Some(Minus(mant) + ds + Zeros(expt))
    else if |ds| > -expt then Some(Minus(mant) + ds[..|ds| + expt] + "." + ds[|ds| + expt..])
    else Some(Minus(mant) + "." + Zeros(-expt - |ds|) + ds)
  }

  /** The text of a fraction fits the printer's buffers: at most eleven digits in front of the point, and no more than
      twenty characters in all. That also keeps out the one mantissa that cannot be negated. */
  predicate Fits(expt: int, mant: int) {
    -MAX_EXPT <= expt < 0 ==>
      var bound := Scale(1, MAX_EXPT + 1 - expt);
      -Scale(1, 18) < mant < bound && -mant < bound
  }

  // ---------- the printer ----------

  /** sprintf, as long as the text and its terminator fit. */
  method Sprintf(buf: array<char>, s: string) returns (ok: bool, len: nat)
    modifies buf
    ensures ok <==> |s| < buf.Length
    ensures len == |s| && (ok ==> buf[..len] == s && buf[len] == '\0')
  {
    len := |s|;
    if |s| >= buf.Length { return false, len; }
    forall k | 0 <= k < |s| { buf[k] := s[k]; }
    buf[len] := '\0';
    ok := true;
  }

  method GenZeros(n: nat) returns (zeros: array<char>)
    requires n <= MAX_EXPT
    ensures fresh(zeros) && zeros.Length == MAX_EXPT + 1 && zeros[..n] == Zeros(n) && zeros[n] == '\0'
  {
    zeros := new char[MAX_EXPT + 1];
    var i := 0;
    while i < n
      invariant 0 <= i <= n && zeros[..i] == Zeros(i)
    {
      zeros[i] := '0';
      i := i + 1;
    }
    zeros[i] := '\0';
  }

  /** What stands in front of the point, as long as it fits, and what is behind it up to the terminator. */
  method SplitAt(result: array<char>, len: nat, point: nat)
    returns (ok: bool, left: array<char>, right: array<char>, r: nat)
    requires result.Length == MAX_MANT && len < MAX_MANT && point <= len
    requires result[len] == '\0' && forall k | 0 <= k < len :: result[k] != '\0'
    ensures fresh(left) && fresh(right) && left.Length == MAX_EXPT + 2 && right.Length == MAX_MANT
    ensures ok <==> point < left.Length
    ensures ok ==> left[..point] == result[..point] && r == len - point && right[..r] == result[point..len]
  {
    left := new char[MAX_EXPT + 2];
    right := new char[MAX_MANT];
    r := 0;
    var i := 0;
    while i < point
      invariant 0 <= i <= point && i <= left.Length && left[..i] == result[..i]
    {
      if i >= left.Length { return false, left, right, r; }
      left[i] := result[i];
      i := i + 1;
    }
    if i >= left.Length { return false, left, right, r; }
    left[i] := '\0';
    ok := true;
    assert left[..point] == result[..point];
    r, i := 0, point;
    while i < MAX_MANT
      invariant point <= i <= len && r == i - point && right[..r] == result[point..i]
      invariant left[..point] == result[..point]
      decreases MAX_MANT - i
    {
      right[r] := result[i];
      if result[i] == '\0' { break; }
      i, r := i + 1, r + 1;
    }
  }

  predicate Holds(buf: array<char>, len: nat, s: string)
    reads buf
  {
    len == |s| < buf.Length && buf[..len] == s && buf[len] == '\0' && forall k | 0 <= k < |s| :: s[k] != '\0'
  }

  /** The point goes into the middle of the digits. */
  method PrintMiddle(result: array<char>, len: nat, point: nat, neg: string, ghost ds: string)
    returns (ok: bool, text: string)
    requires result.Length == MAX_MANT && Holds(result, len, ds) && 0 < point <= len
    modifies result
    ensures ok <==> point < MAX_EXPT + 2 && |neg| + len + 1 < MAX_MANT
    ensures ok ==> text == neg + ds[..point] + "." + ds[point..]
  {
    text := "";
    assert forall k | 0 <= k < len :: result[..len][k] == ds[k];
    var left, right, r, n;
    ok, left, right, r := SplitAt(result, len, point);
    if !ok { return; }
    assert result[point..len] == result[..len][point..] && result[..point] == result[..len][..point];
    ok, n := Sprintf(result, neg + left[..point] + "." + right[..r]);
    if !ok { return; }
    text := result[..n];
  }

  /** The point goes to the left of the digits, with zeros in between. */
  method PrintLeft(result: array<char>, len: nat, zeros: nat, neg: string, ghost ds: string)
    returns (ok: bool, text: string)
    requires result.Length == MAX_MANT && Holds(result, len, ds) && zeros <= MAX_EXPT
    modifies result
    ensures ok <==> |neg| + 1 + zeros + len < MAX_MANT
    ensures ok ==> text == neg + "." + Zeros(zeros) + ds
  {
    text := "";
    var pad := GenZeros(zeros);
    var right := new char[MAX_MANT];
    var n;
    ok, n := Sprintf(right, neg + "." + pad[..zeros] + result[..len]);
    if !ok { return; }
    ok, n := Sprintf(result, right[..n]);
    text := result[..n];
  }

  /** The %d conversion of a mantissa that is not negative. */
  method MantissaDigits(m: nat) returns (ds: string)
    requires m < 0x8000_0000_0000_0000
    ensures ds == Numeral(m) && |ds| <= 19 && forall k | 0 <= k < |ds| :: ds[k] != '\0'
  {
    ds := Numeral(m);
    Int64Digits(m);
    NumeralDigits(m);
    assert forall k | 0 <= k < |ds| :: IsDigit(ds[k]);
  }

  lemma {:induction false} FitsBuffers(k: int, mant: int)
    requires 1 <= k <= MAX_EXPT && -0x8000_0000_0000_0000 < mant < 0x8000_0000_0000_0000
    ensures var len: int := |Numeral(Abs(mant))|;
            Fits(-k, mant) <==> if len > k then len - k < MAX_EXPT + 2 && |Minus(mant)| + len + 1 < MAX_MANT
                                else |Minus(mant)| + 1 + k < MAX_MANT
  {
    NumeralLength(Abs(mant), k);
    NumeralLength(Abs(mant), k + MAX_EXPT + 1);
    NumeralLength(Abs(mant), 18);
    NumeralLength(Abs(mant), 19);
    Powers();
    ScaleGrows(k, 18);
    ScaleGrows(k, k + MAX_EXPT + 1);
  }

  method PrintFraction(k: int, mant: int) returns (ok: bool, text: string)
    requires 1 <= k <= MAX_EXPT && InRange(Int64, mant)
    ensures ok <==> Fits(-k, mant)
    ensures ok ==> Some(text) == Printed(-k, mant)
  {
    text := "";
    var result := new char[MAX_MANT];
    var neg, m: int := "", mant;
    if mant < 0 {
      if mant == -0x8000_0000_0000_0000 {
        Powers();
        return false, text;
      }
      m := (-1) * m;
      neg := "-";
    }
    FitsBuffers(k, mant);
    var ds := MantissaDigits(m);
    assert ds == Numeral(Abs(mant)) && neg == Minus(mant);
    var len;
    ok, len := Sprintf(result, ds);
    var point: int := len - k;
    if point > 0 {
      ok, text := PrintMiddle(result, len, point, neg, ds);
    } else {
      ok, text := PrintLeft(result, len, (-1) * point, neg, ds);
    }
  }

  /** to_decimal; it fails where the C code would write past a buffer or negate the smallest mantissa. */
  method ToDecimal(expt: int, mant: int) returns (ok: bool, text: Option<string>)
    requires InRange(Int64, mant)
    ensures ok <==> Fits(expt, mant)
    ensures ok ==> text == Printed(expt, mant)
  {
    if expt == 0 { return true, Some("1"); }
    if expt < -MAX_EXPT || expt > MAX_EXPT { return true, None; }
    if expt < 0 {
      var t;
      ok, t := PrintFraction(-expt, mant);
      return ok, Some(t);
    }
    var zeros := GenZeros(expt);
    ok, text := true, Some(Minus(mant) + Numeral(Abs(mant)) + zeros[..expt]);
  }

  // ---------- numerals ----------

  lemma {:induction false} DigitsSnoc(s: string, c: char)
    requires AllDigits(s) && IsDigit(c)
    ensures AllDigits(s + [c]) && DigitsValue(s + [c]) == DigitsValue(s) * 10 + Digit(c)
  {
    assert (s + [c])[..|s|] == s;
  }

  lemma {:induction false} NumeralDigits(n: nat)
    ensures AllDigits(Numeral(n)) && DigitsValue(Numeral(n)) == n
  {
    if n >= 10 {
      NumeralDigits(n / 10);
      DigitsSnoc(Numeral(n / 10), DigitChar(n % 10));
    } else {
      DigitsSnoc("", DigitChar(n % 10));
    }
  }

  /** A minus sign or none, then digits that say this number. */
  predicate ReadsAs(s: string, x: int) {
    var digits := s[SignLength(s)..];
    digits != "" && AllDigits(digits) && Signed(s, DigitsValue(digits)) == x
  }

  lemma {:induction false} NumberReads(x: int)
    ensures ReadsAs(NumberText(x), x)
  {
    var digits := Numeral(Abs(x));
    NumeralDigits(Abs(x));
    assert NumberText(x)[|Minus(x)|..] == digits;
    assert IsDigit(digits[0]);
  }

  lemma {:induction false} NumeralLength(n: nat, k: nat)
    requires k > 0
    ensures |Numeral(n)| <= k <==> n < Scale(1, k)
  {
    if n >= 10 {
      if k > 1 { NumeralLength(n / 10, k - 1); }
    } else {
      ScaleGrows(1, k);
    }
  }

  lemma {:induction false} ScaleGrows(a: nat, b: nat)
    requires a <= b
    ensures Scale(1, a) <= Scale(1, b)
  {
    if a < b {
      ScaleGrows(a, b - 1);
      ScaleSize(1, b - 1);
    }
  }

  lemma {:induction false} Powers()
    ensures Scale(1, 18) == 1_000_000_000_000_000_000 && Scale(1, 19) == 10_000_000_000_000_000_000
  {
    assert Scale(1, 5) == 100000;
    assert Scale(1, 10) == 10000000000;
    assert Scale(1, 15) == 1000000000000000;
  }

  lemma {:induction false} Int64Digits(n: nat)
    requires n < 0x8000_0000_0000_0000
    ensures |Numeral(n)| <= 19
  {
    Powers();
    NumeralLength(n, 19);
  }

  // ---------- what the printed text denotes ----------

  lemma {:induction false} NoPoint(s: string)
    requires forall i | 0 <= i < |s| :: s[i] != '.'
    ensures PointOf(s) == |s|
  {
    PointPlace(s, |s|);
  }

  /** The pair (x, f) when the text stands for x / 10^f. */
  function Meaning(s: string): Option<(int, nat)> {
    if WellFormedText(s) then Some((Denoted(s), Fraction(s))) else None
  }

  /** A sign or none, digits, a point, digits. */
  predicate Pointed(s: string, k: nat) {
    k < |s| && SignLength(s) <= k && s[k] == '.' && forall i | SignLength(s) <= i < |s| && i != k :: IsDigit(s[i])
  }

  lemma {:induction false} PointedText(s: string, k: nat, ds: string, x: int)
    requires Pointed(s, k) && s[SignLength(s)..k] + s[k + 1..] == ds && x == Signed(s, DigitsValue(ds))
    ensures Meaning(s) == Some((x, |s| - 1 - k))
  {
    var n := SignLength(s);
    PointPlace(s, |s|);
    assert LastPoint(s, |s|) == k && Accepted(s);
    assert Undotted(s) == s[..k] + s[k + 1..];
    assert Undotted(s)[n..] == s[n..k] + s[k + 1..];
    UndottedSign(s);
  }

  lemma {:induction false} PlainText(s: string)
    requires forall i | SignLength(s) <= i < |s| :: IsDigit(s[i])
    ensures Meaning(s) == Some((Signed(s, DigitsValue(s[SignLength(s)..])), 0))
  {
    NoPoint(s);
  }

  lemma {:induction false} LeadingZeros(n: nat, s: string)
    requires AllDigits(s)
    ensures AllDigits(Zeros(n) + s) && DigitsValue(Zeros(n) + s) == DigitsValue(s)
  {
    var t := Zeros(n) + s;
    if s != "" {
      LeadingZeros(n, s[..|s| - 1]);
      assert t[..|t| - 1] == Zeros(n) + s[..|s| - 1];
    } else if n > 0 {
      LeadingZeros(n - 1, s);
      assert t[..|t| - 1] == Zeros(n - 1) + s;
    }
  }

  lemma {:induction false} TrailingZeros(s: string, n: nat)
    requires AllDigits(s)
    ensures AllDigits(s + Zeros(n)) && DigitsValue(s + Zeros(n)) == Scale(DigitsValue(s), n)
  {
    DigitsValueZeros(s + Zeros(n), |s|);
    assert (s + Zeros(n))[..|s|] == s;
  }

  lemma {:induction false} WholeMeaning(mant: int, a: string, s: string, x: int)
    requires AllDigits(a) && a != "" && s == Minus(mant) + a && x == Signed(Minus(mant), DigitsValue(a))
    ensures Meaning(s) == Some((x, 0))
  {
    var n := |Minus(mant)|;
    assert forall i | n <= i < |s| :: s[i] == a[i - n];
    assert SignLength(s) == n && s[n..] == a;
    PlainText(s);
  }

  lemma {:induction false} PointShape(mant: int, a: string, b: string, s: string)
    requires AllDigits(a) && AllDigits(b) && s == Minus(mant) + a + "." + b
    ensures var k := |Minus(mant)| + |a|;
            && SignLength(s) == |Minus(mant)| && Pointed(s, k) && s[SignLength(s)..k] + s[k + 1..] == a + b
            && k + 1 + |b| == |s| && Signed(s, Abs(mant)) == mant
  {
    var n, k := |Minus(mant)|, |Minus(mant)| + |a|;
    assert forall i | n <= i < k :: s[i] == a[i - n];
    assert s[k] == '.';
    assert forall i | k < i < |s| :: s[i] == b[i - k - 1];
  }

  lemma {:induction false} PointMeaning(mant: int, a: string, b: string, ds: string, s: string, f: nat)
    requires AllDigits(a) && AllDigits(b) && s == Minus(mant) + a + "." + b
    requires a + b == ds && |b| == f && DigitsValue(ds) == Abs(mant)
    ensures Meaning(s) == Some((mant, f))
  {
    var k := |Minus(mant)| + |a|;
    PointShape(mant, a, b, s);
    assert s[SignLength(s)..k] + s[k + 1..] == ds && |s| - 1 - k == f;
    PointedText(s, k, ds, mant);
  }

  /** The text denotes mant * 10^expt, scaled to an integer. */
  lemma {:induction false} PrintedWhole(expt: nat, mant: int, s: string)
    requires 0 < expt && s == Minus(mant) + Numeral(Abs(mant)) + Zeros(expt)
    ensures Meaning(s) == Some((Scale(mant, expt), 0))
  {
    var ds := Numeral(Abs(mant));
    NumeralDigits(Abs(mant));
    TrailingZeros(ds, expt);
    ScaleOne(Abs(mant), 0, expt);
    WholeMeaning(mant, ds + Zeros(expt), s, Scale(mant, expt));
  }

  lemma {:induction false} PrintedMiddle(k: nat, mant: int, ds: string, s: string)
    requires ds == Numeral(Abs(mant)) && k < |ds| && s == Minus(mant) + ds[..|ds| - k] + "." + ds[|ds| - k..]
    ensures Meaning(s) == Some((mant, k))
  {
    NumeralDigits(Abs(mant));
    Halves(ds, k);
    PointMeaning(mant, ds[..|ds| - k], ds[|ds| - k..], ds, s, k);
  }

  lemma {:induction false} PrintedLeft(k: nat, mant: int, ds: string, s: string)
    requires ds == Numeral(Abs(mant)) && k >= |ds| && s == Minus(mant) + "." + Zeros(k - |ds|) + ds
    ensures Meaning(s) == Some((mant, k))
  {
    var b := PaddedNumeral(k, Abs(mant));
    Joined(Minus(mant), Zeros(k - |ds|), ds);
    PointMeaning(mant, "", b, b, s, k);
  }

  lemma {:induction false} Joined(a: string, b: string, c: string)
    ensures a + "." + b + c == a + "" + "." + (b + c) && "" + (b + c) == b + c
  {
  }

  lemma {:induction false} Halves(ds: string, k: nat)
    requires k <= |ds| && AllDigits(ds)
    ensures ds[..|ds| - k] + ds[|ds| - k..] == ds && AllDigits(ds[..|ds| - k]) && AllDigits(ds[|ds| - k..])
  {
  }

  lemma {:induction false} PaddedNumeral(k: nat, n: nat) returns (b: string)
    requires k >= |Numeral(n)|
    ensures b == Zeros(k - |Numeral(n)|) + Numeral(n)
    ensures |b| == k && AllDigits(b) && DigitsValue(b) == n
  {
    NumeralDigits(n);
    LeadingZeros(k - |Numeral(n)|, Numeral(n));
    b := Zeros(k - |Numeral(n)|) + Numeral(n);
  }

  lemma {:induction false} FractionDenotes(k: nat, mant: int, s: string)
    requires 1 <= k <= MAX_EXPT
    requires var ds := Numeral(Abs(mant));
             s == if |ds| > k then Minus(mant) + ds[..|ds| - k] + "." + ds[|ds| - k..]
                  else Minus(mant) + "." + Zeros(k - |ds|) + ds
    ensures Meaning(s) == Some((mant, k))
  {
    var ds := Numeral(Abs(mant));
    if |ds| > k {
      PrintedMiddle(k, mant, ds, s);
    } else {
      PrintedLeft(k, mant, ds, s);
    }
  }

  /** What a printed text denotes: an integer, or one over a power of ten. */
  function Denotation(expt: int, mant: int): (int, nat) { if expt > 0 then (Scale(mant, expt), 0) else (mant, -expt) }

  lemma {:induction false} PrintedDenotes(expt: int, mant: int, s: string)
    requires expt != 0 && -MAX_EXPT <= expt <= MAX_EXPT && Printed(expt, mant) == Some(s)
    ensures Meaning(s) == Some(Denotation(expt, mant))
  {
    if expt > 0 {
      PrintedWhole(expt, mant, s);
    } else {
      FractionDenotes(-expt, mant, s);
    }
  }

  // ---------- printing, then parsing ----------

  /** m * 10^e and m' * 10^e' are the same number. */
  predicate SameNumber(m: int, e: int, m': int, e': int) {
    if e <= e' then m == Scale(m', e' - e) else m' == Scale(m, e - e')
  }

  /** Common powers of ten can be dropped. */
  lemma {:induction false} Scaled(m: int, a: nat, m': int, b: nat)
    requires Scale(m, a) == Scale(m', b)
    ensures SameNumber(m, a, m', b)
  {
    if a <= b {
      ScaleSum(m', b - a, a);
      ScaleOne(m, Scale(m', b - a), a);
    } else {
      ScaleSum(m, a - b, b);
      ScaleOne(m', Scale(m, a - b), b);
    }
  }

  lemma {:induction false} SameShifted(m: int, a: int, m': int, b: int, f: int)
    requires SameNumber(m, a + f, m', b + f)
    ensures SameNumber(m, a, m', b)
  {
  }

  /** The last digit decides: a number has one canonical form. */
  lemma {:induction false} CanonicalUnique(v: FieldValue, w: FieldValue)
    requires CanonicalDecimal(v) && CanonicalDecimal(w) && SameNumber(v.num, v.exponent, w.num, w.exponent)
    ensures v.num == w.num && v.exponent == w.exponent
  {
    if v.exponent < w.exponent {
      ScaleSize(w.num, w.exponent - v.exponent);
    } else if v.exponent > w.exponent {
      ScaleSize(v.num, v.exponent - w.exponent);
    }
  }

  /** What is kept of the printed text is no longer than the mantissa it came from. */
  lemma {:induction false} TrimmedFits(s: string, mant: int, g: nat)
    requires WellFormedText(s) && InRange(Int64, mant) && Denoted(s) == Scale(mant, g)
    ensures InRange(Int64, TrimmedValue(s))
  {
    var x, z := TrimmedValue(s), |Undotted(s)| - |Trimmed(s)|;
    TrimmedPrefix(s);
    TrimmedReads(s);
    TrimmedLast(s);
    Scaled(x, z, mant, g);
    if z < g {
      ScaleSize(mant, g - z);
    } else {
      ScaleSize(x, z - g);
    }
  }

  predicate Recovers(v: Option<FieldValue>, mant: int, expt: int) {
    v.Some? && CanonicalDecimal(v.value) && SameNumber(v.value.num, v.value.exponent, mant, expt)
  }

  /** Parsing a text that denotes an integer over, or times, a power of ten. */
  lemma {:induction false} ParseDenoted(s: string, f: nat, mant: int, g: nat)
    requires Meaning(s) == Some((Scale(mant, g), f)) && InRange(Int64, mant)
    ensures Recovers(Parse(s), mant, g - f)
  {
    assert WellFormedText(s) && Denoted(s) == Scale(mant, g) && Fraction(s) == f;
    TrimmedFits(s, mant, g);
    ParseExact(s);
    SameDenoted(Parse(s).value, s, mant, g);
  }

  lemma {:induction false} SameDenoted(v: FieldValue, s: string, mant: int, g: nat)
    requires Exact(v, s) && Denoted(s) == Scale(mant, g)
    ensures SameNumber(v.num, v.exponent, mant, g - Fraction(s))
  {
    Scaled(v.num, v.exponent + Fraction(s), mant, g);
    SameShifted(v.num, v.exponent, mant, g - Fraction(s), Fraction(s));
  }

  /** Within the printer's buffers, a text is printed exactly for small exponents, and whenever that is not zero the
      parser finds the same number in it, in canonical form. */
  lemma {:induction false} PrintThenParse(expt: int, mant: int)
    requires InRange(Int64, mant) && Fits(expt, mant)
    ensures Printed(expt, mant).Some? <==> -MAX_EXPT <= expt <= MAX_EXPT
    ensures Printed(expt, mant).Some? && expt != 0 ==> Recovers(Parse(Printed(expt, mant).value), mant, expt)
  {
    if expt != 0 && -MAX_EXPT <= expt <= MAX_EXPT {
      var s := Printed(expt, mant).value;
      PrintedDenotes(expt, mant, s);
      ParseDenoted(s, if expt > 0 then 0 else -expt, mant, if expt > 0 then expt else 0);
    }
  }

  /** What the printer makes of a decimal, when it keeps to its buffers and prints at all, and the parser of that
      text. */
  predicate PrintedAndParsed(expt: int, mant: int, v: FieldValue) {
    Fits(expt, mant) && Printed(expt, mant).Some? && Parse(Printed(expt, mant).value) == Some(v)
  }

  /** A canonical decimal is printed and read back as itself exactly when its exponent is small, its text fits the
      printer's buffers, and its exponent is not zero - that is always printed as 1 - or it is 1. */
  lemma {:induction false} CanonicalRoundTrip(v: FieldValue)
    requires CanonicalDecimal(v) && v.bytes == [] && InRange(Int64, v.num)
    ensures PrintedAndParsed(v.exponent, v.num, v) <==>
              -MAX_EXPT <= v.exponent <= MAX_EXPT && Fits(v.exponent, v.num) && (v.exponent != 0 || v.num == 1)
  {
    if v.exponent == 0 {
      OneReads();
    } else if Fits(v.exponent, v.num) {
      PrintThenParse(v.exponent, v.num);
      if -MAX_EXPT <= v.exponent <= MAX_EXPT {
        CanonicalUnique(Parse(Printed(v.exponent, v.num).value).value, v);
      }
    }
  }

  lemma {:induction false} OneReads()
    ensures Parse("1") == Some(FieldValue(1, 0, []))
  {
    PlainText("1");
    OneDigit("1");
    ParseExact("1");
    NoPoint("1");
    assert Undotted("1") == "1" && Trimmed("1") == "1";
    TrimmedReads("1");
  }
}
