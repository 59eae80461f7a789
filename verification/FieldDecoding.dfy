/** Every integer or string field that was sent legally is received as it was meant, whatever the operator
    and whichever form was used, and the two dictionaries stay equal. */
module FieldDecoding {
  import opened StopBit
  import opened Decode
  import opened Encode
  import opened PresenceMap
  import opened Fields
  import opened Dictionary
  import opened Reader
  import opened Dissection
  import opened Sender

  /** The wire form lies ahead of the position: its bytes next, its bits next in the presence map, which goes on with
      zeros beyond its end. */
  predicate Ahead(p: Pos, w: Wire, rest: seq<byte>) {
    p.bytes == w.bytes + rest && BitsAhead(p, w.bits)
  }

  predicate BitsAhead(p: Pos, bits: seq<bool>) {
    p.idx <= |p.pmap| && forall k | 0 <= k < |bits| :: bits[k] == BitAt(p.pmap, p.idx + k)
  }

  /** The position so many bits further on in its presence map, at the map's end at the latest. */
  function AfterBits(p: Pos, k: nat): Pos {
    if p.idx >= |p.pmap| then p else p.(idx := if p.idx + k <= |p.pmap| then p.idx + k else |p.pmap|)
  }

  /** The position once exactly that has been consumed. */
  function After(p: Pos, w: Wire, rest: seq<byte>): Pos {
    Pos(p.offset + |w.bytes|, rest, p.pmap, AfterBits(p, |w.bits|).idx)
  }

  lemma {:induction false} NextBit(p: Pos, b: bool)
    requires BitsAhead(p, [b])
    ensures ShiftPmap(p) == (b, AfterBits(p, 1))
  {
    assert [b][0] == BitAt(p.pmap, p.idx);
  }

  lemma {:induction false} NextIs(p: Pos, s: seq<byte>, rest: seq<byte>)
    requires IsStopBit(s) && p.bytes == s + rest
    ensures p.Next() == s && p.SkipNext() == Pos(p.offset + |s|, rest, p.pmap, p.idx)
  {
    CountStopDelimits(s, rest);
  }

  // ---------- reading back one value ----------

  lemma {:induction false} InRangeLength(w: Width, x: int)
    ensures 0 <= x < w.Modulus() ==> |EncodeUnsigned(x)| <= w.MaxBytes()
    ensures -w.Half() <= x < w.Half() ==> |EncodeSigned(x)| <= w.MaxBytes()
  {
    Pow128Values();
    if 0 <= x < w.Modulus() { UnsignedLength(x, w.MaxBytes()); }
    if -w.Half() <= x < w.Half() { SignedLength(x, w.MaxBytes()); }
  }

  lemma {:induction false} ReadsUnsigned(w: Width, p: Pos, x: nat, rest: seq<byte>, c: Cell)
    requires x < w.Modulus() && p.bytes == EncodeUnsigned(x) + rest
    ensures ReadUnsigned(w, p, c) == Cell(c.status, c.value.(num := x))
    ensures p.SkipNext() == Pos(p.offset + |EncodeUnsigned(x)|, rest, p.pmap, p.idx)
  {
    UnsignedRoundTrip(x);
    NextIs(p, EncodeUnsigned(x), rest);
    InRangeLength(w, x);
  }

  lemma {:induction false} ReadsSigned(w: Width, p: Pos, x: int, rest: seq<byte>, c: Cell)
    requires -w.Half() <= x < w.Half() && p.bytes == EncodeSigned(x) + rest
    ensures ReadSigned(w, p, c) == Cell(c.status, c.value.(num := x)) && !SignedOutOfRange(w, p.Next())
    ensures p.SkipNext() == Pos(p.offset + |EncodeSigned(x)|, rest, p.pmap, p.idx)
  {
    SignedRoundTrip(x);
    NextIs(p, EncodeSigned(x), rest);
    InRangeLength(w, x);
  }

  lemma {:induction false} ReadsInteger(t: Typ, p: Pos, x: int, rest: seq<byte>, c: Cell)
    requires IsInteger(t) && InRange(t, x) && p.bytes == IntegerBytes(t, x) + rest
    ensures ReadInteger(t, p, c) == Cell(c.status, c.value.(num := x))
    ensures p.SkipNext() == Pos(p.offset + |IntegerBytes(t, x)|, rest, p.pmap, p.idx)
  {
    if IsUnsigned(t) { ReadsUnsigned(WidthOf(t), p, x, rest, c); } else { ReadsSigned(WidthOf(t), p, x, rest, c); }
  }

  lemma {:induction false} NoNul(s: seq<byte>)
    requires PlainAscii(s)
    ensures StrLen(s) == |s|
  {
    if s != [] {
      NoNul(s[1..]);
    }
  }

  lemma {:induction false} ReadsAscii(p: Pos, s: seq<byte>, rest: seq<byte>, c: Cell)
    requires PlainAscii(s) && p.bytes == AsciiBytes(s) + rest
    ensures ReadAscii(p, c) == Holding(c, s)
    ensures p.SkipNext() == Pos(p.offset + |AsciiBytes(s)|, rest, p.pmap, p.idx)
  {
    var w := AsciiBytes(s);
    if s == [] {
      assert IsStopBit(w) && StrLen(Unmark(w)) == 0;
    } else {
      AsciiDelimited(s);
      assert Unmark(w) == s;
      NoNul(s);
    }
    NextIs(p, w, rest);
  }

  lemma {:induction false} ReadsString(f: FieldType, p: Pos, s: seq<byte>, rest: seq<byte>, c: Cell)
    requires PlainAscii(s) && p.bytes == StringBytes(f, s) + rest
    ensures ReadAscii(p, c) == Holding(c, s)
    ensures p.SkipNext() == Pos(p.offset + |StringBytes(f, s)|, rest, p.pmap, p.idx)
  {
    if !f.mandatory && s == [] {
      var w := StringBytes(f, s);
      assert IsStopBit(w) && StrLen(Unmark(w)) == 0;
      NextIs(p, w, rest);
    } else {
      ReadsAscii(p, s, rest, c);
    }
  }

  // ---------- null ----------

  /** Only zero encodes as the null byte. */
  lemma {:induction false} NullIsZero(x: int)
    requires x != 0
    ensures x > 0 ==> EncodeUnsigned(x)[0] != 0x80
    ensures EncodeSigned(x)[0] != 0x80
  {
    if x > 0 && x >= 128 {
      assert UnsignedGroups(x)[0] < 128;
    }
    if !(-64 <= x < 64) {
      assert SignedGroups(x)[0] < 128;
    }
  }

  lemma {:induction false} NotNull(f: FieldType, v: FieldValue, d: Local)
    requires LegalField(f, Some(v), false, d) && !f.mandatory && (IsInteger(f.typ) || f.typ.Ascii?)
    ensures FieldBytes(f, Some(v), false, d) != [] && FieldBytes(f, Some(v), false, d)[0] != 0x80
  {
    if f.op.Delta? {
      NullIsZero(Difference(f, d, v));
      SignedRoundTrip(Difference(f, d, v));
    } else if IsInteger(f.typ) {
      NullIsZero(Nullable(f, v.num));
      SignedRoundTrip(Nullable(f, v.num));
      if IsUnsigned(f.typ) { UnsignedRoundTrip(Nullable(f, v.num)); }
    }
  }

  predicate Checked(f: FieldType) { HasBit(f) || (f.op.NoOp? && !f.typ.Group?) || f.op.Delta? }

  /** Looking for an optional field that is there finds it and consumes nothing (constants aside). */
  lemma {:induction false} SeesPresent(f: FieldType, omit: bool, p: Pos, d: Local)
    requires !f.mandatory && Checked(f) && (HasBit(f) ==> BitsAhead(p, [!omit]))
    requires if omit then HasBit(f) else p.bytes != [] && p.bytes[0] != 0x80
    ensures OptionalField(f, p, d, Cell(Empty, BLANK)) == Step(p, d, Cell(Exists, BLANK))
  {
    if HasBit(f) { NextBit(p, !omit); }
  }

  /** Looking for one that was sent as null consumes its bit and the null byte, and stores it as absent. */
  lemma {:induction false} SeesAbsent(f: FieldType, p: Pos, d: Local, rest: seq<byte>)
    requires !f.mandatory && Checked(f) && (HasBit(f) ==> BitsAhead(p, [true])) && p.bytes == NULL + rest
    ensures OptionalField(f, p, d, Cell(Empty, BLANK)) ==
              Step(Pos(p.offset + 1, rest, p.pmap, AfterBits(p, if HasBit(f) then 1 else 0).idx),
                   if f.op.Delta? then d else Store(f, d, None), Cell(Empty, BLANK))
  {
    if HasBit(f) { NextBit(p, true); }
    assert p.bytes[1..] == rest;
  }

  lemma {:induction false} FindsPresent(f: FieldType, v: Option<FieldValue>, omit: bool, d: Local, p: Pos,
                                        rest: seq<byte>)
    requires LegalField(f, v, omit, d) && (v.Some? || omit) && !f.op.Constant? && !f.mandatory
    requires IsInteger(f.typ) || f.typ.Ascii?
    requires Ahead(p, SendField(f, v, omit, d), rest)
    ensures OptionalField(f, p, d, Cell(Empty, BLANK)) == Step(p, d, Cell(Exists, BLANK))
  {
    if !omit {
      NotNull(f, v.value, d);
      assert p.bytes[0] == SendField(f, v, omit, d).bytes[0];
    }
    SeesPresent(f, omit, p, d);
  }

  // ---------- a field that is there ----------

  predicate Received(r: Outcome<Result>, p: Pos, v: Option<FieldValue>) {
    r.Done? && r.value.pos == p && r.value.kids == [] &&
    match v case Some(x) => r.value.cell == Cell(Exists, x) case None => r.value.cell.status == Empty
  }

  /** A position past the bit of a default or copy; the other operators leave their bit to the body. */
  function Past(f: FieldType, p: Pos): Pos { if f.op.Default? || f.op.Copy? then AfterBits(p, 1) else p }

  /** A field whose bit announces an explicit value is read. */
  lemma {:induction false} PassBit(n: Node, p: Pos, d: Local)
    requires WellFormed(n) && !n.f.op.Constant? && (n.f.op.Default? || n.f.op.Copy? ==> BitsAhead(p, [true]))
    ensures Present(n, p, d, Cell(Exists, BLANK)) == Body(n, Past(n.f, p), d, Cell(Exists, BLANK))
  {
    var f, c := n.f, Cell(Exists, BLANK);
    if f.op.Default? || f.op.Copy? { NextBit(p, true); }
    assert Operate(f, p, d, c) == (false, Step(Past(f, p), d, c)) && !CopiesNull(f, p);
  }

  lemma {:induction false} OmittedSettles(n: Node, v: Option<FieldValue>, d: Local, p: Pos)
    requires WellFormed(n) && LegalField(n.f, v, true, d) && (n.f.op.Default? || n.f.op.Copy?) && BitsAhead(p, [false])
    ensures Received(Present(n, p, d, Cell(Exists, BLANK)), AfterBits(p, 1), v)
    ensures Present(n, p, d, Cell(Exists, BLANK)).value.dict == if n.f.op.Copy? then d else Store(n.f, d, v)
  {
    NextBit(p, false);
  }

  lemma {:induction false} OmittedSuccessor(n: Node, v: Option<FieldValue>, d: Local, p: Pos)
    requires WellFormed(n) && Leaf(n) && LegalField(n.f, v, true, d) && n.f.op.Increment? && BitsAhead(p, [false])
    ensures Received(Present(n, p, d, Cell(Exists, BLANK)), AfterBits(p, 1), v)
    ensures Present(n, p, d, Cell(Exists, BLANK)).value.dict == Store(n.f, d, v)
  {
    NextBit(p, false);
    PassBit(n, p, d);
    IntegerOutcome(n, p, d, IntegerBody(n.f, p, d, Cell(Exists, BLANK)));
  }

  lemma {:induction false} OmittedField(n: Node, v: Option<FieldValue>, d: Local, p: Pos, rest: seq<byte>)
    requires WellFormed(n) && Leaf(n) && LegalField(n.f, v, true, d) && HasBit(n.f)
    requires Ahead(p, SendField(n.f, v, true, d), rest)
    ensures Received(Present(n, p, d, Cell(Exists, BLANK)), After(p, SendField(n.f, v, true, d), rest), v)
    ensures Present(n, p, d, Cell(Exists, BLANK)).value.dict == SendField(n.f, v, true, d).dict
  {
    assert p.bytes == rest;
    if n.f.op.Increment? {
      OmittedSuccessor(n, v, d, p);
    } else {
      OmittedSettles(n, v, d, p);
    }
  }

  /** Undoing the shift that made room for null. */
  lemma {:induction false} WrapBack(f: FieldType, x: int)
    requires IsInteger(f.typ) && InRange(f.typ, x)
    ensures var y := Nullable(f, x);
            Wrap(f.typ, y + (if !f.mandatory && (IsUnsigned(f.typ) || 0 < y) then -1 else 0)) == x
  {
  }

  lemma {:induction false} IntegerBodyReads(f: FieldType, p: Pos, q: Pos, v: FieldValue, d: Local, rest: seq<byte>)
    requires IsInteger(f.typ) && Canonical(f.typ, v) && Fits(f, v) && !f.op.Delta? && !f.op.Constant?
    requires if f.op.Increment? then ShiftPmap(p) == (true, q) else p == q
    requires q.bytes == IntegerBytes(f.typ, Nullable(f, v.num)) + rest
    ensures IntegerBody(f, p, d, Cell(Exists, BLANK)) ==
              Step(Pos(q.offset + |IntegerBytes(f.typ, Nullable(f, v.num))|, rest, q.pmap, q.idx), Store(f, d, Some(v)),
                   Cell(Exists, v))
  {
    var c := Cell(Exists, BLANK);
    assert IntOp(f, p, d, c) == IntStep(q, c, 0, true);
    ReadsInteger(f.typ, q, Nullable(f, v.num), rest, c);
    WrapBack(f, v.num);
  }

  /** A field that is there explicitly: its bit if it has one, its bytes, and it is stored. */
  function Explicit(f: FieldType, p: Pos, s: seq<byte>, rest: seq<byte>, d: Local, v: FieldValue): Outcome<Result> {
    var x := ExplicitStep(f, p, s, rest, d, v);
    Done(Result(x.pos, x.dict, x.cell, []))
  }

  /** Where the bytes of a field that is there explicitly begin. */
  function PastBit(f: FieldType, p: Pos): Pos { if HasBit(f) then AfterBits(p, 1) else p }

  /** The step that reading such a field takes from where its operator left the position. */
  function ExplicitStep(f: FieldType, p: Pos, s: seq<byte>, rest: seq<byte>, d: Local, v: FieldValue): Step {
    Step(Pos(p.offset + |s|, rest, p.pmap, AfterBits(p, if HasBit(f) then 1 else 0).idx), Store(f, d, Some(v)),
         Cell(Exists, v))
  }

  lemma {:induction false} IntegerStep(f: FieldType, v: FieldValue, s: seq<byte>, d: Local, p: Pos, rest: seq<byte>)
    requires IsInteger(f.typ) && Canonical(f.typ, v) && Fits(f, v) && !f.op.Delta? && !f.op.Constant?
    requires s == IntegerBytes(f.typ, Nullable(f, v.num)) && p.bytes == s + rest && (HasBit(f) ==> BitsAhead(p, [true]))
    ensures IntegerBody(f, Past(f, p), d, Cell(Exists, BLANK)) == ExplicitStep(f, p, s, rest, d, v)
  {
    if f.op.Increment? { NextBit(p, true); }
    IntegerBodyReads(f, Past(f, p), PastBit(f, p), v, d, rest);
  }

  lemma {:induction false} IntegerOutcome(n: Node, p: Pos, d: Local, s: Step)
    requires WellFormed(n) && IsInteger(n.f.typ) && IntegerBody(n.f, p, d, Cell(Exists, BLANK)) == s
    ensures Body(n, p, d, Cell(Exists, BLANK)) == Done(Result(s.pos, s.dict, s.cell, []))
  {
  }

  lemma {:induction false} IntegerReads(n: Node, v: FieldValue, s: seq<byte>, d: Local, p: Pos, rest: seq<byte>)
    requires WellFormed(n) && IsInteger(n.f.typ) && Canonical(n.f.typ, v) && Fits(n.f, v) && !n.f.op.Delta?
    requires !n.f.op.Constant?
    requires s == IntegerBytes(n.f.typ, Nullable(n.f, v.num)) && p.bytes == s + rest
    requires HasBit(n.f) ==> BitsAhead(p, [true])
    ensures Body(n, Past(n.f, p), d, Cell(Exists, BLANK)) == Explicit(n.f, p, s, rest, d, v)
  {
    IntegerStep(n.f, v, s, d, p, rest);
    IntegerOutcome(n, Past(n.f, p), d, ExplicitStep(n.f, p, s, rest, d, v));
  }

  lemma {:induction false} ExplicitInteger(n: Node, v: FieldValue, s: seq<byte>, d: Local, p: Pos, rest: seq<byte>)
    requires WellFormed(n) && IsInteger(n.f.typ) && Canonical(n.f.typ, v) && Fits(n.f, v) && !n.f.op.Delta?
    requires !n.f.op.Constant?
    requires s == IntegerBytes(n.f.typ, Nullable(n.f, v.num)) && p.bytes == s + rest
    requires HasBit(n.f) ==> BitsAhead(p, [true])
    ensures Present(n, p, d, Cell(Exists, BLANK)) == Explicit(n.f, p, s, rest, d, v)
  {
    IntegerReads(n, v, s, d, p, rest);
    PassBit(n, p, d);
  }

  lemma {:induction false} AsciiBodyReads(f: FieldType, q: Pos, v: FieldValue, d: Local, rest: seq<byte>)
    requires f.typ.Ascii? && Canonical(Ascii, v) && (f.op.NoOp? || f.op.Default? || f.op.Copy?)
    requires q.bytes == StringBytes(f, v.bytes) + rest
    ensures AsciiBody(f, q, d, Cell(Exists, BLANK)) ==
              Done(Step(Pos(q.offset + |StringBytes(f, v.bytes)|, rest, q.pmap, q.idx), Store(f, d, Some(v)),
                        Cell(Exists, v)))
  {
    ReadsString(f, q, v.bytes, rest, Cell(Exists, BLANK));
  }

  lemma {:induction false} StringStep(f: FieldType, v: FieldValue, d: Local, p: Pos, rest: seq<byte>)
    requires f.typ.Ascii? && Canonical(Ascii, v) && (f.op.NoOp? || f.op.Default? || f.op.Copy?)
    requires p.bytes == StringBytes(f, v.bytes) + rest
    ensures AsciiBody(f, Past(f, p), d, Cell(Exists, BLANK)) ==
              Done(ExplicitStep(f, p, StringBytes(f, v.bytes), rest, d, v))
  {
    AsciiBodyReads(f, Past(f, p), v, d, rest);
  }

  lemma {:induction false} AsciiOutcome(n: Node, p: Pos, d: Local, s: Step)
    requires WellFormed(n) && n.f.typ.Ascii? && AsciiBody(n.f, p, d, Cell(Exists, BLANK)) == Done(s)
    ensures Body(n, p, d, Cell(Exists, BLANK)) == Done(Result(s.pos, s.dict, s.cell, []))
  {
  }

  lemma {:induction false} StringReads(n: Node, v: FieldValue, d: Local, p: Pos, rest: seq<byte>)
    requires WellFormed(n) && n.f.typ.Ascii? && Canonical(Ascii, v) && (n.f.op.NoOp? || n.f.op.Default? || n.f.op.Copy?)
    requires p.bytes == StringBytes(n.f, v.bytes) + rest
    ensures Body(n, Past(n.f, p), d, Cell(Exists, BLANK)) == Explicit(n.f, p, StringBytes(n.f, v.bytes), rest, d, v)
  {
    StringStep(n.f, v, d, p, rest);
    AsciiOutcome(n, Past(n.f, p), d, ExplicitStep(n.f, p, StringBytes(n.f, v.bytes), rest, d, v));
  }

  lemma {:induction false} ExplicitString(n: Node, v: FieldValue, d: Local, p: Pos, rest: seq<byte>)
    requires WellFormed(n) && n.f.typ.Ascii? && Canonical(Ascii, v) && (n.f.op.NoOp? || n.f.op.Default? || n.f.op.Copy?)
    requires p.bytes == StringBytes(n.f, v.bytes) + rest && (HasBit(n.f) ==> BitsAhead(p, [true]))
    ensures Present(n, p, d, Cell(Exists, BLANK)) == Explicit(n.f, p, StringBytes(n.f, v.bytes), rest, d, v)
  {
    StringReads(n, v, d, p, rest);
    PassBit(n, p, d);
  }

  lemma {:induction false} DeltaReads(f: FieldType, p: Pos, x: int, rest: seq<byte>, c: Cell)
    requires InRange(Int64, x) && p.bytes == EncodeSigned(x) + rest
    ensures DeltaRead(f, p, c) ==
              IntStep(Pos(p.offset + |EncodeSigned(x)|, rest, p.pmap, p.idx), c,
                      if !f.mandatory && 0 < x then x - 1 else x, false)
  {
    ReadsSigned(W64, p, x, rest, UNSET);
  }

  function Unshifted(f: FieldType, x: int): int { if !f.mandatory && 0 < x then x - 1 else x }

  /** Whatever difference was sent is added to the base. */
  lemma {:induction false} DeltaBodyAt(f: FieldType, b: FieldValue, x: int, d: Local, p: Pos, rest: seq<byte>)
    requires f.op.Delta? && Base(f, d) == Some(b) && InRange(Int64, x) && p.bytes == EncodeSigned(x) + rest
    ensures var c := AddDelta(f.typ, Cell(Exists, b), Unshifted(f, x));
            IntegerBody(f, p, d, Cell(Exists, BLANK)) ==
              Step(Pos(p.offset + |EncodeSigned(x)|, rest, p.pmap, p.idx), SetValue(f, d, c), c)
  {
    DeltaReads(f, p, x, rest, Cell(Exists, b));
    DeltaBase(f, p, d);
  }

  lemma {:induction false} DeltaAdds(f: FieldType, v: FieldValue, d: Local)
    requires IsInteger(f.typ) && LegalField(f, Some(v), false, d) && f.op.Delta?
    ensures AddDelta(f.typ, Cell(Exists, Base(f, d).value), Unshifted(f, Difference(f, d, v))) == Cell(Exists, v)
  {
  }

  /** Adding a sent difference to the base gives the value. */
  lemma {:induction false} DeltaBodyReads(f: FieldType, v: FieldValue, d: Local, p: Pos, rest: seq<byte>)
    requires IsInteger(f.typ) && LegalField(f, Some(v), false, d) && f.op.Delta?
    requires p.bytes == EncodeSigned(Difference(f, d, v)) + rest
    ensures IntegerBody(f, p, d, Cell(Exists, BLANK)) ==
              Step(Pos(p.offset + |EncodeSigned(Difference(f, d, v))|, rest, p.pmap, p.idx), Store(f, d, Some(v)),
                   Cell(Exists, v))
  {
    var b, x := Base(f, d).value, Difference(f, d, v);
    DeltaAdds(f, v, d);
    DeltaBodyAt(f, b, x, d, p, rest);
  }

  lemma {:induction false} DeltaField(n: Node, v: FieldValue, d: Local, p: Pos, rest: seq<byte>)
    requires WellFormed(n) && IsInteger(n.f.typ) && LegalField(n.f, Some(v), false, d) && n.f.op.Delta?
    requires p.bytes == EncodeSigned(Difference(n.f, d, v)) + rest
    ensures Present(n, p, d, Cell(Exists, BLANK)) == Explicit(n.f, p, EncodeSigned(Difference(n.f, d, v)), rest, d, v)
  {
    DeltaBodyReads(n.f, v, d, p, rest);
    PassBit(n, p, d);
  }

  lemma {:induction false} DeltaBase(f: FieldType, p: Pos, d: Local)
    requires f.op.Delta? && Base(f, d).Some?
    ensures IntOp(f, p, d, Cell(Exists, BLANK)) == DeltaRead(f, p, Cell(Exists, Base(f, d).value))
    ensures IntOp(f, p, d, UNSET) == DeltaRead(f, p, Cell(Exists, Base(f, d).value))
    ensures GetValue(f, d, UNSET).1.status.Exists? || GetValue(f, d, UNSET).1.status.Undefined?
  {
  }

  lemma {:induction false} ExplicitField(n: Node, v: FieldValue, d: Local, p: Pos, rest: seq<byte>)
    requires WellFormed(n) && Leaf(n) && LegalField(n.f, Some(v), false, d)
    requires p.bytes == FieldBytes(n.f, Some(v), false, d) + rest && (HasBit(n.f) ==> BitsAhead(p, [true]))
    ensures Present(n, p, d, Cell(Exists, BLANK)) == Explicit(n.f, p, FieldBytes(n.f, Some(v), false, d), rest, d, v)
  {
    if n.f.typ.Ascii? {
      ExplicitString(n, v, d, p, rest);
    } else if n.f.op.Delta? {
      DeltaField(n, v, d, p, rest);
    } else {
      ExplicitInteger(n, v, FieldBytes(n.f, Some(v), false, d), d, p, rest);
    }
  }

  lemma {:induction false} FieldThere(n: Node, v: Option<FieldValue>, omit: bool, d: Local, p: Pos, rest: seq<byte>)
    requires WellFormed(n) && Leaf(n) && LegalField(n.f, v, omit, d) && (v.Some? || omit) && !n.f.op.Constant?
    requires Ahead(p, SendField(n.f, v, omit, d), rest)
    ensures Received(Present(n, p, d, Cell(Exists, BLANK)), After(p, SendField(n.f, v, omit, d), rest), v)
    ensures Present(n, p, d, Cell(Exists, BLANK)).value.dict == SendField(n.f, v, omit, d).dict
  {
    if omit {
      OmittedField(n, v, d, p, rest);
    } else {
      ExplicitField(n, v.value, d, p, rest);
    }
  }

  // ---------- any field ----------

  lemma {:induction false} FieldDecodes(n: Node, v: Option<FieldValue>, omit: bool, d: Local, p: Pos, rest: seq<byte>)
    requires WellFormed(n) && Leaf(n) && LegalField(n.f, v, omit, d)
    requires Ahead(p, SendField(n.f, v, omit, d), rest)
    ensures Received(DissectValue(n, p, d), After(p, SendField(n.f, v, omit, d), rest), v)
    ensures DissectValue(n, p, d).value.dict == SendField(n.f, v, omit, d).dict
  {
    var f := n.f;
    if f.op.Constant? {
      ConstantDecodes(n, v, d, p, rest);
    } else if v.None? && !omit {
      SeesAbsent(f, p, d, rest);
      assert Presence(n, p, d) == OptionalField(f, p, d, Cell(Empty, BLANK));
    } else {
      if !f.mandatory {
        FindsPresent(f, v, omit, d, p, rest);
      }
      assert Presence(n, p, d) == Step(p, d, Cell(Exists, BLANK));
      FieldThere(n, v, omit, d, p, rest);
    }
  }

  lemma {:induction false} ConstantDecodes(n: Node, v: Option<FieldValue>, d: Local, p: Pos, rest: seq<byte>)
    requires WellFormed(n) && Leaf(n) && LegalField(n.f, v, true, d) && n.f.op.Constant?
    requires Ahead(p, SendField(n.f, v, true, d), rest)
    ensures Received(DissectValue(n, p, d), After(p, SendField(n.f, v, true, d), rest), v)
    ensures DissectValue(n, p, d).value.dict == d
  {
    assert p.bytes == rest;
    if !n.f.mandatory {
      NextBit(p, v.Some?);
      assert Presence(n, p, d) == OptionalField(n.f, p, d, Cell(Empty, BLANK));
    }
  }
}
