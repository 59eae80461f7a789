/** What the operators are for: runs of values sent in short forms come back as they were, and where the
    dissector departs from that, exactly when. */
module Operators {
  import opened StopBit
  import opened Decode
  import opened Encode
  import opened Fields
  import opened Dictionary
  import opened Reader
  import opened Dissection
  import opened Sender
  import opened FieldDecoding
  import opened MessageDecoding

  // ---------- runs of integers ----------

  /** One required 32-bit field that keeps its previous value. */
  predicate RunField(n: Node) {
    && WellFormed(n) && (n.f.typ.UInt32? || n.f.typ.Int32?) && n.f.mandatory && n.f.key.Some?
    && (n.f.op.Copy? || n.f.op.Increment? || n.f.op.Delta?)
  }

  /** When a value may be left out: a repeat under copy, a successor (modulo 2^32) under increment. */
  predicate MayOmit(f: FieldType, prev: int, v: int) {
    (f.op.Copy? && v == prev) || (f.op.Increment? && v == Wrap(f.typ, prev + 1))
  }

  predicate Sendable(f: FieldType, vs: seq<int>, omit: seq<bool>) {
    && |omit| == |vs| && (forall i | 0 <= i < |vs| :: InRange(f.typ, vs[i]))
    && forall i | 0 <= i < |vs| :: omit[i] ==> i > 0 && MayOmit(f, vs[i - 1], vs[i])
  }

  /** Before the first value: a delta starts from the initial value or from zero; the others start explicitly. */
  predicate Ready(f: FieldType, d: Local) {
    f.op.Delta? ==> Unset(f, d) && (f.hasDefault ==> Canonical(f.typ, f.value))
  }

  function SendOne(n: Node, v: int, omit: bool, d: Local): Wire
    requires RunField(n)
  {
    if LegalField(n.f, Some(Number(v)), omit, d) then SendField(n.f, Some(Number(v)), omit, d) else Wire([], [], d)
  }

  /** The dictionary after the first i values; both sides have it. */
  function DictAfter(n: Node, vs: seq<int>, omit: seq<bool>, i: nat, d: Local): Local
    requires RunField(n) && i <= |vs| == |omit|
  {
    if i == 0 then d else SendOne(n, vs[i - 1], omit[i - 1], DictAfter(n, vs, omit, i - 1, d)).dict
  }

  lemma {:induction false} OneLegal(n: Node, prev: Option<int>, v: int, omit: bool, d: Local)
    requires RunField(n) && InRange(n.f.typ, v)
    requires match prev
             case None => Ready(n.f, d) && !omit
             case Some(u) =>
               Stored(n.f, d) == Some(Some(Number(u))) && InRange(n.f.typ, u) && (omit ==> MayOmit(n.f, u, v))
    ensures LegalField(n.f, Some(Number(v)), omit, d)
    ensures Stored(n.f, SendOne(n, v, omit, d).dict) == Some(Some(Number(v)))
  {
  }

  lemma {:induction false} RunLegal(n: Node, vs: seq<int>, omit: seq<bool>, i: nat, d: Local)
    requires RunField(n) && Sendable(n.f, vs, omit) && Ready(n.f, d) && i < |vs|
    ensures LegalField(n.f, Some(Number(vs[i])), omit[i], DictAfter(n, vs, omit, i, d))
    ensures Stored(n.f, DictAfter(n, vs, omit, i + 1, d)) == Some(Some(Number(vs[i])))
  {
    if i > 0 {
      RunLegal(n, vs, omit, i - 1, d);
    }
    OneLegal(n, if i == 0 then None else Some(vs[i - 1]), vs[i], omit[i], DictAfter(n, vs, omit, i, d));
  }

  /** The receiver's i-th value, when the earlier ones have gone through its dictionary. */
  function ReceivedAt(n: Node, vs: seq<int>, omit: seq<bool>, i: nat, d: Local): Outcome<Result>
    requires RunField(n) && i < |vs| == |omit|
  {
    var w := SendOne(n, vs[i], omit[i], DictAfter(n, vs, omit, i, d));
    DissectValue(n, Pos(0, w.bytes, w.bits, 0), DictAfter(n, vs, omit, i, d))
  }

  /** Repeats left out, successors left out, differences sent: every run of values arrives unchanged. */
  lemma {:induction false} OperatorRun(n: Node, vs: seq<int>, omit: seq<bool>, i: nat, d: Local)
    requires RunField(n) && Sendable(n.f, vs, omit) && Ready(n.f, d) && i < |vs|
    ensures var r := ReceivedAt(n, vs, omit, i, d);
            && r.Done? && r.value.cell == Cell(Exists, Number(vs[i])) && r.value.pos.bytes == []
            && r.value.dict == DictAfter(n, vs, omit, i + 1, d)
  {
    RunLegal(n, vs, omit, i, d);
    var e := DictAfter(n, vs, omit, i, d);
    var w := SendField(n.f, Some(Number(vs[i])), omit[i], e);
    var p := Pos(0, w.bytes, w.bits, 0);
    assert w.bytes + [] == w.bytes && w.bits[0..|w.bits|] == w.bits;
    FieldDecodes(n, Some(Number(vs[i])), omit[i], e, p, []);
  }

  lemma {:induction false} DeltaHeard(n: Node, b: int, x: int, d: Local, p: Pos, rest: seq<byte>)
    requires WellFormed(n) && IsInteger(n.f.typ) && n.f.mandatory && n.f.op.Delta? && Base(n.f, d) == Some(Number(b))
    requires InRange(Int64, x) && p.bytes == EncodeSigned(x) + rest
    ensures var r := DissectValue(n, p, d);
            r.Done? && r.value.cell == Cell(Exists, Number(Wrap(n.f.typ, b + x))) && r.value.pos.bytes == rest
  {
    DeltaBodyAt(n.f, Number(b), x, d, p, rest);
    PassBit(n, p, d);
    Found(n, p, d);
    IntegerOutcome(n, p, d, IntegerBody(n.f, p, d, Cell(Exists, BLANK)));
  }

  /** A sender may take its differences modulo 2^32 or 2^64. */
  lemma {:induction false} DeltaModulo(n: Node, b: int, v: int, x: int, k: int, d: Local, p: Pos, rest: seq<byte>)
    requires WellFormed(n) && IsInteger(n.f.typ) && n.f.mandatory && n.f.op.Delta? && Base(n.f, d) == Some(Number(b))
    requires InRange(n.f.typ, v) && InRange(Int64, x) && x == v - b + k * WidthOf(n.f.typ).Modulus()
    requires p.bytes == EncodeSigned(x) + rest
    ensures var r := DissectValue(n, p, d);
            r.Done? && r.value.cell == Cell(Exists, Number(v)) && r.value.pos.bytes == rest
  {
    DeltaHeard(n, b, x, d, p, rest);
    WrapModulo(n.f.typ, v, k);
  }

  lemma {:induction false} WrapModulo(t: Typ, v: int, k: int)
    requires IsInteger(t) && InRange(t, v)
    ensures Wrap(t, v + k * WidthOf(t).Modulus()) == v
  {
    var m := WidthOf(t).Modulus();
    ModShift(v, k, m);
    if v < 0 { ModShift(v + m, k - 1, m); }
    assert v + k * m == v + m + (k - 1) * m;
  }

  // ---------- null and the values next to it ----------

  function MaxOf(t: Typ): int
    requires IsInteger(t)
  {
    if IsUnsigned(t) then WidthOf(t).Modulus() - 1 else WidthOf(t).Half() - 1
  }

  predicate Nullables(n: Node) { WellFormed(n) && IsInteger(n.f.typ) && n.f.op.NoOp? && !n.f.mandatory }

  lemma {:induction false} NullRoundTrip(n: Node, d: Local, p: Pos, rest: seq<byte>)
    requires Nullables(n) && p.bytes == NULL + rest
    ensures var r := DissectValue(n, p, d);
            r.Done? && r.value.cell.status == Empty && r.value.pos == Pos(p.offset + 1, rest, p.pmap, p.idx)
  {
    SeesAbsent(n.f, p, d, rest);
    assert Presence(n, p, d) == OptionalField(n.f, p, d, Cell(Empty, BLANK));
  }

  /** An optional integer survives the shift that makes room for null, except the largest one of its type,
      which has nowhere to go. */
  lemma {:induction false} NullableRoundTrip(n: Node, v: int, d: Local, p: Pos, rest: seq<byte>)
    requires Nullables(n) && InRange(n.f.typ, v) && p.bytes == IntegerBytes(n.f.typ, Nullable(n.f, v)) + rest
    ensures var r := DissectValue(n, p, d);
            r.Done? && r.value.pos.bytes == rest && (r.value.cell == Cell(Exists, Number(v)) <==> v < MaxOf(n.f.typ))
  {
    var f, x, c := n.f, Nullable(n.f, v), Cell(Exists, BLANK);
    NullIsZero(x);
    SignedRoundTrip(x);
    if IsUnsigned(f.typ) { UnsignedRoundTrip(x); }
    NextIs(p, IntegerBytes(f.typ, x), rest);
    SeesPresent(f, false, p, d);
    assert Presence(n, p, d) == OptionalField(f, p, d, Cell(Empty, BLANK));
    PassBit(n, p, d);
    Found(n, p, d);
    IntegerOutcome(n, p, d, IntegerBody(f, p, d, c));
    if v < MaxOf(f.typ) {
      IntegerBodyReads(f, p, p, Number(v), d, rest);
    } else {
      LargestRefused(f, v, p, d);
    }
  }

  lemma {:induction false} LargestRefused(f: FieldType, v: int, p: Pos, d: Local)
    requires IsInteger(f.typ) && f.op.NoOp? && !f.mandatory && v == MaxOf(f.typ)
    requires p.Next() == IntegerBytes(f.typ, Nullable(f, v))
    ensures IntegerBody(f, p, d, Cell(Exists, BLANK)).cell.status == Error(2)
    ensures IntegerBody(f, p, d, Cell(Exists, BLANK)).pos == p.SkipNext()
  {
    var x := Nullable(f, v);
    if IsUnsigned(f.typ) { UnsignedRoundTrip(x); } else { SignedRoundTrip(x); }
  }

  // ---------- string deltas ----------

  /** Keep all but the last bytes of the previous string, down to a common prefix of k bytes. */
  function TailCut(prev: seq<byte>, whole: seq<byte>, k: nat): Msg
    requires k <= |prev| && k <= |whole|
  {
    Cut(whole, |prev| - k, whole[k..], false)
  }

  /** Keep the last k bytes; a front cut of s bytes is sent as -(s + 1). */
  function FrontCut(prev: seq<byte>, whole: seq<byte>, k: nat): Msg
    requires k <= |prev| && k <= |whole|
  {
    Cut(whole, -(|prev| - k + 1), whole[..|whole| - k], false)
  }

  predicate CommonPrefix(a: seq<byte>, b: seq<byte>, k: nat) { k <= |a| && k <= |b| && a[..k] == b[..k] }
  predicate CommonSuffix(a: seq<byte>, b: seq<byte>, k: nat) { k <= |a| && k <= |b| && a[|a| - k..] == b[|b| - k..] }

  /** A delta stands for a string exactly when it is the tail cut of a common prefix or the front cut of a common
      suffix. */
  lemma {:induction false} SpliceExact(prev: seq<byte>, whole: seq<byte>, subtract: int, input: seq<byte>)
    ensures Splice(prev, subtract, input) == Some(whole) <==>
              if subtract >= 0 then
                var k := |prev| - subtract;
                k >= 0 && CommonPrefix(prev, whole, k) && Cut(whole, subtract, input, false) == TailCut(prev, whole, k)
              else
                var k := |prev| + subtract + 1;
                k >= 0 && CommonSuffix(prev, whole, k) && Cut(whole, subtract, input, false) == FrontCut(prev, whole, k)
    ensures Splice(prev, subtract, input).None? <==> subtract > |prev| || -(subtract + 1) > |prev|
  {
    if subtract >= 0 {
      TailExact(prev, whole, subtract, input);
    } else {
      FrontExact(prev, whole, -(subtract + 1), input);
    }
  }

  lemma {:induction false} TailExact(prev: seq<byte>, whole: seq<byte>, s: nat, input: seq<byte>)
    ensures s <= |prev| ==>
              var k := |prev| - s;
              prev[..k] + input == whole <==> CommonPrefix(prev, whole, k) && input == whole[k..]
  {
    if s <= |prev| {
      var k := |prev| - s;
      if prev[..k] + input == whole {
        assert whole[..k] == prev[..k] && whole[k..] == input;
      } else if CommonPrefix(prev, whole, k) {
        assert whole[..k] + whole[k..] == whole;
      }
    }
  }

  lemma {:induction false} FrontExact(prev: seq<byte>, whole: seq<byte>, s: nat, input: seq<byte>)
    ensures s <= |prev| ==>
              var k := |prev| - s;
              input + prev[s..] == whole <==> CommonSuffix(prev, whole, k) && input == whole[..|whole| - k]
  {
    if s <= |prev| {
      var k := |prev| - s;
      if input + prev[s..] == whole {
        assert whole[|whole| - k..] == prev[s..] && whole[..|whole| - k] == input;
      } else if CommonSuffix(prev, whole, k) {
        assert whole[..|whole| - k] + whole[|whole| - k..] == whole;
      }
    }
  }

  /** A required string under the delta operator. */
  predicate DeltaString(n: Node) { WellFormed(n) && n.f.typ.Ascii? && n.f.mandatory && n.f.op.Delta? && n.f.key.Some? }

  /** Any common prefix or suffix will do. */
  predicate CutFrom(prev: seq<byte>, m: Msg) {
    && m.Cut?
    && ((exists k | 0 <= k <= |prev| :: CommonPrefix(prev, m.whole, k) && m == TailCut(prev, m.whole, k))
        || (exists k | 0 <= k <= |prev| :: CommonSuffix(prev, m.whole, k) && m == FrontCut(prev, m.whole, k)))
  }

  /** Each string is cut from the one before it; the first cuts off the whole initial value, if there is one. */
  predicate CutRun(f: FieldType, ms: seq<Msg>) {
    && (f.hasDefault ==> |f.value.bytes| < 0x7FFF_FFFF)
    && (forall i | 0 <= i < |ms| :: ms[i].Cut? && PlainAscii(ms[i].whole) && |ms[i].whole| < 0x7FFF_FFFF)
    && (ms != [] ==> ms[0] == TailCut(if f.hasDefault then f.value.bytes else [], ms[0].whole, 0))
    && forall i | 0 < i < |ms| :: CutFrom(ms[i - 1].whole, ms[i])
  }

  function AfterCuts(n: Node, ms: seq<Msg>, i: nat, d: Local): Local
    requires DeltaString(n) && CutRun(n.f, ms) && i <= |ms|
  {
    if i == 0 then d else Store(n.f, AfterCuts(n, ms, i - 1, d), Some(Sized(ms[i - 1].whole)))
  }

  /** Such a cut gives the string back, and what it sends is part of the string. */
  lemma {:induction false} CutGivesBack(prev: seq<byte>, m: Msg)
    requires CutFrom(prev, m)
    ensures Splice(prev, m.subtract, m.input) == Some(m.whole)
    ensures -(|prev| + 1) <= m.subtract <= |prev|
    ensures PlainAscii(m.whole) ==> PlainAscii(m.input)
  {
    SpliceExact(prev, m.whole, m.subtract, m.input);
    if k :| 0 <= k <= |prev| && CommonPrefix(prev, m.whole, k) && m == TailCut(prev, m.whole, k) {
      assert k == |prev| - m.subtract;
    } else {
      var k :| 0 <= k <= |prev| && CommonSuffix(prev, m.whole, k) && m == FrontCut(prev, m.whole, k);
      assert k == |prev| + m.subtract + 1;
    }
  }

  lemma {:induction false} CutLegal(n: Node, prev: seq<byte>, m: Msg, d: Local)
    requires DeltaString(n) && CutFrom(prev, m) && PlainAscii(m.whole) && |prev| < 0x7FFF_FFFF
    requires Stored(n.f, d) == Some(Some(Sized(prev)))
    ensures LegalString(n.f, m, d)
  {
    CutGivesBack(prev, m);
  }

  lemma {:induction false} RunCutLegal(n: Node, ms: seq<Msg>, i: nat, d: Local)
    requires DeltaString(n) && CutRun(n.f, ms) && Unset(n.f, d) && i < |ms|
    ensures LegalString(n.f, ms[i], AfterCuts(n, ms, i, d))
  {
    if i == 0 {
      var b := Base(n.f, d).value.bytes;
      assert b[..0] + ms[0].whole == ms[0].whole;
    } else {
      CutLegal(n, ms[i - 1].whole, ms[i], AfterCuts(n, ms, i, d));
    }
  }

  /** However each string is cut, the run of strings arrives unchanged. */
  lemma {:induction false} StringRun(n: Node, ms: seq<Msg>, i: nat, d: Local)
    requires DeltaString(n) && CutRun(n.f, ms) && Unset(n.f, d) && i < |ms|
    ensures var e := AfterCuts(n, ms, i, d);
            && LegalString(n.f, ms[i], e)
            && var w := SendString(n.f, ms[i], e);
               var r := DissectValue(n, Pos(0, w.bytes, w.bits, 0), e);
               r.Done? && r.value.cell == Cell(Exists, Sized(ms[i].whole)) && r.value.dict == AfterCuts(n, ms, i + 1, d)
  {
    var e, m := AfterCuts(n, ms, i, d), ms[i];
    RunCutLegal(n, ms, i, d);
    var w := SendString(n.f, m, e);
    assert w.bytes + [] == w.bytes;
    StringCutDecodes(n, m, Pos(0, w.bytes, w.bits, 0), e, []);
  }

  function AsDelta(n: Node): Node { n.(f := n.f.(op := Delta)) }

  lemma {:induction false} SameCut(f: FieldType, p: Pos, d: Local, c: Cell)
    ensures AsciiDeltaBody(f.(op := Delta), p, d, c) == AsciiDeltaBody(f, p, d, c)
  {
    assert GetValue(f, d, UNSET) == GetValue(f.(op := Delta), d, UNSET);
    assert AsciiDelta(f.(op := Delta), p, d, c) == AsciiDelta(f, p, d, c);
  }

  lemma {:induction false} StringAsDelta(n: Node, p: Pos, d: Local, c: Cell)
    requires WellFormed(n) && n.f.typ.Ascii? && n.f.op.Tail?
    ensures AsciiBody(n.f, p, d, c) == AsciiBody(AsDelta(n).f, p, d, c)
  {
    SameCut(n.f, p, d, c);
    assert AsciiBody(n.f, p, d, c) == AsciiDeltaBody(n.f, p, d, c);
  }

  lemma {:induction false} VectorAsDelta(n: Node, p: Pos, d: Local, c: Cell)
    requires WellFormed(n) && IsVector(n.f.typ) && n.f.op.Tail?
    ensures WellFormed(AsDelta(n)) && VectorBody(n, p, d, c) == VectorBody(AsDelta(n), p, d, c)
  {
    var m := AsDelta(n);
    assert GetValue(n.f, d, UNSET) == GetValue(m.f, d, UNSET);
    assert ReadVector(n, p.SkipNext(), d) == ReadVector(m, p.SkipNext(), d);
    assert VectorDelta(n, p, d) == VectorDelta(m, p, d);
  }

  lemma {:induction false} SameBody(n: Node, m: Node, p: Pos, d: Local, c: Cell)
    requires WellFormed(n) && WellFormed(m) && m.f.typ == n.f.typ
    requires if n.f.typ.Ascii? then AsciiBody(n.f, p, d, c) == AsciiBody(m.f, p, d, c)
             else IsVector(n.f.typ) && VectorBody(n, p, d, c) == VectorBody(m, p, d, c)
    ensures Body(n, p, d, c) == Body(m, p, d, c)
  {
  }

  lemma {:induction false} MandatoryRead(n: Node, p: Pos, d: Local)
    requires WellFormed(n) && n.f.mandatory && (n.f.op.Tail? || n.f.op.Delta?)
    ensures DissectValue(n, p, d) == Body(n, p, d, Cell(Exists, BLANK))
  {
    Paths(n, p, d);
  }

  /** A tail that must be there is taken for a delta. */
  lemma {:induction false} TailIsDelta(n: Node, p: Pos, d: Local)
    requires WellFormed(n) && (n.f.typ.Ascii? || IsVector(n.f.typ)) && n.f.op.Tail? && n.f.mandatory
    ensures WellFormed(AsDelta(n)) && DissectValue(n, p, d) == DissectValue(AsDelta(n), p, d)
  {
    if n.f.typ.Ascii? {
      StringAsDelta(n, p, d, Cell(Exists, BLANK));
    } else {
      VectorAsDelta(n, p, d, Cell(Exists, BLANK));
    }
    SameBody(n, AsDelta(n), p, d, Cell(Exists, BLANK));
    MandatoryRead(n, p, d);
    MandatoryRead(AsDelta(n), p, d);
  }

  // ---------- fields that are read, on any bytes ----------

  /** Without operator, or with the bit that says so, a field is read from the stream. */
  predicate Streamed(f: FieldType, p: Pos) {
    (f.op.NoOp? || f.op.Default? || f.op.Copy? || f.op.Increment?) && (HasBit(f) ==> BitsAhead(p, [true]))
  }

  predicate NoNullAhead(f: FieldType, p: Pos) { f.mandatory || p.bytes == [] || p.bytes[0] != 0x80 }

  lemma {:induction false} StreamSeen(n: Node, p: Pos, d: Local)
    requires WellFormed(n) && Leaf(n) && Streamed(n.f, p) && NoNullAhead(n.f, p)
    ensures DissectValue(n, p, d) == Body(n, Past(n.f, p), d, Cell(Exists, BLANK))
  {
    StreamThere(n, p, d);
    PassBit(n, p, d);
    Found(n, p, d);
  }

  lemma {:induction false} StreamThere(n: Node, p: Pos, d: Local)
    requires WellFormed(n) && Leaf(n) && Streamed(n.f, p) && NoNullAhead(n.f, p)
    ensures Presence(n, p, d) == Step(p, d, Cell(Exists, BLANK))
  {
    if HasBit(n.f) { NextBit(p, true); }
    assert n.f.mandatory || Presence(n, p, d) == OptionalField(n.f, p, d, Cell(Empty, BLANK));
  }

  function NumberIn(t: Typ, s: seq<byte>): int { if IsUnsigned(t) then Value(s) else SignedValue(s) }

  /** The number that is read, before room is made for null. */
  function StreamedCell(f: FieldType, p: Pos): Cell {
    var c := ReadInteger(f.typ, p, Cell(Exists, BLANK));
    AddDelta(f.typ, c, if !f.mandatory && (IsUnsigned(f.typ) || 0 < c.value.num) then -1 else 0)
  }

  lemma {:induction false} StreamedInteger(f: FieldType, p: Pos, d: Local)
    requires IsInteger(f.typ) && Streamed(f, p)
    ensures var s := IntegerBody(f, Past(f, p), d, Cell(Exists, BLANK));
            s.pos.bytes == p.SkipNext().bytes && s.cell == StreamedCell(f, p)
  {
    if f.op.Increment? { NextBit(p, true); }
  }

  lemma {:induction false} StreamedNumber(f: FieldType, p: Pos)
    requires IsInteger(f.typ)
    ensures var t, s, x, c := f.typ, p.Next(), NumberIn(f.typ, p.Next()), StreamedCell(f, p);
            if |s| > WidthOf(t).MaxBytes() || !InRange(t, x) then c.status == Error(2)
            else c == Cell(Exists, Number(
              if f.mandatory then x else if IsUnsigned(t) then Wrap(t, x - 1) else if x > 0 then x - 1 else x))
  {
  }

  /** On any bytes: the next stop-bit string is consumed, and its number shown - one less in an optional field, unless a
      signed one is not positive - but for error D2 exactly when it is too long or does not fit the type. */
  lemma {:induction false} IntegerReadExact(n: Node, p: Pos, d: Local)
    requires WellFormed(n) && IsInteger(n.f.typ) && Streamed(n.f, p) && NoNullAhead(n.f, p)
    ensures var r, s := DissectValue(n, p, d), p.Next();
            var t, x := n.f.typ, NumberIn(n.f.typ, s);
            && r.Done? && r.value.pos.bytes == p.bytes[|s|..]
            && (if |s| > WidthOf(t).MaxBytes() || !InRange(t, x) then r.value.cell.status == Error(2)
                else r.value.cell == Cell(Exists, Number(
                  if n.f.mandatory then x
                  else if IsUnsigned(t) then Wrap(t, x - 1)
                  else if x > 0 then x - 1 else x)))
  {
    StreamSeen(n, p, d);
    StreamedInteger(n.f, p, d);
    IntegerOutcome(n, Past(n.f, p), d, IntegerBody(n.f, Past(n.f, p), d, Cell(Exists, BLANK)));
    StreamedNumber(n.f, p);
  }

  /** The same for strings: the data bits up to the first NUL, never an error. */
  lemma {:induction false} StringReadExact(n: Node, p: Pos, d: Local)
    requires WellFormed(n) && n.f.typ.Ascii? && Streamed(n.f, p) && NoNullAhead(n.f, p)
    ensures var r, s := DissectValue(n, p, d), p.Next();
            && r.Done? && r.value.pos.bytes == p.bytes[|s|..] && r.value.cell.status == Exists
            && var t := r.value.cell.value.bytes;
               && r.value.cell.value == Sized(t) && |t| <= |s|
               && (forall i | 0 <= i < |t| :: t[i] == DataBits(p, i) != 0) && (|t| == |s| || DataBits(p, |t|) == 0)
  {
    StreamSeen(n, p, d);
    var q := Past(n.f, p);
    assert q.Next() == p.Next() && q.bytes == p.bytes;
    AsciiOutcome(n, q, d, AsciiBody(n.f, q, d, Cell(Exists, BLANK)).value);
    CutAtNul(Unmark(p.Next()));
    forall i | 0 <= i < |p.Next()|
      ensures Unmark(p.Next())[i] == DataBits(p, i)
    {
      DataByte(p, i);
    }
  }

  /** The seven data bits of a byte to come. */
  function DataBits(p: Pos, i: nat): int { if i < |p.bytes| then p.bytes[i] % 128 else 0 }

  lemma {:induction false} DataByte(p: Pos, i: nat)
    requires i < |p.Next()|
    ensures Unmark(p.Next())[i] == DataBits(p, i)
  {
    CountStopFinds(p.bytes);
    assert p.Next()[i] == p.bytes[i];
  }

  lemma {:induction false} CutAtNul(s: seq<byte>)
    ensures forall i | 0 <= i < StrLen(s) :: s[i] != 0
    ensures StrLen(s) == |s| || s[StrLen(s)] == 0
  {
    if s != [] && s[0] != 0 {
      CutAtNul(s[1..]);
      forall i | 0 <= i < StrLen(s)
        ensures s[i] != 0
      {
        if i > 0 { assert s[1..][i - 1] != 0; }
      }
    }
  }

  /** What becomes of a string delta: any stop-bit string may stand in the place of the subtraction length. */
  function CutOutcome(prev: Option<FieldValue>, s: seq<byte>, input: seq<byte>): Cell {
    if prev.None? then Cell(Exists, Sized(input))
    else if SignedOutOfRange(W32, s) then Cell(Error(7), BLANK)
    else CutCell(Splice(prev.value.bytes, SignedValue(s), input))
  }

  lemma {:induction false} AnyCutReads(f: FieldType, prev: Option<FieldValue>, s: seq<byte>, input: seq<byte>, d: Local,
                                       p: Pos, q: Pos)
    requires f.op.Delta? && (if prev.Some? then Stored(f, d) == Some(prev) else Unset(f, d))
    requires p.Next() == s && p.SkipNext().SkipNext() == q && ReadAscii(p.SkipNext(), UNSET).value.bytes == input
    requires ReadAscii(p.SkipNext(), Cell(Exists, BLANK)) == Cell(Exists, Sized(input))
    ensures var c := CutOutcome(prev, s, input);
            AsciiBody(f, p, d, Cell(Exists, BLANK)) == Done(Step(q, SetValue(f, d, c), c))
  {
    StoredFound(f, d);
  }

  lemma {:induction false} DeltaSeen(n: Node, p: Pos, d: Local)
    requires WellFormed(n) && n.f.typ.Ascii? && n.f.op.Delta?
    requires n.f.mandatory || (p.bytes != [] && p.bytes[0] != 0x80)
    ensures Presence(n, p, d) == Step(p, d, Cell(Exists, BLANK))
  {
    assert n.f.mandatory || Presence(n, p, d) == OptionalField(n.f, p, d, Cell(Empty, BLANK));
  }

  lemma {:induction false} AnyCutHeard(n: Node, prev: Option<FieldValue>, s: seq<byte>, input: seq<byte>, d: Local,
                                       p: Pos, rest: seq<byte>)
    requires WellFormed(n) && n.f.typ.Ascii? && n.f.op.Delta?
    requires if prev.Some? then Stored(n.f, d) == Some(prev) else Unset(n.f, d)
    requires IsStopBit(s) && PlainAscii(input) && (n.f.mandatory || s[0] != 0x80)
    requires p.bytes == s + (AsciiBytes(input) + rest)
    ensures var r := DissectValue(n, p, d);
            r.Done? && r.value.pos.bytes == rest && r.value.cell == CutOutcome(prev, s, input)
  {
    NextIs(p, s, AsciiBytes(input) + rest);
    var p1 := p.SkipNext();
    ReadsAscii(p1, input, rest, UNSET);
    ReadsAscii(p1, input, rest, Cell(Exists, BLANK));
    var q, c := p1.SkipNext(), CutOutcome(prev, s, input);
    AnyCutReads(n.f, prev, s, input, d, p, q);
    AsciiOutcome(n, p, d, Step(q, SetValue(n.f, d, c), c));
    PassBit(n, p, d);
    DeltaSeen(n, p, d);
    Found(n, p, d);
  }

  /** A string delta, with any stop-bit string for its subtraction length: against a stored string, error D7 exactly
      when that is no 32-bit number or cuts more than there is, and the spliced string otherwise; while nothing is
      stored, the input. Both strings are consumed in every case. */
  lemma {:induction false} StringDeltaExact(n: Node, prev: Option<FieldValue>, s: seq<byte>, input: seq<byte>, d: Local,
                                            p: Pos, rest: seq<byte>)
    requires WellFormed(n) && n.f.typ.Ascii? && n.f.op.Delta?
    requires if prev.Some? then Stored(n.f, d) == Some(prev) else Unset(n.f, d)
    requires IsStopBit(s) && PlainAscii(input) && (n.f.mandatory || s[0] != 0x80)
    requires p.bytes == s + (AsciiBytes(input) + rest)
    ensures var r, x := DissectValue(n, p, d), SignedValue(s);
            && r.Done? && r.value.pos.bytes == rest
            && (r.value.cell.status == Error(7) <==>
                  && prev.Some?
                  && (|s| > 5 || !InRange(Int32, x) || x > |prev.value.bytes| || -(x + 1) > |prev.value.bytes|))
            && (r.value.cell.status != Error(7) ==>
                  r.value.cell == Cell(Exists, Sized(
                    if prev.None? then input
                    else if x < 0 then input + prev.value.bytes[-(x + 1)..]
                    else prev.value.bytes[..|prev.value.bytes| - x] + input)))
  {
    AnyCutHeard(n, prev, s, input, d, p, rest);
  }

  // ---------- where the dissector departs from the operators' meaning ----------

  /** A value, or none, as a field's cell. */
  predicate ShowsCell(c: Cell, v: Option<FieldValue>) {
    match v case Some(x) => c == Cell(Exists, x) case None => c.status == Empty
  }

  /** The field is shown with this value, or as absent. */
  predicate Hears(r: Outcome<Result>, v: Option<FieldValue>) {
    r.Done? && ShowsCell(r.value.cell, v)
  }

  /** A string delta is cut from the stored string, else from the initial value. The dissector takes the input for the
      whole while nothing is stored, and never undoes the shift of an optional delta's subtraction length: a length
      that is not negative then cuts one byte too many, or more than there is. */
  lemma {:induction false} StringCutExact(n: Node, m: Msg, d: Local, p: Pos, rest: seq<byte>)
    requires WellFormed(n) && n.f.typ.Ascii? && m.Cut? && StandsFor(n.f, m, d)
    requires PlainAscii(m.input) && InRange(Int32, Subtraction(n.f, m.subtract))
    requires p.bytes == StringCutBytes(n.f, m.subtract, m.input) + rest
    ensures var r := DissectValue(n, p, d);
            && r.Done? && r.value.pos.bytes == rest
            && (Hears(r, Some(Sized(m.whole))) <==>
                  if Unset(n.f, d) then m.whole == m.input else n.f.mandatory || m.subtract < 0)
            && (!Unset(n.f, d) && !n.f.mandatory && m.subtract >= 0 ==>
                  if r.value.cell.status == Error(7) then m.whole == m.input
                  else |r.value.cell.value.bytes| == |m.whole| - 1)
  {
    StringCutHeard(n, m.subtract, m.input, p, d, rest);
    SplicedExact(n.f, m, d);
  }

  /** The same for byte vectors and unicode strings, whose length is nullable in an optional delta as well. */
  lemma {:induction false} VectorCutExact(n: Node, m: Msg, d: Local, p: Pos, rest: seq<byte>)
    requires WellFormed(n) && IsVector(n.f.typ) && m.Cut? && StandsFor(n.f, m, d)
    requires LegalLength(n, m.input, m.unsized, d) && InRange(Int64, Subtraction(n.f, m.subtract))
    requires Ahead(p, VectorCutWire(n, Subtraction(n.f, m.subtract), m.input, m.unsized, d), rest)
    ensures Hears(DissectValue(n, p, d), Some(Sized(m.whole))) <==>
              if Unset(n.f, d) then m.whole == m.input else n.f.mandatory || m.subtract < 0
  {
    VectorCutHeard(n, m.subtract, m.input, m.unsized, p, d, rest);
    SplicedExact(n.f, m, d);
  }

  lemma {:induction false} NotHeard(n: Node, v: FieldValue, p: Pos, d: Local)
    requires WellFormed(n) && !Presence(n, p, d).cell.status.Exists?
    ensures !Hears(DissectValue(n, p, d), Some(v))
  {
    Paths(n, p, d);
  }

  /** A vector whose length is left out is taken for absent exactly when it is optional and the next byte, of its data
      or of what follows, is the null byte. */
  lemma {:induction false} UnsizedExact(n: Node, s: seq<byte>, d: Local, p: Pos, rest: seq<byte>)
    requires WellFormed(n) && IsVector(n.f.typ) && LegalField(n.f, Some(Sized(s)), false, d)
    requires LegalLength(n, s, true, d) && Ahead(p, SendWhole(n, s, true, d), rest)
    ensures Hears(DissectValue(n, p, d), Some(Sized(s))) <==>
              n.f.mandatory || s + rest == [] || (s + rest)[0] != 0x80
  {
    WholeAhead(n, s, true, p, d, rest);
    DataNotNull(n, s, d, rest);
    VectorLook(n, p, d);
    if n.f.mandatory || s + rest == [] || (s + rest)[0] != 0x80 {
      WholeRead(n, s, true, p, d, rest);
    } else {
      NotHeard(n, Sized(s), p, d);
    }
  }

  /** Under an operator of the whole, a decimal whose exponent is left out or a constant is recognised by whatever byte
      comes first: it is taken for absent exactly when it is optional and that is the null byte. */
  lemma {:induction false} PartsExact(n: Node, e: Msg, t: Msg, d: Local, p: Pos, rest: seq<byte>)
    requires WellFormed(n) && n.f.typ.Decimal? && !n.f.op.NoOp? && BothParts(n, e, t, d)
    requires Ahead(p, OwnBit(n, d).Then(SendParts(n, e, t, d)), rest)
    ensures var b := SendParts(n, e, t, d).bytes + rest;
            Hears(DissectValue(n, p, d), Some(DecimalOf(e, t))) <==> n.f.mandatory || b == [] || b[0] != 0x80
  {
    var w := SendParts(n, e, t, d);
    FirstBitAhead(p, [true] + w.bits);
    assert p.bytes == w.bytes + rest by { assert [] + w.bytes == w.bytes; }
    WholeLook(n, p, d);
    if Presence(n, p, d).cell.status.Exists? {
      PartsHeard(n, e, t, p, d, rest);
    } else {
      NotHeard(n, DecimalOf(e, t), p, d);
    }
  }

  // ---------- deltas on a slot of another type ----------

  predicate OtherType(f: FieldType, d: Local) { f.key.Some? && SlotOf(f) in d && d[SlotOf(f)].typ != f.typ }

  /** A difference, or a subtraction length and what is put in place of what is cut. */
  predicate DeltaSent(n: Node, y: int, input: seq<byte>, omit: bool, d: Local, p: Pos, rest: seq<byte>)
    requires WellFormed(n)
  {
    var x := Subtraction(n.f, y);
    if n.f.typ.Ascii? then InRange(Int32, x) && PlainAscii(input) && p.bytes == StringCutBytes(n.f, y, input) + rest
    else if IsVector(n.f.typ) then
      && InRange(Int64, x) && LegalLength(n, input, omit, d) && Ahead(p, VectorCutWire(n, x, input, omit, d), rest)
    else !n.f.typ.Group? && !n.f.typ.Sequence? && InRange(Int64, x) && p.bytes == EncodeSigned(x) + rest
  }

  lemma {:induction false} FailedBase(f: FieldType, p: Pos, d: Local)
    requires f.op.Delta? && OtherType(f, d)
    ensures IntegerBody(f, p, d, Cell(Exists, BLANK)).cell.status == Error(4)
    ensures DecimalDelta(f, p, d, Cell(Exists, BLANK)).Faulty?
  {
  }

  lemma {:induction false} NumberKeepsD4(n: Node, x: int, d: Local, p: Pos, rest: seq<byte>)
    requires WellFormed(n) && (IsInteger(n.f.typ) || n.f.typ.Decimal?) && n.f.op.Delta? && OtherType(n.f, d)
    requires (n.f.mandatory || x != 0) && p.bytes == EncodeSigned(x) + rest
    ensures var r := DissectValue(n, p, d);
            if n.f.typ.Decimal? then r.Faulty? else r.Done? && r.value.cell.status == Error(4)
  {
    FailedBase(n.f, p, d);
    DeltaThere(n, x, p, d, rest);
    PassBit(n, p, d);
    Found(n, p, d);
    if n.f.typ.Decimal? {
      assert Body(n, p, d, Cell(Exists, BLANK)).Faulty?;
    } else {
      IntegerOutcome(n, p, d, IntegerBody(n.f, p, d, Cell(Exists, BLANK)));
    }
  }

  /** A get from a slot of another type notes error D4. A delta keeps it exactly on an integer: on a string or vector
      it is lost and the input taken for the whole, and a decimal is added to what was never written. */
  lemma {:induction false} DeltaOtherType(n: Node, y: int, input: seq<byte>, omit: bool, d: Local, p: Pos,
                                        rest: seq<byte>)
    requires WellFormed(n) && n.f.op.Delta? && OtherType(n.f, d) && DeltaSent(n, y, input, omit, d, p, rest)
    ensures GetValue(n.f, d, UNSET).1.status == Error(4)
    ensures var r := DissectValue(n, p, d);
            && (r.Faulty? <==> n.f.typ.Decimal?)
            && (r.Done? && r.value.cell.status == Error(4) <==> IsInteger(n.f.typ))
            && (Hears(r, Some(Sized(input))) <==> n.f.typ.Ascii? || IsVector(n.f.typ))
  {
    if n.f.typ.Ascii? {
      StringCutHeard(n, y, input, p, d, rest);
    } else if IsVector(n.f.typ) {
      VectorCutHeard(n, y, input, omit, p, d, rest);
    } else {
      NumberKeepsD4(n, Subtraction(n.f, y), d, p, rest);
    }
  }

  /** An optional default that is left out stands for its initial value, and without one for an absent field. The code
      shows zero then, and for strings and vectors reads through a null pointer. */
  lemma {:induction false} OmittedDefault(n: Node, d: Local, p: Pos)
    requires WellFormed(n) && !n.f.typ.Group? && !n.f.typ.Sequence? && n.f.op.Default? && !n.f.mandatory
    requires BitsAhead(p, [false])
    ensures Hears(DissectValue(n, p, d), Initial(n.f)) <==> n.f.hasDefault
    ensures !n.f.hasDefault ==> (DissectValue(n, p, d).Faulty? <==> n.f.typ.Ascii? || IsVector(n.f.typ))
  {
    NextBit(p, false);
    SeesPresent(n.f, true, p, d);
    assert Presence(n, p, d) == OptionalField(n.f, p, d, Cell(Empty, BLANK));
    Paths(n, p, d);
  }

  /** What an omitted copy does, in all cases: whether it settles the field, with which status, and with what. */
  lemma {:induction false} OmittedCopy(f: FieldType, p: Pos, d: Local)
    requires f.op.Copy? && !PeekPmap(p) && f.key.Some?
    ensures var (used, s) := Operate(f, p, d, Cell(Exists, BLANK));
            var otherType := SlotOf(f) in d && d[SlotOf(f)].typ != f.typ;
            && (used <==> f.mandatory ==> !Unknown(f, d) && Stored(f, d) != Some(None))
            && (s.cell.status == Error(4) <==> otherType)
            && (s.cell.status == Error(5) <==> f.mandatory && Unknown(f, d))
            && (s.cell.status == Error(6) <==> f.mandatory && Stored(f, d) == Some(None))
            && (s.cell.status == Undefined <==> !f.mandatory && Unknown(f, d))
            && (s.cell.status == Empty <==> !f.mandatory && Stored(f, d) == Some(None))
            && (s.cell.status == Exists ==> Previous(f, d) == Some(Some(s.cell.value)))
  {
  }

  /** So an omitted copy is shown as the value it repeats, or as absent, exactly when there is a stored or an initial
      value: an optional one with neither is meant to be absent, but is left undefined and shown as an error. */
  lemma {:induction false} CopyExact(n: Node, v: Option<FieldValue>, d: Local, p: Pos)
    requires WellFormed(n) && !n.f.typ.Group? && !n.f.typ.Sequence? && n.f.op.Copy? && BitsAhead(p, [false])
    requires Previous(n.f, d) == Some(v) && (v.None? ==> !n.f.mandatory)
    ensures Hears(DissectValue(n, p, d), v) <==> !Unknown(n.f, d)
  {
    NextBit(p, false);
    if !n.f.mandatory {
      SeesPresent(n.f, true, p, d);
      assert Presence(n, p, d) == OptionalField(n.f, p, d, Cell(Empty, BLANK));
    }
    OmittedCopy(n.f, p, d);
    Paths(n, p, d);
  }

  lemma {:induction false} OmittedStep(f: FieldType, d: Local, p: Pos)
    requires f.op.Increment? && !PeekPmap(p) && f.key.Some?
    requires f.mandatory ==> !Unknown(f, d) && Stored(f, d) != Some(None)
    ensures IntegerBody(f, p, d, Cell(Exists, BLANK)).cell == AddDelta(f.typ, GetValue(f, d, Cell(Exists, BLANK)).1, 1)
  {
  }

  lemma {:induction false} SuccessorShown(f: FieldType, v: Option<FieldValue>, d: Local, c: Cell)
    requires IsInteger(f.typ) && Incremented(f, d) == Some(v) && (f.hasDefault ==> Canonical(f.typ, f.value))
    requires Stored(f, d).Some? && Stored(f, d).value.Some? ==> Canonical(f.typ, Stored(f, d).value.value)
    requires c == AddDelta(f.typ, GetValue(f, d, Cell(Exists, BLANK)).1, 1)
    ensures ShowsCell(c, v) <==> !Unset(f, d)
    ensures Unset(f, d) && f.hasDefault ==> c == Cell(Exists, Number(Wrap(f.typ, f.value.num + 1)))
  {
  }

  /** An omitted increment stands for the stored value's successor, and while nothing is stored for the initial value:
      it is shown as what it stands for exactly when something is stored. */
  lemma {:induction false} IncrementExact(n: Node, v: Option<FieldValue>, d: Local, p: Pos)
    requires WellFormed(n) && IsInteger(n.f.typ) && n.f.op.Increment? && BitsAhead(p, [false])
    requires Incremented(n.f, d) == Some(v) && (v.None? ==> !n.f.mandatory)
    requires n.f.hasDefault ==> Canonical(n.f.typ, n.f.value)
    requires Stored(n.f, d).Some? && Stored(n.f, d).value.Some? ==> Canonical(n.f.typ, Stored(n.f, d).value.value)
    ensures Hears(DissectValue(n, p, d), v) <==> !Unset(n.f, d)
    ensures Unset(n.f, d) && n.f.hasDefault ==>
              Hears(DissectValue(n, p, d), Some(Number(Wrap(n.f.typ, n.f.value.num + 1))))
  {
    NextBit(p, false);
    if !n.f.mandatory {
      SeesPresent(n.f, true, p, d);
      assert Presence(n, p, d) == OptionalField(n.f, p, d, Cell(Empty, BLANK));
    }
    OmittedStep(n.f, d, p);
    SuccessorShown(n.f, v, d, IntegerBody(n.f, p, d, Cell(Exists, BLANK)).cell);
    PassBit(n, p, d);
    Found(n, p, d);
    IntegerOutcome(n, p, d, IntegerBody(n.f, p, d, Cell(Exists, BLANK)));
  }

  /** A mandatory increment that is left out with nothing to succeed is an error: D5 while nothing is stored and there
      is no initial value, D6 when the stored value is empty, D4 when it is of another type - and none otherwise. */
  lemma {:induction false} IncrementFails(n: Node, d: Local, p: Pos)
    requires WellFormed(n) && IsInteger(n.f.typ) && n.f.op.Increment? && n.f.mandatory && n.f.key.Some?
    requires BitsAhead(p, [false])
    ensures var r := DissectValue(n, p, d);
            && r.Done? && r.value.pos.bytes == p.bytes
            && var s := r.value.cell.status;
               && (s == Error(5) <==> Unknown(n.f, d)) && (s == Error(6) <==> Stored(n.f, d) == Some(None))
               && (s == Error(4) <==> OtherType(n.f, d))
               && (s == Exists <==>
                     (Unset(n.f, d) && n.f.hasDefault) || (Stored(n.f, d).Some? && Stored(n.f, d).value.Some?))
  {
    NextBit(p, false);
    PassBit(n, p, d);
    Found(n, p, d);
    IntegerOutcome(n, p, d, IntegerBody(n.f, p, d, Cell(Exists, BLANK)));
  }

  /** A mandatory delta against an empty value is error D6, and its difference is left unread; and that is the only case
      in which it is. */
  lemma {:induction false} DeltaFails(n: Node, x: int, d: Local, p: Pos, rest: seq<byte>)
    requires WellFormed(n) && IsInteger(n.f.typ) && n.f.op.Delta? && n.f.mandatory && n.f.key.Some?
    requires InRange(Int64, x) && p.bytes == EncodeSigned(x) + rest
    ensures var r := DissectValue(n, p, d);
            && r.Done? && (r.value.cell.status == Error(6) <==> Stored(n.f, d) == Some(None))
            && r.value.pos.bytes == if Stored(n.f, d) == Some(None) then p.bytes else rest
  {
    ReadsSigned(W64, p, x, rest, UNSET);
    PassBit(n, p, d);
    Found(n, p, d);
    IntegerOutcome(n, p, d, IntegerBody(n.f, p, d, Cell(Exists, BLANK)));
  }

  /** What a failed copy leaves in the status is not made good by reading the field all the same. */
  lemma {:induction false} StaysFailed(n: Node, p: Pos, d: Local, c: Cell)
    requires WellFormed(n) && Leaf(n) && n.f.op.Copy? && c.status.Error?
    ensures Body(n, p, d, c).Done? && !Body(n, p, d, c).value.cell.status.Exists?
  {
  }

  /** A required copy of an empty slot, and one of a slot of another type, are not shown with any value. */
  lemma {:induction false} NothingToCopy(g: Node, u: Option<FieldValue>, d: Local, p: Pos)
    requires WellFormed(g) && Leaf(g) && g.f.op.Copy? && g.f.key.Some? && BitsAhead(p, [false])
    requires u.None? ==> !g.f.mandatory
    requires OtherType(g.f, d) || (g.f.mandatory && Stored(g.f, d) == Some(None))
    ensures !Hears(DissectValue(g, p, d), u)
  {
    NextBit(p, false);
    if !g.f.mandatory {
      SeesPresent(g.f, true, p, d);
      assert Presence(g, p, d) == OptionalField(g.f, p, d, Cell(Empty, BLANK));
    }
    OmittedCopy(g.f, p, d);
    Paths(g, p, d);
    var (used, s) := Operate(g.f, p, d, Cell(Exists, BLANK));
    if !used {
      StaysFailed(g, s.pos, s.dict, s.cell);
    }
  }

  /** A field without operator and a default have no dictionary entry of their own in the protocol, but the dissector
      stores them. What a later copy would have repeated is still repeated exactly when the copy has another slot, or
      when just that value was stored; with the slot and the type in common the copy repeats what was stored. */
  lemma {:induction false} StoredAnyway(n: Node, g: Node, v: Option<FieldValue>, omit: bool, u: Option<FieldValue>,
                                        d: Local, p: Pos, rest: seq<byte>)
    requires WellFormed(n) && Leaf(n) && (n.f.op.NoOp? || n.f.op.Default?) && LegalField(n.f, v, omit, d)
    requires Ahead(p, SendField(n.f, v, omit, d), rest)
    requires WellFormed(g) && Leaf(g) && g.f.op.Copy? && Previous(g.f, d) == Some(u) && !Unknown(g.f, d)
    requires u.None? ==> !g.f.mandatory
    requires BitsAhead(After(p, SendField(n.f, v, omit, d), rest), [false])
    ensures var r := DissectValue(n, p, d);
            && Hears(r, v)
            && var later := DissectValue(g, r.value.pos, r.value.dict);
               && (Hears(later, u) <==> !SameSlot(n.f, g.f) || (n.f.typ == g.f.typ && u == v))
               && (SameSlot(n.f, g.f) && n.f.typ == g.f.typ && (v.None? ==> !g.f.mandatory) ==> Hears(later, v))
  {
    FieldDecodes(n, v, omit, d, p, rest);
    var r := DissectValue(n, p, d).value;
    if !SameSlot(n.f, g.f) {
      assert Previous(g.f, r.dict) == Some(u) && !Unknown(g.f, r.dict);
      CopyExact(g, u, r.dict, r.pos);
    } else if n.f.typ == g.f.typ && (v.None? ==> !g.f.mandatory) {
      assert Stored(g.f, r.dict) == Some(v);
      CopyExact(g, v, r.dict, r.pos);
    } else {
      NothingToCopy(g, u, r.dict, r.pos);
    }
  }

  /** An omitted copy stores nothing: afterwards the slot holds what it was shown with exactly when something was stored
      before. A copied initial value is forgotten. */
  lemma {:induction false} CopyStoresNothing(n: Node, v: Option<FieldValue>, d: Local, p: Pos, rest: seq<byte>)
    requires WellFormed(n) && Leaf(n) && n.f.op.Copy? && LegalField(n.f, v, true, d)
    requires Ahead(p, SendField(n.f, v, true, d), rest)
    ensures var r := DissectValue(n, p, d);
            && Hears(r, v) && r.value.dict == d
            && (Stored(n.f, r.value.dict) == Some(v) <==> !Unset(n.f, d))
  {
    FieldDecodes(n, v, true, d, p, rest);
  }

  lemma {:induction false} DiffHeardAs(n: Node, b: FieldValue, x: int, y: int, d: Local, p: Pos, rest: seq<byte>)
    requires WellFormed(n) && n.f.typ.Decimal? && n.f.op.Delta? && Base(n.f, d) == Some(b) && b.bytes == []
    requires (n.f.mandatory || x != 0) && InRange(Int64, x) && InRange(Int64, y)
    requires p.bytes == EncodeSigned(x) + (EncodeSigned(y) + rest)
    ensures var r := DissectValue(n, p, d);
            var mant, expt := W64.WrapSigned(Unshifted(n.f, y) + b.num), W32.WrapSigned(Unshifted(n.f, x) + b.exponent);
            r.Done? && r.value.pos.bytes == rest && r.value.cell == Cell(Exists, FieldValue(mant, expt, []))
  {
    var mant, expt := W64.WrapSigned(Unshifted(n.f, y) + b.num), W32.WrapSigned(Unshifted(n.f, x) + b.exponent);
    var v, q := FieldValue(mant, expt, []), Pos(p.offset + |EncodeSigned(x)| + |EncodeSigned(y)|, rest, p.pmap, p.idx);
    DiffAt(n.f, b, x, y, v, p, d, rest);
    assert DecimalBody(n, p, d, Cell(Exists, BLANK)) == DecimalDelta(n.f, p, d, Cell(Exists, BLANK));
    DecimalOutcome(n, p, d, Step(q, Store(n.f, d, Some(v)), Cell(Exists, v)));
    PassBit(n, p, d);
    DeltaThere(n, x, p, d, EncodeSigned(y) + rest);
    Found(n, p, d);
  }

  /** The mantissa difference of an optional decimal is not nullable, but one is taken off it when it is positive:
      the sent decimal is received exactly when its mantissa does not grow. */
  lemma {:induction false} OptionalDecimalDelta(n: Node, v: FieldValue, d: Local, p: Pos, rest: seq<byte>)
    requires WellFormed(n) && n.f.typ.Decimal? && n.f.op.Delta? && !n.f.mandatory
    requires Base(n.f, d).Some? && Base(n.f, d).value.bytes == [] && Canonical(Decimal, v)
    requires InRange(Int64, ExponentDifference(n.f, v, d)) && InRange(Int64, v.num - Base(n.f, d).value.num)
    requires var y := v.num - Base(n.f, d).value.num;
             p.bytes == EncodeSigned(ExponentDifference(n.f, v, d)) + (EncodeSigned(y) + rest)
    ensures var r := DissectValue(n, p, d);
            r.Done? && r.value.pos.bytes == rest && (Hears(r, Some(v)) <==> v.num <= Base(n.f, d).value.num)
  {
    var b, x := Base(n.f, d).value, ExponentDifference(n.f, v, d);
    DiffHeardAs(n, b, x, v.num - b.num, d, p, rest);
    OffByOne(n.f, b, v, x);
  }

  lemma {:induction false} OffByOne(f: FieldType, b: FieldValue, v: FieldValue, x: int)
    requires !f.mandatory && Canonical(Decimal, v) && InRange(Int64, v.num - b.num)
    requires x == v.exponent - b.exponent + (if v.exponent >= b.exponent then 1 else 0)
    ensures W32.WrapSigned(Unshifted(f, x) + b.exponent) == v.exponent
    ensures W64.WrapSigned(Unshifted(f, v.num - b.num) + b.num) == v.num <==> v.num <= b.num
  {
  }

  /** A sequence's elements are read only while the packet and the presence map last: with either used up,
      none of the announced elements is shown, though none of them may need a bit. */
  lemma {:induction false} SequenceDropped(n: Node, p: Pos, d: Local)
    requires WellFormed(n) && n.f.typ.Sequence? && SequenceBody(n, p, d).Done?
    ensures var l := DissectValue(n.children[0], p, d).value;
            SequenceBody(n, p, d).value.kids != [] <==> l.cell.value.num > 0 && !Exhausted(l.pos)
  {
    var l := DissectValue(n.children[0], p, d).value;
    ElementsDropped(n.children[1], if l.cell.value.num < 0 then 0 else l.cell.value.num, l.pos, l.dict);
  }

  lemma {:induction false} ElementsDropped(g: Node, i: nat, p: Pos, d: Local)
    requires WellFormed(g) && ElementsTo(g, i, p, d).Done?
    ensures var w := ElementsTo(g, i, p, d).value;
            (w.kids != [] <==> i > 0 && !Exhausted(p)) && (w.kids == [] ==> w.pos == p)
  {
    if i > 0 {
      ElementsDropped(g, i - 1, p, d);
    }
  }
}
