/** The central result: every message that may be sent is received as it was meant - for every template,
    every mix of operators, nesting, presence maps and optional parts - and leaves both dictionaries equal. */
module MessageDecoding {
  import opened StopBit
  import opened Decode
  import opened PresenceMap
  import opened Encode
  import opened Fields
  import opened Dictionary
  import opened Reader
  import opened Dissection
  import opened Sender
  import opened FieldDecoding

  predicate Delivered(n: Node, m: Msg, r: Outcome<Result>, p: Pos, w: Wire, rest: seq<byte>) {
    && r.Done? && r.value.pos == After(p, w, rest) && r.value.dict == w.dict
    && p.Leads(r.value.pos) && Shows(n, m, NodeOf(p, r.value))
  }

  // ---------- wire forms one after the other ----------

  lemma {:induction false} SplitBits(p: Pos, a: seq<bool>, b: seq<bool>)
    requires BitsAhead(p, a + b)
    ensures BitsAhead(p, a) && BitsAhead(AfterBits(p, |a|), b)
    ensures AfterBits(AfterBits(p, |a|), |b|) == AfterBits(p, |a + b|)
  {
    forall k | 0 <= k < |a|
      ensures a[k] == BitAt(p.pmap, p.idx + k)
    {
      assert (a + b)[k] == a[k];
    }
    forall k | 0 <= k < |b|
      ensures b[k] == BitAt(p.pmap, AfterBits(p, |a|).idx + k)
    {
      assert (a + b)[|a| + k] == b[k];
    }
  }

  lemma {:induction false} SplitAhead(p: Pos, a: Wire, b: Wire, rest: seq<byte>)
    requires Ahead(p, a.Then(b), rest)
    ensures Ahead(p, a, b.bytes + rest) && Ahead(After(p, a, b.bytes + rest), b, rest)
    ensures After(After(p, a, b.bytes + rest), b, rest) == After(p, a.Then(b), rest)
  {
    assert (a.bytes + b.bytes) + rest == a.bytes + (b.bytes + rest);
    SplitBits(p, a.bits, b.bits);
    SameBits(AfterBits(p, |a.bits|), After(p, a, b.bytes + rest), b.bits);
  }

  /** Only the map and the index matter. */
  lemma {:induction false} SameBits(p: Pos, q: Pos, bits: seq<bool>)
    requires p.pmap == q.pmap && p.idx == q.idx
    ensures BitsAhead(p, bits) <==> BitsAhead(q, bits)
    ensures AfterBits(p, |bits|).idx == AfterBits(q, |bits|).idx
  {
  }

  lemma {:induction false} FirstBitAhead(p: Pos, bits: seq<bool>)
    requires bits != [] && BitsAhead(p, bits)
    ensures BitsAhead(p, [bits[0]])
  {
    assert [bits[0]][0] == bits[0] == BitAt(p.pmap, p.idx);
  }

  /** A field that is found there, with nothing consumed by the look. */
  lemma {:induction false} Found(n: Node, p: Pos, d: Local)
    requires WellFormed(n) && Presence(n, p, d) == Step(p, d, Cell(Exists, BLANK))
    ensures DissectValue(n, p, d) == Present(n, p, d, Cell(Exists, BLANK))
  {
  }

  // ---------- short forms and null ----------

  /** The wire form of a constant, or of a default or copy that is left out. */
  function OmittedWire(f: FieldType, v: Option<FieldValue>, d: Local): Wire {
    Wire(FieldBits(f, v, true), [], if StoresNothing(f, v, true) then d else Store(f, d, v))
  }

  /** The short forms: constants, and omitted defaults and copies, of a field of any type. */
  lemma {:induction false} OmittedDecodes(n: Node, v: Option<FieldValue>, p: Pos, d: Local, rest: seq<byte>)
    requires WellFormed(n) && !n.f.typ.Group? && !n.f.typ.Sequence? && !n.f.op.Increment?
    requires LegalField(n.f, v, true, d) && Ahead(p, OmittedWire(n.f, v, d), rest)
    ensures Delivered(n, Field(v, true), DissectValue(n, p, d), p, OmittedWire(n.f, v, d), rest)
  {
    assert p.bytes == rest;
    if n.f.op.Constant? {
      ConstantReads(n, v, p, d);
    } else {
      if !n.f.mandatory {
        SeesPresent(n.f, true, p, d);
        assert Presence(n, p, d) == OptionalField(n.f, p, d, Cell(Empty, BLANK));
      }
      OmittedSettles(n, v, d, p);
      Found(n, p, d);
    }
  }

  lemma {:induction false} ConstantReads(n: Node, v: Option<FieldValue>, p: Pos, d: Local)
    requires WellFormed(n) && !n.f.typ.Group? && !n.f.typ.Sequence? && n.f.op.Constant?
    requires LegalField(n.f, v, true, d) && BitsAhead(p, FieldBits(n.f, v, true))
    ensures Received(DissectValue(n, p, d), if n.f.mandatory then p else AfterBits(p, 1), v)
    ensures DissectValue(n, p, d).value.dict == d
  {
    if !n.f.mandatory {
      NextBit(p, v.Some?);
      assert Presence(n, p, d) == OptionalField(n.f, p, d, Cell(Empty, BLANK));
    }
    Paths(n, p, d);
  }

  /** Absent, under an operator or a type that looks for null itself. */
  lemma {:induction false} NullDecodes(n: Node, p: Pos, d: Local, rest: seq<byte>)
    requires WellFormed(n) && !n.f.typ.Group? && !n.f.typ.Sequence? && (n.f.typ.Decimal? ==> !n.f.op.NoOp?)
    requires LegalField(n.f, None, false, d)
    requires Ahead(p, Wire(FieldBits(n.f, None, false), NULL, d), rest)
    ensures var after := if StoresNothing(n.f, None, false) then d else Store(n.f, d, None);
            var w := Wire(FieldBits(n.f, None, false), NULL, after);
            Delivered(n, Field(None, false), DissectValue(n, p, d), p, w, rest)
  {
    SeesAbsent(n.f, p, d, rest);
    assert Presence(n, p, d) == OptionalField(n.f, p, d, Cell(Empty, BLANK));
  }

  // ---------- string deltas ----------

  /** What the dissector makes of a subtraction length as it is on the wire and an input: nothing is undone,
      and without a stored value the input is taken for the whole. */
  function Spliced(f: FieldType, x: int, input: seq<byte>, d: Local): Option<seq<byte>> {
    match Stored(f, d)
    case Some(Some(u)) => Splice(u.bytes, x, input)
    case _ => Some(input)
  }

  /** A cut is heard as the string it stands for exactly under the condition the sender keeps to. */
  lemma {:induction false} SplicedExact(f: FieldType, m: Msg, d: Local)
    requires m.Cut? && StandsFor(f, m, d)
    ensures Spliced(f, Subtraction(f, m.subtract), m.input, d) == Some(m.whole) <==> HeardRight(f, m, d)
  {
    if !Unset(f, d) {
      var prev := Stored(f, d).value.value.bytes;
      if !f.mandatory && m.subtract >= 0 {
        SpliceLength(prev, m.subtract, m.input);
        SpliceLength(prev, m.subtract + 1, m.input);
      }
    }
  }

  lemma {:induction false} SpliceLength(prev: seq<byte>, subtract: nat, input: seq<byte>)
    ensures var s := Splice(prev, subtract, input); s.Some? ==> |s.value| == |prev| - subtract + |input|
  {
  }

  /** The two parts of a string delta, read in turn. */
  lemma {:induction false} CutRead(x: int, input: seq<byte>, p: Pos, rest: seq<byte>, c: Cell)
    requires InRange(Int32, x) && PlainAscii(input)
    requires p.bytes == EncodeSigned(x) + (AsciiBytes(input) + rest)
    ensures var p1 := Pos(p.offset + |EncodeSigned(x)|, AsciiBytes(input) + rest, p.pmap, p.idx);
            && p.SkipNext() == p1 && !SignedOutOfRange(W32, p.Next()) && ReadSigned(W32, p, UNSET).value.num == x
            && p1.SkipNext() == Pos(p1.offset + |AsciiBytes(input)|, rest, p.pmap, p.idx)
            && ReadAscii(p1, c) == Holding(c, input) && ReadAscii(p1, UNSET).value.bytes == input
  {
    ReadsSigned(W32, p, x, AsciiBytes(input) + rest, UNSET);
    ReadsAscii(p.SkipNext(), input, rest, UNSET);
    ReadsAscii(p.SkipNext(), input, rest, c);
  }

  /** What is shown for such a string: the spliced one, or error D7 when more is cut than there is. */
  function CutCell(s: Option<seq<byte>>): Cell {
    match s case Some(b) => Cell(Exists, Sized(b)) case None => Cell(Error(7), BLANK)
  }

  lemma {:induction false} StoredFound(f: FieldType, d: Local)
    ensures GetValue(f, d, UNSET).0 == Stored(f, d).Some?
    ensures Stored(f, d).Some? && Stored(f, d).value.Some? ==>
              GetValue(f, d, UNSET).1 == Cell(Exists, Stored(f, d).value.value)
    ensures Stored(f, d) == Some(None) ==> GetValue(f, d, UNSET).1.status.Empty?
  {
  }

  /** A string delta, once its two parts are read. */
  lemma {:induction false} AsciiDeltaIs(f: FieldType, x: int, input: seq<byte>, p: Pos, q: Pos, d: Local)
    requires f.op.Delta? && Stored(f, d) != Some(None)
    requires ReadSigned(W32, p, UNSET).value.num == x && !SignedOutOfRange(W32, p.Next())
    requires p.SkipNext().SkipNext() == q && ReadAscii(p.SkipNext(), UNSET).value.bytes == input
    requires ReadAscii(p.SkipNext(), Cell(Exists, BLANK)) == Cell(Exists, Sized(input))
    ensures var c := CutCell(Spliced(f, x, input, d));
            AsciiBody(f, p, d, Cell(Exists, BLANK)) == Done(Step(q, SetValue(f, d, c), c))
  {
    StoredFound(f, d);
  }

  lemma {:induction false} StringCutReads(f: FieldType, x: int, input: seq<byte>, p: Pos, d: Local, rest: seq<byte>)
    requires f.op.Delta? && Stored(f, d) != Some(None) && InRange(Int32, x) && PlainAscii(input)
    requires p.bytes == EncodeSigned(x) + (AsciiBytes(input) + rest)
    ensures var c := CutCell(Spliced(f, x, input, d));
            AsciiBody(f, p, d, Cell(Exists, BLANK)) ==
              Done(Step(Pos(p.offset + |EncodeSigned(x) + AsciiBytes(input)|, rest, p.pmap, p.idx),
                        SetValue(f, d, c), c))
  {
    CutRead(x, input, p, rest, Cell(Exists, BLANK));
    var q := Pos(p.offset + |EncodeSigned(x) + AsciiBytes(input)|, rest, p.pmap, p.idx);
    AsciiDeltaIs(f, x, input, p, q, d);
  }

  /** A delta is never taken for null: an optional one makes room for it. */
  lemma {:induction false} DeltaThere(n: Node, x: int, p: Pos, d: Local, rest: seq<byte>)
    requires WellFormed(n) && !n.f.typ.Group? && n.f.op.Delta? && (n.f.mandatory || x != 0)
    requires p.bytes == EncodeSigned(x) + rest
    ensures Presence(n, p, d) == Step(p, d, Cell(Exists, BLANK))
  {
    if !n.f.mandatory {
      NullIsZero(x);
      SignedRoundTrip(x);
      assert p.bytes[0] == EncodeSigned(x)[0];
      SeesPresent(n.f, false, p, d);
      assert Presence(n, p, d) == OptionalField(n.f, p, d, Cell(Empty, BLANK));
    }
  }

  lemma {:induction false} StringCutAt(n: Node, x: int, input: seq<byte>, p: Pos, d: Local, rest: seq<byte>)
    requires WellFormed(n) && n.f.typ.Ascii? && n.f.op.Delta? && Stored(n.f, d) != Some(None)
    requires InRange(Int32, x) && PlainAscii(input) && (n.f.mandatory || x != 0)
    requires p.bytes == EncodeSigned(x) + (AsciiBytes(input) + rest)
    ensures var c := CutCell(Spliced(n.f, x, input, d));
            var q := Pos(p.offset + |EncodeSigned(x) + AsciiBytes(input)|, rest, p.pmap, p.idx);
            DissectValue(n, p, d) == Done(Result(q, SetValue(n.f, d, c), c, []))
  {
    var c := CutCell(Spliced(n.f, x, input, d));
    var q := Pos(p.offset + |EncodeSigned(x) + AsciiBytes(input)|, rest, p.pmap, p.idx);
    StringCutReads(n.f, x, input, p, d, rest);
    AsciiOutcome(n, p, d, Step(q, SetValue(n.f, d, c), c));
    PassBit(n, p, d);
    DeltaThere(n, x, p, d, AsciiBytes(input) + rest);
    Found(n, p, d);
  }

  /** The outcome of any string delta, mandatory or optional, whatever is stored but an empty value. */
  lemma {:induction false} StringCutHeard(n: Node, subtract: int, input: seq<byte>, p: Pos, d: Local, rest: seq<byte>)
    requires WellFormed(n) && n.f.typ.Ascii? && n.f.op.Delta? && Stored(n.f, d) != Some(None)
    requires InRange(Int32, Subtraction(n.f, subtract)) && PlainAscii(input)
    requires p.bytes == StringCutBytes(n.f, subtract, input) + rest
    ensures var c := CutCell(Spliced(n.f, Subtraction(n.f, subtract), input, d));
            var q := Pos(p.offset + |StringCutBytes(n.f, subtract, input)|, rest, p.pmap, p.idx);
            DissectValue(n, p, d) == Done(Result(q, SetValue(n.f, d, c), c, []))
  {
    var x := Subtraction(n.f, subtract);
    assert p.bytes == EncodeSigned(x) + (AsciiBytes(input) + rest);
    StringCutAt(n, x, input, p, d, rest);
  }

  lemma {:induction false} StringCutDecodes(n: Node, m: Msg, p: Pos, d: Local, rest: seq<byte>)
    requires WellFormed(n) && n.f.typ.Ascii? && m.Cut? && LegalString(n.f, m, d)
    requires Ahead(p, SendString(n.f, m, d), rest)
    ensures Delivered(n, m, DissectValue(n, p, d), p, SendString(n.f, m, d), rest)
  {
    SplicedExact(n.f, m, d);
    assert SendString(n.f, m, d).bytes == StringCutBytes(n.f, m.subtract, m.input);
    StringCutHeard(n, m.subtract, m.input, p, d, rest);
  }

  // ---------- vectors ----------

  lemma {:induction false} ReadsLength(n: Node, s: seq<byte>, omit: bool, p: Pos, d: Local, rest: seq<byte>)
    requires WellFormed(n) && IsVector(n.f.typ) && LegalLength(n, s, omit, d)
    requires Ahead(p, LengthAndBytes(n, s, omit, d), rest)
    ensures var w := SendField(n.children[0].f, Some(Number(|s|)), omit, d);
            DissectValue(n.children[0], p, d) ==
              Done(Result(After(p, w, s + rest), w.dict, Cell(Exists, Number(|s|)), []))
  {
    var w := SendField(n.children[0].f, Some(Number(|s|)), omit, d);
    assert p.bytes == w.bytes + (s + rest);
    FieldDecodes(n.children[0], Some(Number(|s|)), omit, d, p, s + rest);
  }

  lemma {:induction false} ReadsVector(n: Node, s: seq<byte>, omit: bool, p: Pos, d: Local, rest: seq<byte>)
    requires WellFormed(n) && IsVector(n.f.typ) && LegalLength(n, s, omit, d)
    requires Ahead(p, LengthAndBytes(n, s, omit, d), rest)
    ensures var w := LengthAndBytes(n, s, omit, d);
            ReadVector(n, p, d) == Done(Step(After(p, w, rest), w.dict, Cell(Exists, Sized(s))))
  {
    ReadsLength(n, s, omit, p, d, rest);
    assert (s + rest)[..|s|] == s && (s + rest)[|s|..] == rest;
  }

  /** Past the vector's own bit, length and bytes are next. */
  lemma {:induction false} WholeAhead(n: Node, s: seq<byte>, omit: bool, p: Pos, d: Local, rest: seq<byte>)
    requires WellFormed(n) && IsVector(n.f.typ) && (n.f.op.NoOp? || n.f.op.Default? || n.f.op.Copy?)
    requires LegalLength(n, s, omit, d) && Ahead(p, SendWhole(n, s, omit, d), rest)
    ensures Ahead(Past(n.f, p), LengthAndBytes(n, s, omit, d), rest) && (HasBit(n.f) ==> BitsAhead(p, [true]))
    ensures After(Past(n.f, p), LengthAndBytes(n, s, omit, d), rest) == After(p, SendWhole(n, s, omit, d), rest)
  {
    var own, lb := Wire(if HasBit(n.f) then [true] else [], [], d), LengthAndBytes(n, s, omit, d);
    assert Ahead(p, own.Then(lb), rest);
    SplitAhead(p, own, lb, rest);
    assert After(p, own, lb.bytes + rest) == Past(n.f, p);
  }

  /** A vector is taken for absent only when it is optional and the first byte after its bit is the null byte. */
  lemma {:induction false} VectorLook(n: Node, p: Pos, d: Local)
    requires WellFormed(n) && IsVector(n.f.typ) && (n.f.op.NoOp? || n.f.op.Default? || n.f.op.Copy?)
    requires HasBit(n.f) ==> BitsAhead(p, [true])
    ensures Presence(n, p, d) == Step(p, d, Cell(Exists, BLANK)) <==>
              n.f.mandatory || p.bytes == [] || p.bytes[0] != 0x80
    ensures !n.f.mandatory && p.bytes != [] && p.bytes[0] == 0x80 ==> !Presence(n, p, d).cell.status.Exists?
  {
    if HasBit(n.f) { NextBit(p, true); }
    assert n.f.mandatory || Presence(n, p, d) == OptionalField(n.f, p, d, Cell(Empty, BLANK));
  }

  /** The length in front of an optional vector is not taken for null. */
  lemma {:induction false} LengthNotNull(n: Node, s: seq<byte>, d: Local, rest: seq<byte>)
    requires WellFormed(n) && IsVector(n.f.typ) && LegalLength(n, s, false, d) && !n.f.mandatory
    ensures var b := LengthAndBytes(n, s, false, d).bytes + rest; b != [] && b[0] != 0x80
  {
    NotNull(n.children[0].f, Number(|s|), d);
    var w := SendField(n.children[0].f, Some(Number(|s|)), false, d);
    assert (w.bytes + s + rest)[0] == w.bytes[0];
  }

  /** When the length is left out, the first data byte must not be either. */
  lemma {:induction false} DataNotNull(n: Node, s: seq<byte>, d: Local, rest: seq<byte>)
    requires WellFormed(n) && IsVector(n.f.typ) && LegalLength(n, s, true, d)
    ensures LengthAndBytes(n, s, true, d).bytes + rest == s + rest
  {
    var w := SendField(n.children[0].f, Some(Number(|s|)), true, d);
    assert w.bytes == [] && [] + s == s;
  }

  lemma {:induction false} VectorThere(n: Node, s: seq<byte>, omit: bool, p: Pos, d: Local, rest: seq<byte>)
    requires WellFormed(n) && IsVector(n.f.typ) && (n.f.op.NoOp? || n.f.op.Default? || n.f.op.Copy?)
    requires LegalLength(n, s, omit, d) && (omit ==> NotTakenForNull(n, s))
    requires Ahead(p, SendWhole(n, s, omit, d), rest)
    ensures Presence(n, p, d) == Step(p, d, Cell(Exists, BLANK))
  {
    WholeAhead(n, s, omit, p, d, rest);
    if omit {
      DataNotNull(n, s, d, rest);
    } else if !n.f.mandatory {
      LengthNotNull(n, s, d, rest);
    }
    VectorLook(n, p, d);
  }

  lemma {:induction false} VectorOutcome(n: Node, p: Pos, d: Local, s: Step)
    requires WellFormed(n) && IsVector(n.f.typ) && VectorBody(n, p, d, Cell(Exists, BLANK)) == Done(s)
    ensures Body(n, p, d, Cell(Exists, BLANK)) == Done(Result(s.pos, s.dict, s.cell, []))
  {
  }

  lemma {:induction false} WholeReads(n: Node, s: seq<byte>, omit: bool, p: Pos, d: Local, rest: seq<byte>)
    requires WellFormed(n) && IsVector(n.f.typ) && (n.f.op.NoOp? || n.f.op.Default? || n.f.op.Copy?)
    requires LegalLength(n, s, omit, d) && Ahead(p, LengthAndBytes(n, s, omit, d), rest)
    ensures var w := LengthAndBytes(n, s, omit, d);
            Body(n, p, d, Cell(Exists, BLANK)) ==
              Done(Result(After(p, w, rest), Store(n.f, w.dict, Some(Sized(s))), Cell(Exists, Sized(s)), []))
  {
    var w := LengthAndBytes(n, s, omit, d);
    ReadsVector(n, s, omit, p, d, rest);
    VectorOutcome(n, p, d, Step(After(p, w, rest), Store(n.f, w.dict, Some(Sized(s))), Cell(Exists, Sized(s))));
  }

  lemma {:induction false} WholeDecodes(n: Node, s: seq<byte>, omit: bool, p: Pos, d: Local, rest: seq<byte>)
    requires WellFormed(n) && IsVector(n.f.typ) && LegalField(n.f, Some(Sized(s)), false, d)
    requires LegalLength(n, s, omit, d) && (omit ==> NotTakenForNull(n, s))
    requires Ahead(p, SendWhole(n, s, omit, d), rest)
    ensures var w := SendWhole(n, s, omit, d);
            DissectValue(n, p, d) == Done(Result(After(p, w, rest), w.dict, Cell(Exists, Sized(s)), []))
  {
    VectorThere(n, s, omit, p, d, rest);
    WholeRead(n, s, omit, p, d, rest);
  }

  /** Once it is seen to be there. */
  lemma {:induction false} WholeRead(n: Node, s: seq<byte>, omit: bool, p: Pos, d: Local, rest: seq<byte>)
    requires WellFormed(n) && IsVector(n.f.typ) && (n.f.op.NoOp? || n.f.op.Default? || n.f.op.Copy?)
    requires LegalLength(n, s, omit, d) && Ahead(p, SendWhole(n, s, omit, d), rest)
    requires Presence(n, p, d) == Step(p, d, Cell(Exists, BLANK))
    ensures var w := SendWhole(n, s, omit, d);
            DissectValue(n, p, d) == Done(Result(After(p, w, rest), w.dict, Cell(Exists, Sized(s)), []))
  {
    WholeAhead(n, s, omit, p, d, rest);
    WholeReads(n, s, omit, Past(n.f, p), d, rest);
    PassBit(n, p, d);
    Found(n, p, d);
  }

  /** A delta of a vector, once its subtraction length and its bytes are read. */
  lemma {:induction false} VectorDeltaIs(n: Node, x: int, p: Pos, d: Local, s: Step)
    requires WellFormed(n) && IsVector(n.f.typ)
    requires ReadSigned(W64, p, UNSET).value.num == x && ReadVector(n, p.SkipNext(), d) == Done(s)
    ensures var c := CutVector(GetValue(n.f, d, UNSET).0, GetValue(n.f, d, UNSET).1, x, s.cell);
            VectorDelta(n, p, d) == if c.Done? then Done(s.(cell := c.value)) else Faulty
  {
  }

  lemma {:induction false} CutVectorIs(f: FieldType, x: int, input: seq<byte>, d: Local)
    requires Stored(f, d) != Some(None)
    ensures CutVector(GetValue(f, d, UNSET).0, GetValue(f, d, UNSET).1, x, Cell(Exists, Sized(input))) ==
              match Spliced(f, x, input, d) case None => Faulty case Some(b) => Done(Cell(Exists, Sized(b)))
  {
    StoredFound(f, d);
  }

  /** Cutting more than there is makes the code read wild memory. */
  function CutOutcome(q: Pos, dict: Local, s: Option<seq<byte>>): Outcome<Step> {
    match s case None => Faulty case Some(b) => Done(Step(q, dict, Cell(Exists, Sized(b))))
  }

  /** Subtraction length, length, bytes. */
  function VectorCutWire(n: Node, x: int, input: seq<byte>, omit: bool, d: Local): Wire
    requires WellFormed(n) && IsVector(n.f.typ) && LegalLength(n, input, omit, d)
  {
    var w := LengthAndBytes(n, input, omit, d);
    w.(bytes := EncodeSigned(x) + w.bytes)
  }

  /** Past the subtraction length, whatever follows it. */
  lemma {:induction false} PastSubtraction(x: int, w: Wire, p: Pos, rest: seq<byte>)
    requires InRange(Int64, x) && Ahead(p, w.(bytes := EncodeSigned(x) + w.bytes), rest)
    ensures ReadSigned(W64, p, UNSET).value.num == x && Ahead(p.SkipNext(), w, rest)
    ensures After(p.SkipNext(), w, rest) == After(p, w.(bytes := EncodeSigned(x) + w.bytes), rest)
  {
    assert p.bytes == EncodeSigned(x) + (w.bytes + rest);
    ReadsSigned(W64, p, x, w.bytes + rest, UNSET);
    SameBits(p, p.SkipNext(), w.bits);
  }

  lemma {:induction false} CutPieces(n: Node, x: int, input: seq<byte>, omit: bool, p: Pos, d: Local, rest: seq<byte>)
    requires WellFormed(n) && IsVector(n.f.typ) && LegalLength(n, input, omit, d) && InRange(Int64, x)
    requires Ahead(p, VectorCutWire(n, x, input, omit, d), rest)
    ensures var w := VectorCutWire(n, x, input, omit, d);
            && ReadSigned(W64, p, UNSET).value.num == x
            && ReadVector(n, p.SkipNext(), d) == Done(Step(After(p, w, rest), w.dict, Cell(Exists, Sized(input))))
  {
    PastSubtraction(x, LengthAndBytes(n, input, omit, d), p, rest);
    ReadsVector(n, input, omit, p.SkipNext(), d, rest);
  }

  lemma {:induction false} VectorCutReads(n: Node, x: int, input: seq<byte>, omit: bool, p: Pos, d: Local,
                                          rest: seq<byte>)
    requires WellFormed(n) && IsVector(n.f.typ) && Stored(n.f, d) != Some(None)
    requires LegalLength(n, input, omit, d) && InRange(Int64, x) && Ahead(p, VectorCutWire(n, x, input, omit, d), rest)
    ensures var w := VectorCutWire(n, x, input, omit, d);
            VectorDelta(n, p, d) == CutOutcome(After(p, w, rest), w.dict, Spliced(n.f, x, input, d))
  {
    var w := VectorCutWire(n, x, input, omit, d);
    CutPieces(n, x, input, omit, p, d, rest);
    VectorDeltaIs(n, x, p, d, Step(After(p, w, rest), w.dict, Cell(Exists, Sized(input))));
    CutVectorIs(n.f, x, input, d);
  }

  /** A vector after its delta, stored. */
  function CutResult(f: FieldType, q: Pos, dict: Local, s: Option<seq<byte>>): Outcome<Result> {
    match s
    case None => Faulty
    case Some(b) => Done(Result(q, Store(f, dict, Some(Sized(b))), Cell(Exists, Sized(b)), []))
  }

  lemma {:induction false} VectorCutBody(n: Node, p: Pos, d: Local, q: Pos, dict: Local, s: Option<seq<byte>>)
    requires WellFormed(n) && IsVector(n.f.typ) && n.f.op.Delta? && VectorDelta(n, p, d) == CutOutcome(q, dict, s)
    ensures Body(n, p, d, Cell(Exists, BLANK)) == CutResult(n.f, q, dict, s)
  {
    match s
    case None => assert VectorBody(n, p, d, Cell(Exists, BLANK)).Faulty?;
    case Some(b) => VectorOutcome(n, p, d, Step(q, Store(n.f, dict, Some(Sized(b))), Cell(Exists, Sized(b))));
  }

  /** The outcome of any vector delta, mandatory or optional, whatever is stored but an empty value. */
  lemma {:induction false} VectorCutHeard(n: Node, subtract: int, input: seq<byte>, omit: bool, p: Pos, d: Local,
                                          rest: seq<byte>)
    requires WellFormed(n) && IsVector(n.f.typ) && n.f.op.Delta? && Stored(n.f, d) != Some(None)
    requires LegalLength(n, input, omit, d) && InRange(Int64, Subtraction(n.f, subtract))
    requires Ahead(p, VectorCutWire(n, Subtraction(n.f, subtract), input, omit, d), rest)
    ensures var x := Subtraction(n.f, subtract);
            var w := VectorCutWire(n, x, input, omit, d);
            DissectValue(n, p, d) == CutResult(n.f, After(p, w, rest), w.dict, Spliced(n.f, x, input, d))
  {
    var x := Subtraction(n.f, subtract);
    var w := VectorCutWire(n, x, input, omit, d);
    VectorCutReads(n, x, input, omit, p, d, rest);
    VectorCutBody(n, p, d, After(p, w, rest), w.dict, Spliced(n.f, x, input, d));
    VectorCutThere(n, subtract, input, omit, p, d, rest);
    PassBit(n, p, d);
    Found(n, p, d);
  }

  lemma {:induction false} VectorCutThere(n: Node, subtract: int, input: seq<byte>, omit: bool, p: Pos, d: Local,
                                          rest: seq<byte>)
    requires WellFormed(n) && IsVector(n.f.typ) && n.f.op.Delta? && LegalLength(n, input, omit, d)
    requires Ahead(p, VectorCutWire(n, Subtraction(n.f, subtract), input, omit, d), rest)
    ensures Presence(n, p, d) == Step(p, d, Cell(Exists, BLANK))
  {
    var w := LengthAndBytes(n, input, omit, d);
    assert p.bytes == EncodeSigned(Subtraction(n.f, subtract)) + (w.bytes + rest);
    DeltaThere(n, Subtraction(n.f, subtract), p, d, w.bytes + rest);
  }

  /** A vector that was sent whole. */
  lemma {:induction false} WholeDelivered(n: Node, m: Msg, s: seq<byte>, omit: bool, p: Pos, d: Local, rest: seq<byte>)
    requires WellFormed(n) && IsVector(n.f.typ) && LegalField(n.f, Some(Sized(s)), false, d)
    requires LegalLength(n, s, omit, d) && (omit ==> NotTakenForNull(n, s))
    requires Ahead(p, SendWhole(n, s, omit, d), rest) && (m == Unsized(s) || m == Field(Some(Sized(s)), false))
    ensures Delivered(n, m, DissectValue(n, p, d), p, SendWhole(n, s, omit, d), rest)
  {
    WholeDecodes(n, s, omit, p, d, rest);
  }

  lemma {:induction false} VectorCutDecodes(n: Node, m: Msg, p: Pos, d: Local, rest: seq<byte>)
    requires WellFormed(n) && IsVector(n.f.typ) && m.Cut? && LegalVector(n, m, d)
    requires Ahead(p, SendVector(n, m, d), rest)
    ensures Delivered(n, m, DissectValue(n, p, d), p, SendVector(n, m, d), rest)
  {
    SplicedExact(n.f, m, d);
    VectorCutHeard(n, m.subtract, m.input, m.unsized, p, d, rest);
  }

  lemma {:induction false} VectorDecodes(n: Node, m: Msg, p: Pos, d: Local, rest: seq<byte>)
    requires WellFormed(n) && IsVector(n.f.typ) && LegalVector(n, m, d)
    requires Ahead(p, SendVector(n, m, d), rest)
    ensures Delivered(n, m, DissectValue(n, p, d), p, SendVector(n, m, d), rest)
  {
    match m
    case Cut(_, _, _, _) => VectorCutDecodes(n, m, p, d, rest);
    case Unsized(s) => WholeDelivered(n, m, s, true, p, d, rest);
    case Field(v, omit) =>
      if omit {
        OmittedDecodes(n, v, p, d, rest);
      } else if v.None? {
        NullDecodes(n, p, d, rest);
      } else {
        WholeDelivered(n, m, v.value.bytes, false, p, d, rest);
      }
  }

  // ---------- decimals ----------

  lemma {:induction false} PartsOutcome(n: Node, p: Pos, d: Local, e: Result, m: Result)
    requires WellFormed(n) && n.f.typ.Decimal? && !n.f.op.Delta?
    requires DissectValue(n.children[0], p, d) == Done(e) && DissectValue(n.children[1], e.pos, e.dict) == Done(m)
    requires m.cell.status.Exists?
    ensures var c := Cell(Exists, m.cell.value.(exponent := e.cell.value.num));
            DecimalBody(n, p, d, Cell(Exists, BLANK)) == Done(Step(m.pos, SetValue(n.f, m.dict, c), c))
  {
  }

  /** Exponent then mantissa, each with its own operator. */
  lemma {:induction false} PartsRead(n: Node, e: Msg, t: Msg, p: Pos, d: Local, rest: seq<byte>)
    requires WellFormed(n) && n.f.typ.Decimal? && BothParts(n, e, t, d) && Ahead(p, SendParts(n, e, t, d), rest)
    ensures var w := SendParts(n, e, t, d);
            DecimalBody(n, p, d, Cell(Exists, BLANK)) ==
              Done(Step(After(p, w, rest), Store(n.f, w.dict, Some(DecimalOf(e, t))), Cell(Exists, DecimalOf(e, t))))
  {
    var we := SendField(n.children[0].f, e.v, e.omit, d);
    var wm := SendField(n.children[1].f, t.v, t.omit, we.dict);
    SplitAhead(p, we, wm, rest);
    FieldDecodes(n.children[0], e.v, e.omit, d, p, wm.bytes + rest);
    var q := After(p, we, wm.bytes + rest);
    FieldDecodes(n.children[1], t.v, t.omit, we.dict, q, rest);
    PartsOutcome(n, p, d, DissectValue(n.children[0], p, d).value, DissectValue(n.children[1], q, we.dict).value);
  }

  /** An optional decimal without operator is there when its exponent is. */
  lemma {:induction false} PartsThere(n: Node, e: Msg, t: Msg, p: Pos, d: Local, rest: seq<byte>)
    requires WellFormed(n) && n.f.typ.Decimal? && n.f.op.NoOp? && LegalParts(n, e, t, d)
    requires Ahead(p, SendParts(n, e, t, d), rest)
    ensures Presence(n, p, d) == Step(p, d, Cell(Exists, BLANK))
  {
    var ef := n.children[0].f;
    var we := SendField(ef, e.v, e.omit, d);
    var wm := SendField(n.children[1].f, t.v, t.omit, we.dict);
    if !n.f.mandatory {
      SplitAhead(p, we, wm, rest);
      FindsPresent(ef, e.v, e.omit, d, p, wm.bytes + rest);
      assert Presence(n, p, d) == Optional(n.children[0], p, d, Cell(Empty, BLANK));
      assert Presence(n, p, d) == OptionalField(ef, p, d, Cell(Empty, BLANK));
    }
  }

  /** Under an operator it is taken for absent exactly when it is optional and the first byte after its bit is the null
      byte. */
  lemma {:induction false} WholeLook(n: Node, p: Pos, d: Local)
    requires WellFormed(n) && n.f.typ.Decimal? && (n.f.op.Default? || n.f.op.Copy?) && BitsAhead(p, [true])
    ensures if n.f.mandatory || p.bytes == [] || p.bytes[0] != 0x80 then
              Presence(n, p, d) == Step(p, d, Cell(Exists, BLANK))
            else !Presence(n, p, d).cell.status.Exists?
  {
    NextBit(p, true);
    assert n.f.mandatory || Presence(n, p, d) == OptionalField(n.f, p, d, Cell(Empty, BLANK));
  }

  /** Once it is seen to be there. */
  lemma {:induction false} PartsHeard(n: Node, e: Msg, t: Msg, p: Pos, d: Local, rest: seq<byte>)
    requires WellFormed(n) && n.f.typ.Decimal? && BothParts(n, e, t, d)
    requires Ahead(p, OwnBit(n, d).Then(SendParts(n, e, t, d)), rest)
    requires Presence(n, p, d) == Step(p, d, Cell(Exists, BLANK))
    ensures var w := OwnBit(n, d).Then(SendParts(n, e, t, d));
            DissectValue(n, p, d) ==
              Done(Result(After(p, w, rest), Store(n.f, w.dict, Some(DecimalOf(e, t))), Cell(Exists, DecimalOf(e, t)),
                          []))
  {
    var w := SendParts(n, e, t, d);
    var q := PastOwnBit(n, p, d, w, rest);
    PartsRead(n, e, t, q, d, rest);
    DecimalOutcome(n, q, d, Step(After(q, w, rest), Store(n.f, w.dict, Some(DecimalOf(e, t))),
                                 Cell(Exists, DecimalOf(e, t))));
    Found(n, p, d);
  }

  lemma {:induction false} PartsDecode(n: Node, e: Msg, t: Msg, p: Pos, d: Local, rest: seq<byte>)
    requires WellFormed(n) && n.f.typ.Decimal? && LegalParts(n, e, t, d)
    requires Ahead(p, SendDecimal(n, Parts(e, t), d), rest)
    ensures Delivered(n, Parts(e, t), DissectValue(n, p, d), p, SendDecimal(n, Parts(e, t), d), rest)
  {
    var w := SendParts(n, e, t, d);
    assert Ahead(p, OwnBit(n, d).Then(w), rest);
    if n.f.op.NoOp? {
      assert [] + w.bits == w.bits && [] + w.bytes == w.bytes;
      PartsThere(n, e, t, p, d, rest);
    } else {
      FirstBitAhead(p, [true] + w.bits);
      assert p.bytes == w.bytes + rest by { assert [] + w.bytes == w.bytes; }
      WholeLook(n, p, d);
    }
    PartsHeard(n, e, t, p, d, rest);
  }

  /** The whole decimal's own bit, then its parts. */
  lemma {:induction false} PastOwnBit(n: Node, p: Pos, d: Local, w: Wire, rest: seq<byte>) returns (q: Pos)
    requires WellFormed(n) && (n.f.op.NoOp? || n.f.op.Default? || n.f.op.Copy?) && n.f.typ.Decimal?
    requires Ahead(p, OwnBit(n, d).Then(w), rest)
    ensures Present(n, p, d, Cell(Exists, BLANK)) == Body(n, q, d, Cell(Exists, BLANK))
    ensures Ahead(q, w, rest) && After(q, w, rest) == After(p, OwnBit(n, d).Then(w), rest)
  {
    var own := OwnBit(n, d);
    SplitAhead(p, own, w, rest);
    PassBit(n, p, d);
    q := After(p, own, w.bytes + rest);
    assert q == Past(n.f, p) by { assert w.bytes + rest == p.bytes; }
  }

  lemma {:induction false} DiffPart(f: FieldType, b: FieldValue, x: int, p: Pos, d: Local, rest: seq<byte>)
    requires f.op.Delta? && Base(f, d) == Some(b) && InRange(Int64, x) && p.bytes == EncodeSigned(x) + rest
    ensures IntOp(f, p, d, UNSET) ==
              IntStep(Pos(p.offset + |EncodeSigned(x)|, rest, p.pmap, p.idx), Cell(Exists, b), Unshifted(f, x), false)
  {
    DeltaReads(f, p, x, rest, Cell(Exists, b));
    DeltaBase(f, p, d);
  }

  /** Whatever two differences were sent are added to exponent and mantissa of the base. */
  lemma {:induction false} DiffAt(f: FieldType, b: FieldValue, x: int, y: int, v: FieldValue, p: Pos, d: Local,
                                  rest: seq<byte>)
    requires f.op.Delta? && Base(f, d) == Some(b) && InRange(Int64, x) && InRange(Int64, y)
    requires p.bytes == EncodeSigned(x) + (EncodeSigned(y) + rest)
    requires v == FieldValue(W64.WrapSigned(Unshifted(f, y) + b.num), W32.WrapSigned(Unshifted(f, x) + b.exponent), [])
    ensures DecimalDelta(f, p, d, Cell(Exists, BLANK)) ==
              Done(Step(Pos(p.offset + |EncodeSigned(x)| + |EncodeSigned(y)|, rest, p.pmap, p.idx),
                        Store(f, d, Some(v)), Cell(Exists, v)))
  {
    DiffPart(f, b, x, p, d, EncodeSigned(y) + rest);
    DiffPart(f, b, y, Pos(p.offset + |EncodeSigned(x)|, EncodeSigned(y) + rest, p.pmap, p.idx), d, rest);
    DeltaBase(f, p, d);
  }

  lemma {:induction false} DiffAdds(f: FieldType, v: FieldValue, d: Local)
    requires LegalDiff(f, v, d)
    ensures var b := Base(f, d).value;
            && W32.WrapSigned(Unshifted(f, ExponentDifference(f, v, d)) + b.exponent) == v.exponent
            && W64.WrapSigned(Unshifted(f, v.num - b.num) + b.num) == v.num
            && v == FieldValue(v.num, v.exponent, [])
  {
  }

  lemma {:induction false} DecimalOutcome(n: Node, p: Pos, d: Local, s: Step)
    requires WellFormed(n) && n.f.typ.Decimal? && DecimalBody(n, p, d, Cell(Exists, BLANK)) == Done(s)
    ensures Body(n, p, d, Cell(Exists, BLANK)) == Done(Result(s.pos, s.dict, s.cell, []))
  {
  }

  lemma {:induction false} DiffReads(f: FieldType, v: FieldValue, x: int, y: int, p: Pos, d: Local, rest: seq<byte>)
    requires f.typ.Decimal? && LegalDiff(f, v, d) && x == ExponentDifference(f, v, d)
    requires y == v.num - Base(f, d).value.num
    requires p.bytes == EncodeSigned(x) + (EncodeSigned(y) + rest)
    ensures DecimalDelta(f, p, d, Cell(Exists, BLANK)) ==
              Done(Step(Pos(p.offset + |EncodeSigned(x)| + |EncodeSigned(y)|, rest, p.pmap, p.idx),
                        Store(f, d, Some(v)), Cell(Exists, v)))
  {
    DiffAdds(f, v, d);
    DiffAt(f, Base(f, d).value, x, y, v, p, d, rest);
  }

  lemma {:induction false} DiffBody(n: Node, v: FieldValue, x: int, y: int, p: Pos, d: Local, rest: seq<byte>)
    requires WellFormed(n) && n.f.typ.Decimal? && LegalDiff(n.f, v, d)
    requires x == ExponentDifference(n.f, v, d) && y == v.num - Base(n.f, d).value.num
    requires p.bytes == EncodeSigned(x) + (EncodeSigned(y) + rest)
    ensures var q := Pos(p.offset + |EncodeSigned(x)| + |EncodeSigned(y)|, rest, p.pmap, p.idx);
            Body(n, p, d, Cell(Exists, BLANK)) == Done(Result(q, Store(n.f, d, Some(v)), Cell(Exists, v), []))
  {
    var q := Pos(p.offset + |EncodeSigned(x)| + |EncodeSigned(y)|, rest, p.pmap, p.idx);
    DiffReads(n.f, v, x, y, p, d, rest);
    DecimalOutcome(n, p, d, Step(q, Store(n.f, d, Some(v)), Cell(Exists, v)));
  }

  lemma {:induction false} DiffHeard(n: Node, v: FieldValue, x: int, y: int, p: Pos, d: Local, rest: seq<byte>)
    requires WellFormed(n) && n.f.typ.Decimal? && LegalDiff(n.f, v, d)
    requires x == ExponentDifference(n.f, v, d) && y == v.num - Base(n.f, d).value.num
    requires p.bytes == EncodeSigned(x) + (EncodeSigned(y) + rest)
    ensures var q := Pos(p.offset + |EncodeSigned(x)| + |EncodeSigned(y)|, rest, p.pmap, p.idx);
            DissectValue(n, p, d) == Done(Result(q, Store(n.f, d, Some(v)), Cell(Exists, v), []))
  {
    DiffBody(n, v, x, y, p, d, rest);
    PassBit(n, p, d);
    DeltaThere(n, x, p, d, EncodeSigned(y) + rest);
    Found(n, p, d);
  }

  lemma {:induction false} DiffSent(n: Node, v: FieldValue, d: Local)
    requires WellFormed(n) && n.f.typ.Decimal? && LegalDecimal(n, Field(Some(v), false), d)
    ensures LegalDiff(n.f, v, d)
    ensures var x, y := ExponentDifference(n.f, v, d), v.num - Base(n.f, d).value.num;
            SendDecimal(n, Field(Some(v), false), d) ==
              Wire([], EncodeSigned(x) + EncodeSigned(y), Store(n.f, d, Some(v)))
  {
  }

  lemma {:induction false} ShownAs(n: Node, v: FieldValue, r: Outcome<Result>, p: Pos, w: Wire, rest: seq<byte>)
    requires r == Done(Result(After(p, w, rest), w.dict, Cell(Exists, v), [])) && p.bytes == w.bytes + rest
    ensures Delivered(n, Field(Some(v), false), r, p, w, rest)
  {
  }

  lemma {:induction false} DiffDecodes(n: Node, v: FieldValue, p: Pos, d: Local, rest: seq<byte>)
    requires WellFormed(n) && n.f.typ.Decimal? && LegalDecimal(n, Field(Some(v), false), d)
    requires Ahead(p, SendDecimal(n, Field(Some(v), false), d), rest)
    ensures var m := Field(Some(v), false);
            Delivered(n, m, DissectValue(n, p, d), p, SendDecimal(n, m, d), rest)
  {
    var x, y := ExponentDifference(n.f, v, d), v.num - Base(n.f, d).value.num;
    DiffSent(n, v, d);
    var w := Wire([], EncodeSigned(x) + EncodeSigned(y), Store(n.f, d, Some(v)));
    assert p.bytes == EncodeSigned(x) + (EncodeSigned(y) + rest);
    DiffHeard(n, v, x, y, p, d, rest);
    ShownAs(n, v, DissectValue(n, p, d), p, w, rest);
  }

  /** An absent decimal is recognised by its exponent. */
  lemma {:induction false} AbsentDecimal(n: Node, p: Pos, d: Local, rest: seq<byte>)
    requires WellFormed(n) && n.f.typ.Decimal? && n.f.op.NoOp? && LegalDecimal(n, Field(None, false), d)
    requires Ahead(p, SendDecimal(n, Field(None, false), d), rest)
    ensures Delivered(n, Field(None, false), DissectValue(n, p, d), p, SendDecimal(n, Field(None, false), d), rest)
  {
    var e := n.children[0];
    SeesAbsent(e.f, p, d, rest);
    assert Optional(e, p, d, Cell(Empty, BLANK)) == OptionalField(e.f, p, d, Cell(Empty, BLANK));
    assert Presence(n, p, d) == Optional(e, p, d, Cell(Empty, BLANK));
  }

  lemma {:induction false} DecimalDecodes(n: Node, m: Msg, p: Pos, d: Local, rest: seq<byte>)
    requires WellFormed(n) && n.f.typ.Decimal? && LegalDecimal(n, m, d)
    requires Ahead(p, SendDecimal(n, m, d), rest)
    ensures Delivered(n, m, DissectValue(n, p, d), p, SendDecimal(n, m, d), rest)
  {
    match m
    case Parts(e, t) => PartsDecode(n, e, t, p, d, rest);
    case Field(v, omit) =>
      if omit {
        OmittedDecodes(n, v, p, d, rest);
      } else if v.Some? {
        DiffDecodes(n, v.value, p, d, rest);
      } else if n.f.op.NoOp? {
        AbsentDecimal(n, p, d, rest);
      } else {
        NullDecodes(n, p, d, rest);
      }
  }
}
