/** Whether the static walk over a template counts the presence bits that are used when messages are dissected: a
    group is flagged when, and only when, one of its members can use a bit of the map around it. */
module Flags {
  import opened Fields
  import opened Template
  import opened Dictionary
  import opened Reader
  import opened StopBit
  import opened Dissection
  import opened Structure

  // ---------- what is said ----------

  /** With bits left at p, dissecting the field uses some. */
  predicate MovesAt(n: Node, p: Pos, d: Local)
    requires WellFormed(n)
  {
    var r := DissectValue(n, p, d);
    p.idx < |p.pmap| && r.Done? && r.value.pos.idx > p.idx
  }

  /** On some packet, with some map and some dictionary. */
  ghost predicate Moves(n: Node)
    requires WellFormed(n)
  {
    exists p, d :: MovesAt(n, p, d)
  }

  predicate AdvancesAt(ns: seq<Node>, p: Pos, d: Local)
    requires AllWellFormed(ns)
  {
    var r := WalkTo(ns, |ns|, p, d);
    p.idx < |p.pmap| && r.Done? && r.value.pos.idx > p.idx
  }

  /** Some of the siblings, walked one after the other from some place, use a bit. */
  ghost predicate Advances(ns: seq<Node>)
    requires AllWellFormed(ns)
  {
    exists j, k, p, d :: 0 <= j <= k <= |ns| && AdvancesAt(ns[j..k], p, d)
  }

  predicate PartNeedsBit(n: Node) { exists i | 0 <= i < |n.children| :: RequiresPmapBit(n.children[i].f) }

  /** A bit that is counted and never used: that of a tail that must be there, or of an increment on a decimal that
      must be, and those of the parts of a vector or decimal that its own operator leaves unread. */
  predicate Overcounted(n: Node) {
    match n.f.typ
    case Group => false
    case Sequence => false
    case Decimal =>
      if n.f.op.Delta? || (n.f.op.Constant? && n.f.mandatory) then PartNeedsBit(n)
      else n.f.mandatory && (n.f.op.Tail? || n.f.op.Increment?) && !PartNeedsBit(n)
    case _ =>
      n.f.mandatory && (if n.f.op.Constant? then PartNeedsBit(n) else n.f.op.Tail? && !PartNeedsBit(n))
  }

  /** The C type of a length. */
  predicate LengthUnsigned(n: Node) { IsVector(n.f.typ) && n.children != [] ==> n.children[0].f.value.num >= 0 }

  predicate AllLengthsUnsigned(ns: seq<Node>) { forall i | 0 <= i < |ns| :: LengthUnsigned(ns[i]) }

  // ---------- bits that are never used ----------

  lemma {:induction false} PartsStill(n: Node, i: nat, p: Pos, d: Local)
    requires WellFormed(n) && (n.f.typ.Decimal? || IsVector(n.f.typ)) && i < |n.children| && !PartNeedsBit(n)
    ensures var r := DissectValue(n.children[i], p, d); r.Done? ==> r.value.pos.idx == p.idx
  {
    NoBitsConsumed(n.children[i], p, d);
  }

  lemma {:induction false} CutStill(n: Node, p: Pos, d: Local, c: Cell)
    requires WellFormed(n) && IsVector(n.f.typ) && n.f.op.Tail? && !PartNeedsBit(n)
    ensures var r := Body(n, p, d, c); r.Done? ==> r.value.pos.idx == p.idx
  {
    var q := p.SkipNext();
    PartsStill(n, 0, q, d);
    if VectorBody(n, p, d, c).Done? {
      assert VectorDelta(n, p, d).Done? && ReadVector(n, q, d).Done?;
    }
  }

  lemma {:induction false} BodyStill(n: Node, p: Pos, d: Local, c: Cell)
    requires WellFormed(n) && Overcounted(n) && !n.f.op.Constant?
    ensures var r := Body(n, p, d, c); r.Done? ==> r.value.pos.idx == p.idx
  {
    if n.f.typ.Decimal? {
      if !n.f.op.Delta? && DecimalBody(n, p, d, c).Done? {
        PartsStill(n, 0, p, d);
        var e := DissectValue(n.children[0], p, d).value;
        PartsStill(n, 1, e.pos, e.dict);
      }
    } else if n.f.typ.Ascii? {
      AsciiBits(n.f, p, d, c);
    } else {
      CutStill(n, p, d, c);
    }
  }

  lemma {:induction false} OvercountedStill(n: Node, p: Pos, d: Local)
    requires WellFormed(n) && Overcounted(n)
    ensures var r := DissectValue(n, p, d); r.Done? ==> r.value.pos.idx == p.idx
  {
    Paths(n, p, d);
    var s := Presence(n, p, d);
    assert s.pos.idx == p.idx by {
      assert n.f.mandatory || s == OptionalField(n.f, p, d, Cell(Empty, BLANK));
    }
    var (used, s1) := Operate(n.f, s.pos, s.dict, s.cell);
    assert s1.pos == s.pos;
    if s.cell.status.Exists? && !used && DissectValue(n, p, d).Done? {
      BodyStill(n, s1.pos, s1.dict, s1.cell);
    }
  }

  // ---------- bits that are used ----------

  const SPARE := [true, true, true, true]

  function Start(bit: bool, bytes: seq<byte>): Pos { Pos(0, bytes, [bit] + SPARE, 0) }

  /** An optional field with a bit of its own is absent when its bit is set and a null follows; a constant when its bit
      is clear. */
  lemma {:induction false} AbsentMoves(n: Node)
    requires WellFormed(n) && !n.f.mandatory && RequiresPmapBit(n.f) && !n.f.typ.Sequence?
    ensures MovesAt(n, Start(!n.f.op.Constant? && !n.f.typ.Group?, [0x80]), map[])
  {
    var p := Start(!n.f.op.Constant? && !n.f.typ.Group?, [0x80]);
    assert Presence(n, p, map[]) == OptionalField(n.f, p, map[], Cell(Empty, BLANK));
    Paths(n, p, map[]);
  }

  lemma {:induction false} IntegerMoves(n: Node)
    requires WellFormed(n) && IsInteger(n.f.typ) && RequiresPmapBit(n.f)
    ensures MovesAt(n, Start(true, []), map[])
  {
    LeafConsumesItsBit(n, Start(true, []), map[]);
    IntegerDone(n, Start(true, []), map[]);
  }

  /** What has its bit set is read. */
  lemma {:induction false} BitShifted(n: Node, p: Pos, d: Local)
    requires WellFormed(n) && n.f.mandatory && (n.f.op.Default? || n.f.op.Copy?)
    requires p.pmap == [true] + SPARE && p.idx == 0
    ensures DissectValue(n, p, d) == Body(n, p.(idx := 1), d, Cell(Exists, BLANK))
  {
    Paths(n, p, d);
    assert p.pmap[0];
  }

  lemma {:induction false} StringMoves(n: Node)
    requires WellFormed(n) && n.f.typ.Ascii? && RequiresPmapBit(n.f) && n.f.mandatory && !Overcounted(n)
    ensures MovesAt(n, Start(true, []), map[])
  {
    var p := Start(true, []);
    BitShifted(n, p, map[]);
    AsciiBits(n.f, p.(idx := 1), map[], Cell(Exists, BLANK));
  }

  lemma {:induction false} NoRounds(g: Node, i: nat, p: Pos, d: Local)
    requires WellFormed(g) && p.bytes == []
    ensures ElementsTo(g, i, p, d) == Done(Walked(p, d, []))
    decreases i
  {
    if i > 0 {
      NoRounds(g, i - 1, p, d);
    }
  }

  lemma {:induction false} IntegerDone(n: Node, p: Pos, d: Local)
    requires WellFormed(n) && IsInteger(n.f.typ)
    ensures DissectValue(n, p, d).Done?
  {
    assert Tame(n);
    TameIsSafe(n, p, d);
  }

  lemma {:induction false} SequenceMoves(n: Node)
    requires WellFormed(n) && FlagsRight(n) && n.f.typ.Sequence? && UsesBits(n)
    ensures MovesAt(n, Start(true, []), map[])
  {
    var p := Start(true, []);
    assert RequiresPmapBit(n.children[0].f) by {
      var i :| 0 <= i < |n.children| && UsesBits(n.children[i]);
    }
    SequenceConsumesLengthBit(n, p, map[]);
    Paths(n, p, map[]);
    var s := Presence(n, p, map[]);
    if s.cell.status.Exists? {
      IntegerDone(n.children[0], s.pos, s.dict);
      var l := DissectValue(n.children[0], s.pos, s.dict).value;
      NoRounds(n.children[1], if l.cell.value.num < 0 then 0 else l.cell.value.num, l.pos, l.dict);
    }
  }

  lemma {:induction false} DecimalDone(n: Node, p: Pos, d: Local)
    requires WellFormed(n) && n.f.typ.Decimal? && !n.f.op.Delta?
    ensures DissectValue(n, p, d).Done?
  {
    Paths(n, p, d);
    var s := Presence(n, p, d);
    var s1 := Operate(n.f, s.pos, s.dict, s.cell).1;
    IntegerDone(n.children[0], s1.pos, s1.dict);
    var e := DissectValue(n.children[0], s1.pos, s1.dict).value;
    IntegerDone(n.children[1], e.pos, e.dict);
  }

  lemma {:induction false} DecimalMoves(n: Node)
    requires WellFormed(n) && n.f.typ.Decimal? && UsesBits(n) && !Overcounted(n)
    requires n.f.mandatory || !RequiresPmapBit(n.f)
    ensures MovesAt(n, Start(true, []), map[])
  {
    var p := Start(true, []);
    DecimalDone(n, p, map[]);
    if n.f.op.NoOp? {
      ExponentThere(n, p, map[]);
      DecimalConsumesPartsBits(n, p, map[]);
    } else {
      DecimalConsumesItsBits(n, p, map[]);
    }
  }

  /** A decimal is there unless its exponent's own bit says otherwise, or a null. */
  lemma {:induction false} ExponentThere(n: Node, p: Pos, d: Local)
    requires WellFormed(n) && n.f.typ.Decimal? && n.f.op.NoOp? && p.bytes == [] && UsesBits(n)
    ensures RequiresPmapBit(n.children[0].f) || (RequiresPmapBit(n.children[1].f) && There(n, p, d))
  {
    var e := n.children[0];
    var i :| 0 <= i < |n.children| && UsesBits(n.children[i]);
    assert n.f.mandatory || Presence(n, p, d) == OptionalField(e.f, p, d, Cell(Empty, BLANK)) by {
      assert n.f.mandatory || Presence(n, p, d) == Optional(e, p, d, Cell(Empty, BLANK));
    }
  }

  // ---------- vectors, whose lengths must fit ----------

  lemma {:induction false} OneByte(p: Pos, b: byte, tail: seq<byte>)
    requires b >= 0x80 && p.bytes == [b] + tail
    ensures p.Next() == [b] && p.SkipNext() == Pos(p.offset + 1, tail, p.pmap, p.idx)
    ensures Value([b]) == b - 0x80 && (b < 0xC0 ==> SignedValue([b]) == b - 0x80)
  {
    assert IsStopBit([b]);
    CountStopDelimits([b], tail);
    assert [b][..0] == [];
    assert ([b] + tail)[..1] == [b] && ([b] + tail)[1..] == tail;
  }

  /** What the length of a vector is when its bit is set, a zero follows, and nothing is stored. */
  function LengthRead(f: FieldType): int {
    match f.op
    case Constant => f.value.num
    case Delta => Wrap(UInt32, if f.key.Some? && f.hasDefault then f.value.num else 0)
    case _ => 0
  }

  lemma {:induction false} LengthIs(l: Node, q: Pos, tail: seq<byte>)
    requires WellFormed(l) && l.f.typ.UInt32? && l.f.mandatory && PeekPmap(q) && q.bytes == [0x80] + tail
    ensures var r := DissectValue(l, q, map[]);
            r.Done? && r.value.cell.value.num == LengthRead(l.f) && |r.value.pos.bytes| >= |tail|
  {
    OneByte(q, 0x80, tail);
    OneByte(ShiftPmap(q).1, 0x80, tail);
    Paths(l, q, map[]);
  }

  lemma {:induction false} ReadMoves(n: Node)
    requires WellFormed(n) && IsVector(n.f.typ) && LengthUnsigned(n)
    requires n.f.mandatory && (n.f.op.Default? || n.f.op.Copy?)
    ensures Moves(n)
  {
    var l := n.children[0];
    var tail := seq(LengthRead(l.f), _ => 0x80);
    var p := Start(true, [0x80] + tail);
    BitShifted(n, p, map[]);
    LengthIs(l, p.(idx := 1), tail);
    assert ReadVector(n, p.(idx := 1), map[]).Done?;
    assert VectorBody(n, p.(idx := 1), map[], Cell(Exists, BLANK)).Done?;
    assert MovesAt(n, p, map[]);
  }

  /** A length with a bit of its own, sent as zero: absent when it is a constant. */
  function LengthStart(l: FieldType, before: seq<byte>): Pos {
    Start(!l.op.Constant?, before + [if l.mandatory then 0x80 else 0x81])
  }

  lemma {:induction false} ZeroLength(l: Node, q: Pos)
    requires WellFormed(l) && l.f.typ.UInt32? && RequiresPmapBit(l.f)
    requires q.pmap == [!l.f.op.Constant?] + SPARE && q.idx == 0 && q.bytes == [if l.f.mandatory then 0x80 else 0x81]
    ensures var r := DissectValue(l, q, map[]); r.Done? && r.value.cell.value.num == 0 && r.value.pos.idx > 0
  {
    LeafConsumesItsBit(l, q, map[]);
    assert q.pmap[0] == !l.f.op.Constant?;
    if l.f.mandatory {
      assert q.bytes == [0x80] + [];
      LengthIs(l, q, []);
    } else {
      assert q.bytes == [0x81] + [];
      OneByte(ShiftPmap(q).1, 0x81, []);
      IntegerDone(l, q, map[]);
      assert Presence(l, q, map[]) == OptionalField(l.f, q, map[], Cell(Empty, BLANK));
      Paths(l, q, map[]);
    }
  }

  lemma {:induction false} NothingToCut(n: Node, p: Pos)
    requires WellFormed(n) && IsVector(n.f.typ) && ReadVector(n, p.SkipNext(), map[]).Done?
    ensures VectorDelta(n, p, map[]).Done?
  {
  }

  /** A vector whose first byte is no null, and which is read. */
  lemma {:induction false} BodyMoves(n: Node, p: Pos)
    requires WellFormed(n) && IsVector(n.f.typ) && RequiresPmapBit(n.children[0].f) && p.idx < |p.pmap|
    requires n.f.op.NoOp? || n.f.op.Delta? || (n.f.op.Tail? && n.f.mandatory)
    requires n.f.mandatory || (p.bytes != [] && p.bytes[0] != 0x80)
    requires if n.f.op.NoOp? then ReadVector(n, p, map[]).Done? else VectorDelta(n, p, map[]).Done?
    ensures Moves(n)
  {
    var c := Cell(Exists, BLANK);
    assert VectorBody(n, p, map[], c).Done?;
    VectorBits(n, p, map[], c);
    VectorSeen(n, p);
    VectorEnd(n, p);
    assert MovesAt(n, p, map[]);
  }

  lemma {:induction false} VectorEnd(n: Node, p: Pos)
    requires WellFormed(n) && IsVector(n.f.typ) && VectorBody(n, p, map[], Cell(Exists, BLANK)).Done?
    ensures var r := Body(n, p, map[], Cell(Exists, BLANK));
            r.Done? && r.value.pos == VectorBody(n, p, map[], Cell(Exists, BLANK)).value.pos
  {
  }

  lemma {:induction false} VectorSeen(n: Node, p: Pos)
    requires WellFormed(n) && IsVector(n.f.typ) && (n.f.op.NoOp? || n.f.op.Delta? || (n.f.op.Tail? && n.f.mandatory))
    requires n.f.mandatory || (p.bytes != [] && p.bytes[0] != 0x80)
    ensures DissectValue(n, p, map[]) == Body(n, p, map[], Cell(Exists, BLANK))
  {
    assert n.f.mandatory || Presence(n, p, map[]) == OptionalField(n.f, p, map[], Cell(Empty, BLANK));
    Paths(n, p, map[]);
  }

  lemma {:induction false} PlainLengthMoves(n: Node)
    requires WellFormed(n) && IsVector(n.f.typ) && n.f.op.NoOp? && RequiresPmapBit(n.children[0].f)
    ensures Moves(n)
  {
    var l := n.children[0];
    var p := LengthStart(l.f, []);
    assert p.bytes == [if l.f.mandatory then 0x80 else 0x81];
    ZeroLength(l, p);
    assert ReadVector(n, p, map[]).Done?;
    BodyMoves(n, p);
  }

  lemma {:induction false} CutLengthMoves(n: Node)
    requires WellFormed(n) && IsVector(n.f.typ) && (n.f.op.Delta? || (n.f.op.Tail? && n.f.mandatory))
    requires RequiresPmapBit(n.children[0].f)
    ensures Moves(n)
  {
    var l := n.children[0];
    var b: byte := if l.f.mandatory then 0x80 else 0x81;
    var p := LengthStart(l.f, [b]);
    OneByte(p, b, [b]);
    ZeroLength(l, p.SkipNext());
    assert ReadVector(n, p.SkipNext(), map[]).Done?;
    NothingToCut(n, p);
    BodyMoves(n, p);
  }

  lemma {:induction false} VectorMoves(n: Node)
    requires WellFormed(n) && IsVector(n.f.typ) && UsesBits(n) && !Overcounted(n) && LengthUnsigned(n)
    ensures Moves(n)
  {
    if RequiresPmapBit(n.f) && !n.f.mandatory {
      AbsentMoves(n);
    } else if n.f.op.Default? || n.f.op.Copy? {
      ReadMoves(n);
    } else {
      assert PartNeedsBit(n);
      if n.f.op.NoOp? {
        PlainLengthMoves(n);
      } else {
        CutLengthMoves(n);
      }
    }
  }

  // ---------- the exact statement ----------

  /** What the walk counts for a field is used by some message, or is one of the bits named above. */
  lemma {:induction false} CountedIsUsed(n: Node)
    requires WellFormed(n) && FlagsRight(n) && UsesBits(n) && !Overcounted(n) && LengthUnsigned(n)
    ensures Moves(n)
  {
    if n.f.typ.Sequence? {
      SequenceMoves(n);
    } else if IsVector(n.f.typ) {
      VectorMoves(n);
    } else if RequiresPmapBit(n.f) && !n.f.mandatory {
      AbsentMoves(n);
    } else if n.f.typ.Decimal? {
      DecimalMoves(n);
    } else if n.f.typ.Ascii? {
      StringMoves(n);
    } else {
      IntegerMoves(n);
    }
  }

  lemma {:induction false} OvercountedIsCounted(n: Node)
    requires WellFormed(n) && Overcounted(n)
    ensures UsesBits(n)
  {
    if PartNeedsBit(n) {
      var i :| 0 <= i < |n.children| && RequiresPmapBit(n.children[i].f);
      assert UsesBits(n.children[i]);
    }
  }

  lemma {:induction false} OneAdvances(ns: seq<Node>, i: nat, p: Pos, d: Local)
    requires AllWellFormed(ns) && i < |ns| && MovesAt(ns[i], p, d)
    ensures Advances(ns)
  {
    var one := ns[i..i + 1];
    assert one == [ns[i]] && WalkTo(one, 0, p, d) == Done(Walked(p, d, []));
    assert AdvancesAt(one, p, d);
  }

  lemma {:induction false} AdvanceIsCounted(ns: seq<Node>, j: nat, k: nat, p: Pos, d: Local)
    requires AllReady(ns) && j <= k <= |ns| && AdvancesAt(ns[j..k], p, d)
    ensures SomeUsesBits(ns)
  {
    var part := ns[j..k];
    if !SomeUsesBits(ns) {
      forall i | 0 <= i < |part|
        ensures !UsesBits(part[i]) && FlagsRight(part[i])
      {
        assert part[i] == ns[j + i];
      }
      NoBitsWalk(part, |part|, p, d);
    }
  }

  /** Siblings are found to use bits exactly when some of them do use one, on some bytes, map and dictionary, save for
      the bits that are counted and never used. */
  lemma {:induction false} WalkExact(ns: seq<Node>)
    requires AllReady(ns) && AllLengthsUnsigned(ns)
    ensures SomeUsesBits(ns) <==> Advances(ns) || exists i :: 0 <= i < |ns| && Overcounted(ns[i])
  {
    if i :| 0 <= i < |ns| && UsesBits(ns[i]) {
      if !Overcounted(ns[i]) {
        CountedIsUsed(ns[i]);
        var p, d :| MovesAt(ns[i], p, d);
        OneAdvances(ns, i, p, d);
      }
    }
    if i :| 0 <= i < |ns| && Overcounted(ns[i]) {
      OvercountedIsCounted(ns[i]);
    }
    if Advances(ns) {
      var j, k, p, d :| 0 <= j <= k <= |ns| && AdvancesAt(ns[j..k], p, d);
      AdvanceIsCounted(ns, j, k, p, d);
    }
  }

  /** So a group has a presence map of its own exactly when its members can use one. */
  lemma {:induction false} FlagExact(g: Node)
    requires WellFormed(g) && FlagsRight(g) && g.f.typ.Group? && AllLengthsUnsigned(g.children)
    ensures g.f.pmapExists <==>
              Advances(g.children) || exists i :: 0 <= i < |g.children| && Overcounted(g.children[i])
  {
    WalkExact(g.children);
  }
}
