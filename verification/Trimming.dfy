/** Presence maps without their trailing zeros. A map goes on in zeros for ever (FAST 1.1, section 10.5), and the
    dissector reads it so, save in one place: a sequence drops its elements once the map is used up. */
module Trimming {
  import opened PresenceMap
  import opened Fields
  import opened Dictionary
  import opened Reader
  import opened Template
  import opened Dissection
  import opened Packet

  /** Nothing but zeros from bit k on. */
  predicate ZerosFrom(bits: seq<bool>, k: nat) { k <= |bits| && forall i | k <= i < |bits| :: !bits[i] }

  /** The same place in the packet, with the presence map cut off after k bits. */
  function Trim(p: Pos, k: nat): Pos {
    p.(pmap := if k <= |p.pmap| then p.pmap[..k] else p.pmap, idx := if p.idx < k then p.idx else k)
  }

  function TrimStep(s: Step, k: nat): Step { s.(pos := Trim(s.pos, k)) }

  function TrimBody(r: Outcome<Step>, k: nat): Outcome<Step> {
    match r case Done(s) => Done(TrimStep(s, k)) case Faulty => Faulty
  }

  function TrimResult(r: Outcome<Result>, k: nat): Outcome<Result> {
    match r case Done(v) => Done(v.(pos := Trim(v.pos, k))) case Faulty => Faulty
  }

  function TrimWalked(r: Outcome<Walked>, k: nat): Outcome<Walked> {
    match r case Done(w) => Done(w.(pos := Trim(w.pos, k))) case Faulty => Faulty
  }

  /** A shorter map of the same bits is the longer one, cut off. */
  lemma {:induction false} ShorterMap(bits: seq<bool>, size: nat, more: nat)
    requires HoldsMap(bits, size) && size <= more
    ensures var long := PmapBits(MapBytes(bits, more));
            ZerosFrom(long, 7 * size) && PmapBits(MapBytes(bits, size)) == long[..7 * size]
  {
    MapRoundTrip(bits, size);
    MapRoundTrip(bits, more);
  }

  // ---------- where elements are dropped ----------

  /** With no more than k bits in the map, a sequence on it drops elements that the full map would have shown: one that
      is reached when those bits are used up. A group with a presence map of its own is not concerned. */
  predicate Starved(n: Node, p: Pos, d: Local, k: nat)
    requires WellFormed(n)
    decreases n, 4
  {
    var s := Presence(n, p, d);
    && s.cell.status.Exists?
    && match n.f.typ
       case Group => !n.f.pmapExists && WalkStarved(n.children, |n.children|, s.pos, s.dict, k)
       case Sequence => SequenceStarved(n, s.pos, s.dict, k)
       case _ => false
  }

  predicate SequenceStarved(n: Node, p: Pos, d: Local, k: nat)
    requires WellFormed(n) && n.f.typ.Sequence?
    decreases n, 3
  {
    var l := DissectValue(n.children[0], p, d);
    l.Done? && ElementsStarved(n.children[1], Count(l.value), l.value.pos, l.value.dict, k)
  }

  function Count(l: Result): nat { if l.cell.value.num < 0 then 0 else l.cell.value.num }

  /** Among the first i siblings. */
  predicate WalkStarved(ns: seq<Node>, i: nat, p: Pos, d: Local, k: nat)
    requires AllWellFormed(ns) && i <= |ns|
    decreases ns, 0, i
  {
    i > 0
    && (WalkStarved(ns, i - 1, p, d, k)
        || var w := WalkTo(ns, i - 1, p, d);
           w.Done? && Starved(ns[i - 1], w.value.pos, w.value.dict, k))
  }

  /** Within the first i rounds of the sequence's loop. */
  predicate ElementsStarved(g: Node, i: nat, p: Pos, d: Local, k: nat)
    requires WellFormed(g)
    decreases g, 5, i
  {
    i > 0
    && (ElementsStarved(g, i - 1, p, d, k)
        || var w := ElementsTo(g, i - 1, p, d);
           w.Done? && !Exhausted(w.value.pos) && (w.value.pos.idx >= k || Starved(g, w.value.pos, w.value.dict, k)))
  }

  // ---------- reading without the map ----------

  /** The same bytes to come, whatever the maps. */
  predicate Beside(p: Pos, q: Pos) { q.offset == p.offset && q.bytes == p.bytes }

  /** Where q is when the cursor of another position has moved to r. */
  function Moved(q: Pos, r: Pos): Pos { q.(offset := r.offset, bytes := r.bytes) }

  lemma {:induction false} ReadsBeside(p: Pos, q: Pos)
    requires Beside(p, q)
    ensures q.Next() == p.Next() && q.SkipNext() == Moved(q, p.SkipNext()) && Beside(p.SkipNext(), q.SkipNext())
    ensures p.SkipNext().pmap == p.pmap && p.SkipNext().idx == p.idx
    ensures ShiftNull(q) == (ShiftNull(p).0, Moved(q, ShiftNull(p).1))
  {
  }

  lemma {:induction false} DeltaBeside(f: FieldType, p: Pos, q: Pos, c: Cell)
    requires Beside(p, q)
    ensures DeltaRead(f, q, c) == DeltaRead(f, p, c).(pos := q.SkipNext()) && DeltaRead(f, p, c).pos == p.SkipNext()
  {
    ReadsBeside(p, q);
  }

  lemma {:induction false} DeltaOpBeside(f: FieldType, p: Pos, q: Pos, d: Local, c: Cell)
    requires Beside(p, q) && f.op.Delta?
    ensures var s := IntOp(f, p, d, c);
            && IntOp(f, q, d, c) == s.(pos := Moved(q, s.pos))
            && s.pos.pmap == p.pmap && s.pos.idx == p.idx
  {
    ReadsBeside(p, q);
    var c1 := GetValue(f, d, c).1;
    DeltaBeside(f, p, q, c1);
    DeltaBeside(f, p, q, Cell(Exists, if f.hasDefault then f.value else BLANK));
  }

  lemma {:induction false} IncrementBeside(f: FieldType, p: Pos, q: Pos, d: Local, c: Cell)
    requires f.op.Increment? && ShiftPmap(q).0 == ShiftPmap(p).0
    ensures IntOp(f, q, d, c) == IntOp(f, p, d, c).(pos := ShiftPmap(q).1)
    ensures IntOp(f, p, d, c).pos == ShiftPmap(p).1
  {
  }

  lemma {:induction false} AsciiDeltaBeside(f: FieldType, p: Pos, q: Pos, d: Local, c: Cell)
    requires Beside(p, q)
    ensures var s, r := AsciiDelta(f, p, d, c), AsciiDelta(f, q, d, c);
            && s.Done? == r.Done?
            && (s.Done? ==> r.value == s.value.(pos := Moved(q, s.value.pos))
                            && s.value.pos.pmap == p.pmap && s.value.pos.idx == p.idx)
  {
    ReadsBeside(p, q);
    ReadsBeside(p.SkipNext(), q.SkipNext());
  }

  /** Both come to the same, and neither has touched its map. */
  predicate SameRead(p: Pos, s: Outcome<Step>, q: Pos, r: Outcome<Step>) {
    && s.Done? == r.Done?
    && (s.Done? ==> r.value == s.value.(pos := Moved(q, s.value.pos))
                    && s.value.pos.pmap == p.pmap && s.value.pos.idx == p.idx)
  }

  lemma {:induction false} AsciiDeltaBodyBeside(f: FieldType, p: Pos, q: Pos, d: Local, c: Cell)
    requires Beside(p, q)
    ensures SameRead(p, AsciiDeltaBody(f, p, d, c), q, AsciiDeltaBody(f, q, d, c))
  {
    AsciiDeltaBeside(f, p, q, d, c);
    var s, r := AsciiDelta(f, p, d, c), AsciiDelta(f, q, d, c);
    if s.Done? {
      ReadsBeside(s.value.pos, r.value.pos);
    }
  }

  lemma {:induction false} PlainAsciiBeside(f: FieldType, p: Pos, q: Pos, d: Local, c: Cell)
    requires Beside(p, q) && !f.op.Delta? && !f.op.Tail?
    ensures SameRead(p, AsciiBody(f, p, d, c), q, AsciiBody(f, q, d, c))
  {
    ReadsBeside(p, q);
  }

  lemma {:induction false} AsciiBeside(f: FieldType, p: Pos, q: Pos, d: Local, c: Cell)
    requires Beside(p, q)
    ensures SameRead(p, AsciiBody(f, p, d, c), q, AsciiBody(f, q, d, c))
  {
    if f.op.Delta? || f.op.Tail? {
      AsciiDeltaBodyBeside(f, p, q, d, c);
    } else {
      PlainAsciiBeside(f, p, q, d, c);
    }
  }

  // ---------- everything short of groups and sequences ----------

  lemma {:induction false} TrimMoved(p: Pos, r: Pos, k: nat)
    requires r.pmap == p.pmap && r.idx == p.idx
    ensures Moved(Trim(p, k), r) == Trim(r, k)
  {
  }

  lemma {:induction false} Shifts(p: Pos, k: nat)
    requires ZerosFrom(p.pmap, k)
    ensures Beside(p, Trim(p, k))
    ensures PeekPmap(Trim(p, k)) == PeekPmap(p)
    ensures ShiftPmap(Trim(p, k)) == (ShiftPmap(p).0, Trim(ShiftPmap(p).1, k))
    ensures ShiftPmap(p).1.pmap == p.pmap && Beside(p, ShiftPmap(p).1)
  {
  }

  lemma {:induction false} NullTrim(p: Pos, k: nat)
    ensures ShiftNull(Trim(p, k)) == (ShiftNull(p).0, Trim(ShiftNull(p).1, k)) && ShiftNull(p).1.pmap == p.pmap
    ensures Trim(p, k).SkipNext() == Trim(p.SkipNext(), k) && p.SkipNext().pmap == p.pmap
  {
    ReadsBeside(p, Trim(p, k));
    TrimMoved(p, ShiftNull(p).1, k);
    TrimMoved(p, p.SkipNext(), k);
  }

  /** OptionalField only shifts, peeks and looks for a null. */
  lemma {:induction false} OptionalBeside(f: FieldType, p: Pos, q: Pos, d: Local, c: Cell, p1: Pos, q1: Pos)
    requires PeekPmap(q) == PeekPmap(p) && p1 == ShiftNull(p).1 && ShiftNull(q) == (ShiftNull(p).0, q1)
    ensures var s, r := OptionalField(f, p, d, c), OptionalField(f, q, d, c);
            && r.dict == s.dict && r.cell == s.cell
            && ((s.pos == p && r.pos == q) || (s.pos == p1 && r.pos == q1)
                || (s.pos == ShiftPmap(p).1 && r.pos == ShiftPmap(q).1)
                || (s.pos == ShiftPmap(p1).1 && r.pos == ShiftPmap(q1).1))
  {
  }

  lemma {:induction false} OptionalTrim(n: Node, p: Pos, d: Local, c: Cell, k: nat)
    requires WellFormed(n) && ZerosFrom(p.pmap, k)
    ensures Optional(n, Trim(p, k), d, c) == TrimStep(Optional(n, p, d, c), k)
  {
    if n.f.mandatory {
    } else if (n.f.typ.Decimal? || n.f.typ.Sequence?) && n.f.op.NoOp? {
      OptionalTrim(n.children[0], p, d, c, k);
    } else {
      OptionalFieldTrim(n.f, p, d, c, k);
    }
  }

  lemma {:induction false} OptionalFieldTrim(f: FieldType, p: Pos, d: Local, c: Cell, k: nat)
    requires ZerosFrom(p.pmap, k)
    ensures OptionalField(f, Trim(p, k), d, c) == TrimStep(OptionalField(f, p, d, c), k)
  {
    Shifts(p, k);
    NullTrim(p, k);
    var p1 := ShiftNull(p).1;
    Shifts(p1, k);
    OptionalBeside(f, p, Trim(p, k), d, c, p1, Trim(p1, k));
  }

  lemma {:induction false} PresenceTrim(n: Node, p: Pos, d: Local, k: nat)
    requires WellFormed(n) && ZerosFrom(p.pmap, k)
    ensures Presence(n, Trim(p, k), d) == TrimStep(Presence(n, p, d), k)
  {
    OptionalTrim(n, p, d, Cell(Empty, BLANK), k);
  }

  lemma {:induction false} OperateBeside(f: FieldType, p: Pos, q: Pos, d: Local, c: Cell)
    requires ShiftPmap(q).0 == ShiftPmap(p).0
    ensures var s, r := Operate(f, p, d, c), Operate(f, q, d, c);
            && r == (s.0, s.1.(pos := r.1.pos))
            && ((s.1.pos == p && r.1.pos == q) || (s.1.pos == ShiftPmap(p).1 && r.1.pos == ShiftPmap(q).1))
  {
  }

  lemma {:induction false} OperateTrim(f: FieldType, p: Pos, d: Local, c: Cell, k: nat)
    requires ZerosFrom(p.pmap, k)
    ensures var (used, s) := Operate(f, p, d, c); Operate(f, Trim(p, k), d, c) == (used, TrimStep(s, k))
    ensures CopiesNull(f, Trim(p, k)) == CopiesNull(f, p)
  {
    Shifts(p, k);
    OperateBeside(f, p, Trim(p, k), d, c);
  }

  lemma {:induction false} IntOpTrim(f: FieldType, p: Pos, d: Local, c: Cell, k: nat)
    requires ZerosFrom(p.pmap, k)
    ensures var s := IntOp(f, p, d, c);
            IntOp(f, Trim(p, k), d, c) == s.(pos := Trim(s.pos, k)) && s.pos.pmap == p.pmap
  {
    Shifts(p, k);
    if f.op.Delta? {
      DeltaOpBeside(f, p, Trim(p, k), d, c);
      TrimMoved(p, IntOp(f, p, d, c).pos, k);
    } else if f.op.Increment? {
      IncrementBeside(f, p, Trim(p, k), d, c);
    }
  }

  lemma {:induction false} IntegerTrim(f: FieldType, p: Pos, d: Local, c: Cell, k: nat)
    requires ZerosFrom(p.pmap, k)
    ensures IntegerBody(f, Trim(p, k), d, c) == TrimStep(IntegerBody(f, p, d, c), k)
  {
    IntOpTrim(f, p, d, c, k);
    var s := IntOp(f, p, d, c);
    ReadsBeside(s.pos, Trim(s.pos, k));
    TrimMoved(s.pos, s.pos.SkipNext(), k);
  }

  lemma {:induction false} AsciiTrim(f: FieldType, p: Pos, d: Local, c: Cell, k: nat)
    requires ZerosFrom(p.pmap, k)
    ensures AsciiBody(f, Trim(p, k), d, c) == TrimBody(AsciiBody(f, p, d, c), k)
  {
    AsciiBeside(f, p, Trim(p, k), d, c);
    var s := AsciiBody(f, p, d, c);
    if s.Done? {
      TrimMoved(p, s.value.pos, k);
    }
  }

  lemma {:induction false} ReadVectorTrim(n: Node, p: Pos, d: Local, k: nat)
    requires WellFormed(n) && IsVector(n.f.typ) && ZerosFrom(p.pmap, k)
    ensures ReadVector(n, Trim(p, k), d) == TrimBody(ReadVector(n, p, d), k)
    decreases n, 0
  {
    TrimExact(n.children[0], p, d, k);
  }

  lemma {:induction false} VectorDeltaTrim(n: Node, p: Pos, d: Local, k: nat)
    requires WellFormed(n) && IsVector(n.f.typ) && ZerosFrom(p.pmap, k)
    ensures VectorDelta(n, Trim(p, k), d) == TrimBody(VectorDelta(n, p, d), k)
    decreases n, 1
  {
    ReadsBeside(p, Trim(p, k));
    TrimMoved(p, p.SkipNext(), k);
    ReadVectorTrim(n, p.SkipNext(), d, k);
  }

  lemma {:induction false} VectorTrim(n: Node, p: Pos, d: Local, c: Cell, k: nat)
    requires WellFormed(n) && IsVector(n.f.typ) && ZerosFrom(p.pmap, k)
    ensures VectorBody(n, Trim(p, k), d, c) == TrimBody(VectorBody(n, p, d, c), k)
    decreases n, 2
  {
    if n.f.op.Delta? || n.f.op.Tail? {
      VectorDeltaTrim(n, p, d, k);
    } else {
      ReadVectorTrim(n, p, d, k);
    }
  }

  lemma {:induction false} DecimalTrim(n: Node, p: Pos, d: Local, c: Cell, k: nat)
    requires WellFormed(n) && n.f.typ.Decimal? && ZerosFrom(p.pmap, k)
    ensures DecimalBody(n, Trim(p, k), d, c) == TrimBody(DecimalBody(n, p, d, c), k)
    decreases n, 2
  {
    if n.f.op.Delta? {
      IntOpTrim(n.f, p, d, UNSET, k);
      IntOpTrim(n.f, IntOp(n.f, p, d, UNSET).pos, d, UNSET, k);
    } else {
      TrimExact(n.children[0], p, d, k);
      var e := DissectValue(n.children[0], p, d);
      if e.Done? {
        TrimExact(n.children[1], e.value.pos, e.value.dict, k);
      }
    }
  }

  // ---------- the exact statement ----------

  /** A run over the cut map showed other data nodes, if it came to an end. */
  predicate OtherKids(r: Outcome<Result>, full: Outcome<Result>) {
    r.Done? && full.Done? ==> r.value.kids != full.value.kids
  }

  /** Two lists of data nodes that no further nodes can make equal. */
  predicate Apart(a: seq<DataNode>, b: seq<DataNode>) { exists j :: 0 <= j < |a| && j < |b| && a[j] != b[j] }

  /** With trailing zeros cut off, a field is dissected the same - value, dictionary, data nodes and the place it leaves
      the cursor at - unless one of its sequences starves; and then it is not. */
  lemma {:induction false} TrimExact(n: Node, p: Pos, d: Local, k: nat)
    requires WellFormed(n) && ZerosFrom(p.pmap, k)
    ensures var r, full := DissectValue(n, Trim(p, k), d), DissectValue(n, p, d);
            && (!Starved(n, p, d, k) ==> r == TrimResult(full, k))
            && (Starved(n, p, d, k) ==> OtherKids(r, full))
    decreases n, 4, 0
  {
    PresenceTrim(n, p, d, k);
    Paths(n, p, d);
    Paths(n, Trim(p, k), d);
    var s := Presence(n, p, d);
    if s.cell.status.Exists? {
      OperateTrim(n.f, s.pos, s.dict, s.cell, k);
      var s1 := Operate(n.f, s.pos, s.dict, s.cell).1;
      if n.f.typ.Group? {
        GroupTrim(n, s.pos, s.dict, s.cell, k);
      } else if n.f.typ.Sequence? {
        SequenceTrim(n, s.pos, s.dict, k);
      } else {
        BodyTrim(n, s1.pos, s1.dict, s1.cell, k);
      }
    }
  }

  lemma {:induction false} BodyTrim(n: Node, p: Pos, d: Local, c: Cell, k: nat)
    requires WellFormed(n) && !n.f.typ.Group? && !n.f.typ.Sequence? && ZerosFrom(p.pmap, k)
    ensures Body(n, Trim(p, k), d, c) == TrimResult(Body(n, p, d, c), k)
    decreases n, 3
  {
    match n.f.typ
    case Decimal => DecimalTrim(n, p, d, c, k);
    case Ascii => AsciiTrim(n.f, p, d, c, k);
    case Unicode => VectorTrim(n, p, d, c, k);
    case ByteVector => VectorTrim(n, p, d, c, k);
    case _ => IntegerTrim(n.f, p, d, c, k);
  }

  lemma {:induction false} MappedGroupTrim(n: Node, p: Pos, d: Local, c: Cell, k: nat)
    requires WellFormed(n) && n.f.typ.Group? && n.f.pmapExists
    ensures GroupBody(n, Trim(p, k), d, c) == TrimResult(GroupBody(n, p, d, c), k)
  {
    ReadsBeside(p, Trim(p, k));
    assert ReadPmap(Trim(p, k)) == ReadPmap(p);
  }

  lemma {:induction false} GroupTrim(n: Node, p: Pos, d: Local, c: Cell, k: nat)
    requires WellFormed(n) && n.f.typ.Group? && ZerosFrom(p.pmap, k)
    ensures var r, full := GroupBody(n, Trim(p, k), d, c), GroupBody(n, p, d, c);
            var starved := !n.f.pmapExists && WalkStarved(n.children, |n.children|, p, d, k);
            && (!starved ==> r == TrimResult(full, k))
            && (starved ==> OtherKids(r, full))
    decreases n, 3
  {
    if n.f.pmapExists {
      MappedGroupTrim(n, p, d, c, k);
    } else {
      WalkTrim(n.children, |n.children|, p, d, k);
    }
  }

  lemma {:induction false} SequenceTrim(n: Node, p: Pos, d: Local, k: nat)
    requires WellFormed(n) && n.f.typ.Sequence? && ZerosFrom(p.pmap, k)
    ensures var r, full := SequenceBody(n, Trim(p, k), d), SequenceBody(n, p, d);
            && (!SequenceStarved(n, p, d, k) ==> r == TrimResult(full, k))
            && (SequenceStarved(n, p, d, k) ==> OtherKids(r, full))
    decreases n, 3
  {
    TrimExact(n.children[0], p, d, k);
    var l := DissectValue(n.children[0], p, d);
    if l.Done? {
      ElementsTrim(n.children[1], Count(l.value), l.value.pos, l.value.dict, k);
    }
  }

  /** One data node more. */
  function Onto(w: Walked, r: Outcome<Result>): Outcome<Walked>
    requires r.Done? ==> w.pos.Leads(r.value.pos)
  {
    var v :- r;
    Done(Walked(v.pos, v.dict, w.kids + [NodeOf(w.pos, v)]))
  }

  lemma {:induction false} OntoTrimmed(w: Walked, r: Outcome<Result>, full: Outcome<Result>, k: nat)
    requires full.Done? ==> w.pos.Leads(full.value.pos)
    requires r.Done? ==> Trim(w.pos, k).Leads(r.value.pos)
    ensures var a, b := Onto(w.(pos := Trim(w.pos, k)), r), Onto(w, full);
            && (r == TrimResult(full, k) ==> a == TrimWalked(b, k))
            && (OtherKids(r, full) && a.Done? && b.Done? ==> Apart(a.value.kids, b.value.kids))
  {
    if r.Done? && full.Done? {
      var x, y := NodeOf(Trim(w.pos, k), r.value), NodeOf(w.pos, full.value);
      assert (w.kids + [x])[|w.kids|] == x && (w.kids + [y])[|w.kids|] == y;
    }
  }

  lemma {:induction false} StillApart(a: seq<DataNode>, b: seq<DataNode>, a1: seq<DataNode>, b1: seq<DataNode>)
    requires Apart(a, b) && a <= a1 && b <= b1
    ensures Apart(a1, b1)
  {
    var j :| 0 <= j < |a| && j < |b| && a[j] != b[j];
    assert a1[j] == a[j] && b1[j] == b[j];
  }

  lemma {:induction false} OntoApart(w: Walked, r: Outcome<Result>, full: Walked, f: Outcome<Result>)
    requires r.Done? && w.pos.Leads(r.value.pos) && f.Done? && full.pos.Leads(f.value.pos)
    requires Apart(w.kids, full.kids)
    ensures Apart(Onto(w, r).value.kids, Onto(full, f).value.kids)
  {
    StillApart(w.kids, full.kids, Onto(w, r).value.kids, Onto(full, f).value.kids);
  }

  /** A walk, and one sibling more. */
  function Then(w: Outcome<Walked>, n: Node): Outcome<Walked>
    requires WellFormed(n)
  {
    match w case Done(v) => Onto(v, DissectValue(n, v.pos, v.dict)) case Faulty => Faulty
  }

  lemma {:induction false} LastSibling(ns: seq<Node>, i: nat, p: Pos, d: Local)
    requires AllWellFormed(ns) && 0 < i <= |ns|
    ensures WalkTo(ns, i, p, d) == Then(WalkTo(ns, i - 1, p, d), ns[i - 1])
  {
  }

  /** A walk over the cut map: the same as over the full one, or with nodes that differ. */
  predicate WalkedTrim(r: Outcome<Walked>, full: Outcome<Walked>, k: nat, starved: bool) {
    if starved then r.Done? && full.Done? ==> Apart(r.value.kids, full.value.kids) else r == TrimWalked(full, k)
  }

  /** Siblings, one after another. */
  lemma {:induction false} WalkTrim(ns: seq<Node>, i: nat, p: Pos, d: Local, k: nat)
    requires AllWellFormed(ns) && i <= |ns| && ZerosFrom(p.pmap, k)
    ensures WalkedTrim(WalkTo(ns, i, Trim(p, k), d), WalkTo(ns, i, p, d), k, WalkStarved(ns, i, p, d, k))
    decreases ns, 0, i
  {
    if i > 0 {
      WalkTrim(ns, i - 1, p, d, k);
      LastSibling(ns, i, p, d);
      LastSibling(ns, i, Trim(p, k), d);
      SiblingTrim(ns[i - 1], WalkTo(ns, i - 1, Trim(p, k), d), WalkTo(ns, i - 1, p, d), k,
                  WalkStarved(ns, i - 1, p, d, k));
    }
  }

  predicate NextStarved(n: Node, full: Outcome<Walked>, k: nat)
    requires WellFormed(n)
  {
    full.Done? && Starved(n, full.value.pos, full.value.dict, k)
  }

  /** One more, after a walk that the cut map left alone or one that starved. */
  lemma {:induction false} SiblingTrim(n: Node, r: Outcome<Walked>, full: Outcome<Walked>, k: nat, starved: bool)
    requires WellFormed(n) && (full.Done? ==> ZerosFrom(full.value.pos.pmap, k)) && WalkedTrim(r, full, k, starved)
    ensures WalkedTrim(Then(r, n), Then(full, n), k, starved || NextStarved(n, full, k))
    decreases n, 4, 1
  {
    if r.Done? && full.Done? {
      var w, v := r.value, full.value;
      var a, b := DissectValue(n, w.pos, w.dict), DissectValue(n, v.pos, v.dict);
      if !starved {
        TrimExact(n, v.pos, v.dict, k);
        OntoTrimmed(v, a, b, k);
      } else if a.Done? && b.Done? {
        OntoApart(w, a, v, b);
      }
    }
  }

  /** The rounds of a sequence: a starved one has other elements, or too few and no way to go on. */
  predicate Dropped(r: Walked, full: Walked) {
    Apart(r.kids, full.kids) || (|r.kids| < |full.kids| && Exhausted(r.pos))
  }

  predicate RoundsTrim(r: Outcome<Walked>, full: Outcome<Walked>, k: nat, starved: bool) {
    if starved then r.Done? && full.Done? ==> Dropped(r.value, full.value) else r == TrimWalked(full, k)
  }

  lemma {:induction false} ElementsTrim(g: Node, i: nat, p: Pos, d: Local, k: nat)
    requires WellFormed(g) && ZerosFrom(p.pmap, k)
    ensures RoundsTrim(ElementsTo(g, i, Trim(p, k), d), ElementsTo(g, i, p, d), k, ElementsStarved(g, i, p, d, k))
    decreases g, 5, i
  {
    if i > 0 {
      ElementsTrim(g, i - 1, p, d, k);
      LastRound(g, i, p, d);
      LastRound(g, i, Trim(p, k), d);
      RoundTrim(g, ElementsTo(g, i - 1, Trim(p, k), d), ElementsTo(g, i - 1, p, d), k,
                ElementsStarved(g, i - 1, p, d, k));
    }
  }

  /** One round of the sequence's loop. */
  function Round(g: Node, w: Outcome<Walked>): Outcome<Walked>
    requires WellFormed(g)
  {
    if w.Done? && Exhausted(w.value.pos) then w else Then(w, g)
  }

  lemma {:induction false} LastRound(g: Node, i: nat, p: Pos, d: Local)
    requires WellFormed(g) && i > 0
    ensures ElementsTo(g, i, p, d) == Round(g, ElementsTo(g, i - 1, p, d))
  {
  }

  predicate RoundStarved(g: Node, full: Outcome<Walked>, k: nat)
    requires WellFormed(g)
  {
    full.Done? && !Exhausted(full.value.pos) && (full.value.pos.idx >= k || NextStarved(g, full, k))
  }

  lemma {:induction false} RoundTrim(g: Node, r: Outcome<Walked>, full: Outcome<Walked>, k: nat, starved: bool)
    requires WellFormed(g) && (full.Done? ==> ZerosFrom(full.value.pos.pmap, k)) && RoundsTrim(r, full, k, starved)
    ensures RoundsTrim(Round(g, r), Round(g, full), k, starved || RoundStarved(g, full, k))
    decreases g, 4, 2
  {
    if starved {
      if Round(g, r).Done? && Round(g, full).Done? {
        StillDropped(g, r, full);
      }
    } else if full.Done? && !Exhausted(full.value.pos) && full.value.pos.idx < k {
      SiblingTrim(g, r, full, k, false);
    }
  }

  lemma {:induction false} StillDropped(g: Node, r: Outcome<Walked>, full: Outcome<Walked>)
    requires WellFormed(g) && r.Done? && full.Done? && Dropped(r.value, full.value)
    requires Round(g, r).Done? && Round(g, full).Done?
    ensures Dropped(Round(g, r).value, Round(g, full).value)
  {
    if Apart(r.value.kids, full.value.kids) {
      StillApart(r.value.kids, full.value.kids, Round(g, r).value.kids, Round(g, full).value.kids);
    }
  }

  lemma {:induction false} HeadTrim(p: Pos, tid: int, k: nat)
    requires ZerosFrom(p.pmap, k)
    ensures HeadOf(Trim(p, k), tid) == HeadOf(p, tid).(pos := Trim(HeadOf(p, tid).pos, k))
  {
    Shifts(p, k);
    var q := ShiftPmap(p).1;
    ReadsBeside(q, Trim(q, k));
    TrimMoved(q, q.SkipNext(), k);
  }

  /** A message whose map ends after k bits: everything it shows and leaves behind is as with the full map exactly
      when no sequence of its template starves. */
  lemma {:induction false} MessageTrim(table: Templates, tid: int, p: Pos, d: Local, k: nat)
    requires Ready(table) && ZerosFrom(p.pmap, k) && HeadOf(p, tid).tid in table
    requires FromHead(table, p, HeadOf(p, tid), d).Done?
    ensures var h, full := HeadOf(p, tid), FromHead(table, p, HeadOf(p, tid), d).value;
            FromHead(table, Trim(p, k), HeadOf(Trim(p, k), tid), d) == Done(full.(pos := Trim(full.pos, k)))
            <==> !WalkStarved(table[h.tid], |table[h.tid]|, h.pos, d, k)
  {
    HeadTrim(p, tid, k);
    var h := HeadOf(p, tid);
    WalkTrim(table[h.tid], |table[h.tid]|, h.pos, d, k);
  }

  // ---------- templates on which any map may be cut ----------

  /** No sequence reads the map this field is on. */
  predicate Sequenceless(n: Node) {
    !n.f.typ.Sequence?
    && (n.f.typ.Group? && !n.f.pmapExists ==> forall i | 0 <= i < |n.children| :: Sequenceless(n.children[i]))
  }

  lemma {:induction false} SequencelessThrives(n: Node, p: Pos, d: Local, k: nat)
    requires WellFormed(n) && Sequenceless(n)
    ensures !Starved(n, p, d, k)
    decreases n, 1
  {
    if n.f.typ.Group? && !n.f.pmapExists {
      var s := Presence(n, p, d);
      SiblingsThrive(n.children, |n.children|, s.pos, s.dict, k);
    }
  }

  lemma {:induction false} SiblingsThrive(ns: seq<Node>, i: nat, p: Pos, d: Local, k: nat)
    requires AllWellFormed(ns) && i <= |ns| && forall j | 0 <= j < |ns| :: Sequenceless(ns[j])
    ensures !WalkStarved(ns, i, p, d, k)
    decreases ns, 0, i
  {
    if i > 0 {
      SiblingsThrive(ns, i - 1, p, d, k);
      var w := WalkTo(ns, i - 1, p, d);
      if w.Done? {
        SequencelessThrives(ns[i - 1], w.value.pos, w.value.dict, k);
      }
    }
  }
}
