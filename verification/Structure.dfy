/** What holds of the data tree and of the presence map for every template and every input. */
module Structure {
  import opened Fields
  import opened Dictionary
  import opened Reader
  import opened Template
  import opened Dissection

  // ---------- shape and windows ----------

  /** The display walks template and data trees in lockstep: this is the shape it relies on. */
  predicate Matches(n: Node, d: DataNode) {
    if n.f.typ.Group? && d.status.Exists? then
      |d.kids| == |n.children| && forall i | 0 <= i < |d.kids| :: Matches(n.children[i], d.kids[i])
    else if n.f.typ.Sequence? && |n.children| == 2 then
      (d.kids == [] || |d.kids| <= d.value.num) &&
      forall i | 0 <= i < |d.kids| :: d.kids[i].status.Exists? && Matches(n.children[1], d.kids[i])
    else d.kids == []
  }

  /** The windows of sibling nodes are adjacent and fill [from, to). */
  predicate Tiles(kids: seq<DataNode>, from: nat, to: nat) {
    if kids == [] then from == to
    else
      var last := kids[|kids| - 1];
      Tiles(kids[..|kids| - 1], from, last.start) && last.start + last.nbytes == to
  }

  /** Below every node, the windows of its children fill a final part of its own window. */
  predicate Framed(d: DataNode) {
    && (d.kids != [] ==> d.start <= d.kids[0].start && Tiles(d.kids, d.kids[0].start, d.start + d.nbytes))
    && forall i | 0 <= i < |d.kids| :: Framed(d.kids[i])
  }

  lemma {:induction false} TilesFirst(kids: seq<DataNode>, from: nat, to: nat)
    requires kids != [] && Tiles(kids, from, to)
    ensures kids[0].start == from
  {
    if |kids| > 1 {
      TilesFirst(kids[..|kids| - 1], from, kids[|kids| - 1].start);
    } else {
      assert kids[..0] == [];
    }
  }

  /** For any bytes at all: the data tree has the template's shape and its windows tile. */
  lemma {:induction false} ValueStructure(n: Node, p: Pos, d: Local)
    requires WellFormed(n)
    ensures var r := DissectValue(n, p, d);
            r.Done? ==> Matches(n, NodeOf(p, r.value)) && Framed(NodeOf(p, r.value))
    decreases n, 3
  {
    Paths(n, p, d);
    var s := Presence(n, p, d);
    if s.cell.status.Exists? && DissectValue(n, p, d).Done? {
      var (used, s1) := Operate(n.f, s.pos, s.dict, s.cell);
      if !used {
        if n.f.typ.Group? {
          GroupStructure(n, p, s1.pos, s1.dict, s1.cell);
        } else if n.f.typ.Sequence? {
          SequenceStructure(n, p, s1.pos, s1.dict);
        }
      }
    }
  }

  lemma {:induction false} GroupStructure(n: Node, p0: Pos, p: Pos, d: Local, c: Cell)
    requires WellFormed(n) && n.f.typ.Group? && p0.Leads(p) && c.status.Exists? && GroupBody(n, p, d, c).Done?
    ensures Matches(n, NodeOf(p0, GroupBody(n, p, d, c).value)) && Framed(NodeOf(p0, GroupBody(n, p, d, c).value))
    decreases n, 2
  {
    var nested := if n.f.pmapExists then ReadPmap(p) else p;
    WalkStructure(n.children, |n.children|, nested, d);
    var w := WalkTo(n.children, |n.children|, nested, d).value;
    if w.kids != [] {
      TilesFirst(w.kids, nested.offset, w.pos.offset);
    }
  }

  lemma {:induction false} SequenceStructure(n: Node, p0: Pos, p: Pos, d: Local)
    requires WellFormed(n) && n.f.typ.Sequence? && p0.Leads(p) && SequenceBody(n, p, d).Done?
    ensures Matches(n, NodeOf(p0, SequenceBody(n, p, d).value)) && Framed(NodeOf(p0, SequenceBody(n, p, d).value))
    decreases n, 2
  {
    var l := DissectValue(n.children[0], p, d).value;
    var count := if l.cell.value.num < 0 then 0 else l.cell.value.num;
    ElementsStructure(n.children[1], count, l.pos, l.dict);
    var w := ElementsTo(n.children[1], count, l.pos, l.dict).value;
    if w.kids != [] {
      TilesFirst(w.kids, l.pos.offset, w.pos.offset);
    }
  }

  lemma {:induction false} TilesSnoc(kids: seq<DataNode>, k: DataNode, from: nat, mid: nat)
    requires Tiles(kids, from, mid) && k.start == mid
    ensures Tiles(kids + [k], from, k.start + k.nbytes)
  {
    assert (kids + [k])[..|kids|] == kids;
  }

  /** The data nodes of the first i siblings: one each, of the right shape. */
  predicate AllMatch(ns: seq<Node>, kids: seq<DataNode>) {
    |kids| <= |ns| && forall j | 0 <= j < |kids| :: Matches(ns[j], kids[j]) && Framed(kids[j])
  }

  lemma {:induction false} MatchSnoc(ns: seq<Node>, kids: seq<DataNode>, k: DataNode)
    requires AllMatch(ns, kids) && |kids| < |ns| && Matches(ns[|kids|], k) && Framed(k)
    ensures AllMatch(ns, kids + [k])
  {
  }

  /** After i siblings: one data node each, windows adjacent, shapes right. */
  predicate InOrder(ns: seq<Node>, i: nat, w: Walked, from: nat) {
    |w.kids| == i && Tiles(w.kids, from, w.pos.offset) && AllMatch(ns, w.kids)
  }

  lemma {:induction false} NextSibling(ns: seq<Node>, i: nat, w: Walked, v: Result, from: nat)
    requires AllWellFormed(ns) && i < |ns| && InOrder(ns, i, w, from) && w.pos.Leads(v.pos)
    requires Matches(ns[i], NodeOf(w.pos, v)) && Framed(NodeOf(w.pos, v))
    ensures InOrder(ns, i + 1, Walked(v.pos, v.dict, w.kids + [NodeOf(w.pos, v)]), from)
  {
    TilesSnoc(w.kids, NodeOf(w.pos, v), from, w.pos.offset);
    MatchSnoc(ns, w.kids, NodeOf(w.pos, v));
  }

  lemma {:induction false} WalkStructure(ns: seq<Node>, i: nat, p: Pos, d: Local)
    requires AllWellFormed(ns) && i <= |ns|
    ensures WalkTo(ns, i, p, d).Done? ==> InOrder(ns, i, WalkTo(ns, i, p, d).value, p.offset)
    decreases ns, 0, i
  {
    if i > 0 && WalkTo(ns, i, p, d).Done? {
      WalkStructure(ns, i - 1, p, d);
      var w := WalkTo(ns, i - 1, p, d).value;
      ValueStructure(ns[i - 1], w.pos, w.dict);
      NextSibling(ns, i - 1, w, DissectValue(ns[i - 1], w.pos, w.dict).value, p.offset);
    }
  }

  /** Elements of a sequence: groups that are there, of the right shape. */
  predicate AllElements(g: Node, kids: seq<DataNode>) {
    forall j | 0 <= j < |kids| :: kids[j].status.Exists? && Matches(g, kids[j]) && Framed(kids[j])
  }

  lemma {:induction false} ElementSnoc(g: Node, kids: seq<DataNode>, k: DataNode)
    requires AllElements(g, kids) && k.status.Exists? && Matches(g, k) && Framed(k)
    ensures AllElements(g, kids + [k])
  {
  }

  lemma {:induction false} ElementsStructure(g: Node, i: nat, p: Pos, d: Local)
    requires WellFormed(g) && g.f.typ.Group? && g.f.mandatory
    ensures var r := ElementsTo(g, i, p, d);
            r.Done? ==>
              && |r.value.kids| <= i && Tiles(r.value.kids, p.offset, r.value.pos.offset)
              && AllElements(g, r.value.kids)
    decreases g, 4, i
  {
    if i > 0 && ElementsTo(g, i, p, d).Done? {
      ElementsStructure(g, i - 1, p, d);
      var w := ElementsTo(g, i - 1, p, d).value;
      if !Exhausted(w.pos) {
        ValueStructure(g, w.pos, w.dict);
        GroupExists(g, w.pos, w.dict);
        var k := NodeOf(w.pos, DissectValue(g, w.pos, w.dict).value);
        TilesSnoc(w.kids, k, p.offset, w.pos.offset);
        ElementSnoc(g, w.kids, k);
      }
    }
  }

  lemma {:induction false} GroupExists(g: Node, p: Pos, d: Local)
    requires WellFormed(g) && g.f.typ.Group? && g.f.mandatory && DissectValue(g, p, d).Done?
    ensures DissectValue(g, p, d).value.cell.status.Exists?
  {
    assert Operate(g.f, p, d, Cell(Exists, BLANK)) == (false, Step(p, d, Cell(Exists, BLANK)));
    assert Present(g, p, d, Cell(Exists, BLANK)) == GroupBody(g, p, d, Cell(Exists, BLANK));
  }

  // ---------- the static presence-map analysis against what is consumed ----------

  /** A node that uses no bit leaves the presence-map index where it was, whatever the bytes are. */
  lemma {:induction false} NoBitsConsumed(n: Node, p: Pos, d: Local)
    requires WellFormed(n) && FlagsRight(n) && !UsesBits(n)
    ensures var r := DissectValue(n, p, d); r.Done? ==> r.value.pos.idx == p.idx
    decreases n, 4
  {
    NoBitsPresence(n, p, d);
    Paths(n, p, d);
    var s := Presence(n, p, d);
    if s.cell.status.Exists? && DissectValue(n, p, d).Done? {
      var (used, s1) := Operate(n.f, s.pos, s.dict, s.cell);
      assert s1.pos == s.pos;
      NoBitsBody(n, s1.pos, s1.dict, s1.cell);
    }
  }

  lemma {:induction false} NoBitsBody(n: Node, p: Pos, d: Local, c: Cell)
    requires WellFormed(n) && FlagsRight(n) && !UsesBits(n)
    ensures var r := Body(n, p, d, c); r.Done? ==> r.value.pos.idx == p.idx
    decreases n, 3
  {
    if Body(n, p, d, c).Done? {
      match n.f.typ
      case Decimal => NoBitsDecimal(n, p, d, c);
      case Ascii => AsciiBits(n.f, p, d, c);
      case Unicode => NoBitsVector(n, p, d, c);
      case ByteVector => NoBitsVector(n, p, d, c);
      case Group => GroupKeepsPmap(n, p, d, c);
      case Sequence => NoBitsSequence(n, p, d);
      case _ => IntegerBits(n.f, p, d, c);
    }
  }

  lemma {:induction false} NoBitsPresence(n: Node, p: Pos, d: Local)
    requires WellFormed(n) && !UsesBits(n)
    ensures Presence(n, p, d).pos.idx == p.idx
  {
    if !n.f.mandatory {
      NoBitsOptional(n, p, d, Cell(Empty, BLANK));
    }
  }

  lemma {:induction false} NoBitsOptional(n: Node, p: Pos, d: Local, c: Cell)
    requires WellFormed(n) && !UsesBits(n) && !n.f.mandatory
    ensures Optional(n, p, d, c).pos.idx == p.idx
  {
    if (n.f.typ.Decimal? || n.f.typ.Sequence?) && n.f.op.NoOp? {
      assert !UsesBits(n.children[0]);
      NoBitsOptional(n.children[0], p, d, c);
    } else {
      assert !ChecksPmap(n.f);
    }
  }

  lemma {:induction false} NoBitsDecimal(n: Node, p: Pos, d: Local, c: Cell)
    requires WellFormed(n) && FlagsRight(n) && !UsesBits(n) && n.f.typ.Decimal? && DecimalBody(n, p, d, c).Done?
    ensures DecimalBody(n, p, d, c).value.pos.idx == p.idx
    decreases n, 2
  {
    if !n.f.op.Delta? {
      NoBitsConsumed(n.children[0], p, d);
      var e := DissectValue(n.children[0], p, d).value;
      NoBitsConsumed(n.children[1], e.pos, e.dict);
    }
  }

  lemma {:induction false} NoBitsVector(n: Node, p: Pos, d: Local, c: Cell)
    requires WellFormed(n) && FlagsRight(n) && !UsesBits(n) && IsVector(n.f.typ) && VectorBody(n, p, d, c).Done?
    ensures VectorBody(n, p, d, c).value.pos.idx == p.idx
    decreases n, 2
  {
    assert !UsesBits(n.children[0]);
    assert n.f.op.NoOp? || n.f.op.Delta? || n.f.op.Constant?;
    if n.f.op.Delta? {
      NoBitsConsumed(n.children[0], p.SkipNext(), d);
      assert ReadVector(n, p.SkipNext(), d).Done?;
    } else if n.f.op.NoOp? {
      NoBitsConsumed(n.children[0], p, d);
      assert ReadVector(n, p, d).Done?;
    }
  }

  lemma {:induction false} NoBitsSequence(n: Node, p: Pos, d: Local)
    requires WellFormed(n) && FlagsRight(n) && !UsesBits(n) && n.f.typ.Sequence? && SequenceBody(n, p, d).Done?
    ensures SequenceBody(n, p, d).value.pos.idx == p.idx
    decreases n, 2
  {
    assert !UsesBits(n.children[0]);
    NoBitsConsumed(n.children[0], p, d);
    var l := DissectValue(n.children[0], p, d).value;
    ElementsKeepPmap(n.children[1], if l.cell.value.num < 0 then 0 else l.cell.value.num, l.pos, l.dict);
  }

  /** A group leaves the enclosing presence map and index alone: flagged, it works on its own map;
      unflagged, nothing below it uses a bit. */
  lemma {:induction false} GroupKeepsPmap(n: Node, p: Pos, d: Local, c: Cell)
    requires WellFormed(n) && FlagsRight(n) && n.f.typ.Group?
    ensures var r := GroupBody(n, p, d, c); r.Done? ==> r.value.pos.idx == p.idx && r.value.pos.pmap == p.pmap
    decreases n, 2
  {
    if !n.f.pmapExists && GroupBody(n, p, d, c).Done? {
      NoBitsWalk(n.children, |n.children|, p, d);
    }
  }

  lemma {:induction false} NoBitsWalk(ns: seq<Node>, i: nat, p: Pos, d: Local)
    requires AllWellFormed(ns) && i <= |ns| && !SomeUsesBits(ns) && forall j | 0 <= j < |ns| :: FlagsRight(ns[j])
    ensures var r := WalkTo(ns, i, p, d); r.Done? ==> r.value.pos.idx == p.idx
    decreases ns, 0, i
  {
    if i > 0 && WalkTo(ns, i, p, d).Done? {
      NoBitsWalk(ns, i - 1, p, d);
      var w := WalkTo(ns, i - 1, p, d).value;
      NoBitsConsumed(ns[i - 1], w.pos, w.dict);
    }
  }

  /** The elements of a sequence use no bit of the enclosing presence map. */
  lemma {:induction false} ElementsKeepPmap(g: Node, i: nat, p: Pos, d: Local)
    requires WellFormed(g) && FlagsRight(g) && g.f.typ.Group? && g.f.mandatory
    ensures var r := ElementsTo(g, i, p, d); r.Done? ==> r.value.pos.idx == p.idx
    decreases g, 5, i
  {
    if i > 0 && ElementsTo(g, i, p, d).Done? {
      ElementsKeepPmap(g, i - 1, p, d);
      var w := ElementsTo(g, i - 1, p, d).value;
      NoBitsConsumed(g, w.pos, w.dict);
    }
  }

  // ---------- one bit per field that needs one ----------

  function OwnBits(f: FieldType): nat { if RequiresPmapBit(f) then 1 else 0 }

  /** The bits of its own that a field uses up when it is there: an increment is only looked at by the integer
      dissectors, so a decimal's is not, and a tail's bit is looked at but never shifted. */
  function BitsWhenThere(f: FieldType): nat {
    if f.op.Tail? || (f.op.Increment? && !IsInteger(f.typ)) then 0 else OwnBits(f)
  }

  /** Whether a field is there, which its bit or a null byte decides. */
  predicate There(n: Node, p: Pos, d: Local)
    requires WellFormed(n)
  {
    Presence(n, p, d).cell.status.Exists?
  }

  /** The bits of its own that a field uses up. */
  function BitsUsed(n: Node, p: Pos, d: Local): nat
    requires WellFormed(n)
  {
    if There(n, p, d) then BitsWhenThere(n.f) else OwnBits(n.f)
  }

  /** Any field short of groups and sequences, up to where its body is read: the null path uses the bit the static
      test announces, the path of a field that is there the same one, unless that is an increment or a tail. */
  lemma {:induction false} OperatorConsumesItsBit(n: Node, p: Pos, d: Local)
    requires WellFormed(n) && !n.f.typ.Group? && !n.f.typ.Sequence? && p.idx < |p.pmap|
    requires n.f.typ.Decimal? ==> !n.f.op.NoOp?
    ensures var s := Presence(n, p, d);
            var (used, s1) := Operate(n.f, s.pos, s.dict, s.cell);
            if There(n, p, d) then s1.pos.idx == p.idx + (if n.f.op.Increment? || n.f.op.Tail? then 0 else OwnBits(n.f))
            else s.pos.idx == p.idx + OwnBits(n.f)
    ensures Presence(n, p, d).pos.pmap == p.pmap
  {
    assert n.f.mandatory || Presence(n, p, d) == OptionalField(n.f, p, d, Cell(Empty, BLANK));
  }

  /** With a bit left, an integer or string consumes exactly the bits the static test announces,
      whether it turns out null, omitted or present - save a tail that is there. */
  lemma {:induction false} LeafConsumesItsBit(n: Node, p: Pos, d: Local)
    requires WellFormed(n) && Leaf(n) && p.idx < |p.pmap|
    ensures var r := DissectValue(n, p, d); r.Done? ==> r.value.pos.idx == p.idx + BitsUsed(n, p, d)
    ensures IsInteger(n.f.typ) ==> BitsUsed(n, p, d) == OwnBits(n.f)
  {
    Paths(n, p, d);
    OperatorConsumesItsBit(n, p, d);
    var s := Presence(n, p, d);
    if s.cell.status.Exists? {
      var (used, s1) := Operate(n.f, s.pos, s.dict, s.cell);
      if n.f.typ.Ascii? {
        AsciiBits(n.f, s1.pos, s1.dict, s1.cell);
      } else {
        IntegerBits(n.f, s1.pos, s1.dict, s1.cell);
      }
    }
  }

  lemma {:induction false} AsciiBits(f: FieldType, p: Pos, d: Local, c: Cell)
    ensures var b := AsciiBody(f, p, d, c); b.Done? ==> b.value.pos.idx == p.idx
  {
  }

  lemma {:induction false} IntegerBits(f: FieldType, p: Pos, d: Local, c: Cell)
    requires p.idx < |p.pmap| || !f.op.Increment?
    ensures IntegerBody(f, p, d, c).pos.idx == p.idx + (if f.op.Increment? then 1 else 0)
  {
  }

  /** With a bit left, a group consumes one bit if it is optional and none otherwise. */
  lemma {:induction false} GroupConsumesItsBit(n: Node, p: Pos, d: Local)
    requires WellFormed(n) && FlagsRight(n) && n.f.typ.Group? && p.idx < |p.pmap|
    ensures var r := DissectValue(n, p, d);
            r.Done? ==> r.value.pos.idx == p.idx + OwnBits(n.f) && r.value.pos.pmap == p.pmap
  {
    var s := Presence(n, p, d);
    Paths(n, p, d);
    assert n.f.mandatory || s == OptionalField(n.f, p, d, Cell(Empty, BLANK));
    if s.cell.status.Exists? {
      assert Operate(n.f, s.pos, s.dict, s.cell) == (false, s);
      GroupKeepsPmap(n, s.pos, s.dict, s.cell);
    }
  }

  /** The presence of an optional sequence or decimal is looked at twice, through its first child and again
      when that child is read. A child that is there is found there both times, and nothing is used up
      the first time - except by a constant, whose bit is consumed by each look. */
  lemma {:induction false} SecondLook(n: Node, p: Pos, d: Local)
    requires WellFormed(n) && IsInteger(n.f.typ) && !n.f.mandatory && p.idx < |p.pmap|
    ensures var s := Presence(n, p, d);
            s.cell.status.Exists? ==> (s == Step(p, d, Cell(Exists, BLANK)) <==> !n.f.op.Constant?)
  {
    assert Presence(n, p, d) == OptionalField(n.f, p, d, Cell(Empty, BLANK));
  }

  /** So a sequence consumes exactly its length's bit, unless it is optional and there and its length is a
      constant: then it consumes two. */
  lemma {:induction false} SequenceConsumesLengthBit(n: Node, p: Pos, d: Local)
    requires WellFormed(n) && FlagsRight(n) && n.f.typ.Sequence? && p.idx + 1 < |p.pmap|
    ensures var r := DissectValue(n, p, d);
            var twice := !n.f.mandatory && n.children[0].f.op.Constant? && PeekPmap(p);
            r.Done? ==> r.value.pos.idx == p.idx + (if twice then 2 else OwnBits(n.children[0].f))
  {
    var l := n.children[0];
    var s := Presence(n, p, d);
    if !n.f.mandatory {
      assert s == Optional(l, p, d, Cell(Empty, BLANK)) == Presence(l, p, d);
      SecondLook(l, p, d);
    }
    LeafConsumesItsBit(l, p, d);
    Paths(n, p, d);
    Paths(l, p, d);
    if s.cell.status.Exists? && DissectValue(n, p, d).Done? {
      assert Operate(n.f, s.pos, s.dict, s.cell) == (false, s);
      SequenceBits(n, s.pos, s.dict);
    }
  }

  lemma {:induction false} SequenceBits(n: Node, p: Pos, d: Local)
    requires WellFormed(n) && FlagsRight(n) && n.f.typ.Sequence? && p.idx < |p.pmap|
    ensures var r := SequenceBody(n, p, d); r.Done? ==> r.value.pos.idx == p.idx + OwnBits(n.children[0].f)
  {
    LeafConsumesItsBit(n.children[0], p, d);
    if SequenceBody(n, p, d).Done? {
      var v := DissectValue(n.children[0], p, d).value;
      ElementsKeepPmap(n.children[1], if v.cell.value.num < 0 then 0 else v.cell.value.num, v.pos, v.dict);
    }
  }

  /** A decimal without operator: its exponent's bit and, when it is there, its mantissa's. The exponent of an
      optional decimal is looked at twice, which only a constant notices. */
  lemma {:induction false} DecimalConsumesPartsBits(n: Node, p: Pos, d: Local)
    requires WellFormed(n) && n.f.typ.Decimal? && n.f.op.NoOp? && p.idx + 2 < |p.pmap|
    ensures var e, m := n.children[0].f, n.children[1].f;
            var there := Presence(n, p, d).cell.status.Exists?;
            var r := DissectValue(n, p, d);
            var again := if !n.f.mandatory && e.op.Constant? then 1 else 0;
            r.Done? ==> r.value.pos.idx == p.idx + OwnBits(e) + (if there then OwnBits(m) + again else 0)
  {
    var e := n.children[0];
    var s := Presence(n, p, d);
    if !n.f.mandatory {
      assert s == Optional(e, p, d, Cell(Empty, BLANK)) == Presence(e, p, d);
      SecondLook(e, p, d);
    }
    LeafConsumesItsBit(e, p, d);
    Paths(n, p, d);
    Paths(e, p, d);
    if s.cell.status.Exists? && DissectValue(n, p, d).Done? {
      assert Operate(n.f, s.pos, s.dict, s.cell) == (false, s);
      PartsBits(n, s.pos, s.dict, s.cell);
    }
  }

  lemma {:induction false} PartsBits(n: Node, p: Pos, d: Local, c: Cell)
    requires WellFormed(n) && n.f.typ.Decimal? && !n.f.op.Delta? && p.idx + 1 < |p.pmap|
    ensures var r := DecimalBody(n, p, d, c);
            r.Done? ==> r.value.pos.idx == p.idx + OwnBits(n.children[0].f) + OwnBits(n.children[1].f)
  {
    if DecimalBody(n, p, d, c).Done? {
      LeafConsumesItsBit(n.children[0], p, d);
      var e := DissectValue(n.children[0], p, d).value;
      LeafConsumesItsBit(n.children[1], e.pos, e.dict);
    }
  }

  /** Whether a field's body is read: it is there and its operator did not settle it. */
  predicate BodyRead(n: Node, p: Pos, d: Local)
    requires WellFormed(n)
  {
    var s := Presence(n, p, d);
    There(n, p, d) && !Operate(n.f, s.pos, s.dict, s.cell).0
  }

  /** A decimal under an operator of the whole: its own bit, and its parts' bits when they are read. One that is there
      uses its own bit exactly when the operator is neither increment - which the parser refuses for decimals but
      leaves in place, and the static test counts - nor tail. */
  lemma {:induction false} DecimalConsumesItsBits(n: Node, p: Pos, d: Local)
    requires WellFormed(n) && n.f.typ.Decimal? && !n.f.op.NoOp? && p.idx + 2 < |p.pmap|
    ensures var parts := OwnBits(n.children[0].f) + OwnBits(n.children[1].f);
            var r := DissectValue(n, p, d);
            r.Done? ==>
              r.value.pos.idx == p.idx + BitsUsed(n, p, d) + (if BodyRead(n, p, d) && !n.f.op.Delta? then parts else 0)
    ensures There(n, p, d) && RequiresPmapBit(n.f) ==> (BitsUsed(n, p, d) == 1 <==> !n.f.op.Increment? && !n.f.op.Tail?)
  {
    Paths(n, p, d);
    OperatorConsumesItsBit(n, p, d);
    if BodyRead(n, p, d) && DissectValue(n, p, d).Done? {
      var s := Presence(n, p, d);
      var (used, s1) := Operate(n.f, s.pos, s.dict, s.cell);
      if n.f.op.Delta? {
        assert Body(n, s1.pos, s1.dict, s1.cell).Done? ==> DecimalDelta(n.f, s1.pos, s1.dict, s1.cell).Done?;
      } else {
        PartsBits(n, s1.pos, s1.dict, s1.cell);
      }
    }
  }

  /** A vector: its own bit, and its length's bit when it is read. */
  lemma {:induction false} VectorConsumesItsBits(n: Node, p: Pos, d: Local)
    requires WellFormed(n) && IsVector(n.f.typ) && p.idx + 1 < |p.pmap|
    ensures var r := DissectValue(n, p, d);
            r.Done? ==>
              r.value.pos.idx == p.idx + BitsUsed(n, p, d) + (if BodyRead(n, p, d) then OwnBits(n.children[0].f) else 0)
  {
    Paths(n, p, d);
    OperatorConsumesItsBit(n, p, d);
    if BodyRead(n, p, d) && DissectValue(n, p, d).Done? {
      var s := Presence(n, p, d);
      var (used, s1) := Operate(n.f, s.pos, s.dict, s.cell);
      VectorBits(n, s1.pos, s1.dict, s1.cell);
    }
  }

  lemma {:induction false} VectorBits(n: Node, p: Pos, d: Local, c: Cell)
    requires WellFormed(n) && IsVector(n.f.typ) && !n.f.op.Constant? && p.idx < |p.pmap|
    ensures var r := VectorBody(n, p, d, c); r.Done? ==> r.value.pos.idx == p.idx + OwnBits(n.children[0].f)
  {
    if n.f.op.Delta? || n.f.op.Tail? {
      LengthBits(n, p.SkipNext(), d);
    } else {
      LengthBits(n, p, d);
    }
  }

  lemma {:induction false} LengthBits(n: Node, p: Pos, d: Local)
    requires WellFormed(n) && IsVector(n.f.typ) && p.idx < |p.pmap|
    ensures var r := ReadVector(n, p, d); r.Done? ==> r.value.pos.idx == p.idx + OwnBits(n.children[0].f)
  {
    LeafConsumesItsBit(n.children[0], p, d);
  }

  // ---------- templates that are safe on any bytes ----------

  /** No vectors, whose length comes from the stream, no deltas that cut or start from a stored value that may be
      missing, and no string constant or default without a value. */
  predicate Tame(n: Node) {
    && !IsVector(n.f.typ)
    && (n.f.typ.Ascii? || n.f.typ.Decimal? ==> !n.f.op.Delta? && !n.f.op.Tail?)
    && (n.f.op.Constant? || n.f.op.Default? ==> !LacksBytes(n.f))
    && forall i | 0 <= i < |n.children| :: Tame(n.children[i])
  }

  predicate AllTame(ns: seq<Node>) { forall i | 0 <= i < |ns| :: Tame(ns[i]) }

  /** Dissecting such a template never leaves the packet or reads what was never written, whatever the bytes,
      the presence map and the dictionaries. */
  lemma {:induction false} TameIsSafe(n: Node, p: Pos, d: Local)
    requires WellFormed(n) && Tame(n)
    ensures DissectValue(n, p, d).Done?
    decreases n, 3
  {
    var s := Presence(n, p, d);
    var (used, s1) := Operate(n.f, s.pos, s.dict, s.cell);
    if s.cell.status.Exists? && !used {
      assert !CopiesNull(n.f, s.pos);
      TameBody(n, s1.pos, s1.dict, s1.cell);
    }
  }

  lemma {:induction false} TameBody(n: Node, p: Pos, d: Local, c: Cell)
    requires WellFormed(n) && Tame(n)
    ensures Body(n, p, d, c).Done?
    decreases n, 2
  {
    match n.f.typ
    case Group => TameWalk(n.children, |n.children|, if n.f.pmapExists then ReadPmap(p) else p, d);
    case Sequence =>
      TameIsSafe(n.children[0], p, d);
      var l := DissectValue(n.children[0], p, d).value;
      TameElements(n.children[1], if l.cell.value.num < 0 then 0 else l.cell.value.num, l.pos, l.dict);
    case Decimal =>
      TameIsSafe(n.children[0], p, d);
      var e := DissectValue(n.children[0], p, d).value;
      TameIsSafe(n.children[1], e.pos, e.dict);
    case _ =>
  }

  lemma {:induction false} TameWalk(ns: seq<Node>, i: nat, p: Pos, d: Local)
    requires AllWellFormed(ns) && AllTame(ns) && i <= |ns|
    ensures WalkTo(ns, i, p, d).Done?
    decreases ns, 0, i
  {
    if i > 0 {
      TameWalk(ns, i - 1, p, d);
      var w := WalkTo(ns, i - 1, p, d).value;
      TameIsSafe(ns[i - 1], w.pos, w.dict);
    }
  }

  lemma {:induction false} TameElements(g: Node, i: nat, p: Pos, d: Local)
    requires WellFormed(g) && Tame(g)
    ensures ElementsTo(g, i, p, d).Done?
    decreases g, 4, i
  {
    if i > 0 {
      TameElements(g, i - 1, p, d);
      var w := ElementsTo(g, i - 1, p, d).value;
      TameIsSafe(g, w.pos, w.dict);
    }
  }

  /** A vector that is read plainly is read within the packet exactly when its length fits what is left. */
  lemma {:induction false} VectorFits(n: Node, p: Pos, d: Local, c: Cell)
    requires WellFormed(n) && IsVector(n.f.typ) && !n.f.op.Constant? && !n.f.op.Delta? && !n.f.op.Tail?
    ensures DissectValue(n.children[0], p, d).Done?
    ensures var l := DissectValue(n.children[0], p, d).value;
            Body(n, p, d, c).Done? <==> 0 <= l.cell.value.num <= |l.pos.bytes|
  {
    assert Tame(n.children[0]);
    TameIsSafe(n.children[0], p, d);
    assert VectorBody(n, p, d, c).Done? == ReadVector(n, p, d).Done?;
    assert Body(n, p, d, c).Done? == VectorBody(n, p, d, c).Done?;
  }
}
