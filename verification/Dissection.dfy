/** What dissecting a field against a template node does, as functions of the position and of the
    conversation's dictionary. The methods of module Dissector are proved to compute these, and the
    properties of the dissector are proved about them. */
module Dissection {
  import opened StopBit
  import opened Decode
  import opened Fields
  import opened Dictionary
  import opened Reader

  /** Faulty: the C code reads memory it does not own or that was never written, so nothing is claimed. */
  datatype Outcome<+T> = Done(value: T) | Faulty {
    predicate IsFailure() { Faulty? }
    function PropagateFailure<U>(): Outcome<U> requires Faulty? { Faulty }
    function Extract(): T requires Done? { value }
  }

  datatype DataNode = DataNode(start: nat, nbytes: nat, status: Status, value: FieldValue, kids: seq<DataNode>)

  datatype Step = Step(pos: Pos, dict: Local, cell: Cell)

  /** A dissected node: the step and, for groups and sequences, the data nodes built below it. */
  datatype Result = Result(pos: Pos, dict: Local, cell: Cell, kids: seq<DataNode>)

  datatype Walked = Walked(pos: Pos, dict: Local, kids: seq<DataNode>)

  // ---------- presence ----------

  predicate ChecksPmap(f: FieldType) {
    match f.op case NoOp => f.typ.Group? case Delta => false case _ => true
  }

  predicate ChecksNull(f: FieldType) {
    match f.op case NoOp => !f.typ.Group? case Constant => false case _ => true
  }

  predicate SetsDictionary(f: FieldType) {
    match f.op case NoOp => !f.typ.Group? case Constant => false case Delta => false case _ => true
  }

  /** dissect_optional: decides whether an optional field is there. */
  function Optional(n: Node, p: Pos, d: Local, c: Cell): (s: Step)
    requires WellFormed(n)
    ensures p.Leads(s.pos)
  {
    var f := n.f;
    if f.mandatory then Step(p, d, c)
    else if (f.typ.Decimal? || f.typ.Sequence?) && f.op.NoOp? then Optional(n.children[0], p, d, c)
    else OptionalField(f, p, d, c)
  }

  function OptionalField(f: FieldType, p: Pos, d: Local, c: Cell): (s: Step)
    ensures p.Leads(s.pos)
  {
    var byBit := c.status.Empty? && ChecksPmap(f) && PeekPmap(p) != ChecksNull(f);
    var c1 := if byBit then c.(status := Exists) else c;
    var looks := c1.status.Empty? && ChecksNull(f);
    var (isNull, p1) := if looks then ShiftNull(p) else (false, p);
    var c2 := if looks && !isNull then c1.(status := Exists) else c1;
    var d1 := if c2.status.Empty? && SetsDictionary(f) then SetValue(f, d, c2) else d;
    var p2 := if ChecksPmap(f) && (!ChecksNull(f) || c2.status.Empty?) then ShiftPmap(p1).1 else p1;
    Step(p2, d1, c2)
  }

  // ---------- operators ----------

  /** dissect_copy */
  function CopyOp(f: FieldType, p: Pos, d: Local, c: Cell): (bool, Step) {
    var (bit, p1) := ShiftPmap(p);
    if bit then (false, Step(p1, d, c))
    else
      var c1 := GetValue(f, d, c).1;
      if c1.status.Undefined? && f.mandatory then (false, Step(p1, d, c1.(status := Error(5))))
      else if c1.status.Empty? && f.mandatory then (false, Step(p1, d, c1.(status := Error(6))))
      else (true, Step(p1, d, c1))
  }

  /** dissect_default */
  function DefaultOp(f: FieldType, p: Pos, d: Local, c: Cell): (bool, Step) {
    var (bit, p1) := ShiftPmap(p);
    if bit then (false, Step(p1, d, c))
    else
      var c1 := c.(value := f.value);
      (true, Step(p1, SetValue(f, d, c1), c1))
  }

  /** Whether the operator alone settles the field. */
  function Operate(f: FieldType, p: Pos, d: Local, c: Cell): (r: (bool, Step))
    ensures p.Leads(r.1.pos)
  {
    match f.op
    case Copy => CopyOp(f, p, d, c)
    case Constant => (true, Step(p, d, c.(value := f.value)))
    case Default => DefaultOp(f, p, d, c)
    case _ => (false, Step(p, d, c))
  }

  /** A template value of this type is copied byte by byte, and there is none to copy. */
  predicate LacksBytes(f: FieldType) { (f.typ.Ascii? || IsVector(f.typ)) && !f.hasDefault }

  /** The operator settles the field with the template's value: a constant, or a default left out. */
  predicate TakesTemplateValue(f: FieldType, p: Pos) { f.op.Constant? || (f.op.Default? && !PeekPmap(p)) }

  /** copy_field_value then reads through a null pointer. */
  predicate CopiesNull(f: FieldType, p: Pos) { LacksBytes(f) && TakesTemplateValue(f, p) }

  datatype IntStep = IntStep(pos: Pos, cell: Cell, delta: int, readIt: bool)

  /** dissect_int_op */
  function IntOp(f: FieldType, p: Pos, d: Local, c: Cell): (s: IntStep)
    ensures p.Leads(s.pos)
  {
    match f.op
    case Constant => IntStep(p, c, 0, false)
    case Delta =>
      var c1 := GetValue(f, d, c).1;
      if c1.status.Undefined? then
        DeltaRead(f, p, Cell(Exists, if f.hasDefault then f.value else BLANK))
      else if c1.status.Empty? && f.mandatory then IntStep(p, c1.(status := Error(6)), 0, false)
      else DeltaRead(f, p, c1)
    case Increment =>
      var (bit, p1) := ShiftPmap(p);
      if bit then IntStep(p1, c, 0, true)
      else
        var c1 := GetValue(f, d, c).1;
        if c1.status.Empty? && f.mandatory then IntStep(p1, c1.(status := Error(6)), 0, false)
        else if c1.status.Undefined? && f.mandatory then IntStep(p1, c1.(status := Error(5)), 0, false)
        else IntStep(p1, c1, 1, false)
    case _ => IntStep(p, c, 0, true)
  }

  function DeltaRead(f: FieldType, p: Pos, c: Cell): (s: IntStep)
    ensures p.Leads(s.pos)
  {
    var delta := ReadSigned(W64, p, UNSET).value.num;
    IntStep(p.SkipNext(), c, if !f.mandatory && 0 < delta then delta - 1 else delta, false)
  }

  // ---------- bodies ----------

  function ReadInteger(t: Typ, p: Pos, c: Cell): Cell {
    if IsUnsigned(t) then ReadUnsigned(WidthOf(t), p, c) else ReadSigned(WidthOf(t), p, c)
  }

  function AddDelta(t: Typ, c: Cell, delta: int): Cell {
    c.(value := c.value.(num := Wrap(t, c.value.num + delta)))
  }

  datatype Reading = Reading(pos: Pos, cell: Cell)

  /** The integer itself: operator, then the stream if the operator says so, then the difference. */
  function IntegerValue(f: FieldType, p: Pos, d: Local, c: Cell): (r: Reading)
    ensures p.Leads(r.pos)
  {
    var s := IntOp(f, p, d, c);
    if s.readIt then
      var c1 := ReadInteger(f.typ, s.pos, s.cell);
      var shifted := !f.mandatory && (IsUnsigned(f.typ) || 0 < c1.value.num);
      Reading(s.pos.SkipNext(), AddDelta(f.typ, c1, if shifted then -1 else s.delta))
    else Reading(s.pos, AddDelta(f.typ, s.cell, s.delta))
  }

  /** dissect_uint32, dissect_uint64, dissect_int32 and dissect_int64 */
  function IntegerBody(f: FieldType, p: Pos, d: Local, c: Cell): (s: Step)
    ensures p.Leads(s.pos)
  {
    var r := IntegerValue(f, p, d, c);
    Step(r.pos, SetValue(f, d, r.cell), r.cell)
  }

  /** A string delta: cut from the end, or from the front when the subtraction length is negative. */
  function Splice(prev: seq<byte>, subtract: int, input: seq<byte>): (r: Option<seq<byte>>) {
    var n := if subtract < 0 then -(subtract + 1) else subtract;
    if n > |prev| then None
    else if subtract < 0 then Some(input + prev[n..])
    else Some(prev[..|prev| - n] + input)
  }

  datatype DeltaStep = DeltaStep(pos: Pos, cell: Cell, readIt: bool)

  /** dissect_ascii_delta */
  function AsciiDelta(f: FieldType, p: Pos, d: Local, c: Cell): (r: Outcome<DeltaStep>)
    ensures r.Done? ==> p.Leads(r.value.pos)
  {
    var subtract := ReadSigned(W32, p, UNSET);
    var p1 := p.SkipNext();
    var (found, lookup) := GetValue(f, d, UNSET);
    if !found then Done(DeltaStep(p1, c, true))
    else
      var input := ReadAscii(p1, UNSET).value.bytes;
      var p2 := p1.SkipNext();
      if SignedOutOfRange(W32, p.Next()) then Done(DeltaStep(p2, c.(status := Error(7)), false))
      else if lookup.status.Empty? then Faulty
      else match Splice(lookup.value.bytes, subtract.value.num, input)
        case None => Done(DeltaStep(p2, c.(status := Error(7)), false))
        case Some(s) => Done(DeltaStep(p2, Holding(c, s), false))
  }

  /** dissect_ascii_string */
  function AsciiBody(f: FieldType, p: Pos, d: Local, c: Cell): (r: Outcome<Step>)
    ensures r.Done? ==> p.Leads(r.value.pos)
  {
    match f.op
    case Constant => Done(Step(p, d, c))
    case Increment => Done(Step(p, SetValue(f, d, c), c))
    case Delta => AsciiDeltaBody(f, p, d, c)
    case Tail => AsciiDeltaBody(f, p, d, c)
    case _ => Done(Step(p.SkipNext(), SetValue(f, d, ReadAscii(p, c)), ReadAscii(p, c)))
  }

  function AsciiDeltaBody(f: FieldType, p: Pos, d: Local, c: Cell): (r: Outcome<Step>)
    ensures r.Done? ==> p.Leads(r.value.pos)
  {
    var s :- AsciiDelta(f, p, d, c);
    if s.readIt then
      var c1 := ReadAscii(s.pos, s.cell);
      Done(Step(s.pos.SkipNext(), SetValue(f, d, c1), c1))
    else Done(Step(s.pos, SetValue(f, d, s.cell), s.cell))
  }

  /** The length, then that many bytes. A length beyond the packet would be read from outside it. */
  function ReadVector(n: Node, p: Pos, d: Local): (r: Outcome<Step>)
    requires WellFormed(n) && IsVector(n.f.typ)
    ensures r.Done? ==> p.Leads(r.value.pos)
    decreases n, 1
  {
    var l :- DissectValue(n.children[0], p, d);
    var len := l.cell.value.num;
    if 0 <= len <= |l.pos.bytes| then
      Done(Step(l.pos.Skip(len), l.dict, Holding(l.cell, l.pos.bytes[..len])))
    else Faulty
  }

  /** What a vector that was read becomes when it is a delta of a stored one. */
  function CutVector(found: bool, lookup: Cell, subtract: int, c: Cell): Outcome<Cell> {
    if !found then Done(c)
    else if lookup.status.Empty? then Faulty
    else match Splice(lookup.value.bytes, subtract, c.value.bytes)
      case None => Faulty
      case Some(b) => Done(Holding(c, b))
  }

  /** A delta of a byte vector: the subtraction length, then the vector that is put in its place. */
  function VectorDelta(n: Node, p: Pos, d: Local): (r: Outcome<Step>)
    requires WellFormed(n) && IsVector(n.f.typ)
    ensures r.Done? ==> p.Leads(r.value.pos)
    decreases n, 2, 0
  {
    var (found, lookup) := GetValue(n.f, d, UNSET);
    var s :- ReadVector(n, p.SkipNext(), d);
    var c :- CutVector(found, lookup, ReadSigned(W64, p, UNSET).value.num, s.cell);
    Done(s.(cell := c))
  }

  /** dissect_byte_vector and dissect_unicode_string */
  function VectorBody(n: Node, p: Pos, d: Local, c: Cell): (r: Outcome<Step>)
    requires WellFormed(n) && IsVector(n.f.typ)
    ensures r.Done? ==> p.Leads(r.value.pos)
    decreases n, 2
  {
    if n.f.op.Constant? then Done(Step(p, d, c))
    else
      var s :- if n.f.op.Delta? || n.f.op.Tail? then VectorDelta(n, p, d) else ReadVector(n, p, d);
      Done(s.(dict := SetValue(n.f, s.dict, s.cell)))
  }

  /** dissect_decimal */
  function DecimalBody(n: Node, p: Pos, d: Local, c: Cell): (r: Outcome<Step>)
    requires WellFormed(n) && n.f.typ.Decimal?
    ensures r.Done? ==> p.Leads(r.value.pos)
    decreases n, 2
  {
    if n.f.op.Delta? then DecimalDelta(n.f, p, d, c)
    else
      var e :- DissectValue(n.children[0], p, d);
      var m :- DissectValue(n.children[1], e.pos, e.dict);
      var c1 := Scaled(m.cell, e.cell.value.num);
      Done(Step(m.pos, SetValue(n.f, m.dict, c1), c1))
  }

  /** Both parts are deltas against the same previous value, read through an uninitialised local:
      without a usable previous value the base is whatever that memory held. */
  function DecimalDelta(f: FieldType, p: Pos, d: Local, c: Cell): (r: Outcome<Step>)
    requires f.op.Delta?
    ensures r.Done? ==> p.Leads(r.value.pos)
  {
    var base := GetValue(f, d, UNSET).1;
    if !base.status.Exists? && !base.status.Undefined? then Faulty
    else
      var e := IntOp(f, p, d, UNSET);
      var m := IntOp(f, e.pos, d, UNSET);
      var c1 := Scaled(c.(value := c.value.(num := W64.WrapSigned(m.delta + m.cell.value.num))),
                       W32.WrapSigned(e.delta + e.cell.value.exponent));
      Done(Step(m.pos, SetValue(f, d, c1), c1))
  }

  /** dissect_group: on a position of its own when the group has its own presence map. */
  function GroupBody(n: Node, p: Pos, d: Local, c: Cell): (r: Outcome<Result>)
    requires WellFormed(n) && n.f.typ.Group?
    ensures r.Done? ==> p.Leads(r.value.pos)
    decreases n, 2
  {
    var nested := if n.f.pmapExists then ReadPmap(p) else p;
    var w :- WalkTo(n.children, |n.children|, nested, d);
    Done(Result(if n.f.pmapExists then p.Skip(w.pos.offset - p.offset) else w.pos, w.dict, c, w.kids))
  }

  /** dissect_sequence */
  function SequenceBody(n: Node, p: Pos, d: Local): (r: Outcome<Result>)
    requires WellFormed(n) && n.f.typ.Sequence?
    ensures r.Done? ==> p.Leads(r.value.pos)
    decreases n, 2
  {
    var l :- DissectValue(n.children[0], p, d);
    var w :- ElementsTo(n.children[1], if l.cell.value.num < 0 then 0 else l.cell.value.num, l.pos, l.dict);
    Done(Result(w.pos, w.dict, l.cell, w.kids))
  }

  /** The sequence's loop gives up when the packet or the presence map is used up. */
  predicate Exhausted(p: Pos) { p.bytes == [] || p.idx >= |p.pmap| }

  /** After i rounds of the sequence's loop. */
  function ElementsTo(g: Node, i: nat, p: Pos, d: Local): (r: Outcome<Walked>)
    requires WellFormed(g)
    ensures r.Done? ==> p.Leads(r.value.pos)
    decreases g, 5, i
  {
    if i == 0 then Done(Walked(p, d, []))
    else
      var w :- ElementsTo(g, i - 1, p, d);
      if Exhausted(w.pos) then Done(w)
      else
        var r :- DissectValue(g, w.pos, w.dict);
        Done(Walked(r.pos, r.dict, w.kids + [NodeOf(w.pos, r)]))
  }

  /** After the first i siblings: dissector_walk. */
  function WalkTo(ns: seq<Node>, i: nat, p: Pos, d: Local): (r: Outcome<Walked>)
    requires AllWellFormed(ns) && i <= |ns|
    ensures r.Done? ==> p.Leads(r.value.pos)
    decreases ns, 0, i
  {
    if i == 0 then Done(Walked(p, d, []))
    else
      var w :- WalkTo(ns, i - 1, p, d);
      var r :- DissectValue(ns[i - 1], w.pos, w.dict);
      Done(Walked(r.pos, r.dict, w.kids + [NodeOf(w.pos, r)]))
  }

  /** The data node of a field whose dissection began at p: its window ends where the cursor stopped. */
  function NodeOf(p: Pos, r: Result): DataNode
    requires p.Leads(r.pos)
  {
    DataNode(p.offset, r.pos.offset - p.offset, r.cell.status, r.cell.value, r.kids)
  }

  function Body(n: Node, p: Pos, d: Local, c: Cell): (r: Outcome<Result>)
    requires WellFormed(n)
    ensures r.Done? ==> p.Leads(r.value.pos)
    decreases n, 3, 0
  {
    match n.f.typ
    case Decimal =>
      var s :- DecimalBody(n, p, d, c);
      Done(Result(s.pos, s.dict, s.cell, []))
    case Ascii =>
      var s :- AsciiBody(n.f, p, d, c);
      Done(Result(s.pos, s.dict, s.cell, []))
    case Unicode =>
      var s :- VectorBody(n, p, d, c);
      Done(Result(s.pos, s.dict, s.cell, []))
    case ByteVector =>
      var s :- VectorBody(n, p, d, c);
      Done(Result(s.pos, s.dict, s.cell, []))
    case Group => GroupBody(n, p, d, c)
    case Sequence => SequenceBody(n, p, d)
    case _ =>
      var s := IntegerBody(n.f, p, d, c);
      Done(Result(s.pos, s.dict, s.cell, []))
  }

  /** Before its type is looked at: is the field there? */
  function Presence(n: Node, p: Pos, d: Local): (s: Step)
    requires WellFormed(n)
    ensures p.Leads(s.pos)
  {
    if n.f.mandatory then Step(p, d, Cell(Exists, BLANK)) else Optional(n, p, d, Cell(Empty, BLANK))
  }

  /** A field that is there: settled by its operator, or read. */
  function Present(n: Node, p: Pos, d: Local, c: Cell): (r: Outcome<Result>)
    requires WellFormed(n)
    ensures r.Done? ==> p.Leads(r.value.pos)
    decreases n, 3, 1
  {
    var (used, s) := Operate(n.f, p, d, c);
    if CopiesNull(n.f, p) then Faulty
    else if used then Done(Result(s.pos, s.dict, s.cell, []))
    else Body(n, s.pos, s.dict, s.cell)
  }

  /** dissect_value */
  function DissectValue(n: Node, p: Pos, d: Local): (r: Outcome<Result>)
    requires WellFormed(n)
    ensures r.Done? ==> p.Leads(r.value.pos)
    decreases n, 4
  {
    var s := Presence(n, p, d);
    if s.cell.status.Exists? then Present(n, s.pos, s.dict, s.cell)
    else Done(Result(s.pos, s.dict, s.cell, []))
  }

  /** The ways a field can go: absent, settled by its operator, read - or taken from a value that is not there. */
  lemma {:induction false} Paths(n: Node, p: Pos, d: Local)
    requires WellFormed(n)
    ensures var s, r := Presence(n, p, d), DissectValue(n, p, d);
            var (used, s1) := Operate(n.f, s.pos, s.dict, s.cell);
            if !s.cell.status.Exists? then r == Done(Result(s.pos, s.dict, s.cell, []))
            else if CopiesNull(n.f, s.pos) then r.Faulty?
            else if used then r == Done(Result(s1.pos, s1.dict, s1.cell, []))
            else r == Body(n, s1.pos, s1.dict, s1.cell)
  {
    var s := Presence(n, p, d);
    assert s.cell.status.Exists? ==> DissectValue(n, p, d) == Present(n, s.pos, s.dict, s.cell);
  }
}
