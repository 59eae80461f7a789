/** The sending side, written from the meaning of the operators: what a message puts on the wire, when that is allowed,
    and what a receiver must see. Allowed is what the dissector hears right; Operators says exactly what is not. */
module Sender {
  import opened StopBit
  import opened PresenceMap
  import opened Encode
  import opened Fields
  import opened Dictionary
  import opened Dissection

  /** A message, node by node. `omit` asks for the short form the operator offers;
      None is the absent value of an optional field, group or sequence. */
  datatype Msg =
    | Field(v: Option<FieldValue>, omit: bool)
    | Cut(whole: seq<byte>, subtract: int, input: seq<byte>, unsized: bool)   // a string delta and what it stands for
    | Unsized(s: seq<byte>)                    // a vector whose length is left out, as a delta's may be
    | Parts(expt: Msg, mant: Msg)              // a decimal sent as exponent and mantissa
    | Members(kids: seq<Msg>, size: nat)       // a group that is there, and the bytes of its own presence map
    | Elements(length: Msg, elems: seq<Msg>)   // a sequence that is there

  /** What one node puts on the wire, and the sender's dictionary afterwards. */
  datatype Wire = Wire(bits: seq<bool>, bytes: seq<byte>, dict: Local) {
    function Then(w: Wire): Wire { Wire(bits + w.bits, bytes + w.bytes, w.dict) }
  }

  // ---------- values ----------

  function Number(x: int): FieldValue { FieldValue(x, 0, []) }

  predicate PlainAscii(s: seq<byte>) { forall i :: 0 <= i < |s| ==> 0 < s[i] < 128 }

  /** The values a field of each type can carry. */
  predicate Canonical(t: Typ, v: FieldValue) {
    match t
    case Ascii => v == Sized(v.bytes) && PlainAscii(v.bytes)
    case Unicode => v == Sized(v.bytes) && |v.bytes| < 0xFFFF_FFFF
    case ByteVector => v == Sized(v.bytes) && |v.bytes| < 0xFFFF_FFFF
    case Decimal => v.bytes == [] && InRange(Int64, v.num) && InRange(Int32, v.exponent)
    case _ => IsInteger(t) && v == Number(v.num) && InRange(t, v.num)
  }

  /** Optional integers make room for null: non-negative values move up by one. */
  function Nullable(f: FieldType, x: int): int {
    if !f.mandatory && (IsUnsigned(f.typ) || x >= 0) then x + 1 else x
  }

  function IntegerBytes(t: Typ, x: int): seq<byte>
    requires IsUnsigned(t) ==> x >= 0
  {
    if IsUnsigned(t) then EncodeUnsigned(x) else EncodeSigned(x)
  }

  /** An optional empty string is told from null by a leading zero byte. */
  function StringBytes(f: FieldType, s: seq<byte>): seq<byte> {
    if !f.mandatory && s == [] then [0, 0x80] else AsciiBytes(s)
  }

  const NULL: seq<byte> := [0x80]

  function Store(f: FieldType, d: Local, v: Option<FieldValue>): Local {
    if f.key.None? then d else d[SlotOf(f) := TypedValue(f.typ, v)]
  }

  /** The value both sides have stored for a field, if it has the field's type. */
  function Stored(f: FieldType, d: Local): Option<Option<FieldValue>> {
    if f.key.Some? && SlotOf(f) in d && d[SlotOf(f)].typ == f.typ then Some(d[SlotOf(f)].value) else None
  }

  predicate Unset(f: FieldType, d: Local) { f.key.Some? && SlotOf(f) !in d }

  /** The initial value, which a default that is left out stands for; an optional field may have none and is absent. */
  function Initial(f: FieldType): Option<FieldValue> { if f.hasDefault then Some(f.value) else None }

  /** Nothing is stored, and there is no initial value to start from. */
  predicate Unknown(f: FieldType, d: Local) { Unset(f, d) && !f.hasDefault }

  /** What an omitted copy repeats: the stored value, or the initial value while nothing is stored. */
  function Previous(f: FieldType, d: Local): Option<Option<FieldValue>> {
    if Unset(f, d) then (if Unknown(f, d) && f.mandatory then None else Some(Initial(f))) else Stored(f, d)
  }

  /** What an omitted increment stands for: the stored value's successor, or the initial value while nothing is
      stored. */
  function Incremented(f: FieldType, d: Local): Option<Option<FieldValue>> {
    var u := Previous(f, d);
    if Unset(f, d) || u.None? || u.value.None? then u else Some(Some(Number(Wrap(f.typ, u.value.value.num + 1))))
  }

  /** What a delta is added to or cut from: the stored value, else the initial value, else zero or nothing. */
  function Base(f: FieldType, d: Local): Option<FieldValue> {
    if Unset(f, d) then Some(if f.hasDefault then f.value else BLANK)
    else if Stored(f, d).Some? then Stored(f, d).value
    else None
  }

  // ---------- integers and strings ----------

  predicate HasBit(f: FieldType) { f.op.Default? || f.op.Copy? || f.op.Increment? }

  predicate Fits(f: FieldType, v: FieldValue) {
    IsInteger(f.typ) ==> InRange(f.typ, Nullable(f, v.num))
  }

  /** A difference, as the delta operator sends it. */
  function Difference(f: FieldType, d: Local, v: FieldValue): int
    requires Base(f, d).Some?
  {
    var x := v.num - Base(f, d).value.num;
    if !f.mandatory && x >= 0 then x + 1 else x
  }

  /** Which short forms and values the operator allows. Short forms that the dissector hears wrong are left out: a
      default or copy without anything to stand for, and an increment of an initial value. */
  predicate LegalField(f: FieldType, v: Option<FieldValue>, omit: bool, d: Local) {
    && (v.None? ==> !f.mandatory)
    && (v.Some? ==> Canonical(f.typ, v.value))
    && match f.op
       case Constant => omit && (v.Some? ==> v == Initial(f))
       case NoOp => !omit && (v.Some? ==> Fits(f, v.value))
       case Default => if omit then f.hasDefault && v == Initial(f) else v.Some? ==> Fits(f, v.value)
       case Copy => if omit then Previous(f, d) == Some(v) && !Unknown(f, d) else v.Some? ==> Fits(f, v.value)
       case Increment =>
         if omit then
           Incremented(f, d) == Some(v) && !Unset(f, d) &&
           (v.Some? ==> Stored(f, d) == Some(Some(Number(Stored(f, d).value.value.num))))
         else v.Some? ==> Fits(f, v.value)
       case Delta =>
         !omit && (v.Some? ==> IsInteger(f.typ) && Base(f, d).Some? && Base(f, d).value == Number(Base(f, d).value.num)
                               && InRange(Int64, Difference(f, d, v.value)))
       case Tail => false
  }

  function FieldBytes(f: FieldType, v: Option<FieldValue>, omit: bool, d: Local): seq<byte>
    requires LegalField(f, v, omit, d) && (IsInteger(f.typ) || f.typ.Ascii?)
  {
    if omit then []
    else match v
      case None => NULL
      case Some(x) =>
        if f.op.Delta? then EncodeSigned(Difference(f, d, x))
        else if f.typ.Ascii? then StringBytes(f, x.bytes)
        else IntegerBytes(f.typ, Nullable(f, x.num))
  }

  /** A constant stores nothing, an omitted copy leaves what is stored, and neither does an absent delta store anything.
      The rest is stored, as the dissector does it, fields without operator and defaults included. */
  predicate StoresNothing(f: FieldType, v: Option<FieldValue>, omit: bool) {
    f.op.Constant? || (f.op.Copy? && omit) || (f.op.Delta? && v.None?)
  }

  function FieldBits(f: FieldType, v: Option<FieldValue>, omit: bool): seq<bool> {
    if HasBit(f) then [!omit] else if f.op.Constant? && !f.mandatory then [v.Some?] else []
  }

  function SendField(f: FieldType, v: Option<FieldValue>, omit: bool, d: Local): Wire
    requires LegalField(f, v, omit, d) && (IsInteger(f.typ) || f.typ.Ascii?)
  {
    Wire(FieldBits(f, v, omit), FieldBytes(f, v, omit, d), if StoresNothing(f, v, omit) then d else Store(f, d, v))
  }

  // ---------- string deltas ----------

  /** The string a cut stands for: the base, cut at one end, with the input in place of what was cut. */
  predicate StandsFor(f: FieldType, m: Msg, d: Local)
    requires m.Cut?
  {
    f.op.Delta? && Base(f, d).Some? && Splice(Base(f, d).value.bytes, m.subtract, m.input) == Some(m.whole)
  }

  /** An optional delta makes room for null in its subtraction length. */
  function Subtraction(f: FieldType, subtract: int): int {
    if !f.mandatory && subtract >= 0 then subtract + 1 else subtract
  }

  /** The dissector takes the input for the whole string when nothing is stored, whatever the initial value, and never
      undoes the shift that made room for null: these are the cuts it hears right. */
  predicate HeardRight(f: FieldType, m: Msg, d: Local)
    requires m.Cut?
  {
    if Unset(f, d) then m.whole == m.input else f.mandatory || m.subtract < 0
  }

  predicate LegalCut(f: FieldType, m: Msg, d: Local)
    requires m.Cut?
  {
    StandsFor(f, m, d) && HeardRight(f, m, d)
  }

  predicate LegalString(f: FieldType, m: Msg, d: Local) {
    match m
    case Field(v, omit) => LegalField(f, v, omit, d)
    case Cut(_, subtract, input, unsized) =>
      LegalCut(f, m, d) && PlainAscii(input) && InRange(Int32, Subtraction(f, subtract)) && !unsized
    case _ => false
  }

  function StringCutBytes(f: FieldType, subtract: int, input: seq<byte>): seq<byte> {
    EncodeSigned(Subtraction(f, subtract)) + AsciiBytes(input)
  }

  function SendString(f: FieldType, m: Msg, d: Local): Wire
    requires f.typ.Ascii? && LegalString(f, m, d)
  {
    match m
    case Field(v, omit) => SendField(f, v, omit, d)
    case Cut(whole, subtract, input, _) =>
      Wire([], StringCutBytes(f, subtract, input), Store(f, d, Some(Sized(whole))))
  }

  // ---------- byte vectors and unicode strings ----------

  /** The length in front of the bytes is a field of its own. */
  predicate LegalLength(n: Node, s: seq<byte>, omit: bool, d: Local)
    requires WellFormed(n) && IsVector(n.f.typ)
  {
    |s| < 0xFFFF_FFFF && LegalField(n.children[0].f, Some(Number(|s|)), omit, d)
  }

  /** An optional vector is recognised by its first byte, and that is data when the length is left out. */
  predicate NotTakenForNull(n: Node, s: seq<byte>) { n.f.mandatory || (s != [] && s[0] != 0x80) }

  predicate LegalVector(n: Node, m: Msg, d: Local)
    requires WellFormed(n) && IsVector(n.f.typ)
  {
    match m
    case Field(v, omit) => LegalField(n.f, v, omit, d) && (v.Some? && !omit ==> LegalLength(n, v.value.bytes, false, d))
    case Unsized(s) => LegalField(n.f, Some(Sized(s)), false, d) && LegalLength(n, s, true, d) && NotTakenForNull(n, s)
    case Cut(_, subtract, input, unsized) =>
      LegalCut(n.f, m, d) && LegalLength(n, input, unsized, d) && InRange(Int64, Subtraction(n.f, subtract))
    case _ => false
  }

  /** Length and bytes; the length has a slot of its own. */
  function LengthAndBytes(n: Node, s: seq<byte>, omit: bool, d: Local): Wire
    requires WellFormed(n) && IsVector(n.f.typ) && LegalLength(n, s, omit, d)
  {
    var w := SendField(n.children[0].f, Some(Number(|s|)), omit, d);
    Wire(w.bits, w.bytes + s, w.dict)
  }

  /** The vector's own bit, its length, its bytes. */
  function SendWhole(n: Node, s: seq<byte>, omit: bool, d: Local): Wire
    requires WellFormed(n) && IsVector(n.f.typ) && LegalLength(n, s, omit, d)
  {
    Wire(if HasBit(n.f) then [true] else [], [], d).Then(LengthAndBytes(n, s, omit, d)).
      (dict := Store(n.f, LengthAndBytes(n, s, omit, d).dict, Some(Sized(s))))
  }

  function SendVector(n: Node, m: Msg, d: Local): Wire
    requires WellFormed(n) && IsVector(n.f.typ) && LegalVector(n, m, d)
  {
    var f := n.f;
    match m
    case Cut(whole, subtract, input, unsized) =>
      var w := LengthAndBytes(n, input, unsized, d);
      Wire(w.bits, EncodeSigned(Subtraction(f, subtract)) + w.bytes, Store(f, w.dict, Some(Sized(whole))))
    case Unsized(s) => SendWhole(n, s, true, d)
    case Field(v, omit) =>
      if v.Some? && !omit then SendWhole(n, v.value.bytes, false, d)
      else
        var after := if StoresNothing(f, v, omit) then d else Store(f, d, v);
        Wire(FieldBits(f, v, omit), if omit then [] else NULL, after)
  }

  // ---------- decimals ----------

  function DecimalOf(e: Msg, m: Msg): FieldValue
    requires e.Field? && e.v.Some? && m.Field? && m.v.Some?
  {
    FieldValue(m.v.value.num, e.v.value.num, [])
  }

  /** Both parts are there, each in a form of its own. */
  predicate BothParts(n: Node, e: Msg, m: Msg, d: Local)
    requires WellFormed(n) && n.f.typ.Decimal?
  {
    && (n.f.op.NoOp? || n.f.op.Default? || n.f.op.Copy?)
    && e.Field? && e.v.Some? && LegalField(n.children[0].f, e.v, e.omit, d)
    && m.Field? && m.v.Some?
    && LegalField(n.children[1].f, m.v, m.omit, SendField(n.children[0].f, e.v, e.omit, d).dict)
  }

  function SendParts(n: Node, e: Msg, m: Msg, d: Local): Wire
    requires WellFormed(n) && n.f.typ.Decimal? && BothParts(n, e, m, d)
  {
    var we := SendField(n.children[0].f, e.v, e.omit, d);
    we.Then(SendField(n.children[1].f, m.v, m.omit, we.dict))
  }

  /** The bit that says the whole decimal is sent. */
  function OwnBit(n: Node, d: Local): Wire { Wire(if n.f.op.NoOp? then [] else [true], [], d) }

  /** An optional decimal is recognised by its exponent, so that must not be a constant; and under an operator of the
      whole decimal by the first byte of its parts. */
  predicate LegalParts(n: Node, e: Msg, m: Msg, d: Local)
    requires WellFormed(n) && n.f.typ.Decimal?
  {
    && BothParts(n, e, m, d)
    && if n.f.op.NoOp? then n.f.mandatory || !n.children[0].f.op.Constant?
       else NotTakenForNull(n, SendParts(n, e, m, d).bytes)
  }

  /** A decimal delta: two differences. The receiver takes one off a positive mantissa difference of an
      optional decimal as well, so there only differences up to zero are legal. */
  predicate LegalDiff(f: FieldType, v: FieldValue, d: Local) {
    && f.op.Delta? && Base(f, d).Some? && Canonical(Decimal, v) && Base(f, d).value.bytes == []
    && InRange(Int64, ExponentDifference(f, v, d)) && InRange(Int64, v.num - Base(f, d).value.num)
    && (!f.mandatory ==> v.num <= Base(f, d).value.num)
  }

  function ExponentDifference(f: FieldType, v: FieldValue, d: Local): int
    requires Base(f, d).Some?
  {
    var x := v.exponent - Base(f, d).value.exponent;
    if !f.mandatory && x >= 0 then x + 1 else x
  }

  predicate LegalDecimal(n: Node, m: Msg, d: Local)
    requires WellFormed(n) && n.f.typ.Decimal?
  {
    match m
    case Parts(e, t) => LegalParts(n, e, t, d)
    case Field(v, omit) =>
      if omit then LegalField(n.f, v, omit, d) && !n.f.op.Increment?
      else if v.Some? then LegalDiff(n.f, v.value, d)
      else if n.f.op.NoOp? then LegalField(n.children[0].f, None, false, d) && !n.children[0].f.op.Constant?
      else LegalField(n.f, None, false, d) && !n.f.op.Increment?
    case _ => false
  }

  function SendDecimal(n: Node, m: Msg, d: Local): Wire
    requires WellFormed(n) && n.f.typ.Decimal? && LegalDecimal(n, m, d)
  {
    var f := n.f;
    match m
    case Parts(e, t) =>
      var w := SendParts(n, e, t, d);
      OwnBit(n, d).Then(w).(dict := Store(f, w.dict, Some(DecimalOf(e, t))))
    case Field(v, omit) =>
      if omit then Wire(FieldBits(f, v, omit), [], if StoresNothing(f, v, omit) then d else Store(f, d, v))
      else if v.Some? then
        var x, y := ExponentDifference(f, v.value, d), v.value.num - Base(f, d).value.num;
        Wire([], EncodeSigned(x) + EncodeSigned(y), Store(f, d, v))
      else if f.op.NoOp? then SendField(n.children[0].f, None, false, d)
      else Wire(FieldBits(f, v, omit), NULL, if StoresNothing(f, v, omit) then d else Store(f, d, v))
  }

  // ---------- groups, sequences and whole messages ----------

  /** What may be sent for a node, when the enclosing presence map as it is sent has `avail` unread bits for it and for
      what comes after, and `follow` more bytes come after. Both matter to sequences only: a receiver gives them up when
      no bit of the map or no byte of the packet is left. */
  predicate Legal(n: Node, m: Msg, d: Local, avail: nat, follow: nat)
    requires WellFormed(n)
    decreases n, 2
  {
    match n.f.typ
    case Ascii => LegalString(n.f, m, d)
    case Unicode => LegalVector(n, m, d)
    case ByteVector => LegalVector(n, m, d)
    case Decimal => LegalDecimal(n, m, d)
    case Group => LegalGroup(n, m, d, avail, follow)
    case Sequence => LegalSequence(n, m, d, avail, follow)
    case _ => m.Field? && LegalField(n.f, m.v, m.omit, d)
  }

  predicate LegalGroup(n: Node, m: Msg, d: Local, avail: nat, follow: nat)
    requires WellFormed(n) && n.f.typ.Group?
    decreases n, 1
  {
    match m
    case Field(v, omit) => v.None? && !n.f.mandatory
    case Members(kids, size) =>
      && |kids| == |n.children|
      && (n.f.pmapExists ==> HoldsMap(SendUpTo(n.children, kids, |kids|, d).bits, size))
      && LegalUpTo(n.children, kids, |kids|, d,
                   if n.f.pmapExists then 7 * size else Less(avail, if n.f.mandatory then 0 else 1), follow)
    case _ => false
  }

  /** What is left of the map; beyond its end it goes on with zeros that are not counted. */
  function Less(avail: nat, used: nat): nat { if used <= avail then avail - used else 0 }

  /** The bytes of a member come before those of the next one, so more of them follow the earlier members. */
  predicate LegalUpTo(ns: seq<Node>, ms: seq<Msg>, i: nat, d: Local, avail: nat, follow: nat)
    requires AllWellFormed(ns) && |ms| == |ns| && i <= |ns|
    decreases ns, 0, i
  {
    i == 0 ||
    (var w := SendUpTo(ns, ms, i - 1, d);
     && LegalUpTo(ns, ms, i - 1, d, avail, follow + |Send(ns[i - 1], ms[i - 1], w.dict).bytes|)
     && Legal(ns[i - 1], ms[i - 1], w.dict, Less(avail, |w.bits|), follow))
  }

  predicate LegalSequence(n: Node, m: Msg, d: Local, avail: nat, follow: nat)
    requires WellFormed(n) && n.f.typ.Sequence?
    decreases n, 1
  {
    var l := n.children[0].f;
    match m
    case Field(v, omit) => v.None? && !omit && LegalField(l, None, false, d) && !l.op.Constant?
    case Elements(length, elems) =>
      && length.Field? && length.v == Some(Number(|elems|)) && LegalField(l, length.v, length.omit, d)
      && (!n.f.mandatory ==> !l.op.Constant?)
      && var w := SendField(l, length.v, length.omit, d);
         LegalElements(n.children[1], elems, |elems|, w.dict, Less(avail, |w.bits|), follow)
    case _ => false
  }

  predicate LegalElements(g: Node, ms: seq<Msg>, i: nat, d: Local, avail: nat, follow: nat)
    requires WellFormed(g) && i <= |ms|
    decreases g, 3, i
  {
    i == 0 ||
    (var w := SendElements(g, ms, i - 1, d);
     var ahead := |Send(g, ms[i - 1], w.dict).bytes| + follow;
     && LegalElements(g, ms, i - 1, d, avail, ahead)
     && |w.bits| < avail && ahead > 0 && ms[i - 1].Members?
     && Legal(g, ms[i - 1], w.dict, avail - |w.bits|, follow))
  }

  /** What a node puts on the wire; nothing for a message that does not suit it. */
  function Send(n: Node, m: Msg, d: Local): Wire
    requires WellFormed(n)
    decreases n, 2
  {
    match n.f.typ
    case Ascii => if LegalString(n.f, m, d) then SendString(n.f, m, d) else Wire([], [], d)
    case Unicode => if LegalVector(n, m, d) then SendVector(n, m, d) else Wire([], [], d)
    case ByteVector => if LegalVector(n, m, d) then SendVector(n, m, d) else Wire([], [], d)
    case Decimal => if LegalDecimal(n, m, d) then SendDecimal(n, m, d) else Wire([], [], d)
    case Group => SendGroup(n, m, d)
    case Sequence => SendSequence(n, m, d)
    case _ => if m.Field? && LegalField(n.f, m.v, m.omit, d) then SendField(n.f, m.v, m.omit, d) else Wire([], [], d)
  }

  /** An optional group announces itself with a bit; a group with its own presence map sends it first. */
  function SendGroup(n: Node, m: Msg, d: Local): Wire
    requires WellFormed(n) && n.f.typ.Group?
    decreases n, 1
  {
    var own := if n.f.mandatory then [] else [m.Members?];
    if m.Members? && |m.kids| == |n.children| then
      var w := SendUpTo(n.children, m.kids, |m.kids|, d);
      if n.f.pmapExists then Wire(own, MapBytes(w.bits, m.size) + w.bytes, w.dict)
      else Wire(own + w.bits, w.bytes, w.dict)
    else Wire(own, [], d)
  }

  function SendUpTo(ns: seq<Node>, ms: seq<Msg>, i: nat, d: Local): Wire
    requires AllWellFormed(ns) && |ms| == |ns| && i <= |ns|
    decreases ns, 0, i
  {
    if i == 0 then Wire([], [], d)
    else
      var w := SendUpTo(ns, ms, i - 1, d);
      w.Then(Send(ns[i - 1], ms[i - 1], w.dict))
  }

  function SendSequence(n: Node, m: Msg, d: Local): Wire
    requires WellFormed(n) && n.f.typ.Sequence?
    decreases n, 1
  {
    var l := n.children[0].f;
    match m
    case Field(v, omit) => if LegalField(l, None, false, d) then SendField(l, None, false, d) else Wire([], [], d)
    case Elements(length, elems) =>
      if length.Field? && LegalField(l, length.v, length.omit, d) then
        var w := SendField(l, length.v, length.omit, d);
        w.Then(SendElements(n.children[1], elems, |elems|, w.dict))
      else Wire([], [], d)
    case _ => Wire([], [], d)
  }

  function SendElements(g: Node, ms: seq<Msg>, i: nat, d: Local): Wire
    requires WellFormed(g) && i <= |ms|
    decreases g, 3, i
  {
    if i == 0 then Wire([], [], d)
    else
      var w := SendElements(g, ms, i - 1, d);
      w.Then(Send(g, ms[i - 1], w.dict))
  }

  // ---------- what the receiver must see ----------

  predicate Shows(n: Node, m: Msg, data: DataNode)
    decreases m
  {
    match m
    case Field(v, _) =>
      data.kids == [] && if v.Some? then data.status == Exists && data.value == v.value else data.status == Empty
    case Unsized(s) => data.kids == [] && data.status == Exists && data.value == Sized(s)
    case Cut(whole, _, _, _) => data.kids == [] && data.status == Exists && data.value == Sized(whole)
    case Parts(e, t) =>
      && e.Field? && e.v.Some? && t.Field? && t.v.Some?
      && data.kids == [] && data.status == Exists && data.value == DecimalOf(e, t)
    case Members(kids, _) => n.f.typ.Group? && data.status == Exists && AllShow(n.children, kids, data.kids)
    case Elements(_, elems) =>
      n.f.typ.Sequence? && data.status == Exists && |n.children| == 2 && data.value.num == |elems| == |data.kids| &&
      forall i | 0 <= i < |elems| :: Shows(n.children[1], elems[i], data.kids[i])
  }

  predicate AllShow(ns: seq<Node>, ms: seq<Msg>, ds: seq<DataNode>)
    decreases ms
  {
    |ns| == |ms| == |ds| && forall i | 0 <= i < |ms| :: Shows(ns[i], ms[i], ds[i])
  }
}
