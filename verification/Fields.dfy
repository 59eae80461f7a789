/** Field types, field values and template trees. */
module Fields {
  import opened StopBit

  datatype Option<+T> = None | Some(value: T)

  datatype Typ = UInt32 | UInt64 | Int32 | Int64 | Decimal | Ascii | Unicode | ByteVector | Group | Sequence

  datatype Op = NoOp | Constant | Default | Copy | Increment | Delta | Tail

  /** The C union of a field's possible values, member by member: integers and mantissas in num,
      a decimal's exponent, and the bytes of a sized value, whose length shares num's storage. */
  datatype FieldValue = FieldValue(num: int, exponent: int, bytes: seq<byte>)

  const BLANK := FieldValue(0, 0, [])

  /** Storing a sized value also stores its length. */
  function WithBytes(v: FieldValue, s: seq<byte>): FieldValue { v.(num := |s|, bytes := s) }

  function Sized(s: seq<byte>): FieldValue { WithBytes(BLANK, s) }

  /** Error carries the number of its message: D2, D4, D5, D6, D7 or D9. Masked and Wild are errors, or undefined
      fields, whose message a value has since been stored over. */
  datatype Status = Exists | Empty | Undefined | Error(code: nat) | Masked | Wild

  /** The message of an error is a pointer that shares storage with the value, on a 64-bit machine with a sized
      value's bytes and a decimal's exponent: storing bytes makes them the message. An undefined field has a null
      pointer there. */
  function UnderBytes(s: Status): Status { if s.Error? || s.Undefined? then Masked else s }

  /** Storing an exponent makes a pointer that points nowhere. */
  function UnderExponent(s: Status, expt: int): Status {
    if s.Error? || (s.Undefined? && expt != 0) then Wild else s
  }

  /** A field's status and value while it is being dissected. */
  datatype Cell = Cell(status: Status, value: FieldValue)

  /** A cell after a sized value is stored in it, or an exponent. */
  function Holding(c: Cell, s: seq<byte>): Cell { Cell(UnderBytes(c.status), WithBytes(c.value, s)) }
  function Scaled(c: Cell, expt: int): Cell { Cell(UnderExponent(c.status, expt), c.value.(exponent := expt)) }

  /** A local FieldData the code has not initialised. */
  const UNSET := Cell(Error(0), BLANK)

  class FieldData {
    var start: nat
    var nbytes: nat
    var status: Status
    var value: FieldValue

    constructor ()
      ensures ToCell() == Cell(Empty, BLANK)
    {
      start, nbytes, status, value := 0, 0, Empty, BLANK;
    }

    /** A local variable before anything is stored in it. */
    constructor Uninitialised()
      ensures ToCell() == UNSET
    {
      start, nbytes, status, value := 0, 0, Error(0), BLANK;
    }

    function ToCell(): Cell
      reads this
    {
      Cell(status, value)
    }

    method SetBytes(s: seq<byte>)
      modifies this`status, this`value
      ensures ToCell() == Holding(old(ToCell()), s)
    {
      value := WithBytes(value, s);
      status := UnderBytes(status);
    }

    method SetExponent(expt: int)
      modifies this`status, this`value
      ensures ToCell() == Scaled(old(ToCell()), expt)
    {
      value := value.(exponent := expt);
      status := UnderExponent(status, expt);
    }

    method ErrD(errNo: nat)
      modifies this`status
      ensures status == Error(errNo)
    {
      status := Error(errNo);
    }
  }

  /** `pmapExists` is the union member only groups use. */
  datatype FieldType = FieldType(
    name: Option<string>, typ: Typ, op: Op, mandatory: bool, id: int, tid: int, key: Option<string>, dictionary: string,
    hasDefault: bool, value: FieldValue, pmapExists: bool)

  datatype Node = Node(f: FieldType, children: seq<Node>)

  predicate IsInteger(t: Typ) { t.UInt32? || t.UInt64? || t.Int32? || t.Int64? }
  predicate IsUnsigned(t: Typ) { t.UInt32? || t.UInt64? }
  predicate IsVector(t: Typ) { t.Unicode? || t.ByteVector? }

  function WidthOf(t: Typ): Width { if t.UInt32? || t.Int32? then W32 else W64 }

  /** Conversion of a mathematical result to the integer's C type. */
  function Wrap(t: Typ, x: int): int {
    if IsUnsigned(t) then WidthOf(t).WrapUnsigned(x) else WidthOf(t).WrapSigned(x)
  }

  predicate InRange(t: Typ, x: int) {
    if IsUnsigned(t) then 0 <= x < WidthOf(t).Modulus() else -WidthOf(t).Half() <= x < WidthOf(t).Half()
  }

  predicate Leaf(n: Node) { (IsInteger(n.f.typ) || n.f.typ.Ascii?) && n.children == [] }

  /** The shape the template parser gives every field, and the operators it lets through. */
  predicate WellFormed(n: Node) {
    var f, c := n.f, n.children;
    match f.typ
    case UInt32 => c == [] && !f.op.Tail?
    case UInt64 => c == [] && !f.op.Tail?
    case Int32 => c == [] && !f.op.Tail?
    case Int64 => c == [] && !f.op.Tail?
    case Ascii => c == [] && !f.op.Increment?
    case Decimal =>
      && |c| == 2 && WellFormed(c[0]) && WellFormed(c[1])
      && c[0].f.typ.Int32? && c[1].f.typ.Int64? && c[0].f.mandatory == f.mandatory
    case Unicode =>
      && |c| == 1 && WellFormed(c[0]) && c[0].f.typ.UInt32? && c[0].f.mandatory == f.mandatory
      && !f.op.Increment?
    case ByteVector =>
      && |c| == 1 && WellFormed(c[0]) && c[0].f.typ.UInt32? && c[0].f.mandatory == f.mandatory
      && !f.op.Increment?
    case Group => f.op.NoOp? && forall i | 0 <= i < |c| :: WellFormed(c[i])
    case Sequence =>
      && f.op.NoOp? && |c| == 2 && WellFormed(c[0]) && WellFormed(c[1])
      && c[0].f.typ.UInt32? && c[0].f.mandatory == f.mandatory && c[1].f.typ.Group? && c[1].f.mandatory
  }

  predicate AllWellFormed(ns: seq<Node>) { forall i | 0 <= i < |ns| :: WellFormed(ns[i]) }
}
