/** The dissector itself: it moves a position through the packet, fills in one FieldData per field and
    updates the dictionaries, all in place. Each method computes the function of module Dissection it is
    named after; ok = false is returned where the C code reads memory it does not own or has not written. */
module Dissector {
  import opened StopBit
  import opened Decode
  import opened Fields
  import opened Dictionary
  import opened Reader
  import D = Dissection
  import opened Dissection

  method DissectIntOp(f: FieldType, fdata: FieldData, position: DissectPosition, store: Dictionaries, c: Conversation)
    returns (delta: int, dissectIt: bool)
    requires position.Valid() && store.Valid()
    modifies position, fdata, store`srcTable
    ensures position.Valid() && store.Valid()
    ensures IntStep(position.View(), fdata.ToCell(), delta, dissectIt) ==
              IntOp(f, old(position.View()), old(store.LocalOf(c)), old(fdata.ToCell()))
  {
    delta, dissectIt := 0, false;
    if f.op.Constant? {
    } else if f.op.Delta? {
      var found := store.GetDictionaryValue(f, fdata, c);
      if fdata.status.Undefined? {
        fdata.status := Exists;
        if f.hasDefault {
          fdata.value := f.value;
        } else {
          fdata.value := BLANK;
        }
      } else if fdata.status.Empty? && f.mandatory {
        fdata.ErrD(6);
        return;
      }
      var temp := new FieldData.Uninitialised();
      BasicDissectInt(W64, position, temp);
      delta := temp.value.num;
      if !f.mandatory && 0 < delta {
        delta := delta - 1;
      }
    } else if f.op.Increment? {
      var bit := position.DissectShiftPmap();
      if bit {
        dissectIt := true;
      } else {
        var found := store.GetDictionaryValue(f, fdata, c);
        if fdata.status.Empty? && f.mandatory {
          fdata.ErrD(6);
        } else if fdata.status.Undefined? && f.mandatory {
          fdata.ErrD(5);
        } else {
          delta := 1;
        }
      }
    } else {
      dissectIt := true;
    }
  }

  /** The four range-checked readers, by type. */
  method BasicDissectInteger(t: Typ, position: DissectPosition, fdata: FieldData)
    requires position.Valid()
    modifies position, fdata
    ensures position.Valid() && position.View() == old(position.View()).SkipNext()
    ensures fdata.ToCell() == ReadInteger(t, old(position.View()), old(fdata.ToCell()))
  {
    if IsUnsigned(t) {
      BasicDissectUint(WidthOf(t), position, fdata);
    } else {
      BasicDissectInt(WidthOf(t), position, fdata);
    }
  }

  /** The addition in the field's own C type. */
  method AddTo(t: Typ, fdata: FieldData, delta: int)
    modifies fdata`value
    ensures fdata.ToCell() == AddDelta(t, old(fdata.ToCell()), delta)
  {
    fdata.value := fdata.value.(num := Wrap(t, fdata.value.num + delta));
  }

  /** What the four integer dissectors do before they store their value. */
  method DissectIntegerValue(f: FieldType, position: DissectPosition, fdata: FieldData, store: Dictionaries,
                             c: Conversation)
    requires position.Valid() && store.Valid()
    modifies position, fdata, store`srcTable
    ensures position.Valid() && store.Valid()
    ensures Reading(position.View(), fdata.ToCell()) ==
              IntegerValue(f, old(position.View()), old(store.LocalOf(c)), old(fdata.ToCell()))
  {
    var delta, dissectIt := DissectIntOp(f, fdata, position, store, c);
    if dissectIt {
      BasicDissectInteger(f.typ, position, fdata);
      if !f.mandatory && (IsUnsigned(f.typ) || 0 < fdata.value.num) {
        delta := -1;
      }
    }
    AddTo(f.typ, fdata, delta);
  }

  method DissectInteger(f: FieldType, position: DissectPosition, fdata: FieldData, store: Dictionaries, c: Conversation)
    requires position.Valid() && store.Valid()
    modifies position, fdata, store
    ensures position.Valid() && store.Valid() && store.locals - {c} == old(store.locals) - {c}
    ensures Step(position.View(), store.LocalOf(c), fdata.ToCell()) ==
              IntegerBody(f, old(position.View()), old(store.LocalOf(c)), old(fdata.ToCell()))
  {
    DissectIntegerValue(f, position, fdata, store, c);
    store.SetDictionaryValue(f, fdata, c);
  }

  method DissectAsciiDelta(f: FieldType, fdata: FieldData, position: DissectPosition, store: Dictionaries,
                           c: Conversation)
    returns (ok: bool, dissectIt: bool)
    requires position.Valid() && store.Valid()
    modifies position, fdata, store`srcTable
    ensures position.Valid() && store.Valid()
    ensures var r := AsciiDelta(f, old(position.View()), old(store.LocalOf(c)), old(fdata.ToCell()));
            && ok == r.Done?
            && (ok ==> DeltaStep(position.View(), fdata.ToCell(), dissectIt) == r.value)
  {
    ok, dissectIt := true, false;
    var temp := new FieldData.Uninitialised();
    var input := new FieldData.Uninitialised();
    var lookup := new FieldData.Uninitialised();
    ghost var next := position.View().Next();
    BasicDissectInt(W32, position, temp);
    var subtract := temp.value.num;
    var found := store.GetDictionaryValue(f, lookup, c);
    if !found {
      return true, true;
    }
    BasicDissectAsciiString(position, input);
    SignedAcceptance(W32, next);
    if temp.nbytes > 5 {
      fdata.ErrD(7);
      return;
    }
    if temp.nbytes == 5 && temp.status == Error(2) {
      fdata.ErrD(7);
      return;
    }
    if lookup.status.Empty? {
      return false, false;
    }
    var spliced := SpliceBytes(lookup.value.bytes, subtract, input.value.bytes);
    if spliced.None? {
      fdata.ErrD(7);
      return;
    }
    fdata.SetBytes(spliced.value);
  }

  /** The part dissect_ascii_delta and dissect_byte_vector have in common. */
  method SpliceBytes(prev: seq<byte>, subtraction: int, input: seq<byte>) returns (r: Option<seq<byte>>)
    ensures r == Splice(prev, subtraction, input)
  {
    var subtract := subtraction;
    var appendToFront := subtract < 0;
    if appendToFront {
      subtract := -(subtract + 1);
    }
    if |prev| < subtract {
      return None;
    }
    var cutLength := |prev| - subtract;
    if appendToFront {
      r := Some(input + prev[subtract..]);
    } else {
      r := Some(prev[..cutLength] + input);
    }
  }

  method DissectAsciiString(f: FieldType, position: DissectPosition, fdata: FieldData, store: Dictionaries,
                            c: Conversation)
    returns (ok: bool)
    requires position.Valid() && store.Valid()
    modifies position, fdata, store
    ensures position.Valid() && store.Valid() && store.locals - {c} == old(store.locals) - {c}
    ensures var r := AsciiBody(f, old(position.View()), old(store.LocalOf(c)), old(fdata.ToCell()));
            && ok == r.Done?
            && (ok ==> Step(position.View(), store.LocalOf(c), fdata.ToCell()) == r.value)
  {
    ok := true;
    if f.op.Constant? { return; }
    var dissectIt := f.op.Copy? || f.op.Default? || f.op.NoOp?;
    if f.op.Delta? || f.op.Tail? {
      ok, dissectIt := DissectAsciiDelta(f, fdata, position, store, c);
      if !ok { return; }
    }
    if dissectIt {
      BasicDissectAsciiString(position, fdata);
    }
    store.SetDictionaryValue(f, fdata, c);
  }

  method DissectCopy(f: FieldType, position: DissectPosition, fdata: FieldData, store: Dictionaries, c: Conversation)
    returns (used: bool)
    requires position.Valid() && store.Valid()
    modifies position, fdata, store`srcTable
    ensures position.Valid() && store.Valid()
    ensures (used, Step(position.View(), store.LocalOf(c), fdata.ToCell())) ==
              CopyOp(f, old(position.View()), old(store.LocalOf(c)), old(fdata.ToCell()))
  {
    used := true;
    var bit := position.DissectShiftPmap();
    if bit {
      used := false;
    } else {
      var found := store.GetDictionaryValue(f, fdata, c);
      if fdata.status.Undefined? && f.mandatory {
        fdata.ErrD(5);
        return false;
      } else if fdata.status.Empty? && f.mandatory {
        fdata.ErrD(6);
        return false;
      }
    }
  }

  /** copy_field_value from the template: a string or vector without a value is copied from a null pointer. */
  method CopyTemplateValue(f: FieldType, fdata: FieldData) returns (ok: bool)
    modifies fdata`value
    ensures ok == !LacksBytes(f)
    ensures ok ==> fdata.value == f.value
  {
    if (f.typ.Ascii? || IsVector(f.typ)) && !f.hasDefault { return false; }
    fdata.value := f.value;
    ok := true;
  }

  method DissectDefault(f: FieldType, position: DissectPosition, fdata: FieldData, store: Dictionaries, c: Conversation)
    returns (ok: bool, used: bool)
    requires f.op.Default? && position.Valid() && store.Valid()
    modifies position, fdata, store
    ensures position.Valid() && store.Valid() && store.locals - {c} == old(store.locals) - {c}
    ensures ok == !CopiesNull(f, old(position.View()))
    ensures ok ==> (used, Step(position.View(), store.LocalOf(c), fdata.ToCell())) ==
                     DefaultOp(f, old(position.View()), old(store.LocalOf(c)), old(fdata.ToCell()))
  {
    ok, used := true, true;
    var bit := position.DissectShiftPmap();
    if bit {
      used := false;
    } else {
      ok := CopyTemplateValue(f, fdata);
      if !ok { return; }
      store.SetDictionaryValue(f, fdata, c);
    }
  }

  /** What dissect_optional's switch on the operator asks for. */
  method ChecksFor(f: FieldType) returns (checkPmap: bool, checkNull: bool, setDict: bool)
    ensures checkPmap == ChecksPmap(f) && checkNull == ChecksNull(f) && setDict == SetsDictionary(f)
  {
    checkPmap, checkNull, setDict := false, false, false;
    match f.op {
      case NoOp =>
        if f.typ.Group? {
          checkPmap := true;
        } else {
          checkNull := true;
          setDict := true;
        }
      case Constant => checkPmap := true;
      case Delta => checkNull := true;
      case _ =>
        checkPmap := true;
        checkNull := true;
        setDict := true;
    }
  }

  method DissectOptional(n: Node, position: DissectPosition, fdata: FieldData, store: Dictionaries, c: Conversation)
    requires WellFormed(n) && position.Valid() && store.Valid()
    modifies position, fdata, store
    ensures position.Valid() && store.Valid() && store.locals - {c} == old(store.locals) - {c}
    ensures Step(position.View(), store.LocalOf(c), fdata.ToCell()) ==
              Optional(n, old(position.View()), old(store.LocalOf(c)), old(fdata.ToCell()))
    decreases n
  {
    var f := n.f;
    if f.mandatory { return; }
    if (f.typ.Decimal? || f.typ.Sequence?) && f.op.NoOp? {
      DissectOptional(n.children[0], position, fdata, store, c);
      return;
    }
    var checkPmap, checkNull, setDict := ChecksFor(f);
    if fdata.status.Empty? && checkPmap {
      var bit := position.DissectPeekPmap();
      if (bit && !checkNull) || (!bit && checkNull) {
        fdata.status := Exists;
      }
    }
    if fdata.status.Empty? && checkNull {
      var isNull := position.DissectShiftNull();
      fdata.status := if isNull then Empty else Exists;
    }
    if fdata.status.Empty? && setDict {
      store.SetDictionaryValue(f, fdata, c);
    }
    if checkPmap && (!checkNull || fdata.status.Empty?) {
      var bit := position.DissectShiftPmap();
    }
  }

  /** The length child is dissected into the vector's own FieldData, then that many bytes follow. */
  method DissectVectorBytes(n: Node, position: DissectPosition, fdata: FieldData, store: Dictionaries, c: Conversation)
    returns (ok: bool)
    requires WellFormed(n) && IsVector(n.f.typ) && position.Valid() && store.Valid()
    modifies position, fdata, store
    ensures position.Valid() && store.Valid() && store.locals - {c} == old(store.locals) - {c}
    ensures var r := ReadVector(n, old(position.View()), old(store.LocalOf(c)));
            && ok == r.Done?
            && (ok ==> Step(position.View(), store.LocalOf(c), fdata.ToCell()) == r.value)
    decreases n, 1
  {
    var kids;
    ok, kids := DissectValue(n.children[0], position, fdata, store, c);
    if !ok { return; }
    var len := fdata.value.num;
    if !(0 <= len <= position.nbytes) {
      return false;
    }
    position.offjmp := len;
    fdata.SetBytes(position.bytes[..len]);
    position.ShiftBytes();
  }

  method DissectByteVector(n: Node, position: DissectPosition, fdata: FieldData, store: Dictionaries, c: Conversation)
    returns (ok: bool)
    requires WellFormed(n) && IsVector(n.f.typ) && position.Valid() && store.Valid()
    modifies position, fdata, store
    ensures position.Valid() && store.Valid() && store.locals - {c} == old(store.locals) - {c}
    ensures var r := VectorBody(n, old(position.View()), old(store.LocalOf(c)), old(fdata.ToCell()));
            && ok == r.Done?
            && (ok ==> Step(position.View(), store.LocalOf(c), fdata.ToCell()) == r.value)
    decreases n, 2
  {
    ok := true;
    if n.f.op.Constant? { return; }
    if n.f.op.Delta? || n.f.op.Tail? {
      ok := DissectVectorDelta(n, position, fdata, store, c);
    } else {
      ok := DissectVectorBytes(n, position, fdata, store, c);
    }
    if !ok { return; }
    store.SetDictionaryValue(n.f, fdata, c);
  }

  /** The delta branch of dissect_byte_vector, up to storing the result. */
  method DissectVectorDelta(n: Node, position: DissectPosition, fdata: FieldData, store: Dictionaries, c: Conversation)
    returns (ok: bool)
    requires WellFormed(n) && IsVector(n.f.typ) && position.Valid() && store.Valid()
    modifies position, fdata, store
    ensures position.Valid() && store.Valid() && store.locals - {c} == old(store.locals) - {c}
    ensures var r := VectorDelta(n, old(position.View()), old(store.LocalOf(c)));
            && ok == r.Done?
            && (ok ==> Step(position.View(), store.LocalOf(c), fdata.ToCell()) == r.value)
    decreases n, 2, 0
  {
    var subtract, found, lookup := DissectSubtraction(n.f, position, store, c);
    ok := DissectVectorBytes(n, position, fdata, store, c);
    if ok && found {
      ok := SpliceVector(lookup, subtract, fdata);
    }
  }

  /** How much is cut, and what from. */
  method DissectSubtraction(f: FieldType, position: DissectPosition, store: Dictionaries, c: Conversation)
    returns (subtract: int, found: bool, lookup: FieldData)
    requires position.Valid() && store.Valid()
    modifies position, store`srcTable
    ensures position.Valid() && store.Valid() && position.View() == old(position.View()).SkipNext() && fresh(lookup)
    ensures subtract == ReadSigned(W64, old(position.View()), UNSET).value.num
    ensures (found, lookup.ToCell()) == GetValue(f, old(store.LocalOf(c)), UNSET)
  {
    var temp := new FieldData.Uninitialised();
    BasicDissectInt(W64, position, temp);
    subtract := temp.value.num;
    lookup := new FieldData.Uninitialised();
    found := store.GetDictionaryValue(f, lookup, c);
  }

  method SpliceVector(lookup: FieldData, subtract: int, fdata: FieldData) returns (ok: bool)
    modifies fdata`status, fdata`value
    ensures var r := CutVector(true, old(lookup.ToCell()), subtract, old(fdata.ToCell()));
            ok == r.Done? && (ok ==> fdata.ToCell() == r.value)
  {
    if lookup.status.Empty? { return false; }
    var spliced := SpliceBytes(lookup.value.bytes, subtract, fdata.value.bytes);
    if spliced.None? { return false; }
    fdata.SetBytes(spliced.value);
    ok := true;
  }

  method DissectDecimal(n: Node, position: DissectPosition, fdata: FieldData, store: Dictionaries, c: Conversation)
    returns (ok: bool)
    requires WellFormed(n) && n.f.typ.Decimal? && position.Valid() && store.Valid()
    modifies position, fdata, store
    ensures position.Valid() && store.Valid() && store.locals - {c} == old(store.locals) - {c}
    ensures var r := DecimalBody(n, old(position.View()), old(store.LocalOf(c)), old(fdata.ToCell()));
            && ok == r.Done?
            && (ok ==> Step(position.View(), store.LocalOf(c), fdata.ToCell()) == r.value)
    decreases n, 2
  {
    if n.f.op.Delta? {
      ok := DissectDecimalDelta(n.f, position, fdata, store, c);
      return;
    }
    var kids;
    ok, kids := DissectValue(n.children[0], position, fdata, store, c);
    if !ok { return; }
    var expt := fdata.value.num;
    ok, kids := DissectValue(n.children[1], position, fdata, store, c);
    if !ok { return; }
    fdata.SetExponent(expt);
    store.SetDictionaryValue(n.f, fdata, c);
  }

  /** One half of a decimal delta: the operator on a local FieldData. */
  method DissectDecimalPart(f: FieldType, position: DissectPosition, store: Dictionaries, c: Conversation)
    returns (delta: int, cell: Cell)
    requires position.Valid() && store.Valid()
    modifies position, store`srcTable
    ensures position.Valid() && store.Valid()
    ensures var s := IntOp(f, old(position.View()), old(store.LocalOf(c)), UNSET);
            position.View() == s.pos && cell == s.cell && delta == s.delta
  {
    var data := new FieldData.Uninitialised();
    var dissectIt;
    delta, dissectIt := DissectIntOp(f, data, position, store, c);
    cell := data.ToCell();
  }

  /** The delta branch of dissect_decimal. */
  method DissectDecimalDelta(f: FieldType, position: DissectPosition, fdata: FieldData, store: Dictionaries,
                             c: Conversation)
    returns (ok: bool)
    requires f.op.Delta? && position.Valid() && store.Valid()
    modifies position, fdata, store
    ensures position.Valid() && store.Valid() && store.locals - {c} == old(store.locals) - {c}
    ensures var r := DecimalDelta(f, old(position.View()), old(store.LocalOf(c)), old(fdata.ToCell()));
            && ok == r.Done?
            && (ok ==> Step(position.View(), store.LocalOf(c), fdata.ToCell()) == r.value)
  {
    ok := true;
    var base := new FieldData.Uninitialised();
    var found := store.GetDictionaryValue(f, base, c);
    if !base.status.Exists? && !base.status.Undefined? { return false; }
    var delta, part := DissectDecimalPart(f, position, store, c);
    var expt := W32.WrapSigned(delta + part.value.exponent);
    delta, part := DissectDecimalPart(f, position, store, c);
    var mant := W64.WrapSigned(delta + part.value.num);
    fdata.value := fdata.value.(num := mant);
    fdata.SetExponent(expt);
    store.SetDictionaryValue(f, fdata, c);
  }

  method DissectGroup(n: Node, position: DissectPosition, fdata: FieldData, store: Dictionaries, c: Conversation)
    returns (ok: bool, kids: seq<DataNode>)
    requires WellFormed(n) && n.f.typ.Group? && position.Valid() && store.Valid()
    modifies position, fdata, store
    ensures position.Valid() && store.Valid() && store.locals - {c} == old(store.locals) - {c}
    ensures var r := GroupBody(n, old(position.View()), old(store.LocalOf(c)), old(fdata.ToCell()));
            && ok == r.Done?
            && (ok ==> Result(position.View(), store.LocalOf(c), fdata.ToCell(), kids) == r.value)
    decreases n, 2
  {
    var nested := position;
    if n.f.pmapExists {
      nested := new DissectPosition(0, []);
      BasicDissectPmap(position, nested);
    }
    ok, kids := DissectorWalk(n.children, nested, store, c);
    if !ok { return; }
    position.offjmp := nested.offset - position.offset;
    position.ShiftBytes();
  }

  method DissectSequence(n: Node, position: DissectPosition, fdata: FieldData, store: Dictionaries, c: Conversation)
    returns (ok: bool, kids: seq<DataNode>)
    requires WellFormed(n) && n.f.typ.Sequence? && position.Valid() && store.Valid()
    modifies position, fdata, store
    ensures position.Valid() && store.Valid() && store.locals - {c} == old(store.locals) - {c}
    ensures var r := SequenceBody(n, old(position.View()), old(store.LocalOf(c)));
            && ok == r.Done?
            && (ok ==> Result(position.View(), store.LocalOf(c), fdata.ToCell(), kids) == r.value)
    decreases n, 2
  {
    ok, kids := DissectValue(n.children[0], position, fdata, store, c);
    if !ok { return; }
    ok, kids := DissectElements(n.children[1], fdata.value.num, position, store, c);
  }

  /** The loop of dissect_sequence: one data node for each element, while bytes and bits last. */
  method DissectElements(g: Node, length: int, position: DissectPosition, store: Dictionaries, c: Conversation)
    returns (ok: bool, kids: seq<DataNode>)
    requires WellFormed(g) && position.Valid() && store.Valid()
    modifies position, store
    ensures position.Valid() && store.Valid() && store.locals - {c} == old(store.locals) - {c}
    ensures var r := ElementsTo(g, if length < 0 then 0 else length, old(position.View()), old(store.LocalOf(c)));
            && ok == r.Done?
            && (ok ==> Walked(position.View(), store.LocalOf(c), kids) == r.value)
    decreases g, 6
  {
    ok, kids := true, [];
    var i := 0;
    ghost var p, d := position.View(), store.LocalOf(c);
    ghost var total := if length < 0 then 0 else length;
    while i < length
      invariant 0 <= i <= total
      invariant position.Valid() && store.Valid() && store.locals - {c} == old(store.locals) - {c}
      invariant ElementsTo(g, i, p, d) == Done(Walked(position.View(), store.LocalOf(c), kids))
    {
      if position.nbytes == 0 {
        Stopped(g, i, total, p, d);
        break;
      }
      if position.pmapIdx >= position.pmapLen {
        Stopped(g, i, total, p, d);
        break;
      }
      var node;
      ok, node := DissectDescend(g, position, store, c);
      if !ok {
        FaultyOn(g, i + 1, total, p, d);
        return;
      }
      kids := kids + [node];
      i := i + 1;
    }
  }

  /** Once the loop gives up, nothing changes in the rounds that are left. */
  lemma {:induction false} Stopped(g: Node, i: nat, n: nat, p: Pos, d: Local)
    requires WellFormed(g) && i <= n && ElementsTo(g, i, p, d).Done? && Exhausted(ElementsTo(g, i, p, d).value.pos)
    ensures ElementsTo(g, n, p, d) == ElementsTo(g, i, p, d)
  {
    if i < n {
      Stopped(g, i, n - 1, p, d);
    }
  }

  lemma {:induction false} FaultyOn(g: Node, i: nat, n: nat, p: Pos, d: Local)
    requires WellFormed(g) && i <= n && ElementsTo(g, i, p, d).Faulty?
    ensures ElementsTo(g, n, p, d).Faulty?
  {
    if i < n {
      FaultyOn(g, i, n - 1, p, d);
    }
  }

  lemma {:induction false} WalkFaultyOn(ns: seq<Node>, i: nat, p: Pos, d: Local)
    requires AllWellFormed(ns) && i <= |ns| && WalkTo(ns, i, p, d).Faulty?
    ensures WalkTo(ns, |ns|, p, d).Faulty?
    decreases |ns| - i
  {
    if i < |ns| {
      WalkFaultyOn(ns, i + 1, p, d);
    }
  }

  method DissectorWalk(ns: seq<Node>, position: DissectPosition, store: Dictionaries, c: Conversation)
    returns (ok: bool, kids: seq<DataNode>)
    requires AllWellFormed(ns) && position.Valid() && store.Valid()
    modifies position, store
    ensures position.Valid() && store.Valid() && store.locals - {c} == old(store.locals) - {c}
    ensures var r := WalkTo(ns, |ns|, old(position.View()), old(store.LocalOf(c)));
            && ok == r.Done?
            && (ok ==> Walked(position.View(), store.LocalOf(c), kids) == r.value)
    decreases ns, 0
  {
    ok, kids := true, [];
    var i := 0;
    ghost var p, d := position.View(), store.LocalOf(c);
    while i < |ns|
      invariant 0 <= i <= |ns|
      invariant position.Valid() && store.Valid() && store.locals - {c} == old(store.locals) - {c}
      invariant WalkTo(ns, i, p, d) == Done(Walked(position.View(), store.LocalOf(c), kids))
    {
      var node;
      ok, node := DissectDescend(ns[i], position, store, c);
      if !ok {
        WalkFaultyOn(ns, i + 1, p, d);
        return;
      }
      kids := kids + [node];
      i := i + 1;
    }
  }

  /** A data node for one template node. */
  method DissectDescend(n: Node, position: DissectPosition, store: Dictionaries, c: Conversation)
    returns (ok: bool, node: DataNode)
    requires WellFormed(n) && position.Valid() && store.Valid()
    modifies position, store
    ensures position.Valid() && store.Valid() && store.locals - {c} == old(store.locals) - {c}
    ensures var r := D.DissectValue(n, old(position.View()), old(store.LocalOf(c)));
            && ok == r.Done?
            && (ok ==> position.View() == r.value.pos && store.LocalOf(c) == r.value.dict
                       && node == NodeOf(old(position.View()), r.value))
    decreases n, 5
  {
    var fdata := new FieldData();
    var kids;
    ok, kids := DissectValue(n, position, fdata, store, c);
    node := DataNode(fdata.start, fdata.nbytes, fdata.status, fdata.value, kids);
  }

  /** The operators that can settle a field without reading it. */
  method UseOperator(f: FieldType, position: DissectPosition, fdata: FieldData, store: Dictionaries, c: Conversation)
    returns (ok: bool, used: bool)
    requires position.Valid() && store.Valid()
    modifies position, fdata, store
    ensures position.Valid() && store.Valid() && store.locals - {c} == old(store.locals) - {c}
    ensures ok == !CopiesNull(f, old(position.View()))
    ensures ok ==> (used, Step(position.View(), store.LocalOf(c), fdata.ToCell())) ==
                     Operate(f, old(position.View()), old(store.LocalOf(c)), old(fdata.ToCell()))
  {
    ok, used := true, false;
    match f.op {
      case Copy => used := DissectCopy(f, position, fdata, store, c);
      case Constant =>
        ok := CopyTemplateValue(f, fdata);
        used := true;
      case Default => ok, used := DissectDefault(f, position, fdata, store, c);
      case _ =>
    }
  }

  /** The table of dissect functions, indexed by type. */
  method DissectFn(n: Node, position: DissectPosition, fdata: FieldData, store: Dictionaries, c: Conversation)
    returns (ok: bool, kids: seq<DataNode>)
    requires WellFormed(n) && position.Valid() && store.Valid()
    modifies position, fdata, store
    ensures position.Valid() && store.Valid() && store.locals - {c} == old(store.locals) - {c}
    ensures var r := Body(n, old(position.View()), old(store.LocalOf(c)), old(fdata.ToCell()));
            && ok == r.Done?
            && (ok ==> Result(position.View(), store.LocalOf(c), fdata.ToCell(), kids) == r.value)
    decreases n, 3, 0
  {
    ok, kids := true, [];
    match n.f.typ {
      case Decimal => ok := DissectDecimal(n, position, fdata, store, c);
      case Ascii => ok := DissectAsciiString(n.f, position, fdata, store, c);
      case Unicode => ok := DissectByteVector(n, position, fdata, store, c);
      case ByteVector => ok := DissectByteVector(n, position, fdata, store, c);
      case Group => ok, kids := DissectGroup(n, position, fdata, store, c);
      case Sequence => ok, kids := DissectSequence(n, position, fdata, store, c);
      case _ => DissectInteger(n.f, position, fdata, store, c);
    }
  }

  /** The operator, and the table unless the operator settled the field. */
  method DissectPresent(n: Node, position: DissectPosition, fdata: FieldData, store: Dictionaries, c: Conversation)
    returns (ok: bool, kids: seq<DataNode>)
    requires WellFormed(n) && position.Valid() && store.Valid()
    modifies position, fdata, store
    ensures position.Valid() && store.Valid() && store.locals - {c} == old(store.locals) - {c}
    ensures var r := Present(n, old(position.View()), old(store.LocalOf(c)), old(fdata.ToCell()));
            && ok == r.Done?
            && (ok ==> Result(position.View(), store.LocalOf(c), fdata.ToCell(), kids) == r.value)
    decreases n, 3, 1
  {
    kids := [];
    var operatorUsed;
    ok, operatorUsed := UseOperator(n.f, position, fdata, store, c);
    if !ok { return; }
    if !operatorUsed {
      ok, kids := DissectFn(n, position, fdata, store, c);
    }
  }

  method DissectValue(n: Node, position: DissectPosition, fdata: FieldData, store: Dictionaries, c: Conversation)
    returns (ok: bool, kids: seq<DataNode>)
    requires WellFormed(n) && position.Valid() && store.Valid()
    modifies position, fdata, store
    ensures position.Valid() && store.Valid() && store.locals - {c} == old(store.locals) - {c}
    ensures var r := D.DissectValue(n, old(position.View()), old(store.LocalOf(c)));
            && ok == r.Done?
            && (ok ==> Result(position.View(), store.LocalOf(c), fdata.ToCell(), kids) == r.value
                       && fdata.start == old(position.offset) && fdata.nbytes == position.offset - old(position.offset))
    decreases n, 4
  {
    ok, kids := true, [];
    var start := position.offset;
    fdata.start := start;
    fdata.nbytes := 0;
    fdata.status := Empty;
    fdata.value := BLANK;
    if !n.f.mandatory {
      DissectOptional(n, position, fdata, store, c);
    } else {
      fdata.status := Exists;
    }
    if fdata.status.Exists? {
      ok, kids := DissectPresent(n, position, fdata, store, c);
      if !ok { return; }
    }
    fdata.start := start;
    fdata.nbytes := position.offset - start;
  }
}
