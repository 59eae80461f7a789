/** Which fields share a previous value, and that fields which share none do not disturb each other. */
module Scopes {
  import opened Fields
  import opened Template
  import opened Dictionary
  import opened Reader
  import opened Dissection
  import opened Packet
  import opened Trimming

  /** Two fields share their slot exactly when they have the same key and either both are kept in their template's
      dictionary and it is the same template, or both are kept in the same other one. */
  lemma {:induction false} SlotExact(f: FieldType, g: FieldType)
    ensures SameSlot(f, g) <==>
              && f.key.Some? && f.key == g.key
              && if f.dictionary == "template" || g.dictionary == "template" then
                   f.dictionary == g.dictionary && f.tid == g.tid
                 else f.dictionary == g.dictionary
  {
  }

  // ---------- one field, one group, one message ----------

  /** The slots of a field and of everything below it lie in this scope. */
  ghost predicate Within(n: Node, own: iset<Slot>) {
    (n.f.key.Some? ==> SlotOf(n.f) in own) && forall i | 0 <= i < |n.children| :: Within(n.children[i], own)
  }

  ghost predicate AllWithin(ns: seq<Node>, own: iset<Slot>) { forall i | 0 <= i < |ns| :: Within(ns[i], own) }

  ghost predicate Own(f: FieldType, own: iset<Slot>) { f.key.Some? ==> SlotOf(f) in own }

  /** The same values are stored in these slots. */
  ghost predicate Agree(d: Local, e: Local, own: iset<Slot>) { forall s | s in own :: Find(d, s) == Find(e, s) }

  ghost function Rest(own: iset<Slot>): iset<Slot> { iset s: Slot | s !in own }

  /** Two dissections that began with d and e: alike in all they show, in the slots of the scope, and nothing else was
      stored. */
  ghost predicate Kept(d: Local, d1: Local, e: Local, e1: Local, own: iset<Slot>) {
    Agree(d1, e1, own) && Agree(d, d1, Rest(own)) && Agree(e, e1, Rest(own))
  }

  ghost predicate KeptStep(d: Local, s: Step, e: Local, t: Step, own: iset<Slot>) {
    t == s.(dict := t.dict) && Kept(d, s.dict, e, t.dict, own)
  }

  ghost predicate KeptBody(d: Local, r: Outcome<Step>, e: Local, q: Outcome<Step>, own: iset<Slot>) {
    r.Done? == q.Done? && (r.Done? ==> KeptStep(d, r.value, e, q.value, own))
  }

  ghost predicate KeptResult(d: Local, r: Outcome<Result>, e: Local, q: Outcome<Result>, own: iset<Slot>) {
    && r.Done? == q.Done?
    && (r.Done? ==> q.value == r.value.(dict := q.value.dict) && Kept(d, r.value.dict, e, q.value.dict, own))
  }

  ghost predicate KeptWalk(d: Local, r: Outcome<Walked>, e: Local, q: Outcome<Walked>, own: iset<Slot>) {
    && r.Done? == q.Done?
    && (r.Done? ==> q.value == r.value.(dict := q.value.dict) && Kept(d, r.value.dict, e, q.value.dict, own))
  }

  lemma {:induction false} KeptOn(d: Local, d1: Local, d2: Local, e: Local, e1: Local, e2: Local, own: iset<Slot>)
    requires Kept(d, d1, e, e1, own) && Kept(d1, d2, e1, e2, own)
    ensures Kept(d, d2, e, e2, own)
  {
  }

  lemma {:induction false} KeptNow(d: Local, e: Local, own: iset<Slot>)
    requires Agree(d, e, own)
    ensures Kept(d, d, e, e, own)
  {
  }

  lemma {:induction false} Gets(f: FieldType, d: Local, e: Local, c: Cell, own: iset<Slot>)
    requires Own(f, own) && Agree(d, e, own)
    ensures GetValue(f, d, c) == GetValue(f, e, c)
  {
    if f.key.Some? {
      assert Find(d, SlotOf(f)) == Find(e, SlotOf(f));
    }
  }

  lemma {:induction false} Sets(f: FieldType, d: Local, e: Local, c: Cell, own: iset<Slot>)
    requires Own(f, own) && Agree(d, e, own)
    ensures Kept(d, SetValue(f, d, c), e, SetValue(f, e, c), own)
  {
  }

  lemma {:induction false} PresenceKept(n: Node, p: Pos, d: Local, e: Local, c: Cell, own: iset<Slot>)
    requires WellFormed(n) && Within(n, own) && Agree(d, e, own)
    ensures KeptStep(d, Optional(n, p, d, c), e, Optional(n, p, e, c), own)
  {
    KeptNow(d, e, own);
    if n.f.mandatory {
    } else if (n.f.typ.Decimal? || n.f.typ.Sequence?) && n.f.op.NoOp? {
      PresenceKept(n.children[0], p, d, e, c, own);
    } else {
      OptionalKept(n.f, p, d, e, c, own);
    }
  }

  lemma {:induction false} OptionalKept(f: FieldType, p: Pos, d: Local, e: Local, c: Cell, own: iset<Slot>)
    requires Own(f, own) && Agree(d, e, own)
    ensures KeptStep(d, OptionalField(f, p, d, c), e, OptionalField(f, p, e, c), own)
  {
    KeptNow(d, e, own);
    Sets(f, d, e, OptionalField(f, p, d, c).cell, own);
  }

  lemma {:induction false} CopyKept(f: FieldType, p: Pos, d: Local, e: Local, c: Cell, own: iset<Slot>)
    requires Own(f, own) && Agree(d, e, own)
    ensures CopyOp(f, p, e, c) == (CopyOp(f, p, d, c).0, CopyOp(f, p, d, c).1.(dict := e))
    ensures CopyOp(f, p, d, c).1.dict == d
  {
    Gets(f, d, e, c, own);
  }

  lemma {:induction false} DefaultKept(f: FieldType, p: Pos, d: Local, e: Local, c: Cell, own: iset<Slot>)
    requires Own(f, own) && Agree(d, e, own)
    ensures DefaultOp(f, p, d, c).0 == DefaultOp(f, p, e, c).0
    ensures KeptStep(d, DefaultOp(f, p, d, c).1, e, DefaultOp(f, p, e, c).1, own)
  {
    KeptNow(d, e, own);
    Sets(f, d, e, c.(value := f.value), own);
  }

  lemma {:induction false} OperateKept(f: FieldType, p: Pos, d: Local, e: Local, c: Cell, own: iset<Slot>)
    requires Own(f, own) && Agree(d, e, own)
    ensures Operate(f, p, d, c).0 == Operate(f, p, e, c).0
    ensures KeptStep(d, Operate(f, p, d, c).1, e, Operate(f, p, e, c).1, own)
  {
    KeptNow(d, e, own);
    if f.op.Copy? {
      CopyKept(f, p, d, e, c, own);
    } else if f.op.Default? {
      DefaultKept(f, p, d, e, c, own);
    }
  }

  lemma {:induction false} IntOpKept(f: FieldType, p: Pos, d: Local, e: Local, c: Cell, own: iset<Slot>)
    requires Own(f, own) && Agree(d, e, own)
    ensures IntOp(f, p, d, c) == IntOp(f, p, e, c)
  {
    Gets(f, d, e, c, own);
  }

  lemma {:induction false} IntegerKept(f: FieldType, p: Pos, d: Local, e: Local, c: Cell, own: iset<Slot>)
    requires Own(f, own) && Agree(d, e, own)
    ensures KeptStep(d, IntegerBody(f, p, d, c), e, IntegerBody(f, p, e, c), own)
  {
    IntOpKept(f, p, d, e, c, own);
    Sets(f, d, e, IntegerValue(f, p, d, c).cell, own);
  }

  lemma {:induction false} CutKept(f: FieldType, p: Pos, d: Local, e: Local, c: Cell, own: iset<Slot>)
    requires Own(f, own) && Agree(d, e, own)
    ensures KeptBody(d, AsciiDeltaBody(f, p, d, c), e, AsciiDeltaBody(f, p, e, c), own)
  {
    Gets(f, d, e, UNSET, own);
    assert AsciiDelta(f, p, d, c) == AsciiDelta(f, p, e, c);
    if AsciiDelta(f, p, d, c).Done? {
      Sets(f, d, e, AsciiDeltaBody(f, p, d, c).value.cell, own);
    }
  }

  lemma {:induction false} WholeKept(f: FieldType, p: Pos, d: Local, e: Local, c: Cell, own: iset<Slot>)
    requires Own(f, own) && Agree(d, e, own) && !f.op.Delta? && !f.op.Tail?
    ensures KeptBody(d, AsciiBody(f, p, d, c), e, AsciiBody(f, p, e, c), own)
  {
    KeptNow(d, e, own);
    Sets(f, d, e, AsciiBody(f, p, d, c).value.cell, own);
  }

  lemma {:induction false} AsciiKept(f: FieldType, p: Pos, d: Local, e: Local, c: Cell, own: iset<Slot>)
    requires Own(f, own) && Agree(d, e, own)
    ensures KeptBody(d, AsciiBody(f, p, d, c), e, AsciiBody(f, p, e, c), own)
  {
    KeptNow(d, e, own);
    if f.op.Delta? || f.op.Tail? {
      CutKept(f, p, d, e, c, own);
    } else {
      WholeKept(f, p, d, e, c, own);
    }
  }

  lemma {:induction false} ReadKept(n: Node, p: Pos, d: Local, e: Local, own: iset<Slot>)
    requires WellFormed(n) && IsVector(n.f.typ) && Within(n, own) && Agree(d, e, own)
    ensures KeptBody(d, ReadVector(n, p, d), e, ReadVector(n, p, e), own)
    decreases n, 0
  {
    ValueKept(n.children[0], p, d, e, own);
  }

  lemma {:induction false} VectorKept(n: Node, p: Pos, d: Local, e: Local, c: Cell, own: iset<Slot>)
    requires WellFormed(n) && IsVector(n.f.typ) && Within(n, own) && Agree(d, e, own)
    ensures KeptBody(d, VectorBody(n, p, d, c), e, VectorBody(n, p, e, c), own)
    decreases n, 1
  {
    if n.f.op.Constant? {
      KeptNow(d, e, own);
    } else if n.f.op.Delta? || n.f.op.Tail? {
      VectorCutKept(n, p, d, e, own);
      var s, t := VectorDelta(n, p, d), VectorDelta(n, p, e);
      if s.Done? {
        StoredKept(n.f, d, s.value, e, t.value, own);
      }
    } else {
      ReadKept(n, p, d, e, own);
      var s, t := ReadVector(n, p, d), ReadVector(n, p, e);
      if s.Done? {
        StoredKept(n.f, d, s.value, e, t.value, own);
      }
    }
  }

  lemma {:induction false} VectorCutKept(n: Node, p: Pos, d: Local, e: Local, own: iset<Slot>)
    requires WellFormed(n) && IsVector(n.f.typ) && Within(n, own) && Agree(d, e, own)
    ensures KeptBody(d, VectorDelta(n, p, d), e, VectorDelta(n, p, e), own)
    decreases n, 1, 0
  {
    Gets(n.f, d, e, UNSET, own);
    ReadKept(n, p.SkipNext(), d, e, own);
  }

  lemma {:induction false} StoredKept(f: FieldType, d: Local, s: Step, e: Local, t: Step, own: iset<Slot>)
    requires Own(f, own) && KeptStep(d, s, e, t, own)
    ensures KeptStep(d, s.(dict := SetValue(f, s.dict, s.cell)), e, t.(dict := SetValue(f, t.dict, t.cell)), own)
  {
    var x, y := SetValue(f, s.dict, s.cell), SetValue(f, t.dict, t.cell);
    Sets(f, s.dict, t.dict, s.cell, own);
    KeptOn(d, s.dict, x, e, t.dict, y, own);
  }

  lemma {:induction false} DecimalKept(n: Node, p: Pos, d: Local, e: Local, c: Cell, own: iset<Slot>)
    requires WellFormed(n) && n.f.typ.Decimal? && Within(n, own) && Agree(d, e, own)
    ensures KeptBody(d, DecimalBody(n, p, d, c), e, DecimalBody(n, p, e, c), own)
    decreases n, 1
  {
    if n.f.op.Delta? {
      DiffKept(n.f, p, d, e, c, own);
    } else {
      PartsKept(n, p, d, e, c, own);
    }
  }

  lemma {:induction false} DiffKept(f: FieldType, p: Pos, d: Local, e: Local, c: Cell, own: iset<Slot>)
    requires f.op.Delta? && Own(f, own) && Agree(d, e, own)
    ensures KeptBody(d, DecimalDelta(f, p, d, c), e, DecimalDelta(f, p, e, c), own)
  {
    Gets(f, d, e, UNSET, own);
    IntOpKept(f, p, d, e, UNSET, own);
    IntOpKept(f, IntOp(f, p, d, UNSET).pos, d, e, UNSET, own);
    if DecimalDelta(f, p, d, c).Done? {
      Sets(f, d, e, DecimalDelta(f, p, d, c).value.cell, own);
    }
  }

  lemma {:induction false} PartsKept(n: Node, p: Pos, d: Local, e: Local, c: Cell, own: iset<Slot>)
    requires WellFormed(n) && n.f.typ.Decimal? && !n.f.op.Delta? && Within(n, own) && Agree(d, e, own)
    ensures KeptBody(d, DecimalBody(n, p, d, c), e, DecimalBody(n, p, e, c), own)
    decreases n, 0
  {
    ValueKept(n.children[0], p, d, e, own);
    var x, y := DissectValue(n.children[0], p, d), DissectValue(n.children[0], p, e);
    if x.Done? {
      ValueKept(n.children[1], x.value.pos, x.value.dict, y.value.dict, own);
      var u := DissectValue(n.children[1], x.value.pos, x.value.dict);
      var v := DissectValue(n.children[1], y.value.pos, y.value.dict);
      if u.Done? {
        KeptOn(d, x.value.dict, u.value.dict, e, y.value.dict, v.value.dict, own);
        var c1 := Scaled(u.value.cell, x.value.cell.value.num);
        StoredKept(n.f, d, Step(u.value.pos, u.value.dict, c1), e, Step(v.value.pos, v.value.dict, c1), own);
      }
    }
  }

  lemma {:induction false} GroupKept(n: Node, p: Pos, d: Local, e: Local, c: Cell, own: iset<Slot>)
    requires WellFormed(n) && n.f.typ.Group? && Within(n, own) && Agree(d, e, own)
    ensures KeptResult(d, GroupBody(n, p, d, c), e, GroupBody(n, p, e, c), own)
    decreases n, 1
  {
    WalkKept(n.children, |n.children|, if n.f.pmapExists then ReadPmap(p) else p, d, e, own);
  }

  lemma {:induction false} SequenceKept(n: Node, p: Pos, d: Local, e: Local, own: iset<Slot>)
    requires WellFormed(n) && n.f.typ.Sequence? && Within(n, own) && Agree(d, e, own)
    ensures KeptResult(d, SequenceBody(n, p, d), e, SequenceBody(n, p, e), own)
    decreases n, 1
  {
    ValueKept(n.children[0], p, d, e, own);
    var x, y := DissectValue(n.children[0], p, d), DissectValue(n.children[0], p, e);
    if x.Done? {
      var count := if x.value.cell.value.num < 0 then 0 else x.value.cell.value.num;
      ElementsKept(n.children[1], count, x.value.pos, x.value.dict, y.value.dict, own);
      var u, v := ElementsTo(n.children[1], count, x.value.pos, x.value.dict),
                  ElementsTo(n.children[1], count, y.value.pos, y.value.dict);
      if u.Done? {
        KeptOn(d, x.value.dict, u.value.dict, e, y.value.dict, v.value.dict, own);
      }
    }
  }

  lemma {:induction false} BodyKept(n: Node, p: Pos, d: Local, e: Local, c: Cell, own: iset<Slot>)
    requires WellFormed(n) && Within(n, own) && Agree(d, e, own)
    ensures KeptResult(d, Body(n, p, d, c), e, Body(n, p, e, c), own)
    decreases n, 2
  {
    match n.f.typ
    case Decimal => DecimalKept(n, p, d, e, c, own);
    case Ascii => AsciiKept(n.f, p, d, e, c, own);
    case Unicode => VectorKept(n, p, d, e, c, own);
    case ByteVector => VectorKept(n, p, d, e, c, own);
    case Group => GroupKept(n, p, d, e, c, own);
    case Sequence => SequenceKept(n, p, d, e, own);
    case _ => IntegerKept(n.f, p, d, e, c, own);
  }

  /** A field sees of the dictionaries, and stores in them, only what is in the scope of its template. */
  lemma {:induction false} ValueKept(n: Node, p: Pos, d: Local, e: Local, own: iset<Slot>)
    requires WellFormed(n) && Within(n, own) && Agree(d, e, own)
    ensures KeptResult(d, DissectValue(n, p, d), e, DissectValue(n, p, e), own)
    decreases n, 3
  {
    KeptNow(d, e, own);
    PresenceKept(n, p, d, e, Cell(Empty, BLANK), own);
    Paths(n, p, d);
    Paths(n, p, e);
    var s, t := Presence(n, p, d), Presence(n, p, e);
    if s.cell.status.Exists? {
      OperateKept(n.f, s.pos, s.dict, t.dict, s.cell, own);
      var s1, t1 := Operate(n.f, s.pos, s.dict, s.cell).1, Operate(n.f, t.pos, t.dict, t.cell).1;
      KeptOn(d, s.dict, s1.dict, e, t.dict, t1.dict, own);
      BodyKept(n, s1.pos, s1.dict, t1.dict, s1.cell, own);
      var b, q := Body(n, s1.pos, s1.dict, s1.cell), Body(n, t1.pos, t1.dict, t1.cell);
      if b.Done? {
        KeptOn(d, s1.dict, b.value.dict, e, t1.dict, q.value.dict, own);
      }
    }
  }

  lemma {:induction false} WalkKept(ns: seq<Node>, i: nat, p: Pos, d: Local, e: Local, own: iset<Slot>)
    requires AllWellFormed(ns) && i <= |ns| && AllWithin(ns, own) && Agree(d, e, own)
    ensures KeptWalk(d, WalkTo(ns, i, p, d), e, WalkTo(ns, i, p, e), own)
    decreases ns, 0, i
  {
    KeptNow(d, e, own);
    if i > 0 {
      WalkKept(ns, i - 1, p, d, e, own);
      NextKept(ns[i - 1], d, WalkTo(ns, i - 1, p, d), e, WalkTo(ns, i - 1, p, e), own);
    }
  }

  lemma {:induction false} NextKept(n: Node, d: Local, w: Outcome<Walked>, e: Local, v: Outcome<Walked>,
                                    own: iset<Slot>)
    requires WellFormed(n) && Within(n, own) && KeptWalk(d, w, e, v, own)
    ensures KeptWalk(d, Then(w, n), e, Then(v, n), own)
    decreases n, 4
  {
    if w.Done? {
      var x, y := w.value, v.value;
      ValueKept(n, x.pos, x.dict, y.dict, own);
      var r, q := DissectValue(n, x.pos, x.dict), DissectValue(n, y.pos, y.dict);
      if r.Done? {
        KeptOn(d, x.dict, r.value.dict, e, y.dict, q.value.dict, own);
      }
    }
  }

  lemma {:induction false} ElementsKept(g: Node, i: nat, p: Pos, d: Local, e: Local, own: iset<Slot>)
    requires WellFormed(g) && Within(g, own) && Agree(d, e, own)
    ensures KeptWalk(d, ElementsTo(g, i, p, d), e, ElementsTo(g, i, p, e), own)
    decreases g, 5, i
  {
    KeptNow(d, e, own);
    if i > 0 {
      ElementsKept(g, i - 1, p, d, e, own);
      NextKept(g, d, ElementsTo(g, i - 1, p, d), e, ElementsTo(g, i - 1, p, e), own);
    }
  }

  // ---------- runs of messages ----------

  /** A message whose template is known already, at the place where its fields begin. */
  datatype Arrival = Arrival(p: Pos, h: Head)

  predicate Known(table: Templates, a: Arrival) { Ready(table) && a.h.tid in table && a.p.Leads(a.h.pos) }

  predicate AllKnown(table: Templates, ms: seq<Arrival>) { forall i | 0 <= i < |ms| :: Known(table, ms[i]) }

  /** What each message of a run shows, one conversation's dictionaries going from each to the next. */
  function Shown(table: Templates, ms: seq<Arrival>, d: Local): (r: Outcome<seq<DataNode>>)
    requires AllKnown(table, ms)
    ensures r.Done? ==> |r.value| == |ms|
  {
    if ms == [] then Done([])
    else
      var m :- FromHead(table, ms[0].p, ms[0].h, d);
      var rest :- Shown(table, ms[1..], m.dict);
      Done([m.data] + rest)
  }

  /** Templates of this set keep to the scope, the others keep out of it. */
  ghost predicate Apart(table: Templates, ms: seq<Arrival>, mine: set<int>, own: iset<Slot>)
    requires AllKnown(table, ms)
  {
    forall i | 0 <= i < |ms| ::
      var id := ms[i].h.tid; AllWithin(table[id], if id in mine then own else Rest(own))
  }

  /** The messages of these templates, and what belongs to them. */
  function OnlyMine(ms: seq<Arrival>, mine: set<int>): (r: seq<Arrival>)
    ensures forall a | a in r :: a in ms
  {
    if ms == [] then [] else (if ms[0].h.tid in mine then [ms[0]] else []) + OnlyMine(ms[1..], mine)
  }

  function ShownMine(ms: seq<Arrival>, trees: seq<DataNode>, mine: set<int>): seq<DataNode>
    requires |trees| == |ms|
  {
    if ms == [] then [] else (if ms[0].h.tid in mine then [trees[0]] else []) + ShownMine(ms[1..], trees[1..], mine)
  }

  lemma {:induction false} MessageKept(table: Templates, a: Arrival, d: Local, e: Local, own: iset<Slot>)
    requires Known(table, a) && AllWithin(table[a.h.tid], own) && Agree(d, e, own)
    ensures var r, q := FromHead(table, a.p, a.h, d), FromHead(table, a.p, a.h, e);
            && r.Done? == q.Done?
            && (r.Done? ==> q.value == r.value.(dict := q.value.dict) && Kept(d, r.value.dict, e, q.value.dict, own))
  {
    WalkKept(table[a.h.tid], |table[a.h.tid]|, a.h.pos, d, e, own);
  }

  lemma {:induction false} OtherKept(table: Templates, a: Arrival, d: Local, own: iset<Slot>)
    requires Known(table, a) && AllWithin(table[a.h.tid], Rest(own)) && FromHead(table, a.p, a.h, d).Done?
    ensures Agree(d, FromHead(table, a.p, a.h, d).value.dict, own)
  {
    MessageKept(table, a, d, d, Rest(own));
    assert forall s | s in own :: s in Rest(Rest(own));
  }

  lemma {:induction false} ShownPlus(table: Templates, a: Arrival, ms: seq<Arrival>, d: Local)
    requires Known(table, a) && AllKnown(table, ms) && FromHead(table, a.p, a.h, d).Done?
    ensures AllKnown(table, [a] + ms)
    ensures var m := FromHead(table, a.p, a.h, d).value;
            var r := Shown(table, ms, m.dict);
            r.Done? ==> Shown(table, [a] + ms, d) == Done([m.data] + r.value)
  {
    assert ([a] + ms)[1..] == ms;
  }

  lemma {:induction false} OnlyKnown(table: Templates, ms: seq<Arrival>, mine: set<int>)
    requires AllKnown(table, ms)
    ensures AllKnown(table, OnlyMine(ms, mine))
  {
    var r := OnlyMine(ms, mine);
    forall i | 0 <= i < |r|
      ensures Known(table, r[i])
    {
      assert r[i] in ms;
    }
  }

  /** Messages of templates that share no slot do not disturb each other: in any run, those of some templates show what
      they show in the run without the others. */
  lemma {:induction false} TemplatesApart(table: Templates, ms: seq<Arrival>, mine: set<int>, own: iset<Slot>, d: Local,
                                          e: Local)
    requires AllKnown(table, ms) && Apart(table, ms, mine, own) && Shown(table, ms, d).Done? && Agree(d, e, own)
    ensures AllKnown(table, OnlyMine(ms, mine))
    ensures Shown(table, OnlyMine(ms, mine), e) == Done(ShownMine(ms, Shown(table, ms, d).value, mine))
  {
    OnlyKnown(table, ms, mine);
    if ms != [] {
      var a, rest := ms[0], ms[1..];
      var m := FromHead(table, a.p, a.h, d).value;
      assert forall i | 0 <= i < |rest| :: rest[i] == ms[i + 1];
      var later := Shown(table, rest, m.dict).value;
      assert Shown(table, ms, d).value[1..] == later;
      OnlyKnown(table, rest, mine);
      if a.h.tid in mine {
        MessageKept(table, a, d, e, own);
        TemplatesApart(table, rest, mine, own, m.dict, FromHead(table, a.p, a.h, e).value.dict);
        ShownPlus(table, a, OnlyMine(rest, mine), e);
      } else {
        OtherKept(table, a, d, own);
        TemplatesApart(table, rest, mine, own, m.dict, e);
        assert [] + OnlyMine(rest, mine) == OnlyMine(rest, mine);
        assert [] + ShownMine(rest, later, mine) == ShownMine(rest, later, mine);
      }
    }
  }

  // ---------- template dictionaries ----------

  /** Every field with a key is kept in its template's dictionary, under this id. */
  predicate TemplateScoped(n: Node, tid: int) {
    && (n.f.key.Some? ==> n.f.dictionary == "template" && n.f.tid == tid)
    && forall i | 0 <= i < |n.children| :: TemplateScoped(n.children[i], tid)
  }

  predicate AllTemplateScoped(ns: seq<Node>, tid: int) { forall i | 0 <= i < |ns| :: TemplateScoped(ns[i], tid) }

  /** The slots such fields have: those of one template's fields. */
  ghost function ScopeOf(tid: int): iset<Slot> {
    iset f: FieldType | f.key.Some? && f.dictionary == "template" && f.tid == tid :: SlotOf(f)
  }

  lemma {:induction false} InScope(n: Node, tid: int)
    requires TemplateScoped(n, tid)
    ensures Within(n, ScopeOf(tid))
  {
    forall i | 0 <= i < |n.children|
      ensures Within(n.children[i], ScopeOf(tid))
    {
      InScope(n.children[i], tid);
    }
  }

  lemma {:induction false} OutOfScope(n: Node, tid: int, other: int)
    requires TemplateScoped(n, other) && other != tid
    ensures Within(n, Rest(ScopeOf(tid)))
  {
    forall f: FieldType | f.key.Some? && f.dictionary == "template" && f.tid == tid && n.f.key.Some?
      ensures SlotOf(f) != SlotOf(n.f)
    {
      SlotExact(f, n.f);
    }
    forall i | 0 <= i < |n.children|
      ensures Within(n.children[i], Rest(ScopeOf(tid)))
    {
      OutOfScope(n.children[i], tid, other);
    }
  }

  /** A template dictionary belongs to its template: whatever messages of other templates come between, those of one
      template show what they show by themselves. */
  lemma {:induction false} TemplateDictionaries(table: Templates, ms: seq<Arrival>, tid: int, d: Local)
    requires AllKnown(table, ms) && Shown(table, ms, d).Done?
    requires forall i | 0 <= i < |ms| :: AllTemplateScoped(table[ms[i].h.tid], ms[i].h.tid)
    ensures AllKnown(table, OnlyMine(ms, {tid}))
    ensures Shown(table, OnlyMine(ms, {tid}), d) == Done(ShownMine(ms, Shown(table, ms, d).value, {tid}))
  {
    var own := ScopeOf(tid);
    forall i | 0 <= i < |ms|
      ensures AllWithin(table[ms[i].h.tid], if ms[i].h.tid in {tid} then own else Rest(own))
    {
      var id := ms[i].h.tid;
      forall k | 0 <= k < |table[id]|
        ensures Within(table[id][k], if id in {tid} then own else Rest(own))
      {
        if id == tid {
          InScope(table[id][k], tid);
        } else {
          OutOfScope(table[id][k], tid, id);
        }
      }
    }
    TemplatesApart(table, ms, {tid}, own, d, d);
  }
}
