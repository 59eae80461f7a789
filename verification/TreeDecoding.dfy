/** Groups, sequences and whole templates: induction over the template, with the presence maps that
    nested groups carry and the bits that are left for what follows. */
module TreeDecoding {
  import opened StopBit
  import opened PresenceMap
  import opened Fields
  import opened Dictionary
  import opened Reader
  import opened Dissection
  import opened Sender
  import opened FieldDecoding
  import opened MessageDecoding

  function Left(p: Pos): nat { if p.idx <= |p.pmap| then |p.pmap| - p.idx else 0 }

  lemma {:induction false} LeftBits(p: Pos, k: nat)
    ensures Left(AfterBits(p, k)) == Less(Left(p), k)
  {
  }

  lemma {:induction false} LeftAfter(p: Pos, w: Wire, rest: seq<byte>)
    requires p.idx <= |p.pmap|
    ensures Left(After(p, w, rest)) == Less(Left(p), |w.bits|)
  {
    LeftBits(p, |w.bits|);
  }

  /** Every node of every template: what was legally sent is received as it was meant. */
  lemma {:induction false} ValueDecodes(n: Node, m: Msg, p: Pos, d: Local, rest: seq<byte>)
    requires WellFormed(n) && Legal(n, m, d, Left(p), |rest|) && Ahead(p, Send(n, m, d), rest)
    ensures Delivered(n, m, DissectValue(n, p, d), p, Send(n, m, d), rest)
    decreases n, 2
  {
    match n.f.typ
    case Ascii => StringDecodes(n, m, p, d, rest);
    case Unicode => VectorDecodes(n, m, p, d, rest);
    case ByteVector => VectorDecodes(n, m, p, d, rest);
    case Decimal => DecimalDecodes(n, m, p, d, rest);
    case Group => GroupDecodes(n, m, p, d, rest);
    case Sequence => SequenceDecodes(n, m, p, d, rest);
    case _ => FieldDecodes(n, m.v, m.omit, d, p, rest);
  }

  lemma {:induction false} StringDecodes(n: Node, m: Msg, p: Pos, d: Local, rest: seq<byte>)
    requires WellFormed(n) && n.f.typ.Ascii? && LegalString(n.f, m, d) && Ahead(p, SendString(n.f, m, d), rest)
    ensures Delivered(n, m, DissectValue(n, p, d), p, SendString(n.f, m, d), rest)
  {
    match m
    case Field(v, omit) => FieldDecodes(n, v, omit, d, p, rest);
    case Cut(_, _, _, _) => StringCutDecodes(n, m, p, d, rest);
  }

  // ---------- groups ----------

  lemma {:induction false} GroupPresence(n: Node, there: bool, p: Pos, d: Local)
    requires WellFormed(n) && n.f.typ.Group? && (n.f.mandatory ==> there)
    requires BitsAhead(p, if n.f.mandatory then [] else [there])
    ensures Presence(n, p, d) ==
              Step(if n.f.mandatory then p else AfterBits(p, 1), d, Cell(if there then Exists else Empty, BLANK))
  {
    if !n.f.mandatory {
      NextBit(p, there);
      assert Presence(n, p, d) == OptionalField(n.f, p, d, Cell(Empty, BLANK));
    }
  }

  lemma {:induction false} GroupDecodes(n: Node, m: Msg, p: Pos, d: Local, rest: seq<byte>)
    requires WellFormed(n) && n.f.typ.Group? && LegalGroup(n, m, d, Left(p), |rest|)
    requires Ahead(p, SendGroup(n, m, d), rest)
    ensures Delivered(n, m, DissectValue(n, p, d), p, SendGroup(n, m, d), rest)
    decreases n, 1
  {
    match m
    case Field(_, _) =>
      GroupPresence(n, false, p, d);
      assert p.bytes == rest;
    case Members(_, _) =>
      MembersDecode(n, m, p, d, rest);
  }

  /** The members of a group that is there, and the bits they may use. */
  lemma {:induction false} LegalMembers(n: Node, m: Msg, d: Local, avail: nat, follow: nat)
    requires WellFormed(n) && n.f.typ.Group? && m.Members? && LegalGroup(n, m, d, avail, follow)
    ensures |m.kids| == |n.children|
    ensures var w := SendUpTo(n.children, m.kids, |m.kids|, d);
            var own := if n.f.mandatory then [] else [true];
            if n.f.pmapExists then
              && HoldsMap(w.bits, m.size) && LegalUpTo(n.children, m.kids, |m.kids|, d, 7 * m.size, follow)
              && SendGroup(n, m, d) == Wire(own, MapBytes(w.bits, m.size) + w.bytes, w.dict)
            else
              && LegalUpTo(n.children, m.kids, |m.kids|, d, Less(avail, |own|), follow)
              && SendGroup(n, m, d) == Wire(own + w.bits, w.bytes, w.dict)
  {
  }

  lemma {:induction false} MembersDecode(n: Node, m: Msg, p: Pos, d: Local, rest: seq<byte>)
    requires WellFormed(n) && n.f.typ.Group? && m.Members? && LegalGroup(n, m, d, Left(p), |rest|)
    requires Ahead(p, SendGroup(n, m, d), rest)
    ensures Delivered(n, m, DissectValue(n, p, d), p, SendGroup(n, m, d), rest)
    decreases n, 1, 0
  {
    var q := if n.f.mandatory then p else AfterBits(p, 1);
    LegalMembers(n, m, d, Left(p), |rest|);
    OwnBitAhead(n, m, p, d, rest);
    GroupPresence(n, true, p, d);
    GroupReached(n, p, d, q);
    LeftBits(p, 1);
    if n.f.pmapExists {
      MappedMembers(n, m, p, q, d, rest);
    } else {
      PlainMembers(n, m, p, q, d, rest);
    }
  }

  lemma {:induction false} MappedMembers(n: Node, m: Msg, p: Pos, q: Pos, d: Local, rest: seq<byte>)
    requires WellFormed(n) && n.f.typ.Group? && n.f.pmapExists && m.Members? && |m.kids| == |n.children|
    requires var w := SendUpTo(n.children, m.kids, |m.kids|, d);
             && HoldsMap(w.bits, m.size) && LegalUpTo(n.children, m.kids, |m.kids|, d, 7 * m.size, |rest|)
             && p.bytes == MapBytes(w.bits, m.size) + w.bytes + rest
    requires q == if n.f.mandatory then p else AfterBits(p, 1)
    ensures var w := SendUpTo(n.children, m.kids, |m.kids|, d);
            var all := Wire(if n.f.mandatory then [] else [true], MapBytes(w.bits, m.size) + w.bytes, w.dict);
            Delivered(n, m, GroupBody(n, q, d, Cell(Exists, BLANK)), p, all, rest)
    decreases n, 0, 1
  {
    var w := SendUpTo(n.children, m.kids, |m.kids|, d);
    var all := Wire(if n.f.mandatory then [] else [true], MapBytes(w.bits, m.size) + w.bytes, w.dict);
    MappedGroup(n, m.kids, m.size, q, d, rest, Cell(Exists, BLANK));
    GroupShows(n, m, GroupBody(n, q, d, Cell(Exists, BLANK)), p, all, rest);
  }

  lemma {:induction false} PlainMembers(n: Node, m: Msg, p: Pos, q: Pos, d: Local, rest: seq<byte>)
    requires WellFormed(n) && n.f.typ.Group? && !n.f.pmapExists && m.Members? && |m.kids| == |n.children|
    requires q == if n.f.mandatory then p else AfterBits(p, 1)
    requires LegalUpTo(n.children, m.kids, |m.kids|, d, Left(q), |rest|)
    requires Ahead(q, SendUpTo(n.children, m.kids, |m.kids|, d), rest)
    ensures var w := SendUpTo(n.children, m.kids, |m.kids|, d);
            var all := Wire((if n.f.mandatory then [] else [true]) + w.bits, w.bytes, w.dict);
            Delivered(n, m, GroupBody(n, q, d, Cell(Exists, BLANK)), p, all, rest)
    decreases n, 0, 1
  {
    var w := SendUpTo(n.children, m.kids, |m.kids|, d);
    var all := Wire((if n.f.mandatory then [] else [true]) + w.bits, w.bytes, w.dict);
    PlainGroup(n, m.kids, q, d, rest, Cell(Exists, BLANK));
    GroupShows(n, m, GroupBody(n, q, d, Cell(Exists, BLANK)), p, all, rest);
  }

  lemma {:induction false} GroupShows(n: Node, m: Msg, r: Outcome<Result>, p: Pos, w: Wire, rest: seq<byte>)
    requires WellFormed(n) && n.f.typ.Group? && m.Members?
    requires r.Done? && r.value.pos == After(p, w, rest) && r.value.dict == w.dict && r.value.cell.status.Exists?
    requires p.Leads(r.value.pos) && AllShow(n.children, m.kids, r.value.kids)
    ensures Delivered(n, m, r, p, w, rest)
  {
  }

  /** The group's own presence bit, then what it sends itself. */
  lemma {:induction false} OwnBitAhead(n: Node, m: Msg, p: Pos, d: Local, rest: seq<byte>)
    requires WellFormed(n) && n.f.typ.Group? && m.Members? && |m.kids| == |n.children|
    requires Ahead(p, SendGroup(n, m, d), rest)
    ensures BitsAhead(p, if n.f.mandatory then [] else [true])
    ensures var w := SendUpTo(n.children, m.kids, |m.kids|, d);
            !n.f.pmapExists ==> Ahead(if n.f.mandatory then p else AfterBits(p, 1), w, rest)
  {
    var w := SendUpTo(n.children, m.kids, |m.kids|, d);
    var own := if n.f.mandatory then [] else [true];
    var bits := SendGroup(n, m, d).bits;
    assert bits == own || bits == own + w.bits;
    if !n.f.mandatory {
      FirstBitAhead(p, bits);
    }
    if !n.f.pmapExists {
      assert own + w.bits == bits;
      SplitAhead(p, Wire(own, [], d), w, rest);
    }
  }

  lemma {:induction false} PlainGroup(n: Node, kids: seq<Msg>, q: Pos, d: Local, rest: seq<byte>, c: Cell)
    requires WellFormed(n) && n.f.typ.Group? && !n.f.pmapExists && |kids| == |n.children|
    requires LegalUpTo(n.children, kids, |kids|, d, Left(q), |rest|)
    requires Ahead(q, SendUpTo(n.children, kids, |kids|, d), rest)
    ensures var w := SendUpTo(n.children, kids, |kids|, d);
            var r := GroupBody(n, q, d, c);
            r.Done? && r.value.pos == After(q, w, rest) && r.value.dict == w.dict && r.value.cell == c
            && AllShow(n.children, kids, r.value.kids)
    decreases n, 0, 0
  {
    UpToDecodes(n.children, kids, |kids|, q, d, rest);
    AllArrived(n.children, kids, WalkTo(n.children, |kids|, q, d), q, SendUpTo(n.children, kids, |kids|, d), rest);
  }

  lemma {:induction false} MappedGroupIs(n: Node, q: Pos, d: Local, c: Cell, nested: Pos, w: Walked)
    requires WellFormed(n) && n.f.typ.Group? && n.f.pmapExists && nested == ReadPmap(q)
    requires WalkTo(n.children, |n.children|, nested, d) == Done(w)
    ensures q.offset <= w.pos.offset
    ensures GroupBody(n, q, d, c) == Done(Result(q.Skip(w.pos.offset - q.offset), w.dict, c, w.kids))
  {
  }

  lemma {:induction false} SkipAll(q: Pos, s: seq<byte>, rest: seq<byte>)
    requires q.bytes == s + rest
    ensures q.Skip(|s|) == Pos(q.offset + |s|, rest, q.pmap, q.idx)
  {
  }

  /** The presence map the group sends first is the one its members are read with. */
  lemma {:induction false} MappedGroup(n: Node, kids: seq<Msg>, size: nat, q: Pos, d: Local, rest: seq<byte>, c: Cell)
    requires WellFormed(n) && n.f.typ.Group? && n.f.pmapExists && |kids| == |n.children|
    requires var w := SendUpTo(n.children, kids, |kids|, d);
             && HoldsMap(w.bits, size) && LegalUpTo(n.children, kids, |kids|, d, 7 * size, |rest|)
             && q.bytes == MapBytes(w.bits, size) + w.bytes + rest
    ensures var w := SendUpTo(n.children, kids, |kids|, d);
            var r := GroupBody(n, q, d, c);
            r.Done? && r.value.dict == w.dict && r.value.cell == c && AllShow(n.children, kids, r.value.kids)
            && r.value.pos == Pos(q.offset + size + |w.bytes|, rest, q.pmap, q.idx)
    decreases n, 0, 0
  {
    var w := SendUpTo(n.children, kids, |kids|, d);
    var nested := ReadsPmap(q, w, size, rest);
    UpToDecodes(n.children, kids, |kids|, nested, d, rest);
    var walked := WalkTo(n.children, |kids|, nested, d);
    AllArrived(n.children, kids, walked, nested, w, rest);
    MappedGroupIs(n, q, d, c, nested, walked.value);
    SkipAll(q, MapBytes(w.bits, size) + w.bytes, rest);
  }

  lemma {:induction false} MapRead(p: Pos, bits: seq<bool>, size: nat, tail: seq<byte>)
    requires size > 0 && p.bytes == MapBytes(bits, size) + tail
    ensures ReadPmap(p) == Pos(p.offset + size, tail, Resized(bits, 7 * size), 0)
  {
    MapRoundTrip(bits, size);
    NextIs(p, MapBytes(bits, size), tail);
  }

  /** What is read instead of zeros that were cut off. */
  lemma {:induction false} BitsHeld(p: Pos, bits: seq<bool>, size: nat)
    requires HoldsMap(bits, size) && p.pmap == Resized(bits, 7 * size) && p.idx == 0
    ensures BitsAhead(p, bits)
  {
    forall k | 0 <= k < |bits|
      ensures bits[k] == BitAt(p.pmap, p.idx + k)
    {
      BitHeld(bits, size, k);
    }
  }

  lemma {:induction false} ReadsPmap(q: Pos, w: Wire, size: nat, rest: seq<byte>) returns (nested: Pos)
    requires HoldsMap(w.bits, size) && q.bytes == MapBytes(w.bits, size) + w.bytes + rest
    ensures nested == ReadPmap(q) && nested.offset == q.offset + size && nested.idx == 0
    ensures nested.pmap == Resized(w.bits, 7 * size) && Left(nested) == 7 * size && Ahead(nested, w, rest)
  {
    assert q.bytes == MapBytes(w.bits, size) + (w.bytes + rest);
    MapRead(q, w.bits, size, w.bytes + rest);
    nested := ReadPmap(q);
    BitsHeld(nested, w.bits, size);
  }

  function ShiftTimes(p: Pos, k: nat): Pos { if k == 0 then p else ShiftPmap(ShiftTimes(p, k - 1)).1 }

  /** Bit after bit, a receiver reads the presence map that was sent, on however many bytes, and then zeros for ever. */
  lemma {:induction false} ZeroExtension(p: Pos, bits: seq<bool>, size: nat, rest: seq<byte>, k: nat)
    requires HoldsMap(bits, size) && p.bytes == MapBytes(bits, size) + rest
    ensures ShiftPmap(ShiftTimes(ReadPmap(p), k)).0 == BitAt(bits, k)
    ensures ShiftTimes(ReadPmap(p), k).bytes == rest
  {
    MapRead(p, bits, size, rest);
    BitAfter(ReadPmap(p), k);
    BitHeld(bits, size, k);
  }

  lemma {:induction false} BitHeld(bits: seq<bool>, size: nat, k: nat)
    requires HoldsMap(bits, size)
    ensures BitAt(Resized(bits, 7 * size), k) == BitAt(bits, k)
  {
  }

  lemma {:induction false} BitAfter(q: Pos, k: nat)
    requires q.idx == 0
    ensures ShiftPmap(ShiftTimes(q, k)).0 == BitAt(q.pmap, k) && ShiftTimes(q, k).bytes == q.bytes
  {
    ShiftsCount(q, k);
  }

  lemma {:induction false} ShiftsCount(q: Pos, k: nat)
    requires q.idx == 0
    ensures ShiftTimes(q, k) == q.(idx := if k <= |q.pmap| then k else |q.pmap|)
  {
    if k > 0 {
      ShiftsCount(q, k - 1);
    }
  }

  lemma {:induction false} WalkStep(ns: seq<Node>, i: nat, p: Pos, d: Local, w: Walked, v: Result)
    requires AllWellFormed(ns) && i < |ns| && WalkTo(ns, i, p, d) == Done(w)
    requires DissectValue(ns[i], w.pos, w.dict) == Done(v)
    ensures w.pos.Leads(v.pos)
    ensures WalkTo(ns, i + 1, p, d) == Done(Walked(v.pos, v.dict, w.kids + [NodeOf(w.pos, v)]))
  {
  }

  lemma {:induction false} LegalStep(ns: seq<Node>, ms: seq<Msg>, i: nat, d: Local, avail: nat, follow: nat)
    requires AllWellFormed(ns) && |ms| == |ns| && i < |ns| && LegalUpTo(ns, ms, i + 1, d, avail, follow)
    ensures var w := SendUpTo(ns, ms, i, d);
            var x := Send(ns[i], ms[i], w.dict);
            && LegalUpTo(ns, ms, i, d, avail, follow + |x.bytes|)
            && Legal(ns[i], ms[i], w.dict, Less(avail, |w.bits|), follow)
            && SendUpTo(ns, ms, i + 1, d) == w.Then(x)
  {
  }

  lemma {:induction false} ShowSnoc(ns: seq<Node>, ms: seq<Msg>, ds: seq<DataNode>, i: nat, k: DataNode)
    requires i < |ns| == |ms| && AllShow(ns[..i], ms[..i], ds) && Shows(ns[i], ms[i], k)
    ensures AllShow(ns[..i + 1], ms[..i + 1], ds + [k])
  {
    assert ns[..i + 1] == ns[..i] + [ns[i]] && ms[..i + 1] == ms[..i] + [ms[i]];
    forall j | 0 <= j < i + 1
      ensures Shows(ns[..i + 1][j], ms[..i + 1][j], (ds + [k])[j])
    {
      if j < i { assert Shows(ns[..i][j], ms[..i][j], ds[j]); }
    }
  }

  /** The first i siblings are through: exactly what was sent for them has been consumed, and it shows. */
  predicate WalkArrived(ns: seq<Node>, ms: seq<Msg>, i: nat, r: Outcome<Walked>, p: Pos, w: Wire, rest: seq<byte>) {
    && i <= |ns| == |ms|
    && r.Done? && r.value.pos == After(p, w, rest) && r.value.dict == w.dict && AllShow(ns[..i], ms[..i], r.value.kids)
  }

  lemma {:induction false} UpToDecodes(ns: seq<Node>, ms: seq<Msg>, i: nat, p: Pos, d: Local, rest: seq<byte>)
    requires AllWellFormed(ns) && |ms| == |ns| && i <= |ns|
    requires LegalUpTo(ns, ms, i, d, Left(p), |rest|) && Ahead(p, SendUpTo(ns, ms, i, d), rest)
    ensures WalkArrived(ns, ms, i, WalkTo(ns, i, p, d), p, SendUpTo(ns, ms, i, d), rest)
    decreases ns, 0, i
  {
    if i == 0 {
      NoneSent(ns, ms, p, d, rest);
    } else {
      UpToStep(ns, ms, i, p, d, rest);
    }
  }

  lemma {:induction false} NoneSent(ns: seq<Node>, ms: seq<Msg>, p: Pos, d: Local, rest: seq<byte>)
    requires |ms| == |ns| && Ahead(p, Wire([], [], d), rest)
    ensures WalkArrived(ns, ms, 0, Done(Walked(p, d, [])), p, Wire([], [], d), rest)
  {
    assert p.bytes == rest;
  }

  lemma {:induction false} AllArrived(ns: seq<Node>, ms: seq<Msg>, r: Outcome<Walked>, p: Pos, w: Wire, rest: seq<byte>)
    requires WalkArrived(ns, ms, |ns|, r, p, w, rest)
    ensures AllShow(ns, ms, r.value.kids)
  {
    assert ns[..|ns|] == ns && ms[..|ms|] == ms;
  }

  lemma {:induction false} UpToStep(ns: seq<Node>, ms: seq<Msg>, i: nat, p: Pos, d: Local, rest: seq<byte>)
    requires AllWellFormed(ns) && |ms| == |ns| && 0 < i <= |ns|
    requires LegalUpTo(ns, ms, i, d, Left(p), |rest|) && Ahead(p, SendUpTo(ns, ms, i, d), rest)
    ensures WalkArrived(ns, ms, i, WalkTo(ns, i, p, d), p, SendUpTo(ns, ms, i, d), rest)
    decreases ns, 0, i, 0
  {
    var j := i - 1;
    LegalStep(ns, ms, j, d, Left(p), |rest|);
    var w := SendUpTo(ns, ms, j, d);
    var x := Send(ns[j], ms[j], w.dict);
    SplitAhead(p, w, x, rest);
    LeftAfter(p, w, x.bytes + rest);
    UpToDecodes(ns, ms, j, p, d, x.bytes + rest);
    ValueDecodes(ns[j], ms[j], After(p, w, x.bytes + rest), w.dict, rest);
    ArriveNext(ns, ms, j, p, d, w, x, rest);
  }

  lemma {:induction false} ArriveNext(ns: seq<Node>, ms: seq<Msg>, i: nat, p: Pos, d: Local, w: Wire, x: Wire,
                                      rest: seq<byte>)
    requires AllWellFormed(ns) && |ms| == |ns| && i < |ns|
    requires WalkArrived(ns, ms, i, WalkTo(ns, i, p, d), p, w, x.bytes + rest)
    requires var q := After(p, w, x.bytes + rest);
             && Delivered(ns[i], ms[i], DissectValue(ns[i], q, w.dict), q, x, rest)
             && After(q, x, rest) == After(p, w.Then(x), rest)
    ensures WalkArrived(ns, ms, i + 1, WalkTo(ns, i + 1, p, d), p, w.Then(x), rest)
  {
    var q := After(p, w, x.bytes + rest);
    var kids, v := WalkTo(ns, i, p, d).value.kids, DissectValue(ns[i], q, w.dict).value;
    WalkStep(ns, i, p, d, Walked(q, w.dict, kids), v);
    ShowSnoc(ns, ms, kids, i, NodeOf(q, v));
  }

  // ---------- sequences ----------

  lemma {:induction false} ElementStep(g: Node, i: nat, p: Pos, d: Local, w: Walked, v: Result)
    requires WellFormed(g) && ElementsTo(g, i, p, d) == Done(w) && !Exhausted(w.pos)
    requires DissectValue(g, w.pos, w.dict) == Done(v)
    ensures w.pos.Leads(v.pos)
    ensures ElementsTo(g, i + 1, p, d) == Done(Walked(v.pos, v.dict, w.kids + [NodeOf(w.pos, v)]))
  {
  }

  lemma {:induction false} LegalElementStep(g: Node, ms: seq<Msg>, i: nat, d: Local, avail: nat, follow: nat)
    requires WellFormed(g) && i < |ms| && LegalElements(g, ms, i + 1, d, avail, follow)
    ensures var w := SendElements(g, ms, i, d);
            var x := Send(g, ms[i], w.dict);
            && LegalElements(g, ms, i, d, avail, |x.bytes| + follow)
            && |w.bits| < avail && |x.bytes| + follow > 0 && Legal(g, ms[i], w.dict, Less(avail, |w.bits|), follow)
            && SendElements(g, ms, i + 1, d) == w.Then(x)
  {
  }

  predicate EachShows(g: Node, ms: seq<Msg>, ds: seq<DataNode>) {
    |ds| <= |ms| && forall j | 0 <= j < |ds| :: Shows(g, ms[j], ds[j])
  }

  predicate ElementsArrived(g: Node, ms: seq<Msg>, i: nat, r: Outcome<Walked>, p: Pos, w: Wire, rest: seq<byte>) {
    && r.Done? && r.value.pos == After(p, w, rest) && r.value.dict == w.dict
    && |r.value.kids| == i && EachShows(g, ms, r.value.kids)
  }

  lemma {:induction false} NoElements(g: Node, ms: seq<Msg>, p: Pos, d: Local, rest: seq<byte>)
    requires WellFormed(g) && Ahead(p, Wire([], [], d), rest)
    ensures ElementsArrived(g, ms, 0, Done(Walked(p, d, [])), p, Wire([], [], d), rest)
  {
    assert p.bytes == rest;
  }

  lemma {:induction false} ElementsDecode(g: Node, ms: seq<Msg>, i: nat, p: Pos, d: Local, rest: seq<byte>)
    requires WellFormed(g) && i <= |ms| && LegalElements(g, ms, i, d, Left(p), |rest|)
    requires Ahead(p, SendElements(g, ms, i, d), rest)
    ensures ElementsArrived(g, ms, i, ElementsTo(g, i, p, d), p, SendElements(g, ms, i, d), rest)
    decreases g, 3, i
  {
    if i == 0 {
      NoElements(g, ms, p, d, rest);
    } else {
      ElementsStep(g, ms, i, p, d, rest);
    }
  }

  lemma {:induction false} ElementsStep(g: Node, ms: seq<Msg>, i: nat, p: Pos, d: Local, rest: seq<byte>)
    requires WellFormed(g) && 0 < i <= |ms| && LegalElements(g, ms, i, d, Left(p), |rest|)
    requires Ahead(p, SendElements(g, ms, i, d), rest)
    ensures ElementsArrived(g, ms, i, ElementsTo(g, i, p, d), p, SendElements(g, ms, i, d), rest)
    decreases g, 3, i, 0
  {
    var j := i - 1;
    LegalElementStep(g, ms, j, d, Left(p), |rest|);
    var w := SendElements(g, ms, j, d);
    var x := Send(g, ms[j], w.dict);
    SplitAhead(p, w, x, rest);
    LeftAfter(p, w, x.bytes + rest);
    ElementsDecode(g, ms, j, p, d, x.bytes + rest);
    ValueDecodes(g, ms[j], After(p, w, x.bytes + rest), w.dict, rest);
    NextElement(g, ms, j, p, d, w, x, rest);
  }

  lemma {:induction false} NextElement(g: Node, ms: seq<Msg>, i: nat, p: Pos, d: Local, w: Wire, x: Wire,
                                       rest: seq<byte>)
    requires WellFormed(g) && i < |ms| && Left(After(p, w, x.bytes + rest)) > 0 && x.bytes + rest != []
    requires ElementsArrived(g, ms, i, ElementsTo(g, i, p, d), p, w, x.bytes + rest)
    requires var q := After(p, w, x.bytes + rest);
             && Delivered(g, ms[i], DissectValue(g, q, w.dict), q, x, rest)
             && After(q, x, rest) == After(p, w.Then(x), rest)
    ensures ElementsArrived(g, ms, i + 1, ElementsTo(g, i + 1, p, d), p, w.Then(x), rest)
  {
    var q := After(p, w, x.bytes + rest);
    assert !Exhausted(q);
    var kids, v := ElementsTo(g, i, p, d).value.kids, DissectValue(g, q, w.dict).value;
    ElementStep(g, i, p, d, Walked(q, w.dict, kids), v);
  }

  lemma {:induction false} SequenceReached(n: Node, p: Pos, d: Local)
    requires WellFormed(n) && n.f.typ.Sequence? && Presence(n, p, d) == Step(p, d, Cell(Exists, BLANK))
    ensures DissectValue(n, p, d) == SequenceBody(n, p, d)
  {
    var c := Cell(Exists, BLANK);
    assert Operate(n.f, p, d, c) == (false, Step(p, d, c));
    assert DissectValue(n, p, d) == Body(n, p, d, c);
  }

  lemma {:induction false} GroupReached(n: Node, p: Pos, d: Local, q: Pos)
    requires WellFormed(n) && n.f.typ.Group? && Presence(n, p, d) == Step(q, d, Cell(Exists, BLANK))
    ensures DissectValue(n, p, d) == GroupBody(n, q, d, Cell(Exists, BLANK))
  {
    var c := Cell(Exists, BLANK);
    assert Operate(n.f, q, d, c) == (false, Step(q, d, c));
    assert DissectValue(n, p, d) == Body(n, q, d, c);
  }

  /** A sequence that is there: its length field, then its elements. */
  lemma {:induction false} LegalSequenceParts(n: Node, m: Msg, d: Local, avail: nat, follow: nat)
    requires WellFormed(n) && n.f.typ.Sequence? && m.Elements? && LegalSequence(n, m, d, avail, follow)
    ensures var l := n.children[0].f;
            && m.length.Field? && m.length.v == Some(Number(|m.elems|)) && LegalField(l, m.length.v, m.length.omit, d)
            && (!n.f.mandatory ==> !l.op.Constant?)
            && var w := SendField(l, m.length.v, m.length.omit, d);
               && LegalElements(n.children[1], m.elems, |m.elems|, w.dict, Less(avail, |w.bits|), follow)
               && SendSequence(n, m, d) == w.Then(SendElements(n.children[1], m.elems, |m.elems|, w.dict))
  {
  }

  lemma {:induction false} SequenceDecodes(n: Node, m: Msg, p: Pos, d: Local, rest: seq<byte>)
    requires WellFormed(n) && n.f.typ.Sequence? && LegalSequence(n, m, d, Left(p), |rest|)
    requires Ahead(p, SendSequence(n, m, d), rest)
    ensures Delivered(n, m, DissectValue(n, p, d), p, SendSequence(n, m, d), rest)
    decreases n, 1
  {
    if m.Field? {
      AbsentSequence(n, p, d, rest);
    } else {
      LegalSequenceParts(n, m, d, Left(p), |rest|);
      PresentSequence(n, m, p, d, rest);
    }
  }

  lemma {:induction false} AbsentSequence(n: Node, p: Pos, d: Local, rest: seq<byte>)
    requires WellFormed(n) && n.f.typ.Sequence? && !n.f.mandatory
    requires var l := n.children[0].f;
             LegalField(l, None, false, d) && !l.op.Constant? && Ahead(p, SendField(l, None, false, d), rest)
    ensures var r := DissectValue(n, p, d);
            var w := SendField(n.children[0].f, None, false, d);
            && r.Done? && r.value.pos == After(p, w, rest) && r.value.dict == w.dict
            && r.value.cell.status.Empty? && r.value.kids == []
  {
    var l := n.children[0];
    SeesAbsent(l.f, p, d, rest);
    assert Optional(l, p, d, Cell(Empty, BLANK)) == OptionalField(l.f, p, d, Cell(Empty, BLANK));
    assert Presence(n, p, d) == Optional(l, p, d, Cell(Empty, BLANK));
  }

  lemma {:induction false} LengthArrives(n: Node, k: nat, omit: bool, p: Pos, d: Local, rest: seq<byte>)
    requires WellFormed(n) && n.f.typ.Sequence? && (!n.f.mandatory ==> !n.children[0].f.op.Constant?)
    requires LegalField(n.children[0].f, Some(Number(k)), omit, d)
    requires Ahead(p, SendField(n.children[0].f, Some(Number(k)), omit, d), rest)
    ensures DissectValue(n, p, d) == SequenceBody(n, p, d)
    ensures var w := SendField(n.children[0].f, Some(Number(k)), omit, d);
            DissectValue(n.children[0], p, d) == Done(Result(After(p, w, rest), w.dict, Cell(Exists, Number(k)), []))
  {
    SequenceThere(n, Some(Number(k)), omit, p, d, rest);
    FieldDecodes(n.children[0], Some(Number(k)), omit, d, p, rest);
  }

  lemma {:induction false} PresentSequence(n: Node, m: Msg, p: Pos, d: Local, rest: seq<byte>)
    requires WellFormed(n) && n.f.typ.Sequence? && m.Elements? && LegalSequence(n, m, d, Left(p), |rest|)
    requires Ahead(p, SendSequence(n, m, d), rest)
    ensures Delivered(n, m, DissectValue(n, p, d), p, SendSequence(n, m, d), rest)
    decreases n, 1, 0
  {
    LegalSequenceParts(n, m, d, Left(p), |rest|);
    var k := |m.elems|;
    var w := SendField(n.children[0].f, m.length.v, m.length.omit, d);
    var x := SendElements(n.children[1], m.elems, k, w.dict);
    SplitAhead(p, w, x, rest);
    LeftAfter(p, w, x.bytes + rest);
    var q := After(p, w, x.bytes + rest);
    LengthArrives(n, k, m.length.omit, p, d, x.bytes + rest);
    ElementsDecode(n.children[1], m.elems, k, q, w.dict, rest);
    SequenceAssembled(n, p, d, Result(q, w.dict, Cell(Exists, Number(k)), []), k);
    SequenceShows(n, m, DissectValue(n, p, d), p, w.Then(x), rest);
  }

  lemma {:induction false} SequenceThere(n: Node, v: Option<FieldValue>, omit: bool, p: Pos, d: Local, rest: seq<byte>)
    requires WellFormed(n) && n.f.typ.Sequence? && v.Some? && (!n.f.mandatory ==> !n.children[0].f.op.Constant?)
    requires LegalField(n.children[0].f, v, omit, d) && Ahead(p, SendField(n.children[0].f, v, omit, d), rest)
    ensures DissectValue(n, p, d) == SequenceBody(n, p, d)
  {
    var l := n.children[0];
    if !n.f.mandatory {
      FindsPresent(l.f, v, omit, d, p, rest);
      assert Optional(l, p, d, Cell(Empty, BLANK)) == OptionalField(l.f, p, d, Cell(Empty, BLANK));
      assert Presence(n, p, d) == Optional(l, p, d, Cell(Empty, BLANK));
    }
    SequenceReached(n, p, d);
  }

  lemma {:induction false} SequenceShows(n: Node, m: Msg, r: Outcome<Result>, p: Pos, w: Wire, rest: seq<byte>)
    requires WellFormed(n) && n.f.typ.Sequence? && m.Elements?
    requires r.Done? && r.value.pos == After(p, w, rest) && r.value.dict == w.dict && r.value.cell.status.Exists?
    requires r.value.cell.value.num == |m.elems|
    requires p.Leads(r.value.pos) && |r.value.kids| == |m.elems| && EachShows(n.children[1], m.elems, r.value.kids)
    ensures Delivered(n, m, r, p, w, rest)
  {
  }

  lemma {:induction false} SequenceAssembled(n: Node, p: Pos, d: Local, l: Result, k: nat)
    requires WellFormed(n) && n.f.typ.Sequence? && DissectValue(n.children[0], p, d) == Done(l)
    requires l.cell == Cell(Exists, Number(k))
    ensures var w := ElementsTo(n.children[1], k, l.pos, l.dict);
            SequenceBody(n, p, d) ==
              (if w.Done? then Done(Result(w.value.pos, w.value.dict, l.cell, w.value.kids)) else Faulty)
  {
  }
}
