/** The display walks the template and the data tree side by side, two node pointers in lockstep. */
module Display {
  import opened StopBit
  import opened Encode
  import opened Fields
  import opened Template
  import opened Dictionary
  import opened Reader
  import opened Dissection
  import opened Structure
  import opened Packet
  import P = DecimalPrinting

  /** What a line says: an integer, a string up to its first NUL, a byte vector in hexadecimal, a decimal as it is
      printed or in scientific notation, the heading of a group or of a sequence with its length, an absent field, an
      error - its message, or the value that was stored over that. */
  datatype Text =
    | Integer(text: string)
    | Chars(chars: seq<byte>)
    | Hex(text: string)
    | Pointed(text: string)
    | Scientific(mant: int, expt: int)
    | Heading
    | Counted(length: int)
    | Absent
    | Fault(code: Status)
    | Overwritten(message: seq<byte>)

  datatype Preferences = Preferences(showEmpty: bool, sciNotation: bool)

  datatype Line = Line(level: nat, start: nat, nbytes: nat, f: FieldType, text: Text)

  // ---------- what is to be displayed ----------

  /** The members of the C struct. */
  function Mantissa(v: FieldValue): int { W64.WrapSigned(v.num) }
  function Exponent(v: FieldValue): int { W32.WrapSigned(v.exponent) }

  function DecimalText(v: FieldValue, prefs: Preferences): Text {
    var text := P.Printed(Exponent(v), Mantissa(v));
    if prefs.sciNotation || text.None? then Scientific(Mantissa(v), Exponent(v)) else Pointed(text.value)
  }

  /** The decimals that are shown fit the printer's buffers, and no message is one that a decimal's exponent was
      stored over. */
  predicate Printable(n: Node, d: DataNode, prefs: Preferences)
    requires WellFormed(n) && Matches(n, d)
    decreases n, 1
  {
    if d.status.Exists? then
      match n.f.typ
      case Decimal => prefs.sciNotation || P.Fits(Exponent(d.value), Mantissa(d.value))
      case Group => PrintableTo(n.children, d.kids, |n.children|, prefs)
      case Sequence => ElementsPrintable(n.children[1], d.kids, |d.kids|, prefs)
      case _ => true
    else !d.status.Wild?
  }

  predicate PrintableTo(ns: seq<Node>, ds: seq<DataNode>, i: nat, prefs: Preferences)
    requires AllWellFormed(ns) && AllMatches(ns, ds) && i <= |ns|
    decreases ns, 0, i
  {
    i == 0 || (PrintableTo(ns, ds, i - 1, prefs) && Printable(ns[i - 1], ds[i - 1], prefs))
  }

  predicate ElementsPrintable(g: Node, ds: seq<DataNode>, i: nat, prefs: Preferences)
    requires WellFormed(g) && (forall k | 0 <= k < |ds| :: Matches(g, ds[k])) && i <= |ds|
    decreases g, 2, i
  {
    i == 0 || (ElementsPrintable(g, ds, i - 1, prefs) && Printable(g, ds[i - 1], prefs))
  }

  /** What is printed as the message of a node that is neither there nor absent. */
  function Message(d: DataNode): Text {
    if d.status.Masked? then Overwritten(CString(d.value.bytes)) else Fault(d.status)
  }

  /** The integer member the type says, in decimal digits. */
  function IntegerText(t: Typ, v: FieldValue): Text { Integer(P.NumberText(Wrap(t, v.num))) }

  function NodeLines(n: Node, d: DataNode, level: nat, prefs: Preferences): seq<Line>
    requires WellFormed(n) && Matches(n, d)
    decreases n, 1
  {
    if d.status.Exists? then
      match n.f.typ
      case Decimal => [Line(level, d.start, d.nbytes, n.f, DecimalText(d.value, prefs))]
      case ByteVector => [Line(level, d.start, d.nbytes, n.f, Hex(HexText(d.value.bytes)))]
      case Group =>
        [Line(level, d.start, d.nbytes, n.f, Heading)] + LinesTo(n.children, d.kids, |n.children|, level + 1, prefs)
      case Sequence =>
        [Line(level, d.start, d.nbytes, n.f, Counted(W32.WrapUnsigned(d.value.num)))]
        + ElementLines(n.children[1], d.kids, |d.kids|, level + 1, prefs)
      case Ascii => [Line(level, d.start, d.nbytes, n.f, Chars(CString(d.value.bytes)))]
      case Unicode => [Line(level, d.start, d.nbytes, n.f, Chars(CString(d.value.bytes)))]
      case _ => [Line(level, d.start, d.nbytes, n.f, IntegerText(n.f.typ, d.value))]
    else if d.status.Empty? then (if prefs.showEmpty then [Line(level, d.start, d.nbytes, n.f, Absent)] else [])
    else [Line(level, 0, 0, n.f, Message(d))]
  }

  predicate AllMatches(ns: seq<Node>, ds: seq<DataNode>) {
    |ds| == |ns| && forall i | 0 <= i < |ns| :: Matches(ns[i], ds[i])
  }

  function LinesTo(ns: seq<Node>, ds: seq<DataNode>, i: nat, level: nat, prefs: Preferences): seq<Line>
    requires AllWellFormed(ns) && AllMatches(ns, ds) && i <= |ns|
    decreases ns, 0, i
  {
    if i == 0 then [] else LinesTo(ns, ds, i - 1, level, prefs) + NodeLines(ns[i - 1], ds[i - 1], level, prefs)
  }

  function ElementLines(g: Node, ds: seq<DataNode>, i: nat, level: nat, prefs: Preferences): seq<Line>
    requires WellFormed(g) && (forall k | 0 <= k < |ds| :: Matches(g, ds[k])) && i <= |ds|
    decreases g, 2, i
  {
    if i == 0 then [] else ElementLines(g, ds, i - 1, level, prefs) + NodeLines(g, ds[i - 1], level, prefs)
  }

  // ---------- the walk ----------

  class ProtoTree {
    var lines: seq<Line>

    constructor ()
      ensures lines == []
    {
      lines := [];
    }

    method AddItem(level: nat, start: nat, nbytes: nat, f: FieldType, text: Text)
      modifies this
      ensures lines == old(lines) + [Line(level, start, nbytes, f, text)]
    {
      lines := lines + [Line(level, start, nbytes, f, text)];
    }
  }

  /** The digits of a byte vector, two for each byte. */
  method HexString(v: seq<byte>) returns (str: string)
    ensures str == HexText(v)
  {
    str := "";
    var i := 0;
    while i < |v|
      invariant 0 <= i <= |v| && str == HexText(v[..i])
    {
      str := str + [HexChar(v[i] / 16), HexChar(v[i] % 16)];
      assert v[..i + 1][..i] == v[..i];
      i := i + 1;
    }
    assert v[..i] == v;
  }

  /** display_fields, from one pair of nodes on through their siblings. It never runs out of data nodes, and fails only
      where the printer would leave its buffers or print through a pointer that points nowhere. */
  method DisplayFields(ns: seq<Node>, ds: seq<DataNode>, level: nat, prefs: Preferences, tree: ProtoTree)
    returns (ok: bool)
    requires AllWellFormed(ns) && AllMatches(ns, ds)
    modifies tree
    ensures ok <==> PrintableTo(ns, ds, |ns|, prefs)
    ensures ok ==> tree.lines == old(tree.lines) + LinesTo(ns, ds, |ns|, level, prefs)
    decreases ns, 1
  {
    ok := true;
    var tnode, dnode := 0, 0;
    if dnode == |ds| { return; }
    while tnode < |ns|
      invariant 0 <= tnode <= |ns| && dnode == tnode && ok
      invariant PrintableTo(ns, ds, tnode, prefs)
      invariant tree.lines == old(tree.lines) + LinesTo(ns, ds, tnode, level, prefs)
    {
      ok := DisplayNode(ns[tnode], ds[dnode], level, prefs, tree);
      if !ok {
        Unprintable(ns, ds, tnode + 1, |ns|, prefs);
        return;
      }
      tnode := tnode + 1;
      dnode := dnode + 1;
    }
  }

  lemma {:induction false} Unprintable(ns: seq<Node>, ds: seq<DataNode>, i: nat, k: nat, prefs: Preferences)
    requires AllWellFormed(ns) && AllMatches(ns, ds) && i <= k <= |ns| && !PrintableTo(ns, ds, i, prefs)
    ensures !PrintableTo(ns, ds, k, prefs)
  {
    if i < k {
      Unprintable(ns, ds, i, k - 1, prefs);
    }
  }

  method DisplayNode(n: Node, d: DataNode, level: nat, prefs: Preferences, tree: ProtoTree) returns (ok: bool)
    requires WellFormed(n) && Matches(n, d)
    modifies tree
    ensures ok <==> Printable(n, d, prefs)
    ensures ok ==> tree.lines == old(tree.lines) + NodeLines(n, d, level, prefs)
    decreases n, 4
  {
    ok := true;
    if d.status.Exists? {
      ok := DisplayExisting(n, d, level, prefs, tree);
    } else if d.status.Empty? {
      if prefs.showEmpty {
        tree.AddItem(level, d.start, d.nbytes, n.f, Absent);
      }
    } else if d.status.Wild? {
      ok := false;
    } else {
      tree.AddItem(level, 0, 0, n.f, Message(d));
    }
  }

  lemma {:induction false} Regrouped(a: seq<Line>, b: seq<Line>, c: seq<Line>)
    ensures (a + b) + c == a + (b + c)
  {
  }

  /** The text of a decimal: to_decimal unless scientific notation is preferred, and that when there is no text. */
  method TextOfDecimal(v: FieldValue, prefs: Preferences) returns (ok: bool, text: Text)
    ensures ok <==> prefs.sciNotation || P.Fits(Exponent(v), Mantissa(v))
    ensures ok ==> text == DecimalText(v, prefs)
  {
    ok, text := true, Scientific(Mantissa(v), Exponent(v));
    if !prefs.sciNotation {
      var decimalNum;
      ok, decimalNum := P.ToDecimal(Exponent(v), Mantissa(v));
      if ok && decimalNum.Some? {
        text := Pointed(decimalNum.value);
      }
    }
  }

  method DisplayExisting(n: Node, d: DataNode, level: nat, prefs: Preferences, tree: ProtoTree) returns (ok: bool)
    requires WellFormed(n) && Matches(n, d) && d.status.Exists?
    modifies tree
    ensures ok <==> Printable(n, d, prefs)
    ensures ok ==> tree.lines == old(tree.lines) + NodeLines(n, d, level, prefs)
    decreases n, 3
  {
    ok := true;
    match n.f.typ {
      case Decimal =>
        var text;
        ok, text := TextOfDecimal(d.value, prefs);
        tree.AddItem(level, d.start, d.nbytes, n.f, text);
      case ByteVector =>
        var str := HexString(d.value.bytes);
        tree.AddItem(level, d.start, d.nbytes, n.f, Hex(str));
      case Group => ok := DisplayGroup(n, d, level, prefs, tree);
      case Sequence => ok := DisplaySequence(n, d, level, prefs, tree);
      case Ascii => tree.AddItem(level, d.start, d.nbytes, n.f, Chars(CString(d.value.bytes)));
      case Unicode => tree.AddItem(level, d.start, d.nbytes, n.f, Chars(CString(d.value.bytes)));
      case _ => tree.AddItem(level, d.start, d.nbytes, n.f, IntegerText(n.f.typ, d.value));
    }
  }

  method DisplayGroup(n: Node, d: DataNode, level: nat, prefs: Preferences, tree: ProtoTree) returns (ok: bool)
    requires WellFormed(n) && Matches(n, d) && d.status.Exists? && n.f.typ.Group?
    modifies tree
    ensures ok <==> Printable(n, d, prefs)
    ensures ok ==> tree.lines == old(tree.lines) + NodeLines(n, d, level, prefs)
    decreases n, 2
  {
    tree.AddItem(level, d.start, d.nbytes, n.f, Heading);
    ok := DisplayFields(n.children, d.kids, level + 1, prefs, tree);
    Regrouped(old(tree.lines), [Line(level, d.start, d.nbytes, n.f, Heading)],
              LinesTo(n.children, d.kids, |n.children|, level + 1, prefs));
  }

  method DisplaySequence(n: Node, d: DataNode, level: nat, prefs: Preferences, tree: ProtoTree) returns (ok: bool)
    requires WellFormed(n) && Matches(n, d) && d.status.Exists? && n.f.typ.Sequence?
    modifies tree
    ensures ok <==> Printable(n, d, prefs)
    ensures ok ==> tree.lines == old(tree.lines) + NodeLines(n, d, level, prefs)
    decreases n, 2
  {
    var length := Counted(W32.WrapUnsigned(d.value.num));
    tree.AddItem(level, d.start, d.nbytes, n.f, length);
    ok := DisplayElements(n.children[1], d.kids, level + 1, prefs, tree);
    Regrouped(old(tree.lines), [Line(level, d.start, d.nbytes, n.f, length)],
              ElementLines(n.children[1], d.kids, |d.kids|, level + 1, prefs));
  }

  /** The group of a sequence, against each of its elements. */
  method DisplayElements(g: Node, ds: seq<DataNode>, level: nat, prefs: Preferences, tree: ProtoTree) returns (ok: bool)
    requires WellFormed(g) && forall k | 0 <= k < |ds| :: Matches(g, ds[k])
    modifies tree
    ensures ok <==> ElementsPrintable(g, ds, |ds|, prefs)
    ensures ok ==> tree.lines == old(tree.lines) + ElementLines(g, ds, |ds|, level, prefs)
    decreases g, 5
  {
    ok := true;
    var i := 0;
    while i < |ds|
      invariant 0 <= i <= |ds| && ok && ElementsPrintable(g, ds, i, prefs)
      invariant tree.lines == old(tree.lines) + ElementLines(g, ds, i, level, prefs)
    {
      ok := DisplayNode(g, ds[i], level, prefs, tree);
      if !ok {
        UnprintableElement(g, ds, i + 1, |ds|, prefs);
        return;
      }
      i := i + 1;
    }
  }

  lemma {:induction false} UnprintableElement(g: Node, ds: seq<DataNode>, i: nat, k: nat, prefs: Preferences)
    requires WellFormed(g) && (forall j | 0 <= j < |ds| :: Matches(g, ds[j])) && i <= k <= |ds|
    requires !ElementsPrintable(g, ds, i, prefs)
    ensures !ElementsPrintable(g, ds, k, prefs)
  {
    if i < k {
      UnprintableElement(g, ds, i, k - 1, prefs);
    }
  }

  // ---------- whatever was dissected can be displayed ----------

  predicate Displayable(t: Tree) { AllWellFormed(t.fields) && AllMatches(t.fields, t.data.kids) }

  lemma {:induction false} UnknownDisplayable(id: int)
    ensures Displayable(UnknownTemplate(id))
  {
    var t := UnknownTemplate(id);
    assert WellFormed(ERROR_MESSAGE) && Matches(ERROR_MESSAGE, t.data.kids[0]);
  }

  lemma {:induction false} MessageDisplayable(table: Templates, tid: int, p: Pos, d: Local)
    requires Ready(table) && DissectMessage(table, tid, p, d).Done? && DissectMessage(table, tid, p, d).value.known
    ensures var m := DissectMessage(table, tid, p, d).value;
            && Displayable(Tree(m.tid, table[m.tid], m.data))
            && Framed(m.data) && m.data.start + m.data.nbytes == m.pos.offset
  {
    var q := ReadPmap(p);
    var h := HeadOf(q, tid);
    WalkStructure(table[h.tid], |table[h.tid]|, h.pos, d);
    var kids := WalkTo(table[h.tid], |table[h.tid]|, h.pos, d).value.kids;
    if kids != [] {
      TilesFirst(kids, h.pos.offset, WalkTo(table[h.tid], |table[h.tid]|, h.pos, d).value.pos.offset);
    }
  }

  /** Any bytes whatever: every tree kept for a packet fits its template. */
  lemma {:induction false} PacketDisplayable(table: Templates, tid: int, p: Pos, d: Local)
    requires Ready(table) && DissectPacket(table, tid, p, d).Done?
    ensures var trees := DissectPacket(table, tid, p, d).value.trees;
            forall i | 0 <= i < |trees| :: Displayable(trees[i])
    decreases |p.bytes|
  {
    if p.bytes != [] {
      var m := DissectMessage(table, tid, p, d).value;
      if m.known {
        MessageDisplayable(table, tid, p, d);
        PacketDisplayable(table, m.tid, m.pos, m.dict);
      } else {
        UnknownDisplayable(m.data.value.num);
      }
    }
  }

  // ---------- the bytes a line points at ----------

  lemma {:induction false} TileInside(kids: seq<DataNode>, from: nat, to: nat, i: nat)
    requires Tiles(kids, from, to) && i < |kids|
    ensures from <= kids[i].start && kids[i].start + kids[i].nbytes <= to
  {
    var init, last := kids[..|kids| - 1], kids[|kids| - 1];
    if i < |init| {
      TileInside(init, from, last.start, i);
    } else if init != [] {
      TileInside(init, from, last.start, |init| - 1);
    }
  }

  /** A line highlights part of the given bytes; errors highlight nothing. */
  predicate Inside(lines: seq<Line>, from: nat, to: nat) {
    forall k | 0 <= k < |lines| ::
      || lines[k].text.Fault? || lines[k].text.Overwritten?
      || (from <= lines[k].start && lines[k].start + lines[k].nbytes <= to)
  }

  /** Every line below a node highlights part of what the node's own line does. */
  lemma {:induction false} NodeLinesInside(n: Node, d: DataNode, level: nat, prefs: Preferences)
    requires WellFormed(n) && Matches(n, d) && Framed(d)
    ensures Inside(NodeLines(n, d, level, prefs), d.start, d.start + d.nbytes)
    decreases n, 1
  {
    if d.status.Exists? {
      forall k | 0 <= k < |d.kids|
        ensures d.start <= d.kids[k].start && d.kids[k].start + d.kids[k].nbytes <= d.start + d.nbytes
      {
        TileInside(d.kids, d.kids[0].start, d.start + d.nbytes, k);
      }
      if n.f.typ.Group? {
        LinesInside(n.children, d.kids, |n.children|, level + 1, prefs, d.start, d.start + d.nbytes);
      } else if n.f.typ.Sequence? {
        ElementLinesInside(n.children[1], d.kids, |d.kids|, level + 1, prefs, d.start, d.start + d.nbytes);
      }
    }
  }

  lemma {:induction false} LinesInside(ns: seq<Node>, ds: seq<DataNode>, i: nat, level: nat, prefs: Preferences,
                                       from: nat, to: nat)
    requires AllWellFormed(ns) && AllMatches(ns, ds) && i <= |ns|
    requires forall k | 0 <= k < |ds| :: Framed(ds[k]) && from <= ds[k].start && ds[k].start + ds[k].nbytes <= to
    ensures Inside(LinesTo(ns, ds, i, level, prefs), from, to)
    decreases ns, 0, i
  {
    if i > 0 {
      LinesInside(ns, ds, i - 1, level, prefs, from, to);
      NodeLinesInside(ns[i - 1], ds[i - 1], level, prefs);
    }
  }

  lemma {:induction false} ElementLinesInside(g: Node, ds: seq<DataNode>, i: nat, level: nat, prefs: Preferences,
                                        from: nat, to: nat)
    requires WellFormed(g) && (forall k | 0 <= k < |ds| :: Matches(g, ds[k])) && i <= |ds|
    requires forall k | 0 <= k < |ds| :: Framed(ds[k]) && from <= ds[k].start && ds[k].start + ds[k].nbytes <= to
    ensures Inside(ElementLines(g, ds, i, level, prefs), from, to)
    decreases g, 2, i
  {
    if i > 0 {
      ElementLinesInside(g, ds, i - 1, level, prefs, from, to);
      NodeLinesInside(g, ds[i - 1], level, prefs);
    }
  }
}
