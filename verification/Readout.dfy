/** What the display shows of a message: one line for each node that is shown, in template order, and each line says
    what the node holds. So a message that was received as it was meant is displayed with the values that were sent. */
module Readout {
  import opened StopBit
  import opened Encode
  import opened InitialValues
  import opened Fields
  import opened Template
  import opened Dictionary
  import opened Reader
  import opened Dissection
  import opened Structure
  import opened Packet
  import opened Sender
  import opened PacketDecoding
  import opened Display
  import D = Decimals
  import P = DecimalPrinting

  // ---------- what there is to show ----------

  /** A field of the template, how deep it lies, the bytes it was read from, and what became of it. */
  datatype Item = Item(level: nat, f: FieldType, window: Option<(nat, nat)>, status: Status, value: FieldValue)

  function ItemOf(n: Node, d: DataNode, level: nat): Item {
    Item(level, n.f, Some((d.start, d.nbytes)), d.status, d.value)
  }

  /** A node, then what lies below it when it is there. */
  function Items(n: Node, d: DataNode, level: nat): seq<Item>
    requires WellFormed(n) && Matches(n, d)
    decreases n, 1
  {
    [ItemOf(n, d, level)] +
    if !d.status.Exists? then []
    else match n.f.typ
      case Group => ItemsTo(n.children, d.kids, |n.children|, level + 1)
      case Sequence => ElementItems(n.children[1], d.kids, |d.kids|, level + 1)
      case _ => []
  }

  function ItemsTo(ns: seq<Node>, ds: seq<DataNode>, i: nat, level: nat): seq<Item>
    requires AllWellFormed(ns) && AllMatches(ns, ds) && i <= |ns|
    decreases ns, 0, i
  {
    if i == 0 then [] else ItemsTo(ns, ds, i - 1, level) + Items(ns[i - 1], ds[i - 1], level)
  }

  function ElementItems(g: Node, ds: seq<DataNode>, i: nat, level: nat): seq<Item>
    requires WellFormed(g) && (forall k | 0 <= k < |ds| :: Matches(g, ds[k])) && i <= |ds|
    decreases g, 2, i
  {
    if i == 0 then [] else ElementItems(g, ds, i - 1, level) + Items(g, ds[i - 1], level)
  }

  // ---------- what a line says ----------

  /** These are the bytes up to the first NUL, or all of them. */
  predicate UpToNul(s: seq<byte>, bytes: seq<byte>) {
    s <= bytes && 0 !in s && (s == bytes || bytes[|s|] == 0)
  }

  /** The text is one from which a reader gets this value: digits that say the number, the characters themselves,
      hexadecimal that reads back, a decimal that the parser finds again - but one with exponent zero is always 1. */
  predicate Says(text: Text, t: Typ, v: FieldValue, prefs: Preferences) {
    match t
    case Decimal =>
      if prefs.sciNotation || !(-P.MAX_EXPT <= Exponent(v) <= P.MAX_EXPT) then
        text == Scientific(Mantissa(v), Exponent(v))
      else
        text.Pointed? && if Exponent(v) == 0 then text.text == "1"
                         else P.Recovers(D.Parse(text.text), Mantissa(v), Exponent(v))
    case Ascii => text.Chars? && UpToNul(text.chars, v.bytes)
    case Unicode => text.Chars? && UpToNul(text.chars, v.bytes)
    case ByteVector => text.Hex? && HexPairs(text.text) && |text.text| % 2 == 0 && HexBytes(text.text) == v.bytes
    case Group => text == Heading
    case Sequence => text == Counted(W32.WrapUnsigned(v.num))
    case _ => text.Integer? && P.ReadsAs(text.text, Wrap(t, v.num))
  }

  predicate Tells(text: Text, it: Item, prefs: Preferences) {
    match it.status
    case Exists => Says(text, it.f.typ, it.value, prefs)
    case Empty => text == Absent
    case Masked => text.Overwritten? && UpToNul(text.message, it.value.bytes)
    case s => text == Fault(s)
  }

  /** An absent field is shown on request only. */
  predicate Hidden(it: Item, prefs: Preferences) { it.status.Empty? && !prefs.showEmpty }

  /** The line is about this item: at its level, about its field, saying what it holds, and pointing at the bytes it was
      read from, or at none for an error. */
  predicate About(l: Line, it: Item, prefs: Preferences) {
    && l.level == it.level && l.f == it.f && Tells(l.text, it, prefs)
    && (it.window.Some? ==>
          (l.start, l.nbytes) == if it.status.Exists? || it.status.Empty? then it.window.value else (0, 0))
  }

  /** One line for each item that is shown, in their order. */
  predicate Reads(lines: seq<Line>, items: seq<Item>, prefs: Preferences)
    decreases |items|
  {
    if items == [] then lines == []
    else if Hidden(items[0], prefs) then Reads(lines, items[1..], prefs)
    else lines != [] && About(lines[0], items[0], prefs) && Reads(lines[1..], items[1..], prefs)
  }

  lemma {:induction false} ReadsOn(a: seq<Line>, x: seq<Item>, b: seq<Line>, y: seq<Item>, prefs: Preferences)
    requires Reads(a, x, prefs) && Reads(b, y, prefs)
    ensures Reads(a + b, x + y, prefs)
    decreases |x|
  {
    if x == [] {
      assert a + b == b && x + y == y;
    } else {
      assert (x + y)[1..] == x[1..] + y;
      if Hidden(x[0], prefs) {
        ReadsOn(a, x[1..], b, y, prefs);
      } else {
        assert (a + b)[1..] == a[1..] + b;
        ReadsOn(a[1..], x[1..], b, y, prefs);
      }
    }
  }

  lemma {:induction false} OneReads(l: Line, it: Item, prefs: Preferences)
    requires !Hidden(it, prefs) && About(l, it, prefs)
    ensures Reads([l], [it], prefs)
  {
    assert [l][1..] == [] && [it][1..] == [];
  }

  // ---------- the display says it ----------

  lemma {:induction false} CStringCut(s: seq<byte>)
    ensures UpToNul(CString(s), s)
  {
    if s != [] && s[0] != 0 {
      CStringCut(s[1..]);
      assert CString(s) == [s[0]] + CString(s[1..]);
      assert CString(s) != s ==> s[|CString(s)|] == s[1..][|CString(s[1..])|];
    }
  }

  lemma {:induction false} DecimalSays(v: FieldValue, prefs: Preferences)
    requires prefs.sciNotation || P.Fits(Exponent(v), Mantissa(v))
    ensures Says(DecimalText(v, prefs), Decimal, v, prefs)
  {
    if !prefs.sciNotation {
      P.PrintThenParse(Exponent(v), Mantissa(v));
    }
  }

  lemma {:induction false} HexSays(v: FieldValue, prefs: Preferences)
    ensures Says(Hex(HexText(v.bytes)), ByteVector, v, prefs)
  {
    HexTextReads(v.bytes);
    HexTextAt(v.bytes);
  }

  /** Its own line. */
  function Headline(n: Node, d: DataNode, level: nat, prefs: Preferences): Line
    requires WellFormed(n) && Matches(n, d) && d.status.Exists?
  {
    NodeLines(n, d, level, prefs)[0]
  }

  lemma {:induction false} HeadlineTells(n: Node, d: DataNode, level: nat, prefs: Preferences)
    requires WellFormed(n) && Matches(n, d) && d.status.Exists? && Printable(n, d, prefs)
    ensures Reads([Headline(n, d, level, prefs)], [ItemOf(n, d, level)], prefs)
  {
    match n.f.typ {
      case Decimal => DecimalSays(d.value, prefs);
      case Ascii => CStringCut(d.value.bytes);
      case Unicode => CStringCut(d.value.bytes);
      case ByteVector => HexSays(d.value, prefs);
      case Group =>
      case Sequence =>
      case _ => P.NumberReads(Wrap(n.f.typ, d.value.num));
    }
    OneReads(Headline(n, d, level, prefs), ItemOf(n, d, level), prefs);
  }

  /** Every node that the printer can print: its line, if it is shown, and those of what lies below. */
  lemma {:induction false} NodeReads(n: Node, d: DataNode, level: nat, prefs: Preferences)
    requires WellFormed(n) && Matches(n, d) && Printable(n, d, prefs)
    ensures Reads(NodeLines(n, d, level, prefs), Items(n, d, level), prefs)
    decreases n, 1
  {
    if d.status.Exists? {
      var l, it := Headline(n, d, level, prefs), ItemOf(n, d, level);
      HeadlineTells(n, d, level, prefs);
      if n.f.typ.Group? {
        WalkReads(n.children, d.kids, |n.children|, level + 1, prefs);
        ReadsOn([l], [it], LinesTo(n.children, d.kids, |n.children|, level + 1, prefs),
                ItemsTo(n.children, d.kids, |n.children|, level + 1), prefs);
      } else if n.f.typ.Sequence? {
        ElementsRead(n.children[1], d.kids, |d.kids|, level + 1, prefs);
        ReadsOn([l], [it], ElementLines(n.children[1], d.kids, |d.kids|, level + 1, prefs),
                ElementItems(n.children[1], d.kids, |d.kids|, level + 1), prefs);
      }
    } else {
      CStringCut(d.value.bytes);
      var it := ItemOf(n, d, level);
      assert [it] + [] == [it];
      if Hidden(it, prefs) {
        assert [it][1..] == [];
      } else {
        OneReads(NodeLines(n, d, level, prefs)[0], it, prefs);
      }
    }
  }

  lemma {:induction false} WalkReads(ns: seq<Node>, ds: seq<DataNode>, i: nat, level: nat, prefs: Preferences)
    requires AllWellFormed(ns) && AllMatches(ns, ds) && i <= |ns| && PrintableTo(ns, ds, i, prefs)
    ensures Reads(LinesTo(ns, ds, i, level, prefs), ItemsTo(ns, ds, i, level), prefs)
    decreases ns, 0, i
  {
    if i > 0 {
      WalkReads(ns, ds, i - 1, level, prefs);
      NodeReads(ns[i - 1], ds[i - 1], level, prefs);
      ReadsOn(LinesTo(ns, ds, i - 1, level, prefs), ItemsTo(ns, ds, i - 1, level),
              NodeLines(ns[i - 1], ds[i - 1], level, prefs), Items(ns[i - 1], ds[i - 1], level), prefs);
    }
  }

  lemma {:induction false} ElementsRead(g: Node, ds: seq<DataNode>, i: nat, level: nat, prefs: Preferences)
    requires WellFormed(g) && (forall k | 0 <= k < |ds| :: Matches(g, ds[k])) && i <= |ds|
    requires ElementsPrintable(g, ds, i, prefs)
    ensures Reads(ElementLines(g, ds, i, level, prefs), ElementItems(g, ds, i, level), prefs)
    decreases g, 2, i
  {
    if i > 0 {
      ElementsRead(g, ds, i - 1, level, prefs);
      NodeReads(g, ds[i - 1], level, prefs);
      ReadsOn(ElementLines(g, ds, i - 1, level, prefs), ElementItems(g, ds, i - 1, level),
              NodeLines(g, ds[i - 1], level, prefs), Items(g, ds[i - 1], level), prefs);
    }
  }

  // ---------- what was sent is what is shown ----------

  /** What a sender means by a message, field by field. */
  function SentItems(n: Node, m: Msg, level: nat): seq<Item>
    decreases m
  {
    match m
    case Field(v, _) =>
      [if v.Some? then Item(level, n.f, None, Exists, v.value) else Item(level, n.f, None, Empty, BLANK)]
    case Unsized(s) => [Item(level, n.f, None, Exists, Sized(s))]
    case Cut(whole, _, _, _) => [Item(level, n.f, None, Exists, Sized(whole))]
    case Parts(e, t) =>
      [Item(level, n.f, None, Exists,
            if e.Field? && e.v.Some? && t.Field? && t.v.Some? then DecimalOf(e, t) else BLANK)]
    case Members(kids, _) =>
      [Item(level, n.f, None, Exists, BLANK)] +
      if |kids| == |n.children| then SentTo(n.children, kids, |kids|, level + 1) else []
    case Elements(_, elems) =>
      [Item(level, n.f, None, Exists, Number(|elems|))] +
      if |n.children| == 2 then SentElements(n.children[1], elems, |elems|, level + 1) else []
  }

  function SentTo(ns: seq<Node>, ms: seq<Msg>, i: nat, level: nat): seq<Item>
    requires i <= |ns| == |ms|
    decreases ms, i
  {
    if i == 0 then [] else SentTo(ns, ms, i - 1, level) + SentItems(ns[i - 1], ms[i - 1], level)
  }

  function SentElements(g: Node, ms: seq<Msg>, i: nat, level: nat): seq<Item>
    requires i <= |ms|
    decreases ms, i
  {
    if i == 0 then [] else SentElements(g, ms, i - 1, level) + SentItems(g, ms[i - 1], level)
  }

  /** What is received is what was sent, as far as a line can tell: a group's line does not depend on a value, nor a
      sequence's on more than the length. */
  predicate SameTold(a: Item, b: Item) {
    && a.level == b.level && a.f == b.f && a.status == b.status && b.window.None?
    && (a.status.Exists? ==> match a.f.typ
                             case Group => true
                             case Sequence => a.value.num == b.value.num
                             case _ => a.value == b.value)
    && (a.status.Exists? || a.status.Empty?)
  }

  predicate AllTold(a: seq<Item>, b: seq<Item>) { |a| == |b| && forall k | 0 <= k < |a| :: SameTold(a[k], b[k]) }

  lemma {:induction false} ToldOn(a: seq<Item>, b: seq<Item>, x: seq<Item>, y: seq<Item>)
    requires AllTold(a, b) && AllTold(x, y)
    ensures AllTold(a + x, b + y)
  {
  }

  lemma {:induction false} ItemsSent(n: Node, m: Msg, d: DataNode, level: nat)
    requires WellFormed(n) && Matches(n, d) && Shows(n, m, d)
    ensures AllTold(Items(n, d, level), SentItems(n, m, level))
    decreases m
  {
    var it := ItemOf(n, d, level);
    match m
    case Members(kids, _) =>
      ItemsSentTo(n.children, kids, d.kids, |kids|, level + 1);
      ToldOn([it], [Item(level, n.f, None, Exists, BLANK)], ItemsTo(n.children, d.kids, |kids|, level + 1),
             SentTo(n.children, kids, |kids|, level + 1));
    case Elements(_, elems) =>
      ElementsSent(n.children[1], elems, d.kids, |elems|, level + 1);
      ToldOn([it], [Item(level, n.f, None, Exists, Number(|elems|))],
             ElementItems(n.children[1], d.kids, |elems|, level + 1),
             SentElements(n.children[1], elems, |elems|, level + 1));
    case _ => LeafSent(n, m, d, level);
  }

  lemma {:induction false} LeafSent(n: Node, m: Msg, d: DataNode, level: nat)
    requires WellFormed(n) && Matches(n, d) && Shows(n, m, d) && !m.Members? && !m.Elements?
    ensures Items(n, d, level) == [ItemOf(n, d, level)]
    ensures AllTold(Items(n, d, level), SentItems(n, m, level))
  {
    if d.status.Exists? {
      if n.f.typ.Group? {
        assert ItemsTo(n.children, d.kids, 0, level + 1) == [];
      } else if n.f.typ.Sequence? {
        assert ElementItems(n.children[1], d.kids, 0, level + 1) == [];
      }
    }
  }

  lemma {:induction false} ItemsSentTo(ns: seq<Node>, ms: seq<Msg>, ds: seq<DataNode>, i: nat, level: nat)
    requires AllWellFormed(ns) && AllMatches(ns, ds) && i <= |ns| && AllShow(ns, ms, ds)
    ensures AllTold(ItemsTo(ns, ds, i, level), SentTo(ns, ms, i, level))
    decreases ms, i
  {
    if i > 0 {
      ItemsSentTo(ns, ms, ds, i - 1, level);
      ItemsSent(ns[i - 1], ms[i - 1], ds[i - 1], level);
      ToldOn(ItemsTo(ns, ds, i - 1, level), SentTo(ns, ms, i - 1, level), Items(ns[i - 1], ds[i - 1], level),
             SentItems(ns[i - 1], ms[i - 1], level));
    }
  }

  lemma {:induction false} ElementsSent(g: Node, ms: seq<Msg>, ds: seq<DataNode>, i: nat, level: nat)
    requires WellFormed(g) && |ds| == |ms| && i <= |ms|
    requires forall k | 0 <= k < |ds| :: Matches(g, ds[k]) && Shows(g, ms[k], ds[k])
    ensures AllTold(ElementItems(g, ds, i, level), SentElements(g, ms, i, level))
    decreases ms, i
  {
    if i > 0 {
      ElementsSent(g, ms, ds, i - 1, level);
      ItemsSent(g, ms[i - 1], ds[i - 1], level);
      ToldOn(ElementItems(g, ds, i - 1, level), SentElements(g, ms, i - 1, level), Items(g, ds[i - 1], level),
             SentItems(g, ms[i - 1], level));
    }
  }

  lemma {:induction false} ReadsTold(lines: seq<Line>, a: seq<Item>, b: seq<Item>, prefs: Preferences)
    requires Reads(lines, a, prefs) && AllTold(a, b)
    ensures Reads(lines, b, prefs)
    decreases |a|
  {
    if a != [] {
      assert SameTold(a[0], b[0]);
      assert AllTold(a[1..], b[1..]) by {
        assert forall k | 0 <= k < |a| - 1 :: a[1..][k] == a[k + 1] && b[1..][k] == b[k + 1];
      }
      ReadsTold(if Hidden(a[0], prefs) then lines else lines[1..], a[1..], b[1..], prefs);
    }
  }

  /** From the sender to the screen: a message that may be sent, followed by anything, is displayed, when the printer
      can print it, as exactly the fields and values that were sent, in template order. */
  lemma {:induction false} MessageReads(table: Templates, t: Telling, tid: int, p: Pos, d: Local, rest: seq<byte>,
                                        level: nat, prefs: Preferences)
    requires LegalMessage(table, t, tid, d, |rest|) && p.bytes == SendMessage(table, t, d).bytes + rest
    ensures var fields, r := table[t.tid], DissectMessage(table, tid, p, d);
            && r.Done? && AllWellFormed(fields) && AllMatches(fields, r.value.data.kids)
            && (PrintableTo(fields, r.value.data.kids, |fields|, prefs) ==>
                  Reads(LinesTo(fields, r.value.data.kids, |fields|, level, prefs),
                        SentTo(fields, t.parts, |fields|, level), prefs))
  {
    MessageDecodes(table, t, tid, p, d, rest);
    MessageDisplayable(table, tid, p, d);
    var fields, kids := table[t.tid], DissectMessage(table, tid, p, d).value.data.kids;
    assert AllWellFormed(fields);
    if PrintableTo(fields, kids, |fields|, prefs) {
      WalkReads(fields, kids, |fields|, level, prefs);
      ItemsSentTo(fields, t.parts, kids, |fields|, level);
      ReadsTold(LinesTo(fields, kids, |fields|, level, prefs), ItemsTo(fields, kids, |fields|, level),
                SentTo(fields, t.parts, |fields|, level), prefs);
    }
  }

  // ---------- what is shown tells what was received ----------

  /** Values that no line can tell apart: the same number, the same bytes, strings that differ after a NUL only. */
  predicate SameValue(t: Typ, v: FieldValue, w: FieldValue, prefs: Preferences) {
    match t
    case Decimal =>
      || (Mantissa(v) == Mantissa(w) && Exponent(v) == Exponent(w))
      || (!prefs.sciNotation && (Exponent(v) == 0 || Exponent(w) == 0
                                 || P.SameNumber(Mantissa(v), Exponent(v), Mantissa(w), Exponent(w))))
    case Ascii => CString(v.bytes) == CString(w.bytes)
    case Unicode => CString(v.bytes) == CString(w.bytes)
    case ByteVector => v.bytes == w.bytes
    case Group => true
    case _ => Wrap(if t.Sequence? then UInt32 else t, v.num) == Wrap(if t.Sequence? then UInt32 else t, w.num)
  }

  predicate SameItem(a: Item, b: Item, prefs: Preferences) {
    && a.level == b.level && a.f == b.f && a.status == b.status
    && (a.status.Exists? ==> SameValue(a.f.typ, a.value, b.value, prefs))
  }

  lemma {:induction false} CutDetermined(s: seq<byte>, v: seq<byte>)
    requires UpToNul(s, v)
    ensures s == CString(v)
    decreases |v|
  {
    if s != [] {
      assert v[0] == s[0] && s[0] in s;
      CutDetermined(s[1..], v[1..]);
      assert CString(v) == [v[0]] + CString(v[1..]);
    }
  }

  lemma {:induction false} ScaledUp(m: int, e: int, m': int, e': int, k: int)
    requires P.SameNumber(m, e, m', e') && e + k >= 0 && e' + k >= 0
    ensures D.Scale(m, e + k) == D.Scale(m', e' + k)
  {
    if e <= e' {
      D.ScaleSum(m', e' - e, e + k);
    } else {
      D.ScaleSum(m, e - e', e' + k);
    }
  }

  /** Two decimals found in the same text are the same number. */
  lemma {:induction false} SameDecimal(c: FieldValue, m: int, e: int, m': int, e': int)
    requires P.SameNumber(c.num, c.exponent, m, e) && P.SameNumber(c.num, c.exponent, m', e')
    ensures P.SameNumber(m, e, m', e')
  {
    var k: nat := P.Abs(c.exponent) + P.Abs(e) + P.Abs(e');
    ScaledUp(c.num, c.exponent, m, e, k);
    ScaledUp(c.num, c.exponent, m', e', k);
    P.Scaled(m, e + k, m', e' + k);
    P.SameShifted(m, e, m', e', k);
  }

  lemma {:induction false} DecimalDetermined(text: Text, v: FieldValue, w: FieldValue, prefs: Preferences)
    requires Says(text, Decimal, v, prefs) && Says(text, Decimal, w, prefs)
    ensures SameValue(Decimal, v, w, prefs)
  {
    if text.Pointed? && Exponent(v) != 0 && Exponent(w) != 0 {
      SameDecimal(D.Parse(text.text).value, Mantissa(v), Exponent(v), Mantissa(w), Exponent(w));
    }
  }

  lemma {:induction false} LineDetermines(l: Line, a: Item, b: Item, prefs: Preferences)
    requires About(l, a, prefs) && About(l, b, prefs)
    ensures SameItem(a, b, prefs)
  {
    if a.status.Exists? && b.status.Exists? {
      match a.f.typ
      case Decimal => DecimalDetermined(l.text, a.value, b.value, prefs);
      case Ascii => CutDetermined(l.text.chars, a.value.bytes); CutDetermined(l.text.chars, b.value.bytes);
      case Unicode => CutDetermined(l.text.chars, a.value.bytes); CutDetermined(l.text.chars, b.value.bytes);
      case _ =>
    }
  }

  /** With absent fields shown too, two messages that look the same are the same, field by field. */
  lemma {:induction false} DisplayDetermines(lines: seq<Line>, a: seq<Item>, b: seq<Item>, prefs: Preferences)
    requires prefs.showEmpty && Reads(lines, a, prefs) && Reads(lines, b, prefs)
    ensures |a| == |b| && forall k | 0 <= k < |a| :: SameItem(a[k], b[k], prefs)
    decreases |a|
  {
    if a != [] {
      LineDetermines(lines[0], a[0], b[0], prefs);
      DisplayDetermines(lines[1..], a[1..], b[1..], prefs);
      forall k | 0 <= k < |a|
        ensures SameItem(a[k], b[k], prefs)
      {
        if k > 0 {
          assert SameItem(a[1..][k - 1], b[1..][k - 1], prefs);
        }
      }
    }
  }
}
