/** From template XML to template trees. The XML is abstract: an element is its recognised name, its attributes
    and its child elements; text, comments and references are Skipped. */
module Parser {
  import opened Fields
  import opened Template

  /** A string element stands for Ascii or Unicode according to its charset. */
  datatype Tag = TypeTag(typ: Typ) | OpTag(op: Op) | ExponentTag | MantissaTag | LengthTag | Skipped | OtherTag

  /** Presence is None when missing or misspelt; the value is the initial value once converted to the field's type. */
  datatype Attrs = Attrs(name: Option<string>, id: Option<int>, key: Option<string>, mandatory: Option<bool>,
                         dictionary: Option<string>, value: Option<FieldValue>)

  datatype Xml = Xml(tag: Tag, attrs: Attrs, children: seq<Xml>)

  /** ignore_xml_node: length elements are looked for separately. */
  predicate IgnoreXmlNode(x: Xml) { x.tag.Skipped? || x.tag.LengthTag? }

  function CreateField(typ: Typ, dictionary: string): FieldType {
    FieldType(None, typ, NoOp, true, 0, 0, None, dictionary, false, BLANK, false)
  }

  // ---------- what a parsed template must be like ----------

  /** Every field that is looked up in a dictionary knows its template. */
  predicate KnowsTemplate(n: Node, tid: int) {
    (n.f.key.Some? ==> n.f.tid == tid) && forall i | 0 <= i < |n.children| :: KnowsTemplate(n.children[i], tid)
  }

  predicate Sound(n: Node, tid: int) { WellFormed(n) && Unflagged(n) && KnowsTemplate(n, tid) }

  predicate AllSound(ns: seq<Node>, tid: int) { forall i | 0 <= i < |ns| :: Sound(ns[i], tid) }

  // ---------- which elements make a field ----------

  predicate IsOperator(x: Xml) { x.tag.OpTag? && !x.tag.op.NoOp? }

  predicate Permitted(op: Op, typ: Typ) {
    (op.Increment? ==> IsInteger(typ)) && (op.Tail? ==> !IsInteger(typ) && !typ.Decimal?)
  }

  /** The first child that is not ignored is taken for the operator. */
  function OperatorOf(xs: seq<Xml>): Option<Xml> {
    if xs == [] then None else if IgnoreXmlNode(xs[0]) then OperatorOf(xs[1..]) else Some(xs[0])
  }

  predicate OperatorOk(xs: seq<Xml>, typ: Typ) {
    match OperatorOf(xs)
    case None => true
    case Some(o) => IsOperator(o) && Permitted(o.tag.op, typ)
  }

  function Or<T>(a: Option<T>, b: Option<T>): Option<T> { if a.Some? then a else b }

  /** What the attributes of an element say; what is not given stays as it was. The name is the key where no key is
      given, even a name that an earlier element gave the same field. */
  function WithAttributes(x: Xml, f: FieldType, tid: int): FieldType {
    var name := Or(x.attrs.name, f.name);
    f.(name := name,
       tid := tid,
       id := if x.attrs.id.Some? then x.attrs.id.value else f.id,
       key := Or(x.attrs.key, Or(name, f.key)),
       mandatory := if x.attrs.mandatory.Some? then x.attrs.mandatory.value else f.mandatory,
       dictionary := if x.attrs.dictionary.Some? then x.attrs.dictionary.value else f.dictionary)
  }

  /** An operator element sets the operator even when it is refused, and an initial value only when it is not. A
      constant or mandatory default without a value is reported, and keeps what the field had. */
  function WithOperator(o: Xml, f: FieldType): FieldType {
    if !IsOperator(o) then f
    else
      var g := f.(op := o.tag.op);
      if !Permitted(g.op, g.typ) then g
      else if o.attrs.value.Some? then g.(hasDefault := true, value := o.attrs.value.value)
      else g.(hasDefault := g.hasDefault && (g.op.Constant? || (g.op.Default? && g.mandatory)))
  }

  function WithOperatorOf(x: Xml, f: FieldType): FieldType {
    match OperatorOf(x.children)
    case None => f
    case Some(o) => WithOperator(o, f)
  }

  /** A length, exponent or mantissa element: its attributes, then its operator. */
  function WithPart(x: Xml, f: FieldType, tid: int): FieldType { WithOperatorOf(x, WithAttributes(x, f, tid)) }

  /** After the elements of this kind among the first i. */
  function WithParts(tag: Tag, xs: seq<Xml>, i: nat, f: FieldType, tid: int): FieldType
    requires i <= |xs|
  {
    if i == 0 then f
    else
      var g := WithParts(tag, xs, i - 1, f, tid);
      if xs[i - 1].tag == tag then WithPart(xs[i - 1], g, tid) else g
  }

  /** A vector's or sequence's length field, as its length elements make it. */
  function LengthField(x: Xml, parent: FieldType, tid: int): FieldType {
    WithParts(LengthTag, x.children, |x.children|, CreateField(UInt32, parent.dictionary), tid)
  }

  /** With its parent's presence, and under a key made from its parent's name when it has none. */
  function LengthOf(x: Xml, parent: FieldType, tid: int): FieldType {
    var l, name := LengthField(x, parent, tid), if parent.name.Some? then parent.name.value else "(null)";
    l.(key := Or(l.key, Some(name + "-length")), tid := tid, mandatory := parent.mandatory)
  }

  /** The whole decimal's operator: every element among the first i that is no part is taken for one. */
  function WholeOperator(xs: seq<Xml>, i: nat, f: FieldType): FieldType
    requires i <= |xs|
  {
    if i == 0 then f
    else
      var g, x := WholeOperator(xs, i - 1, f), xs[i - 1];
      if IgnoreXmlNode(x) || x.tag.ExponentTag? || x.tag.MantissaTag? then g else WithOperator(x, g)
  }

  predicate LengthsOk(xs: seq<Xml>) {
    forall i | 0 <= i < |xs| && xs[i].tag.LengthTag? :: OperatorOk(xs[i].children, UInt32)
  }

  predicate PartsOk(xs: seq<Xml>) {
    && (forall i | 0 <= i < |xs| && xs[i].tag.ExponentTag? :: OperatorOk(xs[i].children, Int32))
    && forall i | 0 <= i < |xs| && xs[i].tag.MantissaTag? :: OperatorOk(xs[i].children, Int64)
  }

  predicate MakesField(x: Xml) {
    && x.tag.TypeTag?
    && match x.tag.typ
       case Decimal => PartsOk(x.children)
       case Group => true
       case Sequence => LengthsOk(x.children)
       case Unicode => OperatorOk(x.children, Unicode) && LengthsOk(x.children)
       case ByteVector => OperatorOk(x.children, ByteVector) && LengthsOk(x.children)
       case t => OperatorOk(x.children, t)
  }

  /** A field's type, presence and key, as its element gives them. */
  datatype Head = Head(typ: Typ, mandatory: bool, key: Option<string>)

  function HeadOf(n: Node): Head { Head(n.f.typ, n.f.mandatory, n.f.key) }

  function ElementHead(x: Xml): Head
    requires x.tag.TypeTag?
  {
    Head(x.tag.typ, x.attrs.mandatory != Some(false), Or(x.attrs.key, x.attrs.name))
  }

  /** The fields among sibling elements, in document order. */
  function FieldHeads(xs: seq<Xml>, i: nat): seq<Head>
    requires i <= |xs|
  {
    if i == 0 then []
    else FieldHeads(xs, i - 1) + (if MakesField(xs[i - 1]) then [ElementHead(xs[i - 1])] else [])
  }

  /** Some fields, head by head. */
  predicate HeadsAre(ns: seq<Node>, hs: seq<Head>) {
    |ns| == |hs| && forall i | 0 <= i < |ns| :: HeadOf(ns[i]) == hs[i]
  }

  // ---------- what a template says, at every depth ----------

  /** One field, and how deep it lies: what its element says about it. */
  datatype Entry = Entry(depth: nat, name: Option<string>, typ: Typ, op: Op, mandatory: bool, id: int, tid: int,
                         key: Option<string>, dictionary: string, initial: Option<FieldValue>)

  function EntryOf(f: FieldType): Entry {
    Entry(0, f.name, f.typ, f.op, f.mandatory, f.id, f.tid, f.key, f.dictionary,
          if f.hasDefault then Some(f.value) else None)
  }

  function Deeper(e: Entry): Entry { e.(depth := e.depth + 1) }

  function Indented(es: seq<Entry>): (r: seq<Entry>)
    ensures |r| == |es|
  {
    seq(|es|, i requires 0 <= i < |es| => Deeper(es[i]))
  }

  /** Every field of a tree, each before those below it. */
  function Listing(n: Node): seq<Entry>
    decreases n, 1
  {
    [EntryOf(n.f)] + Indented(ListingTo(n.children, |n.children|))
  }

  function ListingTo(ns: seq<Node>, i: nat): seq<Entry>
    requires i <= |ns|
    decreases ns, 0, i
  {
    if i == 0 then [] else ListingTo(ns, i - 1) + Listing(ns[i - 1])
  }

  /** A dictionary is inherited from the nearest element that gives one. */
  function DictionaryOf(x: Xml, inherited: string): string {
    if x.attrs.dictionary.Some? then x.attrs.dictionary.value else inherited
  }

  /** What an element says about a field of this type. */
  function ElementEntry(x: Xml, t: Typ, inherited: string, tid: int): Entry {
    var a, o := x.attrs, if t.Group? || t.Sequence? then None else OperatorOf(x.children);
    Entry(0, a.name, t, if o.Some? && o.value.tag.OpTag? then o.value.tag.op else NoOp, a.mandatory != Some(false),
          if a.id.Some? then a.id.value else 0, tid, Or(a.key, a.name), DictionaryOf(x, inherited),
          if o.Some? then o.value.attrs.value else None)
  }

  function OwnEntry(x: Xml, inherited: string, tid: int): Entry
    requires x.tag.TypeTag?
  {
    ElementEntry(x, x.tag.typ, inherited, tid)
  }

  function OwnField(x: Xml, inherited: string, tid: int): FieldType
    requires x.tag.TypeTag?
  {
    WithAttributes(x, CreateField(x.tag.typ, inherited), tid)
  }

  /** The entries an element stands for, in document order: its own, then its parts and its members. A sequence's
      members lie below a group that no element names. */
  function Declared(x: Xml, inherited: string, tid: int): seq<Entry>
    requires x.tag.TypeTag?
    decreases x, 1
  {
    var own, length := [OwnEntry(x, inherited, tid)], [EntryOf(LengthOf(x, OwnField(x, inherited, tid), tid))];
    match x.tag.typ
    case Group => own + Indented(DeclaredTo(x.children, |x.children|, DictionaryOf(x, inherited), tid))
    case Sequence =>
      var members := DeclaredTo(x.children, |x.children|, DictionaryOf(x, inherited), tid);
      own + Indented(length + ([EntryOf(CreateField(Group, ""))] + Indented(members)))
    case Unicode => own + Indented(length)
    case ByteVector => own + Indented(length)
    case Decimal => Listing(DecimalNode(x.children, OwnField(x, inherited, tid), tid))
    case _ => own
  }

  /** The first i of sibling elements; what makes no field leaves no trace. */
  function DeclaredTo(xs: seq<Xml>, i: nat, inherited: string, tid: int): seq<Entry>
    requires i <= |xs|
    decreases xs, 0, i
  {
    if i == 0 then []
    else
      var x := xs[i - 1];
      DeclaredTo(xs, i - 1, inherited, tid) + (if MakesField(x) then Declared(x, inherited, tid) else [])
  }

  /** The same fields, one below the other in the same way. */
  predicate Alike(a: Node, b: Node) { EntryOf(a.f) == EntryOf(b.f) && AllAlike(a.children, b.children, |a.children|) }

  predicate AllAlike(a: seq<Node>, b: seq<Node>, i: nat)
    requires i <= |a|
  {
    |a| == |b| && forall k | 0 <= k < i :: Alike(a[k], b[k])
  }

  /** A tree can be read off its listing: nothing is lost, moved or put at another depth without a trace. */
  lemma {:induction false} ListingDetermines(a: seq<Node>, b: seq<Node>)
    ensures ListingTo(a, |a|) == ListingTo(b, |b|) <==> AllAlike(a, b, |a|)
  {
    if ListingTo(a, |a|) == ListingTo(b, |b|) {
      ListingsAgree(a, |a|, b, |b|);
    }
    if AllAlike(a, b, |a|) {
      AlikeListings(a, b, |a|);
    }
  }

  lemma {:induction false} ListingsAgree(a: seq<Node>, i: nat, b: seq<Node>, j: nat)
    requires i <= |a| && j <= |b| && ListingTo(a, i) == ListingTo(b, j)
    ensures i == j && forall k | 0 <= k < i :: Alike(a[k], b[k])
    decreases a, i
  {
    if i > 0 && j > 0 {
      var p, q := ListingTo(a, i - 1), ListingTo(b, j - 1);
      LastAtTop(p, Listing(a[i - 1]), q, Listing(b[j - 1]));
      SameBelow(a[i - 1], b[j - 1]);
      ListingsAgree(a[i - 1].children, |a[i - 1].children|, b[j - 1].children, |b[j - 1].children|);
      ListingsAgree(a, i - 1, b, j - 1);
    }
  }

  lemma {:induction false} SameBelow(a: Node, b: Node)
    requires Listing(a) == Listing(b)
    ensures EntryOf(a.f) == EntryOf(b.f)
    ensures ListingTo(a.children, |a.children|) == ListingTo(b.children, |b.children|)
  {
    var s, t := ListingTo(a.children, |a.children|), ListingTo(b.children, |b.children|);
    assert Listing(a)[0] == EntryOf(a.f) && Listing(b)[0] == EntryOf(b.f);
    assert Indented(s) == Listing(a)[1..] == Listing(b)[1..] == Indented(t);
    Outdented(s, t);
  }

  lemma {:induction false} Outdented(s: seq<Entry>, t: seq<Entry>)
    requires Indented(s) == Indented(t)
    ensures s == t
  {
    assert |s| == |Indented(s)| == |t|;
    forall k | 0 <= k < |s|
      ensures s[k] == t[k]
    {
      assert Indented(s)[k] == Deeper(s[k]) && Indented(t)[k] == Deeper(t[k]);
    }
  }

  /** A field's own entry is at the top, and what is below it is not. */
  predicate TopsBranch(es: seq<Entry>) { es != [] && es[0].depth == 0 && forall k | 0 < k < |es| :: es[k].depth > 0 }

  lemma {:induction false} ListingBranches(n: Node)
    ensures TopsBranch(Listing(n))
  {
  }

  lemma {:induction false} LastAtTop(p: seq<Entry>, s: seq<Entry>, q: seq<Entry>, t: seq<Entry>)
    requires p + s == q + t && TopsBranch(s) && TopsBranch(t)
    ensures p == q && s == t
  {
    assert (p + s)[|p|] == s[0] && (q + t)[|q|] == t[0];
    assert |p| == |q|;
    assert p == (p + s)[..|p|] && q == (q + t)[..|q|] && s == (p + s)[|p|..] && t == (q + t)[|q|..];
  }

  lemma {:induction false} AlikeListings(a: seq<Node>, b: seq<Node>, i: nat)
    requires i <= |a| && AllAlike(a, b, i)
    ensures ListingTo(a, i) == ListingTo(b, i)
    decreases a, i
  {
    if i > 0 {
      AlikeListings(a, b, i - 1);
      assert Alike(a[i - 1], b[i - 1]);
      AlikeListings(a[i - 1].children, b[i - 1].children, |a[i - 1].children|);
    }
  }

  /** Flags leave no trace in it. */
  lemma {:induction false} FlagsUnlisted(a: seq<Node>, b: seq<Node>, i: nat)
    requires i <= |a| == |b| && forall k | 0 <= k < |a| :: SameButFlags(a[k], b[k])
    ensures ListingTo(a, i) == ListingTo(b, i)
    decreases a, i
  {
    if i > 0 {
      FlagsUnlisted(a, b, i - 1);
      assert SameButFlags(a[i - 1], b[i - 1]);
      FlagsUnlisted(a[i - 1].children, b[i - 1].children, |a[i - 1].children|);
    }
  }

  lemma {:induction false} ListingExtends(ns: seq<Node>, n: Node, i: nat)
    requires i <= |ns|
    ensures ListingTo(ns + [n], i) == ListingTo(ns, i)
  {
    if i > 0 {
      ListingExtends(ns, n, i - 1);
      assert (ns + [n])[i - 1] == ns[i - 1];
    }
  }

  lemma {:induction false} OneMore(ns: seq<Node>, n: Node)
    ensures ListingTo(ns + [n], |ns + [n]|) == ListingTo(ns, |ns|) + Listing(n)
  {
    ListingExtends(ns, n, |ns|);
  }

  lemma {:induction false} ListingOne(n: Node)
    ensures ListingTo([n], 1) == Listing(n)
  {
    assert ListingTo([n], 0) == [];
  }

  lemma {:induction false} LeafListing(f: FieldType)
    ensures Listing(Node(f, [])) == [EntryOf(f)]
  {
    assert ListingTo([], 0) == [];
  }

  lemma {:induction false} VectorListing(f: FieldType, length: Node)
    requires length.children == []
    ensures Listing(Node(f, [length])) == [EntryOf(f)] + Indented([EntryOf(length.f)])
  {
    LeafListing(length.f);
    assert length == Node(length.f, []);
    ListingOne(length);
  }

  lemma {:induction false} SequenceListing(f: FieldType, length: Node, g: FieldType, kids: seq<Node>)
    requires length.children == []
    ensures Listing(Node(f, [length, Node(g, kids)])) ==
              [EntryOf(f)] + Indented([EntryOf(length.f)] + ([EntryOf(g)] + Indented(ListingTo(kids, |kids|))))
  {
    LeafListing(length.f);
    assert length == Node(length.f, []);
    ListingOne(length);
    OneMore([length], Node(g, kids));
    assert [length] + [Node(g, kids)] == [length, Node(g, kids)];
  }

  lemma {:induction false} OwnIs(x: Xml, inherited: string, tid: int)
    requires x.tag.TypeTag?
    ensures var f, e := OwnField(x, inherited, tid), OwnEntry(x, inherited, tid);
            && f.dictionary == DictionaryOf(x, inherited)
            && (x.tag.typ.Group? || x.tag.typ.Sequence? ==> EntryOf(f) == e)
            && (OperatorOk(x.children, x.tag.typ) && !x.tag.typ.Group? && !x.tag.typ.Sequence? ==>
                  EntryOf(WithOperatorOf(x, f)) == e)
  {
  }

  lemma {:induction false} PartsSnoc(xs: seq<Xml>, i: nat)
    requires i < |xs| && PartsOk(xs[..i])
    ensures var c := xs[i];
            var good := (c.tag.ExponentTag? ==> OperatorOk(c.children, Int32))
                        && (c.tag.MantissaTag? ==> OperatorOk(c.children, Int64));
            if good then PartsOk(xs[..i + 1]) else !PartsOk(xs)
  {
    assert forall k | 0 <= k < i :: xs[..i + 1][k] == xs[..i][k];
  }

  // ---------- the parser ----------

  /** An operator changes nothing but the operator and the initial value. */
  lemma {:induction false} OperatorKeeps(x: Xml, f: FieldType)
    ensures var g := WithOperatorOf(x, f);
            && g == f.(op := g.op, hasDefault := g.hasDefault, value := g.value)
            && (OperatorOk(x.children, f.typ) ==> g.op == f.op || Permitted(g.op, f.typ))
  {
  }

  lemma {:induction false} PartsKeep(tag: Tag, xs: seq<Xml>, i: nat, f: FieldType, tid: int)
    requires i <= |xs| && f.op.NoOp?
    ensures var g := WithParts(tag, xs, i, f, tid);
            && g.typ == f.typ && g.pmapExists == f.pmapExists
            && ((forall k | 0 <= k < i && xs[k].tag == tag :: OperatorOk(xs[k].children, f.typ)) ==>
                  Permitted(g.op, f.typ))
  {
    if i > 0 {
      PartsKeep(tag, xs, i - 1, f, tid);
      OperatorKeeps(xs[i - 1], WithAttributes(xs[i - 1], WithParts(tag, xs, i - 1, f, tid), tid));
    }
  }

  /** A part without a key of its own is kept under the decimal's. */
  function NamedPart(part: FieldType, decimal: FieldType, suffix: string): FieldType {
    if decimal.key.Some? && part.key.None? then part.(key := Some(decimal.key.value + suffix)) else part
  }

  /** A decimal with its operator and its two parts. */
  function DecimalNode(xs: seq<Xml>, f: FieldType, tid: int): Node {
    var expt := WithParts(ExponentTag, xs, |xs|, CreateField(Int32, f.dictionary), tid).
      (tid := tid, mandatory := f.mandatory);
    var mant := WithParts(MantissaTag, xs, |xs|, CreateField(Int64, f.dictionary), tid).(tid := tid);
    var parts := [Node(NamedPart(expt, f, "-exponent"), []), Node(NamedPart(mant, f, "-mantissa"), [])];
    Node(WholeOperator(xs, |xs|, f), parts)
  }

  lemma {:induction false} WholeKeeps(xs: seq<Xml>, i: nat, f: FieldType)
    requires i <= |xs|
    ensures var g := WholeOperator(xs, i, f); g == f.(op := g.op, hasDefault := g.hasDefault, value := g.value)
  {
    if i > 0 {
      WholeKeeps(xs, i - 1, f);
    }
  }

  lemma {:induction false} DecimalSound(xs: seq<Xml>, f: FieldType, tid: int)
    requires PartsOk(xs) && f.typ.Decimal? && f.tid == tid && !f.pmapExists
    ensures Sound(DecimalNode(xs, f, tid), tid) && HeadOf(DecimalNode(xs, f, tid)) == HeadOf(Node(f, []))
  {
    WholeKeeps(xs, |xs|, f);
    PartsKeep(ExponentTag, xs, |xs|, CreateField(Int32, f.dictionary), tid);
    PartsKeep(MantissaTag, xs, |xs|, CreateField(Int64, f.dictionary), tid);
  }

  /** With a key, a decimal's parts have one; and a mantissa without element of its own is mandatory, whatever the
      decimal is. */
  lemma {:induction false} DecimalKeys(xs: seq<Xml>, f: FieldType, tid: int)
    ensures var n := DecimalNode(xs, f, tid);
            && (f.key.Some? ==> n.children[0].f.key.Some? && n.children[1].f.key.Some?)
            && n.children[0].f.mandatory == f.mandatory
            && ((forall i | 0 <= i < |xs| :: !xs[i].tag.MantissaTag?) ==> n.children[1].f.mandatory)
  {
    if forall i | 0 <= i < |xs| :: !xs[i].tag.MantissaTag? {
      NoParts(MantissaTag, xs, |xs|, CreateField(Int64, f.dictionary), tid);
    }
  }

  lemma {:induction false} NoParts(tag: Tag, xs: seq<Xml>, i: nat, f: FieldType, tid: int)
    requires i <= |xs| && forall k | 0 <= k < i :: xs[k].tag != tag
    ensures WithParts(tag, xs, i, f, tid) == f
  {
    if i > 0 {
      NoParts(tag, xs, i - 1, f, tid);
    }
  }

  // ---------- the parts of a field ----------

  /** The one element of this kind among siblings. */
  predicate Sole(tag: Tag, xs: seq<Xml>, k: nat) {
    k < |xs| && xs[k].tag == tag && forall i | 0 <= i < |xs| :: xs[i].tag == tag ==> i == k
  }

  lemma {:induction false} SolePart(tag: Tag, xs: seq<Xml>, k: nat, i: nat, f: FieldType, tid: int)
    requires Sole(tag, xs, k) && k < i <= |xs|
    ensures WithParts(tag, xs, i, f, tid) == WithPart(xs[k], f, tid)
  {
    if i == k + 1 {
      NoParts(tag, xs, k, f, tid);
    } else {
      SolePart(tag, xs, k, i - 1, f, tid);
    }
  }

  lemma {:induction false} PartEntry(tag: Tag, xs: seq<Xml>, k: nat, t: Typ, inherited: string, tid: int)
    requires Sole(tag, xs, k) && OperatorOk(xs[k].children, t) && IsInteger(t)
    ensures EntryOf(WithParts(tag, xs, |xs|, CreateField(t, inherited), tid)) == ElementEntry(xs[k], t, inherited, tid)
  {
    SolePart(tag, xs, k, |xs|, CreateField(t, inherited), tid);
  }

  /** A length element says what it says about the length field, which has the presence of the vector or sequence and,
      without a key or name of its own, a key made from its name. */
  lemma {:induction false} LengthDeclared(x: Xml, parent: FieldType, tid: int, k: nat)
    requires Sole(LengthTag, x.children, k) && OperatorOk(x.children[k].children, UInt32)
    ensures var said := ElementEntry(x.children[k], UInt32, parent.dictionary, tid);
            var e := EntryOf(LengthOf(x, parent, tid));
            && e == said.(mandatory := parent.mandatory, key := e.key)
            && (said.key.Some? ==> e.key == said.key)
            && (said.key.None? && parent.name.Some? ==> e.key == Some(parent.name.value + "-length"))
  {
    PartEntry(LengthTag, x.children, k, UInt32, parent.dictionary, tid);
  }

  /** So do an exponent and a mantissa element about the parts of a decimal: the exponent has the decimal's presence,
      and both have, without a key or name of their own, one made from its key. */
  lemma {:induction false} PartsDeclared(xs: seq<Xml>, f: FieldType, tid: int, i: nat, j: nat)
    requires Sole(ExponentTag, xs, i) && Sole(MantissaTag, xs, j) && PartsOk(xs)
    ensures var n := DecimalNode(xs, f, tid);
            var expt := ElementEntry(xs[i], Int32, f.dictionary, tid);
            var mant := ElementEntry(xs[j], Int64, f.dictionary, tid);
            && |n.children| == 2
            && EntryOf(n.children[0].f) ==
                 expt.(mandatory := f.mandatory,
                       key := if expt.key.None? && f.key.Some? then Some(f.key.value + "-exponent") else expt.key)
            && EntryOf(n.children[1].f) ==
                 mant.(key := if mant.key.None? && f.key.Some? then Some(f.key.value + "-mantissa") else mant.key)
  {
    PartEntry(ExponentTag, xs, i, Int32, f.dictionary, tid);
    PartEntry(MantissaTag, xs, j, Int64, f.dictionary, tid);
  }

  /** A decimal's own operator is the child that is neither ignored nor a part. */
  predicate SoleOperator(xs: seq<Xml>, k: nat) {
    && k < |xs| && IsOperator(xs[k]) && Permitted(xs[k].tag.op, Decimal)
    && forall i | 0 <= i < |xs| && i != k :: IgnoreXmlNode(xs[i]) || xs[i].tag.ExponentTag? || xs[i].tag.MantissaTag?
  }

  lemma {:induction false} OperatorDeclared(xs: seq<Xml>, k: nat, i: nat, f: FieldType)
    requires SoleOperator(xs, k) && i <= |xs| && f.typ.Decimal? && !f.hasDefault
    ensures var g := WholeOperator(xs, i, f);
            if i <= k then g == f
            else EntryOf(g) == EntryOf(f).(op := xs[k].tag.op, initial := xs[k].attrs.value)
  {
    if i > 0 {
      OperatorDeclared(xs, k, i - 1, f);
    }
  }

  function IdOf(x: Xml): int { if x.attrs.id.Some? then x.attrs.id.value else 0 }

  /** What the template element declares; without a dictionary of its own it starts from the global one. */
  function TemplateEntries(x: Xml): seq<Entry> {
    DeclaredTo(x.children, |x.children|, DictionaryOf(x, "global"), IdOf(x))
  }

  class TemplateParser {
    var templateId: int      // static gint

    constructor ()
      ensures templateId == -1
    {
      templateId := -1;
    }

    method SetFieldAttributes(x: Xml, f: FieldType) returns (g: FieldType)
      ensures g == WithAttributes(x, f, templateId)
    {
      g := f;
      if x.attrs.name.Some? { g := g.(name := x.attrs.name); }
      g := g.(tid := templateId);
      if x.attrs.id.Some? { g := g.(id := x.attrs.id.value); }
      if x.attrs.key.Some? {
        g := g.(key := x.attrs.key);
      } else if g.name.Some? {
        g := g.(key := g.name);
      }
      if x.attrs.mandatory.Some? { g := g.(mandatory := x.attrs.mandatory.value); }
      if x.attrs.dictionary.Some? { g := g.(dictionary := x.attrs.dictionary.value); }
    }

    method ParseOperator(x: Xml, f: FieldType) returns (ok: bool, g: FieldType)
      ensures ok == (IsOperator(x) && Permitted(x.tag.op, f.typ))
      ensures g == WithOperator(x, f)
    {
      g := f;
      if !IsOperator(x) { return false, g; }
      g := g.(op := x.tag.op);
      if g.op.Increment? && !IsInteger(g.typ) { return false, g; }
      if g.op.Tail? && (IsInteger(g.typ) || g.typ.Decimal?) { return false, g; }
      ok := true;
      if x.attrs.value.Some? {
        g := g.(hasDefault := true, value := x.attrs.value.value);
      } else if !g.op.Constant? && !(g.op.Default? && g.mandatory) {
        g := g.(hasDefault := false);
      }
    }

    method ParseFieldOperator(x: Xml, f: FieldType) returns (ok: bool, g: FieldType)
      ensures ok == OperatorOk(x.children, f.typ)
      ensures g == WithOperatorOf(x, f)
    {
      g := f;
      var i := 0;
      assert x.children[0..] == x.children;
      while i < |x.children|
        invariant 0 <= i <= |x.children| && g == f
        invariant OperatorOf(x.children) == OperatorOf(x.children[i..])
      {
        if !IgnoreXmlNode(x.children[i]) {
          ok, g := ParseOperator(x.children[i], f);
          return;
        }
        assert x.children[i..][1..] == x.children[i + 1..];
        i := i + 1;
      }
      ok := true;
    }

    method ParsePart(x: Xml, f: FieldType) returns (ok: bool, g: FieldType)
      ensures ok == OperatorOk(x.children, f.typ)
      ensures g == WithPart(x, f, templateId)
    {
      g := SetFieldAttributes(x, f);
      ok, g := ParseFieldOperator(x, g);
    }

    /** The length field in front of a vector's or a sequence's other child. It always has a key, its parent's
        presence, and what the length elements say. */
    method PrependLength(x: Xml, parent: FieldType) returns (ok: bool, n: Node)
      ensures ok == LengthsOk(x.children)
      ensures ok ==> Sound(n, templateId) && n.f.typ.UInt32? && n.f.mandatory == parent.mandatory && n.children == []
      ensures ok ==> n.f.key.Some? && n.f == LengthOf(x, parent, templateId)
      ensures ok ==> var l := LengthField(x, parent, templateId);
                     && n.f == l.(key := n.f.key, tid := templateId, mandatory := parent.mandatory)
                     && (l.key.Some? ==> n.f.key == l.key)
                     && (l.key.None? && parent.name.Some? ==> n.f.key == Some(parent.name.value + "-length"))
    {
      ok := true;
      var f := CreateField(UInt32, parent.dictionary);
      n := Node(f, []);
      var i := 0;
      while i < |x.children|
        invariant 0 <= i <= |x.children| && ok
        invariant forall k | 0 <= k < i && x.children[k].tag.LengthTag? :: OperatorOk(x.children[k].children, UInt32)
        invariant f == WithParts(LengthTag, x.children, i, CreateField(UInt32, parent.dictionary), templateId)
      {
        PartsKeep(LengthTag, x.children, i, CreateField(UInt32, parent.dictionary), templateId);
        if x.children[i].tag.LengthTag? {
          ok, f := ParsePart(x.children[i], f);
          if !ok { return; }
        }
        i := i + 1;
      }
      PartsKeep(LengthTag, x.children, i, CreateField(UInt32, parent.dictionary), templateId);
      if f.key.None? {
        f := f.(key := Some((if parent.name.Some? then parent.name.value else "(null)") + "-length"));
      }
      f := f.(tid := templateId, mandatory := parent.mandatory);
      n := Node(f, []);
    }

    /** The decimal's own operator and its parts, from the child elements. */
    method ParseDecimalParts(xs: seq<Xml>, tfield: FieldType, expt0: FieldType, mant0: FieldType)
      returns (ok: bool, f: FieldType, expt: FieldType, mant: FieldType)
      requires expt0.typ.Int32? && mant0.typ.Int64? && expt0.op.NoOp? && mant0.op.NoOp?
      ensures ok == PartsOk(xs)
      ensures ok ==> f == WholeOperator(xs, |xs|, tfield)
      ensures ok ==> expt == WithParts(ExponentTag, xs, |xs|, expt0, templateId)
      ensures ok ==> mant == WithParts(MantissaTag, xs, |xs|, mant0, templateId)
    {
      ok, f, expt, mant := true, tfield, expt0, mant0;
      var i := 0;
      while i < |xs|
        invariant 0 <= i <= |xs| && ok
        invariant PartsOk(xs[..i])
        invariant f == WholeOperator(xs, i, tfield)
        invariant expt == WithParts(ExponentTag, xs, i, expt0, templateId)
        invariant mant == WithParts(MantissaTag, xs, i, mant0, templateId)
      {
        var c := xs[i];
        PartsSnoc(xs, i);
        if !IgnoreXmlNode(c) {
          if c.tag.ExponentTag? {
            PartsKeep(ExponentTag, xs, i, expt0, templateId);
            ok, expt := ParsePart(c, expt);
            if !ok { return; }
          } else if c.tag.MantissaTag? {
            PartsKeep(MantissaTag, xs, i, mant0, templateId);
            ok, mant := ParsePart(c, mant);
            if !ok { return; }
          } else {
            var _, g := ParseOperator(c, f);
            f := g;
          }
        }
        i := i + 1;
      }
      assert xs[..i] == xs;
    }

    /** The mantissa keeps its own presence; the exponent takes the decimal's. Either is kept under a key of its own, or
        under one made from the decimal's. */
    method ParseDecimal(x: Xml, tfield: FieldType) returns (ok: bool, n: Node)
      requires tfield.typ.Decimal? && tfield.tid == templateId && !tfield.pmapExists
      ensures ok == PartsOk(x.children)
      ensures ok ==> Sound(n, templateId) && n == DecimalNode(x.children, tfield, templateId)
      ensures ok ==> HeadOf(n) == HeadOf(Node(tfield, []))
    {
      var expt, mant := CreateField(Int32, tfield.dictionary), CreateField(Int64, tfield.dictionary);
      var f;
      ok, f, expt, mant := ParseDecimalParts(x.children, tfield, expt, mant);
      n := Node(f, []);
      if ok {
        expt, mant := expt.(tid := templateId, mandatory := tfield.mandatory), mant.(tid := templateId);
        expt, mant := NamedPart(expt, tfield, "-exponent"), NamedPart(mant, tfield, "-mantissa");
        n := Node(f, [Node(expt, []), Node(mant, [])]);
        DecimalSound(x.children, tfield, templateId);
      }
    }

    /** Elements that make no field are reported and passed over. */
    method ParserWalkChildren(xs: seq<Xml>, dictionary: string) returns (ns: seq<Node>)
      ensures AllSound(ns, templateId) && HeadsAre(ns, FieldHeads(xs, |xs|))
      ensures ListingTo(ns, |ns|) == DeclaredTo(xs, |xs|, dictionary, templateId)
      decreases xs, 0
    {
      ns := [];
      var i := 0;
      while i < |xs|
        invariant 0 <= i <= |xs| && AllSound(ns, templateId) && HeadsAre(ns, FieldHeads(xs, i))
        invariant ListingTo(ns, |ns|) == DeclaredTo(xs, i, dictionary, templateId)
      {
        if !IgnoreXmlNode(xs[i]) {
          var n := NewParsedField(xs[i], dictionary);
          if n.Some? {
            OneMore(ns, n.value);
            ns := ns + [n.value];
          }
        }
        i := i + 1;
      }
    }

    method NewParsedField(x: Xml, dictionary: string) returns (r: Option<Node>)
      ensures r.Some? <==> MakesField(x)
      ensures r.Some? ==> Sound(r.value, templateId) && HeadOf(r.value) == ElementHead(x)
      ensures r.Some? ==> Listing(r.value) == Declared(x, dictionary, templateId)
      ensures r.Some? && !x.tag.typ.Decimal? && !x.tag.typ.Group? && !x.tag.typ.Sequence? ==>
                r.value.f == WithPart(x, CreateField(x.tag.typ, dictionary), templateId)
      decreases x
    {
      if !x.tag.TypeTag? { return None; }
      var t := x.tag.typ;
      var f := SetFieldAttributes(x, CreateField(t, dictionary));
      OwnIs(x, dictionary, templateId);
      var ok, n := false, Node(f, []);
      match t {
        case Decimal => ok, n := ParseDecimal(x, f);
        case Group =>
          var kids := ParserWalkChildren(x.children, f.dictionary);
          ok, n := true, Node(f, kids);
        case Sequence => ok, n := ParseSequence(x, f);
        case Unicode => ok, n := ParseVector(x, f);
        case ByteVector => ok, n := ParseVector(x, f);
        case _ =>
          var g;
          ok, g := ParseFieldOperator(x, f);
          OperatorKeeps(x, f);
          LeafListing(g);
          n := Node(g, []);
      }
      assert ok ==> HeadOf(n) == HeadOf(Node(f, []));
      r := if ok then Some(n) else None;
    }

    /** The length, and the group of the other children. */
    method ParseSequence(x: Xml, f: FieldType) returns (ok: bool, n: Node)
      requires f.typ.Sequence? && f.op.NoOp? && f.tid == templateId && !f.pmapExists
      ensures ok == LengthsOk(x.children)
      ensures ok ==> Sound(n, templateId) && n.f == f
      ensures ok ==>
                var length, group := [EntryOf(LengthOf(x, f, templateId))], [EntryOf(CreateField(Group, ""))];
                var members := DeclaredTo(x.children, |x.children|, f.dictionary, templateId);
                Listing(n) == [EntryOf(f)] + Indented(length + (group + Indented(members)))
      decreases x, 0
    {
      var kids := ParserWalkChildren(x.children, f.dictionary);
      var length;
      ok, length := PrependLength(x, f);
      if ok {
        SequenceListing(f, length, CreateField(Group, ""), kids);
      }
      n := Node(f, [length, Node(CreateField(Group, ""), kids)]);
    }

    method ParseVector(x: Xml, f: FieldType) returns (ok: bool, n: Node)
      requires IsVector(f.typ) && f.op.NoOp? && f.tid == templateId && !f.pmapExists
      ensures ok == (OperatorOk(x.children, f.typ) && LengthsOk(x.children))
      ensures ok ==> Sound(n, templateId) && n.f == WithOperatorOf(x, f)
      ensures ok ==> Listing(n) == [EntryOf(n.f)] + Indented([EntryOf(LengthOf(x, f, templateId))])
    {
      var g;
      ok, g := ParseFieldOperator(x, f);
      OperatorKeeps(x, f);
      n := Node(g, []);
      if ok {
        var length;
        ok, length := PrependLength(x, g);
        n := Node(g, [length]);
        if ok {
          VectorListing(g, length);
        }
      }
    }

    /** A template element; its own operator and type play no part. */
    method ParseTemplate(x: Xml) returns (t: TemplateDef)
      modifies this
      ensures AllSound(t.fields, t.id) && t.id == IdOf(x)
      ensures HeadsAre(t.fields, FieldHeads(x.children, |x.children|))
      ensures ListingTo(t.fields, |t.fields|) == TemplateEntries(x)
    {
      templateId := IdOf(x);
      var dictionary := if x.attrs.dictionary.Some? then x.attrs.dictionary.value else "global";
      var fields := ParserWalkChildren(x.children, dictionary);
      t := TemplateDef(templateId, fields);
    }
  }

  // ---------- from XML to the lookup table ----------

  /** Element i is the last template with this id, and these are its fields, in document order and at every depth. */
  predicate FromElement(xs: seq<Xml>, id: int, i: int, fields: seq<Node>) {
    && 0 <= i < |xs| && IdOf(xs[i]) == id && (forall j | i < j < |xs| :: IdOf(xs[j]) != id)
    && HeadsAre(fields, FieldHeads(xs[i].children, |xs[i].children|))
    && ListingTo(fields, |fields|) == TemplateEntries(xs[i])
  }

  /** A template as it was parsed from its element. */
  predicate ParsedFrom(t: TemplateDef, x: Xml) {
    && t.id == IdOf(x) && AllSound(t.fields, t.id) && HeadsAre(t.fields, FieldHeads(x.children, |x.children|))
    && ListingTo(t.fields, |t.fields|) == TemplateEntries(x)
  }

  lemma {:induction false} TableFrom(table: Templates, ts: seq<TemplateDef>, xs: seq<Xml>, id: int) returns (i: int)
    requires Holds(table, ts) && id in table && |ts| == |xs| && forall k | 0 <= k < |ts| :: ParsedFrom(ts[k], xs[k])
    ensures FromElement(xs, id, i, table[id])
  {
    i :| 0 <= i < |ts| && Provides(ts, id, i, table[id]);
    forall j | i < j < |xs|
      ensures IdOf(xs[j]) != id
    {
      assert ParsedFrom(ts[j], xs[j]);
    }
    SameHeads(ts[i].fields, table[id]);
    SameListing(ts[i].fields, table[id]);
  }

  lemma {:induction false} SameListing(a: seq<Node>, b: seq<Node>)
    requires AllFixed(a, b)
    ensures ListingTo(a, |a|) == ListingTo(b, |b|)
  {
    forall k | 0 <= k < |a|
      ensures SameButFlags(a[k], b[k])
    {
      assert Fixed(a[k], b[k]);
    }
    FlagsUnlisted(a, b, |a|);
  }

  lemma {:induction false} SameHeads(a: seq<Node>, b: seq<Node>)
    requires AllFixed(a, b)
    ensures |a| == |b| && forall k | 0 <= k < |a| :: HeadOf(b[k]) == HeadOf(a[k])
  {
    forall k | 0 <= k < |a|
      ensures HeadOf(b[k]) == HeadOf(a[k])
    {
      assert Fixed(a[k], b[k]);
    }
  }

  /** The templates of a file, and the table the dissector uses: under every id the fields of the last template element
      with that id, well formed and flagged according to the presence-map bits they use. */
  method LoadTemplates(parser: TemplateParser, xs: seq<Xml>) returns (table: Templates)
    modifies parser
    ensures Ready(table)
    ensures forall i | 0 <= i < |xs| :: IdOf(xs[i]) in table
    ensures forall id | id in table :: exists i :: FromElement(xs, id, i, table[id])
  {
    var ts: seq<TemplateDef> := [];
    var i := 0;
    while i < |xs|
      invariant 0 <= i == |ts| <= |xs|
      invariant forall k | 0 <= k < i :: ParsedFrom(ts[k], xs[k])
    {
      var t := parser.ParseTemplate(xs[i]);
      ts := ts + [t];
      i := i + 1;
    }
    forall i, j | 0 <= i < |ts| && 0 <= j < |ts[i].fields|
      ensures Unflagged(ts[i].fields[j]) && WellFormed(ts[i].fields[j])
    {
      assert ParsedFrom(ts[i], xs[i]) && Sound(ts[i].fields[j], ts[i].id);
    }
    table := CreateTemplatesTable(ts);
    TableReady(table, ts);
    forall i | 0 <= i < |xs|
      ensures IdOf(xs[i]) in table
    {
      assert ParsedFrom(ts[i], xs[i]);
    }
    forall id | id in table
      ensures exists i :: FromElement(xs, id, i, table[id])
    {
      var i := TableFrom(table, ts, xs, id);
    }
  }
}
