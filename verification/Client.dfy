/** The command-line client: its arguments become one message, and the dissector gets them back. */
module Client {
  import opened StopBit
  import opened PresenceMap
  import opened Encode
  import opened Fields
  import opened Template
  import opened Dictionary
  import opened Reader
  import opened Dissection
  import opened Sender
  import opened Packet
  import opened PacketDecoding

  /** A value on the command line. Signed 64-bit values are taken to go through encode_int64. */
  datatype Item =
    | UInt32Arg(u: nat)
    | UInt64Arg(u: nat)
    | Int32Arg(x: int)
    | Int64Arg(x: int)
    | AsciiArg(s: seq<byte>)
    | BytevecArg(text: string)

  /** What the C types of the arguments can hold. */
  predicate Given(i: Item) {
    match i
    case UInt32Arg(u) => u < 0x1_0000_0000
    case UInt64Arg(u) => u < 0x1_0000_0000_0000_0000
    case Int32Arg(x) => -0x8000_0000 <= x < 0x8000_0000
    case Int64Arg(x) => -0x8000_0000_0000_0000 <= x < 0x8000_0000_0000_0000
    case AsciiArg(s) => forall k | 0 <= k < |s| :: s[k] != 0
    case BytevecArg(t) => |t| < 0x1_0000_0000
  }

  /** What the encoders get onto the wire: nine groups at most, and no empty string. */
  predicate Encodable(i: Item) {
    match i
    case UInt64Arg(u) => u < 0x8000_0000_0000_0000
    case Int64Arg(x) => -0x4000_0000_0000_0000 <= x < 0x4000_0000_0000_0000
    case AsciiArg(s) => s != []
    case _ => true
  }

  predicate AllGiven(items: seq<Item>) { forall k | 0 <= k < |items| :: Given(items[k]) }
  /** The first n arguments. */
  predicate EncodableTo(items: seq<Item>, n: nat)
    requires n <= |items|
  {
    n == 0 || (EncodableTo(items, n - 1) && Encodable(items[n - 1]))
  }

  predicate AllEncodable(items: seq<Item>) { EncodableTo(items, |items|) }

  lemma {:induction false} Refused(items: seq<Item>, k: nat, n: nat)
    requires k <= n <= |items| && !EncodableTo(items, k)
    ensures !EncodableTo(items, n)
  {
    if k < n {
      Refused(items, k, n - 1);
    }
  }

  function ItemBytes(i: Item): seq<byte>
    requires Given(i)
  {
    match i
    case UInt32Arg(u) => EncodeUnsigned(u)
    case UInt64Arg(u) => EncodeUnsigned(u)
    case Int32Arg(x) => EncodeSigned(x)
    case Int64Arg(x) => EncodeSigned(x)
    case AsciiArg(s) => AsciiBytes(s)
    case BytevecArg(t) => EncodeUnsigned((|t| + 1) / 2) + Paired(HexDigits(t))
  }

  /** The k-th piece is the k-th argument's encoding. */
  predicate PieceAt(xs: seq<seq<byte>>, items: seq<Item>, k: nat)
    requires AllGiven(items)
  {
    k < |xs| == |items| && xs[k] == ItemBytes(items[k])
  }

  function Pieces(items: seq<Item>): (xs: seq<seq<byte>>)
    requires AllGiven(items)
    ensures |xs| == |items| && forall k | 0 <= k < |items| :: PieceAt(xs, items, k)
  {
    seq(|items|, k requires 0 <= k < |items| => ItemBytes(items[k]))
  }

  /** The first k pieces one after the other. */
  function Joined(xs: seq<seq<byte>>, k: nat): seq<byte>
    requires k <= |xs|
  {
    if k == 0 then [] else Joined(xs, k - 1) + xs[k - 1]
  }

  /** All arguments one after the other. */
  function ItemsBytes(items: seq<Item>): seq<byte>
    requires AllGiven(items)
  {
    Joined(Pieces(items), |items|)
  }

  class FastMessage {
    var pmap: seq<bool>
    var tidp: bool
    var tid: nat
    const msg: ByteArray
    const encoded: ByteArray

    constructor (tid: nat)
      ensures pmap == [true] && tidp && this.tid == tid && msg.data == [] && encoded.data == []
      ensures fresh(msg) && fresh(encoded) && msg != encoded
    {
      pmap, tidp, this.tid := [true], true, tid;
      msg := new ByteArray();
      encoded := new ByteArray();
    }

    method Add(i: Item) returns (ok: bool)
      requires Given(i)
      modifies msg
      ensures ok <==> Encodable(i)
      ensures ok ==> msg.data == old(msg.data) + ItemBytes(i)
    {
      ok := true;
      match i {
        case UInt32Arg(u) => EncodeUint32(u, msg);
        case UInt64Arg(u) => ok := EncodeUint64(u, msg);
        case Int32Arg(x) => EncodeInt32(x, msg);
        case Int64Arg(x) => ok := EncodeInt64(x, msg);
        case AsciiArg(s) => ok := EncodeAscii(s, msg);
        case BytevecArg(t) => EncodeBytevec(t, msg);
      }
    }

    method AddNext(items: seq<Item>, k: nat, ghost xs: seq<seq<byte>>) returns (ok: bool)
      requires AllGiven(items) && k < |items| && xs == Pieces(items)
      requires EncodableTo(items, k) && msg.data == Joined(xs, k)
      modifies msg
      ensures ok <==> EncodableTo(items, k + 1)
      ensures ok ==> msg.data == Joined(xs, k + 1)
    {
      assert PieceAt(xs, items, k);
      ok := Add(items[k]);
    }

    /** The options one after the other; the first that cannot be encoded ends it. */
    method AddAll(items: seq<Item>) returns (ok: bool)
      requires AllGiven(items) && msg.data == []
      modifies msg
      ensures ok <==> AllEncodable(items)
      ensures ok ==> msg.data == ItemsBytes(items)
    {
      ok := true;
      var k := 0;
      ghost var xs := Pieces(items);
      while k < |items|
        invariant 0 <= k <= |items| && EncodableTo(items, k)
        invariant msg.data == Joined(xs, k)
      {
        ok := AddNext(items, k, xs);
        if !ok {
          Refused(items, k + 1, |items|);
          return;
        }
        k := k + 1;
      }
    }

    /** encode_fast: presence map, template id, body. */
    method EncodeFast()
      requires pmap != [] && tid < 0x1_0000_0000 && encoded.data == [] && msg != encoded
      modifies this`pmap, encoded
      ensures pmap == old(pmap)[0 := tidp] && msg.data == old(msg.data)
      ensures encoded.data == EncodePmap(pmap) + (if tidp then EncodeUnsigned(tid) else []) + msg.data
    {
      pmap := pmap[0 := tidp];
      EncodePmapInto(pmap, encoded);
      if tidp {
        EncodeUint32(tid, encoded);
      }
      encoded.Append(msg.data);
    }
  }

  function ClientBytes(tid: nat, items: seq<Item>): seq<byte>
    requires AllGiven(items)
  {
    EncodePmap([true]) + EncodeUnsigned(tid) + ItemsBytes(items)
  }

  /** A run of the client, all its fields being required ones. */
  method BuildMessage(tid: nat, items: seq<Item>) returns (ok: bool, bytes: seq<byte>)
    requires tid < 0x1_0000_0000 && AllGiven(items)
    ensures ok <==> AllEncodable(items)
    ensures ok ==> bytes == ClientBytes(tid, items)
  {
    bytes := [];
    var fmsg := new FastMessage(tid);
    ok := fmsg.AddAll(items);
    if ok {
      fmsg.EncodeFast();
      bytes := fmsg.encoded.data;
    }
  }

  // ---------- the way back ----------

  function ItemValue(i: Item): FieldValue
    requires Given(i)
  {
    match i
    case UInt32Arg(u) => Number(u)
    case UInt64Arg(u) => Number(u)
    case Int32Arg(x) => Number(x)
    case Int64Arg(x) => Number(x)
    case AsciiArg(s) => Sized(s)
    case BytevecArg(t) => Sized(Paired(HexDigits(t)))
  }

  predicate Plainly(f: FieldType) { f.op.NoOp? && f.mandatory }

  /** A required field without operator, of the argument's type; characters are plain ASCII, which the client does not
      check, and byte vectors are given in pure hex. */
  predicate Suits(n: Node, i: Item) {
    && WellFormed(n) && Plainly(n.f) && Encodable(i)
    && match i
       case UInt32Arg(_) => n.f.typ.UInt32?
       case UInt64Arg(_) => n.f.typ.UInt64?
       case Int32Arg(_) => n.f.typ.Int32?
       case Int64Arg(_) => n.f.typ.Int64?
       case AsciiArg(s) => n.f.typ.Ascii? && PlainAscii(s)
       case BytevecArg(t) => n.f.typ.ByteVector? && Plainly(n.children[0].f) && |t| % 2 == 0 && |HexDigits(t)| == |t|
  }

  /** The k-th template field takes the k-th argument. */
  predicate SuitsAt(ns: seq<Node>, items: seq<Item>, k: nat) { k < |ns| == |items| && Suits(ns[k], items[k]) }

  predicate AllSuit(ns: seq<Node>, items: seq<Item>) {
    |ns| == |items| && forall k | 0 <= k < |ns| :: SuitsAt(ns, items, k)
  }

  function ItemMsg(i: Item): Msg
    requires Given(i)
  {
    Field(Some(ItemValue(i)), false)
  }

  function ItemMsgs(items: seq<Item>): (ms: seq<Msg>)
    requires AllGiven(items)
    ensures MessagesOf(ms, items)
  {
    seq(|items|, k requires 0 <= k < |items| => ItemMsg(items[k]))
  }

  predicate MessagesOf(ms: seq<Msg>, items: seq<Item>)
    requires AllGiven(items)
  {
    |ms| == |items| && forall k | 0 <= k < |items| :: ms[k] == ItemMsg(items[k])
  }

  lemma {:induction false} PairedLength(d: seq<nibble>)
    ensures |Paired(d)| == (|d| + 1) / 2
    decreases |d|
  {
    if d != [] {
      PairedLength(d[..|d| - (if Odd(d) then 1 else 2)]);
    }
  }

  lemma {:induction false} LengthSent(n: Node, s: seq<byte>, d: Local)
    requires WellFormed(n) && n.f.typ.ByteVector? && Plainly(n.f) && Plainly(n.children[0].f) && |s| < 0xFFFF_FFFF
    ensures LegalLength(n, s, false, d)
    ensures LengthAndBytes(n, s, false, d).bits == [] && LengthAndBytes(n, s, false, d).bytes == EncodeUnsigned(|s|) + s
  {
  }

  lemma {:induction false} VectorSent(n: Node, s: seq<byte>, d: Local)
    requires WellFormed(n) && n.f.typ.ByteVector? && Plainly(n.f) && Plainly(n.children[0].f) && |s| < 0xFFFF_FFFF
    ensures var m := Field(Some(Sized(s)), false);
            && LegalVector(n, m, d)
            && SendVector(n, m, d).bits == [] && SendVector(n, m, d).bytes == EncodeUnsigned(|s|) + s
  {
    LengthSent(n, s, d);
    assert LegalField(n.f, Some(Sized(s)), false, d);
  }

  /** A required integer or string without operator puts its plain encoding on the wire. */
  lemma {:induction false} FieldSent(n: Node, v: FieldValue, d: Local)
    requires WellFormed(n) && Leaf(n) && Plainly(n.f) && Canonical(n.f.typ, v)
    ensures LegalField(n.f, Some(v), false, d)
    ensures var w := SendField(n.f, Some(v), false, d);
            w.bits == [] && w.bytes == if n.f.typ.Ascii? then AsciiBytes(v.bytes) else IntegerBytes(n.f.typ, v.num)
  {
  }

  /** Legal whatever is stored, without a presence bit, and with just these bytes. */
  predicate SendsPlainly(n: Node, m: Msg, x: seq<byte>, d: Local, avail: nat, follow: nat)
    requires WellFormed(n)
  {
    Legal(n, m, d, avail, follow) && Send(n, m, d).bits == [] && Send(n, m, d).bytes == x
  }

  lemma {:induction false} ItemSent(n: Node, i: Item, d: Local, avail: nat, follow: nat)
    requires Given(i) && Suits(n, i)
    ensures SendsPlainly(n, ItemMsg(i), ItemBytes(i), d, avail, follow)
  {
    match i
    case BytevecArg(t) =>
      PairedLength(HexDigits(t));
      VectorSent(n, Paired(HexDigits(t)), d);
    case _ =>
      FieldSent(n, ItemValue(i), d);
  }

  /** What the k-th field puts on the wire, whatever is stored. */
  ghost predicate SentAt(ns: seq<Node>, ms: seq<Msg>, xs: seq<seq<byte>>, k: nat, avail: nat)
    requires AllWellFormed(ns) && |ns| == |ms| == |xs|
  {
    k < |ns| && forall d, follow: nat :: SendsPlainly(ns[k], ms[k], xs[k], d, avail, follow)
  }

  /** The first k fields are legal, use no bit, and put just these bytes on the wire. */
  predicate SentTo(ns: seq<Node>, ms: seq<Msg>, k: nat, x: seq<byte>, d: Local, avail: nat, follow: nat) {
    && AllWellFormed(ns) && |ns| == |ms| && k <= |ns| && LegalUpTo(ns, ms, k, d, avail, follow)
    && SendUpTo(ns, ms, k, d).bits == [] && SendUpTo(ns, ms, k, d).bytes == x
  }

  lemma {:induction false} NextSent(ns: seq<Node>, ms: seq<Msg>, k: nat, x: seq<byte>, y: seq<byte>, d: Local,
                                    avail: nat, follow: nat)
    requires k < |ns| && SentTo(ns, ms, k, x, d, avail, follow + |y|)
    requires SendsPlainly(ns[k], ms[k], y, SendUpTo(ns, ms, k, d).dict, avail, follow)
    ensures SentTo(ns, ms, k + 1, x + y, d, avail, follow)
  {
  }

  lemma {:induction false} SentNext(ns: seq<Node>, ms: seq<Msg>, xs: seq<seq<byte>>, k: nat, d: Local, avail: nat,
                                    follow: nat)
    requires AllWellFormed(ns) && |ns| == |ms| == |xs| && SentAt(ns, ms, xs, k, avail)
    requires SentTo(ns, ms, k, Joined(xs, k), d, avail, follow + |xs[k]|)
    ensures SentTo(ns, ms, k + 1, Joined(xs, k + 1), d, avail, follow)
  {
    NextSent(ns, ms, k, Joined(xs, k), xs[k], d, avail, follow);
  }

  lemma {:induction false} PlainlySent(ns: seq<Node>, ms: seq<Msg>, xs: seq<seq<byte>>, k: nat, d: Local,
                                       avail: nat, follow: nat)
    requires AllWellFormed(ns) && |ns| == |ms| == |xs| && k <= |ns|
    requires forall j | 0 <= j < |ns| :: SentAt(ns, ms, xs, j, avail)
    ensures SentTo(ns, ms, k, Joined(xs, k), d, avail, follow)
  {
    if k > 0 {
      PlainlySent(ns, ms, xs, k - 1, d, avail, follow + |xs[k - 1]|);
      SentNext(ns, ms, xs, k - 1, d, avail, follow);
    }
  }

  /** The client's bytes are those of a legal message. */
  lemma {:induction false} ItemsSent(ns: seq<Node>, items: seq<Item>, ms: seq<Msg>, d: Local, avail: nat, follow: nat)
    requires AllGiven(items) && AllSuit(ns, items) && AllWellFormed(ns) && MessagesOf(ms, items)
    ensures LegalUpTo(ns, ms, |ns|, d, avail, follow)
    ensures var w := SendUpTo(ns, ms, |ns|, d); w.bits == [] && w.bytes == ItemsBytes(items)
  {
    var xs := Pieces(items);
    forall j | 0 <= j < |ns|
      ensures SentAt(ns, ms, xs, j, avail)
    {
      ItemSentAt(ns, items, ms, xs, j, avail);
    }
    PlainlySent(ns, ms, xs, |ns|, d, avail, follow);
  }

  lemma {:induction false} ItemSentAt(ns: seq<Node>, items: seq<Item>, ms: seq<Msg>, xs: seq<seq<byte>>, k: nat,
                                      avail: nat)
    requires AllGiven(items) && AllWellFormed(ns) && |ns| == |ms| == |xs|
    requires SuitsAt(ns, items, k) && ms[k] == ItemMsg(items[k]) && PieceAt(xs, items, k)
    ensures SentAt(ns, ms, xs, k, avail)
  {
    forall d, follow: nat
      ensures SendsPlainly(ns[k], ms[k], xs[k], d, avail, follow)
    {
      ItemSent(ns[k], items[k], d, avail, follow);
    }
  }

  predicate Reads(items: seq<Item>, kids: seq<DataNode>)
    requires AllGiven(items)
  {
    |kids| == |items| && forall k | 0 <= k < |items| :: kids[k].status == Exists && kids[k].value == ItemValue(items[k])
  }

  lemma {:induction false} ShownIsRead(ns: seq<Node>, items: seq<Item>, ms: seq<Msg>, kids: seq<DataNode>)
    requires AllGiven(items) && MessagesOf(ms, items) && AllShow(ns, ms, kids)
    ensures Reads(items, kids)
  {
    forall k | 0 <= k < |items|
      ensures kids[k].status == Exists && kids[k].value == ItemValue(items[k])
    {
      assert Shows(ns[k], ms[k], kids[k]);
    }
  }

  function TellingOf(tid: nat, items: seq<Item>): Telling
    requires AllGiven(items)
  {
    Telling(tid, true, 1, ItemMsgs(items))
  }

  lemma {:induction false} OneBit()
    ensures HoldsMap([true], 1) && MapBytes([true], 1) == EncodePmap([true])
  {
    PlainMap([true]);
    PmapRoundTrip([true]);
  }

  /** With its id and no other bit, the presence map takes one byte. */
  lemma {:induction false} PlainOpening(t: Telling, w: Wire)
    requires t.explicit && t.size == 1 && w.bits == []
    ensures var all := Opening(t).Then(w);
            && HoldsMap(all.bits, 1)
            && MapBytes(all.bits, 1) + all.bytes == EncodePmap([true]) + EncodeUnsigned(t.tid) + w.bytes
  {
    assert Opening(t).Then(w).bits == [true];
    OneBit();
    assert EncodePmap([true]) + (EncodeUnsigned(t.tid) + w.bytes) ==
           EncodePmap([true]) + EncodeUnsigned(t.tid) + w.bytes;
  }

  lemma {:induction false} ClientSends(table: Templates, tid: nat, items: seq<Item>, last: int, d: Local, follow: nat)
    requires Ready(table) && tid in table && tid < 0x1_0000_0000 && AllGiven(items) && AllSuit(table[tid], items)
    ensures LegalMessage(table, TellingOf(tid, items), last, d, follow)
    ensures SendMessage(table, TellingOf(tid, items), d).bytes == ClientBytes(tid, items)
  {
    var t := TellingOf(tid, items);
    assert AllWellFormed(table[tid]);
    ItemsSent(table[tid], items, t.parts, d, 6, follow);
    PlainOpening(t, PartsOf(table, t, d));
  }

  /** End to end: what was given to the client is what the dissector shows, and nothing more is consumed. */
  lemma {:induction false} EndToEnd(table: Templates, tid: nat, items: seq<Item>, last: int, p: Pos, d: Local,
                                    rest: seq<byte>)
    requires Ready(table) && tid in table && tid < 0x1_0000_0000 && AllGiven(items) && AllSuit(table[tid], items)
    requires p.bytes == ClientBytes(tid, items) + rest
    ensures var r := DissectMessage(table, last, p, d);
            && r.Done? && r.value.known && r.value.tid == tid && r.value.pos.bytes == rest
            && Reads(items, r.value.data.kids)
  {
    var t := TellingOf(tid, items);
    ClientSends(table, tid, items, last, d, |rest|);
    MessageDecodes(table, t, last, p, d, rest);
    ShownIsRead(table[tid], items, t.parts, DissectMessage(table, last, p, d).value.data.kids);
  }

  /** The client's output, followed by anything, given to the dissector. */
  method Loopback(fast: FastDissector, table: Templates, tid: nat, items: seq<Item>, rest: seq<byte>, c: Conversation)
    returns (data: DataNode, left: seq<byte>)
    requires fast.Valid() && Ready(table) && tid in table && tid < 0x1_0000_0000 && AllGiven(items)
    requires AllSuit(table[tid], items)
    modifies fast, fast.store
    ensures fast.Valid() && fast.templateId == tid && left == rest && Reads(items, data.kids)
  {
    AllSuitEncodable(table[tid], items, |items|);
    var ok, bytes := BuildMessage(tid, items);
    var position := new DissectPosition(0, bytes + rest);
    EndToEnd(table, tid, items, fast.templateId, position.View(), fast.store.LocalOf(c), rest);
    var known;
    ok, known, data := fast.DissectFastBytes(table, position, c);
    left := position.bytes;
  }

  lemma {:induction false} AllSuitEncodable(ns: seq<Node>, items: seq<Item>, k: nat)
    requires AllSuit(ns, items) && k <= |items|
    ensures EncodableTo(items, k)
  {
    if k > 0 {
      AllSuitEncodable(ns, items, k - 1);
      assert SuitsAt(ns, items, k - 1);
    }
  }
}
