/** The sending side of messages, packets and runs, and that receivers get every message as it was meant. */
module PacketDecoding {
  import opened StopBit
  import opened PresenceMap
  import opened Fields
  import opened Template
  import opened Dictionary
  import opened Reader
  import opened Dissection
  import opened Sender
  import opened FieldDecoding
  import opened TreeDecoding
  import opened Packet
  import opened MessageDecoding

  // ---------- messages ----------

  /** A message to be sent, with or without its template id on the wire, and with its presence map on so many bytes. */
  datatype Telling = Telling(tid: nat, explicit: bool, size: nat, parts: seq<Msg>)

  /** What a message puts on the wire, and the sender's dictionary afterwards. */
  datatype Said = Said(bytes: seq<byte>, dict: Local)

  predicate Fitting(table: Templates, t: Telling) {
    Ready(table) && t.tid in table && |t.parts| == |table[t.tid]|
  }

  function PartsOf(table: Templates, t: Telling, d: Local): Wire
    requires Fitting(table, t)
  {
    SendUpTo(table[t.tid], t.parts, |t.parts|, d)
  }

  /** The first bit tells whether the template id is there. */
  function Opening(t: Telling): Wire {
    Wire([t.explicit], if t.explicit then EncodeUnsigned(t.tid) else [], map[])
  }

  /** Presence map, template id, body. */
  function SendMessage(table: Templates, t: Telling, d: Local): Said
    requires Fitting(table, t)
  {
    var w := Opening(t).Then(PartsOf(table, t, d));
    Said(MapBytes(w.bits, t.size) + w.bytes, w.dict)
  }

  /** The id may be left out when it is the one remembered, and zeros at the end of the presence map as well. */
  predicate LegalHead(table: Templates, t: Telling, tid: int, d: Local) {
    && Fitting(table, t) && t.tid < 0x1_0000_0000 && (t.explicit || t.tid == tid)
    && HoldsMap(Opening(t).Then(PartsOf(table, t, d)).bits, t.size)
  }

  predicate LegalMessage(table: Templates, t: Telling, tid: int, d: Local, follow: nat) {
    LegalHead(table, t, tid, d) && LegalUpTo(table[t.tid], t.parts, |t.parts|, d, 7 * t.size - 1, follow)
  }

  /** The tree says what was told. */
  predicate Tells(table: Templates, t: Telling, tree: Tree)
    requires Fitting(table, t)
  {
    tree.id == t.tid && tree.fields == table[t.tid] && AllShow(table[t.tid], t.parts, tree.data.kids)
  }

  lemma {:induction false} IdReads(t: Telling, tid: int, p: Pos, tail: seq<byte>)
    requires t.tid < 0x1_0000_0000 && (t.explicit || t.tid == tid) && Ahead(p, Opening(t), tail)
    ensures HeadOf(p, tid).tid == t.tid && HeadOf(p, tid).pos == After(p, Opening(t), tail)
  {
    NextBit(p, t.explicit);
    if t.explicit {
      ReadsUnsigned(W32, AfterBits(p, 1), t.tid, tail, Cell(Empty, BLANK));
    }
  }

  /** Presence map and id are read, whatever is to follow them. */
  lemma {:induction false} HeadDecodes(t: Telling, tid: int, w: Wire, p: Pos, rest: seq<byte>)
    requires t.tid < 0x1_0000_0000 && (t.explicit || t.tid == tid)
    requires var all := Opening(t).Then(w);
             HoldsMap(all.bits, t.size) && p.bytes == MapBytes(all.bits, t.size) + all.bytes + rest
    ensures var q := ReadPmap(p);
            var h := HeadOf(q, tid);
            q.pmap != [] && h.tid == t.tid && Ahead(h.pos, w, rest) && Left(h.pos) == 7 * t.size - 1
  {
    var q := ReadsPmap(p, Opening(t).Then(w), t.size, rest);
    SplitAhead(q, Opening(t), w, rest);
    IdReads(t, tid, q, w.bytes + rest);
    LeftAfter(q, Opening(t), w.bytes + rest);
  }

  /** The body is next, for the template that was meant. */
  predicate BodyAhead(table: Templates, t: Telling, h: Head, d: Local, rest: seq<byte>)
    requires Fitting(table, t)
  {
    h.tid == t.tid && Ahead(h.pos, PartsOf(table, t, d), rest) && Left(h.pos) == 7 * t.size - 1
  }

  lemma {:induction false} MessageHead(table: Templates, t: Telling, tid: int, p: Pos, d: Local, rest: seq<byte>)
    returns (q: Pos, h: Head)
    requires LegalHead(table, t, tid, d) && p.bytes == SendMessage(table, t, d).bytes + rest
    ensures q.Leads(h.pos) && DissectMessage(table, tid, p, d) == FromHead(table, q, h, d)
    ensures BodyAhead(table, t, h, d, rest)
  {
    HeadDecodes(t, tid, PartsOf(table, t, d), p, rest);
    q := ReadPmap(p);
    h := HeadOf(q, tid);
  }

  /** The message was read as it was meant, up to what followed it, and both sides remember the same. */
  predicate HeardAs(table: Templates, t: Telling, d: Local, r: Outcome<Heard>, rest: seq<byte>)
    requires Fitting(table, t)
  {
    && r.Done? && r.value.known && r.value.tid == t.tid && r.value.pos.bytes == rest
    && r.value.dict == SendMessage(table, t, d).dict
    && AllShow(table[t.tid], t.parts, r.value.data.kids)
  }

  /** One message, followed by anything. */
  lemma {:induction false} MessageDecodes(table: Templates, t: Telling, tid: int, p: Pos, d: Local, rest: seq<byte>)
    requires LegalMessage(table, t, tid, d, |rest|) && p.bytes == SendMessage(table, t, d).bytes + rest
    ensures HeardAs(table, t, d, DissectMessage(table, tid, p, d), rest)
  {
    var q, h := MessageHead(table, t, tid, p, d, rest);
    BodyDecodes(table, t, tid, q, h, d, rest);
  }

  lemma {:induction false} BodyDecodes(table: Templates, t: Telling, tid: int, p: Pos, h: Head, d: Local,
                                       rest: seq<byte>)
    requires LegalMessage(table, t, tid, d, |rest|) && p.Leads(h.pos) && BodyAhead(table, t, h, d, rest)
    ensures HeardAs(table, t, d, FromHead(table, p, h, d), rest)
  {
    UpToDecodes(table[t.tid], t.parts, |t.parts|, h.pos, d, rest);
    AllArrived(table[t.tid], t.parts, WalkTo(table[t.tid], |t.parts|, h.pos, d), h.pos, PartsOf(table, t, d), rest);
  }

  // ---------- packets ----------

  predicate AllFitting(table: Templates, ts: seq<Telling>) { forall i | 0 <= i < |ts| :: Fitting(table, ts[i]) }

  function SendMessages(table: Templates, ts: seq<Telling>, d: Local): Said
    requires AllFitting(table, ts)
  {
    if ts == [] then Said([], d)
    else
      var m := SendMessage(table, ts[0], d);
      var rest := SendMessages(table, ts[1..], m.dict);
      Said(m.bytes + rest.bytes, rest.dict)
  }

  predicate LegalMessages(table: Templates, ts: seq<Telling>, tid: int, d: Local)
    requires AllFitting(table, ts)
  {
    || ts == []
    || (var m := SendMessage(table, ts[0], d);
        && LegalMessage(table, ts[0], tid, d, |SendMessages(table, ts[1..], m.dict).bytes|)
        && LegalMessages(table, ts[1..], ts[0].tid, m.dict))
  }

  predicate AllTold(table: Templates, ts: seq<Telling>, trees: seq<Tree>)
    requires AllFitting(table, ts)
  {
    |trees| == |ts| && forall i | 0 <= i < |ts| :: Tells(table, ts[i], trees[i])
  }

  function LastId(ts: seq<Telling>, tid: int): int { if ts == [] then tid else ts[|ts| - 1].tid }

  lemma {:induction false} MessagesDecode(table: Templates, ts: seq<Telling>, tid: int, p: Pos, d: Local)
    requires Ready(table) && AllFitting(table, ts) && LegalMessages(table, ts, tid, d)
    requires p.bytes == SendMessages(table, ts, d).bytes
    ensures var r := DissectPacket(table, tid, p, d);
            && r.Done? && r.value.tid == LastId(ts, tid) && r.value.dict == SendMessages(table, ts, d).dict
            && AllTold(table, ts, r.value.trees)
  {
    if ts != [] {
      var m := SendMessage(table, ts[0], d);
      var rest := SendMessages(table, ts[1..], m.dict);
      MessageDecodes(table, ts[0], tid, p, d, rest.bytes);
      var h := DissectMessage(table, tid, p, d).value;
      MessagesDecode(table, ts[1..], ts[0].tid, h.pos, m.dict);
      var later := DissectPacket(table, h.tid, h.pos, h.dict).value;
      var tree := Tree(h.tid, table[h.tid], h.data);
      Arrived(table, ts, tid, p, d, h, later);
    }
  }

  lemma {:induction false} Arrived(table: Templates, ts: seq<Telling>, tid: int, p: Pos, d: Local, h: Heard,
                                   later: Parsed)
    requires Ready(table) && AllFitting(table, ts) && ts != [] && p.bytes != []
    requires DissectMessage(table, tid, p, d) == Done(h) && h.known && h.tid == ts[0].tid
    requires DissectPacket(table, h.tid, h.pos, h.dict) == Done(later)
    requires AllShow(table[h.tid], ts[0].parts, h.data.kids) && AllTold(table, ts[1..], later.trees)
    ensures var r := DissectPacket(table, tid, p, d);
            r.Done? && r.value.tid == later.tid && r.value.dict == later.dict && AllTold(table, ts, r.value.trees)
  {
    var tree := Tree(h.tid, table[h.tid], h.data);
    assert DissectPacket(table, tid, p, d) == Done(later.(trees := [tree] + later.trees));
    ToldFirst(table, ts, tree, later.trees);
  }

  lemma {:induction false} ToldFirst(table: Templates, ts: seq<Telling>, tree: Tree, later: seq<Tree>)
    requires AllFitting(table, ts) && ts != [] && Tells(table, ts[0], tree) && AllTold(table, ts[1..], later)
    ensures AllTold(table, ts, [tree] + later)
  {
    forall i | 0 <= i < |ts|
      ensures Tells(table, ts[i], ([tree] + later)[i])
    {
      if i > 0 { assert Tells(table, ts[1..][i - 1], later[i - 1]); }
    }
  }

  // ---------- runs ----------

  /** A packet to be sent: the exchange's header, which nobody reads, then messages. */
  datatype Packing = Packing(c: Conversation, table: Templates, flavor: Flavor, header: seq<byte>, ts: seq<Telling>)

  predicate Packable(x: Packing) {
    Ready(x.table) && AllFitting(x.table, x.ts) && |x.header| == HeaderSize(x.flavor)
  }

  predicate AllPackable(xs: seq<Packing>) { forall i | 0 <= i < |xs| :: Packable(xs[i]) }

  function Pack(x: Packing, d: Local): (k: Capture)
    requires Packable(x)
    ensures Admissible(k)
  {
    Capture(x.c, x.table, x.flavor, x.header + SendMessages(x.table, x.ts, d).bytes)
  }

  /** The senders of all conversations taken together: they share the receiver's idea of the last id. */
  function Sent(x: Packing, s: State): State
    requires Packable(x)
  {
    var after := if x.flavor.Plain? then SendMessages(x.table, x.ts, s.Of(x.c)).dict else map[];
    State(LastId(x.ts, s.tid), s.locals[x.c := after])
  }

  function PackAll(xs: seq<Packing>, s: State): (ks: seq<Capture>)
    requires AllPackable(xs)
    ensures |ks| == |xs| && AllAdmissible(ks)
  {
    if xs == [] then [] else [Pack(xs[0], s.Of(xs[0].c))] + PackAll(xs[1..], Sent(xs[0], s))
  }

  predicate LegalRun(xs: seq<Packing>, s: State)
    requires AllPackable(xs)
  {
    xs == [] || (LegalMessages(xs[0].table, xs[0].ts, s.tid, s.Of(xs[0].c)) && LegalRun(xs[1..], Sent(xs[0], s)))
  }

  predicate AllReceived(xs: seq<Packing>, trees: seq<seq<Tree>>)
    requires AllPackable(xs)
  {
    |trees| == |xs| && forall i | 0 <= i < |xs| :: AllTold(xs[i].table, xs[i].ts, trees[i])
  }

  lemma {:induction false} CaptureDecodes(x: Packing, s: State)
    requires Packable(x) && LegalMessages(x.table, x.ts, s.tid, s.Of(x.c))
    ensures var r := RunOne(Pack(x, s.Of(x.c)), s);
            r.Done? && r.value.0 == Sent(x, s) && AllTold(x.table, x.ts, r.value.1)
  {
    var k := Pack(x, s.Of(x.c));
    var body := SendMessages(x.table, x.ts, s.Of(x.c)).bytes;
    assert (x.header + body)[|x.header|..] == body;
    MessagesDecode(x.table, x.ts, s.tid, Start(k), s.Of(x.c));
  }

  predicate RunReceived(xs: seq<Packing>, r: Outcome<seq<seq<Tree>>>)
    requires AllPackable(xs)
  {
    r.Done? && AllReceived(xs, r.value)
  }

  lemma {:induction false} RunNext(xs: seq<Packing>, s: State)
    requires AllPackable(xs) && xs != []
    requires var x := xs[0];
             var r := RunOne(Pack(x, s.Of(x.c)), s);
             r.Done? && r.value.0 == Sent(x, s) && AllTold(x.table, x.ts, r.value.1)
    requires RunReceived(xs[1..], Run(PackAll(xs[1..], Sent(xs[0], s)), Sent(xs[0], s)))
    ensures RunReceived(xs, Run(PackAll(xs, s), s))
  {
    var x := xs[0];
    var ks, k := PackAll(xs[1..], Sent(x, s)), Pack(x, s.Of(x.c));
    assert PackAll(xs, s) == [k] + ks && ([k] + ks)[1..] == ks;
    var later, shown := Run(ks, Sent(x, s)).value, RunOne(k, s).value.1;
    assert Run([k] + ks, s) == Done([shown] + later);
    ReceivedFirst(xs, shown, later);
  }

  lemma {:induction false} ReceivedFirst(xs: seq<Packing>, shown: seq<Tree>, later: seq<seq<Tree>>)
    requires AllPackable(xs) && xs != [] && AllTold(xs[0].table, xs[0].ts, shown) && AllReceived(xs[1..], later)
    ensures AllReceived(xs, [shown] + later)
  {
    forall i | 0 <= i < |xs|
      ensures AllTold(xs[i].table, xs[i].ts, ([shown] + later)[i])
    {
      if i > 0 { assert xs[1..][i - 1] == xs[i]; }
    }
  }

  /** Any run of packets, of any mix of conversations, is received as it was sent. */
  lemma {:induction false} RunDecodes(xs: seq<Packing>, s: State)
    requires AllPackable(xs) && LegalRun(xs, s)
    ensures RunReceived(xs, Run(PackAll(xs, s), s))
  {
    if xs != [] {
      CaptureDecodes(xs[0], s);
      RunDecodes(xs[1..], Sent(xs[0], s));
      RunNext(xs, s);
    }
  }
}
