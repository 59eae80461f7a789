/** Messages, packets and whole runs of packets: what each leaves behind in the remembered template id
    and in the dictionaries of its conversation. */
module Packet {
  import opened StopBit
  import opened Fields
  import opened Template
  import opened Dictionary
  import opened Reader
  import opened Dissection
  import opened Dissector

  // ---------- one message ----------

  /** A message that was read. Without a template for its id nothing is known about the bytes after the id. */
  datatype Heard = Heard(pos: Pos, dict: Local, tid: int, known: bool, data: DataNode)

  /** Left: a position further on in the same packet, whatever its presence map. */
  predicate Behind(p: Pos, q: Pos) { q.offset + |q.bytes| == p.offset + |p.bytes| && |q.bytes| < |p.bytes| }

  datatype Head = Head(pos: Pos, cell: Cell, tid: int)

  /** The template id: from the stream when the first bit says so, else the one remembered. */
  function HeadOf(p: Pos, tid: int): (h: Head)
    ensures p.Leads(h.pos)
  {
    var (explicit, q) := ShiftPmap(p);
    if explicit then
      var cell := ReadUnsigned(W32, q, Cell(Empty, BLANK));
      Head(q.SkipNext(), cell, cell.value.num)
    else Head(q, Cell(Empty, BLANK), tid)
  }

  function FromHead(table: Templates, p: Pos, h: Head, d: Local): Outcome<Heard>
    requires Ready(table) && p.Leads(h.pos)
  {
    if h.tid !in table then
      Done(Heard(h.pos, d, h.tid, false, DataNode(p.offset, h.pos.offset - p.offset, h.cell.status, h.cell.value, [])))
    else
      var w :- WalkTo(table[h.tid], |table[h.tid]|, h.pos, d);
      var data := DataNode(p.offset, w.pos.offset - p.offset, h.cell.status, h.cell.value, w.kids);
      Done(Heard(w.pos, w.dict, h.tid, true, data))
  }

  /** dissect_fast_bytes. Without a presence map it returns before making the node its caller reads. */
  function DissectMessage(table: Templates, tid: int, p: Pos, d: Local): (r: Outcome<Heard>)
    requires Ready(table)
    ensures r.Done? ==> Behind(p, r.value.pos) && (r.value.known ==> r.value.tid in table)
  {
    var q := ReadPmap(p);
    if q.pmap == [] then Faulty else FromHead(table, q, HeadOf(q, tid), d)
  }

  // ---------- one packet ----------

  /** A template and the data tree that was read with it, as the packet keeps them. */
  datatype Tree = Tree(id: int, fields: seq<Node>, data: DataNode)

  const ERROR_MESSAGE :=
    Node(FieldType(Some("Error Message"), Ascii, NoOp, true, 0, 0, None, "", false, BLANK, false), [])

  /** The made-up message that reports D9, template does not exist. */
  function UnknownTemplate(id: int): Tree {
    Tree(id, [ERROR_MESSAGE],
         DataNode(0, 0, Empty, FieldValue(0xFFFF_FFFF, 0, []), [DataNode(0, 0, Error(9), BLANK, [])]))
  }

  datatype Parsed = Parsed(tid: int, dict: Local, trees: seq<Tree>)

  /** The message loop of dissect_fast: an unknown template ends the packet. */
  function DissectPacket(table: Templates, tid: int, p: Pos, d: Local): Outcome<Parsed>
    requires Ready(table)
    decreases |p.bytes|
  {
    if p.bytes == [] then Done(Parsed(tid, d, []))
    else
      var m :- DissectMessage(table, tid, p, d);
      if !m.known then Done(Parsed(m.tid, m.dict, [UnknownTemplate(m.data.value.num)]))
      else
        var rest :- DissectPacket(table, m.tid, m.pos, m.dict);
        Done(rest.(trees := [Tree(m.tid, table[m.tid], m.data)] + rest.trees))
  }

  datatype Flavor = Plain | CME | UMDF | MOEX

  function HeaderSize(f: Flavor): nat {
    match f case Plain => 0 case CME => 5 case UMDF => 10 case MOEX => 4
  }

  /** A captured packet: its addresses, what is configured for its port, and its payload. */
  datatype Capture = Capture(c: Conversation, table: Templates, flavor: Flavor, payload: seq<byte>)

  predicate Admissible(k: Capture) { Ready(k.table) }

  predicate HoldsHeader(k: Capture) { HeaderSize(k.flavor) <= |k.payload| }

  function Start(k: Capture): Pos
    requires HoldsHeader(k)
  {
    Pos(HeaderSize(k.flavor), k.payload[HeaderSize(k.flavor)..], [], 0)
  }

  /** What one packet does to its own conversation; the exchanges' flavors reset the dictionaries after it. Nobody
      checks that their header is there: without it, the number of bytes left wraps around. */
  function DissectCapture(k: Capture, tid: int, d: Local): Outcome<Parsed>
    requires Admissible(k)
  {
    var r :- if HoldsHeader(k) then DissectPacket(k.table, tid, Start(k), d) else Faulty;
    Done(if k.flavor.Plain? then r else r.(dict := map[]))
  }

  // ---------- runs ----------

  /** Everything that outlives a packet: the static template id and every conversation's dictionaries. */
  datatype State = State(tid: int, locals: map<Conversation, Local>) {
    function Of(c: Conversation): Local { if c in locals then locals[c] else map[] }
  }

  function RunOne(k: Capture, s: State): Outcome<(State, seq<Tree>)>
    requires Admissible(k)
  {
    var r :- DissectCapture(k, s.tid, s.Of(k.c));
    Done((State(r.tid, s.locals[k.c := r.dict]), r.trees))
  }

  predicate AllAdmissible(ks: seq<Capture>) { forall i | 0 <= i < |ks| :: Admissible(ks[i]) }

  /** The trees of each packet of a run, in order. */
  function Run(ks: seq<Capture>, s: State): (r: Outcome<seq<seq<Tree>>>)
    requires AllAdmissible(ks)
    ensures r.Done? ==> |r.value| == |ks|
  {
    if ks == [] then Done([])
    else
      var r :- RunOne(ks[0], s);
      var rest :- Run(ks[1..], r.0);
      Done([r.1] + rest)
  }

  // ---------- the imperative dissector ----------

  class FastDissector {
    var templateId: int      // static guint32
    const store: Dictionaries

    constructor ()
      ensures Valid() && fresh(store) && templateId == 0
      ensures store.locals == map[]
    {
      templateId := 0;
      store := new Dictionaries();
    }

    ghost predicate Valid()
      reads this, store
    {
      store.Valid()
    }

    ghost function View(): State
      reads this, store
    {
      State(templateId, store.locals)
    }

    /** The id from the stream when the first bit says so, else the one remembered. */
    method DissectTemplateId(position: DissectPosition, fdata: FieldData)
      requires position.Valid() && fdata.ToCell() == Cell(Empty, BLANK) && fdata.nbytes == 0
      modifies this`templateId, position, fdata`status, fdata`value, fdata`nbytes
      ensures position.Valid()
      ensures Head(position.View(), fdata.ToCell(), templateId) == HeadOf(old(position.View()), old(templateId))
      ensures fdata.nbytes == position.offset - old(position.offset)
    {
      var explicit := position.DissectShiftPmap();
      if explicit {
        BasicDissectUint(W32, position, fdata);
        templateId := fdata.value.num;
      }
    }

    method DissectFastBytes(table: Templates, position: DissectPosition, c: Conversation)
      returns (ok: bool, known: bool, data: DataNode)
      requires Valid() && position.Valid() && Ready(table)
      modifies this, store, position
      ensures Valid() && position.Valid() && store.locals - {c} == old(store.locals) - {c}
      ensures var r := DissectMessage(table, old(templateId), old(position.View()), old(store.LocalOf(c)));
              && ok == r.Done?
              && (ok ==> Heard(position.View(), store.LocalOf(c), templateId, known, data) == r.value)
    {
      ok, known, data := true, false, DataNode(0, 0, Empty, BLANK, []);
      var fdata := new FieldData();
      ghost var p := position.View();
      BasicDissectPmap(position, position);
      if position.pmapLen == 0 {
        ok := false;
        return;
      }
      fdata.start := position.offset;
      fdata.nbytes := 0;
      DissectTemplateId(position, fdata);
      ghost var h := HeadOf(ReadPmap(p), old(templateId));
      assert DissectMessage(table, old(templateId), p, old(store.LocalOf(c))) ==
               FromHead(table, ReadPmap(p), h, old(store.LocalOf(c)));
      data := DataNode(fdata.start, fdata.nbytes, fdata.status, fdata.value, []);
      if templateId !in table { return; }
      known := true;
      assert position.View() == h.pos && ReadPmap(p).Leads(h.pos);
      var kids;
      ok, kids := DissectorWalk(table[templateId], position, store, c);
      if !ok { return; }
      fdata.nbytes := position.offset - fdata.start;
      data := DataNode(fdata.start, fdata.nbytes, fdata.status, fdata.value, kids);
    }

    /** The message loop of dissect_fast. */
    method DissectMessages(table: Templates, position: DissectPosition, c: Conversation)
      returns (ok: bool, trees: seq<Tree>)
      requires Valid() && position.Valid() && Ready(table)
      modifies this, store, position
      ensures Valid() && store.locals - {c} == old(store.locals) - {c}
      ensures var r := DissectPacket(table, old(templateId), old(position.View()), old(store.LocalOf(c)));
              ok == r.Done? && (ok ==> Parsed(templateId, store.LocalOf(c), trees) == r.value)
    {
      ok, trees := true, [];
      ghost var whole := DissectPacket(table, templateId, position.View(), store.LocalOf(c));
      NoneYet(whole);
      while position.nbytes > 0
        invariant Valid() && position.Valid() && store.locals - {c} == old(store.locals) - {c}
        invariant whole == Following(trees, DissectPacket(table, templateId, position.View(), store.LocalOf(c)))
        decreases |position.bytes|
      {
        NextMessage(table, templateId, position.View(), store.LocalOf(c), trees);
        var known, data;
        ok, known, data := DissectFastBytes(table, position, c);
        if !ok { return; }
        if known {
          trees := trees + [Tree(templateId, table[templateId], data)];
        } else {
          trees := trees + [UnknownTemplate(data.value.num)];
          position.nbytes, position.bytes := 0, [];
          NoneLeft(table, templateId, position.View(), store.LocalOf(c), trees);
        }
      }
    }

    /** dissect_fast on a packet that has not been dissected yet. */
    method DissectFast(k: Capture) returns (ok: bool, trees: seq<Tree>)
      requires Valid() && Admissible(k)
      modifies this, store
      ensures Valid() && store.locals - {k.c} == old(store.locals) - {k.c}
      ensures var r := DissectCapture(k, old(templateId), old(store.LocalOf(k.c)));
              ok == r.Done? && (ok ==> Parsed(templateId, store.LocalOf(k.c), trees) == r.value)
    {
      ok, trees := HeaderSize(k.flavor) <= |k.payload|, [];
      if !ok { return; }
      var position := new DissectPosition(0, k.payload);
      position.offjmp := HeaderSize(k.flavor);
      position.ShiftBytes();
      assert position.View() == Start(k);
      ok, trees := DissectMessages(k.table, position, k.c);
      if ok && !k.flavor.Plain? {
        store.ClearDictionaries(k.c);
      }
    }
  }

  /** A packet of which some trees are read already. */
  ghost function Following(trees: seq<Tree>, r: Outcome<Parsed>): Outcome<Parsed> {
    if r.Faulty? then Faulty else Done(r.value.(trees := trees + r.value.trees))
  }

  lemma {:induction false} NoneYet(r: Outcome<Parsed>)
    ensures Following([], r) == r
  {
    if r.Done? { assert [] + r.value.trees == r.value.trees; }
  }

  lemma {:induction false} NoneLeft(table: Templates, tid: int, p: Pos, d: Local, trees: seq<Tree>)
    requires Ready(table) && p.bytes == []
    ensures Following(trees, DissectPacket(table, tid, p, d)) == Done(Parsed(tid, d, trees))
  {
    assert trees + [] == trees;
  }

  lemma {:induction false} NextMessage(table: Templates, tid: int, p: Pos, d: Local, trees: seq<Tree>)
    requires Ready(table) && p.bytes != []
    ensures var r := DissectMessage(table, tid, p, d);
            Following(trees, DissectPacket(table, tid, p, d)) ==
              match r
              case Faulty => Faulty
              case Done(m) =>
                if m.known then
                  Following(trees + [Tree(m.tid, table[m.tid], m.data)], DissectPacket(table, m.tid, m.pos, m.dict))
                else Done(Parsed(m.tid, m.dict, trees + [UnknownTemplate(m.data.value.num)]))
  {
    var r := DissectMessage(table, tid, p, d);
    if r.Done? && r.value.known {
      var m := r.value;
      var rest := DissectPacket(table, m.tid, m.pos, m.dict);
      var t := Tree(m.tid, table[m.tid], m.data);
      if rest.Done? { assert trees + ([t] + rest.value.trees) == (trees + [t]) + rest.value.trees; }
    }
  }
}
