/** Whole runs of packets from several conversations: who can disturb whom. */
module Runs {
  import opened StopBit
  import opened Fields
  import opened Template
  import opened Dictionary
  import opened Reader
  import opened Dissection
  import opened Packet

  // ---------- the remembered template id ----------

  predicate CarriesId(p: Pos) { PeekPmap(ReadPmap(p)) }

  lemma {:induction false} IdFromStream(table: Templates, tid: int, tid': int, p: Pos, d: Local)
    requires Ready(table) && CarriesId(p)
    ensures DissectMessage(table, tid, p, d) == DissectMessage(table, tid', p, d)
  {
  }

  lemma {:induction false} IdRemembered(table: Templates, tid: int, p: Pos, d: Local)
    requires Ready(table) && p.bytes != [] && !CarriesId(p) && DissectPacket(table, tid, p, d).Done?
    ensures var t := DissectPacket(table, tid, p, d).value.trees;
            t != [] && if tid in table then t[0].id == tid && t[0].data.value == BLANK else t[0] == UnknownTemplate(0)
  {
  }

  /** Which id an earlier packet left behind matters exactly when the first message does not carry its own. */
  lemma {:induction false} StaleIdMatters(table: Templates, t: int, u: int, p: Pos, d: Local)
    requires Ready(table) && t in table && t != u && p.bytes != []
    requires DissectPacket(table, t, p, d).Done? && DissectPacket(table, u, p, d).Done?
    ensures DissectPacket(table, t, p, d).value.trees == DissectPacket(table, u, p, d).value.trees <==> CarriesId(p)
  {
    if CarriesId(p) {
      IdFromStream(table, t, u, p, d);
    } else {
      IdRemembered(table, t, p, d);
      IdRemembered(table, u, p, d);
    }
  }

  /** The first message of the packet, if any, carries its template id. */
  predicate OpensWithId(k: Capture)
  {
    HoldsHeader(k) ==> Start(k).bytes == [] || CarriesId(Start(k))
  }

  /** The same up to the template id that is left behind. */
  predicate SameTrees(r: Outcome<Parsed>, r': Outcome<Parsed>) {
    r.Done? == r'.Done? && (r.Done? ==> r.value.trees == r'.value.trees && r.value.dict == r'.value.dict)
  }

  lemma {:induction false} PacketIdIrrelevant(table: Templates, tid: int, tid': int, p: Pos, d: Local)
    requires Ready(table) && (p.bytes == [] || CarriesId(p))
    ensures SameTrees(DissectPacket(table, tid, p, d), DissectPacket(table, tid', p, d))
  {
    if p.bytes != [] {
      IdFromStream(table, tid, tid', p, d);
      assert DissectPacket(table, tid, p, d) == DissectPacket(table, tid', p, d);
    }
  }

  lemma {:induction false} CaptureIdIrrelevant(k: Capture, tid: int, tid': int, d: Local)
    requires Admissible(k) && OpensWithId(k)
    ensures SameTrees(DissectCapture(k, tid, d), DissectCapture(k, tid', d))
  {
    if HoldsHeader(k) {
      PacketIdIrrelevant(k.table, tid, tid', Start(k), d);
    }
  }

  // ---------- what a packet's ends look like ----------

  /** An exchange's header is skipped: five bytes, ten or four. */
  lemma {:induction false} HeaderSkipped(k: Capture, header: seq<byte>, body: seq<byte>)
    requires k.payload == header + body
    requires |header| == match k.flavor case Plain => 0 case CME => 5 case UMDF => 10 case MOEX => 4
    ensures HoldsHeader(k) && Start(k) == Pos(|header|, body, [], 0)
  {
    assert (header + body)[|header|..] == body;
  }

  /** A message whose id has no template is the last of its packet, and is kept as one field in error D9, under the id
      that was read. */
  lemma {:induction false} UnknownReported(table: Templates, tid: int, p: Pos, d: Local)
    requires Ready(table) && p.bytes != [] && ReadPmap(p).pmap != [] && HeadOf(ReadPmap(p), tid).tid !in table
    ensures var r, h := DissectPacket(table, tid, p, d), HeadOf(ReadPmap(p), tid);
            && r.Done? && r.value.tid == h.tid && r.value.dict == d && |r.value.trees| == 1
            && var t := r.value.trees[0];
               && (PeekPmap(ReadPmap(p)) ==> t.id == h.tid)
               && |t.fields| == 1 == |t.data.kids| && t.data.kids[0].status == Error(9)
  {
  }

  // ---------- conversations do not interfere ----------

  ghost predicate OthersApart(c: Conversation, s: State, t: State) { forall c' :: c' != c ==> s.Of(c') == t.Of(c') }

  lemma {:induction false} OneStep(k: Capture, s: State)
    requires Admissible(k) && RunOne(k, s).Done?
    ensures var t := RunOne(k, s).value.0;
            var r := DissectCapture(k, s.tid, s.Of(k.c));
            && OthersApart(k.c, s, t)
            && r.Done? && t.Of(k.c) == r.value.dict && t.tid == r.value.tid && RunOne(k, s).value.1 == r.value.trees
  {
  }

  function Only(c: Conversation, ks: seq<Capture>): (r: seq<Capture>)
    ensures AllAdmissible(ks) ==> AllAdmissible(r)
  {
    if ks == [] then [] else (if ks[0].c == c then [ks[0]] else []) + Only(c, ks[1..])
  }

  /** The results that belong to one conversation. */
  function Mine<T>(c: Conversation, ks: seq<Capture>, rs: seq<T>): seq<T>
    requires |rs| == |ks|
  {
    if ks == [] then [] else (if ks[0].c == c then [rs[0]] else []) + Mine(c, ks[1..], rs[1..])
  }

  lemma {:induction false} RunPlus(k: Capture, ks: seq<Capture>, s: State)
    requires Admissible(k) && AllAdmissible(ks) && RunOne(k, s).Done? && Run(ks, RunOne(k, s).value.0).Done?
    ensures Run([k] + ks, s) == Done([RunOne(k, s).value.1] + Run(ks, RunOne(k, s).value.0).value)
  {
    assert ([k] + ks)[1..] == ks;
  }

  /** What one conversation's packet does is the same in both runs. */
  lemma {:induction false} SameStep(k: Capture, s: State, s': State)
    requires Admissible(k) && OpensWithId(k) && RunOne(k, s).Done? && s.Of(k.c) == s'.Of(k.c)
    ensures RunOne(k, s').Done? && RunOne(k, s').value.1 == RunOne(k, s).value.1
    ensures RunOne(k, s').value.0.Of(k.c) == RunOne(k, s).value.0.Of(k.c)
  {
    CaptureIdIrrelevant(k, s.tid, s'.tid, s.Of(k.c));
    OneStep(k, s);
    OneStep(k, s');
  }

  lemma {:induction false} OnlyMine<T>(c: Conversation, k: Capture, ks: seq<Capture>, r: T, rs: seq<T>)
    requires |rs| == |ks|
    ensures Only(c, [k] + ks) == (if k.c == c then [k] else []) + Only(c, ks)
    ensures Mine(c, [k] + ks, [r] + rs) == (if k.c == c then [r] else []) + Mine(c, ks, rs)
  {
    assert ([k] + ks)[1..] == ks && ([r] + rs)[1..] == rs;
  }

  /** Taking the other conversations' packets out of a run changes nothing for this one, whatever template id
      was remembered, as long as its packets open with one. */
  lemma {:induction false} NonInterference(c: Conversation, ks: seq<Capture>, s: State, s': State)
    requires AllAdmissible(ks) && Run(ks, s).Done? && s.Of(c) == s'.Of(c)
    requires forall i | 0 <= i < |ks| :: ks[i].c == c ==> OpensWithId(ks[i])
    ensures Run(Only(c, ks), s') == Done(Mine(c, ks, Run(ks, s).value))
  {
    if ks != [] {
      var k, rest := ks[0], ks[1..];
      var t, shown := RunOne(k, s).value.0, RunOne(k, s).value.1;
      var later := Run(rest, t).value;
      OneStep(k, s);
      assert ks == [k] + rest && Run(ks, s).value == [shown] + later;
      OnlyMine(c, k, rest, shown, later);
      if k.c == c {
        SameStep(k, s, s');
        var t' := RunOne(k, s').value.0;
        NonInterference(c, rest, t, t');
        RunPlus(k, Only(c, rest), s');
      } else {
        NonInterference(c, rest, t, s');
        assert [] + Only(c, rest) == Only(c, rest) && [] + Mine(c, rest, later) == Mine(c, rest, later);
      }
    }
  }

  // ---------- resets ----------

  predicate ResetsFor(c: Conversation, ks: seq<Capture>) {
    forall i | 0 <= i < |ks| :: ks[i].c == c ==> !ks[i].flavor.Plain?
  }

  /** The first packet of a run, and the rest. */
  lemma {:induction false} RunParts(ks: seq<Capture>, s: State)
    requires AllAdmissible(ks) && ks != [] && Run(ks, s).Done?
    ensures RunOne(ks[0], s).Done? && Run(ks[1..], RunOne(ks[0], s).value.0).Done?
    ensures Run(ks, s).value == [RunOne(ks[0], s).value.1] + Run(ks[1..], RunOne(ks[0], s).value.0).value
  {
  }

  lemma {:induction false} StillReset(ks: seq<Capture>, s: State, i: nat)
    requires AllAdmissible(ks) && 0 < i < |ks| && RunOne(ks[0], s).Done?
    requires ResetsFor(ks[i].c, ks) && s.Of(ks[i].c) == map[]
    ensures RunOne(ks[0], s).value.0.Of(ks[i].c) == map[] && ResetsFor(ks[i].c, ks[1..])
  {
    OneStep(ks[0], s);
  }

  /** With the dictionaries cleared after every packet, what is shown for a packet depends on its own bytes only. */
  lemma {:induction false} ResetIndependence(ks: seq<Capture>, s: State, i: nat)
    requires AllAdmissible(ks) && i < |ks| && Run(ks, s).Done?
    requires ResetsFor(ks[i].c, ks) && OpensWithId(ks[i]) && s.Of(ks[i].c) == map[]
    ensures var alone := DissectCapture(ks[i], 0, map[]);
            alone.Done? && Run(ks, s).value[i] == alone.value.trees
  {
    RunParts(ks, s);
    OneStep(ks[0], s);
    if i == 0 {
      CaptureIdIrrelevant(ks[0], s.tid, 0, map[]);
    } else {
      var t := RunOne(ks[0], s).value.0;
      assert ks[1..][i - 1] == ks[i];
      StillReset(ks, s, i);
      ResetIndependence(ks[1..], t, i - 1);
    }
  }

  // ---------- the imperative dissector runs the same way ----------

  ghost predicate Agree(s: State, t: State) { s.tid == t.tid && forall c :: s.Of(c) == t.Of(c) }

  lemma {:induction false} AgreeingRuns(ks: seq<Capture>, s: State, t: State)
    requires AllAdmissible(ks) && Agree(s, t)
    ensures Run(ks, s) == Run(ks, t)
  {
    if ks != [] {
      assert s.Of(ks[0].c) == t.Of(ks[0].c);
      if RunOne(ks[0], s).Done? {
        OneStep(ks[0], s);
        OneStep(ks[0], t);
        AgreeingRuns(ks[1..], RunOne(ks[0], s).value.0, RunOne(ks[0], t).value.0);
      }
    }
  }

  lemma {:induction false} Replaced(s: State, t: State, c: Conversation, d: Local)
    requires s.locals - {c} == t.locals - {c} && t.Of(c) == d
    ensures Agree(State(t.tid, s.locals[c := d]), t)
  {
    forall c'
      ensures State(t.tid, s.locals[c := d]).Of(c') == t.Of(c')
    {
      if c' != c {
        assert c' in s.locals <==> c' in s.locals - {c};
        assert c' in t.locals <==> c' in t.locals - {c};
      }
    }
  }

  ghost function Shown(trees: seq<seq<Tree>>, r: Outcome<seq<seq<Tree>>>): Outcome<seq<seq<Tree>>> {
    if r.Faulty? then Faulty else Done(trees + r.value)
  }

  /** With the trees of the first i packets and the state they left behind, the rest of the run is still to come. */
  ghost predicate Reached(whole: Outcome<seq<seq<Tree>>>, ks: seq<Capture>, i: nat, s: State, trees: seq<seq<Tree>>)
    requires AllAdmissible(ks)
  {
    i <= |ks| && whole == Shown(trees, Run(ks[i..], s))
  }

  lemma {:induction false} AtStart(ks: seq<Capture>, s: State)
    requires AllAdmissible(ks)
    ensures Reached(Run(ks, s), ks, 0, s, [])
  {
    var whole := Run(ks, s);
    assert ks[0..] == ks;
    if whole.Done? { assert [] + whole.value == whole.value; }
  }

  lemma {:induction false} AtEnd(whole: Outcome<seq<seq<Tree>>>, ks: seq<Capture>, s: State, trees: seq<seq<Tree>>)
    requires AllAdmissible(ks) && Reached(whole, ks, |ks|, s, trees)
    ensures whole == Done(trees)
  {
    assert trees + [] == trees;
  }

  lemma {:induction false} NextPacket(whole: Outcome<seq<seq<Tree>>>, ks: seq<Capture>, i: nat, s: State, t: State,
                                      trees: seq<seq<Tree>>)
    requires AllAdmissible(ks) && i < |ks| && Reached(whole, ks, i, s, trees)
    requires var r := DissectCapture(ks[i], s.tid, s.Of(ks[i].c));
             r.Done? ==>
               t.tid == r.value.tid && t.Of(ks[i].c) == r.value.dict && s.locals - {ks[i].c} == t.locals - {ks[i].c}
    ensures var r := DissectCapture(ks[i], s.tid, s.Of(ks[i].c));
            if r.Faulty? then whole.Faulty? else Reached(whole, ks, i + 1, t, trees + [r.value.trees])
  {
    var r := DissectCapture(ks[i], s.tid, s.Of(ks[i].c));
    assert ks[i..][0] == ks[i] && ks[i..][1..] == ks[i + 1..];
    if r.Done? {
      Replaced(s, t, ks[i].c, r.value.dict);
      AgreeingRuns(ks[i + 1..], RunOne(ks[i], s).value.0, t);
      var rest := Run(ks[i + 1..], t);
      if rest.Done? { assert trees + ([r.value.trees] + rest.value) == (trees + [r.value.trees]) + rest.value; }
    }
  }

  /** One packet more. */
  method DissectNext(fast: FastDissector, ks: seq<Capture>, i: nat, trees: seq<seq<Tree>>,
                     ghost whole: Outcome<seq<seq<Tree>>>)
    returns (ok: bool, more: seq<seq<Tree>>)
    requires fast.Valid() && AllAdmissible(ks) && i < |ks| && Reached(whole, ks, i, fast.View(), trees)
    modifies fast, fast.store
    ensures fast.Valid()
    ensures if ok then Reached(whole, ks, i + 1, fast.View(), more) else whole.Faulty?
  {
    ghost var s := fast.View();
    var shown;
    ok, shown := fast.DissectFast(ks[i]);
    NextPacket(whole, ks, i, s, fast.View(), trees);
    more := trees + [shown];
  }

  method DissectAll(fast: FastDissector, ks: seq<Capture>) returns (ok: bool, trees: seq<seq<Tree>>)
    requires fast.Valid() && AllAdmissible(ks)
    modifies fast, fast.store
    ensures fast.Valid()
    ensures var r := Run(ks, old(fast.View()));
            ok == r.Done? && (ok ==> trees == r.value)
  {
    ok, trees := true, [];
    var i := 0;
    ghost var whole := Run(ks, fast.View());
    AtStart(ks, fast.View());
    while i < |ks|
      invariant 0 <= i <= |ks| && fast.Valid() && Reached(whole, ks, i, fast.View(), trees)
    {
      ok, trees := DissectNext(fast, ks, i, trees, whole);
      if !ok { return; }
      i := i + 1;
    }
    AtEnd(whole, ks, fast.View(), trees);
  }
}
