/** Which groups carry a presence map of their own, decided once per template. */
module Template {
  import opened Fields

  predicate RequiresPmapBit(f: FieldType) {
    if f.typ.Group? then !f.mandatory
    else match f.op
      case Constant => !f.mandatory
      case Default => true
      case Copy => true
      case Increment => true
      case Tail => true
      case _ => false
  }

  /** Some bit of the enclosing presence map belongs to this node or, short of a group, below it. */
  predicate UsesBits(n: Node) {
    RequiresPmapBit(n.f) || (!n.f.typ.Group? && exists i | 0 <= i < |n.children| :: UsesBits(n.children[i]))
  }

  predicate SomeUsesBits(ns: seq<Node>) { exists i | 0 <= i < |ns| :: UsesBits(ns[i]) }

  /** The flag every group must end up with. */
  predicate FlagsRight(n: Node) {
    && (n.f.typ.Group? ==> n.f.pmapExists == SomeUsesBits(n.children))
    && forall i | 0 <= i < |n.children| :: FlagsRight(n.children[i])
  }

  /** As the parser leaves it: no group flagged yet. */
  predicate Unflagged(n: Node) {
    (n.f.typ.Group? ==> !n.f.pmapExists) && forall i | 0 <= i < |n.children| :: Unflagged(n.children[i])
  }

  /** The same template up to the groups' flags. */
  predicate SameButFlags(a: Node, b: Node) {
    && b.f == (if a.f.typ.Group? then a.f.(pmapExists := b.f.pmapExists) else a.f)
    && |a.children| == |b.children|
    && forall i | 0 <= i < |a.children| :: SameButFlags(a.children[i], b.children[i])
  }

  /** A node after the walk: same template, right flags. */
  predicate Fixed(a: Node, b: Node) { SameButFlags(a, b) && FlagsRight(b) && UsesBits(b) == UsesBits(a) }

  predicate AllFixed(a: seq<Node>, b: seq<Node>) { |a| == |b| && forall i | 0 <= i < |a| :: Fixed(a[i], b[i]) }

  /** fixup_walk_template: walks the siblings, flagging the enclosing group as soon as one needs a bit.
      The flag is threaded through nodes that are not groups and starts afresh in each group. */
  method FixupWalkTemplate(flag: bool, ns: seq<Node>) returns (flag': bool, ns': seq<Node>)
    requires forall i | 0 <= i < |ns| :: Unflagged(ns[i])
    ensures flag' == (flag || SomeUsesBits(ns))
    ensures AllFixed(ns, ns')
    decreases ns
  {
    flag', ns' := flag, [];
    var i := 0;
    while i < |ns|
      invariant 0 <= i <= |ns|
      invariant flag' == (flag || SomeUsesBits(ns[..i]))
      invariant AllFixed(ns[..i], ns')
    {
      var t := ns[i];
      SomeSnoc(ns, i);
      if !flag' {
        if RequiresPmapBit(t.f) {
          flag' := true;
        }
      }
      if t.f.typ.Group? {
        var own, kids := FixupWalkTemplate(t.f.pmapExists, t.children);
        SameBits(t.children, kids);
        ns' := ns' + [Node(t.f.(pmapExists := own), kids)];
      } else {
        var kids;
        flag', kids := FixupWalkTemplate(flag', t.children);
        SameBits(t.children, kids);
        ns' := ns' + [Node(t.f, kids)];
      }
      i := i + 1;
    }
    assert ns[..i] == ns;
  }

  lemma {:induction false} SomeSnoc(ns: seq<Node>, i: nat)
    requires i < |ns|
    ensures SomeUsesBits(ns[..i + 1]) == (SomeUsesBits(ns[..i]) || UsesBits(ns[i]))
  {
    assert ns[..i + 1] == ns[..i] + [ns[i]];
    if j :| 0 <= j < i && UsesBits(ns[..i][j]) { assert UsesBits(ns[..i + 1][j]); }
    if UsesBits(ns[i]) { assert UsesBits(ns[..i + 1][i]); }
    var s := ns[..i + 1];
    if j :| 0 <= j < |s| && UsesBits(s[j]) {
      if j < i { assert UsesBits(ns[..i][j]); }
    }
  }

  lemma {:induction false} SameBits(a: seq<Node>, b: seq<Node>)
    requires AllFixed(a, b)
    ensures SomeUsesBits(a) == SomeUsesBits(b)
  {
    if i :| 0 <= i < |a| && UsesBits(a[i]) { assert Fixed(a[i], b[i]) && UsesBits(b[i]); }
    if i :| 0 <= i < |b| && UsesBits(b[i]) { assert Fixed(a[i], b[i]) && UsesBits(a[i]); }
  }

  /** Flagging does not disturb the shape the parser built. */
  lemma {:induction false} FixedWellFormed(a: Node, b: Node)
    requires SameButFlags(a, b) && WellFormed(a)
    ensures WellFormed(b)
    decreases a
  {
    forall i | 0 <= i < |a.children| && WellFormed(a.children[i])
      ensures WellFormed(b.children[i])
    {
      FixedWellFormed(a.children[i], b.children[i]);
    }
    forall i | 0 <= i < |a.children|
      ensures SameButFlags(a.children[i], b.children[i]) && b.children[i].f.typ == a.children[i].f.typ
      ensures b.children[i].f.mandatory == a.children[i].f.mandatory
    {
    }
  }

  datatype TemplateDef = TemplateDef(id: int, fields: seq<Node>)

  type Templates = map<int, seq<Node>>

  /** What the lookup table holds under an id: the last template with that id, flagged. */
  predicate Holds(table: Templates, ts: seq<TemplateDef>) {
    && (forall i | 0 <= i < |ts| :: ts[i].id in table)
    && forall id | id in table :: exists i | 0 <= i < |ts| :: Provides(ts, id, i, table[id])
  }

  /** Template i is the last one with this id, and these are its fields after the walk. */
  predicate Provides(ts: seq<TemplateDef>, id: int, i: int, fields: seq<Node>) {
    LastWith(ts, id, i) && AllFixed(ts[i].fields, fields)
  }

  predicate LastWith(ts: seq<TemplateDef>, id: int, i: int) {
    0 <= i < |ts| && ts[i].id == id && forall j | i < j < |ts| :: ts[j].id != id
  }

  method CreateTemplatesTable(ts: seq<TemplateDef>) returns (table: Templates)
    requires forall i, j | 0 <= i < |ts| && 0 <= j < |ts[i].fields| :: Unflagged(ts[i].fields[j])
    ensures Holds(table, ts)
  {
    table := map[];
    var k := 0;
    while k < |ts|
      invariant 0 <= k <= |ts| && Holds(table, ts[..k])
    {
      ghost var was, before := table, ts[..k];
      var flag, fields := FixupWalkTemplate(true, ts[k].fields);
      table := table[ts[k].id := fields];
      assert ts[..k + 1] == before + [ts[k]];
      Inserted(before, ts[k], was, fields);
      k := k + 1;
    }
    assert ts[..k] == ts;
  }

  lemma {:induction false} Inserted(before: seq<TemplateDef>, t: TemplateDef, was: Templates, fields: seq<Node>)
    requires Holds(was, before) && AllFixed(t.fields, fields)
    ensures Holds(was[t.id := fields], before + [t])
  {
    var ts, table := before + [t], was[t.id := fields];
    forall id | id in table
      ensures exists i | 0 <= i < |ts| :: Provides(ts, id, i, table[id])
    {
      if id == t.id {
        assert Provides(ts, id, |before|, table[id]);
      } else {
        var i :| 0 <= i < |before| && Provides(before, id, i, was[id]);
        LastKept(before, t, id, i);
        assert Provides(ts, id, i, table[id]);
      }
    }
  }

  lemma {:induction false} LastKept(before: seq<TemplateDef>, t: TemplateDef, id: int, i: int)
    requires LastWith(before, id, i) && t.id != id
    ensures LastWith(before + [t], id, i) && (before + [t])[i] == before[i]
  {
  }

  /** Every template the dissector can look up is well formed and rightly flagged. */
  predicate Ready(table: Templates) {
    forall id | id in table :: AllReady(table[id])
  }

  predicate AllReady(ns: seq<Node>) { AllWellFormed(ns) && forall i | 0 <= i < |ns| :: FlagsRight(ns[i]) }

  lemma {:induction false} TableReady(table: Templates, ts: seq<TemplateDef>)
    requires Holds(table, ts) && forall i | 0 <= i < |ts| :: AllWellFormed(ts[i].fields)
    ensures Ready(table)
  {
    forall id | id in table
      ensures AllReady(table[id])
    {
      var i := Source(table, ts, id);
      FieldsReady(ts[i].fields, table[id]);
    }
  }

  lemma {:induction false} Source(table: Templates, ts: seq<TemplateDef>, id: int) returns (i: int)
    requires Holds(table, ts) && id in table
    ensures 0 <= i < |ts| && AllFixed(ts[i].fields, table[id])
  {
    i :| 0 <= i < |ts| && Provides(ts, id, i, table[id]);
  }

  lemma {:induction false} FieldsReady(a: seq<Node>, b: seq<Node>)
    requires AllFixed(a, b) && AllWellFormed(a)
    ensures AllReady(b)
  {
    forall j | 0 <= j < |b|
      ensures WellFormed(b[j]) && FlagsRight(b[j])
    {
      assert Fixed(a[j], b[j]);
      FixedWellFormed(a[j], b[j]);
    }
  }
}
