/** Dictionaries of previous values. One conversation's dictionaries behave as a flat map from
    (dictionary, key) to a typed value; the store keeps them as lazily created nested tables. */
module Dictionary {
  import opened Fields

  datatype DictId = OfTemplate(tid: int) | Named(name: string)

  datatype Slot = Slot(dict: DictId, key: string)

  /** A stored previous value; None is the explicitly empty one. */
  datatype TypedValue = TypedValue(typ: Typ, value: Option<FieldValue>)

  type Local = map<Slot, TypedValue>

  function DictOf(f: FieldType): DictId {
    if f.dictionary == "template" then OfTemplate(f.tid) else Named(f.dictionary)
  }

  function SlotOf(f: FieldType): Slot
    requires f.key.Some?
  {
    Slot(DictOf(f), f.key.value)
  }

  /** get_dictionary_value on the flat map. */
  function GetValue(f: FieldType, d: Local, c: Cell): (r: (bool, Cell)) {
    if f.key.None? then (false, c)
    else if SlotOf(f) in d then
      var prev := d[SlotOf(f)];
      if prev.typ != f.typ then (false, c.(status := Error(4)))
      else if prev.value.None? then (true, c.(status := Empty))
      else (true, Cell(Exists, prev.value.value))
    else if f.hasDefault then (false, Cell(Exists, f.value))
    else (false, c.(status := Undefined))
  }

  /** set_dictionary_value on the flat map. */
  function SetValue(f: FieldType, d: Local, c: Cell): (d': Local) {
    if f.key.None? then d
    else d[SlotOf(f) := TypedValue(f.typ, if c.status.Empty? then None else Some(c.value))]
  }

  predicate SameSlot(f: FieldType, g: FieldType) {
    f.key.Some? && g.key.Some? && SlotOf(f) == SlotOf(g)
  }

  /** A value is found exactly in a slot of the field's own type; a slot of another type gives error D4. */
  lemma {:induction false} GetIsTyped(f: FieldType, d: Local, c: Cell)
    requires !c.status.Error?
    ensures var (found, got) := GetValue(f, d, c);
            && (found <==> f.key.Some? && SlotOf(f) in d && d[SlotOf(f)].typ == f.typ)
            && (got.status == Error(4) <==> f.key.Some? && SlotOf(f) in d && d[SlotOf(f)].typ != f.typ)
            && (got.status == Error(4) ==> got.value == c.value)
  {
  }

  /** A get sees the last set of its slot and no other: the value, or that it was set empty. */
  lemma {:induction false} SetThenGet(f: FieldType, g: FieldType, d: Local, c: Cell, e: Cell)
    requires f.key.Some?
    ensures SameSlot(f, g) && f.typ == g.typ ==>
              GetValue(g, SetValue(f, d, c), e) ==
                (true, if c.status.Empty? then e.(status := Empty) else Cell(Exists, c.value))
    ensures SameSlot(f, g) && f.typ != g.typ ==> GetValue(g, SetValue(f, d, c), e) == (false, e.(status := Error(4)))
    ensures !SameSlot(f, g) ==> GetValue(g, SetValue(f, d, c), e) == GetValue(g, d, e)
  {
  }

  // ---------- the nested tables ----------

  type Address(==, !new) = seq<int>

  datatype Conversation = Conversation(src: Address, dest: Address)

  type Values = map<string, TypedValue>

  datatype ConversationTables = ConversationTables(normal: map<string, Values>, templates: map<int, Values>)

  type SrcTable = map<Address, map<Address, ConversationTables>>

  const NO_TABLES := ConversationTables(map[], map[])

  function ValuesOf(ct: ConversationTables, id: DictId): Values {
    match id
    case Named(name) => if name in ct.normal then ct.normal[name] else map[]
    case OfTemplate(tid) => if tid in ct.templates then ct.templates[tid] else map[]
  }

  function Lookup(ct: ConversationTables, s: Slot): Option<TypedValue> {
    var v := ValuesOf(ct, s.dict);
    if s.key in v then Some(v[s.key]) else None
  }

  function Find(d: Local, s: Slot): Option<TypedValue> {
    if s in d then Some(d[s]) else None
  }

  /** The tables of one conversation stand for a flat map; a missing table is an empty one. */
  ghost predicate Represents(ct: ConversationTables, d: Local) {
    forall s: Slot :: Lookup(ct, s) == Find(d, s)
  }

  function TablesOf(t: SrcTable, c: Conversation): ConversationTables {
    if c.src in t && c.dest in t[c.src] then t[c.src][c.dest] else NO_TABLES
  }

  class Dictionaries {
    var srcTable: SrcTable
    ghost var locals: map<Conversation, Local>

    /** What one conversation's tables stand for. */
    ghost function LocalOf(c: Conversation): Local
      reads this`locals
    {
      if c in locals then locals[c] else map[]
    }

    ghost predicate Valid()
      reads this
    {
      forall c: Conversation {:trigger TablesOf(srcTable, c)} :: Represents(TablesOf(srcTable, c), LocalOf(c))
    }

    constructor ()
      ensures Valid() && locals == map[]
    {
      srcTable := map[];
      locals := map[];
    }

    /** Lazily creates the tables of a conversation, which changes no dictionary. */
    method GetConversationTable(c: Conversation) returns (ct: ConversationTables)
      modifies this`srcTable
      ensures c.src in srcTable && c.dest in srcTable[c.src] && ct == srcTable[c.src][c.dest]
      ensures forall c': Conversation :: TablesOf(srcTable, c') == old(TablesOf(srcTable, c'))
    {
      var destTable := map[];
      if c.src in srcTable {
        destTable := srcTable[c.src];
      } else {
        srcTable := srcTable[c.src := destTable];
      }
      if c.dest !in destTable {
        srcTable := srcTable[c.src := destTable[c.dest := NO_TABLES]];
      }
      ct := srcTable[c.src][c.dest];
    }

    /** The tables of one conversation are changed in place, every other conversation keeps its own. */
    method Put(c: Conversation, ct: ConversationTables)
      requires c.src in srcTable && c.dest in srcTable[c.src]
      modifies this`srcTable
      ensures c.src in srcTable && c.dest in srcTable[c.src] && TablesOf(srcTable, c) == ct
      ensures forall c': Conversation | c' != c :: TablesOf(srcTable, c') == old(TablesOf(srcTable, c'))
    {
      srcTable := srcTable[c.src := srcTable[c.src][c.dest := ct]];
    }

    /** Lazily creates the dictionary of a field as well. */
    method GetDictionary(f: FieldType, c: Conversation) returns (dictionary: Values)
      requires Valid()
      modifies this`srcTable
      ensures Valid() && c.src in srcTable && c.dest in srcTable[c.src]
      ensures dictionary == ValuesOf(TablesOf(srcTable, c), DictOf(f))
    {
      var ct := GetConversationTable(c);
      ghost var was := ct;
      assert was == TablesOf(srcTable, c) && Represents(was, LocalOf(c));
      if f.dictionary == "template" {
        if f.tid !in ct.templates {
          ct := ct.(templates := ct.templates[f.tid := map[]]);
          Put(c, ct);
        }
        dictionary := ct.templates[f.tid];
      } else {
        if f.dictionary !in ct.normal {
          ct := ct.(normal := ct.normal[f.dictionary := map[]]);
          Put(c, ct);
        }
        dictionary := ct.normal[f.dictionary];
      }
      SameLookups(was, ct, LocalOf(c));
    }

    method GetDictionaryValue(f: FieldType, fdata: FieldData, c: Conversation) returns (found: bool)
      requires Valid()
      modifies this`srcTable, fdata`status, fdata`value
      ensures Valid()
      ensures (found, fdata.ToCell()) == GetValue(f, LocalOf(c), old(fdata.ToCell()))
    {
      var dictionary := GetDictionary(f, c);
      found := false;
      if f.key.None? { return; }
      var key := f.key.value;
      assert Lookup(TablesOf(srcTable, c), SlotOf(f)) == Find(LocalOf(c), SlotOf(f));
      if key in dictionary {
        var prev := dictionary[key];
        if prev.typ == f.typ {
          found := true;
          fdata.status := if prev.value.None? then Empty else Exists;
          if fdata.status.Exists? {
            fdata.value := prev.value.value;
          }
        } else {
          fdata.ErrD(4);
        }
      } else if f.hasDefault {
        fdata.status := Exists;
        fdata.value := f.value;
      } else {
        fdata.status := Undefined;
      }
    }

    /** Only the field's own slot of its own conversation changes. */
    method SetDictionaryValue(f: FieldType, fdata: FieldData, c: Conversation)
      requires Valid()
      modifies this
      ensures Valid()
      ensures LocalOf(c) == SetValue(f, old(LocalOf(c)), fdata.ToCell())
      ensures locals - {c} == old(locals) - {c}
    {
      var dictionary := GetDictionary(f, c);
      if f.key.None? { return; }
      var v := TypedValue(f.typ, if fdata.status.Empty? then None else Some(fdata.value));
      dictionary := dictionary[f.key.value := v];
      var ct := srcTable[c.src][c.dest];
      ghost var was := ct;
      if f.dictionary == "template" {
        ct := ct.(templates := ct.templates[f.tid := dictionary]);
      } else {
        ct := ct.(normal := ct.normal[f.dictionary := dictionary]);
      }
      Put(c, ct);
      OneSlot(was, ct, LocalOf(c), SlotOf(f), v);
      locals := locals[c := LocalOf(c)[SlotOf(f) := v]];
    }

    /** Every dictionary of the conversation is emptied; the tables themselves stay allocated. */
    method ClearDictionaries(c: Conversation)
      requires Valid()
      modifies this
      ensures Valid()
      ensures LocalOf(c) == map[]
      ensures locals - {c} == old(locals) - {c}
      ensures TablesOf(srcTable, c).normal.Keys == old(TablesOf(srcTable, c)).normal.Keys
      ensures TablesOf(srcTable, c).templates.Keys == old(TablesOf(srcTable, c)).templates.Keys
    {
      var ct := GetConversationTable(c);
      var normal := EmptyAll(ct.normal);
      var templates := EmptyAll(ct.templates);
      Put(c, ConversationTables(normal, templates));
      locals := locals[c := map[]];
    }
  }

  /** The loop over the keys of one table of dictionaries. */
  method EmptyAll<K(==)>(table: map<K, Values>) returns (emptied: map<K, Values>)
    ensures emptied.Keys == table.Keys && forall k | k in emptied :: emptied[k] == map[]
  {
    emptied := table;
    var node := table.Keys;
    while node != {}
      invariant node <= emptied.Keys == table.Keys
      invariant forall k | k in emptied && k !in node :: emptied[k] == map[]
      decreases node
    {
      var k :| k in node;
      emptied := emptied[k := map[]];
      node := node - {k};
    }
  }

  lemma {:induction false} SameLookups(a: ConversationTables, b: ConversationTables, d: Local)
    requires Represents(a, d) && forall id :: ValuesOf(a, id) == ValuesOf(b, id)
    ensures Represents(b, d)
  {
    forall s: Slot
      ensures Lookup(b, s) == Find(d, s)
    {
      assert Lookup(a, s) == Find(d, s);
    }
  }

  lemma {:induction false} OneSlot(a: ConversationTables, b: ConversationTables, d: Local, s: Slot, v: TypedValue)
    requires Represents(a, d) && ValuesOf(b, s.dict) == ValuesOf(a, s.dict)[s.key := v]
    requires forall id | id != s.dict :: ValuesOf(b, id) == ValuesOf(a, id)
    ensures Represents(b, d[s := v])
  {
    forall t: Slot
      ensures Lookup(b, t) == Find(d[s := v], t)
    {
      assert Lookup(a, t) == Find(d, t);
      assert t.dict == s.dict && t.key == s.key ==> t == s;
    }
  }
}
