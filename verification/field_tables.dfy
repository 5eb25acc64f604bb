/** The per-serializer field table (`_get_serializer_fields`) and the
    read model `get_models` publishes for a serializer. */
module FieldTables {
  import opened Wrappers
  import opened Json
  import opened Seqs
  import opened FieldCompiler

  /** One `(name, field)` item of `serializer().get_fields()`. */
  datatype FieldEntry = FieldEntry(name: string, field: Field)

  /** The fields of every serializer class the program declares. */
  type Catalog = map<SerializerClass, seq<FieldEntry>>

  /** The fields of `s`; a class the catalog does not know yields none. */
  function FieldsOf(cat: Catalog, s: SerializerClass): seq<FieldEntry> {
    if s in cat then cat[s] else []
  }

  /** `get_fields()` returns an ordered dict: field names are distinct. */
  ghost predicate DistinctNames(es: seq<FieldEntry>) {
    forall i, j :: 0 <= i < j < |es| ==> es[i].name != es[j].name
  }

  /** The table `_get_serializer_fields` returns: the compiled fields in
      order, and the names of the required, write-only and read-only ones. */
  datatype FieldTable = FieldTable(
    fields: seq<(string, Fragment)>,
    required: seq<string>,
    writeOnly: seq<string>,
    readOnly: seq<string>)

  /** A published model: the read model of a serializer, or a response
      type registered from a docstring (`{"id": name, "properties": type}`). */
  datatype Model =
    | ReadModel(properties: seq<(string, Fragment)>, required: seq<string>)
    | ExplicitType(id: string, schema: Value)

  predicate EntryRequired(e: FieldEntry) { IsRequired(e.field) }
  predicate EntryWriteOnly(e: FieldEntry) { IsWriteOnly(e.field) }
  predicate EntryReadOnly(e: FieldEntry) { IsReadOnly(e.field) }

  function Names(es: seq<FieldEntry>): (r: seq<string>)
    ensures |r| == |es| && forall i :: 0 <= i < |es| ==> r[i] == es[i].name
  {
    seq(|es|, i requires 0 <= i < |es| => es[i].name)
  }

  function Keys(props: seq<(string, Fragment)>): (r: seq<string>)
    ensures |r| == |props| && forall i :: 0 <= i < |props| ==> r[i] == props[i].0
  {
    seq(|props|, i requires 0 <= i < |props| => props[i].0)
  }

  /** The compiled fields in field order, leaving out those that compile
      to nothing. */
  function Compiled(hooks: Hooks, es: seq<FieldEntry>): seq<(string, Fragment)>
    decreases |es|
  {
    if es == [] then []
    else
      var e := es[|es| - 1];
      Compiled(hooks, es[..|es| - 1]) +
        (match CompileField(hooks, e.field)
         case Some(fr) => [(e.name, fr)]
         case None => [])
  }

  /** The table for a list of fields. */
  function TableOf(hooks: Hooks, es: seq<FieldEntry>): FieldTable {
    FieldTable(
      Compiled(hooks, es),
      Names(Filter(es, EntryRequired)),
      Names(Filter(es, EntryWriteOnly)),
      Names(Filter(es, EntryReadOnly)))
  }

  /** The read model `get_models` builds from a table: every compiled
      field except the write-only ones, and the required names that
      survive. */
  function PublishedModel(t: FieldTable): Model {
    var props := Filter(t.fields, (p: (string, Fragment)) => p.0 !in t.writeOnly);
    var keys := Keys(props);
    ReadModel(props, Filter(t.required, (n: string) => n in keys))
  }

  function ReadModelOf(hooks: Hooks, es: seq<FieldEntry>): Model {
    PublishedModel(TableOf(hooks, es))
  }

  /** The table of a field list extended by one field. */
  lemma TableSnoc(hooks: Hooks, es: seq<FieldEntry>, e: FieldEntry)
    ensures var t := TableOf(hooks, es);
      TableOf(hooks, es + [e]) == FieldTable(
        t.fields + (match CompileField(hooks, e.field) case Some(fr) => [(e.name, fr)] case None => []),
        t.required + (if IsRequired(e.field) then [e.name] else []),
        t.writeOnly + (if IsWriteOnly(e.field) then [e.name] else []),
        t.readOnly + (if IsReadOnly(e.field) then [e.name] else []))
  {
    assert (es + [e])[..|es|] == es;
    FilterSnoc(es, e, EntryRequired);
    FilterSnoc(es, e, EntryWriteOnly);
    FilterSnoc(es, e, EntryReadOnly);
    NamesSnoc(Filter(es, EntryRequired), e);
    NamesSnoc(Filter(es, EntryWriteOnly), e);
    NamesSnoc(Filter(es, EntryReadOnly), e);
  }

  /** The table of a prefix of a field list, extended by the next field,
      component by component. */
  lemma TablePrefixStep(hooks: Hooks, es: seq<FieldEntry>, i: nat)
    requires i < |es|
    ensures var t := TableOf(hooks, es[..i]); var e := es[i]; var c := CompileField(hooks, e.field);
      TableOf(hooks, es[..i + 1]).fields == t.fields + (if c.Some? then [(e.name, c.value)] else [])
    ensures var t := TableOf(hooks, es[..i]); var e := es[i];
      TableOf(hooks, es[..i + 1]).required == t.required + (if IsRequired(e.field) then [e.name] else [])
    ensures var t := TableOf(hooks, es[..i]); var e := es[i];
      TableOf(hooks, es[..i + 1]).writeOnly == t.writeOnly + (if IsWriteOnly(e.field) then [e.name] else [])
    ensures var t := TableOf(hooks, es[..i]); var e := es[i];
      TableOf(hooks, es[..i + 1]).readOnly == t.readOnly + (if IsReadOnly(e.field) then [e.name] else [])
  {
    assert es[..i + 1] == es[..i] + [es[i]];
    TableSnoc(hooks, es[..i], es[i]);
  }

  lemma NamesSnoc(es: seq<FieldEntry>, e: FieldEntry)
    ensures Names(es + [e]) == Names(es) + [e.name]
  {
  }

  // ------------------------------------------------------------ properties

  lemma NamesMember(es: seq<FieldEntry>, n: string)
    ensures n in Names(es) <==> exists e :: e in es && e.name == n
  {
    if n in Names(es) {
      var i :| 0 <= i < |es| && Names(es)[i] == n;
      assert es[i] in es;
    }
  }

  /** A compiled property is exactly a field that compiles to something. */
  lemma {:induction false} CompiledMember(hooks: Hooks, es: seq<FieldEntry>, n: string, fr: Fragment)
    ensures (n, fr) in Compiled(hooks, es) <==>
            exists e :: e in es && e.name == n && CompileField(hooks, e.field) == Some(fr)
    decreases |es|
  {
    if es != [] {
      var init := es[..|es| - 1];
      var last := es[|es| - 1];
      assert es == init + [last];
      var c := CompileField(hooks, last.field);
      var tail := if c.Some? then [(last.name, c.value)] else [];
      assert Compiled(hooks, es) == Compiled(hooks, init) + tail;
      CompiledMember(hooks, init, n, fr);
      if (n, fr) in Compiled(hooks, es) {
        if (n, fr) in tail {
          assert last in es && last.name == n && c == Some(fr);
        } else {
          assert (n, fr) in Compiled(hooks, init);
          var e :| e in init && e.name == n && CompileField(hooks, e.field) == Some(fr);
          assert e in es;
        }
      }
      if exists e :: e in es && e.name == n && CompileField(hooks, e.field) == Some(fr) {
        var e :| e in es && e.name == n && CompileField(hooks, e.field) == Some(fr);
        if e != last { assert e in init; }
      }
    }
  }

  /** Compilation keeps the field order: it distributes over concatenation. */
  lemma {:induction false} CompiledAppend(hooks: Hooks, a: seq<FieldEntry>, b: seq<FieldEntry>)
    ensures Compiled(hooks, a + b) == Compiled(hooks, a) + Compiled(hooks, b)
    decreases |b|
  {
    if b == [] {
      assert a + b == a;
    } else {
      var b' := b[..|b| - 1];
      assert (a + b)[..|a + b| - 1] == a + b';
      assert (a + b)[|a + b| - 1] == b[|b| - 1];
      CompiledAppend(hooks, a, b');
    }
  }

  /** The read model's properties are exactly the fields that are not
      write-only and compile to something, with their compiled fragments. */
  lemma ReadModelProperties(hooks: Hooks, es: seq<FieldEntry>, n: string, fr: Fragment)
    requires DistinctNames(es)
    ensures (n, fr) in ReadModelOf(hooks, es).properties <==>
            exists e :: e in es && e.name == n && !IsWriteOnly(e.field) && CompileField(hooks, e.field) == Some(fr)
  {
    var t := TableOf(hooks, es);
    var wo := Filter(es, EntryWriteOnly);
    CompiledMember(hooks, es, n, fr);
    NamesMember(wo, n);
    if (n, fr) in ReadModelOf(hooks, es).properties {
      var e :| e in es && e.name == n && CompileField(hooks, e.field) == Some(fr);
      assert IsWriteOnly(e.field) ==> e in wo;
    }
    if exists e :: e in es && e.name == n && !IsWriteOnly(e.field) && CompileField(hooks, e.field) == Some(fr) {
      var e :| e in es && e.name == n && !IsWriteOnly(e.field) && CompileField(hooks, e.field) == Some(fr);
      forall e' | e' in es && e'.name == n ensures e' == e {
        SameNameSameEntry(es, e, e');
      }
    }
  }

  /** With distinct names, a name identifies its entry. */
  lemma SameNameSameEntry(es: seq<FieldEntry>, e: FieldEntry, e': FieldEntry)
    requires DistinctNames(es) && e in es && e' in es && e.name == e'.name
    ensures e == e'
  {
    var i :| 0 <= i < |es| && es[i] == e;
    var j :| 0 <= j < |es| && es[j] == e';
    assert es[i].name == es[j].name;
  }

  /** Every required name of a read model is one of its properties. */
  lemma RequiredAreProperties(hooks: Hooks, es: seq<FieldEntry>)
    ensures var m := ReadModelOf(hooks, es);
      forall n :: n in m.required ==> n in Keys(m.properties)
  {
  }

  /** A name is required in the read model exactly when its field is
      required (a missing flag counts as required), not write-only, and
      compiles to something. */
  lemma ReadModelRequired(hooks: Hooks, es: seq<FieldEntry>, n: string)
    requires DistinctNames(es)
    ensures n in ReadModelOf(hooks, es).required <==>
            exists e :: e in es && e.name == n && IsRequired(e.field) && !IsWriteOnly(e.field)
                        && CompileField(hooks, e.field).Some?
  {
    var m := ReadModelOf(hooks, es);
    var req := Filter(es, EntryRequired);
    NamesMember(req, n);
    if n in m.required {
      assert n in Keys(m.properties);
      var k :| 0 <= k < |m.properties| && m.properties[k].0 == n;
      var fr := m.properties[k].1;
      ReadModelProperties(hooks, es, n, fr);
      var e :| e in es && e.name == n && !IsWriteOnly(e.field) && CompileField(hooks, e.field) == Some(fr);
      var e' :| e' in req && e'.name == n;
      SameNameSameEntry(es, e, e');
    }
    if exists e :: e in es && e.name == n && IsRequired(e.field) && !IsWriteOnly(e.field)
                   && CompileField(hooks, e.field).Some? {
      var e :| e in es && e.name == n && IsRequired(e.field) && !IsWriteOnly(e.field)
               && CompileField(hooks, e.field).Some?;
      var fr := CompileField(hooks, e.field).value;
      ReadModelProperties(hooks, es, n, fr);
      var k :| 0 <= k < |m.properties| && m.properties[k] == (n, fr);
      assert Keys(m.properties)[k] == n;
      assert e in req;
      assert n in Names(req);
    }
  }
}
