/** The documentation generator object (`DocumentationGenerator` with the
    members it inherits from `DocumentationGeneratorBase`): it walks the
    endpoints, builds the operations of each path, collects the serializers
    they mention, discovers the serializers reachable through fields, and
    publishes one read model per serializer name. */
module DocGenerator {
  import opened Wrappers
  import opened Json
  import opened Text
  import opened Seqs
  import opened FieldCompiler
  import opened FieldTables
  import opened Discovery
  import opened Endpoints

  // ------------------------------------------------- response type names

  /** The view name with "ViewSet", then "APIView", then "View" removed. */
  function ViewLabel(view: string): string {
    Remove(Remove(Remove(view, "ViewSet"), "APIView"), "View")
  }

  /** The method name title-cased with its underscores removed. */
  function MethodLabel(methodName: string): string {
    Remove(Title(methodName), "_")
  }

  /** The name under which a custom response type is registered. */
  function ResponseTypeName(view: string, methodName: string): string {
    ViewLabel(view) + MethodLabel(methodName) + "Response"
  }

  /** The method label never holds an underscore and ignores the case of
      the method name. */
  lemma MethodLabelRule(methodName: string)
    ensures '_' !in MethodLabel(methodName)
    ensures MethodLabel(Lower(methodName)) == MethodLabel(methodName)
  {
    RemoveCharClears(Title(methodName), '_');
    TitleIgnoresCase(methodName);
  }

  /** A view named `x` plus one of the three suffixes, where `x` itself has
      no 'V' (and does not end in "API" before a bare "View"), is labelled
      `x`. */
  lemma ViewLabelSuffix(x: string)
    requires 'V' !in x
    ensures ViewLabel(x + "ViewSet") == x
    ensures ViewLabel(x + "APIView") == x
    ensures |x| < 3 || x[|x| - 3..] != "API" ==> ViewLabel(x + "View") == x
  {
    // `x` alone survives all three removals.
    AbsentCharBlocks(x, "ViewSet", 0, 'V');
    AbsentCharBlocks(x, "APIView", 3, 'V');
    AbsentCharBlocks(x, "View", 0, 'V');
    ReplaceAbsent(x, "ViewSet", "");
    ReplaceAbsent(x, "APIView", "");
    ReplaceAbsent(x, "View", "");
    // x + "ViewSet"
    NoEarlyOccurrence(x, "ViewSet", 0, 'V');
    ReplaceTrailing(x, "ViewSet", "");
    assert x + "" == x;
    // x + "APIView"
    OnlyLateV(x, "APIView", "ViewSet");
    ReplaceAbsent(x + "APIView", "ViewSet", "");
    NoEarlyOccurrence(x, "APIView", 3, 'V');
    ReplaceTrailing(x, "APIView", "");
    // x + "View"
    OnlyLateV(x, "View", "ViewSet");
    ReplaceAbsent(x + "View", "ViewSet", "");
    if |x| < 3 || x[|x| - 3..] != "API" {
      ApiViewNeedsApi(x);
      ReplaceAbsent(x + "View", "APIView", "");
      NoEarlyOccurrence(x, "View", 0, 'V');
      ReplaceTrailing(x, "View", "");
    }
  }

  /** "ViewSet" cannot occur in `x + tail` when `x` has no 'V' and the
      suffix of `tail` from its first 'V' is shorter than "ViewSet". */
  lemma OnlyLateV(x: string, tail: string, pat: string)
    requires 'V' !in x && pat == "ViewSet"
    requires tail == "APIView" || tail == "View"
    ensures !Occurs(x + tail, pat)
  {
    var s := x + tail;
    forall i | 0 <= i <= |s| - |pat| ensures !OccursAt(s, pat, i) {
      assert s[i..i + |pat|][0] == s[i];
      if i < |x| {
        assert s[i] == x[i];
      } else {
        assert s[i] == tail[i - |x|];
      }
    }
  }

  /** "APIView" occurs in `x + "View"` only if `x` ends in "API". */
  lemma ApiViewNeedsApi(x: string)
    requires 'V' !in x
    requires |x| < 3 || x[|x| - 3..] != "API"
    ensures !Occurs(x + "View", "APIView")
  {
    var s := x + "View";
    var pat := "APIView";
    forall i | 0 <= i <= |s| - |pat| ensures !OccursAt(s, pat, i) {
      assert s[i..i + |pat|][3] == s[i + 3];
      if i + 3 < |x| {
        assert s[i + 3] == x[i + 3];
      } else {
        assert i == |x| - 3;
        assert s[i..i + 3] == x[|x| - 3..];
        assert s[i..i + |pat|][..3] == s[i..i + 3];
      }
    }
  }

  // ---------------------------------------------------- published models

  /** `s` is a serializer `get_models` publishes: one of the base set, or
      one reachable from it through fields. */
  ghost predicate InScope(cat: Catalog, base: set<SerializerClass>, s: SerializerClass) {
    s in base || Reachable(cat, base, s)
  }

  /** What `get_models` returns for a base set of serializers: one entry
      per serializer name in scope and per registered response type; a
      registered response type overrides a read model of the same name;
      every other entry is the read model of some serializer in scope with
      that name (which one, when names clash, depends on set order). */
  ghost predicate PublishesModels(
    models: map<string, Model>, cat: Catalog, hooks: Hooks,
    explicit: map<string, Model>, base: set<SerializerClass>)
  {
    && (forall n :: n in models <==> n in explicit || exists s :: InScope(cat, base, s) && s.name == n)
    && (forall n :: n in explicit ==> models[n] == explicit[n])
    && (forall n :: n in models && n !in explicit ==>
          exists s :: InScope(cat, base, s) && s.name == n && models[n] == ReadModelOf(hooks, FieldsOf(cat, s)))
  }

  class DocumentationGenerator {
    /** The fields of every serializer class of the program. */
    const catalog: Catalog
    /** The introspection helpers the field compiler consults. */
    const hooks: Hooks
    /** Serializers registered from docstrings. */
    var explicitSerializers: set<SerializerClass>
    /** Custom response types registered from docstrings, by name. */
    var explicitResponseTypes: map<string, Model>

    constructor(catalog: Catalog, hooks: Hooks)
      ensures this.catalog == catalog && this.hooks == hooks
      ensures explicitSerializers == {} && explicitResponseTypes == map[]
    {
      this.catalog := catalog;
      this.hooks := hooks;
      explicitSerializers := {};
      explicitResponseTypes := map[];
    }

    /** `_get_method_response_type`: a custom response type from the
        docstring is registered under a name built from the view and the
        method, and that name is returned; otherwise the serializer's name,
        or "object" when there is none. */
    method GetMethodResponseType(doc: DocParser, serializer: Option<SerializerClass>, view: string, methodName: string)
      returns (name: string)
      modifies this
      ensures doc.responseType.Some? ==>
        && name == ResponseTypeName(view, methodName)
        && explicitResponseTypes == old(explicitResponseTypes)[name := ExplicitType(name, doc.responseType.value)]
      ensures doc.responseType.None? ==>
        && name == (if serializer.Some? then serializer.value.name else "object")
        && explicitResponseTypes == old(explicitResponseTypes)
      ensures explicitSerializers == old(explicitSerializers)
    {
      if doc.responseType.Some? {
        var viewName := Remove(view, "ViewSet");
        viewName := Remove(viewName, "APIView");
        viewName := Remove(viewName, "View");
        name := viewName + Remove(Title(methodName), "_") + "Response";
        explicitResponseTypes := explicitResponseTypes[name := ExplicitType(name, doc.responseType.value)];
      } else if serializer.Some? {
        name := serializer.value.name;
      } else {
        name := "object";
      }
    }

    /** `_get_serializer_fields`: the field table of a serializer class. */
    method GetSerializerFields(s: SerializerClass) returns (t: FieldTable)
      ensures t == TableOf(hooks, FieldsOf(catalog, s))
    {
      var es := FieldsOf(catalog, s);
      var fields: seq<(string, Fragment)> := [];
      var required: seq<string> := [];
      var writeOnly: seq<string> := [];
      var readOnly: seq<string> := [];
      for i := 0 to |es|
        invariant fields == TableOf(hooks, es[..i]).fields
        invariant required == TableOf(hooks, es[..i]).required
        invariant writeOnly == TableOf(hooks, es[..i]).writeOnly
        invariant readOnly == TableOf(hooks, es[..i]).readOnly
      {
        var e := es[i];
        TablePrefixStep(hooks, es, i);
        if IsWriteOnly(e.field) {
          writeOnly := writeOnly + [e.name];
        }
        if IsReadOnly(e.field) {
          readOnly := readOnly + [e.name];
        }
        if IsRequired(e.field) {
          required := required + [e.name];
        }
        var f := CompileField(hooks, e.field);
        if f.Some? {
          fields := fields + [(e.name, f.value)];
        }
      }
      assert es[..|es|] == es;
      t := FieldTable(fields, required, writeOnly, readOnly);
    }

    /** `_find_field_serializers`: every serializer reachable from `roots`
        by following at least one field edge. A visited set stops the walk
        at serializers already expanded. */
    method FindFieldSerializers(roots: set<SerializerClass>) returns (found: set<SerializerClass>)
      ensures forall t :: t in found <==> Reachable(catalog, roots, t)
    {
      found := {};
      var visited: set<SerializerClass> := {};
      var work := roots;
      WalkStart(catalog, roots);
      while work != {}
        invariant WalkInvariant(catalog, roots, visited, work, found)
        decreases |catalog.Keys - visited|, |work|
      {
        var s :| s in work;
        if s in visited {
          WalkSkip(catalog, roots, visited, work, found, s);
          assert |work - {s}| < |work|;
          work := work - {s};
        } else {
          var cs := Children(catalog, s);
          WalkExpand(catalog, roots, visited, work, found, s);
          ExpandProgress(catalog, visited, work, s);
          visited := visited + {s};
          found := found + cs;
          work := (work - {s}) + (cs - visited);
        }
      }
      WalkDone(catalog, roots, visited, found);
    }

    /** What one method introspector adds to the serializer set: its
        request and response serializers, its extra serializers, and the
        serializers its declared response schemas load, or the first
        schema that fails to load. */
    method CollectMethodSerializers(md: MethodDoc) returns (r: Result<set<SerializerClass>, Value>)
      ensures r == MethodSerializers(md)
    {
      var acc: set<SerializerClass> := {};
      if md.requestSerializer.Some? {
        acc := acc + {md.requestSerializer.value};
      }
      var response := ResponseSerializer(md);
      if response.Some? {
        acc := acc + {response.value};
      }
      assert acc == OptionSet(md.requestSerializer) + OptionSet(ResponseSerializer(md));
      var extras := md.extraSerializers;
      var extraSet: set<SerializerClass> := {};
      for j := 0 to |extras|
        invariant extraSet == ExtraSet(extras[..j])
      {
        ExtraSetStep(extras, j);
        if extras[j].Some? {
          extraSet := extraSet + {extras[j].value};
        }
      }
      assert extras[..|extras|] == extras;
      var ms := md.doc.responses;
      var loaded: set<SerializerClass> := {};
      for j := 0 to |ms|
        invariant ResponseLoads(md.doc, ms[..j]) == Success(loaded)
      {
        ResponseLoadsStep(md.doc, ms, j, loaded);
        if ms[j].schema != Null {
          var s := md.doc.load(ms[j].schema);
          if s.None? {
            ResponseLoadsFailureSticks(md.doc, ms, j + 1);
            assert ms[..|ms|] == ms;
            return Failure(ms[j].schema);
          }
          loaded := loaded + {s.value};
        }
      }
      assert ms[..|ms|] == ms;
      r := Success(acc + extraSet + loaded);
    }

    /** `_get_serializer_set`: the serializers every method introspector of
        every endpoint mentions; a response schema that fails to load aborts
        the collection. */
    method GetSerializerSet(apis: seq<Api>) returns (r: Result<set<SerializerClass>, Value>)
      ensures r == SerializerSet(AllMethods(apis))
    {
      var acc: set<SerializerClass> := {};
      assert AllMethods(apis[..0]) == [];
      for i := 0 to |apis|
        invariant SerializerSet(AllMethods(apis[..i])) == Success(acc)
      {
        assert apis[..i + 1][..i] == apis[..i];
        var more := CollectEndpointSerializers(AllMethods(apis[..i]), apis[i].methods, acc);
        if more.Failure? {
          AllMethodsPrefix(apis, i + 1);
          SerializerSetFailureSticks(AllMethods(apis[..i + 1]), AllMethods(apis));
          return more;
        }
        acc := more.value;
      }
      assert apis[..|apis|] == apis;
      r := Success(acc);
    }

    /** The inner loop of `_get_serializer_set`: the set collected so far
        (from the introspectors `before`) extended with what the method
        introspectors `ms` of one endpoint add. */
    method CollectEndpointSerializers(before: seq<MethodDoc>, ms: seq<MethodDoc>, acc: set<SerializerClass>)
      returns (r: Result<set<SerializerClass>, Value>)
      requires SerializerSet(before) == Success(acc)
      ensures r == SerializerSet(before + ms)
    {
      var collected := acc;
      assert before + ms[..0] == before;
      for j := 0 to |ms|
        invariant SerializerSet(before + ms[..j]) == Success(collected)
      {
        var more := CollectMethodSerializers(ms[j]);
        SerializerSetSnoc(before + ms[..j], ms[j]);
        assert before + ms[..j + 1] == before + ms[..j] + [ms[j]];
        if more.Failure? {
          assert before + ms[..j + 1] <= before + ms;
          SerializerSetFailureSticks(before + ms[..j + 1], before + ms);
          return more;
        }
        collected := collected + more.value;
      }
      assert ms[..|ms|] == ms;
      r := Success(collected);
    }

    /** `get_models`: the read model of every serializer the endpoints
        mention, every registered serializer and every serializer reachable
        from those through fields, keyed by serializer name, with the
        registered response types laid over them. A response schema that
        fails to load makes the whole call fail. */
    method GetModels(apis: seq<Api>) returns (r: Result<map<string, Model>, Value>)
      ensures r.Success? <==> SerializerSet(AllMethods(apis)).Success?
      ensures r.Success? ==>
        PublishesModels(r.value, catalog, hooks, explicitResponseTypes,
                        SerializerSet(AllMethods(apis)).value + explicitSerializers)
    {
      var collected := GetSerializerSet(apis);
      if collected.Failure? {
        return Failure(collected.error);
      }
      var base := collected.value + explicitSerializers;
      var discovered := FindFieldSerializers(base);
      var all := base + discovered;
      var models: map<string, Model> := map[];
      var remaining := all;
      while remaining != {}
        invariant remaining <= all
        invariant forall n :: n in models <==> exists s :: s in all - remaining && s.name == n
        invariant forall n :: n in models ==>
          exists s :: s in all - remaining && s.name == n && models[n] == ReadModelOf(hooks, FieldsOf(catalog, s))
        decreases |remaining|
      {
        var s :| s in remaining;
        var table := GetSerializerFields(s);
        models := models[s.name := PublishedModel(table)];
        remaining := remaining - {s};
      }
      assert forall s :: s in all <==> InScope(catalog, base, s);
      r := Success(models + explicitResponseTypes);
    }

    /** The responses of one operation, filled in declaration order. */
    method BuildResponses(doc: DocParser) returns (responses: map<Value, ResponseSpec>)
      ensures responses == Responses(doc)
    {
      var ms := doc.responses;
      if ms == [] {
        return DefaultResponses;
      }
      responses := map[];
      for i := 0 to |ms|
        invariant responses == Assoc(ms[..i], ResponseEntry(doc))
      {
        assert ms[..i + 1][..i] == ms[..i];
        var m := ms[i];
        var description := if m.description.Some? then m.description.value else "";
        var schema: Option<ResponseSchema> := None;
        if m.schema != Null {
          if m.schema.Str? {
            var loaded := doc.load(m.schema);
            if loaded.Some? {
              schema := Some(SchemaRef(RefTo(loaded.value.name)));
            }
          } else {
            schema := Some(SchemaInline(m.schema));
          }
        }
        var example := if m.example != Null then Some(m.example) else None;
        responses := responses[m.code := ResponseSpec(description, schema, example)];
      }
      assert ms[..|ms|] == ms;
    }

    /** `get_operations`: the operations of one endpoint, keyed by the
        lower-cased HTTP method, skipping OPTIONS and anything that is not
        a method introspector. */
    method GetOperations(api: Api) returns (operations: map<string, Operation>)
      ensures operations == Operations(api.methods)
    {
      operations := map[];
      var ms := api.methods;
      for i := 0 to |ms|
        invariant operations == Operations(ms[..i])
      {
        var md := ms[i];
        OperationsStep(ms, i);
        if !md.isMethodIntrospector || md.httpMethod == "OPTIONS" {
          continue;
        }
        var description := md.notes;
        if md.doc.yamlError.Some? {
          description := description + "<pre>YAMLError:\n " + md.doc.yamlError.value + "</pre>";
        }
        var responses := BuildResponses(md.doc);
        var operation := Operation(
          summary := md.summary,
          description := description,
          operationId := md.nickname,
          parameters := md.doc.parameters,
          responses := responses,
          tags := if md.doc.tags != [] then Some(md.doc.tags) else None,
          consumes := if md.doc.consumes != [] then Some(md.doc.consumes) else None,
          produces := if md.doc.produces != [] then Some(md.doc.produces) else None);
        assert operation == OperationOf(md);
        operations := operations[Lower(md.httpMethod) := operation];
      }
      assert ms[..|ms|] == ms;
    }

    /** `generate`: the operations of every endpoint, keyed by path. */
    method Generate(apis: seq<Api>) returns (docs: map<string, map<string, Operation>>)
      ensures docs == Document(apis)
    {
      docs := map[];
      for i := 0 to |apis|
        invariant docs == Assoc(apis[..i], ApiEntry)
      {
        assert apis[..i + 1][..i] == apis[..i];
        var operations := GetOperations(apis[i]);
        docs := docs[apis[i].path := operations];
      }
      assert apis[..|apis|] == apis;
    }
  }

  // --------------------------------------------------------- loop helpers

  /** One more method introspector: skipped unless documented, otherwise
      its operation replaces any earlier one under the same key. */
  lemma OperationsStep(ms: seq<MethodDoc>, i: nat)
    requires i < |ms|
    ensures !Documented(ms[i]) ==> Operations(ms[..i + 1]) == Operations(ms[..i])
    ensures Documented(ms[i]) ==>
      Operations(ms[..i + 1]) == Operations(ms[..i])[Lower(ms[i].httpMethod) := OperationOf(ms[i])]
  {
    var md := ms[i];
    var kept := Filter(ms[..i], Documented);
    assert ms[..i + 1] == ms[..i] + [md];
    FilterSnoc(ms[..i], md, Documented);
    if Documented(md) {
      assert Filter(ms[..i + 1], Documented) == kept + [md];
      AssocSnoc(kept, md, OperationEntry);
      assert OperationEntry(md) == (Lower(md.httpMethod), OperationOf(md));
    } else {
      assert Filter(ms[..i + 1], Documented) == kept;
    }
  }

  /** One more extra serializer: kept when it is not `None`. */
  lemma ExtraSetStep(extras: seq<Option<SerializerClass>>, j: nat)
    requires j < |extras|
    ensures ExtraSet(extras[..j + 1]) ==
      ExtraSet(extras[..j]) + (if extras[j].Some? then {extras[j].value} else {})
  {
    assert extras[..j + 1][..j] == extras[..j];
  }

  /** One more declared response: a null schema adds nothing, any other
      schema adds what it loads or fails with that schema. */
  lemma ResponseLoadsStep(doc: DocParser, ms: seq<ResponseMessage>, j: nat, loaded: set<SerializerClass>)
    requires j < |ms| && ResponseLoads(doc, ms[..j]) == Success(loaded)
    ensures ms[j].schema == Null ==> ResponseLoads(doc, ms[..j + 1]) == Success(loaded)
    ensures ms[j].schema != Null && doc.load(ms[j].schema).Some? ==>
      ResponseLoads(doc, ms[..j + 1]) == Success(loaded + {doc.load(ms[j].schema).value})
    ensures ms[j].schema != Null && doc.load(ms[j].schema).None? ==>
      ResponseLoads(doc, ms[..j + 1]) == Failure(ms[j].schema)
  {
    assert ms[..j + 1][..j] == ms[..j];
  }

  /** Expanding a serializer either shrinks the set of catalogued
      serializers not yet expanded, or (for one the catalog does not know)
      leaves it as it is and shrinks the queue. */
  lemma ExpandProgress(cat: Catalog, visited: set<SerializerClass>, work: set<SerializerClass>, s: SerializerClass)
    requires s in work && s !in visited
    ensures var before := |cat.Keys - visited|;
      var after := |cat.Keys - (visited + {s})|;
      var queued := (work - {s}) + (Children(cat, s) - (visited + {s}));
      after < before || (after == before && |queued| < |work|)
  {
    if s in cat {
      ExpandShrinks(cat.Keys, visited, s);
    } else {
      UnknownHasNoChildren(cat, s);
      assert cat.Keys - (visited + {s}) == cat.Keys - visited;
      assert (work - {s}) + (Children(cat, s) - (visited + {s})) == work - {s};
    }
  }

  lemma ExpandShrinks(keys: set<SerializerClass>, visited: set<SerializerClass>, s: SerializerClass)
    requires s in keys && s !in visited
    ensures |keys - (visited + {s})| < |keys - visited|
  {
    assert keys - visited == (keys - (visited + {s})) + {s};
  }

  /** Once the loads of a prefix fail, the loads of the whole fail the
      same way. */
  lemma {:induction false} ResponseLoadsFailureSticks(doc: DocParser, ms: seq<ResponseMessage>, k: nat)
    requires k <= |ms| && ResponseLoads(doc, ms[..k]).Failure?
    ensures ResponseLoads(doc, ms) == ResponseLoads(doc, ms[..k])
    decreases |ms|
  {
    if k < |ms| {
      var init := ms[..|ms| - 1];
      assert init[..k] == ms[..k];
      ResponseLoadsFailureSticks(doc, init, k);
    } else {
      assert ms[..k] == ms;
    }
  }

  /** The serializer set of a sequence extended by one introspector. */
  lemma SerializerSetSnoc(mds: seq<MethodDoc>, md: MethodDoc)
    ensures SerializerSet(mds + [md]) ==
      match SerializerSet(mds)
      case Failure(e) => Failure(e)
      case Success(acc) =>
        match MethodSerializers(md)
        case Failure(e) => Failure(e)
        case Success(more) => Success(acc + more)
  {
    var rs := seq(|mds|, i requires 0 <= i < |mds| => MethodSerializers(mds[i]));
    var rs' := seq(|mds + [md]|, i requires 0 <= i < |mds + [md]| => MethodSerializers((mds + [md])[i]));
    assert rs'[..|mds|] == rs;
  }

  /** The introspectors of the first `k` endpoints come first. */
  lemma {:induction false} AllMethodsPrefix(apis: seq<Api>, k: nat)
    requires k <= |apis|
    ensures AllMethods(apis[..k]) <= AllMethods(apis)
    decreases |apis|
  {
    if k < |apis| {
      var init := apis[..|apis| - 1];
      assert init[..k] == apis[..k];
      AllMethodsPrefix(init, k);
    } else {
      assert apis[..k] == apis;
    }
  }

  /** A failure while collecting a prefix is the failure of the whole. */
  lemma SerializerSetFailureSticks(prefix: seq<MethodDoc>, mds: seq<MethodDoc>)
    requires prefix <= mds && SerializerSet(prefix).Failure?
    ensures SerializerSet(mds) == SerializerSet(prefix)
  {
    var rs := seq(|mds|, i requires 0 <= i < |mds| => MethodSerializers(mds[i]));
    var ps := seq(|prefix|, i requires 0 <= i < |prefix| => MethodSerializers(prefix[i]));
    assert rs[..|prefix|] == ps;
    GatherFailureSticks(rs, |prefix|);
  }

  lemma {:induction false} GatherFailureSticks(rs: seq<Result<set<SerializerClass>, Value>>, k: nat)
    requires k <= |rs| && Gather(rs[..k]).Failure?
    ensures Gather(rs) == Gather(rs[..k])
    decreases |rs|
  {
    if k < |rs| {
      var init := rs[..|rs| - 1];
      assert init[..k] == rs[..k];
      GatherFailureSticks(init, k);
    } else {
      assert rs[..k] == rs;
    }
  }
}
