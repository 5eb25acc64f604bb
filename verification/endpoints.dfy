/** What the generator reads from the introspection layer for each
    endpoint and HTTP method, and the operation records, response maps,
    path documents and serializer sets it builds from that. */
module Endpoints {
  import opened Wrappers
  import opened Json
  import opened Text
  import opened Seqs
  import opened FieldCompiler

  /** One response declared in a method's YAML docstring. `schema` is
      `Null` when absent or `None`; `example` likewise. */
  datatype ResponseMessage = ResponseMessage(
    code: Value,
    description: Option<string>,
    schema: Value,
    example: Value)

  /** The YAML docstring parser of one method. `responses` is the list
      `get_responses` returns; it is assumed to be a list, never `None`
      (see README "## Left out"). `load` is
      `load_serializer_class(schema, callback)`; `None` when it raises (a
      loader that returns `None` without raising is not modelled). */
  datatype DocParser = DocParser(
    responseType: Option<Value>,
    omitSerializer: bool,
    yamlError: Option<string>,
    responses: seq<ResponseMessage>,
    parameters: seq<Value>,
    tags: seq<Value>,
    consumes: seq<Value>,
    produces: seq<Value>,
    load: Value -> Option<SerializerClass>)

  /** One method introspector of an endpoint. `isMethodIntrospector` is
      whether it is a `BaseMethodIntrospector`. */
  datatype MethodDoc = MethodDoc(
    isMethodIntrospector: bool,
    httpMethod: string,
    summary: string,
    notes: string,
    nickname: string,
    requestSerializer: Option<SerializerClass>,
    responseSerializer: Option<SerializerClass>,
    extraSerializers: seq<Option<SerializerClass>>,
    doc: DocParser)

  /** An endpoint with the method introspectors its handler yields. */
  datatype Api = Api(path: string, methods: seq<MethodDoc>)

  datatype ResponseSchema =
    | SchemaRef(reference: string)
    | SchemaInline(schema: Value)

  datatype ResponseSpec = ResponseSpec(
    description: string,
    schema: Option<ResponseSchema>,
    example: Option<Value>)

  /** One operation; `None` marks an absent key. */
  datatype Operation = Operation(
    summary: string,
    description: string,
    operationId: string,
    parameters: seq<Value>,
    responses: map<Value, ResponseSpec>,
    tags: Option<seq<Value>>,
    consumes: Option<seq<Value>>,
    produces: Option<seq<Value>>)

  /** `_get_response_serializer`: the declared response serializer, unless
      the docstring names a custom response type or says to omit it. */
  function ResponseSerializer(md: MethodDoc): (r: Option<SerializerClass>)
    ensures r.Some? <==> md.doc.responseType.None? && !md.doc.omitSerializer && md.responseSerializer.Some?
    ensures r.Some? ==> r == md.responseSerializer
  {
    if md.doc.responseType.Some? then None
    else if md.doc.omitSerializer then None
    else md.responseSerializer
  }

  // ---------------------------------------------------------- responses

  /** The response record for one declared response: a string schema is
      loaded as a serializer and referenced (and dropped when loading
      fails), any other non-null schema is copied. */
  function ResponseFor(doc: DocParser, m: ResponseMessage): ResponseSpec {
    ResponseSpec(
      description := m.description.GetOr(""),
      schema :=
        match m.schema
        case Null => None
        case Str(_) =>
          (match doc.load(m.schema)
           case Some(s) => Some(SchemaRef(RefTo(s.name)))
           case None => None)
        case _ => Some(SchemaInline(m.schema)),
      example := if m.example != Null then Some(m.example) else None)
  }

  function ResponseEntry(doc: DocParser): ResponseMessage -> (Value, ResponseSpec) {
    (m: ResponseMessage) => (m.code, ResponseFor(doc, m))
  }

  const DefaultResponses: map<Value, ResponseSpec> :=
    map[Str("default") := ResponseSpec("Default response", None, None)]

  /** The `responses` of an operation: keyed by code, a later response with
      the same code replacing an earlier one; a generic default response
      when none is declared. */
  function Responses(doc: DocParser): map<Value, ResponseSpec> {
    if doc.responses == [] then DefaultResponses
    else Assoc(doc.responses, ResponseEntry(doc))
  }

  // --------------------------------------------------------- operations

  /** The description: the notes, with the YAML error appended if any. */
  function OperationDescription(md: MethodDoc): string {
    match md.doc.yamlError
    case None => md.notes
    case Some(err) => md.notes + "<pre>YAMLError:\n " + err + "</pre>"
  }

  /** A list-valued key is emitted only when the list is non-empty. */
  function NonEmpty(xs: seq<Value>): (r: Option<seq<Value>>)
    ensures r.Some? <==> xs != []
    ensures r.Some? ==> r.value == xs
  {
    if xs == [] then None else Some(xs)
  }

  function OperationOf(md: MethodDoc): Operation {
    Operation(
      summary := md.summary,
      description := OperationDescription(md),
      operationId := md.nickname,
      parameters := md.doc.parameters,
      responses := Responses(md.doc),
      tags := NonEmpty(md.doc.tags),
      consumes := NonEmpty(md.doc.consumes),
      produces := NonEmpty(md.doc.produces))
  }

  /** Method introspectors that get an operation: real method
      introspectors other than the OPTIONS probe. */
  predicate Documented(md: MethodDoc) {
    md.isMethodIntrospector && md.httpMethod != "OPTIONS"
  }

  function OperationEntry(md: MethodDoc): (string, Operation) {
    (Lower(md.httpMethod), OperationOf(md))
  }

  /** The operations of one endpoint, keyed by lower-cased HTTP method. */
  function Operations(methods: seq<MethodDoc>): map<string, Operation> {
    Assoc(Filter(methods, Documented), OperationEntry)
  }

  function ApiEntry(api: Api): (string, map<string, Operation>) {
    (api.path, Operations(api.methods))
  }

  /** `generate`: the operations of every endpoint, keyed by path. */
  function Document(apis: seq<Api>): map<string, map<string, Operation>> {
    Assoc(apis, ApiEntry)
  }

  // ----------------------------------------------------- serializer set

  /** The serializers named by non-null response schemas, or the first
      schema whose loading fails. */
  function ResponseLoads(doc: DocParser, ms: seq<ResponseMessage>): Result<set<SerializerClass>, Value>
    decreases |ms|
  {
    if ms == [] then Success({})
    else
      var last := ms[|ms| - 1];
      match ResponseLoads(doc, ms[..|ms| - 1])
      case Failure(e) => Failure(e)
      case Success(acc) =>
        if last.schema == Null then Success(acc)
        else
          match doc.load(last.schema)
          case Some(s) => Success(acc + {s})
          case None => Failure(last.schema)
  }

  /** The extra serializers that are not `None`. */
  function ExtraSet(extras: seq<Option<SerializerClass>>): (r: set<SerializerClass>)
    ensures forall s :: s in r <==> Some(s) in extras
    decreases |extras|
  {
    if extras == [] then {}
    else
      var last := extras[|extras| - 1];
      assert extras == extras[..|extras| - 1] + [last];
      ExtraSet(extras[..|extras| - 1]) + (if last.Some? then {last.value} else {})
  }

  function OptionSet(o: Option<SerializerClass>): set<SerializerClass> {
    if o.Some? then {o.value} else {}
  }

  /** What one method introspector adds to the serializer set. */
  function MethodSerializers(md: MethodDoc): Result<set<SerializerClass>, Value> {
    match ResponseLoads(md.doc, md.doc.responses)
    case Failure(e) => Failure(e)
    case Success(loaded) =>
      Success(OptionSet(md.requestSerializer) + OptionSet(ResponseSerializer(md))
              + ExtraSet(md.extraSerializers) + loaded)
  }

  /** The method introspectors of all endpoints, in order. */
  function AllMethods(apis: seq<Api>): seq<MethodDoc>
    decreases |apis|
  {
    if apis == [] then [] else AllMethods(apis[..|apis| - 1]) + apis[|apis| - 1].methods
  }

  /** The union of a sequence of contributions, or the first failure. */
  function Gather(rs: seq<Result<set<SerializerClass>, Value>>): Result<set<SerializerClass>, Value>
    decreases |rs|
  {
    if rs == [] then Success({})
    else
      match Gather(rs[..|rs| - 1])
      case Failure(e) => Failure(e)
      case Success(acc) =>
        match rs[|rs| - 1]
        case Failure(e) => Failure(e)
        case Success(more) => Success(acc + more)
  }

  /** `_get_serializer_set` over a sequence of method introspectors. */
  function SerializerSet(mds: seq<MethodDoc>): Result<set<SerializerClass>, Value> {
    Gather(seq(|mds|, i requires 0 <= i < |mds| => MethodSerializers(mds[i])))
  }

  // ------------------------------------------------------------ properties

  /** An endpoint has an operation for key `k` exactly when one of its
      documented methods lower-cases to `k`. */
  lemma OperationsKeys(methods: seq<MethodDoc>, k: string)
    ensures k in Operations(methods) <==>
            exists i :: 0 <= i < |methods| && Documented(methods[i]) && Lower(methods[i].httpMethod) == k
  {
    var kept := Filter(methods, Documented);
    AssocKeys(kept, OperationEntry, k);
    if k in Operations(methods) {
      var j :| 0 <= j < |kept| && OperationEntry(kept[j]).0 == k;
      var md := kept[j];
      assert md in methods && Documented(md) && Lower(md.httpMethod) == k;
      var i :| 0 <= i < |methods| && methods[i] == md;
    }
    if exists i :: 0 <= i < |methods| && Documented(methods[i]) && Lower(methods[i].httpMethod) == k {
      var i :| 0 <= i < |methods| && Documented(methods[i]) && Lower(methods[i].httpMethod) == k;
      var md := methods[i];
      assert md in kept;
      var j :| 0 <= j < |kept| && kept[j] == md;
      assert OperationEntry(kept[j]).0 == k;
    }
  }

  /** Among the documented methods, the last one with a given key
      provides that key's operation. */
  lemma OperationsLast(methods: seq<MethodDoc>, k: string, i: int)
    requires IsLastWithKey(Filter(methods, Documented), OperationEntry, k, i)
    ensures k in Operations(methods)
    ensures Operations(methods)[k] == OperationOf(Filter(methods, Documented)[i])
  {
    AssocLast(Filter(methods, Documented), OperationEntry, k, i);
  }

  /** An endpoint whose only methods are OPTIONS (or not method
      introspectors) has no operations. */
  lemma OnlyOptionsHasNoOperations(methods: seq<MethodDoc>)
    requires forall i :: 0 <= i < |methods| ==> !Documented(methods[i])
    ensures Operations(methods) == map[]
  {
    FilterNone(methods, Documented);
  }

  /** If the introspectors report HTTP methods in upper case, as Django
      does, no operation is ever keyed "options". */
  lemma NoOptionsOperation(methods: seq<MethodDoc>)
    requires forall i, k :: 0 <= i < |methods| && 0 <= k < |methods[i].httpMethod| ==> !IsLower(methods[i].httpMethod[k])
    ensures "options" !in Operations(methods)
  {
    OperationsKeys(methods, "options");
    assert Lower("OPTIONS") == "options";
    forall i | 0 <= i < |methods| && Lower(methods[i].httpMethod) == "options"
      ensures methods[i].httpMethod == "OPTIONS"
    {
      LowerInjective(methods[i].httpMethod, "OPTIONS");
    }
  }

  /** With no declared responses the map is the single default response;
      otherwise its keys are exactly the declared codes and each holds the
      last response declared with that code. */
  lemma ResponsesRule(doc: DocParser, code: Value, i: int)
    ensures doc.responses == [] ==>
      Responses(doc) == map[Str("default") := ResponseSpec("Default response", None, None)]
    ensures doc.responses != [] ==>
      (code in Responses(doc) <==> exists j :: 0 <= j < |doc.responses| && doc.responses[j].code == code)
    ensures IsLastWithKey(doc.responses, ResponseEntry(doc), code, i) ==>
      code in Responses(doc) && Responses(doc)[code] == ResponseFor(doc, doc.responses[i])
  {
    AssocKeys(doc.responses, ResponseEntry(doc), code);
    if IsLastWithKey(doc.responses, ResponseEntry(doc), code, i) {
      AssocLast(doc.responses, ResponseEntry(doc), code, i);
    }
  }

  /** A string schema that fails to load leaves the response without a
      schema but with its description (empty when none was given). */
  lemma FailedLoadKeepsDescription(doc: DocParser, m: ResponseMessage)
    requires m.schema.Str? && doc.load(m.schema).None?
    ensures ResponseFor(doc, m).schema.None?
    ensures ResponseFor(doc, m).description == (if m.description.Some? then m.description.value else "")
  {
  }

  /** The document has one entry per distinct path, holding the operations
      of the last endpoint with that path. */
  lemma DocumentRule(apis: seq<Api>, path: string, i: int)
    ensures path in Document(apis) <==> exists j :: 0 <= j < |apis| && apis[j].path == path
    ensures IsLastWithKey(apis, ApiEntry, path, i) ==>
      path in Document(apis) && Document(apis)[path] == Operations(apis[i].methods)
  {
    AssocKeys(apis, ApiEntry, path);
    if IsLastWithKey(apis, ApiEntry, path, i) {
      AssocLast(apis, ApiEntry, path, i);
    }
  }

  /** Loading response schemas succeeds exactly when every non-null schema
      loads, and then yields the loaded serializers. */
  lemma {:induction false} ResponseLoadsMeaning(doc: DocParser, ms: seq<ResponseMessage>)
    ensures ResponseLoads(doc, ms).Success? <==>
            forall j :: 0 <= j < |ms| && ms[j].schema != Null ==> doc.load(ms[j].schema).Some?
    ensures ResponseLoads(doc, ms).Success? ==>
            forall s :: s in ResponseLoads(doc, ms).value <==>
              exists j :: 0 <= j < |ms| && ms[j].schema != Null && doc.load(ms[j].schema) == Some(s)
    decreases |ms|
  {
    if ms != [] {
      var init := ms[..|ms| - 1];
      ResponseLoadsMeaning(doc, init);
      assert forall j :: 0 <= j < |init| ==> init[j] == ms[j];
    }
  }

  /** Gathering succeeds exactly when every contribution does. */
  lemma {:induction false} GatherSucceeds(rs: seq<Result<set<SerializerClass>, Value>>)
    ensures Gather(rs).Success? <==> forall j :: 0 <= j < |rs| ==> rs[j].Success?
    decreases |rs|
  {
    if rs != [] {
      var init := rs[..|rs| - 1];
      GatherSucceeds(init);
      assert forall j :: 0 <= j < |init| ==> init[j] == rs[j];
    }
  }

  /** A successful gathering is the union of every contribution. */
  lemma {:induction false} GatherMembers(rs: seq<Result<set<SerializerClass>, Value>>, s: SerializerClass)
    requires Gather(rs).Success?
    ensures s in Gather(rs).value <==> exists j :: 0 <= j < |rs| && rs[j].Success? && s in rs[j].value
    decreases |rs|
  {
    if rs != [] {
      var n := |rs| - 1;
      var init := rs[..n];
      GatherMembers(init, s);
      if exists j :: 0 <= j < |rs| && rs[j].Success? && s in rs[j].value {
        var j :| 0 <= j < |rs| && rs[j].Success? && s in rs[j].value;
        if j < n {
          assert init[j] == rs[j];
        }
      }
      if s in Gather(init).value {
        var j :| 0 <= j < |init| && init[j].Success? && s in init[j].value;
        assert init[j] == rs[j];
      }
    }
  }

  /** The serializer set is found exactly when every method's response
      schemas load, and is then the union of what every method adds. */
  lemma SerializerSetMeaning(mds: seq<MethodDoc>, s: SerializerClass)
    ensures SerializerSet(mds).Success? <==> forall j :: 0 <= j < |mds| ==> MethodSerializers(mds[j]).Success?
    ensures SerializerSet(mds).Success? ==>
            (s in SerializerSet(mds).value <==>
             exists j :: 0 <= j < |mds| && s in MethodSerializers(mds[j]).value)
  {
    var rs := seq(|mds|, i requires 0 <= i < |mds| => MethodSerializers(mds[i]));
    assert forall j :: 0 <= j < |mds| ==> rs[j] == MethodSerializers(mds[j]);
    GatherSucceeds(rs);
    if Gather(rs).Success? {
      GatherMembers(rs, s);
      if exists j :: 0 <= j < |mds| && s in MethodSerializers(mds[j]).value {
        var j :| 0 <= j < |mds| && s in MethodSerializers(mds[j]).value;
        assert rs[j].Success? && s in rs[j].value;
      }
    }
  }
}
