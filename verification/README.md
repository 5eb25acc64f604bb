# django-rest-swagger documentation generator, modelled in Dafny

This project models the core of django-rest-swagger 0.3.7 (the Deepomatic
fork). That core turns the endpoints of a Django REST Framework API into a
Swagger document, and it has two parts:

- `rest_framework_swagger/docgenerator.py`. The documentation generator:
  - compiles each serializer field into a Swagger schema fragment;
  - builds the field table of a serializer and the read model published
    for it;
  - collects every serializer the endpoints mention and follows nested
    serializer fields transitively;
  - builds the operations of every endpoint, keyed by path and lower-cased
    HTTP method;
  - registers custom response types named in docstrings.
- `rest_framework_swagger/__init__.py`. The package settings:
  - the defaults;
  - their in-place merge into the settings a project supplies;
  - the validation of the Swagger version and of the `info` object each
    version requires (the Info Object of Swagger 1.2, section 5.1.3, and
    the Info Object of Swagger 2.0).

Modules, leaves first:

| module | file | models |
|---|---|---|
| `Wrappers` | `wrappers.dfy` | `Option`, `Result`, `Outcome` |
| `Json` | `json.dfy` | the JSON-like values settings, choices and schemas carry |
| `Text` | `text.dfy` | Python 2's byte-string `strip`, `lower`, `title` and `replace` |
| `Seqs` | `seqs.dfy` | in-order filtering, and filling a dict where later keys win |
| `FieldCompiler` | `field_compiler.dfy` | `_build_serializer_field` |
| `FieldTables` | `field_tables.dfy` | `_get_serializer_fields` and the read model of `get_models` |
| `Discovery` | `discovery.dfy` | the field graph that `_find_field_serializers` walks, and the recursion as written |
| `Endpoints` | `endpoints.dfy` | specifications of `get_operations`, `generate`, `_get_response_serializer`, `_get_serializer_set` |
| `DocGenerator` | `generator.dfy` | the `DocumentationGenerator` class and its methods |
| `Settings` | `settings.dfy` | `DEFAULT_SWAGGER_SETTINGS`, `load_settings`, `validate_info_*`, `reload_settings` |

The code of `introspectors.py` is not part of this model. The values the
generator reads from it are ordinary data here:

- `get_data_type`, `get_default_value`, the field's choices, bounds and
  flags are fields of `FieldCompiler.Field`.
- `BaseMethodIntrospector.ENUMS` and `get_primitive_type` are the
  `FieldCompiler.Hooks`.
- `IntrospectorHelper.get_serializer_name` is the `name` of a
  `SerializerClass`.
- The YAML docstring parser is a `Endpoints.DocParser`.
  - Its `load_serializer_class` is a partial function: `None` stands for
    "raised". A loader that returns `None` without raising is not modelled
    (see "## Left out").
- The serializer classes of the program and their `get_fields()` are a
  `FieldTables.Catalog`. The field names of one serializer are distinct,
  because `get_fields()` returns a dict; the type does not carry this, so
  the lemmas that need it require `FieldTables.DistinctNames`.

Each loop of the source is a method of `DocumentationGenerator`,
`SwaggerSettings` or the `Settings` module. Its `ensures` ties its result
to a specification function (`TableOf`, `Operations`, `Document`,
`Responses`, `SerializerSet`, `Validate`). The lemmas next to each
function state what the source promises about it.

## Model

| member | source | states |
|---|---|---|
| FieldCompiler.CompileField | rest_framework_swagger/docgenerator.py:205-273 | A field compiles to nothing exactly when its help text is `""` or its data type is `hidden`. An emitted `format` always differs from `type`. `minimum` and `maximum` appear together. `items` appears exactly for arrays. `$ref` appears exactly for nested serializers. |
| FieldCompiler.DescriptionRule | rest_framework_swagger/docgenerator.py:207-214 | Help text yields a description exactly when it has a non-blank character. The description is then the help text with its leading and trailing whitespace removed: a slice with only whitespace before and after it, neither starting nor ending with whitespace. |
| FieldCompiler.NestedSerializerShape | rest_framework_swagger/docgenerator.py:216-221 | A nested serializer compiles to exactly `type: object` and `$ref: #/definitions/<name>`, plus the optional description. The name gets the `Write` prefix for a write-only field. |
| FieldCompiler.ArrayItemsRule | rest_framework_swagger/docgenerator.py:226-234 | The items of an array reference the child serializer's model, or are the child compiled by the same rules. No `format` and no `enum` is emitted for an array. |
| FieldCompiler.EnumRule | rest_framework_swagger/docgenerator.py:235-249 | For an enum-capable type with choices, `enum` is the choice keys in declared order, for both list and dict choices. The type is the type guessed from the first key. `format` is the guessed format when it differs from that type, and absent otherwise. |
| FieldCompiler.ScalarRule | rest_framework_swagger/docgenerator.py:223-249 | Outside the enum case, a declared scalar type is kept as `type`, and its format becomes `format` exactly when it differs from the type. No `enum`, `items` or `$ref` is emitted. |
| FieldCompiler.UndeclaredIsString | rest_framework_swagger/docgenerator.py:223 | A field without a data type, and with no choices to re-derive one from, is a plain `string` with no format. |
| FieldCompiler.BoundsRule | rest_framework_swagger/docgenerator.py:251-271 | Bounds appear exactly for an integer with a maximum, and the minimum is then copied even when it is `None`. Each length bound appears exactly when it is above -1, with its value. The default is the field's default value exactly when that is not `None`. |
| FieldCompiler.ChoiceKeys | rest_framework_swagger/docgenerator.py:236-240 | The keys, in order, of list or dict choices. Anything else has no keys. |
| FieldCompiler.RefTo | rest_framework_swagger/docgenerator.py:220 | A reference is `#/definitions/` followed by the model name, and nothing else. |
| Text.Strip | rest_framework_swagger/docgenerator.py:211-212 | A stripped text is a slice of its input. Everything before and after the slice is whitespace, and the slice neither starts nor ends with whitespace. It is empty exactly when the input is all whitespace. |
| Text.StrippedUnique | rest_framework_swagger/docgenerator.py:211-212 | A text has exactly one stripped form, so the contract of `Strip` determines Python's `strip()`. |
| Text.StripIsTheStrippedForm | rest_framework_swagger/docgenerator.py:211-212 | Any slice that meets the stripping conditions is what `Strip` returns. |
| FieldTables.CompiledMember | rest_framework_swagger/docgenerator.py:195-199 | A `(name, fragment)` pair is in the compiled fields exactly when some field of that name compiles to that fragment. |
| FieldTables.CompiledAppend | rest_framework_swagger/docgenerator.py:186-199 | Compilation keeps field order: the fields of a concatenation are the concatenation of the fields. |
| FieldTables.ReadModelProperties | rest_framework_swagger/docgenerator.py:416-419 | With distinct field names, a property is in the read model exactly when its field compiles to it and the field is not write-only. |
| FieldTables.ReadModelRequired | rest_framework_swagger/docgenerator.py:424 | With distinct field names, a name is required exactly when its field is marked required (a missing flag counts as true), compiles to something, and is not write-only. |
| FieldTables.RequiredAreProperties | rest_framework_swagger/docgenerator.py:424 | Every required name of a read model is one of its property keys. |
| Discovery.FieldSerializer | rest_framework_swagger/docgenerator.py:447-452 | A serializer field leads to itself, and a list field whose child is a serializer leads to that child. Any other field leads nowhere. |
| Discovery.EntriesChildren | rest_framework_swagger/docgenerator.py:445-457 | The serializers a field list leads to are exactly those some field leads to. |
| Discovery.ReachableStep | rest_framework_swagger/docgenerator.py:452-458 | A serializer that a root or a reached serializer leads to is reached. |
| Discovery.ClosedContainsReachable | rest_framework_swagger/docgenerator.py:443-460 | A set that holds the roots' children and is closed under children holds everything reachable. |
| Discovery.MutualReferenceReachesBoth | rest_framework_swagger/docgenerator.py:454-458 | Two serializers that refer to each other both reach each other and themselves. |
| Discovery.WalkExpand | rest_framework_swagger/docgenerator.py:445-458 | Expanding an unexpanded serializer keeps the walk's invariant: everything found is reachable, expanded serializers' children are found, and only roots and found serializers are queued. |
| Discovery.WalkDone | rest_framework_swagger/docgenerator.py:460 | When nothing is queued, the found set is exactly the reachable serializers. |
| Discovery.AsWrittenSelfReference | rest_framework_swagger/docgenerator.py:454-458 | The recursion as written, on a serializer with a field of its own class, fails at every stack depth. |
| Discovery.SelfReferenceReached | rest_framework_swagger/docgenerator.py:452-458 | The same self-referencing serializer is reached by the visited-set walk. |
| Endpoints.ResponseSerializer | rest_framework_swagger/docgenerator.py:60-77 | The response serializer is reported exactly when the docstring names no response type, does not say to omit the serializer, and the method declares one. |
| Endpoints.NonEmpty | rest_framework_swagger/docgenerator.py:353-365 | `tags`, `consumes` and `produces` are present exactly when non-empty, and then unchanged. |
| Endpoints.OperationsKeys | rest_framework_swagger/docgenerator.py:303-375 | An endpoint has an operation under a key exactly when one of its method introspectors is a real one, is not OPTIONS, and lower-cases to that key. |
| Endpoints.OperationsLast | rest_framework_swagger/docgenerator.py:375 | Of the documented methods that share a key, the last one provides the operation. |
| Endpoints.OnlyOptionsHasNoOperations | rest_framework_swagger/docgenerator.py:304-306 | An endpoint with only OPTIONS or non-method introspectors has no operations. |
| Endpoints.NoOptionsOperation | rest_framework_swagger/docgenerator.py:304-375 | With upper-case HTTP method names, no operation is ever keyed `options`. |
| Endpoints.ResponsesRule | rest_framework_swagger/docgenerator.py:325-351 | With no declared responses there is exactly one response, `default`, described as "Default response". Otherwise the keys are exactly the declared codes, and each holds the last response declared with that code. |
| Endpoints.FailedLoadKeepsDescription | rest_framework_swagger/docgenerator.py:329-342 | A string schema that fails to load leaves the response without a schema. Its description is kept, or is `""` when none was given. |
| Endpoints.DocumentRule | rest_framework_swagger/docgenerator.py:283-291 | The document has one entry per distinct path, holding the operations of the last endpoint with that path. |
| Endpoints.ResponseLoadsMeaning | rest_framework_swagger/docgenerator.py:135-139 | Loading the response schemas succeeds exactly when every non-null schema loads, and then yields exactly the loaded serializers. |
| Endpoints.SerializerSetMeaning | rest_framework_swagger/docgenerator.py:114-140 | The serializer set exists exactly when every method's schemas load. It is then the union of what each method introspector adds. |
| Endpoints.ExtraSet | rest_framework_swagger/docgenerator.py:130-133 | The extra serializers kept are exactly those that are not `None`. |
| DocGenerator.MethodLabelRule | rest_framework_swagger/docgenerator.py:98 | The method part of a response type name has no underscore and ignores the case of the method name. |
| DocGenerator.ViewLabelSuffix | rest_framework_swagger/docgenerator.py:92-95 | For a view name `x` without a 'V', the view part of `x` + "ViewSet" and of `x` + "APIView" is `x`. The same holds for `x` + "View" when `x` does not end in "API". |
| DocGenerator.DocumentationGenerator.constructor | rest_framework_swagger/docgenerator.py:37-44 | A new generator has no registered serializers and no registered response types. |
| DocGenerator.DocumentationGenerator.GetMethodResponseType | rest_framework_swagger/docgenerator.py:79-112 | A docstring response type is registered as `{id, properties}` under the built name, and that name is returned. Otherwise the serializer name or "object" is returned, and nothing is registered. |
| DocGenerator.DocumentationGenerator.GetSerializerFields | rest_framework_swagger/docgenerator.py:168-203 | The loop builds exactly the field table: compiled fields in order, and the required, write-only and read-only names. |
| DocGenerator.DocumentationGenerator.FindFieldSerializers | rest_framework_swagger/docgenerator.py:431-460 | The walk terminates, also on cycles. It returns exactly the serializers reachable from the roots through at least one field edge. |
| DocGenerator.DocumentationGenerator.CollectMethodSerializers | rest_framework_swagger/docgenerator.py:123-139 | For one method introspector, the loops add its request, response and extra serializers and its loaded schemas, or stop at the first schema that fails to load. |
| DocGenerator.DocumentationGenerator.CollectEndpointSerializers | rest_framework_swagger/docgenerator.py:123-139 | The inner loop extends the set collected so far by one endpoint's method introspectors, or fails as the whole collection would. |
| DocGenerator.DocumentationGenerator.GetSerializerSet | rest_framework_swagger/docgenerator.py:114-141 | The nested loops compute exactly the serializer set of all method introspectors, including its failure. |
| DocGenerator.DocumentationGenerator.GetModels | rest_framework_swagger/docgenerator.py:379-429 | The call fails exactly when the serializer set does. Otherwise it has one entry per registered response type and per name of a serializer in scope (collected, registered, or reachable through fields). A registered response type overrides a read model of the same name. Every other entry is the read model of a serializer of that name. |
| DocGenerator.DocumentationGenerator.BuildResponses | rest_framework_swagger/docgenerator.py:325-351 | The loop builds exactly the response map. |
| DocGenerator.DocumentationGenerator.GetOperations | rest_framework_swagger/docgenerator.py:293-377 | The loop builds exactly the operations of the endpoint. |
| DocGenerator.DocumentationGenerator.Generate | rest_framework_swagger/docgenerator.py:283-291 | The loop builds exactly the document of all endpoints. |
| Settings.MergeKeepsAndFills | rest_framework_swagger/__init__.py:45-47 | After the merge, every default key is present and every supplied value is kept. A missing key takes its default. |
| Settings.MergeIdempotent | rest_framework_swagger/__init__.py:45-47 | Merging the defaults a second time changes nothing. |
| Settings.DefaultsAreValid | rest_framework_swagger/__init__.py:3-20 | Loading an empty dict yields exactly the defaults, and they validate. |
| Settings.BadVersionFirst | rest_framework_swagger/__init__.py:50-51 | A version other than "1.2" or "2.0" fails with the version error, whatever `info` holds. |
| Settings.NoInfoLoads | rest_framework_swagger/__init__.py:52 | Without `info`, loading succeeds exactly when the version is valid. |
| Settings.CheckKeysMeaning | rest_framework_swagger/__init__.py:27-35 | For an `info` container, the key check passes exactly when every key is present. A failure names the first absent key. |
| Settings.Info12Rule | rest_framework_swagger/__init__.py:50-54 | Under 1.2 with an `info` container, loading fails exactly when "title" or "description" is missing. "title" is reported first. |
| Settings.Info20AlwaysFails | rest_framework_swagger/__init__.py:55-58 | Under 2.0, a supplied `info` always fails with "Extra field 'api_version'", because the merge always adds `api_version`. |
| Settings.FillDefaults | rest_framework_swagger/__init__.py:45-47 | The loop leaves the dict equal to the defaults overlaid with what it held. |
| Settings.RequireKeys | rest_framework_swagger/__init__.py:27-35 | The key loop returns exactly the key check's outcome. |
| Settings.ValidateSettings | rest_framework_swagger/__init__.py:50-58 | The validation steps return exactly the validation outcome. |
| Settings.SwaggerSettings.LoadSettings | rest_framework_swagger/__init__.py:41-58 | The supplied dict becomes the installed settings, extended in place with the missing defaults. It stays installed whether or not validation passes, and the outcome is the validation of the merged dict. |
| Settings.SwaggerSettings.ReloadSettings | rest_framework_swagger/__init__.py:61-64 | A change to `SWAGGER_SETTINGS` loads the new value. Any other setting leaves the installed settings and the value untouched. |

## Left out

- `get_introspector` (rest_framework_swagger/docgenerator.py:47-58) depends on Python class hierarchies and module names. An `Api` carries the method introspectors the chosen introspector yields.
- `introspectors.py` (summaries, parameters, serializer lookup, YAML parsing) is not part of this model. Its answers are inputs, as described above.
- `rest_framework_swagger/urls.py` only routes URLs.
- The user lookup in the constructor (rest_framework_swagger/docgenerator.py:24-35) loads a class by name at run time.
- The base-class `_find_field_serializers` (rest_framework_swagger/docgenerator.py:143-166) is overridden, and calls `isinstance` with three arguments.
- The `rest_framework.VERSION` checks in `_find_field_serializers` are left out: the 3.x branch, which looks into list children, is modelled.
- The commented-out `Write<Name>` models are left out. Only read models are produced, so a write-only nested field's `$ref` dangles, as in the source.
- `models.update(self.fields_serializers)` (rest_framework_swagger/docgenerator.py:428) always adds nothing.
- Logging of a failed schema load (rest_framework_swagger/docgenerator.py:341) is left out.
- The module-level `load_settings` call and the `setting_changed` hook (rest_framework_swagger/__init__.py:66-69) are Django plumbing. `SwaggerSettings` starts with no settings installed.
- The defaults are values here. In the source, the merged dict shares the default lists with `DEFAULT_SWAGGER_SETTINGS`, so changing one list in place would change the other.
- `load_serializer_class` is assumed to raise rather than return `None`, so a `None` result is not modelled. In the source, the loaded serializer is added to the set without an `is not None` check (rest_framework_swagger/docgenerator.py:139), unlike lines 124, 127 and 131. A `None` there would reach `_get_serializer_fields(None)`, which returns `None` (lines 172-173), and `get_models` would then fail at line 418. `get_operations` would build a `$ref` from the name of `None`. `Endpoints.DocParser.load` cannot express this case, because its `None` means the loader raised.
- Endpoints.SerializerSet and DocGenerator.DocumentationGenerator.GetModels: the parser's `get_responses` is assumed to return a list. A `None` answer would raise `TypeError` in `_get_serializer_set` (rest_framework_swagger/docgenerator.py:136), which iterates it unguarded, so `get_models` would fail; the model cannot express this case and reports success. `get_operations` guards the same answer with `if response_messages:` (line 327), where `None` acts as empty, as `Endpoints.Responses` models.
- FieldCompiler.ScalarType: `get_primitive_type` is assumed never to return `"array"` (its answer is a `TypePair`, whose type is a `ScalarType`). If it did, for the first key of an enum's choices (rest_framework_swagger/docgenerator.py:244), `_build_serializer_field` would reach `f['items'] = items` (lines 262-263) with `items` unbound and raise `UnboundLocalError`; the model has no such case.
- The found set of `_find_field_serializers` holds field instances, not classes. The model identifies each instance with its serializer class, which is all that `get_models` uses.
- DocGenerator.DocumentationGenerator.GetModels: when two serializers in scope share a name, it states only that the entry is the read model of one of them, because Python's set order decides which.
- Endpoints.ResponseLoads: what `load_serializer_class` does with a schema that is not a string is left to the `load` function of the `DocParser`.
- Settings.SwaggerSettings.ReloadSettings: the new value is always a dict here. Django passes `None` when the setting is deleted, and `load_settings(None)` would raise.
- `Text.Title` and `Text.Lower` case-map ASCII letters only. Python's `unicode` methods also map non-ASCII letters.
- `Text.Strip` removes only the six whitespace characters of Python 2's byte-string `str.strip()`: space, tab, line feed, carriage return, vertical tab and form feed. Help texts are often `unicode` (for example from `ugettext_lazy`), and `unicode.strip()` also removes other characters. These are U+001C to U+001F (ASCII separators), U+0085, U+00A0, U+1680, U+2000 to U+200A, U+2028, U+2029, U+202F, U+205F and U+3000. `FieldCompiler.DescriptionRule` states the byte-string behaviour only.
- The text of the raised exceptions is not modelled. A `Settings.SettingsError` carries what the text names: the missing key and the URL of the version's Info Object.
- Exceptions the source does not anticipate are left out. One example is a response declaration without a `schema` key, which raises `KeyError` in `get_operations`.

## Findings

| source | as written | input that shows it | evidently intended | confidence | as-written member | corrected member |
|---|---|---|---|---|---|---|
| rest_framework_swagger/docgenerator.py:454 | The guard against re-expansion checks whether a freshly built field object is in the caller's set. It never is, so every serializer field is expanded again, and the recursion never ends on a cycle. | A serializer class with a field, or a list field, of its own class (`Discovery.AsWrittenSelfReference`: every stack depth is exhausted). | Each serializer is expanded once, so discovery terminates on cyclic references and still reports every reachable serializer. | medium, not executed | Discovery.AsWrittenSelfReference | DocGenerator.DocumentationGenerator.FindFieldSerializers |
