/** The compilation of one serializer field into a Swagger 2.0 schema
    fragment (`DocumentationGeneratorBase._build_serializer_field`). */
module FieldCompiler {
  import opened Wrappers
  import opened Json
  import opened Text

  /** A serializer class: its identity and the name the introspection
      helper reports for it (its class name). */
  datatype SerializerClass = SerializerClass(id: nat, name: string)

  /** A declared data type other than "array": an array always carries its
      child, so it is the separate `ArrayOf` case below. Type guesses from
      `get_primitive_type` are of this type too (see README "## Left out"). */
  type ScalarType = t: string | t != "array" witness "string"

  /** A `(data_type, data_format)` pair as the introspectors report it. */
  type TypePair = (ScalarType, string)

  /** What `get_data_type(field)` reports: a scalar pair, or ("array", child)
      where the child is the field or serializer the list holds. */
  datatype DataType =
    | Scalar(name: ScalarType, format: string)
    | ArrayOf(child: Field)

  /** A field is either itself a serializer (a nested serializer; a
      `many=True` list serializer is represented by the class of its child,
      which is what both the naming helper and the discovery walk use), or
      an ordinary field whose data type may be undeclared. */
  datatype FieldKind =
    | NestedSerializer(serializer: SerializerClass)
    | Declared(dataType: Option<DataType>)

  /** `field.choices`: a list of pairs, a dict (in its iteration order), or
      anything else, which yields no choices. */
  datatype Choices =
    | ChoiceList(pairs: seq<(Value, Value)>)
    | ChoiceDict(pairs: seq<(Value, Value)>)
    | NoChoices

  /** A serializer field with the attributes the compiler reads. `None` in
      an `Option<bool>` flag is a missing attribute; `Null` in a `Value`
      is Python `None` (or a missing bound); `None` in a length is a
      missing attribute or `None`. `defaultValue` is what
      `get_default_value(field)` returns. */
  datatype Field = Field(
    helpText: Option<string>,
    required: Option<bool>,
    readOnly: Option<bool>,
    writeOnly: Option<bool>,
    kind: FieldKind,
    choices: Choices,
    defaultValue: Value,
    minValue: Value,
    maxValue: Value,
    minLength: Option<int>,
    maxLength: Option<int>)

  /** The introspection helpers the compiler consults:
      `BaseMethodIntrospector.ENUMS` and `get_primitive_type`. */
  datatype Hooks = Hooks(enumTypes: set<string>, primitiveType: Value -> Option<TypePair>)

  /** The `items` of an array fragment: a reference to a serializer model,
      or the compiled child, which is `None` (JSON null) when the child
      compiles to nothing. */
  datatype Items =
    | ItemsRef(reference: string)
    | ItemsSchema(schema: Option<Fragment>)

  /** A compiled schema fragment; `None` marks an absent key. */
  datatype Fragment = Fragment(
    description: Option<string>,
    ty: string,
    reference: Option<string>,
    format: Option<string>,
    enumValues: Option<seq<Value>>,
    defaultValue: Option<Value>,
    minimum: Option<Value>,
    maximum: Option<Value>,
    items: Option<Items>,
    minLength: Option<int>,
    maxLength: Option<int>)

  // `getattr(field, flag, default)` for the three visibility flags.
  predicate IsWriteOnly(f: Field) { f.writeOnly.GetOr(false) }
  predicate IsReadOnly(f: Field) { f.readOnly.GetOr(false) }
  predicate IsRequired(f: Field) { f.required.GetOr(true) }

  /** The Swagger 2.0 definitions-object reference to a model. */
  function RefTo(name: string): (r: string)
    ensures |r| == 14 + |name| && r[..14] == "#/definitions/" && r[14..] == name
  {
    "#/definitions/" + name
  }

  /** The choice keys in declared order, for both forms of choices. */
  function ChoiceKeys(c: Choices): (r: seq<Value>)
    ensures c.NoChoices? ==> r == []
    ensures !c.NoChoices? ==> |r| == |c.pairs| && forall i :: 0 <= i < |r| ==> r[i] == c.pairs[i].0
  {
    match c
    case NoChoices => []
    case ChoiceList(ps) => seq(|ps|, i requires 0 <= i < |ps| => ps[i].0)
    case ChoiceDict(ps) => seq(|ps|, i requires 0 <= i < |ps| => ps[i].0)
  }

  /** The stripped help text, kept only when something is left of it. */
  function Description(helpText: Option<string>): Option<string> {
    match helpText
    case None => None
    case Some(s) => if Strip(s) == "" then None else Some(Strip(s))
  }

  /** The data type the compiler works with: `get_data_type(field) or
      ('string', 'string')`. */
  function EffectiveType(d: Option<DataType>): DataType {
    d.GetOr(Scalar("string", "string"))
  }

  predicate IsHiddenType(d: DataType) {
    d.Scalar? && d.name == "hidden"
  }

  /** Fields the compiler drops: empty help text, or a hidden data type. */
  predicate IsOmitted(f: Field) {
    || f.helpText == Some("")
    || (f.kind.Declared? && IsHiddenType(EffectiveType(f.kind.dataType)))
  }

  /** The keys every non-serializer field gets, once its final type `t`
      and format `fmt` are known. */
  function TypedFragment(f: Field, t: string, fmt: string, en: Option<seq<Value>>, items: Option<Items>): Fragment {
    Fragment(
      description := Description(f.helpText),
      ty := t,
      reference := None,
      format := if fmt != t then Some(fmt) else None,
      enumValues := en,
      defaultValue := if f.defaultValue != Null then Some(f.defaultValue) else None,
      minimum := if f.maxValue != Null && t == "integer" then Some(f.minValue) else None,
      maximum := if f.maxValue != Null && t == "integer" then Some(f.maxValue) else None,
      items := items,
      minLength := if f.minLength.Some? && f.minLength.value > -1 then f.minLength else None,
      maxLength := if f.maxLength.Some? && f.maxLength.value > -1 then f.maxLength else None)
  }

  /** `_build_serializer_field`: the fragment for one field, or `None` when
      the field is left out of the model. */
  function CompileField(hooks: Hooks, f: Field): (r: Option<Fragment>)
    ensures r.None? <==> IsOmitted(f)
    ensures r.Some? ==> r.value.format != Some(r.value.ty)
    ensures r.Some? ==> (r.value.minimum.Some? <==> r.value.maximum.Some?)
    ensures r.Some? ==> (r.value.items.Some? <==> r.value.ty == "array")
    ensures r.Some? ==> (r.value.reference.Some? <==> f.kind.NestedSerializer?)
    decreases f
  {
    if f.helpText == Some("") then None
    else
      match f.kind
      case NestedSerializer(s) =>
        var name := if IsWriteOnly(f) then "Write" + s.name else s.name;
        Some(Fragment(
          description := Description(f.helpText), ty := "object", reference := Some(RefTo(name)),
          format := None, enumValues := None, defaultValue := None, minimum := None, maximum := None,
          items := None, minLength := None, maxLength := None))
      case Declared(d) =>
        match EffectiveType(d)
        case Scalar(t, fmt) =>
          if t == "hidden" then None
          else
            var keys := ChoiceKeys(f.choices);
            if t in hooks.enumTypes && |keys| > 0 then
              var guessed := hooks.primitiveType(keys[0]).GetOr(("string", "string"));
              Some(TypedFragment(f, guessed.0, guessed.1, Some(keys), None))
            else
              Some(TypedFragment(f, t, fmt, None, None))
        case ArrayOf(child) =>
          var items :=
            if child.kind.NestedSerializer? then ItemsRef(RefTo(child.kind.serializer.name))
            else ItemsSchema(CompileField(hooks, child));
          Some(TypedFragment(f, "array", "array", None, Some(items)))
  }

  // ------------------------------------------------------------ properties

  /** Help text: `""` drops the field; otherwise a description is emitted
      exactly when the help text has a non-blank character, and it is the
      help text with its surrounding whitespace removed (`StrippedAt`,
      which `Text.StrippedUnique` shows has one solution). */
  lemma DescriptionRule(hooks: Hooks, f: Field)
    requires f.helpText != Some("")
    requires !IsOmitted(f)
    ensures CompileField(hooks, f).Some?
    ensures var d := CompileField(hooks, f).value.description;
      && (d.Some? <==> f.helpText.Some? && exists k :: 0 <= k < |f.helpText.value| && !IsSpace(f.helpText.value[k]))
      && (d.Some? ==> d.value != "" && exists i :: StrippedAt(d.value, f.helpText.value, i))
  {
    CompiledDescription(hooks, f);
    DescriptionOfHelpText(f.helpText);
  }

  /** The description of a help text is its non-blank stripped form. */
  lemma DescriptionOfHelpText(h: Option<string>)
    ensures var d := Description(h);
      && (d.Some? <==> h.Some? && exists k :: 0 <= k < |h.value| && !IsSpace(h.value[k]))
      && (d.Some? ==> d.value != "" && exists i :: StrippedAt(d.value, h.value, i))
  {
    if h.Some? {
      var r := Strip(h.value);
      assert r == [] <==> forall k :: 0 <= k < |h.value| ==> IsSpace(h.value[k]);
    }
  }

  /** Every kept field carries the description of its help text. */
  lemma CompiledDescription(hooks: Hooks, f: Field)
    requires !IsOmitted(f)
    ensures CompileField(hooks, f).Some?
    ensures CompileField(hooks, f).value.description == Description(f.helpText)
  {
  }

  /** A nested serializer compiles to an object reference to its model
      (the `Write` variant for a write-only field) plus the optional
      description, and to nothing else. */
  lemma NestedSerializerShape(hooks: Hooks, f: Field)
    requires f.kind.NestedSerializer? && f.helpText != Some("")
    ensures var name := (if IsWriteOnly(f) then "Write" else "") + f.kind.serializer.name;
      CompileField(hooks, f) == Some(Fragment(
        description := Description(f.helpText), ty := "object",
        reference := Some("#/definitions/" + name),
        format := None, enumValues := None, defaultValue := None, minimum := None,
        maximum := None, items := None, minLength := None, maxLength := None))
  {
    assert "" + f.kind.serializer.name == f.kind.serializer.name;
  }

  /** An array's items reference the child serializer's model, or are the
      child compiled by the same rules; the format key is never emitted. */
  lemma ArrayItemsRule(hooks: Hooks, f: Field, child: Field)
    requires f.helpText != Some("") && f.kind == Declared(Some(ArrayOf(child)))
    ensures var r := CompileField(hooks, f);
      && r.Some? && r.value.ty == "array" && r.value.format.None? && r.value.enumValues.None?
      && r.value.items == Some(
           if child.kind.NestedSerializer? then ItemsRef("#/definitions/" + child.kind.serializer.name)
           else ItemsSchema(CompileField(hooks, child)))
  {
  }

  /** An enum-capable type with choices lists the choice keys in declared
      order and takes its type and format from the first key; the format
      is emitted only when it differs from the type. */
  lemma EnumRule(hooks: Hooks, f: Field)
    requires f.helpText != Some("") && f.kind.Declared?
    requires var d := EffectiveType(f.kind.dataType); d.Scalar? && d.name != "hidden" && d.name in hooks.enumTypes
    requires ChoiceKeys(f.choices) != []
    ensures var r := CompileField(hooks, f);
      var keys := ChoiceKeys(f.choices);
      var guessed := hooks.primitiveType(keys[0]).GetOr(("string", "string"));
      && r.Some?
      && r.value.enumValues == Some(keys)
      && |keys| == |f.choices.pairs| && (forall i :: 0 <= i < |keys| ==> keys[i] == f.choices.pairs[i].0)
      && r.value.ty == guessed.0
      && r.value.format == (if guessed.1 != guessed.0 then Some(guessed.1) else None)
  {
  }

  /** A declared scalar type outside the enum case keeps its type, and
      its format when that differs from the type; it has no `enum` and no
      `items`. */
  lemma ScalarRule(hooks: Hooks, f: Field, t: ScalarType, fmt: string)
    requires f.helpText != Some("") && f.kind.Declared?
    requires EffectiveType(f.kind.dataType) == Scalar(t, fmt) && t != "hidden"
    requires !(t in hooks.enumTypes && ChoiceKeys(f.choices) != [])
    ensures var r := CompileField(hooks, f);
      && r.Some? && r.value.ty == t
      && r.value.format == (if fmt != t then Some(fmt) else None)
      && r.value.enumValues.None? && r.value.items.None? && r.value.reference.None?
  {
  }

  /** A field without a declared data type (and no choices to re-derive
      it from) is a plain string. */
  lemma UndeclaredIsString(hooks: Hooks, f: Field)
    requires f.helpText != Some("") && f.kind == Declared(None)
    requires "string" !in hooks.enumTypes || ChoiceKeys(f.choices) == []
    ensures var r := CompileField(hooks, f);
      r.Some? && r.value.ty == "string" && r.value.format.None? && r.value.enumValues.None?
  {
  }

  /** Bounds: minimum and maximum appear together, exactly for an integer
      type with a maximum, and the minimum is copied even when it is
      `None`; each length bound appears exactly when it is above -1. */
  lemma BoundsRule(hooks: Hooks, f: Field)
    requires !f.kind.NestedSerializer? && !IsOmitted(f)
    ensures var r := CompileField(hooks, f).value;
      && (r.maximum.Some? <==> f.maxValue != Null && r.ty == "integer")
      && (r.maximum.Some? ==> r.minimum == Some(f.minValue) && r.maximum == Some(f.maxValue))
      && (r.minLength.Some? <==> f.minLength.Some? && f.minLength.value > -1)
      && (r.maxLength.Some? <==> f.maxLength.Some? && f.maxLength.value > -1)
      && (r.minLength.Some? ==> r.minLength == f.minLength)
      && (r.maxLength.Some? ==> r.maxLength == f.maxLength)
      && r.defaultValue == (if f.defaultValue != Null then Some(f.defaultValue) else None)
  {
  }
}
