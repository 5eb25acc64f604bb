/** The package's settings: the default settings, the merge of the
    defaults into the settings a project supplies, and the validation of
    the Swagger version and of the `info` object it requires. */
module Settings {
  import opened Wrappers
  import opened Json
  import opened Text

  /** `DEFAULT_SWAGGER_SETTINGS`. */
  const DefaultSettings: map<string, Value> := map[
    "swagger_version" := Str("1.2"),
    "exclude_url_names" := List([]),
    "exclude_namespaces" := List([]),
    "api_version" := Str(""),
    "api_path" := Str("/"),
    "api_key" := Str(""),
    "relative_paths" := Bool(false),
    "token_type" := Str("Token"),
    "enabled_methods" := List([Str("get"), Str("post"), Str("put"), Str("patch"), Str("delete")]),
    "is_authenticated" := Bool(false),
    "is_superuser" := Bool(false),
    "unauthenticated_user" := Str("django.contrib.auth.models.AnonymousUser"),
    "permission_denied_handler" := Null,
    "resource_access_handler" := Null,
    "template_path" := Str("rest_framework_swagger/index.html"),
    "doc_expansion" := Str("none")]

  /** Where the error message sends the reader for each version's Info
      Object. */
  const Info12Url := "https://github.com/swagger-api/swagger-spec/blob/master/versions/1.2.md#513-info-object"
  const Info20Url := "https://github.com/OAI/OpenAPI-Specification/blob/master/versions/2.0.md#infoObject"

  /** Why loading fails: the first three are `SwaggerSchemeException`s
      (a missing key carries the key and the Info Object URL its message
      names); the last is the `TypeError` Python raises when `info` is not
      a container `in` can search. */
  datatype SettingsError =
    | BadVersion
    | MissingInfoKey(key: string, url: string)
    | ExtraApiVersion
    | InfoNotContainer

  /** Python's `key in container`: a dict's keys, a list's elements, a
      string's substrings; `None` for values `in` cannot search. */
  function Membership(container: Value, key: string): Option<bool> {
    match container
    case Dict(entries) => Some(key in entries)
    case List(items) => Some(Str(key) in items)
    case Str(s) => Some(Occurs(s, key))
    case _ => None
  }

  /** The `for key in keys: if key not in info: raise` loop: the first key
      `info` lacks, or the failure of `in` itself. */
  function CheckKeys(info: Value, keys: seq<string>, url: string): Outcome<SettingsError>
    decreases |keys|
  {
    if keys == [] then Pass
    else
      match Membership(info, keys[0])
      case None => Fail(InfoNotContainer)
      case Some(false) => Fail(MissingInfoKey(keys[0], url))
      case Some(true) => CheckKeys(info, keys[1..], url)
  }

  /** `validate_info_1_2`. */
  function ValidateInfo12(settings: map<string, Value>): Outcome<SettingsError>
    requires "info" in settings
  {
    CheckKeys(settings["info"], ["title", "description"], Info12Url)
  }

  /** `validate_info_2_0`. */
  function ValidateInfo20(settings: map<string, Value>): Outcome<SettingsError>
    requires "info" in settings
  {
    CheckKeys(settings["info"], ["title", "version"], Info20Url)
  }

  /** The checks `load_settings` runs on the merged settings. */
  function Validate(settings: map<string, Value>): Outcome<SettingsError>
    requires "swagger_version" in settings
  {
    var version := settings["swagger_version"];
    if version != Str("1.2") && version != Str("2.0") then Fail(BadVersion)
    else if "info" !in settings then Pass
    else if version == Str("1.2") then ValidateInfo12(settings)
    else if "api_version" in settings then Fail(ExtraApiVersion)
    else ValidateInfo20(settings)
  }

  /** A settings dict, updated in place by `load_settings`. */
  class SettingsDict {
    var entries: map<string, Value>

    constructor(entries: map<string, Value>)
      ensures this.entries == entries
    {
      this.entries := entries;
    }
  }

  /** The module-level `SWAGGER_SETTINGS` binding. */
  class SwaggerSettings {
    var current: SettingsDict?

    constructor()
      ensures current == null
    {
      current := null;
    }

    /** `load_settings`: installs the supplied dict, fills in every missing
        default in place, then validates it. The dict stays installed when
        validation fails. */
    method LoadSettings(provided: SettingsDict) returns (outcome: Outcome<SettingsError>)
      modifies this, provided
      ensures current == provided
      ensures provided.entries == DefaultSettings + old(provided.entries)
      ensures outcome == Validate(provided.entries)
    {
      current := provided;
      FillDefaults(provided, DefaultSettings);
      outcome := ValidateSettings(provided.entries);
    }

    /** `reload_settings`: reloads only when the changed setting is
        `SWAGGER_SETTINGS`. */
    method ReloadSettings(setting: string, value: SettingsDict) returns (outcome: Outcome<SettingsError>)
      modifies this, value
      ensures setting == "SWAGGER_SETTINGS" ==>
        && current == value
        && value.entries == DefaultSettings + old(value.entries)
        && outcome == Validate(value.entries)
      ensures setting != "SWAGGER_SETTINGS" ==>
        current == old(current) && value.entries == old(value.entries) && outcome == Pass
    {
      if setting == "SWAGGER_SETTINGS" {
        outcome := LoadSettings(value);
      } else {
        outcome := Pass;
      }
    }
  }

  /** The loop of `load_settings` that copies every default the dict
      lacks into it. */
  method FillDefaults(provided: SettingsDict, defaults: map<string, Value>)
    modifies provided
    ensures provided.entries == defaults + old(provided.entries)
  {
    ghost var supplied := provided.entries;
    var pending := defaults.Keys;
    assert defaults - pending == map[];
    assert map[] + supplied == supplied;
    while pending != {}
      invariant pending <= defaults.Keys
      invariant provided.entries == (defaults - pending) + supplied
      decreases |pending|
    {
      var key :| key in pending;
      FillStep(defaults, supplied, pending, key);
      if key !in provided.entries {
        provided.entries := provided.entries[key := defaults[key]];
      }
      pending := pending - {key};
    }
    assert defaults - {} == defaults;
  }

  /** One step of the merge: taking the default of a pending key adds it
      exactly when the supplied dict lacks that key. */
  lemma FillStep(defaults: map<string, Value>, supplied: map<string, Value>, pending: set<string>, key: string)
    requires key in pending && pending <= defaults.Keys
    ensures var entries := (defaults - pending) + supplied;
      var next := (defaults - (pending - {key})) + supplied;
      && (key in entries <==> key in supplied)
      && (key !in entries ==> next == entries[key := defaults[key]])
      && (key in entries ==> next == entries)
  {
    var entries := (defaults - pending) + supplied;
    var next := (defaults - (pending - {key})) + supplied;
    if key in supplied {
      assert next.Keys == entries.Keys;
      forall k | k in next ensures next[k] == entries[k] {
      }
    } else {
      assert next.Keys == entries.Keys + {key};
      forall k | k in next ensures next[k] == entries[key := defaults[key]][k] {
      }
    }
  }

  /** The checks of `load_settings` after the merge, raising at the first
      failure. */
  method ValidateSettings(settings: map<string, Value>) returns (outcome: Outcome<SettingsError>)
    requires "swagger_version" in settings
    ensures outcome == Validate(settings)
  {
    var version := settings["swagger_version"];
    if version != Str("1.2") && version != Str("2.0") {
      return Fail(BadVersion);
    }
    if "info" in settings {
      if version == Str("1.2") {
        outcome := RequireKeys(settings["info"], ["title", "description"], Info12Url);
        return;
      }
      if "api_version" in settings {
        return Fail(ExtraApiVersion);
      }
      outcome := RequireKeys(settings["info"], ["title", "version"], Info20Url);
      return;
    }
    outcome := Pass;
  }

  /** The key loop of `validate_info_1_2` and `validate_info_2_0`. */
  method RequireKeys(info: Value, keys: seq<string>, url: string) returns (outcome: Outcome<SettingsError>)
    ensures outcome == CheckKeys(info, keys, url)
  {
    for i := 0 to |keys|
      invariant CheckKeys(info, keys, url) == CheckKeys(info, keys[i..], url)
    {
      assert keys[i..][1..] == keys[i + 1..];
      var present := Membership(info, keys[i]);
      if present.None? {
        return Fail(InfoNotContainer);
      }
      if !present.value {
        return Fail(MissingInfoKey(keys[i], url));
      }
    }
    outcome := Pass;
  }

  // ------------------------------------------------------------ properties

  /** After the merge every default key is present, every supplied value
      is kept, and a missing key takes its default. */
  lemma MergeKeepsAndFills(provided: map<string, Value>, k: string)
    ensures var merged := DefaultSettings + provided;
      && (k in merged <==> k in DefaultSettings || k in provided)
      && (k in provided ==> merged[k] == provided[k])
      && (k in DefaultSettings && k !in provided ==> merged[k] == DefaultSettings[k])
  {
  }

  /** Merging the defaults a second time changes nothing. */
  lemma MergeIdempotent(provided: map<string, Value>)
    ensures DefaultSettings + (DefaultSettings + provided) == DefaultSettings + provided
  {
  }

  /** Loading an empty dict installs exactly the defaults, and they are
      valid. */
  lemma DefaultsAreValid()
    ensures DefaultSettings + map[] == DefaultSettings
    ensures "swagger_version" in DefaultSettings && Validate(DefaultSettings) == Pass
  {
    assert "info" !in DefaultSettings;
  }

  /** A version other than "1.2" or "2.0" fails before `info` is looked
      at. */
  lemma BadVersionFirst(settings: map<string, Value>)
    requires "swagger_version" in settings
    requires settings["swagger_version"] != Str("1.2") && settings["swagger_version"] != Str("2.0")
    ensures Validate(settings) == Fail(BadVersion)
  {
  }

  /** Without `info`, a valid version always loads. */
  lemma NoInfoLoads(settings: map<string, Value>)
    requires "swagger_version" in settings && "info" !in settings
    ensures Validate(settings).Pass? <==>
      settings["swagger_version"] == Str("1.2") || settings["swagger_version"] == Str("2.0")
  {
  }

  /** Checking keys in a container fails exactly when some key is absent,
      and then names the first absent key. */
  lemma {:induction false} CheckKeysMeaning(info: Value, keys: seq<string>, url: string)
    requires info.Dict? || info.List? || info.Str?
    ensures CheckKeys(info, keys, url).Pass? <==>
      forall i :: 0 <= i < |keys| ==> Membership(info, keys[i]) == Some(true)
    ensures CheckKeys(info, keys, url).Fail? ==>
      exists i :: 0 <= i < |keys| && CheckKeys(info, keys, url) == Fail(MissingInfoKey(keys[i], url))
        && Membership(info, keys[i]) == Some(false)
        && forall j :: 0 <= j < i ==> Membership(info, keys[j]) == Some(true)
    decreases |keys|
  {
    if keys != [] {
      CheckKeysMeaning(info, keys[1..], url);
      if Membership(info, keys[0]) == Some(true) && CheckKeys(info, keys, url).Fail? {
        var i :| 0 <= i < |keys[1..]| && CheckKeys(info, keys[1..], url) == Fail(MissingInfoKey(keys[1..][i], url))
          && Membership(info, keys[1..][i]) == Some(false)
          && forall j :: 0 <= j < i ==> Membership(info, keys[1..][j]) == Some(true);
        assert CheckKeys(info, keys, url) == Fail(MissingInfoKey(keys[i + 1], url));
        assert Membership(info, keys[i + 1]) == Some(false);
        assert forall j :: 0 <= j < i + 1 ==> Membership(info, keys[j]) == Some(true) by {
          forall j | 0 <= j < i + 1 ensures Membership(info, keys[j]) == Some(true) {
            if j > 0 { assert keys[j] == keys[1..][j - 1]; }
          }
        }
      }
      if forall i :: 0 <= i < |keys[1..]| ==> Membership(info, keys[1..][i]) == Some(true) {
        assert forall i :: 1 <= i < |keys| ==> Membership(info, keys[i]) == Some(true) by {
          forall i | 1 <= i < |keys| ensures Membership(info, keys[i]) == Some(true) {
            assert keys[i] == keys[1..][i - 1];
          }
        }
      }
    }
  }

  /** Version 1.2 with an `info` container fails exactly when "title" or
      "description" is missing, naming "title" first. */
  lemma Info12Rule(settings: map<string, Value>)
    requires "swagger_version" in settings && settings["swagger_version"] == Str("1.2")
    requires "info" in settings
    requires var info := settings["info"]; info.Dict? || info.List? || info.Str?
    ensures var info := settings["info"];
      && (Validate(settings).Fail? <==>
            Membership(info, "title") == Some(false) || Membership(info, "description") == Some(false))
      && (Membership(info, "title") == Some(false) ==>
            Validate(settings) == Fail(MissingInfoKey("title", Info12Url)))
      && (Membership(info, "title") == Some(true) && Membership(info, "description") == Some(false) ==>
            Validate(settings) == Fail(MissingInfoKey("description", Info12Url)))
  {
    var keys := ["title", "description"];
    assert keys[1..] == ["description"];
    assert keys[1..][1..] == [];
  }

  /** Under 2.0 an `info` key can never load: the merge always supplies
      `api_version`, and its presence is an error. */
  lemma Info20AlwaysFails(provided: map<string, Value>)
    requires "info" in provided
    requires (DefaultSettings + provided)["swagger_version"] == Str("2.0")
    ensures Validate(DefaultSettings + provided) == Fail(ExtraApiVersion)
  {
    assert "api_version" in DefaultSettings;
  }
}
