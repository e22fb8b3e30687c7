/**
  The user configuration: built-in defaults overridden by the YAML file,
  single-key updates, the API-key check and mask, and the interface
  language guard. The configuration is a dictionary; writing it back to
  disk is not modelled.
 */
module Config {
  import opened Wrappers
  import opened Text
  import opened Values
  import I18n

  /** `Config.DEFAULT_CONFIG` */
  const Defaults: Dict := map[
    "robot_name" := Str("Paper Robot"),
    "api_key" := Str(""),
    "base_url" := Str("https://api.openai.com/v1"),
    "model" := Str("gpt-4o-mini"),
    "max_results" := Num(20),
    "default_keywords" := Str(""),
    "language" := Str("zh"),
    "output_dir" := Str("papers")
  ]

  /** What reading the configuration file gives. */
  datatype ConfigFile =
    | Missing              // no file at the path
    | Unreadable           // opening, parsing or merging raised
    | Loaded(entries: Dict) // the parsed mapping; an empty document reads as the empty mapping

  /** `a` and `b` agree on key `k`: both lack it, or both hold the same value. */
  predicate Agree(a: Dict, b: Dict, k: string) {
    (k in a <==> k in b) && (k in a ==> a[k] == b[k])
  }

  /**
    `_load_config`: the defaults updated with the file's entries; the
    plain defaults when the file is missing or cannot be read.
   */
  function Load(f: ConfigFile): (r: Dict)
    ensures Defaults.Keys <= r.Keys
    ensures f.Loaded? ==> r.Keys == Defaults.Keys + f.entries.Keys
    ensures f.Loaded? ==> forall k :: k in f.entries ==> r[k] == f.entries[k]
    ensures forall k :: k in Defaults && !(f.Loaded? && k in f.entries) ==> r[k] == Defaults[k]
    ensures !f.Loaded? ==> r == Defaults
  {
    if f.Loaded? then Defaults + f.entries else Defaults
  }

  /** `Config.get(key, default)`: the fallback is used only when the key is absent, even if the stored value is None. */
  function GetKey(cfg: Dict, key: string, default: Value): (r: Value)
    ensures key in cfg ==> r == cfg[key]
    ensures key !in cfg ==> r == default
  {
    Get(cfg, key, default)
  }

  /** `Config.set`: one key takes the new value, every other key is untouched. */
  function SetKey(cfg: Dict, key: string, value: Value): (r: Dict)
    ensures r.Keys == cfg.Keys + {key}
    ensures r[key] == value
    ensures forall k :: k != key ==> Agree(r, cfg, k)
  {
    cfg[key := value]
  }

  /** Reading back a key just set gives the value set, with any fallback. */
  lemma GetAfterSet(cfg: Dict, key: string, value: Value, default: Value)
    ensures GetKey(SetKey(cfg, key, value), key, default) == value
  {
  }

  /** Setting a key does not disturb what `get` returns for another key. */
  lemma GetOtherAfterSet(cfg: Dict, key: string, other: string, value: Value, default: Value)
    requires other != key
    ensures GetKey(SetKey(cfg, key, value), other, default) == GetKey(cfg, other, default)
  {
  }

  /** `set_robot_name`, without the save. */
  function SetRobotName(cfg: Dict, name: string): (r: Dict)
    ensures GetKey(r, "robot_name", Nil) == Str(name)
    ensures forall k :: k != "robot_name" ==> Agree(r, cfg, k)
  {
    SetKey(cfg, "robot_name", Str(name))
  }

  /** Python truthiness of an optional string argument. */
  predicate Given(s: Option<string>) {
    s.Some? && s.value != ""
  }

  /**
    `set_api_config`, without the save: the key is always replaced; the
    base URL and model only when a non-empty value is given.
   */
  function SetApiConfig(cfg: Dict, apiKey: string, baseUrl: Option<string>, model: Option<string>): (r: Dict)
    ensures GetKey(r, "api_key", Nil) == Str(apiKey)
    ensures Given(baseUrl) ==> GetKey(r, "base_url", Nil) == Str(baseUrl.value)
    ensures !Given(baseUrl) ==> Agree(r, cfg, "base_url")
    ensures Given(model) ==> GetKey(r, "model", Nil) == Str(model.value)
    ensures !Given(model) ==> Agree(r, cfg, "model")
    ensures forall k :: k !in {"api_key", "base_url", "model"} ==> Agree(r, cfg, k)
  {
    var withKey := SetKey(cfg, "api_key", Str(apiKey));
    var withBase := if Given(baseUrl) then SetKey(withKey, "base_url", Str(baseUrl.value)) else withKey;
    if Given(model) then SetKey(withBase, "model", Str(model.value)) else withBase
  }

  /** `is_configured`: the stored API key is truthy. */
  predicate IsConfigured(cfg: Dict) {
    Truthy(GetKey(cfg, "api_key", Nil))
  }

  /** The defaults carry an empty key, so a fresh configuration is not configured. */
  lemma DefaultsNotConfigured()
    ensures !IsConfigured(Load(Missing))
  {
  }

  /** After `set_api_config` the configuration is usable exactly when the key given is non-empty. */
  lemma ConfiguredAfterSetApi(cfg: Dict, apiKey: string, baseUrl: Option<string>, model: Option<string>)
    ensures IsConfigured(SetApiConfig(cfg, apiKey, baseUrl, model)) <==> apiKey != ""
  {
  }

  // ---------------------------------------------------------------------------
  // Key masking in display_config
  // ---------------------------------------------------------------------------

  const MaskThreshold: nat := 14
  const ShownPrefix: nat := 10
  const ShownSuffix: nat := 4

  /** A long key shows its first 10 and last 4 characters around `...`; a short one shows only `***`. */
  function Mask(key: string): (r: string)
    ensures |key| > MaskThreshold ==> |r| == ShownPrefix + 3 + ShownSuffix
    ensures |key| > MaskThreshold ==> StartsWith(r, key[..ShownPrefix]) && EndsWith(r, key[|key| - ShownSuffix..])
    ensures |key| > MaskThreshold ==> r[ShownPrefix..ShownPrefix + 3] == "..."
    ensures |key| <= MaskThreshold ==> r == "***"
  {
    if |key| > MaskThreshold then
      var head, tail := key[..ShownPrefix], key[|key| - ShownSuffix..];
      ConcatEnds(head, "...", tail);
      assert (head + "..." + tail)[ShownPrefix..ShownPrefix + 3] == "...";
      head + "..." + tail
    else "***"
  }

  /** The mask depends only on the shown ends: the middle of a long key never leaks. */
  lemma MaskHidesMiddle(a: string, b: string)
    requires |a| > MaskThreshold && |b| > MaskThreshold
    requires a[..ShownPrefix] == b[..ShownPrefix] && a[|a| - ShownSuffix..] == b[|b| - ShownSuffix..]
    ensures Mask(a) == Mask(b)
  {
  }

  /** Every short key masks to the same text. */
  lemma MaskShortKeys(a: string, b: string)
    requires |a| <= MaskThreshold && |b| <= MaskThreshold
    ensures Mask(a) == Mask(b)
  {
  }

  /**
    The text `display_config` shows for one entry: a truthy API key is
    masked, everything else is printed with `str()`. None where Python
    raises: `len` of a number or flag, or a list key long enough to reach
    the slicing branch (a list plus a string).
   */
  function DisplayValue(key: string, v: Value): (r: Option<string>)
    ensures key != "api_key" || !Truthy(v) ==> r == Some(Render(v))
    ensures key == "api_key" && v.Str? && v.s != "" ==> r == Some(Mask(v.s))
    ensures key == "api_key" && (v.Num? || v.Flag?) && Truthy(v) ==> r.None?
    ensures key == "api_key" && v.Strs? && 0 < |v.items| ==> (r.Some? <==> |v.items| <= MaskThreshold)
  {
    if key == "api_key" && Truthy(v) then
      match v
      case Str(s) => Some(Mask(s))
      case Strs(xs) => if |xs| > MaskThreshold then None else Some("***")
      case _ => None
    else Some(Render(v))
  }

  /** Whatever its length, a non-empty key is displayed in at most 17 characters. */
  lemma DisplayedKeyIsShort(v: string)
    requires v != ""
    ensures DisplayValue("api_key", Str(v)).Some?
    ensures |DisplayValue("api_key", Str(v)).value| <= ShownPrefix + 3 + ShownSuffix
  {
  }

  // ---------------------------------------------------------------------------
  // Language
  // ---------------------------------------------------------------------------

  /** `set_language`, without the save: only supported codes are stored. */
  function SetLanguage(cfg: Dict, language: string): (r: Dict)
    ensures language in I18n.Languages ==> r == SetKey(cfg, "language", Str(language))
    ensures language !in I18n.Languages ==> r == cfg
  {
    if language in I18n.Languages then SetKey(cfg, "language", Str(language)) else cfg
  }

  /** `get_language`: the stored value, Chinese when the key is absent. */
  function GetLanguage(cfg: Dict): (r: Value)
    ensures "language" !in cfg ==> r == Str(I18n.DefaultLanguage)
    ensures "language" in cfg ==> r == cfg["language"]
  {
    GetKey(cfg, "language", Str(I18n.DefaultLanguage))
  }

  /** The language the configuration reports is a supported code. */
  predicate LanguageValid(cfg: Dict) {
    GetLanguage(cfg).Str? && GetLanguage(cfg).s in I18n.Languages
  }

  /** Defaults are valid, and `set_language` and the other setters keep the language valid. */
  lemma LanguageStaysValid(cfg: Dict, language: string, name: string, apiKey: string, baseUrl: Option<string>, model: Option<string>)
    requires LanguageValid(cfg)
    ensures LanguageValid(Load(Missing))
    ensures LanguageValid(SetLanguage(cfg, language))
    ensures LanguageValid(SetRobotName(cfg, name))
    ensures LanguageValid(SetApiConfig(cfg, apiKey, baseUrl, model))
  {
  }

  /** A supported code is reported back; an unsupported one changes nothing. */
  lemma SetThenGetLanguage(cfg: Dict, language: string)
    ensures language in I18n.Languages ==> GetLanguage(SetLanguage(cfg, language)) == Str(language)
    ensures language !in I18n.Languages ==> GetLanguage(SetLanguage(cfg, language)) == GetLanguage(cfg)
  {
  }

  /** A file value for the language overrides the default, even an unsupported one. */
  lemma FileLanguageWins(entries: Dict)
    requires "language" in entries
    ensures GetLanguage(Load(Loaded(entries))) == entries["language"]
  {
  }
}
