/**
  Localised interface text. A translator holds a current language code;
  lookups go through a message table keyed by language and then by
  message key. The table's contents (`TEXTS`) are a parameter: only its
  shape, one table per supported language, matters here.
 */
module I18n {
  import opened Wrappers

  /** The language codes the message table holds. */
  const Languages: set<string> := {"zh", "en"}

  const DefaultLanguage: string := "zh"

  /** Language code to message key to text. */
  type Texts = map<string, map<string, string>>

  /** The shape of the shipped table: exactly one sub-table per supported language. */
  predicate WellFormed(t: Texts) {
    t.Keys == Languages
  }

  datatype Translator = Translator(language: string)

  /** The invariant every translator keeps: its language is supported. */
  predicate Valid(tr: Translator) {
    tr.language in Languages
  }

  /** `I18n(language)`: an unsupported code falls back to Chinese. */
  function New(language: string): (r: Translator)
    ensures Valid(r)
    ensures language in Languages ==> r.language == language
    ensures language !in Languages ==> r.language == DefaultLanguage
  {
    Translator(if language in Languages then language else DefaultLanguage)
  }

  /** `I18n.set_language`: an unsupported code is ignored. */
  function SetLanguage(tr: Translator, language: string): (r: Translator)
    ensures language in Languages ==> r.language == language
    ensures language !in Languages ==> r == tr
    ensures Valid(tr) ==> Valid(r)
  {
    if language in Languages then Translator(language) else tr
  }

  /**
    `I18n.get` without format arguments: the text stored for the current
    language, or the key itself when either the language or the key is
    missing from the table.
   */
  function Get(t: Texts, tr: Translator, key: string): (r: string)
    ensures tr.language in t && key in t[tr.language] ==> r == t[tr.language][key]
    ensures tr.language !in t || key !in t[tr.language] ==> r == key
  {
    var table := if tr.language in t then t[tr.language] else map[];
    if key in table then table[key] else key
  }

  /**
    The module-level `get_text`: a non-empty explicit language is looked
    up through a fresh translator; otherwise the global one answers.
   */
  function GetText(t: Texts, global: Translator, key: string, language: Option<string>): (r: string)
    ensures language.Some? && language.value != "" ==> r == Get(t, New(language.value), key)
    ensures language.None? || language.value == "" ==> r == Get(t, global, key)
  {
    if language.Some? && language.value != "" then Get(t, New(language.value), key)
    else Get(t, global, key)
  }

  /** A valid translator always finds its own sub-table in a well-formed table. */
  lemma ValidFindsTable(t: Texts, tr: Translator, key: string)
    requires WellFormed(t) && Valid(tr)
    ensures Get(t, tr, key) == (if key in t[tr.language] then t[tr.language][key] else key)
  {
  }

  /** After switching to a supported language, lookups read that language's sub-table. */
  lemma GetAfterSetLanguage(t: Texts, tr: Translator, language: string, key: string)
    requires WellFormed(t) && language in Languages
    ensures Get(t, SetLanguage(tr, language), key) == (if key in t[language] then t[language][key] else key)
  {
  }

  /** A key the table does not know comes back unchanged, whatever the language. */
  lemma MissingKeyIsEchoed(t: Texts, tr: Translator, key: string)
    requires WellFormed(t) && Valid(tr)
    requires forall l :: l in Languages ==> key !in t[l]
    ensures Get(t, tr, key) == key
  {
  }

  /**
    An explicit language does not consult the global translator: two
    different global languages give the same text.
   */
  lemma ExplicitLanguageIgnoresGlobal(t: Texts, g1: Translator, g2: Translator, key: string, language: string)
    requires language != ""
    ensures GetText(t, g1, key, Some(language)) == GetText(t, g2, key, Some(language))
  {
  }

  /** An unsupported explicit language reads the Chinese table, not the global language's. */
  lemma UnknownExplicitLanguageIsChinese(t: Texts, global: Translator, key: string, language: string)
    requires language != "" && language !in Languages
    ensures GetText(t, global, key, Some(language)) == Get(t, Translator(DefaultLanguage), key)
  {
  }
}
