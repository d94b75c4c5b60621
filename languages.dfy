/**
 * The table of languages offered for extraction (app/config/languages.py):
 * a constant dictionary of dictionaries, read through `.get` with defaults.
 */
module Languages {

  /** The five fields every entry carries. */
  const Fields: set<string> := {"name", "code", "flag", "whisper_model", "display_name"}

  const SupportedLanguages: map<string, map<string, string>> := map[
    "en" := map[
      "name" := "English",
      "code" := "en",
      "flag" := "\U{1F1FA}\U{1F1F8}",
      "whisper_model" := "base",
      "display_name" := "English"],
    "pt_BR" := map[
      "name" := "Portuguese (Brazil)",
      "code" := "pt_BR",
      "flag" := "\U{1F1E7}\U{1F1F7}",
      "whisper_model" := "base",
      "display_name" := "Portugu\U{EA}s (Brasil)"],
    "es" := map[
      "name" := "Spanish",
      "code" := "es",
      "flag" := "\U{1F1EA}\U{1F1F8}",
      "whisper_model" := "base",
      "display_name" := "Espa\U{F1}ol"]
  ]

  /** The globe emoji shown for a language the table does not know. */
  const UnknownFlag: string := "\U{1F310}"

  /** Python's `d.get(key, default)`. */
  function Get<V>(d: map<string, V>, key: string, default: V): V {
    if key in d then d[key] else default
  }

  /** The table lists exactly `en`, `pt_BR` and `es`; every entry has all five
      fields, and its `code` field is its own key. */
  lemma SupportedLanguagesShape()
    ensures SupportedLanguages.Keys == {"en", "pt_BR", "es"}
    ensures forall k :: k in SupportedLanguages ==>
      SupportedLanguages[k].Keys == Fields && SupportedLanguages[k]["code"] == k
  {
  }

  /** `get_language_name`: the entry's display name for a listed code, the code
      itself otherwise. No display name equals its code, so the result is the
      code exactly when the code is not listed. */
  function GetLanguageName(code: string): (r: string)
    ensures code in SupportedLanguages ==> r == SupportedLanguages[code]["display_name"]
    ensures code !in SupportedLanguages ==> r == code
    ensures r == code <==> code !in SupportedLanguages
  {
    Get(Get(SupportedLanguages, code, map[]), "display_name", code)
  }

  /** `get_language_flag`: the entry's flag for a listed code, the globe otherwise. */
  function GetLanguageFlag(code: string): (r: string)
    ensures code in SupportedLanguages ==> r == SupportedLanguages[code]["flag"]
    ensures code !in SupportedLanguages ==> r == UnknownFlag
    ensures r != UnknownFlag <==> code in SupportedLanguages
  {
    Get(Get(SupportedLanguages, code, map[]), "flag", UnknownFlag)
  }

  /** `get_whisper_model`: every entry stores `base` and the default is `base`,
      so the answer is `base` whatever the code. */
  function GetWhisperModel(code: string): (r: string)
    ensures r == "base"
  {
    Get(Get(SupportedLanguages, code, map[]), "whisper_model", "base")
  }
}
