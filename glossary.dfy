/**
 * The glossary document: the `{"translations": [...]}` object that the
 * spreadsheet converter produces and the translation pipeline loads from
 * `glossary.json`.
 */
module Glossary {
  import opened Wrappers

  /** A JSON object member that may be missing, `null`, or a string. */
  datatype JsonText = Missing | Null | Text(s: string) {
    /** Python's `obj.get(key, '')`: the empty string for a missing member, `None` for `null`. */
    function GetOrEmpty(): Option<string> {
      match this
      case Missing => Some("")
      case Null => None
      case Text(s) => Some(s)
    }
  }

  /** One translation of a term: `{"language_iso", "translation", "description"?}`. */
  datatype GlossaryTranslation = GlossaryTranslation(languageIso: string, translation: string, description: JsonText)

  /** One glossary term with its translations, in the order they were found. */
  datatype GlossaryEntry = GlossaryEntry(
    term: string,
    partOfSpeech: JsonText,
    description: JsonText,
    translations: seq<GlossaryTranslation>)
}
