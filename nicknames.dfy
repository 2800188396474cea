/**
 * The nickname lookup of src/script/wikidata/nicknames.ts: given the
 * `nicknames` field of a person record and a language code, return the
 * nickname stored for that language, or null.
 */
module Nicknames {
  import opened Wrappers

  /** One localized nickname: `{ language, value }`. */
  datatype Entry = Entry(language: string, value: string)

  /**
   * The `nicknames` field of a person record as JavaScript may hold it:
   * missing (`undefined`), explicitly `null`, or an object keyed by
   * language code. The record type declares the keys de, en, fr and nl,
   * but the lookup accepts any string, so the keys here are strings.
   */
  datatype NicknameField = Undefined | Null | Defined(entries: map<string, Entry>)

  /** The language codes the person record type declares. */
  const DeclaredLanguages: set<string> := {"de", "en", "fr", "nl"}

  /** The guard of the early return: the field is defined, not null and has a key. */
  predicate HasNicknames(field: NicknameField)
  {
    field.Defined? && |field.entries| != 0
  }

  /**
   * The lookup. `None` plays the role of the source's `null` result.
   * The contract says the early-return guard never changes the answer:
   * the result is present exactly when `lang` is a key, and it is then
   * that entry's value.
   */
  function Nickname(field: NicknameField, lang: string): (r: Option<string>)
    ensures r.Some? <==> field.Defined? && lang in field.entries
    ensures r.Some? ==> r.value == field.entries[lang].value
  {
    if !HasNicknames(field) then None
    else if lang in field.entries then Some(field.entries[lang].value)
    else None
  }

  /** A missing, null or empty mapping gives null for every language. */
  lemma NoMappingNoNickname(field: NicknameField, lang: string)
    requires field.Undefined? || field.Null? || (field.Defined? && field.entries == map[])
    ensures Nickname(field, lang) == None
  {
  }

  /** A present key yields the value of its entry. */
  lemma PresentKeyGivesValue(entries: map<string, Entry>, lang: string)
    requires lang in entries
    ensures Nickname(Defined(entries), lang) == Some(entries[lang].value)
  {
  }

  /** A key that is not present yields null: the match is exact. */
  lemma AbsentKeyGivesNull(entries: map<string, Entry>, lang: string)
    requires lang !in entries
    ensures Nickname(Defined(entries), lang) == None
  {
  }

  /**
   * The `language` field of an entry is never read: two mappings with the
   * same keys and the same values give the same answer for every language,
   * whatever languages their entries claim.
   */
  lemma LanguageFieldIgnored(m1: map<string, Entry>, m2: map<string, Entry>, lang: string)
    requires m1.Keys == m2.Keys
    requires forall k :: k in m1 ==> m1[k].value == m2[k].value
    ensures Nickname(Defined(m1), lang) == Nickname(Defined(m2), lang)
  {
  }

  /**
   * For a mapping that keeps to the declared keys, a language outside
   * de, en, fr and nl finds nothing.
   */
  lemma UndeclaredLanguageGivesNull(entries: map<string, Entry>, lang: string)
    requires entries.Keys <= DeclaredLanguages
    requires lang !in DeclaredLanguages
    ensures Nickname(Defined(entries), lang) == None
  {
  }

  /** An entry whose `language` disagrees with its key is still returned. */
  lemma MismatchedLanguageStillReturned()
    ensures Nickname(Defined(map["en" := Entry("fr", "Al")]), "en") == Some("Al")
  {
  }

  /** The lookup does not fold case: "EN" does not find the "en" entry. */
  lemma NoCaseFolding()
    ensures Nickname(Defined(map["en" := Entry("en", "Al")]), "EN") == None
  {
  }

  /** A record with only an English nickname: "en" finds "Al", "fr" finds nothing. */
  lemma EnglishOnlyRecord()
    ensures Nickname(Defined(map["en" := Entry("en", "Al")]), "en") == Some("Al")
    ensures Nickname(Defined(map["en" := Entry("en", "Al")]), "fr") == None
  {
  }
}
