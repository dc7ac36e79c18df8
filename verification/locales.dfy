/** The part of `java.util.Locale` the station constructors use: its language code. */
module Locales {
  import opened Wrappers

  /** A locale, reduced to the code `getLanguage()` returns. */
  datatype Locale = Locale(language: string)

  /** `Locale.forLanguageTag("fi")`, whose language is "fi". */
  const Finnish: Locale := Locale("fi")

  /** `locale == null ? null : locale.getLanguage()`. */
  function LanguageOf(locale: Option<Locale>): Option<string> {
    match locale
    case None => None
    case Some(l) => Some(l.language)
  }
}
