/**
 * The package-private `Station` class of JourneyController.java: a plain
 * identifier/name/language record with setters and getters.
 */
module PlainStations {
  import opened Wrappers
  import opened Locales

  datatype PlainStation = PlainStation(id: Option<int>, name: Option<string>, lang: Option<string>)

  function GetId(s: PlainStation): Option<int> {
    s.id
  }

  function GetName(s: PlainStation): Option<string> {
    s.name
  }

  function GetLang(s: PlainStation): Option<string> {
    s.lang
  }

  /** `setId`: the getter returns the stored value; name and language are kept. */
  function SetId(s: PlainStation, id: Option<int>): (r: PlainStation)
    ensures GetId(r) == id && GetName(r) == GetName(s) && GetLang(r) == GetLang(s)
  {
    s.(id := id)
  }

  /** `setName`: the getter returns the stored value; identifier and language are kept. */
  function SetName(s: PlainStation, name: Option<string>): (r: PlainStation)
    ensures GetName(r) == name && GetId(r) == GetId(s) && GetLang(r) == GetLang(s)
  {
    s.(name := name)
  }

  /** `setLang`: the getter returns the stored value; identifier and name are kept. */
  function SetLang(s: PlainStation, lang: Option<string>): (r: PlainStation)
    ensures GetLang(r) == lang && GetId(r) == GetId(s) && GetName(r) == GetName(s)
  {
    s.(lang := lang)
  }

  /**
   * `Station(id, name, locale)`: stores the identifier and name as given; the
   * language is the locale's language, or null for a null locale.
   */
  function NewPlainStation(id: Option<int>, name: Option<string>, locale: Option<Locale>): (r: PlainStation)
    ensures GetId(r) == id && GetName(r) == name
    ensures locale.None? ==> GetLang(r) == None
    ensures locale.Some? ==> GetLang(r) == Some(locale.value.language)
  {
    var blank := PlainStation(None, None, None);
    SetLang(SetName(SetId(blank, id), name), LanguageOf(locale))
  }

  /** `Station(id, name)`: the Finnish locale, so the language is "fi". */
  function NewFinnishPlainStation(id: Option<int>, name: Option<string>): (r: PlainStation)
    ensures GetId(r) == id && GetName(r) == name && GetLang(r) == Some("fi")
  {
    NewPlainStation(id, name, Some(Finnish))
  }
}
