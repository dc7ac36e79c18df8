/**
 * The station record of the data model (model/Station.java).
 *
 * The record keeps a single display name with its language, and four
 * multi-valued maps filled by the CSV import. A multi-valued map is modelled as
 * its sequence of (key, value) entries; the constructors never initialise those
 * maps, and the model reads an unset map as empty. Capacity and the two float
 * coordinates play no part in any operation of the model and are left out.
 */
module Stations {
  import opened Wrappers
  import opened Locales

  /** The entries of a `MultiValuedMap<String, String>`. */
  type Entries = seq<(string, string)>

  datatype Station = Station(
    id: Option<int>,
    name: Option<string>,
    lang: Option<string>,
    names: Entries,
    address: Entries,
    city: Entries,
    operatorName: Entries)

  /** `Station.Fields`: the field labels used in validation errors. */
  datatype Field = Identifier | Name | Language

  /** `Fields.toString()`: an enum constant prints as its own name. */
  function FieldLabel(f: Field): string {
    match f
    case Identifier => "IDENTIFIER"
    case Name => "NAME"
    case Language => "LANGUAGE"
  }

  /** `isNew`: the station has not been given an identifier. */
  function IsNew(s: Station): (r: bool)
    ensures r <==> GetId(s) == None
  {
    s.id.None?
  }

  /**
   * `isValid`: the four import-only maps are all non-empty. The identifier,
   * the display name and its language play no part.
   */
  function IsValid(s: Station): (r: bool)
    ensures r <==> |s.names| > 0 && |s.address| > 0 && |s.city| > 0 && |s.operatorName| > 0
  {
    s.names != [] && s.address != [] && s.city != [] && s.operatorName != []
  }

  function GetId(s: Station): Option<int> {
    s.id
  }

  /** `setId`: changes the identifier and nothing else. */
  function SetId(s: Station, id: Option<int>): (r: Station)
    ensures GetId(r) == id
    ensures r.(id := s.id) == s
  {
    s.(id := id)
  }

  /** `getName(lang)`: the language argument is ignored; there is one stored name. */
  function GetName(s: Station, lang: Option<string>): Option<string> {
    s.name
  }

  /** `setName(name, lang)`: stores the name only; the language argument is ignored. */
  function SetName(s: Station, name: Option<string>, lang: Option<string>): (r: Station)
    ensures r.name == name
    ensures GetLang(r) == GetLang(s)
    ensures r.(name := s.name) == s
  {
    s.(name := name)
  }

  function GetLang(s: Station): Option<string> {
    s.lang
  }

  /** `setLang`: changes the language and nothing else. */
  function SetLang(s: Station, lang: Option<string>): (r: Station)
    ensures GetLang(r) == lang
    ensures r.(lang := s.lang) == s
  {
    s.(lang := lang)
  }

  /**
   * `Station(id, name, language)`: sets the identifier and the name. Because
   * `setName` drops its language argument, the language stays unset, and so
   * do the four maps: the new station is never valid.
   */
  function NewStation(id: Option<int>, name: Option<string>, language: Option<string>): (r: Station)
    ensures GetId(r) == id && r.name == name
    ensures GetLang(r) == None
    ensures !IsValid(r)
    ensures IsNew(r) <==> id == None
  {
    SetName(SetId(Station(None, None, None, [], [], [], []), id), name, language)
  }

  /** `Station(id, name, locale)`: the three-string constructor with the locale's language. */
  function NewStationForLocale(id: Option<int>, name: Option<string>, locale: Option<Locale>): (r: Station)
    ensures forall language :: r == NewStation(id, name, language)
    ensures !IsValid(r) && GetLang(r) == None
  {
    NewStation(id, name, LanguageOf(locale))
  }

  /** `Station(id, name)`: the locale constructor with the Finnish locale. */
  function NewFinnishStation(id: Option<int>, name: Option<string>): (r: Station)
    ensures r == NewStation(id, name, Some("fi"))
    ensures GetLang(r) == None && !IsValid(r)
  {
    NewStationForLocale(id, name, Some(Finnish))
  }

  /** Validity ignores the identifier, the display name and its language. */
  lemma ValidityIgnoresNameFields(s: Station, id: Option<int>, name: Option<string>, lang: Option<string>)
    ensures IsValid(SetName(SetLang(SetId(s, id), lang), name, lang)) == IsValid(s)
  {
  }

  /** Whatever language is asked for, `getName` returns the name last stored by `setName`. */
  lemma NameIgnoresLanguage(s: Station, name: Option<string>, setLang: Option<string>, getLang: Option<string>)
    ensures GetName(SetName(s, name, setLang), getLang) == name
    ensures GetName(s, setLang) == GetName(s, getLang)
  {
  }

  /** Getters return what the matching setter stored; setters touch no other field. */
  lemma AccessorRoundTrips(s: Station, id: Option<int>, lang: Option<string>)
    ensures GetId(SetId(s, id)) == id && SetId(SetId(s, id), GetId(s)) == s
    ensures GetLang(SetLang(s, lang)) == lang && SetLang(SetLang(s, lang), GetLang(s)) == s
    ensures GetLang(SetId(s, id)) == GetLang(s) && GetId(SetLang(s, lang)) == GetId(s)
  {
  }
}
