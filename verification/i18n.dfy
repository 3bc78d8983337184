/**
 * Translation lookup: `t(key, lang)` answers the entry of the language's
 * table, else the English entry, else the key itself. The two tables are
 * static data and are a parameter here.
 */
module I18n {

  datatype Lang = En | Ar

  /** The language code stored and set on the document. */
  function Code(lang: Lang): (code: string)
    ensures code == "en" <==> lang == En
    ensures code == "ar" <==> lang == Ar
  {
    match lang
    case En => "en"
    case Ar => "ar"
  }

  /** `availableLangs`. */
  const AvailableLangs: seq<Lang> := [En, Ar]

  /** The string tables per language. */
  datatype Tables = Tables(en: map<string, string>, ar: map<string, string>)

  function TableOf(tables: Tables, lang: Lang): map<string, string> {
    match lang
    case En => tables.en
    case Ar => tables.ar
  }

  /** `translations[lang]?.[key] ?? translations['en'][key] ?? key`. */
  function T(tables: Tables, key: string, lang: Lang): (text: string)
    ensures key in TableOf(tables, lang) ==> text == TableOf(tables, lang)[key]
    ensures key !in TableOf(tables, lang) && key in tables.en ==> text == tables.en[key]
    ensures key !in TableOf(tables, lang) && key !in tables.en ==> text == key
  {
    var table := TableOf(tables, lang);
    if key in table then table[key]
    else if key in tables.en then tables.en[key]
    else key
  }

  /** Every language is offered, each once, English first. */
  lemma AvailableLangsExact()
    ensures forall lang: Lang :: lang in AvailableLangs
    ensures |AvailableLangs| == 2 && AvailableLangs[0] == En && AvailableLangs[1] == Ar
    ensures Code(AvailableLangs[0]) == "en" && Code(AvailableLangs[1]) == "ar"
  {
    forall lang: Lang ensures lang in AvailableLangs {
      if lang == En { assert AvailableLangs[0] == lang; } else { assert AvailableLangs[1] == lang; }
    }
  }

  /** English text depends on the English table alone. */
  lemma EnglishIgnoresOtherTables(a: Tables, b: Tables, key: string)
    requires a.en == b.en
    ensures T(a, key, En) == T(b, key, En)
  {
  }

  /** Fallback happens only on absence: a present empty entry is returned as it is. */
  lemma EmptyEntryKept(tables: Tables, key: string, lang: Lang)
    requires key in TableOf(tables, lang) && TableOf(tables, lang)[key] == ""
    ensures T(tables, key, lang) == ""
  {
  }

  /**
   * The Arabic table has no portfolio page keys, so the portfolio title in
   * Arabic is the English one.
   */
  lemma PortfolioTitleInArabic(tables: Tables)
    requires "portfolio.title" !in tables.ar
    requires "portfolio.title" in tables.en && tables.en["portfolio.title"] == "Project Portfolio"
    ensures T(tables, "portfolio.title", Ar) == "Project Portfolio"
  {
  }

  /** A key no table knows is shown as the key. */
  lemma UnknownKeyShown(tables: Tables, key: string, lang: Lang)
    requires key !in tables.en && key !in tables.ar
    ensures T(tables, key, lang) == key
  {
  }
}
