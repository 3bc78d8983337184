/**
 * The language provider: which language the site starts in, what it writes
 * back to storage and to the document after every change.
 */
module LanguageContext {
  import opened Wrappers
  import opened I18n

  /** `stored && availableLangs.includes(stored)`, as a language. */
  function ParseLang(stored: Option<string>): (r: Option<Lang>)
    ensures r.Some? <==> exists lang: Lang :: stored == Some(Code(lang))
    ensures r.Some? ==> stored == Some(Code(r.value))
  {
    if stored == Some("en") then assert stored == Some(Code(En)); Some(En)
    else if stored == Some("ar") then assert stored == Some(Code(Ar)); Some(Ar)
    else
      assert forall lang: Lang :: stored != Some(Code(lang));
      None
  }

  /** The initial language: the stored code when it names an available language, else English. */
  function InitialLang(stored: Option<string>): (lang: Lang)
    ensures forall l: Lang :: stored == Some(Code(l)) ==> lang == l
    ensures (forall l: Lang :: stored != Some(Code(l))) ==> lang == En
    ensures lang in AvailableLangs
  {
    match ParseLang(stored)
    case Some(l) => l
    case None => En
  }

  /** What the effect writes after each change of language. */
  datatype DocumentState = DocumentState(storedLang: string, htmlLang: string, dir: string)

  function Persist(lang: Lang): (s: DocumentState)
    ensures s.storedLang == Code(lang) && s.htmlLang == Code(lang)
    ensures s.dir == "rtl" <==> lang == Ar
    ensures s.dir == "ltr" <==> lang != Ar
  {
    DocumentState(Code(lang), Code(lang), if lang == Ar then "rtl" else "ltr")
  }

  /** Reloading after a change starts in the language that was set. */
  lemma ReloadKeepsLanguage(lang: Lang)
    ensures InitialLang(Some(Persist(lang).storedLang)) == lang
  {
  }

  /** Nothing stored, an empty value or an unknown code all start in English. */
  lemma UnknownStoredIsEnglish()
    ensures InitialLang(None) == En && InitialLang(Some("")) == En && InitialLang(Some("fr")) == En
  {
  }
}
