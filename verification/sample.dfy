/** The sample language pack shipped with the runtime: en-GB (the default,
    with singular and one/other tables), ru-RU (one/few/many tables) and
    de-DE (a rule but no tables at all). */
module Sample {
  import opened Optional
  import opened Plural
  import opened Phrases
  import opened Locales

  const EnGbSingulars: Table := [
    Phrase("s_en_only", Some("english only")),
    Phrase("s_translated", Some("s translated"))
  ]

  const EnGbPluralsOne: Table := [Phrase("p_i_have_dogs", Some("I have %d dog"))]

  const EnGbPluralsOther: Table := [Phrase("p_i_have_dogs", Some("I have %d dogs"))]

  const EnGbLang: Locale := Locale(
    "en-GB",
    Some(EnGbSingulars),
    map[One := EnGbPluralsOne, Other := EnGbPluralsOther],
    Some(EnGb))

  const RuRuSingulars: Table := [Phrase("s_translated", Some("s переведено"))]

  const RuRuPluralsOne: Table := [Phrase("p_i_have_dogs", Some("У меня %d собакен"))]

  const RuRuPluralsFew: Table := [Phrase("p_i_have_dogs", Some("У меня %d собакена"))]

  const RuRuPluralsMany: Table := [Phrase("p_i_have_dogs", Some("У меня %d собакенов"))]

  const RuRuLang: Locale := Locale(
    "ru-RU",
    Some(RuRuSingulars),
    map[One := RuRuPluralsOne, Few := RuRuPluralsFew, Many := RuRuPluralsMany],
    Some(RuRu))

  const DeDeLang: Locale := Locale("de-DE", None, map[], Some(DeDe))

  /** The pack `init` falls back to when it is given none. */
  const LanguagePack: seq<Locale> := [EnGbLang, RuRuLang, DeDeLang]
}
