/** What the runtime answers on the sample pack, and on the two-locale
    scenario of a key only the non-default locale translates. */
module SampleFacts {
  import opened Optional
  import opened Plural
  import opened Phrases
  import opened Locales
  import opened Sample
  import opened I18n

  /** `init` with no pack registers the sample pack with en-GB active. */
  lemma InitWithSamplePack(st: Selection)
    ensures Init(st, None) == Outcome(0, Selected(LanguagePack, EnGbLang))
    ensures GetCurrentLocale(Init(st, None).sel) == Some("en-GB")
  {
  }

  /** `init` with an empty pack fails and keeps the earlier selection. */
  lemma InitEmptyFails(st: Selection)
    ensures Init(st, Some([])) == Outcome(-1, st)
  {
  }

  /** Switching to ru-RU works; switching to an unknown name fails and
      keeps ru-RU active; nothing can be switched before `init`. */
  lemma SwitchLocales()
    ensures SetLocale(Selected(LanguagePack, EnGbLang), "ru-RU") == Outcome(0, Selected(LanguagePack, RuRuLang))
    ensures SetLocale(Selected(LanguagePack, RuRuLang), "fr-FR") == Outcome(-1, Selected(LanguagePack, RuRuLang))
    ensures SetLocale(Uninitialized, "en-GB") == Outcome(-1, Uninitialized)
  {
    assert LanguagePack[0].name == "en-GB";
    assert LanguagePack[1].name == "ru-RU";
    assert LanguagePack[2].name == "de-DE";
  }

  /** ru-RU answers its own singular translation, also for the id with one
      '$' in front. */
  lemma RussianSingularHit()
    ensures GetText(Selected(LanguagePack, RuRuLang), "s_translated") == "s переведено"
    ensures GetText(Selected(LanguagePack, RuRuLang), "$s_translated") == "s переведено"
  {
  }

  /** A key ru-RU lacks is answered by the default locale en-GB. */
  lemma RussianSingularFallback()
    ensures GetText(Selected(LanguagePack, RuRuLang), "s_en_only") == "english only"
  {
  }

  /** Only one '$' is stripped, and a total miss echoes the id unstripped. */
  lemma RussianSingularEcho()
    ensures GetText(Selected(LanguagePack, RuRuLang), "$$s_translated") == "$$s_translated"
  {
  }

  /** Plural lookups with ru-RU active use the Russian categories. */
  lemma RussianPlurals()
    ensures GetTextPlural(Selected(LanguagePack, RuRuLang), "p_i_have_dogs", 1) == "У меня %d собакен"
    ensures GetTextPlural(Selected(LanguagePack, RuRuLang), "p_i_have_dogs", 3) == "У меня %d собакена"
    ensures GetTextPlural(Selected(LanguagePack, RuRuLang), "p_i_have_dogs", 11) == "У меня %d собакенов"
  {
    assert RuRuPluralFn(1) == One && RuRuPluralFn(3) == Few && RuRuPluralFn(11) == Many;
    assert FirstHit(RuRuPluralsOne, "p_i_have_dogs", 0) == 0;
    assert FirstHit(RuRuPluralsFew, "p_i_have_dogs", 0) == 0;
    assert FirstHit(RuRuPluralsMany, "p_i_have_dogs", 0) == 0;
  }

  /** de-DE has a rule but no tables: every lookup falls back to en-GB, and
      the category is recomputed with the English rule, so 5 selects
      "other" there although no German table was consulted. */
  lemma GermanFallsBackToEnglish()
    ensures GetTextPlural(Selected(LanguagePack, DeDeLang), "p_i_have_dogs", 1) == "I have %d dog"
    ensures GetTextPlural(Selected(LanguagePack, DeDeLang), "p_i_have_dogs", 5) == "I have %d dogs"
    ensures GetText(Selected(LanguagePack, DeDeLang), "s_translated") == "s translated"
  {
  }

  /** A key only the non-default locale B translates: found while B is
      active, echoed once the default A is active again. */
  lemma DefaultDoesNotReachOtherLocales()
    ensures var a := Locale("A", Some([]), map[], None);
            var b := Locale("B", Some([Phrase("k", Some("v"))]), map[], None);
            var st := Init(Uninitialized, Some([a, b])).sel;
            && GetText(SetLocale(st, "B").sel, "k") == "v"
            && GetText(SetLocale(SetLocale(st, "B").sel, "A").sel, "k") == "k"
  {
  }
}
