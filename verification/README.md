# lv_i18n runtime lookup engine, in Dafny

This project models the runtime of the lv_i18n internationalization library:
the C file `src/lv_i18n.template.c` that the code generator fills with
per-language data. The runtime has three parts.

1. **Plural operands and rules.** The integer-only CLDR operands n, i, v, w, f and t (Unicode
   Technical Standard #35, Part 3, section "Plural Operand Meanings"). Also the three
   rule functions of the sample data: en-GB and de-DE use one/other, and ru-RU uses the
   East Slavic one/few/many split.
2. **Phrase-table lookup.** One leading `$` is stripped from the message id. The table is
   then scanned for the first entry with that id and a present translation.
3. **Locale selection and two-tier fallback.**
   - The state is the registered language pack and the active locale.
   - It is changed by `init`, `set_locale` and `reset`.
   - It is read by `get_current_locale`, `get_text` and `get_text_plural`.
   - A lookup tries the active locale first.
   - If the active locale is not the default (pack element 0), it then tries the default.
   - Last, it echoes the message id, unstripped.

Modules, one per component:

- `Optional` (optional.dfy): `Option`. It stands for an absent translation, an absent
  singular table and an absent plural rule. An absent plural table is a category missing
  from the locale's `plurals` map. An absent pack and an absent current locale are the
  `Uninitialized` selection.
- `Plural` (plural.dfy): the operands, the rule functions and the `PluralFn` tag that a locale
  carries in place of a function pointer.
- `Phrases` (phrases.dfy): phrases, tables, `$` stripping and `GetTextCore`.
- `Locales` (locales.dfy): the `Locale` record. It also holds the per-locale singular and
  plural searches that `get_text` and `get_text_plural` run once or twice.
- `Sample` (sample.dfy): the sample pack (en-GB, ru-RU, de-DE). `init` falls back to it when
  it is given no pack.
- `I18n` (i18n.dfy): the selection state and all public operations, with the lemmas that
  relate them.
- `SampleFacts` (sample_facts.dfy): concrete answers of the runtime on the sample pack and on
  a two-locale scenario.

The two hidden globals of the C file become an explicit `Selection` value. It is either
`Uninitialized`, or `Selected(pack, current)`. `Init` and `SetLocale` take a selection and
return an `Outcome(rc, sel)`, where `rc` is 0 on success and -1 on failure. `Reset` takes
nothing and returns the `Uninitialized` selection.

The lookups require `Registered(st)`: a registered pack is non-empty. The C lookups rely on
this because they read `current_lang_pack[0]` (src/lv_i18n.template.c:215-216 and 252-253).
`Valid(st)` adds that the active locale is an element of the pack. Nothing in the C code
depends on that, but `init` and `set_locale` keep it. `RunKeepsValid` proves that every
selection reachable through `init`, `set_locale` and `reset` is `Valid`, and so `Registered`.

The C fallback test compares pointers (`lang == current_lang_pack[0]`). The model compares
locale values instead. The answers are the same: if two distinct but equal locales were
compared, the C code's second search would run in an equal locale and miss again.

The table scan skips an entry whose id matches but whose translation is absent, and keeps
scanning (src/lv_i18n.template.c:186-188). The answer is therefore the first entry that has
both the id and a translation.

## Model

| member | source | states |
|---|---|---|
| Plural.OpN | src/lv_i18n.template.c:13 | operand n is non-negative and equals the count or its negation (its magnitude); 2^31 for the least int32 |
| Plural.OpI | src/lv_i18n.template.c:14 | operand i, the integer digits of n, is n itself |
| Plural.OpV | src/lv_i18n.template.c:16 | operand v, the count of visible fraction digits, is 0 for an integer |
| Plural.OpW | src/lv_i18n.template.c:17 | operand w, the visible fraction digits without trailing zeros, is 0 for an integer |
| Plural.OpF | src/lv_i18n.template.c:18 | operand f, the visible fraction digits, is 0 for an integer |
| Plural.OpT | src/lv_i18n.template.c:19 | operand t, the fraction digits without trailing zeros, is 0 for an integer |
| Plural.IntegerOperands | src/lv_i18n.template.c:13-19 | for every integer count, n = i = its absolute value and v = w = f = t = 0 |
| Plural.OperandsIgnoreSign | src/lv_i18n.template.c:13-19 | a count and its negation have identical operands |
| Plural.EnGbPluralFn | src/lv_i18n.template.c:37-45 | the category is ONE exactly when the count's magnitude is 1, and OTHER otherwise |
| Plural.RuRuPluralFn | src/lv_i18n.template.c:75-86 | ONE iff the magnitude ends in 1 but not 11; FEW iff it ends in 2..4 but not 12..14; never OTHER for an integer count, so MANY is exactly the remainder |
| Plural.DeDePluralFn | src/lv_i18n.template.c:97-105 | the category is ONE exactly when the count's magnitude is 1, and OTHER otherwise |
| Plural.Apply | src/lv_i18n.template.c:243 | the category a locale's own rule gives a count: never ZERO or TWO; for en-GB and de-DE ONE exactly when the magnitude is 1, else OTHER; for ru-RU never OTHER, ONE exactly when the magnitude ends in 1 but not 11, FEW exactly when it ends in 2..4 but not 12..14, and MANY otherwise |
| Plural.RulesRange | src/lv_i18n.template.c:37-105 | no rule answers ZERO or TWO; the Russian rule never answers OTHER; the English and German rules answer only ONE or OTHER |
| Plural.SignIrrelevant | src/lv_i18n.template.c:37-105 | every rule gives a count and its negation the same category |
| Plural.RuRuLastTwoDigits | src/lv_i18n.template.c:75-86 | the Russian category of a count equals that of its magnitude's last two decimal digits |
| Plural.RuRuExamples | src/lv_i18n.template.c:75-86 | 1, 21, 101 and -21 are ONE; 2, 4 and 22 are FEW; 0, 5, 11, 12 and 111 are MANY |
| Phrases.StripDollar | src/lv_i18n.template.c:179-183 | the key differs from the id exactly when the id starts with '$', and then '$' followed by the key is the id |
| Phrases.FirstHit | src/lv_i18n.template.c:185-190 | the scan stops at an entry with the key and a translation, and every entry it passed lacks one of the two |
| Phrases.GetTextCore | src/lv_i18n.template.c:175-193 | None exactly when no entry has the stripped id and a translation; otherwise the translation of the first such entry, which is one of the table's translations |
| Phrases.DollarIsTransparent | src/lv_i18n.template.c:179-183 | an id without a leading '$' and the same id with one '$' in front get the same answer |
| Phrases.StripOnlyOnce | src/lv_i18n.template.c:179-190 | "$$x" is matched as "$x", so it misses in any table without a "$x" entry, even if "x" is translated |
| Locales.SingularHit | src/lv_i18n.template.c:208-212 | a locale without a singular table misses; any answer is a translation its singular table carries |
| Locales.PluralHit | src/lv_i18n.template.c:241-249 | a locale without a rule, or without a table for its rule's category, misses; any answer comes from the table of the category the locale's own rule picks |
| I18n.Reset | src/lv_i18n.template.c:132-136 | the result is a valid selection with no current locale |
| I18n.Init | src/lv_i18n.template.c:143-151 | the sample pack is used when none is given; fails (-1) exactly when the pack is empty, leaving the selection unchanged; on success (0) it registers the pack and activates element 0 |
| I18n.FindLocale | src/lv_i18n.template.c:163-169 | the index found names `name`, and no earlier locale does |
| I18n.SetLocale | src/lv_i18n.template.c:157-172 | succeeds exactly when a pack is registered and some locale has the name; on failure the selection is unchanged; on success the same pack stays and the first locale with that name becomes active; validity is preserved |
| I18n.GetCurrentLocale | src/lv_i18n.template.c:272-276 | absent exactly when nothing is selected; otherwise the active locale's name |
| I18n.GetText | src/lv_i18n.template.c:201-225 | uninitialized: the id is echoed; otherwise the answer is the id or a singular translation of the active or default locale; with the default active, only the default's translations or the id |
| I18n.GetTextPlural | src/lv_i18n.template.c:233-266 | uninitialized: the id is echoed; otherwise the answer is the id or a translation from the table of the category chosen by the active locale's rule or by the default locale's own rule |
| I18n.SearchChain | src/lv_i18n.template.c:201-224 | the locales consulted: none before init; otherwise the active locale first and the default last, at most two of them and never the same locale twice |
| I18n.LookupsFollowChain | src/lv_i18n.template.c:201-266 | both lookups return the first hit along the search chain, each locale using its own plural rule, or echo the id when there is none |
| I18n.ResetForgets | src/lv_i18n.template.c:132-136 | after reset both lookups echo the id for every count, and there is no current locale |
| I18n.ActiveHitWins | src/lv_i18n.template.c:208-212 | when the active locale has a translation, both lookups return it |
| I18n.DefaultIsTerminal | src/lv_i18n.template.c:214-215 | with the default active, both lookups return the default's answer or the id, after a single search |
| I18n.MissFallsBackToDefault | src/lv_i18n.template.c:214-224 | after a miss in the active locale, both lookups answer what they would with the default locale active |
| I18n.NoRuleFallsThrough | src/lv_i18n.template.c:241-265 | a locale without a plural rule goes straight to the fallback: the id if it is the default, otherwise the default's plural answer or the id |
| I18n.InitReplacesState | src/lv_i18n.template.c:143-151 | the status of init, and the selection after a successful init, do not depend on the earlier selection |
| I18n.SetLocaleSettles | src/lv_i18n.template.c:157-172 | after a successful switch the current locale has the requested name, and switching again to it changes nothing |
| I18n.RunKeepsValid | src/lv_i18n.template.c:132-172 | any sequence of reset, init and set_locale calls from a valid selection ends in a valid selection |
| SampleFacts.InitWithSamplePack | src/lv_i18n.template.c:114-119 | init with no pack succeeds on the sample pack with en-GB current |
| SampleFacts.InitEmptyFails | src/lv_i18n.template.c:146 | init with an empty pack returns -1 and keeps the earlier selection |
| SampleFacts.SwitchLocales | src/lv_i18n.template.c:157-172 | switching to ru-RU succeeds; an unknown name fails and keeps ru-RU active; switching before init fails |
| SampleFacts.RussianSingularHit | src/lv_i18n.template.c:55-58 | with ru-RU active, "s_translated" and "$s_translated" get the Russian text |
| SampleFacts.RussianSingularFallback | src/lv_i18n.template.c:21-25 | with ru-RU active, "s_en_only" is answered by en-GB |
| SampleFacts.RussianSingularEcho | src/lv_i18n.template.c:179-224 | with ru-RU active, "$$s_translated" misses in both locales and is echoed unstripped |
| SampleFacts.RussianPlurals | src/lv_i18n.template.c:60-95 | with ru-RU active, the counts 1, 3 and 11 select the one, few and many texts |
| SampleFacts.GermanFallsBackToEnglish | src/lv_i18n.template.c:97-112 | de-DE has no tables, so lookups fall back to en-GB, and the English rule picks "dog" for 1 and "dogs" for 5 |
| SampleFacts.DefaultDoesNotReachOtherLocales | src/lv_i18n.template.c:201-225 | with locales [A, B] where only B translates "k": B active gives "v", and A active again gives "k" |

## Left out

- The header `lv_i18n.h` is not part of this model. The model's own datatypes replace the types it declares.
- The code generator that produces the tables is not modelled. The `/*SAMPLE_START*/`…`/*SAMPLE_END*/` markers are not modelled either. The sample data is kept only as fixtures.
- C memory layout is not modelled: NULL-terminated arrays, raw pointers and pointer identity. Tables and packs are sequences, and NULL is `None`.
- `strcmp` is modelled as string equality. This assumes ids and names contain no NUL character, which a C string cannot hold anyway.
- The `uint16_t` loop counters in `lv_i18n_set_locale` and `__lv_i18n_get_text_core` are not modelled. In C, a pack or table with 65536 or more entries would wrap the counter. Packs and tables are assumed smaller than that.
- The narrowing of a rule's result through `uint8_t` and `lv_i18n_plural_type_t` is not modelled, and neither is indexing `plurals[ptype]` out of range. Categories are a six-valued datatype, and a category missing from a locale's map is a NULL table.
- Plural.OpN: negating the least int32 is undefined behaviour in C. The model fixes the result at 2^31, the magnitude.
- Printf-style `%d` placeholders are not modelled. Translations are opaque strings, and substitution is the caller's job.
- The globals `current_lang_pack` and `current_lang` are not modelled as process state. An explicit `Selection` value, passed in and returned, replaces them. Concurrency is not modelled.
- Function pointers are not modelled. Only the three rule functions defined in this file exist, as the `PluralFn` tag. Rules that the generator emits for other languages are outside this file.
