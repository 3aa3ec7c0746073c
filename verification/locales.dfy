/** Locales: a name, a singular phrase table, up to one phrase table per
    plural category and a plural rule; the tables and the rule each possibly
    absent. */
module Locales {
  import opened Optional
  import opened Plural
  import opened Phrases

  /** A locale as the generated data describes it. A category missing from
      `plurals` is a NULL entry of the source's per-category array. */
  datatype Locale = Locale(
    name: string,
    singulars: Option<Table>,
    plurals: map<Category, Table>,
    pluralFn: Option<PluralFn>)

  /** The locale offers `t` for a count: its rule picks a category, that
      category has a table, and the table carries `t`. */
  ghost predicate OffersPlural(loc: Locale, num: Int32, t: string) {
    && loc.pluralFn.Some?
    && Apply(loc.pluralFn.value, num) in loc.plurals
    && t in Texts(loc.plurals[Apply(loc.pluralFn.value, num)])
  }

  /** The locale offers `t` as a singular translation. */
  ghost predicate OffersSingular(loc: Locale, t: string) {
    loc.singulars.Some? && t in Texts(loc.singulars.value)
  }

  /** One singular search in one locale: the table's answer, or a miss when
      the locale has no singular table. */
  function SingularHit(loc: Locale, msgId: string): (r: Option<string>)
    ensures loc.singulars.None? ==> r.None?
    ensures loc.singulars.Some? ==> r == GetTextCore(loc.singulars.value, msgId)
    ensures r.Some? ==> OffersSingular(loc, r.value)
  {
    if loc.singulars.Some? then GetTextCore(loc.singulars.value, msgId) else None
  }

  /** One plural search in one locale, with the category chosen by the
      locale's own rule: a miss when the locale has no rule, or no table for
      that category, or the table does not answer. */
  function PluralHit(loc: Locale, msgId: string, num: Int32): (r: Option<string>)
    ensures loc.pluralFn.None? ==> r.None?
    ensures loc.pluralFn.Some? && Apply(loc.pluralFn.value, num) !in loc.plurals ==> r.None?
    ensures loc.pluralFn.Some? && Apply(loc.pluralFn.value, num) in loc.plurals
            ==> r == GetTextCore(loc.plurals[Apply(loc.pluralFn.value, num)], msgId)
    ensures r.Some? ==> OffersPlural(loc, num, r.value)
  {
    match loc.pluralFn
    case None => None
    case Some(fn) =>
      var ptype := Apply(fn, num);
      if ptype in loc.plurals then GetTextCore(loc.plurals[ptype], msgId) else None
  }
}
