/** The locale-selection state machine and the two-tier lookup protocol.

    The runtime keeps its selection in two hidden globals, the registered
    pack and the active locale; here that state is an explicit value that
    every operation takes and returns. */
module I18n {
  import opened Optional
  import opened Plural
  import opened Locales
  import Sample

  /** The selection: nothing registered, or a registered pack (element 0 is
      the default locale) together with the active locale. */
  datatype Selection = Uninitialized | Selected(pack: seq<Locale>, current: Locale)

  /** The status code an operation returns (0 success, -1 failure) and the
      selection it leaves behind. */
  datatype Outcome = Outcome(rc: int, sel: Selection)

  /** What the lookups rely on: a registered pack is non-empty, so its
      default locale exists. */
  predicate Registered(st: Selection) {
    st.Selected? ==> |st.pack| > 0
  }

  /** What every selection the operations build satisfies: the pack is
      registered and the active locale is one of its elements. */
  predicate Valid(st: Selection) {
    Registered(st) && (st.Selected? ==> st.current in st.pack)
  }

  /** Forgets the registered pack and the active locale. */
  function Reset(): (st: Selection)
    ensures Valid(st)
    ensures GetCurrentLocale(st).None?
  {
    Uninitialized
  }

  /** Registers a pack (the sample pack when given none) and activates its
      first locale; fails without touching the selection when the pack is
      empty. */
  function Init(st: Selection, langs: Option<seq<Locale>>): (r: Outcome)
    ensures r.rc == 0 || r.rc == -1
    ensures r.rc == -1 <==> |langs.GetOr(Sample.LanguagePack)| == 0
    ensures r.rc == -1 ==> r.sel == st
    ensures r.rc == 0 ==> Valid(r.sel) && r.sel.Selected?
                          && r.sel.pack == langs.GetOr(Sample.LanguagePack)
                          && r.sel.current == r.sel.pack[0]
  {
    var pack := if langs.None? then Sample.LanguagePack else langs.value;
    if |pack| == 0 then Outcome(-1, st)
    else Outcome(0, Selected(pack, pack[0]))
  }

  /** The scan of `set_locale` from position `from` on: the index of the
      first locale named `name`, or |pack| when there is none. */
  function FindLocale(pack: seq<Locale>, name: string, from: nat): (k: nat)
    requires from <= |pack|
    ensures from <= k <= |pack|
    ensures k < |pack| ==> pack[k].name == name
    ensures forall j :: from <= j < k ==> pack[j].name != name
    decreases |pack| - from
  {
    if from == |pack| then from
    else if pack[from].name == name then from
    else FindLocale(pack, name, from + 1)
  }

  /** Activates the first locale of the registered pack whose name is
      `name`; fails, leaving the selection as it was, when nothing is
      registered or no locale has that name. */
  function SetLocale(st: Selection, name: string): (r: Outcome)
    ensures r.rc == 0 || r.rc == -1
    ensures r.rc == 0 <==> st.Selected? && exists k :: 0 <= k < |st.pack| && st.pack[k].name == name
    ensures r.rc == -1 ==> r.sel == st
    ensures r.rc == 0 ==> r.sel.Selected? && r.sel.pack == st.pack && r.sel.current.name == name
    ensures r.rc == 0 ==> exists k :: 0 <= k < |st.pack| && st.pack[k] == r.sel.current
                                     && forall j :: 0 <= j < k ==> st.pack[j].name != name
    ensures Valid(st) ==> Valid(r.sel)
  {
    match st
    case Uninitialized => Outcome(-1, st)
    case Selected(pack, _) =>
      var k := FindLocale(pack, name, 0);
      if k < |pack| then Outcome(0, Selected(pack, pack[k])) else Outcome(-1, st)
  }

  /** The name of the active locale; None when nothing is selected. */
  function GetCurrentLocale(st: Selection): (r: Option<string>)
    ensures r.None? <==> st.Uninitialized?
    ensures r.Some? ==> r.value == st.current.name
  {
    if st.Uninitialized? then None else Some(st.current.name)
  }

  /** A message id's singular translation: the active locale's, then (unless
      the active locale is the default) the default locale's, then the id
      itself, unstripped. Never absent. */
  function GetText(st: Selection, msgId: string): (r: string)
    requires Registered(st)
    ensures st.Uninitialized? ==> r == msgId
    ensures st.Selected? ==> r == msgId || OffersSingular(st.current, r) || OffersSingular(st.pack[0], r)
    ensures st.Selected? && st.current == st.pack[0] ==> r == msgId || OffersSingular(st.current, r)
  {
    match st
    case Uninitialized => msgId
    case Selected(pack, lang) =>
      var txt := SingularHit(lang, msgId);
      if txt.Some? then txt.value
      else if lang == pack[0] then msgId
      else SingularHit(pack[0], msgId).GetOr(msgId)
  }

  /** A message id's translation for a count: the active locale's table for
      the category its own rule picks, then (unless the active locale is the
      default) the default locale's table for the category the default's
      rule picks, then the id itself, unstripped. Never absent. */
  function GetTextPlural(st: Selection, msgId: string, num: Int32): (r: string)
    requires Registered(st)
    ensures st.Uninitialized? ==> r == msgId
    ensures st.Selected? ==> r == msgId || OffersPlural(st.current, num, r) || OffersPlural(st.pack[0], num, r)
    ensures st.Selected? && st.current == st.pack[0] ==> r == msgId || OffersPlural(st.current, num, r)
  {
    match st
    case Uninitialized => msgId
    case Selected(pack, lang) =>
      var txt := PluralHit(lang, msgId, num);
      if txt.Some? then txt.value
      else if lang == pack[0] then msgId
      else PluralHit(pack[0], msgId, num).GetOr(msgId)
  }

  /** Before `init`, or after `reset`, every lookup echoes its id and no
      locale is current. */
  lemma ResetForgets(msgId: string, num: Int32)
    ensures GetText(Reset(), msgId) == msgId
    ensures GetTextPlural(Reset(), msgId, num) == msgId
    ensures GetCurrentLocale(Reset()) == None
  {
  }

  /** A translation the active locale has wins, whichever locale is active. */
  lemma ActiveHitWins(pack: seq<Locale>, lang: Locale, msgId: string, num: Int32)
    requires |pack| > 0
    ensures SingularHit(lang, msgId).Some? ==> GetText(Selected(pack, lang), msgId) == SingularHit(lang, msgId).value
    ensures PluralHit(lang, msgId, num).Some? ==> GetTextPlural(Selected(pack, lang), msgId, num) == PluralHit(lang, msgId, num).value
  {
  }

  /** The default locale is terminal: when it is active a miss echoes the id
      after a single search. */
  lemma DefaultIsTerminal(pack: seq<Locale>, msgId: string, num: Int32)
    requires |pack| > 0
    ensures GetText(Selected(pack, pack[0]), msgId) == SingularHit(pack[0], msgId).GetOr(msgId)
    ensures GetTextPlural(Selected(pack, pack[0]), msgId, num) == PluralHit(pack[0], msgId, num).GetOr(msgId)
  {
  }

  /** A miss in the active locale answers exactly what the lookup would
      answer with the default locale active. */
  lemma MissFallsBackToDefault(pack: seq<Locale>, lang: Locale, msgId: string, num: Int32)
    requires |pack| > 0
    ensures SingularHit(lang, msgId).None? ==> GetText(Selected(pack, lang), msgId) == GetText(Selected(pack, pack[0]), msgId)
    ensures PluralHit(lang, msgId, num).None? ==> GetTextPlural(Selected(pack, lang), msgId, num) == GetTextPlural(Selected(pack, pack[0]), msgId, num)
  {
  }

  /** A locale without a plural rule never answers a plural lookup: the
      lookup goes straight to the default locale's branch. */
  lemma NoRuleFallsThrough(pack: seq<Locale>, lang: Locale, msgId: string, num: Int32)
    requires |pack| > 0
    requires lang.pluralFn.None?
    ensures GetTextPlural(Selected(pack, lang), msgId, num)
            == if lang == pack[0] then msgId else PluralHit(pack[0], msgId, num).GetOr(msgId)
  {
  }

  /** The locales a lookup consults, in order: none before `init`; the
      active locale; then the default, unless it is the active one. */
  function SearchChain(st: Selection): (chain: seq<Locale>)
    requires Registered(st)
    ensures st.Uninitialized? <==> |chain| == 0
    ensures st.Selected? ==> 1 <= |chain| <= 2 && chain[0] == st.current && chain[|chain| - 1] == st.pack[0]
    ensures |chain| == 2 ==> chain[0] != chain[1]
  {
    match st
    case Uninitialized => []
    case Selected(pack, lang) => if lang == pack[0] then [lang] else [lang, pack[0]]
  }

  /** The first singular answer along a chain of locales. */
  function FirstSingular(chain: seq<Locale>, msgId: string): Option<string>
    decreases |chain|
  {
    if |chain| == 0 then None
    else if SingularHit(chain[0], msgId).Some? then SingularHit(chain[0], msgId)
    else FirstSingular(chain[1..], msgId)
  }

  /** The first plural answer along a chain of locales, each locale picking
      the category with its own rule. */
  function FirstPlural(chain: seq<Locale>, msgId: string, num: Int32): Option<string>
    decreases |chain|
  {
    if |chain| == 0 then None
    else if PluralHit(chain[0], msgId, num).Some? then PluralHit(chain[0], msgId, num)
    else FirstPlural(chain[1..], msgId, num)
  }

  /** Both lookups answer the first hit along the search chain, or echo the
      id when the chain has none. */
  lemma LookupsFollowChain(st: Selection, msgId: string, num: Int32)
    requires Registered(st)
    ensures GetText(st, msgId) == FirstSingular(SearchChain(st), msgId).GetOr(msgId)
    ensures GetTextPlural(st, msgId, num) == FirstPlural(SearchChain(st), msgId, num).GetOr(msgId)
  {
    var chain := SearchChain(st);
    if |chain| == 2 {
      var default := chain[1];
      assert FirstSingular(chain[1..], msgId) == SingularHit(default, msgId);
      assert FirstPlural(chain[1..], msgId, num) == PluralHit(default, msgId, num);
    }
  }

  /** A successful `init` replaces the whole prior selection: its result does
      not depend on what was selected before. */
  lemma InitReplacesState(st1: Selection, st2: Selection, langs: Option<seq<Locale>>)
    ensures Init(st1, langs).rc == Init(st2, langs).rc
    ensures Init(st1, langs).rc == 0 ==> Init(st1, langs).sel == Init(st2, langs).sel
  {
  }

  /** After a successful `set_locale` the current locale has the name asked
      for, and asking again changes nothing. */
  lemma SetLocaleSettles(st: Selection, name: string)
    requires SetLocale(st, name).rc == 0
    ensures GetCurrentLocale(SetLocale(st, name).sel) == Some(name)
    ensures SetLocale(SetLocale(st, name).sel, name) == SetLocale(st, name)
  {
  }

  /** One call of a state-changing operation. */
  datatype Op = ResetOp | InitOp(langs: Option<seq<Locale>>) | SetLocaleOp(name: string)

  /** The selection after one operation. */
  function Step(st: Selection, op: Op): Selection {
    match op
    case ResetOp => Reset()
    case InitOp(langs) => Init(st, langs).sel
    case SetLocaleOp(name) => SetLocale(st, name).sel
  }

  /** The selection after a sequence of operations. */
  function Run(st: Selection, ops: seq<Op>): Selection
    decreases |ops|
  {
    if |ops| == 0 then st else Run(Step(st, ops[0]), ops[1..])
  }

  /** Every selection the operations can reach from start-up is Valid, and
      so in particular Registered, the lookups' precondition. */
  lemma {:induction false} RunKeepsValid(st: Selection, ops: seq<Op>)
    requires Valid(st)
    ensures Valid(Run(st, ops))
    decreases |ops|
  {
    if |ops| > 0 {
      var next := Step(st, ops[0]);
      assert Valid(next);
      RunKeepsValid(next, ops[1..]);
    }
  }
}
