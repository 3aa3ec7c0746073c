/** Phrase tables and the lookup of one message id in one table. */
module Phrases {
  import opened Optional

  /** One entry of a phrase table: a message id and its translation, which
      the generated data may leave absent (NULL). */
  datatype Phrase = Phrase(msgId: string, translation: Option<string>)

  /** A phrase table in table order; its end is the end of the sequence. */
  type Table = seq<Phrase>

  /** An entry answers a key when its id is the key and it has a translation. */
  predicate Hit(p: Phrase, key: string) {
    p.msgId == key && p.translation.Some?
  }

  /** Every translation a table carries. */
  ghost function Texts(table: Table): set<string> {
    set k | 0 <= k < |table| && table[k].translation.Some? :: table[k].translation.value
  }

  /** The key a message id is matched by: one leading '$' removed, if any. */
  function StripDollar(msgId: string): (key: string)
    ensures key == msgId || msgId == "$" + key
    ensures key != msgId <==> |msgId| > 0 && msgId[0] == '$'
  {
    if |msgId| > 0 && msgId[0] == '$' then msgId[1..] else msgId
  }

  /** The scan of the table from entry `from` on: the index of the first
      entry answering `key`, or |table| when none does. */
  function FirstHit(table: Table, key: string, from: nat): (k: nat)
    requires from <= |table|
    ensures from <= k <= |table|
    ensures k < |table| ==> Hit(table[k], key)
    ensures forall j :: from <= j < k ==> !Hit(table[j], key)
    decreases |table| - from
  {
    if from == |table| then from
    else if Hit(table[from], key) then from
    else FirstHit(table, key, from + 1)
  }

  /** Looks a message id up in one table: the translation of the first
      entry whose id is the stripped message id and whose translation is
      present; None when there is no such entry. */
  function GetTextCore(table: Table, msgId: string): (r: Option<string>)
    ensures r.None? <==> forall k :: 0 <= k < |table| ==> !Hit(table[k], StripDollar(msgId))
    ensures forall k :: 0 <= k < |table| && Hit(table[k], StripDollar(msgId))
                        && (forall j :: 0 <= j < k ==> !Hit(table[j], StripDollar(msgId)))
                        ==> r == table[k].translation
    ensures r.Some? ==> r.value in Texts(table)
  {
    var k := FirstHit(table, StripDollar(msgId), 0);
    if k < |table| then table[k].translation else None
  }

  /** A '$' in front of an id without one changes nothing: "$x" and "x" are
      looked up alike. */
  lemma DollarIsTransparent(table: Table, id: string)
    requires |id| == 0 || id[0] != '$'
    ensures GetTextCore(table, "$" + id) == GetTextCore(table, id)
  {
  }

  /** Only one '$' is stripped: "$$x" is looked up as "$x", so it misses in
      a table that has no "$x" entry, whatever the table says about "x". */
  lemma StripOnlyOnce(table: Table, x: string)
    requires forall k :: 0 <= k < |table| ==> table[k].msgId != "$" + x
    ensures GetTextCore(table, "$$" + x).None?
  {
  }
}
