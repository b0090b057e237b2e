/**
 * The taxonomy sync: every taxonomy document (service, work, client type
 * and skill) with a slug becomes a dictionary key `<prefix>.<slug>` in
 * every locale's dictionary, labelled with its title; keys a dictionary
 * already has are left alone.
 */
module SyncTaxonomies {
  import opened Wrappers
  import opened Text
  import opened Documents
  import opened DictionaryMerge

  /** A taxonomy document type and the key prefix of its dictionary entries. */
  datatype Taxonomy = Taxonomy(docType: string, prefix: string)

  const TaxonomyTypes: seq<Taxonomy> := [
    Taxonomy("serviceType", "taxonomy.service"),
    Taxonomy("workType", "taxonomy.workType"),
    Taxonomy("clientType", "taxonomy.clientType"),
    Taxonomy("skill", "taxonomy.skill")
  ]

  /** The locales to update when `SANITY_ACTIVE_LOCALES` is unset or empty. */
  const DefaultLocales: string := "en,lv"

  /** The dictionary key of a taxonomy document whose slug is `slug`. */
  function TaxonomyKey(tax: Taxonomy, slug: string): string {
    tax.prefix + "." + slug
  }

  /** The entry a taxonomy document contributes: its title, or its slug when it has no title. */
  function EntryFor(tax: Taxonomy, d: Doc): Entry
    requires Truthy(d.slug)
  {
    Entry(TaxonomyKey(tax, d.slug.value), OrElse(d.title, d.slug.value), tax.docType + " " + d.id)
  }

  /** A document of the taxonomy that has a slug, and so contributes an entry. */
  predicate Contributes(tax: Taxonomy, d: Doc) {
    d.docType == tax.docType && Truthy(d.slug)
  }

  /** The entry a single document contributes, if any. */
  function EntryOf(tax: Taxonomy, d: Doc): seq<Entry> {
    if Contributes(tax, d) then [EntryFor(tax, d)] else []
  }

  /** The inner loop of `syncLocale` over one taxonomy's documents, in query order. */
  function EntriesOf(docs: Store, tax: Taxonomy): seq<Entry> {
    if docs == [] then [] else EntryOf(tax, docs[0]) + EntriesOf(docs[1..], tax)
  }

  /** The entries of one taxonomy, in query order; documents without a slug are skipped. */
  function TaxonomyEntries(docs: Store, tax: Taxonomy): (r: seq<Entry>)
    ensures |r| <= |docs|
    ensures forall d :: d in docs && Contributes(tax, d) ==> EntryFor(tax, d) in r
    ensures forall e :: e in r ==> exists d :: d in docs && Contributes(tax, d) && e == EntryFor(tax, d)
  {
    EntriesOfMembers(docs, tax);
    EntriesOf(docs, tax)
  }

  lemma {:induction false} EntriesOfMembers(docs: Store, tax: Taxonomy)
    ensures var r := EntriesOf(docs, tax);
      && |r| <= |docs|
      && (forall d :: d in docs && Contributes(tax, d) ==> EntryFor(tax, d) in r)
      && (forall e :: e in r ==> exists d :: d in docs && Contributes(tax, d) && e == EntryFor(tax, d))
  {
    if docs != [] {
      EntriesOfMembers(docs[1..], tax);
      assert forall d :: d in docs ==> d == docs[0] || d in docs[1..];
    }
  }

  /** The candidate entries of a locale: the taxonomies in order, each one's documents in query order. */
  function Candidates(s: Store, taxes: seq<Taxonomy>): (r: seq<Entry>)
    ensures forall i, d :: 0 <= i < |taxes| && d in s && Contributes(taxes[i], d) ==> EntryFor(taxes[i], d) in r
    ensures forall e :: e in r ==> exists i, d :: 0 <= i < |taxes| && d in s && Contributes(taxes[i], d) && e == EntryFor(taxes[i], d)
  {
    if taxes == [] then []
    else
      var here := TaxonomyEntries(s, taxes[0]);
      var rest := Candidates(s, taxes[1..]);
      assert forall i :: 1 <= i < |taxes| ==> taxes[i] == taxes[1..][i - 1];
      here + rest
  }

  /**
   * The entries of one taxonomy follow the query order: the entries of a
   * store made of two parts are those of the first part, then those of the
   * second.
   */
  lemma TaxonomyEntriesAppend(a: Store, b: Store, tax: Taxonomy)
    ensures TaxonomyEntries(a + b, tax) == TaxonomyEntries(a, tax) + TaxonomyEntries(b, tax)
  {
    EntriesOfAppend(a, b, tax);
  }

  lemma {:induction false} EntriesOfAppend(a: Store, b: Store, tax: Taxonomy)
    ensures EntriesOf(a + b, tax) == EntriesOf(a, tax) + EntriesOf(b, tax)
  {
    if a == [] {
      assert a + b == b;
    } else {
      assert (a + b)[0] == a[0] && (a + b)[1..] == a[1..] + b;
      EntriesOfAppend(a[1..], b, tax);
    }
  }

  /** The candidates follow the taxonomy order: all entries of earlier taxonomies come first. */
  lemma {:induction false} CandidatesAppend(s: Store, t1: seq<Taxonomy>, t2: seq<Taxonomy>)
    ensures Candidates(s, t1 + t2) == Candidates(s, t1) + Candidates(s, t2)
  {
    if t1 == [] {
      assert t1 + t2 == t2;
    } else {
      assert (t1 + t2)[0] == t1[0] && (t1 + t2)[1..] == t1[1..] + t2;
      CandidatesAppend(s, t1[1..], t2);
    }
  }

  /** The candidates of a locale: service types, then work types, client types and skills, each in query order. */
  lemma CandidatesInTaxonomyOrder(s: Store)
    ensures Candidates(s, TaxonomyTypes)
      == TaxonomyEntries(s, Taxonomy("serviceType", "taxonomy.service"))
       + TaxonomyEntries(s, Taxonomy("workType", "taxonomy.workType"))
       + TaxonomyEntries(s, Taxonomy("clientType", "taxonomy.clientType"))
       + TaxonomyEntries(s, Taxonomy("skill", "taxonomy.skill"))
  {
    var tt := TaxonomyTypes;
    assert tt == [tt[0]] + [tt[1]] + [tt[2]] + [tt[3]];
    CandidatesAppend(s, [tt[0]] + [tt[1]] + [tt[2]], [tt[3]]);
    CandidatesAppend(s, [tt[0]] + [tt[1]], [tt[2]]);
    CandidatesAppend(s, [tt[0]], [tt[1]]);
    forall t | t in tt ensures Candidates(s, [t]) == TaxonomyEntries(s, t) {
      assert Candidates(s, [t][1..]) == [];
    }
  }

  /** Every taxonomy document with a slug has its key among `keys`. */
  predicate AllTaxonomyKeysIn(s: Store, keys: seq<string>) {
    forall i, d :: 0 <= i < |TaxonomyTypes| && d in s && Contributes(TaxonomyTypes[i], d) ==>
      TaxonomyKey(TaxonomyTypes[i], d.slug.value) in keys
  }

  /**
   * `syncLocale(locale)`: no write without a dictionary; otherwise no write
   * exactly when the dictionary has every taxonomy key already, and else one
   * append of entries naming taxonomy documents whose keys it lacks.
   */
  function SyncLocaleTaxonomies(s: Store, locale: string): (ws: seq<Write>)
    ensures |ws| <= 1
    ensures FirstOfTypeInLocale(s, DictionaryType, locale).None? ==> ws == []
    ensures FirstOfTypeInLocale(s, DictionaryType, locale).Some? ==>
      var d := FirstOfTypeInLocale(s, DictionaryType, locale).value;
      && (ws == [] <==> AllTaxonomyKeysIn(s, EntryKeys(d.entries.GetOr([]))))
      && (ws != [] ==>
            && ws[0].AppendEntries? && ws[0].id == d.id
            && forall e :: e in ws[0].entries ==>
                 && e.key !in EntryKeys(d.entries.GetOr([]))
                 && exists i, t :: 0 <= i < |TaxonomyTypes| && t in s && Contributes(TaxonomyTypes[i], t) && e == EntryFor(TaxonomyTypes[i], t))
  {
    var cs := Candidates(s, TaxonomyTypes);
    var ws := SyncLocale(s, locale, cs);
    match FirstOfTypeInLocale(s, DictionaryType, locale)
    case None => ws
    case Some(d) =>
      CandidateKeysCovered(s, EntryKeys(d.entries.GetOr([])));
      ws
  }

  /** The dictionary has every candidate key exactly when it has the key of every taxonomy document with a slug. */
  lemma CandidateKeysCovered(s: Store, keys: seq<string>)
    ensures (forall k :: k in EntryKeys(Candidates(s, TaxonomyTypes)) ==> k in keys) <==> AllTaxonomyKeysIn(s, keys)
  {
    var cs := Candidates(s, TaxonomyTypes);
    if forall k :: k in EntryKeys(cs) ==> k in keys {
      forall i, d | 0 <= i < |TaxonomyTypes| && d in s && Contributes(TaxonomyTypes[i], d)
        ensures TaxonomyKey(TaxonomyTypes[i], d.slug.value) in keys
      {
        var e := EntryFor(TaxonomyTypes[i], d);
        var j :| 0 <= j < |cs| && cs[j] == e;
        assert EntryKeys(cs)[j] == e.key;
      }
    }
    if AllTaxonomyKeysIn(s, keys) {
      forall k | k in EntryKeys(cs) ensures k in keys {
        var j :| 0 <= j < |cs| && EntryKeys(cs)[j] == k;
        assert cs[j] in cs;
      }
    }
  }

  /**
   * After a locale's sync, the key of every taxonomy document with a slug
   * is in the locale's dictionary, after the entries it already had.
   */
  lemma SyncCoversEveryTaxonomyDoc(s: Store, locale: string, d: Doc, i: nat)
    requires FirstOfTypeInLocale(s, DictionaryType, locale).Some?
    requires i < |TaxonomyTypes| && d in s && Contributes(TaxonomyTypes[i], d)
    ensures var before := FirstOfTypeInLocale(s, DictionaryType, locale).value;
      var after := FirstOfTypeInLocale(ApplyAll(s, SyncLocaleTaxonomies(s, locale)), DictionaryType, locale);
      && after.Some?
      && before.entries.GetOr([]) <= after.value.entries.GetOr([])
      && TaxonomyKey(TaxonomyTypes[i], d.slug.value) in EntryKeys(after.value.entries.GetOr([]))
  {
    var cs := Candidates(s, TaxonomyTypes);
    SyncLocaleCompletes(s, locale, cs);
    var e := EntryFor(TaxonomyTypes[i], d);
    assert e in cs;
    var j :| 0 <= j < |cs| && cs[j] == e;
    assert EntryKeys(cs)[j] == e.key;
  }

  /**
   * Every entry the sync appends names a taxonomy document with a slug:
   * its key, its title (or slug), and a note with the type and the id.
   */
  lemma AppendedEntriesNameTaxonomyDocs(s: Store, existing: seq<Entry>, e: Entry)
    requires e in EntriesToAppend(existing, Candidates(s, TaxonomyTypes))
    ensures exists i, d :: 0 <= i < |TaxonomyTypes| && d in s && Contributes(TaxonomyTypes[i], d) && e == EntryFor(TaxonomyTypes[i], d)
    ensures e.key !in EntryKeys(existing)
  {
  }

  /** The candidates of a run: the entries of every taxonomy, read from the store the locale's sync sees. */
  function TaxonomyCandidates(s: Store): seq<Entry> {
    Candidates(s, TaxonomyTypes)
  }

  /** `main`: every configured locale in turn. */
  function Run(s: Store, setting: Option<string>): (r: (seq<Write>, Store))
    ensures r.1 == ApplyAll(s, r.0)
  {
    SyncLocales(s, ParseList(setting, DefaultLocales), TaxonomyCandidates)
  }

  /** Inserting dictionary entries never changes the taxonomy candidates. */
  lemma TaxonomyCandidatesKept()
    ensures KeptByAppends(TaxonomyCandidates)
  {
    forall t: Store, id: string, es: seq<Entry>
      ensures TaxonomyCandidates(Apply(t, AppendEntries(id, es))) == TaxonomyCandidates(t)
    {
      AppendKeepsCandidates(t, id, es, TaxonomyTypes);
    }
  }

  /** The script is idempotent: a second run writes nothing and leaves the store as it is. */
  lemma RunIsIdempotent(s: Store, setting: Option<string>)
    ensures var s' := Run(s, setting).1;
      Run(s', setting) == ([], s')
  {
    TaxonomyCandidatesKept();
    SyncLocalesIdempotent(s, ParseList(setting, DefaultLocales), TaxonomyCandidates);
  }

  /**
   * After a run, the dictionary of every configured locale that has one
   * is the same document, keeps its entries first and untouched, and
   * holds the key of every taxonomy document with a slug.
   */
  lemma RunCompletes(s: Store, setting: Option<string>)
    ensures var s' := Run(s, setting).1;
      forall l :: l in ParseList(setting, DefaultLocales) && FirstOfTypeInLocale(s, DictionaryType, l).Some? ==>
        var d := FirstOfTypeInLocale(s, DictionaryType, l).value;
        var after := FirstOfTypeInLocale(s', DictionaryType, l);
        && after.Some? && after.value.id == d.id
        && d.entries.GetOr([]) <= after.value.entries.GetOr([])
        && AllTaxonomyKeysIn(s, EntryKeys(after.value.entries.GetOr([])))
  {
    TaxonomyCandidatesKept();
    var locales := ParseList(setting, DefaultLocales);
    SyncLocalesCompletes(s, locales, TaxonomyCandidates);
    var s' := Run(s, setting).1;
    forall l | l in locales && FirstOfTypeInLocale(s, DictionaryType, l).Some?
      ensures AllTaxonomyKeysIn(s, EntryKeys(FirstOfTypeInLocale(s', DictionaryType, l).value.entries.GetOr([])))
    {
      CandidateKeysCovered(s, EntryKeys(FirstOfTypeInLocale(s', DictionaryType, l).value.entries.GetOr([])));
    }
  }

  /** Appending dictionary entries changes no document's taxonomy entry. */
  lemma {:induction false} AppendKeepsTaxonomyEntries(s: Store, id: string, es: seq<Entry>, tax: Taxonomy)
    ensures TaxonomyEntries(Apply(s, AppendEntries(id, es)), tax) == TaxonomyEntries(s, tax)
  {
    var s' := Apply(s, AppendEntries(id, es));
    if s != [] {
      assert s'[1..] == Apply(s[1..], AppendEntries(id, es));
      AppendKeepsTaxonomyEntries(s[1..], id, es, tax);
      assert Contributes(tax, s'[0]) == Contributes(tax, s[0]);
      if Contributes(tax, s[0]) {
        assert EntryFor(tax, s'[0]) == EntryFor(tax, s[0]);
      }
    }
  }

  lemma {:induction false} AppendKeepsCandidates(s: Store, id: string, es: seq<Entry>, taxes: seq<Taxonomy>)
    ensures Candidates(Apply(s, AppendEntries(id, es)), taxes) == Candidates(s, taxes)
  {
    if taxes != [] {
      AppendKeepsTaxonomyEntries(s, id, es, taxes[0]);
      AppendKeepsCandidates(s, id, es, taxes[1..]);
    }
  }

  /** Syncing a locale twice: the second sync writes nothing. */
  lemma SecondSyncWritesNothing(s: Store, locale: string)
    ensures SyncLocaleTaxonomies(ApplyAll(s, SyncLocaleTaxonomies(s, locale)), locale) == []
  {
    var ws := SyncLocaleTaxonomies(s, locale);
    if FirstOfTypeInLocale(s, DictionaryType, locale).Some? {
      SyncLocaleEffect(s, locale, Candidates(s, TaxonomyTypes));
      if ws != [] {
        assert ApplyAll(s, ws) == Apply(s, ws[0]) by {
          assert ws[1..] == [];
        }
        AppendKeepsCandidates(s, ws[0].id, ws[0].entries, TaxonomyTypes);
      }
    }
  }
}
