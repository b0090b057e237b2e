/**
 * Seeding of the static UI copy into every locale's dictionary: the keys
 * of the static list that the dictionary lacks are appended, with the
 * English value and a note; nothing that exists is ever overwritten.
 */
module SeedDictionaryKeys {
  import opened Wrappers
  import opened Text
  import opened Documents
  import opened DictionaryMerge

  const SeededNote: string := "seeded static UI copy"

  /** The static UI keys and their English values, in the order they are seeded. */
  const StaticKeys: seq<(string, string)> := [
    ("nav.portfolio", "Portfolio"),
    ("landing.portfolio.heading", "Explore portfolio"),
    ("landing.portfolio.openButton", "Open portfolio"),
    ("portfolio.filters.filterLabel", "Filter"),
    ("portfolio.filters.all", "All"),
    ("portfolio.filters.clientTypeHeading", "Type of Client"),
    ("portfolio.filters.workTypeHeading", "Type of Work"),
    ("portfolio.filters.clearAll", "Clear All"),
    ("portfolio.filters.cancel", "Cancel"),
    ("portfolio.filters.modalTitle", "Filter"),
    ("portfolio.sort.sortLabel", "Sort"),
    ("portfolio.sort.modalTitle", "Sort by"),
    ("portfolio.sort.newest", "Newest → Oldest"),
    ("portfolio.sort.oldest", "Oldest → Newest"),
    ("portfolio.sort.az", "Alphabetical (A–Z)"),
    ("portfolio.sort.za", "Alphabetical (Z–A)"),
    ("portfolio.sort.apply", "Apply"),
    ("portfolio.view.gridAria", "Grid view"),
    ("portfolio.view.listAria", "List view"),
    ("footer.termsOfUse", "Terms of Use"),
    ("footer.privacyPolicy", "Privacy Policy"),
    ("footer.cookiePolicy", "Cookie Policy"),
    ("footer.manageCookies", "Manage Cookies"),
    ("404.text", "The page you're looking for can't be found."),
    ("404.goToHome", "Go to Homepage"),
    ("cookieBanner.title", "Cookie settings and consent"),
    ("cookieBanner.description", "We use necessary cookies to run the site. With your consent, we also use analytics (GA4) and marketing (Meta Pixel). You can change your choices any time in Cookie settings. Consent is stored for 6 months."),
    ("cookieBanner.acceptAll", "Accept all"),
    ("cookieBanner.rejectAll", "Reject all"),
    ("cookieBanner.manageCookies", "Manage settings"),
    ("cookieBanner.privacyPolicy", "Privacy Policy"),
    ("cookieBanner.cookiePolicy", "Cookie Policy"),
    ("cookieBanner.popup.title", "Cookie settings"),
    ("cookieBanner.popup.description", "Your choices apply to this device and browser for 6 months. You can change them any time."),
    ("cookieBanner.popup.strictlyNecessaryTitle", "Strictly Necessary Cookies"),
    ("cookieBanner.popup.strictlyNecessaryDesc", "Required for core functions, security, and to remember your cookie choices."),
    ("cookieBanner.popup.preferencesTitle", "Preferences"),
    ("cookieBanner.popup.preferencesDesc", "Remember language and page settings."),
    ("cookieBanner.popup.analyticsTitle", "Analytics"),
    ("cookieBanner.popup.analyticsDesc", "Help us measure usage and improve the site. GA4 uses pseudonymous identifiers and IP anonymization."),
    ("cookieBanner.popup.marketingTitle", "Marketing"),
    ("cookieBanner.popup.marketingDesc", "Measure ad performance and build aggregated audiences on Meta platforms."),
    ("cookieBanner.popup.saveChoices", "Save choices"),
    ("cookieBanner.popup.acceptAll", "Accept all")
  ]

  /** The locales to update when `SANITY_ACTIVE_LOCALES` is unset or empty. */
  const DefaultLocales: string := "en,lv"

  /** Without the setting, the dictionaries of `en` and `lv` are seeded. */
  lemma ActiveLocalesDefault(setting: Option<string>)
    requires !Truthy(setting)
    ensures ParseList(setting, DefaultLocales) == ["en", "lv"]
  {
    assert Join(["en", "lv"], ',') == "en,lv";
    assert IsListItem("en") && IsListItem("lv");
    ParseListDefault(setting, ["en", "lv"]);
  }

  /** The entries the static list contributes: its key and value, and the seeding note. */
  function StaticEntries(): (es: seq<Entry>)
    ensures |es| == |StaticKeys|
    ensures forall i :: 0 <= i < |es| ==> es[i] == Entry(StaticKeys[i].0, StaticKeys[i].1, SeededNote)
  {
    seq(|StaticKeys|, i requires 0 <= i < |StaticKeys| => Entry(StaticKeys[i].0, StaticKeys[i].1, SeededNote))
  }

  /** Every static key is among `keys`. */
  predicate AllStaticKeysIn(keys: seq<string>) {
    forall i :: 0 <= i < |StaticKeys| ==> StaticKeys[i].0 in keys
  }

  /**
   * `seedLocale(locale)`: no write without a dictionary; otherwise no write
   * exactly when the dictionary has every static key already, and else one
   * append of static entries whose keys it lacks.
   */
  function SeedLocale(s: Store, locale: string): (ws: seq<Write>)
    ensures |ws| <= 1
    ensures FirstOfTypeInLocale(s, DictionaryType, locale).None? ==> ws == []
    ensures FirstOfTypeInLocale(s, DictionaryType, locale).Some? ==>
      var d := FirstOfTypeInLocale(s, DictionaryType, locale).value;
      && (ws == [] <==> AllStaticKeysIn(EntryKeys(d.entries.GetOr([]))))
      && (ws != [] ==>
            && ws[0].AppendEntries? && ws[0].id == d.id
            && forall e :: e in ws[0].entries ==>
                 e.key !in EntryKeys(d.entries.GetOr([])) && e.notes == SeededNote && (e.key, e.value) in StaticKeys)
  {
    var ws := SyncLocale(s, locale, StaticEntries());
    match FirstOfTypeInLocale(s, DictionaryType, locale)
    case None => ws
    case Some(d) =>
      StaticKeysCovered(EntryKeys(d.entries.GetOr([])));
      SeededEntriesAreStatic(d.entries.GetOr([]));
      ws
  }

  /** A dictionary has every static entry's key exactly when it has every static key. */
  lemma StaticKeysCovered(keys: seq<string>)
    ensures (forall k :: k in EntryKeys(StaticEntries()) ==> k in keys) <==> AllStaticKeysIn(keys)
  {
    var es := StaticEntries();
    assert forall i :: 0 <= i < |StaticKeys| ==> EntryKeys(es)[i] == StaticKeys[i].0;
    if AllStaticKeysIn(keys) {
      forall k | k in EntryKeys(es) ensures k in keys {
        var i :| 0 <= i < |es| && EntryKeys(es)[i] == k;
      }
    }
  }

  /** Every appended entry is a static key with its static value and the seeding note. */
  lemma SeededEntriesAreStatic(existing: seq<Entry>)
    ensures forall e :: e in EntriesToAppend(existing, StaticEntries()) ==>
      e.notes == SeededNote && (e.key, e.value) in StaticKeys
  {
    forall e | e in EntriesToAppend(existing, StaticEntries())
      ensures e.notes == SeededNote && (e.key, e.value) in StaticKeys
    {
      var i :| 0 <= i < |StaticEntries()| && StaticEntries()[i] == e;
      assert StaticKeys[i] == (e.key, e.value);
    }
  }

  /**
   * After seeding a locale that has a dictionary, every static key is in
   * it, after the entries it already had.
   */
  lemma SeedLocaleCompletes(s: Store, locale: string)
    requires FirstOfTypeInLocale(s, DictionaryType, locale).Some?
    ensures var d := FirstOfTypeInLocale(s, DictionaryType, locale).value;
      var after := FirstOfTypeInLocale(ApplyAll(s, SeedLocale(s, locale)), DictionaryType, locale);
      && after.Some?
      && d.entries.GetOr([]) <= after.value.entries.GetOr([])
      && forall i :: 0 <= i < |StaticKeys| ==> StaticKeys[i].0 in EntryKeys(after.value.entries.GetOr([]))
  {
    var es := StaticEntries();
    SyncLocaleCompletes(s, locale, es);
    forall i | 0 <= i < |StaticKeys| ensures StaticKeys[i].0 in EntryKeys(es) {
      assert EntryKeys(es)[i] == StaticKeys[i].0;
    }
  }

  /** The static entries as the candidates of a run, whatever the store holds. */
  function StaticCandidates(s: Store): seq<Entry> {
    StaticEntries()
  }

  /** `main`: every configured locale in turn. */
  function Run(s: Store, setting: Option<string>): (r: (seq<Write>, Store))
    ensures r.1 == ApplyAll(s, r.0)
  {
    SyncLocales(s, ParseList(setting, DefaultLocales), StaticCandidates)
  }

  /** The script is idempotent: a second run writes nothing and leaves the store as it is. */
  lemma RunIsIdempotent(s: Store, setting: Option<string>)
    ensures var s' := Run(s, setting).1;
      Run(s', setting) == ([], s')
  {
    assert KeptByAppends(StaticCandidates);
    SyncLocalesIdempotent(s, ParseList(setting, DefaultLocales), StaticCandidates);
  }

  /**
   * After a run, the dictionary of every configured locale that has one
   * is the same document, keeps its entries first and untouched, and
   * holds every static key.
   */
  lemma RunCompletes(s: Store, setting: Option<string>)
    ensures var s' := Run(s, setting).1;
      forall l :: l in ParseList(setting, DefaultLocales) && FirstOfTypeInLocale(s, DictionaryType, l).Some? ==>
        var d := FirstOfTypeInLocale(s, DictionaryType, l).value;
        var after := FirstOfTypeInLocale(s', DictionaryType, l);
        && after.Some? && after.value.id == d.id
        && d.entries.GetOr([]) <= after.value.entries.GetOr([])
        && AllStaticKeysIn(EntryKeys(after.value.entries.GetOr([])))
  {
    assert KeptByAppends(StaticCandidates);
    var locales := ParseList(setting, DefaultLocales);
    SyncLocalesCompletes(s, locales, StaticCandidates);
    var s' := Run(s, setting).1;
    forall l | l in locales && FirstOfTypeInLocale(s, DictionaryType, l).Some?
      ensures AllStaticKeysIn(EntryKeys(FirstOfTypeInLocale(s', DictionaryType, l).value.entries.GetOr([])))
    {
      StaticKeysCovered(EntryKeys(FirstOfTypeInLocale(s', DictionaryType, l).value.entries.GetOr([])));
    }
  }

  /** Running the seeding twice: the second run on one locale finds nothing to add. */
  lemma SecondRunAddsNothing(s: Store, locale: string)
    ensures SeedLocale(ApplyAll(s, SeedLocale(s, locale)), locale) == []
  {
    if FirstOfTypeInLocale(s, DictionaryType, locale).Some? {
      SyncLocaleEffect(s, locale, StaticEntries());
    } else {
      assert SeedLocale(s, locale) == [];
    }
  }
}
