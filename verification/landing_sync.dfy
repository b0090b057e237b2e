/**
 * The landing trustedBy sync: make the en and lv landing pages list the
 * same trustedBy groups in one canonical order. For every group the en or
 * lv document is the base; a locale without a document gets one created
 * from the base, an existing one is patched to the group's translation key
 * and to the portfolio of its own locale, and finally both landings'
 * reference lists are rewritten in the canonical order.
 */
module LandingSync {
  import opened Wrappers
  import opened Sequences
  import opened Text
  import opened Documents
  import opened LandingGroups

  const LandingType: string := "landing"
  const PortfolioType: string := "portfolio"
  const TrustedByType: string := "trustedBy"

  /** `locale in ['en', 'lv']`. */
  predicate InLocales(locale: Option<string>) {
    locale == Some("en") || locale == Some("lv")
  }

  // ---------------------------------------------------------------- fetches

  /** `fetchLanding(locale)`: the first landing of the locale the query returns. */
  function FetchLanding(s: Store, locale: string): Option<Doc> {
    FirstOfTypeInLocale(s, LandingType, locale)
  }

  /** A trustedBy document with its portfolio reference dereferenced. */
  function View(s: Store, d: Doc): (t: TrustedBy)
    ensures t.doc == d
    ensures t.portfolio.Some? <==> d.portfolioWork.Some? && d.portfolioWork.value in Ids(s)
    ensures t.portfolio.Some? ==> t.portfolio.value in s && t.portfolio.value.id == d.portfolioWork.value
  {
    TrustedBy(d, if d.portfolioWork.Some? then Lookup(s, d.portfolioWork.value) else None)
  }

  /** A landing's `trustedBy[]->{…}` projection: null where a reference does not resolve. */
  function LandingDocs(s: Store, landing: Doc): (r: seq<Option<TrustedBy>>)
    ensures |r| == |landing.trustedBy|
    ensures forall i :: 0 <= i < |r| ==> (r[i].Some? <==> landing.trustedBy[i].target in Ids(s))
    ensures forall i :: 0 <= i < |r| && r[i].Some? ==> r[i].value.doc.id == landing.trustedBy[i].target
  {
    seq(|landing.trustedBy|, i requires 0 <= i < |landing.trustedBy| =>
      match Lookup(s, landing.trustedBy[i].target)
      case None => None
      case Some(d) => Some(View(s, d)))
  }

  predicate IsFetchedPortfolio(d: Doc) {
    d.docType == PortfolioType && InLocales(d.locale)
  }

  /** `fetchPortfolios`. */
  function FetchPortfolios(s: Store): Store {
    Where(s, IsFetchedPortfolio)
  }

  predicate IsFetchedTrustedBy(d: Doc) {
    d.docType == TrustedByType && InLocales(d.locale) && d.portfolioWork.Some?
  }

  /** `fetchTrustedByDocs`: every trustedBy document of the two locales with a portfolio reference. */
  function FetchTrustedBy(s: Store): (r: seq<TrustedBy>)
    ensures forall t :: t in r ==> t.doc in s && IsFetchedTrustedBy(t.doc)
  {
    var ds := Where(s, IsFetchedTrustedBy);
    seq(|ds|, i requires 0 <= i < |ds| => View(s, ds[i]))
  }

  // ---------------------------------------------------------------- slugs

  /** `d` is a trustedBy document of `locale` whose slug is `slug`. */
  predicate HoldsSlug(d: Doc, locale: string, slug: string) {
    d.docType == TrustedByType && d.locale == Some(locale) && d.slug == Some(slug)
  }

  predicate SlugTaken(s: Store, locale: string, slug: string) {
    exists d :: d in s && HoldsSlug(d, locale, slug)
  }

  /** `count(*[_type == "trustedBy" && locale == $locale && slug.current == $slug])`. */
  function SlugCount(s: Store, locale: string, slug: string): (n: nat)
    ensures n == 0 <==> !SlugTaken(s, locale, slug)
  {
    Count(s, (d: Doc) => HoldsSlug(d, locale, slug))
  }

  /** The first eight characters of a fresh key. */
  function ShortKey(keys: Keys): string {
    Prefix(keys.Fresh(), 8)
  }

  /**
   * `ensureUniqueTrustedBySlug`: the trimmed desired slug if it is free in
   * the locale, else `<slug>-<locale>` if that is free, else that with a
   * random suffix; a blank desired slug gives `<locale>-<random>`.
   */
  function EnsureUniqueSlug(s: Store, locale: string, desired: Option<string>, keys: Keys): (r: (string, Keys))
    ensures r.0 != ""
    ensures r.1 == keys || r.1 == keys.Advance()
    ensures r.1 == keys ==> !SlugTaken(s, locale, r.0)
    ensures Trim(OrElse(desired, "")) != "" ==> StartsWith(r.0, Trim(OrElse(desired, "")))
    ensures r.0 == Trim(OrElse(desired, "")) <==>
      Trim(OrElse(desired, "")) != "" && !SlugTaken(s, locale, Trim(OrElse(desired, "")))
    ensures var base := Trim(OrElse(desired, ""));
      base == "" ==> r == (locale + "-" + ShortKey(keys), keys.Advance())
    ensures var base := Trim(OrElse(desired, ""));
      base != "" && !SlugTaken(s, locale, base) ==> r == (base, keys)
    ensures var base := Trim(OrElse(desired, ""));
      base != "" && SlugTaken(s, locale, base) && !SlugTaken(s, locale, base + "-" + locale) ==>
        r == (base + "-" + locale, keys)
    ensures var base := Trim(OrElse(desired, ""));
      base != "" && SlugTaken(s, locale, base) && SlugTaken(s, locale, base + "-" + locale) ==>
        r == (base + "-" + locale + "-" + ShortKey(keys), keys.Advance())
  {
    var base := Trim(OrElse(desired, ""));
    if base == "" then (locale + "-" + ShortKey(keys), keys.Advance())
    else if SlugCount(s, locale, base) == 0 then (base, keys)
    else
      var candidate := base + "-" + locale;
      assert StartsWith(candidate, base);
      if SlugCount(s, locale, candidate) == 0 then (candidate, keys)
      else
        assert StartsWith(candidate + "-" + ShortKey(keys), base) by {
          assert (candidate + "-" + ShortKey(keys))[..|base|] == candidate[..|base|];
        }
        (candidate + "-" + ShortKey(keys), keys.Advance())
  }

  // ---------------------------------------------------------------- creating a sibling

  /** The guards of `createTrustedByDoc`: a portfolio id, a non-blank name and a logo. */
  predicate CanCreate(portfolioId: Option<string>, name: Option<string>, logo: Option<Image>) {
    Truthy(portfolioId) && Truthy(name) && Trim(name.value) != "" && logo.Some?
  }

  /** The characters `[a-zA-Z0-9_.-]` a dry-run id keeps. */
  predicate IsIdChar(c: char) {
    ('a' <= c <= 'z') || ('A' <= c <= 'Z') || ('0' <= c <= '9') || c == '_' || c == '.' || c == '-'
  }

  /** `replace(/[^a-zA-Z0-9_.-]/g, '_')`. */
  function SanitizeId(id: string): (r: string)
    ensures |r| == |id|
    ensures forall i :: 0 <= i < |id| ==> r[i] == if IsIdChar(id[i]) then id[i] else '_'
  {
    seq(|id|, i requires 0 <= i < |id| => if IsIdChar(id[i]) then id[i] else '_')
  }

  /** A sanitized id holds only id characters, and sanitizing it again changes nothing. */
  lemma SanitizeIdSettles(id: string)
    ensures forall i :: 0 <= i < |SanitizeId(id)| ==> IsIdChar(SanitizeId(id)[i])
    ensures SanitizeId(SanitizeId(id)) == SanitizeId(id)
    ensures (forall i :: 0 <= i < |id| ==> IsIdChar(id[i])) ==> SanitizeId(id) == id
  {
  }

  /** The id a dry run reports for a document it would create. */
  function DryRunId(locale: string, portfolioId: string): string {
    "dryrun.trustedBy." + locale + "." + SanitizeId(portfolioId)
  }

  /** The document `createTrustedByDoc` builds from the group's base document. */
  function SiblingDoc(id: string, locale: string, key: string, base: Doc, slug: string, portfolioId: string): Doc {
    NewDoc(id, TrustedByType).(
      locale := Some(locale), translationKey := Some(key), name := base.name, slug := Some(slug),
      logo := base.logo, order := base.order, portfolioWork := Some(portfolioId))
  }

  /**
   * `createTrustedByDoc`: nothing when a guard fails; otherwise a document
   * with a unique slug, copied name, logo and order, the group's key and the
   * given portfolio. A dry run only reports it, under a made-up id; a real
   * run creates it under a fresh id.
   */
  function CreateTrustedBy(s: Store, locale: string, key: string, base: Doc, portfolioId: Option<string>,
                           dryRun: bool, keys: Keys): (r: (Option<Doc>, seq<Write>, Keys))
    ensures r.0.Some? <==> CanCreate(portfolioId, base.name, base.logo)
    ensures r.0.None? ==> r.1 == [] && r.2 == keys
    ensures r.0.Some? ==>
      && r.0.value.docType == TrustedByType
      && r.0.value.locale == Some(locale)
      && r.0.value.translationKey == Some(key)
      && r.0.value.portfolioWork == portfolioId
      && r.0.value.name == base.name && r.0.value.logo == base.logo && r.0.value.order == base.order
      && r.0.value.slug == Some(EnsureUniqueSlug(s, locale, base.slug, keys).0)
    ensures dryRun ==> r.1 == []
    ensures dryRun && r.0.Some? ==> r.0.value.id == DryRunId(locale, portfolioId.value)
    ensures !dryRun && r.0.Some? ==> r.1 == [Create(r.0.value)]
  {
    if !CanCreate(portfolioId, base.name, base.logo) then (None, [], keys)
    else
      var (slug, keys1) := EnsureUniqueSlug(s, locale, base.slug, keys);
      if dryRun then
        (Some(SiblingDoc(DryRunId(locale, portfolioId.value), locale, key, base, slug, portfolioId.value)), [], keys1)
      else
        var d := SiblingDoc(keys1.Fresh(), locale, key, base, slug, portfolioId.value);
        (Some(d), [Create(d)], keys1.Advance())
  }

  // ---------------------------------------------------------------- aligning an existing sibling

  /**
   * The minimal patch for an existing sibling: the translation key only if
   * it differs from the group's, the portfolio reference only if it is not
   * the expected portfolio.
   */
  function SiblingPatch(d: Doc, key: string, portfolioId: string): (p: Patch)
    ensures p.trustedBy.None?
    ensures p.translationKey.Some? <==> d.translationKey != Some(key)
    ensures p.portfolioWork.Some? <==> d.portfolioWork != Some(portfolioId)
    ensures p.IsEmpty() <==> d.translationKey == Some(key) && d.portfolioWork == Some(portfolioId)
  {
    Patch(if d.translationKey != Some(key) then Some(key) else None,
          if d.portfolioWork != Some(portfolioId) then Some(portfolioId) else None,
          None)
  }

  /** The patch brings the sibling in line, after which its patch is empty. */
  lemma SiblingPatchSettles(d: Doc, key: string, portfolioId: string)
    ensures var d' := PatchDoc(d, SiblingPatch(d, key, portfolioId));
      && d'.translationKey == Some(key)
      && d'.portfolioWork == Some(portfolioId)
      && d'.id == d.id && d'.locale == d.locale && d'.slug == d.slug
      && SiblingPatch(d', key, portfolioId).IsEmpty()
  {
  }

  /** A freshly created sibling already has the group's key and its portfolio: it needs no patch. */
  lemma CreatedNeedsNoPatch(s: Store, locale: string, key: string, base: Doc, portfolioId: string, dryRun: bool, keys: Keys)
    requires CanCreate(Some(portfolioId), base.name, base.logo)
    ensures var c := CreateTrustedBy(s, locale, key, base, Some(portfolioId), dryRun, keys);
      c.0.Some? && SiblingPatch(c.0.value, key, portfolioId).IsEmpty()
  {
  }

  // ---------------------------------------------------------------- the group loop

  /** The summary counters of a run. */
  datatype Report = Report(created: nat, patchedTrustedBy: nat, patchedLanding: nat, skippedMissingPortfolioSibling: nat)

  /** What the group loop carries from one step to the next. */
  datatype Progress = Progress(store: Store, groups: map<string, map<string, TrustedBy>>, keys: Keys, report: Report)

  /** `trustedByByPortfolioTk.get(tk) || {}`. */
  function GroupAt(groups: map<string, map<string, TrustedBy>>, tk: string): map<string, TrustedBy> {
    if tk in groups then groups[tk] else map[]
  }

  /** A write of the group loop: a trustedBy creation, or a patch that leaves `trustedBy` lists alone. */
  predicate IsGroupWrite(w: Write) {
    (w.Create? && w.doc.docType == TrustedByType) || (w.SetFields? && w.patch.trustedBy.None?)
  }

  predicate GroupWrites(ws: seq<Write>) {
    forall i :: 0 <= i < |ws| ==> IsGroupWrite(ws[i])
  }

  lemma GroupWritesAppend(a: seq<Write>, b: seq<Write>)
    requires GroupWrites(a) && GroupWrites(b)
    ensures GroupWrites(a + b)
  {
  }

  /**
   * One locale of one group: skip a locale without a portfolio sibling;
   * create the missing trustedBy document; patch an existing one minimally,
   * in both its states, unless the patch is empty.
   */
  function SyncGroupLocale(p: Progress, tk: string, portfolios: map<string, Doc>, base: Doc, key: string,
                           locale: string, dryRun: bool): (r: (seq<Write>, Progress))
    ensures r.1.store == ApplyAll(p.store, r.0)
    ensures dryRun ==> r.0 == []
    ensures GroupWrites(r.0)
    ensures r.1.report.patchedLanding == p.report.patchedLanding
    ensures locale !in portfolios || portfolios[locale].id == "" ==> r.0 == [] && r.1.groups == p.groups
    ensures locale in portfolios && portfolios[locale].id != "" && locale in GroupAt(p.groups, tk) ==>
      var d := GroupAt(p.groups, tk)[locale].doc;
      var patch := SiblingPatch(d, key, portfolios[locale].id);
      && r.0 == (if patch.IsEmpty() || dryRun then [] else PatchBothStates(d.id, patch))
      && r.1.groups == p.groups
    ensures locale in portfolios && portfolios[locale].id != "" && locale !in GroupAt(p.groups, tk) ==>
      var c := CreateTrustedBy(p.store, locale, key, base, Some(portfolios[locale].id), dryRun, p.keys);
      && r.0 == c.1
      && (c.0.Some? ==> r.1.groups == p.groups[tk := GroupAt(p.groups, tk)[locale := TrustedBy(c.0.value, None)]])
  {
    if locale !in portfolios || portfolios[locale].id == "" then
      ([], p.(report := p.report.(skippedMissingPortfolioSibling := p.report.skippedMissingPortfolioSibling + 1)))
    else if locale !in GroupAt(p.groups, tk) then
      CreateSibling(p, tk, key, base, locale, portfolios[locale].id, dryRun)
    else
      PatchSibling(p, GroupAt(p.groups, tk)[locale].doc, key, portfolios[locale].id, dryRun)
  }

  /** A locale the group lacks: create its sibling, and file it in the group when one is made. */
  function CreateSibling(p: Progress, tk: string, key: string, base: Doc, locale: string, expected: string,
                         dryRun: bool): (r: (seq<Write>, Progress))
    ensures r.1.store == ApplyAll(p.store, r.0)
    ensures GroupWrites(r.0)
    ensures r.1.report.patchedLanding == p.report.patchedLanding
    ensures var c := CreateTrustedBy(p.store, locale, key, base, Some(expected), dryRun, p.keys);
      && r.0 == c.1
      && (c.0.None? ==> r.1 == p)
      && (c.0.Some? ==> r.1.groups == p.groups[tk := GroupAt(p.groups, tk)[locale := TrustedBy(c.0.value, None)]])
  {
    var c := CreateTrustedBy(p.store, locale, key, base, Some(expected), dryRun, p.keys);
    CreateIsGroupWrite(p.store, locale, key, base, Some(expected), dryRun, p.keys);
    if c.0.None? then ([], p)
    else
      (c.1, Progress(ApplyAll(p.store, c.1), p.groups[tk := GroupAt(p.groups, tk)[locale := TrustedBy(c.0.value, None)]], c.2,
                     p.report.(created := p.report.created + 1)))
  }

  /** Creating a sibling writes at most one trustedBy creation. */
  lemma CreateIsGroupWrite(s: Store, locale: string, key: string, base: Doc, portfolioId: Option<string>,
                           dryRun: bool, keys: Keys)
    ensures var c := CreateTrustedBy(s, locale, key, base, portfolioId, dryRun, keys);
      GroupWrites(c.1) && (c.0.None? ==> c.1 == [])
  {
    var c := CreateTrustedBy(s, locale, key, base, portfolioId, dryRun, keys);
    if c.1 != [] {
      assert c.1 == [Create(c.0.value)];
    }
  }

  /** A locale the group holds `d` in: patch `d` when its key or its portfolio reference differs. */
  function PatchSibling(p: Progress, d: Doc, key: string, expected: string, dryRun: bool): (r: (seq<Write>, Progress))
    ensures r.1.store == ApplyAll(p.store, r.0)
    ensures GroupWrites(r.0)
    ensures r.1.groups == p.groups && r.1.keys == p.keys && r.1.report.patchedLanding == p.report.patchedLanding
    ensures var patch := SiblingPatch(d, key, expected);
      r.0 == (if patch.IsEmpty() || dryRun then [] else PatchBothStates(d.id, patch))
  {
    var patch := SiblingPatch(d, key, expected);
    if patch.IsEmpty() then ([], p)
    else
      var ws := if dryRun then [] else PatchBothStates(d.id, patch);
      (ws, p.(store := ApplyAll(p.store, ws), report := p.report.(patchedTrustedBy := p.report.patchedTrustedBy + 1)))
  }

  /** `baseDoc.translationKey || genKey()`: the group's key; a fresh key is drawn only when the base has none. */
  function GroupKey(base: Doc, keys: Keys): (r: (string, Keys))
    ensures Truthy(base.translationKey) ==> r == (base.translationKey.value, keys)
    ensures !Truthy(base.translationKey) ==> r == (keys.Fresh(), keys.Advance())
  {
    if Truthy(base.translationKey) then (base.translationKey.value, keys) else (keys.Fresh(), keys.Advance())
  }

  /**
   * One group of the canonical order: count it as skipped when no
   * portfolio carries its key, pass over it when it has no trustedBy
   * document, otherwise sync its en and then its lv document.
   */
  function SyncGroup(p: Progress, portfolioMap: map<string, map<string, Doc>>, tk: string, dryRun: bool): (r: (seq<Write>, Progress))
    ensures r.1.store == ApplyAll(p.store, r.0)
    ensures dryRun ==> r.0 == []
    ensures GroupWrites(r.0)
    ensures r.1.report.patchedLanding == p.report.patchedLanding
  {
    if tk !in portfolioMap then
      ([], p.(report := p.report.(skippedMissingPortfolioSibling := p.report.skippedMissingPortfolioSibling + 1)))
    else
      var base := BaseOf(GroupAt(p.groups, tk));
      if base.None? then ([], p)
      else
        var (key, keys) := GroupKey(base.value.doc, p.keys);
        var en := SyncGroupLocale(p.(keys := keys), tk, portfolioMap[tk], base.value.doc, key, "en", dryRun);
        var lv := SyncGroupLocale(en.1, tk, portfolioMap[tk], base.value.doc, key, "lv", dryRun);
        ApplyAllAppend(p.store, en.0, lv.0);
        GroupWritesAppend(en.0, lv.0);
        (en.0 + lv.0, lv.1)
  }

  /** The loop over the canonical order. */
  function SyncGroups(p: Progress, portfolioMap: map<string, map<string, Doc>>, order: seq<string>, dryRun: bool): (r: (seq<Write>, Progress))
    ensures r.1.store == ApplyAll(p.store, r.0)
    ensures dryRun ==> r.0 == []
    ensures GroupWrites(r.0)
    ensures r.1.report.patchedLanding == p.report.patchedLanding
    decreases |order|
  {
    if order == [] then ([], p)
    else
      var first := SyncGroup(p, portfolioMap, order[0], dryRun);
      var rest := SyncGroups(first.1, portfolioMap, order[1..], dryRun);
      ApplyAllAppend(p.store, first.0, rest.0);
      GroupWritesAppend(first.0, rest.0);
      (first.0 + rest.0, rest.1)
  }

  /** Every document the groups hold has a non-empty id. */
  ghost predicate IdsSet(groups: map<string, map<string, TrustedBy>>) {
    forall k, l :: k in groups && l in groups[k] ==> groups[k][l].doc.id != ""
  }

  lemma IdsSetAdd(groups: map<string, map<string, TrustedBy>>, tk: string, locale: string, t: TrustedBy)
    requires IdsSet(groups) && t.doc.id != ""
    ensures IdsSet(groups[tk := GroupAt(groups, tk)[locale := t]])
  {
    var g: map<string, map<string, TrustedBy>> := groups[tk := GroupAt(groups, tk)[locale := t]];
    forall k: string, l: string | k in g && l in g[k] ensures g[k][l].doc.id != "" {
      if k == tk && l != locale {
        assert g[k][l] == groups[k][l];
      }
    }
  }

  /**
   * A group's locale the loop can fill: the portfolio map has the group and
   * a sibling with an id in the locale, the group has a base document, and
   * the base passes the creation guards.
   */
  predicate Ready(groups: map<string, map<string, TrustedBy>>, portfolioMap: map<string, map<string, Doc>>, tk: string, locale: string) {
    var base := BaseOf(GroupAt(groups, tk));
    && tk in portfolioMap && base.Some?
    && locale in portfolioMap[tk] && portfolioMap[tk][locale].id != ""
    && CanCreate(Some(portfolioMap[tk][locale].id), base.value.doc.name, base.value.doc.logo)
  }

  /**
   * One locale step either leaves the groups alone or files one new
   * document, with a non-empty id, under a locale the group did not hold;
   * it files one whenever the locale's portfolio sibling exists and the base
   * passes the creation guards.
   */
  lemma SyncGroupLocaleOutcome(p: Progress, tk: string, portfolios: map<string, Doc>, base: Doc, key: string,
                               locale: string, dryRun: bool)
    requires p.keys.Valid()
    ensures var q := SyncGroupLocale(p, tk, portfolios, base, key, locale, dryRun).1;
      || q.groups == p.groups
      || (&& locale !in GroupAt(p.groups, tk)
          && locale in GroupAt(q.groups, tk)
          && GroupAt(q.groups, tk)[locale].doc.id != ""
          && q.groups == p.groups[tk := GroupAt(p.groups, tk)[locale := GroupAt(q.groups, tk)[locale]]])
    ensures var q := SyncGroupLocale(p, tk, portfolios, base, key, locale, dryRun).1;
      (locale in portfolios && portfolios[locale].id != "" && CanCreate(Some(portfolios[locale].id), base.name, base.logo))
      ==> locale in GroupAt(q.groups, tk)
    ensures SyncGroupLocale(p, tk, portfolios, base, key, locale, dryRun).1.keys.gen == p.keys.gen
  {
    var q := SyncGroupLocale(p, tk, portfolios, base, key, locale, dryRun).1;
    if locale in portfolios && portfolios[locale].id != "" {
      var expected := portfolios[locale].id;
      var group := GroupAt(p.groups, tk);
      if locale !in group {
        var c := CreateTrustedBy(p.store, locale, key, base, Some(expected), dryRun, p.keys);
        if c.0.Some? {
          assert c.0.value.id != "" by {
            if !dryRun {
              var keys1 := EnsureUniqueSlug(p.store, locale, base.slug, p.keys).1;
              assert c.0.value.id == keys1.Fresh();
            }
          }
        }
      }
    }
  }

  /**
   * One locale step touches only its group, never drops or replaces a
   * document the group holds, and leaves the locale filled when its portfolio
   * sibling exists and the base passes the creation guards.
   */
  lemma SyncGroupLocaleFrame(p: Progress, tk: string, portfolios: map<string, Doc>, base: Doc, key: string,
                             locale: string, dryRun: bool)
    requires p.keys.Valid() && IdsSet(p.groups)
    ensures var q := SyncGroupLocale(p, tk, portfolios, base, key, locale, dryRun).1;
      && (forall k :: k != tk ==> GroupAt(q.groups, k) == GroupAt(p.groups, k))
      && (forall l :: l in GroupAt(p.groups, tk) ==> l in GroupAt(q.groups, tk) && GroupAt(q.groups, tk)[l] == GroupAt(p.groups, tk)[l])
      && (locale in portfolios && portfolios[locale].id != "" && CanCreate(Some(portfolios[locale].id), base.name, base.logo)
          ==> locale in GroupAt(q.groups, tk))
      && q.keys.gen == p.keys.gen && q.keys.Valid() && IdsSet(q.groups)
  {
    var q := SyncGroupLocale(p, tk, portfolios, base, key, locale, dryRun).1;
    SyncGroupLocaleOutcome(p, tk, portfolios, base, key, locale, dryRun);
    GroupsFrame(p.groups, q.groups, tk, locale);
  }

  /** Adding one document under a new locale of one group keeps everything else. */
  lemma GroupsFrame(before: map<string, map<string, TrustedBy>>, after: map<string, map<string, TrustedBy>>,
                    tk: string, locale: string)
    requires IdsSet(before)
    requires || after == before
             || (&& locale !in GroupAt(before, tk)
                 && locale in GroupAt(after, tk)
                 && GroupAt(after, tk)[locale].doc.id != ""
                 && after == before[tk := GroupAt(before, tk)[locale := GroupAt(after, tk)[locale]]])
    ensures forall k :: k != tk ==> GroupAt(after, k) == GroupAt(before, k)
    ensures forall l :: l in GroupAt(before, tk) ==> l in GroupAt(after, tk) && GroupAt(after, tk)[l] == GroupAt(before, tk)[l]
    ensures IdsSet(after)
  {
    if after != before {
      IdsSetAdd(before, tk, locale, GroupAt(after, tk)[locale]);
    }
  }

  /** A group step touches only its group, keeps what it holds, and fills the locales that are ready. */
  lemma SyncGroupFrame(p: Progress, portfolioMap: map<string, map<string, Doc>>, tk: string, dryRun: bool)
    requires p.keys.Valid() && IdsSet(p.groups)
    ensures var q := SyncGroup(p, portfolioMap, tk, dryRun).1;
      && (forall k :: k != tk ==> GroupAt(q.groups, k) == GroupAt(p.groups, k))
      && (forall l :: l in GroupAt(p.groups, tk) ==> l in GroupAt(q.groups, tk))
      && (forall l :: l in ["en", "lv"] && Ready(p.groups, portfolioMap, tk, l) ==> l in GroupAt(q.groups, tk))
      && q.keys.Valid() && IdsSet(q.groups)
  {
    if tk in portfolioMap && BaseOf(GroupAt(p.groups, tk)).Some? {
      var base := BaseOf(GroupAt(p.groups, tk)).value;
      var (key, keys) := GroupKey(base.doc, p.keys);
      var p0 := p.(keys := keys);
      var en := SyncGroupLocale(p0, tk, portfolioMap[tk], base.doc, key, "en", dryRun);
      SyncGroupLocaleFrame(p0, tk, portfolioMap[tk], base.doc, key, "en", dryRun);
      SyncGroupLocaleFrame(en.1, tk, portfolioMap[tk], base.doc, key, "lv", dryRun);
    }
  }

  /**
   * The whole loop, over a duplicate-free order: every group locale that
   * held a document still holds one, and every ready group locale is filled.
   */
  lemma {:induction false} SyncGroupsFills(p: Progress, portfolioMap: map<string, map<string, Doc>>, order: seq<string>, dryRun: bool)
    requires p.keys.Valid() && IdsSet(p.groups)
    requires NoDup(order)
    ensures var q := SyncGroups(p, portfolioMap, order, dryRun).1;
      && (forall tk, l :: l in GroupAt(p.groups, tk) ==> l in GroupAt(q.groups, tk))
      && (forall tk, l :: tk in order && l in ["en", "lv"] && Ready(p.groups, portfolioMap, tk, l) ==> l in GroupAt(q.groups, tk))
      && q.keys.Valid() && IdsSet(q.groups)
    decreases |order|
  {
    if order != [] {
      var first := SyncGroup(p, portfolioMap, order[0], dryRun);
      SyncGroupFrame(p, portfolioMap, order[0], dryRun);
      assert NoDup(order[1..]);
      SyncGroupsFills(first.1, portfolioMap, order[1..], dryRun);
      var q := SyncGroups(p, portfolioMap, order, dryRun).1;
      assert q == SyncGroups(first.1, portfolioMap, order[1..], dryRun).1;
      forall tk, l | tk in order && l in ["en", "lv"] && Ready(p.groups, portfolioMap, tk, l)
        ensures l in GroupAt(q.groups, tk)
      {
        if tk != order[0] {
          assert tk in order[1..];
          assert GroupAt(first.1.groups, tk) == GroupAt(p.groups, tk);
          assert Ready(first.1.groups, portfolioMap, tk, l);
        }
      }
    }
  }

  /** Every document the groups hold is in the store, under its id. */
  ghost predicate GroupsStored(groups: map<string, map<string, TrustedBy>>, store: Store) {
    forall k, l :: k in groups && l in groups[k] ==> groups[k][l].doc.id in Ids(store)
  }

  /** Adding documents at the end keeps every id where it was. */
  lemma IdsExtended(s: Store, t: Store)
    ensures Ids(s + t) == Ids(s) + Ids(t)
  {
  }

  /**
   * In a real run a locale step keeps the groups' documents in the store:
   * a patch keeps every id, and a created document is appended to the store
   * as it is filed in its group.
   */
  lemma SyncGroupLocaleStored(p: Progress, tk: string, portfolios: map<string, Doc>, base: Doc, key: string, locale: string)
    requires GroupsStored(p.groups, p.store)
    ensures var q := SyncGroupLocale(p, tk, portfolios, base, key, locale, false).1;
      GroupsStored(q.groups, q.store)
  {
    var r := SyncGroupLocale(p, tk, portfolios, base, key, locale, false);
    if locale in portfolios && portfolios[locale].id != "" {
      if locale in GroupAt(p.groups, tk) {
        PatchesKeepIds(p.store, r.0);
      } else {
        var c := CreateTrustedBy(p.store, locale, key, base, Some(portfolios[locale].id), false, p.keys);
        if c.0.Some? {
          CreateAppends(p.store, c.0.value);
          FiledAndStored(p.groups, p.store, tk, locale, c.0.value);
        }
      }
    }
  }

  lemma CreateAppends(s: Store, d: Doc)
    ensures ApplyAll(s, [Create(d)]) == s + [d]
    ensures Ids(s + [d]) == Ids(s) + [d.id]
  {
    assert ApplyAll(s, [Create(d)]) == ApplyAll(s + [d], []);
    IdsExtended(s, [d]);
  }

  /** Filing an appended document in a group keeps the groups' documents in the store. */
  lemma FiledAndStored(groups: map<string, map<string, TrustedBy>>, store: Store, tk: string, locale: string, d: Doc)
    requires GroupsStored(groups, store)
    requires Ids(store + [d]) == Ids(store) + [d.id]
    ensures GroupsStored(groups[tk := GroupAt(groups, tk)[locale := TrustedBy(d, None)]], store + [d])
  {
    var g: map<string, map<string, TrustedBy>> := groups[tk := GroupAt(groups, tk)[locale := TrustedBy(d, None)]];
    forall k: string, l: string | k in g && l in g[k] ensures g[k][l].doc.id in Ids(store + [d]) {
      if k == tk && l == locale {
        assert g[k][l].doc == d;
      } else {
        assert g[k][l] == groups[k][l];
      }
    }
  }

  /** In a real run a group step keeps the groups' documents in the store. */
  lemma SyncGroupStored(p: Progress, portfolioMap: map<string, map<string, Doc>>, tk: string)
    requires GroupsStored(p.groups, p.store)
    ensures var q := SyncGroup(p, portfolioMap, tk, false).1;
      GroupsStored(q.groups, q.store)
  {
    if tk in portfolioMap && BaseOf(GroupAt(p.groups, tk)).Some? {
      var base := BaseOf(GroupAt(p.groups, tk)).value;
      var (key, keys) := GroupKey(base.doc, p.keys);
      var p0 := p.(keys := keys);
      var en := SyncGroupLocale(p0, tk, portfolioMap[tk], base.doc, key, "en", false);
      SyncGroupLocaleStored(p0, tk, portfolioMap[tk], base.doc, key, "en");
      SyncGroupLocaleStored(en.1, tk, portfolioMap[tk], base.doc, key, "lv");
    }
  }

  /** In a real run the loop keeps the groups' documents in the store. */
  lemma {:induction false} SyncGroupsStored(p: Progress, portfolioMap: map<string, map<string, Doc>>, order: seq<string>)
    requires GroupsStored(p.groups, p.store)
    ensures var q := SyncGroups(p, portfolioMap, order, false).1;
      GroupsStored(q.groups, q.store)
    decreases |order|
  {
    if order != [] {
      var first := SyncGroup(p, portfolioMap, order[0], false);
      SyncGroupStored(p, portfolioMap, order[0]);
      SyncGroupsStored(first.1, portfolioMap, order[1..]);
    }
  }

  /** The documents the index starts the loop with are in the snapshot. */
  lemma IndexStored(s: Store)
    ensures GroupsStored(TrustedByIndexOf(s).groups, s)
  {
    IndexHoldsFetched(s);
    var g: map<string, map<string, TrustedBy>> := TrustedByIndexOf(s).groups;
    forall k: string, l: string | k in g && l in g[k] ensures g[k][l].doc.id in Ids(s) {
      var i :| 0 <= i < |s| && s[i] == g[k][l].doc;
      assert Ids(s)[i] == g[k][l].doc.id;
    }
  }

  /** In a real run every document the groups hold after the loop is in the loop's final store. */
  lemma RunLoopStored(s: Store, order: seq<string>, keys: Keys)
    ensures var p := RunLoop(s, order, false, keys).1;
      GroupsStored(p.groups, p.store)
  {
    IndexStored(s);
    SyncGroupsStored(Progress(s, TrustedByIndexOf(s).groups, keys, Report(0, 0, 0, 0)), PortfolioGroups(s), order);
  }

  // ---------------------------------------------------------------- landing references

  /** `toRef(id, key)`: a reference keyed by `key`, or by a fresh key when `key` is empty. */
  function ToRef(id: string, key: string, keys: Keys): (r: (Ref, Keys))
    ensures r.0.target == id
    ensures key != "" ==> r == (Ref(key, id), keys)
    ensures key == "" ==> r == (Ref(keys.Fresh(), id), keys.Advance())
  {
    if key != "" then (Ref(key, id), keys) else (Ref(keys.Fresh(), id), keys.Advance())
  }

  /** The group `tk` has a document with a non-empty id in `locale`. */
  predicate HasDoc(groups: map<string, map<string, TrustedBy>>, tk: string, locale: string) {
    locale in GroupAt(groups, tk) && GroupAt(groups, tk)[locale].doc.id != ""
  }

  /** The published id of the group's document in `locale`. */
  function DocTarget(groups: map<string, map<string, TrustedBy>>, tk: string, locale: string): string
    requires HasDoc(groups, tk, locale)
  {
    BaseId(GroupAt(groups, tk)[locale].doc.id)
  }

  /** A landing's new reference list: the canonical order's groups with a document in the landing's locale. */
  function LandingRefs(groups: map<string, map<string, TrustedBy>>, order: seq<string>, locale: string, keys: Keys): (r: (seq<Ref>, Keys))
    ensures |r.0| <= |order|
    decreases |order|
  {
    if order == [] then ([], keys)
    else if HasDoc(groups, order[0], locale) then
      var (ref, keys1) := ToRef(DocTarget(groups, order[0], locale), order[0], keys);
      var rest := LandingRefs(groups, order[1..], locale, keys1);
      ([ref] + rest.0, rest.1)
    else LandingRefs(groups, order[1..], locale, keys)
  }

  /** One step of the reference loop when the group key is non-empty. */
  lemma LandingRefsStep(groups: map<string, map<string, TrustedBy>>, order: seq<string>, locale: string, keys: Keys)
    requires order != [] && order[0] != ""
    ensures var rest := LandingRefs(groups, order[1..], locale, keys);
      LandingRefs(groups, order, locale, keys)
        == if HasDoc(groups, order[0], locale)
           then ([Ref(order[0], DocTarget(groups, order[0], locale))] + rest.0, rest.1)
           else rest
  {
  }

  /**
   * With non-empty group keys, a landing's references are keyed by their
   * group and point at the published id of the group's document in the
   * landing's locale; no fresh key is drawn.
   */
  lemma {:induction false} LandingRefsSound(groups: map<string, map<string, TrustedBy>>, order: seq<string>, locale: string, keys: Keys)
    requires forall k :: k in order ==> k != ""
    ensures var r := LandingRefs(groups, order, locale, keys);
      && r.1 == keys
      && forall i :: 0 <= i < |r.0| ==>
           r.0[i].key in order && HasDoc(groups, r.0[i].key, locale)
           && r.0[i].target == DocTarget(groups, r.0[i].key, locale)
    decreases |order|
  {
    if order != [] {
      assert order[0] in order;
      assert forall k :: k in order[1..] ==> k in order;
      LandingRefsStep(groups, order, locale, keys);
      LandingRefsSound(groups, order[1..], locale, keys);
    }
  }

  /** Every group of the order with a document in the locale gets a reference. */
  lemma {:induction false} LandingRefsCover(groups: map<string, map<string, TrustedBy>>, order: seq<string>, locale: string, keys: Keys)
    requires forall k :: k in order ==> k != ""
    ensures var r := LandingRefs(groups, order, locale, keys);
      forall k :: k in order && HasDoc(groups, k, locale) ==> exists i :: 0 <= i < |r.0| && r.0[i].key == k
    decreases |order|
  {
    if order != [] {
      assert order[0] in order;
      assert forall k :: k in order[1..] ==> k in order;
      LandingRefsStep(groups, order, locale, keys);
      LandingRefsCover(groups, order[1..], locale, keys);
      var r := LandingRefs(groups, order, locale, keys);
      var rest := LandingRefs(groups, order[1..], locale, keys);
      forall k | k in order && HasDoc(groups, k, locale) ensures exists i :: 0 <= i < |r.0| && r.0[i].key == k {
        if k == order[0] {
          assert r.0[0].key == k;
        } else {
          assert k in order[1..];
          var i :| 0 <= i < |rest.0| && rest.0[i].key == k;
          if HasDoc(groups, order[0], locale) {
            assert r.0[i + 1].key == k;
          } else {
            assert r.0[i].key == k;
          }
        }
      }
    }
  }

  /** A duplicate-free order gives references in the order's sequence, so no group is listed twice. */
  lemma {:induction false} LandingRefsOrdered(groups: map<string, map<string, TrustedBy>>, order: seq<string>, locale: string, keys: Keys)
    requires NoDup(order)
    requires forall k :: k in order ==> k != ""
    ensures var r := LandingRefs(groups, order, locale, keys);
      forall i, j :: 0 <= i < j < |r.0| ==>
        r.0[i].key in order && r.0[j].key in order && FirstIndex(order, r.0[i].key) < FirstIndex(order, r.0[j].key)
    decreases |order|
  {
    if order != [] {
      var tail := order[1..];
      assert order[0] in order;
      assert forall k :: k in tail ==> k in order;
      assert NoDup(tail);
      assert order[0] !in tail;
      LandingRefsStep(groups, order, locale, keys);
      LandingRefsOrdered(groups, tail, locale, keys);
      LandingRefsSound(groups, tail, locale, keys);
      var r := LandingRefs(groups, order, locale, keys);
      var rest := LandingRefs(groups, tail, locale, keys);
      forall k | k in tail ensures FirstIndex(order, k) == 1 + FirstIndex(tail, k) {
      }
      if HasDoc(groups, order[0], locale) {
        forall i, j | 0 <= i < j < |r.0|
          ensures r.0[i].key in order && r.0[j].key in order && FirstIndex(order, r.0[i].key) < FirstIndex(order, r.0[j].key)
        {
          assert r.0[j] == rest.0[j - 1];
          if i > 0 {
            assert r.0[i] == rest.0[i - 1];
          }
        }
      }
    }
  }

  /** The references of a landing name each group at most once. */
  lemma LandingRefsDistinct(groups: map<string, map<string, TrustedBy>>, order: seq<string>, locale: string, keys: Keys)
    requires NoDup(order)
    requires forall k :: k in order ==> k != ""
    ensures var r := LandingRefs(groups, order, locale, keys);
      forall i, j :: 0 <= i < j < |r.0| ==> r.0[i].key != r.0[j].key
  {
    LandingRefsOrdered(groups, order, locale, keys);
  }

  /** When every group has a document in the locale, the landing lists every group, in the canonical order. */
  lemma {:induction false} LandingRefsComplete(groups: map<string, map<string, TrustedBy>>, order: seq<string>, locale: string, keys: Keys)
    requires forall k :: k in order ==> k != "" && HasDoc(groups, k, locale)
    ensures var r := LandingRefs(groups, order, locale, keys);
      && r.1 == keys
      && |r.0| == |order|
      && forall i :: 0 <= i < |order| ==> r.0[i] == Ref(order[i], DocTarget(groups, order[i], locale))
    decreases |order|
  {
    if order != [] {
      assert forall k :: k in order[1..] ==> k in order;
      LandingRefsComplete(groups, order[1..], locale, keys);
    }
  }

  // ---------------------------------------------------------------- the run

  /** The outcome of a run: aborted for a missing landing, or the writes, final store, counters, order and new reference lists. */
  datatype Outcome =
    | Aborted
    | Synced(writes: seq<Write>, store: Store, report: Report, order: seq<string>,
             enRefs: seq<Ref>, lvRefs: seq<Ref>, keys: Keys)

  /** `patchDocBothStates(landing._id, {trustedBy: refs})`, or nothing in a dry run. */
  function LandingWrites(landing: Doc, refs: seq<Ref>, dryRun: bool): (ws: seq<Write>)
    ensures dryRun ==> ws == []
    ensures !dryRun ==> ws == PatchBothStates(landing.id, Patch(None, None, Some(refs)))
  {
    if dryRun then [] else PatchBothStates(landing.id, Patch(None, None, Some(refs)))
  }

  /** A landing that the run can work on: fetched, with a non-empty id. */
  predicate LandingOk(l: Option<Doc>) {
    l.Some? && l.value.id != ""
  }

  /** The portfolio map of a snapshot. */
  function PortfolioGroups(s: Store): map<string, map<string, Doc>> {
    BuildPortfolioMap(FetchPortfolios(s)).groups
  }

  /** The trustedBy index of a snapshot. */
  function TrustedByIndexOf(s: Store): TrustedByIndex {
    BuildIndex(FetchTrustedBy(s))
  }

  /** A landing's own order: its referenced groups' keys, first occurrence first. */
  function LandingOrder(s: Store, landing: Doc): seq<string> {
    ExtractOrder(LandingTks(LandingDocs(s, landing)))
  }

  /** The order of groups a run walks: canonical, extended with the unlisted groups when asked to. */
  function RunOrder(s: Store, en: Doc, lv: Doc, includeExisting: bool, rank: string -> int): seq<string> {
    var canonical := CanonicalOrder(LandingOrder(s, en), LandingOrder(s, lv));
    if includeExisting then ExtendOrder(canonical, TrustedByIndexOf(s), rank) else canonical
  }

  /** The group loop of a run, from the snapshot and the index. */
  function RunLoop(s: Store, order: seq<string>, dryRun: bool, keys: Keys): (seq<Write>, Progress) {
    SyncGroups(Progress(s, TrustedByIndexOf(s).groups, keys, Report(0, 0, 0, 0)), PortfolioGroups(s), order, dryRun)
  }

  /**
   * `main`: abort unless both landings exist; build the maps; walk the
   * order syncing each group; then rewrite both landings' reference lists,
   * en first. In a dry run nothing is written.
   */
  function Run(s: Store, includeExisting: bool, dryRun: bool, rank: string -> int, keys: Keys): (r: Outcome)
    ensures r.Aborted? <==> !LandingOk(FetchLanding(s, "en")) || !LandingOk(FetchLanding(s, "lv"))
    ensures r.Synced? ==> r.store == ApplyAll(s, r.writes)
    ensures r.Synced? && dryRun ==> r.writes == [] && r.store == s
    ensures r.Synced? ==> r.report.patchedLanding == 2
    ensures r.Synced? && !dryRun ==>
      && |r.writes| >= 4
      && GroupWrites(r.writes[..|r.writes| - 4])
      && r.writes[|r.writes| - 4..]
         == PatchBothStates(FetchLanding(s, "en").value.id, Patch(None, None, Some(r.enRefs)))
          + PatchBothStates(FetchLanding(s, "lv").value.id, Patch(None, None, Some(r.lvRefs)))
  {
    var en := FetchLanding(s, "en");
    var lv := FetchLanding(s, "lv");
    if !LandingOk(en) || !LandingOk(lv) then Aborted
    else
      var order := RunOrder(s, en.value, lv.value, includeExisting, rank);
      var loop := RunLoop(s, order, dryRun, keys);
      var p := loop.1;
      var enRefs := LandingRefs(p.groups, order, LocaleKey(en.value.locale), p.keys);
      var lvRefs := LandingRefs(p.groups, order, LocaleKey(lv.value.locale), enRefs.1);
      var landingWs := LandingWrites(en.value, enRefs.0, dryRun) + LandingWrites(lv.value, lvRefs.0, dryRun);
      var ws := loop.0 + landingWs;
      ApplyAllAppend(s, loop.0, landingWs);
      assert ws[..|loop.0|] == loop.0 && ws[|loop.0|..] == landingWs;
      Synced(ws, ApplyAll(s, ws), p.report.(patchedLanding := p.report.patchedLanding + 2), order,
             enRefs.0, lvRefs.0, lvRefs.1)
  }

  /** The truthy portfolio keys are non-empty. */
  lemma {:induction false} PortfolioTksNonEmpty(ts: seq<TrustedBy>)
    ensures forall k :: k in PortfolioTks(ts) ==> k != ""
    decreases |ts|
  {
    if ts != [] {
      PortfolioTksNonEmpty(Init(ts));
    }
  }

  /** A landing's order holds each key once, and no empty key. */
  lemma LandingOrderSpec(s: Store, landing: Doc)
    ensures NoDup(LandingOrder(s, landing))
    ensures forall k :: k in LandingOrder(s, landing) ==> k != ""
  {
    ExtractOrderSpec(LandingTks(LandingDocs(s, landing)));
  }

  /** The canonical order of two landings: the en order, then the lv keys it lacks; no key twice, none empty. */
  lemma CanonicalOfLandings(s: Store, en: Doc, lv: Doc)
    ensures var enOrder := LandingOrder(s, en); var lvOrder := LandingOrder(s, lv);
      var canonical := CanonicalOrder(enOrder, lvOrder);
      && canonical == enOrder + Without(lvOrder, Elems(enOrder))
      && NoDup(canonical)
      && forall k :: k in canonical ==> k != ""
  {
    var enOrder := LandingOrder(s, en);
    var lvOrder := LandingOrder(s, lv);
    LandingOrderSpec(s, en);
    LandingOrderSpec(s, lv);
    CanonicalOrderSpec(enOrder, lvOrder);
    ElemsAppend(enOrder, lvOrder);
    var canonical := CanonicalOrder(enOrder, lvOrder);
    forall k | k in canonical ensures k != "" {
      assert k in Elems(canonical);
    }
  }

  /** Extending a duplicate-free order of non-empty keys keeps it so, and adds exactly the missing indexed keys. */
  lemma ExtendedOrderSpec(order: seq<string>, ix: TrustedByIndex, rank: string -> int)
    requires NoDup(order) && NoDup(ix.keys)
    requires forall k :: k in order ==> k != ""
    requires forall k :: k in Elems(ix.keys) ==> k != ""
    ensures var r := ExtendOrder(order, ix, rank);
      && NoDup(r)
      && (forall k :: k in r ==> k != "")
      && |order| <= |r| && r[..|order|] == order
      && Elems(r[|order|..]) == Elems(ix.keys) - Elems(order)
  {
    ExtendOrderSpec(order, ix, rank);
    var r := ExtendOrder(order, ix, rank);
    var tail := r[|order|..];
    assert r == order + tail;
    forall k | k in r ensures k != "" {
      if k !in order {
        assert k in tail;
        assert k in Elems(tail);
      }
    }
  }

  /**
   * The order a run walks holds no key twice and no empty key. Without the
   * extension it is the canonical order of the two landings; with it, that
   * order followed by exactly the indexed groups it lacks.
   */
  lemma RunOrderSpec(s: Store, en: Doc, lv: Doc, includeExisting: bool, rank: string -> int)
    ensures var order := RunOrder(s, en, lv, includeExisting, rank);
      && NoDup(order)
      && (forall k :: k in order ==> k != "")
    ensures var canonical := CanonicalOrder(LandingOrder(s, en), LandingOrder(s, lv));
      var order := RunOrder(s, en, lv, includeExisting, rank);
      && |canonical| <= |order|
      && order[..|canonical|] == canonical
      && Elems(order[|canonical|..]) == (if includeExisting then Elems(TrustedByIndexOf(s).keys) - Elems(canonical) else {})
  {
    CanonicalOfLandings(s, en, lv);
    var canonical := CanonicalOrder(LandingOrder(s, en), LandingOrder(s, lv));
    if includeExisting {
      var ix := TrustedByIndexOf(s);
      IndexKeysNonEmpty(s);
      ExtendedOrderSpec(canonical, ix, rank);
    } else {
      assert canonical[|canonical|..] == [];
    }
  }

  /** The index's keys are non-empty. */
  lemma IndexKeysNonEmpty(s: Store)
    ensures forall k :: k in Elems(TrustedByIndexOf(s).keys) ==> k != ""
  {
    var ts := FetchTrustedBy(s);
    PortfolioTksNonEmpty(ts);
    assert Elems(TrustedByIndexOf(s).keys) == Elems(PortfolioTks(ts));
  }

  /** The index holds only fetched documents. */
  lemma IndexHoldsFetched(s: Store)
    ensures var g := TrustedByIndexOf(s).groups;
      forall k, l :: k in g && l in g[k] ==> g[k][l] in FetchTrustedBy(s) && g[k][l].doc in s
  {
    var ts := FetchTrustedBy(s);
    var g := TrustedByIndexOf(s).groups;
    forall k, l | k in g && l in g[k] ensures g[k][l] in ts {
      IndexKeepsPreferred(ts, k, l);
    }
  }

  /**
   * In a completed run each landing's references name each group of the
   * order at most once, in the order's sequence, each pointing at the
   * published id of the group's document in the landing's locale, and every
   * group with such a document is listed.
   */
  lemma RunLandingRefs(s: Store, includeExisting: bool, dryRun: bool, rank: string -> int, keys: Keys)
    requires Run(s, includeExisting, dryRun, rank, keys).Synced?
    ensures var r := Run(s, includeExisting, dryRun, rank, keys);
      var groups := RunLoop(s, r.order, dryRun, keys).1.groups;
      && (forall i :: 0 <= i < |r.enRefs| ==>
            r.enRefs[i].key in r.order && HasDoc(groups, r.enRefs[i].key, "en")
            && r.enRefs[i].target == DocTarget(groups, r.enRefs[i].key, "en"))
      && (forall i :: 0 <= i < |r.lvRefs| ==>
            r.lvRefs[i].key in r.order && HasDoc(groups, r.lvRefs[i].key, "lv")
            && r.lvRefs[i].target == DocTarget(groups, r.lvRefs[i].key, "lv"))
      && (forall k :: k in r.order && HasDoc(groups, k, "en") ==> exists i :: 0 <= i < |r.enRefs| && r.enRefs[i].key == k)
      && (forall k :: k in r.order && HasDoc(groups, k, "lv") ==> exists i :: 0 <= i < |r.lvRefs| && r.lvRefs[i].key == k)
      && (forall i, j :: 0 <= i < j < |r.enRefs| ==> FirstIndex(r.order, r.enRefs[i].key) < FirstIndex(r.order, r.enRefs[j].key))
      && (forall i, j :: 0 <= i < j < |r.lvRefs| ==> FirstIndex(r.order, r.lvRefs[i].key) < FirstIndex(r.order, r.lvRefs[j].key))
      && r.keys == RunLoop(s, r.order, dryRun, keys).1.keys
  {
    var en := FetchLanding(s, "en").value;
    var lv := FetchLanding(s, "lv").value;
    var order := RunOrder(s, en, lv, includeExisting, rank);
    RunOrderSpec(s, en, lv, includeExisting, rank);
    var p := RunLoop(s, order, dryRun, keys).1;
    assert LocaleKey(en.locale) == "en" && LocaleKey(lv.locale) == "lv";
    LandingRefsSound(p.groups, order, "en", p.keys);
    LandingRefsCover(p.groups, order, "en", p.keys);
    LandingRefsOrdered(p.groups, order, "en", p.keys);
    LandingRefsSound(p.groups, order, "lv", p.keys);
    LandingRefsCover(p.groups, order, "lv", p.keys);
    LandingRefsOrdered(p.groups, order, "lv", p.keys);
  }

  /** A group locale that held a document, or was ready, holds one with an id after the loop. */
  lemma FilledAfterLoop(before: map<string, map<string, TrustedBy>>, after: map<string, map<string, TrustedBy>>,
                        portfolioMap: map<string, map<string, Doc>>, order: seq<string>, tk: string, locale: string)
    requires tk in order && locale in ["en", "lv"]
    requires locale in GroupAt(before, tk) || Ready(before, portfolioMap, tk, locale)
    requires forall k, l :: l in GroupAt(before, k) ==> l in GroupAt(after, k)
    requires forall k, l :: k in order && l in ["en", "lv"] && Ready(before, portfolioMap, k, l) ==> l in GroupAt(after, k)
    requires IdsSet(after)
    ensures HasDoc(after, tk, locale)
  {
    assert locale in GroupAt(after, tk);
    assert tk in after;
  }

  /** Every group of the order that held or could create both siblings ends with both. */
  lemma OrderFilled(before: map<string, map<string, TrustedBy>>, after: map<string, map<string, TrustedBy>>,
                    portfolioMap: map<string, map<string, Doc>>, order: seq<string>)
    requires forall k, l :: k in order && l in ["en", "lv"] ==>
      l in GroupAt(before, k) || Ready(before, portfolioMap, k, l)
    requires forall k, l :: l in GroupAt(before, k) ==> l in GroupAt(after, k)
    requires forall k, l :: k in order && l in ["en", "lv"] && Ready(before, portfolioMap, k, l) ==> l in GroupAt(after, k)
    requires IdsSet(after)
    ensures forall k :: k in order ==> HasDoc(after, k, "en") && HasDoc(after, k, "lv")
  {
    forall k | k in order ensures HasDoc(after, k, "en") && HasDoc(after, k, "lv") {
      FilledAfterLoop(before, after, portfolioMap, order, k, "en");
      FilledAfterLoop(before, after, portfolioMap, order, k, "lv");
    }
  }

  /** When every group of the order held or could create both siblings, the loop leaves both filled. */
  lemma LoopFillsOrder(s: Store, order: seq<string>, dryRun: bool, keys: Keys)
    requires keys.Valid() && NoDup(order)
    requires forall d :: d in s ==> d.id != ""
    requires var ix := TrustedByIndexOf(s);
      forall k, l :: k in order && l in ["en", "lv"] ==>
        l in GroupAt(ix.groups, k) || Ready(ix.groups, PortfolioGroups(s), k, l)
    ensures var p := RunLoop(s, order, dryRun, keys).1;
      forall k :: k in order ==> HasDoc(p.groups, k, "en") && HasDoc(p.groups, k, "lv")
  {
    var ix := TrustedByIndexOf(s);
    var start := Progress(s, ix.groups, keys, Report(0, 0, 0, 0));
    IndexIdsSet(s);
    SyncGroupsFills(start, PortfolioGroups(s), order, dryRun);
    var p := SyncGroups(start, PortfolioGroups(s), order, dryRun).1;
    assert p == RunLoop(s, order, dryRun, keys).1;
    OrderFilled(ix.groups, p.groups, PortfolioGroups(s), order);
  }

  /** With non-empty ids in the store, every document of the index has an id. */
  lemma IndexIdsSet(s: Store)
    requires forall d :: d in s ==> d.id != ""
    ensures IdsSet(TrustedByIndexOf(s).groups)
  {
    IndexHoldsFetched(s);
  }

  /**
   * When every group of the order held, or could create, a document in
   * each locale, both landings end up listing every group of the order, in
   * the order's sequence: the two landings agree.
   */
  lemma RunLandingsAgree(s: Store, includeExisting: bool, dryRun: bool, rank: string -> int, keys: Keys)
    requires Run(s, includeExisting, dryRun, rank, keys).Synced?
    requires keys.Valid()
    requires forall d :: d in s ==> d.id != ""
    requires var r := Run(s, includeExisting, dryRun, rank, keys);
      var ix := TrustedByIndexOf(s);
      forall k, l :: k in r.order && l in ["en", "lv"] ==>
        l in GroupAt(ix.groups, k) || Ready(ix.groups, PortfolioGroups(s), k, l)
    ensures var r := Run(s, includeExisting, dryRun, rank, keys);
      && |r.enRefs| == |r.order| && |r.lvRefs| == |r.order|
      && forall i :: 0 <= i < |r.order| ==> r.enRefs[i].key == r.order[i] && r.lvRefs[i].key == r.order[i]
  {
    var r := Run(s, includeExisting, dryRun, rank, keys);
    var en := FetchLanding(s, "en").value;
    var lv := FetchLanding(s, "lv").value;
    var order := RunOrder(s, en, lv, includeExisting, rank);
    RunOrderSpec(s, en, lv, includeExisting, rank);
    LoopFillsOrder(s, order, dryRun, keys);
    var p := RunLoop(s, order, dryRun, keys).1;
    assert LocaleKey(en.locale) == "en" && LocaleKey(lv.locale) == "lv";
    LandingRefsComplete(p.groups, order, "en", p.keys);
    LandingRefsComplete(p.groups, order, "lv", p.keys);
  }

  /**
   * In a real run every reference the landings are given points at the
   * published id of a document that is in the final store: the loop's
   * documents were already there or were created by it, and the landing
   * patches keep every id.
   */
  lemma RunRefsStored(s: Store, includeExisting: bool, rank: string -> int, keys: Keys)
    requires Run(s, includeExisting, false, rank, keys).Synced?
    ensures var r := Run(s, includeExisting, false, rank, keys);
      RefsToStored(r.enRefs, r.store) && RefsToStored(r.lvRefs, r.store)
  {
    var r := Run(s, includeExisting, false, rank, keys);
    var p := RunLoop(s, r.order, false, keys).1;
    RunRefsAre(s, includeExisting, false, rank, keys);
    RunLoopStored(s, r.order, keys);
    RunKeepsLoopIds(s, includeExisting, rank, keys);
    assert GroupsStored(p.groups, r.store);
    RefsStored(p.groups, r.store, r.order, "en", p.keys);
    RefsStored(p.groups, r.store, r.order, "lv", LandingRefs(p.groups, r.order, "en", p.keys).1);
  }

  /** A completed run's reference lists are those of the loop's final groups, over its order of non-empty keys. */
  lemma RunRefsAre(s: Store, includeExisting: bool, dryRun: bool, rank: string -> int, keys: Keys)
    requires Run(s, includeExisting, dryRun, rank, keys).Synced?
    ensures var r := Run(s, includeExisting, dryRun, rank, keys);
      var p := RunLoop(s, r.order, dryRun, keys).1;
      var enRefs := LandingRefs(p.groups, r.order, "en", p.keys);
      && (forall k :: k in r.order ==> k != "")
      && r.enRefs == enRefs.0
      && r.lvRefs == LandingRefs(p.groups, r.order, "lv", enRefs.1).0
  {
    var en := FetchLanding(s, "en").value;
    var lv := FetchLanding(s, "lv").value;
    RunOrderSpec(s, en, lv, includeExisting, rank);
    assert LocaleKey(en.locale) == "en" && LocaleKey(lv.locale) == "lv";
  }

  /** The landing patches at the end of a real run keep the ids the loop left. */
  lemma RunKeepsLoopIds(s: Store, includeExisting: bool, rank: string -> int, keys: Keys)
    requires Run(s, includeExisting, false, rank, keys).Synced?
    ensures var r := Run(s, includeExisting, false, rank, keys);
      Ids(r.store) == Ids(RunLoop(s, r.order, false, keys).1.store)
  {
    var r := Run(s, includeExisting, false, rank, keys);
    var loop := RunLoop(s, r.order, false, keys);
    var n := |r.writes| - 4;
    assert r.writes == loop.0 + r.writes[n..];
    ApplyAllAppend(s, loop.0, r.writes[n..]);
    PatchesKeepIds(loop.1.store, r.writes[n..]);
  }

  /** Every reference points at the published id of a document in the store. */
  predicate RefsToStored(refs: seq<Ref>, store: Store) {
    forall i :: 0 <= i < |refs| ==> refs[i].target in PublishedIds(store)
  }

  /** The published id of every document of a store, in store order. */
  function PublishedIds(s: Store): (r: seq<string>)
    ensures |r| == |s| && forall j :: 0 <= j < |s| ==> r[j] == BaseId(s[j].id)
  {
    seq(|s|, j requires 0 <= j < |s| => BaseId(s[j].id))
  }

  /** References built from groups whose documents are stored point at the published ids of stored documents. */
  lemma RefsStored(groups: map<string, map<string, TrustedBy>>, store: Store, order: seq<string>, locale: string, keys: Keys)
    requires GroupsStored(groups, store)
    requires forall k :: k in order ==> k != ""
    ensures RefsToStored(LandingRefs(groups, order, locale, keys).0, store)
  {
    var refs := LandingRefs(groups, order, locale, keys).0;
    forall i | 0 <= i < |refs| ensures refs[i].target in PublishedIds(store) {
      RefStored(groups, store, order, locale, keys, i);
    }
  }

  lemma RefStored(groups: map<string, map<string, TrustedBy>>, store: Store, order: seq<string>, locale: string, keys: Keys, i: int)
    requires GroupsStored(groups, store)
    requires forall k :: k in order ==> k != ""
    requires 0 <= i < |LandingRefs(groups, order, locale, keys).0|
    ensures LandingRefs(groups, order, locale, keys).0[i].target in PublishedIds(store)
  {
    LandingRefsSound(groups, order, locale, keys);
    var ref := LandingRefs(groups, order, locale, keys).0[i];
    assert HasDoc(groups, ref.key, locale) && ref.target == DocTarget(groups, ref.key, locale);
    var docId := groups[ref.key][locale].doc.id;
    assert docId in Ids(store);
    var j :| 0 <= j < |store| && Ids(store)[j] == docId;
    assert ref.target == PublishedIds(store)[j];
  }
}
