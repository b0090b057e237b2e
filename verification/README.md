# Locale-sibling reconciliation of a Sanity CMS dataset, in Dafny

This project models the maintenance scripts and schema helpers of a
Sanity-based website that keep each piece of content and its translations
("locale siblings") consistent. Siblings are documents of the same type in
different locales that share one `translationKey`. The model covers:

- **Landing trustedBy sync** (`syncLandingTrustedByLocales.mjs`). It groups
  trustedBy documents by their portfolio's translation key. It fixes a
  canonical order of groups from the `en` and `lv` landings, optionally
  extended with the remaining groups sorted by name. It creates or patches
  the trustedBy sibling of every group in each locale. It then rewrites both
  landings' reference lists in that order.
- **trustedBy reference repair** (`syncTrustedByPortfolioLocaleRefs.js`). A
  trustedBy document whose portfolio is in another locale is re-pointed at
  the sibling portfolio of its own locale.
- **Portfolio translation-key backfill**
  (`backfillPortfolioTranslationKeys.js`). Both documents of each fixed
  en/lv slug pair get one shared key.
- **Dictionary merges** (`seedDictionaryKeys.js`,
  `syncTaxonomiesToDictionary.js`). Missing keys are appended; existing
  entries are never touched, and a second run writes nothing.
- **Seeding of service pages and the services overview**
  (`seedServices.js`, `seedServicesOverview.js`).
- **The i18n schema helpers** (`i18n.ts`): the slugifier, the per-locale
  slug uniqueness validator and the initial value.
- **The newsroom article's custom validators** (`newsroomArticle.ts`).

The dataset is a sequence of documents (`Documents.Store`), kept in query
order. Every script run is a function from a snapshot to the list of writes
it issues and the store those writes produce. Writes are set-patches,
entry appends, creates, create-or-replaces and deletes. Every run is proved
to leave exactly `ApplyAll(snapshot, writes)`.

Some JavaScript behaviours are modelled explicitly:

- truthiness and `a || b`;
- `trim`, `split`, `slice`;
- `obj[undefined]` as the key `"undefined"`;
- object spread;
- `Map` insertion order;
- the stable `Array.prototype.sort`.

Random UUIDs come from a key supply (`Documents.Keys`). String collation
(`localeCompare`) is an abstract rank function.

Modules follow the repository's files. `Wrappers`, `Sequences`, `Text`,
`Objects` and `Documents` are the shared foundation. `LandingGroups` holds
the pure grouping and ordering helpers of the landing sync, and
`LandingSync` holds its I/O-shaped steps and `main`.

## Model

| member | source | states |
|---|---|---|
| Documents.BaseId | scripts/syncTrustedByPortfolioLocaleRefs.js:57 | only a leading `drafts.` is removed; an id without it is returned unchanged |
| Documents.BaseOfDraft | scripts/backfillPortfolioTranslationKeys.js:89-101 | the base id of the draft id of `b` is `b` again |
| Documents.IdIsBaseOrDraft | scripts/backfillPortfolioTranslationKeys.js:89-101 | every id is the published or the draft variant of its base id, so patching both states always reaches the document named |
| Documents.DraftDiffersFromBase | scripts/backfillPortfolioTranslationKeys.js:89-101 | the draft id never equals the published id, so both-state patches write two distinct documents |
| Documents.Lookup | scripts/syncTrustedByPortfolioLocaleRefs.js:30-35 | a reference resolves exactly when a document with that id exists, and resolves to that document |
| Documents.FirstOfTypeInLocale | scripts/seedDictionaryKeys.js:119-131 | the result is a document of the type in the locale, and none is returned only when no such document exists |
| Documents.Where | scripts/syncTrustedByPortfolioLocaleRefs.js:24-38 | a filter query returns exactly the stored documents that match |
| Documents.WhereAppend | scripts/syncTrustedByPortfolioLocaleRefs.js:24-38 | a query answers in store order: over two stores one after the other it returns the two answers one after the other |
| Documents.First | scripts/seedServices.js:414-417 | `[0]` of a filter finds a document exactly when one matches |
| Documents.FirstOfExtended | scripts/seedServices.js:404-409 | documents added after a match do not change the first match |
| Documents.Count | scripts/syncLandingTrustedByLocales.mjs:136-141 | a count is zero exactly when no document matches |
| Documents.PatchDoc | scripts/syncTrustedByPortfolioLocaleRefs.js:66 | a `set` patch assigns exactly the fields it names (`translationKey`, `portfolioWork`, `trustedBy`) and leaves every other field as it was; an empty patch changes nothing |
| Documents.AppendEntriesKeepsFirst | scripts/seedDictionaryKeys.js:161-165 | inserting entries after the last entry keeps the dictionary found for the locale, with the new entries after the old ones |
| Documents.ApplyAllAppend | scripts/seedDictionaryKeys.js:172-179 | applying two write lists in turn equals applying their concatenation |
| Documents.PatchBothStates | scripts/backfillPortfolioTranslationKeys.js:87-109 | two patches with the same fields, to the published id and to its draft id |
| Documents.PatchBothStatesEffect | scripts/backfillPortfolioTranslationKeys.js:87-109 | exactly the documents whose id is the published or the draft variant are patched; all others are unchanged |
| Documents.PatchesKeepIds | scripts/backfillPortfolioTranslationKeys.js:87-109 | set-patches keep every document in its place under its id |
| Text.OrElse | scripts/backfillPortfolioTranslationKeys.js:137 | `a \|\| b` yields `a` exactly when `a` is defined and non-empty |
| Text.Prefix | scripts/syncLandingTrustedByLocales.mjs:134 | `slice(0, n)` is a prefix of length `min(n, length)` |
| Text.Trim | scripts/syncLandingTrustedByLocales.mjs:133 | the result is the input with its maximal leading whitespace and its trailing whitespace removed: it starts after the leading whitespace, only whitespace follows it, and it neither starts nor ends with whitespace |
| Text.TrimUnique | scripts/seedDictionaryKeys.js:30 | whatever whitespace surrounds a trimmed string, trimming gives back exactly that string |
| Text.LowerAll | schemaTypes/i18n.ts:16 | every character is lower-cased in place |
| Text.Split | scripts/seedDictionaryKeys.js:30 | splitting yields at least one part, and no part holds the separator |
| Text.TrimAll | scripts/seedDictionaryKeys.js:30 | each part is trimmed, in place |
| Text.NonEmpty | scripts/seedDictionaryKeys.js:31 | a part survives exactly when it is non-empty; with NonEmptyAppend this fixes the result as the order-preserving filter |
| Text.NonEmptyAppend | scripts/seedDictionaryKeys.js:31 | filtering distributes over concatenation, so kept parts stay in their input order |
| Text.NonEmptyKeeps | scripts/seedDictionaryKeys.js:31 | a list without empty parts is kept whole |
| Text.SplitJoin | scripts/seedDictionaryKeys.js:29-32 | splitting a join of separator-free parts recovers the parts |
| Text.JoinSplit | scripts/seedDictionaryKeys.js:30 | joining the fields of a split gives back the string, so every setting is the join of its fields |
| Text.ParseList | scripts/seedDictionaryKeys.js:29-32 | the `SANITY_ACTIVE_LOCALES` list every script reads (each with its own default): every listed locale is non-empty, trimmed and comma-free |
| Text.ParseListFields | scripts/seedDictionaryKeys.js:29-32 | a setting whose comma-separated fields are given reads as those fields trimmed, empty ones dropped, in order |
| Text.ParseListExample | scripts/seedDictionaryKeys.js:29-32 | blanks around items and empty items are ignored: `" en , lv,,"` reads as `en`, `lv` |
| Text.ParseListJoin | scripts/seedDictionaryKeys.js:29-32 | a comma-joined list of well-formed items parses back to itself |
| Text.ParseListDefault | scripts/seedDictionaryKeys.js:29 | an unset or empty setting yields the default list |
| Objects.Get | schemaTypes/i18n.ts:91-95 | a property is found exactly when the object has it |
| Objects.Put | schemaTypes/i18n.ts:91-95 | in insertion order, an assignment keeps an existing property's position and appends a new one; every other property reads as before |
| Objects.SpreadGet | schemaTypes/i18n.ts:94 | in `{...t, ...s}` a property comes from `s` when `s` has it, else from `t` |
| Objects.SpreadNames | schemaTypes/i18n.ts:94 | in insertion order, the spread keeps `t`'s properties and appends `s`'s new properties in their order |
| Objects.SpreadWellFormed | schemaTypes/i18n.ts:94 | spreading objects with unique names gives an object with unique names |
| I18n.KeepSlugChars | schemaTypes/i18n.ts:17 | only `[a-z0-9-]` and whitespace survive |
| I18n.HyphenateSpaces | schemaTypes/i18n.ts:19 | no whitespace remains; every new character is a hyphen |
| I18n.SqueezeHyphens | schemaTypes/i18n.ts:20 | no two hyphens remain adjacent, and the first character is kept |
| I18n.Slugify | schemaTypes/i18n.ts:11-22 | the empty input gives the empty slug; every output is a slug (`[a-z0-9-]`, no double hyphen) |
| I18n.SlugifyFixesSlugs | schemaTypes/i18n.ts:11-22 | a slug is a fixed point of the slugifier |
| I18n.SlugifyIdempotent | schemaTypes/i18n.ts:11-22 | slugifying twice equals slugifying once |
| I18n.IsUniqueSlugWithinLocale | schemaTypes/i18n.ts:25-42 | an empty slug is unique; otherwise a slug is unique iff no document of the same type and locale (default `en`) other than the document's own variants holds it |
| I18n.IsUniqueSlugAsWritten | schemaTypes/i18n.ts:25-42 | the validator as written: an empty slug is unique; otherwise unique iff no document of the same type and locale holds the slug other than the id left by removing the first `drafts.` anywhere, and that id's draft |
| I18n.UniqueSlugSameForDraft | schemaTypes/i18n.ts:33-39 | a published document and its draft get the same answer |
| I18n.OwnDocumentNeverClashes | schemaTypes/i18n.ts:39 | storing either variant of the document itself never changes the answer |
| I18n.AsWrittenClashesWithItself | schemaTypes/i18n.ts:33 | with the unanchored `replace`, a document whose id holds `drafts.` after its start clashes with itself |
| I18n.AsWrittenAgreesOnDrafts | schemaTypes/i18n.ts:33 | on a draft id the unanchored and the anchored removal agree |
| I18n.InitialValueFields | schemaTypes/i18n.ts:90-96 | fields of the base win; otherwise `locale` is `en` and `translationKey` is the fresh key |
| I18n.InitialValueShape | schemaTypes/i18n.ts:90-96 | in insertion order the initial value starts with `locale` and `translationKey`, and its names are unique |
| DictionaryMerge.AppendMissingFrom | scripts/seedDictionaryKeys.js:137-150 | appended entries are candidates whose key was not seen; their keys are the seen-filtered first occurrences of the candidate keys |
| DictionaryMerge.AppendedKeys | scripts/seedDictionaryKeys.js:137-150 | appended keys are distinct and are exactly the candidate keys missing from the dictionary |
| DictionaryMerge.AppendedIsFirstCandidate | scripts/seedDictionaryKeys.js:140-149 | each appended entry is the first candidate carrying its key |
| DictionaryMerge.AppendIsIdempotent | scripts/seedDictionaryKeys.js:7 | once the appended entries are in, nothing more is appended |
| DictionaryMerge.NothingMissing | scripts/seedDictionaryKeys.js:152-155 | when every candidate key is present, nothing is appended |
| DictionaryMerge.NothingToAppendIff | scripts/seedDictionaryKeys.js:152-155 | nothing is appended exactly when the dictionary already has every candidate key |
| DictionaryMerge.SyncLocale | scripts/seedDictionaryKeys.js:133-166 | at most one write; none without a dictionary or with nothing missing; otherwise one append of exactly the missing entries to that dictionary |
| DictionaryMerge.SyncLocaleEffect | scripts/seedDictionaryKeys.js:161-165 | the dictionary keeps its id and old entries first, gains the appended ones, and a second sync writes nothing |
| DictionaryMerge.SyncLocaleCompletes | scripts/seedDictionaryKeys.js:133-166 | afterwards every candidate key is present, and the appended keys are distinct and exactly the ones that were missing |
| DictionaryMerge.AppendCovers | scripts/seedDictionaryKeys.js:140-150 | old plus appended entries cover every candidate key |
| DictionaryMerge.SyncLocales | scripts/seedDictionaryKeys.js:168-182 | locales run in turn, each on the store the previous ones left; at most one write per locale (the run-level results are the three lemmas below) |
| DictionaryMerge.AppendsGrow | scripts/seedDictionaryKeys.js:161-165 | entry inserts, into any document, keep each locale's dictionary the same document with its old entries first and untouched |
| DictionaryMerge.SyncLocalesCovers | scripts/seedDictionaryKeys.js:168-182 | a run only inserts entries, keeps its candidates, and leaves every configured locale's dictionary holding every candidate key |
| DictionaryMerge.CoveredRunWritesNothing | scripts/seedDictionaryKeys.js:152-155 | on a store where every configured locale's dictionary already has every candidate key, a run writes nothing |
| DictionaryMerge.SyncLocalesIdempotent | scripts/seedDictionaryKeys.js:7 | a second run on the store the first run left writes nothing and leaves that store as it is |
| DictionaryMerge.SyncLocalesCompletes | scripts/seedDictionaryKeys.js:168-182 | after a run, every configured locale that had a dictionary has the same dictionary, with its old entries as a prefix and every candidate key |
| SeedDictionaryKeys.ActiveLocalesDefault | scripts/seedDictionaryKeys.js:29 | without the setting the dictionaries of `en` and `lv` are updated |
| SeedDictionaryKeys.StaticEntries | scripts/seedDictionaryKeys.js:140-148 | one entry per static key, with its value and the seeding note |
| SeedDictionaryKeys.SeedLocale | scripts/seedDictionaryKeys.js:133-166 | no write without a dictionary; otherwise no write exactly when it has every static key, and else one append, to that dictionary, of static entries with the seeding note whose keys it lacks |
| SeedDictionaryKeys.StaticKeysCovered | scripts/seedDictionaryKeys.js:152-155 | a dictionary has every static entry's key exactly when it has every static key |
| SeedDictionaryKeys.SeededEntriesAreStatic | scripts/seedDictionaryKeys.js:143-148 | every appended entry is a static key with its static value and the seeding note |
| SeedDictionaryKeys.SeedLocaleCompletes | scripts/seedDictionaryKeys.js:133-166 | after seeding, the old entries are a prefix and every static key is present |
| SeedDictionaryKeys.SecondRunAddsNothing | scripts/seedDictionaryKeys.js:7 | seeding a locale twice: the second time writes nothing |
| SeedDictionaryKeys.Run | scripts/seedDictionaryKeys.js:168-182 | the run's store is the snapshot with its writes applied (partners: RunIsIdempotent, RunCompletes) |
| SeedDictionaryKeys.RunIsIdempotent | scripts/seedDictionaryKeys.js:7 | a second run of the script writes nothing and leaves the store as the first run left it |
| SeedDictionaryKeys.RunCompletes | scripts/seedDictionaryKeys.js:168-182 | after a run, every configured locale that had a dictionary keeps its old entries as a prefix and holds every static key |
| SyncTaxonomies.TaxonomyEntries | scripts/syncTaxonomiesToDictionary.js:63-81 | every taxonomy document with a slug contributes its entry, and nothing else does; at most one entry per document |
| SyncTaxonomies.TaxonomyEntriesAppend | scripts/syncTaxonomiesToDictionary.js:69-81 | entries follow the query order: over two stores one after the other, the entries of the first then those of the second |
| SyncTaxonomies.Candidates | scripts/syncTaxonomiesToDictionary.js:62-82 | the candidates are exactly the entries of the slugged documents of the listed taxonomies |
| SyncTaxonomies.CandidatesAppend | scripts/syncTaxonomiesToDictionary.js:62 | candidates follow the taxonomy list: those of earlier taxonomies come first |
| SyncTaxonomies.CandidatesInTaxonomyOrder | scripts/syncTaxonomiesToDictionary.js:34-39 | a locale's candidates are the service-type, work-type, client-type and skill entries, in that order, each in query order |
| SyncTaxonomies.SyncLocaleTaxonomies | scripts/syncTaxonomiesToDictionary.js:55-98 | no write without a dictionary; otherwise no write exactly when it has the key of every slugged taxonomy document, and else one append, to that dictionary, of entries naming such documents whose keys it lacks |
| SyncTaxonomies.CandidateKeysCovered | scripts/syncTaxonomiesToDictionary.js:59-73 | a dictionary has every candidate key exactly when it has the key of every slugged taxonomy document |
| SyncTaxonomies.SyncCoversEveryTaxonomyDoc | scripts/syncTaxonomiesToDictionary.js:55-98 | after a locale's sync the dictionary holds a key for every slugged taxonomy document |
| SyncTaxonomies.AppendedEntriesNameTaxonomyDocs | scripts/syncTaxonomiesToDictionary.js:69-80 | every appended entry names a slugged taxonomy document, and its key was not in the dictionary |
| SyncTaxonomies.AppendKeepsCandidates | scripts/syncTaxonomiesToDictionary.js:93-97 | appending to a dictionary does not change the candidates |
| SyncTaxonomies.AppendKeepsTaxonomyEntries | scripts/syncTaxonomiesToDictionary.js:93-97 | appending to a dictionary leaves every taxonomy's entries unchanged |
| SyncTaxonomies.SecondSyncWritesNothing | scripts/syncTaxonomiesToDictionary.js:7 | syncing a locale twice: the second sync writes nothing |
| SyncTaxonomies.Run | scripts/syncTaxonomiesToDictionary.js:100-114 | the run's store is the snapshot with its writes applied (partners: RunIsIdempotent, RunCompletes) |
| SyncTaxonomies.TaxonomyCandidatesKept | scripts/syncTaxonomiesToDictionary.js:62-64 | no entry insert changes the taxonomy entries a later locale reads |
| SyncTaxonomies.RunIsIdempotent | scripts/syncTaxonomiesToDictionary.js:7 | a second run of the script writes nothing and leaves the store as the first run left it |
| SyncTaxonomies.RunCompletes | scripts/syncTaxonomiesToDictionary.js:100-114 | after a run, every configured locale that had a dictionary keeps its old entries as a prefix and holds the key of every taxonomy document with a slug |
| NewsroomArticle.ValidateHeroImage | schemaTypes/newsroomArticle.ts:87-91 | invalid exactly when the hero style is `image` and there is no image |
| NewsroomArticle.CheckVideo | schemaTypes/newsroomArticle.ts:114-119 | a video passes exactly when it has a source for its provider and a poster |
| NewsroomArticle.CheckVideoReportsFirstProblem | schemaTypes/newsroomArticle.ts:114-119 | the checks report the first failing requirement, and pass when none fails |
| NewsroomArticle.ValidateHeroVideo | schemaTypes/newsroomArticle.ts:110-121 | only the `video` style is checked; there the video is required and must pass the video checks |
| NewsroomArticle.ValidateVideoEmbed | schemaTypes/newsroomArticle.ts:185-193 | an absent block is valid; a present one must pass the video checks |
| NewsroomArticle.EmbedAgreesWithHeroVideo | schemaTypes/newsroomArticle.ts:185-193 | a present embed block and a present hero video under the `video` style get the same answer |
| NewsroomArticle.Utf16Length | schemaTypes/newsroomArticle.ts:268 | the JavaScript length lies between the character count and twice it |
| NewsroomArticle.Utf16LengthBmp | schemaTypes/newsroomArticle.ts:268 | without astral characters the JavaScript length is the character count |
| NewsroomArticle.ValidateSocial | schemaTypes/newsroomArticle.ts:258-271 | only the `social` category is checked; there platform, a 70-200 caption and a post URL or media are required |
| NewsroomArticle.SocialReportsFirstProblem | schemaTypes/newsroomArticle.ts:264-270 | in the `social` category the first failing requirement is reported, and the block passes when none fails |
| SeedServices.ActiveLocalesDefault | scripts/seedServices.js:29 | without the setting only `en` is seeded |
| SeedServices.OrderOrDefault | scripts/seedServices.js:441 | `order \|\| 99`: a missing or zero order becomes 99; any other order is kept |
| SeedServices.ServiceTypeRef | scripts/seedServices.js:404-409 | a reference is found only to a taxonomy document with that value, and is found whenever one exists |
| SeedServices.DeliverableShape | scripts/seedServices.js:447-450 | in insertion order a deliverable starts with the added `_type` and keeps all of its own fields |
| SeedServices.Deliverables | scripts/seedServices.js:447-450 | one deliverable per item, in order |
| SeedServices.SeedServiceForLocale | scripts/seedServices.js:411-458 | nothing when the page exists or the taxonomy is missing; otherwise exactly one create-or-replace of the page with its id, locale, slug, content, fresh key, type reference and order, drawing one key |
| SeedServices.CreateOrReplaceStores | scripts/seedServices.js:457 | the created-or-replaced document is in the store afterwards |
| SeedServices.SeedServiceIdempotent | scripts/seedServices.js:411-422 | seeding a page twice: the second time writes nothing |
| SeedServices.ServiceIdInjective | scripts/seedServices.js:431 | with hyphen-free locales a page id names one service type and one locale |
| SeedServices.TypeRefExtended | scripts/seedServices.js:404-409 | pages added to the store do not change which taxonomy document a type refers to |
| SeedServices.SeedStep | scripts/seedServices.js:411-458 | with a hyphen-free locale, one page step only appends, keeps every seeded id holding its page, and leaves the page in the store whenever the taxonomy exists |
| SeedServices.SeedLocales | scripts/seedServices.js:482-489 | at most one write per locale, each a service page of that type in one of the locales; with hyphen-free locales, on a store whose documents with a seeded-page id are that page, the store only grows and, when the taxonomy exists, holds the page in every locale |
| SeedServices.SeedAll | scripts/seedServices.js:470-491 | only types listed at the start are seeded; with hyphen-free locales every content type whose taxonomy exists ends with its page in every configured locale |
| SeedServices.Run | scripts/seedServices.js:460-494 | every write creates a service page whose taxonomy exists; with hyphen-free locales the store only grows and every content type with a taxonomy has its page in every configured locale |
| SeedServicesOverview.OverviewKey | scripts/seedServicesOverview.js:156 | the old page's key is kept when it has one; otherwise a fresh key is drawn |
| SeedServicesOverview.ClearExisting | scripts/seedServicesOverview.js:147-154 | the old page is deleted, and its draft too unless the old page is itself a draft |
| SeedServicesOverview.SeedOverviewForLocale | scripts/seedServicesOverview.js:144-175 | the deletes are followed by one create-or-replace of the page with its id, type, locale, content and key |
| SeedServicesOverview.DeleteRemoves | scripts/seedServicesOverview.js:149 | a delete removes exactly the document with that id |
| SeedServicesOverview.CreateOrReplaceStores | scripts/seedServicesOverview.js:173 | the new page is stored, and every other document is an old one with another id |
| SeedServicesOverview.OverviewIdIsNotDraft | scripts/seedServicesOverview.js:157 | the page id is never a draft id |
| SeedServicesOverview.SeedReplacesExisting | scripts/seedServicesOverview.js:144-175 | afterwards the new page is stored; the old page and its draft are gone unless replaced by it; nothing else is added |
| SeedServicesOverview.SeedKeepsTranslationKey | scripts/seedServicesOverview.js:156 | the new page always has a key, and it is the old page's key when that had one |
| SeedServicesOverview.SeedLocales | scripts/seedServicesOverview.js:184-190 | at least one write per locale, each locale on the store the previous left (partner: SeedLocalesSettle) |
| SeedServicesOverview.Run | scripts/seedServicesOverview.js:177-194 | the run's store is the snapshot with its writes applied, with at least one write per locale (partner: RunSettles) |
| SeedServicesOverview.OverviewIdInjective | scripts/seedServicesOverview.js:157 | different locales have different page ids |
| SeedServicesOverview.SeedStepStore | scripts/seedServicesOverview.js:144-175 | a locale's seed is the clearing deletes followed by the create-or-replace |
| SeedServicesOverview.OwnStepSettles | scripts/seedServicesOverview.js:144-175 | after a locale's seed its page is the only document under its id, with type, locale, content and a key, the old page's key when that had one |
| SeedServicesOverview.OtherStepKeeps | scripts/seedServicesOverview.js:144-175 | seeding another locale never deletes or replaces a settled page |
| SeedServicesOverview.OtherStepKeepsFirst | scripts/seedServicesOverview.js:139-141 | when the pages follow the id scheme, seeding another locale keeps the scheme and the page the query finds for this locale |
| SeedServicesOverview.OwnStepKeepsScheme | scripts/seedServicesOverview.js:157-173 | a locale's seed keeps every page under its locale's id or that id's draft |
| SeedServicesOverview.SeedLocalesKeep | scripts/seedServicesOverview.js:184-190 | seeding locales other than `l` keeps `l`'s settled page |
| SeedServicesOverview.SeedLocalesPages | scripts/seedServicesOverview.js:184-190 | every listed locale, repeated or not, ends with its page as the only document under its id |
| SeedServicesOverview.SeedLocalesKeys | scripts/seedServicesOverview.js:184-190 | with distinct locales on a store whose pages follow the id scheme, each locale's page keeps the key of the page the query found at the start |
| SeedServicesOverview.KeysLift | scripts/seedServicesOverview.js:139-141 | a page that keeps the key found after the first locale's seed keeps the key found at the start |
| SeedServicesOverview.SeedLocalesSettle | scripts/seedServicesOverview.js:184-190 | every listed locale ends with its page; with distinct locales on a store whose pages follow the id scheme, each page keeps the translation key of the page the query found at the start |
| SeedServicesOverview.RunSettles | scripts/seedServicesOverview.js:6 | the run creates or updates the page of every configured locale; with distinct locales and the id scheme, each page keeps its old translation key |
| SyncTrustedByRefs.FirstSibling | scripts/syncTrustedByPortfolioLocaleRefs.js:43-49 | the sibling found is a portfolio with the key in the locale, and none is found only when none exists |
| SyncTrustedByRefs.SiblingId | scripts/syncTrustedByPortfolioLocaleRefs.js:40-52 | an id is returned only for a key and locale that are set, naming a sibling; when a sibling exists and ids are non-empty one is returned |
| SyncTrustedByRefs.Decide | scripts/syncTrustedByPortfolioLocaleRefs.js:96-135 | each outcome holds exactly in its case: no portfolio when unresolved or id-less; already ok in the same locale or when the reference is the sibling; no key or no sibling for a foreign portfolio lacking them; otherwise a fix to the sibling found |
| SyncTrustedByRefs.FixFindsSibling | scripts/syncTrustedByPortfolioLocaleRefs.js:108-135 | a fix is decided only for a portfolio in another locale, and targets a portfolio of the document's own locale with the same key that it does not reference yet |
| SyncTrustedByRefs.TargetOkMeansAlreadyOk | scripts/syncTrustedByPortfolioLocaleRefs.js:108-111 | a document whose portfolio resolves in its own locale is already ok |
| SyncTrustedByRefs.PatchPortfolioWorkRef | scripts/syncTrustedByPortfolioLocaleRefs.js:54-80 | nothing for a missing id or target or in a dry run; otherwise the reference patch for both states |
| SyncTrustedByRefs.DocWrites | scripts/syncTrustedByPortfolioLocaleRefs.js:132-142 | a fix writes exactly the re-pointing patch for both states (nothing in a dry run); any other outcome writes nothing |
| SyncTrustedByRefs.RepairLoop | scripts/syncTrustedByPortfolioLocaleRefs.js:96-143 | every checked document is counted under exactly one outcome; the writes are reference patches, at most two per fix, none in a dry run |
| SyncTrustedByRefs.SnapshotWrites | scripts/syncTrustedByPortfolioLocaleRefs.js:96-143 | a write is listed exactly when it is one of some document's writes, decided on the starting store |
| SyncTrustedByRefs.RepairLoopUsesSnapshot | scripts/syncTrustedByPortfolioLocaleRefs.js:96-143 | the loop writes exactly what the documents' decisions on the starting store ask for: earlier patches never change a later decision |
| SyncTrustedByRefs.FetchCandidates | scripts/syncTrustedByPortfolioLocaleRefs.js:24-38 | the candidates are exactly the trustedBy documents with a portfolio reference |
| SyncTrustedByRefs.Run | scripts/syncTrustedByPortfolioLocaleRefs.js:82-160 | every fetched document is counted; a dry run leaves the store unchanged |
| SyncTrustedByRefs.RunWrites | scripts/syncTrustedByPortfolioLocaleRefs.js:82-143 | the run writes the fetched candidates' decided writes, in order, decided on the store before the run |
| SyncTrustedByRefs.RunWritesAreFixes | scripts/syncTrustedByPortfolioLocaleRefs.js:96-142 | a write is issued exactly when it is the re-pointing patch of a stored candidate that needs a fix |
| SyncTrustedByRefs.RefPatchesKeepSkeleton | scripts/syncTrustedByPortfolioLocaleRefs.js:54-80 | re-pointing references changes nothing the decisions read |
| SyncTrustedByRefs.DryRunLoopReportsTheSame | scripts/syncTrustedByPortfolioLocaleRefs.js:96-143 | the loop counts the same in a dry run as in a real run |
| SyncTrustedByRefs.DryRunReportsTheSame | scripts/syncTrustedByPortfolioLocaleRefs.js:60-63 | a dry run reports exactly the counters of a real run while writing nothing |
| SyncTrustedByRefs.PatchedDocStored | scripts/syncTrustedByPortfolioLocaleRefs.js:65-79 | after the patch the document is stored in its patched form |
| SyncTrustedByRefs.SiblingResolves | scripts/syncTrustedByPortfolioLocaleRefs.js:122-141 | with unique ids, the sibling a fix points at dereferences to a portfolio in the document's locale |
| SyncTrustedByRefs.FixSticks | scripts/syncTrustedByPortfolioLocaleRefs.js:108-141 | after a fix the patched document is stored, references the sibling and is decided already ok |
| BackfillTranslationKeys.FindPortfolio | scripts/backfillPortfolioTranslationKeys.js:80-85 | the first portfolio with the slug in the locale, and none only when none exists |
| BackfillTranslationKeys.TargetKey | scripts/backfillPortfolioTranslationKeys.js:137 | the Latvian key, else the English key, else a fresh one (drawn only then) |
| BackfillTranslationKeys.PatchTranslationKey | scripts/backfillPortfolioTranslationKeys.js:87-109 | nothing for a missing id or key; otherwise the key patch for both states |
| BackfillTranslationKeys.BackfillPair | scripts/backfillPortfolioTranslationKeys.js:114-157 | nothing when either document is missing; a pair already holding the target key is skipped; otherwise exactly the key patches of both documents, with the target key |
| BackfillTranslationKeys.PatchKeyEffect | scripts/backfillPortfolioTranslationKeys.js:87-109 | exactly the variants of the id get the key |
| BackfillTranslationKeys.BackfillPairEffect | scripts/backfillPortfolioTranslationKeys.js:154-156 | after a pair's patches every state of both documents carries the key, and no other document changes |
| BackfillTranslationKeys.FindIgnoresKeys | scripts/backfillPortfolioTranslationKeys.js:80-85 | finding a portfolio reads only its type, locale and slug |
| BackfillTranslationKeys.BackfillPairIdempotent | scripts/backfillPortfolioTranslationKeys.js:139-142 | backfilling a pair twice: the second time writes nothing |
| BackfillTranslationKeys.BackfillPairSharesKey | scripts/backfillPortfolioTranslationKeys.js:139-157 | after a pair's writes only translation keys changed, documents outside the pair are unchanged, and a found pair shares the target key |
| BackfillTranslationKeys.BackfillPairs | scripts/backfillPortfolioTranslationKeys.js:111-160 | pairs run in turn on the store the previous left; every write sets a translation key and nothing else |
| BackfillTranslationKeys.BackfillPairsShareKeys | scripts/backfillPortfolioTranslationKeys.js:111-160 | over a list of pairs only keys change, documents no pair touches are unchanged, and every found pair not touched by a later pair ends up sharing one key |
| BackfillTranslationKeys.Run | scripts/backfillPortfolioTranslationKeys.js:111-160 | the run's store is the snapshot with its writes applied; every write is a key patch |
| BackfillTranslationKeys.RunSharesKeys | scripts/backfillPortfolioTranslationKeys.js:111-160 | after the run only keys changed, untouched documents are unchanged, and every found pair not touched by a later pair shares one key |
| Sequences.DedupFrom | scripts/syncLandingTrustedByLocales.mjs:282-297 | the seen-set loop keeps each element once, and keeps exactly the elements not seen before |
| Sequences.DedupFromAppend | scripts/syncLandingTrustedByLocales.mjs:285-295 | scanning two lists with one seen set equals scanning the first, then the second with the first's elements seen |
| Sequences.DedupFromFirstOccurrenceOrder | scripts/syncLandingTrustedByLocales.mjs:282-297 | kept elements appear in the order of their first occurrence |
| Sequences.DedupFromDistinct | scripts/syncLandingTrustedByLocales.mjs:285-289 | a list without duplicates is kept as is, minus what was seen |
| LandingGroups.BuildPortfolioMap | scripts/syncLandingTrustedByLocales.mjs:211-227 | the missing count is the number of portfolios without a translation key |
| LandingGroups.PortfolioMapKeepsLast | scripts/syncLandingTrustedByLocales.mjs:215-224 | a key and locale are mapped exactly when some portfolio is filed under them, and they hold the last such portfolio |
| LandingGroups.BuildIndex | scripts/syncLandingTrustedByLocales.mjs:229-262 | the groups are keyed, in first-seen order, by the distinct truthy portfolio keys |
| LandingGroups.IndexKeepsPreferred | scripts/syncLandingTrustedByLocales.mjs:243-258 | a group and locale are held exactly when some document is filed under them; the first published one is kept, else the first draft |
| LandingGroups.IndexCountsMissing | scripts/syncLandingTrustedByLocales.mjs:235-238 | the missing count is the number of documents whose portfolio has no translation key |
| LandingGroups.IndexCountsDuplicates | scripts/syncLandingTrustedByLocales.mjs:251-254 | one duplicate is recorded per document that meets an earlier one of its group and locale |
| LandingGroups.TruthyValues | scripts/syncLandingTrustedByLocales.mjs:269-270 | exactly the defined non-empty keys survive |
| LandingGroups.ExtractOrderSpec | scripts/syncLandingTrustedByLocales.mjs:264-276 | a landing's order is its truthy keys, each once, in first-occurrence order |
| LandingGroups.MergePass | scripts/syncLandingTrustedByLocales.mjs:285-295 | one pass adds its list to the seen set and appends exactly its unseen keys, each once |
| LandingGroups.CanonicalOrderSpec | scripts/syncLandingTrustedByLocales.mjs:278-298 | the canonical order is the de-duplicated `en` order followed by `lv`; it has no duplicates and holds exactly the keys of both |
| LandingGroups.Extras | scripts/syncLandingTrustedByLocales.mjs:304-308 | the extras are the unseen group keys, each named after its `en` document, else its `lv` one, else empty |
| LandingGroups.Insert | scripts/syncLandingTrustedByLocales.mjs:310 | inserting adds exactly the one element |
| LandingGroups.SortByName | scripts/syncLandingTrustedByLocales.mjs:310 | the sort keeps exactly the elements, with multiplicity |
| LandingGroups.SortByNameSpec | scripts/syncLandingTrustedByLocales.mjs:310 | the sort orders by the names' collation rank, is a permutation, and keeps equal-ranked extras in their original order |
| LandingGroups.InsertSorted | scripts/syncLandingTrustedByLocales.mjs:310 | inserting into a name-sorted list keeps it sorted |
| LandingGroups.InsertStable | scripts/syncLandingTrustedByLocales.mjs:310 | an inserted element goes after every element of equal rank |
| LandingGroups.SortSorted | scripts/syncLandingTrustedByLocales.mjs:310 | the result is ordered by collation rank |
| LandingGroups.SortStable | scripts/syncLandingTrustedByLocales.mjs:310 | elements of equal rank keep their input order |
| LandingGroups.SortDistinct | scripts/syncLandingTrustedByLocales.mjs:310 | sorting extras with distinct keys keeps the keys distinct |
| LandingGroups.ExtendOrderSpec | scripts/syncLandingTrustedByLocales.mjs:300-313 | the order is kept as a prefix; the tail is exactly the missing group keys, without duplicates, sorted by name |
| LandingSync.View | scripts/syncLandingTrustedByLocales.mjs:84-105 | a fetched trustedBy document carries its dereferenced portfolio |
| LandingSync.LandingDocs | scripts/syncLandingTrustedByLocales.mjs:49-65 | one dereference per landing reference, in order |
| LandingSync.FetchTrustedBy | scripts/syncLandingTrustedByLocales.mjs:84-105 | every fetched document is a stored trustedBy document in `en` or `lv` with a portfolio reference, paired with its dereferenced portfolio |
| LandingSync.SlugCount | scripts/syncLandingTrustedByLocales.mjs:136-141 | the count is zero exactly when no trustedBy document in the locale has the slug |
| LandingSync.EnsureUniqueSlug | scripts/syncLandingTrustedByLocales.mjs:132-152 | a blank desired slug gives `locale-` and 8 characters of a fresh key; a free trimmed slug is kept; a taken one gets `-locale` when that is free, else `-locale-` and 8 characters of a fresh key; only the random branches draw a key |
| LandingSync.SanitizeId | scripts/syncLandingTrustedByLocales.mjs:190 | only `[a-zA-Z0-9_.-]` remains; every other character becomes `_` |
| LandingSync.SanitizeIdSettles | scripts/syncLandingTrustedByLocales.mjs:190 | sanitising a sanitised id changes nothing |
| LandingSync.CreateTrustedBy | scripts/syncLandingTrustedByLocales.mjs:154-209 | a document is made exactly when portfolio, name and logo are present; it carries the group's key, the base's fields and the portfolio reference; a dry run writes nothing and uses the fake id |
| LandingSync.SiblingPatch | scripts/syncLandingTrustedByLocales.mjs:471-481 | the key is set only when it differs, the reference only when it differs; the patch is empty exactly when both already match |
| LandingSync.SiblingPatchSettles | scripts/syncLandingTrustedByLocales.mjs:471-489 | after the patch the sibling needs no further patch |
| LandingSync.CreatedNeedsNoPatch | scripts/syncLandingTrustedByLocales.mjs:452-469 | a created sibling already has the group's key and portfolio |
| LandingSync.SyncGroupLocale | scripts/syncLandingTrustedByLocales.mjs:440-491 | no portfolio sibling: no write; a held document: exactly the both-state sibling patch unless it is empty or a dry run; a missing one: exactly the create of `createTrustedBy`, filed in the group when made; writes leave `trustedBy` lists and the landing counter alone |
| LandingSync.CreateSibling | scripts/syncLandingTrustedByLocales.mjs:452-469 | a missing sibling: exactly the writes of `createTrustedBy`; when a document is made it is filed in the group under the locale, otherwise nothing changes |
| LandingSync.PatchSibling | scripts/syncLandingTrustedByLocales.mjs:470-489 | a held sibling: exactly the both-state patch of the differing fields, none when nothing differs or in a dry run; groups and keys are unchanged |
| LandingSync.GroupKey | scripts/syncLandingTrustedByLocales.mjs:438 | the base's key when truthy, otherwise a fresh one |
| LandingSync.ToRef | scripts/syncLandingTrustedByLocales.mjs:38-40 | the reference targets the id; its key is the given key when non-empty, otherwise a freshly drawn one |
| LandingSync.SyncGroup | scripts/syncLandingTrustedByLocales.mjs:419-492 | a group only creates trustedBy documents or patches that leave `trustedBy` lists alone, and writes nothing in a dry run |
| LandingSync.SyncGroups | scripts/syncLandingTrustedByLocales.mjs:419-492 | the loop's store is the snapshot with its writes applied; no write touches a `trustedBy` list; a dry run writes nothing |
| LandingSync.SyncGroupLocaleOutcome | scripts/syncLandingTrustedByLocales.mjs:450-469 | a locale step adds at most one document, with an id, in a locale the group lacked, and adds it whenever it can be created |
| LandingSync.SyncGroupLocaleFrame | scripts/syncLandingTrustedByLocales.mjs:440-491 | one locale step leaves other groups and documents already held unchanged, and fills its locale whenever it can create |
| LandingSync.SyncGroupLocaleStored | scripts/syncLandingTrustedByLocales.mjs:440-491 | in a real run a locale step keeps every document the groups hold in the store |
| LandingSync.SyncGroupFrame | scripts/syncLandingTrustedByLocales.mjs:419-492 | a group step leaves other groups unchanged, keeps its held locales, and fills every ready `en`/`lv` locale |
| LandingSync.SyncGroupsFills | scripts/syncLandingTrustedByLocales.mjs:419-492 | over a duplicate-free order, held documents stay and every group locale that can be created is filled |
| LandingSync.SyncGroupsStored | scripts/syncLandingTrustedByLocales.mjs:419-492 | in a real run the loop keeps every document the groups hold in the store |
| LandingSync.RunLoopStored | scripts/syncLandingTrustedByLocales.mjs:419-492 | in a real run every document the groups hold after the loop is in the loop's final store |
| LandingSync.LandingRefs | scripts/syncLandingTrustedByLocales.mjs:498-505 | a landing never gets more references than the order has groups |
| LandingSync.LandingRefsSound | scripts/syncLandingTrustedByLocales.mjs:498-505 | each reference is keyed by a group of the order that has a document in the landing's locale, and targets that document's id without the `drafts.` prefix; no random key is drawn |
| LandingSync.LandingRefsCover | scripts/syncLandingTrustedByLocales.mjs:498-505 | every group of the order with a document in the locale is referenced |
| LandingSync.LandingRefsOrdered | scripts/syncLandingTrustedByLocales.mjs:498-505 | the references follow the canonical order |
| LandingSync.LandingRefsDistinct | scripts/syncLandingTrustedByLocales.mjs:498-505 | no group is referenced twice |
| LandingSync.LandingRefsComplete | scripts/syncLandingTrustedByLocales.mjs:498-505 | when every group has a document, the landing lists exactly the order |
| LandingSync.LandingWrites | scripts/syncLandingTrustedByLocales.mjs:511 | a dry run writes nothing; otherwise the reference list is set on both states of the landing |
| LandingSync.Run | scripts/syncLandingTrustedByLocales.mjs:354-528 | aborts exactly when a landing is missing or has no id; otherwise the group loop's writes come first and the last four set both landings' reference lists on both states; a dry run writes nothing; two landings are counted |
| LandingSync.LandingOrderSpec | scripts/syncLandingTrustedByLocales.mjs:264-276 | a landing's order has no duplicates and no empty key |
| LandingSync.CanonicalOfLandings | scripts/syncLandingTrustedByLocales.mjs:278-298 | the canonical order is the `en` order, then the `lv` keys it lacks; no key twice, none empty |
| LandingSync.ExtendedOrderSpec | scripts/syncLandingTrustedByLocales.mjs:300-313 | extending keeps the order as a prefix and adds exactly the missing indexed keys, none twice, none empty |
| LandingSync.RunOrderSpec | scripts/syncLandingTrustedByLocales.mjs:403-408 | the walked order has no duplicates or empty keys; it is the canonical order, extended only when asked |
| LandingSync.IndexHoldsFetched | scripts/syncLandingTrustedByLocales.mjs:229-262 | the index holds only fetched documents |
| LandingSync.RunLandingRefs | scripts/syncLandingTrustedByLocales.mjs:494-513 | each landing names each group at most once, in the canonical order, pointing at the published id of the group's document in its locale, and lists every group that has one |
| LandingSync.RunLandingsAgree | scripts/syncLandingTrustedByLocales.mjs:419-513 | when every group held or could create both siblings, both landings list exactly the canonical order |
| LandingSync.RunRefsStored | scripts/syncLandingTrustedByLocales.mjs:494-513 | in a real run every landing reference points at the published id of a document in the final store |

## Left out

- Network I/O, `try`/`catch`, retries and all logging are left out. A query is a pure function of the snapshot; a write that fails is modelled as a write to a missing id, which changes nothing.
- The credential checks and `process.exit` calls at start-up are left out; the landing sync's abort is modelled as the `Aborted` outcome.
- GROQ `order(...)` clauses are left out: a query returns documents in store order, which stands for the order the query asks for. The same holds for `order(_updatedAt desc)[0]`.
- `Promise.all` is modelled as sequential reads of one snapshot; the reads do not write, so the order does not matter.
- `crypto.randomUUID()` and the `Date.now()`/`Math.random()` fallback are modelled as a key supply (`Documents.Keys`). The id the server assigns to a created document is modelled as a fresh key from the same supply.
- `String.prototype.normalize('NFKD')` and the diacritic strip of the slugifier are left out: the input is taken as already normalised. Unicode tables are outside the model; the ASCII filter that follows is exact.
- `localeCompare` is modelled as an abstract collation rank (`rank: string -> int`); the sort is modelled as a stable sort by that rank.
- `reportMissingTrustedByGroups` and `PRINT_MISSING_GROUPS_LIMIT` only log, so they are left out.
- `trustedByDocs.push(createdDoc)` is left out, because nothing reads the list afterwards.
- LandingSync.CreateTrustedBy: a created document keeps its `portfolioWork` reference, whereas the real run's `client.create` result has no `portfolioRef` projection. This never matters, because the walked order has no duplicates and a group is never revisited.
- LandingSync.EnsureUniqueSlug: a dry run's slug check reads the live store, as the source does, so it does not see documents the dry run would have created.
- LandingSync.Run: idempotence of the landing sync is not claimed. The landing patch at scripts/syncLandingTrustedByLocales.mjs:511 is issued on every run, and no lemma relates a second run to the first.
- The service and overview copy (the large content literals) is a parameter of the model, not transcribed.
- Dictionary entries' `_type: 'entry'` is implicit in the `Entry` datatype.
- A taxonomy document's `value.current` is modelled as `Doc.slug`.
- SeedServicesOverview.RunSettles: the kept translation key is proved for distinct configured locales on a store whose overview pages have their locale's page id or its draft id. With a repeated locale the second seed may read another old page of that locale; with other ids an earlier locale's deletes could remove this locale's old page first. Every locale ends with its page in any case.
- SeedServicesOverview.SeedLocalesSettle: the kept translation key is proved under the same two conditions as RunSettles, for the same reasons.
- Objects.Put: property order is insertion order. JavaScript lists array-index names such as `"0"` first, in ascending order; no caller uses such names, so that rule is not modelled.
- Objects.SpreadNames: the spread's order is insertion order; array-index names, which JavaScript lists first, are not modelled.
- I18n.InitialValueShape: `locale` and `translationKey` are first in insertion order. A base value with an array-index name such as `"0"` would be listed before them in JavaScript; no schema passes such a name.
- SeedServices.DeliverableShape: `_type` is first in insertion order. An item with an array-index name would be listed before it in JavaScript; the seeded items have named fields only.
- SeedServicesOverview.SeedOverviewForLocale follows the code, not the file's header comment: the header says existing documents are not overwritten, but the code deletes the old page and writes a new one.
- SeedServices.SeedServiceIdempotent: "never overwrite" holds for a page with the same locale and slug; `createOrReplace` can still replace a document that has the seeded id but another slug.
- SeedServices.SeedLocales: page coverage is proved for hyphen-free locale codes on a store whose documents with a seeded-page id are that page. Otherwise `service-a-b-c` could name two pages, and `createOrReplace` could replace another page.
- SeedServices.SeedAll: page coverage is proved for hyphen-free locale codes on a store whose documents with a seeded-page id are that page. Otherwise `service-a-b-c` could name two pages, and `createOrReplace` could replace another page.
- SeedServices.Run: page coverage is proved for hyphen-free locale codes on a store whose documents with a seeded-page id are that page. Otherwise `service-a-b-c` could name two pages, and `createOrReplace` could replace another page.
- BackfillTranslationKeys.Run: key sharing is proved for pairs that no later pair touches, with non-empty document ids and a key supply that never yields an empty key. When two pairs share a document, the later pair's key wins, and the earlier pair is not claimed to share.
- BackfillTranslationKeys.BackfillPairs: key sharing is proved for pairs that no later pair touches, with non-empty document ids and a key supply that never yields an empty key. When two pairs share a document, the later pair's key wins, and the earlier pair is not claimed to share.
- LandingSync.SyncGroup: no closed form is given for the whole write list. The writes are stated per locale by SyncGroupLocale, and the loop's effect by SyncGroupFrame, SyncGroupsFills and SyncGroupsStored. The last holds for real runs only, because a dry run files fake ids that are never stored.
- LandingSync.SyncGroups: no closed form is given for the whole write list. The writes are stated per locale by SyncGroupLocale, and the loop's effect by SyncGroupFrame, SyncGroupsFills and SyncGroupsStored. The last holds for real runs only, because a dry run files fake ids that are never stored.
- LandingSync.RunRefsStored: a reference points at a published id. When only a draft exists, the id names that draft's base, which need not be stored itself.
- SyncTrustedByRefs.FixSticks requires unique document ids in the store, which the CMS guarantees and the model does not otherwise enforce.
- The Studio UI files (desk structure, document actions, the remaining schema types), `seedOptions.js` and `listPortfolioDocs.js` are not part of this model.

## Findings

| source | as written | input that shows it | evidently intended | confidence | as-written member | corrected member |
|---|---|---|---|---|---|---|
| schemaTypes/i18n.ts:33 | `_id.replace('drafts.', '')` removes the first `drafts.` anywhere in the id | a document with id `a.drafts.b` and slug `x` is counted against itself and reported as not unique | strip a leading `drafts.` only, as every script does with `/^drafts\./` | low, not executed | I18n.AsWrittenClashesWithItself | I18n.IsUniqueSlugWithinLocale |
