/**
 * The services-overview seed: in every configured locale, the existing
 * overview page (and its draft) is deleted and the page is written afresh
 * from the content, keeping the old page's translation key.
 */
module SeedServicesOverview {
  import opened Wrappers
  import opened Text
  import opened Objects
  import opened Documents
  import opened Sequences

  const OverviewType: string := "servicesOverview"

  /** The overview page's content sections; the copy itself is a parameter of the model. */
  datatype OverviewContent = OverviewContent(
    header: Value,
    sellingPoints: Value,
    testimonialsHeader: Value,
    process: Value,
    deliverablesSection: Value)

  /** The locales to seed when `SANITY_ACTIVE_LOCALES` is unset or empty. */
  const DefaultLocales: string := "en"

  function OverviewId(locale: string): string {
    "servicesOverview-" + locale
  }

  /** The content sections, in the order the page lists them. */
  function Sections(content: OverviewContent): Object {
    [ Field("header", content.header),
      Field("sellingPoints", content.sellingPoints),
      Field("testimonialsHeader", content.testimonialsHeader),
      Field("process", content.process),
      Field("deliverablesSection", content.deliverablesSection) ]
  }

  /** The existing page's translation key, else a fresh one (drawn only then). */
  function OverviewKey(existing: Option<Doc>, keys: Keys): (r: (string, Keys))
    ensures existing.Some? && Truthy(existing.value.translationKey) ==> r == (existing.value.translationKey.value, keys)
    ensures !(existing.Some? && Truthy(existing.value.translationKey)) ==> r == (keys.Fresh(), keys.Advance())
  {
    if existing.Some? && Truthy(existing.value.translationKey) then (existing.value.translationKey.value, keys)
    else (keys.Fresh(), keys.Advance())
  }

  /** The deletes that clear the existing page: its id, and its draft unless it is a draft itself. */
  function ClearExisting(existing: Option<Doc>): (ws: seq<Write>)
    ensures existing.None? ==> ws == []
    ensures existing.Some? && IsDraftId(existing.value.id) ==> ws == [Delete(existing.value.id)]
    ensures existing.Some? && !IsDraftId(existing.value.id) ==> ws == [Delete(existing.value.id), Delete(DraftId(existing.value.id))]
  {
    match existing
    case None => []
    case Some(e) => [Delete(e.id)] + (if IsDraftId(e.id) then [] else [Delete(DraftId(e.id))])
  }

  /** `seedServicesOverviewForLocale`: the deletes, then the create-or-replace of the new page. */
  function SeedOverviewForLocale(s: Store, locale: string, content: OverviewContent, keys: Keys): (r: (seq<Write>, Keys))
    ensures |r.0| >= 1 && r.0[|r.0| - 1].CreateOrReplace?
    ensures var d := r.0[|r.0| - 1].doc;
      var existing := FirstOfTypeInLocale(s, OverviewType, locale);
      && d.id == OverviewId(locale) && d.docType == OverviewType && d.locale == Some(locale)
      && d.body == Sections(content)
      && d.translationKey == Some(OverviewKey(existing, keys).0)
      && r.0[..|r.0| - 1] == ClearExisting(existing)
  {
    var existing := FirstOfTypeInLocale(s, OverviewType, locale);
    var (key, keys') := OverviewKey(existing, keys);
    var d := NewDoc(OverviewId(locale), OverviewType).(locale := Some(locale), translationKey := Some(key), body := Sections(content));
    var ws := ClearExisting(existing) + [CreateOrReplace(d)];
    assert ws[..|ws| - 1] == ClearExisting(existing);
    (ws, keys')
  }

  lemma DeleteRemoves(s: Store, id: string)
    ensures forall d :: d in Apply(s, Delete(id)) <==> d in s && d.id != id
  {
  }

  lemma CreateOrReplaceStores(s: Store, d: Doc)
    ensures d in Apply(s, CreateOrReplace(d))
    ensures forall e :: e in Apply(s, CreateOrReplace(d)) ==> e == d || (e in s && e.id != d.id)
  {
    var r := Apply(s, CreateOrReplace(d));
    if d.id in Ids(s) {
      var i :| 0 <= i < |s| && Ids(s)[i] == d.id;
      assert r[i] == d;
    } else {
      assert r[|s|] == d;
      assert forall e :: e in s ==> e.id in Ids(s);
    }
  }

  /** An overview page id is never a draft id, so the deletes never remove the new page. */
  lemma OverviewIdIsNotDraft(locale: string)
    ensures !IsDraftId(OverviewId(locale))
  {
    assert OverviewId(locale)[0] == 's';
  }

  /**
   * After a locale's seed the new page is in the store; the old page and
   * its draft are gone, unless the old page had the new page's id and was
   * replaced by it.
   */
  lemma SeedReplacesExisting(s: Store, locale: string, content: OverviewContent, keys: Keys)
    requires FirstOfTypeInLocale(s, OverviewType, locale).Some?
    ensures var r := SeedOverviewForLocale(s, locale, content, keys);
      var after := ApplyAll(s, r.0);
      var old_ := FirstOfTypeInLocale(s, OverviewType, locale).value;
      var created := r.0[|r.0| - 1].doc;
      && created in after
      && (forall d :: d in after && d.id == old_.id ==> d == created)
      && (!IsDraftId(old_.id) ==> forall d :: d in after ==> d.id != DraftId(old_.id))
      && (forall d :: d in after ==> d == created || d in s)
  {
    var r := SeedOverviewForLocale(s, locale, content, keys);
    var ex := FirstOfTypeInLocale(s, OverviewType, locale).value;
    var created := r.0[|r.0| - 1].doc;
    OverviewIdIsNotDraft(locale);
    var s1 := Apply(s, Delete(ex.id));
    DeleteRemoves(s, ex.id);
    if IsDraftId(ex.id) {
      assert r.0 == [Delete(ex.id), CreateOrReplace(created)];
      var s2 := Apply(s1, CreateOrReplace(created));
      assert ApplyAll(s, r.0) == s2 by {
        var t1 := r.0[1..];
        assert t1 == [CreateOrReplace(created)];
        assert ApplyAll(s, r.0) == ApplyAll(s1, t1);
        assert t1[1..] == [];
        assert ApplyAll(s1, t1) == ApplyAll(s2, []);
      }
      CreateOrReplaceStores(s1, created);
    } else {
      assert r.0 == [Delete(ex.id), Delete(DraftId(ex.id)), CreateOrReplace(created)];
      var s2 := Apply(s1, Delete(DraftId(ex.id)));
      DeleteRemoves(s1, DraftId(ex.id));
      var s3 := Apply(s2, CreateOrReplace(created));
      assert ApplyAll(s, r.0) == s3 by {
        var t1 := r.0[1..];
        assert t1 == [Delete(DraftId(ex.id)), CreateOrReplace(created)];
        assert ApplyAll(s, r.0) == ApplyAll(s1, t1);
        var t2 := t1[1..];
        assert t2 == [CreateOrReplace(created)];
        assert ApplyAll(s1, t1) == ApplyAll(s2, t2);
        assert t2[1..] == [];
        assert ApplyAll(s2, t2) == ApplyAll(s3, []);
      }
      CreateOrReplaceStores(s2, created);
      assert created.id != DraftId(ex.id) by {
        assert IsDraftId(DraftId(ex.id));
      }
    }
  }

  /** The page keeps the translation key of the page it replaces, which links it to its locale siblings. */
  lemma SeedKeepsTranslationKey(s: Store, locale: string, content: OverviewContent, keys: Keys)
    requires keys.Valid()
    ensures var r := SeedOverviewForLocale(s, locale, content, keys);
      var existing := FirstOfTypeInLocale(s, OverviewType, locale);
      var d := r.0[|r.0| - 1].doc;
      && Truthy(d.translationKey)
      && (existing.Some? && Truthy(existing.value.translationKey) ==> d.translationKey == existing.value.translationKey)
  {
  }

  /** `main`: every configured locale in turn. */
  function SeedLocales(s: Store, locales: seq<string>, content: OverviewContent, keys: Keys): (r: (seq<Write>, Store, Keys))
    ensures r.1 == ApplyAll(s, r.0)
    ensures |r.0| >= |locales|
    decreases |locales|
  {
    if locales == [] then ([], s, keys)
    else
      var one := SeedOverviewForLocale(s, locales[0], content, keys);
      var rest := SeedLocales(ApplyAll(s, one.0), locales[1..], content, one.1);
      ApplyAllAppend(s, one.0, rest.0);
      (one.0 + rest.0, rest.1, rest.2)
  }

  function Run(s: Store, setting: Option<string>, content: OverviewContent, keys: Keys): (r: (seq<Write>, Store, Keys))
    ensures r.1 == ApplyAll(s, r.0)
    ensures |r.0| >= |ParseList(setting, DefaultLocales)|
  {
    SeedLocales(s, ParseList(setting, DefaultLocales), content, keys)
  }

  // ---------------------------------------------------------------- whole runs

  /** Different locales have different page ids. */
  lemma OverviewIdInjective(a: string, b: string)
    requires OverviewId(a) == OverviewId(b)
    ensures a == b
  {
    assert a == OverviewId(a)[17..];
    assert b == OverviewId(b)[17..];
  }

  lemma DraftIsDraft(id: string)
    ensures IsDraftId(DraftId(id))
  {
    assert DraftId(id)[..|DraftPrefix|] == DraftPrefix;
  }

  lemma InIds(s: Store, d: Doc)
    requires d in s
    ensures d.id in Ids(s)
  {
    var i :| 0 <= i < |s| && s[i] == d;
    assert Ids(s)[i] == d.id;
  }

  /**
   * `locale`'s page is stored under its id, and every document with that
   * id is the page: of the overview type and the locale, with the content
   * and a key, the key of `existing` when that had one.
   */
  predicate Settled(s: Store, locale: string, content: OverviewContent, existing: Option<Doc>) {
    && OverviewId(locale) in Ids(s)
    && forall d :: d in s && d.id == OverviewId(locale) ==>
         && d.docType == OverviewType && d.locale == Some(locale) && d.body == Sections(content)
         && Truthy(d.translationKey)
         && (existing.Some? && Truthy(existing.value.translationKey) ==> d.translationKey == existing.value.translationKey)
  }

  /** Every overview page with a locale is that locale's page or its draft, as the seed writes them. */
  predicate OverviewIdsFollowLocales(s: Store) {
    forall d :: d in s && d.docType == OverviewType && d.locale.Some? ==> BaseId(d.id) == OverviewId(d.locale.value)
  }

  /** The store after the deletes that clear `existing`. */
  function Cleared(s: Store, existing: Option<Doc>): Store {
    match existing
    case None => s
    case Some(e) =>
      var s1 := Apply(s, Delete(e.id));
      if IsDraftId(e.id) then s1 else Apply(s1, Delete(DraftId(e.id)))
  }

  /** A locale's seed is the clearing deletes followed by the create-or-replace. */
  lemma SeedStepStore(s: Store, locale: string, content: OverviewContent, keys: Keys)
    ensures var r := SeedOverviewForLocale(s, locale, content, keys);
      ApplyAll(s, r.0) == Apply(Cleared(s, FirstOfTypeInLocale(s, OverviewType, locale)), r.0[|r.0| - 1])
  {
    var r := SeedOverviewForLocale(s, locale, content, keys);
    var ex := FirstOfTypeInLocale(s, OverviewType, locale);
    var clear := ClearExisting(ex);
    var last := r.0[|r.0| - 1];
    assert r.0 == clear + [last];
    ApplyAllAppend(s, clear, [last]);
    assert ApplyAll(s, clear) == Cleared(s, ex) by {
      if ex.Some? {
        var id := ex.value.id;
        var s1 := Apply(s, Delete(id));
        if IsDraftId(id) {
          assert clear == [Delete(id)] && clear[1..] == [];
          assert ApplyAll(s, clear) == ApplyAll(s1, []);
        } else {
          var t := [Delete(DraftId(id))];
          assert clear == [Delete(id)] + t && clear[1..] == t && t[1..] == [];
          assert ApplyAll(s, clear) == ApplyAll(s1, t);
          assert ApplyAll(s1, t) == ApplyAll(Apply(s1, Delete(DraftId(id))), []);
        }
      }
    }
    assert [last][1..] == [];
  }

  /** A delete or a create-or-replace of another id keeps what the store holds under `id`. */
  lemma AvoidingWriteKeeps(s: Store, w: Write, id: string)
    requires (w.Delete? && w.id != id) || (w.CreateOrReplace? && w.doc.id != id)
    ensures forall d :: d in Apply(s, w) && d.id == id ==> d in s
    ensures id in Ids(s) ==> id in Ids(Apply(s, w))
  {
    if id in Ids(s) {
      var i :| 0 <= i < |s| && Ids(s)[i] == id;
      if w.Delete? {
        DeleteRemoves(s, w.id);
        InIds(Apply(s, w), s[i]);
      } else if w.doc.id in Ids(s) {
        assert Apply(s, w)[i] == s[i];
        InIds(Apply(s, w), s[i]);
      } else {
        assert Apply(s, w)[i] == s[i];
        InIds(Apply(s, w), s[i]);
      }
    }
    if w.Delete? {
      DeleteRemoves(s, w.id);
    } else {
      CreateOrReplaceStores(s, w.doc);
    }
  }

  /** A create-or-replace leaves the written document the only one under its id. */
  lemma CreateOrReplaceOwns(s: Store, d: Doc)
    ensures d.id in Ids(Apply(s, CreateOrReplace(d)))
    ensures forall e :: e in Apply(s, CreateOrReplace(d)) && e.id == d.id ==> e == d
  {
    CreateOrReplaceStores(s, d);
    InIds(Apply(s, CreateOrReplace(d)), d);
  }

  /** A locale's seed settles that locale's page. */
  lemma OwnStepSettles(s: Store, locale: string, content: OverviewContent, keys: Keys)
    requires keys.Valid()
    ensures Settled(ApplyAll(s, SeedOverviewForLocale(s, locale, content, keys).0), locale, content,
                    FirstOfTypeInLocale(s, OverviewType, locale))
  {
    var r := SeedOverviewForLocale(s, locale, content, keys);
    SeedStepStore(s, locale, content, keys);
    SeedKeepsTranslationKey(s, locale, content, keys);
    CreateOrReplaceOwns(Cleared(s, FirstOfTypeInLocale(s, OverviewType, locale)), r.0[|r.0| - 1].doc);
  }

  /** The seed of another locale keeps a settled page as it is. */
  lemma OtherStepKeeps(s: Store, m: string, locale: string, content: OverviewContent, existing: Option<Doc>, keys: Keys)
    requires m != locale && Settled(s, locale, content, existing)
    ensures Settled(ApplyAll(s, SeedOverviewForLocale(s, m, content, keys).0), locale, content, existing)
  {
    var r := SeedOverviewForLocale(s, m, content, keys);
    var id := OverviewId(locale);
    var ex := FirstOfTypeInLocale(s, OverviewType, m);
    SeedStepStore(s, m, content, keys);
    OverviewIdIsNotDraft(locale);
    var c := Cleared(s, ex);
    if ex.Some? {
      var e := ex.value;
      assert e.id != id;
      var s1 := Apply(s, Delete(e.id));
      AvoidingWriteKeeps(s, Delete(e.id), id);
      if !IsDraftId(e.id) {
        DraftIsDraft(e.id);
        AvoidingWriteKeeps(s1, Delete(DraftId(e.id)), id);
      }
    }
    assert Settled(c, locale, content, existing);
    if OverviewId(m) == id {
      OverviewIdInjective(m, locale);
    }
    AvoidingWriteKeeps(c, r.0[|r.0| - 1], id);
  }

  /** Deleting an id no matching document has keeps the first match. */
  lemma {:induction false} DeleteKeepsFirst(s: Store, id: string, docType: string, locale: string)
    requires forall d :: d in s && d.docType == docType && d.locale == Some(locale) ==> d.id != id
    ensures FirstOfTypeInLocale(Apply(s, Delete(id)), docType, locale) == FirstOfTypeInLocale(s, docType, locale)
  {
    if s != [] {
      assert forall d :: d in s[1..] ==> d in s;
      DeleteKeepsFirst(s[1..], id, docType, locale);
      if s[0].id != id {
        assert Apply(s, Delete(id)) == [s[0]] + Apply(s[1..], Delete(id));
      } else {
        assert Apply(s, Delete(id)) == Apply(s[1..], Delete(id));
      }
    }
  }

  predicate IsOfTypeInLocale(d: Doc, docType: string, locale: string) {
    d.docType == docType && d.locale == Some(locale)
  }

  /** Two stores that agree on every position where either matches have the same first match. */
  lemma {:induction false} SameMatchesKeepFirst(s: Store, t: Store, docType: string, locale: string)
    requires |t| == |s|
    requires forall i :: 0 <= i < |s| && (IsOfTypeInLocale(s[i], docType, locale) || IsOfTypeInLocale(t[i], docType, locale)) ==>
      t[i] == s[i]
    ensures FirstOfTypeInLocale(t, docType, locale) == FirstOfTypeInLocale(s, docType, locale)
  {
    if s != [] {
      assert forall i :: 0 <= i < |s| - 1 ==> s[1..][i] == s[i + 1] && t[1..][i] == t[i + 1];
      SameMatchesKeepFirst(s[1..], t[1..], docType, locale);
    }
  }

  /** A document added at the end that does not match leaves the first match alone. */
  lemma {:induction false} AppendKeepsFirst(s: Store, d: Doc, docType: string, locale: string)
    requires !(d.docType == docType && d.locale == Some(locale))
    ensures FirstOfTypeInLocale(s + [d], docType, locale) == FirstOfTypeInLocale(s, docType, locale)
  {
    if s != [] {
      assert (s + [d])[1..] == s[1..] + [d];
      AppendKeepsFirst(s[1..], d, docType, locale);
    }
  }

  /** A create-or-replace of a non-matching document under an id no matching document has keeps the first match. */
  lemma CreateOrReplaceKeepsFirst(s: Store, d: Doc, docType: string, locale: string)
    requires !(d.docType == docType && d.locale == Some(locale))
    requires forall e :: e in s && e.docType == docType && e.locale == Some(locale) ==> e.id != d.id
    ensures FirstOfTypeInLocale(Apply(s, CreateOrReplace(d)), docType, locale) == FirstOfTypeInLocale(s, docType, locale)
  {
    if d.id in Ids(s) {
      SameMatchesKeepFirst(s, Apply(s, CreateOrReplace(d)), docType, locale);
    } else {
      AppendKeepsFirst(s, d, docType, locale);
    }
  }

  /**
   * On a store whose pages follow the id scheme, the seed of another locale
   * keeps the scheme and the first page of `locale`.
   */
  lemma OtherStepKeepsFirst(s: Store, m: string, locale: string, content: OverviewContent, keys: Keys)
    requires m != locale && OverviewIdsFollowLocales(s)
    ensures var s' := ApplyAll(s, SeedOverviewForLocale(s, m, content, keys).0);
      && OverviewIdsFollowLocales(s')
      && FirstOfTypeInLocale(s', OverviewType, locale) == FirstOfTypeInLocale(s, OverviewType, locale)
  {
    var r := SeedOverviewForLocale(s, m, content, keys);
    var ex := FirstOfTypeInLocale(s, OverviewType, m);
    SeedStepStore(s, m, content, keys);
    OverviewIdIsNotDraft(m);
    var c := Cleared(s, ex);
    if ex.Some? {
      var e := ex.value;
      var s1 := Apply(s, Delete(e.id));
      forall d | d in s && d.docType == OverviewType && d.locale == Some(locale) ensures d.id != e.id {
        if d.id == e.id {
          OverviewIdInjective(m, locale);
        }
      }
      DeleteKeepsFirst(s, e.id, OverviewType, locale);
      DeleteRemoves(s, e.id);
      if !IsDraftId(e.id) {
        BaseOfDraft(e.id);
        forall d | d in s1 && d.docType == OverviewType && d.locale == Some(locale) ensures d.id != DraftId(e.id) {
          if d.id == DraftId(e.id) {
            OverviewIdInjective(m, locale);
          }
        }
        DeleteKeepsFirst(s1, DraftId(e.id), OverviewType, locale);
        DeleteRemoves(s1, DraftId(e.id));
      }
    }
    assert OverviewIdsFollowLocales(c);
    assert FirstOfTypeInLocale(c, OverviewType, locale) == FirstOfTypeInLocale(s, OverviewType, locale);
    var d := r.0[|r.0| - 1].doc;
    forall e | e in c && e.docType == OverviewType && e.locale == Some(locale) ensures e.id != d.id {
      if e.id == d.id {
        OverviewIdInjective(m, locale);
      }
    }
    CreateOrReplaceKeepsFirst(c, d, OverviewType, locale);
    CreateOrReplaceStores(c, d);
  }

  /** A locale's seed keeps the id scheme. */
  lemma OwnStepKeepsScheme(s: Store, locale: string, content: OverviewContent, keys: Keys)
    requires OverviewIdsFollowLocales(s)
    ensures OverviewIdsFollowLocales(ApplyAll(s, SeedOverviewForLocale(s, locale, content, keys).0))
  {
    var r := SeedOverviewForLocale(s, locale, content, keys);
    var ex := FirstOfTypeInLocale(s, OverviewType, locale);
    SeedStepStore(s, locale, content, keys);
    OverviewIdIsNotDraft(locale);
    if ex.Some? {
      DeleteRemoves(s, ex.value.id);
      DeleteRemoves(Apply(s, Delete(ex.value.id)), DraftId(ex.value.id));
    }
    CreateOrReplaceStores(Cleared(s, ex), r.0[|r.0| - 1].doc);
  }

  /** Seeding locales other than `locale` keeps its settled page. */
  lemma {:induction false} SeedLocalesKeep(s: Store, locales: seq<string>, locale: string, content: OverviewContent,
                                           existing: Option<Doc>, keys: Keys)
    requires locale !in locales && Settled(s, locale, content, existing)
    ensures Settled(SeedLocales(s, locales, content, keys).1, locale, content, existing)
    decreases |locales|
  {
    if locales != [] {
      var one := SeedOverviewForLocale(s, locales[0], content, keys);
      OtherStepKeeps(s, locales[0], locale, content, existing, keys);
      SeedLocalesKeep(ApplyAll(s, one.0), locales[1..], locale, content, existing, one.1);
    }
  }

  /** `main`: every configured locale ends with its overview page. */
  lemma {:induction false} SeedLocalesPages(s: Store, locales: seq<string>, content: OverviewContent, keys: Keys)
    requires keys.Valid()
    ensures forall l :: l in locales ==> Settled(SeedLocales(s, locales, content, keys).1, l, content, None)
    decreases |locales|
  {
    if locales != [] {
      var l0 := locales[0];
      var rest := locales[1..];
      var one := SeedOverviewForLocale(s, l0, content, keys);
      var s1 := ApplyAll(s, one.0);
      var final := SeedLocales(s, locales, content, keys).1;
      assert final == SeedLocales(s1, rest, content, one.1).1;
      assert one.1.Valid();
      SeedLocalesPages(s1, rest, content, one.1);
      OwnStepSettles(s, l0, content, keys);
      if l0 !in rest {
        SeedLocalesKeep(s1, rest, l0, content, None, one.1);
      }
      forall l | l in locales ensures Settled(final, l, content, None) {
        if l != l0 {
          assert l in rest;
        }
      }
    }
  }

  /**
   * With distinct locales, on a store whose pages follow the id scheme,
   * each locale's page keeps the key of the page the query found at the start.
   */
  lemma {:induction false} SeedLocalesKeys(s: Store, locales: seq<string>, content: OverviewContent, keys: Keys)
    requires keys.Valid() && NoDup(locales) && OverviewIdsFollowLocales(s)
    ensures forall l :: l in locales ==>
      Settled(SeedLocales(s, locales, content, keys).1, l, content, FirstOfTypeInLocale(s, OverviewType, l))
    decreases |locales|
  {
    if locales != [] {
      var l0 := locales[0];
      var rest := locales[1..];
      var one := SeedOverviewForLocale(s, l0, content, keys);
      var s1 := ApplyAll(s, one.0);
      var final := SeedLocales(s, locales, content, keys).1;
      assert final == SeedLocales(s1, rest, content, one.1).1;
      assert one.1.Valid();
      assert NoDup(rest) && l0 !in rest by {
        assert forall i :: 0 <= i < |rest| ==> rest[i] == locales[i + 1];
      }
      OwnStepKeepsScheme(s, l0, content, keys);
      SeedLocalesKeys(s1, rest, content, one.1);
      KeysLift(s, l0, rest, content, keys, final);
      OwnStepSettles(s, l0, content, keys);
      SeedLocalesKeep(s1, rest, l0, content, FirstOfTypeInLocale(s, OverviewType, l0), one.1);
      assert forall l :: l in locales ==> l == l0 || l in rest;
    }
  }

  /** The pages of the later locales keep the keys their old pages had before the first locale's seed. */
  lemma KeysLift(s: Store, l0: string, rest: seq<string>, content: OverviewContent, keys: Keys, final: Store)
    requires OverviewIdsFollowLocales(s) && l0 !in rest
    requires var s1 := ApplyAll(s, SeedOverviewForLocale(s, l0, content, keys).0);
      forall l :: l in rest ==> Settled(final, l, content, FirstOfTypeInLocale(s1, OverviewType, l))
    ensures forall l :: l in rest ==> Settled(final, l, content, FirstOfTypeInLocale(s, OverviewType, l))
  {
    forall l | l in rest ensures Settled(final, l, content, FirstOfTypeInLocale(s, OverviewType, l)) {
      OtherStepKeepsFirst(s, l0, l, content, keys);
    }
  }

  /**
   * `main`: every configured locale ends with its overview page. When the
   * locales are distinct and the store's pages follow the id scheme, each
   * page keeps the translation key its locale's old page had.
   */
  lemma SeedLocalesSettle(s: Store, locales: seq<string>, content: OverviewContent, keys: Keys)
    requires keys.Valid()
    ensures forall l :: l in locales ==> Settled(SeedLocales(s, locales, content, keys).1, l, content, None)
    ensures NoDup(locales) && OverviewIdsFollowLocales(s) ==>
      forall l :: l in locales ==>
        Settled(SeedLocales(s, locales, content, keys).1, l, content, FirstOfTypeInLocale(s, OverviewType, l))
  {
    SeedLocalesPages(s, locales, content, keys);
    if NoDup(locales) && OverviewIdsFollowLocales(s) {
      SeedLocalesKeys(s, locales, content, keys);
    }
  }

  /**
   * A run seeds every configured locale; with distinct locales and pages
   * following the id scheme, each page keeps its old translation key.
   */
  lemma RunSettles(s: Store, setting: Option<string>, content: OverviewContent, keys: Keys)
    requires keys.Valid()
    ensures var s' := Run(s, setting, content, keys).1;
      forall l :: l in ParseList(setting, DefaultLocales) ==> Settled(s', l, content, None)
    ensures var s' := Run(s, setting, content, keys).1;
      NoDup(ParseList(setting, DefaultLocales)) && OverviewIdsFollowLocales(s) ==>
        forall l :: l in ParseList(setting, DefaultLocales) ==>
          Settled(s', l, content, FirstOfTypeInLocale(s, OverviewType, l))
  {
    SeedLocalesSettle(s, ParseList(setting, DefaultLocales), content, keys);
  }
}
