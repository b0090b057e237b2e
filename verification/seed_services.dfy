/**
 * The service-page seed: for every service type with content whose
 * taxonomy document exists, and every configured locale, create the
 * locale's service document unless one with that locale and slug exists.
 */
module SeedServices {
  import opened Wrappers
  import opened Sequences
  import opened Text
  import opened Objects
  import opened Documents

  const ServiceType: string := "service"
  const TaxonomyType: string := "serviceType"
  const DeliverableType: string := "serviceDeliverable"
  const DefaultOrder: int := 99

  /** The page content of one service; the copy itself is a parameter of the model. */
  datatype ServiceContent = ServiceContent(
    title: string,
    description: Value,
    header: Value,
    sellingPoints: Value,
    deliverablesHeader: Value,
    items: seq<Object>,
    process: Value,
    relatedWork: Value)

  /** The locales to seed when `SANITY_ACTIVE_LOCALES` is unset or empty. */
  const DefaultLocales: string := "en"

  lemma ActiveLocalesDefault(setting: Option<string>)
    requires !Truthy(setting)
    ensures ParseList(setting, DefaultLocales) == ["en"]
  {
    assert Join(["en"], ',') == "en";
    ParseListDefault(setting, ["en"]);
  }

  /** The service taxonomy document whose value is `value`. */
  predicate IsTypeWithValue(d: Doc, value: string) {
    d.docType == TaxonomyType && d.slug == Some(value)
  }

  /** `existingTypes.some((t) => t.value === value)`. */
  predicate TypeExists(types: Store, value: string) {
    exists d :: d in types && IsTypeWithValue(d, value)
  }

  /** `existingTypes.find((t) => t.value === value)?.order`. */
  function TypeOrder(types: Store, value: string): Option<int> {
    match First(types, (d: Doc) => IsTypeWithValue(d, value))
    case None => None
    case Some(t) => t.order
  }

  /** `order || 99`: a missing order and an order of 0 both become 99. */
  function OrderOrDefault(order: Option<int>): (r: int)
    ensures r == DefaultOrder <==> order.None? || order.value == 0 || order.value == DefaultOrder
    ensures r != DefaultOrder ==> order == Some(r)
  {
    if order.None? || order.value == 0 then DefaultOrder else order.value
  }

  /** `getServiceTypeRef(value)`: the id of the taxonomy document, when it has one. */
  function ServiceTypeRef(s: Store, value: string): (r: Option<string>)
    ensures r.Some? ==> r.value != "" && exists d :: d in s && IsTypeWithValue(d, value) && d.id == r.value
    ensures (forall d :: d in s ==> d.id != "") ==> (r.Some? <==> TypeExists(s, value))
  {
    match First(s, (d: Doc) => IsTypeWithValue(d, value))
    case None => None
    case Some(t) => if t.id == "" then None else Some(t.id)
  }

  /** A deliverable item: `{_type: 'serviceDeliverable', ...item}`. */
  function Deliverable(item: Object): Object {
    Spread([Field("_type", Str(DeliverableType))], item)
  }

  /**
   * An item without its own `_type` keeps all its fields, in order, after
   * the added `_type`.
   */
  lemma DeliverableShape(item: Object)
    requires WellFormed(item) && "_type" !in Names(item)
    ensures Names(Deliverable(item)) == ["_type"] + Names(item)
    ensures forall n :: Get(Deliverable(item), n) == if n == "_type" then Some(Str(DeliverableType)) else Get(item, n)
  {
    var head := [Field("_type", Str(DeliverableType))];
    SpreadNames(head, item);
    assert Names(head) == ["_type"];
    assert Elems(Names(head)) == {"_type"};
    WithoutDisjoint(Names(item), {"_type"});
    forall n ensures Get(Deliverable(item), n) == if n == "_type" then Some(Str(DeliverableType)) else Get(item, n) {
      SpreadGet(head, item, n);
    }
  }

  function Deliverables(items: seq<Object>): (r: seq<Value>)
    ensures |r| == |items|
    ensures forall i :: 0 <= i < |items| ==> r[i] == Record(Deliverable(items[i]))
  {
    seq(|items|, i requires 0 <= i < |items| => Record(Deliverable(items[i])))
  }

  /** The id of the seeded service page of a type in a locale. */
  function ServiceId(value: string, locale: string): string {
    "service-" + value + "-" + locale
  }

  /** The document `seedServiceForLocale` creates. */
  function ServiceDoc(locale: string, value: string, content: ServiceContent, order: Option<int>, typeRef: string, key: string): (d: Doc) {
    NewDoc(ServiceId(value, locale), ServiceType).(
      locale := Some(locale),
      translationKey := Some(key),
      title := Some(content.title),
      slug := Some(value),
      serviceType := Some(typeRef),
      order := Some(OrderOrDefault(order)),
      body := [
        Field("description", content.description),
        Field("header", content.header),
        Field("sellingPoints", content.sellingPoints),
        Field("deliverables", Record([
          Field("header", content.deliverablesHeader),
          Field("items", List(Deliverables(content.items)))])),
        Field("process", content.process),
        Field("relatedWork", content.relatedWork)])
  }

  /** A service page in the locale with the slug already exists. */
  predicate HasService(s: Store, locale: string, slug: string) {
    exists d :: d in s && IsServiceIn(d, locale, slug)
  }

  predicate IsServiceIn(d: Doc, locale: string, slug: string) {
    d.docType == ServiceType && d.locale == Some(locale) && d.slug == Some(slug)
  }

  /**
   * `seedServiceForLocale`: nothing when the page exists or the taxonomy
   * document cannot be found, otherwise one create-or-replace of the new
   * page, which takes a fresh translation key.
   */
  function SeedServiceForLocale(s: Store, locale: string, value: string, content: ServiceContent, order: Option<int>, keys: Keys): (r: (seq<Write>, Keys))
    ensures HasService(s, locale, value) ==> r == ([], keys)
    ensures ServiceTypeRef(s, value).None? ==> r == ([], keys)
    ensures !HasService(s, locale, value) && ServiceTypeRef(s, value).Some? ==>
      r == ([CreateOrReplace(ServiceDoc(locale, value, content, order, ServiceTypeRef(s, value).value, keys.Fresh()))],
            keys.Advance())
    ensures r.0 != [] ==>
      && r.1 == keys.Advance()
      && |r.0| == 1 && r.0[0].CreateOrReplace?
      && r.0[0].doc.id == ServiceId(value, locale)
      && IsServiceIn(r.0[0].doc, locale, value)
      && r.0[0].doc.translationKey == Some(keys.Fresh())
      && r.0[0].doc.serviceType == ServiceTypeRef(s, value)
      && r.0[0].doc.order == Some(OrderOrDefault(order))
    ensures r.0 == [] ==> r.1 == keys
  {
    var existing := First(s, (d: Doc) => IsServiceIn(d, locale, value));
    if existing.Some? then ([], keys)
    else match ServiceTypeRef(s, value)
      case None => ([], keys)
      case Some(typeRef) =>
        ([CreateOrReplace(ServiceDoc(locale, value, content, order, typeRef, keys.Fresh()))], keys.Advance())
  }

  /** The created-or-replaced document is in the store afterwards. */
  lemma CreateOrReplaceStores(s: Store, d: Doc)
    ensures d in Apply(s, CreateOrReplace(d))
  {
    var r := Apply(s, CreateOrReplace(d));
    if d.id in Ids(s) {
      var i :| 0 <= i < |s| && Ids(s)[i] == d.id;
      assert r[i] == d;
    } else {
      assert r[|s|] == d;
    }
  }

  /** Seeding a page twice: the second time finds the page and writes nothing. */
  lemma SeedServiceIdempotent(s: Store, locale: string, value: string, content: ServiceContent, order: Option<int>, keys: Keys)
    ensures var r := SeedServiceForLocale(s, locale, value, content, order, keys);
      SeedServiceForLocale(ApplyAll(s, r.0), locale, value, content, order, r.1).0 == []
  {
    var r := SeedServiceForLocale(s, locale, value, content, order, keys);
    if r.0 != [] {
      var d := r.0[0].doc;
      assert ApplyAll(s, r.0) == Apply(s, r.0[0]) by {
        assert r.0[1..] == [];
      }
      CreateOrReplaceStores(s, d);
      assert HasService(ApplyAll(s, r.0), locale, value);
    }
  }

  // ---------------------------------------------------------------- pages land in every locale

  /** Locale codes without a hyphen, so that a page id names one service type and one locale. */
  predicate HyphenFree(locales: seq<string>) {
    forall l :: l in locales ==> '-' !in l
  }

  /**
   * Every document whose id has the form of a seeded page id is that page:
   * a service page of the id's locale with the id's type as its slug.
   */
  ghost predicate SeededIdsHoldTheirPages(s: Store) {
    forall d, v, l :: d in s && '-' !in l && d.id == ServiceId(v, l) ==> IsServiceIn(d, l, v)
  }

  /** With hyphen-free locales, a page id determines its service type and its locale. */
  lemma ServiceIdInjective(v1: string, l1: string, v2: string, l2: string)
    requires '-' !in l1 && '-' !in l2
    requires ServiceId(v1, l1) == ServiceId(v2, l2)
    ensures v1 == v2 && l1 == l2
  {
    var x := ServiceId(v1, l1);
    var p1 := "service-" + v1 + "-";
    var p2 := "service-" + v2 + "-";
    assert x == p1 + l1 && x == p2 + l2;
    HyphenSuffixNotLonger(p1, l1, p2, l2);
    HyphenSuffixNotLonger(p2, l2, p1, l1);
    assert l1 == x[|p1|..] == l2;
    assert p1 == x[..|p1|] == p2;
    assert v1 == p1[8..|p1| - 1] && v2 == p2[8..|p2| - 1];
  }

  /** Two ways of writing one string as a hyphen-ended prefix and a hyphen-free suffix agree on the suffix length. */
  lemma HyphenSuffixNotLonger(p1: string, l1: string, p2: string, l2: string)
    requires p1 + l1 == p2 + l2
    requires |p1| > 0 && p1[|p1| - 1] == '-' && '-' !in l2
    ensures |l2| <= |l1|
  {
    var x := p1 + l1;
    assert x[|p1| - 1] == '-';
    assert forall i :: |p2| <= i < |x| ==> x[i] == l2[i - |p2|];
  }

  /** Adding documents at the end keeps the taxonomy document a type's reference was taken from. */
  lemma TypeRefExtended(s: Store, t: Store, value: string)
    requires ServiceTypeRef(s, value).Some?
    ensures ServiceTypeRef(s + t, value) == ServiceTypeRef(s, value)
  {
    FirstOfExtended(s, t, (d: Doc) => IsTypeWithValue(d, value));
  }

  /**
   * One locale's step on a store whose seeded ids hold their pages: the
   * store only grows, keeps that property, and afterwards holds the page
   * whenever the type's taxonomy document has an id.
   */
  lemma SeedStep(s: Store, locale: string, value: string, content: ServiceContent, order: Option<int>, keys: Keys)
    requires '-' !in locale && SeededIdsHoldTheirPages(s)
    ensures var s' := ApplyAll(s, SeedServiceForLocale(s, locale, value, content, order, keys).0);
      && s <= s' && SeededIdsHoldTheirPages(s')
      && (ServiceTypeRef(s, value).Some? ==> HasService(s', locale, value))
  {
    var r := SeedServiceForLocale(s, locale, value, content, order, keys);
    if r.0 != [] {
      var doc := r.0[0].doc;
      assert doc.id !in Ids(s);
      assert ApplyAll(s, r.0) == s + [doc] by {
        assert r.0 == [CreateOrReplace(doc)];
        assert ApplyAll(s, r.0) == ApplyAll(Apply(s, r.0[0]), []);
      }
      var s' := s + [doc];
      forall d, v, l | d in s' && '-' !in l && d.id == ServiceId(v, l) ensures IsServiceIn(d, l, v) {
        if d == doc {
          ServiceIdInjective(v, l, value, locale);
        }
      }
      assert doc in s';
    }
  }

  /** A write that creates or replaces a service page in one of `locales`. */
  predicate CreatesServiceIn(w: Write, locales: seq<string>) {
    && w.CreateOrReplace? && w.doc.docType == ServiceType && w.doc.slug.Some?
    && w.doc.locale.Some? && w.doc.locale.value in locales
  }

  /** One service type in every locale, each locale reading the store the previous one left. */
  function SeedLocales(s: Store, value: string, content: ServiceContent, order: Option<int>, locales: seq<string>, keys: Keys): (r: (seq<Write>, Store, Keys))
    ensures r.1 == ApplyAll(s, r.0)
    ensures |r.0| <= |locales|
    ensures forall w :: w in r.0 ==> CreatesServiceIn(w, locales) && w.doc.slug == Some(value)
    ensures HyphenFree(locales) && SeededIdsHoldTheirPages(s) ==> s <= r.1 && SeededIdsHoldTheirPages(r.1)
    ensures HyphenFree(locales) && SeededIdsHoldTheirPages(s) && ServiceTypeRef(s, value).Some? ==>
      forall l :: l in locales ==> HasService(r.1, l, value)
    decreases |locales|, 1
  {
    if locales == [] then ([], s, keys)
    else
      var one := SeedServiceForLocale(s, locales[0], value, content, order, keys);
      var rest := SeedLocales(ApplyAll(s, one.0), value, content, order, locales[1..], one.1);
      ApplyAllAppend(s, one.0, rest.0);
      SeedLocalesStep(s, value, content, order, locales, keys);
      assert forall w :: w in one.0 ==> CreatesServiceIn(w, locales) && w.doc.slug == Some(value) by {
        if one.0 != [] {
          assert one.0 == [one.0[0]];
        }
      }
      assert forall w :: w in rest.0 ==> CreatesServiceIn(w, locales) by {
        assert forall l :: l in locales[1..] ==> l in locales;
      }
      assert forall w :: w in one.0 + rest.0 ==> w in one.0 || w in rest.0;
      (one.0 + rest.0, rest.1, rest.2)
  }

  /** How the first locale's step and the rest of the locales combine. */
  lemma SeedLocalesStep(s: Store, value: string, content: ServiceContent, order: Option<int>, locales: seq<string>, keys: Keys)
    requires locales != []
    ensures var one := SeedServiceForLocale(s, locales[0], value, content, order, keys);
      var s1 := ApplyAll(s, one.0);
      var rest := SeedLocales(s1, value, content, order, locales[1..], one.1);
      HyphenFree(locales) && SeededIdsHoldTheirPages(s) ==>
        && s <= rest.1 && SeededIdsHoldTheirPages(rest.1)
        && (ServiceTypeRef(s, value).Some? ==> forall l :: l in locales ==> HasService(rest.1, l, value))
    decreases |locales|, 0
  {
    var one := SeedServiceForLocale(s, locales[0], value, content, order, keys);
    var s1 := ApplyAll(s, one.0);
    var rest := SeedLocales(s1, value, content, order, locales[1..], one.1);
    if HyphenFree(locales) && SeededIdsHoldTheirPages(s) {
      assert '-' !in locales[0] by { assert locales[0] in locales; }
      SeedStep(s, locales[0], value, content, order, keys);
      assert HyphenFree(locales[1..]) by {
        assert forall l :: l in locales[1..] ==> l in locales;
      }
      CombineLocales(s, s1, rest.1, value, locales);
    }
  }

  /** A page in the first locale after the first step, and pages in the other locales after the rest. */
  lemma CombineLocales(s: Store, s1: Store, t: Store, value: string, locales: seq<string>)
    requires locales != []
    requires s <= s1 && s1 <= t
    requires ServiceTypeRef(s, value).Some? ==> HasService(s1, locales[0], value)
    requires ServiceTypeRef(s1, value).Some? ==> forall l :: l in locales[1..] ==> HasService(t, l, value)
    ensures s <= t
    ensures ServiceTypeRef(s, value).Some? ==> forall l :: l in locales ==> HasService(t, l, value)
  {
    if ServiceTypeRef(s, value).Some? {
      assert s1 == s + s1[|s|..];
      TypeRefExtended(s, s1[|s|..], value);
      HasServiceExtended(s1, t, locales[0], value);
      assert forall l :: l in locales ==> l == locales[0] || l in locales[1..];
    }
  }

  /** A page present in a store is present in every store that extends it. */
  lemma HasServiceExtended(s: Store, t: Store, locale: string, value: string)
    requires s <= t && HasService(s, locale, value)
    ensures HasService(t, locale, value)
  {
    var d :| d in s && IsServiceIn(d, locale, value);
    var i :| 0 <= i < |s| && s[i] == d;
    assert t[i] == d;
  }

  /**
   * `main`: the service types of the content in order; a type whose
   * taxonomy document was not listed at the start is skipped.
   */
  function SeedAll(s: Store, types: Store, contents: seq<(string, ServiceContent)>, locales: seq<string>, keys: Keys): (r: (seq<Write>, Store, Keys))
    ensures r.1 == ApplyAll(s, r.0)
    ensures forall w :: w in r.0 ==> CreatesServiceIn(w, locales) && TypeExists(types, w.doc.slug.value)
    ensures HyphenFree(locales) && SeededIdsHoldTheirPages(s) ==>
      && s <= r.1 && SeededIdsHoldTheirPages(r.1)
      && forall i, l :: (0 <= i < |contents| && TypeExists(types, contents[i].0) && ServiceTypeRef(s, contents[i].0).Some?
           && l in locales) ==> HasService(r.1, l, contents[i].0)
    decreases |contents|, 1
  {
    if contents == [] then ([], s, keys)
    else
      var (value, content) := contents[0];
      var one := if TypeExists(types, value) then SeedLocales(s, value, content, TypeOrder(types, value), locales, keys) else ([], s, keys);
      var rest := SeedAll(one.1, types, contents[1..], locales, one.2);
      ApplyAllAppend(s, one.0, rest.0);
      SeedAllStep(s, types, contents, locales, keys);
      assert forall w :: w in one.0 + rest.0 ==> w in one.0 || w in rest.0;
      (one.0 + rest.0, rest.1, rest.2)
  }

  /** How the first service type's seeding and the rest of the types combine. */
  lemma SeedAllStep(s: Store, types: Store, contents: seq<(string, ServiceContent)>, locales: seq<string>, keys: Keys)
    requires contents != []
    ensures var (value, content) := contents[0];
      var one := if TypeExists(types, value) then SeedLocales(s, value, content, TypeOrder(types, value), locales, keys) else ([], s, keys);
      var rest := SeedAll(one.1, types, contents[1..], locales, one.2);
      HyphenFree(locales) && SeededIdsHoldTheirPages(s) ==>
        && s <= rest.1 && SeededIdsHoldTheirPages(rest.1)
        && forall i, l :: (0 <= i < |contents| && TypeExists(types, contents[i].0) && ServiceTypeRef(s, contents[i].0).Some?
             && l in locales) ==> HasService(rest.1, l, contents[i].0)
    decreases |contents|, 0
  {
    var (value, content) := contents[0];
    var one := if TypeExists(types, value) then SeedLocales(s, value, content, TypeOrder(types, value), locales, keys) else ([], s, keys);
    var rest := SeedAll(one.1, types, contents[1..], locales, one.2);
    if HyphenFree(locales) && SeededIdsHoldTheirPages(s) {
      CombineTypes(s, one.1, rest.1, types, contents, locales);
    }
  }

  /** Pages for the first service type after its seeding, and for the other types after the rest. */
  lemma CombineTypes(s: Store, s1: Store, t: Store, types: Store, contents: seq<(string, ServiceContent)>, locales: seq<string>)
    requires contents != []
    requires s <= s1 && s1 <= t
    requires TypeExists(types, contents[0].0) && ServiceTypeRef(s, contents[0].0).Some? ==>
      forall l :: l in locales ==> HasService(s1, l, contents[0].0)
    requires forall i, l :: (0 <= i < |contents[1..]| && TypeExists(types, contents[1..][i].0)
      && ServiceTypeRef(s1, contents[1..][i].0).Some? && l in locales) ==> HasService(t, l, contents[1..][i].0)
    ensures s <= t
    ensures forall i, l :: (0 <= i < |contents| && TypeExists(types, contents[i].0) && ServiceTypeRef(s, contents[i].0).Some?
      && l in locales) ==> HasService(t, l, contents[i].0)
  {
    var ext := s1[|s|..];
    assert s1 == s + ext;
    forall i, l | 0 <= i < |contents| && TypeExists(types, contents[i].0) && ServiceTypeRef(s, contents[i].0).Some? && l in locales
      ensures HasService(t, l, contents[i].0)
    {
      TypeRefExtended(s, ext, contents[i].0);
      if i == 0 {
        HasServiceExtended(s1, t, l, contents[0].0);
      } else {
        assert contents[i] == contents[1..][i - 1];
      }
    }
  }

  /** A whole run over the store, with the taxonomy documents listed once at the start. */
  function Run(s: Store, setting: Option<string>, contents: seq<(string, ServiceContent)>, keys: Keys): (r: (seq<Write>, Store, Keys))
    ensures r.1 == ApplyAll(s, r.0)
    ensures forall w :: w in r.0 ==>
      w.CreateOrReplace? && w.doc.docType == ServiceType && w.doc.slug.Some? && TypeExists(s, w.doc.slug.value)
    ensures HyphenFree(ParseList(setting, DefaultLocales)) && SeededIdsHoldTheirPages(s) ==>
      && s <= r.1
      && forall i, l :: 0 <= i < |contents| && ServiceTypeRef(s, contents[i].0).Some? && l in ParseList(setting, DefaultLocales)
           ==> HasService(r.1, l, contents[i].0)
  {
    var types := Where(s, (d: Doc) => d.docType == TaxonomyType);
    var r := SeedAll(s, types, contents, ParseList(setting, DefaultLocales), keys);
    assert forall v :: TypeExists(types, v) ==> TypeExists(s, v);
    assert forall v :: TypeExists(s, v) ==> TypeExists(types, v);
    r
  }
}
