/**
 * The shared locale helpers of the schemas: the latinizing kebab-case
 * slugifier, the "slug unique within type and locale" validator, and the
 * initial value that gives a new document its locale and translation key.
 */
module I18n {
  import opened Wrappers
  import opened Text
  import opened Objects
  import opened Documents

  const DefaultLocale: string := "en"

  // ---------------------------------------------------------------- slugifier

  /** A character `[a-z0-9-]`. */
  predicate IsSlugChar(c: char) {
    ('a' <= c <= 'z') || ('0' <= c <= '9') || c == '-'
  }

  predicate NoDoubleHyphen(s: string) {
    forall i :: 0 <= i < |s| - 1 ==> !(s[i] == '-' && s[i + 1] == '-')
  }

  /** What the slugifier produces: only `[a-z0-9-]`, never two hyphens in a row. */
  predicate IsSlug(s: string) {
    (forall i :: 0 <= i < |s| ==> IsSlugChar(s[i])) && NoDoubleHyphen(s)
  }

  /** `.replace(/[^a-z0-9\s-]/g, '')`. */
  function KeepSlugChars(s: string): (r: string)
    ensures forall i :: 0 <= i < |r| ==> IsSlugChar(r[i]) || IsSpace(r[i])
  {
    if s == [] then []
    else if IsSlugChar(s[0]) || IsSpace(s[0]) then [s[0]] + KeepSlugChars(s[1..])
    else KeepSlugChars(s[1..])
  }

  /** `.replace(/\s+/g, '-')`: every run of whitespace becomes one hyphen. */
  function HyphenateSpaces(s: string): (r: string)
    ensures forall i :: 0 <= i < |r| ==> !IsSpace(r[i]) && (r[i] in s || r[i] == '-')
    decreases |s|
  {
    if s == [] then []
    else if IsSpace(s[0]) then
      var rest := HyphenateSpaces(s[LeadingSpaces(s)..]);
      assert forall c :: c in s[LeadingSpaces(s)..] ==> c in s;
      "-" + rest
    else [s[0]] + HyphenateSpaces(s[1..])
  }

  /** Number of hyphens at the start. */
  function LeadingHyphens(s: string): (n: nat)
    ensures n <= |s|
    ensures n < |s| ==> s[n] != '-'
    ensures s != [] && s[0] == '-' ==> n >= 1
  {
    if s != [] && s[0] == '-' then 1 + LeadingHyphens(s[1..]) else 0
  }

  /** `.replace(/-+/g, '-')`: every run of hyphens becomes one hyphen. */
  function SqueezeHyphens(s: string): (r: string)
    ensures forall i :: 0 <= i < |r| ==> r[i] in s
    ensures NoDoubleHyphen(r)
    ensures s != [] ==> r != [] && r[0] == s[0]
    decreases |s|
  {
    if s == [] then []
    else if s[0] == '-' then
      var tail := s[LeadingHyphens(s)..];
      var rest := SqueezeHyphens(tail);
      assert forall c :: c in tail ==> c in s;
      assert rest != [] ==> rest[0] != '-';
      "-" + rest
    else
      var rest := SqueezeHyphens(s[1..]);
      [s[0]] + rest
  }

  /**
   * `slugifyLocale(input)`. The Unicode `normalize('NFKD')` and the removal
   * of combining marks that precede the lower-casing are a pre-pass this
   * model leaves out: `input` is the string after that pre-pass.
   */
  function Slugify(input: string): (r: string)
    ensures input == "" ==> r == ""
    ensures IsSlug(r)
  {
    if input == "" then ""
    else
      var kept := KeepSlugChars(LowerAll(input));
      var trimmed := Trim(kept);
      assert forall i :: 0 <= i < |trimmed| ==> IsSlugChar(trimmed[i]) || IsSpace(trimmed[i]);
      var hyphenated := HyphenateSpaces(trimmed);
      var r := SqueezeHyphens(hyphenated);
      assert forall i :: 0 <= i < |r| ==> IsSlugChar(r[i]);
      r
  }

  lemma {:induction false} KeepSlugCharsOfSlug(s: string)
    requires forall i :: 0 <= i < |s| ==> IsSlugChar(s[i])
    ensures KeepSlugChars(s) == s
  {
    if s != [] {
      KeepSlugCharsOfSlug(s[1..]);
    }
  }

  lemma {:induction false} HyphenateWithoutSpaces(s: string)
    requires forall i :: 0 <= i < |s| ==> !IsSpace(s[i])
    ensures HyphenateSpaces(s) == s
  {
    if s != [] {
      HyphenateWithoutSpaces(s[1..]);
    }
  }

  lemma {:induction false} SqueezeWithoutDoubles(s: string)
    requires NoDoubleHyphen(s)
    ensures SqueezeHyphens(s) == s
    decreases |s|
  {
    if s != [] {
      SqueezeWithoutDoubles(s[1..]);
      if s[0] == '-' {
        assert LeadingHyphens(s) == 1 by {
          if |s| > 1 { assert s[1] != '-'; }
        }
      }
    }
  }

  lemma LowerAllOfSlug(s: string)
    requires forall i :: 0 <= i < |s| ==> IsSlugChar(s[i])
    ensures LowerAll(s) == s
  {
    assert forall i :: 0 <= i < |s| ==> Lower(s[i]) == s[i];
  }

  /** A slug is a fixed point of the slugifier. */
  lemma SlugifyFixesSlugs(s: string)
    requires IsSlug(s)
    ensures Slugify(s) == s
  {
    if s != "" {
      LowerAllOfSlug(s);
      KeepSlugCharsOfSlug(s);
      assert forall i :: 0 <= i < |s| ==> !IsSpace(s[i]);
      assert IsTrimmed(s);
      var trimmed := Trim(s);
      assert trimmed == s;
      HyphenateWithoutSpaces(s);
      SqueezeWithoutDoubles(s);
    }
  }

  /** Slugifying twice is slugifying once. */
  lemma SlugifyIdempotent(input: string)
    ensures Slugify(Slugify(input)) == Slugify(input)
  {
    SlugifyFixesSlugs(Slugify(input));
  }

  // ---------------------------------------------------------------- slug uniqueness

  /** The document a slug is being validated on: its `_id`, `_type` and `locale`. */
  datatype SlugContext = SlugContext(id: string, docType: string, locale: Option<string>)

  /** The locale the query compares with: the document's, or `en` when it has none. */
  function QueryLocale(ctx: SlugContext): string {
    OrElse(ctx.locale, DefaultLocale)
  }

  /**
   * `count(*[_type == $type && locale == $locale && slug.current == $slug
   * && !(_id in [$id, 'drafts.' + $id])])`, given the `$id` the validator computed.
   */
  function CountClashes(s: Store, slug: string, ctx: SlugContext, ownId: string): nat {
    var locale := QueryLocale(ctx);
    Count(s, (d: Doc) =>
      d.docType == ctx.docType && d.locale == Some(locale) && d.slug == Some(slug)
      && d.id != ownId && d.id != DraftId(ownId))
  }

  /**
   * `isUniqueSlugWithinLocale` as written: the own id is computed with
   * `_id.replace('drafts.', '')`, which removes the first `drafts.` wherever it occurs.
   */
  function IsUniqueSlugAsWritten(s: Store, slug: Option<string>, ctx: SlugContext): (unique: bool)
    ensures !Truthy(slug) ==> unique
    ensures Truthy(slug) ==> (unique <==> forall d :: d in s ==> !ClashAsWritten(d, slug.value, ctx))
  {
    !Truthy(slug) || CountClashes(s, slug.value, ctx, RemoveFirst(ctx.id, DraftPrefix)) == 0
  }

  /**
   * `d` holds `slug` in the same type and locale and is neither the id the
   * unanchored removal computes nor that id's draft.
   */
  predicate ClashAsWritten(d: Doc, slug: string, ctx: SlugContext) {
    var own := RemoveFirst(ctx.id, DraftPrefix);
    && d.docType == ctx.docType
    && d.locale == Some(QueryLocale(ctx))
    && d.slug == Some(slug)
    && d.id != own && d.id != DraftId(own)
  }

  /**
   * `isUniqueSlugWithinLocale` with the own id computed by removing a
   * LEADING `drafts.` only (as every script of the repository does): an
   * empty slug is unique; otherwise the slug is unique iff no other document
   * of the same type and locale uses it.
   */
  function IsUniqueSlugWithinLocale(s: Store, slug: Option<string>, ctx: SlugContext): (unique: bool)
    ensures !Truthy(slug) ==> unique
    ensures Truthy(slug) ==> (unique <==> forall d :: d in s ==> !SlugClash(d, slug.value, ctx))
  {
    assert forall d: Doc, v: string :: SlugClash(d, v, ctx) <==>
      (d.docType == ctx.docType && d.locale == Some(QueryLocale(ctx)) && d.slug == Some(v)
       && d.id != BaseId(ctx.id) && d.id != DraftId(BaseId(ctx.id)));
    !Truthy(slug) || CountClashes(s, slug.value, ctx, BaseId(ctx.id)) == 0
  }

  /** `d` holds `slug` in the same type and locale and is not a variant of the document itself. */
  predicate SlugClash(d: Doc, slug: string, ctx: SlugContext) {
    && d.docType == ctx.docType
    && d.locale == Some(QueryLocale(ctx))
    && d.slug == Some(slug)
    && !IsVariantOf(d.id, ctx.id)
  }

  /** A published document and its draft get the same answer. */
  lemma UniqueSlugSameForDraft(s: Store, slug: Option<string>, base: string, docType: string, locale: Option<string>)
    requires !IsDraftId(base)
    ensures IsUniqueSlugWithinLocale(s, slug, SlugContext(base, docType, locale))
         == IsUniqueSlugWithinLocale(s, slug, SlugContext(DraftId(base), docType, locale))
  {
    BaseOfDraft(base);
  }

  /** Storing the document itself (either variant) never makes its slug clash. */
  lemma OwnDocumentNeverClashes(s: Store, slug: Option<string>, ctx: SlugContext, own: Doc)
    requires IsVariantOf(own.id, ctx.id)
    ensures IsUniqueSlugWithinLocale(s + [own], slug, ctx) == IsUniqueSlugWithinLocale(s, slug, ctx)
  {
    if Truthy(slug) {
      assert !SlugClash(own, slug.value, ctx);
      assert forall d :: d in s + [own] <==> d in s || d == own;
    }
  }

  /**
   * The as-written validator counts a document against itself when its id
   * holds `drafts.` anywhere but at the start.
   */
  lemma AsWrittenClashesWithItself()
    ensures var own := NewDoc("a.drafts.b", "trustedBy").(locale := Some("en"), slug := Some("x"));
      var ctx := SlugContext("a.drafts.b", "trustedBy", Some("en"));
      && !IsUniqueSlugAsWritten([own], Some("x"), ctx)
      && IsUniqueSlugWithinLocale([own], Some("x"), ctx)
  {
    var id := "a.drafts.b";
    var own := NewDoc(id, "trustedBy").(locale := Some("en"), slug := Some("x"));
    var ctx := SlugContext(id, "trustedBy", Some("en"));
    assert id[..7] != DraftPrefix by { assert id[0] != DraftPrefix[0]; }
    assert id[1..][..7] != DraftPrefix by { assert id[1] != DraftPrefix[0]; }
    assert id[2..][..7] == DraftPrefix;
    assert RemoveFirst(id[2..], DraftPrefix) == "b";
    assert RemoveFirst(id[1..], DraftPrefix) == "." + "b";
    assert RemoveFirst(id, DraftPrefix) == "a.b";
    assert !IsDraftId(id) by { assert id[0] != DraftPrefix[0]; }
    assert BaseId(id) == id;
    assert IsVariantOf(own.id, ctx.id);
    assert own.id != "a.b" && own.id != DraftId("a.b") by {
      assert |own.id| == 10 && |DraftId("a.b")| == 10;
      assert own.id[0] != DraftId("a.b")[0];
    }
    assert own in [own];
  }

  /** On a draft id both ways of computing the own id agree. */
  lemma AsWrittenAgreesOnDrafts(s: Store, slug: Option<string>, base: string, docType: string, locale: Option<string>)
    ensures var ctx := SlugContext(DraftId(base), docType, locale);
      IsUniqueSlugAsWritten(s, slug, ctx) == IsUniqueSlugWithinLocale(s, slug, ctx)
  {
    var id := DraftId(base);
    assert id[..|DraftPrefix|] == DraftPrefix;
    assert RemoveFirst(id, DraftPrefix) == base;
    BaseOfDraft(base);
  }

  // ---------------------------------------------------------------- initial value

  /**
   * `withI18nInitialValue(base)()`: locale `en` and a fresh translation key,
   * then the fields of `base` spread over them.
   */
  function WithI18nInitialValue(base: Option<Object>, freshKey: string): Object {
    Spread([Field("locale", Str(DefaultLocale)), Field("translationKey", Str(freshKey))], base.GetOr([]))
  }

  /** Fields of `base` win; otherwise the locale is `en` and the translation key the fresh one. */
  lemma InitialValueFields(base: Option<Object>, freshKey: string, name: string)
    requires base.Some? ==> WellFormed(base.value)
    ensures var r := WithI18nInitialValue(base, freshKey);
      var b := base.GetOr([]);
      Get(r, name) ==
        if name in Names(b) then Get(b, name)
        else if name == "locale" then Some(Str(DefaultLocale))
        else if name == "translationKey" then Some(Str(freshKey))
        else None
  {
    var b := base.GetOr([]);
    SpreadGet([Field("locale", Str(DefaultLocale)), Field("translationKey", Str(freshKey))], b, name);
  }

  /** The result always has a locale and a translation key, listed first. */
  lemma InitialValueShape(base: Option<Object>, freshKey: string)
    requires base.Some? ==> WellFormed(base.value)
    ensures var r := WithI18nInitialValue(base, freshKey);
      |r| >= 2 && r[0].name == "locale" && r[1].name == "translationKey" && WellFormed(r)
  {
    var head := [Field("locale", Str(DefaultLocale)), Field("translationKey", Str(freshKey))];
    var b := base.GetOr([]);
    SpreadNames(head, b);
    SpreadWellFormed(head, b);
  }
}
