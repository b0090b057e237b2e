/**
 * The document store as the scripts see it: a snapshot is a sequence of
 * documents (in the order the scripts' queries return them), a run produces
 * a list of intended writes, and applying the writes gives the next store.
 *
 * Identifiers follow the CMS convention that a draft of document `x` has id
 * `drafts.x`; "patch both states" patches the published id and the draft id.
 */
module Documents {
  import opened Wrappers
  import opened Text
  import opened Objects

  const DraftPrefix: string := "drafts."

  predicate IsDraftId(id: string) {
    StartsWith(id, DraftPrefix)
  }

  /** `String(id).replace(/^drafts\./, '')`. */
  function BaseId(id: string): (b: string)
    ensures IsDraftId(id) ==> DraftPrefix + b == id
    ensures !IsDraftId(id) ==> b == id
  {
    if IsDraftId(id) then id[|DraftPrefix|..] else id
  }

  /** The id of the draft of a published document. */
  function DraftId(base: string): string {
    DraftPrefix + base
  }

  lemma BaseOfDraft(base: string)
    ensures BaseId(DraftId(base)) == base
  {
    assert DraftId(base)[..|DraftPrefix|] == DraftPrefix;
    assert DraftId(base)[|DraftPrefix|..] == base;
  }

  /** Every id is the published or the draft variant of its base id. */
  lemma IdIsBaseOrDraft(id: string)
    ensures id == BaseId(id) || id == DraftId(BaseId(id))
  {
  }

  /** `other` is the published or the draft variant of the document `id`. */
  predicate IsVariantOf(other: string, id: string) {
    other == BaseId(id) || other == DraftId(BaseId(id))
  }

  /** The two variants of one base id are different documents. */
  lemma DraftDiffersFromBase(base: string)
    ensures DraftId(base) != base
  {
    assert |DraftId(base)| == |base| + 7;
  }

  datatype Image = Image(asset: string)

  /** An array item referencing another document: `{_type: 'reference', _key, _ref}`. */
  datatype Ref = Ref(key: string, target: string)

  /** A dictionary entry: `{_type: 'entry', key, value, notes}`. */
  datatype Entry = Entry(key: string, value: string, notes: string)

  /**
   * A stored document. `slug` is `slug.current`, or `value.current` for the
   * taxonomy documents; `portfolioWork` and `serviceType` hold the `_ref` of
   * a reference field; `body` holds the remaining content fields.
   */
  datatype Doc = Doc(
    id: string,
    docType: string,
    locale: Option<string>,
    translationKey: Option<string>,
    slug: Option<string>,
    title: Option<string>,
    name: Option<string>,
    logo: Option<Image>,
    order: Option<int>,
    portfolioWork: Option<string>,
    serviceType: Option<string>,
    trustedBy: seq<Ref>,
    entries: Option<seq<Entry>>,
    body: Object)

  /** A document with only its id and type set. */
  function NewDoc(id: string, docType: string): (d: Doc)
    ensures d.id == id && d.docType == docType
  {
    Doc(id, docType, None, None, None, None, None, None, None, None, None, [], None, [])
  }

  type Store = seq<Doc>

  function Ids(s: Store): (r: seq<string>)
    ensures |r| == |s|
    ensures forall i :: 0 <= i < |s| ==> r[i] == s[i].id
  {
    seq(|s|, i requires 0 <= i < |s| => s[i].id)
  }

  /** `*[_id == $id][0]`: dereferencing a reference. */
  function Lookup(s: Store, id: string): (r: Option<Doc>)
    ensures r.Some? <==> id in Ids(s)
    ensures r.Some? ==> r.value in s && r.value.id == id
  {
    if s == [] then None
    else if s[0].id == id then Some(s[0])
    else
      assert Ids(s) == [s[0].id] + Ids(s[1..]);
      Lookup(s[1..], id)
  }

  /** `*[_type == $type && locale == $locale][0]`. */
  function FirstOfTypeInLocale(s: Store, docType: string, locale: string): (r: Option<Doc>)
    ensures r.Some? ==> r.value in s && r.value.docType == docType && r.value.locale == Some(locale)
    ensures r.None? ==> forall d :: d in s ==> !(d.docType == docType && d.locale == Some(locale))
  {
    if s == [] then None
    else if s[0].docType == docType && s[0].locale == Some(locale) then Some(s[0])
    else FirstOfTypeInLocale(s[1..], docType, locale)
  }

  /** `*[filter]`: the matching documents, in store order. */
  function Where(s: Store, p: Doc -> bool): (r: Store)
    ensures |r| <= |s|
    ensures forall d :: d in r <==> d in s && p(d)
  {
    if s == [] then []
    else if p(s[0]) then [s[0]] + Where(s[1..], p)
    else Where(s[1..], p)
  }

  /** A query over two stores one after the other returns the two answers one after the other. */
  lemma {:induction false} WhereAppend(a: Store, b: Store, p: Doc -> bool)
    ensures Where(a + b, p) == Where(a, p) + Where(b, p)
  {
    if a == [] {
      assert a + b == b;
    } else {
      assert (a + b)[0] == a[0] && (a + b)[1..] == a[1..] + b;
      WhereAppend(a[1..], b, p);
      if p(a[0]) {
        assert Where(a + b, p) == [a[0]] + Where(a[1..] + b, p);
        assert Where(a, p) == [a[0]] + Where(a[1..], p);
      }
    }
  }

  /** `*[filter][0]`: the first matching document. */
  function First(s: Store, p: Doc -> bool): (r: Option<Doc>)
    ensures r.Some? <==> exists d :: d in s && p(d)
    ensures r.Some? ==> r.value in s && p(r.value)
  {
    var w := Where(s, p);
    if w == [] then None else assert w[0] in w; Some(w[0])
  }

  /** Documents added at the end do not change which document a query finds first. */
  lemma FirstOfExtended(s: Store, t: Store, p: Doc -> bool)
    requires First(s, p).Some?
    ensures First(s + t, p) == First(s, p)
  {
    WhereAppend(s, t, p);
  }

  /** `count(*[filter])`. */
  function Count(s: Store, p: Doc -> bool): (n: nat)
    ensures n == 0 <==> forall d :: d in s ==> !p(d)
  {
    var w := Where(s, p);
    assert w != [] ==> w[0] in w;
    |w|
  }

  // ---------------------------------------------------------------- writes

  /** The fields a `set` patch assigns; None leaves the field alone. */
  datatype Patch = Patch(translationKey: Option<string>, portfolioWork: Option<string>, trustedBy: Option<seq<Ref>>) {
    predicate IsEmpty() {
      translationKey.None? && portfolioWork.None? && trustedBy.None?
    }
  }

  function PatchDoc(d: Doc, p: Patch): (r: Doc)
    ensures r.id == d.id && r.docType == d.docType && r.locale == d.locale && r.slug == d.slug
    ensures r.translationKey == if p.translationKey.Some? then p.translationKey else d.translationKey
    ensures r.portfolioWork == if p.portfolioWork.Some? then p.portfolioWork else d.portfolioWork
    ensures r.trustedBy == if p.trustedBy.Some? then p.trustedBy.value else d.trustedBy
    ensures r.(translationKey := d.translationKey, portfolioWork := d.portfolioWork, trustedBy := d.trustedBy) == d
    ensures p.IsEmpty() ==> r == d
  {
    var d1 := if p.translationKey.Some? then d.(translationKey := p.translationKey) else d;
    var d2 := if p.portfolioWork.Some? then d1.(portfolioWork := p.portfolioWork) else d1;
    if p.trustedBy.Some? then d2.(trustedBy := p.trustedBy.value) else d2
  }

  datatype Write =
    | SetFields(id: string, patch: Patch)               // client.patch(id).set(patch)
    | AppendEntries(id: string, entries: seq<Entry>)    // setIfMissing({entries: []}).insert('after', 'entries[-1]', ...)
    | Create(doc: Doc)                                  // client.create
    | CreateOrReplace(doc: Doc)                         // client.createOrReplace
    | Delete(id: string)                                // client.delete

  /** The store after one write. A write to an id that does not exist changes nothing. */
  function Apply(s: Store, w: Write): (r: Store)
    ensures w.SetFields? || w.AppendEntries? ==> |r| == |s|
  {
    match w
    case SetFields(id, p) =>
      seq(|s|, i requires 0 <= i < |s| => if s[i].id == id then PatchDoc(s[i], p) else s[i])
    case AppendEntries(id, es) =>
      seq(|s|, i requires 0 <= i < |s| =>
        if s[i].id == id then s[i].(entries := Some(s[i].entries.GetOr([]) + es)) else s[i])
    case Create(d) => s + [d]
    case CreateOrReplace(d) =>
      if d.id in Ids(s) then seq(|s|, i requires 0 <= i < |s| => if s[i].id == d.id then d else s[i])
      else s + [d]
    case Delete(id) => Where(s, (d: Doc) => d.id != id)
  }

  /** A document after an entries insert addressed to `id`. */
  function WithEntriesAppended(d: Doc, id: string, es: seq<Entry>): Doc {
    if d.id == id then d.(entries := Some(d.entries.GetOr([]) + es)) else d
  }

  /**
   * Appending entries to the first document of a type in a locale leaves it
   * the first such document, with the new entries after its old ones.
   */
  lemma {:induction false} AppendEntriesKeepsFirst(s: Store, docType: string, locale: string, id: string, es: seq<Entry>)
    ensures FirstOfTypeInLocale(Apply(s, AppendEntries(id, es)), docType, locale)
         == match FirstOfTypeInLocale(s, docType, locale)
            case None => None
            case Some(d) => Some(WithEntriesAppended(d, id, es))
  {
    var s' := Apply(s, AppendEntries(id, es));
    if s != [] {
      assert s'[0] == WithEntriesAppended(s[0], id, es);
      assert s'[1..] == Apply(s[1..], AppendEntries(id, es));
      AppendEntriesKeepsFirst(s[1..], docType, locale, id, es);
    }
  }

  function ApplyAll(s: Store, ws: seq<Write>): Store
    decreases |ws|
  {
    if ws == [] then s else ApplyAll(Apply(s, ws[0]), ws[1..])
  }

  lemma {:induction false} ApplyAllAppend(s: Store, a: seq<Write>, b: seq<Write>)
    ensures ApplyAll(s, a + b) == ApplyAll(ApplyAll(s, a), b)
    decreases |a|
  {
    if a == [] {
      assert a + b == b;
    } else {
      assert (a + b)[0] == a[0];
      assert (a + b)[1..] == a[1..] + b;
      ApplyAllAppend(Apply(s, a[0]), a[1..], b);
    }
  }

  /** Writes that only patch. */
  predicate OnlyPatches(ws: seq<Write>) {
    forall i :: 0 <= i < |ws| ==> ws[i].SetFields?
  }

  /** Patches keep every document where it is, under its id. */
  lemma {:induction false} PatchesKeepIds(s: Store, ws: seq<Write>)
    requires OnlyPatches(ws)
    ensures Ids(ApplyAll(s, ws)) == Ids(s)
    decreases |ws|
  {
    if ws != [] {
      var s1 := Apply(s, ws[0]);
      assert Ids(s1) == Ids(s);
      assert OnlyPatches(ws[1..]) by {
        forall i | 0 <= i < |ws[1..]| ensures ws[1..][i].SetFields? {
          assert ws[1..][i] == ws[i + 1];
        }
      }
      PatchesKeepIds(s1, ws[1..]);
    }
  }

  /**
   * `patchDocBothStates(id, patch)`: the same patch for the published id
   * and the draft id, both derived from `id` with a leading `drafts.` removed.
   */
  function PatchBothStates(id: string, p: Patch): (ws: seq<Write>)
    ensures |ws| == 2 && OnlyPatches(ws)
    ensures ws[0].id == BaseId(id) && ws[1].id == DraftId(BaseId(id))
    ensures ws[0].patch == p && ws[1].patch == p
  {
    [SetFields(BaseId(id), p), SetFields(DraftId(BaseId(id)), p)]
  }

  /**
   * Patching both states patches exactly the documents whose id is the
   * published or the draft variant, and so always the document named.
   */
  lemma PatchBothStatesEffect(s: Store, id: string, p: Patch)
    ensures var r := ApplyAll(s, PatchBothStates(id, p));
      && |r| == |s|
      && forall i :: 0 <= i < |s| ==>
           r[i] == if s[i].id == BaseId(id) || s[i].id == DraftId(BaseId(id)) then PatchDoc(s[i], p) else s[i]
    ensures forall i :: 0 <= i < |s| && s[i].id == id ==>
              ApplyAll(s, PatchBothStates(id, p))[i] == PatchDoc(s[i], p)
  {
    var ws := PatchBothStates(id, p);
    DraftDiffersFromBase(BaseId(id));
    var s1 := Apply(s, ws[0]);
    var s2 := Apply(s1, ws[1]);
    assert ApplyAll(s, ws) == s2 by {
      assert ws[1..] == [ws[1]];
      assert ApplyAll(s, ws) == ApplyAll(s1, [ws[1]]);
      assert [ws[1]][1..] == [];
      assert ApplyAll(s1, [ws[1]]) == ApplyAll(s2, []);
    }
    IdIsBaseOrDraft(id);
  }

  // ---------------------------------------------------------------- fresh keys

  /**
   * A supply of fresh random keys (`crypto.randomUUID()`); `next` is the
   * number of keys already drawn.
   */
  datatype Keys = Keys(gen: nat -> string, next: nat) {
    /** Every key the supply hands out is non-empty, as a UUID is. */
    ghost predicate Valid() {
      forall n: nat :: gen(n) != ""
    }

    function Fresh(): string {
      gen(next)
    }

    function Advance(): Keys {
      Keys(gen, next + 1)
    }
  }
}
