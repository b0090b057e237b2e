/**
 * The grouping structures of the landing trustedBy sync: portfolios filed
 * by translation key and locale, trustedBy documents filed by the
 * translation key of the portfolio they reference and by locale, and the
 * canonical group order read off the two landing pages.
 *
 * Both maps are built by a left-to-right scan; the functions below recurse
 * on the prefix so that one step of the recursion is one loop iteration.
 */
module LandingGroups {
  import opened Wrappers
  import opened Sequences
  import opened Text
  import opened Documents

  /** The property name `obj[locale]` uses: an undefined locale becomes "undefined". */
  function LocaleKey(locale: Option<string>): string {
    if locale.Some? then locale.value else "undefined"
  }

  function Init<T>(s: seq<T>): seq<T>
    requires s != []
  {
    s[..|s| - 1]
  }

  function Last<T>(s: seq<T>): T
    requires s != []
  {
    s[|s| - 1]
  }

  lemma InitLast<T>(s: seq<T>)
    requires s != []
    ensures s == Init(s) + [Last(s)]
  {
  }

  // ---------------------------------------------------------------- portfolios by translation key

  /** The portfolio map of a run and the number of portfolios it could not file. */
  datatype PortfolioMap = PortfolioMap(groups: map<string, map<string, Doc>>, missingTranslationKey: nat)

  /** `p` is filed under translation key `k` and locale key `loc`. */
  predicate FiledAs(p: Doc, k: string, loc: string) {
    Truthy(p.translationKey) && p.translationKey.value == k && LocaleKey(p.locale) == loc
  }

  /** Positions of the portfolios without a translation key. */
  ghost function UnkeyedAt(ps: seq<Doc>): set<int> {
    set i | 0 <= i < |ps| && !Truthy(ps[i].translationKey)
  }

  lemma UnkeyedStep(ps: seq<Doc>)
    requires ps != []
    ensures |UnkeyedAt(ps)| == |UnkeyedAt(Init(ps))| + (if Truthy(Last(ps).translationKey) then 0 else 1)
  {
    var n := |ps| - 1;
    var prior := UnkeyedAt(Init(ps));
    if Truthy(Last(ps).translationKey) {
      assert UnkeyedAt(ps) == prior;
    } else {
      assert UnkeyedAt(ps) == prior + {n};
      assert n !in prior;
    }
  }

  /**
   * `buildPortfolioMap`: a portfolio without a translation key is counted,
   * any other is filed under its key and locale, a later one replacing an
   * earlier one with the same key and locale.
   */
  function BuildPortfolioMap(ps: seq<Doc>): (r: PortfolioMap)
    ensures r.missingTranslationKey == |UnkeyedAt(ps)|
    decreases |ps|
  {
    if ps == [] then PortfolioMap(map[], 0)
    else
      var prior := BuildPortfolioMap(Init(ps));
      var p := Last(ps);
      UnkeyedStep(ps);
      if !Truthy(p.translationKey) then prior.(missingTranslationKey := prior.missingTranslationKey + 1)
      else
        var k := p.translationKey.value;
        var group := if k in prior.groups then prior.groups[k] else map[];
        prior.(groups := prior.groups[k := group[LocaleKey(p.locale) := p]])
  }

  /**
   * A key and locale are in the portfolio map exactly when some portfolio is
   * filed under them, and the map holds the last such portfolio.
   */
  lemma {:induction false} PortfolioMapKeepsLast(ps: seq<Doc>, k: string, loc: string)
    ensures var g := BuildPortfolioMap(ps).groups;
      k in g && loc in g[k] <==> exists i :: 0 <= i < |ps| && FiledAs(ps[i], k, loc)
    ensures var g := BuildPortfolioMap(ps).groups;
      k in g && loc in g[k] ==>
        exists i :: 0 <= i < |ps| && FiledAs(ps[i], k, loc) && g[k][loc] == ps[i]
          && forall j :: i < j < |ps| ==> !FiledAs(ps[j], k, loc)
    decreases |ps|
  {
    if ps != [] {
      var n := |ps| - 1;
      var init := Init(ps);
      var g := BuildPortfolioMap(ps).groups;
      var g0 := BuildPortfolioMap(init).groups;
      PortfolioMapKeepsLast(init, k, loc);
      PortfolioMapStep(ps, k, loc);
      if !FiledAs(Last(ps), k, loc) {
        FiledInInit(ps, k, loc);
        if k in g0 && loc in g0[k] {
          var i :| 0 <= i < n && FiledAs(init[i], k, loc) && g0[k][loc] == init[i]
            && forall j :: i < j < n ==> !FiledAs(init[j], k, loc);
          LaterNotFiled(ps, k, loc, i);
        }
      }
    }
  }

  /** The effect of the last portfolio on one key and locale of the map. */
  lemma PortfolioMapStep(ps: seq<Doc>, k: string, loc: string)
    requires ps != []
    ensures var g := BuildPortfolioMap(ps).groups; var g0 := BuildPortfolioMap(Init(ps)).groups;
      && (FiledAs(Last(ps), k, loc) ==> k in g && loc in g[k] && g[k][loc] == Last(ps))
      && (!FiledAs(Last(ps), k, loc) ==>
            (k in g && loc in g[k] <==> k in g0 && loc in g0[k])
            && (k in g0 && loc in g0[k] ==> g[k][loc] == g0[k][loc]))
  {
  }

  /** A last portfolio filed elsewhere leaves the portfolios filed under a key and locale as they were. */
  lemma FiledInInit(ps: seq<Doc>, k: string, loc: string)
    requires ps != [] && !FiledAs(Last(ps), k, loc)
    ensures (exists i :: 0 <= i < |ps| && FiledAs(ps[i], k, loc))
        <==> exists i :: 0 <= i < |ps| - 1 && FiledAs(Init(ps)[i], k, loc)
  {
    if exists i :: 0 <= i < |ps| && FiledAs(ps[i], k, loc) {
      var i :| 0 <= i < |ps| && FiledAs(ps[i], k, loc);
      assert Init(ps)[i] == ps[i];
    }
    if exists i :: 0 <= i < |ps| - 1 && FiledAs(Init(ps)[i], k, loc) {
      var i :| 0 <= i < |ps| - 1 && FiledAs(Init(ps)[i], k, loc);
      assert Init(ps)[i] == ps[i];
    }
  }

  /** The last filing in the prefix stays the last when the final portfolio is filed elsewhere. */
  lemma LaterNotFiled(ps: seq<Doc>, k: string, loc: string, i: nat)
    requires ps != [] && !FiledAs(Last(ps), k, loc) && i < |ps| - 1
    requires forall j :: i < j < |ps| - 1 ==> !FiledAs(Init(ps)[j], k, loc)
    ensures Init(ps)[i] == ps[i]
    ensures forall j :: i < j < |ps| ==> !FiledAs(ps[j], k, loc)
  {
    forall j | i < j < |ps| ensures !FiledAs(ps[j], k, loc) {
      if j < |ps| - 1 {
        assert Init(ps)[j] == ps[j];
      }
    }
  }

  // ---------------------------------------------------------------- trustedBy documents by portfolio key

  /**
   * A trustedBy document as the sync fetches it: the document itself, whose
   * `portfolioWork` is the `portfolioRef` projection, and the portfolio that
   * reference resolves to, if any.
   */
  datatype TrustedBy = TrustedBy(doc: Doc, portfolio: Option<Doc>)

  /** `doc?.portfolioWork?.translationKey`. */
  function PortfolioTk(t: TrustedBy): Option<string> {
    if t.portfolio.Some? then t.portfolio.value.translationKey else None
  }

  predicate IsDraft(t: TrustedBy) {
    IsDraftId(t.doc.id)
  }

  /** `t` is filed under portfolio key `k` and locale key `loc`. */
  predicate Grouped(t: TrustedBy, k: string, loc: string) {
    Truthy(PortfolioTk(t)) && PortfolioTk(t).value == k && LocaleKey(t.doc.locale) == loc
  }

  /** One collision of two documents for the same group and locale. */
  datatype Duplicate = Duplicate(portfolioTk: string, locale: string, ids: seq<string>)

  /**
   * The index `buildTrustedByByPortfolioTk` returns. `keys` is the insertion
   * order of the JavaScript `Map`, which the optional order extension walks.
   */
  datatype TrustedByIndex = TrustedByIndex(
    keys: seq<string>,
    groups: map<string, map<string, TrustedBy>>,
    missingPortfolioTranslationKey: nat,
    duplicates: seq<Duplicate>)

  /**
   * One iteration: count a document whose portfolio has no key; file the
   * first document of a group and locale; on a collision record it and keep
   * the held document unless it is a draft and the newcomer is not.
   */
  function AddTrustedBy(ix: TrustedByIndex, t: TrustedBy): TrustedByIndex {
    var tk := PortfolioTk(t);
    if !Truthy(tk) then ix.(missingPortfolioTranslationKey := ix.missingPortfolioTranslationKey + 1)
    else
      var k := tk.value;
      var loc := LocaleKey(t.doc.locale);
      var keys := if k in ix.groups then ix.keys else ix.keys + [k];
      var group := if k in ix.groups then ix.groups[k] else map[];
      if loc !in group then
        ix.(keys := keys, groups := ix.groups[k := group[loc := t]])
      else
        var existing := group[loc];
        var keep := if IsDraft(existing) && !IsDraft(t) then t else existing;
        ix.(keys := keys, groups := ix.groups[k := group[loc := keep]],
            duplicates := ix.duplicates + [Duplicate(k, loc, [existing.doc.id, t.doc.id])])
  }

  /** The truthy portfolio keys of the documents, in order, repeats included. */
  function PortfolioTks(ts: seq<TrustedBy>): seq<string>
    decreases |ts|
  {
    if ts == [] then []
    else
      var tk := PortfolioTk(Last(ts));
      PortfolioTks(Init(ts)) + (if Truthy(tk) then [tk.value] else [])
  }

  /**
   * `buildTrustedByByPortfolioTk`. The map's keys are the portfolio keys in
   * first-occurrence order and are exactly the keys that have a group.
   */
  function BuildIndex(ts: seq<TrustedBy>): (ix: TrustedByIndex)
    ensures ix.keys == Dedup(PortfolioTks(ts))
    ensures ix.groups.Keys == Elems(ix.keys)
    decreases |ts|
  {
    if ts == [] then TrustedByIndex([], map[], 0, [])
    else
      var prior := BuildIndex(Init(ts));
      var t := Last(ts);
      var tail := if Truthy(PortfolioTk(t)) then [PortfolioTk(t).value] else [];
      DedupFromAppend({}, PortfolioTks(Init(ts)), tail);
      assert {} + Elems(PortfolioTks(Init(ts))) == prior.groups.Keys;
      AddTrustedBy(prior, t)
  }

  /**
   * The document kept for a group and locale at position `i`: the first
   * published one, or the first of all when every one of them is a draft.
   */
  predicate KeptAt(ts: seq<TrustedBy>, k: string, loc: string, i: int)
    requires 0 <= i < |ts|
  {
    || (!IsDraft(ts[i]) && forall j :: 0 <= j < i && Grouped(ts[j], k, loc) ==> IsDraft(ts[j]))
    || ((forall j :: 0 <= j < |ts| && Grouped(ts[j], k, loc) ==> IsDraft(ts[j]))
        && forall j :: 0 <= j < i ==> !Grouped(ts[j], k, loc))
  }

  /** One step of the index build, for one group and locale. */
  lemma AddTrustedByAt(ix: TrustedByIndex, t: TrustedBy, k: string, loc: string)
    ensures var g0 := ix.groups; var g := AddTrustedBy(ix, t).groups;
      !Grouped(t, k, loc) ==>
        && (k in g && loc in g[k] <==> k in g0 && loc in g0[k])
        && (k in g0 && loc in g0[k] ==> g[k][loc] == g0[k][loc])
    ensures var g0 := ix.groups; var g := AddTrustedBy(ix, t).groups;
      Grouped(t, k, loc) && !(k in g0 && loc in g0[k]) ==> k in g && loc in g[k] && g[k][loc] == t
    ensures var g0 := ix.groups; var g := AddTrustedBy(ix, t).groups;
      Grouped(t, k, loc) && k in g0 && loc in g0[k] ==>
        && k in g && loc in g[k]
        && g[k][loc] == if IsDraft(g0[k][loc]) && !IsDraft(t) then t else g0[k][loc]
    ensures Grouped(t, k, loc) && k in ix.groups && loc in ix.groups[k] ==>
      AddTrustedBy(ix, t).duplicates == ix.duplicates + [Duplicate(k, loc, [ix.groups[k][loc].doc.id, t.doc.id])]
    ensures Grouped(t, k, loc) && !(k in ix.groups && loc in ix.groups[k]) ==>
      AddTrustedBy(ix, t).duplicates == ix.duplicates
  {
  }

  lemma BuildIndexStep(ts: seq<TrustedBy>)
    requires ts != []
    ensures BuildIndex(ts) == AddTrustedBy(BuildIndex(Init(ts)), Last(ts))
  {
  }

  /** A document that is not in the group keeps the kept position of the prefix. */
  lemma KeptExtendsOther(ts: seq<TrustedBy>, k: string, loc: string, i: int)
    requires ts != [] && 0 <= i < |ts| - 1
    requires !Grouped(Last(ts), k, loc)
    requires KeptAt(Init(ts), k, loc, i)
    ensures KeptAt(ts, k, loc, i)
  {
    assert forall j :: 0 <= j < |ts| - 1 ==> ts[j] == Init(ts)[j];
  }

  /** A collision with document `i` held keeps `i` or switches to the newcomer. */
  lemma KeptExtendsCollision(ts: seq<TrustedBy>, k: string, loc: string, i: int)
    requires ts != [] && 0 <= i < |ts| - 1
    requires Grouped(Last(ts), k, loc) && Grouped(ts[i], k, loc)
    requires KeptAt(Init(ts), k, loc, i)
    ensures IsDraft(ts[i]) && !IsDraft(Last(ts)) ==> KeptAt(ts, k, loc, |ts| - 1)
    ensures !(IsDraft(ts[i]) && !IsDraft(Last(ts))) ==> KeptAt(ts, k, loc, i)
  {
    assert forall j :: 0 <= j < |ts| - 1 ==> ts[j] == Init(ts)[j];
  }

  /** The first document of its group and locale is kept. */
  lemma KeptFirst(ts: seq<TrustedBy>, k: string, loc: string)
    requires ts != [] && Grouped(Last(ts), k, loc)
    requires forall j :: 0 <= j < |ts| - 1 ==> !Grouped(ts[j], k, loc)
    ensures KeptAt(ts, k, loc, |ts| - 1)
  {
  }

  /** A last document filed elsewhere leaves the documents filed under a group and locale as they were. */
  lemma GroupedInInit(ts: seq<TrustedBy>, k: string, loc: string)
    requires ts != [] && !Grouped(Last(ts), k, loc)
    ensures (exists i :: 0 <= i < |ts| && Grouped(ts[i], k, loc))
        ==> exists i :: 0 <= i < |ts| - 1 && Grouped(Init(ts)[i], k, loc)
  {
    if exists i :: 0 <= i < |ts| && Grouped(ts[i], k, loc) {
      var i :| 0 <= i < |ts| && Grouped(ts[i], k, loc);
      assert Init(ts)[i] == ts[i];
    }
  }

  /**
   * A group and locale are in the index exactly when some document is filed
   * under them, and the index keeps the first published document, falling
   * back to the first draft.
   */
  lemma {:induction false} IndexKeepsPreferred(ts: seq<TrustedBy>, k: string, loc: string)
    ensures var g := BuildIndex(ts).groups;
      k in g && loc in g[k] <==> exists i :: 0 <= i < |ts| && Grouped(ts[i], k, loc)
    ensures var g := BuildIndex(ts).groups;
      k in g && loc in g[k] ==>
        exists i :: 0 <= i < |ts| && Grouped(ts[i], k, loc) && g[k][loc] == ts[i] && KeptAt(ts, k, loc, i)
    decreases |ts|
  {
    if ts != [] {
      var n := |ts| - 1;
      var init := Init(ts);
      var t := Last(ts);
      var ix0 := BuildIndex(init);
      var g := BuildIndex(ts).groups;
      var g0 := ix0.groups;
      BuildIndexStep(ts);
      AddTrustedByAt(ix0, t, k, loc);
      IndexKeepsPreferred(init, k, loc);
      assert forall i :: 0 <= i < n ==> ts[i] == init[i];
      if !Grouped(t, k, loc) {
        if k in g0 && loc in g0[k] {
          var i :| 0 <= i < n && Grouped(init[i], k, loc) && g0[k][loc] == init[i] && KeptAt(init, k, loc, i);
          KeptExtendsOther(ts, k, loc, i);
          assert Grouped(ts[i], k, loc) && g[k][loc] == ts[i];
        }
        GroupedInInit(ts, k, loc);
      } else if k in g0 && loc in g0[k] {
        var i :| 0 <= i < n && Grouped(init[i], k, loc) && g0[k][loc] == init[i] && KeptAt(init, k, loc, i);
        assert Grouped(ts[i], k, loc);
        KeptExtendsCollision(ts, k, loc, i);
      } else {
        assert forall j :: 0 <= j < n ==> !Grouped(ts[j], k, loc) by {
          forall j | 0 <= j < n ensures !Grouped(ts[j], k, loc) {
            assert ts[j] == init[j];
          }
        }
        KeptFirst(ts, k, loc);
      }
    }
  }

  /** Positions of the documents whose portfolio has no translation key. */
  ghost function UngroupedAt(ts: seq<TrustedBy>): set<int> {
    set i | 0 <= i < |ts| && !Truthy(PortfolioTk(ts[i]))
  }

  /** The document at `i` collides with an earlier one of its group and locale. */
  ghost predicate RepeatsAt(ts: seq<TrustedBy>, i: int)
    requires 0 <= i < |ts|
  {
    Truthy(PortfolioTk(ts[i]))
    && exists j :: 0 <= j < i && Grouped(ts[j], PortfolioTk(ts[i]).value, LocaleKey(ts[i].doc.locale))
  }

  ghost function RepeatsAtSet(ts: seq<TrustedBy>): set<int> {
    set i | 0 <= i < |ts| && RepeatsAt(ts, i)
  }

  lemma UngroupedStep(ts: seq<TrustedBy>)
    requires ts != []
    ensures |UngroupedAt(ts)| == |UngroupedAt(Init(ts))| + (if Truthy(PortfolioTk(Last(ts))) then 0 else 1)
  {
    var n := |ts| - 1;
    var prior := UngroupedAt(Init(ts));
    if Truthy(PortfolioTk(Last(ts))) {
      assert UngroupedAt(ts) == prior;
    } else {
      assert UngroupedAt(ts) == prior + {n};
      assert n !in prior;
    }
  }

  lemma RepeatsPrefix(ts: seq<TrustedBy>, i: int)
    requires ts != [] && 0 <= i < |ts| - 1
    ensures RepeatsAt(ts, i) == RepeatsAt(Init(ts), i)
  {
    assert ts[i] == Init(ts)[i];
    assert forall j :: 0 <= j < i ==> ts[j] == Init(ts)[j];
  }

  lemma RepeatsSetSplit(ts: seq<TrustedBy>)
    requires ts != []
    ensures RepeatsAtSet(ts) == RepeatsAtSet(Init(ts)) + (if RepeatsAt(ts, |ts| - 1) then {|ts| - 1} else {})
  {
    forall i | 0 <= i < |ts| - 1 ensures RepeatsAt(ts, i) == RepeatsAt(Init(ts), i) {
      RepeatsPrefix(ts, i);
    }
  }

  lemma RepeatsStep(ts: seq<TrustedBy>)
    requires ts != []
    ensures |RepeatsAtSet(ts)| == |RepeatsAtSet(Init(ts))| + (if RepeatsAt(ts, |ts| - 1) then 1 else 0)
  {
    RepeatsSetSplit(ts);
    assert |ts| - 1 !in RepeatsAtSet(Init(ts));
  }

  /** The newest document collides exactly when the index built so far holds its group and locale. */
  lemma RepeatsLastIffHeld(ts: seq<TrustedBy>)
    requires ts != [] && Truthy(PortfolioTk(Last(ts)))
    ensures var g0 := BuildIndex(Init(ts)).groups;
      var k := PortfolioTk(Last(ts)).value; var loc := LocaleKey(Last(ts).doc.locale);
      RepeatsAt(ts, |ts| - 1) <==> k in g0 && loc in g0[k]
  {
    var n := |ts| - 1;
    var init := Init(ts);
    var k := PortfolioTk(Last(ts)).value;
    var loc := LocaleKey(Last(ts).doc.locale);
    IndexKeepsPreferred(init, k, loc);
    assert forall i :: 0 <= i < n ==> ts[i] == init[i];
  }

  /** One miss per document whose portfolio has no translation key. */
  lemma {:induction false} IndexCountsMissing(ts: seq<TrustedBy>)
    ensures BuildIndex(ts).missingPortfolioTranslationKey == |UngroupedAt(ts)|
    decreases |ts|
  {
    if ts != [] {
      IndexCountsMissing(Init(ts));
      BuildIndexStep(ts);
      UngroupedStep(ts);
    }
  }

  /** One duplicate record per document that collides with an earlier one of its group and locale. */
  lemma {:induction false} IndexCountsDuplicates(ts: seq<TrustedBy>)
    ensures |BuildIndex(ts).duplicates| == |RepeatsAtSet(ts)|
    decreases |ts|
  {
    if ts != [] {
      var t := Last(ts);
      IndexCountsDuplicates(Init(ts));
      BuildIndexStep(ts);
      RepeatsStep(ts);
      if Truthy(PortfolioTk(t)) {
        RepeatsLastIffHeld(ts);
        AddTrustedByAt(BuildIndex(Init(ts)), t, PortfolioTk(t).value, LocaleKey(t.doc.locale));
      } else {
        assert !RepeatsAt(ts, |ts| - 1);
      }
    }
  }

  // ---------------------------------------------------------------- canonical order

  /** The truthy values of a list of optional strings, in order, repeats included. */
  function TruthyValues(tks: seq<Option<string>>): (r: seq<string>)
    ensures forall x :: x in r ==> x != ""
    ensures forall x :: x in r <==> Some(x) in tks && x != ""
  {
    if tks == [] then []
    else if Truthy(tks[0]) then [tks[0].value] + TruthyValues(tks[1..])
    else TruthyValues(tks[1..])
  }

  /** `t?.portfolioWork?.translationKey` for each entry of a landing's dereferenced list (a dangling reference is null). */
  function LandingTks(docs: seq<Option<TrustedBy>>): (r: seq<Option<string>>)
    ensures |r| == |docs|
  {
    seq(|docs|, i requires 0 <= i < |docs| => if docs[i].Some? then PortfolioTk(docs[i].value) else None)
  }

  /** The loop of `extractLandingPortfolioTkOrder`: append a truthy key the result does not yet include. */
  function ExtractFrom(result: seq<string>, tks: seq<Option<string>>): seq<string>
    decreases |tks|
  {
    if tks == [] then result
    else if Truthy(tks[0]) && tks[0].value !in result then ExtractFrom(result + [tks[0].value], tks[1..])
    else ExtractFrom(result, tks[1..])
  }

  function ExtractOrder(tks: seq<Option<string>>): seq<string> {
    ExtractFrom([], tks)
  }

  lemma {:induction false} ExtractFromDedup(result: seq<string>, tks: seq<Option<string>>)
    ensures ExtractFrom(result, tks) == result + DedupFrom(Elems(result), TruthyValues(tks))
    decreases |tks|
  {
    if tks == [] {
      assert result + [] == result;
    } else if Truthy(tks[0]) {
      var x := tks[0].value;
      assert TruthyValues(tks) == [x] + TruthyValues(tks[1..]);
      if x !in result {
        ExtractFromDedup(result + [x], tks[1..]);
        assert Elems(result + [x]) == Elems(result) + {x};
        assert result + [x] + DedupFrom(Elems(result) + {x}, TruthyValues(tks[1..]))
            == result + ([x] + DedupFrom(Elems(result) + {x}, TruthyValues(tks[1..])));
      } else {
        assert x in Elems(result);
        ExtractFromDedup(result, tks[1..]);
      }
    } else {
      ExtractFromDedup(result, tks[1..]);
    }
  }

  /**
   * A landing's order is its truthy portfolio keys with repeats dropped, in
   * first-occurrence order: no key twice, no empty key, every key present.
   */
  lemma ExtractOrderSpec(tks: seq<Option<string>>)
    ensures ExtractOrder(tks) == Dedup(TruthyValues(tks))
    ensures NoDup(ExtractOrder(tks))
    ensures forall x :: x in ExtractOrder(tks) <==> Some(x) in tks && x != ""
  {
    ExtractFromDedup([], tks);
    var none: seq<string> := [];
    assert Elems(none) == {};
    var r := ExtractOrder(tks);
    assert r == DedupFrom({}, TruthyValues(tks));
    assert Elems(r) == Elems(TruthyValues(tks));
    forall x ensures x in r <==> Some(x) in tks && x != "" {
      assert x in r <==> x in Elems(r);
      assert x in TruthyValues(tks) <==> x in Elems(TruthyValues(tks));
    }
  }

  /** One `for … of` pass of `buildCanonicalOrder`: skip what was seen, otherwise remember it and append it. */
  function MergePass(seen: set<string>, merged: seq<string>, tks: seq<string>): (r: (set<string>, seq<string>))
    ensures r.0 == seen + Elems(tks)
    ensures r.1 == merged + DedupFrom(seen, tks)
    decreases |tks|
  {
    if tks == [] then
      assert merged + [] == merged;
      (seen, merged)
    else
      assert Elems(tks) == {tks[0]} + Elems(tks[1..]);
      if tks[0] in seen then MergePass(seen, merged, tks[1..])
      else
        var r := MergePass(seen + {tks[0]}, merged + [tks[0]], tks[1..]);
        assert merged + [tks[0]] + DedupFrom(seen + {tks[0]}, tks[1..])
            == merged + ([tks[0]] + DedupFrom(seen + {tks[0]}, tks[1..]));
        r
  }

  /** `buildCanonicalOrder`: the en landing's order, then the lv landing's keys not yet seen. */
  function CanonicalOrder(en: seq<string>, lv: seq<string>): seq<string> {
    var first := MergePass({}, [], en);
    MergePass(first.0, first.1, lv).1
  }

  /**
   * The canonical order is the two orders concatenated with repeats
   * dropped; for duplicate-free landing orders that is the en order followed
   * by the lv keys the en landing lacks. No key occurs twice and every key
   * of either landing occurs.
   */
  lemma CanonicalOrderSpec(en: seq<string>, lv: seq<string>)
    ensures CanonicalOrder(en, lv) == Dedup(en + lv)
    ensures NoDup(CanonicalOrder(en, lv))
    ensures Elems(CanonicalOrder(en, lv)) == Elems(en) + Elems(lv)
    ensures NoDup(en) && NoDup(lv) ==> CanonicalOrder(en, lv) == en + Without(lv, Elems(en))
  {
    DedupFromAppend({}, en, lv);
    assert {} + Elems(en) == Elems(en);
    assert [] + DedupFrom({}, en) == DedupFrom({}, en);
    ElemsAppend(en, lv);
    if NoDup(en) && NoDup(lv) {
      DedupFromDistinct({}, en);
      DedupFromDistinct(Elems(en), lv);
      WithoutDisjoint(en, {});
    }
  }

  // ---------------------------------------------------------------- optional extension of the order

  /** A group the landings do not list, with the name it is sorted by. */
  datatype Extra = Extra(portfolioTk: string, name: string)

  /** `group?.en || group?.lv`. */
  function BaseOf(group: map<string, TrustedBy>): (r: Option<TrustedBy>)
    ensures r.Some? <==> "en" in group || "lv" in group
    ensures "en" in group ==> r == Some(group["en"])
  {
    if "en" in group then Some(group["en"]) else if "lv" in group then Some(group["lv"]) else None
  }

  /** `baseDoc?.name || ''` for a group of the index. */
  function GroupName(ix: TrustedByIndex, k: string): string {
    var base := if k in ix.groups then BaseOf(ix.groups[k]) else None;
    if base.Some? then OrElse(base.value.doc.name, "") else ""
  }

  /** The index's groups, in insertion order, that `seen` does not hold. */
  function Extras(ix: TrustedByIndex, keys: seq<string>, seen: set<string>): (r: seq<Extra>)
    ensures ExtraTks(r) == Without(keys, seen)
    ensures forall e :: e in r ==> e.name == GroupName(ix, e.portfolioTk)
  {
    if keys == [] then []
    else if keys[0] in seen then Extras(ix, keys[1..], seen)
    else [Extra(keys[0], GroupName(ix, keys[0]))] + Extras(ix, keys[1..], seen)
  }

  function ExtraTks(es: seq<Extra>): (r: seq<string>)
    ensures |r| == |es|
    ensures forall i :: 0 <= i < |es| ==> r[i] == es[i].portfolioTk
  {
    if es == [] then [] else [es[0].portfolioTk] + ExtraTks(es[1..])
  }

  /**
   * Sorted by name under a collation `rank` (the model of `localeCompare`:
   * a name sorts before another exactly when its rank is smaller).
   */
  predicate SortedByName(es: seq<Extra>, rank: string -> int) {
    forall i, j :: 0 <= i < j < |es| ==> rank(es[i].name) <= rank(es[j].name)
  }

  /** The extras whose name has collation rank `v`, in order. */
  function WithRank(es: seq<Extra>, rank: string -> int, v: int): seq<Extra> {
    if es == [] then []
    else if rank(es[0].name) == v then [es[0]] + WithRank(es[1..], rank, v)
    else WithRank(es[1..], rank, v)
  }

  /** Insert after every element that does not sort after `x`. */
  function Insert(es: seq<Extra>, x: Extra, rank: string -> int): (r: seq<Extra>)
    ensures |r| == |es| + 1
    ensures multiset(r) == multiset(es) + multiset{x}
    ensures forall e :: e in r <==> e in es || e == x
    decreases |es|
  {
    if es == [] then [x]
    else if rank(es[0].name) <= rank(x.name) then
      assert es == [es[0]] + es[1..];
      [es[0]] + Insert(es[1..], x, rank)
    else [x] + es
  }

  /** `extras.sort(...)` with a comparator: a stable sort, modelled as insertion from left to right. */
  function SortByName(es: seq<Extra>, rank: string -> int): (r: seq<Extra>)
    ensures |r| == |es|
    ensures multiset(r) == multiset(es)
    ensures forall e :: e in r <==> e in es
    decreases |es|
  {
    if es == [] then []
    else
      assert es == Init(es) + [Last(es)];
      Insert(SortByName(Init(es), rank), Last(es), rank)
  }

  /** The head of a sorted sequence ranks no higher than anything inserted after it. */
  lemma HeadRanksFirst(es: seq<Extra>, x: Extra, rank: string -> int)
    requires SortedByName(es, rank) && es != [] && rank(es[0].name) <= rank(x.name)
    ensures forall e :: e in Insert(es[1..], x, rank) ==> rank(es[0].name) <= rank(e.name)
  {
    var tail := es[1..];
    forall e | e in Insert(tail, x, rank) ensures rank(es[0].name) <= rank(e.name) {
      if e in tail {
        var j :| 0 <= j < |tail| && tail[j] == e;
        assert es[j + 1] == e;
      }
    }
  }

  /** A sorted sequence stays sorted behind an element that ranks no higher than any of it. */
  lemma ConsSorted(h: Extra, rest: seq<Extra>, rank: string -> int)
    requires SortedByName(rest, rank)
    requires forall e :: e in rest ==> rank(h.name) <= rank(e.name)
    ensures SortedByName([h] + rest, rank)
  {
    var r := [h] + rest;
    forall i, j | 0 <= i < j < |r| ensures rank(r[i].name) <= rank(r[j].name) {
      if i == 0 {
        assert r[j] == rest[j - 1] && rest[j - 1] in rest;
      } else {
        assert r[i] == rest[i - 1] && r[j] == rest[j - 1];
      }
    }
  }

  lemma {:induction false} InsertSorted(es: seq<Extra>, x: Extra, rank: string -> int)
    requires SortedByName(es, rank)
    ensures SortedByName(Insert(es, x, rank), rank)
    decreases |es|
  {
    if es != [] && rank(es[0].name) <= rank(x.name) {
      var tail := es[1..];
      assert SortedByName(tail, rank);
      InsertSorted(tail, x, rank);
      var rest := Insert(tail, x, rank);
      HeadRanksFirst(es, x, rank);
      ConsSorted(es[0], rest, rank);
    }
  }

  /** Inserting `x` adds it to the extras of its rank, after the ones already there. */
  lemma {:induction false} InsertStable(es: seq<Extra>, x: Extra, rank: string -> int, v: int)
    requires SortedByName(es, rank)
    ensures WithRank(Insert(es, x, rank), rank, v) == WithRank(es, rank, v) + (if rank(x.name) == v then [x] else [])
    decreases |es|
  {
    if es == [] {
    } else if rank(es[0].name) <= rank(x.name) {
      InsertStable(es[1..], x, rank, v);
    } else {
      assert WithRank(es, rank, rank(x.name)) == [] by {
        NoneWithRank(es, rank, rank(x.name));
      }
    }
  }

  lemma {:induction false} NoneWithRank(es: seq<Extra>, rank: string -> int, v: int)
    requires forall i :: 0 <= i < |es| ==> rank(es[i].name) > v
    ensures WithRank(es, rank, v) == []
    decreases |es|
  {
    if es != [] {
      NoneWithRank(es[1..], rank, v);
    }
  }

  lemma {:induction false} WithRankAppend(a: seq<Extra>, x: Extra, rank: string -> int, v: int)
    ensures WithRank(a + [x], rank, v) == WithRank(a, rank, v) + (if rank(x.name) == v then [x] else [])
    decreases |a|
  {
    if a == [] {
      assert a + [x] == [x];
    } else {
      assert (a + [x])[1..] == a[1..] + [x];
      WithRankAppend(a[1..], x, rank, v);
    }
  }

  lemma {:induction false} SortSorted(es: seq<Extra>, rank: string -> int)
    ensures SortedByName(SortByName(es, rank), rank)
    decreases |es|
  {
    if es != [] {
      SortSorted(Init(es), rank);
      InsertSorted(SortByName(Init(es), rank), Last(es), rank);
    }
  }

  lemma {:induction false} SortStable(es: seq<Extra>, rank: string -> int, v: int)
    ensures WithRank(SortByName(es, rank), rank, v) == WithRank(es, rank, v)
    decreases |es|
  {
    if es != [] {
      var init := Init(es);
      var x := Last(es);
      var extra := if rank(x.name) == v then [x] else [];
      SortStable(init, rank, v);
      SortSorted(init, rank);
      SortStep(es, rank);
      InsertStable(SortByName(init, rank), x, rank, v);
      assert WithRank(SortByName(es, rank), rank, v) == WithRank(init, rank, v) + extra;
      InitLast(es);
      WithRankAppend(init, x, rank, v);
    }
  }

  lemma SortStep(es: seq<Extra>, rank: string -> int)
    requires es != []
    ensures SortByName(es, rank) == Insert(SortByName(Init(es), rank), Last(es), rank)
  {
  }

  /**
   * The sort orders the extras by name, keeps each of them, and is stable:
   * the extras of any one collation rank stay in their input order.
   */
  lemma SortByNameSpec(es: seq<Extra>, rank: string -> int)
    ensures SortedByName(SortByName(es, rank), rank)
    ensures multiset(SortByName(es, rank)) == multiset(es)
    ensures forall v :: WithRank(SortByName(es, rank), rank, v) == WithRank(es, rank, v)
  {
    SortSorted(es, rank);
    forall v ensures WithRank(SortByName(es, rank), rank, v) == WithRank(es, rank, v) {
      SortStable(es, rank, v);
    }
  }

  /** `extendOrderWithExistingTrustedBy`: the order, then the index's unlisted groups sorted by name. */
  function ExtendOrder(order: seq<string>, ix: TrustedByIndex, rank: string -> int): seq<string> {
    order + ExtraTks(SortByName(Extras(ix, ix.keys, Elems(order)), rank))
  }

  /** No two extras share a group key. */
  predicate KeysDistinct(es: seq<Extra>) {
    forall i, j :: 0 <= i < j < |es| ==> es[i].portfolioTk != es[j].portfolioTk
  }

  lemma {:induction false} InsertDistinct(es: seq<Extra>, x: Extra, rank: string -> int)
    requires KeysDistinct(es)
    requires forall e :: e in es ==> e.portfolioTk != x.portfolioTk
    ensures KeysDistinct(Insert(es, x, rank))
    decreases |es|
  {
    if es != [] && rank(es[0].name) <= rank(x.name) {
      var tail := es[1..];
      InsertDistinct(tail, x, rank);
      var rest := Insert(tail, x, rank);
      forall e | e in rest ensures e.portfolioTk != es[0].portfolioTk {
        if e in tail {
          var j :| 0 <= j < |tail| && tail[j] == e;
          assert es[j + 1] == e;
        }
      }
      var r := [es[0]] + rest;
      forall i, j | 0 <= i < j < |r| ensures r[i].portfolioTk != r[j].portfolioTk {
        if i == 0 {
          assert r[j] == rest[j - 1] && rest[j - 1] in rest;
        } else {
          assert r[i] == rest[i - 1] && r[j] == rest[j - 1];
        }
      }
    } else if es != [] {
      var r := [x] + es;
      forall i, j | 0 <= i < j < |r| ensures r[i].portfolioTk != r[j].portfolioTk {
        if i == 0 {
          assert r[j] == es[j - 1] && es[j - 1] in es;
        } else {
          assert r[i] == es[i - 1] && r[j] == es[j - 1];
        }
      }
    }
  }

  /** Sorting keeps the group keys distinct. */
  lemma {:induction false} SortDistinct(es: seq<Extra>, rank: string -> int)
    requires KeysDistinct(es)
    ensures KeysDistinct(SortByName(es, rank))
    decreases |es|
  {
    if es != [] {
      var init := Init(es);
      assert KeysDistinct(init) by {
        assert forall i :: 0 <= i < |init| ==> init[i] == es[i];
      }
      SortDistinct(init, rank);
      forall e | e in SortByName(init, rank) ensures e.portfolioTk != Last(es).portfolioTk {
        var j :| 0 <= j < |init| && init[j] == e;
        assert es[j] == e;
      }
      InsertDistinct(SortByName(init, rank), Last(es), rank);
    }
  }

  /** Two lists holding the same extras hold the same group keys. */
  lemma SameMembersSameTks(es: seq<Extra>, es': seq<Extra>)
    requires forall e :: e in es <==> e in es'
    ensures Elems(ExtraTks(es)) == Elems(ExtraTks(es'))
  {
    forall k | k in Elems(ExtraTks(es)) ensures k in Elems(ExtraTks(es')) {
      var i :| 0 <= i < |es| && ExtraTks(es)[i] == k;
      assert es[i] in es';
      var j :| 0 <= j < |es'| && es'[j] == es[i];
      assert ExtraTks(es')[j] == k;
    }
    forall k | k in Elems(ExtraTks(es')) ensures k in Elems(ExtraTks(es)) {
      var i :| 0 <= i < |es'| && ExtraTks(es')[i] == k;
      assert es'[i] in es;
      var j :| 0 <= j < |es| && es[j] == es'[i];
      assert ExtraTks(es)[j] == k;
    }
  }

  lemma ExtraTksAppend(es: seq<Extra>, x: Extra)
    ensures ExtraTks(es + [x]) == ExtraTks(es) + [x.portfolioTk]
  {
  }

  /**
   * The extended order keeps the canonical order as its prefix and appends
   * every indexed group the order lacks, once each, sorted by group name;
   * so the result still holds no key twice.
   */
  lemma ExtendOrderSpec(order: seq<string>, ix: TrustedByIndex, rank: string -> int)
    requires NoDup(order) && NoDup(ix.keys)
    ensures var r := ExtendOrder(order, ix, rank);
      && r[..|order|] == order
      && Elems(r[|order|..]) == Elems(ix.keys) - Elems(order)
      && NoDup(r)
      && forall i, j :: |order| <= i < j < |r| ==> rank(GroupName(ix, r[i])) <= rank(GroupName(ix, r[j]))
  {
    var es := Extras(ix, ix.keys, Elems(order));
    var sorted := SortByName(es, rank);
    var tail := ExtraTks(sorted);
    var r := order + tail;
    assert r[..|order|] == order;
    assert r[|order|..] == tail;
    WithoutElems(ix.keys, Elems(order));
    WithoutNoDup(ix.keys, Elems(order));
    assert KeysDistinct(es) by {
      assert NoDup(ExtraTks(es));
      assert forall i :: 0 <= i < |es| ==> ExtraTks(es)[i] == es[i].portfolioTk;
    }
    SortDistinct(es, rank);
    SameMembersSameTks(es, sorted);
    SortSorted(es, rank);
    assert Elems(tail) == Elems(ix.keys) - Elems(order);
    forall i, j | 0 <= i < j < |r| ensures r[i] != r[j] {
      if j >= |order| && i < |order| {
        assert r[j] == tail[j - |order|];
        assert r[j] in Elems(tail);
        assert r[i] in Elems(order);
      } else if i >= |order| {
        assert r[i] == tail[i - |order|] && r[j] == tail[j - |order|];
      }
    }
    forall i, j | |order| <= i < j < |r| ensures rank(GroupName(ix, r[i])) <= rank(GroupName(ix, r[j])) {
      assert sorted[i - |order|] in multiset(es) && sorted[j - |order|] in multiset(es);
      assert sorted[i - |order|] in es && sorted[j - |order|] in es;
    }
  }
}
