/**
 * The translation-key backfill for a fixed list of English/Latvian
 * portfolio pairs: both documents of a pair (each in both its states) get
 * one shared translation key, the Latvian one's if it has one.
 */
module BackfillTranslationKeys {
  import opened Wrappers
  import opened Text
  import opened Documents

  const PortfolioType: string := "portfolio"

  /** A pair of sibling portfolio slugs. */
  datatype SlugPair = SlugPair(enSlug: string, lvSlug: string)

  const Pairs: seq<SlugPair> := [
    SlugPair("cliptell-logotype", "cliptell-jauns-logotips-b2b-video-marketinga-uznemuma-izaugsmei"),
    SlugPair("environmental-installation-for-riga-birthday-823", "vides-instalacija-rigas-823-dzimsanas-diena"),
    SlugPair("ilona-tanne-brand-identity", "ilona-tanne-veselibas-zimola-identitate-kas-vada-personisko-transformaciju"),
    SlugPair("made-it-podcast-by-beta-beidz", "made-it-podkasta-identitate-dizains-kas-palidz-izcelt-neatklatus-stastus"),
    SlugPair("majas-cesis-website-design", "majas-cesis-kureta-mantojuma-naktsmitnu-un-unikalu-pieredzu-kolekcija-cesis"),
    SlugPair("marketing-academy-website-design", "marketinga-akademija-informacija-mainas-bet-zinasanas-paliek"),
    SlugPair("mikelitis-logotype", "mikelitis-maiznicas-parveide-latvijas-mantojums-ziemelu-dizains"),
    SlugPair("moneo-10", "moneo-10-godinot-desmit-gadus-biznesa-vadiba"),
    SlugPair("ozols-gym-brand-identity", "ozols-premium-sporta-kluba-izveide-izmantojot-strategisku-dizainu"),
    SlugPair("teh-annual-report-2024-design", "teh-gada-parskats-dizains-kas-pastiprina-zimola-mantojumu"),
    SlugPair("the-soldout-concept-when-ticketing-becomes-part-of-the-experience", "soldout-koncepts-bilesu-iegade-ka-dala-no-pasakuma-pieredzes"),
    SlugPair("trans-europe-halles-100-event-identity", "teh-pasakuma-identitate-digitalais-audekls-eiropas-kulturas-nakotnei")
  ]

  predicate IsPortfolioIn(d: Doc, slug: string, locale: string) {
    d.docType == PortfolioType && d.locale == Some(locale) && d.slug == Some(slug)
  }

  /** `fetchPortfolioBySlugAndLocale(slug, locale)`: the position of the first match. */
  function FindPortfolio(s: Store, slug: string, locale: string): (r: Option<nat>)
    ensures r.Some? ==>
      && r.value < |s| && IsPortfolioIn(s[r.value], slug, locale)
      && forall j :: 0 <= j < r.value ==> !IsPortfolioIn(s[j], slug, locale)
    ensures r.None? ==> forall j :: 0 <= j < |s| ==> !IsPortfolioIn(s[j], slug, locale)
  {
    if s == [] then None
    else if IsPortfolioIn(s[0], slug, locale) then Some(0)
    else match FindPortfolio(s[1..], slug, locale)
      case None => None
      case Some(i) => Some(i + 1)
  }

  /** The shared key: the Latvian document's, else the English one's, else a fresh one. */
  function TargetKey(en: Doc, lv: Doc, keys: Keys): (r: (string, Keys))
    ensures Truthy(lv.translationKey) ==> r == (lv.translationKey.value, keys)
    ensures !Truthy(lv.translationKey) && Truthy(en.translationKey) ==> r == (en.translationKey.value, keys)
    ensures !Truthy(lv.translationKey) && !Truthy(en.translationKey) ==> r == (keys.Fresh(), keys.Advance())
  {
    if Truthy(lv.translationKey) then (lv.translationKey.value, keys)
    else if Truthy(en.translationKey) then (en.translationKey.value, keys)
    else (keys.Fresh(), keys.Advance())
  }

  function KeyPatch(key: string): Patch {
    Patch(Some(key), None, None)
  }

  /** `patchTranslationKey(id, key)`: both states, nothing for a missing id or key. */
  function PatchTranslationKey(id: string, key: string): (ws: seq<Write>)
    ensures id == "" || key == "" ==> ws == []
    ensures id != "" && key != "" ==> ws == PatchBothStates(id, KeyPatch(key))
    ensures forall w :: w in ws ==> IsKeyWrite(w)
  {
    if id == "" || key == "" then [] else PatchBothStates(id, KeyPatch(key))
  }

  /** Both documents of a pair are in the store. */
  predicate Found(s: Store, pair: SlugPair) {
    FindPortfolio(s, pair.enSlug, "en").Some? && FindPortfolio(s, pair.lvSlug, "lv").Some?
  }

  /** The positions of a pair's two documents: none unless both are found. */
  function PairPositions(s: Store, pair: SlugPair): (r: set<nat>)
    ensures forall i :: i in r ==> i < |s|
    ensures Found(s, pair) <==> r != {}
  {
    if Found(s, pair) then {FindPortfolio(s, pair.enSlug, "en").value, FindPortfolio(s, pair.lvSlug, "lv").value} else {}
  }

  /** Both documents of a pair are found and carry the same non-empty translation key. */
  predicate SharesKey(s: Store, pair: SlugPair) {
    && Found(s, pair)
    && var en := s[FindPortfolio(s, pair.enSlug, "en").value];
       var lv := s[FindPortfolio(s, pair.lvSlug, "lv").value];
       Truthy(en.translationKey) && en.translationKey == lv.translationKey
  }

  /** A pair's patches reach the document `id`: it is a state of one of the pair's two documents. */
  predicate Touched(s: Store, pair: SlugPair, id: string) {
    && Found(s, pair)
    && (|| IsVariantOf(id, s[FindPortfolio(s, pair.enSlug, "en").value].id)
        || IsVariantOf(id, s[FindPortfolio(s, pair.lvSlug, "lv").value].id))
  }

  /** `t` is `s` with at most the translation keys changed. */
  predicate KeysOnlyChanged(s: Store, t: Store) {
    |t| == |s| && forall i :: 0 <= i < |s| ==> t[i] == s[i].(translationKey := t[i].translationKey)
  }

  /** One pair: the patches of both documents, unless one is missing or they already share the key. */
  function BackfillPair(s: Store, pair: SlugPair, keys: Keys): (r: (seq<Write>, Keys))
    ensures !Found(s, pair) ==> r == ([], keys)
    ensures Found(s, pair) ==>
      var en := s[FindPortfolio(s, pair.enSlug, "en").value];
      var lv := s[FindPortfolio(s, pair.lvSlug, "lv").value];
      var (key, keys') := TargetKey(en, lv, keys);
      r == (if en.translationKey == Some(key) && lv.translationKey == Some(key) then []
            else PatchTranslationKey(en.id, key) + PatchTranslationKey(lv.id, key),
            keys')
    ensures r.0 != [] ==>
      var en := s[FindPortfolio(s, pair.enSlug, "en").value];
      var lv := s[FindPortfolio(s, pair.lvSlug, "lv").value];
      var key := TargetKey(en, lv, keys).0;
      && !(en.translationKey == Some(key) && lv.translationKey == Some(key))
      && r.0 == PatchTranslationKey(en.id, key) + PatchTranslationKey(lv.id, key)
    ensures forall w :: w in r.0 ==> IsKeyWrite(w)
  {
    match (FindPortfolio(s, pair.enSlug, "en"), FindPortfolio(s, pair.lvSlug, "lv"))
    case (Some(i), Some(j)) =>
      var (en, lv) := (s[i], s[j]);
      var (key, keys') := TargetKey(en, lv, keys);
      if en.translationKey == Some(key) && lv.translationKey == Some(key) then ([], keys')
      else (PatchTranslationKey(en.id, key) + PatchTranslationKey(lv.id, key), keys')
    case _ => ([], keys)
  }

  /** Patching one document's key in both states, by position. */
  lemma PatchKeyEffect(s: Store, id: string, key: string)
    requires id != "" && key != ""
    ensures var r := ApplyAll(s, PatchTranslationKey(id, key));
      && |r| == |s|
      && forall i :: 0 <= i < |s| ==>
           r[i] == if IsVariantOf(s[i].id, id) then s[i].(translationKey := Some(key)) else s[i]
  {
    PatchBothStatesEffect(s, id, KeyPatch(key));
  }

  /**
   * After a pair's patches every state of both documents carries the
   * shared key, and no other document changes.
   */
  lemma BackfillPairEffect(s: Store, en: string, lv: string, key: string)
    requires en != "" && lv != "" && key != ""
    ensures var r := ApplyAll(s, PatchTranslationKey(en, key) + PatchTranslationKey(lv, key));
      && |r| == |s|
      && forall i :: 0 <= i < |s| ==>
           r[i] == if IsVariantOf(s[i].id, en) || IsVariantOf(s[i].id, lv) then s[i].(translationKey := Some(key)) else s[i]
  {
    var a := PatchTranslationKey(en, key);
    var b := PatchTranslationKey(lv, key);
    ApplyAllAppend(s, a, b);
    PatchKeyEffect(s, en, key);
    PatchKeyEffect(ApplyAll(s, a), lv, key);
  }

  /** Finding a portfolio only reads type, locale and slug. */
  lemma {:induction false} FindIgnoresKeys(s: Store, s': Store, slug: string, locale: string)
    requires |s'| == |s|
    requires forall i :: 0 <= i < |s| ==> IsPortfolioIn(s'[i], slug, locale) == IsPortfolioIn(s[i], slug, locale)
    ensures FindPortfolio(s', slug, locale) == FindPortfolio(s, slug, locale)
  {
    if s != [] {
      assert forall i :: 0 <= i < |s[1..]| ==> s[1..][i] == s[i + 1] && s'[1..][i] == s'[i + 1];
      FindIgnoresKeys(s[1..], s'[1..], slug, locale);
    }
  }

  /** Backfilling a pair twice: the second time both documents share the key and nothing is written. */
  lemma BackfillPairIdempotent(s: Store, pair: SlugPair, keys: Keys)
    requires keys.Valid()
    requires forall d :: d in s ==> d.id != ""
    ensures var r := BackfillPair(s, pair, keys);
      BackfillPair(ApplyAll(s, r.0), pair, r.1).0 == []
  {
    var r := BackfillPair(s, pair, keys);
    if r.0 != [] {
      var i := FindPortfolio(s, pair.enSlug, "en").value;
      var j := FindPortfolio(s, pair.lvSlug, "lv").value;
      var key := TargetKey(s[i], s[j], keys).0;
      assert key != "" by {
        if !Truthy(s[j].translationKey) && !Truthy(s[i].translationKey) {
          assert keys.gen(keys.next) != "";
        }
      }
      assert s[i] in s && s[j] in s;
      BackfillPairEffect(s, s[i].id, s[j].id, key);
      var s' := ApplyAll(s, r.0);
      FindIgnoresKeys(s, s', pair.enSlug, "en");
      FindIgnoresKeys(s, s', pair.lvSlug, "lv");
      assert s'[i].translationKey == Some(key) && s'[j].translationKey == Some(key);
    }
  }

  /** Keys drawn for the backfill are never empty, so neither is the shared key. */
  lemma TargetKeyNonEmpty(en: Doc, lv: Doc, keys: Keys)
    requires keys.Valid()
    ensures TargetKey(en, lv, keys).0 != "" && TargetKey(en, lv, keys).1.Valid()
  {
    if !Truthy(lv.translationKey) && !Truthy(en.translationKey) {
      assert keys.gen(keys.next) != "";
    }
  }

  /** Finding by slug and locale is blind to translation keys. */
  lemma FindAfterKeyChanges(s: Store, t: Store, pair: SlugPair)
    requires KeysOnlyChanged(s, t)
    ensures FindPortfolio(t, pair.enSlug, "en") == FindPortfolio(s, pair.enSlug, "en")
    ensures FindPortfolio(t, pair.lvSlug, "lv") == FindPortfolio(s, pair.lvSlug, "lv")
  {
    FindIgnoresKeys(s, t, pair.enSlug, "en");
    FindIgnoresKeys(s, t, pair.lvSlug, "lv");
  }

  /**
   * One pair's effect: only translation keys change, only on the states
   * of the pair's two documents, and afterwards both carry the target key.
   */
  lemma BackfillPairSharesKey(s: Store, pair: SlugPair, keys: Keys)
    requires keys.Valid()
    requires forall d :: d in s ==> d.id != ""
    ensures var r := BackfillPair(s, pair, keys);
      var t := ApplyAll(s, r.0);
      && r.1.Valid()
      && KeysOnlyChanged(s, t)
      && (forall i :: 0 <= i < |s| && !Touched(s, pair, s[i].id) ==> t[i] == s[i])
      && (Found(s, pair) ==>
            var en := s[FindPortfolio(s, pair.enSlug, "en").value];
            var lv := s[FindPortfolio(s, pair.lvSlug, "lv").value];
            && t[FindPortfolio(s, pair.enSlug, "en").value].translationKey == Some(TargetKey(en, lv, keys).0)
            && t[FindPortfolio(s, pair.lvSlug, "lv").value].translationKey == Some(TargetKey(en, lv, keys).0))
      && (Found(s, pair) ==> SharesKey(t, pair))
  {
    var r := BackfillPair(s, pair, keys);
    var t := ApplyAll(s, r.0);
    if Found(s, pair) {
      var i := FindPortfolio(s, pair.enSlug, "en").value;
      var j := FindPortfolio(s, pair.lvSlug, "lv").value;
      TargetKeyNonEmpty(s[i], s[j], keys);
      if r.0 != [] {
        assert s[i] in s && s[j] in s;
        PatchPairEffect(s, i, j, TargetKey(s[i], s[j], keys).0);
      }
      FindAfterKeyChanges(s, t, pair);
    }
  }

  /** Patching the documents at positions `i` and `j`, by position. */
  lemma PatchPairEffect(s: Store, i: nat, j: nat, key: string)
    requires i < |s| && j < |s| && s[i].id != "" && s[j].id != "" && key != ""
    ensures var t := ApplyAll(s, PatchTranslationKey(s[i].id, key) + PatchTranslationKey(s[j].id, key));
      && KeysOnlyChanged(s, t)
      && (forall x :: 0 <= x < |s| && !IsVariantOf(s[x].id, s[i].id) && !IsVariantOf(s[x].id, s[j].id) ==> t[x] == s[x])
      && t[i].translationKey == Some(key) && t[j].translationKey == Some(key)
  {
    BackfillPairEffect(s, s[i].id, s[j].id, key);
    IdIsBaseOrDraft(s[i].id);
    IdIsBaseOrDraft(s[j].id);
  }

  /** Changing translation keys changes neither which documents a pair finds nor which it touches. */
  lemma TouchedAfterKeyChanges(s: Store, t: Store, pair: SlugPair)
    requires KeysOnlyChanged(s, t)
    ensures Found(t, pair) == Found(s, pair) && PairPositions(t, pair) == PairPositions(s, pair)
    ensures forall id :: Touched(t, pair, id) == Touched(s, pair, id)
  {
    FindAfterKeyChanges(s, t, pair);
  }

  /**
   * A pair's documents are left alone by every later pair: no later pair
   * touches either of them.
   */
  predicate UntouchedLater(s: Store, pairs: seq<SlugPair>, k: nat) {
    forall m, i :: k < m < |pairs| && i in PairPositions(s, pairs[k]) ==> !Touched(s, pairs[m], s[i].id)
  }

  /** No pair touches the document `id`. */
  predicate UntouchedByAll(s: Store, pairs: seq<SlugPair>, id: string) {
    forall m :: 0 <= m < |pairs| ==> !Touched(s, pairs[m], id)
  }

  /** A document no pair touches is the same in `t` as in `s`. */
  predicate UntouchedKept(s: Store, t: Store, pairs: seq<SlugPair>)
    requires |t| == |s|
  {
    forall i :: 0 <= i < |s| && UntouchedByAll(s, pairs, s[i].id) ==> t[i] == s[i]
  }

  /** Every pair found in `s` whose documents no later pair touches shares one key in `t`. */
  predicate SeparatePairsShare(s: Store, t: Store, pairs: seq<SlugPair>) {
    forall k :: 0 <= k < |pairs| && Found(s, pairs[k]) && UntouchedLater(s, pairs, k) ==> SharesKey(t, pairs[k])
  }

  /**
   * The backfill over a list of pairs: only translation keys change, a
   * document no pair touches is unchanged, and every found pair whose
   * documents no later pair touches ends up sharing one key.
   */
  lemma {:induction false} BackfillPairsShareKeys(s: Store, pairs: seq<SlugPair>, keys: Keys)
    requires keys.Valid()
    requires forall d :: d in s ==> d.id != ""
    ensures var t := BackfillPairs(s, pairs, keys).1;
      KeysOnlyChanged(s, t) && UntouchedKept(s, t, pairs) && SeparatePairsShare(s, t, pairs)
    decreases |pairs|
  {
    var t := BackfillPairs(s, pairs, keys).1;
    if pairs == [] {
      assert t == s;
    } else {
      var one := BackfillPair(s, pairs[0], keys);
      var s1 := ApplyAll(s, one.0);
      BackfillPairSharesKey(s, pairs[0], keys);
      KeyChangesKeepIdsSet(s, s1);
      BackfillPairsShareKeys(s1, pairs[1..], one.1);
      assert t == BackfillPairs(s1, pairs[1..], one.1).1;
      BackfillPairsCombine(s, s1, t, pairs);
    }
  }

  lemma KeyChangesKeepIdsSet(s: Store, t: Store)
    requires KeysOnlyChanged(s, t)
    requires forall d :: d in s ==> d.id != ""
    ensures forall d :: d in t ==> d.id != ""
  {
    forall d | d in t ensures d.id != "" {
      var i :| 0 <= i < |t| && t[i] == d;
      assert s[i] in s;
    }
  }

  /** The first pair's effect and the rest's, put together. */
  lemma BackfillPairsCombine(s: Store, s1: Store, t: Store, pairs: seq<SlugPair>)
    requires pairs != []
    requires KeysOnlyChanged(s, s1) && KeysOnlyChanged(s1, t)
    requires forall i :: 0 <= i < |s| && !Touched(s, pairs[0], s[i].id) ==> s1[i] == s[i]
    requires Found(s, pairs[0]) ==> SharesKey(s1, pairs[0])
    requires UntouchedKept(s1, t, pairs[1..]) && SeparatePairsShare(s1, t, pairs[1..])
    ensures KeysOnlyChanged(s, t) && UntouchedKept(s, t, pairs) && SeparatePairsShare(s, t, pairs)
  {
    forall m | 0 <= m < |pairs| ensures forall id :: Touched(s1, pairs[m], id) == Touched(s, pairs[m], id) {
      TouchedAfterKeyChanges(s, s1, pairs[m]);
    }
    assert forall m :: 1 <= m < |pairs| ==> pairs[1..][m - 1] == pairs[m];
    forall i | 0 <= i < |s| && UntouchedByAll(s, pairs, s[i].id) ensures t[i] == s[i] {
      assert !Touched(s, pairs[0], s[i].id);
      assert UntouchedByAll(s1, pairs[1..], s1[i].id);
    }
    forall k | 0 <= k < |pairs| && Found(s, pairs[k]) && UntouchedLater(s, pairs, k) ensures SharesKey(t, pairs[k]) {
      BackfillPairsStep(s, s1, t, pairs, k);
    }
  }

  /** The step of the induction above for one pair `k`, given what holds for the first pair and the rest. */
  lemma BackfillPairsStep(s: Store, s1: Store, t: Store, pairs: seq<SlugPair>, k: nat)
    requires 0 <= k < |pairs| && Found(s, pairs[k]) && UntouchedLater(s, pairs, k)
    requires KeysOnlyChanged(s, s1) && KeysOnlyChanged(s1, t)
    requires Found(s, pairs[0]) ==> SharesKey(s1, pairs[0])
    requires forall m, id :: 0 <= m < |pairs| ==> Touched(s1, pairs[m], id) == Touched(s, pairs[m], id)
    requires UntouchedKept(s1, t, pairs[1..]) && SeparatePairsShare(s1, t, pairs[1..])
    ensures SharesKey(t, pairs[k])
  {
    FindAfterKeyChanges(s, s1, pairs[k]);
    FindAfterKeyChanges(s1, t, pairs[k]);
    assert PairPositions(s1, pairs[k]) == PairPositions(s, pairs[k]);
    assert forall i :: 0 <= i < |s| ==> s1[i].id == s[i].id;
    if k == 0 {
      var i := FindPortfolio(s, pairs[0].enSlug, "en").value;
      var j := FindPortfolio(s, pairs[0].lvSlug, "lv").value;
      assert i in PairPositions(s, pairs[0]) && j in PairPositions(s, pairs[0]);
      assert forall m :: 1 <= m < |pairs| ==> pairs[1..][m - 1] == pairs[m];
      assert UntouchedByAll(s1, pairs[1..], s1[i].id);
      assert UntouchedByAll(s1, pairs[1..], s1[j].id);
    } else {
      assert pairs[1..][k - 1] == pairs[k];
      assert UntouchedLater(s1, pairs[1..], k - 1) by {
        forall m, i | k - 1 < m < |pairs[1..]| && i in PairPositions(s1, pairs[1..][k - 1])
          ensures !Touched(s1, pairs[1..][m], s1[i].id)
        {
          assert pairs[1..][m] == pairs[m + 1];
        }
      }
    }
  }

  /** A write of the backfill: a patch that sets a translation key and nothing else. */
  predicate IsKeyWrite(w: Write) {
    w.SetFields? && w.patch.translationKey.Some? && w.patch.portfolioWork.None? && w.patch.trustedBy.None?
  }

  /** `main`: the pairs in order, each reading the store the previous ones left. */
  function BackfillPairs(s: Store, pairs: seq<SlugPair>, keys: Keys): (r: (seq<Write>, Store, Keys))
    ensures r.1 == ApplyAll(s, r.0)
    ensures forall w :: w in r.0 ==> IsKeyWrite(w)
    decreases |pairs|
  {
    if pairs == [] then ([], s, keys)
    else
      var one := BackfillPair(s, pairs[0], keys);
      var rest := BackfillPairs(ApplyAll(s, one.0), pairs[1..], one.1);
      ApplyAllAppend(s, one.0, rest.0);
      (one.0 + rest.0, rest.1, rest.2)
  }

  function Run(s: Store, keys: Keys): (r: (seq<Write>, Store, Keys))
    ensures r.1 == ApplyAll(s, r.0)
    ensures forall w :: w in r.0 ==> IsKeyWrite(w)
  {
    BackfillPairs(s, Pairs, keys)
  }

  /**
   * The whole backfill: only translation keys change, a document none of
   * the listed pairs touches is unchanged, and every listed pair whose two
   * documents exist and are not touched by a later pair shares one key.
   */
  lemma RunSharesKeys(s: Store, keys: Keys)
    requires keys.Valid()
    requires forall d :: d in s ==> d.id != ""
    ensures var t := Run(s, keys).1;
      KeysOnlyChanged(s, t) && UntouchedKept(s, t, Pairs) && SeparatePairsShare(s, t, Pairs)
  {
    BackfillPairsShareKeys(s, Pairs, keys);
  }

}
