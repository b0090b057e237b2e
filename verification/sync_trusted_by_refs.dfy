/**
 * The trustedBy reference repair: a trustedBy document whose portfolio
 * reference points at a portfolio in another locale is re-pointed at the
 * sibling portfolio of its own locale (same translation key), in both its
 * published and draft states.
 */
module SyncTrustedByRefs {
  import opened Wrappers
  import opened Sequences
  import opened Text
  import opened Documents

  const TrustedByType: string := "trustedBy"
  const PortfolioType: string := "portfolio"

  /** What the repair loop decides for one trustedBy document. */
  datatype Outcome =
    | NoPortfolio          // the reference does not resolve
    | AlreadyOk            // same locale already, or already the sibling
    | NoTranslationKey     // the referenced portfolio has no translation key
    | NoSibling            // no portfolio with that key in the document's locale
    | Fix(sibling: string) // re-point at this sibling

  /** The run's summary counters. */
  datatype Report = Report(checked: nat, fixed: nat, noPortfolio: nat, noTranslationKey: nat, noSibling: nat, alreadyOk: nat) {
    /** Every checked document is counted under exactly one outcome. */
    predicate Balanced() {
      checked == fixed + noPortfolio + noTranslationKey + noSibling + alreadyOk
    }

    /** One more checked document, counted under its outcome. */
    function Count(o: Outcome): (r: Report)
      ensures r.checked == checked + 1
      ensures r.fixed == fixed + (if o.Fix? then 1 else 0)
      ensures Balanced() ==> r.Balanced()
    {
      match o
      case NoPortfolio => this.(checked := checked + 1, noPortfolio := noPortfolio + 1)
      case AlreadyOk => this.(checked := checked + 1, alreadyOk := alreadyOk + 1)
      case NoTranslationKey => this.(checked := checked + 1, noTranslationKey := noTranslationKey + 1)
      case NoSibling => this.(checked := checked + 1, noSibling := noSibling + 1)
      case Fix(_) => this.(checked := checked + 1, fixed := fixed + 1)
    }
  }

  /** The documents the repair looks at: trustedBy documents with a portfolio reference. */
  predicate IsCandidate(d: Doc) {
    d.docType == TrustedByType && d.portfolioWork.Some?
  }

  /** A portfolio in `locale` with the translation key `key`. */
  predicate IsSiblingFor(p: Doc, key: string, locale: string) {
    p.docType == PortfolioType && p.locale == Some(locale) && p.translationKey == Some(key)
  }

  /** `*[_type == "portfolio" && locale == $locale && translationKey == $translationKey][0]`. */
  function FirstSibling(s: Store, key: string, locale: string): (r: Option<Doc>)
    ensures r.Some? ==> r.value in s && IsSiblingFor(r.value, key, locale)
    ensures r.None? ==> forall p :: p in s ==> !IsSiblingFor(p, key, locale)
  {
    if s == [] then None
    else if IsSiblingFor(s[0], key, locale) then Some(s[0])
    else FirstSibling(s[1..], key, locale)
  }

  /** `fetchPortfolioSiblingId(translationKey, locale)`. */
  function SiblingId(s: Store, key: Option<string>, locale: Option<string>): (r: Option<string>)
    ensures r.Some? ==>
      && Truthy(key) && Truthy(locale) && r.value != ""
      && exists p :: p in s && IsSiblingFor(p, key.value, locale.value) && p.id == r.value
    ensures (&& Truthy(key) && Truthy(locale) && (forall d :: d in s ==> d.id != "")
             && (exists p :: p in s && IsSiblingFor(p, key.value, locale.value))) ==> r.Some?
  {
    if !Truthy(key) || !Truthy(locale) then None
    else match FirstSibling(s, key.value, locale.value)
      case None => None
      case Some(p) => if p.id == "" then None else Some(p.id)
  }

  /** The portfolio a trustedBy document's reference resolves to. */
  function Target(s: Store, d: Doc): Option<Doc> {
    match d.portfolioWork
    case None => None
    case Some(ref) => Lookup(s, ref)
  }

  /** The loop body's decision for one document. */
  function Decide(s: Store, d: Doc): (o: Outcome)
    ensures o.NoPortfolio? <==> Target(s, d).None? || Target(s, d).value.id == ""
    ensures Target(s, d).Some? && Target(s, d).value.id != "" && Target(s, d).value.locale == d.locale ==> o == AlreadyOk
    ensures var t := Target(s, d);
      o == NoTranslationKey <==>
        t.Some? && t.value.id != "" && t.value.locale != d.locale && !Truthy(t.value.translationKey)
    ensures var t := Target(s, d);
      o == NoSibling <==>
        && t.Some? && t.value.id != "" && t.value.locale != d.locale && Truthy(t.value.translationKey)
        && SiblingId(s, t.value.translationKey, d.locale).None?
    ensures var t := Target(s, d);
      o.Fix? <==>
        && t.Some? && t.value.id != "" && t.value.locale != d.locale && Truthy(t.value.translationKey)
        && SiblingId(s, t.value.translationKey, d.locale).Some?
        && d.portfolioWork != SiblingId(s, t.value.translationKey, d.locale)
    ensures o.Fix? ==> Some(o.sibling) == SiblingId(s, Target(s, d).value.translationKey, d.locale)
    ensures var t := Target(s, d);
      o == AlreadyOk <==>
        && t.Some? && t.value.id != ""
        && (t.value.locale == d.locale
            || (Truthy(t.value.translationKey) && d.portfolioWork == SiblingId(s, t.value.translationKey, d.locale)))
  {
    var target := Target(s, d);
    if target.None? || target.value.id == "" then NoPortfolio
    else if target.value.locale == d.locale then AlreadyOk
    else if !Truthy(target.value.translationKey) then NoTranslationKey
    else match SiblingId(s, target.value.translationKey, d.locale)
      case None => NoSibling
      case Some(sib) => if d.portfolioWork == Some(sib) then AlreadyOk else Fix(sib)
  }

  /**
   * A fix is decided only for a document whose portfolio is in another
   * locale, and points at a portfolio of the document's own locale with
   * the same translation key, which it does not refer to yet.
   */
  lemma FixFindsSibling(s: Store, d: Doc)
    requires Decide(s, d).Fix?
    ensures var t := Target(s, d).value;
      var sib := Decide(s, d).sibling;
      && t.locale != d.locale
      && Truthy(t.translationKey) && Truthy(d.locale)
      && sib != "" && d.portfolioWork != Some(sib)
      && exists p :: p in s && IsSiblingFor(p, t.translationKey.value, d.locale.value) && p.id == sib
  {
  }

  /** The patch that re-points a document at `sibling`. */
  function RefPatch(sibling: string): Patch {
    Patch(None, Some(sibling), None)
  }

  /** `patchPortfolioWorkRef(id, next)`: both states, nothing for a missing id or target, or in a dry run. */
  function PatchPortfolioWorkRef(id: string, next: string, dryRun: bool): (ws: seq<Write>)
    ensures dryRun || id == "" || next == "" ==> ws == []
    ensures !dryRun && id != "" && next != "" ==> ws == PatchBothStates(id, RefPatch(next))
  {
    if id == "" || next == "" || dryRun then [] else PatchBothStates(id, RefPatch(next))
  }

  /** A patch that only re-points the portfolio reference. */
  predicate IsRefPatch(w: Write) {
    w.SetFields? && w.patch.translationKey.None? && w.patch.portfolioWork.Some? && w.patch.trustedBy.None?
  }

  /** The writes for one document: the patch of both states when it needs a fix. */
  function DocWrites(d: Doc, o: Outcome, dryRun: bool): (ws: seq<Write>)
    ensures |ws| <= (if o.Fix? then 2 else 0)
    ensures o.Fix? ==> ws == PatchPortfolioWorkRef(d.id, o.sibling, dryRun)
    ensures !o.Fix? ==> ws == []
    ensures dryRun ==> ws == []
    ensures forall w :: w in ws ==> IsRefPatch(w)
  {
    if o.Fix? then PatchPortfolioWorkRef(d.id, o.sibling, dryRun) else []
  }

  /**
   * The loop over the fetched documents: decisions and the store read for
   * sibling lookups are the live ones, each document is taken as fetched.
   * The counters are those of the documents in `docs`.
   */
  function RepairLoop(s: Store, docs: seq<Doc>, dryRun: bool): (r: (seq<Write>, Store, Report))
    ensures r.1 == ApplyAll(s, r.0)
    ensures r.2.Balanced() && r.2.checked == |docs|
    ensures dryRun ==> r.0 == []
    ensures forall w :: w in r.0 ==> IsRefPatch(w)
    ensures |r.0| <= 2 * r.2.fixed
    decreases |docs|
  {
    if docs == [] then ([], s, Report(0, 0, 0, 0, 0, 0))
    else
      var o := Decide(s, docs[0]);
      var ws := DocWrites(docs[0], o, dryRun);
      var rest := RepairLoop(ApplyAll(s, ws), docs[1..], dryRun);
      ApplyAllAppend(s, ws, rest.0);
      var report := rest.2.Count(o);
      assert |ws + rest.0| <= 2 * report.fixed;
      assert forall w :: w in ws + rest.0 ==> w in ws || w in rest.0;
      (ws + rest.0, rest.1, report)
  }

  /**
   * The writes of the documents in order, each decided on the store `s`
   * as it was when the loop started.
   */
  function SnapshotWrites(s: Store, docs: seq<Doc>, dryRun: bool): (ws: seq<Write>)
    ensures forall w :: w in ws <==> exists k :: 0 <= k < |docs| && w in DocWrites(docs[k], Decide(s, docs[k]), dryRun)
    decreases |docs|
  {
    if docs == [] then []
    else
      var first := DocWrites(docs[0], Decide(s, docs[0]), dryRun);
      var rest := SnapshotWrites(s, docs[1..], dryRun);
      assert forall k :: 1 <= k < |docs| ==> docs[1..][k - 1] == docs[k];
      assert forall w :: w in rest ==> exists k :: 0 <= k < |docs| && w in DocWrites(docs[k], Decide(s, docs[k]), dryRun) by {
        forall w | w in rest ensures exists k :: 0 <= k < |docs| && w in DocWrites(docs[k], Decide(s, docs[k]), dryRun) {
          var k :| 0 <= k < |docs[1..]| && w in DocWrites(docs[1..][k], Decide(s, docs[1..][k]), dryRun);
          assert w in DocWrites(docs[k + 1], Decide(s, docs[k + 1]), dryRun);
        }
      }
      assert forall w :: w in first + rest <==> w in first || w in rest;
      first + rest
  }

  /**
   * The loop's writes are those decided on the starting store: re-pointing
   * references never changes a later decision. This holds for any store
   * that agrees with the starting one on what the decisions read.
   */
  lemma {:induction false} RepairLoopUsesSnapshot(s: Store, s': Store, docs: seq<Doc>, dryRun: bool)
    requires SameSkeleton(s, s')
    ensures RepairLoop(s', docs, dryRun).0 == SnapshotWrites(s, docs, dryRun)
    decreases |docs|
  {
    if docs != [] {
      DecideSkeleton(s, s', docs[0]);
      var ws := DocWrites(docs[0], Decide(s', docs[0]), dryRun);
      var next := ApplyAll(s', ws);
      RefPatchesKeepSkeleton(s', ws);
      assert SameSkeleton(s, next);
      RepairLoopUsesSnapshot(s, next, docs[1..], dryRun);
    }
  }

  /** The run's writes: those of the fetched candidates, each decided on the store before the run. */
  lemma RunWrites(s: Store, dryRun: bool)
    ensures Run(s, dryRun).0 == SnapshotWrites(s, FetchCandidates(s), dryRun)
  {
    RepairLoopUsesSnapshot(s, s, FetchCandidates(s), dryRun);
  }

  /** The writes decided for one document: its re-pointing patch when it needs a fix. */
  predicate IsFixWriteOf(s: Store, d: Doc, dryRun: bool, w: Write) {
    Decide(s, d).Fix? && w in PatchPortfolioWorkRef(d.id, Decide(s, d).sibling, dryRun)
  }

  /** A write of the run is a re-pointing patch of a candidate that needs a fix, and every such patch is written. */
  lemma RunWritesAreFixes(s: Store, dryRun: bool)
    ensures forall w :: w in Run(s, dryRun).0 <==> exists d :: d in s && IsCandidate(d) && IsFixWriteOf(s, d, dryRun, w)
  {
    RunWrites(s, dryRun);
    var docs := FetchCandidates(s);
    forall w ensures w in SnapshotWrites(s, docs, dryRun) <==> exists d :: d in s && IsCandidate(d) && IsFixWriteOf(s, d, dryRun, w) {
      RunWriteIsFix(s, docs, dryRun, w);
    }
  }

  lemma RunWriteIsFix(s: Store, docs: seq<Doc>, dryRun: bool, w: Write)
    requires docs == FetchCandidates(s)
    ensures w in SnapshotWrites(s, docs, dryRun) <==> exists d :: d in s && IsCandidate(d) && IsFixWriteOf(s, d, dryRun, w)
  {
    if w in SnapshotWrites(s, docs, dryRun) {
      SnapshotWriteIsFix(s, docs, dryRun, w);
    }
    if exists d :: d in s && IsCandidate(d) && IsFixWriteOf(s, d, dryRun, w) {
      var d :| d in s && IsCandidate(d) && IsFixWriteOf(s, d, dryRun, w);
      FixIsSnapshotWrite(s, docs, d, dryRun, w);
    }
  }

  lemma SnapshotWriteIsFix(s: Store, docs: seq<Doc>, dryRun: bool, w: Write)
    requires docs == FetchCandidates(s)
    requires w in SnapshotWrites(s, docs, dryRun)
    ensures exists d :: d in s && IsCandidate(d) && IsFixWriteOf(s, d, dryRun, w)
  {
    var k :| 0 <= k < |docs| && w in DocWrites(docs[k], Decide(s, docs[k]), dryRun);
    DocWriteIsFix(s, docs[k], dryRun, w);
    assert docs[k] in docs;
  }

  lemma FixIsSnapshotWrite(s: Store, docs: seq<Doc>, d: Doc, dryRun: bool, w: Write)
    requires docs == FetchCandidates(s)
    requires d in s && IsCandidate(d) && IsFixWriteOf(s, d, dryRun, w)
    ensures w in SnapshotWrites(s, docs, dryRun)
  {
    assert d in docs;
    var k :| 0 <= k < |docs| && docs[k] == d;
    DocWriteIsFix(s, d, dryRun, w);
  }

  lemma DocWriteIsFix(s: Store, d: Doc, dryRun: bool, w: Write)
    ensures w in DocWrites(d, Decide(s, d), dryRun) <==> IsFixWriteOf(s, d, dryRun, w)
  {
  }

  /** `fetchTrustedByDocs()`: the candidates, in query order. */
  function FetchCandidates(s: Store): (docs: seq<Doc>)
    ensures forall d :: d in docs <==> d in s && IsCandidate(d)
  {
    Where(s, IsCandidate)
  }

  /** `main`: the candidate documents fetched once, then the loop. */
  function Run(s: Store, dryRun: bool): (r: (seq<Write>, Store, Report))
    ensures r.1 == ApplyAll(s, r.0)
    ensures r.2.Balanced() && r.2.checked == |FetchCandidates(s)|
    ensures dryRun ==> r.0 == [] && r.1 == s
  {
    RepairLoop(s, FetchCandidates(s), dryRun)
  }

  lemma SameIdSameDoc(s: Store, a: Doc, b: Doc)
    requires NoDup(Ids(s)) && a in s && b in s && a.id == b.id
    ensures a == b
  {
    var i :| 0 <= i < |s| && s[i] == a;
    var j :| 0 <= j < |s| && s[j] == b;
    assert Ids(s)[i] == Ids(s)[j];
  }

  // ---------------------------------------------------------------- what the decisions read

  /** The fields of a document the decisions read from the store. */
  function Skeleton(d: Doc): (string, string, Option<string>, Option<string>) {
    (d.id, d.docType, d.locale, d.translationKey)
  }

  /** Two stores that agree, document by document, on everything the decisions read. */
  predicate SameSkeleton(s: Store, s': Store) {
    |s'| == |s| && forall i :: 0 <= i < |s| ==> Skeleton(s'[i]) == Skeleton(s[i])
  }

  lemma {:induction false} LookupSkeleton(s: Store, s': Store, id: string)
    requires SameSkeleton(s, s')
    ensures Lookup(s', id).Some? == Lookup(s, id).Some?
    ensures Lookup(s, id).Some? ==> Skeleton(Lookup(s', id).value) == Skeleton(Lookup(s, id).value)
  {
    if s != [] {
      assert Skeleton(s'[0]) == Skeleton(s[0]);
      if s[0].id != id {
        assert forall i :: 0 <= i < |s[1..]| ==> s[1..][i] == s[i + 1] && s'[1..][i] == s'[i + 1];
        LookupSkeleton(s[1..], s'[1..], id);
      }
    }
  }

  lemma {:induction false} FirstSiblingSkeleton(s: Store, s': Store, key: string, locale: string)
    requires SameSkeleton(s, s')
    ensures FirstSibling(s', key, locale).Some? == FirstSibling(s, key, locale).Some?
    ensures FirstSibling(s, key, locale).Some? ==> FirstSibling(s', key, locale).value.id == FirstSibling(s, key, locale).value.id
  {
    if s != [] {
      assert Skeleton(s'[0]) == Skeleton(s[0]);
      if !IsSiblingFor(s[0], key, locale) {
        assert forall i :: 0 <= i < |s[1..]| ==> s[1..][i] == s[i + 1] && s'[1..][i] == s'[i + 1];
        FirstSiblingSkeleton(s[1..], s'[1..], key, locale);
      }
    }
  }

  /** A decision depends only on what the decisions read. */
  lemma DecideSkeleton(s: Store, s': Store, d: Doc)
    requires SameSkeleton(s, s')
    ensures Decide(s', d) == Decide(s, d)
  {
    if d.portfolioWork.Some? {
      LookupSkeleton(s, s', d.portfolioWork.value);
      var t := Target(s, d);
      if t.Some? {
        var t' := Target(s', d).value;
        assert t'.id == t.value.id && t'.locale == t.value.locale && t'.translationKey == t.value.translationKey;
        SiblingIdSkeleton(s, s', t.value.translationKey, d.locale);
      }
    }
  }

  lemma SiblingIdSkeleton(s: Store, s': Store, key: Option<string>, locale: Option<string>)
    requires SameSkeleton(s, s')
    ensures SiblingId(s', key, locale) == SiblingId(s, key, locale)
  {
    if Truthy(key) && Truthy(locale) {
      FirstSiblingSkeleton(s, s', key.value, locale.value);
    }
  }

  /** Re-pointing portfolio references changes nothing the decisions read. */
  lemma {:induction false} RefPatchesKeepSkeleton(s: Store, ws: seq<Write>)
    requires forall w :: w in ws ==> IsRefPatch(w)
    ensures SameSkeleton(s, ApplyAll(s, ws))
    decreases |ws|
  {
    if ws != [] {
      assert ws[0] in ws && forall w :: w in ws[1..] ==> w in ws;
      var s1 := Apply(s, ws[0]);
      assert SameSkeleton(s, s1);
      RefPatchesKeepSkeleton(s1, ws[1..]);
    }
  }

  /** The loop counts the same in a dry run as in a real run. */
  lemma {:induction false} DryRunLoopReportsTheSame(s: Store, s': Store, docs: seq<Doc>)
    requires SameSkeleton(s, s')
    ensures RepairLoop(s, docs, true).2 == RepairLoop(s', docs, false).2
    decreases |docs|
  {
    if docs != [] {
      var o := Decide(s, docs[0]);
      DecideSkeleton(s, s', docs[0]);
      var ws := DocWrites(docs[0], o, false);
      assert ApplyAll(s, DocWrites(docs[0], o, true)) == s;
      var next' := ApplyAll(s', ws);
      RefPatchesKeepSkeleton(s', ws);
      assert SameSkeleton(s, next');
      DryRunLoopReportsTheSame(s, next', docs[1..]);
    }
  }

  /** A dry run reports exactly the counters of a real run, while writing nothing. */
  lemma DryRunReportsTheSame(s: Store)
    ensures Run(s, true).2 == Run(s, false).2
    ensures Run(s, true).0 == []
  {
    DryRunLoopReportsTheSame(s, s, FetchCandidates(s));
  }

  // ---------------------------------------------------------------- a fix sticks

  /** A patched document is in the store afterwards, in its patched form. */
  lemma PatchedDocStored(s: Store, d: Doc, p: Patch)
    requires d in s
    ensures PatchDoc(d, p) in ApplyAll(s, PatchBothStates(d.id, p))
  {
    PatchBothStatesEffect(s, d.id, p);
    var i :| 0 <= i < |s| && s[i] == d;
    assert ApplyAll(s, PatchBothStates(d.id, p))[i] == PatchDoc(d, p);
  }

  /** The sibling a fix points at dereferences to a portfolio in the document's locale. */
  lemma SiblingResolves(s: Store, d: Doc)
    requires NoDup(Ids(s)) && Decide(s, d).Fix?
    ensures var sib := Decide(s, d).sibling;
      Lookup(s, sib).Some? && Lookup(s, sib).value.locale == d.locale
  {
    var sib := Decide(s, d).sibling;
    var t := Target(s, d).value;
    FixFindsSibling(s, d);
    var p :| p in s && IsSiblingFor(p, t.translationKey.value, d.locale.value) && p.id == sib;
    assert sib in Ids(s) by {
      var j :| 0 <= j < |s| && s[j] == p;
      assert Ids(s)[j] == sib;
    }
    SameIdSameDoc(s, Lookup(s, sib).value, p);
  }

  /**
   * Once a document is fixed, the repair of the patched document finds
   * it in order: it now refers to a portfolio in its own locale.
   */
  lemma FixSticks(s: Store, d: Doc)
    requires NoDup(Ids(s)) && d in s && d.id != ""
    requires Decide(s, d).Fix?
    ensures var sib := Decide(s, d).sibling;
      var s' := ApplyAll(s, PatchPortfolioWorkRef(d.id, sib, false));
      && PatchDoc(d, RefPatch(sib)) in s'
      && PatchDoc(d, RefPatch(sib)).portfolioWork == Some(sib)
      && Decide(s', PatchDoc(d, RefPatch(sib))) == AlreadyOk
  {
    var sib := Decide(s, d).sibling;
    FixFindsSibling(s, d);
    var ws := PatchBothStates(d.id, RefPatch(sib));
    assert PatchPortfolioWorkRef(d.id, sib, false) == ws;
    var s' := ApplyAll(s, ws);
    var d' := PatchDoc(d, RefPatch(sib));
    PatchedDocStored(s, d, RefPatch(sib));
    assert Lookup(s', sib).Some? && Lookup(s', sib).value.locale == d'.locale by {
      SiblingResolves(s, d);
      assert forall w :: w in ws ==> IsRefPatch(w);
      RefPatchesKeepSkeleton(s, ws);
      LookupSkeleton(s, s', sib);
    }
    TargetOkMeansAlreadyOk(s', d', sib);
  }

  lemma TargetOkMeansAlreadyOk(s: Store, d: Doc, ref: string)
    requires d.portfolioWork == Some(ref) && ref != ""
    requires Lookup(s, ref).Some? && Lookup(s, ref).value.locale == d.locale
    ensures Decide(s, d) == AlreadyOk
  {
    assert Target(s, d) == Lookup(s, ref);
  }
}
