/**
 * The "append only missing keys" merge both dictionary scripts share: a
 * candidate entry is appended only if no existing entry and no entry
 * appended before it has its key; existing entries are never touched.
 */
module DictionaryMerge {
  import opened Wrappers
  import opened Sequences
  import opened Documents

  const DictionaryType: string := "dictionary"

  function EntryKeys(es: seq<Entry>): (r: seq<string>)
    ensures |r| == |es|
    ensures forall i :: 0 <= i < |es| ==> r[i] == es[i].key
  {
    seq(|es|, i requires 0 <= i < |es| => es[i].key)
  }

  /** The append loop with the set of keys seen so far. */
  function AppendMissingFrom(seen: set<string>, candidates: seq<Entry>): (r: seq<Entry>)
    ensures forall e :: e in r ==> e in candidates && e.key !in seen
    ensures EntryKeys(r) == DedupFrom(seen, EntryKeys(candidates))
    decreases |candidates|
  {
    if candidates == [] then []
    else
      var c := candidates[0];
      assert EntryKeys(candidates) == [c.key] + EntryKeys(candidates[1..]);
      if c.key in seen then AppendMissingFrom(seen, candidates[1..])
      else
        var rest := AppendMissingFrom(seen + {c.key}, candidates[1..]);
        assert EntryKeys([c] + rest) == [c.key] + EntryKeys(rest);
        [c] + rest
  }

  /** The entries a run appends to a dictionary whose entries are `existing`. */
  function EntriesToAppend(existing: seq<Entry>, candidates: seq<Entry>): seq<Entry> {
    AppendMissingFrom(Elems(EntryKeys(existing)), candidates)
  }

  /**
   * The appended keys are exactly the candidate keys absent from the
   * dictionary, each once, in the order they first occur among the candidates.
   */
  lemma AppendedKeys(existing: seq<Entry>, candidates: seq<Entry>)
    ensures var keys := EntryKeys(EntriesToAppend(existing, candidates));
      && NoDup(keys)
      && Elems(keys) == Elems(EntryKeys(candidates)) - Elems(EntryKeys(existing))
  {
  }

  /** Each appended entry is the first candidate with its key. */
  lemma {:induction false} AppendedIsFirstCandidate(seen: set<string>, candidates: seq<Entry>, i: nat)
    requires i < |AppendMissingFrom(seen, candidates)|
    ensures var e := AppendMissingFrom(seen, candidates)[i];
      e.key in EntryKeys(candidates) && candidates[FirstIndex(EntryKeys(candidates), e.key)] == e
    decreases |candidates|
  {
    assert candidates != [];
    var c := candidates[0];
    var tail := candidates[1..];
    var r := AppendMissingFrom(seen, candidates);
    var e := r[i];
    if c.key in seen {
      SkippedHead(seen, candidates, i);
      AppendedIsFirstCandidate(seen, tail, i);
      ShiftFirstIndex(candidates, e);
    } else if i == 0 {
      KeptHead(seen, candidates);
    } else {
      KeptHeadTail(seen, candidates, i);
      AppendedIsFirstCandidate(seen + {c.key}, tail, i - 1);
      ShiftFirstIndex(candidates, e);
    }
  }

  lemma SkippedHead(seen: set<string>, candidates: seq<Entry>, i: nat)
    requires candidates != [] && candidates[0].key in seen
    requires i < |AppendMissingFrom(seen, candidates)|
    ensures AppendMissingFrom(seen, candidates) == AppendMissingFrom(seen, candidates[1..])
    ensures AppendMissingFrom(seen, candidates)[i].key != candidates[0].key
  {
    var r := AppendMissingFrom(seen, candidates);
    assert r[i] in r;
  }

  lemma KeptHead(seen: set<string>, candidates: seq<Entry>)
    requires candidates != [] && candidates[0].key !in seen
    ensures AppendMissingFrom(seen, candidates)[0] == candidates[0]
    ensures candidates[0].key in EntryKeys(candidates) && FirstIndex(EntryKeys(candidates), candidates[0].key) == 0
  {
  }

  lemma KeptHeadTail(seen: set<string>, candidates: seq<Entry>, i: nat)
    requires candidates != [] && candidates[0].key !in seen
    requires 0 < i < |AppendMissingFrom(seen, candidates)|
    ensures i - 1 < |AppendMissingFrom(seen + {candidates[0].key}, candidates[1..])|
    ensures AppendMissingFrom(seen, candidates)[i] == AppendMissingFrom(seen + {candidates[0].key}, candidates[1..])[i - 1]
    ensures AppendMissingFrom(seen, candidates)[i].key != candidates[0].key
  {
    var rest := AppendMissingFrom(seen + {candidates[0].key}, candidates[1..]);
    assert rest[i - 1] in rest;
  }

  lemma ShiftFirstIndex(candidates: seq<Entry>, e: Entry)
    requires candidates != [] && e.key != candidates[0].key
    requires e.key in EntryKeys(candidates[1..])
    requires candidates[1..][FirstIndex(EntryKeys(candidates[1..]), e.key)] == e
    ensures e.key in EntryKeys(candidates) && candidates[FirstIndex(EntryKeys(candidates), e.key)] == e
  {
    var keys := EntryKeys(candidates);
    assert keys[1..] == EntryKeys(candidates[1..]);
    assert FirstIndex(keys, e.key) == 1 + FirstIndex(keys[1..], e.key);
  }

  /** Once the appended entries are in, a second run appends nothing. */
  lemma {:induction false} AppendIsIdempotent(existing: seq<Entry>, candidates: seq<Entry>)
    ensures EntriesToAppend(existing + EntriesToAppend(existing, candidates), candidates) == []
  {
    var added := EntriesToAppend(existing, candidates);
    AppendedKeys(existing, candidates);
    ElemsAppend(EntryKeys(existing), EntryKeys(added));
    assert EntryKeys(existing + added) == EntryKeys(existing) + EntryKeys(added);
    var seen := Elems(EntryKeys(existing + added));
    assert forall k :: k in EntryKeys(candidates) ==> k in seen;
    NothingMissing(seen, candidates);
  }

  lemma {:induction false} NothingMissing(seen: set<string>, candidates: seq<Entry>)
    requires forall k :: k in EntryKeys(candidates) ==> k in seen
    ensures AppendMissingFrom(seen, candidates) == []
    decreases |candidates|
  {
    if candidates != [] {
      assert EntryKeys(candidates) == [candidates[0].key] + EntryKeys(candidates[1..]);
      NothingMissing(seen, candidates[1..]);
    }
  }

  /** Nothing is appended exactly when the dictionary already has every candidate key. */
  lemma NothingToAppendIff(existing: seq<Entry>, candidates: seq<Entry>)
    ensures EntriesToAppend(existing, candidates) == [] <==>
      forall k :: k in EntryKeys(candidates) ==> k in EntryKeys(existing)
  {
    var seen := Elems(EntryKeys(existing));
    if forall k :: k in EntryKeys(candidates) ==> k in EntryKeys(existing) {
      assert forall k :: k in EntryKeys(candidates) ==> k in seen;
      NothingMissing(seen, candidates);
    } else {
      var k :| k in EntryKeys(candidates) && k !in EntryKeys(existing);
      AppendedKeys(existing, candidates);
      assert k in Elems(EntryKeys(candidates)) - seen;
      assert k in Elems(EntryKeys(EntriesToAppend(existing, candidates)));
    }
  }

  /**
   * One locale of a dictionary sync: find the locale's dictionary (the
   * first one the query returns) and append the missing entries; no
   * dictionary, or nothing missing, means no write.
   */
  function SyncLocale(s: Store, locale: string, candidates: seq<Entry>): (ws: seq<Write>)
    ensures |ws| <= 1
    ensures FirstOfTypeInLocale(s, DictionaryType, locale).None? ==> ws == []
    ensures ws != [] ==>
      var d := FirstOfTypeInLocale(s, DictionaryType, locale).value;
      ws == [AppendEntries(d.id, EntriesToAppend(d.entries.GetOr([]), candidates))]
      && EntriesToAppend(d.entries.GetOr([]), candidates) != []
    ensures FirstOfTypeInLocale(s, DictionaryType, locale).Some? ==>
      var d := FirstOfTypeInLocale(s, DictionaryType, locale).value;
      (ws == [] <==> forall k :: k in EntryKeys(candidates) ==> k in EntryKeys(d.entries.GetOr([])))
  {
    match FirstOfTypeInLocale(s, DictionaryType, locale)
    case None => []
    case Some(d) =>
      var added := EntriesToAppend(d.entries.GetOr([]), candidates);
      NothingToAppendIff(d.entries.GetOr([]), candidates);
      if added == [] then [] else [AppendEntries(d.id, added)]
  }

  /**
   * After a locale's sync its dictionary holds its old entries, untouched
   * and first, followed by the appended ones; a second sync writes nothing.
   */
  lemma SyncLocaleEffect(s: Store, locale: string, candidates: seq<Entry>)
    requires FirstOfTypeInLocale(s, DictionaryType, locale).Some?
    ensures var d := FirstOfTypeInLocale(s, DictionaryType, locale).value;
      var s' := ApplyAll(s, SyncLocale(s, locale, candidates));
      && FirstOfTypeInLocale(s', DictionaryType, locale).Some?
      && FirstOfTypeInLocale(s', DictionaryType, locale).value.id == d.id
      && FirstOfTypeInLocale(s', DictionaryType, locale).value.entries.GetOr([])
         == d.entries.GetOr([]) + EntriesToAppend(d.entries.GetOr([]), candidates)
      && SyncLocale(s', locale, candidates) == []
  {
    var d := FirstOfTypeInLocale(s, DictionaryType, locale).value;
    var added := EntriesToAppend(d.entries.GetOr([]), candidates);
    var ws := SyncLocale(s, locale, candidates);
    if added != [] {
      assert ApplyAll(s, ws) == Apply(s, ws[0]) by {
        assert ws[1..] == [];
      }
      AppendEntriesKeepsFirst(s, DictionaryType, locale, d.id, added);
    } else {
      assert d.entries.GetOr([]) + added == d.entries.GetOr([]);
    }
    AppendIsIdempotent(d.entries.GetOr([]), candidates);
  }

  /**
   * After a locale's sync every candidate key is in its dictionary, and the
   * appended keys are exactly the candidate keys it lacked, each once.
   */
  lemma SyncLocaleCompletes(s: Store, locale: string, candidates: seq<Entry>)
    requires FirstOfTypeInLocale(s, DictionaryType, locale).Some?
    ensures var d := FirstOfTypeInLocale(s, DictionaryType, locale).value;
      var after := FirstOfTypeInLocale(ApplyAll(s, SyncLocale(s, locale, candidates)), DictionaryType, locale);
      var added := EntriesToAppend(d.entries.GetOr([]), candidates);
      && after.Some?
      && after.value.entries.GetOr([]) == d.entries.GetOr([]) + added
      && (forall k :: k in EntryKeys(candidates) ==> k in EntryKeys(after.value.entries.GetOr([])))
      && NoDup(EntryKeys(added))
      && Elems(EntryKeys(added)) == Elems(EntryKeys(candidates)) - Elems(EntryKeys(d.entries.GetOr([])))
  {
    var d := FirstOfTypeInLocale(s, DictionaryType, locale).value;
    SyncLocaleEffect(s, locale, candidates);
    AppendedKeys(d.entries.GetOr([]), candidates);
    AppendCovers(d.entries.GetOr([]), candidates);
  }

  /** After appending the missing entries, every candidate key is present. */
  lemma AppendCovers(prior: seq<Entry>, candidates: seq<Entry>)
    ensures forall k :: k in EntryKeys(candidates) ==> k in EntryKeys(prior + EntriesToAppend(prior, candidates))
  {
    var added := EntriesToAppend(prior, candidates);
    AppendedKeys(prior, candidates);
    ElemsAppend(EntryKeys(prior), EntryKeys(added));
    var keys := EntryKeys(prior + added);
    assert keys == EntryKeys(prior) + EntryKeys(added);
    forall k | k in EntryKeys(candidates) ensures k in keys {
      assert k in Elems(EntryKeys(candidates));
      if k !in Elems(EntryKeys(prior)) {
        assert k in Elems(EntryKeys(added));
      }
      assert k in Elems(keys);
    }
  }

  /** A whole run: the locales one after another, each reading the store the previous ones left. */
  function SyncLocales(s: Store, locales: seq<string>, candidates: Store -> seq<Entry>): (r: (seq<Write>, Store))
    ensures r.1 == ApplyAll(s, r.0)
    ensures |r.0| <= |locales|
    decreases |locales|
  {
    if locales == [] then ([], s)
    else
      var ws := SyncLocale(s, locales[0], candidates(s));
      var rest := SyncLocales(ApplyAll(s, ws), locales[1..], candidates);
      ApplyAllAppend(s, ws, rest.0);
      (ws + rest.0, rest.1)
  }

  // ---------------------------------------------------------------- whole runs

  /** The `locale` dictionary, when the store has one, holds every candidate key. */
  predicate Covered(s: Store, locale: string, candidates: seq<Entry>) {
    match FirstOfTypeInLocale(s, DictionaryType, locale)
    case None => true
    case Some(d) => forall k :: k in EntryKeys(candidates) ==> k in EntryKeys(d.entries.GetOr([]))
  }

  /**
   * From `s` to `t` the `locale` dictionary stayed the same document and
   * only gained entries after the ones it had.
   */
  predicate DictionaryGrew(s: Store, t: Store, locale: string) {
    match FirstOfTypeInLocale(s, DictionaryType, locale)
    case None => FirstOfTypeInLocale(t, DictionaryType, locale).None?
    case Some(d) =>
      && FirstOfTypeInLocale(t, DictionaryType, locale).Some?
      && FirstOfTypeInLocale(t, DictionaryType, locale).value.id == d.id
      && d.entries.GetOr([]) <= FirstOfTypeInLocale(t, DictionaryType, locale).value.entries.GetOr([])
  }

  /** Writes that only insert dictionary entries. */
  predicate OnlyAppends(ws: seq<Write>) {
    forall i :: 0 <= i < |ws| ==> ws[i].AppendEntries?
  }

  /** Candidates that no entries insert changes, as the static list and the taxonomy entries are. */
  ghost predicate KeptByAppends(candidates: Store -> seq<Entry>) {
    forall t: Store, id: string, es: seq<Entry> :: candidates(Apply(t, AppendEntries(id, es))) == candidates(t)
  }

  /** A locale's sync only inserts entries. */
  lemma SyncLocaleAppends(s: Store, locale: string, candidates: seq<Entry>)
    ensures OnlyAppends(SyncLocale(s, locale, candidates))
  {
  }

  /** Inserting entries, into any document, only lets every dictionary grow. */
  lemma {:induction false} AppendsGrow(s: Store, ws: seq<Write>, locale: string)
    requires OnlyAppends(ws)
    ensures DictionaryGrew(s, ApplyAll(s, ws), locale)
    decreases |ws|
  {
    if ws == [] {
      if FirstOfTypeInLocale(s, DictionaryType, locale).Some? {
        assert FirstOfTypeInLocale(s, DictionaryType, locale).value.entries.GetOr([])
            <= FirstOfTypeInLocale(s, DictionaryType, locale).value.entries.GetOr([]);
      }
    } else {
      var s1 := Apply(s, ws[0]);
      AppendEntriesKeepsFirst(s, DictionaryType, locale, ws[0].id, ws[0].entries);
      assert OnlyAppends(ws[1..]) by {
        forall i | 0 <= i < |ws[1..]| ensures ws[1..][i].AppendEntries? {
          assert ws[1..][i] == ws[i + 1];
        }
      }
      AppendsGrow(s1, ws[1..], locale);
      GrewTransitive(s, s1, ApplyAll(s, ws), locale);
    }
  }

  lemma GrewTransitive(s1: Store, s2: Store, s3: Store, locale: string)
    requires DictionaryGrew(s1, s2, locale) && DictionaryGrew(s2, s3, locale)
    ensures DictionaryGrew(s1, s3, locale)
  {
  }

  /** A dictionary that only grew keeps every key it had. */
  lemma GrowthKeepsCovered(s: Store, t: Store, locale: string, candidates: seq<Entry>)
    requires Covered(s, locale, candidates) && DictionaryGrew(s, t, locale)
    ensures Covered(t, locale, candidates)
  {
    if FirstOfTypeInLocale(s, DictionaryType, locale).Some? {
      var a := FirstOfTypeInLocale(s, DictionaryType, locale).value.entries.GetOr([]);
      var b := FirstOfTypeInLocale(t, DictionaryType, locale).value.entries.GetOr([]);
      forall k | k in EntryKeys(a) ensures k in EntryKeys(b) {
        var i :| 0 <= i < |a| && EntryKeys(a)[i] == k;
        assert b[i] == a[i];
        assert EntryKeys(b)[i] == k;
      }
    }
  }

  /** A locale's sync leaves its dictionary covered. */
  lemma SyncLocaleCovers(s: Store, locale: string, candidates: seq<Entry>)
    ensures Covered(ApplyAll(s, SyncLocale(s, locale, candidates)), locale, candidates)
  {
    if FirstOfTypeInLocale(s, DictionaryType, locale).Some? {
      SyncLocaleCompletes(s, locale, candidates);
    }
  }

  /** Candidates kept by every single insert are kept by a list of inserts. */
  lemma {:induction false} AppendsKeepCandidates(candidates: Store -> seq<Entry>, s: Store, ws: seq<Write>)
    requires KeptByAppends(candidates) && OnlyAppends(ws)
    ensures candidates(ApplyAll(s, ws)) == candidates(s)
    decreases |ws|
  {
    if ws != [] {
      assert candidates(Apply(s, AppendEntries(ws[0].id, ws[0].entries))) == candidates(s);
      assert OnlyAppends(ws[1..]) by {
        forall i | 0 <= i < |ws[1..]| ensures ws[1..][i].AppendEntries? {
          assert ws[1..][i] == ws[i + 1];
        }
      }
      AppendsKeepCandidates(candidates, Apply(s, ws[0]), ws[1..]);
    }
  }

  /**
   * A run only inserts entries, and afterwards the dictionary of every
   * configured locale holds every candidate key.
   */
  lemma {:induction false} SyncLocalesCovers(s: Store, locales: seq<string>, candidates: Store -> seq<Entry>)
    requires KeptByAppends(candidates)
    ensures var r := SyncLocales(s, locales, candidates);
      && OnlyAppends(r.0)
      && candidates(r.1) == candidates(s)
      && forall l :: l in locales ==> Covered(r.1, l, candidates(s))
    decreases |locales|
  {
    var r := SyncLocales(s, locales, candidates);
    if locales != [] {
      var ws := SyncLocale(s, locales[0], candidates(s));
      var s1 := ApplyAll(s, ws);
      var rest := SyncLocales(s1, locales[1..], candidates);
      SyncLocaleAppends(s, locales[0], candidates(s));
      AppendsKeepCandidates(candidates, s, ws);
      SyncLocalesCovers(s1, locales[1..], candidates);
      SyncLocaleCovers(s, locales[0], candidates(s));
      AppendsGrow(s1, rest.0, locales[0]);
      GrowthKeepsCovered(s1, rest.1, locales[0], candidates(s));
      assert r.0 == ws + rest.0;
      assert OnlyAppends(r.0) by {
        forall i | 0 <= i < |r.0| ensures r.0[i].AppendEntries? {
          if i < |ws| { assert r.0[i] == ws[i]; } else { assert r.0[i] == rest.0[i - |ws|]; }
        }
      }
      forall l | l in locales ensures Covered(r.1, l, candidates(s)) {
        if l != locales[0] {
          assert l in locales[1..];
        }
      }
    }
  }

  /** On a store where every configured locale is covered, a run writes nothing. */
  lemma {:induction false} CoveredRunWritesNothing(s: Store, locales: seq<string>, candidates: Store -> seq<Entry>)
    requires forall l :: l in locales ==> Covered(s, l, candidates(s))
    ensures SyncLocales(s, locales, candidates) == ([], s)
    decreases |locales|
  {
    if locales != [] {
      assert locales[0] in locales;
      assert SyncLocale(s, locales[0], candidates(s)) == [];
      assert forall l :: l in locales[1..] ==> l in locales;
      CoveredRunWritesNothing(s, locales[1..], candidates);
    }
  }

  /** The merge is idempotent at the level of a whole run: a second run writes nothing. */
  lemma SyncLocalesIdempotent(s: Store, locales: seq<string>, candidates: Store -> seq<Entry>)
    requires KeptByAppends(candidates)
    ensures var s' := SyncLocales(s, locales, candidates).1;
      SyncLocales(s', locales, candidates) == ([], s')
  {
    SyncLocalesCovers(s, locales, candidates);
    CoveredRunWritesNothing(SyncLocales(s, locales, candidates).1, locales, candidates);
  }

  /**
   * After a run, the dictionary of every configured locale that has one
   * is the same document, with its old entries first and untouched, and
   * holds every candidate key.
   */
  lemma SyncLocalesCompletes(s: Store, locales: seq<string>, candidates: Store -> seq<Entry>)
    requires KeptByAppends(candidates)
    ensures var s' := SyncLocales(s, locales, candidates).1;
      forall l :: l in locales && FirstOfTypeInLocale(s, DictionaryType, l).Some? ==>
        var d := FirstOfTypeInLocale(s, DictionaryType, l).value;
        var after := FirstOfTypeInLocale(s', DictionaryType, l);
        && after.Some? && after.value.id == d.id
        && d.entries.GetOr([]) <= after.value.entries.GetOr([])
        && forall k :: k in EntryKeys(candidates(s)) ==> k in EntryKeys(after.value.entries.GetOr([]))
  {
    var r := SyncLocales(s, locales, candidates);
    SyncLocalesCovers(s, locales, candidates);
    forall l | l in locales {
      AppendsGrow(s, r.0, l);
    }
  }
}
