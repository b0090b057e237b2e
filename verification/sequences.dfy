/** Generic facts about sequences used by the ordering and de-duplication rules. */
module Sequences {

  /** No element occurs twice. */
  predicate NoDup<T(==)>(s: seq<T>) {
    forall i, j :: 0 <= i < j < |s| ==> s[i] != s[j]
  }

  /** The set of elements of a sequence. */
  function Elems<T>(s: seq<T>): set<T> {
    set x | x in s
  }

  /** Index of the first occurrence of `x` in `s`. */
  function FirstIndex<T(==)>(s: seq<T>, x: T): (i: nat)
    requires x in s
    ensures i < |s| && s[i] == x && x !in s[..i]
  {
    if s[0] == x then 0 else 1 + FirstIndex(s[1..], x)
  }

  /** The elements of `s` that are not in `excluded`, in order. */
  function Without<T(==)>(s: seq<T>, excluded: set<T>): seq<T> {
    if s == [] then []
    else if s[0] in excluded then Without(s[1..], excluded)
    else [s[0]] + Without(s[1..], excluded)
  }

  /**
   * Left-to-right scan that keeps an element only if it has not been seen
   * yet: the `seen`-set loop every ordering routine of the scripts uses.
   */
  function DedupFrom<T(==)>(seen: set<T>, s: seq<T>): (r: seq<T>)
    ensures NoDup(r)
    ensures Elems(r) == Elems(s) - seen
    decreases |s|
  {
    if s == [] then []
    else if s[0] in seen then
      assert Elems(s) == {s[0]} + Elems(s[1..]);
      DedupFrom(seen, s[1..])
    else
      var rest := DedupFrom(seen + {s[0]}, s[1..]);
      assert s[0] !in rest;
      assert Elems(s) == {s[0]} + Elems(s[1..]);
      assert Elems([s[0]] + rest) == {s[0]} + Elems(rest);
      [s[0]] + rest
  }

  function Dedup<T(==)>(s: seq<T>): seq<T> {
    DedupFrom({}, s)
  }

  lemma ElemsAppend<T>(a: seq<T>, b: seq<T>)
    ensures Elems(a + b) == Elems(a) + Elems(b)
  {
    forall x | x in Elems(a + b) ensures x in Elems(a) + Elems(b) {
      var i :| 0 <= i < |a + b| && (a + b)[i] == x;
      if i >= |a| { assert b[i - |a|] == x; }
    }
  }

  lemma WithoutElems<T>(s: seq<T>, excluded: set<T>)
    ensures Elems(Without(s, excluded)) == Elems(s) - excluded
  {
    if s != [] {
      WithoutElems(s[1..], excluded);
      assert Elems(s) == {s[0]} + Elems(s[1..]);
      if s[0] !in excluded {
        assert Elems(Without(s, excluded)) == {s[0]} + Elems(Without(s[1..], excluded));
      }
    }
  }

  /** Excluding values the sequence does not hold changes nothing. */
  lemma {:induction false} WithoutDisjoint<T>(s: seq<T>, excluded: set<T>)
    requires forall x :: x in s ==> x !in excluded
    ensures Without(s, excluded) == s
  {
    if s != [] {
      assert forall x :: x in s[1..] ==> x in s;
      WithoutDisjoint(s[1..], excluded);
    }
  }

  lemma WithoutNoDup<T>(s: seq<T>, excluded: set<T>)
    requires NoDup(s)
    ensures NoDup(Without(s, excluded))
  {
    if s != [] {
      WithoutNoDup(s[1..], excluded);
      WithoutElems(s[1..], excluded);
      assert s[0] !in s[1..];
      if s[0] !in excluded {
        assert s[0] !in Elems(Without(s[1..], excluded));
      }
    }
  }

  /** Scanning a concatenation is scanning the first part, then the second with its elements seen. */
  lemma {:induction false} DedupFromAppend<T>(seen: set<T>, a: seq<T>, b: seq<T>)
    ensures DedupFrom(seen, a + b) == DedupFrom(seen, a) + DedupFrom(seen + Elems(a), b)
    decreases |a|
  {
    if a == [] {
      assert a + b == b;
      assert Elems(a) == {};
      assert seen + Elems(a) == seen;
    } else {
      assert (a + b)[0] == a[0];
      assert (a + b)[1..] == a[1..] + b;
      assert Elems(a) == {a[0]} + Elems(a[1..]);
      if a[0] in seen {
        DedupFromAppend(seen, a[1..], b);
        assert seen + Elems(a) == seen + Elems(a[1..]);
      } else {
        DedupFromAppend(seen + {a[0]}, a[1..], b);
        assert seen + {a[0]} + Elems(a[1..]) == seen + Elems(a);
      }
    }
  }

  /** A duplicate-free sequence is kept as is, minus what was already seen. */
  lemma {:induction false} DedupFromDistinct<T>(seen: set<T>, s: seq<T>)
    requires NoDup(s)
    ensures DedupFrom(seen, s) == Without(s, seen)
    decreases |s|
  {
    if s != [] {
      assert s[0] !in s[1..];
      if s[0] in seen {
        DedupFromDistinct(seen, s[1..]);
      } else {
        DedupFromDistinct(seen + {s[0]}, s[1..]);
        WithoutIgnoresAbsent(s[1..], seen, s[0]);
      }
    }
  }

  lemma {:induction false} WithoutIgnoresAbsent<T>(s: seq<T>, excluded: set<T>, x: T)
    requires x !in s
    ensures Without(s, excluded + {x}) == Without(s, excluded)
  {
    if s != [] {
      WithoutIgnoresAbsent(s[1..], excluded, x);
    }
  }

  /**
   * The scan keeps elements in first-occurrence order: an element kept
   * earlier first occurs earlier in the input.
   */
  lemma {:induction false} DedupFromFirstOccurrenceOrder<T>(seen: set<T>, s: seq<T>, i: nat, j: nat)
    requires i < j < |DedupFrom(seen, s)|
    ensures DedupFrom(seen, s)[i] in s && DedupFrom(seen, s)[j] in s
    ensures FirstIndex(s, DedupFrom(seen, s)[i]) < FirstIndex(s, DedupFrom(seen, s)[j])
    decreases |s|
  {
    var r := DedupFrom(seen, s);
    assert r[i] in Elems(r) && r[j] in Elems(r);
    assert s != [];
    if s[0] in seen {
      DedupFromFirstOccurrenceOrder(seen, s[1..], i, j);
      assert r[i] != s[0] && r[j] != s[0];
    } else {
      var rest := DedupFrom(seen + {s[0]}, s[1..]);
      assert r == [s[0]] + rest;
      assert r[j] == rest[j - 1];
      assert r[j] in Elems(rest);
      assert r[j] != s[0];
      if i > 0 {
        DedupFromFirstOccurrenceOrder(seen + {s[0]}, s[1..], i - 1, j - 1);
        assert r[i] == rest[i - 1];
        assert r[i] in Elems(rest);
        assert r[i] != s[0];
      }
    }
  }
}
