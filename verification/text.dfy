/**
 * String helpers with JavaScript semantics: the whitespace class shared by
 * `String.prototype.trim` and the regular-expression class `\s`, truthiness
 * of optional strings, `split(',')`, and the comma-separated setting lists
 * the scripts read from the environment.
 */
module Text {
  import opened Wrappers

  /** WhiteSpace and LineTerminator code points of ECMAScript. */
  predicate IsSpace(c: char) {
    || c == ' ' || c == '\t' || c == '\n' || c == '\r' || c == '\U{000B}' || c == '\U{000C}'
    || c == '\U{00A0}' || c == '\U{1680}' || ('\U{2000}' <= c <= '\U{200A}')
    || c == '\U{2028}' || c == '\U{2029}' || c == '\U{202F}' || c == '\U{205F}'
    || c == '\U{3000}' || c == '\U{FEFF}'
  }

  /** JavaScript truthiness of a string that may be undefined: defined and not empty. */
  predicate Truthy(o: Option<string>) {
    o.Some? && o.value != ""
  }

  /** `o || fallback` for an optional string. */
  function OrElse(o: Option<string>, fallback: string): (r: string)
    ensures Truthy(o) ==> r == o.value
    ensures !Truthy(o) ==> r == fallback
  {
    if Truthy(o) then o.value else fallback
  }

  predicate StartsWith(s: string, prefix: string) {
    |prefix| <= |s| && s[..|prefix|] == prefix
  }

  /** `s.slice(0, n)`. */
  function Prefix(s: string, n: nat): (r: string)
    ensures |r| == if |s| < n then |s| else n
    ensures StartsWith(s, r)
  {
    if |s| <= n then s else s[..n]
  }

  /** `s.replace(pattern, '')` with a string pattern: removes the first occurrence only, wherever it is. */
  function RemoveFirst(s: string, pattern: string): (r: string)
    decreases |s|
  {
    if |pattern| > |s| then s
    else if s[..|pattern|] == pattern then s[|pattern|..]
    else [s[0]] + RemoveFirst(s[1..], pattern)
  }

  /** ASCII `toLowerCase`. */
  function Lower(c: char): char {
    if 'A' <= c <= 'Z' then (c as int + 32) as char else c
  }

  function LowerAll(s: string): (r: string)
    ensures |r| == |s|
    ensures forall i :: 0 <= i < |s| ==> r[i] == Lower(s[i])
  {
    seq(|s|, i requires 0 <= i < |s| => Lower(s[i]))
  }

  // ---------------------------------------------------------------- trim

  /** No whitespace at either end. */
  predicate IsTrimmed(s: string) {
    s == [] || (!IsSpace(s[0]) && !IsSpace(s[|s| - 1]))
  }

  /** Every character is whitespace. */
  predicate AllSpace(s: string) {
    forall k :: 0 <= k < |s| ==> IsSpace(s[k])
  }

  /** Number of whitespace characters `trim` drops at the start. */
  function LeadingSpaces(s: string): (n: nat)
    ensures n <= |s| && AllSpace(s[..n])
    ensures n < |s| ==> !IsSpace(s[n])
    ensures s != [] && IsSpace(s[0]) ==> n >= 1
  {
    if s != [] && IsSpace(s[0]) then
      var n := 1 + LeadingSpaces(s[1..]);
      assert s[..n] == [s[0]] + s[1..][..n - 1];
      n
    else 0
  }

  /** Number of whitespace characters `trim` drops at the end. */
  function TrailingSpaces(s: string): (n: nat)
    ensures n <= |s| && AllSpace(s[|s| - n..])
    ensures n < |s| ==> !IsSpace(s[|s| - n - 1])
  {
    if s != [] && IsSpace(s[|s| - 1]) then
      var init := s[..|s| - 1];
      var m := TrailingSpaces(init);
      var n := 1 + m;
      forall k | |s| - n <= k < |s| ensures IsSpace(s[k]) {
        if k < |s| - 1 {
          assert s[k] == init[|init| - m..][k - (|s| - n)];
        }
      }
      n
    else 0
  }

  /**
   * `s.trim()`: the part of `s` between its leading and its trailing
   * whitespace. Only whitespace precedes and follows the result, and the
   * result neither starts nor ends with whitespace.
   */
  function Trim(s: string): (r: string)
    ensures IsTrimmed(r)
    ensures |r| <= |s|
    ensures var n := LeadingSpaces(s);
      n + |r| <= |s| && r == s[n..n + |r|] && AllSpace(s[n + |r|..])
    ensures IsTrimmed(s) ==> r == s
  {
    var n := LeadingSpaces(s);
    var m := TrailingSpaces(s[n..]);
    assert s[n..][|s| - n - m..] == s[|s| - m..];
    assert n + m < |s| ==> s[n..][|s| - n - m - 1] == s[|s| - m - 1];
    CutIsTrimmed(s, n, m);
    TrimmedHasNoEnds(s, n, m);
    s[n..|s| - m]
  }

  /** Cutting off a prefix that stops at a non-space and a suffix that starts after one leaves a trimmed string. */
  lemma CutIsTrimmed(s: string, n: nat, m: nat)
    requires n + m <= |s|
    requires n + m < |s| ==> !IsSpace(s[n]) && !IsSpace(s[|s| - m - 1])
    ensures IsTrimmed(s[n..|s| - m])
  {
    var r := s[n..|s| - m];
    assert r != [] ==> r[0] == s[n] && r[|r| - 1] == s[|s| - m - 1];
  }

  /** A trimmed string has no whitespace prefix or suffix to cut. */
  lemma TrimmedHasNoEnds(s: string, n: nat, m: nat)
    requires n + m <= |s| && AllSpace(s[..n]) && AllSpace(s[|s| - m..])
    ensures IsTrimmed(s) ==> n == 0 && m == 0
  {
    assert n > 0 ==> s[..n][0] == s[0];
    assert m > 0 ==> s[|s| - m..][m - 1] == s[|s| - 1];
  }

  /** Trimming adds no character. */
  lemma TrimAddsNothing(s: string, c: char)
    requires c !in s
    ensures c !in Trim(s)
  {
  }

  /**
   * Trim removes exactly the whitespace around a trimmed core: whatever
   * whitespace surrounds `t`, trimming gives back `t`.
   */
  lemma TrimUnique(a: string, t: string, b: string)
    requires AllSpace(a) && AllSpace(b) && IsTrimmed(t)
    ensures Trim(a + t + b) == t
  {
    var s := a + t + b;
    if t == [] {
      assert forall k :: 0 <= k < |s| ==> s[k] == (if k < |a| then a[k] else b[k - |a|]);
      LeadingSpacesUnique(s, |s|);
      assert s[|s|..] == [];
    } else {
      assert s[..|a|] == a && s[|a|] == t[0];
      LeadingSpacesUnique(s, |a|);
      var u := s[|a|..];
      assert u == t + b;
      assert u[|u| - |b|..] == b && u[|u| - |b| - 1] == t[|t| - 1];
      TrailingSpacesUnique(u, |b|);
      assert s[|a|..|s| - |b|] == t;
    }
  }

  /** `LeadingSpaces` is the one count of leading whitespace that stops at a non-space. */
  lemma LeadingSpacesUnique(s: string, k: nat)
    requires k <= |s| && AllSpace(s[..k]) && (k < |s| ==> !IsSpace(s[k]))
    ensures LeadingSpaces(s) == k
  {
    var n := LeadingSpaces(s);
    forall i | 0 <= i < k ensures IsSpace(s[i]) {
      assert s[..k][i] == s[i];
    }
    forall i | 0 <= i < n ensures IsSpace(s[i]) {
      assert s[..n][i] == s[i];
    }
  }

  /** `TrailingSpaces` is the one count of trailing whitespace that starts after a non-space. */
  lemma TrailingSpacesUnique(s: string, k: nat)
    requires k <= |s| && AllSpace(s[|s| - k..]) && (k < |s| ==> !IsSpace(s[|s| - k - 1]))
    ensures TrailingSpaces(s) == k
  {
    var n := TrailingSpaces(s);
    forall i | |s| - k <= i < |s| ensures IsSpace(s[i]) {
      assert s[|s| - k..][i - (|s| - k)] == s[i];
    }
    forall i | |s| - n <= i < |s| ensures IsSpace(s[i]) {
      assert s[|s| - n..][i - (|s| - n)] == s[i];
    }
  }


  // ---------------------------------------------------------------- split / join

  /** `s.split(sep)` for a one-character separator (the empty string gives `[""]`). */
  function Split(s: string, sep: char): (parts: seq<string>)
    ensures |parts| >= 1
    ensures forall i :: 0 <= i < |parts| ==> sep !in parts[i]
    decreases |s|
  {
    if s == [] then [""]
    else
      var rest := Split(s[1..], sep);
      if s[0] == sep then [""] + rest
      else [[s[0]] + rest[0]] + rest[1..]
  }

  /** `parts.join(sep)`. */
  function Join(parts: seq<string>, sep: char): string {
    if parts == [] then ""
    else if |parts| == 1 then parts[0]
    else parts[0] + [sep] + Join(parts[1..], sep)
  }

  /** A leading non-separator joins the first part. */
  lemma SplitAtOther(c: char, t: string, sep: char)
    requires c != sep
    ensures Split([c] + t, sep) == [[c] + Split(t, sep)[0]] + Split(t, sep)[1..]
  {
    assert ([c] + t)[1..] == t;
  }

  /** A separator-free prefix joins the first part. */
  lemma {:induction false} SplitPrefix(p: string, t: string, sep: char)
    requires sep !in p
    ensures Split(p + t, sep) == [p + Split(t, sep)[0]] + Split(t, sep)[1..]
    decreases |p|
  {
    var st := Split(t, sep);
    if p != [] {
      var q := p[1..] + t;
      assert p + t == [p[0]] + q;
      SplitAtOther(p[0], q, sep);
      SplitPrefix(p[1..], t, sep);
      assert [p[0]] + (p[1..] + st[0]) == p + st[0];
    } else {
      assert p + t == t;
      assert st == [st[0]] + st[1..];
      assert p + st[0] == st[0];
    }
  }

  /** A leading separator splits off an empty first part. */
  lemma SplitAtSeparator(t: string, sep: char)
    ensures Split([sep] + t, sep) == [""] + Split(t, sep)
  {
    assert ([sep] + t)[1..] == t;
  }

  /** Splitting a join recovers the parts when no part holds the separator. */
  lemma {:induction false} SplitJoin(parts: seq<string>, sep: char)
    requires |parts| >= 1
    requires forall i :: 0 <= i < |parts| ==> sep !in parts[i]
    ensures Split(Join(parts, sep), sep) == parts
    decreases |parts|
  {
    if |parts| == 1 {
      SplitPrefix(parts[0], "", sep);
      assert parts[0] + "" == parts[0];
    } else {
      var tail := parts[1..];
      var rest := Join(tail, sep);
      forall i | 0 <= i < |tail| ensures sep !in tail[i] {
        assert tail[i] == parts[i + 1];
      }
      SplitJoin(tail, sep);
      SplitAtSeparator(rest, sep);
      SplitPrefix(parts[0], [sep] + rest, sep);
      assert Join(parts, sep) == parts[0] + ([sep] + rest);
      assert parts[0] + "" == parts[0];
      assert parts == [parts[0]] + tail;
    }
  }

  /** Joining the parts of a split gives back the string: every string is the join of its fields. */
  lemma {:induction false} JoinSplit(s: string, sep: char)
    ensures Join(Split(s, sep), sep) == s
    decreases |s|
  {
    if s != [] {
      var t := s[1..];
      var st := Split(t, sep);
      JoinSplit(t, sep);
      assert s == [s[0]] + t;
      if s[0] == sep {
        assert Split(s, sep) == [""] + st;
        assert Join([""] + st, sep) == "" + [sep] + Join(st, sep);
      } else {
        var first := [s[0]] + st[0];
        assert Split(s, sep) == [first] + st[1..];
        if |st| == 1 {
          assert Join([first], sep) == first;
        } else {
          assert Join([first] + st[1..], sep) == first + [sep] + Join(st[1..], sep);
          assert Join(st, sep) == st[0] + [sep] + Join(st[1..], sep);
        }
      }
    }
  }

  // ---------------------------------------------------------------- setting lists

  function TrimAll(parts: seq<string>): (r: seq<string>)
    ensures |r| == |parts|
    ensures forall i :: 0 <= i < |r| ==> r[i] == Trim(parts[i])
  {
    seq(|parts|, i requires 0 <= i < |parts| => Trim(parts[i]))
  }

  /** `.filter(Boolean)` over strings: the non-empty parts, in order. */
  function NonEmpty(parts: seq<string>): (r: seq<string>)
    ensures |r| <= |parts|
    ensures forall x :: x in r <==> x in parts && x != ""
  {
    if parts == [] then []
    else if parts[0] == "" then NonEmpty(parts[1..])
    else [parts[0]] + NonEmpty(parts[1..])
  }

  /**
   * Filtering distributes over concatenation: every non-empty part is kept,
   * in its place relative to the other kept parts.
   */
  lemma {:induction false} NonEmptyAppend(a: seq<string>, b: seq<string>)
    ensures NonEmpty(a + b) == NonEmpty(a) + NonEmpty(b)
  {
    if a == [] {
      assert a + b == b;
    } else {
      assert (a + b)[0] == a[0] && (a + b)[1..] == a[1..] + b;
      NonEmptyAppend(a[1..], b);
    }
  }

  /** A well-formed setting item: non-empty, trimmed, without a comma. */
  predicate IsListItem(s: string) {
    s != "" && IsTrimmed(s) && ',' !in s
  }

  /**
   * `(setting || fallback).split(',').map((l) => l.trim()).filter(Boolean)`:
   * how the scripts read their locale lists from the environment.
   */
  function ParseList(setting: Option<string>, fallback: string): (r: seq<string>)
    ensures forall i :: 0 <= i < |r| ==> IsListItem(r[i])
  {
    var parts := Split(OrElse(setting, fallback), ',');
    var trimmed := TrimAll(parts);
    forall i | 0 <= i < |trimmed| ensures ',' !in trimmed[i] {
      TrimAddsNothing(parts[i], ',');
    }
    var r := NonEmpty(trimmed);
    forall i | 0 <= i < |r| ensures IsListItem(r[i]) {
      assert r[i] in r;
      var j :| 0 <= j < |trimmed| && trimmed[j] == r[i];
    }
    r
  }

  /**
   * A setting whose comma-separated fields are `parts` reads as those
   * fields trimmed, with the empty ones dropped, in their order. By
   * `JoinSplit`, every non-empty setting has such fields.
   */
  lemma ParseListFields(parts: seq<string>, fallback: string)
    requires |parts| >= 1
    requires forall i :: 0 <= i < |parts| ==> ',' !in parts[i]
    requires Join(parts, ',') != ""
    ensures ParseList(Some(Join(parts, ',')), fallback) == NonEmpty(TrimAll(parts))
  {
    SplitJoin(parts, ',');
  }

  /** Blanks around the items and empty items are ignored: `" en , lv,,"` reads as `en`, `lv`. */
  lemma ParseListExample(fallback: string)
    ensures ParseList(Some(" en , lv,,"), fallback) == ["en", "lv"]
  {
    var parts := [" en ", " lv", "", ""];
    ExampleFields();
    ParseListFields(parts, fallback);
    ExampleTrims(parts);
    ExampleNonEmpty(TrimAll(parts));
  }

  lemma ExampleNonEmpty(r: seq<string>)
    requires |r| == 4 && r[0] == "en" && r[1] == "lv" && r[2] == "" && r[3] == ""
    ensures NonEmpty(r) == ["en", "lv"]
  {
    assert r == ["en"] + ["lv"] + ["", ""];
    NonEmptyAppend(["en"] + ["lv"], ["", ""]);
    NonEmptyAppend(["en"], ["lv"]);
    assert NonEmpty(["", ""]) == [];
  }

  lemma ExampleFields()
    ensures Join([" en ", " lv", "", ""], ',') == " en , lv,,"
    ensures forall i :: 0 <= i < 4 ==> ',' !in [" en ", " lv", "", ""][i]
  {
    var parts := [" en ", " lv", "", ""];
    assert Join(parts[3..], ',') == "";
    assert Join(parts[2..], ',') == ",";
    assert Join(parts[1..], ',') == " lv,,";
  }

  lemma ExampleTrims(parts: seq<string>)
    requires parts == [" en ", " lv", "", ""]
    ensures var r := TrimAll(parts); |r| == 4 && r[0] == "en" && r[1] == "lv" && r[2] == "" && r[3] == ""
  {
    ExampleTrim(" ", "en", " ");
    ExampleTrim(" ", "lv", "");
    assert parts[0] == " " + "en" + " ";
    assert parts[1] == " " + "lv" + "";
  }

  lemma ExampleTrim(a: string, t: string, b: string)
    requires a == " " && b in {"", " "} && t in {"en", "lv"}
    ensures Trim(a + t + b) == t
  {
    assert AllSpace(a) && AllSpace(b) && IsTrimmed(t);
    TrimUnique(a, t, b);
  }

  /** A comma-joined list of well-formed items parses back to the same list. */
  lemma {:induction false} ParseListJoin(items: seq<string>, fallback: string)
    requires |items| >= 1
    requires forall i :: 0 <= i < |items| ==> IsListItem(items[i])
    ensures ParseList(Some(Join(items, ',')), fallback) == items
  {
    var joined := Join(items, ',');
    assert joined != "" by {
      if |items| > 1 {
        assert |joined| >= |items[0]|;
      }
    }
    SplitJoin(items, ',');
    assert TrimAll(items) == items;
    NonEmptyKeeps(items);
  }

  lemma {:induction false} NonEmptyKeeps(parts: seq<string>)
    requires forall i :: 0 <= i < |parts| ==> parts[i] != ""
    ensures NonEmpty(parts) == parts
  {
    if parts != [] {
      NonEmptyKeeps(parts[1..]);
    }
  }

  /** An unset or empty setting falls back to the default list. */
  lemma ParseListDefault(setting: Option<string>, fallback: seq<string>)
    requires !Truthy(setting)
    requires |fallback| >= 1
    requires forall i :: 0 <= i < |fallback| ==> IsListItem(fallback[i])
    ensures ParseList(setting, Join(fallback, ',')) == fallback
  {
    ParseListJoin(fallback, Join(fallback, ','));
    assert ParseList(Some(Join(fallback, ',')), Join(fallback, ',')) == fallback;
  }

  /** `String(x || '') === '1' || String(x || '').toLowerCase() === 'true'`. */
  predicate IsFlagSet(setting: Option<string>) {
    var s := OrElse(setting, "");
    s == "1" || LowerAll(s) == "true"
  }
}
