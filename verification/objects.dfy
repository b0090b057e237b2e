/**
 * Loosely typed field bags (JSON-like objects) with JavaScript's property
 * order, and the object spread `{...target, ...source}` the schema helpers
 * and seed scripts use to build documents.
 */
module Objects {
  import opened Wrappers
  import opened Sequences

  datatype Value =
    | Null
    | Bool(b: bool)
    | Num(n: int)
    | Str(s: string)
    | List(items: seq<Value>)
    | Record(fields: seq<Field>)

  datatype Field = Field(name: string, value: Value)

  /** An object: its own properties in insertion order. */
  type Object = seq<Field>

  function Names(o: Object): (r: seq<string>)
    ensures |r| == |o|
    ensures forall i :: 0 <= i < |o| ==> r[i] == o[i].name
  {
    seq(|o|, i requires 0 <= i < |o| => o[i].name)
  }

  /** Property names are unique, as in every JavaScript object. */
  predicate WellFormed(o: Object) {
    NoDup(Names(o))
  }

  /** `o[name]`, or None when the property is absent. */
  function Get(o: Object, name: string): (r: Option<Value>)
    ensures r.Some? <==> name in Names(o)
  {
    if o == [] then None
    else if o[0].name == name then Some(o[0].value)
    else
      assert Names(o) == [o[0].name] + Names(o[1..]);
      Get(o[1..], name)
  }

  /** `o[name] = v`: an existing property keeps its position, a new one goes last. */
  function Put(o: Object, name: string, v: Value): (r: Object)
    ensures name in Names(o) ==> Names(r) == Names(o)
    ensures name !in Names(o) ==> Names(r) == Names(o) + [name]
    ensures forall m :: Get(r, m) == if m == name then Some(v) else Get(o, m)
  {
    if o == [] then [Field(name, v)]
    else if o[0].name == name then [Field(name, v)] + o[1..]
    else
      assert Names(o) == [o[0].name] + Names(o[1..]);
      var r := [o[0]] + Put(o[1..], name, v);
      assert Names(r) == [o[0].name] + Names(Put(o[1..], name, v));
      r
  }

  /** `{...target, ...source}`: the properties of `source` assigned onto a copy of `target`, in order. */
  function Spread(target: Object, source: Object): Object
    decreases |source|
  {
    if source == [] then target
    else Spread(Put(target, source[0].name, source[0].value), source[1..])
  }

  /** A property of the spread comes from `source` when it has it, else from `target`. */
  lemma {:induction false} SpreadGet(target: Object, source: Object, name: string)
    requires WellFormed(source)
    ensures Get(Spread(target, source), name)
         == if name in Names(source) then Get(source, name) else Get(target, name)
    decreases |source|
  {
    if source != [] {
      assert Names(source) == [source[0].name] + Names(source[1..]);
      assert WellFormed(source[1..]) by {
        assert Names(source[1..]) == Names(source)[1..];
      }
      SpreadGet(Put(target, source[0].name, source[0].value), source[1..], name);
      if name == source[0].name {
        assert name !in Names(source[1..]);
      }
    }
  }

  /** The spread keeps `target`'s property order and appends `source`'s new properties in their order. */
  lemma {:induction false} SpreadNames(target: Object, source: Object)
    requires WellFormed(source)
    ensures Names(Spread(target, source)) == Names(target) + Without(Names(source), Elems(Names(target)))
    decreases |source|
  {
    if source == [] {
      assert Names(source) == [];
    } else {
      var n := source[0].name;
      var t' := Put(target, n, source[0].value);
      var rest := Names(source[1..]);
      var e := Elems(Names(target));
      assert Names(source) == [n] + rest;
      assert WellFormed(source[1..]) by {
        assert rest == Names(source)[1..];
      }
      SpreadNames(t', source[1..]);
      assert Names(Spread(target, source)) == Names(t') + Without(rest, Elems(Names(t')));
      if n in e {
        assert Names(t') == Names(target);
        assert Without(Names(source), e) == Without(rest, e);
      } else {
        assert Names(t') == Names(target) + [n];
        assert Without(Names(source), e) == [n] + Without(rest, e);
        SpreadNamesStep(Names(target), n, rest);
      }
    }
  }

  lemma SpreadNamesStep(a: seq<string>, n: string, rest: seq<string>)
    requires n !in a && n !in rest
    ensures (a + [n]) + Without(rest, Elems(a + [n])) == a + ([n] + Without(rest, Elems(a)))
  {
    ElemsAppend(a, [n]);
    assert Elems(a + [n]) == Elems(a) + {n};
    WithoutIgnoresAbsent(rest, Elems(a), n);
  }

  /** Spreading well-formed objects yields a well-formed object. */
  lemma SpreadWellFormed(target: Object, source: Object)
    requires WellFormed(target) && WellFormed(source)
    ensures WellFormed(Spread(target, source))
  {
    SpreadNames(target, source);
    var a := Names(target);
    var b := Without(Names(source), Elems(a));
    WithoutNoDup(Names(source), Elems(a));
    WithoutElems(Names(source), Elems(a));
    assert Names(Spread(target, source)) == a + b;
    forall i, j | 0 <= i < j < |a + b| ensures (a + b)[i] != (a + b)[j] {
      if j >= |a| && i < |a| {
        assert (a + b)[j] in Elems(b);
        assert (a + b)[i] in Elems(a);
      }
    }
  }
}
