/**
 * The route structure as the runtime sees it: a plain JavaScript object
 * (`RouteNode` in src/runtime/types/route.ts) whose own keys are either the
 * metadata keys `$$param` / `$$route` or child route segments. Objects are
 * ordered association lists, because `Object.entries` reports keys in
 * insertion order and assigning to an existing key keeps its position.
 */
module RouteTree {
  import opened Wrappers

  /** A JSON-like JavaScript value; `Obj` keeps its own keys in insertion order. */
  datatype Value = Obj(entries: seq<(string, Value)>) | Bool(b: bool) | Str(s: string) | Num(n: int)

  /** The keys of an object, in insertion order (`Object.keys`). */
  function Keys<V>(es: seq<(string, V)>): (r: seq<string>)
    ensures |r| == |es|
    ensures forall i :: 0 <= i < |es| ==> r[i] == es[i].0
  {
    if es == [] then [] else [es[0].0] + Keys(es[1..])
  }

  /** Reading property `k` (`obj[k]`), `None` for `undefined`. */
  function Lookup<V>(es: seq<(string, V)>, k: string): Option<V>
  {
    if es == [] then None
    else if es[0].0 == k then Some(es[0].1)
    else Lookup(es[1..], k)
  }

  /** A property is defined exactly when it is one of the object's keys. */
  lemma {:induction false} LookupDefined<V>(es: seq<(string, V)>, k: string)
    ensures Lookup(es, k).Some? <==> k in Keys(es)
  {
    if es != [] {
      LookupDefined(es[1..], k);
      assert Keys(es) == [es[0].0] + Keys(es[1..]);
    }
  }

  /** A value read from an object is stored in one of its entries. */
  lemma {:induction false} LookupFound<V>(es: seq<(string, V)>, k: string, v: V)
    requires Lookup(es, k) == Some(v)
    ensures exists i :: 0 <= i < |es| && es[i] == (k, v)
  {
    if es[0].0 != k {
      LookupFound(es[1..], k, v);
      var i :| 0 <= i < |es[1..]| && es[1..][i] == (k, v);
      assert es[i + 1] == (k, v);
    }
  }

  /** No key occurs twice, as in every JavaScript object. */
  predicate DistinctKeys<V>(es: seq<(string, V)>)
  {
    Distinct(Keys(es))
  }

  predicate Distinct(xs: seq<string>)
  {
    forall i, j :: 0 <= i < j < |xs| ==> xs[i] != xs[j]
  }

  /**
   * Property assignment `obj[k] = v`: an existing key keeps its place and gets
   * the new value, a new key is added at the end.
   */
  function Put<V>(es: seq<(string, V)>, k: string, v: V): seq<(string, V)>
  {
    if es == [] then [(k, v)]
    else if es[0].0 == k then [(k, v)] + es[1..]
    else [es[0]] + Put(es[1..], k, v)
  }

  /** After `obj[k] = v`, `obj[k]` is `v` and every other property reads as before. */
  lemma {:induction false} PutLookup<V>(es: seq<(string, V)>, k: string, v: V, j: string)
    ensures Lookup(Put(es, k, v), j) == if j == k then Some(v) else Lookup(es, j)
  {
    if es != [] && es[0].0 != k {
      PutLookup(es[1..], k, v, j);
    }
  }

  /** The key order after `obj[k] = v`: unchanged for an existing key, `k` last for a new one. */
  lemma {:induction false} PutKeys<V>(es: seq<(string, V)>, k: string, v: V)
    ensures Keys(Put(es, k, v)) == if k in Keys(es) then Keys(es) else Keys(es) + [k]
  {
    if es != [] {
      assert Keys(es) == [es[0].0] + Keys(es[1..]);
      if es[0].0 != k {
        PutKeys(es[1..], k, v);
        assert Keys([es[0]] + Put(es[1..], k, v)) == [es[0].0] + Keys(Put(es[1..], k, v));
      } else {
        assert Keys([(k, v)] + es[1..]) == [k] + Keys(es[1..]);
      }
    }
  }

  /** Assignment keeps the keys distinct. */
  lemma PutDistinct<V>(es: seq<(string, V)>, k: string, v: V)
    requires DistinctKeys(es)
    ensures DistinctKeys(Put(es, k, v))
  {
    PutKeys(es, k, v);
    var ks := Keys(es);
    if k !in ks {
      var ks' := ks + [k];
      forall i, j | 0 <= i < j < |ks'|
        ensures ks'[i] != ks'[j]
      {
        if j == |ks| {
          assert ks'[i] == ks[i];
        }
      }
    }
  }

  /**
   * The keys of an object after assigning the keys `xs` one after another to
   * an empty object: each key once, at the place of its first assignment.
   */
  function FirstOccurrences(xs: seq<string>): (r: seq<string>)
  {
    if xs == [] then []
    else
      var prev := FirstOccurrences(xs[..|xs| - 1]);
      if xs[|xs| - 1] in prev then prev else prev + [xs[|xs| - 1]]
  }

  /** `FirstOccurrences` keeps exactly the keys it is given, each once. */
  lemma {:induction false} FirstOccurrencesSpec(xs: seq<string>)
    ensures forall k :: k in FirstOccurrences(xs) <==> k in xs
    ensures Distinct(FirstOccurrences(xs))
  {
    if xs != [] {
      var init := xs[..|xs| - 1];
      FirstOccurrencesSpec(init);
      assert xs == init + [xs[|xs| - 1]];
      var prev := FirstOccurrences(init);
      if xs[|xs| - 1] !in prev {
        var r := prev + [xs[|xs| - 1]];
        forall i, j | 0 <= i < j < |r|
          ensures r[i] != r[j]
        {
          if j == |prev| {
            assert r[i] == prev[i];
          }
        }
      }
    }
  }

  /** One more assignment extends the key order as `FirstOccurrences` says. */
  lemma PutExtendsKeys<V>(es: seq<(string, V)>, xs: seq<string>, k: string, v: V)
    requires Keys(es) == FirstOccurrences(xs)
    ensures Keys(Put(es, k, v)) == FirstOccurrences(xs + [k])
  {
    PutKeys(es, k, v);
    assert (xs + [k])[..|xs + [k]| - 1] == xs;
  }

  /** `isMetadataKey(k)`: the two reserved keys. */
  predicate IsMetadataKey(k: string)
  {
    k == "$$param" || k == "$$route"
  }

  /** `value.$$route === true`. */
  predicate IsRoute(v: Value)
  {
    v.Obj? && Lookup(v.entries, "$$route") == Some(Bool(true))
  }

  /** `"$$param" in value`, whatever the value stored under it. */
  predicate HasParam(v: Value)
  {
    v.Obj? && "$$param" in Keys(v.entries)
  }

  /** The parameter name when `$$param` holds a string (`T extends { $$param: infer P extends string }`). */
  function ParamName(v: Value): Option<string>
  {
    if !v.Obj? then None
    else
      var p := Lookup(v.entries, "$$param");
      if p.Some? && p.value.Str? then Some(p.value.s) else None
  }

  /** The keys that are not metadata keys, in order. */
  function ChildKeys(es: seq<(string, Value)>): (r: seq<string>)
    ensures forall k :: k in r <==> k in Keys(es) && !IsMetadataKey(k)
  {
    if es == [] then []
    else (if IsMetadataKey(es[0].0) then [] else [es[0].0]) + ChildKeys(es[1..])
  }

  /** An object with at least one key besides the metadata keys. */
  predicate HasChildren(v: Value)
  {
    v.Obj? && |ChildKeys(v.entries)| > 0
  }
}
