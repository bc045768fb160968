/**
 * `createRouteBuilder` (src/runtime/runtime.ts): from a route structure, an
 * object with one property per child route. The closures it creates are
 * defunctionalised: a `Prop` records what a closure captured, and `CallThunk`
 * and `CallParam` say what calling it returns. lodash's `camelCase` is not part
 * of this model; it is the parameter `camel` throughout.
 */
module RuntimeBuilder {
  import opened Wrappers
  import opened Strings
  import opened RouteTree
  import opened RuntimePath

  /** `stripParens(s)`: `s.replace(/[()]/g, "")`. */
  function StripParens(s: string): string
  {
    if s == [] then []
    else (if s[0] == '(' || s[0] == ')' then [] else [s[0]]) + StripParens(s[1..])
  }

  lemma {:induction false} StripParensRemovesParens(s: string)
    ensures '(' !in StripParens(s) && ')' !in StripParens(s)
  {
    if s != [] {
      StripParensRemovesParens(s[1..]);
    }
  }

  lemma {:induction false} StripParensKeeps(s: string)
    requires '(' !in s && ')' !in s
    ensures StripParens(s) == s
  {
    if s != [] {
      StripParensKeeps(s[1..]);
      assert [s[0]] + s[1..] == s;
    }
  }

  /** `constructBuilderKey(key)`: keep a leading `$`, strip parentheses from the rest and camel-case it. */
  function ConstructBuilderKey(key: string, camel: string -> string): string
  {
    var isDynamicKey := StartsWith(key, "$");
    var rawForBuilder := if isDynamicKey then key[1..] else key;
    var transformedKey := camel(StripParens(rawForBuilder));
    Join(NonEmpty([if isDynamicKey then "$" else "", transformedKey]), "")
  }

  /** The builder key is the `$` of a dynamic key followed by `camel` of the rest without parentheses. */
  lemma BuilderKeyShape(key: string, camel: string -> string)
    ensures var isDynamicKey := StartsWith(key, "$");
      ConstructBuilderKey(key, camel)
        == (if isDynamicKey then "$" else "") + camel(StripParens(if isDynamicKey then key[1..] else key))
  {
    var isDynamicKey := StartsWith(key, "$");
    var t := camel(StripParens(if isDynamicKey then key[1..] else key));
    JoinNonEmptyPair(if isDynamicKey then "$" else "", t);
  }

  /** Joining the non-empty ones of two strings with no separator concatenates them. */
  lemma JoinNonEmptyPair(a: string, b: string)
    ensures Join(NonEmpty([a, b]), "") == a + b
  {
    NonEmptyPair(a, b);
    if a == "" {
      assert a + b == b;
    } else if b == "" {
      assert a + b == a;
    } else {
      assert Join([a, b], "") == a + "" + Join([b], "");
    }
  }

  /**
   * A dynamic key gives a builder key that starts with `$`; a static key gives
   * one that does not, as long as `camel` does not start its output for that
   * key with `$`.
   */
  lemma BuilderKeyKeepsSigil(key: string, camel: string -> string)
    requires !StartsWith(key, "$") ==> !StartsWith(camel(StripParens(key)), "$")
    ensures StartsWith(ConstructBuilderKey(key, camel), "$") <==> StartsWith(key, "$")
  {
    BuilderKeyShape(key, camel);
    var k := ConstructBuilderKey(key, camel);
    if StartsWith(key, "$") {
      assert k[..1] == "$";
    }
  }

  /** `camel` only ever sees the key without its `$` and without parentheses. */
  lemma BuilderKeySeesNoParens(key: string, camel: string -> string)
    ensures var raw := if StartsWith(key, "$") then key[1..] else key;
      '(' !in StripParens(raw) && ')' !in StripParens(raw)
  {
    StripParensRemovesParens(if StartsWith(key, "$") then key[1..] else key);
  }

  /** A route group `(name)` and a plain folder `name` get the same builder key. */
  lemma GroupAndPlainKeysCollide(name: string, camel: string -> string)
    requires !StartsWith(name, "$")
    ensures ConstructBuilderKey("(" + name + ")", camel) == ConstructBuilderKey(name, camel)
  {
    var g := "(" + name + ")";
    assert !StartsWith(g, "$") by { assert g[0] == '('; }
    assert StripParens(g) == StripParens(name) by {
      assert g == ['('] + (name + ")");
      StripParensAppend(name, ")");
      assert StripParens(")") == [];
    }
    BuilderKeyShape(g, camel);
    BuilderKeyShape(name, camel);
  }

  lemma {:induction false} StripParensAppend(a: string, b: string)
    ensures StripParens(a + b) == StripParens(a) + StripParens(b)
  {
    if a == [] {
      assert a + b == b;
    } else {
      assert (a + b)[0] == a[0] && (a + b)[1..] == a[1..] + b;
      StripParensAppend(a[1..], b);
    }
  }

  /** What a builder property holds. */
  datatype Prop =
      /** `() => buildRoutePath(segments, basePrefix)` */
    | PathThunk(segments: seq<Segment>, basePrefix: string)
      /** `(param) => …` for a child `node` reached by `currentPath` */
    | ParamFn(node: Value, currentPath: seq<Segment>, basePrefix: string)
      /** a nested builder object */
    | Nested(fields: seq<(string, Prop)>)

  /** What calling a parameter function returns: a path or a nested builder object. */
  datatype Returned = RString(s: string) | RObject(fields: seq<(string, Prop)>)

  /** Calling a `PathThunk`. */
  function CallThunk(f: Prop): string
    requires f.PathThunk?
  {
    BuildRoutePath(f.segments, f.basePrefix)
  }

  /** `Object.assign(children, { $: () => buildRoutePath(path, basePrefix) })` when the node is a route. */
  function RouteAccessor(fields: seq<(string, Prop)>, node: Value, path: seq<Segment>, basePrefix: string): seq<(string, Prop)>
  {
    if IsRoute(node) then Put(fields, "$", PathThunk(path, basePrefix)) else fields
  }

  /** A child that `createRouteBuilder` turns into a property: not a metadata key, and an object. */
  predicate Eligible(e: (string, Value))
  {
    !IsMetadataKey(e.0) && e.1.Obj?
  }

  /** The property created for the eligible child `key: value` below `basePath`. */
  function ChildProp(key: string, value: Value, basePath: seq<Segment>, basePrefix: string, camel: string -> string): Prop
    requires value.Obj?
    decreases value, 3
  {
    var currentPath := basePath + [SStr(key)];
    if HasParam(value) then ParamFn(value, currentPath, basePrefix)
    else if IsRoute(value) && !HasChildren(value) then PathThunk(currentPath, basePrefix)
    else Nested(RouteAccessor(Builder(value, currentPath, basePrefix, camel), value, currentPath, basePrefix))
  }

  /** The builder after the first `n` entries of `structure` have been visited. */
  function BuilderPrefix(structure: Value, n: nat, basePath: seq<Segment>, basePrefix: string, camel: string -> string)
    : seq<(string, Prop)>
    requires structure.Obj? && n <= |structure.entries|
    decreases structure, 1, n
  {
    if n == 0 then []
    else
      var prev := BuilderPrefix(structure, n - 1, basePath, basePrefix, camel);
      var e := structure.entries[n - 1];
      if Eligible(e) then Put(prev, ConstructBuilderKey(e.0, camel), ChildProp(e.0, e.1, basePath, basePrefix, camel))
      else prev
  }

  /** `createRouteBuilder(structure, basePath, basePrefix)`. */
  function Builder(structure: Value, basePath: seq<Segment>, basePrefix: string, camel: string -> string)
    : seq<(string, Prop)>
    requires structure.Obj?
    decreases structure, 2
  {
    BuilderPrefix(structure, |structure.entries|, basePath, basePrefix, camel)
  }

  /** Calling the parameter function `f` with `param`. */
  function CallParam(f: Prop, param: Segment, camel: string -> string): Returned
    requires f.ParamFn? && f.node.Obj? && |f.currentPath| > 0
  {
    var paramPath := f.currentPath[..|f.currentPath| - 1] + [param];
    if HasChildren(f.node) then
      RObject(RouteAccessor(Builder(f.node, paramPath, f.basePrefix, camel), f.node, paramPath, f.basePrefix))
    else if IsRoute(f.node) then RString(BuildRoutePath(paramPath, f.basePrefix))
    else RString(BuildRoutePath(paramPath, f.basePrefix))
  }

  /** `createRouteBuilder`: one pass over `Object.entries(structure)`, recursing into nested children. */
  method CreateRouteBuilder(structure: Value, basePath: seq<Segment>, basePrefix: string, camel: string -> string)
    returns (builder: seq<(string, Prop)>)
    requires structure.Obj?
    ensures builder == Builder(structure, basePath, basePrefix, camel)
    decreases structure
  {
    builder := [];
    var entries := structure.entries;
    var i := 0;
    while i < |entries|
      invariant 0 <= i <= |entries|
      invariant builder == BuilderPrefix(structure, i, basePath, basePrefix, camel)
    {
      var key, value := entries[i].0, entries[i].1;
      if IsMetadataKey(key) || !value.Obj? {
        assert !Eligible(structure.entries[i]);
        i := i + 1;
        continue;
      }
      assert Eligible(structure.entries[i]);
      ghost var prev := builder;
      var builderKey := ConstructBuilderKey(key, camel);
      var currentPath := basePath + [SStr(key)];
      var hasRoute := IsRoute(value);
      var hasParam := HasParam(value);
      var hasChildren := HasChildren(value);
      var prop;
      if hasParam {
        prop := ParamFn(value, currentPath, basePrefix);
      } else if hasRoute && !hasChildren {
        prop := PathThunk(currentPath, basePrefix);
      } else {
        var children := CreateRouteBuilder(value, currentPath, basePrefix, camel);
        if hasRoute {
          children := Put(children, "$", PathThunk(currentPath, basePrefix));
        }
        assert children == RouteAccessor(Builder(value, currentPath, basePrefix, camel), value, currentPath, basePrefix);
        prop := Nested(children);
      }
      assert prop == ChildProp(key, value, basePath, basePrefix, camel);
      builder := Put(builder, builderKey, prop);
      i := i + 1;
    }
  }

  /** The body of a parameter function: build the children on the path with the argument in place of the key. */
  method InvokeParamFn(f: Prop, param: Segment, camel: string -> string) returns (r: Returned)
    requires f.ParamFn? && f.node.Obj? && |f.currentPath| > 0
    ensures r == CallParam(f, param, camel)
  {
    var paramPath := f.currentPath[..|f.currentPath| - 1] + [param];
    if HasChildren(f.node) {
      var children := CreateRouteBuilder(f.node, paramPath, f.basePrefix, camel);
      if IsRoute(f.node) {
        children := Put(children, "$", PathThunk(paramPath, f.basePrefix));
      }
      return RObject(children);
    } else if IsRoute(f.node) {
      return RString(BuildRoutePath(paramPath, f.basePrefix));
    }
    return RString(BuildRoutePath(paramPath, f.basePrefix));
  }

  /** The builder keys of the eligible entries of `es`, in order, repeats included. */
  function EligibleKeys(es: seq<(string, Value)>, camel: string -> string): seq<string>
  {
    if es == [] then []
    else
      var last := es[|es| - 1];
      EligibleKeys(es[..|es| - 1], camel) + (if Eligible(last) then [ConstructBuilderKey(last.0, camel)] else [])
  }

  /** A key is among the eligible keys exactly when some eligible entry produces it. */
  lemma EligibleKeysSpec(es: seq<(string, Value)>, camel: string -> string, k: string)
    ensures k in EligibleKeys(es, camel)
        <==> exists i :: 0 <= i < |es| && Eligible(es[i]) && ConstructBuilderKey(es[i].0, camel) == k
  {
    if k in EligibleKeys(es, camel) {
      EligibleKeysFrom(es, camel, k);
    }
    if exists i :: 0 <= i < |es| && Eligible(es[i]) && ConstructBuilderKey(es[i].0, camel) == k {
      var i :| 0 <= i < |es| && Eligible(es[i]) && ConstructBuilderKey(es[i].0, camel) == k;
      EligibleKeysHave(es, camel, i);
    }
  }

  lemma {:induction false} EligibleKeysHave(es: seq<(string, Value)>, camel: string -> string, i: nat)
    requires i < |es| && Eligible(es[i])
    ensures ConstructBuilderKey(es[i].0, camel) in EligibleKeys(es, camel)
  {
    var init, last := es[..|es| - 1], es[|es| - 1];
    var tail := if Eligible(last) then [ConstructBuilderKey(last.0, camel)] else [];
    assert EligibleKeys(es, camel) == EligibleKeys(init, camel) + tail;
    if i < |init| {
      assert init[i] == es[i];
      EligibleKeysHave(init, camel, i);
    } else {
      assert tail == [ConstructBuilderKey(es[i].0, camel)];
    }
  }

  lemma {:induction false} EligibleKeysFrom(es: seq<(string, Value)>, camel: string -> string, k: string)
    requires k in EligibleKeys(es, camel)
    ensures exists i :: 0 <= i < |es| && Eligible(es[i]) && ConstructBuilderKey(es[i].0, camel) == k
  {
    var init, last := es[..|es| - 1], es[|es| - 1];
    var tail := if Eligible(last) then [ConstructBuilderKey(last.0, camel)] else [];
    assert EligibleKeys(es, camel) == EligibleKeys(init, camel) + tail;
    if k in EligibleKeys(init, camel) {
      EligibleKeysFrom(init, camel, k);
      var i :| 0 <= i < |init| && Eligible(init[i]) && ConstructBuilderKey(init[i].0, camel) == k;
      assert es[i] == init[i];
    } else {
      assert k in tail;
      assert Eligible(es[|es| - 1]) && ConstructBuilderKey(es[|es| - 1].0, camel) == k;
    }
  }


  lemma {:induction false} BuilderPrefixKeys(structure: Value, n: nat, basePath: seq<Segment>, basePrefix: string, camel: string -> string)
    requires structure.Obj? && n <= |structure.entries|
    ensures Keys(BuilderPrefix(structure, n, basePath, basePrefix, camel))
         == FirstOccurrences(EligibleKeys(structure.entries[..n], camel))
  {
    if n > 0 {
      var es := structure.entries[..n];
      assert es[..|es| - 1] == structure.entries[..n - 1];
      BuilderPrefixKeys(structure, n - 1, basePath, basePrefix, camel);
      var e := structure.entries[n - 1];
      var prev := BuilderPrefix(structure, n - 1, basePath, basePrefix, camel);
      assert es[|es| - 1] == e;
      if Eligible(e) {
        PutExtendsKeys(prev, EligibleKeys(structure.entries[..n - 1], camel),
          ConstructBuilderKey(e.0, camel), ChildProp(e.0, e.1, basePath, basePrefix, camel));
      } else {
        assert es[|es| - 1] == e;
        assert EligibleKeys(es, camel) == EligibleKeys(structure.entries[..n - 1], camel) + [];
        assert EligibleKeys(structure.entries[..n - 1], camel) + [] == EligibleKeys(structure.entries[..n - 1], camel);
      }
    }
  }

  /**
   * The builder has one property per distinct builder key of an eligible
   * child, in the order of first appearance: metadata keys and non-object
   * values are skipped, and a repeated builder key keeps its first place.
   */
  lemma BuilderKeys(structure: Value, basePath: seq<Segment>, basePrefix: string, camel: string -> string)
    requires structure.Obj?
    ensures Keys(Builder(structure, basePath, basePrefix, camel)) == FirstOccurrences(EligibleKeys(structure.entries, camel))
    ensures DistinctKeys(Builder(structure, basePath, basePrefix, camel))
  {
    BuilderPrefixKeys(structure, |structure.entries|, basePath, basePrefix, camel);
    assert structure.entries[..|structure.entries|] == structure.entries;
    FirstOccurrencesSpec(EligibleKeys(structure.entries, camel));
  }

  /** A builder has property `k` exactly when some eligible child's builder key is `k`. */
  lemma BuilderHasKey(structure: Value, basePath: seq<Segment>, basePrefix: string, camel: string -> string, k: string)
    requires structure.Obj?
    ensures k in Keys(Builder(structure, basePath, basePrefix, camel))
        <==> exists i :: 0 <= i < |structure.entries| && Eligible(structure.entries[i])
                         && ConstructBuilderKey(structure.entries[i].0, camel) == k
  {
    BuilderKeys(structure, basePath, basePrefix, camel);
    FirstOccurrencesSpec(EligibleKeys(structure.entries, camel));
    EligibleKeysSpec(structure.entries, camel, k);
  }

  /** Entry `i` of `es` is eligible with builder key `k`, and no later eligible entry before `n` has that key. */
  predicate LastWithKey(es: seq<(string, Value)>, n: nat, i: nat, k: string, camel: string -> string)
  {
    i < n <= |es| && Eligible(es[i]) && ConstructBuilderKey(es[i].0, camel) == k
    && forall j :: i < j < n && Eligible(es[j]) ==> ConstructBuilderKey(es[j].0, camel) != k
  }

  lemma {:induction false} BuilderPrefixLastWins(structure: Value, n: nat, i: nat, basePath: seq<Segment>, basePrefix: string,
                                                 camel: string -> string, k: string)
    requires structure.Obj? && LastWithKey(structure.entries, n, i, k, camel)
    ensures Lookup(BuilderPrefix(structure, n, basePath, basePrefix, camel), k)
         == Some(ChildProp(structure.entries[i].0, structure.entries[i].1, basePath, basePrefix, camel))
  {
    var prev := BuilderPrefix(structure, n - 1, basePath, basePrefix, camel);
    var e := structure.entries[n - 1];
    if Eligible(e) {
      var bk, cp := ConstructBuilderKey(e.0, camel), ChildProp(e.0, e.1, basePath, basePrefix, camel);
      assert BuilderPrefix(structure, n, basePath, basePrefix, camel) == Put(prev, bk, cp);
      PutLookup(prev, bk, cp, k);
      if i < n - 1 {
        BuilderPrefixLastWins(structure, n - 1, i, basePath, basePrefix, camel, k);
      }
    } else {
      BuilderPrefixLastWins(structure, n - 1, i, basePath, basePrefix, camel, k);
    }
  }

  /**
   * When several children share a builder key, the property holds what the
   * last of them produced.
   */
  lemma BuilderLastWins(structure: Value, i: nat, basePath: seq<Segment>, basePrefix: string, camel: string -> string, k: string)
    requires structure.Obj? && LastWithKey(structure.entries, |structure.entries|, i, k, camel)
    ensures Lookup(Builder(structure, basePath, basePrefix, camel), k)
         == Some(ChildProp(structure.entries[i].0, structure.entries[i].1, basePath, basePrefix, camel))
  {
    BuilderPrefixLastWins(structure, |structure.entries|, i, basePath, basePrefix, camel, k);
  }

  lemma {:induction false} BuilderPrefixLookup(structure: Value, n: nat, basePath: seq<Segment>, basePrefix: string,
                                               camel: string -> string, k: string, p: Prop)
    requires structure.Obj? && n <= |structure.entries|
    requires Lookup(BuilderPrefix(structure, n, basePath, basePrefix, camel), k) == Some(p)
    ensures exists i :: 0 <= i < n && Eligible(structure.entries[i]) && ConstructBuilderKey(structure.entries[i].0, camel) == k
                        && p == ChildProp(structure.entries[i].0, structure.entries[i].1, basePath, basePrefix, camel)
  {
    var e := structure.entries[n - 1];
    var prev := BuilderPrefix(structure, n - 1, basePath, basePrefix, camel);
    if Eligible(e) {
      var bk := ConstructBuilderKey(e.0, camel);
      PutLookup(prev, bk, ChildProp(e.0, e.1, basePath, basePrefix, camel), k);
      if k != bk {
        BuilderPrefixLookup(structure, n - 1, basePath, basePrefix, camel, k, p);
      }
    } else {
      BuilderPrefixLookup(structure, n - 1, basePath, basePrefix, camel, k, p);
    }
  }

  /** Every property of a builder is what some eligible child under that builder key produced. */
  lemma BuilderLookup(structure: Value, basePath: seq<Segment>, basePrefix: string, camel: string -> string, k: string, p: Prop)
    requires structure.Obj? && Lookup(Builder(structure, basePath, basePrefix, camel), k) == Some(p)
    ensures exists i :: 0 <= i < |structure.entries| && Eligible(structure.entries[i])
                        && ConstructBuilderKey(structure.entries[i].0, camel) == k
                        && p == ChildProp(structure.entries[i].0, structure.entries[i].1, basePath, basePrefix, camel)
  {
    BuilderPrefixLookup(structure, |structure.entries|, basePath, basePrefix, camel, k, p);
  }

  /**
   * The `$` accessor: on a route node `$` returns the node's own path,
   * replacing a child that had the builder key `$`; otherwise the fields are
   * untouched.
   */
  lemma RouteAccessorLookup(fields: seq<(string, Prop)>, node: Value, path: seq<Segment>, basePrefix: string, k: string)
    ensures Lookup(RouteAccessor(fields, node, path, basePrefix), k)
         == if k == "$" && IsRoute(node) then Some(PathThunk(path, basePrefix)) else Lookup(fields, k)
  {
    if IsRoute(node) {
      PutLookup(fields, "$", PathThunk(path, basePrefix), k);
    }
  }

  /**
   * A child with `$$param` becomes a function of one argument whose paths put
   * the argument in place of the child's own key.
   */
  lemma ParamReplacesKey(key: string, value: Value, basePath: seq<Segment>, basePrefix: string, camel: string -> string,
                         param: Segment)
    requires value.Obj? && HasParam(value)
    ensures var f := ChildProp(key, value, basePath, basePrefix, camel);
      f.ParamFn? && f.node.Obj? && |f.currentPath| > 0
      && CallParam(f, param, camel)
         == if HasChildren(value) then
              RObject(RouteAccessor(Builder(value, basePath + [param], basePrefix, camel), value, basePath + [param], basePrefix))
            else RString(BuildRoutePath(basePath + [param], basePrefix))
  {
    var currentPath := basePath + [SStr(key)];
    assert currentPath[..|currentPath| - 1] == basePath;
  }

  /** A route child without `$$param` and without children becomes `() => path` of its own key. */
  lemma LeafRouteIsThunk(key: string, value: Value, basePath: seq<Segment>, basePrefix: string, camel: string -> string)
    requires value.Obj? && !HasParam(value) && IsRoute(value) && !HasChildren(value)
    ensures var f := ChildProp(key, value, basePath, basePrefix, camel);
      f.PathThunk? && CallThunk(f) == BuildRoutePath(basePath + [SStr(key)], basePrefix)
  {
  }

  /**
   * Under the builder key of a route child with no children and no `$$param`
   * (the last child with that key), the builder holds a zero-argument function
   * returning the child's own path.
   */
  lemma BuilderLeafRoute(structure: Value, i: nat, basePath: seq<Segment>, basePrefix: string, camel: string -> string,
                         k: string)
    requires structure.Obj? && LastWithKey(structure.entries, |structure.entries|, i, k, camel)
    requires var v := structure.entries[i].1; !HasParam(v) && IsRoute(v) && !HasChildren(v)
    ensures var p := Lookup(Builder(structure, basePath, basePrefix, camel), k);
      p.Some? && p.value.PathThunk?
      && CallThunk(p.value) == BuildRoutePath(basePath + [SStr(structure.entries[i].0)], basePrefix)
  {
    BuilderLastWins(structure, i, basePath, basePrefix, camel, k);
    LeafRouteIsThunk(structure.entries[i].0, structure.entries[i].1, basePath, basePrefix, camel);
  }

  /**
   * Any other child without `$$param` becomes a nested builder on its own
   * path, with `$` returning that path exactly when the child is a route (when
   * none of its own children has the builder key `$`).
   */
  lemma NestedChild(key: string, value: Value, basePath: seq<Segment>, basePrefix: string, camel: string -> string)
    requires value.Obj? && !HasParam(value) && !(IsRoute(value) && !HasChildren(value))
    ensures var f := ChildProp(key, value, basePath, basePrefix, camel);
      var path := basePath + [SStr(key)];
      f.Nested?
      && (forall k :: k != "$" ==> Lookup(f.fields, k) == Lookup(Builder(value, path, basePrefix, camel), k))
      && ("$" !in Keys(Builder(value, path, basePrefix, camel)) ==>
            (Lookup(f.fields, "$") == Some(PathThunk(path, basePrefix)) <==> IsRoute(value)))
  {
    var path := basePath + [SStr(key)];
    var b := Builder(value, path, basePrefix, camel);
    forall k | k != "$"
      ensures Lookup(RouteAccessor(b, value, path, basePrefix), k) == Lookup(b, k)
    {
      RouteAccessorLookup(b, value, path, basePrefix, k);
    }
    RouteAccessorLookup(b, value, path, basePrefix, "$");
    LookupDefined(b, "$");
  }
}
