/**
 * The static types of src/runtime/types/route.ts read as a function from a
 * route structure to the shape of the builder the type checker expects:
 * `RouteBuilder<T, TMap>` is `ShapeOf`, `RouteBuilderObject<T, TMap>` is
 * `TypeFields`, and the lemmas compare that shape with what
 * `createRouteBuilder` builds at run time.
 */
module RouteTypes {
  import opened Wrappers
  import opened Strings
  import opened RouteTree
  import opened RuntimePath
  import opened TypeUtil
  import opened RuntimeBuilder

  /** The type of a parameter: the entry of the type map for its name, or `string`. */
  datatype ParamType = Mapped(name: string) | StringType

  /** A builder type: `never`, `string`, `() => string`, `(param) => result`, or an object type. */
  datatype TypeShape =
    | Never
    | StringT
    | Thunk
    | Fn(param: ParamType, result: TypeShape)
      /** `RouteBuilderObject<…>`, intersected with `{ $: () => string }` when `dollar` holds */
    | Record(fields: seq<(string, TypeShape)>, dollar: bool)

  /** `GetParamType<P, TMap>`; the type map is represented by the parameter names it lists. */
  function GetParamType(p: string, tmap: set<string>): (r: ParamType)
    ensures r.Mapped? <==> p in tmap
    ensures r.Mapped? ==> r.name == p
  {
    if p in tmap then Mapped(p) else StringType
  }

  /** The remapped key `CamelCase<StripParentheses<K>>`. */
  function TypeKey(k: string): string
  {
    CamelCase(StripParentheses(k))
  }

  /** `RouteBuilder<T, TMap>` for the structure value `v`. */
  function ShapeOf(v: Value, tmap: set<string>): TypeShape
    decreases v, 1
  {
    if !v.Obj? then Never
    else
      var fields := TypeFields(v, |v.entries|, tmap);
      match ParamName(v)
      case Some(p) =>
        var pt := GetParamType(p, tmap);
        if HasChildren(v) then Fn(pt, Record(fields, IsRoute(v)))
        else if IsRoute(v) then Fn(pt, StringT)
        else Fn(pt, Record(fields, false))
      case None =>
        if IsRoute(v) then (if HasChildren(v) then Record(fields, true) else Thunk)
        else Record(fields, false)
  }

  /** `RouteBuilderObject<T, TMap>` over the first `n` keys of `v`: one field per non-metadata key. */
  function TypeFields(v: Value, n: nat, tmap: set<string>): seq<(string, TypeShape)>
    requires v.Obj? && n <= |v.entries|
    decreases v, 0, n
  {
    if n == 0 then []
    else
      var e := v.entries[n - 1];
      TypeFields(v, n - 1, tmap) + (if IsMetadataKey(e.0) then [] else [(TypeKey(e.0), ShapeOf(e.1, tmap))])
  }

  /** Every non-metadata key before `n` gives a field: its remapped key with the type of its value. */
  lemma {:induction false} TypeFieldsHave(v: Value, n: nat, tmap: set<string>, i: nat)
    requires v.Obj? && i < n <= |v.entries| && !IsMetadataKey(v.entries[i].0)
    ensures (TypeKey(v.entries[i].0), ShapeOf(v.entries[i].1, tmap)) in TypeFields(v, n, tmap)
  {
    var prev := TypeFields(v, n - 1, tmap);
    var e := v.entries[n - 1];
    var last := if IsMetadataKey(e.0) then [] else [(TypeKey(e.0), ShapeOf(e.1, tmap))];
    assert TypeFields(v, n, tmap) == prev + last;
    if i < n - 1 {
      TypeFieldsHave(v, n - 1, tmap, i);
    } else {
      assert last[0] == (TypeKey(v.entries[i].0), ShapeOf(v.entries[i].1, tmap));
    }
  }

  /** Every field comes from a non-metadata key before `n`. */
  lemma {:induction false} TypeFieldsFrom(v: Value, n: nat, tmap: set<string>, f: (string, TypeShape))
    requires v.Obj? && n <= |v.entries| && f in TypeFields(v, n, tmap)
    ensures exists i :: 0 <= i < n && !IsMetadataKey(v.entries[i].0)
                        && f == (TypeKey(v.entries[i].0), ShapeOf(v.entries[i].1, tmap))
  {
    var prev := TypeFields(v, n - 1, tmap);
    var e := v.entries[n - 1];
    var last := if IsMetadataKey(e.0) then [] else [(TypeKey(e.0), ShapeOf(e.1, tmap))];
    assert TypeFields(v, n, tmap) == prev + last;
    if f in prev {
      TypeFieldsFrom(v, n - 1, tmap, f);
      var i :| 0 <= i < n - 1 && !IsMetadataKey(v.entries[i].0)
               && f == (TypeKey(v.entries[i].0), ShapeOf(v.entries[i].1, tmap));
      assert i < n;
    } else {
      assert f in last;
      assert n - 1 < n && !IsMetadataKey(v.entries[n - 1].0);
    }
  }

  /** Only a structure value that is not an object has type `never`. */
  lemma ShapeNever(v: Value, tmap: set<string>)
    ensures ShapeOf(v, tmap) == Never <==> !v.Obj?
  {
  }

  /** A string parameter name means `$$param` is present. */
  lemma ParamNameHasParam(v: Value)
    requires v.Obj? && ParamName(v).Some?
    ensures HasParam(v)
  {
    LookupDefined(v.entries, "$$param");
  }

  /**
   * For a child whose `$$param` (if any) is a string, the runtime property and
   * the type agree on its kind: a thunk, a function of one parameter or an
   * object, and the object has `$` exactly when the type adds `$`.
   */
  lemma KindAgreement(key: string, value: Value, basePath: seq<Segment>, basePrefix: string, camel: string -> string,
                      tmap: set<string>)
    requires value.Obj? && (HasParam(value) ==> ParamName(value).Some?)
    ensures var p := ChildProp(key, value, basePath, basePrefix, camel);
      var t := ShapeOf(value, tmap);
      (p.PathThunk? <==> t == Thunk) && (p.ParamFn? <==> t.Fn?) && (p.Nested? <==> t.Record?)
      && (t.Record? ==> t.dollar == IsRoute(value))
  {
    if ParamName(value).Some? {
      ParamNameHasParam(value);
    }
  }

  /**
   * Calling a parameter child that has children or is a route: the runtime
   * returns an object exactly when the type's result is an object type, with
   * `$` exactly when the child is a route, and the argument has the mapped type.
   */
  lemma ParamResultAgreement(key: string, value: Value, basePath: seq<Segment>, basePrefix: string,
                             camel: string -> string, tmap: set<string>, param: Segment)
    requires value.Obj? && ParamName(value).Some? && (HasChildren(value) || IsRoute(value))
    ensures var f := ChildProp(key, value, basePath, basePrefix, camel);
      var t := ShapeOf(value, tmap);
      f.ParamFn? && f.node.Obj? && |f.currentPath| > 0 && t.Fn?
      && t.param == GetParamType(ParamName(value).value, tmap)
      && (CallParam(f, param, camel).RObject? <==> t.result.Record?)
      && (CallParam(f, param, camel).RString? <==> t.result == StringT)
      && (t.result.Record? ==> t.result.dollar == IsRoute(value))
  {
    ParamNameHasParam(value);
  }

  /**
   * A parameter child that is neither a route nor has children: the type
   * promises an object from the call, the runtime returns a path string.
   */
  lemma ParamLeafWithoutRoute(key: string, value: Value, basePath: seq<Segment>, basePrefix: string,
                              camel: string -> string, tmap: set<string>, param: Segment)
    requires value.Obj? && ParamName(value).Some? && !HasChildren(value) && !IsRoute(value)
    ensures var f := ChildProp(key, value, basePath, basePrefix, camel);
      var t := ShapeOf(value, tmap);
      f.ParamFn? && f.node.Obj? && |f.currentPath| > 0
      && t.Fn? && t.result == Record([], false)
      && CallParam(f, param, camel) == RString(BuildRoutePath(basePath + [param], basePrefix))
  {
    ParamNameHasParam(value);
    ParamReplacesKey(key, value, basePath, basePrefix, camel, param);
    NoChildFields(value, |value.entries|, tmap);
  }

  /** An object without children has an empty object type. */
  lemma {:induction false} NoChildFields(v: Value, n: nat, tmap: set<string>)
    requires v.Obj? && n <= |v.entries| && !HasChildren(v)
    ensures TypeFields(v, n, tmap) == []
  {
    if n > 0 {
      NoChildFields(v, n - 1, tmap);
      var k := v.entries[n - 1].0;
      assert k in Keys(v.entries);
      assert IsMetadataKey(k);
    }
  }

  /**
   * A `$$param` that is not a string: the runtime still makes a parameter
   * function, the type does not.
   */
  lemma NonStringParam(key: string, value: Value, basePath: seq<Segment>, basePrefix: string,
                       camel: string -> string, tmap: set<string>)
    requires value.Obj? && HasParam(value) && ParamName(value).None?
    ensures ChildProp(key, value, basePath, basePrefix, camel).ParamFn? && !ShapeOf(value, tmap).Fn?
  {
  }

  /** `StripParentheses` and the runtime's `stripParens` remove the same characters. */
  lemma {:induction false} StripParenthesesIsStripParens(s: string)
    ensures StripParentheses(s) == StripParens(s)
  {
    RemoveCharKeepsOrder(s, '(');
    RemoveCharKeepsOrder(Without(s, '('), ')');
    WithoutBoth(s);
  }

  lemma {:induction false} WithoutBoth(s: string)
    ensures Without(Without(s, '('), ')') == StripParens(s)
  {
    if s != [] {
      WithoutBoth(s[1..]);
      var w := Without(s, '(');
      var head := if s[0] == '(' then [] else [s[0]];
      assert w == head + Without(s[1..], '(');
      WithoutAppend(head, Without(s[1..], '('), ')');
    }
  }

  lemma IndexOfDollar(r: string)
    ensures IndexOf("$" + r, '-') == IndexOf(r, '-') + 1
  {
    assert ("$" + r)[1..] == r;
  }

  /** A leading `$` passes through `CamelCase` untouched. */
  lemma CamelCaseDollar(r: string)
    ensures CamelCase("$" + r) == "$" + CamelCase(r)
  {
    var s := "$" + r;
    var i := IndexOf(r, '-');
    IndexOfDollar(r);
    if i < |r| {
      var h, rest := r[..i], CamelCase(r[i + 1..]);
      assert s[..i + 1] == "$" + h && s[i + 2..] == r[i + 1..];
      CamelCaseUnfold(s, i + 1);
      CamelCaseUnfold(r, i);
      LowerDollar(h);
      calc {
        CamelCase(s);
        Hump("$" + h, rest);
        LowerString("$" + h) + Capitalize(rest);
        ("$" + LowerString(h)) + Capitalize(rest);
        { Regroup("$", LowerString(h), Capitalize(rest)); }
        "$" + Hump(h, rest);
      }
    } else {
      assert i + 1 == |s|;
    }
  }

  lemma LowerDollar(h: string)
    ensures LowerString("$" + h) == "$" + LowerString(h)
  {
    assert ("$" + h)[1..] == h;
  }

  /**
   * Wherever `camel` agrees with `CamelCase` on what it is given, the runtime
   * builder key of a structure key is the type's remapped key.
   */
  lemma TypeKeyMatchesBuilderKey(key: string, camel: string -> string)
    requires var raw := if StartsWith(key, "$") then key[1..] else key;
      camel(StripParens(raw)) == CamelCase(StripParens(raw))
    ensures ConstructBuilderKey(key, camel) == TypeKey(key)
  {
    BuilderKeyShape(key, camel);
    StripParenthesesIsStripParens(key);
    if StartsWith(key, "$") {
      DollarKeyParts(key);
    }
  }

  /** `TypeKey` of a `$`-key is `$` followed by `TypeKey` of the rest. */
  lemma DollarKeyParts(key: string)
    requires StartsWith(key, "$")
    ensures CamelCase(StripParens(key)) == "$" + CamelCase(StripParens(key[1..]))
  {
    var r := key[1..];
    assert key == "$" + r;
    StripParensAppend("$", r);
    assert StripParens("$") == "$";
    CamelCaseDollar(StripParens(r));
  }

  /**
   * With `camel` agreeing with `CamelCase`, the builder's properties are
   * exactly the fields of the object type whose type is not `never`: a key
   * whose value is not an object is typed `never` and absent at run time.
   */
  lemma BuilderKeysAreTypeKeys(structure: Value, basePath: seq<Segment>, basePrefix: string,
                               camel: string -> string, tmap: set<string>, k: string)
    requires structure.Obj?
    requires forall s :: camel(s) == CamelCase(s)
    ensures k in Keys(Builder(structure, basePath, basePrefix, camel))
        <==> exists t :: (k, t) in TypeFields(structure, |structure.entries|, tmap) && t != Never
  {
    BuilderHasKey(structure, basePath, basePrefix, camel, k);
    if k in Keys(Builder(structure, basePath, basePrefix, camel)) {
      BuilderKeyIsTypeKey(structure, camel, tmap, k);
    }
    if exists t :: (k, t) in TypeFields(structure, |structure.entries|, tmap) && t != Never {
      var t :| (k, t) in TypeFields(structure, |structure.entries|, tmap) && t != Never;
      TypeKeyIsBuilderKey(structure, camel, tmap, k, t);
    }
  }

  lemma BuilderKeyIsTypeKey(structure: Value, camel: string -> string, tmap: set<string>, k: string)
    requires structure.Obj?
    requires forall s :: camel(s) == CamelCase(s)
    requires exists i :: 0 <= i < |structure.entries| && Eligible(structure.entries[i])
                         && ConstructBuilderKey(structure.entries[i].0, camel) == k
    ensures exists t :: (k, t) in TypeFields(structure, |structure.entries|, tmap) && t != Never
  {
    var es := structure.entries;
    var i :| 0 <= i < |es| && Eligible(es[i]) && ConstructBuilderKey(es[i].0, camel) == k;
    TypeKeyMatchesBuilderKey(es[i].0, camel);
    TypeFieldsHave(structure, |es|, tmap, i);
    ShapeNever(es[i].1, tmap);
  }

  lemma TypeKeyIsBuilderKey(structure: Value, camel: string -> string, tmap: set<string>, k: string, t: TypeShape)
    requires structure.Obj?
    requires forall s :: camel(s) == CamelCase(s)
    requires (k, t) in TypeFields(structure, |structure.entries|, tmap) && t != Never
    ensures exists i :: 0 <= i < |structure.entries| && Eligible(structure.entries[i])
                        && ConstructBuilderKey(structure.entries[i].0, camel) == k
  {
    var es := structure.entries;
    TypeFieldsFrom(structure, |es|, tmap, (k, t));
    var i :| 0 <= i < |es| && !IsMetadataKey(es[i].0) && (k, t) == (TypeKey(es[i].0), ShapeOf(es[i].1, tmap));
    TypeKeyMatchesBuilderKey(es[i].0, camel);
    assert Eligible(es[i]);
  }
}
