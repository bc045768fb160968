/**
 * Using a route builder: reading properties and calling the functions they
 * hold, until a string comes out. Every string a builder made by
 * `createRouteBuilder(structure)` (src/runtime/runtime.ts) can produce is the
 * path `buildRoutePath` gives for a chain of children of `structure`, where a
 * parameter child contributes the caller's argument and any other child its
 * own key.
 */
module RuntimeCalls {
  import opened Wrappers
  import opened Strings
  import opened RouteTree
  import opened RuntimePath
  import opened RuntimeBuilder

  /** One use of a builder value: `.name`, `()` or `(arg)`. */
  datatype Access = Get(name: string) | Call0 | Call1(arg: Segment)

  /** The string that the accesses `acc` obtain from the property `p`; `None` when they fail or do not end in a string. */
  function RunProp(p: Prop, acc: seq<Access>, camel: string -> string): Option<string>
    decreases |acc|, 1
  {
    match p
    case PathThunk(_, _) => if acc == [Call0] then Some(CallThunk(p)) else None
    case ParamFn(node, currentPath, _) =>
      if acc != [] && acc[0].Call1? && node.Obj? && |currentPath| > 0 then
        match CallParam(p, acc[0].arg, camel)
        case RString(s) => if |acc| == 1 then Some(s) else None
        case RObject(fields) => RunFields(fields, acc[1..], camel)
      else None
    case Nested(fields) => RunFields(fields, acc, camel)
  }

  /** The string that the accesses `acc` obtain from a builder object with `fields`. */
  function RunFields(fields: seq<(string, Prop)>, acc: seq<Access>, camel: string -> string): Option<string>
    decreases |acc|, 0
  {
    if acc == [] || !acc[0].Get? then None
    else
      match Lookup(fields, acc[0].name)
      case None => None
      case Some(p) => RunProp(p, acc[1..], camel)
  }

  /** A node where a path can end: a route, or a parameter node without children. */
  predicate Emits(node: Value)
  {
    IsRoute(node) || (HasParam(node) && !HasChildren(node))
  }

  /** A parameter child accepts any segment; any other child only its own key. */
  predicate StepMatches(e: (string, Value), seg: Segment)
  {
    HasParam(e.1) || seg == SStr(e.0)
  }

  /** `segs` leads from `node` through eligible children to a node where a path ends. */
  predicate Reaches(node: Value, segs: seq<Segment>)
    decreases node
  {
    node.Obj? && |segs| > 0
    && exists i :: 0 <= i < |node.entries| && Eligible(node.entries[i]) && StepMatches(node.entries[i], segs[0])
                   && (if |segs| == 1 then Emits(node.entries[i].1) else Reaches(node.entries[i].1, segs[1..]))
  }

  /** The builder object for `node` on `path`, with the `$` accessor of a nested builder when `dollar` holds. */
  function Fields(node: Value, path: seq<Segment>, basePrefix: string, camel: string -> string, dollar: bool)
    : seq<(string, Prop)>
    requires node.Obj?
  {
    var b := Builder(node, path, basePrefix, camel);
    if dollar then RouteAccessor(b, node, path, basePrefix) else b
  }

  lemma {:induction false} FieldsSound(node: Value, path: seq<Segment>, basePrefix: string, camel: string -> string,
                                       dollar: bool, acc: seq<Access>, s: string)
    requires node.Obj? && RunFields(Fields(node, path, basePrefix, camel, dollar), acc, camel) == Some(s)
    ensures exists segs :: s == BuildRoutePath(path + segs, basePrefix)
                           && ((segs == [] && dollar && IsRoute(node)) || Reaches(node, segs))
    decreases |acc|, 0
  {
    var b := Builder(node, path, basePrefix, camel);
    var name := acc[0].name;
    var p := Lookup(Fields(node, path, basePrefix, camel, dollar), name).value;
    if dollar {
      RouteAccessorLookup(b, node, path, basePrefix, name);
    }
    if dollar && name == "$" && IsRoute(node) {
      assert p == PathThunk(path, basePrefix);
      assert path + [] == path;
    } else {
      assert Lookup(b, name) == Some(p);
      BuilderLookup(node, path, basePrefix, camel, name, p);
      var i :| 0 <= i < |node.entries| && Eligible(node.entries[i])
               && p == ChildProp(node.entries[i].0, node.entries[i].1, path, basePrefix, camel);
      var segs := ChildSound(node.entries[i].0, node.entries[i].1, path, basePrefix, camel, acc[1..], s);
      assert Eligible(node.entries[i]) && StepMatches(node.entries[i], segs[0])
             && (if |segs| == 1 then Emits(node.entries[i].1) else Reaches(node.entries[i].1, segs[1..]));
    }
  }

  /** What the accesses `rest` obtain from the property of child `key: value` is a path through that child. */
  lemma ChildSound(key: string, value: Value, path: seq<Segment>, basePrefix: string,
                   camel: string -> string, rest: seq<Access>, s: string)
    returns (segs: seq<Segment>)
    requires value.Obj? && RunProp(ChildProp(key, value, path, basePrefix, camel), rest, camel) == Some(s)
    ensures s == BuildRoutePath(path + segs, basePrefix) && |segs| > 0 && StepMatches((key, value), segs[0])
    ensures if |segs| == 1 then Emits(value) else Reaches(value, segs[1..])
    decreases |rest|, 2
  {
    if HasParam(value) {
      segs := ParamChildSound(key, value, path, basePrefix, camel, rest, s);
    } else if IsRoute(value) && !HasChildren(value) {
      segs := [SStr(key)];
    } else {
      segs := NestedChildSound(key, value, path, basePrefix, camel, rest, s);
    }
  }

  lemma {:induction false} ParamChildSound(key: string, value: Value, path: seq<Segment>, basePrefix: string,
                                           camel: string -> string, rest: seq<Access>, s: string)
    returns (segs: seq<Segment>)
    requires value.Obj? && HasParam(value) && RunProp(ChildProp(key, value, path, basePrefix, camel), rest, camel) == Some(s)
    ensures s == BuildRoutePath(path + segs, basePrefix) && |segs| > 0 && StepMatches((key, value), segs[0])
    ensures if |segs| == 1 then Emits(value) else Reaches(value, segs[1..])
    decreases |rest|, 1
  {
    var x := rest[0].arg;
    ParamReplacesKey(key, value, path, basePrefix, camel, x);
    var paramPath := path + [x];
    if HasChildren(value) {
      var fields := RouteAccessor(Builder(value, paramPath, basePrefix, camel), value, paramPath, basePrefix);
      assert RunFields(fields, rest[1..], camel) == Some(s);
      assert fields == Fields(value, paramPath, basePrefix, camel, true);
      FieldsSound(value, paramPath, basePrefix, camel, true, rest[1..], s);
      var more :| s == BuildRoutePath(paramPath + more, basePrefix)
                  && ((more == [] && IsRoute(value)) || Reaches(value, more));
      segs := [x] + more;
      Regroup(path, [x], more);
      assert segs[1..] == more;
    } else {
      segs := [x];
    }
  }

  lemma {:induction false} NestedChildSound(key: string, value: Value, path: seq<Segment>, basePrefix: string,
                                            camel: string -> string, rest: seq<Access>, s: string)
    returns (segs: seq<Segment>)
    requires value.Obj? && !HasParam(value) && !(IsRoute(value) && !HasChildren(value))
    requires RunProp(ChildProp(key, value, path, basePrefix, camel), rest, camel) == Some(s)
    ensures s == BuildRoutePath(path + segs, basePrefix) && |segs| > 0 && StepMatches((key, value), segs[0])
    ensures if |segs| == 1 then Emits(value) else Reaches(value, segs[1..])
    decreases |rest|, 1
  {
    var currentPath := path + [SStr(key)];
    var fields := Fields(value, currentPath, basePrefix, camel, true);
    assert ChildProp(key, value, path, basePrefix, camel) == Nested(fields);
    assert RunFields(fields, rest, camel) == Some(s);
    FieldsSound(value, currentPath, basePrefix, camel, true, rest, s);
    var more :| s == BuildRoutePath(currentPath + more, basePrefix)
                && ((more == [] && IsRoute(value)) || Reaches(value, more));
    segs := [SStr(key)] + more;
    Regroup(path, [SStr(key)], more);
    assert segs[1..] == more;
  }

  /**
   * Soundness of the route builder: whatever sequence of property reads and
   * calls turns `createRouteBuilder(structure, [], basePrefix)` into a string,
   * that string is `buildRoutePath(segs, basePrefix)` for a chain of children
   * `segs` of `structure` that ends at a route or at a parameter leaf.
   */
  lemma BuilderPathsAreRoutePaths(structure: Value, basePrefix: string, camel: string -> string, acc: seq<Access>, s: string)
    requires structure.Obj? && RunFields(Builder(structure, [], basePrefix, camel), acc, camel) == Some(s)
    ensures exists segs :: Reaches(structure, segs) && s == BuildRoutePath(segs, basePrefix)
  {
    FieldsSound(structure, [], basePrefix, camel, false, acc, s);
    var segs :| s == BuildRoutePath([] + segs, basePrefix) && Reaches(structure, segs);
    assert [] + segs == segs;
  }

  /** A builder for an object with a single eligible child has that child's property only. */
  lemma BuilderOfOne(key: string, value: Value, basePath: seq<Segment>, basePrefix: string, camel: string -> string)
    requires Eligible((key, value))
    ensures Builder(Obj([(key, value)]), basePath, basePrefix, camel)
         == [(ConstructBuilderKey(key, camel), ChildProp(key, value, basePath, basePrefix, camel))]
  {
    assert BuilderPrefix(Obj([(key, value)]), 0, basePath, basePrefix, camel) == [];
  }

  /**
   * The path of the generated-routes test `(collections)/posts/[postId]`
   * called with 123 under base prefix `/api`: the route group leaves no trace.
   */
  lemma PostsPath()
    ensures BuildRoutePath([SStr("(collections)"), SStr("posts"), SNum(123)], "/api") == "/api/posts/123"
  {
    GroupSegmentIsInvisible([], SStr("(collections)"), [SStr("posts"), SNum(123)], "/api");
    assert [] + [SStr("(collections)")] + [SStr("posts"), SNum(123)] == [SStr("(collections)"), SStr("posts"), SNum(123)];
    assert [] + [SStr("posts"), SNum(123)] == [SStr("posts"), SNum(123)];
    PostIdExample([SStr("posts"), SNum(123)], "/api");
  }
}
