/**
 * What the scanner writes and what the runtime reads. `scanDirectory` marks
 * routes and parameters with `$route` and `$param` (src/scanner.ts:58,84),
 * while `createRouteBuilder` only recognises `$$route` and `$$param`
 * (src/runtime/runtime.ts:42,88-89). The generator that would translate one
 * into the other is not part of this model; these lemmas show what happens
 * when a scanned tree reaches the runtime unchanged.
 */
module Pipeline {
  import opened Wrappers
  import opened RouteTree
  import opened RuntimePath
  import opened RuntimeBuilder
  import opened Scanner

  lemma {:induction false} ScanPrefixNoFolders(d: Dir, n: nat, m: Markers)
    requires n <= |d.entries|
    requires forall i :: 0 <= i < |d.entries| ==> !Qualifies(d.entries[i])
    ensures ScanPrefix(d, n, m) == InitialNode(d, m)
  {
    if n > 0 {
      ScanPrefixNoFolders(d, n - 1, m);
    }
  }

  /** A directory with a route file and no qualifying sub-folder scans to `{ $route: true }`. */
  lemma ScannedRouteLeaf(d: Dir, m: Markers)
    requires HasRouteFile(d, m)
    requires forall i :: 0 <= i < |d.entries| ==> !Qualifies(d.entries[i])
    ensures ScanTree(d, m) == Obj([("$route", Bool(true))])
  {
    ScanPrefixNoFolders(d, |d.entries|, m);
  }

  /**
   * The runtime reads `{ $route: true }` as a node that is not a route but has
   * a child `$route`, which it skips because it is not an object: the
   * property is an empty nested object instead of `() => path`.
   */
  lemma ScannedLeafIsEmptyObject(key: string, basePath: seq<Segment>, basePrefix: string, camel: string -> string)
    ensures var v := Obj([("$route", Bool(true))]);
      !IsRoute(v) && HasChildren(v) && ChildProp(key, v, basePath, basePrefix, camel) == Nested([])
  {
    var v := Obj([("$route", Bool(true))]);
    assert ChildKeys(v.entries) == ["$route"] by {
      assert v.entries[1..] == [];
    }
    assert Keys(v.entries) == ["$route"];
    assert BuilderPrefix(v, 0, basePath + [SStr(key)], basePrefix, camel) == [];
  }

  /** With the runtime's own marker, the same leaf is a zero-argument path function. */
  lemma MarkedLeafIsThunk(key: string, basePath: seq<Segment>, basePrefix: string, camel: string -> string)
    ensures var v := Obj([("$$route", Bool(true))]);
      ChildProp(key, v, basePath, basePrefix, camel) == PathThunk(basePath + [SStr(key)], basePrefix)
  {
    var v := Obj([("$$route", Bool(true))]);
    assert ChildKeys(v.entries) == [] by {
      assert v.entries[1..] == [];
    }
    assert Keys(v.entries) == ["$$route"];
  }

  /**
   * A dynamic route folder `[slug]` without sub-folders scans to
   * `{ $route: true, $param: slug }`; the runtime sees no `$$param` there and
   * builds an empty nested object instead of a parameter function.
   */
  lemma ScannedParamLeaf(e: Entry, m: Markers, slug: string, basePath: seq<Segment>, basePrefix: string,
                         camel: string -> string)
    requires e.Folder? && ExtractDynamicRouteSlug(e.name) == Some(slug) && HasRouteFile(e.contents, m)
    requires forall i :: 0 <= i < |e.contents.entries| ==> !Qualifies(e.contents.entries[i])
    ensures var v := ChildValue(e, m);
      v == Obj([("$route", Bool(true)), ("$param", Str(slug))])
      && !HasParam(v) && ChildProp(ChildKey(e), v, basePath, basePrefix, camel) == Nested([])
  {
    ScannedRouteLeaf(e.contents, m);
    var v := Obj([("$route", Bool(true)), ("$param", Str(slug))]);
    assert Put([("$route", Bool(true))], "$param", Str(slug)) == v.entries;
    ParamLeafChildren(v, ChildKey(e), basePath, basePrefix, camel, slug);
  }

  lemma ParamLeafChildren(v: Value, key: string, basePath: seq<Segment>, basePrefix: string, camel: string -> string,
                          slug: string)
    requires v == Obj([("$route", Bool(true)), ("$param", Str(slug))])
    ensures !HasParam(v) && !IsRoute(v) && HasChildren(v)
    ensures ChildProp(key, v, basePath, basePrefix, camel) == Nested([])
  {
    var es := v.entries;
    assert es[1..] == [("$param", Str(slug))] && es[1..][1..] == [];
    assert Keys(es) == ["$route", "$param"];
    assert ChildKeys(es) == ["$route"] + ChildKeys(es[1..]);
    assert Lookup(es[1..], "$$route") == Lookup(es[1..][1..], "$$route") == None;
    var path := basePath + [SStr(key)];
    assert BuilderPrefix(v, 0, path, basePrefix, camel) == [];
    assert BuilderPrefix(v, 1, path, basePrefix, camel) == [];
    assert Builder(v, path, basePrefix, camel) == BuilderPrefix(v, 2, path, basePrefix, camel) == [];
  }
}
