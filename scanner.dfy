/**
 * `scanDirectory` (src/scanner.ts): walk an app directory and build the route
 * structure, one key per qualifying sub-directory. The file system is an
 * abstract directory tree; the names of the route and page files and their
 * extensions are the parameter `Markers`.
 */
module Scanner {
  import opened Wrappers
  import opened Strings
  import opened RouteTree

  /** A directory entry: a file or a sub-directory with its own entries, in `readdir` order. */
  datatype Entry = File(name: string) | Folder(name: string, contents: Dir)

  datatype Dir = Dir(entries: seq<Entry>)

  /** The route and page file names and the extensions tried for each. */
  datatype Markers = Markers(routeFileName: string, pageFileName: string, extensions: seq<string>)

  /** The names present directly in `d`, files and directories alike. */
  function Names(d: Dir): (r: seq<string>)
    ensures |r| == |d.entries|
    ensures forall j :: 0 <= j < |d.entries| ==> r[j] == d.entries[j].name
  {
    seq(|d.entries|, j requires 0 <= j < |d.entries| => d.entries[j].name)
  }

  /** Every file name `hasRouteFile` tries: the route file, then the page file, with each extension. */
  function Candidates(m: Markers): seq<string>
  {
    seq(|m.extensions|, j requires 0 <= j < |m.extensions| => m.routeFileName + m.extensions[j])
    + seq(|m.extensions|, j requires 0 <= j < |m.extensions| => m.pageFileName + m.extensions[j])
  }

  /** `checks.some(exists => exists)` over the candidates. */
  function AnyPresent(cands: seq<string>, names: seq<string>): bool
  {
    cands != [] && (cands[0] in names || AnyPresent(cands[1..], names))
  }

  lemma {:induction false} AnyPresentSpec(cands: seq<string>, names: seq<string>)
    ensures AnyPresent(cands, names) <==> exists j :: 0 <= j < |cands| && cands[j] in names
  {
    if cands != [] {
      AnyPresentSpec(cands[1..], names);
      if exists j :: 0 <= j < |cands| && cands[j] in names {
        var j :| 0 <= j < |cands| && cands[j] in names;
        if j > 0 {
          assert cands[1..][j - 1] == cands[j];
        }
      }
    }
  }

  /** `hasRouteFile(dirPath)`. */
  function HasRouteFile(d: Dir, m: Markers): bool
  {
    AnyPresent(Candidates(m), Names(d))
  }

  /** A directory has a route file exactly when it holds the route or the page file name with some extension. */
  lemma HasRouteFileSpec(d: Dir, m: Markers)
    ensures HasRouteFile(d, m)
        <==> exists j :: 0 <= j < |m.extensions|
                         && (m.routeFileName + m.extensions[j] in Names(d) || m.pageFileName + m.extensions[j] in Names(d))
  {
    var c := Candidates(m);
    var n := |m.extensions|;
    AnyPresentSpec(c, Names(d));
    if HasRouteFile(d, m) {
      var j :| 0 <= j < |c| && c[j] in Names(d);
      if j < n {
        assert c[j] == m.routeFileName + m.extensions[j];
      } else {
        assert c[j] == m.pageFileName + m.extensions[j - n];
      }
    }
    if exists j :: 0 <= j < n && (m.routeFileName + m.extensions[j] in Names(d) || m.pageFileName + m.extensions[j] in Names(d)) {
      var j :| 0 <= j < n && (m.routeFileName + m.extensions[j] in Names(d) || m.pageFileName + m.extensions[j] in Names(d));
      if m.routeFileName + m.extensions[j] in Names(d) {
        assert c[j] == m.routeFileName + m.extensions[j];
      } else {
        assert c[n + j] == m.pageFileName + m.extensions[j];
      }
    }
  }

  /** The characters the regular-expression `.` does not match. */
  predicate LineTerminator(c: char)
  {
    c == '\n' || c == '\r' || c as int == 0x2028 || c as int == 0x2029
  }

  predicate SingleLine(s: string)
  {
    forall j :: 0 <= j < |s| ==> !LineTerminator(s[j])
  }

  /** `extractDynamicRouteSlug(segment)`: the text between `[` and `]` when `segment` matches `^\[(.+)\]$`. */
  function ExtractDynamicRouteSlug(segment: string): Option<string>
  {
    if |segment| >= 3 && segment[0] == '[' && segment[|segment| - 1] == ']' && SingleLine(segment[1..|segment| - 1])
    then Some(segment[1..|segment| - 1])
    else None
  }

  /** A bracketed non-empty single-line name gives back what is inside the brackets. */
  lemma ExtractBracketed(s: string)
    requires s != "" && SingleLine(s)
    ensures ExtractDynamicRouteSlug("[" + s + "]") == Some(s)
  {
    var seg := "[" + s + "]";
    assert seg[1..|seg| - 1] == s;
  }

  /** A slug is only ever extracted from `[`, a non-empty single-line name, `]`. */
  lemma ExtractShape(segment: string, s: string)
    requires ExtractDynamicRouteSlug(segment) == Some(s)
    ensures segment == "[" + s + "]" && s != "" && SingleLine(s)
  {
    assert segment == [segment[0]] + segment[1..|segment| - 1] + [segment[|segment| - 1]];
  }

  /** `[]` is a static folder name. */
  lemma EmptyBrackets()
    ensures ExtractDynamicRouteSlug("[]") == None
  {
  }

  /** `paramName.replace(/-([a-z])/g, …)`: each `-` followed by a lower-case letter becomes that letter upper-cased. */
  function KebabToCamel(s: string): string
  {
    if s == [] then []
    else if |s| >= 2 && s[0] == '-' && IsLowerAscii(s[1]) then [ToUpper(s[1])] + KebabToCamel(s[2..])
    else [s[0]] + KebabToCamel(s[1..])
  }

  /** `formatParamName(paramName)`. */
  function FormatParamName(paramName: string): string
  {
    "$" + KebabToCamel(paramName)
  }

  /** No `-` directly followed by a lower-case letter. */
  predicate NoKebabPair(s: string)
  {
    forall j :: 0 <= j < |s| - 1 ==> !(s[j] == '-' && IsLowerAscii(s[j + 1]))
  }

  /** The conversion never starts with a lower-case letter when the input does not. */
  lemma KebabToCamelHead(s: string)
    requires s != [] && !IsLowerAscii(s[0])
    ensures KebabToCamel(s) != [] && !IsLowerAscii(KebabToCamel(s)[0])
  {
  }

  /** No `-` followed by a lower-case letter survives the conversion. */
  lemma {:induction false} KebabToCamelNoPair(s: string)
    ensures NoKebabPair(KebabToCamel(s))
  {
    if s != [] {
      var r := KebabToCamel(s);
      if |s| >= 2 && s[0] == '-' && IsLowerAscii(s[1]) {
        KebabToCamelNoPair(s[2..]);
        assert r == [ToUpper(s[1])] + KebabToCamel(s[2..]);
        assert forall j :: 1 <= j < |r| ==> r[j] == KebabToCamel(s[2..])[j - 1];
      } else {
        KebabToCamelNoPair(s[1..]);
        var t := KebabToCamel(s[1..]);
        assert r == [s[0]] + t;
        if s[0] == '-' && t != [] {
          KebabToCamelHead(s[1..]);
        }
        assert forall j :: 1 <= j < |r| ==> r[j] == t[j - 1];
      }
    }
  }

  /** A name without a `-` before a lower-case letter is kept as it is. */
  lemma {:induction false} KebabToCamelIdentity(s: string)
    requires NoKebabPair(s)
    ensures KebabToCamel(s) == s
  {
    if s != [] {
      assert NoKebabPair(s[1..]) by {
        forall j | 0 <= j < |s[1..]| - 1
          ensures !(s[1..][j] == '-' && IsLowerAscii(s[1..][j + 1]))
        {
          assert s[1..][j] == s[j + 1] && s[1..][j + 1] == s[j + 2];
        }
      }
      KebabToCamelIdentity(s[1..]);
      assert [s[0]] + s[1..] == s;
    }
  }

  /**
   * The first `-` before a lower-case letter becomes that letter upper-cased;
   * everything before it is kept and the rest is converted on its own.
   */
  lemma {:induction false} KebabToCamelStep(a: string, x: char, b: string)
    requires NoKebabPair(a) && IsLowerAscii(x)
    ensures KebabToCamel(a + ['-', x] + b) == a + [ToUpper(x)] + KebabToCamel(b)
  {
    var s := a + ['-', x] + b;
    if a == [] {
      assert s[2..] == b;
    } else {
      assert s[0] == a[0] && s[1..] == a[1..] + ['-', x] + b;
      assert !(s[0] == '-' && IsLowerAscii(s[1])) by {
        if |a| == 1 {
          assert s[1] == '-';
        } else {
          assert s[1] == a[1];
        }
      }
      assert NoKebabPair(a[1..]) by {
        forall j | 0 <= j < |a[1..]| - 1
          ensures !(a[1..][j] == '-' && IsLowerAscii(a[1..][j + 1]))
        {
          assert a[1..][j] == a[j + 1] && a[1..][j + 1] == a[j + 2];
        }
      }
      KebabToCamelStep(a[1..], x, b);
      assert [a[0]] + (a[1..] + [ToUpper(x)] + KebabToCamel(b)) == a + [ToUpper(x)] + KebabToCamel(b);
    }
  }

  /** Any `-` before a lower-case letter is consumed: the result is shorter. */
  lemma {:induction false} KebabToCamelShrinks(s: string)
    requires !NoKebabPair(s)
    ensures |KebabToCamel(s)| < |s|
  {
    KebabToCamelAtMost(s);
    var j :| 0 <= j < |s| - 1 && s[j] == '-' && IsLowerAscii(s[j + 1]);
    if s[0] == '-' && IsLowerAscii(s[1]) {
      KebabToCamelAtMost(s[2..]);
    } else {
      assert s[1..][j - 1] == s[j] && s[1..][j] == s[j + 1];
      KebabToCamelShrinks(s[1..]);
    }
  }

  lemma {:induction false} KebabToCamelAtMost(s: string)
    ensures |KebabToCamel(s)| <= |s|
  {
    if s != [] {
      if |s| >= 2 && s[0] == '-' && IsLowerAscii(s[1]) {
        KebabToCamelAtMost(s[2..]);
      } else {
        KebabToCamelAtMost(s[1..]);
      }
    }
  }

  /** `[user-id]` is keyed `$userId`. */
  lemma FormatParamNameExample()
    ensures FormatParamName("user-id") == "$userId"
  {
    assert "user-id"[1..] == "ser-id" && "ser-id"[1..] == "er-id" && "er-id"[1..] == "r-id";
    assert "r-id"[1..] == "-id" && "-id"[2..] == "d" && "d"[1..] == [];
    assert KebabToCamel("-id") == "Id";
  }

  /** A parameter key starts with `$`, as the runtime expects of a dynamic key. */
  lemma ParamKeyIsDynamic(paramName: string)
    ensures StartsWith(FormatParamName(paramName), "$")
  {
  }

  /** The folders `scanDirectory` descends into: directories not hidden, not `node_modules`, not private. */
  predicate Qualifies(e: Entry)
  {
    e.Folder? && !StartsWith(e.name, ".") && e.name != "node_modules" && !StartsWith(e.name, "_")
  }

  /** The key of a qualifying folder: the formatted parameter name for `[slug]`, its own name otherwise. */
  function ChildKey(e: Entry): string
  {
    match ExtractDynamicRouteSlug(e.name)
    case Some(slug) => FormatParamName(slug)
    case None => e.name
  }

  /** The value stored for a qualifying folder: its scan, with `$param` set to the raw slug for `[slug]`. */
  function ChildValue(e: Entry, m: Markers): Value
    requires e.Folder?
    decreases e, 2
  {
    var child := ScanTree(e.contents, m);
    match ExtractDynamicRouteSlug(e.name)
    case Some(slug) => Obj(Put(child.entries, "$param", Str(slug)))
    case None => child
  }

  /** The node before any entry is visited: `$route: true` when the directory has a route file. */
  function InitialNode(d: Dir, m: Markers): seq<(string, Value)>
  {
    if HasRouteFile(d, m) then [("$route", Bool(true))] else []
  }

  /** The node after the first `n` entries of `d` have been visited. */
  function ScanPrefix(d: Dir, n: nat, m: Markers): seq<(string, Value)>
    requires n <= |d.entries|
    decreases d, 0, n
  {
    if n == 0 then InitialNode(d, m)
    else
      var prev := ScanPrefix(d, n - 1, m);
      var e := d.entries[n - 1];
      if Qualifies(e) then Put(prev, ChildKey(e), ChildValue(e, m)) else prev
  }

  /** The route structure of the directory `d`. */
  function ScanTree(d: Dir, m: Markers): (r: Value)
    ensures r.Obj?
    decreases d, 1
  {
    Obj(ScanPrefix(d, |d.entries|, m))
  }

  /** The recursive scan of an existing directory. */
  method ScanDir(d: Dir, m: Markers) returns (node: Value)
    ensures node == ScanTree(d, m)
    decreases d
  {
    var es: seq<(string, Value)> := [];
    if HasRouteFile(d, m) {
      es := Put(es, "$route", Bool(true));
    }
    var i := 0;
    while i < |d.entries|
      invariant 0 <= i <= |d.entries|
      invariant es == ScanPrefix(d, i, m)
    {
      var entry := d.entries[i];
      assert ScanPrefix(d, i + 1, m)
          == if Qualifies(entry) then Put(es, ChildKey(entry), ChildValue(entry, m)) else es;
      if !entry.Folder? || StartsWith(entry.name, ".") || entry.name == "node_modules" {
        assert !Qualifies(entry);
        i := i + 1;
        continue;
      }
      var dirName := entry.name;
      if StartsWith(dirName, "_") {
        assert !Qualifies(entry);
        i := i + 1;
        continue;
      }
      assert Qualifies(entry);
      ghost var prev := es;
      var paramName := ExtractDynamicRouteSlug(dirName);
      if paramName.Some? {
        var formattedName := FormatParamName(paramName.value);
        var childNode := ScanDir(entry.contents, m);
        var childEntries := Put(childNode.entries, "$param", Str(paramName.value));
        assert formattedName == ChildKey(entry) && Obj(childEntries) == ChildValue(entry, m);
        es := Put(es, formattedName, Obj(childEntries));
      } else {
        var childNode := ScanDir(entry.contents, m);
        assert dirName == ChildKey(entry) && childNode == ChildValue(entry, m);
        es := Put(es, dirName, childNode);
      }
      i := i + 1;
    }
    node := Obj(es);
  }

  /** `scanDirectory(dirPath)`: an error for a directory that does not exist, the scan otherwise. */
  method ScanDirectory(dir: Option<Dir>, dirPath: string, m: Markers) returns (r: Result<Value, string>)
    ensures dir.None? ==> r == Failure("Directory does not exist: " + dirPath)
    ensures dir.Some? ==> r == Success(ScanTree(dir.value, m))
  {
    if dir.None? {
      return Failure("Directory does not exist: " + dirPath);
    }
    var node := ScanDir(dir.value, m);
    return Success(node);
  }

  /** The keys of the qualifying folders among `es`, in order, repeats included. */
  function QualifiedKeys(es: seq<Entry>): seq<string>
  {
    if es == [] then []
    else
      var last := es[|es| - 1];
      QualifiedKeys(es[..|es| - 1]) + (if Qualifies(last) then [ChildKey(last)] else [])
  }

  lemma QualifiedKeysSpec(es: seq<Entry>, k: string)
    ensures k in QualifiedKeys(es) <==> exists i :: 0 <= i < |es| && Qualifies(es[i]) && ChildKey(es[i]) == k
  {
    if k in QualifiedKeys(es) {
      QualifiedKeysFrom(es, k);
    }
    if exists i :: 0 <= i < |es| && Qualifies(es[i]) && ChildKey(es[i]) == k {
      var i :| 0 <= i < |es| && Qualifies(es[i]) && ChildKey(es[i]) == k;
      QualifiedKeysHave(es, i);
    }
  }

  lemma {:induction false} QualifiedKeysHave(es: seq<Entry>, i: nat)
    requires i < |es| && Qualifies(es[i])
    ensures ChildKey(es[i]) in QualifiedKeys(es)
  {
    var init, last := es[..|es| - 1], es[|es| - 1];
    var tail := if Qualifies(last) then [ChildKey(last)] else [];
    assert QualifiedKeys(es) == QualifiedKeys(init) + tail;
    if i < |init| {
      assert init[i] == es[i];
      QualifiedKeysHave(init, i);
    } else {
      assert tail == [ChildKey(es[i])];
    }
  }

  lemma {:induction false} QualifiedKeysFrom(es: seq<Entry>, k: string)
    requires k in QualifiedKeys(es)
    ensures exists i :: 0 <= i < |es| && Qualifies(es[i]) && ChildKey(es[i]) == k
  {
    var init, last := es[..|es| - 1], es[|es| - 1];
    var tail := if Qualifies(last) then [ChildKey(last)] else [];
    assert QualifiedKeys(es) == QualifiedKeys(init) + tail;
    if k in QualifiedKeys(init) {
      QualifiedKeysFrom(init, k);
      var i :| 0 <= i < |init| && Qualifies(init[i]) && ChildKey(init[i]) == k;
      assert es[i] == init[i];
    } else {
      assert k in tail;
      assert Qualifies(es[|es| - 1]) && ChildKey(es[|es| - 1]) == k;
    }
  }

  lemma {:induction false} ScanPrefixKeys(d: Dir, n: nat, m: Markers)
    requires n <= |d.entries|
    ensures Keys(ScanPrefix(d, n, m)) == FirstOccurrences(Keys(InitialNode(d, m)) + QualifiedKeys(d.entries[..n]))
  {
    var init := Keys(InitialNode(d, m));
    if n == 0 {
      assert d.entries[..0] == [];
      if HasRouteFile(d, m) {
        assert ["$route"][..0] == [];
      }
      assert init + [] == init;
    } else {
      ScanPrefixKeys(d, n - 1, m);
      var e := d.entries[n - 1];
      var prev := ScanPrefix(d, n - 1, m);
      var qs := QualifiedKeys(d.entries[..n - 1]);
      assert d.entries[..n][..n - 1] == d.entries[..n - 1];
      assert d.entries[..n][n - 1] == e;
      if Qualifies(e) {
        PutExtendsKeys(prev, init + qs, ChildKey(e), ChildValue(e, m));
        assert init + qs + [ChildKey(e)] == init + (qs + [ChildKey(e)]);
      } else {
        assert qs + [] == qs;
      }
    }
  }

  /**
   * The keys of a scanned directory: `$route` first when it has a route file,
   * then the key of every qualifying folder, each once, in `readdir` order of
   * first appearance. Nothing is pruned.
   */
  lemma ScanKeys(d: Dir, m: Markers)
    ensures Keys(ScanTree(d, m).entries) == FirstOccurrences(Keys(InitialNode(d, m)) + QualifiedKeys(d.entries))
    ensures DistinctKeys(ScanTree(d, m).entries)
  {
    ScanPrefixKeys(d, |d.entries|, m);
    assert d.entries[..|d.entries|] == d.entries;
    FirstOccurrencesSpec(Keys(InitialNode(d, m)) + QualifiedKeys(d.entries));
  }

  /** Every qualifying folder has a key in the scan, whether or not it holds routes. */
  lemma ScanKeepsEveryFolder(d: Dir, m: Markers, i: nat)
    requires i < |d.entries| && Qualifies(d.entries[i])
    ensures ChildKey(d.entries[i]) in Keys(ScanTree(d, m).entries)
  {
    var xs := Keys(InitialNode(d, m)) + QualifiedKeys(d.entries);
    ScanKeys(d, m);
    FirstOccurrencesSpec(xs);
    QualifiedKeysSpec(d.entries, ChildKey(d.entries[i]));
  }

  /** A key of the scan is `$route` from a route file or the key of a qualifying folder. */
  lemma ScanKeysFromFolders(d: Dir, m: Markers, k: string)
    requires k in Keys(ScanTree(d, m).entries)
    ensures (k == "$route" && HasRouteFile(d, m))
            || exists i :: 0 <= i < |d.entries| && Qualifies(d.entries[i]) && ChildKey(d.entries[i]) == k
  {
    var xs := Keys(InitialNode(d, m)) + QualifiedKeys(d.entries);
    ScanKeys(d, m);
    FirstOccurrencesSpec(xs);
    QualifiedKeysSpec(d.entries, k);
  }

  /** The entry `i` qualifies with key `k` and no later qualifying entry before `n` has that key. */
  predicate LastWithKey(es: seq<Entry>, n: nat, i: nat, k: string)
  {
    i < n <= |es| && Qualifies(es[i]) && ChildKey(es[i]) == k
    && forall j :: i < j < n && Qualifies(es[j]) ==> ChildKey(es[j]) != k
  }

  lemma {:induction false} ScanPrefixLastWins(d: Dir, n: nat, i: nat, m: Markers, k: string)
    requires LastWithKey(d.entries, n, i, k)
    ensures Lookup(ScanPrefix(d, n, m), k) == Some(ChildValue(d.entries[i], m))
  {
    var prev := ScanPrefix(d, n - 1, m);
    var e := d.entries[n - 1];
    if Qualifies(e) {
      PutLookup(prev, ChildKey(e), ChildValue(e, m), k);
      if i < n - 1 {
        ScanPrefixLastWins(d, n - 1, i, m, k);
      }
    } else {
      ScanPrefixLastWins(d, n - 1, i, m, k);
    }
  }

  /** When several folders get the same key, the last one in `readdir` order wins. */
  lemma ScanLastWins(d: Dir, i: nat, m: Markers, k: string)
    requires LastWithKey(d.entries, |d.entries|, i, k)
    ensures Lookup(ScanTree(d, m).entries, k) == Some(ChildValue(d.entries[i], m))
  {
    ScanPrefixLastWins(d, |d.entries|, i, m, k);
  }

  lemma {:induction false} ScanPrefixRouteFlag(d: Dir, n: nat, m: Markers)
    requires n <= |d.entries|
    requires forall i :: 0 <= i < n && Qualifies(d.entries[i]) ==> ChildKey(d.entries[i]) != "$route"
    ensures Lookup(ScanPrefix(d, n, m), "$route") == if HasRouteFile(d, m) then Some(Bool(true)) else None
  {
    if n > 0 {
      ScanPrefixRouteFlag(d, n - 1, m);
      var e := d.entries[n - 1];
      if Qualifies(e) {
        PutLookup(ScanPrefix(d, n - 1, m), ChildKey(e), ChildValue(e, m), "$route");
      }
    }
  }

  /**
   * Unless a folder is itself keyed `$route`, the scan has `$route: true`
   * exactly when the directory has a route file, and no `$route` otherwise.
   */
  lemma ScanRouteFlag(d: Dir, m: Markers)
    requires forall i :: 0 <= i < |d.entries| && Qualifies(d.entries[i]) ==> ChildKey(d.entries[i]) != "$route"
    ensures Lookup(ScanTree(d, m).entries, "$route") == if HasRouteFile(d, m) then Some(Bool(true)) else None
  {
    ScanPrefixRouteFlag(d, |d.entries|, m);
  }

  lemma {:induction false} ScanPrefixChildWins(d: Dir, n: nat, m: Markers, k: string)
    requires n <= |d.entries|
    requires exists i :: 0 <= i < n && Qualifies(d.entries[i]) && ChildKey(d.entries[i]) == k
    ensures var v := Lookup(ScanPrefix(d, n, m), k); v.Some? && v.value.Obj?
  {
    var e := d.entries[n - 1];
    var prev := ScanPrefix(d, n - 1, m);
    if Qualifies(e) {
      PutLookup(prev, ChildKey(e), ChildValue(e, m), k);
      if ChildKey(e) != k {
        ScanPrefixChildWins(d, n - 1, m, k);
      }
    } else {
      ScanPrefixChildWins(d, n - 1, m, k);
    }
  }

  /**
   * A folder `[route]` is keyed `$route` and replaces the route flag with its
   * own subtree, so the directory no longer reads as a route.
   */
  lemma RouteFolderHidesFlag(d: Dir, m: Markers, i: nat)
    requires i < |d.entries| && Qualifies(d.entries[i]) && d.entries[i].name == "[route]"
    ensures var v := Lookup(ScanTree(d, m).entries, "$route"); v.Some? && v.value.Obj?
  {
    RouteFolderKey(d.entries[i]);
    ScanPrefixChildWins(d, |d.entries|, m, "$route");
  }

  lemma RouteFolderKey(e: Entry)
    requires e.name == "[route]"
    ensures ChildKey(e) == "$route"
  {
    RouteSlug(e.name);
    RouteHasNoPair("route");
    KebabToCamelIdentity("route");
  }

  lemma RouteHasNoPair(s: string)
    requires s == "route"
    ensures NoKebabPair(s)
  {
    forall j | 0 <= j < |s| - 1
      ensures !(s[j] == '-' && IsLowerAscii(s[j + 1]))
    {
      assert s[j] in "route";
    }
  }

  lemma RouteSlug(name: string)
    requires name == "[route]"
    ensures ExtractDynamicRouteSlug(name) == Some("route")
  {
    assert name == "[" + "route" + "]";
    ExtractBracketed("route");
  }

  /**
   * A dynamic folder `[slug]` keeps its own scan with `$param` set to the raw
   * slug, which replaces any sub-folder the scan had keyed `$param`.
   */
  lemma DynamicChild(e: Entry, m: Markers, slug: string, k: string)
    requires e.Folder? && ExtractDynamicRouteSlug(e.name) == Some(slug)
    ensures ChildKey(e) == FormatParamName(slug)
    ensures Lookup(ChildValue(e, m).entries, k)
         == if k == "$param" then Some(Str(slug)) else Lookup(ScanTree(e.contents, m).entries, k)
  {
    PutLookup(ScanTree(e.contents, m).entries, "$param", Str(slug), k);
  }

  /** A static folder is keyed by its exact name, holds its own scan and gets no `$param` of its own. */
  lemma StaticChild(e: Entry, m: Markers)
    requires e.Folder? && ExtractDynamicRouteSlug(e.name).None?
    ensures ChildKey(e) == e.name && ChildValue(e, m) == ScanTree(e.contents, m)
  {
  }

  /**
   * In a directory's scan, a static folder (the last qualifying one with its
   * name) sits under its exact name and holds its own scan.
   */
  lemma ScanStaticFolder(d: Dir, m: Markers, i: nat)
    requires i < |d.entries| && Qualifies(d.entries[i]) && ExtractDynamicRouteSlug(d.entries[i].name).None?
    requires forall j :: i < j < |d.entries| && Qualifies(d.entries[j]) ==> ChildKey(d.entries[j]) != d.entries[i].name
    ensures Lookup(ScanTree(d, m).entries, d.entries[i].name) == Some(ScanTree(d.entries[i].contents, m))
  {
    StaticChild(d.entries[i], m);
    ScanLastWins(d, i, m, d.entries[i].name);
  }

  lemma {:induction false} ScanPrefixIgnores(d: Dir, i: nat, other: Dir, n: nat, m: Markers)
    requires i < |d.entries| && d.entries[i].Folder? && !Qualifies(d.entries[i]) && n <= |d.entries|
    ensures ScanPrefix(d, n, m) == ScanPrefix(Dir(d.entries[i := Folder(d.entries[i].name, other)]), n, m)
  {
    var d' := Dir(d.entries[i := Folder(d.entries[i].name, other)]);
    if n == 0 {
      assert Names(d) == Names(d');
    } else {
      ScanPrefixIgnores(d, i, other, n - 1, m);
      if n - 1 != i {
        assert d'.entries[n - 1] == d.entries[n - 1];
      }
    }
  }

  /**
   * Hidden directories, `node_modules` and private `_` folders are never
   * scanned: whatever they contain, the scan of the parent is the same.
   */
  lemma IgnoredFolderContentsDoNotMatter(d: Dir, i: nat, other: Dir, m: Markers)
    requires i < |d.entries| && d.entries[i].Folder? && !Qualifies(d.entries[i])
    ensures ScanTree(d, m) == ScanTree(Dir(d.entries[i := Folder(d.entries[i].name, other)]), m)
  {
    ScanPrefixIgnores(d, i, other, |d.entries|, m);
  }
}
