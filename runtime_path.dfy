/**
 * Path emission of the route builder runtime: `isGroupSegment` and
 * `buildRoutePath` (src/runtime/runtime.ts). A path is built from the
 * accumulated segments by dropping route-group segments such as `(auth)`,
 * stringifying the rest, joining them behind the base prefix with `/`, and
 * collapsing every run of slashes into one.
 */
module RuntimePath {
  import opened Strings

  /** A path segment: a raw route key or a parameter value (`string | number`). */
  datatype Segment = SStr(s: string) | SNum(n: int)

  /** A route group `(name)`: a string segment that starts with `(` and ends with `)`; numbers never are. */
  predicate IsGroupSegment(seg: Segment)
  {
    seg.SStr? && StartsWith(seg.s, "(") && EndsWith(seg.s, ")")
  }

  /** `String(seg)`. */
  function SegmentString(seg: Segment): string
  {
    match seg
    case SStr(s) => s
    case SNum(n) => IntToString(n)
  }

  /** The strings of the segments that are not route groups, in order. */
  function KeptStrings(segments: seq<Segment>): seq<string>
  {
    if segments == [] then []
    else if IsGroupSegment(segments[0]) then KeptStrings(segments[1..])
    else [SegmentString(segments[0])] + KeptStrings(segments[1..])
  }

  /** A string in which no two slashes are adjacent. */
  predicate DoubleSlashFree(s: string)
  {
    forall i :: 0 <= i < |s| - 1 ==> !(s[i] == '/' && s[i + 1] == '/')
  }

  /** The string after its leading slashes. */
  function DropSlashes(s: string): (r: string)
    ensures |r| <= |s| && (r == [] || r[0] != '/')
    ensures s != [] && s[0] == '/' ==> |r| < |s|
  {
    if s != [] && s[0] == '/' then DropSlashes(s[1..]) else s
  }

  /** `s.replace(/\/+/g, "/")`: every maximal run of slashes becomes one slash. */
  function CollapseSlashes(s: string): (r: string)
    ensures r == [] <==> s == []
    ensures s != [] ==> r[0] == s[0]
    decreases |s|
  {
    if s == [] then []
    else if s[0] == '/' then "/" + CollapseSlashes(DropSlashes(s))
    else [s[0]] + CollapseSlashes(s[1..])
  }

  /** `buildRoutePath(segments, basePrefix)`. */
  function BuildRoutePath(segments: seq<Segment>, basePrefix: string): string
  {
    var path := Join(KeptStrings(segments), "/");
    CollapseSlashes(Join(NonEmpty([basePrefix, path]), "/"))
  }

  /** The collapsed string never holds two adjacent slashes. */
  lemma {:induction false} CollapseIsDoubleSlashFree(s: string)
    ensures DoubleSlashFree(CollapseSlashes(s))
    decreases |s|
  {
    if s == [] {
    } else if s[0] == '/' {
      var t := DropSlashes(s);
      CollapseIsDoubleSlashFree(t);
      var r := "/" + CollapseSlashes(t);
      forall i | 0 <= i < |r| - 1 ensures !(r[i] == '/' && r[i + 1] == '/') {
        if i > 0 {
          assert r[i] == CollapseSlashes(t)[i - 1] && r[i + 1] == CollapseSlashes(t)[i];
        }
      }
    } else {
      CollapseIsDoubleSlashFree(s[1..]);
      var r := [s[0]] + CollapseSlashes(s[1..]);
      forall i | 0 <= i < |r| - 1 ensures !(r[i] == '/' && r[i + 1] == '/') {
        if i > 0 {
          assert r[i] == CollapseSlashes(s[1..])[i - 1] && r[i + 1] == CollapseSlashes(s[1..])[i];
        }
      }
    }
  }

  /** A string without adjacent slashes is left as it is. */
  lemma {:induction false} CollapseKeepsDoubleSlashFree(s: string)
    requires DoubleSlashFree(s)
    ensures CollapseSlashes(s) == s
    decreases |s|
  {
    if s != [] {
      assert DoubleSlashFree(s[1..]) by {
        forall i | 0 <= i < |s[1..]| - 1 ensures !(s[1..][i] == '/' && s[1..][i + 1] == '/') {
          assert s[1..][i] == s[i + 1] && s[1..][i + 1] == s[i + 2];
        }
      }
      CollapseKeepsDoubleSlashFree(s[1..]);
      if s[0] == '/' {
        assert |s| > 1 ==> s[1] != '/';
        assert DropSlashes(s) == s[1..];
      }
      assert [s[0]] + s[1..] == s;
    }
  }

  /** Collapsing changes a string exactly when it holds two adjacent slashes. */
  lemma CollapseFixedPoints(s: string)
    ensures CollapseSlashes(s) == s <==> DoubleSlashFree(s)
  {
    CollapseIsDoubleSlashFree(s);
    if DoubleSlashFree(s) {
      CollapseKeepsDoubleSlashFree(s);
    }
  }

  lemma {:induction false} DropSlashesWords(s: string)
    ensures Parts(DropSlashes(s)) == Parts(s)
  {
    if s != [] && s[0] == '/' {
      DropSlashesWords(s[1..]);
      PartsLeadingSlash(s[1..]);
      assert "/" + s[1..] == s;
    }
  }

  /** Collapsing, behind any slash-free text `w`, keeps the words of the path. */
  lemma {:induction false} CollapseWordsAfter(w: string, s: string)
    requires '/' !in w
    ensures Parts(w + CollapseSlashes(s)) == Parts(w + s)
    decreases |s|, 1
  {
    if s == [] {
    } else if s[0] == '/' {
      CollapseWordsAfterSlash(w, s);
    } else {
      var w' := w + [s[0]];
      assert '/' !in w';
      CollapseWordsAfter(w', s[1..]);
      ShiftWord(w, s);
    }
  }

  /** Moving a first character that is not a slash from `s` onto `w`. */
  lemma ShiftWord(w: string, s: string)
    requires s != [] && s[0] != '/'
    ensures w + CollapseSlashes(s) == (w + [s[0]]) + CollapseSlashes(s[1..])
    ensures w + s == (w + [s[0]]) + s[1..]
  {
    var x := CollapseSlashes(s[1..]);
    assert CollapseSlashes(s) == [s[0]] + x;
    Regroup(w, [s[0]], x);
    Regroup(w, [s[0]], s[1..]);
    assert s == [s[0]] + s[1..];
  }

  lemma Regroup<T>(a: seq<T>, b: seq<T>, c: seq<T>)
    ensures a + (b + c) == (a + b) + c
  {
  }

  lemma {:induction false} CollapseWordsAfterSlash(w: string, s: string)
    requires '/' !in w && s != [] && s[0] == '/'
    ensures Parts(w + CollapseSlashes(s)) == Parts(w + s)
    decreases |s|, 0
  {
    var t := DropSlashes(s);
    var c := CollapseSlashes(t);
    CollapseWordsAfter("", t);
    assert "" + c == c && "" + t == t;
    DropLeadingSlashWords(s);
    SlashSplit(w, s);
    PartsAround(w, c);
    PartsAround(w, s[1..]);
  }

  /** Dropping the leading slashes of `s` keeps the words of `s[1..]`. */
  lemma DropLeadingSlashWords(s: string)
    requires s != [] && s[0] == '/'
    ensures Parts(DropSlashes(s)) == Parts(s[1..])
  {
    assert DropSlashes(s) == DropSlashes(s[1..]);
    DropSlashesWords(s[1..]);
  }

  /** Both `w + s` and `w + CollapseSlashes(s)` read as `w`, a slash, and the rest. */
  lemma SlashSplit(w: string, s: string)
    requires s != [] && s[0] == '/'
    ensures w + CollapseSlashes(s) == w + "/" + CollapseSlashes(DropSlashes(s))
    ensures w + s == w + "/" + s[1..]
  {
    Regroup(w, "/", CollapseSlashes(DropSlashes(s)));
    assert s == "/" + s[1..];
    Regroup(w, "/", s[1..]);
  }

  /** Collapsing runs of slashes keeps the words of the path. */
  lemma CollapseKeepsWords(s: string)
    ensures Parts(CollapseSlashes(s)) == Parts(s)
  {
    CollapseWordsAfter("", s);
    assert "" + CollapseSlashes(s) == CollapseSlashes(s) && "" + s == s;
  }

  /** The words of each string, one string after another. */
  function AllParts(xs: seq<string>): seq<string>
  {
    if xs == [] then [] else Parts(xs[0]) + AllParts(xs[1..])
  }

  /** Joining with slashes neither merges nor invents words. */
  lemma {:induction false} JoinedWords(xs: seq<string>)
    ensures Parts(Join(xs, "/")) == AllParts(xs)
  {
    if xs == [] {
      assert Split("", '/') == [""];
      assert NonEmpty([""]) == NonEmpty([]);
    } else if |xs| == 1 {
      assert xs[1..] == [];
    } else {
      JoinedWords(xs[1..]);
      PartsAround(xs[0], Join(xs[1..], "/"));
    }
  }

  lemma EmptyHasNoWords()
    ensures Parts("") == []
  {
    assert Split("", '/') == [""];
    assert NonEmpty([""]) == NonEmpty([]);
  }

  /** `[basePrefix, path].filter(Boolean).join("/")`, by cases. */
  lemma PrefixJoin(basePrefix: string, path: string)
    ensures Join(NonEmpty([basePrefix, path]), "/")
         == if basePrefix != "" && path != "" then basePrefix + "/" + path
            else if basePrefix != "" then basePrefix
            else path
  {
    NonEmptyPair(basePrefix, path);
    if basePrefix != "" && path != "" {
      assert NonEmpty([basePrefix, path]) == [basePrefix, path];
      assert [basePrefix, path][1..] == [path];
    }
  }

  /**
   * The words of an emitted path are the words of the base prefix followed by
   * the words of every non-group segment, in input order.
   */
  lemma BuildRoutePathWords(segments: seq<Segment>, basePrefix: string)
    ensures Parts(BuildRoutePath(segments, basePrefix))
         == Parts(basePrefix) + AllParts(KeptStrings(segments))
  {
    var kept := KeptStrings(segments);
    var path := Join(kept, "/");
    var joined := Join(NonEmpty([basePrefix, path]), "/");
    assert BuildRoutePath(segments, basePrefix) == CollapseSlashes(joined);
    CollapseKeepsWords(joined);
    JoinedWords(kept);
    PrefixJoin(basePrefix, path);
    if basePrefix != "" && path != "" {
      PartsAround(basePrefix, path);
    } else if basePrefix != "" {
      EmptyHasNoWords();
      assert Parts(path) == [];
      assert Parts(joined) == Parts(basePrefix) + [];
    } else {
      EmptyHasNoWords();
      assert Parts(basePrefix) == [];
      assert Parts(joined) == [] + Parts(path);
    }
  }

  /** Segments that are plain words appear in the path as words of their own. */
  predicate WordSegments(segments: seq<Segment>)
  {
    forall i :: 0 <= i < |segments| ==>
      IsGroupSegment(segments[i]) || (SegmentString(segments[i]) != "" && '/' !in SegmentString(segments[i]))
  }

  lemma {:induction false} AllPartsOfWords(segments: seq<Segment>)
    requires WordSegments(segments)
    ensures AllParts(KeptStrings(segments)) == KeptStrings(segments)
  {
    if segments != [] {
      assert WordSegments(segments[1..]) by {
        forall i | 0 <= i < |segments[1..]|
          ensures IsGroupSegment(segments[1..][i])
               || (SegmentString(segments[1..][i]) != "" && '/' !in SegmentString(segments[1..][i]))
        {
          assert segments[1..][i] == segments[i + 1];
        }
      }
      AllPartsOfWords(segments[1..]);
      if !IsGroupSegment(segments[0]) {
        PartsOfWord(SegmentString(segments[0]));
        assert [SegmentString(segments[0])][1..] == [];
      }
    }
  }

  /**
   * Reading a path back: when every segment is a slash-free non-empty word, the
   * words of the emitted path are the prefix's words followed by the non-group
   * segments themselves, in order.
   */
  lemma BuildRoutePathReadBack(segments: seq<Segment>, basePrefix: string)
    requires WordSegments(segments)
    ensures Parts(BuildRoutePath(segments, basePrefix)) == Parts(basePrefix) + KeptStrings(segments)
  {
    BuildRoutePathWords(segments, basePrefix);
    AllPartsOfWords(segments);
  }

  /** The emitted path never holds two adjacent slashes. */
  lemma BuildRoutePathDoubleSlashFree(segments: seq<Segment>, basePrefix: string)
    ensures DoubleSlashFree(BuildRoutePath(segments, basePrefix))
  {
    CollapseIsDoubleSlashFree(Join(NonEmpty([basePrefix, Join(KeptStrings(segments), "/")]), "/"));
  }

  lemma {:induction false} KeptStringsAppend(a: seq<Segment>, b: seq<Segment>)
    ensures KeptStrings(a + b) == KeptStrings(a) + KeptStrings(b)
  {
    if a == [] {
      assert a + b == b;
    } else {
      assert (a + b)[0] == a[0] && (a + b)[1..] == a[1..] + b;
      KeptStringsAppend(a[1..], b);
    }
  }

  /** A route group anywhere among the segments leaves the emitted path unchanged. */
  lemma GroupSegmentIsInvisible(before: seq<Segment>, group: Segment, after: seq<Segment>, basePrefix: string)
    requires IsGroupSegment(group)
    ensures BuildRoutePath(before + [group] + after, basePrefix) == BuildRoutePath(before + after, basePrefix)
  {
    KeptStringsAppend(before + [group], after);
    KeptStringsAppend(before, [group]);
    KeptStringsAppend(before, after);
    assert [group][1..] == [];
    assert KeptStrings([group]) == [];
    assert KeptStrings(before + [group] + after) == KeptStrings(before + after);
  }

  /** A base prefix that starts with a slash gives a path that starts with a slash. */
  lemma BuildRoutePathRooted(segments: seq<Segment>, basePrefix: string)
    requires StartsWith(basePrefix, "/")
    ensures StartsWith(BuildRoutePath(segments, basePrefix), "/")
  {
    var path := Join(KeptStrings(segments), "/");
    var joined := Join(NonEmpty([basePrefix, path]), "/");
    PrefixJoin(basePrefix, path);
    assert joined[0] == '/';
  }

  /** No segments and no prefix give the empty path. */
  lemma EmptyPath()
    ensures BuildRoutePath([], "") == ""
  {
    assert KeptStrings([]) == [];
    assert NonEmpty(["", ""]) == [];
  }

  /** The generated `posts.$postId(123)` under base prefix `/api`. */
  lemma PostIdExample(segments: seq<Segment>, basePrefix: string)
    requires segments == [SStr("posts"), SNum(123)] && basePrefix == "/api"
    ensures BuildRoutePath(segments, basePrefix) == "/api/posts/123"
  {
    calc {
      BuildRoutePath(segments, basePrefix);
      CollapseSlashes(Join(NonEmpty(["/api", Join(KeptStrings(segments), "/")]), "/"));
      { PostIdSegments(); }
      CollapseSlashes(Join(NonEmpty(["/api", "posts/123"]), "/"));
      { PrefixJoin("/api", "posts/123"); }
      CollapseSlashes("/api" + "/" + "posts/123");
      { assert "/api" + "/" + "posts/123" == "/api/posts/123"; }
      CollapseSlashes("/api/posts/123");
      { SlashFreeExample("/api/posts/123"); }
      "/api/posts/123";
    }
  }

  lemma PostIdSegments()
    ensures Join(KeptStrings([SStr("posts"), SNum(123)]), "/") == "posts/123"
  {
    assert IntToString(123) == "123" by {
      assert NatToString(1) == "1";
      assert NatToString(12) == "12";
    }
    var segments := [SStr("posts"), SNum(123)];
    assert segments[1..][1..] == [];
    assert KeptStrings(segments) == ["posts", "123"];
  }

  /** Collapsing leaves the example paths alone. */
  lemma SlashFreeExample(p: string)
    requires p == "/api/posts/123" || p == "/api/health"
    ensures CollapseSlashes(p) == p
  {
    assert DoubleSlashFree(p);
    CollapseKeepsDoubleSlashFree(p);
  }

  /** A route group `(internal)` between the prefix and `health` is left out of the path. */
  lemma GroupExample(segments: seq<Segment>, basePrefix: string)
    requires segments == [SStr("(internal)"), SStr("health")] && basePrefix == "/api"
    ensures BuildRoutePath(segments, basePrefix) == "/api/health"
  {
    calc {
      BuildRoutePath(segments, basePrefix);
      CollapseSlashes(Join(NonEmpty(["/api", Join(KeptStrings(segments), "/")]), "/"));
      { GroupSegments(); }
      CollapseSlashes(Join(NonEmpty(["/api", "health"]), "/"));
      { PrefixJoin("/api", "health"); }
      CollapseSlashes("/api" + "/" + "health");
      { assert "/api" + "/" + "health" == "/api/health"; }
      CollapseSlashes("/api/health");
      { SlashFreeExample("/api/health"); }
      "/api/health";
    }
  }

  lemma GroupSegments()
    ensures Join(KeptStrings([SStr("(internal)"), SStr("health")]), "/") == "health"
  {
    var segments := [SStr("(internal)"), SStr("health")];
    assert IsGroupSegment(segments[0]);
    assert segments[1..][1..] == [];
    assert KeptStrings(segments) == ["health"];
  }
}
