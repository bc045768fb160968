/**
 * The pure parts of src/config.ts: the base prefix derived from the input
 * directory, the merge of command-line options into a configuration, and the
 * normalisation of each configuration entry read from a file. A configuration
 * is a JavaScript object: an ordered association list of field values, where
 * a field can be present and hold `undefined`.
 */
module Config {
  import opened Wrappers
  import opened Strings
  import opened RouteTree
  import opened RuntimePath

  /** A configuration field value. */
  datatype CVal = Undefined | Null | CStr(s: string) | CBool(b: bool) | COther

  type Record = seq<(string, CVal)>

  /** `undefined` or `null`: what `??` replaces. */
  predicate Nullish(v: Option<CVal>)
  {
    v.None? || v.value == Undefined || v.value == Null
  }

  /** `parts.filter((part) => part && part !== ".")`. */
  function KeepParts(xs: seq<string>): (r: seq<string>)
    ensures forall j :: 0 <= j < |r| ==> r[j] != "" && r[j] != "." && r[j] in xs
  {
    if xs == [] then []
    else if xs[0] == "" || xs[0] == "." then KeepParts(xs[1..])
    else [xs[0]] + KeepParts(xs[1..])
  }

  /** A single part is kept exactly when it is neither empty nor `.`. */
  lemma KeepPartsSingle(x: string)
    ensures KeepParts([x]) == if x == "" || x == "." then [] else [x]
  {
    assert [x][1..] == [];
  }

  /** Filtering distributes over concatenation: parts are kept in order, one by one. */
  lemma {:induction false} KeepPartsAppend(xs: seq<string>, ys: seq<string>)
    ensures KeepParts(xs + ys) == KeepParts(xs) + KeepParts(ys)
  {
    if xs == [] {
      assert xs + ys == ys;
    } else {
      assert (xs + ys)[0] == xs[0] && (xs + ys)[1..] == xs[1..] + ys;
      KeepPartsAppend(xs[1..], ys);
    }
  }

  /** The parts of an input path that name directories. */
  function InputParts(input: string): seq<string>
  {
    KeepParts(Split(input, '/'))
  }

  /** `computeDefaultBasePrefix` for a string `input`: `/` and the parts after the first `app`, or `/`. */
  function BasePrefixOf(input: string): string
  {
    var parts := InputParts(input);
    var i := IndexOf(parts, "app");
    if i < |parts| then "/" + Join(parts[i + 1..], "/") else "/"
  }

  /**
   * `computeDefaultBasePrefix(config)`: `config.input.split` fails with a type
   * error when `input` is not a string.
   */
  function ComputeDefaultBasePrefix(config: Record): (r: Result<string, string>)
  {
    var input: Option<CVal> := Lookup(config, "input");
    if input.Some? && input.value.CStr? then Success(BasePrefixOf(input.value.s))
    else Failure("TypeError: config.input is not a string")
  }

  /** The default base prefix always begins with `/`. */
  lemma BasePrefixRooted(input: string)
    ensures StartsWith(BasePrefixOf(input), "/")
  {
  }

  /** Without an `app` part the base prefix is `/`. */
  lemma BasePrefixWithoutApp(input: string)
    requires "app" !in InputParts(input)
    ensures BasePrefixOf(input) == "/"
  {
    IndexOfFinds(InputParts(input), "app");
  }

  /**
   * With an `app` part, the words of the base prefix are exactly the parts
   * after the first `app`; empty and `.` parts are dropped.
   */
  lemma BasePrefixWords(input: string)
    requires "app" in InputParts(input)
    ensures var parts := InputParts(input);
      var i := IndexOf(parts, "app");
      i < |parts| && parts[i] == "app" && Parts(BasePrefixOf(input)) == parts[i + 1..]
  {
    var parts := InputParts(input);
    var i := IndexOf(parts, "app");
    IndexOfFinds(parts, "app");
    var rest := parts[i + 1..];
    InputPartsAreWords(input);
    assert forall j :: 0 <= j < |rest| ==> rest[j] != "" && '/' !in rest[j] by {
      forall j | 0 <= j < |rest|
        ensures rest[j] != "" && '/' !in rest[j]
      {
        assert rest[j] == parts[i + 1 + j];
      }
    }
    PartsLeadingSlash(Join(rest, "/"));
    JoinedWords(rest);
    WordsAreTheirParts(rest);
  }

  /**
   * The default base prefix holds no doubled `/` and ends in `/` only when it
   * is `/` itself.
   */
  lemma BasePrefixSlashes(input: string)
    ensures var p := BasePrefixOf(input);
      (forall k :: 0 <= k < |p| - 1 ==> !(p[k] == '/' && p[k + 1] == '/'))
      && (|p| > 1 ==> p[|p| - 1] != '/')
  {
    var parts := InputParts(input);
    var i := IndexOf(parts, "app");
    if i < |parts| {
      InputPartsAreWords(input);
      SuffixWords(parts, i + 1);
      JoinedWordsSlashes(parts[i + 1..]);
      RootedSlashes(Join(parts[i + 1..], "/"));
    }
  }

  lemma SuffixWords(xs: seq<string>, n: nat)
    requires n <= |xs| && forall j :: 0 <= j < |xs| ==> xs[j] != "" && '/' !in xs[j]
    ensures forall j :: 0 <= j < |xs[n..]| ==> xs[n..][j] != "" && '/' !in xs[n..][j]
  {
    forall j | 0 <= j < |xs[n..]|
      ensures xs[n..][j] != "" && '/' !in xs[n..][j]
    {
      assert xs[n..][j] == xs[n + j];
    }
  }

  lemma RootedSlashes(w: string)
    requires w == "" || (w[0] != '/' && w[|w| - 1] != '/')
    requires forall k :: 0 <= k < |w| - 1 ==> !(w[k] == '/' && w[k + 1] == '/')
    ensures var p := "/" + w;
      (forall k :: 0 <= k < |p| - 1 ==> !(p[k] == '/' && p[k + 1] == '/'))
      && (|p| > 1 ==> p[|p| - 1] != '/')
  {
    var p := "/" + w;
    forall k | 0 <= k < |p| - 1
      ensures !(p[k] == '/' && p[k + 1] == '/')
    {
      if k > 0 {
        assert p[k] == w[k - 1] && p[k + 1] == w[k];
      }
    }
  }

  /** Words joined with `/` neither start nor end with `/` and hold no doubled `/`. */
  lemma {:induction false} JoinedWordsSlashes(xs: seq<string>)
    requires forall j :: 0 <= j < |xs| ==> xs[j] != "" && '/' !in xs[j]
    ensures var s := Join(xs, "/");
      (xs == [] ==> s == "")
      && (xs != [] ==> s != "" && s[0] != '/' && s[|s| - 1] != '/')
      && forall k :: 0 <= k < |s| - 1 ==> !(s[k] == '/' && s[k + 1] == '/')
  {
    var s := Join(xs, "/");
    if |xs| == 1 {
      assert s == xs[0];
      assert s[0] in xs[0] && s[|s| - 1] in xs[0];
      forall k | 0 <= k < |s| - 1
        ensures !(s[k] == '/' && s[k + 1] == '/')
      {
        assert s[k] in xs[0];
      }
    } else if |xs| > 1 {
      var x := xs[0];
      var t := Join(xs[1..], "/");
      JoinedWordsSlashes(xs[1..]);
      assert s == x + "/" + t;
      assert s[0] == x[0] && x[0] in x;
      assert s[|s| - 1] == t[|t| - 1];
      forall k | 0 <= k < |s| - 1
        ensures !(s[k] == '/' && s[k + 1] == '/')
      {
        if k < |x| {
          assert s[k] == x[k] && x[k] in x;
        } else if k > |x| {
          assert s[k] == t[k - |x| - 1] && s[k + 1] == t[k - |x|];
        } else {
          assert s[k + 1] == t[0];
        }
      }
    }
  }

  /** The parts of an input path are non-empty and hold no slash. */
  lemma InputPartsAreWords(input: string)
    ensures forall j :: 0 <= j < |InputParts(input)| ==> InputParts(input)[j] != "" && '/' !in InputParts(input)[j]
  {
    SplitPiecesLackSeparator(input, '/');
  }

  lemma {:induction false} WordsAreTheirParts(xs: seq<string>)
    requires forall j :: 0 <= j < |xs| ==> xs[j] != "" && '/' !in xs[j]
    ensures AllParts(xs) == xs
  {
    if xs != [] {
      PartsOfWord(xs[0]);
      WordsAreTheirParts(xs[1..]);
      assert [xs[0]] + xs[1..] == xs;
    }
  }

  /** The documented example: input `./app/api` gives base prefix `/api`. */
  lemma BasePrefixExample()
    ensures BasePrefixOf("./app/api") == "/api"
  {
    ExampleParts();
    AppFirst(InputParts("./app/api"));
  }

  lemma AppFirst(parts: seq<string>)
    requires parts == ["app", "api"]
    ensures IndexOf(parts, "app") == 0 && "/" + Join(parts[1..], "/") == "/api"
  {
    assert parts[1..] == ["api"];
  }

  lemma ExampleParts()
    ensures InputParts("./app/api") == ["app", "api"]
  {
    ExampleSplit();
    KeepExampleParts([".", "app", "api"]);
  }

  lemma KeepExampleParts(xs: seq<string>)
    requires xs == [".", "app", "api"]
    ensures KeepParts(xs) == ["app", "api"]
  {
    var ys := xs[1..];
    assert ys == ["app", "api"] && ys[1..] == ["api"] && ys[1..][1..] == [];
    assert KeepParts(ys[1..]) == ["api"];
  }

  lemma ExampleSplit()
    ensures Split("./app/api", '/') == [".", "app", "api"]
  {
    calc {
      Split("./app/api", '/');
      { assert "./app/api" == "." + ['/'] + "app/api"; }
      Split("." + ['/'] + "app/api", '/');
      { SplitAround(".", "app/api", '/'); }
      Split(".", '/') + Split("app/api", '/');
      { SplitNoSeparator(".", '/'); ExampleSplitTail(); }
      ["."] + ["app", "api"];
    }
  }

  lemma ExampleSplitTail()
    ensures Split("app/api", '/') == ["app", "api"]
  {
    calc {
      Split("app/api", '/');
      { assert "app/api" == "app" + ['/'] + "api"; }
      Split("app" + ['/'] + "api", '/');
      { SplitAround("app", "api", '/'); }
      Split("app", '/') + Split("api", '/');
      { SplitNoSeparator("app", '/'); SplitNoSeparator("api", '/'); }
      ["app"] + ["api"];
    }
  }

  /** `Object.fromEntries(Object.entries(options).filter(([_, v]) => v !== undefined))`. */
  function DefinedFields(options: Record): (r: Record)
    ensures forall j :: 0 <= j < |r| ==> r[j].1 != Undefined
  {
    if options == [] then []
    else (if options[0].1 == Undefined then [] else [options[0]]) + DefinedFields(options[1..])
  }

  /** Spreading `fields` over `base`: each field assigned in turn. */
  function Spread(base: Record, fields: Record): Record
    decreases |fields|
  {
    if fields == [] then base else Spread(Put(base, fields[0].0, fields[0].1), fields[1..])
  }

  /** `mergeConfig(baseConfig, options)`. */
  function MergeConfig(baseConfig: Record, options: Record): Record
  {
    Spread(baseConfig, DefinedFields(options))
  }

  /** After a spread, a field reads as in `fields` when `fields` has it, and as in `base` otherwise. */
  lemma {:induction false} SpreadLookup(base: Record, fields: Record, k: string)
    requires DistinctKeys(fields)
    ensures Lookup(Spread(base, fields), k) == if k in Keys(fields) then Lookup(fields, k) else Lookup(base, k)
    decreases |fields|
  {
    if fields != [] {
      var f := fields[0];
      var rest := fields[1..];
      assert Keys(fields) == [f.0] + Keys(rest);
      assert DistinctKeys(rest) by {
        forall i, j | 0 <= i < j < |Keys(rest)|
          ensures Keys(rest)[i] != Keys(rest)[j]
        {
          assert Keys(fields)[i + 1] == Keys(rest)[i] && Keys(fields)[j + 1] == Keys(rest)[j];
        }
      }
      assert f.0 !in Keys(rest) by {
        forall j | 0 <= j < |Keys(rest)|
          ensures Keys(rest)[j] != f.0
        {
          assert Keys(fields)[j + 1] == Keys(rest)[j];
        }
      }
      SpreadLookup(Put(base, f.0, f.1), rest, k);
      PutLookup(base, f.0, f.1, k);
      LookupDefined(rest, k);
    }
  }

  /** Dropping `undefined` fields: a field reads as before unless it held `undefined`. */
  lemma {:induction false} DefinedFieldsLookup(options: Record, k: string)
    requires DistinctKeys(options)
    ensures Lookup(DefinedFields(options), k)
         == if Lookup(options, k) == Some(Undefined) then None else Lookup(options, k)
  {
    if options != [] {
      var rest := options[1..];
      assert Keys(options) == [options[0].0] + Keys(rest);
      assert DistinctKeys(rest) by {
        forall i, j | 0 <= i < j < |Keys(rest)|
          ensures Keys(rest)[i] != Keys(rest)[j]
        {
          assert Keys(options)[i + 1] == Keys(rest)[i] && Keys(options)[j + 1] == Keys(rest)[j];
        }
      }
      DefinedFieldsLookup(rest, k);
      var d := DefinedFields(options);
      if options[0].1 == Undefined {
        assert d == DefinedFields(rest);
      } else {
        assert d[0] == options[0] && d[1..] == DefinedFields(rest);
      }
      if options[0].0 == k {
        assert k !in Keys(rest) by {
          forall j | 0 <= j < |Keys(rest)|
            ensures Keys(rest)[j] != k
          {
            assert Keys(options)[j + 1] == Keys(rest)[j];
          }
        }
        LookupDefined(rest, k);
        LookupDefined(DefinedFields(rest), k);
        DefinedFieldsSubset(rest, k);
      }
    }
  }

  lemma {:induction false} DefinedFieldsSubset(options: Record, k: string)
    ensures k in Keys(DefinedFields(options)) ==> k in Keys(options)
  {
    if options != [] {
      DefinedFieldsSubset(options[1..], k);
      assert Keys(options) == [options[0].0] + Keys(options[1..]);
      var head := if options[0].1 == Undefined then [] else [options[0]];
      assert Keys(head + DefinedFields(options[1..])) == Keys(head) + Keys(DefinedFields(options[1..]));
    }
  }

  lemma {:induction false} DefinedFieldsDistinct(options: Record)
    requires DistinctKeys(options)
    ensures DistinctKeys(DefinedFields(options))
  {
    if options != [] {
      var rest := options[1..];
      assert Keys(options) == [options[0].0] + Keys(rest);
      assert DistinctKeys(rest) by {
        forall i, j | 0 <= i < j < |Keys(rest)|
          ensures Keys(rest)[i] != Keys(rest)[j]
        {
          assert Keys(options)[i + 1] == Keys(rest)[i] && Keys(options)[j + 1] == Keys(rest)[j];
        }
      }
      DefinedFieldsDistinct(rest);
      if options[0].1 != Undefined {
        var r := DefinedFields(options);
        var dr := DefinedFields(rest);
        assert r == [options[0]] + dr;
        DefinedFieldsSubset(rest, options[0].0);
        assert options[0].0 !in Keys(rest) by {
          forall j | 0 <= j < |Keys(rest)|
            ensures Keys(rest)[j] != options[0].0
          {
            assert Keys(options)[j + 1] == Keys(rest)[j];
          }
        }
        forall i, j | 0 <= i < j < |Keys(r)|
          ensures Keys(r)[i] != Keys(r)[j]
        {
          assert Keys(r)[j] == Keys(dr)[j - 1];
          if i > 0 {
            assert Keys(r)[i] == Keys(dr)[i - 1];
          }
        }
      }
    }
  }

  /**
   * `mergeConfig`: an option holding `undefined` leaves the base value, a
   * defined option replaces it, and a field the options lack is unchanged.
   */
  lemma MergeConfigLookup(baseConfig: Record, options: Record, k: string)
    requires DistinctKeys(options)
    ensures Lookup(MergeConfig(baseConfig, options), k)
         == match Lookup(options, k)
            case Some(v) => if v == Undefined then Lookup(baseConfig, k) else Some(v)
            case None => Lookup(baseConfig, k)
  {
    DefinedFieldsDistinct(options);
    SpreadLookup(baseConfig, DefinedFields(options), k);
    DefinedFieldsLookup(options, k);
    LookupDefined(DefinedFields(options), k);
  }

  /** `defaultConfig`; the default input directory and output file are parameters. */
  function DefaultConfig(defaultInput: string, defaultOutput: string): Record
  {
    [("input", CStr(defaultInput)), ("output", CStr(defaultOutput)), ("watch", CBool(false)), ("routesName", CStr("routes"))]
  }

  /** The rest of an entry once `basePrefix` is destructured out. */
  function WithoutKey(entry: Record, key: string): (r: Record)
  {
    if entry == [] then []
    else (if entry[0].0 == key then [] else [entry[0]]) + WithoutKey(entry[1..], key)
  }

  lemma {:induction false} WithoutKeyLookup(entry: Record, key: string, k: string)
    ensures Lookup(WithoutKey(entry, key), k) == if k == key then None else Lookup(entry, k)
    ensures k in Keys(WithoutKey(entry, key)) <==> k != key && k in Keys(entry)
  {
    if entry != [] {
      WithoutKeyLookup(entry[1..], key, k);
      assert Keys(entry) == [entry[0].0] + Keys(entry[1..]);
      var head := if entry[0].0 == key then [] else [entry[0]];
      var w := WithoutKey(entry, key);
      assert Keys(head + WithoutKey(entry[1..], key)) == Keys(head) + Keys(WithoutKey(entry[1..], key));
      if entry[0].0 == key {
        assert w == WithoutKey(entry[1..], key);
      } else {
        assert w[0] == entry[0] && w[1..] == WithoutKey(entry[1..], key);
      }
    }
  }

  lemma {:induction false} WithoutKeyDistinct(entry: Record, key: string)
    requires DistinctKeys(entry)
    ensures DistinctKeys(WithoutKey(entry, key))
  {
    if entry != [] {
      var rest := entry[1..];
      assert Keys(entry) == [entry[0].0] + Keys(rest);
      assert DistinctKeys(rest) by {
        forall i, j | 0 <= i < j < |Keys(rest)|
          ensures Keys(rest)[i] != Keys(rest)[j]
        {
          assert Keys(entry)[i + 1] == Keys(rest)[i] && Keys(entry)[j + 1] == Keys(rest)[j];
        }
      }
      WithoutKeyDistinct(rest, key);
      if entry[0].0 != key {
        var r := WithoutKey(entry, key);
        var wr := WithoutKey(rest, key);
        assert r == [entry[0]] + wr;
        WithoutKeyLookup(rest, key, entry[0].0);
        assert entry[0].0 !in Keys(rest) by {
          forall j | 0 <= j < |Keys(rest)|
            ensures Keys(rest)[j] != entry[0].0
          {
            assert Keys(entry)[j + 1] == Keys(rest)[j];
          }
        }
        forall i, j | 0 <= i < j < |Keys(r)|
          ensures Keys(r)[i] != Keys(r)[j]
        {
          assert Keys(r)[j] == Keys(wr)[j - 1];
          if i > 0 {
            assert Keys(r)[i] == Keys(wr)[i - 1];
          }
        }
      }
    }
  }

  /**
   * `({ basePrefix, ...config }) => ({ ...defaultConfig, basePrefix: basePrefix ?? computeDefaultBasePrefix(config), ...config })`.
   */
  function NormalizeEntry(entry: Record, defaultInput: string, defaultOutput: string): Result<Record, string>
  {
    var basePrefix := Lookup(entry, "basePrefix");
    var config := WithoutKey(entry, "basePrefix");
    var prefix: Result<CVal, string> :=
      if !Nullish(basePrefix) then Success(basePrefix.value)
      else match ComputeDefaultBasePrefix(config)
        case Success(p) => Success(CStr(p))
        case Failure(e) => Failure(e);
    match prefix
    case Success(p) => Success(Spread(Put(DefaultConfig(defaultInput, defaultOutput), "basePrefix", p), config))
    case Failure(e) => Failure(e)
  }

  /**
   * Normalisation fails exactly when the entry has no usable `basePrefix` and
   * its `input` is not a string.
   */
  lemma NormalizeFails(entry: Record, defaultInput: string, defaultOutput: string)
    ensures NormalizeEntry(entry, defaultInput, defaultOutput).Failure?
        <==> Nullish(Lookup(entry, "basePrefix")) && !(Lookup(entry, "input").Some? && Lookup(entry, "input").value.CStr?)
  {
    WithoutKeyLookup(entry, "basePrefix", "input");
  }

  /** An entry's own `basePrefix`, when neither `null` nor `undefined`, is kept. */
  lemma NormalizeKeepsPrefix(entry: Record, defaultInput: string, defaultOutput: string)
    requires !Nullish(Lookup(entry, "basePrefix"))
    ensures var r := NormalizeEntry(entry, defaultInput, defaultOutput);
      r.Success? && Lookup(r.value, "basePrefix") == Lookup(entry, "basePrefix")
  {
    NormalizeFields(entry, defaultInput, defaultOutput, "basePrefix", Lookup(entry, "basePrefix").value);
  }

  /** Otherwise `basePrefix` is computed from the entry's own `input`. */
  lemma NormalizeComputesPrefix(entry: Record, defaultInput: string, defaultOutput: string, input: string)
    requires Nullish(Lookup(entry, "basePrefix")) && Lookup(entry, "input") == Some(CStr(input))
    ensures var r := NormalizeEntry(entry, defaultInput, defaultOutput);
      r.Success? && Lookup(r.value, "basePrefix") == Some(CStr(BasePrefixOf(input)))
  {
    WithoutKeyLookup(entry, "basePrefix", "input");
    NormalizeFields(entry, defaultInput, defaultOutput, "basePrefix", CStr(BasePrefixOf(input)));
  }

  /**
   * Every other field the entry provides, even as `undefined`, overrides the
   * default; the defaults fill the fields the entry lacks.
   */
  lemma NormalizeOverrides(entry: Record, defaultInput: string, defaultOutput: string, k: string)
    requires DistinctKeys(entry) && k != "basePrefix"
    requires NormalizeEntry(entry, defaultInput, defaultOutput).Success?
    ensures Lookup(NormalizeEntry(entry, defaultInput, defaultOutput).value, k)
         == if k in Keys(entry) then Lookup(entry, k) else Lookup(DefaultConfig(defaultInput, defaultOutput), k)
  {
    var config := WithoutKey(entry, "basePrefix");
    var r := NormalizeEntry(entry, defaultInput, defaultOutput).value;
    var d := DefaultConfig(defaultInput, defaultOutput);
    var p :| r == Spread(Put(d, "basePrefix", p), config);
    WithoutKeyDistinct(entry, "basePrefix");
    WithoutKeyLookup(entry, "basePrefix", k);
    SpreadLookup(Put(d, "basePrefix", p), config, k);
    PutLookup(d, "basePrefix", p, k);
    LookupDefined(entry, k);
  }

  /** A successful normalisation spreads the entry over the defaults with the chosen `basePrefix`. */
  lemma NormalizeFields(entry: Record, defaultInput: string, defaultOutput: string, k: string, p: CVal)
    requires k == "basePrefix"
    requires (!Nullish(Lookup(entry, k)) && p == Lookup(entry, k).value)
          || (Nullish(Lookup(entry, k)) && p.CStr? && ComputeDefaultBasePrefix(WithoutKey(entry, k)) == Success(p.s))
    ensures var r := NormalizeEntry(entry, defaultInput, defaultOutput);
      r.Success? && Lookup(r.value, k) == Some(p)
  {
    var config := WithoutKey(entry, k);
    var d := DefaultConfig(defaultInput, defaultOutput);
    WithoutKeyLookup(entry, k, k);
    LookupDefined(config, k);
    SpreadPreserves(Put(d, k, p), config, k);
    PutLookup(d, k, p, k);
  }

  /** Spreading fields that lack `k` leaves `k` as it was. */
  lemma {:induction false} SpreadPreserves(base: Record, fields: Record, k: string)
    requires k !in Keys(fields)
    ensures Lookup(Spread(base, fields), k) == Lookup(base, k)
    decreases |fields|
  {
    if fields != [] {
      assert Keys(fields) == [fields[0].0] + Keys(fields[1..]);
      SpreadPreserves(Put(base, fields[0].0, fields[0].1), fields[1..], k);
      PutLookup(base, fields[0].0, fields[0].1, k);
    }
  }

  /** Every entry normalised, or `None` as soon as one fails. */
  function NormalizeAll(entries: seq<Record>, defaultInput: string, defaultOutput: string): (r: Option<seq<Record>>)
    ensures r.Some? ==> |r.value| == |entries|
  {
    if entries == [] then Some([])
    else
      match NormalizeEntry(entries[0], defaultInput, defaultOutput)
      case Failure(_) => None
      case Success(c) =>
        match NormalizeAll(entries[1..], defaultInput, defaultOutput)
        case None => None
        case Some(cs) => Some([c] + cs)
  }

  /**
   * `loadConfig` once the file has been searched: `loaded` is the array of
   * entries found (a single entry is a one-element array), `None` when no
   * configuration was found or loading threw. Any failure while normalising
   * is caught as well, and the defaults are used.
   */
  function LoadConfig(loaded: Option<seq<Record>>, defaultInput: string, defaultOutput: string): seq<Record>
  {
    if loaded.None? then [DefaultConfig(defaultInput, defaultOutput)]
    else
      match NormalizeAll(loaded.value, defaultInput, defaultOutput)
      case Some(cs) => cs
      case None => [DefaultConfig(defaultInput, defaultOutput)]
  }

  lemma {:induction false} NormalizeAllSpec(entries: seq<Record>, defaultInput: string, defaultOutput: string)
    ensures var r := NormalizeAll(entries, defaultInput, defaultOutput);
      (r.Some? <==> forall i :: 0 <= i < |entries| ==> NormalizeEntry(entries[i], defaultInput, defaultOutput).Success?)
      && (r.Some? ==> forall i :: 0 <= i < |entries| ==> r.value[i] == NormalizeEntry(entries[i], defaultInput, defaultOutput).value)
  {
    if entries != [] {
      NormalizeAllSpec(entries[1..], defaultInput, defaultOutput);
      assert forall i :: 1 <= i < |entries| ==> entries[1..][i - 1] == entries[i];
    }
  }

  /**
   * The loaded configurations: one normalised configuration per entry when
   * every entry normalises, and the single default configuration otherwise.
   */
  lemma LoadConfigSpec(loaded: Option<seq<Record>>, defaultInput: string, defaultOutput: string)
    ensures var r := LoadConfig(loaded, defaultInput, defaultOutput);
      if loaded.Some? && forall i :: 0 <= i < |loaded.value| ==> NormalizeEntry(loaded.value[i], defaultInput, defaultOutput).Success?
      then |r| == |loaded.value|
           && forall i :: 0 <= i < |r| ==> r[i] == NormalizeEntry(loaded.value[i], defaultInput, defaultOutput).value
      else r == [DefaultConfig(defaultInput, defaultOutput)]
  {
    if loaded.Some? {
      NormalizeAllSpec(loaded.value, defaultInput, defaultOutput);
    }
  }
}
