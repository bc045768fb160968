# next-typed-paths, modelled in Dafny

next-typed-paths turns the `app/` directory of a Next.js project into typed
URL builders. The scanner walks the directory and produces a route tree. A
route tree is a nested object:
- each folder is a key;
- a folder holding a route or page file is flagged as a route;
- a dynamic folder `[slug]` is keyed `$slug` and records its parameter name.

At run time, `createRouteBuilder` turns such a tree into a nested object of
functions. Each function returns the URL path of its route, joined from the
folder names under a base prefix, with Next.js route groups `(name)` dropped.
A set of TypeScript conditional types states what shape each property of
that object should have. A small configuration module derives the default
base prefix from the input directory and merges configuration records.

This project models those pieces and proves properties about them:

| module | file | models |
|---|---|---|
| `Wrappers` | `wrappers.dfy` | `Option` and `Result` |
| `Strings` | `strings.dfy` | JavaScript `split`, `join`, `filter(Boolean)`, `indexOf`, `String(n)` and ASCII case mapping, over `seq<char>` |
| `RouteTree` | `route_tree.dfy` | route nodes as JavaScript values: objects are ordered association lists, and property assignment replaces an existing key in place or appends a new one |
| `RuntimePath` | `runtime_path.dfy` | `isGroupSegment` and `buildRoutePath` |
| `RuntimeBuilder` | `runtime_builder.dfy` | `stripParens`, `constructBuilderKey`, `createRouteBuilder` (a loop method) and the body of the parameter functions it creates |
| `RuntimeCalls` | `runtime_calls.dfy` | using a builder: reading properties and calling functions until a string comes out |
| `TypeUtil` | `type_util.dfy` | the type-level string functions `CamelCase`, `RemoveChar` and `StripParentheses` |
| `RouteTypes` | `route_types.dfy` | the types `GetParamType`, `RouteBuilder` and `RouteBuilderObject`, as a shape classification compared with the runtime |
| `Scanner` | `scanner.dfy` | `hasRouteFile`, `extractDynamicRouteSlug`, `formatParamName` and `scanDirectory` (a loop method) over an abstract directory value |
| `Config` | `config.dfy` | `computeDefaultBasePrefix`, `mergeConfig` and the per-entry defaulting inside `loadConfig` |
| `Pipeline` | `pipeline.dfy` | what happens when a scanned tree reaches the runtime unchanged |

Some design choices:
- The builder's output is defunctionalised:
  - `PathThunk(path, prefix)` is `() => buildRoutePath(path, prefix)`;
  - `ParamFn(node, currentPath, prefix)` is the one-argument function of a parameter child;
  - `Nested(fields)` is a nested builder object.

  `CallThunk`, `CallParam` and `InvokeParamFn` say what calling them returns.
- The two loops of the source stay loops:
  - `createRouteBuilder` is `RuntimeBuilder.CreateRouteBuilder`;
  - `scanDirectory` is `Scanner.ScanDir`.

  Each loop is proved equal to a left fold over the entries (`BuilderPrefix`, `ScanPrefix`). The properties are proved about the fold.
- lodash's `camelCase` is a function parameter `camel` with no assumed properties.
- Statements that compare the runtime with the types hold under a stated hypothesis: that `camel` agrees with the type-level `CamelCase` on the strings concerned.

Several behaviours of the source follow from the code as written and are
proved as such:
- **Metadata key names.** The scanner writes `$route` and `$param`, but the runtime recognises only `$$route` and `$$param`. The generator that presumably translates one into the other is not part of this model. `Pipeline.ScannedLeafIsEmptyObject` and `Pipeline.ScannedParamLeaf` show that a scanned leaf given to the runtime unchanged becomes an empty nested object, not a function. `Pipeline.MarkedLeafIsThunk` shows the behaviour with the runtime's own key.
- **Parameter leaf without a route.** For a parameter node that has no children and no route, the type gives a function returning an (empty) object. The runtime's function returns a path string. See `RouteTypes.ParamLeafWithoutRoute`.
- **Non-string parameter names.** A `$$param` whose value is not a string still makes a parameter function at run time. The type does not match it as one. See `RouteTypes.NonStringParam`.
- **A `[route]` folder.** Such a folder is keyed `$route`, so it replaces the scanner's route flag with an object. See `Scanner.RouteFolderHidesFlag`.
- **A `$param` key.** `childNode.$param = …` overwrites any child of a dynamic folder that is itself keyed `$param`. See `Scanner.DynamicChild`.
- **No pruning.** A folder with no route and no sub-folders is still attached, as an empty object (`Scanner.ScanKeepsEveryFolder`). The builder turns it into an empty nested object (`RuntimeBuilder.NestedChild`).
- **Route groups.** For a name not starting with `$`, `(group)` and `group` map to the same builder key (`RuntimeBuilder.GroupAndPlainKeysCollide`). The later sibling wins (`RuntimeBuilder.BuilderLastWins`).
- **Explicit `undefined` in a configuration entry.** Per-entry defaulting spreads the entry over the defaults unfiltered, so an explicit `undefined` field replaces the default (`Config.NormalizeOverrides`). `mergeConfig`, by contrast, drops `undefined` options (`Config.MergeConfigLookup`). `??` replaces only `undefined` and `null`, so an empty `basePrefix` string is kept (`Config.NormalizeKeepsPrefix`).
- **`computeDefaultBasePrefix` on a non-string `input`.** It throws, so the whole `loadConfig` falls back to the defaults. This is modelled as `Result`, and `Config.LoadConfigSpec` states the fallback.

## Model

| member | source | states |
|---|---|---|
| `Strings.JoinSplit` | src/config.ts:33 | joining the pieces of `split(c)` with `c` gives back the original string |
| `Strings.SplitAround` | src/config.ts:33 | splitting `a + c + b` at `c` gives the pieces of `a` followed by the pieces of `b` |
| `Strings.SplitPiecesLackSeparator` | src/config.ts:33 | no piece of a split contains the separator |
| `Strings.NonEmptyAppend` | src/runtime/runtime.ts:30 | `filter(Boolean)` distributes over concatenation |
| `Strings.NonEmpty` | src/runtime/runtime.ts:30 | `filter(Boolean)` keeps only non-empty strings taken from its input |
| `Strings.PartsAround` | src/runtime/runtime.ts:30 | the non-empty slash-separated words of `a + "/" + b` are those of `a` then those of `b` |
| `Strings.PartsOfWord` | src/runtime/runtime.ts:28 | a non-empty string without `/` is a single word |
| `Strings.IndexOfFinds` | src/config.ts:36 | `indexOf` finds the first occurrence, and the length exactly when there is none |
| `Strings.IntToString` | src/runtime/runtime.ts:28 | `String(n)` of an integer segment is non-empty and has no `/` |
| `RouteTree.LookupDefined` | src/runtime/runtime.ts:89 | `key in value` holds exactly when the key is among the object's keys |
| `RouteTree.PutLookup` | src/scanner.ts:89 | after assigning `k`, `k` reads the new value and every other key reads as before |
| `RouteTree.PutKeys` | src/scanner.ts:89 | assigning an existing key keeps the key order; a new key is appended last |
| `RouteTree.PutDistinct` | src/scanner.ts:85 | assignment keeps an object's keys distinct |
| `RouteTree.ChildKeys` | src/runtime/runtime.ts:92-93 | the child keys are exactly the object's keys that are not `$$param` or `$$route` |
| `RuntimePath.CollapseIsDoubleSlashFree` | src/runtime/runtime.ts:32 | the result of `replace(/\/+/g, "/")` holds no two adjacent slashes |
| `RuntimePath.CollapseFixedPoints` | src/runtime/runtime.ts:32 | collapsing leaves a string unchanged exactly when it holds no two adjacent slashes |
| `RuntimePath.CollapseKeepsWords` | src/runtime/runtime.ts:32 | collapsing slashes keeps the path's words |
| `RuntimePath.JoinedWords` | src/runtime/runtime.ts:26-29 | joining with `/` neither merges nor invents words: the words are each string's words in order |
| `RuntimePath.PrefixJoin` | src/runtime/runtime.ts:30 | an empty base prefix or empty path is omitted before the final join |
| `RuntimePath.KeptStringsAppend` | src/runtime/runtime.ts:26-28 | filtering out group segments and stringifying distributes over concatenation |
| `RuntimePath.BuildRoutePathWords` | src/runtime/runtime.ts:25-33 | the words of the path are the base prefix's words then the words of every non-group segment, in input order |
| `RuntimePath.BuildRoutePathReadBack` | src/runtime/runtime.ts:26-29 | when segments are single words, the path's words are the prefix's words followed by exactly the non-group segments |
| `RuntimePath.BuildRoutePathDoubleSlashFree` | src/runtime/runtime.ts:31-32 | a built path never holds two consecutive slashes |
| `RuntimePath.GroupSegmentIsInvisible` | src/runtime/runtime.ts:16-20 | inserting a group segment `(name)` anywhere leaves the path unchanged |
| `RuntimePath.BuildRoutePathRooted` | src/runtime/runtime.ts:30-32 | under a base prefix starting with `/` the path starts with `/` |
| `RuntimePath.EmptyPath` | src/runtime/runtime.ts:30 | `buildRoutePath([], "")` is `""` |
| `RuntimePath.PostIdExample` | test/generated/routes.test.ts:10 | `["posts", 123]` under `/api` gives `/api/posts/123` |
| `RuntimePath.GroupExample` | src/runtime/runtime.ts:27 | `["(internal)", "health"]` under `/api` gives `/api/health` |
| `RuntimeBuilder.StripParensRemovesParens` | src/runtime/runtime.ts:50 | `stripParens` leaves no `(` and no `)` |
| `RuntimeBuilder.StripParensKeeps` | src/runtime/runtime.ts:50 | `stripParens` is the identity on strings without parentheses |
| `RuntimeBuilder.BuilderKeyShape` | src/runtime/runtime.ts:60-65 | the builder key is `$` for a dynamic key (none otherwise) followed by `camelCase` of the key without its `$` and parentheses |
| `RuntimeBuilder.BuilderKeyKeepsSigil` | src/runtime/runtime.ts:61-64 | the builder key starts with `$` exactly when the raw key does |
| `RuntimeBuilder.BuilderKeySeesNoParens` | src/runtime/runtime.ts:62-63 | `camelCase` is given the key with no parentheses left |
| `RuntimeBuilder.GroupAndPlainKeysCollide` | src/runtime/runtime.ts:63 | for a name not starting with `$`, `(name)` and `name` get the same builder key |
| `RuntimeBuilder.CreateRouteBuilder` | src/runtime/runtime.ts:70-132 | the loop builds the object `Builder` describes: one assignment per eligible child, in entry order |
| `RuntimeBuilder.InvokeParamFn` | src/runtime/runtime.ts:97-116 | calling a parameter function returns the nested builder on the parameter path when the node has children, and the path string otherwise |
| `RuntimeBuilder.EligibleKeysSpec` | src/runtime/runtime.ts:77-85 | a builder key is produced exactly by the children that are neither metadata keys nor non-objects |
| `RuntimeBuilder.BuilderKeys` | src/runtime/runtime.ts:75-129 | the builder's keys are the eligible children's builder keys in first-occurrence order, without repeats |
| `RuntimeBuilder.BuilderHasKey` | src/runtime/runtime.ts:79-85 | the builder has key `k` exactly when some eligible child's builder key is `k` |
| `RuntimeBuilder.BuilderLastWins` | src/runtime/runtime.ts:127 | when several children share a builder key, the last one's property is kept |
| `RuntimeBuilder.BuilderLookup` | src/runtime/runtime.ts:85-128 | every property is the one made for an eligible child with that builder key |
| `RuntimeBuilder.RouteAccessorLookup` | src/runtime/runtime.ts:123-126 | `$` is added exactly when the node is a route; every other key is unchanged |
| `RuntimeBuilder.ParamReplacesKey` | src/runtime/runtime.ts:95-116 | a `$$param` child becomes a one-argument function whose path replaces the key by the argument; with children it returns the nested builder (with `$` when a route), without children the path string |
| `RuntimeBuilder.BuilderLeafRoute` | src/runtime/runtime.ts:117-119 | in the builder, under the key of the last route child without children or `$$param`, sits a zero-argument function returning `buildRoutePath(basePath ++ [key])` |
| `RuntimeBuilder.NestedChild` | src/runtime/runtime.ts:120-127 | any other child is a nested builder on `basePath ++ [key]`, with a `$` accessor exactly when it is a route |
| `RuntimeCalls.BuilderOfOne` | src/runtime/runtime.ts:77-128 | a structure with one eligible child gives a builder with one property, under its builder key |
| `RuntimeCalls.FieldsSound` | src/runtime/runtime.ts:70-132 | any string obtained from a builder object on `path` is the path of `path` followed by a chain of children ending where a path ends |
| `RuntimeCalls.BuilderPathsAreRoutePaths` | src/runtime/runtime.ts:70-132 | every string a builder can produce is `buildRoutePath` of a chain of the structure's children, where a parameter child contributes the argument and any other child its key |
| `RuntimeCalls.PostsPath` | test/generated/routes.test.ts:10 | the group `(collections)` is dropped: `/api/posts/123` |
| `TypeUtil.CamelCaseIdentity` | src/runtime/types/util.ts:2-4 | a string without `-` is unchanged |
| `TypeUtil.CamelCaseAtHyphen` | src/runtime/types/util.ts:2-3 | the template literal splits at the first `-`: for `A-B` with no `-` in `A`, the result is `A` lower-cased followed by `CamelCase<B>` capitalised |
| `TypeUtil.CamelCaseHasNoHyphen` | src/runtime/types/util.ts:1-4 | the result holds no `-` |
| `TypeUtil.CamelCaseDropsOnlyHyphens` | src/runtime/types/util.ts:2-3 | up to letter case, the result is the input with every `-` removed |
| `TypeUtil.CamelCaseExample` | src/runtime/types/util.ts:1 | `user-id` becomes `userId` |
| `TypeUtil.RemoveCharKeepsOrder` | src/runtime/types/util.ts:9-12 | `RemoveChar<S, C>` is `S` with every `C` removed and the other characters in order |
| `TypeUtil.RemoveCharRemovesAll` | src/runtime/types/util.ts:12 | the result holds no `C` |
| `TypeUtil.RemoveCharAbsent` | src/runtime/types/util.ts:12 | `RemoveChar` is the identity when `C` does not occur |
| `TypeUtil.StripParenthesesRemovesParens` | src/runtime/types/util.ts:15 | `StripParentheses<S>` holds no `(` and no `)` |
| `RouteTypes.GetParamType` | src/runtime/types/route.ts:18 | the parameter type is the mapped type exactly when the name is a key of the map, `string` otherwise |
| `RouteTypes.ShapeNever` | src/runtime/types/route.ts:33-35 | a value is typed `never` exactly when it is not an object |
| `RouteTypes.TypeFieldsHave` | src/runtime/types/route.ts:37-39 | every non-metadata key appears, renamed to `CamelCase<StripParentheses<K>>`, with its value's shape |
| `RouteTypes.TypeFieldsFrom` | src/runtime/types/route.ts:37-39 | every field of the object type comes from a non-metadata key |
| `RouteTypes.NoChildFields` | src/runtime/types/route.ts:15 | a node with no children has an object type with no fields |
| `RouteTypes.KindAgreement` | src/runtime/types/route.ts:21-35 | the runtime makes a zero-argument function, a parameter function or a nested object exactly when the type says so, with `$` exactly when the type has it |
| `RouteTypes.ParamResultAgreement` | src/runtime/types/route.ts:21-27 | for a parameter node with children or a route, calling the function returns an object or a string exactly as the type says, and the parameter type is `GetParamType` |
| `RouteTypes.ParamLeafWithoutRoute` | src/runtime/types/route.ts:28 | a parameter node without children or route is typed to return an empty object, while the runtime returns the path string |
| `RouteTypes.NonStringParam` | src/runtime/types/route.ts:21 | a non-string `$$param` makes a parameter function at run time but not in the type |
| `RouteTypes.StripParenthesesIsStripParens` | src/runtime/types/util.ts:15 | the type-level `StripParentheses` equals the runtime's `stripParens` |
| `RouteTypes.TypeKeyMatchesBuilderKey` | src/runtime/types/route.ts:38 | where `camelCase` agrees with `CamelCase`, the builder key is the type's renamed key |
| `RouteTypes.BuilderKeysAreTypeKeys` | src/runtime/types/route.ts:37-39 | where `camelCase` agrees with `CamelCase`, the builder's keys are exactly the object type's non-`never` field names |
| `Scanner.AnyPresentSpec` | src/scanner.ts:25 | `some` holds exactly when one of the candidate names is present |
| `Scanner.HasRouteFileSpec` | src/scanner.ts:15-26 | a directory has a route file exactly when a route or page file name with one of the extensions is present |
| `Scanner.ExtractBracketed` | src/scanner.ts:31-34 | `[s]`, for a non-empty single-line `s`, gives `s` |
| `Scanner.ExtractShape` | src/scanner.ts:32-33 | a slug is only extracted from `[` + a non-empty single-line string + `]` |
| `Scanner.EmptyBrackets` | src/scanner.ts:32 | `[]` is not a dynamic segment |
| `Scanner.KebabToCamelNoPair` | src/scanner.ts:42 | no `-` followed by a lower-case ASCII letter is left |
| `Scanner.KebabToCamelIdentity` | src/scanner.ts:42 | a name without such a pair is unchanged |
| `Scanner.KebabToCamelShrinks` | src/scanner.ts:42 | a name with such a pair gets shorter |
| `Scanner.KebabToCamelStep` | src/scanner.ts:42 | the first `-` before a lower-case letter becomes that letter upper-cased, the text before it is kept and the rest is converted on its own |
| `Scanner.FormatParamNameExample` | src/scanner.ts:38 | `user-id` becomes `$userId` |
| `Scanner.ParamKeyIsDynamic` | src/scanner.ts:43 | a formatted parameter name starts with `$` |
| `Scanner.ScanDir` | src/scanner.ts:49-94 | the loop builds the node `ScanTree` describes: the route flag, then one assignment per qualifying folder, in entry order |
| `Scanner.ScanDirectory` | src/scanner.ts:52-54 | a missing directory is the error `Directory does not exist: <path>`; an existing one is scanned |
| `Scanner.QualifiedKeysSpec` | src/scanner.ts:66-90 | a child key is produced exactly by the folders that are not hidden, `node_modules` or private |
| `Scanner.ScanKeys` | src/scanner.ts:57-91 | the node's keys are `$route` (when flagged) then the qualifying folders' keys in first-occurrence order, without repeats |
| `Scanner.ScanKeepsEveryFolder` | src/scanner.ts:64-91 | every qualifying folder is attached, empty or not |
| `Scanner.ScanKeysFromFolders` | src/scanner.ts:64-91 | every key is the route flag or the key of a qualifying folder |
| `Scanner.ScanLastWins` | src/scanner.ts:85 | when two folders share a key, the later one's value is kept |
| `Scanner.ScanRouteFlag` | src/scanner.ts:57-59 | when no folder takes the key, `$route` is `true` exactly when a route file exists, and absent otherwise |
| `Scanner.RouteFolderKey` | src/scanner.ts:82 | a `[route]` folder is keyed `$route` |
| `Scanner.RouteFolderHidesFlag` | src/scanner.ts:82-85 | a `[route]` folder replaces the route flag with an object |
| `Scanner.DynamicChild` | src/scanner.ts:80-85 | a `[slug]` folder is keyed `formatParamName(slug)`; its `$param` is the raw slug and its other keys come from its own scan |
| `Scanner.ScanStaticFolder` | src/scanner.ts:86-89 | in a directory's scan, a static folder (last with its name) sits under its exact name and holds exactly its own scan, with no `$param` added |
| `Scanner.IgnoredFolderContentsDoNotMatter` | src/scanner.ts:66-76 | the contents of a skipped folder never affect the scan |
| `Config.KeepParts` | src/config.ts:33 | the kept parts are non-empty, not `.`, and taken from the input |
| `Config.KeepPartsSingle` | src/config.ts:33 | a single part is kept exactly when it is neither empty nor `.` |
| `Config.KeepPartsAppend` | src/config.ts:33 | filtering distributes over concatenation, so the kept parts are exactly the qualifying ones, in order |
| `Config.InputPartsAreWords` | src/config.ts:33 | the input parts are non-empty and hold no `/` |
| `Config.BasePrefixRooted` | src/config.ts:32-44 | the default base prefix begins with `/` |
| `Config.BasePrefixWithoutApp` | src/config.ts:35-44 | without an `app` part the default base prefix is `/` |
| `Config.BasePrefixWords` | src/config.ts:35-39 | the default base prefix's words are exactly the parts after the first `app` |
| `Config.BasePrefixSlashes` | src/config.ts:37-43 | the default base prefix has no doubled `/` and no trailing `/` unless it is `/` itself |
| `Config.BasePrefixExample` | src/config.ts:26 | `./app/api` gives `/api` |
| `Config.DefinedFields` | src/config.ts:76 | the filtered options hold no `undefined` value |
| `Config.DefinedFieldsLookup` | src/config.ts:76 | an `undefined` option reads as absent; every other option is kept |
| `Config.SpreadLookup` | src/config.ts:74-77 | after a spread a field reads as in the spread fields when they have it, and as in the base otherwise |
| `Config.MergeConfigLookup` | src/config.ts:73-77 | a defined option replaces the base value; an `undefined` or absent one leaves it |
| `Config.WithoutKeyLookup` | src/config.ts:56 | destructuring out `basePrefix` removes that key and keeps every other |
| `Config.NormalizeFails` | src/config.ts:56-60 | normalising an entry fails exactly when its `basePrefix` is nullish and its `input` is not a string |
| `Config.NormalizeKeepsPrefix` | src/config.ts:58 | a `basePrefix` that is not `undefined` or `null` is kept as given |
| `Config.NormalizeComputesPrefix` | src/config.ts:58 | a nullish `basePrefix` is computed from the entry's own `input` |
| `Config.NormalizeOverrides` | src/config.ts:57-59 | every field the entry provides overrides the default; any other field is the default |
| `Config.NormalizeAllSpec` | src/config.ts:56-60 | normalising a list succeeds exactly when every entry does, and then gives each entry's normalisation in order |
| `Config.LoadConfigSpec` | src/config.ts:49-68 | the normalised entries when a configuration was loaded and every entry normalises; otherwise the default configuration alone |
| `Pipeline.ScannedRouteLeaf` | src/scanner.ts:57-59 | a directory with a route file and no qualifying folder scans to `{ $route: true }` |
| `Pipeline.ScannedLeafIsEmptyObject` | src/runtime/runtime.ts:88 | the runtime reads `{ $route: true }` as a non-route with one child, so it becomes an empty nested object |
| `Pipeline.MarkedLeafIsThunk` | src/runtime/runtime.ts:117-119 | with `$$route` the same leaf becomes a zero-argument path function |
| `Pipeline.ScannedParamLeaf` | src/scanner.ts:84 | a scanned `[slug]` leaf carries `$param`, which the runtime does not see as a parameter |

## Left out

- `camelCase` from lodash (src/runtime/runtime.ts:5) is a parameter `camel`. Its word-splitting rules are not visible, and they differ from the type-level `CamelCase`.
- Filesystem access is replaced by a `Dir` value:
  - `existsSync` becomes `Option<Dir>`, or a name in `Names(d)`;
  - a path that names a file passes `existsSync` (src/scanner.ts:52) and then `readdir` rejects with `ENOTDIR`; `Option<Dir>` cannot express this case, so it is not modelled;
  - `readdir` becomes `Dir.entries` in order;
  - `join` and `resolve` are not modelled.
- The `Promise.all` fan-out and async/await are left out; the model computes the same values sequentially.
- The scanner's `basePath` argument is only passed along and never read, so it is not modelled.
- The route and page file names and the extensions live in a constants module that is not part of this model. They are the `Markers` parameter.
- `generateRouteStructure` (src/scanner.ts:99-102) only resolves a path and calls `scanDirectory`.
- Loading through cosmiconfig, `console.warn` and the `try`/`catch` in `loadConfig` are I/O. The result of the search is the `loaded` parameter: `None` when nothing was found or loading threw. `ensureArray` is not part of this model, so a single configuration is a one-element sequence.
- The default input directory and output file are parameters of `DefaultConfig`; they come from the unseen constants module.
- Field values other than strings, booleans, `undefined` and `null` are one opaque `COther`.
- JavaScript orders integer-like keys first in `Object.entries`. The model keeps plain insertion order.
- Numeric path segments are integers. Floating-point formatting by `String(n)` is not modelled.
- Route values are objects, booleans, strings and numbers. `null`, functions and arrays are not modelled:
  - a `null` child passes the `typeof value !== "object"` guard (src/runtime/runtime.ts:81) and then throws a `TypeError` at `value.$$route` (src/runtime/runtime.ts:88);
  - a function child is skipped by that guard;
  - an array child is walked with its indices as keys.
- The generator that turns `$route`/`$param` into `$$route`/`$$param` is not part of this model. Only the mismatch is shown, in `Pipeline`.
- Key collisions in the route types are not merged. A TypeScript mapped type that renames keys with `as` merges colliding keys into one property whose type is the union of theirs. `RouteTypes.TypeFields` instead keeps one field per non-metadata key, repeats included.
- The navigations in test/generated/routes.test.ts (`ROUTES.collections.posts.$postId(123)`) are not modelled. Only their paths are, in `RuntimeCalls.PostsPath` and `RuntimePath.PostIdExample`.
- RuntimeBuilder.BuilderKeyKeepsSigil: for a static key only, requires that `camel` not itself produce a leading `$`, because the behaviour of lodash's `camelCase` is not modelled. Dynamic keys need no condition.
- TypeUtil.CamelCase: TypeScript's `Lowercase` and `Capitalize` map all of Unicode; the model's `LowerString` and `Capitalize` map ASCII letters only.
- TypeUtil.RemoveChar: the source's `C` may be any string; the model removes one character. The source only ever passes `(` and `)` (src/runtime/types/util.ts:15).
- RuntimeBuilder.BuilderKeySeesNoParens: states only that `camelCase` is given a string without parentheses. Its output is unconstrained, because `camel` is a parameter.
- RouteTypes.TypeKeyMatchesBuilderKey: holds only where `camel` agrees with the type-level `CamelCase`. lodash lowercases differently, so the two can disagree in the source.
- RouteTypes.BuilderKeysAreTypeKeys: assumes `camel` equals `CamelCase` everywhere, for the same reason.
- RuntimeCalls.BuilderPathsAreRoutePaths: proves soundness only. Every string the builder produces is a route path, but the converse (every chain of children is reachable through the builder) is not proved.
- Scanner.ScanRouteFlag: requires that no folder is keyed `$route`; the other case is `Scanner.RouteFolderHidesFlag`.
