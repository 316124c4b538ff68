# Chunk ids for the webiny-scripts single-page-app build

This project is a Dafny model of the webpack plugin `ChunkIds` in
`packages/webiny-scripts/lib/spa/plugins/ChunkIds.js`. Each proof is checked
by the Dafny verifier.

The plugin runs once per compilation, at webpack's `before-chunk-ids` hook. It
walks the compilation's chunk list in order. It skips chunks that have an entry
module. It also skips chunks whose `id` is anything other than `null`. For
every other chunk:

- **Production build:** `id` becomes the first 10 hex digits of the MD5 of the
  chunk's project-relative module paths, one per line.
- **Any other build:** `id` becomes `"chunk-" + position`. `name` becomes a
  readable debug name. That name is either:
  - the chunk's filename template, minus its first `.js`; or
  - a name derived from a script of the chunk, followed by
    `"-" + position`. The script is the lowest-index one outside
    `node_modules`. Failing that, it is the lowest-index script of any kind.
    Failing that, the text `"undefined"` is used (`NameSourceChoice`).

Files:

- `wrappers.dfy`: `Option`.
- `js_strings.dfy` (module `JsStrings`): the JavaScript string operations the
  plugin uses, with their exact semantics. These are `indexOf`/`includes`,
  first-occurrence `replace`, global one-character `replace`, `split(..).pop()`,
  `split`/`join`, and number-to-string.
- `js_arrays.dfy` (module `JsArrays`): `filter`, the stable `sort` with a
  comparator, and `slice(-n)`.
- `chunk_ids.dfy` (module `ChunkIdsPlugin`):
  - the data model: `Module`, `ChunkId`, `ChunkState`, `Options` and `Env`;
  - the plugin's pure methods as functions;
  - `AssignChunk` and `RunPass`, which specify the handler;
  - the classes `Chunk` and `ChunkIds`. `ChunkIds.BeforeChunkIds` is the
    handler's loop, writing `id` and `name` in place.
- `chunk_ids_properties.dfy` (module `ChunkIdsProperties`): the guarantees of
  the pass, proved about the pure model.

The handler reads its environment from outside. The model passes these three
things in explicitly, in `Env`:

- the build mode (`process.env.NODE_ENV === "production"`), as `production`;
- the platform's `path.sep`, as `PathSep`;
- Node's MD5, as a function whose results are 32 lowercase hex digits
  (`Md5Digest`).

## Behaviour of the code worth knowing

The model reproduces what the code does, including these less obvious points:

- **Production hash order.** The comparator at line 102,
  `(a, b) => a.index - b.index`, is applied to path strings, which have no
  `index`. Every comparison is `NaN`, which the sort treats as 0. So the paths
  are hashed in the chunk's iteration order, not in module index order. See
  `PathIndexOrder` and `HashInput`.
- **Filename template.** Line 58 removes the first `.js` anywhere in the
  template, not only a trailing one. An empty template is falsy, so line 57
  falls through to the module-derived name (`HasTemplate`).
- **`index.js` and extension stripping.** Line 74 removes the first
  `<sep>index.js` anywhere in the path. Line 77 removes the first `.js` or
  `.jsx` anywhere. So `src/index.jsx` becomes `srcx` (`RewriteIndexExample`).
- **Relative path.** Line 116 splits the resource on `projectRoot + sep`,
  scanning left to right, and keeps the last piece. The root can match
  anywhere in the path, not only at its start (`RelativePathOverlappingRoot`).
- **Missing `projectRoot`.** Lines 71 and 116 concatenate `undefined + sep`.
  So without a root, paths are cut at the text `"undefined/"` (`RootPrefix`).
- **Eligibility.** Line 38 tests `chunk.id === null`. An `undefined`, numeric
  or string id is left alone (`Eligible`).

## Model

| member | source | states |
|---|---|---|
| `ChunkIdsPlugin.ChunkIds.constructor` | packages/webiny-scripts/lib/spa/plugins/ChunkIds.js:28-30 | The options are those given, or empty options (no project root) when none are given. |
| `ChunkIdsPlugin.ChunkIds.BeforeChunkIds` | packages/webiny-scripts/lib/spa/plugins/ChunkIds.js:36-51 | After the in-place loop over the chunk objects, every chunk's state is what `RunPass` gives for the old states. Chunk `i` is handled with position `i`. |
| `ChunkIdsPlugin.RunPass` | packages/webiny-scripts/lib/spa/plugins/ChunkIds.js:37-51 | The pass keeps the number of chunks. The chunk at position `i` becomes `AssignChunk` of that same chunk with position `i`, independent of every other chunk. |
| `ChunkIdsPlugin.Eligible` | packages/webiny-scripts/lib/spa/plugins/ChunkIds.js:38 | A chunk with an entry module is never handled. A chunk whose id is `undefined`, a number or a string is never handled. A chunk with no entry module and a `null` id is handled. |
| `ChunkIdsPlugin.AssignChunk` | packages/webiny-scripts/lib/spa/plugins/ChunkIds.js:38-49 | An ineligible chunk is returned unchanged. An eligible one gets a string id and becomes ineligible. Production keeps the name and gives a 10-character lowercase-hex id. Development gives id `chunk-<index>` and sets a name. Template, entry flag and modules never change. |
| `ChunkIdsProperties.PassSkipsIneligible` | packages/webiny-scripts/lib/spa/plugins/ChunkIds.js:37-38 | A chunk with an entry module, or whose id is not exactly `null`, leaves the pass with id and name unchanged. No chunk changes anything but id and name. |
| `ChunkIdsProperties.PassIdempotent` | packages/webiny-scripts/lib/spa/plugins/ChunkIds.js:38-49 | Running the pass a second time changes nothing, so an id is written at most once. |
| `ChunkIdsProperties.DevelopmentIdsDistinct` | packages/webiny-scripts/lib/spa/plugins/ChunkIds.js:37-43 | Outside production, two eligible chunks at different positions get different ids. |
| `ChunkIdsProperties.DevelopmentNamesDistinct` | packages/webiny-scripts/lib/spa/plugins/ChunkIds.js:45-48 | Outside production, two eligible chunks without a filename template get different names, even when their derived names are equal. |
| `ChunkIdsProperties.SuffixedNamesDistinct` | packages/webiny-scripts/lib/spa/plugins/ChunkIds.js:48 | `name + "-" + position` determines the position, whatever the name holds. |
| `ChunkIdsProperties.DevelopmentAssignment` | packages/webiny-scripts/lib/spa/plugins/ChunkIds.js:41-58 | Outside production the id is `chunk-<position>` and a name is always written. With a filename template, the name is the template minus its first `.js`, with no suffix. |
| `ChunkIdsProperties.DevelopmentDerivedName` | packages/webiny-scripts/lib/spa/plugins/ChunkIds.js:45-81 | Without a template, the name is `<candidate>-<position>`. The candidate has no `/` or `\`. Its `_`-segments are the last three (or all, when fewer) of the rewritten relative path of the name source. |
| `ChunkIdsProperties.ProductionAssignment` | packages/webiny-scripts/lib/spa/plugins/ChunkIds.js:39-40 | In production an eligible chunk keeps its name. Its id is the first 10 characters of the MD5 hex digest of its hashed text, so exactly 10 lowercase hex digits. |
| `ChunkIdsProperties.ProductionIdDependsOnlyOnPaths` | packages/webiny-scripts/lib/spa/plugins/ChunkIds.js:97-103 | Two eligible chunks with the same sequence of relative module paths get the same production id. Position, index and file contents play no part. |
| `ChunkIdsPlugin.CreateChunkIdHash` | packages/webiny-scripts/lib/spa/plugins/ChunkIds.js:97-109 | The result is 10 lowercase hex digits and a prefix of the MD5 digest of the hashed text. |
| `ChunkIdsPlugin.RelativePaths` | packages/webiny-scripts/lib/spa/plugins/ChunkIds.js:100-101 | `mapModules` keeps one path per module, in the chunk's order. Path `i` is the relative path of module `i`. |
| `ChunkIdsPlugin.PathIndexOrder` | packages/webiny-scripts/lib/spa/plugins/ChunkIds.js:102 | The comparator, applied to two path strings, always yields 0: both `index` reads are `undefined`, the difference is `NaN`, and the sort reads `NaN` as 0. |
| `ChunkIdsPlugin.HashInput` | packages/webiny-scripts/lib/spa/plugins/ChunkIds.js:100-103 | The hashed text is the relative paths in the chunk's iteration order, joined by newlines. The sort at line 102 never reorders them. |
| `ChunkIdsProperties.HashInputDeterminesPaths` | packages/webiny-scripts/lib/spa/plugins/ChunkIds.js:100-103 | Take two non-empty chunks whose paths contain no newline. They hash the same text if and only if their path sequences are equal. |
| `ChunkIdsPlugin.GetRelativeModulePath` | packages/webiny-scripts/lib/spa/plugins/ChunkIds.js:111-117 | Returns `""` for a missing module or a missing or empty resource. Returns the resource unchanged when `projectRoot + sep` does not occur in it. Otherwise returns the text after an occurrence of `projectRoot + sep`, which itself contains no such occurrence. |
| `ChunkIdsProperties.RelativePathOverlappingRoot` | packages/webiny-scripts/lib/spa/plugins/ChunkIds.js:116 | With root `/app`, the resource `/app/app/x.js` gives `app/x.js`. The text after the first cut is kept, although `/app/` occurs again at position 4. |
| `ChunkIdsPlugin.RootPrefix` | packages/webiny-scripts/lib/spa/plugins/ChunkIds.js:71 | The split separator ends with the platform separator. With a project root it is that root followed by the separator. Without one it is `undefined` followed by the separator. |
| `ChunkIdsPlugin.SortByIndex` | packages/webiny-scripts/lib/spa/plugins/ChunkIds.js:85-87 | The comparator's sign is the sign of the difference of the two module indices. |
| `ChunkIdsPlugin.FilterJsModules` | packages/webiny-scripts/lib/spa/plugins/ChunkIds.js:89-95 | A module is accepted exactly when it is a normal module whose resource ends in `.js` or `.jsx`. An accepted resource then contains `.js` somewhere. |
| `ChunkIdsPlugin.OutsideNodeModules` | packages/webiny-scripts/lib/spa/plugins/ChunkIds.js:64 | An accepted normal module has no occurrence of `node_modules` anywhere in its resource. |
| `ChunkIdsPlugin.HasTemplate` | packages/webiny-scripts/lib/spa/plugins/ChunkIds.js:57 | The template test fails exactly for a missing template and for the empty string. |
| `ChunkIdsPlugin.NameSource` | packages/webiny-scripts/lib/spa/plugins/ChunkIds.js:60-72 | With no scripts in the chunk, the name source is `"undefined"`. Otherwise it is the resource of one of the chunk's scripts. |
| `ChunkIdsProperties.NameSourceChoice` | packages/webiny-scripts/lib/spa/plugins/ChunkIds.js:60-72 | The accepted scripts are exactly the normal modules whose resource ends in `.js` or `.jsx`. The name comes from the lowest-index script outside `node_modules`; on ties, the first in chunk order. Failing that it comes from the lowest-index script, and failing that from `"undefined"`. This is stated against a definition that does not sort. |
| `ChunkIdsPlugin.GenerateChunkName` | packages/webiny-scripts/lib/spa/plugins/ChunkIds.js:56-83 | With a template: the template minus its first `.js`, marked unique. Otherwise: not unique, no `/` or `\`, and a suffix of the rewritten relative path of the name source whose `_`-segments are that path's last three (or all, when fewer). |
| `ChunkIdsPlugin.IndexScript` | packages/webiny-scripts/lib/spa/plugins/ChunkIds.js:74 | The pattern of line 74 is the platform separator followed by `index.js`. |
| `ChunkIdsPlugin.Underscored` | packages/webiny-scripts/lib/spa/plugins/ChunkIds.js:75-76 | Every `/` and `\` becomes `_`, position by position; nothing else changes. |
| `ChunkIdsPlugin.ReplaceSeparators` | packages/webiny-scripts/lib/spa/plugins/ChunkIds.js:75-76 | The two global replaces of lines 75-76 together are `Underscored`. |
| `ChunkIdsPlugin.RewritePath` | packages/webiny-scripts/lib/spa/plugins/ChunkIds.js:73-77 | No `/` or `\` is left. A path holding neither `<sep>index.js` nor `.js` only has its separators turned into `_`. |
| `ChunkIdsProperties.RewriteScriptPath` | packages/webiny-scripts/lib/spa/plugins/ChunkIds.js:73-77 | A path `p` + `.js` or `.jsx`, with no `<sep>index.js` and no `.js` in `p`, becomes `p` with its separators turned into `_`. |
| `ChunkIdsProperties.RewriteIndexPath` | packages/webiny-scripts/lib/spa/plugins/ChunkIds.js:73-77 | When the first `<sep>index.js` follows `p`, the path `p<sep>index.js` + `rest` becomes `p` + `rest` with its separators turned into `_`, as long as `p` + `rest` has no `.js`. |
| `ChunkIdsProperties.RewriteScriptExample` | packages/webiny-scripts/lib/spa/plugins/ChunkIds.js:73-77 | `src/foo.js` on POSIX becomes `src_foo`. |
| `ChunkIdsProperties.RewriteIndexExample` | packages/webiny-scripts/lib/spa/plugins/ChunkIds.js:73-77 | `src/index.jsx` on POSIX becomes `srcx`. |
| `ChunkIdsPlugin.RemoveScriptExtension` | packages/webiny-scripts/lib/spa/plugins/ChunkIds.js:77 | A path without `.js` is unchanged. Otherwise the leftmost `.js` is removed, together with an `x` right after it, and everything else is kept in order. |
| `ChunkIdsPlugin.LastSegments` | packages/webiny-scripts/lib/spa/plugins/ChunkIds.js:78-81 | The result is a suffix of the input. Its `_`-segments are the input's last three segments, or all of them when there are fewer. |
| `JsStrings.SplitPop` | packages/webiny-scripts/lib/spa/plugins/ChunkIds.js:116 | `split(d).pop()` returns the whole string when `d` does not occur. Otherwise it returns the text after an occurrence of `d`. The result never contains `d`. |
| `JsStrings.SplitPopAfterLast` | packages/webiny-scripts/lib/spa/plugins/ChunkIds.js:116 | When no two occurrences of `d` overlap, `split(d).pop()` is the text after the last occurrence. |
| `JsStrings.IndexOf` | packages/webiny-scripts/lib/spa/plugins/ChunkIds.js:74 | Finds the leftmost occurrence of the pattern, or reports that there is none. |
| `JsStrings.ReplaceFirst` | packages/webiny-scripts/lib/spa/plugins/ChunkIds.js:58 | String-pattern `replace` leaves a string without the pattern unchanged. Otherwise it replaces the leftmost occurrence and keeps the text before and after it. |
| `JsStrings.ReplaceAll` | packages/webiny-scripts/lib/spa/plugins/ChunkIds.js:75-76 | Global one-character `replace` turns each occurrence of the character into the replacement and keeps every other character in its position. |
| `JsStrings.Split` | packages/webiny-scripts/lib/spa/plugins/ChunkIds.js:79 | `split("_")` gives at least one piece. No piece contains `_`, and joining the pieces with `_` restores the string. |
| `JsStrings.Join` | packages/webiny-scripts/lib/spa/plugins/ChunkIds.js:81 | Joining adds no character but the separator and those of the pieces. With two or more pieces the separator appears. |
| `JsStrings.SplitJoin` | packages/webiny-scripts/lib/spa/plugins/ChunkIds.js:79-81 | Joining pieces that contain no separator, then splitting, gives back the pieces. |
| `JsStrings.JoinSuffix` | packages/webiny-scripts/lib/spa/plugins/ChunkIds.js:80-81 | Joining the last pieces of a list gives a suffix of joining all of them. |
| `JsStrings.NatToString` | packages/webiny-scripts/lib/spa/plugins/ChunkIds.js:43-48 | The rendering of a position is one or more decimal digits. Its first digit is `0` exactly for position 0, and then the rendering is that one digit, so there are no leading zeros. With `ParseNatToString`, this fixes the rendering. |
| `JsStrings.Includes` | packages/webiny-scripts/lib/spa/plugins/ChunkIds.js:64 | `includes` holds exactly when the pattern occurs at some position of the string. |
| `JsStrings.EndsWith` | packages/webiny-scripts/lib/spa/plugins/ChunkIds.js:90 | `endsWith` holds exactly when the string is some prefix followed by the suffix. |
| `JsStrings.NatToStringInjective` | packages/webiny-scripts/lib/spa/plugins/ChunkIds.js:43 | Distinct positions render as distinct decimal strings. |
| `JsStrings.ParseNatToString` | packages/webiny-scripts/lib/spa/plugins/ChunkIds.js:43 | Reading back the decimal rendering of a position gives the position. |
| `JsArrays.Filter` | packages/webiny-scripts/lib/spa/plugins/ChunkIds.js:62 | `filter` keeps exactly the elements that satisfy the predicate. |
| `JsArrays.FilterAppend` | packages/webiny-scripts/lib/spa/plugins/ChunkIds.js:62-64 | `filter` keeps the order: filtering a concatenation concatenates the filtered parts. |
| `JsArrays.FilterSingleton` | packages/webiny-scripts/lib/spa/plugins/ChunkIds.js:62-64 | `filter` keeps a single element exactly when it satisfies the predicate. |
| `JsArrays.StableSort` | packages/webiny-scripts/lib/spa/plugins/ChunkIds.js:63 | `sort` returns a permutation of its input. |
| `JsArrays.StableSortSorted` | packages/webiny-scripts/lib/spa/plugins/ChunkIds.js:63 | With a comparator that orders by a key, the sort result is in key order. |
| `JsArrays.StableSortHead` | packages/webiny-scripts/lib/spa/plugins/ChunkIds.js:63-69 | With a key comparator, the first element after sorting is the leftmost element of least key. |
| `JsArrays.FilterStableSort` | packages/webiny-scripts/lib/spa/plugins/ChunkIds.js:62-64 | Filtering after the stable sort equals sorting after the filter. |
| `JsArrays.StableSortAllEqual` | packages/webiny-scripts/lib/spa/plugins/ChunkIds.js:102 | A comparator that calls every pair equal leaves the order unchanged. |
| `JsArrays.FirstMinimalIndex` | packages/webiny-scripts/lib/spa/plugins/ChunkIds.js:63-69 | The reference definition of "first after sorting by index": an element of least key with no earlier element of the same key. |
| `JsArrays.SliceFromEnd` | packages/webiny-scripts/lib/spa/plugins/ChunkIds.js:80 | `slice(-n)` returns the last `n` elements, or all of them when there are fewer. |

## Left out

- `JsStrings.SplitPop`: when occurrences of the separator overlap, the contract does not say which one the left-to-right split ends on. For `/app/app/x.js` and `/app/` it admits both `app/x.js`, which the code gives, and `x.js`. `SplitPopAfterLast` pins the result when occurrences do not overlap, and `RelativePathOverlappingRoot` gives the code's result for that example.
- `ChunkIdsPlugin.GetRelativeModulePath`: the same gap as `JsStrings.SplitPop`, for a project root whose occurrences in a resource overlap.
- `JsArrays.StableSort`: `sort` is modelled as the stable sort that ECMAScript requires since its 2019 edition (Node 11 and later). Older engines sorted arrays of more than 10 elements unstably and could move elements whose comparison is 0 or `NaN`. Under such an engine, `ChunkIdsPlugin.HashInput` (iteration order of the hashed paths) and `ChunkIdsProperties.NameSourceChoice` (ties broken by chunk order) do not hold for chunks with more than 10 modules.
- Hook registration is not modelled. That covers `compiler.plugin("compilation", ...)`, `compilation.plugin("before-chunk-ids", ...)` and storing `this.compiler` (lines 32-36). The handler is the method `BeforeChunkIds`, called with the chunk list directly.
- The MD5 computation (Node `crypto`, lines 104-107) is not modelled. It is a parameter with the one fact the plugin relies on: 32 lowercase hex digits. How the text is encoded before hashing is part of that parameter.
- `process.env.NODE_ENV` and `path.sep` are explicit inputs (`Env.production`, `PathSep`), not process or platform state.
- `instanceof NormalModule` is replaced by the `Module` constructor tag. lodash `_.get` is replaced by indexing with the same defaults. A normal module always has a string resource, so the default applies only to an empty list.
- The Babel interop boilerplate (lines 1-25) is not modelled.
- `ChunkIdsPlugin.ChunkIds.BeforeChunkIds`: requires the chunk objects in the list to be pairwise distinct. The model does not cover one chunk object appearing twice in the same list.
- Module indices are unbounded integers, and positions are unbounded naturals. A webpack module whose `index` is `null` is not modelled.
- A module that is not a normal module never reaches the `node_modules` test, because the script filter runs first. `OutsideNodeModules` therefore says nothing about such modules.
- packages/webiny-app-forms/src/admin/components/FormEditor/Tabs/EditTab/EditFieldDialog.js is not part of this model. It is React view code with no state the plugin touches.
