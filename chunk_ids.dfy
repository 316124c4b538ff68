/**
 The webpack plugin that gives chunks stable identifiers (class `ChunkIds` of
 packages/webiny-scripts/lib/spa/plugins/ChunkIds.js).

 Once per compilation, at the `before-chunk-ids` hook, it walks the chunk list
 and, for each chunk that has no entry module and whose `id` is still `null`:
 - in a production build sets `id` to the first 10 hex digits of the MD5 of
   the chunk's project-relative module paths, one per line;
 - otherwise sets `id` to `"chunk-" + position` and `name` to a readable name
   taken from the chunk's filename template or, failing that, from a script of
   the chunk: the lowest-index script outside `node_modules`, else the
   lowest-index script of any kind, else the text `"undefined"`.
 */
module ChunkIdsPlugin {
  import opened Wrappers
  import opened JsStrings
  import opened JsArrays

  /** A webpack module: a `NormalModule` backed by a file, or any other kind (context, external, ...). */
  datatype Module =
    | NormalModule(resource: string, index: int)
    | OtherModule(maybeResource: Option<string>, index: int)
  {
    /** `module.resource`, missing when the module has none. */
    function Resource(): Option<string> {
      match this
      case NormalModule(r, _) => Some(r)
      case OtherModule(r, _) => r
    }
  }

  /** `chunk.id`: webpack leaves it `null` until some plugin assigns it; it may also be a number or a string. */
  datatype ChunkId = NullId | UndefinedId | NumId(n: int) | StrId(s: string)

  /** `path.sep` of the platform the build runs on. */
  datatype PathSep = Posix | Windows

  function SepChar(sep: PathSep): char {
    match sep
    case Posix => '/'
    case Windows => '\\'
  }

  /** The plugin's options; `projectRoot` may be missing. */
  datatype Options = Options(projectRoot: Option<string>)

  predicate IsLowerHexDigit(ch: char) {
    ('0' as int <= ch as int <= '9' as int) || ('a' as int <= ch as int <= 'f' as int)
  }

  predicate IsLowerHex(s: string) {
    forall i :: 0 <= i < |s| ==> IsLowerHexDigit(s[i])
  }

  /** What `createHash("md5").update(text).digest("hex")` returns: 32 lowercase hex digits. */
  type Md5Digest = s: string | |s| == 32 && IsLowerHex(s)
    witness "00000000000000000000000000000000"

  /**
   What the handler takes from its surroundings rather than from its
   arguments: whether `process.env.NODE_ENV` is `"production"`, the
   platform's `path.sep`, and Node's MD5 as a hex string.
   */
  datatype Env = Env(production: bool, sep: PathSep, md5: string -> Md5Digest)

  /** `this.options.projectRoot + path.sep`: a missing root is concatenated as the text "undefined". */
  function RootPrefix(options: Options, sep: PathSep): (r: string)
    ensures |r| >= 1 && r[|r| - 1] == SepChar(sep)
    ensures options.projectRoot.Some? ==> r[..|r| - 1] == options.projectRoot.value
    ensures options.projectRoot.None? ==> r == "undefined" + [SepChar(sep)]
  {
    options.projectRoot.GetOr("undefined") + [SepChar(sep)]
  }

  // ---------------------------------------------------------------- getRelativeModulePath

  /**
   `getRelativeModulePath`: "" for a missing module or a missing or empty
   resource; the resource itself when `prefix` does not occur in it; otherwise
   what follows an occurrence of `prefix`, and no further `prefix` inside it.
   */
  function GetRelativeModulePath(m: Option<Module>, prefix: string): (r: string)
    requires prefix != []
    ensures m.None? || m.value.Resource().None? || m.value.Resource() == Some("") ==> r == ""
    ensures m.Some? && m.value.Resource().Some? && !Includes(m.value.Resource().value, prefix) ==>
      r == m.value.Resource().value
    ensures m.Some? && m.value.Resource().Some? && Includes(m.value.Resource().value, prefix) ==>
      !Includes(r, prefix) &&
      exists k :: OccursAt(m.value.Resource().value, prefix, k) && r == m.value.Resource().value[k + |prefix|..]
  {
    if m.None? then ""
    else match m.value.Resource()
      case None => ""
      case Some(res) =>
        if res == "" then
          assert !Includes(res, prefix);
          ""
        else SplitPop(res, prefix)
  }

  // ---------------------------------------------------------------- sortByIndex, filterJsModules

  /** `sortByIndex`: the comparator that orders modules by their compilation-wide `index`. */
  function SortByIndex(a: Module, b: Module): (r: int)
    ensures r < 0 <==> a.index < b.index
    ensures r == 0 <==> a.index == b.index
    ensures r > 0 <==> a.index > b.index
  {
    a.index - b.index
  }

  function ModuleIndex(m: Module): int {
    m.index
  }

  lemma SortByIndexOrdersByIndex()
    ensures ComparesBy(SortByIndex, ModuleIndex)
  {
  }

  /**
   `filterJsModules`: a normal module whose resource ends in `.js` or `.jsx`.
   Every accepted resource holds a `.js` somewhere.
   */
  predicate FilterJsModules(m: Module): (b: bool)
    ensures b <==> m.NormalModule? && (EndsWith(m.resource, ".js") || EndsWith(m.resource, ".jsx"))
    ensures b ==> Includes(m.resource, ".js")
  {
    if m.NormalModule? && EndsWith(m.resource, ".js") then
      assert OccursAt(m.resource, ".js", |m.resource| - 3);
      true
    else if m.NormalModule? && EndsWith(m.resource, ".jsx") then
      assert m.resource[|m.resource| - 4..|m.resource| - 1] == ".js";
      assert OccursAt(m.resource, ".js", |m.resource| - 4);
      true
    else false
  }

  /**
   `!m.resource.includes("node_modules")`. It is only applied to modules that
   passed `FilterJsModules`, which are all normal modules.
   */
  predicate OutsideNodeModules(m: Module): (b: bool)
    ensures b && m.NormalModule? ==> forall k :: !OccursAt(m.resource, "node_modules", k)
  {
    m.NormalModule? ==> !Includes(m.resource, "node_modules")
  }

  // ---------------------------------------------------------------- generateChunkName

  /** The result of `generateChunkName`; `unique` is left unset (falsy) on the module-derived path. */
  datatype ChunkName = ChunkName(name: string, unique: bool)

  /** `if (chunk.filenameTemplate)`: present and not the empty string. */
  predicate HasTemplate(filenameTemplate: Option<string>): (b: bool)
    ensures !b <==> filenameTemplate.None? || filenameTemplate == Some("")
  {
    filenameTemplate.Some? && filenameTemplate.value != ""
  }

  /**
   The resource `generateChunkName` derives the name from: the first script
   outside `node_modules` after sorting the scripts by index, else the first
   script, else the text "undefined".
   */
  function NameSource(modules: seq<Module>): (r: string)
    ensures (forall m :: m in modules ==> !FilterJsModules(m)) ==> r == "undefined"
    ensures (exists m :: m in modules && FilterJsModules(m)) ==>
      exists m :: m in modules && FilterJsModules(m) && r == m.resource
  {
    var chunkModules := StableSort(Filter(modules, FilterJsModules), SortByIndex);
    var filteredModules := Filter(chunkModules, OutsideNodeModules);
    if |filteredModules| > 0 then
      assert filteredModules[0] in multiset(chunkModules);
      filteredModules[0].resource
    else if |chunkModules| > 0 then
      assert chunkModules[0] in multiset(chunkModules);
      chunkModules[0].resource
    else "undefined"
  }

  /** `.replace(/\.jsx?/, "")`: removes the leftmost `.js`, together with an `x` right after it. */
  function RemoveScriptExtension(s: string): (r: string)
    ensures !Includes(s, ".js") ==> r == s
    ensures Includes(s, ".js") ==>
      exists k :: FirstOccurrence(s, ".js", k) &&
        r == s[..k] + (if k + 3 < |s| && s[k + 3] == 'x' then s[k + 4..] else s[k + 3..])
    ensures forall ch :: ch in r ==> ch in s
  {
    match IndexOf(s, ".js")
    case None => s
    case Some(k) =>
      assert FirstOccurrence(s, ".js", k);
      var n := if k + 3 < |s| && s[k + 3] == 'x' then 4 else 3;
      assert forall ch :: ch in s[..k] || ch in s[k + n..] ==> ch in s;
      s[..k] + s[k + n..]
  }

  /** `s` with every `/` and every `\` turned into `_`, position by position. */
  function Underscored(s: string): (r: string)
    ensures |r| == |s| && '/' !in r && '\\' !in r
  {
    seq(|s|, i requires 0 <= i < |s| => if s[i] == '/' || s[i] == '\\' then '_' else s[i])
  }

  /** `.replace(/\//g, "_").replace(/\\/g, "_")` is `Underscored`. */
  lemma ReplaceSeparators(s: string)
    ensures ReplaceAll(ReplaceAll(s, '/', '_'), '\\', '_') == Underscored(s)
  {
  }

  lemma UnderscoredOccurrence(s: string, k: int)
    ensures OccursAt(Underscored(s), ".js", k) ==> OccursAt(s, ".js", k)
  {
    var u := Underscored(s);
    if OccursAt(u, ".js", k) {
      assert u[k..k + 3][0] == u[k] && u[k..k + 3][1] == u[k + 1] && u[k..k + 3][2] == u[k + 2];
      assert s[k..k + 3] == [s[k], s[k + 1], s[k + 2]];
    }
  }

  /** Turning separators into `_` creates no `.js`: one in the result was already in the input. */
  lemma UnderscoredKeepsNoScript(s: string)
    ensures Includes(Underscored(s), ".js") ==> Includes(s, ".js")
  {
    var u := Underscored(s);
    if Includes(u, ".js") {
      var k :| OccursAt(u, ".js", k);
      UnderscoredOccurrence(s, k);
    }
  }

  /** The pattern `<sep>index.js` of line 74. */
  function IndexScript(sep: PathSep): (r: string)
    ensures |r| == 9 && r[0] == SepChar(sep) && r[1..] == "index.js"
  {
    [SepChar(sep)] + "index.js"
  }

  /**
   Lines 73-77 of `generateChunkName`: drop the first `<sep>index.js`, turn
   every `/` and every `\` into `_`, drop the first `.js`/`.jsx`. No separator
   of either platform is left, and a path holding neither `<sep>index.js` nor
   `.js` only has its separators turned into `_`.
   */
  function RewritePath(relative: string, sep: PathSep): (r: string)
    ensures '/' !in r && '\\' !in r
    ensures !Includes(relative, IndexScript(sep)) && !Includes(relative, ".js") ==> r == Underscored(relative)
  {
    var noIndex := ReplaceFirst(relative, IndexScript(sep), "");
    var noSlash := ReplaceAll(noIndex, '/', '_');
    var noBackslash := ReplaceAll(noSlash, '\\', '_');
    ReplaceSeparators(noIndex);
    UnderscoredKeepsNoScript(noIndex);
    RemoveScriptExtension(noBackslash)
  }

  /**
   `.split("_").slice(-3).join("_")`: the text after the third-to-last `_`
   (all of it when there are fewer). It is a suffix of `s` and has at most
   three `_`-separated segments, the last three of `s`.
   */
  function LastSegments(s: string): (r: string)
    ensures EndsWith(s, r)
    ensures Split(r, '_') == SliceFromEnd(Split(s, '_'), 3)
    ensures |Split(r, '_')| <= 3
  {
    var pieces := Split(s, '_');
    var last := SliceFromEnd(pieces, 3);
    JoinLastPieces(pieces, |pieces| - |last|, '_');
    Join(last, '_')
  }

  /**
   `generateChunkName`. With a filename template: the template minus its first
   `.js`, marked unique. Otherwise a name built from `NameSource`, not marked
   unique, that holds no path separator and at most three `_`-segments, and is
   a suffix of the rewritten project-relative path.
   */
  function GenerateChunkName(filenameTemplate: Option<string>, modules: seq<Module>, prefix: string, sep: PathSep): (r: ChunkName)
    requires prefix != []
    ensures HasTemplate(filenameTemplate) ==>
      r.unique && r.name == ReplaceFirst(filenameTemplate.value, ".js", "")
    ensures !HasTemplate(filenameTemplate) ==>
      && !r.unique
      && '/' !in r.name && '\\' !in r.name
      && |Split(r.name, '_')| <= 3
      && EndsWith(RewritePath(SplitPop(NameSource(modules), prefix), sep), r.name)
      && Split(r.name, '_') == SliceFromEnd(Split(RewritePath(SplitPop(NameSource(modules), prefix), sep), '_'), 3)
  {
    if HasTemplate(filenameTemplate) then
      ChunkName(ReplaceFirst(filenameTemplate.value, ".js", ""), true)
    else
      var rewritten := RewritePath(SplitPop(NameSource(modules), prefix), sep);
      var name := LastSegments(rewritten);
      SuffixChars(rewritten, name);
      ChunkName(name, false)
  }

  // ---------------------------------------------------------------- createChunkIdHash

  /** The project-relative paths of a chunk's modules, in the chunk's iteration order (`mapModules`). */
  function RelativePaths(modules: seq<Module>, prefix: string): (r: seq<string>)
    requires prefix != []
    ensures |r| == |modules|
    ensures forall i :: 0 <= i < |modules| ==> r[i] == GetRelativeModulePath(Some(modules[i]), prefix)
  {
    seq(|modules|, i requires 0 <= i < |modules| => GetRelativeModulePath(Some(modules[i]), prefix))
  }

  /** A JavaScript number, as far as a subtraction of two property reads can produce one. */
  datatype JsNumber = Num(value: int) | NaN

  /** `x.index` read from a path string: strings have no `index` property, so it is `undefined`. */
  function PathIndexProperty(path: string): Option<int> {
    None
  }

  /** `a - b` on two property values: `NaN` as soon as either is `undefined`. */
  function Subtract(a: Option<int>, b: Option<int>): JsNumber {
    if a.Some? && b.Some? then Num(a.value - b.value) else NaN
  }

  /** How `Array.prototype.sort` reads a comparator's result: `NaN` counts as 0. */
  function SortComparison(n: JsNumber): int {
    match n
    case Num(v) => v
    case NaN => 0
  }

  /** The comparator `(a, b) => a.index - b.index` of `createChunkIdHash`, applied to path strings. */
  function PathIndexOrder(a: string, b: string): (r: int)
    ensures r == 0
  {
    SortComparison(Subtract(PathIndexProperty(a), PathIndexProperty(b)))
  }

  /**
   The text `createChunkIdHash` hashes: the relative paths, "sorted" as written,
   joined with newlines. The comparator never moves anything, so the paths come
   in the chunk's iteration order, whatever the modules' indices.
   */
  function HashInput(modules: seq<Module>, prefix: string): (r: string)
    requires prefix != []
    ensures r == Join(RelativePaths(modules, prefix), '\n')
  {
    StableSortAllEqual(RelativePaths(modules, prefix), PathIndexOrder);
    Join(StableSort(RelativePaths(modules, prefix), PathIndexOrder), '\n')
  }

  /** `createChunkIdHash`: the first 10 of the 32 hex digits of the digest of `HashInput`. */
  function CreateChunkIdHash(modules: seq<Module>, prefix: string, md5: string -> Md5Digest): (r: string)
    requires prefix != []
    ensures |r| == 10 && IsLowerHex(r)
    ensures r <= md5(HashInput(modules, prefix))
  {
    md5(HashInput(modules, prefix))[..10]
  }

  // ---------------------------------------------------------------- the before-chunk-ids handler

  /** The part of a webpack chunk the plugin reads or writes, as a value. */
  datatype ChunkState = ChunkState(
    id: ChunkId,
    name: Option<string>,
    filenameTemplate: Option<string>,
    hasEntryModule: bool,
    modules: seq<Module>)

  /** `!chunk.hasEntryModule() && chunk.id === null`. */
  predicate Eligible(c: ChunkState): (b: bool)
    ensures c.hasEntryModule ==> !b
    ensures c.id.UndefinedId? || c.id.NumId? || c.id.StrId? ==> !b
    ensures !c.hasEntryModule && c.id.NullId? ==> b
  {
    !c.hasEntryModule && c.id == NullId
  }

  /** What the handler does to the chunk at position `index` of the list. */
  function AssignChunk(c: ChunkState, index: nat, options: Options, env: Env): (r: ChunkState)
    ensures r.filenameTemplate == c.filenameTemplate && r.hasEntryModule == c.hasEntryModule && r.modules == c.modules
    ensures !Eligible(c) ==> r == c
    ensures Eligible(c) ==> r.id.StrId? && !Eligible(r)
    ensures Eligible(c) && env.production ==> r.name == c.name && |r.id.s| == 10 && IsLowerHex(r.id.s)
    ensures Eligible(c) && !env.production ==> r.id == StrId("chunk-" + NatToString(index)) && r.name.Some?
  {
    if !Eligible(c) then c
    else
      var prefix := RootPrefix(options, env.sep);
      if env.production then
        c.(id := StrId(CreateChunkIdHash(c.modules, prefix, env.md5)))
      else
        var data := GenerateChunkName(c.filenameTemplate, c.modules, prefix, env.sep);
        c.(id := StrId("chunk-" + NatToString(index)),
           name := Some(if data.unique then data.name else data.name + "-" + NatToString(index)))
  }

  /** The whole pass over the chunk list: each chunk is handled with its own position. */
  function RunPass(chunks: seq<ChunkState>, options: Options, env: Env): (r: seq<ChunkState>)
    ensures |r| == |chunks|
    ensures forall i :: 0 <= i < |chunks| ==> r[i] == AssignChunk(chunks[i], i, options, env)
  {
    seq(|chunks|, i requires 0 <= i < |chunks| => AssignChunk(chunks[i], i, options, env))
  }

  /** A chunk object as webpack hands it to the handler: `id` and `name` are written in place. */
  class Chunk {
    var id: ChunkId
    var name: Option<string>
    const filenameTemplate: Option<string>
    const hasEntryModule: bool
    const modules: seq<Module>

    constructor (id: ChunkId, name: Option<string>, filenameTemplate: Option<string>, hasEntryModule: bool, modules: seq<Module>)
      ensures State() == ChunkState(id, name, filenameTemplate, hasEntryModule, modules)
    {
      this.id := id;
      this.name := name;
      this.filenameTemplate := filenameTemplate;
      this.hasEntryModule := hasEntryModule;
      this.modules := modules;
    }

    function State(): ChunkState
      reads this
    {
      ChunkState(id, name, filenameTemplate, hasEntryModule, modules)
    }
  }

  /** The states of a list of chunk objects. */
  function States(chunks: seq<Chunk>): (r: seq<ChunkState>)
    reads set c | c in chunks
    ensures |r| == |chunks|
    ensures forall i :: 0 <= i < |chunks| ==> r[i] == chunks[i].State()
  {
    seq(|chunks|, i reads set c | c in chunks requires 0 <= i < |chunks| => chunks[i].State())
  }

  /** The plugin object. */
  class ChunkIds {
    const options: Options

    /** `this.options = options || {}`. */
    constructor (options: Option<Options>)
      ensures this.options == options.GetOr(Options(None))
    {
      this.options := options.GetOr(Options(None));
    }

    /**
     The `before-chunk-ids` handler: visits the chunks in order and writes
     `id` (and, outside production, `name`) on each eligible one. The chunk
     list holds each chunk object once.
     */
    method BeforeChunkIds(chunks: seq<Chunk>, env: Env)
      requires forall i, j :: 0 <= i < j < |chunks| ==> chunks[i] != chunks[j]
      modifies set c | c in chunks
      ensures States(chunks) == RunPass(old(States(chunks)), options, env)
    {
      ghost var initial := States(chunks);
      for index := 0 to |chunks|
        invariant forall k :: 0 <= k < index ==> chunks[k].State() == AssignChunk(initial[k], k, options, env)
        invariant forall k :: index <= k < |chunks| ==> chunks[k].State() == initial[k]
      {
        ghost var atHead := States(chunks);
        var chunk := chunks[index];
        if !chunk.hasEntryModule && chunk.id == NullId {
          var prefix := RootPrefix(options, env.sep);
          if env.production {
            chunk.id := StrId(CreateChunkIdHash(chunk.modules, prefix, env.md5));
          } else {
            chunk.id := StrId("chunk-" + NatToString(index));
            var chunkData := GenerateChunkName(chunk.filenameTemplate, chunk.modules, prefix, env.sep);
            chunk.name := Some(if chunkData.unique then chunkData.name else chunkData.name + "-" + NatToString(index));
          }
        }
        assert chunk.State() == AssignChunk(initial[index], index, options, env);
        assert forall k :: 0 <= k < |chunks| && k != index ==> chunks[k].State() == atHead[k];
      }
    }
  }
}
