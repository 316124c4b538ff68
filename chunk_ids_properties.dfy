/**
 What the chunk-id pass guarantees, stated over the pure model in
 `ChunkIdsPlugin` and proved from it.
 */
module ChunkIdsProperties {
  import opened Wrappers
  import opened JsStrings
  import opened JsArrays
  import opened ChunkIdsPlugin

  // ---------------------------------------------------------------- which resource names a chunk

  /**
   The name source, against a definition that does not sort: the lowest-index
   script outside `node_modules` (the first of them in the chunk's order when
   several share that index); failing that the lowest-index script; failing
   that "undefined". A script is a normal module ending in `.js` or `.jsx`.
   */
  lemma NameSourceChoice(modules: seq<Module>)
    ensures var scripts := Filter(modules, FilterJsModules);
            var own := Filter(scripts, OutsideNodeModules);
            && (forall m :: m in scripts <==>
                  (m in modules && m.NormalModule? && (EndsWith(m.resource, ".js") || EndsWith(m.resource, ".jsx"))))
            && NameSource(modules) ==
                 if |own| > 0 then own[FirstMinimalIndex(own, ModuleIndex)].resource
                 else if |scripts| > 0 then scripts[FirstMinimalIndex(scripts, ModuleIndex)].resource
                 else "undefined"
  {
    var scripts := Filter(modules, FilterJsModules);
    var own := Filter(scripts, OutsideNodeModules);
    SortByIndexOrdersByIndex();
    FilterStableSort(scripts, SortByIndex, ModuleIndex, OutsideNodeModules);
    if |own| > 0 {
      StableSortHead(own, SortByIndex, ModuleIndex);
    } else if |scripts| > 0 {
      StableSortHead(scripts, SortByIndex, ModuleIndex);
    }
  }

  // ---------------------------------------------------------------- rewriting the relative path

  /** A pattern whose first character does not occur in `s` does not occur in `s`. */
  lemma MissingFirstChar(s: string, pat: string)
    requires |pat| > 0 && pat[0] !in s
    ensures !Includes(s, pat)
  {
    forall k | 0 <= k && k + |pat| <= |s| ensures s[k..k + |pat|][0] == s[k] {
    }
  }

  /** In `u + ext`, where `u` has separators turned into `_` and no `.js`, the first `.js` is the extension's. */
  lemma ExtensionIsFirstScript(p: string, ext: string)
    requires ext == ".js" || ext == ".jsx"
    requires !Includes(p, ".js")
    ensures FirstOccurrence(Underscored(p) + ext, ".js", |p|)
  {
    var u := Underscored(p) + ext;
    forall j | 0 <= j < |p| ensures !OccursAt(u, ".js", j) {
      if j + 3 <= |p| {
        assert u[j..j + 3] == Underscored(p)[j..j + 3];
        UnderscoredOccurrence(p, j);
      } else {
        assert u[j..j + 3][|p| - j] == '.';
      }
    }
    assert u[|p|..|p| + 3] == ".js";
  }

  /** Removing the first `.js`/`.jsx` from `u + ext` leaves `u`. */
  lemma RemoveExtension(p: string, ext: string)
    requires ext == ".js" || ext == ".jsx"
    requires !Includes(p, ".js")
    ensures RemoveScriptExtension(Underscored(p) + ext) == Underscored(p)
  {
    var u := Underscored(p) + ext;
    ExtensionIsFirstScript(p, ext);
    assert u[..|p|] == Underscored(p);
  }

  /**
   A path ending in `.js` or `.jsx`, with no `<sep>index.js` and no other
   `.js`: the extension goes and every separator becomes `_`.
   */
  lemma RewriteScriptPath(p: string, ext: string, sep: PathSep)
    requires ext == ".js" || ext == ".jsx"
    requires !Includes(p + ext, IndexScript(sep))
    requires !Includes(p, ".js")
    ensures RewritePath(p + ext, sep) == Underscored(p)
  {
    var s := p + ext;
    ReplaceSeparators(s);
    UnderscoredExtension(p, ext);
    RemoveExtension(p, ext);
  }

  lemma UnderscoredExtension(p: string, ext: string)
    requires ext == ".js" || ext == ".jsx"
    ensures Underscored(p + ext) == Underscored(p) + ext
  {
  }

  /**
   A path whose first `<sep>index.js` follows `p`: that text goes (together
   with nothing else, so a following `x` stays), and when no `.js` is left the
   separators become `_`.
   */
  lemma RewriteIndexPath(p: string, rest: string, sep: PathSep)
    requires forall k :: 0 <= k < |p| ==> !OccursAt(p + IndexScript(sep) + rest, IndexScript(sep), k)
    requires !Includes(p + rest, ".js")
    ensures RewritePath(p + IndexScript(sep) + rest, sep) == Underscored(p + rest)
  {
    var s := p + IndexScript(sep) + rest;
    assert s[|p|..|p| + 9] == IndexScript(sep);
    assert FirstOccurrence(s, IndexScript(sep), |p|);
    assert s[..|p|] + "" + s[|p| + 9..] == p + rest;
    ReplaceSeparators(p + rest);
    UnderscoredKeepsNoScript(p + rest);
  }

  /** `src/foo.js` on a POSIX system is named after `src_foo`. */
  lemma RewriteScriptExample()
    ensures RewritePath("src/foo.js", Posix) == "src_foo"
  {
    var p := "src/foo";
    assert p + ".js" == "src/foo.js";
    ScriptExampleHasNoIndex(p + ".js");
    MissingFirstChar(p, ".js");
    ScriptExampleUnderscored(p);
    RewriteScriptPath(p, ".js", Posix);
  }

  lemma ScriptExampleHasNoIndex(s: string)
    requires s == "src/foo.js"
    ensures !Includes(s, IndexScript(Posix))
  {
    forall k: nat | k + 9 <= |s| ensures !OccursAt(s, IndexScript(Posix), k) {
      assert s[k..k + 9][0] == s[k];
    }
  }

  lemma ScriptExampleUnderscored(p: string)
    requires p == "src/foo"
    ensures Underscored(p) == "src_foo"
  {
    var u := Underscored(p);
    assert u[3] == '_';
    assert forall i :: 0 <= i < |p| && i != 3 ==> u[i] == p[i];
  }

  /**
   `src/index.jsx` on a POSIX system is named after `srcx`: the first
   `/index.js` is removed, leaving the `x` of the extension behind.
   */
  lemma RewriteIndexExample()
    ensures RewritePath("src/index.jsx", Posix) == "srcx"
  {
    IndexExampleSplits("src", "x", "src/index.jsx");
    MissingFirstChar("src" + "x", ".js");
    RewriteIndexPath("src", "x", Posix);
    IndexExampleUnderscored("src" + "x");
  }

  lemma IndexExampleSplits(p: string, rest: string, s: string)
    requires p == "src" && rest == "x" && s == "src/index.jsx"
    ensures p + IndexScript(Posix) + rest == s
    ensures forall k :: 0 <= k < |p| ==> !OccursAt(s, IndexScript(Posix), k)
  {
    forall k | 0 <= k < |p| ensures !OccursAt(s, IndexScript(Posix), k) {
      assert s[k] != '/';
      assert s[k..k + 9][0] == s[k];
    }
  }

  lemma IndexExampleUnderscored(s: string)
    requires s == "srcx"
    ensures Underscored(s) == s
  {
  }

  /**
   When the root occurs twice with overlapping separators, the left-to-right
   split keeps the text after the first cut, not after the later occurrence:
   `/app/app/x.js` with root `/app` gives `app/x.js`, although `/app/` occurs
   again at position 4.
   */
  lemma RelativePathOverlappingRoot()
    ensures GetRelativeModulePath(Some(NormalModule("/app/app/x.js", 0)), "/app/") == "app/x.js"
    ensures OccursAt("/app/app/x.js", "/app/", 4)
  {
    var s := "/app/app/x.js";
    OverlapExampleSplitPop(s);
    OverlapExampleLaterRoot(s);
  }

  lemma OverlapExampleLaterRoot(s: string)
    requires s == "/app/app/x.js"
    ensures OccursAt(s, "/app/", 4)
  {
    assert s[4..9] == "/app/";
  }

  lemma OverlapExampleSplitPop(s: string)
    requires s == "/app/app/x.js"
    ensures SplitPop(s, "/app/") == "app/x.js"
  {
    assert s[..5] == "/app/";
    assert IndexOf(s, "/app/") == Some(0);
    OverlapExampleRest(s[5..]);
  }

  lemma OverlapExampleRest(rest: string)
    requires rest == "app/x.js"
    ensures !Includes(rest, "/app/")
  {
    forall k: nat | k + 5 <= |rest| ensures !OccursAt(rest, "/app/", k) {
      assert rest[k..k + 5][0] == rest[k] && rest[k..k + 5][1] == rest[k + 1];
    }
  }

  // ---------------------------------------------------------------- the production id

  /**
   The hashed text stands for exactly one sequence of relative paths: two
   non-empty chunks whose paths hold no newline hash the same text if and only
   if they have the same paths in the same order.
   */
  lemma HashInputDeterminesPaths(ms1: seq<Module>, ms2: seq<Module>, prefix: string)
    requires prefix != [] && |ms1| > 0 && |ms2| > 0
    requires forall i :: 0 <= i < |ms1| ==> '\n' !in GetRelativeModulePath(Some(ms1[i]), prefix)
    requires forall i :: 0 <= i < |ms2| ==> '\n' !in GetRelativeModulePath(Some(ms2[i]), prefix)
    ensures HashInput(ms1, prefix) == HashInput(ms2, prefix) <==>
            RelativePaths(ms1, prefix) == RelativePaths(ms2, prefix)
  {
    if HashInput(ms1, prefix) == HashInput(ms2, prefix) {
      SplitJoin(RelativePaths(ms1, prefix), '\n');
      SplitJoin(RelativePaths(ms2, prefix), '\n');
    }
  }

  /**
   Production: an eligible chunk keeps its name and gets 10 lowercase hex
   digits, the start of the digest of its hashed text, as its id.
   */
  lemma ProductionAssignment(c: ChunkState, index: nat, options: Options, env: Env)
    requires Eligible(c) && env.production
    ensures var r := AssignChunk(c, index, options, env);
            && r.name == c.name
            && r.id.StrId? && |r.id.s| == 10 && IsLowerHex(r.id.s)
            && r.id.s == env.md5(HashInput(c.modules, RootPrefix(options, env.sep)))[..10]
  {
  }

  /**
   Production: the id depends on nothing but the relative module paths (no
   file contents, no position, no index): two eligible chunks with the same
   paths get the same id.
   */
  lemma ProductionIdDependsOnlyOnPaths(c1: ChunkState, i1: nat, c2: ChunkState, i2: nat, options: Options, env: Env)
    requires Eligible(c1) && Eligible(c2) && env.production
    requires RelativePaths(c1.modules, RootPrefix(options, env.sep)) == RelativePaths(c2.modules, RootPrefix(options, env.sep))
    ensures AssignChunk(c1, i1, options, env).id == AssignChunk(c2, i2, options, env).id
  {
  }

  // ---------------------------------------------------------------- development ids and names

  /** Development: the eligible chunks of one pass get pairwise distinct ids. */
  lemma DevelopmentIdsDistinct(chunks: seq<ChunkState>, options: Options, env: Env, i: nat, j: nat)
    requires !env.production && i < |chunks| && j < |chunks| && i != j
    requires Eligible(chunks[i]) && Eligible(chunks[j])
    ensures RunPass(chunks, options, env)[i].id != RunPass(chunks, options, env)[j].id
  {
    var after := RunPass(chunks, options, env);
    if after[i].id == after[j].id {
      var a, b := "chunk-" + NatToString(i), "chunk-" + NatToString(j);
      assert a[6..] == NatToString(i) && b[6..] == NatToString(j);
      NatToStringInjective(i, j);
    }
  }

  /** The characters after the last `-` of `s` (all of `s` when it has none). */
  function AfterLastDash(s: string): string
    decreases |s|
  {
    if s == [] then []
    else if s[|s| - 1] == '-' then []
    else AfterLastDash(s[..|s| - 1]) + [s[|s| - 1]]
  }

  /** A name followed by `-` and a string of digits: the digits are what follows the last `-`. */
  lemma {:induction false} AfterLastDashDigits(name: string, digits: string)
    requires forall k :: 0 <= k < |digits| ==> IsDigit(digits[k])
    ensures AfterLastDash(name + "-" + digits) == digits
    decreases |digits|
  {
    var s := name + "-" + digits;
    if digits != [] {
      var shorter := digits[..|digits| - 1];
      assert s[..|s| - 1] == name + "-" + shorter;
      assert IsDigit(s[|s| - 1]);
      AfterLastDashDigits(name, shorter);
      assert shorter + [digits[|digits| - 1]] == digits;
    }
  }

  /** A name followed by `-` and a position gives the position back. */
  lemma SuffixedNamesDistinct(a: string, i: nat, b: string, j: nat)
    requires a + "-" + NatToString(i) == b + "-" + NatToString(j)
    ensures i == j
  {
    AfterLastDashDigits(a, NatToString(i));
    AfterLastDashDigits(b, NatToString(j));
    NatToStringInjective(i, j);
  }

  /**
   Development: eligible chunks without a filename template get pairwise
   distinct names in one pass, even when their derived names coincide.
   */
  lemma DevelopmentNamesDistinct(chunks: seq<ChunkState>, options: Options, env: Env, i: nat, j: nat)
    requires !env.production && i < |chunks| && j < |chunks| && i != j
    requires Eligible(chunks[i]) && Eligible(chunks[j])
    requires !HasTemplate(chunks[i].filenameTemplate) && !HasTemplate(chunks[j].filenameTemplate)
    ensures RunPass(chunks, options, env)[i].name != RunPass(chunks, options, env)[j].name
  {
    var prefix := RootPrefix(options, env.sep);
    var a := GenerateChunkName(chunks[i].filenameTemplate, chunks[i].modules, prefix, env.sep).name;
    var b := GenerateChunkName(chunks[j].filenameTemplate, chunks[j].modules, prefix, env.sep).name;
    if RunPass(chunks, options, env)[i].name == RunPass(chunks, options, env)[j].name {
      SuffixedNamesDistinct(a, i, b, j);
    }
  }

  /**
   Development: the id is `chunk-<position>` and a name is always written; a
   chunk with a filename template is named after the template minus its first
   `.js`.
   */
  lemma DevelopmentAssignment(c: ChunkState, index: nat, options: Options, env: Env)
    requires Eligible(c) && !env.production
    ensures var r := AssignChunk(c, index, options, env);
            && r.id == StrId("chunk-" + NatToString(index))
            && r.name.Some?
            && (HasTemplate(c.filenameTemplate) ==> r.name.value == ReplaceFirst(c.filenameTemplate.value, ".js", ""))
  {
  }

  /**
   Development: a chunk without a filename template is named
   `<candidate>-<position>`, where the candidate holds no `/` or `\`, and its
   `_`-separated segments are the last three (or all, when fewer) of the
   rewritten relative path of the chunk's name source.
   */
  lemma DevelopmentDerivedName(c: ChunkState, index: nat, options: Options, env: Env)
    requires Eligible(c) && !env.production && !HasTemplate(c.filenameTemplate)
    ensures AssignChunk(c, index, options, env).name.Some?
    ensures var n, suffix := AssignChunk(c, index, options, env).name.value, "-" + NatToString(index);
            && EndsWith(n, suffix)
            && var candidate := n[..|n| - |suffix|];
               && '/' !in candidate && '\\' !in candidate && |Split(candidate, '_')| <= 3
               && Split(candidate, '_') ==
                  SliceFromEnd(Split(RewritePath(SplitPop(NameSource(c.modules), RootPrefix(options, env.sep)), env.sep), '_'), 3)
  {
    var candidate := GenerateChunkName(c.filenameTemplate, c.modules, RootPrefix(options, env.sep), env.sep).name;
    var suffix := "-" + NatToString(index);
    DerivedNameIsSuffixed(c, index, options, env);
    Suffixed(candidate, suffix);
  }

  lemma DerivedNameIsSuffixed(c: ChunkState, index: nat, options: Options, env: Env)
    requires Eligible(c) && !env.production && !HasTemplate(c.filenameTemplate)
    ensures AssignChunk(c, index, options, env).name ==
      Some(GenerateChunkName(c.filenameTemplate, c.modules, RootPrefix(options, env.sep), env.sep).name + ("-" + NatToString(index)))
  {
    var data := GenerateChunkName(c.filenameTemplate, c.modules, RootPrefix(options, env.sep), env.sep);
    Reassociate(data.name, NatToString(index));
  }

  lemma Reassociate(a: string, b: string)
    ensures a + "-" + b == a + ("-" + b)
  {
  }

  lemma Suffixed(s: string, suffix: string)
    ensures EndsWith(s + suffix, suffix) && (s + suffix)[..|s|] == s
  {
  }

  // ---------------------------------------------------------------- the pass as a whole

  /**
   A chunk with an entry module, or whose id is not exactly `null`, leaves the
   pass untouched; no chunk changes anything but its id and name.
   */
  lemma PassSkipsIneligible(chunks: seq<ChunkState>, options: Options, env: Env, i: nat)
    requires i < |chunks|
    ensures var r := RunPass(chunks, options, env)[i];
            && (!Eligible(chunks[i]) ==> r == chunks[i])
            && r.filenameTemplate == chunks[i].filenameTemplate
            && r.hasEntryModule == chunks[i].hasEntryModule
            && r.modules == chunks[i].modules
  {
  }

  /** Ids are written at most once: running the pass again changes nothing. */
  lemma PassIdempotent(chunks: seq<ChunkState>, options: Options, env: Env)
    ensures RunPass(RunPass(chunks, options, env), options, env) == RunPass(chunks, options, env)
  {
    var once := RunPass(chunks, options, env);
    var twice := RunPass(once, options, env);
    forall i | 0 <= i < |chunks| ensures twice[i] == once[i] {
      assert !Eligible(once[i]);
    }
  }
}
