/**
 * The source handler for `.ts` files: `endsWith`, `compile` and `handler`.
 * The TypeScript compiler is foreign: what its `check` calls answered, the
 * diagnostics it attached and the code it generated are inputs, and so is
 * the source map, already parsed into a `SourceMap` object.
 */
module Plugin {
  import opened Wrappers
  import opened StripExports
  import opened Diagnostics
  import opened SourceMaps

  /** `endsWith(str, ends)`; `None` stands for `null`. */
  function EndsWith(str: Option<string>, ends: string): (r: bool)
    ensures r ==> str.Some? && |ends| <= |str.value|
    ensures r ==> str.value == str.value[..|str.value| - |ends|] + ends
  {
    match str
    case None => false
    case Some(s) => |s| >= |ends| && s[|s| - |ends|..] == ends
  }

  /** Every string ending in `ends` is recognised, and `null` never is. */
  lemma EndsWithComplete(prefix: string, ends: string)
    ensures EndsWith(Some(prefix + ends), ends)
    ensures !EndsWith(None, ends)
  {
    var s := prefix + ends;
    assert s[|s| - |ends|..] == ends;
  }

  /** The part of the build step the handler uses: the input path, its declared exports and the text `read()` returns. */
  datatype CompileStep = CompileStep(inputPath: string, declaredExports: seq<string>, sourceText: string)

  /**
   * What the compiler reported: whether `check` accepted the resolved files
   * and their diagnostics, whether it accepted the compiled unit and its
   * diagnostics, and the unit's generated code.
   */
  datatype CompilerRun = CompilerRun(
    resolvedOk: bool, resolvedDiagnostics: seq<seq<string>>,
    compiledOk: bool, compiledDiagnostics: seq<seq<string>>,
    content: string)

  /** The record handed to `addJavaScript`. */
  datatype JavaScriptFile = JavaScriptFile(path: string, sourcePath: string, data: string, sourceMap: SourceMap)

  /**
   * What `compile` does: a failed check raises the diagnostics report;
   * empty generated code adds nothing; otherwise the code has its map
   * comment neutralised and its exported names stripped, the map embeds the
   * source and carries the placeholder names, and the file is added as
   * `<input>.js` with the input as its source path. The map is left alone
   * whenever no file is added.
   */
  twostate predicate CompileOutcome(step: CompileStep, run: CompilerRun, sourceMap: SourceMap,
                                    new r: Result<Option<JavaScriptFile>, string>)
    reads sourceMap
  {
    if !run.resolvedOk then
      r == Err(Report(run.resolvedDiagnostics)) && unchanged(sourceMap)
    else if !run.compiledOk then
      r == Err(Report(run.compiledDiagnostics)) && unchanged(sourceMap)
    else if run.content == "" then
      r == Ok(None) && unchanged(sourceMap)
    else
      && r == Ok(Some(JavaScriptFile(step.inputPath + ".js", step.inputPath,
                                     Stripped(NeutraliseMapUrl(run.content), step.declaredExports),
                                     sourceMap)))
      && sourceMap.sourcesContent == [step.sourceText]
      && sourceMap.names == old(sourceMap.names) + DummyNames(|old(sourceMap.names)|)
      && sourceMap.version == old(sourceMap.version) && sourceMap.file == old(sourceMap.file)
      && sourceMap.sourceRoot == old(sourceMap.sourceRoot) && sourceMap.sources == old(sourceMap.sources)
      && sourceMap.mappings == old(sourceMap.mappings)
  }

  /** `compile`, from the moment the compiler has answered. */
  method Compile(step: CompileStep, run: CompilerRun, sourceMap: SourceMap)
    returns (r: Result<Option<JavaScriptFile>, string>)
    modifies sourceMap`names, sourceMap`sourcesContent
    ensures CompileOutcome(step, run, sourceMap, r)
  {
    if !run.resolvedOk {
      var err := GetDiagnostics(run.resolvedDiagnostics);
      return Err(err);
    }
    if !run.compiledOk {
      var err := GetDiagnostics(run.compiledDiagnostics);
      return Err(err);
    }
    var sourceJS := run.content;
    if |sourceJS| == 0 {
      return Ok(None);
    }
    sourceJS := NeutraliseMapUrl(sourceJS);
    var strippedJS := StripExportedVars(sourceJS, step.declaredExports);
    var filename := step.inputPath;
    Reconcile(sourceMap, step.sourceText);
    r := Ok(Some(JavaScriptFile(filename + ".js", filename, strippedJS, sourceMap)));
  }

  /** `handler`: declaration files (`.d.ts`) are skipped, everything else is compiled. */
  method Handle(step: CompileStep, run: CompilerRun, sourceMap: SourceMap)
    returns (r: Result<Option<JavaScriptFile>, string>)
    modifies sourceMap`names, sourceMap`sourcesContent
    ensures EndsWith(Some(step.inputPath), ".d.ts") ==> r == Ok(None) && unchanged(sourceMap)
    ensures !EndsWith(Some(step.inputPath), ".d.ts") ==> CompileOutcome(step, run, sourceMap, r)
  {
    if EndsWith(Some(step.inputPath), ".d.ts") {
      return Ok(None);
    }
    r := Compile(step, run, sourceMap);
  }

  /**
   * The emitted code has the width of the generated code and its newlines in
   * the same places, so every position of the compiler's source map still
   * points at the same line and column.
   */
  lemma EmittedKeepsLayout(content: string, exports: seq<string>)
    ensures var data := Stripped(NeutraliseMapUrl(content), exports);
      |data| == |content| && forall k :: 0 <= k < |data| ==> (data[k] == '\n' <==> content[k] == '\n')
  {
    NeutraliseKeepsLayout(content);
    StrippedKeepsLayout(NeutraliseMapUrl(content), exports);
  }
}
