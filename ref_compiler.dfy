/** `compileSpec` of bin/refc.js: choose the pipeline by the base file's
    extension and run it over the base directory followed by the given
    reference directories. */
module RefCompiler {
  import opened Results
  import opened Text
  import opened Fragments
  import opened YamlSplicer
  import opened JsonInjector

  /** What the run leaves for the bundler. */
  datatype Output =
    | YamlText(text: string)     // the spliced YAML document
    | JsonTree(tree: JsonValue)  // the injected JSON document, before `JSON.stringify`
    | NoOutput                   // unknown extension: only a message is logged

  /** No name ends in both `.yaml` and `.json`. */
  lemma ExtensionsExclusive(name: string)
    ensures !(HasExtension(name, Yaml) && HasExtension(name, Json))
  {
    if HasExtension(name, Yaml) {
      var ext := name[|name| - 4..];
      assert Lower(ext[0]) == Lower("yaml"[0]);
      assert Lower(ext[0]) != Lower("json"[0]);
    }
  }

  /** The `if / else if / else` of `compileSpec`: the YAML test first, then the
      JSON test. */
  function Pipeline(baseSpecFile: string): (f: Option<Format>)
    ensures f == Some(Yaml) <==> RegexMatches(baseSpecFile, Yaml)
    ensures f == Some(Json) <==> RegexMatches(baseSpecFile, Json)
    ensures f == None <==> !RegexMatches(baseSpecFile, Yaml) && !RegexMatches(baseSpecFile, Json)
  {
    HasExtensionIsRegexMatch(baseSpecFile, Yaml);
    HasExtensionIsRegexMatch(baseSpecFile, Json);
    ExtensionsExclusive(baseSpecFile);
    if HasExtension(baseSpecFile, Yaml) then Some(Yaml)
    else if HasExtension(baseSpecFile, Json) then Some(Json)
    else None
  }

  /** `opts.refDirs`: the base file's own directory, then the `:`-separated
      directories given on the command line. */
  function RefDirs(given: seq<string>): (dirs: seq<string>)
    ensures |dirs| == |given| + 1 && dirs[0] == ""
    ensures forall i :: 0 <= i < |given| ==> dirs[i + 1] == given[i]
  {
    [""] + given
  }

  /** `compileSpec(opts)`, with the base file's text, `JSON.parse`, the file
      system and the platform given. */
  function CompileSpec(baseSpecFile: string, fileData: string, parse: string -> Option<JsonValue>,
                       given: seq<string>, fs: FileSystem, isWindows: bool): (r: Result<Output>)
    ensures r == Ok(NoOutput) <==> Pipeline(baseSpecFile).None?
    ensures r.Ok? && r.value.YamlText? ==>
              && Pipeline(baseSpecFile) == Some(Yaml)
              && BeforeFirst(r.value.text, Marker) == BeforeFirst(fileData, Marker)
              && OccursAt(r.value.text, Marker, |BeforeFirst(fileData, Marker)|)
    ensures r.Ok? && r.value.JsonTree? ==> Pipeline(baseSpecFile) == Some(Json)
    ensures Pipeline(baseSpecFile) == Some(Json) && parse(fileData).None? ==> r == Err(MalformedDocument)
    ensures Pipeline(baseSpecFile) == Some(Yaml) ==>
              (r.Err? <==> (|| CategoryFragments(fs, RefDirs(given), Definitions, Yaml, isWindows).Err?
                            || CategoryFragments(fs, RefDirs(given), Responses, Yaml, isWindows).Err?
                            || CategoryFragments(fs, RefDirs(given), Parameters, Yaml, isWindows).Err?))
    ensures Pipeline(baseSpecFile) == Some(Yaml) ==>
              r == (var text :- CompileAsWritten(fileData, fs, RefDirs(given), isWindows); Ok(YamlText(text)))
    ensures Pipeline(baseSpecFile) == Some(Json) ==>
              r == (var tree :- CompileJson(parse(fileData), fs, RefDirs(given), isWindows); Ok(JsonTree(tree)))
  {
    match Pipeline(baseSpecFile)
    case Some(Yaml) =>
      var text :- CompileAsWritten(fileData, fs, RefDirs(given), isWindows);
      Ok(YamlText(text))
    case Some(Json) =>
      var tree :- CompileJson(parse(fileData), fs, RefDirs(given), isWindows);
      Ok(JsonTree(tree))
    case None => Ok(NoOutput)
  }
}
