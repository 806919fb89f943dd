# openapi-reference-compiler: the reference compiler, modelled in Dafny

`refc` turns a Swagger 2.0 base document plus a tree of fragment files into a
single document. Before the bundler runs, `compileSpec` (bin/refc.js) makes an
intermediate document. It picks the pipeline by the base file's extension
(`.yaml` or `.json`, case-insensitive). It then scans the three categories
`definitions`, `responses` and `parameters`, in that order, under every
reference directory: the base file's own directory first, then the directories
given with `-r a:b:c`. From each listing it keeps the files with the pipeline's
extension and writes one reference per kept file:

- **YAML** (`compileYAMLReferences`): the base text is kept up to the first
  `### ref-compiler: BEGIN`. The marker line follows, then the three categories
  in order. A directory with fragments first adds a `category:` header line
  when the substring test finds no category name in the text generated so
  far. Then come one `  name:` / `    $ref: 'path'` pair per fragment.
- **JSON** (`compileJSONReferences`): the parsed document gets
  `document[category][name] = { "$ref": path }` for each fragment. First, a
  missing or falsy category value is replaced by `{}`.

A fragment's name is the file name up to the first `.yaml` or, failing that,
the first `.json` (`_getItemName`). Its path is the category directory relative
to the base directory joined with the file name. On Windows every backslash in
that path becomes a slash (`_getItemPath`). A category directory that does not
exist (ENOENT) is skipped. Any other listing failure aborts the run.

The model is six modules:

- `Results`: `Option` and `Result`, and the three ways a run fails.
- `Text`: `indexOf`, `split(sep)[0]`, the backslash replacement and ASCII case
  folding.
- `Fragments`: categories, the extension test, `_getItemName`, `_getItemPath`,
  and discovery over the reference directories.
- `YamlSplicer`: the YAML pipeline, as methods that follow the code line by line.
  Each method is proved equal to a recursive specification of the code as
  written. Beside it is a corrected definition, `CompileYaml`, and lemmas
  relating the two.
- `JsonInjector`: the JSON pipeline, as methods proved equal to a recursive
  specification, with lemmas about what that specification does to a document
  of each shape.
- `RefCompiler`: the `compileSpec` dispatch and the list of reference directories.

The file system is a pure input: a function from (reference directory,
category) to a listing that is `Missing` (ENOENT), `Unreadable` (any other
error) or the file names in listing order. The platform (`isWindows`, line 9)
is a parameter. So is `JSON.parse`, given as a function from text to an
optional document. The base file's text is an input, and each pipeline returns
the text or tree it would write instead of writing it.

Where the code and its description differ, the model follows the code:

- `_getItemName` tests `.yaml` and `.json` case-sensitively and cuts at the
  first occurrence, so `W.YAML` keeps its whole name.
- The YAML header test is a substring test over everything generated so far,
  not "once per non-empty category" (see Findings).

## Model

| member | source | states |
|---|---|---|
| Text.BeforeFirst | bin/refc.js:109 | `split(marker)[0]` is a prefix of the text that does not contain the marker. It is the whole text exactly when the marker is absent, and otherwise the marker starts right after it. |
| Text.IndexOfFirst | bin/refc.js:134 | `indexOf` returns the first occurrence: none starts before the position found, and none at all when it finds nothing. |
| Text.Slashed | bin/refc.js:231 | The replacement keeps the length, turns exactly the backslashes into slashes and leaves no backslash. |
| Fragments.HasExtensionIsRegexMatch | bin/refc.js:127 | The executable extension test is equivalent to the search of `/.+\.(yaml)$/i` (and of `/.+\.(json)$/i`) over the name: some non-empty run of non-line-terminators, a dot, the extension in any ASCII case, then the end. |
| Fragments.ItemName | bin/refc.js:219-225 | The item name is a prefix of the file name. When the name holds `.yaml`, the first `.yaml` follows the item name and is not inside it. Otherwise the same holds for the first `.json`. Otherwise the name is whole. |
| Fragments.ItemNameOfStem | bin/refc.js:219-225 | For a stem that holds neither extension, `stem.yaml` and `stem.json` both name `stem`. |
| Fragments.ItemNameOfDotlessStem | bin/refc.js:219-225 | A stem without dots, such as `widget`, comes back from both extensions. |
| Fragments.ItemNameKeepsUpperCase | bin/refc.js:220-223 | The cut is case-sensitive: `W.YAML` keeps its whole name. |
| Fragments.Join | bin/refc.js:228 | Definition the path lemmas are proved against. `path.join` of two segments starts with the first, ends with the second, and puts exactly one separator character between them unless one is empty. |
| Fragments.RelativeDirPortable | bin/refc.js:133 | The category directory, joined on either platform, is the same once backslashes are turned into slashes. |
| Fragments.SlashedJoinClean | bin/refc.js:228-231 | Joining two segments that hold no backslash gives a path that holds none either. |
| Fragments.PosixPathUnchanged | bin/refc.js:227-234 | A POSIX path built from a directory and a file name without backslashes holds none, so the replacement leaves it unchanged. |
| Fragments.ItemPath | bin/refc.js:227-234 | On POSIX the path is the directory and the file name joined with a slash. On Windows it is that slash join with every backslash turned into a slash, so it holds no backslash and keeps the joined path's length. |
| Fragments.FragmentPathPortable | bin/refc.js:227-234 | The path written on Windows is the POSIX path with its backslashes turned into slashes. When neither the directory nor the file name holds a backslash, the two platforms write the same path. |
| Fragments.Matching | bin/refc.js:126-130 | The kept names are exactly the listed names with the extension, and there are no more of them than listed names. |
| Fragments.MatchingAppend | bin/refc.js:126-130 | Filtering keeps listing order: the kept names of two listings in a row are the kept names of the first, then those of the second. |
| Fragments.MatchingOne | bin/refc.js:126-130 | A single listed name is kept exactly when it passes the extension test. |
| Fragments.CollectMatching | bin/refc.js:126-130 | The `files.forEach` loop pushes exactly `Matching(files)`, in listing order. |
| Fragments.DirFragmentsSnoc | bin/refc.js:138-143 | The fragments of a listing grow by one fragment (name and path of the next file) per file. |
| Fragments.ListDirectory | bin/refc.js:123-151 | Definition the discovery lemmas are proved against. One directory fails exactly when its listing fails with something other than ENOENT, with that directory in the error. A missing directory yields no fragments, and a listing yields at most one fragment per listed name. |
| Fragments.CategoryFragments | bin/refc.js:118-153 | Definition the category lemmas are proved against. A failure is the error of some directory's listing. On success every directory listed without error, and the fragments start with the first directory's. |
| Fragments.CategoryFragmentsFails | bin/refc.js:123-151 | Discovery of a category fails exactly when some reference directory's listing fails with something other than ENOENT. |
| Fragments.MissingCategoryYieldsNothing | bin/refc.js:147-151 | A category missing under every reference directory yields no fragments and no error. |
| YamlSplicer.EntryAsConcatenated | bin/refc.js:141-142 | The string concatenation of the source is the two-line entry `  name:` / `    $ref: 'path'`. |
| YamlSplicer.HeaderAsWritten | bin/refc.js:134-136 | Definition the header lemmas are proved against. The header is written exactly when the text so far does not contain the category's name, and it is empty exactly when it does. |
| YamlSplicer.AppendHeader | bin/refc.js:134-136 | The header step appends exactly the as-written header: the category line when the chunk lacks the name, nothing otherwise. |
| YamlSplicer.AppendEntries | bin/refc.js:138-143 | The `items.forEach` loop appends the entries of the directory's fragments, in listing order. |
| YamlSplicer.AppendDirectory | bin/refc.js:118-152 | One `refDirs.forEach` step is the as-written directory step. ENOENT leaves the text unchanged. Another listing error aborts. Otherwise the matching files, if any, add the header when the substring test passes, then their entries. |
| YamlSplicer.AppendCategory | bin/refc.js:114-154 | One `directoryTypes.forEach` step runs the directory step over every reference directory in order, stopping at the first failure. |
| YamlSplicer.CompileYAMLReferences | bin/refc.js:100-160 | The method produces the as-written text: the prefix before the first marker, then the marker line and the three categories in order. |
| YamlSplicer.CompileAsWritten | bin/refc.js:100-160 | Definition the method is proved against, and the YAML pipeline of `RefCompiler.CompileSpec`. The text before the first marker is kept, the marker follows it, and the run fails exactly when some category's discovery fails. |
| YamlSplicer.EntriesAppend | bin/refc.js:138-143 | The entries of two fragment lists are the entries of each, one after the other. |
| YamlSplicer.EntriesShowName | bin/refc.js:141 | Every fragment's name is written inside the entries. |
| YamlSplicer.HeaderOnce | bin/refc.js:134-136 | After a directory with fragments, the chunk contains the category's name, so the header test fails for every later directory. |
| YamlSplicer.AfterDirectoryTwice | bin/refc.js:118-153 | Two directories in a row append what one directory holding both fragment lists would append. |
| YamlSplicer.CategoryAsWrittenShape | bin/refc.js:114-154 | A category fails with discovery's error. Otherwise it appends all its fragments' entries in directory and listing order, behind at most one header, which is emitted only if the name was absent when the category began. |
| YamlSplicer.GeneratedBlock | bin/refc.js:110-154 | The generated block starts with the marker line and fails exactly when discovery fails for some category. |
| YamlSplicer.MarkerUnbordered | bin/refc.js:109 | The marker has no proper suffix that is also its prefix, so its first occurrence after a marker-free prefix is at the junction. |
| YamlSplicer.SplicedPrefix | bin/refc.js:109-110 | Splitting the spliced text at the marker gives back the original prefix, and the marker sits right after it. |
| YamlSplicer.CompileYaml | bin/refc.js:100-160 | The written text keeps the base text before the first marker unchanged, puts the marker right after it, and fails exactly when the block fails. The result is prefix plus block. |
| YamlSplicer.CompileYamlShowsSection | bin/refc.js:131-143 | In the corrected output, every category that has fragments shows its header line immediately followed by all of its entries. |
| YamlSplicer.CompileYamlIdempotent | bin/refc.js:100-160 | Compiling the compiled output again, over the same files, gives the same output. |
| YamlSplicer.CategoriesAsWrittenExtends | bin/refc.js:114-154 | The as-written categories only ever append to the text generated so far. |
| YamlSplicer.CompileAsWrittenIdempotent | bin/refc.js:100-160 | The code as written is idempotent as well. |
| YamlSplicer.CategoriesAsWrittenIsBlock | bin/refc.js:114-154 | The as-written chunk is the nested per-category directory steps over the fragments discovery finds. |
| YamlSplicer.CompileAsWrittenFailsAlike | bin/refc.js:147-151 | The code as written fails exactly when the corrected definition does, with the same error. |
| YamlSplicer.AfterDirectoryIsSection | bin/refc.js:134-143 | When the name is absent from the text so far, a directory step appends the header and the entries. |
| YamlSplicer.AfterDirectoryDropsHeader | bin/refc.js:134-136 | When the name is present, a directory step appends only the entries. |
| YamlSplicer.MarkerLineLacksDefinitions | bin/refc.js:134 | The marker line does not contain `definitions`, so the first category always gets its header. |
| YamlSplicer.CompileAsWrittenAgrees | bin/refc.js:100-160 | The code as written equals the corrected definition whenever no text generated before `responses` or `parameters` holds that category's name. |
| YamlSplicer.AfterDirectoryBounds | bin/refc.js:131-145 | A directory step only appends, and never more than the category's header and entries. |
| YamlSplicer.HeaderLostAfter | bin/refc.js:134-136 | Once the text holds a later category's name, that category's header is lost whatever an intermediate category appends. |
| YamlSplicer.SectionShowsName | bin/refc.js:141 | A definitions fragment's name appears in the text after the definitions section. |
| YamlSplicer.HeaderLostAsWritten | bin/refc.js:134-136 | A definitions fragment whose name holds `parameters`, together with any parameters fragment, makes the as-written output lack the `parameters:` header. It is shorter than the corrected output by at least the header. |
| JsonInjector.InjectDirectory | bin/refc.js:181-210 | One `refDirs.forEach` step is the specification's directory step. ENOENT leaves the document unchanged. Another listing error aborts. Otherwise one write per `.json` file, in listing order. |
| JsonInjector.EnsureCategory | bin/refc.js:177-179 | Definition the category lemmas are proved against. Reading a category of `null` throws a TypeError, and nothing else fails. A truthy category, or a document that is not an object, is left as it is. |
| JsonInjector.EnsureCategoryObject | bin/refc.js:177-179 | On an object document, the category key ends truthy and no other key changes. |
| JsonInjector.Inject | bin/refc.js:200-201 | Definition `WriteReference` is proved against. A write fails exactly when the model rejects the target, always with a TypeError, and a write through an array leaves the document unchanged. |
| JsonInjector.InjectWrites | bin/refc.js:200-201 | A write that neither throws nor is absorbed sets `name` to `{ "$ref": path }` inside the category object and changes no other key of the category or of the document. |
| JsonInjector.InjectFragments | bin/refc.js:198-202 | Definition `InjectItems` is proved against. The writes of one directory can fail only with a TypeError. |
| JsonInjector.DirectoryInjected | bin/refc.js:181-210 | Definition `InjectDirectory` is proved against. One directory fails only with a TypeError or a listing failure. |
| JsonInjector.InjectDirs | bin/refc.js:181-211 | The directories of one category fail only with a TypeError or a listing failure. |
| JsonInjector.InjectCategory | bin/refc.js:175-211 | Definition `InjectCategoryInto` is proved against. One category fails only with a TypeError or a listing failure. |
| JsonInjector.InjectCategories | bin/refc.js:175-212 | The categories in order fail only with a TypeError or a listing failure. |
| JsonInjector.CompileJson | bin/refc.js:168-217 | Definition `CompileJSONReferences` is proved against. It fails with a malformed-document error exactly when the parse fails. Otherwise it fails only with a TypeError or a listing failure. |
| JsonInjector.InjectItems | bin/refc.js:198-203 | The `items.forEach` loop performs the fragments' writes in order and stops at the first write that throws. |
| JsonInjector.WriteReference | bin/refc.js:200-201 | One write. On an object category it sets `name` to `{ "$ref": path }` (for `__proto__`, see Left out). On an array, document or category, it leaves the serialised document unchanged. On a missing category, `null` or another value, it throws a TypeError. Names are ordinary property names (see Left out). |
| JsonInjector.InjectCategoryInto | bin/refc.js:175-211 | One `directoryTypes.forEach` step. It first replaces a missing or falsy category value by `{}`, throws on a `null` document, then runs every reference directory. |
| JsonInjector.CompileJSONReferences | bin/refc.js:168-217 | The method produces the specification's tree. A parse failure is an error, and the three categories run in order. |
| JsonInjector.LastNamed | bin/refc.js:198-201 | Finds the last fragment with a given name, or reports that none has it. |
| JsonInjector.InjectAllAppend | bin/refc.js:181-202 | Writing two fragment lists is writing one and then the other. |
| JsonInjector.InjectAllLookup | bin/refc.js:198-202 | Last writer wins. After the writes, a key holds the reference of the last fragment with that name, or its old value when none has it. No other key appears. |
| JsonInjector.InjectFragmentsObject | bin/refc.js:198-202 | On an object category the writes of a directory replace the category by its entries with the fragments written over them. |
| JsonInjector.InjectDirsObject | bin/refc.js:181-211 | On an object category, all directories together write the category's discovered fragments, or fail with discovery's error. |
| JsonInjector.InjectFragmentsAbsorbed | bin/refc.js:200-201 | Writes through an array leave the serialised document unchanged, for names that are not array indices or `length` (see Left out). |
| JsonInjector.InjectDirsAbsorbed | bin/refc.js:181-211 | Through an array, a category leaves the document unchanged and fails only when discovery fails. |
| JsonInjector.InjectFragmentsRejected | bin/refc.js:200-201 | Through `null` or through a number, string or boolean, the first write throws a TypeError. For a primitive category this holds for names the value does not inherit (see Left out). |
| JsonInjector.InjectDirsRejected | bin/refc.js:181-211 | Such a target survives the category exactly when discovery finds no fragment, and then it is unchanged. |
| JsonInjector.PlacedElsewhere | bin/refc.js:175-202 | Writing one category leaves every other category key as it was. |
| JsonInjector.InjectCategoryObject | bin/refc.js:175-211 | For an object document whose category is missing, falsy or an object, the category becomes its old entries (or `{}`) with the discovered fragments written over them. |
| JsonInjector.InjectCategoryStep | bin/refc.js:175-211 | After a category of an object document, only that key changed, and it holds something truthy. A truthy non-object is kept as it was. A missing or falsy value is now an object. |
| JsonInjector.CompileJsonUnfolds | bin/refc.js:175 | The run is the three categories in order, each starting from the previous one's document. |
| JsonInjector.CompileJsonKeepsKeys | bin/refc.js:175-212 | For an object document, a successful run returns an object. It keeps every key other than the three category keys, and each category key ends truthy: unchanged if it was a truthy non-object, an object if it was missing or falsy. |
| JsonInjector.ExpectedJsonAt | bin/refc.js:175-212 | In the expected tree, each category key holds its base entries with its own fragments written over them. |
| JsonInjector.CompileJsonWellShaped | bin/refc.js:168-213 | On an object document whose categories can take references, the run equals the expected tree from discovery, including failing with the first failing listing's error. |
| JsonInjector.CompileJsonEntry | bin/refc.js:198-202 | On such a document, after a successful run, `document[category][k]` is the reference of the last fragment named `k`, or the entry it held before. No other entry appears. |
| JsonInjector.CompileJsonNullDocument | bin/refc.js:171-177 | A `null` document throws a TypeError at the first category. |
| JsonInjector.CompileJsonArrayDocument | bin/refc.js:171-202 | An array document comes out unchanged unless a listing fails. |
| JsonInjector.CompileJsonScalarDocument | bin/refc.js:171-202 | A number, string or boolean document survives exactly when no fragment is found in any category, and then it is unchanged. |
| RefCompiler.ExtensionsExclusive | bin/refc.js:85-88 | No file name passes both the YAML and the JSON test. |
| RefCompiler.Pipeline | bin/refc.js:85-91 | The dispatch chooses YAML exactly when `/.+\.(yaml)$/i` matches, JSON exactly when `/.+\.(json)$/i` matches, and neither otherwise. |
| RefCompiler.RefDirs | bin/refc.js:39-45 | The reference directories are the base directory (`''`) followed by the given ones, in order. |
| RefCompiler.CompileSpec | bin/refc.js:84-92 | An unknown extension produces nothing. A `.yaml` base file yields exactly what the YAML pipeline as written (`YamlSplicer.CompileAsWritten`) returns, and a `.json` one exactly what `JsonInjector.CompileJson` returns for the parse result. YAML output keeps the base prefix before the marker. JSON output is produced only by the JSON pipeline. A JSON parse failure is an error. A YAML run fails exactly when some category's discovery fails. |

## Left out

- The command line (bin/refc.js:11-31): option parsing, usage messages and exits are not modelled.
- Validation of the given reference directories and their `path.relative` normalisation (bin/refc.js:46-59). The model takes the directories already relative to the base directory and normalised.
- `tmp.fileSync` for the intermediate file (bin/refc.js:34), the bundler call and the final write (bin/refc.js:62-82). The bundler is an external collaborator.
- Reading the base file and writing the intermediate file. The pipelines take the base text (or the parse result) and return what would be written. A base file that cannot be read is therefore not a case of the model.
- `JSON.parse` and `JSON.stringify`: parsing is a parameter of `RefCompiler.CompileSpec`, and serialisation, indentation and key order are not modelled. Objects are maps, and numbers are `real`s (a parsed JSON number is never NaN).
- `path.join` normalisation of `.`, `..` and repeated separators: `Fragments.Join` only drops an empty segment.
- Logging (`cmdr.verbose`, `cmdr.test`, the unknown-extension message): output to the console is not modelled.
- `isWindows` (bin/refc.js:9) reads the process platform. It is a parameter.
- Aliasing. On JSON, the parsed document is updated in place by the source. The model updates a value and returns the new one, which gives the same serialised result because nothing else holds a reference to the document.
- JsonInjector.WriteReference: fragment names are ordinary property names. On an array category, a name that is an array index (`0.json` gives `0`) writes an element that is serialised, and `length` throws a RangeError. On a number, boolean or string category, a name the value inherits (`toString`, `valueOf`, `constructor`, `__proto__`, and for a string also an index or `length`) does not throw. The model leaves the array unchanged and throws a TypeError for every such write through a primitive.
- JsonInjector.Inject: the same treatment of array indices, `length` and inherited names as `WriteReference`.
- JsonInjector.WriteReference: on an object category the name `__proto__` (from `__proto__.json`) replaces the object's prototype instead of adding an entry, so nothing is serialised for it. The model writes it as an ordinary key.
- JsonInjector.InjectWrites: the same `__proto__` gap as `WriteReference`. It promises a `__proto__` entry that the serialised document lacks.
- JsonInjector.CompileJsonEntry: the same `__proto__` gap. A fragment named `__proto__` is promised as an entry of its category.
- JsonInjector.CompileJsonWellShaped: the same `__proto__` gap. The expected tree holds a `__proto__` entry that the serialised document lacks.
- JsonInjector.InjectFragmentsAbsorbed: holds for ordinary names only. Through an array category, an index-named write changes the serialised array and a `length` write throws a RangeError. An array document is not affected, because its category names are never indices.
- JsonInjector.InjectDirsAbsorbed: the same gap as `InjectFragmentsAbsorbed`, for every directory of the category.
- JsonInjector.InjectFragmentsRejected: holds for ordinary names only. A number, boolean or string category takes a write whose name it inherits without throwing, and leaves the document unchanged. A `null` target, or a primitive document, throws in every case.
- JsonInjector.InjectDirsRejected: the same gap as `InjectFragmentsRejected`, for every directory of the category.
- JsonInjector.InjectCategoryStep: "a truthy non-object is kept as it was" fails for an array category that receives an index-named write. A primitive category that JavaScript lets through on an inherited name is an error in the model, so the lemma does not speak about that run.
- JsonInjector.CompileJsonKeepsKeys: the same gap as `InjectCategoryStep`, for each of the three categories.
- The verbose and test branches of the YAML function (bin/refc.js:101-105) print only.

## Findings

| source | as written | input that shows it | evidently intended | confidence | as-written member | corrected member |
|---|---|---|---|---|---|---|
| bin/refc.js:134-136 | The header test `resourcesChunk.indexOf(directoryType) === -1` searches the whole text generated so far, fragment names and paths included. | A file `definitions/parameters-shared.yaml` together with any `parameters/*.yaml`. The definitions entry holds `parameters`, so no `parameters:` header is written, and the parameter entries land under `responses:` or `definitions:`. | One header line for each category that has at least one fragment. | not executed | YamlSplicer.HeaderLostAsWritten | YamlSplicer.CompileYaml, YamlSplicer.CompileYamlShowsSection |
