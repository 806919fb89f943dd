/** The YAML pipeline of bin/refc.js (`compileYAMLReferences`): keep the text
    before the first `### ref-compiler: BEGIN`, re-emit the marker, and append
    one `name:` / `$ref:` entry per fragment, grouped under category headers.

    The methods follow the code as written, whose header test looks for the
    category's name anywhere in the text generated so far.  `CompileYaml` is
    the corrected definition, which gives every category that has fragments
    its header. */
module YamlSplicer {
  import opened Results
  import opened Text
  import opened Fragments

  const Marker: string := "### ref-compiler: BEGIN"

  /** The two lines one fragment contributes. */
  function Entry(f: Fragment): string {
    "  " + f.name + EntryTail(f.path)
  }

  function EntryTail(path: string): string {
    ":\n    $ref: '" + path + "'\n"
  }

  /** The entry as the source spells out its concatenation. */
  lemma EntryAsConcatenated(name: string, path: string)
    ensures "  " + name + ":\n  " + "  $ref: " + "'" + path + "'" + "\n" == Entry(Fragment(name, path))
  {
    assert ":\n  " + "  $ref: " + "'" == ":\n    $ref: '";
  }

  function Entries(frags: seq<Fragment>): string {
    if frags == [] then "" else Entry(frags[0]) + Entries(frags[1..])
  }

  lemma {:induction false} EntriesAppend(a: seq<Fragment>, b: seq<Fragment>)
    ensures Entries(a + b) == Entries(a) + Entries(b)
  {
    if a != [] {
      assert (a + b)[0] == a[0];
      assert (a + b)[1..] == a[1..] + b;
      EntriesAppend(a[1..], b);
      var e := Entry(a[0]);
      assert e + (Entries(a[1..]) + Entries(b)) == (e + Entries(a[1..])) + Entries(b);
    } else {
      assert a + b == b;
    }
  }

  /** A fragment's name is written inside the entries of any list it belongs to. */
  lemma {:induction false} EntriesShowName(frags: seq<Fragment>, i: nat, t: string)
    requires i < |frags| && Contains(frags[i].name, t)
    ensures Contains(Entries(frags), t)
  {
    var e := Entry(frags[0]);
    var rest := Entries(frags[1..]);
    assert Entries(frags) == e + rest;
    if i == 0 {
      ContainsWithin("  ", frags[0].name, EntryTail(frags[0].path), t);
      ContainsInExtension(e, e + rest, t);
    } else {
      EntriesShowName(frags[1..], i - 1, t);
      ContainsInSuffix(e, rest, t);
    }
  }

  function Header(cat: Category): string {
    CategoryName(cat) + ":\n"
  }

  // ---------------------------------------------------------------------------
  // The code as written

  /** `if (resourcesChunk.indexOf(directoryType) === -1) resourcesChunk += directoryType + ':\n'` */
  function HeaderAsWritten(chunk: string, cat: Category): (h: string)
    ensures h == Header(cat) <==> !Contains(chunk, CategoryName(cat))
    ensures h == "" <==> Contains(chunk, CategoryName(cat))
  {
    if IndexOf(chunk, CategoryName(cat), 0).None? then Header(cat) else ""
  }

  /** What a directory appends after the test, given its fragments. */
  function AfterDirectory(chunk: string, cat: Category, frags: seq<Fragment>): string {
    if frags == [] then chunk else chunk + HeaderAsWritten(chunk, cat) + Entries(frags)
  }

  /** What one reference directory appends to the chunk. */
  function DirectoryAsWritten(chunk: string, fs: FileSystem, indir: string, cat: Category, isWindows: bool): Result<string> {
    var frags :- ListDirectory(fs, indir, cat, Yaml, isWindows);
    Ok(AfterDirectory(chunk, cat, frags))
  }

  function CategoryAsWritten(chunk: string, fs: FileSystem, refDirs: seq<string>, cat: Category, isWindows: bool): Result<string>
    decreases |refDirs|
  {
    if refDirs == [] then Ok(chunk)
    else
      var next :- DirectoryAsWritten(chunk, fs, refDirs[0], cat, isWindows);
      CategoryAsWritten(next, fs, refDirs[1..], cat, isWindows)
  }

  function CategoriesAsWritten(chunk: string, fs: FileSystem, refDirs: seq<string>, cats: seq<Category>, isWindows: bool): Result<string>
    decreases |cats|
  {
    if cats == [] then Ok(chunk)
    else
      var next :- CategoryAsWritten(chunk, fs, refDirs, cats[0], isWindows);
      CategoriesAsWritten(next, fs, refDirs, cats[1..], isWindows)
  }

  /** The text `compileYAMLReferences` writes for `fileData`. */
  function CompileAsWritten(fileData: string, fs: FileSystem, refDirs: seq<string>, isWindows: bool): (r: Result<string>)
    ensures r.Ok? ==> BeforeFirst(r.value, Marker) == BeforeFirst(fileData, Marker)
    ensures r.Ok? ==> OccursAt(r.value, Marker, |BeforeFirst(fileData, Marker)|)
    ensures r.Err? <==> (CategoryFragments(fs, refDirs, Definitions, Yaml, isWindows).Err?
                         || CategoryFragments(fs, refDirs, Responses, Yaml, isWindows).Err?
                         || CategoryFragments(fs, refDirs, Parameters, Yaml, isWindows).Err?)
  {
    CategoriesAsWrittenIsBlock(fs, refDirs, isWindows);
    var chunk :- CategoriesAsWritten(Marker + "\n", fs, refDirs, Categories, isWindows);
    CategoriesAsWrittenExtends(Marker + "\n", fs, refDirs, Categories, isWindows);
    SplicedPrefix(fileData, chunk);
    Ok(BeforeFirst(fileData, Marker) + chunk)
  }

  /** `items.forEach(...)`: one entry per kept file, in listing order. */
  method AppendEntries(chunk: string, indir: string, cat: Category, items: seq<string>, isWindows: bool)
    returns (out: string)
    ensures out == chunk + Entries(DirFragments(indir, cat, items, isWindows))
  {
    var relativePath := RelativeDir(indir, cat, isWindows);
    out := chunk;
    for i := 0 to |items|
      invariant out == chunk + Entries(DirFragments(indir, cat, items[..i], isWindows))
    {
      var itemName := ItemName(items[i]);
      var itemPath := ItemPath(relativePath, items[i], isWindows);
      var entry := "  " + itemName + ":\n  " + "  $ref: " + "'" + itemPath + "'" + "\n";
      EntryAsConcatenated(itemName, itemPath);
      DirFragmentsSnoc(indir, cat, items, i, isWindows);
      EntriesStep(chunk, DirFragments(indir, cat, items[..i], isWindows), Fragment(itemName, itemPath));
      out := out + entry;
    }
    assert items[..|items|] == items;
  }

  lemma EntriesSnoc(done: seq<Fragment>, frag: Fragment)
    ensures Entries(done + [frag]) == Entries(done) + Entry(frag)
  {
    EntriesAppend(done, [frag]);
    assert Entries([frag]) == Entry(frag) + Entries([]);
  }

  lemma EntriesStep(chunk: string, done: seq<Fragment>, frag: Fragment)
    ensures chunk + Entries(done) + Entry(frag) == chunk + Entries(done + [frag])
  {
    EntriesSnoc(done, frag);
    var e := Entries(done);
    assert chunk + e + Entry(frag) == chunk + (e + Entry(frag));
  }

  /** The header test: the category line is added only when the chunk does
      not yet contain the category's name. */
  method AppendHeader(chunk: string, cat: Category) returns (out: string)
    ensures out == chunk + HeaderAsWritten(chunk, cat)
  {
    out := chunk;
    if IndexOf(out, CategoryName(cat), 0).None? {
      out := out + CategoryName(cat) + ":\n";
    }
  }

  /** The body of the `refDirs.forEach` callback. */
  method AppendDirectory(chunk: string, fs: FileSystem, indir: string, cat: Category, isWindows: bool)
    returns (r: Result<string>)
    ensures r == DirectoryAsWritten(chunk, fs, indir, cat, isWindows)
  {
    match fs(indir, cat)
    case Missing =>
      r := Ok(chunk);
    case Unreadable =>
      r := Err(ListingFailed(RelativeDir(indir, cat, isWindows)));
    case Files(files) =>
      var items := CollectMatching(files, Yaml);
      ghost var frags := DirFragments(indir, cat, items, isWindows);
      assert DirectoryAsWritten(chunk, fs, indir, cat, isWindows) == Ok(AfterDirectory(chunk, cat, frags));
      var out := chunk;
      if |items| > 0 {
        out := AppendHeader(out, cat);
        out := AppendEntries(out, indir, cat, items, isWindows);
      } else {
        assert frags == [];
      }
      r := Ok(out);
  }

  /** The body of the `directoryTypes.forEach` callback. */
  method AppendCategory(chunk: string, fs: FileSystem, refDirs: seq<string>, cat: Category, isWindows: bool)
    returns (r: Result<string>)
    ensures r == CategoryAsWritten(chunk, fs, refDirs, cat, isWindows)
  {
    var out := chunk;
    for i := 0 to |refDirs|
      invariant CategoryAsWritten(out, fs, refDirs[i..], cat, isWindows) == CategoryAsWritten(chunk, fs, refDirs, cat, isWindows)
    {
      assert refDirs[i..][1..] == refDirs[i + 1..];
      var next := AppendDirectory(out, fs, refDirs[i], cat, isWindows);
      if next.Err? {
        return Err(next.error);
      }
      out := next.value;
    }
    r := Ok(out);
  }

  /** `compileYAMLReferences(swaggerDir, baseSpecFile, refDirs, outFile)`, with
      the base file's text given and the text to write returned. */
  method CompileYAMLReferences(fileData: string, fs: FileSystem, refDirs: seq<string>, isWindows: bool)
    returns (r: Result<string>)
    ensures r == CompileAsWritten(fileData, fs, refDirs, isWindows)
  {
    var fileDataPrefix := BeforeFirst(fileData, Marker);
    var resourcesChunk := Marker + "\n";
    for i := 0 to |Categories|
      invariant CategoriesAsWritten(resourcesChunk, fs, refDirs, Categories[i..], isWindows)
             == CategoriesAsWritten(Marker + "\n", fs, refDirs, Categories, isWindows)
    {
      assert Categories[i..][1..] == Categories[i + 1..];
      var next := AppendCategory(resourcesChunk, fs, refDirs, Categories[i], isWindows);
      if next.Err? {
        return Err(next.error);
      }
      resourcesChunk := next.value;
    }
    r := Ok(fileDataPrefix + resourcesChunk);
  }

  /** A text that gained `name` (or already had it) keeps containing it. */
  lemma NameStays(chunk: string, name: string, rest: string)
    ensures Contains(chunk + (if Contains(chunk, name) then "" else name + rest), name)
  {
    var next := chunk + (if Contains(chunk, name) then "" else name + rest);
    if Contains(chunk, name) {
      ContainsWithin("", chunk, "", name);
      assert "" + chunk + "" == next;
    } else {
      assert next[|chunk|..|chunk| + |name|] == name;
      ContainsAt(next, name, |chunk|);
    }
  }

  /** Once a category's entries follow its header test, the category's name is in
      the chunk, and the test fails for every later directory. */
  lemma HeaderOnce(chunk: string, cat: Category, frags: seq<Fragment>)
    requires frags != []
    ensures Contains(AfterDirectory(chunk, cat, frags), CategoryName(cat))
  {
    var name := CategoryName(cat);
    var grown := chunk + (if Contains(chunk, name) then "" else name + ":\n");
    NameStays(chunk, name, ":\n");
    assert grown == chunk + HeaderAsWritten(chunk, cat);
    assert AfterDirectory(chunk, cat, frags) == grown + Entries(frags);
    ContainsInExtension(grown, AfterDirectory(chunk, cat, frags), name);
  }

  /** Two directories in a row append what one directory with both fragment
      lists would. */
  lemma AfterDirectoryTwice(chunk: string, cat: Category, here: seq<Fragment>, rest: seq<Fragment>)
    ensures AfterDirectory(AfterDirectory(chunk, cat, here), cat, rest) == AfterDirectory(chunk, cat, here + rest)
  {
    if here == [] {
      assert here + rest == rest;
    } else if rest == [] {
      assert here + rest == here;
    } else {
      AfterTwoNonEmpty(chunk, cat, here, rest);
    }
  }

  lemma AfterTwoNonEmpty(chunk: string, cat: Category, here: seq<Fragment>, rest: seq<Fragment>)
    requires here != [] && rest != []
    ensures AfterDirectory(AfterDirectory(chunk, cat, here), cat, rest) == AfterDirectory(chunk, cat, here + rest)
  {
    var h := chunk + HeaderAsWritten(chunk, cat);
    var first := AfterDirectory(chunk, cat, here);
    assert first == h + Entries(here);
    HeaderOnce(chunk, cat, here);
    AfterDirectoryDropsHeader(first, cat, rest);
    assert |here + rest| > 0;
    assert AfterDirectory(chunk, cat, here + rest) == h + Entries(here + rest);
    EntriesAppend(here, rest);
    ConcatAssoc(h, Entries(here), Entries(rest));
  }

  lemma ConcatAssoc(a: string, b: string, c: string)
    ensures a + b + c == a + (b + c)
  {
  }

  /** The substring test decides once per category, on the chunk as it stood
      when the category began: all of the category's fragments follow, in
      directory and listing order, behind at most one header. */
  lemma {:induction false} CategoryAsWrittenShape(chunk: string, fs: FileSystem, refDirs: seq<string>, cat: Category, isWindows: bool)
    ensures CategoryAsWritten(chunk, fs, refDirs, cat, isWindows)
         == match CategoryFragments(fs, refDirs, cat, Yaml, isWindows)
            case Err(e) => Err(e)
            case Ok(frags) => Ok(AfterDirectory(chunk, cat, frags))
    decreases |refDirs|
  {
    if refDirs != [] {
      var here := ListDirectory(fs, refDirs[0], cat, Yaml, isWindows);
      if here.Ok? {
        var next := AfterDirectory(chunk, cat, here.value);
        assert DirectoryAsWritten(chunk, fs, refDirs[0], cat, isWindows) == Ok(next);
        CategoryAsWrittenShape(next, fs, refDirs[1..], cat, isWindows);
        var rest := CategoryFragments(fs, refDirs[1..], cat, Yaml, isWindows);
        if rest.Ok? {
          AfterDirectoryTwice(chunk, cat, here.value, rest.value);
        }
      }
    }
  }

  // ---------------------------------------------------------------------------
  // The corrected definition

  /** A category's part of the generated block: its header and its entries, or
      nothing when it has no fragments. */
  function Section(cat: Category, frags: seq<Fragment>): string {
    if frags == [] then "" else Header(cat) + Entries(frags)
  }

  /** The marker line followed by the sections of the three categories. */
  function GeneratedBlock(fs: FileSystem, refDirs: seq<string>, isWindows: bool): (r: Result<string>)
    ensures r.Ok? ==> Marker + "\n" <= r.value
    ensures r.Err? <==> (CategoryFragments(fs, refDirs, Definitions, Yaml, isWindows).Err?
                         || CategoryFragments(fs, refDirs, Responses, Yaml, isWindows).Err?
                         || CategoryFragments(fs, refDirs, Parameters, Yaml, isWindows).Err?)
  {
    var definitions :- CategoryFragments(fs, refDirs, Definitions, Yaml, isWindows);
    var responses :- CategoryFragments(fs, refDirs, Responses, Yaml, isWindows);
    var parameters :- CategoryFragments(fs, refDirs, Parameters, Yaml, isWindows);
    Ok(Marker + "\n" + Section(Definitions, definitions) + Section(Responses, responses)
       + Section(Parameters, parameters))
  }

  /** The marker has no border, so it is first found right after a prefix that lacks it. */
  lemma MarkerUnbordered()
    ensures Unbordered(Marker)
  {
    forall k | 0 < k < |Marker| ensures Marker[k..] != Marker[..|Marker| - k] {
      if k < 3 {
        assert Marker[k..][3 - k] != Marker[..|Marker| - k][3 - k];
      } else {
        assert Marker[k..][0] != Marker[..|Marker| - k][0];
      }
    }
  }

  /** Splitting a spliced text at the marker gives back the original prefix. */
  lemma PrefixOfSpliced(fileData: string, rest: string)
    ensures BeforeFirst(BeforeFirst(fileData, Marker) + Marker + rest, Marker) == BeforeFirst(fileData, Marker)
  {
    MarkerUnbordered();
    FirstOccurrenceAfter(BeforeFirst(fileData, Marker), Marker, rest);
  }

  /** A text that starts with the marker, put after the kept prefix of any
      file, splits back to that prefix. */
  lemma SplicedPrefix(fileData: string, chunk: string)
    requires Marker + "\n" <= chunk
    ensures BeforeFirst(BeforeFirst(fileData, Marker) + chunk, Marker) == BeforeFirst(fileData, Marker)
    ensures OccursAt(BeforeFirst(fileData, Marker) + chunk, Marker, |BeforeFirst(fileData, Marker)|)
  {
    var prefix := BeforeFirst(fileData, Marker);
    var rest := chunk[|Marker|..];
    assert chunk[..|Marker|] == Marker;
    assert chunk == Marker + rest;
    PrefixOfSpliced(fileData, rest);
    ConcatAssoc(prefix, Marker, rest);
    assert (prefix + chunk)[|prefix|..|prefix| + |Marker|] == chunk[..|Marker|];
  }

  /** The corrected splicer: the text before the first marker, unchanged, then
      the generated block.  The result's first marker sits exactly where the
      kept prefix ends, and the run fails exactly when some category's
      discovery fails. */
  function CompileYaml(fileData: string, fs: FileSystem, refDirs: seq<string>, isWindows: bool): (r: Result<string>)
    ensures r.Ok? ==> BeforeFirst(r.value, Marker) == BeforeFirst(fileData, Marker)
    ensures r.Ok? ==> OccursAt(r.value, Marker, |BeforeFirst(fileData, Marker)|)
    ensures r.Err? <==> GeneratedBlock(fs, refDirs, isWindows).Err?
    ensures r.Ok? ==> r.value == BeforeFirst(fileData, Marker) + GeneratedBlock(fs, refDirs, isWindows).value
  {
    var block :- GeneratedBlock(fs, refDirs, isWindows);
    SplicedPrefix(fileData, block);
    Ok(BeforeFirst(fileData, Marker) + block)
  }

  /** A non-empty text is found inside any text built around it. */
  lemma ContainsMiddle(a: string, s: string, b: string)
    requires s != ""
    ensures Contains(a + s + b, s)
  {
    assert (a + s + b)[|a|..|a| + |s|] == s;
    ContainsAt(a + s + b, s, |a|);
  }

  /** Each of three non-empty parts is found in their concatenation. */
  lemma ContainsPart(w: string, p: string, k: string, a: string, b: string, c: string, s: string)
    requires w == p + (k + a + b + c)
    requires s != "" && (s == a || s == b || s == c)
    ensures Contains(w, s)
  {
    var m := p + k;
    assert w == m + a + b + c;
    if s == a {
      ContainsMiddle(m, a, b + c);
      assert m + a + (b + c) == m + a + b + c;
    } else if s == b {
      ContainsMiddle(m + a, b, c);
    } else {
      ContainsMiddle(m + a + b, c, "");
      assert m + a + b + c + "" == m + a + b + c;
    }
  }

  /** The generated block is the marker line and the three sections. */
  lemma BlockSections(fs: FileSystem, refDirs: seq<string>, isWindows: bool)
    requires GeneratedBlock(fs, refDirs, isWindows).Ok?
    ensures GeneratedBlock(fs, refDirs, isWindows).value
         == Marker + "\n" + Section(Definitions, CategoryFragments(fs, refDirs, Definitions, Yaml, isWindows).value)
            + Section(Responses, CategoryFragments(fs, refDirs, Responses, Yaml, isWindows).value)
            + Section(Parameters, CategoryFragments(fs, refDirs, Parameters, Yaml, isWindows).value)
  {
  }

  /** In the corrected output every category that has fragments shows its
      header line immediately followed by all of its entries. */
  lemma CompileYamlShowsSection(fileData: string, fs: FileSystem, refDirs: seq<string>, isWindows: bool, cat: Category)
    requires CompileYaml(fileData, fs, refDirs, isWindows).Ok?
    requires CategoryFragments(fs, refDirs, cat, Yaml, isWindows).Ok?
    requires CategoryFragments(fs, refDirs, cat, Yaml, isWindows).value != []
    ensures Contains(CompileYaml(fileData, fs, refDirs, isWindows).value,
                     Header(cat) + Entries(CategoryFragments(fs, refDirs, cat, Yaml, isWindows).value))
  {
    var prefix := BeforeFirst(fileData, Marker);
    var sd := Section(Definitions, CategoryFragments(fs, refDirs, Definitions, Yaml, isWindows).value);
    var sr := Section(Responses, CategoryFragments(fs, refDirs, Responses, Yaml, isWindows).value);
    var sp := Section(Parameters, CategoryFragments(fs, refDirs, Parameters, Yaml, isWindows).value);
    var s := Header(cat) + Entries(CategoryFragments(fs, refDirs, cat, Yaml, isWindows).value);
    assert s == Section(cat, CategoryFragments(fs, refDirs, cat, Yaml, isWindows).value);
    assert s == sd || s == sr || s == sp;
    BlockSections(fs, refDirs, isWindows);
    var out := CompileYaml(fileData, fs, refDirs, isWindows).value;
    ContainsPart(out, prefix, Marker + "\n", sd, sr, sp, s);
  }

  /** Running the corrected splicer on its own output, with the file system
      unchanged, reproduces that output. */
  lemma CompileYamlIdempotent(fileData: string, fs: FileSystem, refDirs: seq<string>, isWindows: bool)
    requires CompileYaml(fileData, fs, refDirs, isWindows).Ok?
    ensures CompileYaml(CompileYaml(fileData, fs, refDirs, isWindows).value, fs, refDirs, isWindows)
         == CompileYaml(fileData, fs, refDirs, isWindows)
  {
  }

  /** So does the splicer as written. */
  lemma CompileAsWrittenIdempotent(fileData: string, fs: FileSystem, refDirs: seq<string>, isWindows: bool)
    requires CompileAsWritten(fileData, fs, refDirs, isWindows).Ok?
    ensures CompileAsWritten(CompileAsWritten(fileData, fs, refDirs, isWindows).value, fs, refDirs, isWindows)
         == CompileAsWritten(fileData, fs, refDirs, isWindows)
  {
    var chunk := CategoriesAsWritten(Marker + "\n", fs, refDirs, Categories, isWindows).value;
    CategoriesAsWrittenExtends(Marker + "\n", fs, refDirs, Categories, isWindows);
    SplicedPrefix(fileData, chunk);
  }

  /** The text generated so far is only ever extended. */
  lemma {:induction false} CategoriesAsWrittenExtends(chunk: string, fs: FileSystem, refDirs: seq<string>, cats: seq<Category>, isWindows: bool)
    requires CategoriesAsWritten(chunk, fs, refDirs, cats, isWindows).Ok?
    ensures chunk <= CategoriesAsWritten(chunk, fs, refDirs, cats, isWindows).value
    decreases |cats|
  {
    if cats != [] {
      CategoryAsWrittenShape(chunk, fs, refDirs, cats[0], isWindows);
      var next := CategoryAsWritten(chunk, fs, refDirs, cats[0], isWindows).value;
      CategoriesAsWrittenExtends(next, fs, refDirs, cats[1..], isWindows);
    }
  }

  // ---------------------------------------------------------------------------
  // The code as written against the corrected definition

  /** The as-written block in terms of the fragments each category discovers. */
  function AsWrittenBlock(fs: FileSystem, refDirs: seq<string>, isWindows: bool): Result<string> {
    var definitions :- CategoryFragments(fs, refDirs, Definitions, Yaml, isWindows);
    var responses :- CategoryFragments(fs, refDirs, Responses, Yaml, isWindows);
    var parameters :- CategoryFragments(fs, refDirs, Parameters, Yaml, isWindows);
    Ok(AfterDirectory(AfterDirectory(AfterDirectory(Marker + "\n", Definitions, definitions),
                                     Responses, responses),
                      Parameters, parameters))
  }

  lemma {:induction false} CategoriesAsWrittenIsBlock(fs: FileSystem, refDirs: seq<string>, isWindows: bool)
    ensures CategoriesAsWritten(Marker + "\n", fs, refDirs, Categories, isWindows) == AsWrittenBlock(fs, refDirs, isWindows)
  {
    var m := Marker + "\n";
    assert Categories[1..] == [Responses, Parameters];
    assert Categories[1..][1..] == [Parameters];
    assert Categories[1..][1..][1..] == [];
    CategoryAsWrittenShape(m, fs, refDirs, Definitions, isWindows);
    var d := CategoryFragments(fs, refDirs, Definitions, Yaml, isWindows);
    if d.Ok? {
      var c1 := AfterDirectory(m, Definitions, d.value);
      CategoryAsWrittenShape(c1, fs, refDirs, Responses, isWindows);
      var r := CategoryFragments(fs, refDirs, Responses, Yaml, isWindows);
      if r.Ok? {
        var c2 := AfterDirectory(c1, Responses, r.value);
        CategoryAsWrittenShape(c2, fs, refDirs, Parameters, isWindows);
      }
    }
  }

  /** The splicer as written fails exactly when the corrected one does, with
      the same error: the first unreadable directory, categories in order. */
  lemma CompileAsWrittenFailsAlike(fileData: string, fs: FileSystem, refDirs: seq<string>, isWindows: bool)
    ensures CompileAsWritten(fileData, fs, refDirs, isWindows).Err? <==> CompileYaml(fileData, fs, refDirs, isWindows).Err?
    ensures CompileAsWritten(fileData, fs, refDirs, isWindows).Err? ==>
              CompileAsWritten(fileData, fs, refDirs, isWindows).error == CompileYaml(fileData, fs, refDirs, isWindows).error
  {
    CategoriesAsWrittenIsBlock(fs, refDirs, isWindows);
  }

  /** When a category's name is absent from the text before it, the test
      emits the header and the as-written directory step is the section. */
  lemma AfterDirectoryIsSection(chunk: string, cat: Category, frags: seq<Fragment>)
    requires !Contains(chunk, CategoryName(cat))
    ensures AfterDirectory(chunk, cat, frags) == chunk + Section(cat, frags)
  {
    if frags != [] {
      ConcatAssoc(chunk, Header(cat), Entries(frags));
    }
  }

  /** When the name is already present, the header is dropped. */
  lemma AfterDirectoryDropsHeader(chunk: string, cat: Category, frags: seq<Fragment>)
    requires Contains(chunk, CategoryName(cat))
    ensures AfterDirectory(chunk, cat, frags) == chunk + Entries(frags)
  {
    assert HeaderAsWritten(chunk, cat) == "";
    assert chunk + "" == chunk;
  }

  /** The marker line never holds a category name, so the first category
      always gets its header. */
  lemma MarkerLineLacksDefinitions()
    ensures !Contains(Marker + "\n", CategoryName(Definitions))
  {
    LacksChar(Marker + "\n", CategoryName(Definitions), 'd');
  }

  /** The two agree whenever no fragment emitted before a category holds that
      category's name. */
  lemma CompileAsWrittenAgrees(fileData: string, fs: FileSystem, refDirs: seq<string>, isWindows: bool)
    requires GeneratedBlock(fs, refDirs, isWindows).Ok?
    requires var d := CategoryFragments(fs, refDirs, Definitions, Yaml, isWindows).value;
             !Contains(Marker + "\n" + Section(Definitions, d), CategoryName(Responses))
    requires var d := CategoryFragments(fs, refDirs, Definitions, Yaml, isWindows).value;
             var r := CategoryFragments(fs, refDirs, Responses, Yaml, isWindows).value;
             !Contains(Marker + "\n" + Section(Definitions, d) + Section(Responses, r), CategoryName(Parameters))
    ensures CompileAsWritten(fileData, fs, refDirs, isWindows) == CompileYaml(fileData, fs, refDirs, isWindows)
  {
    CategoriesAsWrittenIsBlock(fs, refDirs, isWindows);
    var m := Marker + "\n";
    var d := CategoryFragments(fs, refDirs, Definitions, Yaml, isWindows).value;
    var r := CategoryFragments(fs, refDirs, Responses, Yaml, isWindows).value;
    var p := CategoryFragments(fs, refDirs, Parameters, Yaml, isWindows).value;
    MarkerLineLacksDefinitions();
    AfterDirectoryIsSection(m, Definitions, d);
    AfterDirectoryIsSection(m + Section(Definitions, d), Responses, r);
    AfterDirectoryIsSection(m + Section(Definitions, d) + Section(Responses, r), Parameters, p);
  }

  /** A directory step only appends, and never more than the section. */
  lemma AfterDirectoryBounds(chunk: string, cat: Category, frags: seq<Fragment>)
    ensures chunk <= AfterDirectory(chunk, cat, frags)
    ensures |AfterDirectory(chunk, cat, frags)| <= |chunk| + |Section(cat, frags)|
  {
  }

  /** Once the text holds a category's name, that category's header is lost,
      whatever a category in between appends. */
  lemma HeaderLostAfter(c1: string, between: Category, r: seq<Fragment>, cat: Category, p: seq<Fragment>)
    requires Contains(c1, CategoryName(cat)) && p != []
    ensures |AfterDirectory(AfterDirectory(c1, between, r), cat, p)| + |Header(cat)|
            <= |c1| + |Section(between, r)| + |Section(cat, p)|
  {
    var c2 := AfterDirectory(c1, between, r);
    AfterDirectoryBounds(c1, between, r);
    ContainsInExtension(c1, c2, CategoryName(cat));
    AfterDirectoryDropsHeader(c2, cat, p);
  }

  /** A definitions fragment's name is in the definitions section. */
  lemma SectionShowsName(m: string, d: seq<Fragment>, i: nat, t: string)
    requires i < |d| && Contains(d[i].name, t)
    ensures Contains(m + Section(Definitions, d), t)
  {
    EntriesShowName(d, i, t);
    ContainsInSuffix(Header(Definitions), Entries(d), t);
    assert Section(Definitions, d) == Header(Definitions) + Entries(d);
    ContainsInSuffix(m, Section(Definitions, d), t);
  }

  /** The header test looks for the category's name anywhere in the text
      generated so far, fragment names and paths included.  A definitions
      fragment whose name holds "parameters" therefore suppresses the
      `parameters:` header, and the parameter entries land under the
      previous category: the output is shorter than the corrected one. */
  lemma HeaderLostAsWritten(fileData: string, fs: FileSystem, refDirs: seq<string>, isWindows: bool, i: nat)
    requires GeneratedBlock(fs, refDirs, isWindows).Ok?
    requires var d := CategoryFragments(fs, refDirs, Definitions, Yaml, isWindows).value;
             i < |d| && Contains(d[i].name, CategoryName(Parameters))
    requires CategoryFragments(fs, refDirs, Parameters, Yaml, isWindows).value != []
    ensures CompileAsWritten(fileData, fs, refDirs, isWindows).Ok?
    ensures |CompileAsWritten(fileData, fs, refDirs, isWindows).value|
            + |Header(Parameters)| <= |CompileYaml(fileData, fs, refDirs, isWindows).value|
  {
    CategoriesAsWrittenIsBlock(fs, refDirs, isWindows);
    var m := Marker + "\n";
    var d := CategoryFragments(fs, refDirs, Definitions, Yaml, isWindows).value;
    var r := CategoryFragments(fs, refDirs, Responses, Yaml, isWindows).value;
    var p := CategoryFragments(fs, refDirs, Parameters, Yaml, isWindows).value;
    MarkerLineLacksDefinitions();
    AfterDirectoryIsSection(m, Definitions, d);
    SectionShowsName(m, d, i, CategoryName(Parameters));
    HeaderLostAfter(m + Section(Definitions, d), Responses, r, Parameters, p);
  }
}
