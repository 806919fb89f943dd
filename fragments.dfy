/** Fragment discovery shared by both pipelines of bin/refc.js: the three
    categories, the file-name filter, `_getItemName`, `_getItemPath`, and the
    listing of `<refDir>/<category>/` with ENOENT tolerated. */
module Fragments {
  import opened Results
  import opened Text

  /** The `definitions`, `responses` and `parameters` fields of a Swagger 2.0 object. */
  datatype Category = Definitions | Responses | Parameters

  /** `directoryTypes`, in the order both pipelines scan them. */
  const Categories: seq<Category> := [Definitions, Responses, Parameters]

  function CategoryName(c: Category): string {
    match c
    case Definitions => "definitions"
    case Responses => "responses"
    case Parameters => "parameters"
  }

  datatype Format = Yaml | Json

  function Extension(f: Format): string {
    match f
    case Yaml => "yaml"
    case Json => "json"
  }

  /** The characters `.` in a JavaScript regular expression does not match. */
  predicate IsLineTerminator(c: char) {
    c == '\n' || c == '\r' || c == '\U{2028}' || c == '\U{2029}'
  }

  /** `/.+\.(ext)$/i.test(name)`, decided on the last characters: the extension
      (in any ASCII case) ends the name, a dot precedes it, and the character
      before the dot is one `.` can match. */
  predicate HasExtension(name: string, f: Format) {
    var ext := Extension(f);
    var dot := |name| - |ext| - 1;
    && |name| >= |ext| + 2
    && name[dot] == '.'
    && SameIgnoringCase(name[dot + 1..], ext)
    && !IsLineTerminator(name[dot - 1])
  }

  /** The same test read as the regular expression's search: some start `i`
      and some dot position `k` such that `.+` covers `name[i..k]`, `\.` matches
      `name[k]`, the extension matches next and `$` is the end of the name. */
  ghost predicate RegexMatches(name: string, f: Format) {
    var ext := Extension(f);
    exists i, k :: 0 <= i < k < |name|
      && NoLineTerminator(name[i..k])
      && name[k] == '.'
      && k + 1 + |ext| == |name|
      && SameIgnoringCase(name[k + 1..], ext)
  }

  predicate NoLineTerminator(s: string) {
    forall j :: 0 <= j < |s| ==> !IsLineTerminator(s[j])
  }

  lemma HasExtensionIsRegexMatch(name: string, f: Format)
    ensures HasExtension(name, f) <==> RegexMatches(name, f)
  {
    var ext := Extension(f);
    var dot := |name| - |ext| - 1;
    if HasExtension(name, f) {
      assert name[dot - 1..dot] == [name[dot - 1]];
      assert NoLineTerminator(name[dot - 1..dot]);
    }
    if RegexMatches(name, f) {
      var i, k :| 0 <= i < k < |name|
        && NoLineTerminator(name[i..k])
        && name[k] == '.'
        && k + 1 + |ext| == |name|
        && SameIgnoringCase(name[k + 1..], ext);
      assert name[i..k][k - 1 - i] == name[k - 1];
    }
  }

  /** `_getItemName`: the text before the first ".yaml" when the name holds one,
      otherwise the text before the first ".json" (both tests case-sensitive). */
  function ItemName(file: string): (name: string)
    ensures name <= file
    ensures Contains(file, ".yaml") ==> OccursAt(file, ".yaml", |name|) && !Contains(name, ".yaml")
    ensures !Contains(file, ".yaml") && Contains(file, ".json") ==>
              OccursAt(file, ".json", |name|) && !Contains(name, ".json")
    ensures !Contains(file, ".yaml") && !Contains(file, ".json") ==> name == file
  {
    if IndexOf(file, ".yaml", 0).Some? then BeforeFirst(file, ".yaml") else BeforeFirst(file, ".json")
  }

  /** Stripping the extension from a plain stem gives the stem back. */
  lemma ItemNameOfStem(stem: string)
    requires !Contains(stem, ".yaml") && !Contains(stem, ".json")
    ensures ItemName(stem + ".yaml") == stem
    ensures ItemName(stem + ".json") == stem
  {
    FirstCharUnique(".yaml");
    FirstCharUnique(".json");
    FirstOccurrenceAfter(stem, ".yaml", "");
    FirstOccurrenceAfter(stem, ".json", "");
    assert stem + ".yaml" + "" == stem + ".yaml";
    assert stem + ".json" + "" == stem + ".json";
    var s := stem + ".json";
    forall j: nat | j + 5 <= |s| ensures !OccursAt(s, ".yaml", j) {
      if j + 5 <= |stem| {
        assert s[j..j + 5] == stem[j..j + 5];
        if OccursAt(s, ".yaml", j) {
          ContainsAt(stem, ".yaml", j);
        }
      } else {
        var k := |stem| - j;
        assert s[j..j + 5][k] == '.';
      }
    }
    assert !Contains(s, ".yaml");
  }

  /** In particular a stem without dots, such as `widget`, comes back. */
  lemma ItemNameOfDotlessStem(stem: string)
    requires '.' !in stem
    ensures ItemName(stem + ".yaml") == stem
    ensures ItemName(stem + ".json") == stem
  {
    LacksChar(stem, ".yaml", '.');
    LacksChar(stem, ".json", '.');
    ItemNameOfStem(stem);
  }

  /** The extension test of `_getItemName` is case-sensitive. */
  lemma ItemNameKeepsUpperCase()
    ensures ItemName("W.YAML") == "W.YAML"
  {
    LacksChar("W.YAML", ".yaml", 'y');
    LacksChar("W.YAML", ".json", 'j');
  }

  function Separator(isWindows: bool): char {
    if isWindows then '\\' else '/'
  }

  /** `path.join(a, b)` without normalisation: an empty segment is dropped. */
  function Join(a: string, b: string, sep: char): (r: string)
    ensures a <= r
    ensures |b| <= |r| && r[|r| - |b|..] == b
    ensures |r| == |a| + |b| + (if a == "" || b == "" then 0 else 1)
    ensures a != "" && b != "" ==> r[|a|] == sep
  {
    if a == "" then b else if b == "" then a else a + [sep] + b
  }

  /** `path.relative(swaggerDir, path.join(swaggerDir, indir, category))`. */
  function RelativeDir(indir: string, cat: Category, isWindows: bool): string {
    Join(indir, CategoryName(cat), Separator(isWindows))
  }

  /** `_getItemPath`: the directory and the file name joined; on Windows every
      backslash then becomes a forward slash, so no backslash is left. */
  function ItemPath(relativePath: string, fileName: string, isWindows: bool): (p: string)
    ensures isWindows ==> '\\' !in p
    ensures isWindows ==> |p| == |Join(relativePath, fileName, '\\')|
    ensures !isWindows ==> p == Join(relativePath, fileName, '/')
    ensures isWindows ==> p == Slashed(Join(relativePath, fileName, '/'))
  {
    var joined := Join(relativePath, fileName, Separator(isWindows));
    if isWindows then
      SlashedJoin(relativePath, fileName, '\\');
      SlashedJoin(relativePath, fileName, '/');
      Slashed(joined)
    else joined
  }

  /** The reference a fragment gets.  */
  function FragmentPath(indir: string, cat: Category, file: string, isWindows: bool): string {
    ItemPath(RelativeDir(indir, cat, isWindows), file, isWindows)
  }

  /** Joining and then turning backslashes into slashes is joining the
      slashed segments with a slash, whichever separator was used. */
  lemma SlashedJoin(a: string, b: string, sep: char)
    requires sep == '\\' || sep == '/'
    ensures Slashed(Join(a, b, sep)) == Join(Slashed(a), Slashed(b), '/')
  {
    if a != "" && b != "" {
      assert Slashed([sep]) == ['/'];
      SlashedAppend(a + [sep], b);
      SlashedAppend(a, [sep]);
    }
  }

  /** A category directory reads the same on both platforms once slashed. */
  lemma RelativeDirPortable(indir: string, cat: Category)
    ensures Slashed(RelativeDir(indir, cat, true)) == Slashed(RelativeDir(indir, cat, false))
  {
    SlashedNoBackslash(CategoryName(cat));
    SlashedJoin(indir, CategoryName(cat), '\\');
    SlashedJoin(indir, CategoryName(cat), '/');
  }

  /** Joining two slash-only segments with a slash leaves nothing to slash. */
  lemma SlashedJoinClean(a: string, b: string)
    requires Slashed(a) == a && Slashed(b) == b
    ensures Slashed(Join(a, b, '/')) == Join(a, b, '/')
  {
    SlashedJoin(a, b, '/');
  }

  /** Slashing a POSIX path whose segments hold no backslash changes nothing. */
  lemma PosixPathUnchanged(indir: string, cat: Category, file: string)
    requires '\\' !in indir && '\\' !in file
    ensures Slashed(FragmentPath(indir, cat, file, false)) == FragmentPath(indir, cat, file, false)
  {
    SlashedNoBackslash(indir);
    SlashedNoBackslash(CategoryName(cat));
    SlashedNoBackslash(file);
    SlashedJoinClean(indir, CategoryName(cat));
    var u := RelativeDir(indir, cat, false);
    assert u == Join(indir, CategoryName(cat), '/');
    SlashedJoinClean(u, file);
    assert FragmentPath(indir, cat, file, false) == Join(u, file, '/');
  }

  /** The path written on Windows is the POSIX one with its backslashes turned
      into slashes; when no segment holds a backslash the two are identical. */
  lemma FragmentPathPortable(indir: string, cat: Category, file: string)
    ensures FragmentPath(indir, cat, file, true) == Slashed(FragmentPath(indir, cat, file, false))
    ensures '\\' !in indir && '\\' !in file ==> FragmentPath(indir, cat, file, true) == FragmentPath(indir, cat, file, false)
  {
    var w := RelativeDir(indir, cat, true);
    var u := RelativeDir(indir, cat, false);
    RelativeDirPortable(indir, cat);
    SlashedJoin(w, file, '\\');
    SlashedJoin(u, file, '/');
    if '\\' !in indir && '\\' !in file {
      PosixPathUnchanged(indir, cat, file);
    }
  }

  /** One discovered fragment: its reference name and its path. */
  datatype Fragment = Fragment(name: string, path: string)

  /** The entries of a listing the pipeline keeps, in listing order
      (`if (/.+\.(ext)$/i.test(file)) items.push(file)`). */
  function Matching(files: seq<string>, f: Format): (items: seq<string>)
    ensures forall x :: x in items <==> x in files && HasExtension(x, f)
    ensures |items| <= |files|
  {
    if files == [] then []
    else
      var last := files[|files| - 1];
      assert files == files[..|files| - 1] + [last];
      Matching(files[..|files| - 1], f) + (if HasExtension(last, f) then [last] else [])
  }

  /** The filter keeps listing order: the kept names of two listings in a row
      are the kept names of the first followed by those of the second. */
  lemma {:induction false} MatchingAppend(a: seq<string>, b: seq<string>, f: Format)
    ensures Matching(a + b, f) == Matching(a, f) + Matching(b, f)
    decreases |b|
  {
    if b == [] {
      assert a + b == a;
    } else {
      var init := b[..|b| - 1];
      var last := b[|b| - 1];
      assert (a + b)[..|a + b| - 1] == a + init;
      assert (a + b)[|a + b| - 1] == last;
      MatchingAppend(a, init, f);
      var tail := if HasExtension(last, f) then [last] else [];
      assert Matching(a + init, f) + tail == Matching(a, f) + (Matching(init, f) + tail);
    }
  }

  /** A single name is kept exactly when it has the extension. */
  lemma MatchingOne(name: string, f: Format)
    ensures Matching([name], f) == if HasExtension(name, f) then [name] else []
  {
    assert [name][..0] == [];
  }

  /** `files.forEach(...)` pushing the matching names onto `items`. */
  method CollectMatching(files: seq<string>, f: Format) returns (items: seq<string>)
    ensures items == Matching(files, f)
  {
    items := [];
    for i := 0 to |files|
      invariant items == Matching(files[..i], f)
    {
      assert files[..i + 1][..i] == files[..i];
      if HasExtension(files[i], f) {
        items := items + [files[i]];
      }
    }
    assert files[..|files|] == files;
  }

  /** The fragments that the kept names of one directory stand for. */
  function DirFragments(indir: string, cat: Category, items: seq<string>, isWindows: bool): seq<Fragment> {
    seq(|items|, i requires 0 <= i < |items| => FragmentOf(indir, cat, items[i], isWindows))
  }

  /** The fragment one kept file stands for. */
  function FragmentOf(indir: string, cat: Category, file: string, isWindows: bool): Fragment {
    Fragment(ItemName(file), FragmentPath(indir, cat, file, isWindows))
  }

  lemma DirFragmentsSnoc(indir: string, cat: Category, items: seq<string>, i: nat, isWindows: bool)
    requires i < |items|
    ensures DirFragments(indir, cat, items[..i + 1], isWindows)
         == DirFragments(indir, cat, items[..i], isWindows) + [FragmentOf(indir, cat, items[i], isWindows)]
  {
    var a := DirFragments(indir, cat, items[..i + 1], isWindows);
    var b := DirFragments(indir, cat, items[..i], isWindows);
    forall k | 0 <= k < i + 1 ensures a[k] == (b + [FragmentOf(indir, cat, items[i], isWindows)])[k] {
      assert items[..i + 1][k] == items[k];
      if k < i {
        assert items[..i][k] == items[k];
      }
    }
  }

  lemma DirFragmentsAt(indir: string, cat: Category, items: seq<string>, i: nat, isWindows: bool)
    requires i < |items|
    ensures DirFragments(indir, cat, items, isWindows)[i]
         == Fragment(ItemName(items[i]), ItemPath(RelativeDir(indir, cat, isWindows), items[i], isWindows))
  {
  }

  /** What `fs.readdirSync` does with `<swaggerDir>/<indir>/<category>`. */
  datatype Listing =
    | Missing                   // ENOENT: the category directory does not exist
    | Unreadable                // any other error
    | Files(names: seq<string>) // the entries, in the order the file system gives them

  /** The file system the run sees, as a pure input. */
  type FileSystem = (string, Category) -> Listing

  /** The fragments one reference directory yields for one category. */
  function ListDirectory(fs: FileSystem, indir: string, cat: Category, f: Format, isWindows: bool): (r: Result<seq<Fragment>>)
    ensures r.Err? <==> fs(indir, cat).Unreadable?
    ensures r.Err? ==> r.error == ListingFailed(RelativeDir(indir, cat, isWindows))
    ensures fs(indir, cat).Missing? ==> r == Ok([])
    ensures fs(indir, cat).Files? ==> |r.value| <= |fs(indir, cat).names|
  {
    match fs(indir, cat)
    case Missing => Ok([])
    case Unreadable => Err(ListingFailed(RelativeDir(indir, cat, isWindows)))
    case Files(names) => Ok(DirFragments(indir, cat, Matching(names, f), isWindows))
  }

  /** The fragments of one category over all reference directories, in directory
      order and, within a directory, in listing order; the first unreadable
      directory aborts. */
  function CategoryFragments(fs: FileSystem, refDirs: seq<string>, cat: Category, f: Format, isWindows: bool): (r: Result<seq<Fragment>>)
    ensures r.Err? ==> exists i :: 0 <= i < |refDirs| && ListDirectory(fs, refDirs[i], cat, f, isWindows) == Err(r.error)
    ensures r.Ok? ==> forall i :: 0 <= i < |refDirs| ==> ListDirectory(fs, refDirs[i], cat, f, isWindows).Ok?
    ensures r.Ok? && refDirs != [] ==> ListDirectory(fs, refDirs[0], cat, f, isWindows).value <= r.value
    decreases |refDirs|
  {
    if refDirs == [] then Ok([])
    else
      assert forall i :: 0 < i < |refDirs| ==> refDirs[i] == refDirs[1..][i - 1];
      var here :- ListDirectory(fs, refDirs[0], cat, f, isWindows);
      var rest :- CategoryFragments(fs, refDirs[1..], cat, f, isWindows);
      Ok(here + rest)
  }

  /** Discovery fails exactly when some reference directory's listing fails
      with something other than ENOENT. */
  lemma {:induction false} CategoryFragmentsFails(fs: FileSystem, refDirs: seq<string>, cat: Category, f: Format, isWindows: bool)
    ensures CategoryFragments(fs, refDirs, cat, f, isWindows).Err?
        <==> exists i :: 0 <= i < |refDirs| && fs(refDirs[i], cat).Unreadable?
    decreases |refDirs|
  {
    if refDirs != [] {
      CategoryFragmentsFails(fs, refDirs[1..], cat, f, isWindows);
      if exists i :: 0 <= i < |refDirs| && fs(refDirs[i], cat).Unreadable? {
        var i :| 0 <= i < |refDirs| && fs(refDirs[i], cat).Unreadable?;
        if i > 0 {
          assert refDirs[1..][i - 1] == refDirs[i];
        }
      }
      if exists i :: 0 <= i < |refDirs[1..]| && fs(refDirs[1..][i], cat).Unreadable? {
        var i :| 0 <= i < |refDirs[1..]| && fs(refDirs[1..][i], cat).Unreadable?;
        assert refDirs[i + 1] == refDirs[1..][i];
      }
    }
  }

  /** A category whose directory is missing under every reference directory
      yields no fragments and no error. */
  lemma {:induction false} MissingCategoryYieldsNothing(fs: FileSystem, refDirs: seq<string>, cat: Category, f: Format, isWindows: bool)
    requires forall i :: 0 <= i < |refDirs| ==> fs(refDirs[i], cat) == Missing
    ensures CategoryFragments(fs, refDirs, cat, f, isWindows) == Ok([])
    decreases |refDirs|
  {
    if refDirs != [] {
      assert fs(refDirs[0], cat) == Missing;
      var here := ListDirectory(fs, refDirs[0], cat, f, isWindows);
      assert here == Ok([]) && here.value + [] == [];
      forall i | 0 <= i < |refDirs[1..]| ensures fs(refDirs[1..][i], cat) == Missing {
        assert refDirs[1..][i] == refDirs[i + 1];
      }
      MissingCategoryYieldsNothing(fs, refDirs[1..], cat, f, isWindows);
    }
  }
}
