/** The JSON pipeline of bin/refc.js (`compileJSONReferences`): parse the base
    document, make sure each category key holds an object, and write
    `{ "$ref": path }` under `document[category][name]` for every fragment.

    Property access follows JavaScript in sloppy mode: reading a property of
    `null` (or of `undefined`) throws a TypeError, writing a property of a
    number, string or boolean is silently ignored, and a named property written
    on an array is not serialised. The model treats every fragment name as an
    ordinary property name: it does not model array indices, an array's
    `length`, or the properties a number, string or boolean inherits. */
module JsonInjector {
  import opened Results
  import opened Fragments

  /** A parsed JSON document. Objects are maps; key order is not modelled. */
  datatype JsonValue =
    | JNull
    | JBool(b: bool)
    | JNumber(n: real)
    | JString(s: string)
    | JArray(elems: seq<JsonValue>)
    | JObject(fields: map<string, JsonValue>)

  /** JavaScript truthiness of a parsed value (a JSON number is never NaN). */
  predicate Truthy(v: JsonValue) {
    match v
    case JNull => false
    case JBool(b) => b
    case JNumber(n) => n != 0.0
    case JString(s) => s != ""
    case JArray(_) => true
    case JObject(_) => true
  }

  /** A Reference Object: `{ "$ref": path }`. */
  function Ref(path: string): JsonValue {
    JObject(map["$ref" := JString(path)])
  }

  /** The key of a category holds something truthy. */
  predicate HasTruthy(m: map<string, JsonValue>, key: string) {
    key in m && Truthy(m[key])
  }

  // ---------------------------------------------------------------------------
  // The run, step by step

  /** `if (!jsonData[directoryType]) jsonData[directoryType] = {};` */
  function EnsureCategory(doc: JsonValue, cat: Category): (r: Result<JsonValue>)
    ensures r.Err? <==> doc.JNull?
    ensures r.Err? ==> r.error == TypeError
    ensures doc.JObject? && HasTruthy(doc.fields, CategoryName(cat)) ==> r == Ok(doc)
    ensures !doc.JObject? && !doc.JNull? ==> r == Ok(doc)
  {
    match doc
    case JNull => Err(TypeError)
    case JObject(m) =>
      var key := CategoryName(cat);
      Ok(if HasTruthy(m, key) then doc else JObject(m[key := JObject(map[])]))
    case _ => Ok(doc)
  }

  /** `jsonData[directoryType][itemName] = {}; jsonData[directoryType][itemName].$ref = itemPath;`
      In the model, an array (the document or the category) takes the write as
      a named property that is never serialised, and any other non-object
      throws. Names that JavaScript gives a meaning on such a target (an array
      index, `length`, an inherited property) are not modelled. */
  function Inject(doc: JsonValue, cat: Category, frag: Fragment): (r: Result<JsonValue>)
    ensures r.Err? <==> Rejects(doc, cat)
    ensures r.Err? ==> r.error == TypeError
    ensures Absorbs(doc, cat) ==> r == Ok(doc)
  {
    match doc
    case JObject(m) =>
      var key := CategoryName(cat);
      if key !in m then Err(TypeError)
      else
        (match m[key]
         case JObject(c) => Ok(JObject(m[key := JObject(c[frag.name := Ref(frag.path)])]))
         case JArray(_) => Ok(doc)
         case _ => Err(TypeError))
    case JArray(_) => Ok(doc)
    case _ => Err(TypeError)
  }

  function InjectFragments(doc: JsonValue, cat: Category, frags: seq<Fragment>): (r: Result<JsonValue>)
    ensures r.Err? ==> r.error == TypeError
    decreases |frags|
  {
    if frags == [] then Ok(doc)
    else
      var next :- Inject(doc, cat, frags[0]);
      InjectFragments(next, cat, frags[1..])
  }

  /** The body of the `refDirs.forEach` callback. */
  function DirectoryInjected(doc: JsonValue, fs: FileSystem, indir: string, cat: Category, isWindows: bool): (r: Result<JsonValue>)
    ensures r.Err? ==> r.error == TypeError || r.error.ListingFailed?
  {
    var frags :- ListDirectory(fs, indir, cat, Json, isWindows);
    InjectFragments(doc, cat, frags)
  }

  function InjectDirs(doc: JsonValue, fs: FileSystem, refDirs: seq<string>, cat: Category, isWindows: bool): (r: Result<JsonValue>)
    ensures r.Err? ==> r.error == TypeError || r.error.ListingFailed?
    decreases |refDirs|
  {
    if refDirs == [] then Ok(doc)
    else
      var next :- DirectoryInjected(doc, fs, refDirs[0], cat, isWindows);
      InjectDirs(next, fs, refDirs[1..], cat, isWindows)
  }

  /** The body of the `directoryTypes.forEach` callback. */
  function InjectCategory(doc: JsonValue, fs: FileSystem, refDirs: seq<string>, cat: Category, isWindows: bool): (r: Result<JsonValue>)
    ensures r.Err? ==> r.error == TypeError || r.error.ListingFailed?
  {
    var ready :- EnsureCategory(doc, cat);
    InjectDirs(ready, fs, refDirs, cat, isWindows)
  }

  function InjectCategories(doc: JsonValue, fs: FileSystem, refDirs: seq<string>, cats: seq<Category>, isWindows: bool): (r: Result<JsonValue>)
    ensures r.Err? ==> r.error == TypeError || r.error.ListingFailed?
    decreases |cats|
  {
    if cats == [] then Ok(doc)
    else
      var next :- InjectCategory(doc, fs, refDirs, cats[0], isWindows);
      InjectCategories(next, fs, refDirs, cats[1..], isWindows)
  }

  /** The tree `compileJSONReferences` serialises, given what `JSON.parse` made
      of the base file (`None` when it rejected it). */
  function CompileJson(parsed: Option<JsonValue>, fs: FileSystem, refDirs: seq<string>, isWindows: bool): (r: Result<JsonValue>)
    ensures r == Err(MalformedDocument) <==> parsed.None?
    ensures r.Err? && parsed.Some? ==> r.error == TypeError || r.error.ListingFailed?
  {
    match parsed
    case None => Err(MalformedDocument)
    case Some(doc) => InjectCategories(doc, fs, refDirs, Categories, isWindows)
  }

  /** On an object document, the category key ends truthy and no other key changes. */
  lemma EnsureCategoryObject(m: map<string, JsonValue>, cat: Category)
    ensures var r := EnsureCategory(JObject(m), cat);
            && r.Ok? && r.value.JObject?
            && HasTruthy(r.value.fields, CategoryName(cat))
            && r.value.fields == m[CategoryName(cat) := r.value.fields[CategoryName(cat)]]
  {
    var key := CategoryName(cat);
    if HasTruthy(m, key) {
      assert m[key := m[key]] == m;
    }
  }

  /** A write that neither throws nor is absorbed sets `name` to the fragment's
      reference inside the category object, and changes nothing else. */
  lemma InjectWrites(doc: JsonValue, cat: Category, frag: Fragment)
    requires Inject(doc, cat, frag).Ok? && !Absorbs(doc, cat)
    ensures doc.JObject? && CategoryName(cat) in doc.fields && doc.fields[CategoryName(cat)].JObject?
    ensures var out := Inject(doc, cat, frag).value;
            && out.JObject? && CategoryName(cat) in out.fields
            && out.fields == doc.fields[CategoryName(cat) := out.fields[CategoryName(cat)]]
            && out.fields[CategoryName(cat)].JObject?
            && out.fields[CategoryName(cat)].fields == doc.fields[CategoryName(cat)].fields[frag.name := Ref(frag.path)]
  {
  }

  // ---------------------------------------------------------------------------
  // The code

  /** The body of the `refDirs.forEach` callback: list the directory, keep the
      `.json` names and write one reference per name. */
  method InjectDirectory(jsonData: JsonValue, fs: FileSystem, indir: string, cat: Category, isWindows: bool)
    returns (r: Result<JsonValue>)
    ensures r == DirectoryInjected(jsonData, fs, indir, cat, isWindows)
  {
    match fs(indir, cat)
    case Missing =>
      r := Ok(jsonData);
    case Unreadable =>
      r := Err(ListingFailed(RelativeDir(indir, cat, isWindows)));
    case Files(files) =>
      var items := CollectMatching(files, Json);
      r := InjectItems(jsonData, indir, cat, items, isWindows);
  }

  /** `items.forEach(...)`: one reference per kept file, in listing order; the
      first write that throws ends the run. */
  method InjectItems(jsonData: JsonValue, indir: string, cat: Category, items: seq<string>, isWindows: bool)
    returns (r: Result<JsonValue>)
    ensures r == InjectFragments(jsonData, cat, DirFragments(indir, cat, items, isWindows))
  {
    var relativePath := RelativeDir(indir, cat, isWindows);
    ghost var frags := DirFragments(indir, cat, items, isWindows);
    var out := jsonData;
    for i := 0 to |items|
      invariant InjectFragments(out, cat, frags[i..]) == InjectFragments(jsonData, cat, frags)
    {
      var itemName := ItemName(items[i]);
      var itemPath := ItemPath(relativePath, items[i], isWindows);
      DirFragmentsAt(indir, cat, items, i, isWindows);
      InjectStep(out, cat, frags, i);
      var next := WriteReference(out, cat, itemName, itemPath);
      if next.Err? {
        return Err(next.error);
      }
      out := next.value;
    }
    r := Ok(out);
  }

  lemma InjectStep(doc: JsonValue, cat: Category, frags: seq<Fragment>, i: nat)
    requires i < |frags|
    ensures Inject(doc, cat, frags[i]).Err? ==>
              InjectFragments(doc, cat, frags[i..]) == Err(Inject(doc, cat, frags[i]).error)
    ensures Inject(doc, cat, frags[i]).Ok? ==>
              InjectFragments(doc, cat, frags[i..]) == InjectFragments(Inject(doc, cat, frags[i]).value, cat, frags[i + 1..])
  {
    assert frags[i..][0] == frags[i];
    assert frags[i..][1..] == frags[i + 1..];
  }

  /** One iteration of `items.forEach`: the two assignments through
      `jsonData[directoryType]`. */
  method WriteReference(jsonData: JsonValue, cat: Category, itemName: string, itemPath: string)
    returns (r: Result<JsonValue>)
    ensures r == Inject(jsonData, cat, Fragment(itemName, itemPath))
  {
    var key := CategoryName(cat);
    match jsonData {
      case JObject(m) =>
        if key !in m {
          return Err(TypeError);
        }
        match m[key] {
          case JObject(c) =>
            r := Ok(JObject(m[key := JObject(c[itemName := Ref(itemPath)])]));
          case JArray(_) =>
            r := Ok(jsonData);
          case _ =>
            r := Err(TypeError);
        }
      case JArray(_) =>
        r := Ok(jsonData);
      case _ =>
        r := Err(TypeError);
    }
  }

  /** The body of the `directoryTypes.forEach` callback. */
  method InjectCategoryInto(jsonData: JsonValue, fs: FileSystem, refDirs: seq<string>, cat: Category, isWindows: bool)
    returns (r: Result<JsonValue>)
    ensures r == InjectCategory(jsonData, fs, refDirs, cat, isWindows)
  {
    var key := CategoryName(cat);
    var out := jsonData;
    match out {
      case JNull =>
        return Err(TypeError);
      case JObject(m) =>
        if !(key in m && Truthy(m[key])) {
          out := JObject(m[key := JObject(map[])]);
        }
      case _ =>
    }
    assert EnsureCategory(jsonData, cat) == Ok(out);
    ghost var ready := out;
    for i := 0 to |refDirs|
      invariant InjectDirs(out, fs, refDirs[i..], cat, isWindows) == InjectDirs(ready, fs, refDirs, cat, isWindows)
    {
      assert refDirs[i..][1..] == refDirs[i + 1..];
      var next := InjectDirectory(out, fs, refDirs[i], cat, isWindows);
      if next.Err? {
        return Err(next.error);
      }
      out := next.value;
    }
    r := Ok(out);
  }

  /** `compileJSONReferences(swaggerDir, baseSpecFile, refDirs, outFile)`, with
      the parsed base document given and the tree to serialise returned. */
  method CompileJSONReferences(parsed: Option<JsonValue>, fs: FileSystem, refDirs: seq<string>, isWindows: bool)
    returns (r: Result<JsonValue>)
    ensures r == CompileJson(parsed, fs, refDirs, isWindows)
  {
    if parsed.None? {
      return Err(MalformedDocument);
    }
    var jsonData := parsed.value;
    for i := 0 to |Categories|
      invariant InjectCategories(jsonData, fs, refDirs, Categories[i..], isWindows)
             == InjectCategories(parsed.value, fs, refDirs, Categories, isWindows)
    {
      assert Categories[i..][1..] == Categories[i + 1..];
      var next := InjectCategoryInto(jsonData, fs, refDirs, Categories[i], isWindows);
      if next.Err? {
        return Err(next.error);
      }
      jsonData := next.value;
    }
    r := Ok(jsonData);
  }

  // ---------------------------------------------------------------------------
  // Writing references into one object

  /** The entries of a category object after the fragments' writes, in order. */
  function InjectAll(c: map<string, JsonValue>, frags: seq<Fragment>): map<string, JsonValue>
    decreases |frags|
  {
    if frags == [] then c else InjectAll(c[frags[0].name := Ref(frags[0].path)], frags[1..])
  }

  /** The position of the last fragment named `k`. */
  function LastNamed(frags: seq<Fragment>, k: string): (r: Option<nat>)
    ensures r.Some? ==> r.value < |frags| && frags[r.value].name == k
    ensures r.Some? ==> forall j :: r.value < j < |frags| ==> frags[j].name != k
    ensures r.None? ==> forall j :: 0 <= j < |frags| ==> frags[j].name != k
    decreases |frags|
  {
    if frags == [] then None
    else if frags[|frags| - 1].name == k then Some(|frags| - 1)
    else LastNamed(frags[..|frags| - 1], k)
  }

  lemma {:induction false} InjectAllAppend(c: map<string, JsonValue>, a: seq<Fragment>, b: seq<Fragment>)
    ensures InjectAll(c, a + b) == InjectAll(InjectAll(c, a), b)
    decreases |a|
  {
    if a != [] {
      assert (a + b)[0] == a[0];
      assert (a + b)[1..] == a[1..] + b;
      InjectAllAppend(c[a[0].name := Ref(a[0].path)], a[1..], b);
    } else {
      assert a + b == b;
    }
  }

  /** Last writer wins: after the writes, `k` holds the reference of the last
      fragment named `k`, or what it held before when no fragment has that
      name; no other key appears. */
  lemma {:induction false} InjectAllLookup(c: map<string, JsonValue>, frags: seq<Fragment>, k: string)
    ensures k in InjectAll(c, frags) <==> k in c || LastNamed(frags, k).Some?
    ensures LastNamed(frags, k).Some? ==> InjectAll(c, frags)[k] == Ref(frags[LastNamed(frags, k).value].path)
    ensures LastNamed(frags, k).None? && k in c ==> InjectAll(c, frags)[k] == c[k]
    decreases |frags|
  {
    if frags != [] {
      var init := frags[..|frags| - 1];
      var last := frags[|frags| - 1];
      assert frags == init + [last];
      InjectAllAppend(c, init, [last]);
      assert InjectAll(InjectAll(c, init), [last]) == InjectAll(c, init)[last.name := Ref(last.path)];
      InjectAllLookup(c, init, k);
      if last.name != k {
        assert LastNamed(frags, k) == LastNamed(init, k);
        if LastNamed(init, k).Some? {
          assert frags[LastNamed(init, k).value] == init[LastNamed(init, k).value];
        }
      }
    }
  }

  lemma {:induction false} InjectFragmentsObject(m: map<string, JsonValue>, cat: Category, c: map<string, JsonValue>, frags: seq<Fragment>)
    requires CategoryName(cat) in m && m[CategoryName(cat)] == JObject(c)
    ensures InjectFragments(JObject(m), cat, frags) == Ok(JObject(m[CategoryName(cat) := JObject(InjectAll(c, frags))]))
    decreases |frags|
  {
    if frags != [] {
      var key := CategoryName(cat);
      var c1 := c[frags[0].name := Ref(frags[0].path)];
      var m1 := m[key := JObject(c1)];
      assert Inject(JObject(m), cat, frags[0]) == Ok(JObject(m1));
      InjectFragmentsObject(m1, cat, c1, frags[1..]);
      assert m1[key := JObject(InjectAll(c1, frags[1..]))] == m[key := JObject(InjectAll(c1, frags[1..]))];
    } else {
      assert m[CategoryName(cat) := JObject(c)] == m;
    }
  }

  lemma {:induction false} InjectDirsObject(m: map<string, JsonValue>, cat: Category, c: map<string, JsonValue>,
                                            fs: FileSystem, refDirs: seq<string>, isWindows: bool)
    requires CategoryName(cat) in m && m[CategoryName(cat)] == JObject(c)
    ensures InjectDirs(JObject(m), fs, refDirs, cat, isWindows)
         == (var frags :- CategoryFragments(fs, refDirs, cat, Json, isWindows);
            Ok(JObject(m[CategoryName(cat) := JObject(InjectAll(c, frags))])))
    decreases |refDirs|
  {
    if refDirs != [] {
      var key := CategoryName(cat);
      var here := ListDirectory(fs, refDirs[0], cat, Json, isWindows);
      if here.Ok? {
        var c1 := InjectAll(c, here.value);
        var m1 := m[key := JObject(c1)];
        InjectFragmentsObject(m, cat, c, here.value);
        InjectDirsObject(m1, cat, c1, fs, refDirs[1..], isWindows);
        var rest := CategoryFragments(fs, refDirs[1..], cat, Json, isWindows);
        if rest.Ok? {
          InjectAllAppend(c, here.value, rest.value);
          assert m1[key := JObject(InjectAll(c1, rest.value))] == m[key := JObject(InjectAll(c, here.value + rest.value))];
        }
      }
    } else {
      assert m[CategoryName(cat) := JObject(c)] == m;
    }
  }

  // ---------------------------------------------------------------------------
  // Targets that are not objects

  /** Writes through this target land on an array as unserialised named
      properties: in the model the document as JSON does not change. */
  predicate Absorbs(doc: JsonValue, cat: Category) {
    doc.JArray? || (doc.JObject? && CategoryName(cat) in doc.fields && doc.fields[CategoryName(cat)].JArray?)
  }

  /** Writes through this target throw in the model: it is `null`, a number, a
      string or a boolean, or the category under it is not an object or an array. */
  predicate Rejects(doc: JsonValue, cat: Category) {
    !doc.JArray?
    && (doc.JObject? ==> CategoryName(cat) !in doc.fields || !(doc.fields[CategoryName(cat)].JObject? || doc.fields[CategoryName(cat)].JArray?))
  }

  lemma {:induction false} InjectFragmentsAbsorbed(doc: JsonValue, cat: Category, frags: seq<Fragment>)
    requires Absorbs(doc, cat)
    ensures InjectFragments(doc, cat, frags) == Ok(doc)
    decreases |frags|
  {
    if frags != [] {
      InjectFragmentsAbsorbed(doc, cat, frags[1..]);
    }
  }

  lemma {:induction false} InjectDirsAbsorbed(doc: JsonValue, cat: Category, fs: FileSystem, refDirs: seq<string>, isWindows: bool)
    requires Absorbs(doc, cat)
    ensures InjectDirs(doc, fs, refDirs, cat, isWindows)
         == (var _ :- CategoryFragments(fs, refDirs, cat, Json, isWindows); Ok(doc))
    decreases |refDirs|
  {
    if refDirs != [] {
      var here := ListDirectory(fs, refDirs[0], cat, Json, isWindows);
      if here.Ok? {
        InjectFragmentsAbsorbed(doc, cat, here.value);
        InjectDirsAbsorbed(doc, cat, fs, refDirs[1..], isWindows);
      }
    }
  }

  lemma InjectFragmentsRejected(doc: JsonValue, cat: Category, frags: seq<Fragment>)
    requires Rejects(doc, cat)
    ensures InjectFragments(doc, cat, frags) == if frags == [] then Ok(doc) else Err(TypeError)
  {
  }

  /** A target that throws survives the category only when no directory
      yields a fragment, and then nothing changes. */
  lemma {:induction false} InjectDirsRejected(doc: JsonValue, cat: Category, fs: FileSystem, refDirs: seq<string>, isWindows: bool)
    requires Rejects(doc, cat)
    ensures InjectDirs(doc, fs, refDirs, cat, isWindows).Ok? <==> CategoryFragments(fs, refDirs, cat, Json, isWindows) == Ok([])
    ensures InjectDirs(doc, fs, refDirs, cat, isWindows).Ok? ==> InjectDirs(doc, fs, refDirs, cat, isWindows).value == doc
    decreases |refDirs|
  {
    if refDirs != [] {
      var here := ListDirectory(fs, refDirs[0], cat, Json, isWindows);
      if here.Ok? {
        InjectFragmentsRejected(doc, cat, here.value);
        InjectDirsRejected(doc, cat, fs, refDirs[1..], isWindows);
        var rest := CategoryFragments(fs, refDirs[1..], cat, Json, isWindows);
        if rest.Ok? && here.value == [] {
          assert here.value + rest.value == rest.value;
        }
        if rest.Ok? && here.value != [] {
          assert |here.value + rest.value| > 0;
        }
      }
    }
  }

  // ---------------------------------------------------------------------------
  // One category of an object document

  /** The category can take references: it is absent, falsy, or an object. */
  predicate Injectable(m: map<string, JsonValue>, cat: Category) {
    !HasTruthy(m, CategoryName(cat)) || m[CategoryName(cat)].JObject?
  }

  /** The entries a category starts from once `{}` has replaced a falsy value. */
  function BaseOf(m: map<string, JsonValue>, cat: Category): map<string, JsonValue> {
    if HasTruthy(m, CategoryName(cat)) && m[CategoryName(cat)].JObject? then m[CategoryName(cat)].fields else map[]
  }

  /** The category key of `m` holding its base entries with the fragments
      written over them. */
  function Placed(m: map<string, JsonValue>, cat: Category, frags: seq<Fragment>): map<string, JsonValue> {
    m[CategoryName(cat) := JObject(InjectAll(BaseOf(m, cat), frags))]
  }

  /** Placing one category leaves another one as it was. */
  lemma PlacedElsewhere(m: map<string, JsonValue>, placed: Category, frags: seq<Fragment>, other: Category)
    requires placed != other
    ensures CategoryName(other) in Placed(m, placed, frags) <==> CategoryName(other) in m
    ensures CategoryName(other) in m ==> Placed(m, placed, frags)[CategoryName(other)] == m[CategoryName(other)]
    ensures BaseOf(Placed(m, placed, frags), other) == BaseOf(m, other)
    ensures Injectable(m, other) ==> Injectable(Placed(m, placed, frags), other)
  {
  }

  /** A key written twice keeps only the second value. */
  lemma Overwritten<K, V>(m: map<K, V>, k: K, v: V, w: V)
    ensures m[k := v][k := w] == m[k := w]
  {
  }

  /** An injectable category is set to its base entries before the directories run. */
  lemma EnsuredBase(m: map<string, JsonValue>, cat: Category)
    requires Injectable(m, cat)
    ensures EnsureCategory(JObject(m), cat) == Ok(JObject(m[CategoryName(cat) := JObject(BaseOf(m, cat))]))
  {
    var key := CategoryName(cat);
    if HasTruthy(m, key) {
      assert m[key := JObject(BaseOf(m, cat))] == m;
    }
  }

  lemma InjectCategoryObject(m: map<string, JsonValue>, cat: Category, fs: FileSystem, refDirs: seq<string>, isWindows: bool)
    requires Injectable(m, cat)
    ensures InjectCategory(JObject(m), fs, refDirs, cat, isWindows)
         == (var frags :- CategoryFragments(fs, refDirs, cat, Json, isWindows);
            Ok(JObject(Placed(m, cat, frags))))
  {
    var key := CategoryName(cat);
    var base := JObject(BaseOf(m, cat));
    EnsuredBase(m, cat);
    InjectDirsObject(m[key := base], cat, BaseOf(m, cat), fs, refDirs, isWindows);
    var found := CategoryFragments(fs, refDirs, cat, Json, isWindows);
    if found.Ok? {
      Overwritten(m, key, base, JObject(InjectAll(BaseOf(m, cat), found.value)));
    }
  }

  /** What one category leaves in an object document, whatever it held. */
  ghost predicate CategoryStep(m: map<string, JsonValue>, out: JsonValue, cat: Category) {
    var key := CategoryName(cat);
    && out.JObject? && key in out.fields
    && out.fields == m[key := out.fields[key]]
    && Truthy(out.fields[key])
    && (HasTruthy(m, key) && !m[key].JObject? ==> out.fields[key] == m[key])
    && (!HasTruthy(m, key) ==> out.fields[key].JObject?)
  }

  lemma InjectCategoryStep(m: map<string, JsonValue>, cat: Category, fs: FileSystem, refDirs: seq<string>, isWindows: bool)
    requires InjectCategory(JObject(m), fs, refDirs, cat, isWindows).Ok?
    ensures CategoryStep(m, InjectCategory(JObject(m), fs, refDirs, cat, isWindows).value, cat)
  {
    var key := CategoryName(cat);
    if Injectable(m, cat) {
      InjectCategoryObject(m, cat, fs, refDirs, isWindows);
    } else {
      assert m[key := m[key]] == m;
      if m[key].JArray? {
        InjectDirsAbsorbed(JObject(m), cat, fs, refDirs, isWindows);
      } else {
        InjectDirsRejected(JObject(m), cat, fs, refDirs, isWindows);
      }
    }
  }

  // ---------------------------------------------------------------------------
  // The whole document

  predicate IsCategoryKey(k: string) {
    k == CategoryName(Definitions) || k == CategoryName(Responses) || k == CategoryName(Parameters)
  }

  /** Every key that is not a category key is present in both maps alike. */
  ghost predicate SameOutside(m: map<string, JsonValue>, n: map<string, JsonValue>) {
    forall k :: !IsCategoryKey(k) ==> (k in m <==> k in n) && (k in m ==> m[k] == n[k])
  }

  /** A category key after the run: present and truthy, an existing truthy
      non-object kept as it was, a missing or falsy one now an object. */
  ghost predicate KeyKept(m: map<string, JsonValue>, n: map<string, JsonValue>, cat: Category) {
    var key := CategoryName(cat);
    && key in n && Truthy(n[key])
    && (HasTruthy(m, key) && !m[key].JObject? ==> n[key] == m[key])
    && (!HasTruthy(m, key) ==> n[key].JObject?)
  }

  /** The three categories in a row, each starting where the previous ended. */
  lemma CompileJsonUnfolds(doc: JsonValue, fs: FileSystem, refDirs: seq<string>, isWindows: bool)
    ensures CompileJson(Some(doc), fs, refDirs, isWindows)
         == (var d :- InjectCategory(doc, fs, refDirs, Definitions, isWindows);
            var r :- InjectCategory(d, fs, refDirs, Responses, isWindows);
            InjectCategory(r, fs, refDirs, Parameters, isWindows))
  {
    assert Categories[1..] == [Responses, Parameters];
    assert Categories[1..][1..] == [Parameters];
    assert Categories[1..][1..][1..] == [];
    var d := InjectCategory(doc, fs, refDirs, Definitions, isWindows);
    if d.Ok? {
      var r := InjectCategory(d.value, fs, refDirs, Responses, isWindows);
      if r.Ok? {
        var p := InjectCategory(r.value, fs, refDirs, Parameters, isWindows);
        if p.Ok? {
          assert InjectCategories(p.value, fs, refDirs, [], isWindows) == p;
        }
      }
    }
  }

  /** For an object document, a successful run keeps every key other than the
      three category keys, and leaves each category key holding something
      truthy: its old value when that was truthy but not an object, an object
      when it was missing or falsy. */
  lemma CompileJsonKeepsKeys(m: map<string, JsonValue>, fs: FileSystem, refDirs: seq<string>, isWindows: bool)
    requires CompileJson(Some(JObject(m)), fs, refDirs, isWindows).Ok?
    ensures CompileJson(Some(JObject(m)), fs, refDirs, isWindows).value.JObject?
    ensures SameOutside(m, CompileJson(Some(JObject(m)), fs, refDirs, isWindows).value.fields)
    ensures KeyKept(m, CompileJson(Some(JObject(m)), fs, refDirs, isWindows).value.fields, Definitions)
    ensures KeyKept(m, CompileJson(Some(JObject(m)), fs, refDirs, isWindows).value.fields, Responses)
    ensures KeyKept(m, CompileJson(Some(JObject(m)), fs, refDirs, isWindows).value.fields, Parameters)
  {
    CompileJsonUnfolds(JObject(m), fs, refDirs, isWindows);
    var d := InjectCategory(JObject(m), fs, refDirs, Definitions, isWindows).value;
    InjectCategoryStep(m, Definitions, fs, refDirs, isWindows);
    var r := InjectCategory(d, fs, refDirs, Responses, isWindows).value;
    InjectCategoryStep(d.fields, Responses, fs, refDirs, isWindows);
    var p := InjectCategory(r, fs, refDirs, Parameters, isWindows).value;
    InjectCategoryStep(r.fields, Parameters, fs, refDirs, isWindows);
  }

  /** An object document every category of which can take references. */
  predicate WellShaped(m: map<string, JsonValue>) {
    Injectable(m, Definitions) && Injectable(m, Responses) && Injectable(m, Parameters)
  }

  /** The tree the run is meant to produce, built from the discovered
      fragments: each category key holds its old entries (or none) with one
      reference per fragment written over them in discovery order. */
  function ExpectedJson(m: map<string, JsonValue>, fs: FileSystem, refDirs: seq<string>, isWindows: bool): Result<JsonValue> {
    var d :- CategoryFragments(fs, refDirs, Definitions, Json, isWindows);
    var r :- CategoryFragments(fs, refDirs, Responses, Json, isWindows);
    var p :- CategoryFragments(fs, refDirs, Parameters, Json, isWindows);
    Ok(JObject(Placed(Placed(Placed(m, Definitions, d), Responses, r), Parameters, p)))
  }

  /** Each category key of the expected tree holds the category's base
      entries with its own fragments written over them. */
  lemma ExpectedJsonAt(m: map<string, JsonValue>, fs: FileSystem, refDirs: seq<string>, isWindows: bool, cat: Category)
    requires ExpectedJson(m, fs, refDirs, isWindows).Ok?
    ensures CategoryFragments(fs, refDirs, cat, Json, isWindows).Ok?
    ensures var n := ExpectedJson(m, fs, refDirs, isWindows).value;
            n.JObject? && CategoryName(cat) in n.fields
            && n.fields[CategoryName(cat)] == JObject(InjectAll(BaseOf(m, cat), CategoryFragments(fs, refDirs, cat, Json, isWindows).value))
  {
    var d := CategoryFragments(fs, refDirs, Definitions, Json, isWindows).value;
    var r := CategoryFragments(fs, refDirs, Responses, Json, isWindows).value;
    var p := CategoryFragments(fs, refDirs, Parameters, Json, isWindows).value;
    var m1 := Placed(m, Definitions, d);
    var m2 := Placed(m1, Responses, r);
    match cat
    case Definitions =>
      PlacedElsewhere(m1, Responses, r, Definitions);
      PlacedElsewhere(m2, Parameters, p, Definitions);
    case Responses =>
      PlacedElsewhere(m, Definitions, d, Responses);
      PlacedElsewhere(m2, Parameters, p, Responses);
    case Parameters =>
      PlacedElsewhere(m, Definitions, d, Parameters);
      PlacedElsewhere(m1, Responses, r, Parameters);
  }

  /** On a well-shaped object document the run produces exactly the expected
      tree, and fails exactly when discovery fails, with the first failing
      listing's error. */
  lemma CompileJsonWellShaped(m: map<string, JsonValue>, fs: FileSystem, refDirs: seq<string>, isWindows: bool)
    requires WellShaped(m)
    ensures CompileJson(Some(JObject(m)), fs, refDirs, isWindows) == ExpectedJson(m, fs, refDirs, isWindows)
  {
    CompileJsonUnfolds(JObject(m), fs, refDirs, isWindows);
    InjectCategoryObject(m, Definitions, fs, refDirs, isWindows);
    var d := CategoryFragments(fs, refDirs, Definitions, Json, isWindows);
    if d.Ok? {
      var m1 := Placed(m, Definitions, d.value);
      PlacedElsewhere(m, Definitions, d.value, Responses);
      PlacedElsewhere(m, Definitions, d.value, Parameters);
      InjectCategoryObject(m1, Responses, fs, refDirs, isWindows);
      var r := CategoryFragments(fs, refDirs, Responses, Json, isWindows);
      if r.Ok? {
        PlacedElsewhere(m1, Responses, r.value, Parameters);
        InjectCategoryObject(Placed(m1, Responses, r.value), Parameters, fs, refDirs, isWindows);
      }
    }
  }

  /** On a well-shaped object document, after a successful run,
      `document[category][k]` is the reference of the last fragment named `k`,
      or the entry it held before when no fragment has that name, and no other
      entry appears. */
  lemma CompileJsonEntry(m: map<string, JsonValue>, fs: FileSystem, refDirs: seq<string>, isWindows: bool, cat: Category, k: string)
    requires WellShaped(m)
    requires CompileJson(Some(JObject(m)), fs, refDirs, isWindows).Ok?
    ensures CategoryFragments(fs, refDirs, cat, Json, isWindows).Ok?
    ensures var out := CompileJson(Some(JObject(m)), fs, refDirs, isWindows).value;
            out.JObject? && CategoryName(cat) in out.fields && out.fields[CategoryName(cat)].JObject?
    ensures var entries := CompileJson(Some(JObject(m)), fs, refDirs, isWindows).value.fields[CategoryName(cat)].fields;
            var frags := CategoryFragments(fs, refDirs, cat, Json, isWindows).value;
            && (k in entries <==> k in BaseOf(m, cat) || LastNamed(frags, k).Some?)
            && (LastNamed(frags, k).Some? ==> entries[k] == Ref(frags[LastNamed(frags, k).value].path))
            && (LastNamed(frags, k).None? && k in BaseOf(m, cat) ==> entries[k] == BaseOf(m, cat)[k])
  {
    CompileJsonWellShaped(m, fs, refDirs, isWindows);
    ExpectedJsonAt(m, fs, refDirs, isWindows, cat);
    var frags := CategoryFragments(fs, refDirs, cat, Json, isWindows).value;
    InjectAllLookup(BaseOf(m, cat), frags, k);
  }

  /** A `null` document throws at the first category. */
  lemma CompileJsonNullDocument(fs: FileSystem, refDirs: seq<string>, isWindows: bool)
    ensures CompileJson(Some(JNull), fs, refDirs, isWindows) == Err(TypeError)
  {
    CompileJsonUnfolds(JNull, fs, refDirs, isWindows);
  }

  /** An array document comes out unchanged unless a listing fails. */
  lemma CompileJsonArrayDocument(a: seq<JsonValue>, fs: FileSystem, refDirs: seq<string>, isWindows: bool)
    ensures CompileJson(Some(JArray(a)), fs, refDirs, isWindows)
         == (var _ :- CategoryFragments(fs, refDirs, Definitions, Json, isWindows);
            var _ :- CategoryFragments(fs, refDirs, Responses, Json, isWindows);
            var _ :- CategoryFragments(fs, refDirs, Parameters, Json, isWindows);
            Ok(JArray(a)))
  {
    CompileJsonUnfolds(JArray(a), fs, refDirs, isWindows);
    InjectDirsAbsorbed(JArray(a), Definitions, fs, refDirs, isWindows);
    InjectDirsAbsorbed(JArray(a), Responses, fs, refDirs, isWindows);
    InjectDirsAbsorbed(JArray(a), Parameters, fs, refDirs, isWindows);
  }

  /** A number, string or boolean document survives only when no fragment is
      found, and then comes out unchanged. */
  lemma CompileJsonScalarDocument(v: JsonValue, fs: FileSystem, refDirs: seq<string>, isWindows: bool)
    requires v.JBool? || v.JNumber? || v.JString?
    ensures CompileJson(Some(v), fs, refDirs, isWindows).Ok?
        <==> (&& CategoryFragments(fs, refDirs, Definitions, Json, isWindows) == Ok([])
              && CategoryFragments(fs, refDirs, Responses, Json, isWindows) == Ok([])
              && CategoryFragments(fs, refDirs, Parameters, Json, isWindows) == Ok([]))
    ensures CompileJson(Some(v), fs, refDirs, isWindows).Ok? ==> CompileJson(Some(v), fs, refDirs, isWindows).value == v
  {
    CompileJsonUnfolds(v, fs, refDirs, isWindows);
    InjectDirsRejected(v, Definitions, fs, refDirs, isWindows);
    InjectDirsRejected(v, Responses, fs, refDirs, isWindows);
    InjectDirsRejected(v, Parameters, fs, refDirs, isWindows);
  }
}
