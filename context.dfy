// The context heuristic of SessionMemory.infer_context: a first-match-wins
// cascade over the lower-cased file name, its suffix, and the first ten
// lines of the file when the file could be opened.
module Context {
  import opened Wrappers
  import opened Text

  /** The extension table, keyed by lower-cased suffix. */
  const Extensions: seq<(string, string)> := [
    (".py", "Examining Python code"),
    (".js", "Examining JavaScript code"),
    (".ts", "Examining TypeScript code"),
    (".jsx", "Examining React component"),
    (".tsx", "Examining React TypeScript component"),
    (".css", "Examining styles"),
    (".scss", "Examining SCSS styles"),
    (".html", "Examining HTML markup"),
    (".json", "Examining configuration/data"),
    (".md", "Examining documentation"),
    (".yml", "Examining YAML configuration"),
    (".yaml", "Examining YAML configuration"),
    (".toml", "Examining TOML configuration"),
    (".dockerfile", "Examining Docker configuration"),
    (".sql", "Examining database schema/queries"),
    (".sh", "Examining shell script"),
    (".bash", "Examining bash script"),
    (".zsh", "Examining zsh script")
  ]

  /** Special file-name substrings, in the order they are tried. */
  const SpecialFiles: seq<(string, string)> := [
    ("package.json", "Examining project dependencies and scripts"),
    ("requirements.txt", "Examining Python dependencies"),
    ("cargo.toml", "Examining Rust project configuration"),
    ("dockerfile", "Examining Docker container setup"),
    ("makefile", "Examining build configuration"),
    ("readme", "Reading project documentation"),
    ("changelog", "Examining project history"),
    ("license", "Examining project license"),
    (".gitignore", "Examining git ignore patterns"),
    (".env", "Examining environment configuration"),
    ("config", "Examining configuration file")
  ]

  /** Index of the first entry of `table`, from `i` on, whose pattern occurs in `name`. */
  function FirstContained(name: string, table: seq<(string, string)>, i: nat): (r: Option<nat>)
    ensures r.Some? ==> i <= r.value < |table| && Contains(name, table[r.value].0)
    ensures r.Some? ==> forall j :: i <= j < r.value ==> !Contains(name, table[j].0)
    ensures r.None? ==> forall j :: i <= j < |table| ==> !Contains(name, table[j].0)
    decreases |table| - i
  {
    if i >= |table| then None
    else if Contains(name, table[i].0) then Some(i)
    else FirstContained(name, table, i + 1)
  }

  /** Dictionary lookup: the value of the first entry whose key is `key`. */
  function Lookup(table: seq<(string, string)>, key: string): (r: Option<string>)
    ensures r.None? <==> forall j :: 0 <= j < |table| ==> table[j].0 != key
    ensures r.Some? ==> exists j :: 0 <= j < |table| && table[j] == (key, r.value)
  {
    if table == [] then None
    else if table[0].0 == key then Some(table[0].1)
    else
      var r := Lookup(table[1..], key);
      assert forall j :: 1 <= j < |table| ==> table[j] == table[1..][j - 1];
      r
  }

  /** Some word of `words` occurs in `s`. */
  predicate ContainsAny(s: string, words: seq<string>) {
    |words| > 0 && (Contains(s, words[0]) || ContainsAny(s, words[1..]))
  }

  /** `keyword\s+\w+` matches in `s` for some keyword of `keywords`. */
  predicate DefinesAny(s: string, keywords: seq<string>) {
    |keywords| > 0 && (SearchDefinition(s, keywords[0]) || DefinesAny(s, keywords[1..]))
  }

  /** One refinement of an extension description, as a reference table. */
  datatype Rule =
    | NameHas(words: seq<string>, caption: string)
    | ContentDefines(keywords: seq<string>, caption: string)
    | ContentHas(words: seq<string>, caption: string)

  /** Whether `rule` holds of a lower-cased file name and lower-cased content. */
  predicate Holds(rule: Rule, name: string, text: string) {
    match rule
    case NameHas(words, _) => ContainsAny(name, words)
    case ContentDefines(keywords, _) => DefinesAny(text, keywords)
    case ContentHas(words, _) => ContainsAny(text, words)
  }

  /** The refinements in their order of priority. */
  const Refinements: seq<Rule> := [
    NameHas(["test", "spec"], "test file"),
    NameHas(["api", "endpoint"], "API code"),
    NameHas(["component"], "component"),
    NameHas(["util", "helper"], "utility functions"),
    NameHas(["config", "setting"], "configuration"),
    ContentDefines(["class"], "class definition"),
    ContentDefines(["function", "def"], "function definitions"),
    ContentHas(["import", "from"], "module imports and setup")
  ]

  /** `f"Examining {suffix[1:]} <what>"`. */
  function Caption(ext: string, what: string): string {
    "Examining " + ext + " " + what
  }

  /** The elif chain that refines the description `plain` of extension `ext`
      from the lower-cased file name and the lower-cased first lines. */
  function Refine(ext: string, name: string, text: string, plain: string): string {
    if Contains(name, "test") || Contains(name, "spec") then Caption(ext, "test file")
    else if Contains(name, "api") || Contains(name, "endpoint") then Caption(ext, "API code")
    else if Contains(name, "component") then Caption(ext, "component")
    else if Contains(name, "util") || Contains(name, "helper") then Caption(ext, "utility functions")
    else if Contains(name, "config") || Contains(name, "setting") then Caption(ext, "configuration")
    else RefineByContent(ext, text, plain)
  }

  /** The rest of the elif chain, once no name check matched: the checks
      of the lower-cased first lines. */
  function RefineByContent(ext: string, text: string, plain: string): string {
    if SearchDefinition(text, "class") then Caption(ext, "class definition")
    else if SearchDefinition(text, "function") || SearchDefinition(text, "def") then
      Caption(ext, "function definitions")
    else if Contains(text, "import") || Contains(text, "from") then Caption(ext, "module imports and setup")
    else plain
  }

  /** The lower-cased name of the file at `path` (a normalised absolute path). */
  function FileNameLower(path: string): string {
    Lower(AfterLastSlash(path))
  }

  /** The lower-cased suffix of the file at `path`. */
  function SuffixLower(path: string): string {
    Lower(Suffix(AfterLastSlash(path)))
  }

  /** infer_context. `firstLines` is the text of the file's first ten lines,
      or None when the file cannot be opened; a directory cannot be opened. */
  function InferContext(path: string, isDir: bool, firstLines: Option<string>): string {
    var name := FileNameLower(path);
    match FirstContained(name, SpecialFiles, 0)
    case Some(k) => SpecialFiles[k].1
    case None =>
      var suffix := SuffixLower(path);
      match Lookup(Extensions, suffix)
      case Some(plain) =>
        var readable := if isDir then None else firstLines;
        (match readable
         case Some(text) => Refine(DropFirst(suffix), name, Lower(text), plain)
         case None => plain)
      case None =>
        if isDir then "Examining directory structure"
        else if suffix == [] then "Examining file"
        else "Examining " + DropFirst(suffix)
  }

  // ---------------------------------------------------------------------
  // Properties of the cascade

  /** Special file names win: the first special pattern contained in the
      lower-cased name decides the result, before any extension check. */
  lemma SpecialNameWins(path: string, isDir: bool, firstLines: Option<string>, k: nat)
    requires k < |SpecialFiles| && Contains(FileNameLower(path), SpecialFiles[k].0)
    requires forall j :: 0 <= j < k ==> !Contains(FileNameLower(path), SpecialFiles[j].0)
    ensures InferContext(path, isDir, firstLines) == SpecialFiles[k].1
  {
    var r := FirstContained(FileNameLower(path), SpecialFiles, 0);
    assert r == Some(k);
  }

  /** A name containing "package.json" is described as a dependency
      manifest, not by the ".json" extension entry. */
  lemma PackageJsonIsDependencies(path: string, isDir: bool, firstLines: Option<string>)
    requires Contains(FileNameLower(path), "package.json")
    ensures InferContext(path, isDir, firstLines) == "Examining project dependencies and scripts"
  {
    SpecialNameWins(path, isDir, firstLines, 0);
  }

  /** A name containing "config" never reaches the extension refinements:
      the result is the description of some special file name. */
  lemma ConfigNameIsSpecial(path: string, isDir: bool, firstLines: Option<string>)
    requires Contains(FileNameLower(path), "config")
    ensures exists k :: 0 <= k < |SpecialFiles| && InferContext(path, isDir, firstLines) == SpecialFiles[k].1
  {
    var r := FirstContained(FileNameLower(path), SpecialFiles, 0);
    assert SpecialFiles[10].0 == "config";
    assert r.Some?;
  }

  /** The elif chain is the rule table read top to bottom: the first rule
      that holds decides the caption. */
  lemma RefineFirstRule(ext: string, name: string, text: string, plain: string, k: nat)
    requires k < |Refinements| && Holds(Refinements[k], name, text)
    requires forall j :: 0 <= j < k ==> !Holds(Refinements[j], name, text)
    ensures Refine(ext, name, text, plain) == Caption(ext, Refinements[k].caption)
  {
    NameRulesUnfold(name, text);
    if k == 0 {
      assert Refine(ext, name, text, plain) == Caption(ext, "test file");
    } else if k == 1 {
      assert !Holds(Refinements[0], name, text);
      assert Refine(ext, name, text, plain) == Caption(ext, "API code");
    } else if k == 2 {
      assert !Holds(Refinements[0], name, text) && !Holds(Refinements[1], name, text);
      assert Refine(ext, name, text, plain) == Caption(ext, "component");
    } else if k < 5 {
      assert !Holds(Refinements[0], name, text) && !Holds(Refinements[1], name, text);
      assert !Holds(Refinements[2], name, text);
      RefineMiddle(ext, name, text, plain, k);
    } else {
      RefineContent(ext, name, text, plain, k);
    }
  }

  /** The utility and configuration name checks, once the first three failed. */
  lemma RefineMiddle(ext: string, name: string, text: string, plain: string, k: nat)
    requires k == 3 || k == 4
    requires Holds(Refinements[k], name, text)
    requires forall j :: 0 <= j < k ==> !Holds(Refinements[j], name, text)
    ensures Refine(ext, name, text, plain) == Caption(ext, Refinements[k].caption)
  {
    NameRulesUnfold(name, text);
    if k == 4 {
      assert !Holds(Refinements[3], name, text);
    }
  }

  /** The three content checks, once every name check failed. */
  lemma RefineContent(ext: string, name: string, text: string, plain: string, k: nat)
    requires 5 <= k < 8
    requires Holds(Refinements[k], name, text)
    requires forall j :: 0 <= j < k ==> !Holds(Refinements[j], name, text)
    ensures Refine(ext, name, text, plain) == Caption(ext, Refinements[k].caption)
  {
    NameRulesFail(ext, name, text, plain);
    ContentRulesUnfold(name, text);
    if k == 6 {
      assert !Holds(Refinements[5], name, text);
    } else if k == 7 {
      assert !Holds(Refinements[5], name, text) && !Holds(Refinements[6], name, text);
    }
  }

  /** When no name rule holds, the chain goes on to the content checks. */
  lemma NameRulesFail(ext: string, name: string, text: string, plain: string)
    requires !Holds(Refinements[0], name, text) && !Holds(Refinements[1], name, text)
    requires !Holds(Refinements[2], name, text) && !Holds(Refinements[3], name, text)
    requires !Holds(Refinements[4], name, text)
    ensures Refine(ext, name, text, plain) == RefineByContent(ext, text, plain)
  {
    NameRulesUnfold(name, text);
  }

  /** When no rule holds, the plain extension description is kept. */
  lemma RefineNoRule(ext: string, name: string, text: string, plain: string)
    requires forall j :: 0 <= j < |Refinements| ==> !Holds(Refinements[j], name, text)
    ensures Refine(ext, name, text, plain) == plain
  {
    NameRulesFail(ext, name, text, plain);
    ContentRulesUnfold(name, text);
  }

  /** What each rule of the table says, spelled out. */
  lemma RulesUnfold(name: string, text: string)
    ensures Holds(Refinements[0], name, text) <==> Contains(name, "test") || Contains(name, "spec")
    ensures Holds(Refinements[1], name, text) <==> Contains(name, "api") || Contains(name, "endpoint")
    ensures Holds(Refinements[2], name, text) <==> Contains(name, "component")
    ensures Holds(Refinements[3], name, text) <==> Contains(name, "util") || Contains(name, "helper")
    ensures Holds(Refinements[4], name, text) <==> Contains(name, "config") || Contains(name, "setting")
    ensures Holds(Refinements[5], name, text) <==> SearchDefinition(text, "class")
    ensures Holds(Refinements[6], name, text) <==>
            SearchDefinition(text, "function") || SearchDefinition(text, "def")
    ensures Holds(Refinements[7], name, text) <==> Contains(text, "import") || Contains(text, "from")
  {
    NameRulesUnfold(name, text);
    ContentRulesUnfold(name, text);
  }

  /** The five name rules, spelled out. */
  lemma NameRulesUnfold(name: string, text: string)
    ensures Holds(Refinements[0], name, text) <==> Contains(name, "test") || Contains(name, "spec")
    ensures Holds(Refinements[1], name, text) <==> Contains(name, "api") || Contains(name, "endpoint")
    ensures Holds(Refinements[2], name, text) <==> Contains(name, "component")
    ensures Holds(Refinements[3], name, text) <==> Contains(name, "util") || Contains(name, "helper")
    ensures Holds(Refinements[4], name, text) <==> Contains(name, "config") || Contains(name, "setting")
  {
    assert Refinements[0].words == ["test", "spec"];
    assert Refinements[1].words == ["api", "endpoint"];
    assert Refinements[2].words == ["component"];
    assert Refinements[3].words == ["util", "helper"];
    assert Refinements[4].words == ["config", "setting"];
    ListsUnfold(name, "test", "spec");
    ListsUnfold(name, "api", "endpoint");
    ListsUnfold(name, "util", "helper");
    ListsUnfold(name, "config", "setting");
    ListsUnfold(name, "component", "component");
  }

  /** The three content rules, spelled out. */
  lemma ContentRulesUnfold(name: string, text: string)
    ensures Holds(Refinements[5], name, text) <==> SearchDefinition(text, "class")
    ensures Holds(Refinements[6], name, text) <==>
            SearchDefinition(text, "function") || SearchDefinition(text, "def")
    ensures Holds(Refinements[7], name, text) <==> Contains(text, "import") || Contains(text, "from")
  {
    assert Refinements[5].keywords == ["class"];
    assert Refinements[6].keywords == ["function", "def"];
    assert Refinements[7].words == ["import", "from"];
    ListsUnfold(text, "function", "def");
    ListsUnfold(text, "import", "from");
    ListsUnfold(text, "class", "class");
  }

  lemma ListsUnfold(s: string, a: string, b: string)
    ensures ContainsAny(s, [a, b]) <==> Contains(s, a) || Contains(s, b)
    ensures DefinesAny(s, [a, b]) <==> SearchDefinition(s, a) || SearchDefinition(s, b)
    ensures ContainsAny(s, [a]) <==> Contains(s, a)
    ensures DefinesAny(s, [a]) <==> SearchDefinition(s, a)
  {
    assert [a, b][1..] == [b];
    assert [b][1..] == [];
    assert [a][1..] == [];
    assert ContainsAny(s, [b]) <==> Contains(s, b);
    assert DefinesAny(s, [b]) <==> SearchDefinition(s, b);
  }

  /** For a file with no special name and a known extension that could be
      opened, the first rule that holds gives "Examining <ext> <caption>". */
  lemma ExtensionRefined(path: string, firstLines: string, plain: string, k: nat)
    requires forall j :: 0 <= j < |SpecialFiles| ==> !Contains(FileNameLower(path), SpecialFiles[j].0)
    requires Lookup(Extensions, SuffixLower(path)) == Some(plain)
    requires k < |Refinements| && Holds(Refinements[k], FileNameLower(path), Lower(firstLines))
    requires forall j :: 0 <= j < k ==> !Holds(Refinements[j], FileNameLower(path), Lower(firstLines))
    ensures InferContext(path, false, Some(firstLines))
            == Caption(DropFirst(SuffixLower(path)), Refinements[k].caption)
  {
    RefineFirstRule(DropFirst(SuffixLower(path)), FileNameLower(path), Lower(firstLines), plain, k);
  }

  /** For a file with no special name and a known extension that could be
      opened, but that no rule matches, the plain table entry is kept. */
  lemma ExtensionUnrefined(path: string, firstLines: string, plain: string)
    requires forall j :: 0 <= j < |SpecialFiles| ==> !Contains(FileNameLower(path), SpecialFiles[j].0)
    requires Lookup(Extensions, SuffixLower(path)) == Some(plain)
    requires forall j :: 0 <= j < |Refinements| ==> !Holds(Refinements[j], FileNameLower(path), Lower(firstLines))
    ensures InferContext(path, false, Some(firstLines)) == plain
  {
    RefineNoRule(DropFirst(SuffixLower(path)), FileNameLower(path), Lower(firstLines), plain);
  }

  /** Whatever the file contains and whatever else its name says, a name
      containing "test" makes a known extension a test file: that check
      precedes the "api" name check and the function-definition check, so
      "user_api_test.py" holding "def test_login():" is a "py test file". */
  lemma TestNameWins(path: string, firstLines: string, plain: string)
    requires forall j :: 0 <= j < |SpecialFiles| ==> !Contains(FileNameLower(path), SpecialFiles[j].0)
    requires Lookup(Extensions, SuffixLower(path)) == Some(plain)
    requires Contains(FileNameLower(path), "test")
    ensures InferContext(path, false, Some(firstLines)) == Caption(DropFirst(SuffixLower(path)), "test file")
  {
    NameRulesUnfold(FileNameLower(path), Lower(firstLines));
    ExtensionRefined(path, firstLines, plain, 0);
  }

  /** With a known extension, a file that cannot be opened (or a directory)
      keeps the plain table entry: no refinement applies. */
  lemma UnreadableKeepsPlain(path: string, isDir: bool, firstLines: Option<string>, plain: string)
    requires forall j :: 0 <= j < |SpecialFiles| ==> !Contains(FileNameLower(path), SpecialFiles[j].0)
    requires Lookup(Extensions, SuffixLower(path)) == Some(plain)
    requires isDir || firstLines.None?
    ensures InferContext(path, isDir, firstLines) == plain
  {
  }

  /** Outside both tables the result is the fallback: a directory, a bare
      extension, or a generic file. */
  lemma Fallback(path: string, isDir: bool, firstLines: Option<string>)
    requires forall j :: 0 <= j < |SpecialFiles| ==> !Contains(FileNameLower(path), SpecialFiles[j].0)
    requires forall j :: 0 <= j < |Extensions| ==> Extensions[j].0 != SuffixLower(path)
    ensures isDir ==> InferContext(path, isDir, firstLines) == "Examining directory structure"
    ensures !isDir && SuffixLower(path) == [] ==> InferContext(path, isDir, firstLines) == "Examining file"
    ensures !isDir && SuffixLower(path) != [] ==>
            InferContext(path, isDir, firstLines) == "Examining " + SuffixLower(path)[1..]
  {
  }

  /** A dot-file such as ".gitignore" has no suffix. */
  lemma DotFileHasNoSuffix(name: string)
    requires |name| > 0 && name[0] == '.' && '.' !in name[1..]
    ensures Suffix(name) == []
  {
  }
}
