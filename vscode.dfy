/** The discovery side of vscode.go: the label derived from an extension's
    directory name, the catalog entry built from a parsed theme document,
    the walk callback that filters the extensions tree, and the location of
    an extension's package.json. Reading files and decoding JSON are not
    modelled: each walk entry carries the document its file would decode to,
    or None when reading or decoding fails. */
module VSCode {
  import opened Wrappers
  import opened GoStrings
  import opened FilePath
  import opened Paths

  /** A decoded VS Code theme document (VSCodeTheme). Its token colours are
      decoded by the source but never used, and are not part of the model. */
  datatype VSCodeTheme = VSCodeTheme(name: string, themeType: string, colors: map<string, string>)

  /** A catalog entry (ThemeInfo). Discovery never sets the source's
      ExtensionMetadata field, so it is not part of the model. */
  datatype ThemeInfo = ThemeInfo(name: string, displayName: string, path: string, themeType: string)

  /** Why parseThemeFile rejects a file. */
  datatype ParseError = Unreadable | NoName

  /** One call of the filepath.WalkDir callback: the path, whether the walk
      reported an error for it, whether it is a directory, and what reading
      and decoding the file would give. */
  datatype WalkEntry = WalkEntry(path: string, walkError: bool, isDir: bool, document: Option<VSCodeTheme>)

  datatype DiscoveryError = ExtensionsPathUnavailable(cause: PathError)

  datatype MetadataError = NoExtensionsDirectory

  /** The name of the directory that holds the installed extensions. */
  const ExtensionsDirName: string := "extensions"

  /** Searching parts from index i: the index just after the first
      "extensions" element that has a successor, or None. */
  function ExtensionDirFrom(parts: seq<string>, i: nat): (r: Option<nat>)
    ensures r.Some? ==>
      && i < r.value < |parts|
      && parts[r.value - 1] == ExtensionsDirName
      && forall k :: i <= k < r.value - 1 ==> parts[k] != ExtensionsDirName
    ensures r.None? ==> forall k :: i <= k < |parts| - 1 ==> parts[k] != ExtensionsDirName
    decreases |parts| - i
  {
    if i + 1 >= |parts| then None
    else if parts[i] == ExtensionsDirName then Some(i + 1)
    else ExtensionDirFrom(parts, i + 1)
  }

  /** The index of the extension directory among the path elements: the one
      after the first "extensions" element that has a successor. */
  function ExtensionDirIndex(parts: seq<string>): Option<nat>
  {
    ExtensionDirFrom(parts, 0)
  }

  /** The heuristic for a version suffix: non-empty and starting with a digit
      or holding a '.'. */
  predicate LooksLikeVersion(v: string)
  {
    |v| > 0 && (IsAsciiDigit(v[0]) || '.' in v)
  }

  /** The extension directory name with the text from its last '-' on
      removed, when what follows that '-' looks like a version. */
  function StripVersion(dir: string): string
  {
    var lastDash := LastIndex(dir, '-');
    if lastDash != -1 && LooksLikeVersion(dir[lastDash + 1..]) then dir[..lastDash] else dir
  }

  /** A name without '-' is kept whole. */
  lemma StripVersionWithoutDash(dir: string)
    requires '-' !in dir
    ensures StripVersion(dir) == dir
  {
  }

  /** For name + "-" + v with no '-' in v: the suffix is removed exactly when
      v looks like a version. */
  lemma StripVersionAtLastDash(name: string, v: string)
    requires '-' !in v
    ensures StripVersion(name + "-" + v) == if LooksLikeVersion(v) then name else name + "-" + v
  {
    var dir := name + "-" + v;
    var i := LastIndex(dir, '-');
    assert dir[|name|] == '-';
    assert i == |name|;
    assert dir[i + 1..] == v;
    assert dir[..i] == name;
  }

  /** "publisher.extension" becomes "Extension by Publisher" (with '-' in the
      extension part read as a space); any other name is title-cased with
      '-' read as a space. */
  function ReadableName(name: string): string
  {
    var parts := Split(name, '.');
    if '.' in name && |parts| == 2 then
      Title(ReplaceChar(parts[1], '-', ' ')) + " by " + Title(parts[0])
    else
      Title(ReplaceChar(name, '-', ' '))
  }

  /** A name with exactly one '.' reads as "Extension by Publisher". */
  lemma ReadableNameOfPublisherExtension(publisher: string, extension: string)
    requires '.' !in publisher && '.' !in extension
    ensures ReadableName(publisher + "." + extension) ==
      Title(ReplaceChar(extension, '-', ' ')) + " by " + Title(publisher)
  {
    var name := publisher + "." + extension;
    SplitAfterHead(publisher, extension, '.');
    SplitSingle(extension, '.');
    assert name == publisher + ['.'] + extension;
    assert name[|publisher|] == '.';
  }

  /** A name with no '.' is only title-cased. */
  lemma ReadableNameWithoutDot(name: string)
    requires '.' !in name
    ensures ReadableName(name) == Title(ReplaceChar(name, '-', ' '))
  {
  }

  /** A name with two or more '.' is only title-cased, dots and all. */
  lemma ReadableNameWithSeveralDots(a: string, b: string, c: string)
    requires '.' !in a && '.' !in b
    ensures ReadableName(a + "." + b + "." + c) == Title(ReplaceChar(a + "." + b + "." + c, '-', ' '))
  {
    var name := a + "." + b + "." + c;
    assert name == a + ['.'] + (b + ['.'] + c);
    SplitAfterHead(a, b + ['.'] + c, '.');
    SplitAfterHead(b, c, '.');
    assert |Split(name, '.')| >= 3;
  }

  /** The label derived from an extension directory name. */
  function ExtensionLabel(dir: string): string
  {
    ReadableName(StripVersion(dir))
  }

  /** extractExtensionName as a value: "" when no "extensions" element has a
      successor, and otherwise the label of the element after the first
      such "extensions". */
  function ExtensionName(path: string, sep: char): string
  {
    var parts := Split(path, sep);
    match ExtensionDirIndex(parts)
    case None => ""
    case Some(j) => ExtensionLabel(parts[j])
  }

  /** extractExtensionName */
  method ExtractExtensionName(path: string, sep: char) returns (extensionName: string)
    ensures extensionName == ExtensionName(path, sep)
  {
    var parts := Split(path, sep);
    var i := 0;
    while i < |parts|
      invariant 0 <= i <= |parts|
      invariant ExtensionDirFrom(parts, i) == ExtensionDirIndex(parts)
    {
      if parts[i] == "extensions" && i + 1 < |parts| {
        var extensionDir := parts[i + 1];
        var lastDash := LastIndex(extensionDir, '-');
        if lastDash != -1 {
          var possibleVersion := extensionDir[lastDash + 1..];
          if |possibleVersion| > 0 && ('0' <= possibleVersion[0] <= '9' || '.' in possibleVersion) {
            extensionDir := extensionDir[..lastDash];
          }
        }
        if '.' in extensionDir {
          var nameParts := Split(extensionDir, '.');
          if |nameParts| == 2 {
            extensionName := Title(ReplaceChar(nameParts[1], '-', ' ')) + " by " + Title(nameParts[0]);
            return;
          }
        }
        extensionName := Title(ReplaceChar(extensionDir, '-', ' '));
        return;
      }
      i := i + 1;
    }
    extensionName := "";
  }

  /** When the path's elements are `before`, "extensions", dir and `after`,
      and no element of `before` is "extensions", the label is dir's label:
      the first "extensions" element decides. */
  lemma ExtensionNameUsesFirstExtensionsDir(before: seq<string>, dir: string, after: seq<string>, sep: char)
    requires ExtensionsDirName !in before
    requires forall p :: p in before + [ExtensionsDirName, dir] + after ==> sep !in p
    ensures ExtensionName(Join(before + [ExtensionsDirName, dir] + after, sep), sep) == ExtensionLabel(dir)
  {
    var parts := before + [ExtensionsDirName, dir] + after;
    SplitJoin(parts, sep);
    assert parts[|before|] == ExtensionsDirName;
    assert forall k :: 0 <= k < |before| ==> parts[k] == before[k];
    var j := ExtensionDirIndex(parts);
    assert j.Some? && j.value == |before| + 1;
  }

  /** A path with no "extensions" element before its last element has no
      label. */
  lemma ExtensionNameWithoutExtensionsDir(path: string, sep: char)
    requires ExtensionsDirName !in Split(path, sep)[..|Split(path, sep)| - 1]
    ensures ExtensionName(path, sep) == ""
  {
  }

  /** The directory of a versioned "publisher.extension" reads as
      "Extension by Publisher": the version is dropped first. */
  lemma ExtensionLabelOfVersionedDir(publisher: string, extension: string, version: string)
    requires '.' !in publisher && '.' !in extension
    requires '-' !in version && LooksLikeVersion(version)
    ensures ExtensionLabel(publisher + "." + extension + "-" + version) ==
      Title(ReplaceChar(extension, '-', ' ')) + " by " + Title(publisher)
  {
    var name := publisher + "." + extension;
    assert publisher + "." + extension + "-" + version == name + "-" + version;
    StripVersionAtLastDash(name, version);
    ReadableNameOfPublisherExtension(publisher, extension);
  }

  /** The label of "foo.bar-1.2.3" is "Bar by Foo". */
  lemma ExtensionLabelExample()
    ensures ExtensionLabel("foo.bar-1.2.3") == "Bar by Foo"
  {
    ExampleVersionedDir();
    ExtensionLabelOfVersionedDir("foo", "bar", "1.2.3");
    ExampleTitles();
  }

  // The steps of the example, one per lemma.

  lemma ExampleVersionedDir()
    ensures "foo" + "." + "bar" + "-" + "1.2.3" == "foo.bar-1.2.3"
    ensures LooksLikeVersion("1.2.3")
  {
  }

  lemma ExampleTitles()
    ensures Title(ReplaceChar("bar", '-', ' ')) + " by " + Title("foo") == "Bar by Foo"
  {
    assert ReplaceChar("bar", '-', ' ') == "bar";
    assert Title("bar") == "Bar";
    assert Title("foo") == "Foo";
  }

  /** strings.TrimSuffix(s, suffix) */
  function TrimSuffix(s: string, suffix: string): string
  {
    if HasSuffix(s, suffix) then s[..|s| - |suffix|] else s
  }

  /** parseThemeFile, after the file has been read and decoded. */
  function ParseThemeFile(path: string, sep: char, document: Option<VSCodeTheme>): (r: Result<ThemeInfo, ParseError>)
    ensures r.Failure? <==> document.None? || document.value.name == ""
  {
    match document
    case None => Failure(Unreadable)
    case Some(theme) =>
      if theme.name == "" then Failure(NoName)
      else
        var filename := Base(path, sep);
        var extensionName := ExtensionName(path, sep);
        var displayName := if extensionName != "" then theme.name + " (" + extensionName + ")" else theme.name;
        Success(ThemeInfo(TrimSuffix(filename, ".json"), displayName, path, theme.themeType))
  }

  /** What a catalog entry holds: the theme's name, followed by the label in
      parentheses when there is one; the path and the type as given; and as
      identifier the file name without a trailing ".json". */
  lemma ParsedThemeInfo(path: string, sep: char, theme: VSCodeTheme)
    requires theme.name != ""
    ensures var r := ParseThemeFile(path, sep, Some(theme));
      var extLabel := ExtensionName(path, sep);
      && r.Success?
      && r.value.displayName == (if extLabel == "" then theme.name else theme.name + " (" + extLabel + ")")
      && r.value.path == path
      && r.value.themeType == theme.themeType
      && (HasSuffix(Base(path, sep), ".json") ==> r.value.name + ".json" == Base(path, sep))
      && (!HasSuffix(Base(path, sep), ".json") ==> r.value.name == Base(path, sep))
  {
    var base := Base(path, sep);
    if HasSuffix(base, ".json") {
      assert base == base[..|base| - 5] + base[|base| - 5..];
    }
  }

  /** The ".json" removed from the identifier is case-sensitive: a ".JSON"
      file keeps its whole name. */
  lemma UpperCaseJsonKeepsExtension(dir: string, stem: string, sep: char, theme: VSCodeTheme)
    requires theme.name != "" && sep !in stem + ".JSON"
    ensures ParseThemeFile(dir + [sep] + stem + ".JSON", sep, Some(theme)).value.name == stem + ".JSON"
  {
    var file := stem + ".JSON";
    var path := dir + [sep] + file;
    assert dir + [sep] + stem + ".JSON" == path;
    BaseOfChild(dir, file, sep);
    assert !HasSuffix(file, ".json") by {
      assert file[|file| - 5..] == ".JSON";
      assert ".JSON"[1] != ".json"[1];
    }
    ParsedThemeInfo(path, sep, theme);
  }

  /** The filter of the walk callback: no walk error, not a directory, a
      path ending in ".json" in any case, inside a themes directory. */
  predicate IsCandidate(e: WalkEntry, sep: char, goos: string)
  {
    !e.walkError && !e.isDir && HasSuffix(Lower(e.path), ".json") && IsThemesDirectory(e.path, sep, goos)
  }

  /** What the walk callback appends for one entry: the parsed entry of a
      candidate that parses, and nothing otherwise. */
  function Visit(e: WalkEntry, sep: char, goos: string): seq<ThemeInfo>
  {
    if IsCandidate(e, sep, goos) && ParseThemeFile(e.path, sep, e.document).Success? then
      [ParseThemeFile(e.path, sep, e.document).value]
    else
      []
  }

  /** The concatenation of f over xs, in order: what a loop that appends
      f(x) for each x collects. */
  function Collect<T, U>(xs: seq<T>, f: T -> seq<U>): seq<U>
    decreases |xs|
  {
    if xs == [] then [] else Collect(xs[..|xs| - 1], f) + f(xs[|xs| - 1])
  }

  lemma {:induction false} CollectAppend<T, U>(a: seq<T>, b: seq<T>, f: T -> seq<U>)
    ensures Collect(a + b, f) == Collect(a, f) + Collect(b, f)
    decreases |b|
  {
    if b == [] {
      assert a + b == a;
    } else {
      var ab := a + b;
      CollectAppend(a, b[..|b| - 1], f);
      assert ab[..|ab| - 1] == a + b[..|b| - 1];
      assert ab[|ab| - 1] == b[|b| - 1];
    }
  }

  lemma {:induction false} CollectSound<T, U>(xs: seq<T>, f: T -> seq<U>, y: U)
    requires y in Collect(xs, f)
    ensures exists x :: x in xs && y in f(x)
    decreases |xs|
  {
    var init := xs[..|xs| - 1];
    if y in Collect(init, f) {
      CollectSound(init, f, y);
      var x :| x in init && y in f(x);
      assert x in xs;
    } else {
      assert xs[|xs| - 1] in xs;
    }
  }

  lemma {:induction false} CollectComplete<T, U>(xs: seq<T>, f: T -> seq<U>, x: T, y: U)
    requires x in xs && y in f(x)
    ensures y in Collect(xs, f)
    decreases |xs|
  {
    var init := xs[..|xs| - 1];
    if x != xs[|xs| - 1] {
      assert xs == init + [xs[|xs| - 1]];
      CollectComplete(init, f, x, y);
    }
  }

  lemma {:induction false} CollectLength<T, U>(xs: seq<T>, f: T -> seq<U>)
    requires forall x :: x in xs ==> |f(x)| <= 1
    ensures |Collect(xs, f)| <= |xs|
    decreases |xs|
  {
    if xs != [] {
      assert xs[|xs| - 1] in xs;
      CollectLength(xs[..|xs| - 1], f);
    }
  }

  /** The catalog built from a walk: each entry's contribution, in walk order. */
  function Catalog(walk: seq<WalkEntry>, sep: char, goos: string): seq<ThemeInfo>
  {
    Collect(walk, e => Visit(e, sep, goos))
  }

  /** DiscoverVSCodeThemes over the entries of the walk of the extensions
      directory. Fails only when that directory cannot be located; every
      per-entry failure is skipped. */
  method DiscoverVSCodeThemes(goos: string, home: Option<string>, sep: char, walk: seq<WalkEntry>)
    returns (r: Result<seq<ThemeInfo>, DiscoveryError>)
    ensures home.None? ==> r == Failure(ExtensionsPathUnavailable(HomeDirectoryUnavailable))
    ensures home.Some? ==> r == Success(Catalog(walk, sep, goos))
  {
    var extensionsPath := VSCodeExtensionsPath(goos, home, sep);
    if extensionsPath.Failure? {
      return Failure(ExtensionsPathUnavailable(extensionsPath.error));
    }
    var themes: seq<ThemeInfo> := [];
    var i := 0;
    while i < |walk|
      invariant 0 <= i <= |walk|
      invariant themes == Catalog(walk[..i], sep, goos)
    {
      var entry := walk[i];
      assert walk[..i + 1][..i] == walk[..i];
      if entry.walkError {
        // skip what cannot be accessed
      } else if entry.isDir || !HasSuffix(Lower(entry.path), ".json") {
        // only JSON files
      } else if !IsThemesDirectory(entry.path, sep, goos) {
        // only files in a themes directory
      } else {
        var themeInfo := ParseThemeFile(entry.path, sep, entry.document);
        if themeInfo.Success? {
          themes := themes + [themeInfo.value];
        }
      }
      i := i + 1;
    }
    assert walk[..|walk|] == walk;
    return Success(themes);
  }

  /** The catalog of two walks one after the other is the first catalog
      followed by the second: discovery keeps walk order. */
  lemma CatalogAppend(a: seq<WalkEntry>, b: seq<WalkEntry>, sep: char, goos: string)
    ensures Catalog(a + b, sep, goos) == Catalog(a, sep, goos) + Catalog(b, sep, goos)
  {
    CollectAppend(a, b, e => Visit(e, sep, goos));
  }

  /** One more walk entry adds its parsed entry when it is a candidate that
      parses, and nothing otherwise. */
  lemma CatalogStep(walk: seq<WalkEntry>, e: WalkEntry, sep: char, goos: string)
    ensures IsCandidate(e, sep, goos) && ParseThemeFile(e.path, sep, e.document).Success? ==>
      Catalog(walk + [e], sep, goos) == Catalog(walk, sep, goos) + [ParseThemeFile(e.path, sep, e.document).value]
    ensures !(IsCandidate(e, sep, goos) && ParseThemeFile(e.path, sep, e.document).Success?) ==>
      Catalog(walk + [e], sep, goos) == Catalog(walk, sep, goos)
  {
    var w := walk + [e];
    assert w[..|w| - 1] == walk;
    assert w[|w| - 1] == e;
  }

  /** Every catalog entry comes from a candidate entry of the walk that
      parses to it, and the catalog is no longer than the walk. */
  lemma CatalogSound(walk: seq<WalkEntry>, sep: char, goos: string)
    ensures |Catalog(walk, sep, goos)| <= |walk|
    ensures forall t :: t in Catalog(walk, sep, goos) ==>
      exists e :: e in walk && IsCandidate(e, sep, goos) && ParseThemeFile(e.path, sep, e.document) == Success(t)
  {
    var f := e => Visit(e, sep, goos);
    CollectLength(walk, f);
    forall t | t in Catalog(walk, sep, goos)
      ensures exists e :: e in walk && IsCandidate(e, sep, goos) && ParseThemeFile(e.path, sep, e.document) == Success(t)
    {
      CollectSound(walk, f, t);
      var e :| e in walk && t in f(e);
      assert t in Visit(e, sep, goos);
    }
  }

  /** Every candidate entry of the walk that parses is in the catalog. */
  lemma CatalogComplete(walk: seq<WalkEntry>, sep: char, goos: string, e: WalkEntry)
    requires e in walk && IsCandidate(e, sep, goos)
    requires ParseThemeFile(e.path, sep, e.document).Success?
    ensures ParseThemeFile(e.path, sep, e.document).value in Catalog(walk, sep, goos)
  {
    var f := e => Visit(e, sep, goos);
    assert ParseThemeFile(e.path, sep, e.document).value in f(e);
    CollectComplete(walk, f, e, ParseThemeFile(e.path, sep, e.document).value);
  }

  /** The suffix filter of the walk ignores case: a ".json" and a ".JSON"
      file both pass it. */
  lemma JsonFilterIgnoresCase(stem: string)
    ensures HasSuffix(Lower(stem + ".json"), ".json")
    ensures HasSuffix(Lower(stem + ".JSON"), ".json")
  {
    var s := stem + ".json";
    assert Lower(s)[|s| - 5..] == ".json";
    var u := stem + ".JSON";
    assert Lower(u)[|u| - 5..] == ".json";
  }

  /** LoadExtensionMetadata up to the read of package.json: the path of the
      package.json file in the extension directory, that is the path elements
      up to and including the one after the first "extensions" element that
      has a successor. */
  method LoadExtensionMetadata(themePath: string, sep: char) returns (r: Result<string, MetadataError>)
    ensures var parts := Split(themePath, sep);
      match ExtensionDirIndex(parts)
      case None => r == Failure(NoExtensionsDirectory)
      case Some(j) => r == Success(JoinPath([Join(parts[..j + 1], sep), "package.json"], sep))
  {
    var parts := Split(themePath, sep);
    var extensionDirIndex := -1;
    var i := 0;
    while i < |parts|
      invariant 0 <= i <= |parts|
      invariant extensionDirIndex == -1
      invariant ExtensionDirFrom(parts, i) == ExtensionDirIndex(parts)
    {
      if parts[i] == "extensions" && i + 1 < |parts| {
        extensionDirIndex := i + 1;
        break;
      }
      i := i + 1;
    }
    if extensionDirIndex == -1 {
      return Failure(NoExtensionsDirectory);
    }
    var extensionDir := Join(parts[..extensionDirIndex + 1], sep);
    var packageJsonPath := JoinPath([extensionDir, "package.json"], sep);
    return Success(packageJsonPath);
  }

  /** Joining the first k pieces gives a prefix of joining them all. */
  lemma {:induction false} JoinPrefix(parts: seq<string>, k: nat, sep: char)
    requires 1 <= k <= |parts|
    ensures HasPrefix(Join(parts, sep), Join(parts[..k], sep))
    decreases k
  {
    if k > 1 {
      JoinPrefix(parts[1..], k - 1, sep);
      assert parts[1..][..k - 1] == parts[..k][1..];
      assert |parts[..k]| > 1;
    }
  }

  /** The extension directory found for package.json is a prefix of the
      theme's path, and package.json sits directly inside it. */
  lemma ExtensionDirIsPrefixOfThemePath(themePath: string, sep: char)
    requires ExtensionDirIndex(Split(themePath, sep)).Some?
    ensures var parts := Split(themePath, sep);
      var j := ExtensionDirIndex(parts).value;
      var dir := Join(parts[..j + 1], sep);
      && HasPrefix(themePath, dir)
      && JoinPath([dir, "package.json"], sep) == dir + [sep] + "package.json"
  {
    var parts := Split(themePath, sep);
    var j := ExtensionDirIndex(parts).value;
    JoinSplit(themePath, sep);
    JoinPrefix(parts, j + 1, sep);
    var dir := Join(parts[..j + 1], sep);
    assert HasPrefix(themePath, dir);
    JoinOfNonEmptyLast(parts[..j + 1], sep);
    assert dir != [];
    assert NonEmpty([dir, "package.json"]) == [dir, "package.json"] by {
      assert [dir, "package.json"][1..] == ["package.json"];
      assert NonEmpty(["package.json"]) == ["package.json"];
    }
    assert Join([dir, "package.json"], sep) == dir + [sep] + Join(["package.json"], sep);
  }

  /** A join of at least two pieces is never empty. */
  lemma JoinOfNonEmptyLast(parts: seq<string>, sep: char)
    requires |parts| >= 2
    ensures Join(parts, sep) != []
  {
  }
}
