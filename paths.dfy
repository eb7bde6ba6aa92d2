/** The path helpers of paths.go: hand-written substring, suffix and
    lower-casing routines, the test for a themes directory, and the
    resolvers of the VS Code extensions directory and the Warp themes
    directory. Go's runtime.GOOS is the parameter `goos`, the result of
    os.UserHomeDir is `home` (None when the home directory cannot be
    determined) and filepath.Separator is `sep`. */
module Paths {
  import opened Wrappers
  import opened GoStrings
  import opened FilePath

  datatype PathError = HomeDirectoryUnavailable | WarpUnavailableOnWindows

  /** findSubstring: tries every offset at which substr still fits in str. */
  method FindSubstring(str: string, substr: string) returns (found: bool)
    ensures found <==> Contains(str, substr)
  {
    var i := 0;
    while i <= |str| - |substr|
      invariant 0 <= i
      invariant forall k :: 0 <= k < i ==> !MatchAt(str, substr, k)
      decreases |str| - |substr| - i + 1
    {
      if str[i..i + |substr|] == substr {
        assert MatchAt(str, substr, i);
        return true;
      }
      i := i + 1;
    }
    return false;
  }

  /** containsString: findSubstring behind a length guard. The guard never
      changes the answer, and the empty string is contained in every string. */
  function ContainsString(str: string, substr: string): (b: bool)
    ensures b <==> Contains(str, substr)
    ensures substr == [] ==> b
  {
    assert substr == [] ==> MatchAt(str, substr, 0);
    |str| >= |substr| && Contains(str, substr)
  }

  /** toLower: fills a rune array with one entry per byte of s, turning
      'A'..'Z' into 'a'..'z'. */
  method ToLower(s: string) returns (r: string)
    ensures r == Lower(s)
  {
    var result := new char[|s|];
    var i := 0;
    while i < |s|
      invariant 0 <= i <= |s|
      invariant forall k :: 0 <= k < i ==> result[k] == LowerChar(s[k])
    {
      if 'A' <= s[i] <= 'Z' {
        result[i] := (s[i] as int + ('a' as int - 'A' as int)) as char;
      } else {
        result[i] := s[i];
      }
      i := i + 1;
    }
    r := result[..];
  }

  /** What toLower does to each character: it keeps the length, changes a
      character exactly when it is 'A'..'Z', changes it into the letter 32
      code points later, and leaves no upper-case letter behind. */
  lemma ToLowerChangesExactlyUpperCase(s: string)
    ensures |Lower(s)| == |s|
    ensures forall k :: 0 <= k < |s| ==> (Lower(s)[k] != s[k] <==> IsAsciiUpper(s[k]))
    ensures forall k :: 0 <= k < |s| && IsAsciiUpper(s[k]) ==> Lower(s)[k] as int == s[k] as int + 32
    ensures forall k :: 0 <= k < |s| ==> !IsAsciiUpper(Lower(s)[k])
    ensures Lower(Lower(s)) == Lower(s)
  {
  }

  /** t occurs in s at offset i when both are lower-cased. */
  predicate MatchAtIgnoringCase(s: string, t: string, i: int)
  {
    0 <= i && i + |t| <= |s| && forall j :: 0 <= j < |t| ==> LowerChar(s[i + j]) == LowerChar(t[j])
  }

  lemma LowerMatchAt(s: string, t: string, i: int)
    ensures MatchAt(Lower(s), Lower(t), i) <==> MatchAtIgnoringCase(s, t, i)
  {
    if MatchAtIgnoringCase(s, t, i) {
      assert Lower(s)[i..i + |t|] == Lower(t);
    }
    if MatchAt(Lower(s), Lower(t), i) {
      forall j | 0 <= j < |t|
        ensures LowerChar(s[i + j]) == LowerChar(t[j])
      {
        assert Lower(s)[i..i + |t|][j] == Lower(t)[j];
      }
    }
  }

  /** containsCaseInsensitive: substr occurs in str at some offset, letters
      compared without regard to case. */
  function ContainsCaseInsensitive(str: string, substr: string): (b: bool)
    ensures b <==> exists i | 0 <= i <= |str| - |substr| :: MatchAtIgnoringCase(str, substr, i)
  {
    forall i | 0 <= i <= |str| - |substr|
      ensures MatchAt(Lower(str), Lower(substr), i) <==> MatchAtIgnoringCase(str, substr, i)
    {
      LowerMatchAt(str, substr, i);
    }
    ContainsString(Lower(str), Lower(substr))
  }

  /** contains: case-insensitive on Windows, exact everywhere else. */
  function ContainsForPlatform(str: string, substr: string, goos: string): (b: bool)
    ensures goos == "windows" ==>
      (b <==> exists i | 0 <= i <= |str| - |substr| :: MatchAtIgnoringCase(str, substr, i))
    ensures goos != "windows" ==>
      (b <==> exists i | 0 <= i <= |str| - |substr| :: MatchAt(str, substr, i))
  {
    if goos == "windows" then ContainsCaseInsensitive(str, substr) else ContainsString(str, substr)
  }

  /** hasSuffix: str ends with suffix. */
  function HasSuffix(str: string, suffix: string): (b: bool)
    ensures b <==> exists p :: str == p + suffix
  {
    assert |str| >= |suffix| ==> str == str[..|str| - |suffix|] + str[|str| - |suffix|..];
    |str| >= |suffix| && str[|str| - |suffix|..] == suffix
  }

  /** The directory name that marks a themes directory, with the separators
      on both sides. */
  function ThemesSegment(sep: char): string
  {
    [sep] + "themes" + [sep]
  }

  /** hasThemesAtEnd: the path ends in a "themes" element, with or without a
      trailing separator. Always case-sensitive. */
  function HasThemesAtEnd(path: string, sep: char): (b: bool)
    ensures b <==> (exists p :: path == p + [sep] + "themes") || (exists p :: path == p + ThemesSegment(sep))
  {
    forall p
      ensures p + [sep] + "themes" == p + ([sep] + "themes")
    {
    }
    HasSuffix(path, [sep] + "themes") || HasSuffix(path, ThemesSegment(sep))
  }

  /** isThemesDirectory: a "themes" element between two separators occurs
      somewhere in the path, letters compared without case on Windows and
      exactly elsewhere, or the path ends in a "themes" element, always
      compared exactly. */
  function IsThemesDirectory(path: string, sep: char, goos: string): (b: bool)
    ensures b <==>
      (goos == "windows" && exists i | 0 <= i <= |path| - 8 :: MatchAtIgnoringCase(path, ThemesSegment(sep), i))
      || (goos != "windows" && exists i | 0 <= i <= |path| - 8 :: MatchAt(path, ThemesSegment(sep), i))
      || (exists p :: path == p + [sep] + "themes")
      || (exists p :: path == p + ThemesSegment(sep))
  {
    ContainsForPlatform(path, ThemesSegment(sep), goos) || HasThemesAtEnd(path, sep)
  }

  /** Every path that passes through a directory named exactly "themes" is
      accepted, on every platform. */
  lemma ThemesDirectoryInside(dir: string, rest: string, sep: char, goos: string)
    ensures IsThemesDirectory(dir + ThemesSegment(sep) + rest, sep, goos)
  {
    var path := dir + ThemesSegment(sep) + rest;
    var t := ThemesSegment(sep);
    assert path[|dir|..|dir| + |t|] == t;
    assert MatchAt(path, t, |dir|);
    LowerMatchAt(path, t, |dir|);
    assert MatchAtIgnoringCase(path, t, |dir|) by {
      forall j | 0 <= j < |t|
        ensures LowerChar(path[|dir| + j]) == LowerChar(t[j])
      {
        assert path[|dir| + j] == t[j];
      }
    }
  }

  /** A path whose last element is "themes" is accepted, on every platform. */
  lemma ThemesDirectoryLast(dir: string, sep: char, goos: string)
    ensures IsThemesDirectory(dir + [sep] + "themes", sep, goos)
  {
    var path := dir + [sep] + "themes";
    assert path == dir + ([sep] + "themes");
  }

  /** On Windows the middle test ignores case: a "THEMES" or "Themes"
      directory is accepted there. */
  lemma WindowsThemesDirectoryIgnoresCase(dir: string, name: string, rest: string, sep: char)
    requires Lower(name) == "themes"
    requires LowerChar(sep) == sep
    ensures IsThemesDirectory(dir + [sep] + name + [sep] + rest, sep, "windows")
  {
    var path := dir + [sep] + name + [sep] + rest;
    var t := ThemesSegment(sep);
    assert |name| == 6;
    forall j | 0 <= j < |t|
      ensures LowerChar(path[|dir| + j]) == LowerChar(t[j])
    {
      if 1 <= j <= 6 {
        assert path[|dir| + j] == name[j - 1];
        assert Lower(name)[j - 1] == LowerChar(name[j - 1]);
      }
    }
    assert MatchAtIgnoringCase(path, t, |dir|);
  }

  /** The test matches whole directory names, not substrings: "mythemes" is
      not a themes directory. */
  lemma ThemesDirectoryNeedsBoundary()
    ensures !IsThemesDirectory("/mythemes", '/', "linux")
  {
    var path := "/mythemes";
    var t := ThemesSegment('/');
    assert path[0..8][1] != t[1];
    assert path[1..9][0] != t[0];
    assert !HasSuffix(path, "/themes") by {
      assert path[|path| - 7..] != "/themes";
    }
  }

  /** Off Windows the middle test is case-sensitive and the end test always
      is: a "Themes" directory is rejected on Linux. */
  lemma LinuxThemesDirectoryIsCaseSensitive()
    ensures !IsThemesDirectory("/x/Themes/a", '/', "linux")
  {
    var path := "/x/Themes/a";
    var t := ThemesSegment('/');
    assert path[0..8][1] != t[1];
    assert path[1..9][0] != t[0];
    assert path[2..10][1] != t[1];
    assert path[3..11][0] != t[0];
    assert !HasSuffix(path, "/themes") by {
      assert path[|path| - 7..] != "/themes";
    }
    assert !HasSuffix(path, t) by {
      assert path[|path| - 8..] != t;
    }
  }

  /** getVSCodeExtensionsPath: home/.vscode/extensions on every platform;
      fails only when the home directory is unavailable. */
  function VSCodeExtensionsPath(goos: string, home: Option<string>, sep: char): (r: Result<string, PathError>)
    ensures home.None? ==> r == Failure(HomeDirectoryUnavailable)
    ensures home.Some? ==> r == Success(JoinPath([home.value, ".vscode", "extensions"], sep))
    ensures home.Some? && home.value != [] ==>
      r == Success(home.value + [sep] + ".vscode" + [sep] + "extensions")
  {
    match home
    case None => Failure(HomeDirectoryUnavailable)
    case Some(homeDir) =>
      JoinPathOfThree(homeDir, ".vscode", "extensions", sep);
      if goos == "windows" then Success(JoinPath([homeDir, ".vscode", "extensions"], sep))
      else if goos == "darwin" then Success(JoinPath([homeDir, ".vscode", "extensions"], sep))
      else if goos == "linux" then Success(JoinPath([homeDir, ".vscode", "extensions"], sep))
      else Success(JoinPath([homeDir, ".vscode", "extensions"], sep))
  }

  /** getWarpThemesPath: home/.warp/themes everywhere except Windows, which
      is refused; the home directory is consulted first. */
  function WarpThemesPath(goos: string, home: Option<string>, sep: char): (r: Result<string, PathError>)
    ensures home.None? ==> r == Failure(HomeDirectoryUnavailable)
    ensures home.Some? && goos == "windows" ==> r == Failure(WarpUnavailableOnWindows)
    ensures home.Some? && goos != "windows" ==> r == Success(JoinPath([home.value, ".warp", "themes"], sep))
    ensures home.Some? && home.value != [] && goos != "windows" ==>
      r == Success(home.value + [sep] + ".warp" + [sep] + "themes")
  {
    match home
    case None => Failure(HomeDirectoryUnavailable)
    case Some(homeDir) =>
      JoinPathOfThree(homeDir, ".warp", "themes", sep);
      if goos == "windows" then Failure(WarpUnavailableOnWindows)
      else if goos == "darwin" then Success(JoinPath([homeDir, ".warp", "themes"], sep))
      else if goos == "linux" then Success(JoinPath([homeDir, ".warp", "themes"], sep))
      else Success(JoinPath([homeDir, ".warp", "themes"], sep))
  }

  /** validatePlatformSupport: refuses Windows and nothing else. */
  function ValidatePlatformSupport(goos: string): (r: Outcome<PathError>)
    ensures r.Fail? <==> goos == "windows"
  {
    if goos == "windows" then Fail(WarpUnavailableOnWindows) else Pass
  }

  /** The platform gate and the Warp themes resolver agree: once the home
      directory is known, the gate passes exactly when the resolver succeeds. */
  lemma PlatformGateAgreesWithWarpThemesPath(goos: string, homeDir: string, sep: char)
    ensures ValidatePlatformSupport(goos).Pass? <==> WarpThemesPath(goos, Some(homeDir), sep).Success?
  {
  }
}
