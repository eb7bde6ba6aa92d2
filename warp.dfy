/** The conversion side of warp.go: a decoded VS Code theme becomes a Warp
    theme record, colour values are normalised, and a theme name becomes a
    file name. Writing the YAML file is not modelled. */
module Warp {
  import opened Wrappers
  import opened GoStrings
  import opened VSCode
  import FilePath

  /** Eight colours of a terminal palette (ColorPalette). */
  datatype ColorPalette = ColorPalette(
    black: string, red: string, green: string, yellow: string,
    blue: string, magenta: string, cyan: string, white: string)

  /** The normal and the bright palette (TerminalColors). */
  datatype TerminalColors = TerminalColors(normal: ColorPalette, bright: ColorPalette)

  /** The record that is serialised as a Warp theme (WarpTheme). */
  datatype WarpTheme = WarpTheme(
    accent: string, background: string, details: string, foreground: string,
    terminalColors: TerminalColors)

  // ---------------------------------------------------------------------
  // cleanColor

  /** What cleanColor does once the value is trimmed: a value that starts
      with '#' loses the alpha pair of an eight-digit code and has a
      three-digit code doubled out; everything else is kept. */
  function NormalizeHex(c: string): (r: string)
    ensures !HasPrefix(c, "#") ==> r == c
    ensures HasPrefix(c, "#") ==> |r| >= 1 && r[0] == '#'
    ensures |r| == (if HasPrefix(c, "#") && (|c| == 9 || |c| == 4) then 7 else |c|)
    ensures HasPrefix(c, "#") && |c| != 9 && |c| != 4 ==> r == c
  {
    if !HasPrefix(c, "#") then c
    else if |c| == 9 then c[..7]
    else if |c| == 4 then ['#', c[1], c[1], c[2], c[2], c[3], c[3]]
    else c
  }

  /** cleanColor: trims the value, then normalises a hex code. The result
      never starts with whitespace; a trimmed value without '#' or with a
      '#' and a length other than 9 and 4 comes back as it is; a nine-
      character code keeps its first seven characters and a four-character
      code has its three digits doubled. */
  function CleanColor(color: string): (r: string)
    ensures r == [] || r[0] !in AsciiSpaces
    ensures var t := TrimSpace(color);
      !HasPrefix(t, "#") || (|t| != 9 && |t| != 4) ==> r == t
    ensures var t := TrimSpace(color);
      HasPrefix(t, "#") && |t| == 9 ==> r == t[..7]
    ensures var t := TrimSpace(color);
      HasPrefix(t, "#") && |t| == 4 ==> r == ['#', t[1], t[1], t[2], t[2], t[3], t[3]]
  {
    NormalizeHex(TrimSpace(color))
  }

  /** Surrounding whitespace never matters: the value is trimmed first. */
  lemma CleanColorTrimsFirst(color: string)
    ensures CleanColor(color) == CleanColor(TrimSpace(color))
  {
    TrimIdempotent(color, AsciiSpaces);
  }

  /** An eight-digit code loses its last two digits, the alpha channel. */
  lemma CleanColorDropsAlpha(rgb: string, alpha: string)
    requires |rgb| == 6 && |alpha| == 2
    requires alpha[1] !in AsciiSpaces
    ensures CleanColor("#" + rgb + alpha) == "#" + rgb
  {
    var c := "#" + rgb + alpha;
    assert |c| == 9 && c[0] == '#' && c[8] == alpha[1];
    TrimKeepsTrimmed(c, AsciiSpaces);
    assert HasPrefix(c, "#");
    assert c[..7] == "#" + rgb;
  }

  /** A three-digit code has every digit doubled. */
  lemma CleanColorExpandsShort(x: char, y: char, z: char)
    requires z !in AsciiSpaces
    ensures CleanColor(['#', x, y, z]) == ['#', x, x, y, y, z, z]
  {
    var c := ['#', x, y, z];
    assert |c| == 4 && c[0] == '#' && c[3] == z;
    TrimKeepsTrimmed(c, AsciiSpaces);
    assert HasPrefix(c, "#");
  }

  /** A value that does not start with '#' once trimmed is only trimmed. */
  lemma CleanColorWithoutHash(color: string)
    requires TrimSpace(color) == [] || TrimSpace(color)[0] != '#'
    ensures CleanColor(color) == TrimSpace(color)
  {
  }

  /** A '#' value of any length but 9 and 4, such as "#rrggbb", is only
      trimmed. */
  lemma CleanColorKeepsOtherLengths(color: string)
    requires var t := TrimSpace(color); HasPrefix(t, "#") && |t| != 9 && |t| != 4
    ensures CleanColor(color) == TrimSpace(color)
  {
  }

  /** A value made only of whitespace cleans to "". */
  lemma CleanColorOfWhitespace(color: string)
    requires forall i :: 0 <= i < |color| ==> color[i] in AsciiSpaces
    ensures CleanColor(color) == ""
  {
    TrimAllCut(color, AsciiSpaces);
  }

  /** Normalising twice is normalising once, except for an eight-digit code
      whose seventh character is whitespace. */
  lemma NormalizeHexOfTrimmed(c: string)
    requires c == [] || (c[0] !in AsciiSpaces && c[|c| - 1] !in AsciiSpaces)
    requires !(HasPrefix(c, "#") && |c| == 9 && c[6] in AsciiSpaces)
    ensures var r := NormalizeHex(c); r == [] || (r[0] !in AsciiSpaces && r[|r| - 1] !in AsciiSpaces)
    ensures NormalizeHex(NormalizeHex(c)) == NormalizeHex(c)
  {
  }

  /** Cleaning twice is cleaning once, except for an eight-digit code whose
      seventh character is whitespace: cutting off the alpha pair then leaves
      whitespace at the end for the second trim to remove. */
  lemma CleanColorIdempotent(color: string)
    requires var t := TrimSpace(color); !(HasPrefix(t, "#") && |t| == 9 && t[6] in AsciiSpaces)
    ensures CleanColor(CleanColor(color)) == CleanColor(color)
  {
    var t := TrimSpace(color);
    NormalizeHexOfTrimmed(t);
    TrimKeepsTrimmed(NormalizeHex(t), AsciiSpaces);
  }

  /** The exception is real: "#12345 78" cleans to "#12345 ", which cleans
      to "#12345". */
  lemma CleanColorNotIdempotentWithInnerSpace()
    ensures CleanColor("#12345 78") == "#12345 "
    ensures CleanColor("#12345 ") == "#12345"
  {
    var c := "#12345 78";
    assert |c| == 9 && c[0] == '#' && c[8] == '8' && HasPrefix(c, "#");
    TrimKeepsTrimmed(c, AsciiSpaces);
    assert c[..7] == "#12345" + " ";
    TrimDropsTrailingSpace("#12345", AsciiSpaces, ' ');
    assert HasPrefix("#12345", "#");
  }

  /** A trimmed non-empty string followed by one more cut character trims
      back to itself. */
  lemma TrimDropsTrailingSpace(c: string, cut: set<char>, x: char)
    requires c != [] && c[0] !in cut && c[|c| - 1] !in cut && x in cut
    ensures Trim(c + [x], cut) == c
  {
    var s := c + [x];
    assert s[0] == c[0] && s[|s| - 1] == x;
    assert TrimLeft(s, cut) == s;
    assert s[..|s| - 1] == c;
    TrimKeepsTrimmed(c, cut);
    assert TrimRight(c, cut) == c;
  }

  // ---------------------------------------------------------------------
  // getColorOrDefault and findFirstColor

  /** A key counts as set when it is in the map with a non-empty value. */
  predicate Present(colors: map<string, string>, key: string)
  {
    key in colors && colors[key] != ""
  }

  /** getColorOrDefault: a missing key and a key mapped to "" both give the
      default; any other value gives its cleaned form. */
  function GetColorOrDefault(colors: map<string, string>, key: string, default: string): (r: string)
    ensures key !in colors || colors[key] == "" ==> r == default
    ensures key in colors && colors[key] != "" ==> r == CleanColor(colors[key])
    ensures r == default || r == [] || r[0] !in AsciiSpaces
  {
    if Present(colors, key) then CleanColor(colors[key]) else default
  }

  /** A key mapped to "" is treated as a missing key. */
  lemma EmptyValueCountsAsAbsent(colors: map<string, string>, key: string, default: string)
    ensures GetColorOrDefault(colors[key := ""], key, default) == default
    ensures GetColorOrDefault(colors[key := ""], key, default) == GetColorOrDefault(colors - {key}, key, default)
  {
  }

  /** A set key that holds only whitespace gives "", not the default. */
  lemma WhitespaceValueGivesEmpty(colors: map<string, string>, key: string, default: string)
    requires key in colors && colors[key] != ""
    requires forall i :: 0 <= i < |colors[key]| ==> colors[key][i] in AsciiSpaces
    ensures GetColorOrDefault(colors, key, default) == ""
  {
    CleanColorOfWhitespace(colors[key]);
  }

  /** findFirstColor as a value: the cleaned value of the first set key, or
      the default when none is set. */
  function FirstColor(colors: map<string, string>, keys: seq<string>, default: string): string
    decreases |keys|
  {
    if keys == [] then default
    else if Present(colors, keys[0]) then CleanColor(colors[keys[0]])
    else FirstColor(colors, keys[1..], default)
  }

  /** findFirstColor: tries the keys in order and returns at the first one
      that is set. */
  method FindFirstColor(colors: map<string, string>, keys: seq<string>, default: string) returns (color: string)
    ensures color == FirstColor(colors, keys, default)
  {
    var i := 0;
    while i < |keys|
      invariant 0 <= i <= |keys|
      invariant FirstColor(colors, keys[i..], default) == FirstColor(colors, keys, default)
    {
      var key := keys[i];
      if key in colors && colors[key] != "" {
        return CleanColor(colors[key]);
      }
      assert keys[i..][1..] == keys[i + 1..];
      i := i + 1;
    }
    return default;
  }

  /** The result is the cleaned value of the first set key. */
  lemma {:induction false} FirstColorIsFirstSetKey(colors: map<string, string>, keys: seq<string>, default: string, i: nat)
    requires i < |keys| && Present(colors, keys[i])
    requires forall k :: 0 <= k < i ==> !Present(colors, keys[k])
    ensures FirstColor(colors, keys, default) == CleanColor(colors[keys[i]])
    decreases i
  {
    if i > 0 {
      FirstColorIsFirstSetKey(colors, keys[1..], default, i - 1);
    }
  }

  /** With no key set the result is the default. */
  lemma {:induction false} FirstColorDefault(colors: map<string, string>, keys: seq<string>, default: string)
    requires forall k :: 0 <= k < |keys| ==> !Present(colors, keys[k])
    ensures FirstColor(colors, keys, default) == default
    decreases |keys|
  {
    if keys != [] {
      FirstColorDefault(colors, keys[1..], default);
    }
  }

  /** Keys after the first set one are never consulted: two maps that agree
      on the keys up to and including it give the same colour. */
  lemma FirstColorIgnoresLaterKeys(colors: map<string, string>, other: map<string, string>, keys: seq<string>, default: string, i: nat)
    requires i < |keys| && Present(colors, keys[i])
    requires forall k :: 0 <= k < i ==> !Present(colors, keys[k])
    requires forall k :: 0 <= k <= i ==> (keys[k] in colors <==> keys[k] in other)
    requires forall k :: 0 <= k <= i && keys[k] in colors ==> colors[keys[k]] == other[keys[k]]
    ensures FirstColor(other, keys, default) == FirstColor(colors, keys, default)
  {
    FirstColorIsFirstSetKey(colors, keys, default, i);
    FirstColorIsFirstSetKey(other, keys, default, i);
  }

  // ---------------------------------------------------------------------
  // ConvertVSCodeToWarp

  /** The keys tried for the accent colour, in order of preference. */
  const AccentKeys: seq<string> := [
    "focusBorder", "button.background", "progressBar.background",
    "textLink.foreground", "editorCursor.foreground", "terminal.ansiBlue"]

  const DefaultAccent: string := "#007acc"
  const DefaultBackground: string := "#1e1e1e"
  const DefaultForeground: string := "#d4d4d4"

  /** The eight slots of a palette, black to white. */
  function Slots(p: ColorPalette): seq<string>
  {
    [p.black, p.red, p.green, p.yellow, p.blue, p.magenta, p.cyan, p.white]
  }

  /** The colour names of the slots, as they appear in the VS Code keys. */
  const SlotNames: seq<string> := ["Black", "Red", "Green", "Yellow", "Blue", "Magenta", "Cyan", "White"]

  const NormalDefaults: seq<string> :=
    ["#1e1e1e", "#f44747", "#6a9955", "#dcdcaa", "#569cd6", "#c586c0", "#9cdcfe", "#d4d4d4"]

  const BrightDefaults: seq<string> :=
    ["#686868", "#f44747", "#6a9955", "#dcdcaa", "#569cd6", "#c586c0", "#9cdcfe", "#ffffff"]

  /** The sixteen VS Code keys the palettes read, black to white. */
  const NormalKeys: seq<string> := [
    "terminal.ansiBlack", "terminal.ansiRed", "terminal.ansiGreen", "terminal.ansiYellow",
    "terminal.ansiBlue", "terminal.ansiMagenta", "terminal.ansiCyan", "terminal.ansiWhite"]

  const BrightKeys: seq<string> := [
    "terminal.ansiBrightBlack", "terminal.ansiBrightRed", "terminal.ansiBrightGreen",
    "terminal.ansiBrightYellow", "terminal.ansiBrightBlue", "terminal.ansiBrightMagenta",
    "terminal.ansiBrightCyan", "terminal.ansiBrightWhite"]

  /** A palette filled slot by slot from a key table and a default table
      reads, in slot k, key k with default k. */
  lemma PaletteReads(p: ColorPalette, colors: map<string, string>, keys: seq<string>, defaults: seq<string>)
    requires |keys| == 8 && |defaults| == 8
    requires p == ColorPalette(
      GetColorOrDefault(colors, keys[0], defaults[0]), GetColorOrDefault(colors, keys[1], defaults[1]),
      GetColorOrDefault(colors, keys[2], defaults[2]), GetColorOrDefault(colors, keys[3], defaults[3]),
      GetColorOrDefault(colors, keys[4], defaults[4]), GetColorOrDefault(colors, keys[5], defaults[5]),
      GetColorOrDefault(colors, keys[6], defaults[6]), GetColorOrDefault(colors, keys[7], defaults[7]))
    ensures forall k :: 0 <= k < 8 ==> Slots(p)[k] == GetColorOrDefault(colors, keys[k], defaults[k])
  {
    forall k | 0 <= k < 8
      ensures Slots(p)[k] == GetColorOrDefault(colors, keys[k], defaults[k])
    {
      if k == 0 {} else if k == 1 {} else if k == 2 {} else if k == 3 {}
      else if k == 4 {} else if k == 5 {} else if k == 6 {} else {}
    }
  }

  /** The keys are the prefixes followed by the slot names. */
  lemma TerminalKeyNames()
    ensures forall k :: 0 <= k < 8 ==>
      "terminal.ansi" + SlotNames[k] == NormalKeys[k] && "terminal.ansiBright" + SlotNames[k] == BrightKeys[k]
  {
    forall k | 0 <= k < 8
      ensures "terminal.ansi" + SlotNames[k] == NormalKeys[k]
      ensures "terminal.ansiBright" + SlotNames[k] == BrightKeys[k]
    {
      var n := SlotNames[k];
      if k == 0 { assert "terminal.ansi" + n == "terminal.ansiBlack"; assert "terminal.ansiBright" + n == "terminal.ansiBrightBlack"; }
      else if k == 1 { assert "terminal.ansi" + n == "terminal.ansiRed"; assert "terminal.ansiBright" + n == "terminal.ansiBrightRed"; }
      else if k == 2 { assert "terminal.ansi" + n == "terminal.ansiGreen"; assert "terminal.ansiBright" + n == "terminal.ansiBrightGreen"; }
      else if k == 3 { assert "terminal.ansi" + n == "terminal.ansiYellow"; assert "terminal.ansiBright" + n == "terminal.ansiBrightYellow"; }
      else if k == 4 { assert "terminal.ansi" + n == "terminal.ansiBlue"; assert "terminal.ansiBright" + n == "terminal.ansiBrightBlue"; }
      else if k == 5 { assert "terminal.ansi" + n == "terminal.ansiMagenta"; assert "terminal.ansiBright" + n == "terminal.ansiBrightMagenta"; }
      else if k == 6 { assert "terminal.ansi" + n == "terminal.ansiCyan"; assert "terminal.ansiBright" + n == "terminal.ansiBrightCyan"; }
      else { assert "terminal.ansi" + n == "terminal.ansiWhite"; assert "terminal.ansiBright" + n == "terminal.ansiBrightWhite"; }
    }
  }

  /** convertTerminalColors: slot k of the normal palette reads
      terminal.ansi<Name> and slot k of the bright palette
      terminal.ansiBright<Name>, each with its default from the table. */
  function ConvertTerminalColors(colors: map<string, string>): (r: TerminalColors)
    ensures forall k :: 0 <= k < 8 ==>
      Slots(r.normal)[k] == GetColorOrDefault(colors, "terminal.ansi" + SlotNames[k], NormalDefaults[k])
    ensures forall k :: 0 <= k < 8 ==>
      Slots(r.bright)[k] == GetColorOrDefault(colors, "terminal.ansiBright" + SlotNames[k], BrightDefaults[k])
  {
    var normal := ColorPalette(
      GetColorOrDefault(colors, "terminal.ansiBlack", "#1e1e1e"),
      GetColorOrDefault(colors, "terminal.ansiRed", "#f44747"),
      GetColorOrDefault(colors, "terminal.ansiGreen", "#6a9955"),
      GetColorOrDefault(colors, "terminal.ansiYellow", "#dcdcaa"),
      GetColorOrDefault(colors, "terminal.ansiBlue", "#569cd6"),
      GetColorOrDefault(colors, "terminal.ansiMagenta", "#c586c0"),
      GetColorOrDefault(colors, "terminal.ansiCyan", "#9cdcfe"),
      GetColorOrDefault(colors, "terminal.ansiWhite", "#d4d4d4"));
    var bright := ColorPalette(
      GetColorOrDefault(colors, "terminal.ansiBrightBlack", "#686868"),
      GetColorOrDefault(colors, "terminal.ansiBrightRed", "#f44747"),
      GetColorOrDefault(colors, "terminal.ansiBrightGreen", "#6a9955"),
      GetColorOrDefault(colors, "terminal.ansiBrightYellow", "#dcdcaa"),
      GetColorOrDefault(colors, "terminal.ansiBrightBlue", "#569cd6"),
      GetColorOrDefault(colors, "terminal.ansiBrightMagenta", "#c586c0"),
      GetColorOrDefault(colors, "terminal.ansiBrightCyan", "#9cdcfe"),
      GetColorOrDefault(colors, "terminal.ansiBrightWhite", "#ffffff"));
    TerminalKeyNames();
    PaletteReads(normal, colors, NormalKeys, NormalDefaults);
    PaletteReads(bright, colors, BrightKeys, BrightDefaults);
    TerminalColors(normal, bright)
  }

  /** Two maps that agree on one key. */
  predicate AgreeOn(colors: map<string, string>, other: map<string, string>, key: string)
  {
    (key in colors <==> key in other) && (key in colors ==> colors[key] == other[key])
  }

  /** No slot depends on any key but its own. */
  lemma TerminalSlotDependsOnlyOnItsKey(colors: map<string, string>, other: map<string, string>, k: nat)
    requires k < 8
    ensures AgreeOn(colors, other, "terminal.ansi" + SlotNames[k]) ==>
      Slots(ConvertTerminalColors(colors).normal)[k] == Slots(ConvertTerminalColors(other).normal)[k]
    ensures AgreeOn(colors, other, "terminal.ansiBright" + SlotNames[k]) ==>
      Slots(ConvertTerminalColors(colors).bright)[k] == Slots(ConvertTerminalColors(other).bright)[k]
  {
  }

  /** A theme that sets no terminal colour gets the whole default table. */
  lemma TerminalColorsDefaults(colors: map<string, string>)
    requires forall k :: 0 <= k < 8 ==> !Present(colors, "terminal.ansi" + SlotNames[k])
    requires forall k :: 0 <= k < 8 ==> !Present(colors, "terminal.ansiBright" + SlotNames[k])
    ensures Slots(ConvertTerminalColors(colors).normal) == NormalDefaults
    ensures Slots(ConvertTerminalColors(colors).bright) == BrightDefaults
  {
    var r := ConvertTerminalColors(colors);
    assert forall k :: 0 <= k < 8 ==> Slots(r.normal)[k] == NormalDefaults[k];
    assert forall k :: 0 <= k < 8 ==> Slots(r.bright)[k] == BrightDefaults[k];
  }

  /** ConvertVSCodeToWarp as a value. */
  function Converted(theme: VSCodeTheme): WarpTheme
  {
    WarpTheme(
      FirstColor(theme.colors, AccentKeys, DefaultAccent),
      GetColorOrDefault(theme.colors, "editor.background", DefaultBackground),
      if theme.themeType == "light" then "lighter" else "darker",
      GetColorOrDefault(theme.colors, "editor.foreground", DefaultForeground),
      ConvertTerminalColors(theme.colors))
  }

  /** ConvertVSCodeToWarp: starts from an empty record and fills it field by
      field. The error result is never produced. */
  method ConvertVSCodeToWarp(theme: VSCodeTheme) returns (r: Result<WarpTheme, string>)
    ensures r == Success(Converted(theme))
  {
    var empty := ColorPalette("", "", "", "", "", "", "", "");
    var warpTheme := WarpTheme("", "", "", "", TerminalColors(empty, empty));
    warpTheme := warpTheme.(background := GetColorOrDefault(theme.colors, "editor.background", "#1e1e1e"));
    warpTheme := warpTheme.(foreground := GetColorOrDefault(theme.colors, "editor.foreground", "#d4d4d4"));
    var accentKeys := [
      "focusBorder", "button.background", "progressBar.background",
      "textLink.foreground", "editorCursor.foreground", "terminal.ansiBlue"];
    var accent := FindFirstColor(theme.colors, accentKeys, "#007acc");
    warpTheme := warpTheme.(accent := accent);
    if theme.themeType == "light" {
      warpTheme := warpTheme.(details := "lighter");
    } else {
      warpTheme := warpTheme.(details := "darker");
    }
    warpTheme := warpTheme.(terminalColors := ConvertTerminalColors(theme.colors));
    return Success(warpTheme);
  }

  /** background and foreground: the cleaned editor colour when it is set,
      the fixed default otherwise. */
  lemma ConvertedEditorColors(theme: VSCodeTheme)
    ensures var w := Converted(theme);
      && (Present(theme.colors, "editor.background") ==> w.background == CleanColor(theme.colors["editor.background"]))
      && (!Present(theme.colors, "editor.background") ==> w.background == "#1e1e1e")
      && (Present(theme.colors, "editor.foreground") ==> w.foreground == CleanColor(theme.colors["editor.foreground"]))
      && (!Present(theme.colors, "editor.foreground") ==> w.foreground == "#d4d4d4")
  {
  }

  /** accent: the cleaned value of the first set accent key, in the order of
      AccentKeys. */
  lemma ConvertedAccent(theme: VSCodeTheme, i: nat)
    requires i < |AccentKeys| && Present(theme.colors, AccentKeys[i])
    requires forall k :: 0 <= k < i ==> !Present(theme.colors, AccentKeys[k])
    ensures Converted(theme).accent == CleanColor(theme.colors[AccentKeys[i]])
  {
    FirstColorIsFirstSetKey(theme.colors, AccentKeys, DefaultAccent, i);
  }

  /** accent: #007acc when no accent key is set. */
  lemma ConvertedAccentDefault(theme: VSCodeTheme)
    requires forall k :: 0 <= k < |AccentKeys| ==> !Present(theme.colors, AccentKeys[k])
    ensures Converted(theme).accent == "#007acc"
  {
    FirstColorDefault(theme.colors, AccentKeys, DefaultAccent);
  }

  /** details is "lighter" exactly for the type "light", compared with case,
      and "darker" for every other type, the empty one included. */
  lemma ConvertedDetails(theme: VSCodeTheme)
    ensures Converted(theme).details == "lighter" <==> theme.themeType == "light"
    ensures Converted(theme).details == "darker" <==> theme.themeType != "light"
  {
  }

  /** The type affects details alone, and the name affects nothing. */
  lemma ConvertedDependsOnTypeOnlyForDetails(a: VSCodeTheme, b: VSCodeTheme)
    requires a.colors == b.colors
    ensures Converted(a).(details := "") == Converted(b).(details := "")
    ensures a.themeType == b.themeType ==> Converted(a) == Converted(b)
  {
  }

  /** A set editor.background made of whitespace gives an empty background,
      not the default. */
  lemma WhitespaceBackgroundIsEmpty(theme: VSCodeTheme)
    requires Present(theme.colors, "editor.background")
    requires forall i :: 0 <= i < |theme.colors["editor.background"]| ==> theme.colors["editor.background"][i] in AsciiSpaces
    ensures Converted(theme).background == ""
  {
    WhitespaceValueGivesEmpty(theme.colors, "editor.background", DefaultBackground);
  }

  // ---------------------------------------------------------------------
  // cleanFilename

  /** The characters replaced by '_'. */
  const FilenameSpecials: set<char> := {' ', '/', '\\', ':', '*', '?', '"', '<', '>', '|'}

  /** Every special character replaced by '_', in one pass. */
  function MapSpecials(s: string): (r: string)
    ensures |r| == |s|
    ensures forall i :: 0 <= i < |s| ==> r[i] == if s[i] in FilenameSpecials then '_' else s[i]
  {
    seq(|s|, i requires 0 <= i < |s| => if s[i] in FilenameSpecials then '_' else s[i])
  }

  /** strings.ReplaceAll(s, "__", "_"): one left-to-right pass. */
  function CollapsePass(s: string): string
  {
    ReplaceAll(s, "__", "_")
  }

  /** s holds no two '_' in a row. */
  predicate NoDoubleUnderscore(s: string)
  {
    forall i :: 0 <= i < |s| - 1 ==> !(s[i] == '_' && s[i + 1] == '_')
  }

  /** Every run of '_' shortened to a single '_': the reference for what the
      collapse loop computes. */
  function Squash(s: string): (r: string)
    ensures |r| <= |s|
    ensures forall c :: c in r ==> c in s
    decreases |s|
  {
    if s == [] then []
    else if |s| >= 2 && s[0] == '_' && s[1] == '_' then Squash(s[1..])
    else [s[0]] + Squash(s[1..])
  }

  lemma ContainsDoubleUnderscore(s: string)
    ensures Contains(s, "__") <==> !NoDoubleUnderscore(s)
  {
    if !NoDoubleUnderscore(s) {
      var i :| 0 <= i < |s| - 1 && s[i] == '_' && s[i + 1] == '_';
      assert MatchAt(s, "__", i);
    }
    if Contains(s, "__") {
      var i :| 0 <= i <= |s| - 2 && MatchAt(s, "__", i);
      assert s[i..i + 2][0] == s[i] && s[i..i + 2][1] == s[i + 1];
    }
  }

  /** The first character of a squashed string is the original's. */
  lemma {:induction false} SquashHead(s: string)
    ensures s != [] ==> Squash(s) != [] && Squash(s)[0] == s[0]
    decreases |s|
  {
    if |s| >= 2 && s[0] == '_' && s[1] == '_' {
      SquashHead(s[1..]);
    }
  }

  /** Squashing leaves no two '_' in a row. */
  lemma {:induction false} SquashHasNoDoubleUnderscore(s: string)
    ensures NoDoubleUnderscore(Squash(s))
    decreases |s|
  {
    if s != [] {
      SquashHasNoDoubleUnderscore(s[1..]);
      if !(|s| >= 2 && s[0] == '_' && s[1] == '_') {
        SquashHead(s[1..]);
        var r := Squash(s);
        var rest := Squash(s[1..]);
        assert r == [s[0]] + rest;
        forall i | 0 <= i < |r| - 1
          ensures !(r[i] == '_' && r[i + 1] == '_')
        {
          if i > 0 {
            assert r[i] == rest[i - 1] && r[i + 1] == rest[i];
          }
        }
      }
    }
  }

  /** A string with no two '_' in a row is its own squash. */
  lemma {:induction false} SquashOfNoDoubleUnderscore(s: string)
    requires NoDoubleUnderscore(s)
    ensures Squash(s) == s
    decreases |s|
  {
    if s != [] {
      assert NoDoubleUnderscore(s[1..]) by {
        forall i | 0 <= i < |s[1..]| - 1
          ensures !(s[1..][i] == '_' && s[1..][i + 1] == '_')
        {
          assert s[1..][i] == s[i + 1] && s[1..][i + 1] == s[i + 2];
        }
      }
      SquashOfNoDoubleUnderscore(s[1..]);
      assert [s[0]] + s[1..] == s;
    }
  }

  /** Squash of '_' followed by s. */
  lemma SquashAfterUnderscore(s: string)
    ensures Squash(['_'] + s) == if s != [] && s[0] == '_' then Squash(s) else ['_'] + Squash(s)
  {
    assert (['_'] + s)[1..] == s;
  }

  /** A collapse pass keeps the first character's being '_' and never
      lengthens the string. */
  lemma {:induction false} CollapsePassShape(s: string)
    ensures |CollapsePass(s)| <= |s|
    ensures (CollapsePass(s) != [] && CollapsePass(s)[0] == '_') <==> (s != [] && s[0] == '_')
    decreases |s|
  {
    if s != [] {
      if |s| >= 2 && s[..2] == "__" {
        CollapsePassShape(s[2..]);
      } else {
        CollapsePassShape(s[1..]);
      }
    }
  }

  /** A collapse pass does not change the squash: the loop keeps it as its
      invariant. */
  lemma {:induction false} SquashOfCollapsePass(s: string)
    ensures Squash(CollapsePass(s)) == Squash(s)
    decreases |s|
  {
    if s != [] {
      if |s| >= 2 && s[..2] == "__" {
        var x := s[2..];
        SquashOfCollapsePass(x);
        CollapsePassShape(x);
        var cx := CollapsePass(x);
        assert s[0] == '_' && s[1] == '_' by {
          assert s[..2][0] == s[0] && s[..2][1] == s[1];
        }
        assert ReplaceAll(s, "__", "_") == "_" + ReplaceAll(x, "__", "_");
        assert CollapsePass(s) == ['_'] + cx;
        SquashAfterUnderscore(cx);
        assert s[1..] == ['_'] + x;
        assert Squash(s) == Squash(s[1..]);
        SquashAfterUnderscore(x);
      } else {
        var x := s[1..];
        SquashOfCollapsePass(x);
        CollapsePassShape(x);
        assert ReplaceAll(s, "__", "_") == [s[0]] + ReplaceAll(x, "__", "_");
        assert CollapsePass(s) == [s[0]] + CollapsePass(x);
        assert ([s[0]] + CollapsePass(x))[1..] == CollapsePass(x);
      }
    }
  }

  /** A pass over a string holding "__" makes it strictly shorter: the
      collapse loop terminates. */
  lemma {:induction false} CollapsePassShortens(s: string)
    requires !NoDoubleUnderscore(s)
    ensures |CollapsePass(s)| < |s|
    decreases |s|
  {
    if |s| >= 2 && s[..2] == "__" {
      CollapsePassShape(s[2..]);
    } else {
      assert !NoDoubleUnderscore(s[1..]) by {
        var i :| 0 <= i < |s| - 1 && s[i] == '_' && s[i + 1] == '_';
        assert i > 0;
        assert s[1..][i - 1] == s[i] && s[1..][i] == s[i + 1];
      }
      CollapsePassShortens(s[1..]);
    }
  }

  /** cleanFilename as a value. */
  function SanitizedFilename(name: string): string
  {
    Trim(Squash(Lower(RemoveChar(RemoveChar(MapSpecials(name), '('), ')'))), {'_'})
  }

  /** cleanFilename: replaces the special characters by '_', removes the
      parentheses, lower-cases, collapses "__" until none is left and trims
      '_' from both ends. */
  method CleanFilename(name0: string) returns (name: string)
    ensures name == SanitizedFilename(name0)
  {
    name := name0;
    name := ReplaceChar(name, ' ', '_');
    name := ReplaceChar(name, '/', '_');
    name := ReplaceChar(name, '\\', '_');
    name := ReplaceChar(name, ':', '_');
    name := ReplaceChar(name, '*', '_');
    name := ReplaceChar(name, '?', '_');
    name := ReplaceChar(name, '"', '_');
    name := ReplaceChar(name, '<', '_');
    name := ReplaceChar(name, '>', '_');
    name := ReplaceChar(name, '|', '_');
    assert name == MapSpecials(name0);

    name := RemoveChar(name, '(');
    name := RemoveChar(name, ')');

    name := Lower(name);

    ghost var lowered := name;
    ContainsDoubleUnderscore(name);
    while Contains(name, "__")
      invariant Squash(name) == Squash(lowered)
      invariant Contains(name, "__") <==> !NoDoubleUnderscore(name)
      decreases |name|
    {
      CollapsePassShortens(name);
      SquashOfCollapsePass(name);
      name := ReplaceAll(name, "__", "_");
      ContainsDoubleUnderscore(name);
    }
    SquashOfNoDoubleUnderscore(name);

    name := Trim(name, {'_'});
  }

  /** A character the file name may keep. */
  predicate FilenameSafe(c: char)
  {
    c !in FilenameSpecials && c != '(' && c != ')' && !IsAsciiUpper(c)
  }

  /** After the replacements and removals no special character or
      parenthesis is left. */
  lemma NoSpecialsBeforeLower(name: string)
    ensures forall c :: c in RemoveChar(RemoveChar(MapSpecials(name), '('), ')') ==>
      c !in FilenameSpecials && c != '(' && c != ')'
  {
    var a := MapSpecials(name);
    forall c | c in a
      ensures c !in FilenameSpecials
    {
      var i :| 0 <= i < |a| && a[i] == c;
    }
  }

  /** Lower-casing keeps those characters out and removes upper case. */
  lemma LowerKeepsSafe(b: string)
    requires forall c :: c in b ==> c !in FilenameSpecials && c != '(' && c != ')'
    ensures forall c :: c in Lower(b) ==> FilenameSafe(c)
  {
    var l := Lower(b);
    forall c | c in l
      ensures FilenameSafe(c)
    {
      var i :| 0 <= i < |l| && l[i] == c;
      assert b[i] in b;
    }
  }

  /** The output holds none of the replaced or removed characters and no
      upper-case letter. */
  lemma SanitizedFilenameCharacters(name: string)
    ensures forall c :: c in SanitizedFilename(name) ==> FilenameSafe(c)
  {
    var b := RemoveChar(RemoveChar(MapSpecials(name), '('), ')');
    NoSpecialsBeforeLower(name);
    LowerKeepsSafe(b);
    var q := Squash(Lower(b));
    var r := Trim(q, {'_'});
    var lo := |q| - |TrimLeft(q, {'_'})|;
    forall c | c in r
      ensures FilenameSafe(c)
    {
      var i :| 0 <= i < |r| && r[i] == c;
      assert r[i] == q[lo + i];
    }
  }

  /** The output holds no "__" and neither starts nor ends with '_'. */
  lemma SanitizedFilenameUnderscores(name: string)
    ensures var r := SanitizedFilename(name);
      && !Contains(r, "__")
      && (r != [] ==> r[0] != '_' && r[|r| - 1] != '_')
  {
    var lowered := Lower(RemoveChar(RemoveChar(MapSpecials(name), '('), ')'));
    SquashHasNoDoubleUnderscore(lowered);
    TrimKeepsNoDoubleUnderscore(Squash(lowered), {'_'});
    ContainsDoubleUnderscore(SanitizedFilename(name));
  }

  /** A slice of a string without "__" has none either, so trimming keeps
      that property. */
  lemma TrimKeepsNoDoubleUnderscore(q: string, cut: set<char>)
    requires NoDoubleUnderscore(q)
    ensures NoDoubleUnderscore(Trim(q, cut))
  {
    var r := Trim(q, cut);
    var lo := |q| - |TrimLeft(q, cut)|;
    forall i | 0 <= i < |r| - 1
      ensures !(r[i] == '_' && r[i + 1] == '_')
    {
      assert r[i] == q[lo + i] && r[i + 1] == q[lo + i + 1];
    }
  }

  /** The file name of a saved theme: the cleaned name with ".yaml". */
  method ThemeFileName(name: string) returns (filename: string)
    ensures filename == SanitizedFilename(name) + ".yaml"
  {
    var cleaned := CleanFilename(name);
    filename := cleaned + ".yaml";
  }

  /** The file name is a single path element on both kinds of separator:
      joined to the themes directory, it is that path's base name. */
  lemma ThemeFileNameIsOneElement(themesDir: string, name: string, sep: char)
    requires sep == '/' || sep == '\\'
    ensures var filename := SanitizedFilename(name) + ".yaml";
      FilePath.Base(themesDir + [sep] + filename, sep) == filename
  {
    var cleaned := SanitizedFilename(name);
    var filename := cleaned + ".yaml";
    SanitizedFilenameCharacters(name);
    forall i | 0 <= i < |filename|
      ensures filename[i] != sep
    {
      if i < |cleaned| {
        assert filename[i] == cleaned[i] && cleaned[i] in cleaned;
      } else {
        assert filename[i] == ".yaml"[i - |cleaned|];
      }
    }
    FilePath.BaseOfChild(themesDir, filename, sep);
  }

  /** "My Theme (Pro)!! v2" becomes "my_theme_pro!!_v2". */
  lemma SanitizedFilenameExample()
    ensures SanitizedFilename("My Theme (Pro)!! v2") == "my_theme_pro!!_v2"
  {
    ExampleReplaced();
    ExampleOpenRemoved();
    ExampleCloseRemoved();
    ExampleLowered();
    ExampleSquashedAndTrimmed();
  }

  // The steps of the example, one per lemma.

  lemma ExampleReplaced()
    ensures MapSpecials("My Theme (Pro)!! v2") == "My_Theme_(Pro)!!_v2"
  {
  }

  lemma ExampleOpenRemoved()
    ensures RemoveChar("My_Theme_(Pro)!!_v2", '(') == "My_Theme_Pro)!!_v2"
  {
    assert "My_Theme_" + "Pro)!!_v2" == "My_Theme_Pro)!!_v2";
    RemoveOnlyChar("My_Theme_(Pro)!!_v2", "My_Theme_", "Pro)!!_v2", '(');
  }

  lemma ExampleCloseRemoved()
    ensures RemoveChar("My_Theme_Pro)!!_v2", ')') == "My_Theme_Pro!!_v2"
  {
    assert "My_Theme_Pro" + "!!_v2" == "My_Theme_Pro!!_v2";
    RemoveOnlyChar("My_Theme_Pro)!!_v2", "My_Theme_Pro", "!!_v2", ')');
  }

  lemma ExampleLowered()
    ensures Lower("My_Theme_Pro!!_v2") == "my_theme_pro!!_v2"
  {
  }

  lemma ExampleHasNoDoubleUnderscore()
    ensures NoDoubleUnderscore("my_theme_pro!!_v2")
  {
  }

  lemma ExampleSquashedAndTrimmed()
    ensures Trim(Squash("my_theme_pro!!_v2"), {'_'}) == "my_theme_pro!!_v2"
  {
    ExampleHasNoDoubleUnderscore();
    SquashOfNoDoubleUnderscore("my_theme_pro!!_v2");
    TrimKeepsTrimmed("my_theme_pro!!_v2", {'_'});
  }
}
