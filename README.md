# vscode-to-warp, modelled in Dafny

vscode-to-warp finds the colour themes of the VS Code extensions installed
under the user's home directory and converts a chosen theme into a Warp
terminal theme, written as a YAML file. This project models the converter's
pipeline without its terminal interface and without file input and output:

- `paths.dfy` (module `Paths`, from paths.go) holds the hand-written
  helpers. These are the substring search, the suffix test and the ASCII
  lower-casing, the case-sensitive or case-insensitive `contains`, and the
  test for a path inside a `themes` directory. It also holds the resolvers
  of the VS Code extensions directory and the Warp themes directory, and the
  platform gate. The operating system name (`GOOS`), the home directory
  (`None` when it cannot be determined) and the path separator are
  parameters.
- `vscode.dfy` (module `VSCode`, from vscode.go) holds the discovery side:
  - the label derived from an extension directory name
    (`publisher.extension-1.2.3` reads as "Extension by Publisher");
  - the catalog entry built from a decoded theme document;
  - the walk callback that keeps the theme files found under the extensions
    directory;
  - the location of an extension's `package.json`.
  A walk of the file system is a sequence of entries. Each entry carries its
  path, whether the walk reported an error, whether it is a directory, and
  the document that reading and decoding the file would give (`None` when
  that fails).
- `warp.dfy` (module `Warp`, from warp.go) holds the conversion:
  - the Warp theme record filled field by field from a theme's colour map,
    with a default for every missing key;
  - the first-match accent lookup;
  - the normalisation of hex colours;
  - the clean-up of a theme name into a file name.
- `go_strings.dfy` (modules `GoStrings` and `FilePath`) models the functions
  of Go's `strings` and `path/filepath` packages that the converter calls, on
  ASCII text: `strings.Split`, `Join`, `Title`, `TrimSpace`, `Trim`,
  `ReplaceAll`, `LastIndex` and `ToLower`, and `filepath.Base` and
  `filepath.Join`.
- `wrappers.dfy` holds `Option`, `Result` and `Outcome`, which stand in for
  Go's nil values and `error` returns.

Functions specify what the source computes. Where the source works step by
step, a method does the same steps: the loops of `findSubstring`, `toLower`,
`extractExtensionName`, `LoadExtensionMetadata`, `findFirstColor` and the
walk callback, and the reassignments of `cleanFilename`. Each such method is
proved equal to its specification function, and lemmas state what the
source promises about that function.

Where the documented behaviour and the code differ, the model follows the
code. A colour value made only of whitespace counts as set. It therefore
cleans to `""` rather than giving way to the default, so an output field of
the Warp theme can be empty (`Warp.WhitespaceValueGivesEmpty`,
`Warp.WhitespaceBackgroundIsEmpty`).

## Model

| member | source | states |
|---|---|---|
| `Paths.FindSubstring` | paths.go:86-93 | true exactly when substr occurs in str at some offset 0..len(str)-len(substr) |
| `Paths.ContainsString` | paths.go:81-83 | the length guard changes nothing: true exactly when substr occurs in str; the empty string is always found |
| `Paths.ToLower` | paths.go:103-113 | the filled array is the character-wise ASCII lower-casing of s |
| `Paths.ToLowerChangesExactlyUpperCase` | paths.go:103-113 | length is kept; a character changes exactly when it is 'A'..'Z', and becomes the letter 32 code points later; no upper-case letter is left; lower-casing is idempotent |
| `Paths.LowerMatchAt` | paths.go:96-100 | an exact match of the lower-cased strings at i is a case-insensitive match at i |
| `Paths.ContainsCaseInsensitive` | paths.go:96-100 | true exactly when substr occurs in str at some offset, letters compared without case |
| `Paths.ContainsForPlatform` | paths.go:72-78 | case-insensitive search when GOOS is "windows", exact search otherwise |
| `Paths.HasSuffix` | paths.go:122-124 | true exactly when str is some prefix followed by suffix |
| `Paths.HasThemesAtEnd` | paths.go:116-119 | true exactly when the path ends in separator+"themes" or in separator+"themes"+separator, compared with case |
| `Paths.IsThemesDirectory` | paths.go:62-69 | true exactly when separator+"themes"+separator occurs in the path (without regard to case on Windows, exactly elsewhere) or the path ends in a "themes" element, compared with case on every platform |
| `Paths.ThemesDirectoryInside` | paths.go:62-69 | every path that passes through a directory named exactly "themes" is accepted, on every platform |
| `Paths.ThemesDirectoryLast` | paths.go:115-119 | a path whose last element is "themes" is accepted, on every platform |
| `Paths.WindowsThemesDirectoryIgnoresCase` | paths.go:71-78 | on Windows a directory whose name lower-cases to "themes" is accepted |
| `Paths.ThemesDirectoryNeedsBoundary` | paths.go:62-69 | "/mythemes" is rejected: the test matches whole directory names |
| `Paths.LinuxThemesDirectoryIsCaseSensitive` | paths.go:62-78 | "/x/Themes/a" is rejected on Linux: off Windows both tests are case-sensitive |
| `Paths.VSCodeExtensionsPath` | paths.go:16-36 | fails exactly when the home directory is unknown; otherwise home/.vscode/extensions for every GOOS |
| `Paths.WarpThemesPath` | paths.go:39-59 | fails when the home directory is unknown, then for "windows"; otherwise home/.warp/themes |
| `Paths.ValidatePlatformSupport` | paths.go:127-138 | fails exactly when GOOS is "windows" |
| `Paths.PlatformGateAgreesWithWarpThemesPath` | paths.go:45-48 | once the home directory is known, the gate passes exactly when the Warp themes path resolves |
| `VSCode.ExtensionDirFrom` | vscode.go:133-136 | the index found is one past the first "extensions" element that has a successor; None when no such element exists |
| `VSCode.StripVersionWithoutDash` | vscode.go:138-145 | a directory name without '-' is kept whole |
| `VSCode.StripVersionAtLastDash` | vscode.go:138-145 | the text from the last '-' is removed exactly when what follows is non-empty and starts with a digit or holds a '.' |
| `VSCode.ReadableNameOfPublisherExtension` | vscode.go:147-152 | "p.e" reads as Title(e with '-' as ' ') + " by " + Title(p) |
| `VSCode.ReadableNameWithoutDot` | vscode.go:147-155 | a name without '.' is title-cased with '-' read as ' ' |
| `VSCode.ReadableNameWithSeveralDots` | vscode.go:147-155 | a name with two or more '.' is title-cased whole, dots kept |
| `VSCode.ExtractExtensionName` | vscode.go:130-159 | the loop with early return gives the label of the element after the first "extensions" that has a successor, or "" |
| `VSCode.ExtensionNameUsesFirstExtensionsDir` | vscode.go:132-136 | with the elements before, "extensions", dir and after, and no "extensions" before, the label is dir's label whatever follows |
| `VSCode.ExtensionNameWithoutExtensionsDir` | vscode.go:133-158 | with no "extensions" element before the last one, the label is "" |
| `VSCode.ExtensionLabelOfVersionedDir` | vscode.go:136-152 | a versioned "publisher.extension" directory reads as "Extension by Publisher" |
| `VSCode.ExtensionLabelExample` | vscode.go:131-152 | "foo.bar-1.2.3" reads as "Bar by Foo" |
| `VSCode.ParseThemeFile` | vscode.go:96-127 | fails exactly when the document cannot be read or decoded, or its name is "" |
| `VSCode.ParsedThemeInfo` | vscode.go:112-126 | the display name is the theme name, with " (label)" when there is a label; path and type are copied; the identifier is the base name without a trailing ".json" |
| `VSCode.UpperCaseJsonKeepsExtension` | vscode.go:113-122 | the ".json" removal is case-sensitive: a ".JSON" file keeps its whole name as identifier |
| `VSCode.JsonFilterIgnoresCase` | vscode.go:67-70 | the suffix filter of the walk lets both ".json" and ".JSON" files through |
| `VSCode.DiscoverVSCodeThemes` | vscode.go:53-93 | fails only when the home directory is unknown; otherwise the themes are the catalog of the walk, with every per-entry failure skipped |
| `VSCode.CatalogStep` | vscode.go:61-86 | an entry appends its parsed entry exactly when it has no walk error, is not a directory, ends in ".json" in any case, is in a themes directory and parses; otherwise it appends nothing |
| `VSCode.CatalogAppend` | vscode.go:58-86 | the catalog of two walks in sequence is the first catalog followed by the second: walk order is kept |
| `VSCode.CatalogSound` | vscode.go:61-86 | every catalog entry is the parse of a candidate entry of the walk; the catalog is no longer than the walk |
| `VSCode.CatalogComplete` | vscode.go:61-86 | every candidate entry of the walk that parses is in the catalog |
| `VSCode.LoadExtensionMetadata` | vscode.go:177-199 | fails exactly when no "extensions" element has a successor; otherwise package.json is looked up in the join of the elements up to the one after the first such "extensions" |
| `VSCode.ExtensionDirIsPrefixOfThemePath` | vscode.go:182-199 | that extension directory is a prefix of the theme's path, and package.json sits directly inside it |
| `GoStrings.ReplaceCharIsReplaceAll` | warp.go:175-184 | the per-character replacement used for the special characters is strings.ReplaceAll of one character |
| `GoStrings.RemoveCharIsReplaceAll` | warp.go:187-188 | the removal of a parenthesis is strings.ReplaceAll by "" |
| `Warp.NormalizeHex` | warp.go:121-137 | a trimmed value not starting with '#' is kept; one starting with '#' still starts with '#'; the length becomes 7 for lengths 9 and 4, and for every other length the value is returned unchanged |
| `Warp.CleanColor` | warp.go:117-138 | the result never starts with whitespace; once trimmed, a value without '#', or with '#' and a length other than 9 and 4, is returned as it is; a nine-character code keeps its first seven characters; a four-character code has each digit doubled |
| `Warp.CleanColorKeepsOtherLengths` | warp.go:121-137 | a '#' value whose trimmed length is neither 9 nor 4, such as "#rrggbb", is only trimmed |
| `Warp.CleanColorTrimsFirst` | warp.go:117-119 | surrounding whitespace never matters |
| `Warp.CleanColorDropsAlpha` | warp.go:126-129 | "#rrggbbaa" becomes "#rrggbb" |
| `Warp.CleanColorExpandsShort` | warp.go:131-135 | "#xyz" becomes "#xxyyzz" |
| `Warp.CleanColorWithoutHash` | warp.go:121-124 | a value not starting with '#' once trimmed is only trimmed |
| `Warp.CleanColorOfWhitespace` | warp.go:117-124 | a value made only of whitespace cleans to "" |
| `Warp.CleanColorIdempotent` | warp.go:117-138 | cleaning twice is cleaning once, except for an eight-digit code whose seventh character is whitespace |
| `Warp.CleanColorNotIdempotentWithInnerSpace` | warp.go:117-129 | that exception occurs: "#12345 78" cleans to "#12345 ", which cleans to "#12345" |
| `Warp.GetColorOrDefault` | warp.go:99-104 | a missing key or a key mapped to "" gives the default; any other value gives its cleaned form, so the result is the default or does not start with whitespace |
| `Warp.EmptyValueCountsAsAbsent` | warp.go:99-104 | a key mapped to "" gives the default, as a missing key does |
| `Warp.WhitespaceValueGivesEmpty` | warp.go:99-104 | a set key holding only whitespace gives "", not the default |
| `Warp.FindFirstColor` | warp.go:107-114 | the loop with early return computes the first-set-key colour |
| `Warp.FirstColorIsFirstSetKey` | warp.go:107-114 | the result is the cleaned value of the first key, in list order, that is set |
| `Warp.FirstColorDefault` | warp.go:107-114 | with no key set the result is the default |
| `Warp.FirstColorIgnoresLaterKeys` | warp.go:108-111 | keys after the first set one are never consulted |
| `Warp.ConvertTerminalColors` | warp.go:73-96 | slot k of the normal palette reads terminal.ansi<Name>, slot k of the bright palette terminal.ansiBright<Name>, each with its default from the table |
| `Warp.TerminalSlotDependsOnlyOnItsKey` | warp.go:73-95 | no palette slot depends on any key but its own |
| `Warp.TerminalColorsDefaults` | warp.go:73-95 | a theme that sets no terminal colour gets the whole default table |
| `Warp.ConvertVSCodeToWarp` | warp.go:40-70 | filling the record field by field gives the converted theme, and no error is ever returned |
| `Warp.ConvertedEditorColors` | warp.go:44-45 | background and foreground are the cleaned editor colours when set, #1e1e1e and #d4d4d4 otherwise |
| `Warp.ConvertedAccent` | warp.go:47-57 | the accent is the cleaned value of the first set key among focusBorder, button.background, progressBar.background, textLink.foreground, editorCursor.foreground, terminal.ansiBlue |
| `Warp.ConvertedAccentDefault` | warp.go:57 | with no accent key set the accent is #007acc |
| `Warp.ConvertedDetails` | warp.go:59-64 | details is "lighter" exactly when the type is "light", compared with case, and "darker" for every other type |
| `Warp.ConvertedDependsOnTypeOnlyForDetails` | warp.go:40-70 | the type affects the details field alone; the theme's name affects nothing |
| `Warp.WhitespaceBackgroundIsEmpty` | warp.go:44 | a set editor.background made only of whitespace gives an empty background |
| `Warp.ContainsDoubleUnderscore` | warp.go:194 | the loop condition holds exactly when two '_' stand next to each other |
| `Warp.SquashOfCollapsePass` | warp.go:194-196 | one ReplaceAll("__", "_") pass keeps the string's squash (runs of '_' made single), which is the loop invariant |
| `Warp.CollapsePassShortens` | warp.go:194-196 | a pass over a string holding "__" makes it strictly shorter, so the loop terminates |
| `Warp.SquashHasNoDoubleUnderscore` | warp.go:193-196 | a squashed string holds no "__" |
| `Warp.SquashOfNoDoubleUnderscore` | warp.go:193-196 | a string without "__" is its own squash, so the loop ends at the squash |
| `Warp.CleanFilename` | warp.go:173-202 | the replacements, removals, lower-casing, collapse loop and trim compute the sanitized file name |
| `Warp.SanitizedFilenameCharacters` | warp.go:174-191 | the result holds none of space, / \ : * ? " < >, the vertical bar and ( ), and no upper-case letter |
| `Warp.SanitizedFilenameUnderscores` | warp.go:193-199 | the result holds no "__" and neither starts nor ends with '_' |
| `Warp.SanitizedFilenameExample` | warp.go:173-202 | "My Theme (Pro)!! v2" becomes "my_theme_pro!!_v2" |
| `Warp.ThemeFileName` | warp.go:155 | the file name is the sanitized name followed by ".yaml" |
| `Warp.ThemeFileNameIsOneElement` | warp.go:155-156 | with '/' or '\' as separator the file name is one path element: joined to the themes directory, it is the base name of the result |

## Left out

- main.go is not part of this model. That covers the terminal interface
  (list, key handling, rendering) and its theme filter, which exist to drive
  a UI library.
- File input and output are not modelled, because they act on the outside
  world:
  - reading and JSON decoding of theme files and package.json files;
  - the traversal of `filepath.WalkDir`;
  - `os.UserHomeDir`;
  - in `SaveWarpTheme`, creating the themes directory, YAML encoding and
    writing the file.
  Decoded documents, walk entries and the home directory are inputs instead.
  Only the file name composition of `SaveWarpTheme` is modelled.
- `LoadVSCodeTheme` is only a read and a decode, so nothing of it is left
  to model.
- `getPlatformInfo` and `getAlternativeTerminalInfo` return constants or
  runtime values and are not modelled.
- Token colours and the fields of the extension metadata are decoded by
  the source but never used by the conversion. They are not part of the
  model, and neither is the metadata field of a catalog entry.
- `ConvertVSCodeToWarp` is modelled with its one argument. Its `error`
  result is never produced.
- `FilePath.JoinPath`: models `filepath.Join` without its final
  `filepath.Clean`. It joins the non-empty elements with the separator, so
  "." and ".." elements and doubled separators are not resolved.
- `FilePath.Base`: knows a single separator character. Windows volume names,
  and '/' accepted as a second separator on Windows, are not modelled.
- `Paths.ToLower`, `GoStrings.Lower`, `GoStrings.Title` and
  `GoStrings.TrimSpace` are ASCII models: a character stands for one byte.
  Two behaviours are therefore not modelled:
  - Go's Unicode case and space tables;
  - the `toLower` behaviour on multi-byte text, where the rune array is
    indexed by byte offset and holds one entry per byte.
- `VSCode.DiscoverVSCodeThemes`: the walk's visiting order is taken as
  given. The error return after the walk (vscode.go:88-90) cannot be
  reached once the extensions path resolves, because the callback never
  returns an error, so the model has no such error.
- `VSCode.LoadExtensionMetadata`: ends with the path of package.json.
  Reading and decoding that file, and their two errors, are not modelled.
- The location mismatch between `SaveWarpTheme` (always home/.warp/themes)
  and `getWarpThemesPath` belongs to the I/O layer and is not modelled.
