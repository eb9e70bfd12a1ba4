# FontForge `generate.py` in Dafny

This is a model of the FontForge engine script `tasks/engines/fontforge/generate.py`. The script turns a directory of SVG and EPS icons into one icon font, written as TTF, SVG, WOFF and EOT files. It runs in three parts.

1. **Build.** It creates a FontForge font and sets its metrics. "Zero means default" applies here: `x or default`. If ligatures are requested, it adds the `liga` lookup and subtable.
2. **Walk.** For every file of the input walk it:
   - splits the name the way `os.path.splitext` does;
   - accepts `.svg` and `.eps`;
   - strips `<switch>`/`</switch>` from SVG sources in place;
   - feeds `filename + str(size) + ';'` to MD5;
   - creates a glyph at the next private-use codepoint (`0xE001`, `0xE002`, …), with ligature placeholders and a ligature rule when requested;
   - runs `autoWidth`.
3. **Export.** It names the output `output_dir/font[-digest]` and then:
   - generates the TTF;
   - optionally hints it with `ttfautohint` and reopens it;
   - generates the SVG (with its header fix), the WOFF and the EOT, as requested;
   - removes the TTF unless it was requested;
   - prints the base name.

The model is organised as the script is:

| module | file | what it holds |
|---|---|---|
| `ByteStrings` | bytes.dfy | Python 2 byte strings, `str(n)` for sizes |
| `PyStr` | pystr.dfy | `str.replace` (left to right, non-overlapping) and occurrence counting |
| `Config` | config.dfy | the `','` split of `types`, the metric defaults, the base name `fontfile` |
| `Fonts` | fonts.dfy | the FontForge font as a class whose methods record each API call |
| `Paths` | paths.dfy | POSIX `splitext` and `join`, the accept test |
| `Walk` | walk.dfy | walk entries, the accepted files, the MD5 feed |
| `Build` | build.dfy | the build loop as a method with invariants, proved against `GlyphTable`, `Feed` and `SourcesAfter` |
| `Rewrites` | rewrites.dfy | the two in-place text rewrites on a file with `read`/`seek`/`truncate`/`write` |
| `Export` | export.dfy | the export as a list of steps over an abstract output directory, plus a `Session` class running it statement by statement |
| `Script` | script.dfy | the whole run |

The imperative parts are methods on classes:
- the build loop (`Build.BuildGlyphs`);
- the file buffer (`Rewrites.TextFile`);
- the export statements (`Export.Session`).

Each is specified by a pure function of the old state, and the properties are lemmas about those functions. The external inputs are parameters:
- the walk itself, as `(dirname, filename, size)` triples in `os.walk` order;
- the content of the source files;
- MD5, as a function `digest` of the fed bytes;
- whether `ttfautohint` exists;
- the exit statuses of the two external tools;
- the SVG text FontForge writes.

### Behaviour of the script worth knowing
- `autoWidth(0, 0, 512)` runs once per walked file, rejected files included, because line 88 sits outside the `if` (`Build.BuildGlyphs`, `Script.BuildFont`).
- The font, family and full names are set after the glyphs, not before (lines 94-96; `Script.FillFont`).
- Without ligatures the glyph gets no name (line 80; `Build.NoLigatureGlyphs`).
- The SVG fix only rewrites the literal `<svg>`. A root tag that carries attributes is left as it is (`Rewrites.FixSvgHeaderUnchanged`).
- A failing EOT converter is not fatal. `call` ignores the exit status, so the export goes on (`Export.ApplyStep`, `Export.OutputEot`).
- The font is reopened from the TTF whenever `ttfautohint` exists, even after a failed hint. The reopened font drives every later `generate`, the SVG and WOFF included (`Export.HintSteps`, `Export.OutputWoff`).
- One left-to-right pass per tag does not remove every `<switch>`. Text such as `<<switch>switch>` comes out as `<switch>` (`Rewrites.StripSwitchCanLeaveTag`).
- Each SVG glyph's outline is read from the file after the `<switch>` strip has rewritten it, because line 81 comes after lines 59-72 (`Build.ImportsStrippedText`, `Build.VisitEntry`).
- Two different walks can feed MD5 the same bytes (`Walk.FeedCollision`).
- Every walked file has its size read at line 56, before the extension test, so a missing file fails the run even when its extension would have skipped it (a dangling link, say). The SVG sources walked before it are already stripped (`Build.VisitEntry`, `Build.BuildGlyphs`).
- A second run over an unchanged directory is not guaranteed the same hashed name. The size is read before the `<switch>` strip rewrites the file, so a source that held a tag is shorter on the next run (`Build.RerunShrinksSource`), and a changed size changes what MD5 is fed (`Walk.FeedSeesSize`). That `getsize` then reports the shorter length lies outside the model, which takes sizes as inputs.

## Model

| member | source | states |
|---|---|---|
| ByteStrings.Decimal | tasks/engines/fontforge/generate.py:74 | `str(size)` is a non-empty string of decimal digits |
| ByteStrings.DecimalRoundTrip | tasks/engines/fontforge/generate.py:74 | reading the digits of `str(n)` back gives `n` |
| ByteStrings.DecimalNoLeadingZero | tasks/engines/fontforge/generate.py:74 | `str(n)` starts with `0` exactly when `n` is 0 |
| ByteStrings.DecimalInjective | tasks/engines/fontforge/generate.py:74 | different sizes render as different strings |
| PyStr.Replace | tasks/engines/fontforge/generate.py:66-67 | Python's `str.replace`: occurrences are found left to right, do not overlap, and are each replaced once; its effect is stated by `PyStr.ReplaceLength`, `PyStr.ReplaceAbsent` and `PyStr.ReplacePresentChanges` |
| PyStr.Count | tasks/engines/fontforge/generate.py:66-67 | `str.count`: the occurrences `Replace` rewrites; `PyStr.CountZeroIff` says when there are none |
| PyStr.ReplaceLength | tasks/engines/fontforge/generate.py:66-67 | `replace` changes the length by `count * (len(rep) - len(pat))` |
| PyStr.CountZeroIff | tasks/engines/fontforge/generate.py:66-67 | the non-overlapping count is 0 exactly when the pattern does not occur |
| PyStr.ReplaceAbsent | tasks/engines/fontforge/generate.py:66-67 | `replace` of an absent pattern returns the text unchanged |
| PyStr.ReplacePresentChanges | tasks/engines/fontforge/generate.py:66-67 | `replace` of a present pattern by a replacement of another length changes the text |
| Config.ParseTypes | tasks/engines/fontforge/generate.py:18 | the `types` argument as `s.split(',')` leaves it, empty and unstripped pieces kept; its properties are the `Config.SplitOn*` lemmas and the two `Config.ParseTypes*` examples |
| Config.Requested | tasks/engines/fontforge/generate.py:116-138 | `'svg' in args.types` and its siblings: exact membership of a piece, with no trimming or case folding (`Config.ParseTypesKeepsSpaces`) |
| Config.OrDefault | tasks/engines/fontforge/generate.py:31-34 | Python's `x or default` on an integer: 0 is falsy and gives the default (`Config.ZeroMeansDefault`) |
| Config.ChooseMetrics | tasks/engines/fontforge/generate.py:31-34 | the four metrics of lines 31-34 (`Config.ChooseMetricsDefaults`) |
| Config.FontFile | tasks/engines/fontforge/generate.py:90-92 | `output_dir + '/' + font`, followed by `'-' + hexdigest` when hashes are on (`Config.FontFileShape`, `Config.FontFileSeparatesDigests`) |
| Config.SplitOn | tasks/engines/fontforge/generate.py:18 | `split(',')` always yields at least one piece |
| Config.SplitOnJoin | tasks/engines/fontforge/generate.py:18 | joining the pieces with the separator gives back the argument |
| Config.SplitOnPieces | tasks/engines/fontforge/generate.py:18 | no piece holds the separator; there is one piece more than there are separators |
| Config.SplitOnFirst | tasks/engines/fontforge/generate.py:18 | the split peels off the text before the first separator |
| Config.ParseTypesExample | tasks/engines/fontforge/generate.py:18 | `woff,eot` requests exactly `woff` and `eot`, not `ttf` |
| Config.ParseTypesKeepsSpaces | tasks/engines/fontforge/generate.py:116 | `ttf, svg` does not request `svg`: pieces are not stripped |
| Config.ChooseMetricsDefaults | tasks/engines/fontforge/generate.py:31-34 | each metric is the given value unless it is 0, which gives 16, 512, 448 or 64; the result is never 0 |
| Config.ZeroMeansDefault | tasks/engines/fontforge/generate.py:31-34 | two settings give the same metric exactly when they are equal or one is 0 and the other the default |
| Config.FontFileShape | tasks/engines/fontforge/generate.py:90-92 | the base name is `output_dir/font`, followed by `-digest` exactly when hashes are on |
| Config.FontFileSeparatesDigests | tasks/engines/fontforge/generate.py:90-92 | different digests give different hashed base names |
| Fonts.Font.constructor | tasks/engines/fontforge/generate.py:29 | a new font has no glyphs, lookups, subtables, width passes or names |
| Fonts.Font.CreateChar | tasks/engines/fontforge/generate.py:77-80 | `createChar` adds a blank glyph at a free codepoint and leaves an existing one |
| Fonts.Font.DrawOriginPoint | tasks/engines/fontforge/generate.py:43-45 | the glyph pen's `moveTo((0,0))` makes the origin point the glyph's whole outline |
| Fonts.Font.AddPosSub | tasks/engines/fontforge/generate.py:78 | `addPosSub` appends one ligature rule to that glyph only |
| Fonts.Font.ImportOutlines | tasks/engines/fontforge/generate.py:81 | `importOutlines(path)` appends to that glyph only a contour recording the path and the text the file system holds at that path at the time of the call |
| Fonts.Font.ZeroSideBearings | tasks/engines/fontforge/generate.py:83 | both side bearings of that glyph are set to zero |
| Fonts.Font.Round | tasks/engines/fontforge/generate.py:84 | that glyph is marked rounded and nothing else changes |
| Fonts.Font.AutoWidth | tasks/engines/fontforge/generate.py:88 | one width pass with the given bounds is recorded |
| Fonts.Font.AddLookup | tasks/engines/fontforge/generate.py:49 | a lookup that did not exist is appended |
| Fonts.Font.AddLookupSubtable | tasks/engines/fontforge/generate.py:50 | a subtable of an existing lookup is appended |
| Paths.RFind | tasks/engines/fontforge/generate.py:54 | the index of the last occurrence, or -1 when there is none |
| Paths.SplitExt | tasks/engines/fontforge/generate.py:54 | POSIX `os.path.splitext`: the extension starts at the last dot of the last component that has a non-dot byte before it (`Paths.SplitExtParts`, `Paths.AcceptedExamples`, `Paths.RejectedExamples`) |
| Paths.Join | tasks/engines/fontforge/generate.py:55 | POSIX `os.path.join(dirname, filename)` (`Paths.JoinEndsWithName`) |
| Paths.IsVectorSource | tasks/engines/fontforge/generate.py:58 | `ext in ['.svg', '.eps']` (`Paths.VectorSourceIff`) |
| Paths.IsSvgSource | tasks/engines/fontforge/generate.py:59 | `ext in ['.svg']` (`Paths.SvgNameAccepted`, `Paths.AcceptedExamples`) |
| Paths.SplitExtParts | tasks/engines/fontforge/generate.py:54 | root and extension concatenate to the name; the extension is empty or one dot followed by bytes that are neither dots nor slashes |
| Paths.JoinEndsWithName | tasks/engines/fontforge/generate.py:55 | the joined path ends with the file name and is `dir/name` for a relative name in a directory without a trailing slash |
| Paths.VectorSourceIff | tasks/engines/fontforge/generate.py:54-58 | a walked name is accepted exactly when it ends with the case-sensitive `.svg` or `.eps` after some non-dot byte |
| Paths.SvgNameAccepted | tasks/engines/fontforge/generate.py:54-59 | a name not starting with a dot and ending in `.svg` is accepted and stripped, and its glyph name is the rest |
| Paths.VectorSourceHasName | tasks/engines/fontforge/generate.py:54 | an accepted file's name has a non-dot byte, so it is not empty |
| Paths.AcceptedExamples | tasks/engines/fontforge/generate.py:54-59 | `home.svg` and `arrow.left.eps` are accepted, with names `home` and `arrow.left`; only the first is an SVG |
| Paths.RejectedExamples | tasks/engines/fontforge/generate.py:54-58 | `home.SVG`, `.svg` and `..svg` are skipped |
| Walk.PathOf | tasks/engines/fontforge/generate.py:55 | `filePath` of a walked entry |
| Walk.NameOf | tasks/engines/fontforge/generate.py:54 | `name`, the glyph name, of a walked entry (`Paths.VectorSourceHasName`) |
| Walk.Accepts | tasks/engines/fontforge/generate.py:58 | the extension test of line 58 on a walked entry (`Walk.AcceptedAccepts`, `Walk.AcceptedMembers`) |
| Walk.Accepted | tasks/engines/fontforge/generate.py:52-58 | the accepted files are no more than the walked ones |
| Walk.AcceptedAccepts | tasks/engines/fontforge/generate.py:58 | every accepted entry passes the extension test |
| Walk.AcceptedAppend | tasks/engines/fontforge/generate.py:52-58 | accepting a concatenated walk is accepting each part in turn |
| Walk.AcceptedMembers | tasks/engines/fontforge/generate.py:52-58 | an entry is accepted exactly when it was walked and passes the test |
| Walk.RejectedIgnored | tasks/engines/fontforge/generate.py:52-58 | a rejected file leaves the accepted list as if it had not been walked |
| Walk.Record | tasks/engines/fontforge/generate.py:74 | `filename + str(size) + ';'` for one accepted file (`Walk.RecordSizeMatters`, `Walk.FeedShape`) |
| Walk.Feed | tasks/engines/fontforge/generate.py:74 | every `m.update` argument concatenated in walk order (`Walk.FeedAppend`, `Walk.FeedNamesAndSizes`, `Walk.FeedSeesSize`, `Walk.FeedCollision`) |
| Walk.FeedAppend | tasks/engines/fontforge/generate.py:74 | successive `update` calls feed the concatenation of their records |
| Walk.FeedShape | tasks/engines/fontforge/generate.py:74 | a non-empty feed ends with `;` and is at least two bytes per file |
| Walk.FeedNamesAndSizes | tasks/engines/fontforge/generate.py:74 | the feed depends only on the ordered (filename, size) pairs |
| Walk.RecordSizeMatters | tasks/engines/fontforge/generate.py:74 | one file's record determines its size |
| Walk.FeedSeesSize | tasks/engines/fontforge/generate.py:56 | changing one accepted file's size changes the feed, and only a changed size does |
| Walk.WalkFeedIgnoresRejected | tasks/engines/fontforge/generate.py:58-74 | a rejected file does not touch the digest |
| Walk.FeedCollision | tasks/engines/fontforge/generate.py:74 | two different accepted walks can feed MD5 the same bytes |
| Build.Components | tasks/engines/fontforge/generate.py:78 | `tuple(name)` (`Build.ComponentsSpellName`) |
| Build.Placeholder | tasks/engines/fontforge/generate.py:42-45 | the glyph `empty_char(f, c)` makes at a free `ord(c)`: named `c`, drawn as the origin point |
| Build.EmptyCharStep | tasks/engines/fontforge/generate.py:42-45 | the glyph table after `empty_char(f, c)`: an existing glyph keeps its name and becomes the origin point (`Build.EmptyChar` is proved against it) |
| Build.Placeholders | tasks/engines/fontforge/generate.py:76 | `[empty_char(f, c) for c in name]`, in byte order (`Build.EmptyChars`, `Build.PlaceholdersEffect`) |
| Build.SourceOf | tasks/engines/fontforge/generate.py:54-81 | an accepted file's glyph name, path, and the text `importOutlines` reads from the tree given |
| Build.ComponentsSpellName | tasks/engines/fontforge/generate.py:78 | `tuple(name)` has one single-byte component per byte of the name, and the components spell the name in order |
| Build.Sources | tasks/engines/fontforge/generate.py:54-55 | one source per accepted file in walk order, each with the text the tree holds once the walk has reached that file; `Build.SourcesIndex`, `Build.SourceAt` and `Build.ImportsStrippedText` state which name, path and text each has |
| Build.SourcesIndex | tasks/engines/fontforge/generate.py:54-55 | the j-th source has the name and path of the j-th accepted file |
| Build.SourcesPrefix | tasks/engines/fontforge/generate.py:52-55 | the glyphs imported by the first n entries of the walk are the first glyphs imported by the whole walk, in the same order |
| Build.SourceAt | tasks/engines/fontforge/generate.py:52-81 | the accepted file at walk position i is imported from the tree as the first i + 1 entries left it, its own strip included |
| Build.ImportsStrippedText | tasks/engines/fontforge/generate.py:59-81 | the strip comes before the import: a file walked once is imported from its stripped text if it is an SVG, and from its unchanged content if it is an EPS |
| Build.SourcesNamed | tasks/engines/fontforge/generate.py:54 | every accepted file's glyph name is non-empty |
| Build.Codepoint | tasks/engines/fontforge/generate.py:37 | every allocated codepoint is at least `0xE001`; the full allocation is stated by `Build.CodepointsAllocation` |
| Build.Codepoints | tasks/engines/fontforge/generate.py:37-86 | the values `cp` takes for the accepted files, in order (`Build.CodepointsAllocation`) |
| Build.SourceGlyph | tasks/engines/fontforge/generate.py:75-84 | the glyph made for one file: named and given one `liga` rule with ligatures, its outline imported from the file's text, zero bearings, rounded (`Build.AddSourceEffect`, `Build.LigatureRulesResolve`) |
| Build.AddSource | tasks/engines/fontforge/generate.py:75-86 | the glyph table after one accepted file: its placeholders with ligatures, then its glyph at `cp` (`Build.AddSourceEffect`; `Build.AddSourceGlyph` is proved against it) |
| Build.GlyphTable | tasks/engines/fontforge/generate.py:52-86 | the glyph table after all accepted files, the k-th at `0xE001 + k` (`Build.GlyphTableSources`, `Build.GlyphTablePlaceholders`, `Build.GlyphTableLowKeys`, `Build.CodepointsAllocation`, `Build.NoLigatureGlyphs`) |
| Build.CodepointsAllocation | tasks/engines/fontforge/generate.py:52-86 | the k-th accepted file's glyph sits at `0xE001 + k`; codepoints strictly increase; every glyph at or above `0xE001` is some file's |
| Build.PlaceholdersEffect | tasks/engines/fontforge/generate.py:76 | placeholders add glyphs only at the name's bytes, keep every glyph from `0xE001` up, and leave one at each byte |
| Build.AddSourceEffect | tasks/engines/fontforge/generate.py:75-86 | one accepted file adds its glyph at its codepoint and only placeholders below |
| Build.GlyphTableSources | tasks/engines/fontforge/generate.py:75-86 | after the walk each file's glyph is at its codepoint, unchanged by later files |
| Build.GlyphTablePlaceholders | tasks/engines/fontforge/generate.py:76 | with ligatures, every byte of every name has a glyph |
| Build.GlyphTableLowKeys | tasks/engines/fontforge/generate.py:75-80 | a glyph below `0xE001` exists only with ligatures, at a byte of some file's name |
| Build.LigatureRulesResolve | tasks/engines/fontforge/generate.py:42-78 | with ligatures, each file's glyph is named after the file and has one `liga` rule; each component is a placeholder drawn as the origin point |
| Build.NoLigatureGlyphs | tasks/engines/fontforge/generate.py:80 | without ligatures the font holds exactly the allocated codepoints, unnamed and without rules |
| Build.SourcesAfter | tasks/engines/fontforge/generate.py:52-72 | the source tree after the walk, each accepted SVG stripped each time it is walked (`Build.SourcesAfterTouchesOnlySvg`, `Build.SourcesAfterStripsOnce`, `Build.RerunShrinksSource`) |
| Build.AllPresent | tasks/engines/fontforge/generate.py:56 | every walked file exists, so every `getsize` succeeds (`Build.BuildGlyphs` fails exactly when it does not hold) |
| Build.FailsAt | tasks/engines/fontforge/generate.py:52-88 | the walk stops at entry k, the first missing one, with the tree as the entries before k left it (`Build.BuildGlyphs`) |
| Build.WidthPasses | tasks/engines/fontforge/generate.py:88 | one `autoWidth(0, 0, 512)` pass per walked file (`Build.BuildGlyphs`) |
| Build.SourcesAfterTouchesOnlySvg | tasks/engines/fontforge/generate.py:59-72 | the walk creates and removes no file and rewrites only accepted SVGs |
| Build.SourcesAfterStripsOnce | tasks/engines/fontforge/generate.py:59-72 | an SVG walked once holds exactly its stripped text afterwards |
| Build.RerunShrinksSource | tasks/engines/fontforge/generate.py:56-72 | an SVG walked once that held a tag is strictly shorter afterwards |
| Build.NewFont | tasks/engines/fontforge/generate.py:29-34 | a fresh font in `UnicodeFull` with the defaulted metrics and nothing else |
| Build.AddLigatureLookup | tasks/engines/fontforge/generate.py:48-50 | appends the `liga` ligature lookup for `latn` and its `liga` subtable |
| Build.EmptyChar | tasks/engines/fontforge/generate.py:42-45 | the glyph at `ord(c)` becomes the origin point, created and named `c` if missing |
| Build.EmptyChars | tasks/engines/fontforge/generate.py:76 | the placeholder of every byte of the name, in order |
| Build.StripSource | tasks/engines/fontforge/generate.py:61-72 | the source file's content becomes its stripped text |
| Build.AddSourceGlyph | tasks/engines/fontforge/generate.py:75-86 | the placeholders, then the glyph at the codepoint with outline, bearings, rounding and rule, its outline imported from the file as the tree holds it at the call |
| Build.VisitEntry | tasks/engines/fontforge/generate.py:53-88 | one walked file: fails, changing nothing, exactly when the file does not exist (its size is read first; the only failure modelled here); otherwise does the strip, the feed and the glyph of an accepted file, and the glyph is imported from the stripped text of an SVG and the unchanged text of an EPS; plus the width pass |
| Build.BuildGlyphs | tasks/engines/fontforge/generate.py:52-88 | the loop fails exactly when some walked file is missing (the only failure modelled here), and then the tree is what the entries before the first missing one left; otherwise it leaves exactly `GlyphTable(Sources(walk, tree))`, with each file imported as its own visit left it, `Feed`, `SourcesAfter`, one width pass per walked file and the codepoints handed out |
| Build.SetNames | tasks/engines/fontforge/generate.py:94-96 | font, family and full name are all the font argument |
| Rewrites.StripSwitch | tasks/engines/fontforge/generate.py:66-67 | `<switch>` removed, then `</switch>` removed from what is left (`Rewrites.StripSwitchLength`, `Rewrites.StripSwitchUnchanged`, `Rewrites.StripSwitchChanges`, `Rewrites.StripSwitchCanLeaveTag`; `Rewrites.StripSwitchTags` is proved against it) |
| Rewrites.FixSvgHeader | tasks/engines/fontforge/generate.py:123 | every literal `<svg>` replaced by the tag with the SVG namespace (`Rewrites.FixSvgHeaderGrows`, `Rewrites.FixSvgHeaderUnchanged`, `Rewrites.FixSvgHeaderLeavesNoBareTag`; `Rewrites.FixSvgHeaderInPlace` is proved against it) |
| Rewrites.Truncated | tasks/engines/fontforge/generate.py:70 | `truncate()` leaves a file exactly as long as the position |
| Rewrites.Overwrite | tasks/engines/fontforge/generate.py:71 | a write puts the data at the position, keeps the bytes before it (NUL-filled past the old end), and keeps whatever lay beyond the written part |
| Rewrites.OverwriteCovers | tasks/engines/fontforge/generate.py:123 | a write at 0 at least as long as the file replaces it |
| Rewrites.OverwriteKeepsTail | tasks/engines/fontforge/generate.py:70-71 | a shorter write at 0 leaves the old tail, which is why the strip truncates |
| Rewrites.TextFile.Open | tasks/engines/fontforge/generate.py:61 | `open(path, 'r+')` starts at position 0 |
| Rewrites.TextFile.Read | tasks/engines/fontforge/generate.py:62 | `read()` returns the rest of the file and moves to its end |
| Rewrites.TextFile.Seek | tasks/engines/fontforge/generate.py:63 | `seek(offset)` moves the position |
| Rewrites.TextFile.Truncate | tasks/engines/fontforge/generate.py:70 | the file ends at the position |
| Rewrites.TextFile.Write | tasks/engines/fontforge/generate.py:71 | the data overwrites from the position, which advances past it |
| Rewrites.StripSwitchTags | tasks/engines/fontforge/generate.py:61-72 | the file holds exactly the text with `<switch>`, then `</switch>`, removed |
| Rewrites.FixSvgHeaderInPlace | tasks/engines/fontforge/generate.py:120-124 | the file holds exactly the fixed text although it is not truncated |
| Rewrites.StripSwitchLength | tasks/engines/fontforge/generate.py:66-67 | the strip removes 8 bytes per `<switch>` and 9 per `</switch>` and never lengthens |
| Rewrites.StripSwitchUnchanged | tasks/engines/fontforge/generate.py:66-67 | text without either tag is written back unchanged |
| Rewrites.StripSwitchChanges | tasks/engines/fontforge/generate.py:66-67 | text with either tag is changed |
| Rewrites.StripSwitchCanLeaveTag | tasks/engines/fontforge/generate.py:66-67 | `<<switch>switch>` is stripped to `<switch>`: one pass can leave a tag |
| Rewrites.FixSvgHeaderGrows | tasks/engines/fontforge/generate.py:123 | the fix adds 35 bytes per `<svg>` and never shortens |
| Rewrites.FixSvgHeaderUnchanged | tasks/engines/fontforge/generate.py:123 | text without a literal `<svg>` is unchanged |
| Rewrites.FixSvgHeaderLeavesNoBareTag | tasks/engines/fontforge/generate.py:123 | the fixed text holds no bare `<svg>` |
| Export.FilePath | tasks/engines/fontforge/generate.py:107-139 | `fontfile + '.ttf'` and its siblings (`Export.PathsDistinct`) |
| Export.HintedPath | tasks/engines/fontforge/generate.py:112 | `fontfile + '-hinted.ttf'`, where the hinter writes (`Export.PathsDistinct`) |
| Export.Generated | tasks/engines/fontforge/generate.py:98-103 | what `generate` writes: FontForge's SVG text for `.svg`, otherwise a binary font of the format, as hinted as the current font, with the opentype flag as passed |
| Export.ApplyStep | tasks/engines/fontforge/generate.py:98-141 | one side effect of the export; `None` where Python raises (a missing file for `fontforge.open`, `open(..., 'r+')`, `os.remove`); the `Export.Session` methods are proved against it |
| Export.Run | tasks/engines/fontforge/generate.py:98-141 | the steps in order, stopping at the first exception (`Export.RunAppend`, `Export.RunSnoc`) |
| Export.GenerateStep | tasks/engines/fontforge/generate.py:99-103 | `generate(fontfile + ext)`, with the opentype flag exactly when ligatures are on (`Export.PlanPaths`) |
| Export.HintSteps | tasks/engines/fontforge/generate.py:109-113 | the hinter, `mv` only after exit 0, and the reopen whenever the tool exists (`Export.PlanHinting`, `Export.RunHintSteps`) |
| Export.SvgSteps | tasks/engines/fontforge/generate.py:116-124 | the SVG and its header fix when requested (`Export.PlanSvg`, `Export.PlanSvgFix`, `Export.RunSvgSteps`) |
| Export.WoffSteps | tasks/engines/fontforge/generate.py:129-130 | the WOFF when requested (`Export.PlanWoff`, `Export.RunWoffSteps`) |
| Export.EotSteps | tasks/engines/fontforge/generate.py:133-135 | the converter on the TTF when the EOT is requested (`Export.PlanEot`, `Export.RunEotSteps`) |
| Export.CleanupSteps | tasks/engines/fontforge/generate.py:138-139 | the removal of the TTF when it was not requested (`Export.PlanBookends`, `Export.RunCleanupSteps`) |
| Export.PublishSteps | tasks/engines/fontforge/generate.py:115-139 | the format steps, then the cleanup (`Export.RunPublishSteps`) |
| Export.ExportPlan | tasks/engines/fontforge/generate.py:106-141 | every side effect of lines 106-141 in order (`Export.PlanMembers`, `Export.PlanBookends`, `Export.PlanPaths`, `Export.ExportRuns`) |
| Export.AfterHint | tasks/engines/fontforge/generate.py:107-113 | the output directory after the TTF and the hinter: the TTF is hinted exactly when the hint succeeded, and then the temporary file is gone (`Export.RunHintSteps`) |
| Export.Published | tasks/engines/fontforge/generate.py:115-139 | the requested formats written next to that TTF, and the TTF gone unless requested (`Export.RunPublishSteps`) |
| Export.Outputs | tasks/engines/fontforge/generate.py:106-141 | the output directory after the export (`Export.ExportRuns`, `Export.OutputTtf`, `Export.OutputSvg`, `Export.OutputWoff`, `Export.OutputEot`, `Export.OutputHintedTemp`, `Export.OutputOthers`) |
| Export.PlanMembers | tasks/engines/fontforge/generate.py:106-141 | a step is in the export exactly when one of its statements issues it under its condition |
| Export.PlanBookends | tasks/engines/fontforge/generate.py:106-141 | the TTF is generated first and the result printed last; the TTF is removed, just before, exactly when `ttf` was not requested |
| Export.PlanHinting | tasks/engines/fontforge/generate.py:109-113 | the hinter and the reopen run exactly when the tool exists; `mv` runs exactly when it also exited 0 |
| Export.PlanPaths | tasks/engines/fontforge/generate.py:98-141 | every step names `fontfile + ext` or the hinter's temporary file; `generate` gets the opentype flag exactly with ligatures; the printed value is `fontfile` |
| Export.PlanSvg | tasks/engines/fontforge/generate.py:116-117 | the SVG is generated exactly when `svg` was requested |
| Export.PlanSvgFix | tasks/engines/fontforge/generate.py:116-124 | the SVG header is fixed exactly when `svg` was requested |
| Export.PlanWoff | tasks/engines/fontforge/generate.py:129-130 | the WOFF is generated exactly when `woff` was requested |
| Export.PlanEot | tasks/engines/fontforge/generate.py:133-135 | the EOT converter runs, on the TTF, exactly when `eot` was requested |
| Export.PathsDistinct | tasks/engines/fontforge/generate.py:107-139 | the four artifact names and the temporary name are pairwise different |
| Export.NamesDistinct | tasks/engines/fontforge/generate.py:107-139 | the five paths of one export are pairwise different |
| Export.FixHeaderWritesFixedText | tasks/engines/fontforge/generate.py:120-124 | writing the fixed text at 0 without truncating leaves exactly the fixed text |
| Export.HintRun | tasks/engines/fontforge/generate.py:107-113 | with the hinter found, the TTF ends up hinted and the temporary file gone exactly when it exited 0; the font is reopened |
| Export.RunHintSteps | tasks/engines/fontforge/generate.py:107-113 | after the TTF and the hinter, the output directory is `AfterHint` and the font is hinted exactly when the hinter ran and succeeded |
| Export.RunSvgSteps | tasks/engines/fontforge/generate.py:116-124 | a requested SVG ends up holding the fixed SVG text and none of the modelled failures occurs |
| Export.RunWoffSteps | tasks/engines/fontforge/generate.py:129-130 | a requested WOFF is generated from the current font |
| Export.RunEotSteps | tasks/engines/fontforge/generate.py:133-135 | a requested EOT is converted from the TTF on disk when the converter succeeds; otherwise nothing changes |
| Export.RunCleanupSteps | tasks/engines/fontforge/generate.py:138-139 | the TTF is removed, without raising, exactly when `ttf` was not requested |
| Export.RunPublishSteps | tasks/engines/fontforge/generate.py:115-139 | after a TTF of the current font, the requested formats leave `Published` and hit none of the modelled failures |
| Export.ExportRuns | tasks/engines/fontforge/generate.py:106-141 | the whole export hits none of the modelled failures, leaves exactly `Outputs` and prints `fontfile` once |
| Export.OutputTtf | tasks/engines/fontforge/generate.py:107-139 | the TTF survives exactly when requested, hinted exactly when the hinter ran and succeeded |
| Export.OutputSvg | tasks/engines/fontforge/generate.py:116-124 | a requested SVG holds FontForge's SVG with the namespace added and no bare `<svg>`; otherwise its path is untouched |
| Export.OutputWoff | tasks/engines/fontforge/generate.py:129-130 | a requested WOFF is as hinted as the TTF; otherwise its path is untouched |
| Export.OutputEot | tasks/engines/fontforge/generate.py:133-135 | the EOT exists when requested and converted successfully, from the final TTF; otherwise its path is untouched |
| Export.OutputHintedTemp | tasks/engines/fontforge/generate.py:112 | after a successful hint the temporary file is gone; otherwise it is untouched |
| Export.OutputOthers | tasks/engines/fontforge/generate.py:106-141 | every other file of the output directory is untouched |
| Export.WoffOnly | tasks/engines/fontforge/generate.py:106-141 | `woff` alone without the hinter adds an unhinted WOFF and removes the TTF, nothing else |
| Export.Session.GenerateFile | tasks/engines/fontforge/generate.py:99-103 | `generate(path)` is the `Generate` step |
| Export.Session.RunHinter | tasks/engines/fontforge/generate.py:112 | the hinter call is the `Hint` step |
| Export.Session.MoveFile | tasks/engines/fontforge/generate.py:112 | `mv` is the `Move` step |
| Export.Session.ReopenFont | tasks/engines/fontforge/generate.py:113 | `fontforge.open` is the `Reopen` step and fails where it raises |
| Export.Session.FixSvgFile | tasks/engines/fontforge/generate.py:120-124 | the in-place fix through a file buffer is the `FixHeader` step |
| Export.Session.ConvertToEot | tasks/engines/fontforge/generate.py:135 | the converter call is the `ConvertEot` step |
| Export.Session.RemoveFile | tasks/engines/fontforge/generate.py:139 | `os.remove` is the `Remove` step and fails where it raises |
| Export.Session.PrintResult | tasks/engines/fontforge/generate.py:141 | the JSON line is the `Emit` step |
| Export.Session.HintTtf | tasks/engines/fontforge/generate.py:109-113 | the hinting statements run the hint steps |
| Export.Session.PublishSvg | tasks/engines/fontforge/generate.py:116-124 | the SVG statements run the SVG steps |
| Export.Session.PublishWoff | tasks/engines/fontforge/generate.py:129-130 | the WOFF statement runs the WOFF steps |
| Export.Session.PublishEot | tasks/engines/fontforge/generate.py:133-135 | the EOT statement runs the EOT steps |
| Export.Session.Cleanup | tasks/engines/fontforge/generate.py:138-139 | the cleanup statement runs the cleanup steps |
| Export.Session.Publish | tasks/engines/fontforge/generate.py:115-139 | the format statements run the publish steps and stop at an exception |
| Export.Session.RunExport | tasks/engines/fontforge/generate.py:106-141 | the statements run the export plan; from a freshly built font they hit none of the modelled failures and leave exactly `Outputs`, with `fontfile` printed |
| Script.StartFont | tasks/engines/fontforge/generate.py:29-50 | the new font is in `UnicodeFull` with the defaulted metrics, has no glyphs and no width passes, and has the `liga` lookup and subtable exactly when ligatures are asked for |
| Script.FillFont | tasks/engines/fontforge/generate.py:52-96 | the glyph loop and then the names: fails exactly when a walked file is missing (the only failure modelled here), leaving the sources stripped up to that file; otherwise the glyphs are `GlyphTable`, one width pass per walked file, and all three names are the font name |
| Script.BuildFont | tasks/engines/fontforge/generate.py:29-96 | the font is in `UnicodeFull` with the defaulted metrics, and has the `liga` lookup and subtable exactly with ligatures; it fails exactly when a walked file is missing (the only failure modelled here), leaving the sources stripped up to that file; otherwise it holds `GlyphTable`, one width pass per walked file and the three names |
| Script.GenerateFont | tasks/engines/fontforge/generate.py:29-141 | a run fails exactly when a walked file is missing (the only build failure modelled here); then no output file is written and the sources are stripped up to that file; otherwise the output directory is `Outputs` for `fontfile = FontFile(..., digest(Feed))` and `fontfile` is printed once |

## Left out
- FontForge itself is opaque:
  - `importOutlines`, `round`, the side-bearing assignment, `autoWidth` and `generate` record the call in the glyph or font record;
  - a generated font is recorded as its format, whether it carries `ttfautohint`'s instructions, and whether the `opentype` flag was passed.
- `fontforge.open` is modelled only as changing whether the font is hinted. Nothing else of the font is read back from the TTF.
- FontForge ties `em` to `ascent + descent`. That coupling is not modelled: the four metrics are independent fields.
- A failing `importOutlines` (malformed vector data) is not modelled. The import always succeeds. A missing source file is modelled and fails the run.
- MD5 and its hex encoding are a function parameter `digest` applied to the fed bytes.
- `os.walk` and `os.path.getsize` are inputs: the walk's order and sizes are given. Nothing ties a size to the file's content, so the model does not prove that a second run sees the shorter size of a stripped source.
- `find_executable`, `ttfautohint` and `eotlitetool.py` are inputs: the hinter's presence and both exit statuses.
  - A process that fails writes nothing.
  - Shell quoting of the command strings is not modelled.
  - The text FontForge writes for the SVG font is an input.
- `argparse` is not modelled beyond the `','` split of `types`. The arguments arrive as a record.
- `json.dumps` is not modelled: the printed value is `fontfile` itself.
- `flags=('opentype')` is a plain string in Python. It is modelled as the `opentype` flag that FontForge reads from it.
- Line 126 (`scriptPath`) and the `KERNING` constant (line 39) have no effect on the files written.
- Real file-system I/O is not modelled beyond the open/read/seek/truncate/write buffer of the two rewrites.
- Exceptions are modelled as `None` or `ok == false`, not as Python's exception classes:
  - a walked file that does not exist stops the build: no output file is written, and the SVG sources walked before it are already stripped;
  - in the export, `fontforge.open`, `open(..., 'r+')` and `os.remove` of a missing file stop it;
  - the steps before the exception keep their effect.
- `Build.VisitEntry`, `Build.BuildGlyphs`, `Script.FillFont`, `Script.BuildFont`, `Script.GenerateFont`: file permissions are not modelled. Opening a walked SVG with `open(filePath, 'r+')` (line 61) is assumed to succeed whenever the file exists, so a read-only source does not fail the run here as it does in the script.
- `Export.ExportRuns`, `Export.RunPublishSteps`, `Export.RunSvgSteps`, `Export.Session.RunExport`, `Script.GenerateFont`: FontForge's `generate` (lines 100, 103, 107, 117, 130) is assumed to succeed. A missing or unwritable output directory does not make it raise here, as it does in the script.
- `Export.Session.RunExport`: it promises that nothing raises only when the session starts from a font that was not reopened from a file. This is how the script calls it. From any other state it still ties the run to the plan.
