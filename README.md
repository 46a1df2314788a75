# Plist sprite atlas to JSON: a Dafny model

Three Node.js scripts turn a TexturePacker / Cocos2d `.plist` sprite atlas
into a JSON atlas:

- `main.js` reads the plist as raw text. It finds every
  `<key>NAME.png</key> <dict>…</dict>` block and every metadata entry with
  regular expressions. Each frame's `textureRect`, `spriteSourceSize` and
  `spriteOffset` strings go through three strict integer patterns. A frame
  whose strings are missing or malformed is skipped with a warning. The
  result is a PixiJS atlas (`frames` plus `meta`). The script fails when the
  text has no frame at all, or when no frame survives.
- `phaser.js` takes the tree decoded by the `plist` library and writes a
  Phaser atlas.
- `pixijs.js` takes the same tree and writes a PixiJS spritesheet.
- Both library-based scripts read geometry leniently:
  `replace(/[{}]/g, '').split(',').map(Number)`.
- All three derive the output file name from the input path by replacing a
  `.plist` suffix.

The model has one module per concern:

- `Text` and `Markup`: characters, trimming, literal search, leftmost and
  global regex search, and `<key>…</key>` entries.
- `FrameScan` and `MetadataScan`: the two text extractors of `main.js`.
- `Decimal`, `PointScan` and `Geometry`: the numeric patterns and the
  printed geometry strings they read.
- `PixiConvert`: `convertPlistToPixi`.
- `JsNumber`: `parseRectangle` and `parsePoint`, including `Number()` and
  `split`.
- `DecodedPlist`, `PhaserAtlas` and `PixiSpritesheet`: the two
  library-based converters.
- `Dialects`: how the converters relate to one another.
- `OutputPath`: the output-name rewrite.

Regular expressions are written as anchored matchers. `Text.Leftmost` is
`String.prototype.match` (the leftmost position where the anchored
matcher succeeds), and `Text.MatchAll` is the `exec` loop of a global
regex. The loops of the source become Dafny loops, each proved against
a specification function: the `while (exec)` loop, the `forEach` over
frame names and the two `for…of` loops.

## Model

| member | source | states |
|---|---|---|
| FrameScan.ExtractFrames | main.js:8-37 | The exec loop's `frames` object is the matches of the frame pattern, in text order, each recorded under its trimmed name, a later match overwriting an earlier one of the same name |
| FrameScan.NameEndSound | main.js:12 | The lazy name group `[^<]+?\.png` captures a name that ends in `.png` and holds no `<` |
| FrameScan.BlockAtSound | main.js:12 | A frame match ends after it starts, captures a `.png` name and stops its dict body before the first `</dict>` |
| FrameScan.FrameMatcherAdvances | main.js:12-15 | Every frame match ends inside the text, after the position it starts at, so the `lastIndex` loop advances |
| FrameScan.FrameBlocksSound | main.js:12-15 | The matches the global loop finds are real matches of the pattern, in increasing, non-overlapping order |
| FrameScan.FrameBlocksComplete | main.js:12-15 | No match of the frame pattern starts before the first, between two consecutive or after the last match found |
| FrameScan.NextBlock | main.js:15 | Searching again from where one match ended finds the next match, or nothing after the last |
| FrameScan.TrimPngName | main.js:17 | Trimming a captured name keeps it a `<`-free `.png` name, now without surrounding whitespace |
| FrameScan.FrameKeysAreNames | main.js:12-17 | Every frame key is a trimmed `.png` name without `<`, so metadata keys never become frames |
| FrameScan.CollectKeys | main.js:15-27 | The frame names recorded are exactly the trimmed names of the matches |
| FrameScan.CollectNext | main.js:27 | Recording one more match updates the frames object under that match's name and nothing else |
| FrameScan.LastWins | main.js:27 | A name's record comes from the last match with that name |
| FrameScan.ScanFrame | main.js:27-33 | The record of one frame: the three `extractValue` strings and the two flags by the intended test (definition; see FrameScan.ScanFrameAsWrittenUnflagged) |
| FrameScan.ScanFrameAsWritten | main.js:27-33 | The record of one frame with the flag test as written (definition) |
| FrameScan.ScanFrameAsWrittenUnflagged | main.js:27-33 | On a body without a backslash, the record as written is the intended record with both flags false |
| FrameScan.CollectThrough | main.js:27 | Recording a function of each body that factors through another recording gives the same names, each record transformed the same way |
| FrameScan.AsWrittenFramesUnflagged | main.js:8-37 | On a plist text without a backslash, the frames `extractFramesFromXmlText` records as written have this model's names and records, with both flags false |
| FrameScan.ExtractValueSound | main.js:21-24 | `extractValue` returns a trimmed string: `''` whenever no `<key>K</key>` string entry matches in the dict body, and otherwise the trimmed body of the leftmost match |
| FrameScan.ExtractValue | main.js:21-24 | `extractValue`: the trimmed capture of the first keyed string entry, or `''` (definition; properties in FrameScan.ExtractValueSound) |
| FrameScan.ExtractValueReadsEntry | main.js:21-24 | A field written as `<key>K</key>`, whitespace, `<string>v</string>` anywhere in the dict body, with no entry for `K` matching before it, is read back as `v` trimmed |
| FrameScan.FlagAsWrittenNeedsBackslash | main.js:31-32 | The `includes` test as written never holds on a dict body without a backslash |
| FrameScan.FlagAsWritten | main.js:31-32 | The `includes` test as written: a literal search for the key tag followed by backslash, `s`, `*` and `<true/>` (definition) |
| FrameScan.FlagSet | main.js:31-32 | The intended test: the key tag, optional whitespace, `<true/>`, somewhere in the body (definition) |
| FrameScan.BackslashAt | main.js:31-32 | Wherever the text searched for by the written test occurs, a backslash follows the key tag |
| FrameScan.FlagFindingWitness | main.js:31-32 | A real `<key>spriteTrimmed</key>` whitespace `<true/>` entry is missed by the test as written and seen by the intended one |
| FrameScan.FlagEntrySeen | main.js:31-32 | The intended flag test (key, optional whitespace, `<true/>`) sees every flag written that way, wherever it stands in the body |
| MetadataScan.ExtractMetadata | main.js:44-67 | The metadata record starts from the defaults and takes each field from its pattern's first match when there is one |
| MetadataScan.SizeCaptureSound | main.js:52 | A size capture is `{`, a non-empty run of digits, commas and whitespace, then `}` |
| MetadataScan.SizeFieldSound | main.js:52-53 | The size stays `{2048, 2048}` when the pattern matches nowhere, and otherwise is the capture of the leftmost match |
| MetadataScan.SizeCaptureReads | main.js:52 | A braced size text followed by `</string>` is captured whole |
| MetadataScan.SizeFieldReads | main.js:52-53 | A size entry written anywhere in the text, with no match of the size pattern before it, is the size the scan settles on |
| MetadataScan.VersionCaptureSound | main.js:56 | A version capture is a non-empty run of digits and dots |
| MetadataScan.VersionFieldSound | main.js:56-57 | The version stays `1.5.5` when the pattern matches nowhere, and otherwise is the capture of the leftmost match |
| MetadataScan.VersionFieldReads | main.js:56-57 | A version entry written anywhere in the text, with no match of the version pattern before it, is the version the scan settles on |
| MetadataScan.VersionCaptureReads | main.js:56 | A run of digits and dots followed by `</string>` is captured whole |
| MetadataScan.SizeFieldAt | main.js:52-53 | A size entry whose contents start after a position with no earlier match is the size the scan settles on |
| MetadataScan.VersionFieldAt | main.js:56-57 | A version entry whose contents start after a position with no earlier match is the version the scan settles on |
| MetadataScan.SizeField | main.js:52-53 | The size the scan settles on: the leftmost capture, or the default (definition; properties in MetadataScan.SizeFieldSound) |
| MetadataScan.VersionField | main.js:56-57 | The version the scan settles on: the leftmost capture, or the default (definition; properties in MetadataScan.VersionFieldSound) |
| MetadataScan.TextureFileNameField | main.js:59-64 | The texture file name the scan settles on (definition; properties in MetadataScan.TextureFileNameFieldSound) |
| MetadataScan.EntryStartReads | main.js:52 | The case-insensitive `<key>K</key>\s*<string>` prefix, written with any whitespace after any text, ends right where the written contents start, and those are followed by `</string>` |
| MetadataScan.TextureFileNameFieldSound | main.js:60-64 | The texture file name stays `atlas` without a target dict; otherwise it is read from the leftmost target dict's body: its trimmed `textureFileName` string, or `atlas` when that body has none |
| MetadataScan.TargetDictReads | main.js:60-64 | With a target dict written anywhere, no target match before it and no `</dict>` inside, the texture file name is read from exactly that dict's body |
| MetadataScan.TextureFileNameReads | main.js:60-63 | A `textureFileName` string entry written inside such a target dict, with no such entry before it, gives the texture file name, trimmed |
| PixiConvert.NormalizeWithoutCr | main.js:79 | Text without carriage returns is left unchanged by the CR LF replacement |
| PixiConvert.NormalizeUndoesCrLf | main.js:79 | Normalising a text saved with CR LF endings gives back its LF form |
| PixiConvert.NormalizeNewlines | main.js:79 | `replace(/\r\n/g, '\n')` (definition; properties in PixiConvert.NormalizeWithoutCr and PixiConvert.NormalizeUndoesCrLf) |
| PixiConvert.AtlasSize | main.js:90-91 | The atlas size from the size string, 2048 by 2048 when the pattern fails (definition; properties in the AtlasSize lemmas below) |
| PixiConvert.AtlasSizeNonNegative | main.js:90-91 | The atlas width and height are never negative |
| PixiConvert.AtlasSizeReads | main.js:90-91 | A printed `{w, h}` size string gives exactly that atlas size |
| PixiConvert.AtlasSizeOfDefault | main.js:46 | The default metadata size string gives the 2048 by 2048 atlas size |
| PixiConvert.PrintedSizeIsSizeText | main.js:52 | A size printed from two naturals is text the metadata size pattern captures |
| PixiConvert.AtlasSizeFromEntry | main.js:90-91 | A size entry written anywhere in the plist, with no size match before it, sets the atlas size to the written width and height |
| PixiConvert.ParseFrameKept | main.js:98-112 | A frame is kept exactly when its three strings are non-empty and each matches its pattern; it is skipped as missing exactly when one string is empty |
| PixiConvert.ParseFrame | main.js:98-121 | One frame: skipped when a string is empty or malformed, otherwise the PixiJS frame (definition; properties in PixiConvert.ParseFrameKept and PixiConvert.ParseFrameShape) |
| PixiConvert.ParseFrameShape | main.js:115-121 | A kept frame has the matched rectangle, non-negative; the source size is the `spriteSourceSize` point; the trim box has that size at the signed offset; the flags are the scanned ones |
| PixiConvert.ParseFrameReads | main.js:104-121 | Geometry printed from integers is read back exactly into the PixiJS frame |
| PixiConvert.FramesPartitioned | main.js:94-124 | Every scanned frame is either kept or skipped, never both |
| PixiConvert.BuildPixiFrames | main.js:94-124 | The `forEach` builds exactly the valid frames, and skips exactly the others with their reasons |
| PixiConvert.PixiMetaOfDefaults | main.js:129-137 | With the default metadata, `meta` is `atlas.png`, `RGBA8888`, 2048 by 2048, scale `1`, version `1.5.5` |
| PixiConvert.PixiMetaOf | main.js:129-137 | The `meta` object: image `textureFileName.png`, `RGBA8888`, the atlas size, scale `"1"`, the metadata version (definition; properties in PixiConvert.PixiMetaOfDefaults and PixiConvert.ConvertPlistToPixi) |
| PixiConvert.NoFramesIff | main.js:86 | No frame is recorded exactly when the frame pattern matches nowhere in the text |
| PixiConvert.ConvertPlistToPixi | main.js:74-138 | `NoFrames` exactly when the scan finds no frame; `NoValidFrames` exactly when none survives; otherwise the valid frames and the `meta` built from the metadata |
| PointScan.PointPrefixUnsigned | main.js:105 | The unsigned point pattern never captures a negative number |
| PointScan.FindPointUnsigned | main.js:90 | The unsigned point pattern finds only non-negative points |
| PointScan.FindRectUnsigned | main.js:104 | The rectangle pattern finds only non-negative integers |
| PointScan.NumberReads | main.js:104-106 | The `\d+` / `-?\d+` group reads a printed integer back and stops where it ends |
| PointScan.PointPrefixReads | main.js:105-106 | A printed `{a, b}` followed by any text is read back as the point |
| PointScan.RectPrefixReads | main.js:104 | A printed `{{x, y}, {w, h}}` followed by any text is read back as the rectangle |
| PointScan.FindPointAtStart | main.js:105-106 | A point match at the very start is the one `match` reports |
| PointScan.FindRectAtStart | main.js:104 | A rectangle match at the very start is the one `match` reports |
| PointScan.FindPointReads | main.js:105-106 | `match` on a printed point gives that point |
| PointScan.FindRectReads | main.js:104 | `match` on a printed rectangle gives that rectangle |
| PointScan.FindPoint | main.js:105-106 | `match` of the point pattern: the integers of the leftmost match (definition) |
| PointScan.FindRect | main.js:104 | `match` of the rectangle pattern: the integers of the leftmost match (definition) |
| Decimal.NatStrRoundTrip | main.js:116-118 | `parseInt` of a printed natural gives the natural back |
| Decimal.UIntReadsNatStr | main.js:116-118 | `\d+` reads a printed natural back exactly and stops where the numeral ends |
| Decimal.SIntReadsIntStr | main.js:118 | `-?\d+` reads a printed integer back exactly, sign included |
| OutputPath.RewriteExtension | main.js:162-163 | The intended rewrite turns `stem.plist` into the stem plus the suffix |
| OutputPath.RewriteOnlyExtension | main.js:162-163 | The intended rewrite changes a path only when the path ends in `.plist` |
| OutputPath.AsWrittenOnExtension | main.js:162-163 | On a path that ends in `.plist`, the pattern as written matches only at the extension |
| OutputPath.RewritesAgreeOnExtension | main.js:162-163 | The written and the intended rewrites agree on every path that ends in `.plist` |
| OutputPath.AsWrittenRewritesBarePlist | main.js:162-163 | The pattern as written also changes a path that merely ends in `plist` after any character |
| OutputPath.AsWrittenHeroPlist | main.js:162-163 | The pattern as written turns `heroplist` into `her-pixi.json` |
| OutputPath.RewriteHeroPlist | main.js:162-163 | The intended rewrite leaves `heroplist` alone |
| OutputPath.RewriteAsWritten | main.js:162-163 | `replace` with the pattern as written: the leftmost match rewritten (definition); the same rewrite is at phaser.js:112-113 with `-phaser.json` and pixijs.js:100-101 with `-pixijs.json`, through the `suffix` parameter |
| OutputPath.Rewrite | main.js:162-163 | The intended rewrite of a final `.plist` extension (definition); the same rewrite is at phaser.js:112-113 with `-phaser.json` and pixijs.js:100-101 with `-pixijs.json`, through the `suffix` parameter |
| JsNumber.RemoveBracesSound | phaser.js:14 | After `replace(/[{}]/g, '')` no brace is left, and brace-free text is unchanged |
| JsNumber.RemoveBracesJoin | phaser.js:14 | Removing braces works piece by piece over a concatenation |
| JsNumber.JoinSplit | phaser.js:14 | Joining the pieces of `split(',')` with commas gives the text back |
| JsNumber.SplitJoin | phaser.js:14 | Splitting comma-free pieces joined by commas gives the pieces back |
| JsNumber.ToNumberInt | phaser.js:14 | `Number` gives an integer exactly for blank text and for an optionally signed digit string |
| JsNumber.ToNumberReads | phaser.js:14 | `Number` reads a printed integer after whitespace back |
| JsNumber.ToNumber | phaser.js:14 | `Number` of one piece: never `undefined`; an integer for blank text and signed digit strings |
| JsNumber.ParsePoint | phaser.js:23-26 | `parsePoint`: the first two numbers of the brace-free comma pieces (definition; properties in JsNumber.ParsePointReads) |
| JsNumber.ParseRectangle | phaser.js:13-21 | `parseRectangle`: the first four numbers (definition; properties in JsNumber.ParseRectangleReads) |
| JsNumber.ParsePointReads | phaser.js:23-26 | `parsePoint` reads a printed `{a, b}` back as the two integers |
| JsNumber.ParseRectangleReads | phaser.js:13-21 | `parseRectangle` reads a printed `{{x, y}, {w, h}}` back as the four integers |
| JsNumber.ParsePointEmptyBraces | pixijs.js:13-16 | `parsePoint` accepts `{}`: the empty piece is 0 and the missing second piece is `undefined` |
| PhaserAtlas.ConvertPlistToPhaserAtlas | phaser.js:29-83 | Fails exactly when the target, the size or a parsed frame string is missing; otherwise one frame per decoded frame under the same name, and the meta of the metadata |
| PhaserAtlas.ConvertFrames | phaser.js:47-83 | The `for…of` loop fails exactly when some frame lacks a parsed string, and otherwise converts every frame under its own name |
| PhaserAtlas.FrameShape | phaser.js:48-81 | A frame is the parsed rectangle, the source size twice with the trim box at the origin, the offset with its sign, and the copied flags |
| PhaserAtlas.FrameReads | phaser.js:47-81 | Geometry printed from integers is read back exactly, whatever `spriteSize` holds |
| PhaserAtlas.MetaReads | phaser.js:29-43 | A printed atlas size is read back into `meta.size`, next to the image name, the format and scale 1 |
| PhaserAtlas.FrameOf | phaser.js:47-82 | One Phaser frame from the parsed strings (definition; properties in PhaserAtlas.FrameShape) |
| PhaserAtlas.MetaOf | phaser.js:29-43 | The Phaser `meta` (definition; properties in PhaserAtlas.MetaReads) |
| DecodedPlist.TextureName | phaser.js:29-30 | `textureFileName + textureFileExtension`, also at pixijs.js:29-30 (definition; properties in PhaserAtlas.MetaReads and PixiSpritesheet.MetaReads) |
| PixiSpritesheet.ConvertPlistToPixiSpritesheet | pixijs.js:29-71 | Fails exactly when the target, the size or a parsed frame string is missing; otherwise one frame per decoded frame under the same name, and the meta of the metadata |
| PixiSpritesheet.ConvertFrames | pixijs.js:46-71 | The `for…of` loop fails exactly when some frame lacks a parsed string, and otherwise converts every frame under its own name |
| PixiSpritesheet.FrameShape | pixijs.js:47-69 | A frame is the parsed rectangle, the sprite size as source size, a trim box of that size at the offset, and the copied flags |
| PixiSpritesheet.FrameReads | pixijs.js:46-69 | Geometry printed from integers is read back exactly; `spriteSourceSize` plays no part |
| PixiSpritesheet.MetaReads | pixijs.js:33-43 | A printed atlas size is read back into `meta.size` under the keys `x` and `y`, next to the fixed app, version, format and scale |
| PixiSpritesheet.FrameOf | pixijs.js:46-70 | One spritesheet frame from the parsed strings (definition; properties in PixiSpritesheet.FrameShape) |
| PixiSpritesheet.MetaOf | pixijs.js:28-43 | The spritesheet `meta` (definition; properties in PixiSpritesheet.MetaReads) |
| Dialects.PhaserReadyIsSheetReady | phaser.js:47-51 | Whenever the Phaser conversion has every string it reads, so does the PixiJS spritesheet one |
| Dialects.FramesAgree | phaser.js:56-77 | The Phaser and spritesheet frames share the rectangle; the Phaser offset is the spritesheet trim-box origin; the source sizes agree when `spriteSize` and `spriteSourceSize` hold the same text |
| Dialects.Lift | pixijs.js:68-69 | A text-scanned frame carries its two flags as present booleans |
| Dialects.TextScanAgreesWithSpritesheet | pixijs.js:46-69 | On geometry printed from integers, the strict patterns of `main.js` and the lenient parse of `pixijs.js` give the same frame |

## Left out

- File reading, the existence check, writing the JSON file, console output, `process.argv`, `process.exit` and the `try`/`catch` blocks are not modelled. `ConvertPlistToPixi` takes the file's text and returns the atlas or the error; the library-based converters take the decoded tree.
- `plist.parse` is not part of this model. `phaser.js` and `pixijs.js` start from a `DecodedPlist.Plist` whose frame and metadata strings are given.
- Missing `frames` or `metadata` dictionaries and non-string geometry values in the decoded tree are not modelled. The tree always has both dictionaries, and its geometry entries are strings or absent.
- DecodedPlist.TextureName: a `target` without `textureFileName` or `textureFileExtension` (concatenating `undefined`) is not modelled. Both fields are strings.
- JsNumber.ToNumber: fractions, exponents, hexadecimal and other non-integer numerals, `Infinity` and `NaN` are one abstract `Unmodelled` value. No arithmetic is done on numbers here. Integers are exact and unbounded, while `Number` gives a double, so a numeral above 2^53 is rounded in the source and not here.
- Decimal.DigitsValue: `parseInt` gives a double, exact only up to 2^53; here a digit string has its exact value, so the `parseInt` reads of main.js:91 and main.js:116-118 agree with the source only for numerals up to 2^53.
- FrameScan.ExtractFrames: records `spriteTrimmed` and `textureRotated` with the intended test (`FrameScan.FlagSet`), not with the literal `includes` of main.js:31-32, which never holds on a plist without a backslash. `FrameScan.AsWrittenFramesUnflagged` states what the source records instead: the same frames with both flags false.
- PixiConvert.ConvertPlistToPixi: its `rotated` and `trimmed` flags therefore come from the intended test; the source as written emits `false` for both on every plist without a backslash (`FrameScan.AsWrittenFramesUnflagged`).
- JSON serialisation is not modelled: key order, pretty printing and the omission of `undefined` flags. Objects are maps.
- Strings are sequences of characters. UTF-16 surrogate pairs are not distinguished, and there is no Unicode case folding beyond the ASCII letters the patterns contain.
- The wording of error and warning messages is not modelled. For the library-based converters, neither is which missing entry throws first; they return `MissingEntry`.
- The output-path rewrite is not composed with the converters. It is a separate function of the input path.

## Findings

| source | as written | input that shows it | evidently intended | confidence | as-written member | corrected member |
|---|---|---|---|---|---|---|
| main.js:31-32 | `includes('<key>spriteTrimmed</key>\\s*<true/>')` searches for a literal backslash, `s` and `*`, not for whitespace | a dict body holding `<key>spriteTrimmed</key>` and `<true/>` on the next line gives `trimmed: false` | the key, optional whitespace, then `<true/>` sets the flag | high, not executed | FrameScan.FlagFindingWitness | FrameScan.FlagEntrySeen |
| main.js:162-163 | `new RegExp('\.plist(?=[^\.plist]*$)')` loses the backslash in the string literal, so the first `.` matches any character; the same line is at phaser.js:112-113 and pixijs.js:100-101 | the path `heroplist` becomes `her-pixi.json` | replace a final `.plist` extension only | medium, not executed | OutputPath.AsWrittenHeroPlist | OutputPath.RewriteHeroPlist |
