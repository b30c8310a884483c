# Theme recolouring in obsidian-universal-renderer, in Dafny

The plugin renders diagram sources (Graphviz, LaTeX, ditaa, blockdiag,
PlantUML, AsciiDoc) to SVG with external programs. It then rewrites the SVG
so that its paints follow the note's theme. This project models the
recolouring engine and the parameter handling around it, in two snapshots
of the repository. Each snapshot is modelled as written, and they are not
reconciled.

- **src** (`src/utils.ts`, `src/processors.ts`) covers:
  - the colour arithmetic;
  - the alias tables `svgColors` and `svgShades`, which
    `transformColorMap` turns into lookup maps;
  - `mapColor`, which resolves a paint to a theme variable exactly or by
    the nearest colour;
  - `makeDynamicSvg`, which scans the SVG for the eight element kinds and
    inserts a `style` attribute into each;
  - `parseFrontMatter`, which reads `key: value` parameters from the block.
- **main.js** (the bundled build) differs in several places:
  - `getColorDelta` has the opposite sign;
  - `invertColorName` accepts `undefined`;
  - `mapColor` also returns `delta`, `deltaColor` and `sourceColor`;
  - a `mix-multiplier` blend is added;
  - `presets` gains `default-{type}` entries, with `loadPreset` and
    `preprocessSource`, which never throw;
  - `getRendererParameters` is present.

The modules follow the program:

- `Utils`: colours, `hexToRgb`, `rgb100ToHex`, the distances, the
  nearest-colour search and `invertColorName`.
- `Palette`: the tables and `transformColorMap`.
- `Resolver`: src `mapColor`.
- `BundleColors`: the bundle's colour functions.
- `Attributes`: the regular expressions, as explicit scanners.
- `Scanner`: the `while (true)` loop of `makeDynamicSvg`, both as written
  and corrected.
- `Rewriter`: the per-element rewrite and the whole of `makeDynamicSvg`.
- `Runaway`: documents on which the loop as written never ends.
- `FrontMatter`: src `parseFrontMatter`.
- `Presets`: the preset tables and `loadPreset`.
- `Preprocess`: `preprocessSource`.
- `Renderers`: `getRendererParameters`.

Supporting modules model the JavaScript primitives the engine relies on:
- `JsString` models `indexOf`, `replace`, `split`, `trim`, `toLowerCase`
  and `insertStr`.
- `JsNumber` models `parseInt`, `parseFloat` and `toString(16)`.
- `OrderedMap` models a `Map<string, string>` in insertion order.
- `Optional` provides `Option` and `Result`.

Both snapshots carry the same colour tables, up to a comment.

`Rewriter.Flavor` selects the snapshot. `Source` is src/processors.ts.
`Bundled(show, semicolon)` is main.js. Its flag `semicolon` is false for
main.js as written, whose blend declaration has no closing `;`. It is true
for the corrected bundle, which closes it.

Four behaviours of the source are easy to miss:
- **The final paint stripping is one left-to-right pass.** It does not
  guarantee that no quoted `fill=`/`stroke=` attribute is left (see
  `Attributes.StripNotIdempotent`).
- **src `parseFrontMatter` throws on a line without a colon.** This
  includes the empty front matter and an unclosed one, and is modelled as
  a `Failure`.
- **The exact lookups in `mapColor` do not lower-case the paint.**
  Upper-case hex therefore never hits exactly.
- **The two snapshots' `getColorDelta` have opposite signs.** The bundle's
  `deltaColor` is the step from the paint to the matched entry.

## Model

| member | source | states |
|---|---|---|
| Utils.HexToRgb | src/utils.ts:24-33 | a colour exactly when the input is six hex digits, optionally after one `#`, in either case; every channel is a byte, and printing it back gives `#` and the same digits lower-cased |
| Utils.HexRoundTrip | src/utils.ts:24-33 | parsing the lower-case `#rrggbb` form of any byte colour gives that colour back |
| Utils.Rgb100RoundTrip | src/utils.ts:9-16 | for whole percentages 0..100 written in decimal, `rgb100ToHex` is `#` and two lower-case hex digits of `floor(p*255/100)` per channel, and `hexToRgb` reads exactly those bytes back |
| Utils.ComponentOfPercent | src/utils.ts:12-13 | one percentage becomes the two-digit padded hex of `floor(p*255/100)` |
| Utils.ByteComponent | src/utils.ts:12-13 | `toString(16)` of a byte, padded to two digits, is its two lower-case hex digits |
| Utils.Rgb100ToHex | src/utils.ts:9-16 | the result starts with `#` |
| Utils.GetMagnitudeColorDelta | src/utils.ts:35-44 | the Manhattan distance is zero exactly when the colours are equal |
| Utils.MagnitudeSymmetric | src/utils.ts:35-44 | the distance does not depend on argument order |
| Utils.MagnitudeTriangle | src/utils.ts:35-44 | the distance obeys the triangle inequality |
| Utils.GetColorDelta | src/utils.ts:46-52 | adding the delta to `color2` gives `color1` |
| Utils.ColorDeltaProperties | src/utils.ts:46-52 | swapping the arguments negates the delta; its absolute channels sum to the Manhattan distance |
| Utils.SearchStep | src/utils.ts:61-68 | one loop iteration keeps "best is the earliest nearest entry so far": a strictly nearer entry replaces it, a tie does not |
| Utils.FindClosestColorVar | src/utils.ts:54-74 | on an empty map: variable `''`, the target itself, distance +Infinity; otherwise the earliest entry at the least distance, with that distance |
| Utils.InvertColorName | src/utils.ts:80-86 | the first `light` becomes `dark` when there is one; else the first `dark` becomes `light`; a name with neither is unchanged |
| Utils.InvertInvolution | src/utils.ts:80-86 | on a name with exactly one marker, inverting gives a one-marker name and inverting twice gives the name back |
| Utils.InvertLight | src/utils.ts:81-82 | a name whose only marker is one `light` at `p` gets `dark` at `p` |
| Utils.InvertDark | src/utils.ts:85 | a name whose only marker is one `dark` at `p` gets `light` at `p` |
| Utils.SwapMarker | src/utils.ts:80-86 | replacing the only occurrence of one marker by the other leaves the other as the only marker |
| JsNumber.ParseIntDecimal | src/utils.ts:12 | `parseInt` of the decimal rendering of a natural number gives the number |
| JsNumber.HexDigits | src/utils.ts:12 | the base-16 digits of `n` are lower case, one digit exactly when `n < 16`, and read back as `n` |
| JsNumber.NumberToHex | src/utils.ts:12 | `toString(16)`: the digits of a non-negative number, a `-` before the digits of a negative one |
| JsNumber.ParseFloat | main.js:620 | `parseFloat` gives a number exactly when the leading literal has a digit, and zero exactly when all its digits are `0` |
| JsNumber.ExponentRead | main.js:620 | digits, `e`, a sign and digits read as the first digits' value times ten to the signed power |
| JsNumber.ZerosRead | main.js:620 | a run of zeros, the default `'0'` among them, reads as zero |
| JsString.IndexOf | src/processors.ts:331 | the first occurrence at or after `from`, or none when there is none |
| JsString.Replace | src/processors.ts:323 | only the first occurrence is replaced; the text before it and after it are kept; without `$` in the replacement the result is exactly before + replacement + after |
| JsString.Expand | src/processors.ts:323 | a replacement without `$` stands for itself |
| JsString.InsertAt | main.js:88-90 | `insertStr`: the piece sits at the clamped index, and removing it gives the original text |
| JsString.Split | src/processors.ts:428 | at least one piece, none holds the separator, and joining them gives the text back |
| JsString.SplitJoin | src/processors.ts:428 | splitting a join of separator-free pieces gives the pieces back |
| JsString.Trim | src/processors.ts:428 | a slice of the text with only white space cut at either end, neither starting nor ending with white space |
| JsString.Lower | src/processors.ts:179 | same length, no upper-case letter, every upper-case ASCII letter 32 code points on and every other character kept |
| JsString.Contains | src/utils.ts:81 | true exactly when the text occurs somewhere |
| OrderedMap.Set | src/processors.ts:179 | `Map.set`: the key gets the value, other keys keep theirs, an existing key keeps its place and a new key goes last |
| OrderedMap.Get | src/processors.ts:203 | `Map.get`: present exactly when the key is, with the value stored under it |
| OrderedMap.SetAllLastWrite | src/processors.ts:446-448 | after a run of `set`s every key holds its last written value, and an unwritten key keeps its old one |
| Palette.TransformColorMap | src/processors.ts:169-187 | the three nested loops build the name map of every lower-cased alias and the RGB list of every `#` alias, both in table order |
| Palette.AddEntry | src/processors.ts:172-182 | one row appends its groups' writes to both results |
| Palette.AddGroup | src/processors.ts:174-181 | one group appends its aliases' writes to both results |
| Palette.TransformLastWins | src/processors.ts:169-187 | a name maps to the variable of the last alias written under it, and is absent when no alias lower-cases to it |
| Palette.NameMapKeys | src/processors.ts:179 | the keys are exactly the lower-cased aliases, so no key has an upper-case letter |
| Palette.MagentaIsLightPurple | src/processors.ts:75-99 | `magenta`, listed under purple and later under light purple, maps to light purple |
| Palette.LaterRowsAvoid | src/processors.ts:169-187 | when a row writes a name and no later row has an alias starting with its letter, the name keeps that row's variable |
| Resolver.MapColor | src/processors.ts:189-235 | a colour-table hit wins over a shade hit; the unknown kind goes with no variable; no exact hit and no fallback gives unknown; a fallback always resolves |
| Resolver.FallbackNearest | src/processors.ts:206-216 | in the fallback the chosen entry is the earliest nearest of its table; a colour wins only when strictly nearer than every shade, so ties go to the shade |
| Resolver.UppercaseMisses | src/processors.ts:203-204 | a paint with an upper-case letter never hits exactly, and without the fallback it stays unknown |
| Resolver.MagentaResolves | src/processors.ts:189-229 | `magenta` resolves to the light-purple colour variable |
| BundleColors.GetColorDelta | main.js:110-116 | adding the delta to `color1` gives `color2`; it is the negation of src's delta |
| BundleColors.InvertColorName | main.js:138-147 | `undefined` stays `undefined`; a string is inverted as src does it |
| BundleColors.MapColor | main.js:381-434 | the variable and kind are src's; `sourceColor` is the parsed paint; no fallback means delta 0 and no `deltaColor`; a non-zero delta only comes from the fallback |
| BundleColors.FallbackDelta | main.js:397-409 | a fallback hit's delta is the Manhattan distance to the chosen entry; the paint plus `deltaColor` is that entry's colour, and the step's size is the delta |
| BundleColors.ClosestStep | main.js:117-134 | the chosen entry is an entry of the table, its distance is the delta, and the step from the paint reaches it |
| Attributes.CloseQuote | src/processors.ts:22 | the lazy `.*?` stops at the first quote with no line terminator before it, and there is none when every quote is preceded by one |
| Attributes.AttrLen | src/processors.ts:22 | a match is the name, `=`, a quote, a quote- and line-terminator-free run and a quote |
| Attributes.AttrLenExists | src/processors.ts:22 | a match exists exactly when `name=` and a quote start the text and a closing quote follows a plain run |
| Attributes.FirstAttr | src/processors.ts:345 | `match` finds the leftmost match, and nothing matches before it |
| Attributes.MatchedAttr | src/processors.ts:345 | the matched text is a match at some position, and no position matches when there is none |
| Attributes.MatchValue | src/processors.ts:351 | `replaceAll(/.*=\|"\|'/g, '')` of a match is the text after the last `=` between its quotes |
| Attributes.StripWithoutEq | src/processors.ts:25 | without `=`, only the quotes are deleted |
| Attributes.ValueWithoutEq | src/processors.ts:351 | a quoted value without `=` comes out as the value itself |
| Attributes.RemoveQuotes | src/processors.ts:25 | no quote is left, and quote-free text is unchanged |
| Attributes.RgbStrip | src/processors.ts:354 | no `)`, space or `%` is left, and the text does not grow |
| Attributes.RgbStripDigits | src/processors.ts:354 | digits pass through the `rgb` stripping untouched |
| Attributes.RgbStripPercent | src/processors.ts:353-355 | `rgb(a%, b%, c%)` with decimal channels strips to `a,b,c`: `rgb(`, the `%`s, the spaces and the `)` go, the channels stay in order between commas |
| Attributes.StyleAttrLen | src/processors.ts:23 | a `fill` or `stroke` match at the start exactly when either matcher matches there |
| Attributes.StripIdentity | src/processors.ts:409 | the final stripping changes the text exactly when it holds a quoted `fill`/`stroke` attribute |
| Attributes.StripNotIdempotent | src/processors.ts:409 | one pass can leave an attribute behind: `fifill="a"ll="b"` strips to `fill="b"` |
| Scanner.FindIsIndexOf | src/processors.ts:331 | the loop's search is `indexOf` |
| Scanner.Scan | src/processors.ts:330-406 | the corrected loop for one tag inserts something exactly when the tag occurs from the start on, and with no insertion the text is unchanged |
| Scanner.ScanAsWritten | src/processors.ts:330-406 | the loop as written: a finished run never shrinks the text, and with no occurrence it finishes at once with the text unchanged |
| Scanner.StepInserts | src/processors.ts:405 | one turn's new text is `insertStr` of the piece at `currentIndex` |
| Scanner.StepFacts | src/processors.ts:337-405 | the piece is made from the attribute text at `currentIndex`, lands there, and deleting it gives the old text |
| Scanner.ScanUnfold | src/processors.ts:330-406 | a hit records its insertion, and the corrected loop goes on after the piece |
| Scanner.ScanKeeps | src/processors.ts:330-406 | the loop only inserts: the text grows and everything before the start is kept |
| Scanner.ScanOrdered | src/processors.ts:330-406 | each insertion goes after the previous piece, so the corrected loop never looks inside its own pieces |
| Scanner.ScanUndo | src/processors.ts:330-406 | deleting the recorded pieces, the latest first, gives back the scanned text |
| Scanner.UndoAppend | src/processors.ts:328-407 | undoing two runs of insertions undoes the later run first |
| Scanner.ScanSame | src/processors.ts:340-405 | piece makers that agree everywhere give the same scan |
| Scanner.AsWrittenUnfold | src/processors.ts:331-405 | one turn of the loop as written resumes at `currentIndex`, the start of its own piece |
| Scanner.EndlessRunsOut | src/processors.ts:330-406 | on a chain of texts each of which one turn leads to the next, the loop as written never finishes |
| Scanner.AgreeFrom | src/processors.ts:330-406 | when no piece holds the first character of `<tag`, the loop as written gives the corrected loop's result |
| Rewriter.FromRgb | src/processors.ts:353-355 | an `rgb…` paint becomes `#` hex through `rgb100ToHex`; any other paint is unchanged |
| Rewriter.Paint | src/processors.ts:345-355 | no paint exactly for a missing stroke without `{tag}-implicit-stroke`; a missing fill is `black`; a matched attribute gives its stripped value, through `rgb100ToHex` when it starts with `rgb` |
| Rewriter.Tokens | src/processors.ts:357 | the tokens join back to the `{tag}-{axis}` parameter, empty when unset |
| Rewriter.ApplyTokens | src/processors.ts:373-398 | the variable is inverted once per inverting token of its kind |
| Rewriter.LastKeep | src/processors.ts:373-383 | the class is the one the last `keep-*` token names, or the old one when there is none |
| Rewriter.InvertParity | src/processors.ts:384-396 | a one-marker variable inverted by an even number of tokens is unchanged, by an odd number inverted once |
| Rewriter.SourceResolves | src/processors.ts:359-400 | an unresolved paint is declared literally with the class unchanged; a resolved one as `var(V)`, V inverted per token, so by parity for one-marker names |
| Rewriter.SourceDecl | src/processors.ts:365-400 | the declaration is `axis:…;` and the class comes from the old one or a `keep-*` token |
| Rewriter.BundleDecl | main.js:575-642 | the declaration starts `axis:`; it ends in `;` except for the blend as written, which ends in `)`; the class comes from the old one or a `keep-*` token |
| Rewriter.BundleBlend | main.js:620-642 | the bundle keeps src's class; it declares src's declaration unless the multiplier and the delta are both truthy, so an exact hit never blends; a blend uses src's themed variable, in main.js's unterminated template as written or closed by `;` when corrected |
| Rewriter.MixMultiplier | main.js:620-621 | unset means absent; when set, present exactly when `parseFloat` gives a non-zero number, and then that number |
| Rewriter.AxisDecl | src/processors.ts:343-401 | nothing exactly for a skipped stroke; under `skip` the literal paint with the class unchanged; otherwise a declaration starting `axis:` |
| Rewriter.DeclEnd | main.js:575-642 | a declaration ends in `;` exactly when it is not main.js's blend as written, which ends in `)` |
| Rewriter.GluedStroke | main.js:620-642 | in main.js as written a blended fill runs into the stroke: the piece holds `)stroke:` |
| Rewriter.SeparatedStroke | src/processors.ts:340-403 | in src, and in the corrected bundle, the fill is closed before the stroke: the piece holds `;stroke:` |
| Rewriter.DeclAgree | main.js:575-643 | without a truthy `mix-multiplier` the bundle's declaration is src's |
| Rewriter.BundleAsSource | main.js:620-642 | without a truthy `mix-multiplier` the extra `mapColor` fields go unused |
| Rewriter.ElementStyle | src/processors.ts:340-403 | the inserted piece starts with `style="` and ends with a space |
| Rewriter.ElementAgree | main.js:573-644 | without a truthy `mix-multiplier` both snapshots make the same piece |
| Rewriter.ScanTagsAgree | main.js:564-647 | without a truthy `mix-multiplier` both snapshots make the same scans for every tag |
| Rewriter.ScanTagsUndo | src/processors.ts:328-407 | deleting every piece, the latest first, gives back the text the tag loop started on |
| Rewriter.ScanTagsKeeps | src/processors.ts:328-407 | the tag loop only inserts: the text grows and keeps everything before `svgStart` |
| Rewriter.LinePrefix | src/processors.ts:331 | a `<linearGradient` element is styled by the `line` scan too |
| Rewriter.Widened | src/processors.ts:321-324 | without a truthy `width` or a `<svg` nothing changes; otherwise, for a width without `$`, the first `<svg` becomes `<svg style="width: W" ` |
| Rewriter.SvgStart | src/processors.ts:325 | just past the first `<svg`, or 3 when there is none |
| Rewriter.MakeDynamicSvg | src/processors.ts:316-414 | with the corrected loop, which resumes after its piece: the output is the widened input with pieces inserted and then the quoted paints stripped; deleting the pieces gives the widened input back; nothing before `svgStart` changes before the stripping |
| Rewriter.MakeDynamicSvgAgree | main.js:557-653 | without a truthy `mix-multiplier` the bundle's `makeDynamicSvg` gives src's output |
| Rewriter.NoElements | src/processors.ts:328-409 | a document without any of the eight elements after `<svg` only gains the width and loses its quoted paints |
| Rewriter.MakeDynamicSvgAsWritten | src/processors.ts:316-414 | with the loop as written: when no inserted piece holds a `<` and the fuel covers the output, it gives what the corrected loop gives |
| Rewriter.BlendAsWritten | main.js:627-638 | the blend declaration as written starts with the axis and ends in `)` |
| Rewriter.Blend | main.js:627-638 | the corrected blend declaration `axis:rgb(…);` starts with the axis and ends with `;` |
| Rewriter.BlendUnterminated | main.js:627-638 | the blend as written ends in `)`, without `;`; the corrected one is it plus `;` |
| Runaway.AsWrittenRunsAway | src/processors.ts:330-406 | on every document that begins `<svg><text fill="<text">`, with `text-fill: skip`, `makeDynamicSvg` as written never finishes, whatever the fuel, tables or snapshot |
| Runaway.PieceLoops | src/processors.ts:337-405 | on those documents every turn re-finds the `<text` of the piece it just inserted and inserts the same piece 18 characters on |
| Runaway.CorrectedFinishes | src/processors.ts:330-406 | on the same documents the corrected loop finishes, keeps `<svg`, gives the document back when its pieces are deleted, and inserts its first piece before the fill attribute |
| FrontMatter.SplitBlock | src/processors.ts:424-455 | a block exactly when the source starts with `---`; a closed block is `---` body `---` rest, with no `---` in the body; an unclosed one has body `---` and rest from index 2 |
| FrontMatter.SrcLine | src/processors.ts:431-433 | a line throws exactly when it has no colon; otherwise the trimmed fields before the first colon and between it and the next one |
| FrontMatter.SrcLinesFail | src/processors.ts:430-453 | the loop throws exactly when some line has no colon |
| FrontMatter.SrcLinesWrites | src/processors.ts:430-453 | the loop sets exactly the flattened writes in line order, and keeps the last naming line's value |
| FrontMatter.StripOuterNewlines | src/processors.ts:466 | the result is the text less at most one character at each end; at each end a `\n` is removed if there is one, and nothing else |
| FrontMatter.StripOuterInverse | src/processors.ts:466 | stripping undoes wrapping in newlines and keeps text that has none at its ends |
| FrontMatter.ParseFrontMatter | src/processors.ts:416-469 | the parse throws exactly when there is front matter and one of its lines has no colon; without a leading `---` nothing is set and only the outer newlines go; otherwise the cleaned source is the text after the front matter, outer newlines trimmed |
| FrontMatter.NoColonThrows | src/processors.ts:428-433 | a front matter without any colon, the empty one included, throws |
| FrontMatter.UnclosedThrows | src/processors.ts:426-433 | an unclosed front matter throws |
| FrontMatter.ParsedParams | src/processors.ts:430-453 | every parameter holds its last write in line order, a preset's entries counting where its line is |
| FrontMatter.ParsedReference | src/processors.ts:436-462 | the graph is registered under the last naming value, when there is one and it is not empty |
| Presets.FindPreset | main.js:338-361 | `presets.get`: absent exactly when no preset has the name, otherwise the first one so named |
| Presets.LoadPreset | main.js:654-661 | an unknown name changes nothing; a known preset's entries overwrite in order and every other key keeps its value |
| Presets.MathGraphKeepsShade | src/processors.ts:162-167 | `math-graph` sets `ellipse-fill` and `text-fill` to `keep-shade` in both snapshots and leaves everything else alone |
| Presets.UnknownPreset | main.js:654-661 | an unknown preset name is a no-op in both snapshots |
| Presets.DefaultPresets | main.js:343-360 | `default-latex`, `-tikz` and `-plantuml` turn inversion on, set width `100%`, and set a document start and end |
| Preprocess.BundleLine | main.js:670-675 | a line without a colon is the trimmed line with value `1`; otherwise src's fields |
| Preprocess.BundleLinesWrites | main.js:669-681 | the line loop makes exactly the flattened writes |
| Preprocess.PreprocessParams | main.js:662-683 | each parameter holds its last write: `default-{type}` first, then the front-matter lines in order |
| Preprocess.DefaultsLastWrite | main.js:664 | the starting parameters are the default preset's last writes |
| Preprocess.WrapSource | main.js:684-700 | the walk puts `doc-start` and a newline before the source and a newline and `doc-end` after it, each at most once |
| Preprocess.WrapReferences | main.js:684-693 | the walk registers, after the earlier names, the value of every naming key, in the parameters' order |
| Preprocess.NamedValuesNamed | main.js:684-693 | every registered name is the value of a naming key |
| Preprocess.PreprocessSource | main.js:662-705 | the source is the text after the front matter, or all of it, wrapped by `doc-start` and `doc-end` when set; the registered names are the naming keys' values in order; without front matter the parameters are the defaults |
| Preprocess.LatexWrap | main.js:662-705 | a latex block without front matter is wrapped in the standalone preamble and `\end{document}` |
| Preprocess.NoDefaults | main.js:662-705 | a type without a default preset and a block without front matter pass through unchanged with no parameters |
| Preprocess.UnclosedFlag | main.js:665-681 | an unclosed front matter does not throw in the bundle: `---` is set to `1` |
| Renderers.GetRendererParameters | main.js:445-517 | recolouring is skipped exactly for asciidoc and unknown types; unknown types run nothing; only latex runs two programs, `pdflatex` then `pdf2svg` on the `.pdf`; every program gets the input, and those that name it get the output |

## Left out

- Processes, files, the temporary-file cache, the DOM and the Obsidian APIs
  (`spawnProcess`, `writeRenderedFile`, `renderImage`, `imageProcessor`):
  these are I/O. The renderers' programs are named by the setting that holds
  their path.
- `getTempDir(type)` depends on the operating system's temporary directory.
  It is the parameter `tempDir` of `Renderers.GetRendererParameters`.
- `referenceGraphMap`: registering a graph is a side effect on the plugin.
  The model returns the registered names (`Parsed.reference`,
  `Preprocessed.references`) instead of storing them.
- `isDefined` is folded into `Option`: `undefined` and `null` are `None`.
- The lazy, module-level memoisation of the tables is not modelled. The
  tables are the pure value `Resolver.Standard`.
- The RGB-keyed `Map`s use object identity as keys, so no two entries
  merge. They are ordered lists of pairs (`Utils.ColorTable`).
- `Palette.TransformColorMap`: requires every `#` alias to be six hex
  digits. The source asserts this with `hexToRgb(color)!` and does not
  check it.
- Floating point:
  - `rgb100ToHex` is modelled with exact integer arithmetic,
    `floor(p*255/100)`.
  - `parseFloat` reads an exact decimal, scaled by its exponent.
  - The blend's numbers are printed by the parameter `show`, which stands
    for JavaScript's number-to-string conversion.
- `Utils.Rgb100ToHex`: its contract states only the leading `#`. The
  digits are stated, for whole percentages 0..100, by
  `Utils.Rgb100RoundTrip`.
- `Attributes.StripStyleAttrs`: the contract does not promise that no
  quoted `fill=`/`stroke=` attribute remains, because one pass does not
  guarantee it (`Attributes.StripNotIdempotent`). What is stated is
  `Attributes.StripIdentity`.
- `Rewriter.MakeDynamicSvgAsWritten` and `Scanner.AgreeFrom` assume that no
  inserted piece holds a `<` (`Scanner.Clean`), and that the fuel covers
  the output.
- `Scanner.ScanAsWritten` may never stop. It runs on a `fuel` count, and
  `None` means the fuel ran out; a non-terminating run is stated as
  "`None` for every fuel".
- `JsString.Lower` folds ASCII letters only.
- `JsNumber.ParseFloat`: `Infinity` and `-Infinity` are not read, and give
  `None` where JavaScript gives a truthy infinity. Overflow to infinity and
  rounding to the nearest double are not modelled either. The results are
  exact reals, which have no infinities.
- `JsString.Trim` removes the white space and line terminators ECMAScript
  lists; there is no other Unicode handling.
- The `/i`, `/g` and lazy regular expressions are explicit scanners for
  the five patterns the engine uses. No general regex engine is modelled.
- The src `renderTypes`, `getTempDir` and the `refgraph` and `dynamic-svg`
  render paths are outside the recolouring engine.
- `src/main.ts`, `src/palettegen.ts` and `src/restartModal.ts` are not
  part of this model.

## Findings

| source | as written | input that shows it | evidently intended | confidence | as-written member | corrected member |
|---|---|---|---|---|---|---|
| src/processors.ts:330-406 | after inserting the `style` piece at `currentIndex`, the next `indexOf` starts at `currentIndex`, the start of that piece, so a piece that contains `<tag` is found again (same in main.js:566-646) | any document beginning `<svg><text fill="<text">`, with `text-fill: skip`: each turn re-finds the `<text` of the literal paint in its own piece and inserts it again | resume the search after the inserted piece | not executed; the input needs a literal paint containing `<tag` | Runaway.AsWrittenRunsAway | Runaway.CorrectedFinishes |
| main.js:627-638 | the blend declaration `axis:rgb(…)` is appended without a `;`, while every other declaration ends in `;` | `mix-multiplier: 0.5` on an element with `fill="#010101"` (nearest entry `#000000`, delta 3) and a stroke: the style reads `fill:rgb(…)stroke:var(…);`, one malformed declaration | end the blend with `;` like the other declarations | not executed | Rewriter.GluedStroke | Rewriter.SeparatedStroke |
