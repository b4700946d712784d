# mdx-to-md in Dafny

A model of `mdxToMd(path, options)` from `packages/mdx-to-md/src/mdx-to-md.ts`.
The function reads an MDX file and bundles it with `bundleMDX`. Then it renders
the bundled component to HTML, turns every `<img>` tag back into a Markdown
image, and converts the HTML to Markdown. The file system, the bundler, the React
renderer and the HTML-to-Markdown converter are libraries, so the model takes
them as function parameters. The logic written in the file itself is modelled
exactly, except as listed under "## Left out":

- **`<img>` rewrite** (`ImgRewrite`, `ImgRewriteProperties`, `ImgRewriteExamples`).
  This is the global `String.replace` with `/<img([^>]*)src="([^"]*)"([^>]*)>/g`
  and its callback. A match is four positions (`Span`). `IsMatch` says, character
  by character, when four positions spell the pattern. The engine's search picks
  the leftmost start, and at that start the greedy first group backtracks from its
  longest choice. The search is written out as recursive functions whose
  contracts tie their result to `IsMatch`. The replace cuts the HTML into pieces:
  verbatim text and tags. The pieces spell the input back exactly, and each tag
  is emitted as `![alt](src)`.
- **JSON string literals** (`JsonText`, `JsonTextProperties`). This is
  `JSON.stringify` of a string, following QuoteJSONString in section 25.5.2.3
  of ECMA-262. Its partner is a decoder for the JSON string grammar (section 7
  of RFC 8259), and the round trip between the two is proved.
- **Image-resolver plugin** (`ImageResolver`, `ImageResolverProperties`). It
  has two hooks:
  - the resolve hook, whose filter is `\.(png|jpe?g|gif|svg)$` with no flags;
  - the load hook, which answers with `export default <literal>`.
- **Bundler configuration** (`BundleConfig`, `BundleConfigProperties`). It
  covers:
  - the object passed to `bundleMDX`;
  - the body of the `esbuildOptions` callback.

  JavaScript objects are maps, and an object spread is a map update.
- **Pipeline** (`Pipeline`, `PipelineProperties`). It covers the order of the
  steps and how failures propagate.

Three facts about the source shape the model:

- The image filter has no `i` flag, so only lower-case extensions are claimed.
  `.JPG` and `.PNG` are not claimed.
- The caller's `esbuildOptions` has no effect. The callback written at line 33
  comes after the spread of the caller's options at line 32 and replaces it.
- The `options.plugins` read at line 59 belongs to the bundler's own build
  options, which are the callback's parameter. It is not the caller's `options`.

## Model

| member | source | states |
|---|---|---|
| ImgRewrite.IsMatch | packages/mdx-to-md/src/mdx-to-md.ts:70 | definition, no contract: four positions spell `<img`, a `[^>]*` run, `src="`, a `[^"]*` run, `"`, a `[^>]*` run and `>`; `TailAt`, `MatchAt` and `FindFrom` are stated against it |
| ImgRewrite.IsFirstMatchFrom | packages/mdx-to-md/src/mdx-to-md.ts:69-70 | definition, no contract: the match the engine reports from an index is a match, the leftmost one at or after the index, and at its start the one with the rightmost `src="`; `FindFrom` returns it and `FirstMatchUnique` shows there is at most one |
| ImgRewrite.TailAt | packages/mdx-to-md/src/mdx-to-md.ts:70 | after `src="` at `a`, `([^"]*)"` ends at the first `"` and `([^>]*)>` at the first `>` after it; every match with its `src="` at `a` has exactly these two positions |
| ImgRewrite.MatchDown | packages/mdx-to-md/src/mdx-to-md.ts:70 | backtracking of the greedy `([^>]*)`: what it returns is a match at that start, and no match at that start below the bound has its `src="` further right |
| ImgRewrite.MatchAt | packages/mdx-to-md/src/mdx-to-md.ts:70 | the match at a start, if any, is a match, and it has the rightmost `src="` of all matches there |
| ImgRewrite.FindFrom | packages/mdx-to-md/src/mdx-to-md.ts:69-70 | a search from `lastIndex` returns the leftmost match, greedy at its start, and it returns none only when no match starts at or after that index |
| ImgRewrite.Scan | packages/mdx-to-md/src/mdx-to-md.ts:69-75 | definition, no contract: the global replace cuts the HTML at its first match and goes on after that match's `>`; `ScanReassembles`, `ScanPiecesWellFormed` and `NoMatchInPrefix` describe its pieces, and `FindInRest` shows that searching the rest is the engine resuming at `lastIndex` |
| ImgRewrite.Cut | packages/mdx-to-md/src/mdx-to-md.ts:69-75 | definition, no contract: the pieces for one match are the non-empty text before it, then the tag by its three groups, then the rest; `ScanStepReassembles` and `ScanStepWellFormed` describe it |
| ImgRewrite.Rewrite | packages/mdx-to-md/src/mdx-to-md.ts:69-75 | definition, no contract: `processedHtml`, the concatenation of what each piece emits; `RewriteStep` states it for the first match of any HTML and `RewriteWithoutMatch` for HTML with no match |
| ImgRewriteProperties.FirstMatchUnique | packages/mdx-to-md/src/mdx-to-md.ts:69-70 | the match the engine reports from an index is determined |
| ImgRewriteProperties.FindInRest | packages/mdx-to-md/src/mdx-to-md.ts:69-70 | the global replace resumes at `lastIndex` in the same string; that search finds what a search of the rest of the text finds, moved |
| ImgRewriteProperties.MatchInSuffix | packages/mdx-to-md/src/mdx-to-md.ts:70 | whether positions spell a match depends only on the matched characters, in both directions |
| ImgRewriteProperties.MatchShift | packages/mdx-to-md/src/mdx-to-md.ts:70 | text in front of a match moves it without changing whether it is one, in both directions |
| ImgRewriteProperties.MatchExtends | packages/mdx-to-md/src/mdx-to-md.ts:70 | text after a match leaves it a match |
| ImgRewriteProperties.TagTextOfMatch | packages/mdx-to-md/src/mdx-to-md.ts:70-71 | the three captured groups, put back between `<img`, `src="`, `"` and `>`, are the matched text |
| ImgRewriteProperties.GroupsInSuffix | packages/mdx-to-md/src/mdx-to-md.ts:71 | the groups captured in a suffix are those captured in the whole text |
| ImgRewriteProperties.ScanReassembles | packages/mdx-to-md/src/mdx-to-md.ts:69-75 | the verbatim pieces and matched tags, in order, spell the HTML: nothing is lost, duplicated or reordered, so every character lies in exactly one piece and the matches do not overlap |
| ImgRewriteProperties.NoMatchInPrefix | packages/mdx-to-md/src/mdx-to-md.ts:69-70 | text before the first match holds no match of its own |
| ImgRewriteProperties.ScanPiecesWellFormed | packages/mdx-to-md/src/mdx-to-md.ts:69-71 | every verbatim piece is non-empty and holds no match; every tag's groups keep to `[^>]`, `[^"]`, `[^>]` |
| ImgRewriteProperties.RewriteWithoutMatch | packages/mdx-to-md/src/mdx-to-md.ts:69-75 | HTML in which the pattern has no match is returned unchanged |
| ImgRewriteProperties.RewriteNeedsImgAndSrc | packages/mdx-to-md/src/mdx-to-md.ts:70 | HTML without `<img`, or without `src="`, is returned unchanged |
| ImgRewriteProperties.TagMatches | packages/mdx-to-md/src/mdx-to-md.ts:70 | a tag built from groups in the character classes is a match, closed by its own `>` |
| ImgRewriteProperties.TagNoLaterSrc | packages/mdx-to-md/src/mdx-to-md.ts:70 | when the src value and the text after it hold no `src="`, no `src="` starts inside the tag after its own, whatever follows the tag |
| ImgRewriteProperties.TagGreedy | packages/mdx-to-md/src/mdx-to-md.ts:70 | when the src value and the text after it hold no `src="` (`NoSrcAttribute`), no other match at the tag's start has its `src="` further right |
| ImgRewriteProperties.NoImgAcross | packages/mdx-to-md/src/mdx-to-md.ts:70 | text without `<img` followed by text starting with `<` has no `<img` starting inside the first text, not even one running across the boundary |
| ImgRewriteProperties.TagIsFirstMatch | packages/mdx-to-md/src/mdx-to-md.ts:69-70 | after text with no `<img` (tags such as `<p>` are allowed), and when the src value and the rest of the tag hold no second `src="`, the tag is the match the engine reports |
| ImgRewriteProperties.TagGroupsAfter | packages/mdx-to-md/src/mdx-to-md.ts:70-71 | after any text, the tag matches with its own groups and ends where the tag ends |
| ImgRewriteProperties.RewriteStep | packages/mdx-to-md/src/mdx-to-md.ts:69-75 | for any HTML and its first match: the text before the match is kept, the match becomes `![alt](src)` with alt taken from the part after the src and every `\` of the src turned into `/`, and the text after the match's `>` is rewritten on its own |
| ImgRewriteProperties.ScanTextThenTag | packages/mdx-to-md/src/mdx-to-md.ts:69-75 | under the conditions of `TagIsFirstMatch`, text, tag and rest are cut into the text, the image, and the pieces of the rest |
| ImgRewriteProperties.RewriteTextThenTag | packages/mdx-to-md/src/mdx-to-md.ts:69-75 | when the text before the tag holds no `<img` and the src value and the rest of the tag hold no second `src="`: text, tag, more HTML becomes the text, `![alt](src)` with the tag's own alt and src, then the rewrite of the rest |
| ImgRewriteProperties.EmitTextThenImage | packages/mdx-to-md/src/mdx-to-md.ts:73 | what text, an image and further pieces emit, in order |
| ImgRewrite.AltFrom | packages/mdx-to-md/src/mdx-to-md.ts:72 | `post.match(/alt="([^"]*)"/)` finds an `alt="…"` with its closing quote, and none starts further left |
| ImgRewrite.AltText | packages/mdx-to-md/src/mdx-to-md.ts:72-73 | the value of the first `alt="…"` after the src, empty when there is none; it holds no `"` |
| ImgRewrite.Slashed | packages/mdx-to-md/src/mdx-to-md.ts:73 | `src.replace(/\\/g, "/")` keeps the length, turns each `\` into `/`, keeps every other character in place, and leaves no `\` |
| ImgRewrite.ImageMarkdown | packages/mdx-to-md/src/mdx-to-md.ts:73 | definition, no contract: the template `![${alt}](${src})` with the src slashed; `Slashed` states what the src part is |
| ImgRewriteExamples.RewriteEmpty | packages/mdx-to-md/src/mdx-to-md.ts:69-75 | empty HTML stays empty |
| ImgRewriteExamples.OneTag | packages/mdx-to-md/src/mdx-to-md.ts:69-75 | a lone tag becomes exactly `![alt](src)` with backslashes turned into slashes |
| ImgRewriteExamples.AltBeforeSrcIsDropped | packages/mdx-to-md/src/mdx-to-md.ts:70-73 | an `alt` written before `src` is not looked at: the image gets an empty alt |
| ImgRewriteExamples.LaterSrcWins | packages/mdx-to-md/src/mdx-to-md.ts:70-73 | with `src="x"` followed by `data-src="y"`, the greedy first group takes the later one: the image's src is `y`, its alt comes from what follows |
| ImgRewriteExamples.DataAltIsAlt | packages/mdx-to-md/src/mdx-to-md.ts:72-73 | `data-alt="a"` after the src is read as the alt text |
| ImgRewriteExamples.DataAltText | packages/mdx-to-md/src/mdx-to-md.ts:72 | the alt search finds `alt="` inside `data-alt="` |
| ImgRewriteExamples.NoSrcWithoutS | packages/mdx-to-md/src/mdx-to-md.ts:70 | text without an `s` holds no `src="` |
| ImgRewriteExamples.NoSrcUnchanged | packages/mdx-to-md/src/mdx-to-md.ts:69-75 | HTML without an `s` is returned unchanged |
| ImgRewriteExamples.ParagraphCloseUnchanged | packages/mdx-to-md/src/mdx-to-md.ts:69-75 | `</p>` is returned unchanged |
| ImgRewriteExamples.ImageInParagraph | packages/mdx-to-md/src/mdx-to-md.ts:69-75 | `<p>`, a tag, `</p>`, as React renders an MDX image, becomes `<p>![alt](src)</p>` |
| JsonText.ShortUnescape | packages/mdx-to-md/src/mdx-to-md.ts:53 | each short escape the decoder reads is the one the encoder writes for that character |
| JsonText.EscapeChar | packages/mdx-to-md/src/mdx-to-md.ts:53 | one character is written as 1 to 6 printable characters: either an escape starting with `\` or the character itself, never a bare `"` |
| JsonText.Escaped | packages/mdx-to-md/src/mdx-to-md.ts:53 | the escaped body is at least as long as the string and holds no control character |
| JsonText.Quote | packages/mdx-to-md/src/mdx-to-md.ts:53 | `JSON.stringify` of a string starts and ends with `"` and holds no control character |
| JsonText.Hex4 | packages/mdx-to-md/src/mdx-to-md.ts:53 | four hexadecimal digits stand for a UTF-16 code unit |
| JsonText.ControlHexInverse | packages/mdx-to-md/src/mdx-to-md.ts:53 | the `\u00xx` written for a control character reads back as that character |
| JsonText.UnescapeStep | packages/mdx-to-md/src/mdx-to-md.ts:53 | decoding an escaped character followed by more text gives the character followed by the decoding of the rest |
| JsonText.UnescapeEscaped | packages/mdx-to-md/src/mdx-to-md.ts:53 | the escaped body decodes to the string |
| JsonText.QuoteRoundTrip | packages/mdx-to-md/src/mdx-to-md.ts:53 | `JSON.parse(JSON.stringify(s))` is `s` |
| JsonTextProperties.QuoteInjective | packages/mdx-to-md/src/mdx-to-md.ts:53 | distinct strings get distinct literals |
| JsonTextProperties.PlainQuoted | packages/mdx-to-md/src/mdx-to-md.ts:53 | text with nothing to escape is quoted as it is |
| JsonTextProperties.UnquotePlain | packages/mdx-to-md/src/mdx-to-md.ts:38 | a quoted text with nothing to escape parses back to that text |
| ImageResolver.IsImagePath | packages/mdx-to-md/src/mdx-to-md.ts:45 | definition, no contract: the five alternatives of the filter, each anchored at the end, with no `i` flag; `ImagePathByExtension` states it by the extension, both ways |
| ImageResolver.OnResolve | packages/mdx-to-md/src/mdx-to-md.ts:45-50 | the hook answers exactly for paths the filter accepts, with the path unchanged in namespace `image-url` |
| ImageResolver.LastDot | packages/mdx-to-md/src/mdx-to-md.ts:45 | the last `.` of a path, or none |
| ImageResolver.Extension | packages/mdx-to-md/src/mdx-to-md.ts:45 | definition, no contract: what follows the last `.`, or none; `ExtensionOfSuffix` and `ImagePathByExtension` describe it |
| ImageResolver.ModuleSource | packages/mdx-to-md/src/mdx-to-md.ts:53 | definition, no contract: `export default ` followed by `JSON.stringify(path)`; `OnLoad` states that the literal parses back to the path |
| ImageResolver.OnLoad | packages/mdx-to-md/src/mdx-to-md.ts:51-56 | the hook answers exactly in namespace `image-url`, with loader `js` and `export default` followed by a literal that parses back to the path |
| ImageResolverProperties.ExtensionOfSuffix | packages/mdx-to-md/src/mdx-to-md.ts:45 | a path ending in `.` and a dot-free extension has that extension |
| ImageResolverProperties.ImagePathByExtension | packages/mdx-to-md/src/mdx-to-md.ts:45 | the filter accepts a path if and only if the text after its last `.` is one of `png`, `jpg`, `jpeg`, `gif`, `svg` |
| ImageResolverProperties.ClaimedHasImageExtension | packages/mdx-to-md/src/mdx-to-md.ts:45 | every accepted path has one of the five extensions |
| ImageResolverProperties.ImageExtensionClaimed | packages/mdx-to-md/src/mdx-to-md.ts:45 | every path with one of the five extensions is accepted |
| ImageResolverProperties.LastCharDiffers | packages/mdx-to-md/src/mdx-to-md.ts:45 | the `$` anchor fails when the last character differs |
| ImageResolverProperties.UpperCaseNotClaimed | packages/mdx-to-md/src/mdx-to-md.ts:45 | `PNG`, `JPG`, `JPEG`, `GIF` and `SVG` are not accepted, whatever the file name |
| ImageResolverProperties.ImageImportExportsPath | packages/mdx-to-md/src/mdx-to-md.ts:45-56 | an image import resolves into `image-url`, and loading it exports the original path |
| ImageResolverProperties.LoadInjective | packages/mdx-to-md/src/mdx-to-md.ts:51-56 | different image paths give different modules |
| BundleConfig.EsbuildCallback | packages/mdx-to-md/src/mdx-to-md.ts:33-35 | definition, no contract: the closure passed as `esbuildOptions`, named with the directory it captures; `BundleArgs` and `BundlerInput` state it is over the same directory as `cwd` |
| BundleConfig.Define | packages/mdx-to-md/src/mdx-to-md.ts:37-40 | definition, no contract: `process.env.NODE_ENV` is the text `"production"` and `process.env.__TESTING__` the text `true`; `NodeEnvIsProduction` states the first parses as `production`, and `EsbuildOptions` that the callback sets it |
| BundleConfig.IncomingPlugins | packages/mdx-to-md/src/mdx-to-md.ts:59 | definition, no contract: the bundler's `plugins` when it is an array, else none; `EsbuildOptions` states they follow the resolver unchanged |
| BundleConfig.EsbuildOptions | packages/mdx-to-md/src/mdx-to-md.ts:33-61 | the callback keeps every incoming option except `outdir`, `publicPath`, `define` and `plugins`; it sets those to the file's directory, `.`, the two substitutions, and the resolver followed by the incoming plugins when they are an array |
| BundleConfig.BundleArgs | packages/mdx-to-md/src/mdx-to-md.ts:29-33 | `bundleMDX` gets the file's text as `source`, its directory as `cwd`, the caller's other options unchanged, and this module's callback, closed over the same directory, as `esbuildOptions` |
| BundleConfigProperties.CallerEsbuildOptionsIgnored | packages/mdx-to-md/src/mdx-to-md.ts:32-33 | two callers differing only in `esbuildOptions` give the bundler the same arguments |
| BundleConfigProperties.EsbuildSettingsFixed | packages/mdx-to-md/src/mdx-to-md.ts:35-40 | the output directory, public path and substitutions do not depend on the incoming options |
| BundleConfigProperties.SettingsKept | packages/mdx-to-md/src/mdx-to-md.ts:34-40 | applied to options that already hold its settings, the callback changes nothing but `plugins` |
| BundleConfigProperties.EsbuildOptionsTwice | packages/mdx-to-md/src/mdx-to-md.ts:33-61 | applied to its own result, the callback changes nothing but `plugins`, where the resolver appears twice |
| BundleConfigProperties.NodeEnvIsProduction | packages/mdx-to-md/src/mdx-to-md.ts:37-40 | the `process.env.NODE_ENV` substitution is a string literal that parses as `production` |
| Pipeline.RenderedHtml | packages/mdx-to-md/src/mdx-to-md.ts:28-66 | definition, no contract: read the file, bundle it with `BundleArgs`, render the code, stopping at the first failure; `MdxToMd`, `BundlerInput` and `FailuresPropagate` state what the pipeline does with it |
| Pipeline.MdxToMd | packages/mdx-to-md/src/mdx-to-md.ts:17-79 | a failure to read, bundle or render is the result; a success needs all three to succeed and is what the converter makes of the rewritten HTML |
| PipelineProperties.ConvertsRewrittenHtml | packages/mdx-to-md/src/mdx-to-md.ts:64-78 | once the HTML exists, the result is the converter applied to it with its `<img>` tags rewritten, a converter failure included |
| PipelineProperties.BundlerInput | packages/mdx-to-md/src/mdx-to-md.ts:28-33 | the bundler compiles the file's text, in the file's directory, with this module's callback closed over that directory |
| PipelineProperties.FailuresPropagate | packages/mdx-to-md/src/mdx-to-md.ts:28-78 | a failure to read, to bundle or to render is the result, and no later step is consulted; a failure to convert makes the result a failure |
| PipelineProperties.NoImagesUnchanged | packages/mdx-to-md/src/mdx-to-md.ts:66-77 | rendered HTML without an image tag reaches the converter unchanged |
| PipelineProperties.FirstImageReachesConverter | packages/mdx-to-md/src/mdx-to-md.ts:66-77 | for any rendered HTML, its first image tag reaches the converter as `![alt](src)` between the HTML before it and the rewrite of the HTML after it |
| PipelineProperties.ImageReachesConverter | packages/mdx-to-md/src/mdx-to-md.ts:66-77 | an image tag after HTML with no `<img`, such as an opening `<p>`, reaches the converter as `![alt](src)` when the tag has no second `src="` |

## Left out

- Reading the file, `bundleMDX`, `getMDXComponent`, `createElement`, `renderToString` and `NodeHtmlMarkdown.translate` are libraries or I/O (lines 28-29, 64-66, 77). They are parameters of `Pipeline.MdxToMd`. A thrown error or rejected promise from any of them, the converter included, is a `Failure`. The rendering steps at lines 64-66 are one `render` parameter.
- `dirname` from `path` is a parameter, so path syntax is not modelled.
- The converter's `ignore: ["img"]` setting (lines 10-12) belongs to the converter, which is a parameter.
- esbuild's plugin machinery is not modelled: `setup`, `build.onResolve` and `build.onLoad` registration, and the order in which esbuild consults plugins. The two hooks are modelled as functions from their arguments to their results.
- The `.*` filter of the load hook matches every path, so only the namespace is checked.
- Property order in JavaScript objects is not modelled, because objects are maps.
- BundleArgs, Pipeline.MdxToMd: require the caller's options to hold only `esbuildOptions`, `grayMatterOptions` and `mdxOptions`, the `Pick` of the parameter's type. A JavaScript caller that ignores the type and passes, say, `cwd` or `source` would override those through the spread at line 32. The model does not cover that case.
- Options with no effect on this file are opaque `Value`s: `grayMatterOptions`, `mdxOptions`, and the bundler's other build options.
- The `Frontmatter` type parameter is not modelled, because it has no run-time effect.
- JavaScript strings are sequences of UTF-16 code units, and the model uses Dafny characters. A string with a lone surrogate cannot be expressed, because a Dafny `char` is a Unicode scalar value; for such a string `JSON.stringify` writes a `\u` escape.
- `JsonText.Unescape` is the decoder used as the partner of `JSON.stringify`. It rejects `\u` escapes of surrogates instead of pairing them. The encoder never writes such escapes, so the round trip is unaffected.
- HTML entities in `src` and `alt` are not decoded, because the source copies the attribute text as it is.
- `packages/mdx-to-md/src/components/screenshot/index.jsx` is a presentational component and is not part of this model.
