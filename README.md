# Markdown preview: line map and HTML post-processing, in Dafny

This project models two pieces of the Markdown preview package of the editor and
proves properties of them.

- **The source-line map** (`markdown-preview-view/util.js`). `decodeTag` gives a
  token's display tag. `buildLineMap` walks the Markdown tokenizer's flat token
  stream once. For every source line a visible opening or self-closing token covers,
  it records the token's display tag and that tag's occurrence number at the
  token's nesting level. The preview uses this map to follow the cursor. Module
  `LineMap`: the builder is a method with loops, proved equal to a functional
  specification (`Step`, `Run`, `LineMapOf`). The lemmas cover:
  - which lines get entries and in what order;
  - what the index counts;
  - which tokens are ignored;
  - exactly when the builder throws.
- **The renderer's post-processing** (`renderer.js`). Module `Doctype` covers the
  leading document-type strip. `Sanitizer` is the security pass. `ImagePaths` is
  the per-image `src` decision of `resolveImagePaths` and the behaviour dispatch
  of `handleImages`. `Highlight` holds the default code language, the fence name
  and the request made for each `pre` element. `Document` holds the parsed
  document and the image watcher as objects updated in place. `Render` is the
  whole `render` pipeline and its mode dispatch, with `Rendered` as its
  functional specification.

The document is a sequence of elements in document order. Each element has a tag
name, an attribute map, a depth below the body, and text. Node's path functions,
`decodeURI`, the file probe, the project lookup, the media query and the install
directories are fields of a `Host` value. The two backends are function-valued
parameters, each followed by the HTML parser. The configuration the source reads
globally is a `Config` parameter.

Four behaviours of the code are worth stating plainly:
- `sanitize` removes 22 attributes. One of them is spelled `ondbclick`, so an
  `ondblclick` handler is kept (`Sanitizer.DoubleClickHandlerSurvives`).
- An unrecognised render mode is examined only after the backend has run and the
  document has been sanitized, so a backend failure comes first
  (`Render.InvalidModeIff`).
- A `src` that `decodeURI` rejects makes `render` reject (`Render.RenderFailsIff`).
- In the preview, a root-relative `src` that is not an existing file is
  re-rooted under the project directory (`ImagePaths.AbsolutizedPath`).

The model also makes three modelling choices:
- `buildLineMap` reads the counter table of the token's level. Only level 0 has
  one at the start, and an opening token at level L creates the one for L + 1. A
  token at a level without a table makes the source throw a TypeError. The model
  returns `Failure(UndefinedLevel(level))` there and proves exactly when that
  happens (`LineMap.BuildSucceedsIff`).
- The selector `script:not([type^='math/tex'])` compares the `type` value without
  regard to ASCII case, as selectors do for that attribute on HTML elements.
  Removing a script removes its whole subtree, so descendants of a removed script
  are gone too (`Sanitizer.Removed`).
- The doctype pattern `^\s*<!doctype(\s+.*)?>\s*` (case-insensitive) is computed
  the way a backtracking engine finds its match. It is then proved sound and
  complete against the set of strings the pattern describes.

## Model

| member | source | states |
|---|---|---|
| `LineMap.DecodeTag` | packages/markdown-preview-plus/lib/markdown-preview-view/util.js:46-57 | `math` gives `span`, `code` gives `atom-text-editor`, the empty tag gives none, any other tag itself; a result is never empty |
| `LineMap.DecodeTagIdempotent` | packages/markdown-preview-plus/lib/markdown-preview-view/util.js:46-57 | decoding a display tag again changes nothing |
| `LineMap.PushToLines` | packages/markdown-preview-plus/lib/markdown-preview-view/util.js:71-78 | the inner loop appends the entry to each line of [start, end), creating missing lists, and touches no other line |
| `LineMap.BuildLineMap` | packages/markdown-preview-plus/lib/markdown-preview-view/util.js:58-95 | the builder loop returns exactly the line map of the functional specification, or the error it throws |
| `LineMap.SkippedTokenChangesNothing` | packages/markdown-preview-plus/lib/markdown-preview-view/util.js:63-69 | a hidden token, one without a range, or one whose tag decodes to nothing leaves the line map and every counter unchanged |
| `LineMap.StepFailsIff` | packages/markdown-preview-plus/lib/markdown-preview-view/util.js:76-92 | a token that is not skipped throws exactly when its level has no counter table |
| `LineMap.StepLineEffect` | packages/markdown-preview-plus/lib/markdown-preview-view/util.js:70-90 | an opening or self-closing token appends exactly one entry (tag, counter before it) to each line of its range; a closing token appends none; other lines and earlier entries stay |
| `LineMap.StepCounterEffect` | packages/markdown-preview-plus/lib/markdown-preview-view/util.js:79-92 | every token that is not skipped raises its (level, tag) counter by one; only an opening token at L resets level L + 1; nothing else changes |
| `LineMap.RunAppend` | packages/markdown-preview-plus/lib/markdown-preview-view/util.js:62-93 | walking `a + b` is walking `a`, then `b` from where `a` stopped |
| `LineMap.EmptyInputEmptyMap` | packages/markdown-preview-plus/lib/markdown-preview-view/util.js:59-62 | no tokens give an empty line map |
| `LineMap.RunLineEntries` | packages/markdown-preview-plus/lib/markdown-preview-view/util.js:70-90 | a walk keeps a line's existing entries and appends one per covering token, in token order |
| `LineMap.LineMapPaths` | packages/markdown-preview-plus/lib/markdown-preview-view/util.js:70-94 | each line's tags are exactly the display tags of the tokens covering it, in order; uncovered lines are absent |
| `LineMap.LineMapEntries` | packages/markdown-preview-plus/lib/markdown-preview-view/util.js:70-92 | the k-th entry of each line holds the display tag of the k-th token covering it and the (level, tag) counter value just before that token |
| `LineMap.CoveringTokenRecorded` | packages/markdown-preview-plus/lib/markdown-preview-view/util.js:70-92 | every token covering a line leaves there an entry with its tag and the counter value it read |
| `LineMap.EntryProvenance` | packages/markdown-preview-plus/lib/markdown-preview-view/util.js:71-82 | every entry of line l comes from a visible opening or self-closing token with start <= l < end |
| `LineMap.RunCountsOccurrences` | packages/markdown-preview-plus/lib/markdown-preview-view/util.js:91-92 | without a reset of its level, a counter grows by the number of same-level same-tag tokens, closing ones included |
| `LineMap.IndicesStrictlyIncrease` | packages/markdown-preview-plus/lib/markdown-preview-view/util.js:76-92 | same-tag tokens at one level with no reset between them read strictly increasing counters (by one plus the matching tokens between) |
| `LineMap.RunSucceedsIff` | packages/markdown-preview-plus/lib/markdown-preview-view/util.js:60-92 | a walk succeeds exactly when every token's level has a table when read; on success the levels with tables are the initial ones plus those opened |
| `LineMap.BuildSucceedsIff` | packages/markdown-preview-plus/lib/markdown-preview-view/util.js:58-95 | the builder succeeds exactly when every counted token is at level 0 or a level an earlier opening token entered |
| `Doctype.DoctypeMatch` | packages/markdown-preview-plus/lib/renderer.js:13 | a match is longer than the keyword and within the text |
| `Doctype.StripDoctype` | packages/markdown-preview-plus/lib/renderer.js:13 | the text handed on is a suffix of the input |
| `Doctype.DoctypeMatchSound` | packages/markdown-preview-plus/lib/renderer.js:13 | what is cut is in the pattern's language, the rest does not start with whitespace, and no longer prefix is in the language |
| `Doctype.LanguagePrefixWithinMatch` | packages/markdown-preview-plus/lib/renderer.js:13 | every prefix in the pattern's language is at most as long as the match (greedy `\s*` and `.*`) |
| `Doctype.GreedyToLastClose` | packages/markdown-preview-plus/lib/renderer.js:13 | with two `>` on the line, everything up to the last one and the whitespace after it is cut |
| `Doctype.DoctypeMatchComplete` | packages/markdown-preview-plus/lib/renderer.js:13 | whenever some prefix is in the pattern's language, the pattern matches |
| `Doctype.NoDoctypeUnchanged` | packages/markdown-preview-plus/lib/renderer.js:13 | a text not starting with optional whitespace and `<!doctype` (any case) is unchanged |
| `Doctype.StripDoctypeCutsDoctypeOnly` | packages/markdown-preview-plus/lib/renderer.js:13 | exactly the longest prefix in the language is removed, or nothing; nothing is removed iff no prefix is in the language |
| `Sanitizer.StripEventHandlers` | packages/markdown-preview-plus/lib/renderer.js:108-110 | an element keeps exactly its attributes not in the list, with their values, and its name, depth and text |
| `Sanitizer.WithoutUnsafeScriptsIsSurvivors` | packages/markdown-preview-plus/lib/renderer.js:81-83 | the first pass keeps, in order, exactly the elements that are neither an unsafe script nor inside the subtree of one |
| `Sanitizer.UnsafeScriptRemoved` | packages/markdown-preview-plus/lib/renderer.js:81-83 | every unsafe script is removed |
| `Sanitizer.SanitizedMembers` | packages/markdown-preview-plus/lib/renderer.js:80-111 | an element is in the result iff it is the stripped form of an element that is neither an unsafe script nor inside one's subtree |
| `Sanitizer.SanitizedIsSafe` | packages/markdown-preview-plus/lib/renderer.js:80-111 | afterwards no script without a `math/tex` type remains and no listed attribute is present |
| `Sanitizer.SanitizedLength` | packages/markdown-preview-plus/lib/renderer.js:81-83 | the result is shorter by exactly the number of elements in removed subtrees |
| `Sanitizer.ChildlessScriptsLength` | packages/markdown-preview-plus/lib/renderer.js:81-83 | when no unsafe script has element children, exactly one element is removed per unsafe script |
| `Sanitizer.StripKeepsScriptKind` | packages/markdown-preview-plus/lib/renderer.js:84-110 | stripping attributes never changes whether an element is an unsafe script |
| `Sanitizer.SanitizedIdempotent` | packages/markdown-preview-plus/lib/renderer.js:80-111 | sanitizing twice is sanitizing once |
| `Sanitizer.DoubleClickHandlerSurvives` | packages/markdown-preview-plus/lib/renderer.js:84-110 | `ondblclick` survives with its value; `onclick` is removed |
| `Sanitizer.MathScriptKeptOtherScriptRemoved` | packages/markdown-preview-plus/lib/renderer.js:81-83 | of a `math/tex` script and an untyped script, only the first is kept |
| `Sanitizer.ScriptSubtreeRemoved` | packages/markdown-preview-plus/lib/renderer.js:81-83 | an `svg` holding a script holding a `rect` keeps only the `svg`: the script's child goes with it |
| `Document.Document.Sanitize` | packages/markdown-preview-plus/lib/renderer.js:80-111 | the two in-place passes leave exactly `Sanitized` of the old elements |
| `Document.Document.RemoveUnsafeScripts` | packages/markdown-preview-plus/lib/renderer.js:81-83 | the loop skips each unsafe script's whole subtree and keeps exactly the first pass's survivors, in order |
| `Document.Document.RemoveEventAttributes` | packages/markdown-preview-plus/lib/renderer.js:84-110 | every element, and nothing else, loses exactly the listed attributes |
| `Document.RemoveEventHandlers` | packages/markdown-preview-plus/lib/renderer.js:108-110 | removing the listed attributes one by one from an element gives exactly `StripEventHandlers` of it |
| `ImagePaths.LeaveIff` | packages/markdown-preview-plus/lib/renderer.js:126-142 | a `src` is left alone iff it is absent or empty, or decodes to a remote scheme or an install directory |
| `ImagePaths.MalformedIff` | packages/markdown-preview-plus/lib/renderer.js:126-130 | the pass throws on a `src` iff it is non-empty, decoded, and decoding fails |
| `ImagePaths.AbsolutizedPath` | packages/markdown-preview-plus/lib/renderer.js:143-156 | a non-root-relative `src` is resolved against the file's directory iff there is a file path; an existing root-relative file is kept; any other root-relative `src` is joined under the project directory when there is one |
| `ImagePaths.RelativizedFromAbsolutized` | packages/markdown-preview-plus/lib/renderer.js:157-160 | relativizing touches the same images as absolutizing and gives the path from the save path's (else the file's) directory to the absolutized one |
| `ImagePaths.Versioned` | packages/markdown-preview-plus/lib/renderer.js:161-165 | with a version the final `src` is the path followed by `?v=` and the version; without, the path |
| `ImagePaths.ResolvedElement` | packages/markdown-preview-plus/lib/renderer.js:125-167 | only the `src` of a media element that is rewritten changes, to the versioned path; all else is kept |
| `ImagePaths.RewrittenPath` | packages/markdown-preview-plus/lib/renderer.js:161-162 | the watcher is asked about an element iff it is media and rewritten, with the rewritten path |
| `ImagePaths.PassFor` | packages/markdown-preview-plus/lib/renderer.js:112-121 | `untouched` runs no pass, `relativized` one that relativizes, `absolutized` one that does not |
| `ImagePaths.PassLength` | packages/markdown-preview-plus/lib/renderer.js:125-168 | the pass gets through the elements before the first it throws on, or all of them |
| `ImagePaths.PassLengthIs` | packages/markdown-preview-plus/lib/renderer.js:125-168 | a pass that gets through the first i elements and throws on the next (or has none left) has length exactly i |
| `ImagePaths.PassChangesOnlySources` | packages/markdown-preview-plus/lib/renderer.js:125-168 | a pass adds, removes and reorders no element, and changes only rewritten `src` attributes |
| `ImagePaths.WatchedPathsLength` | packages/markdown-preview-plus/lib/renderer.js:161-163 | at most one path is watched per element |
| `Document.ImageWatcher.Clear` | packages/markdown-preview-plus/lib/renderer.js:35 | the watcher forgets every watched path |
| `Document.ImageWatcher.Watch` | packages/markdown-preview-plus/lib/renderer.js:162 | the path is added to the watched list and its version returned |
| `Document.Document.ResolveImagePaths` | packages/markdown-preview-plus/lib/renderer.js:122-169 | elements before the first failure are resolved, the rest kept; success iff no failure; the watcher sees the rewritten paths in order |
| `Document.Document.ResolveAt` | packages/markdown-preview-plus/lib/renderer.js:126-166 | one element: fails iff the pass throws on it, otherwise replaced by its resolution |
| `Document.Document.HandleImages` | packages/markdown-preview-plus/lib/renderer.js:112-121 | `untouched` changes nothing; otherwise a watcher-less pass that relativizes iff `relativized` |
| `Document.ErrorBanner` | packages/markdown-preview-plus/lib/renderer.js:67-73 | the banner is a top-level `div` whose `code` child holds the message, with no attributes and no script |
| `Document.Document.InsertErrorBanner` | packages/markdown-preview-plus/lib/renderer.js:67-73 | the banner is put before the body's first element |
| `Document.Document.HighlightCodeBlocks` | packages/markdown-preview-plus/lib/renderer.js:177-195 | the loop over the list of `pre` elements makes exactly the specified requests, one per `pre` in order |
| `Highlight.DefaultCodeLanguage` | packages/markdown-preview-plus/lib/renderer.js:59-62 | `coffee` iff the grammar scope is `source.litcoffee`, `text` otherwise |
| `Highlight.FenceName` | packages/markdown-preview-plus/lib/renderer.js:181-184 | the default for an empty class; else the class with a single leading `lang-` or `sourceCode ` removed, or the class itself |
| `Highlight.FenceNameOfLangClass` | packages/markdown-preview-plus/lib/renderer.js:181-184 | the class `lang-` + name gives back the name; only one prefix is removed |
| `Highlight.EditorDivClass` | packages/markdown-preview-plus/lib/renderer.js:185-193 | the class starts with `editor-colors ` when copying, followed by `lang-` and the fence name when there is one |
| `Highlight.EditorClassRoundTrip` | packages/markdown-preview-plus/lib/renderer.js:181-193 | the preview editor element's class yields the same fence name again |
| `Highlight.CodeBlock` | packages/markdown-preview-plus/lib/renderer.js:178-180 | the code block is the `pre`'s first element child when it has one, the `pre` otherwise |
| `Highlight.TrimFinalNewline` | packages/markdown-preview-plus/lib/renderer.js:187 | exactly one final line feed, if present, is removed |
| `Highlight.PreIndicesExact` | packages/markdown-preview-plus/lib/renderer.js:177 | the positions of all `pre` elements, each once, in increasing order |
| `Highlight.RequestAtPosition` | packages/markdown-preview-plus/lib/renderer.js:177-195 | for any list of positions, the k-th request is made from the k-th position, and there are as many requests as positions |
| `Highlight.RequestsPerPre` | packages/markdown-preview-plus/lib/renderer.js:177-195 | as many requests as `pre` elements; the k-th request is made from the k-th `pre` |
| `Highlight.RequestsDependOnShape` | packages/markdown-preview-plus/lib/renderer.js:177-195 | requests depend only on names, depths, texts and classes |
| `Render.InvalidModeMessage` | packages/markdown-preview-plus/lib/renderer.js:77-79 | the message is `Invalid render mode ` followed by the JSON-quoted mode |
| `Render.JsonQuotePlain` | packages/markdown-preview-plus/lib/renderer.js:78 | a mode without quotes, backslashes or control characters appears as it is between double quotes |
| `Render.Converted` | packages/markdown-preview-plus/lib/renderer.js:13-30 | the converter's rejection without a document is the only backend failure; a message comes only from it |
| `Render.ImagePass` | packages/markdown-preview-plus/lib/renderer.js:34-58 | the preview absolutizes with the watcher; save and copy follow their behaviour, with the save path only when saving; any other mode is the invalid-mode error |
| `Render.ProcessImages` | packages/markdown-preview-plus/lib/renderer.js:34-58 | the in-place dispatch leaves the specified document or error and clears then fills the preview's watcher |
| `Render.Render` | packages/markdown-preview-plus/lib/renderer.js:12-75 | the method's result and requests are those of the specification `Rendered`; in the preview the watcher holds the paths the pass rewrote, and is left untouched when the converter fails before it is cleared |
| `Render.ResolvedKeepsSafe` | packages/markdown-preview-plus/lib/renderer.js:166 | writing `src` never makes an element unsafe |
| `Render.RenderedIsSafe` | packages/markdown-preview-plus/lib/renderer.js:12-75 | in every mode the rendered document has no unsafe script and no listed attribute |
| `Render.InvalidModeIff` | packages/markdown-preview-plus/lib/renderer.js:34-58 | the invalid-mode error occurs iff the mode is unrecognised and the backend produced a document |
| `Render.RenderFailsIff` | packages/markdown-preview-plus/lib/renderer.js:12-75 | `render` rejects iff the converter fails without a document, the mode is unrecognised, or a media `src` fails to decode |
| `Render.UntouchedKeepsSanitized` | packages/markdown-preview-plus/lib/renderer.js:38-54 | saving or copying with `untouched` media yields the sanitized document, after the banner if any, before the highlighter replaces `pre` elements |
| `Render.RenderedLength` | packages/markdown-preview-plus/lib/renderer.js:31-73 | before the highlighter replaces `pre` elements, the output has the converter's elements less removed script subtrees, plus four banner elements when there is a message |
| `Render.RequestsIgnoreImages` | packages/markdown-preview-plus/lib/renderer.js:122-195 | the image pass leaves every highlighter request unchanged |
| `Render.RenderedRequests` | packages/markdown-preview-plus/lib/renderer.js:59-66 | unless native converter styles are on, one request per `pre` of the sanitized document with the grammar's default language; otherwise none |

## Left out

- The backends are function parameters: the external converter process (`renderPandoc`) and `markdownIt.render`. So is the `DOMParser` step that follows them. Their output is given as elements.
- The `async` nature of `render`, and the global configuration reads, which are a `Config` parameter.
- `Sanitizer.IsUnsafeScript`: the `type` prefix is compared ignoring ASCII case for every script. On a script inside `svg` (a foreign element) the selector's comparison is case-sensitive, so a `MATH/TEX` type there is removed by the source and kept by the model. Elements carry no namespace.
- `Render.UntouchedKeepsSanitized`, `Render.RenderedLength`: these describe the document before the highlighter's output replaces each `pre`, because that replacement is not modelled (next line).
- The `atom-highlight` call and the replacement of each `pre` by its output are not modelled. The model states the request each `pre` produces. The mapping `scopeForFenceName` from fence name to grammar scope is left out too.
- The font-family styling of `code` elements (renderer.js:171-176) is presentation only.
- Path normalisation (`path.join`, `resolve`, `relative`, `dirname`), `decodeURI`, `isFileSync` and `atom.project.relativizePath` are uninterpreted `Host` functions. The swallowed exception around the project re-rooting is not modelled: the host's join is total.
- The image watcher's version bookkeeping is the function `versionOf`. Only the order of `watch` calls is recorded.
- `Render.InvalidModeMessage`: mode names are strings. A non-string mode value, whose `JSON.stringify` form differs, is not modelled.
- The error banner's message is the `code` element's text. The `br` elements that setting `innerText` makes from line breaks are not modelled.
- `Highlight.TextContent` is an element's own text followed by its descendants' texts. Text interleaved between child elements is not ordered exactly.
- Token tags that coincide with properties of JavaScript's object prototype (such as `constructor`) are plain strings in the model.
- Also outside the model are the util.js helpers `editorForId`, `destroy`, `getStyles`, `getMarkdownPreviewCSS`, `mathJaxScript` and `mkHtml`. They use the workspace, the style manager, the file system and string templates over configuration.
- The `html`, `head` and `body` wrappers of the parsed document are implicit: elements are the body's descendants.
