# paste-markdown: HTML-with-link paste, modelled in Dafny

This project models the paste handler of `src/paste-markdown-html.ts`. When
rich content is pasted into a textarea, the handler may replace the
browser's default paste with Markdown. The model covers four parts of it:

- the fragment aligner `trimAfter`: cut the plaintext just after the first
  occurrence of a search string;
- the link formatter `linkify`: `[label](url)`;
- the transform `transform`: walk the anchors of the pasted HTML in order,
  replace each anchor's text in the remaining plaintext by its Markdown
  link, and move on past it;
- the decision logic of `onPaste`: which clipboard payloads and targets
  lead to an insertion, and of what text.

The JavaScript string primitives these rely on are modelled in module
`JsString`:

- `indexOf` finds the empty string at position 0.
- `slice` counts a negative start from the end.
- `substring` clamps its arguments and swaps them when they are reversed.
- `replace` with a string pattern replaces only the first occurrence. It
  expands the `$$`, `$&`, `` $` `` and `$'` patterns of its replacement text.
- `trim` removes the ECMAScript WhiteSpace and LineTerminator characters.

A `char` stands for one UTF-16 code unit.

Modules, one file each:

- `Wrappers` (`wrappers.dfy`): the `Option` type.
- `JsString` (`jsstring.dfy`): the string primitives.
- `Aligner` (`aligner.dfy`): `trimAfter`.
- `LinkFormat` (`linkformat.dfy`): `linkify` and a reference parser that inverts it.
- `Transformer` (`transformer.dfy`): `transform` as written, its loop, and the corrected transform.
- `PasteHandler` (`pastehandler.dfy`): the `onPaste` decision.

Three behaviours of the code are easy to miss, and the model keeps them:

- An empty search string. `trimAfter(text, '')` returns `{part: '', index: 0}`,
  because `indexOf('')` is 0. `Aligner.TrimAfter` states this.
- A not-found anchor. When an anchor's text is not in the remaining
  plaintext, the code passes the index -1 to `slice`, which keeps only the
  last character of the buffer. See "## Findings".
- `$` in the replacement. The formatter's output is inserted with
  `String.prototype.replace`, so a `$&`, `` $` ``, `$'` or `$$` in an
  anchor's URL or text is expanded rather than copied literally. The model
  keeps this behaviour (`JsString.Expand`). When the output has no `$`,
  it is inserted verbatim (`JsString.ExpandWithoutDollar`).

The HTML-walk branch of `onPaste` (lines 42-49) cannot be reached. The
guard on line 18 returns early unless the clipboard offers
`text/link-preview`, and line 34 tests exactly that again.
`PasteHandler.HtmlWalkIgnored` proves that, with the walk as a parameter of
the decision, any two walks give the same outcome, and
`PasteHandler.HtmlWalkUnreachable` proves that the outcome depends neither
on the anchors nor on the HTML beyond its being non-empty. The model of that
branch calls the transform as written, as line 48 does; the corrected
transform of "## Findings" is kept beside it and is not used by the handler.

## Model

| member | source | states |
|---|---|---|
| JsString.IndexOf | src/paste-markdown-html.ts:83 | the result is -1 exactly when the search string does not occur; otherwise the search string occurs there, and it occurs at no earlier position |
| JsString.IndexOfEmpty | src/paste-markdown-html.ts:83 | the empty search string is found at position 0 of every string |
| JsString.IndexOfExtend | src/paste-markdown-html.ts:83 | appending text after the first occurrence does not move it |
| JsString.IndexOfTruncate | src/paste-markdown-html.ts:89 | cutting the text anywhere after the first occurrence keeps that occurrence first |
| JsString.Slice | src/paste-markdown-html.ts:72 | a non-negative start drops that many characters, clamped to the length; a negative start keeps that many characters from the end; a start below minus the length keeps everything |
| JsString.Substring | src/paste-markdown-html.ts:89 | ordered in-range bounds give that slice; reversed bounds are swapped; the result is never longer than the input |
| JsString.ExpandWithoutDollar | src/paste-markdown-html.ts:71 | a replacement text without `$` is inserted verbatim |
| JsString.ReplaceFirstAtEnd | src/paste-markdown-html.ts:71 | when the first occurrence ends the string, replacing it leaves the text before it plus the expanded replacement |
| JsString.Trim | src/paste-markdown-html.ts:31 | the result is a slice of the input with only whitespace on either side; a non-empty result neither starts nor ends with whitespace; it is empty exactly when the input is all whitespace |
| JsString.TrimIdempotent | src/paste-markdown-html.ts:31 | trimming twice is trimming once |
| JsString.TrimUntouched | src/paste-markdown-html.ts:31 | a string that neither starts nor ends with whitespace is unchanged by trim |
| Aligner.TrimAfter | src/paste-markdown-html.ts:82-92 | the index is -1 exactly when the search does not occur, and then the part is empty; otherwise the part is the text up to the index, it ends with the search, there is no earlier occurrence, and an empty search gives `("", 0)` |
| Aligner.TrimAfterFound | src/paste-markdown-html.ts:80 | `trimAfter('Hello world', 'world')` is `{part: 'Hello world', index: 11}` |
| Aligner.TrimAfterNotFound | src/paste-markdown-html.ts:81 | `trimAfter('Hello world', 'bananas')` is `{part: '', index: -1}` |
| LinkFormat.LinkifyLayout | src/paste-markdown-html.ts:102-104 | the link is `[`, then the label, then `](`, then the URL, then `)`, at these exact positions, with empty segments kept |
| LinkFormat.ParseLinkSound | src/paste-markdown-html.ts:102-104 | whatever the reference parser reads back is exactly what the formatter writes for it |
| LinkFormat.LinkifyRoundTrip | src/paste-markdown-html.ts:102-104 | a link whose label holds no `]` is read back as the same label and URL |
| LinkFormat.SeparatorAfterLabel | src/paste-markdown-html.ts:103 | the first `](` in such a link is the one right after the label |
| LinkFormat.EmptyLabelExample | src/paste-markdown-html.ts:103 | an empty label still gives `[](https://x.test)` |
| Transformer.StepWhenFound | src/paste-markdown-html.ts:69-72 | when the anchor text is first found at `i`, the part pushed is the text before `i` followed by the expanded formatter output, and the buffer becomes what follows the match |
| Transformer.StepWhenNotFound | src/paste-markdown-html.ts:70-72 | when the anchor text is not found, the part pushed is empty and only the last character of the buffer remains |
| Transformer.StepShrinks | src/paste-markdown-html.ts:70-72 | one turn of the loop never lengthens the buffer, found or not |
| Transformer.StepEmptyAnchor | src/paste-markdown-html.ts:69-72 | an anchor with empty text emits the expanded formatter output at the front of the buffer and consumes nothing |
| Transformer.StepFound | src/paste-markdown-html.ts:69-72 | a buffer made of a prefix, the anchor text at its first occurrence and more text gives the rendered prefix and leaves exactly the rest |
| Transformer.TransformLoop | src/paste-markdown-html.ts:67-75 | the loop that collects parts and shrinks the buffer computes the same string as the anchor-by-anchor recursive definition |
| Transformer.TransformNoAnchors | src/paste-markdown-html.ts:74-75 | with no anchors the plaintext comes back unchanged |
| Transformer.TransformAllFound | src/paste-markdown-html.ts:61-76 | when each anchor's text is found in turn, the result is each consumed prefix followed by the formatter output in place of the anchor text, then the untouched rest of the plaintext |
| Transformer.TwoAnchorsExample | src/paste-markdown-html.ts:61-76 | `See A and B` with anchors `A` and `B` becomes `See [A](u1) and [B](u2)` |
| Transformer.NotFoundKeepsLastCharacter | src/paste-markdown-html.ts:72 | one anchor whose text is absent reduces the plaintext to its last character |
| Transformer.NotFoundExample | src/paste-markdown-html.ts:72 | an anchor `bananas` against `Hello world` gives `d` |
| Transformer.SkippingIgnoresUnfound | src/paste-markdown-html.ts:68-73 | in the corrected transform an anchor whose text is absent changes nothing |
| Transformer.SkippingNoneFound | src/paste-markdown-html.ts:68-73 | in the corrected transform, when no anchor text occurs, the plaintext comes back unchanged |
| Transformer.SkippingAllFound | src/paste-markdown-html.ts:68-73 | when every anchor is found in turn, the corrected transform agrees with the one as written |
| PasteHandler.Decide | src/paste-markdown-html.ts:13-58 | text is inserted exactly when there is clipboard data with both HTML and a link preview, the target is a textarea, the HTML is non-empty, the trimmed plaintext is non-empty and the preview's link differs from it; the inserted text is then the preview's link |
| PasteHandler.HtmlWalkUnreachable | src/paste-markdown-html.ts:18-49 | the outcome does not depend on the HTML's anchors, nor on the HTML beyond its being empty or not |
| PasteHandler.HtmlWalkIgnored | src/paste-markdown-html.ts:18-49 | with the HTML walk of lines 43-48 as a parameter, any two walks give the same outcome: what that branch computes is never used |
| PasteHandler.PreviewExample | src/paste-markdown-html.ts:13-58 | pasting `Check this out` with a link preview into a textarea inserts `[Docs](https://d.test)` |
| PasteHandler.NoPreviewExample | src/paste-markdown-html.ts:18 | without a link preview the default paste proceeds, whatever the rest of the clipboard holds |

## Left out

- `install` and `uninstall` (lines 3-9) only register and remove the event listener.
- `insertText` (line 57) lives in `src/text.ts`, which is not part of this model. The outcome `InsertText(markdown)` stands for that call.
- `stopPropagation` and `preventDefault` (lines 54-55) are folded into the `InsertText` outcome. They happen exactly when text is inserted.
- The event target is reduced to whether it is an `HTMLTextAreaElement` (line 21).
- `getData` (lines 24-26) is modelled by the strings it returns. The browser's behaviour for an absent type is not modelled.
- `JSON.parse` (line 36) is replaced by an already parsed title and URL. A parse failure, which would throw out of the handler, is not modelled. Neither are missing fields, which the template literal would render as `undefined`.
- `DOMParser` and `getElementsByTagName` (lines 44-47) are replaced by the sequence of the document's anchors. The branch is unreachable in any case.
- `element.href` (line 103) is the URL the browser resolved. The model takes the URL string as given.
- `element.textContent || ''` (line 69): a null `textContent` is not modelled. An anchor's text is always a string.
- The default `search = ''` of `trimAfter` (line 82) is not modelled, because every caller passes a value.
- The `...args` of `transform` (lines 65 and 71) are always empty and are not modelled. The formatter is a function of the anchor alone.
- Strings are sequences of `char`, each standing for one UTF-16 code unit. Strings with characters outside the Basic Multilingual Plane are outside the model: JavaScript counts such a character as two code units, while here it is one element, so lengths, `slice` and `indexOf` positions would differ. A lone surrogate code unit cannot be written as a Dafny `char` at all.

## Findings

| source | as written | input that shows it | evidently intended | confidence | as-written member | corrected member |
|---|---|---|---|---|---|---|
| src/paste-markdown-html.ts:72 | `text = text.slice(index)` runs even when `trimAfter` reported -1, and `slice(-1)` keeps only the last character of the buffer | `transform` with one anchor `bananas` on `Hello world` gives `d` | an anchor whose text is absent is skipped, and the buffer is left as it was, giving `Hello world` | not executed | Transformer.NotFoundExample | Transformer.SkippingNoneFound |
