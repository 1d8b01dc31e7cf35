# MarkForge core, modelled in Dafny

MarkForge is an Electron Markdown editor. Its editor window has two panes:
- the Markdown source, on the left;
- a live preview, on the right.

The preview is built in three steps:
1. `$$…$$` and `$…$` LaTeX spans are replaced by KaTeX output.
2. The result is parsed by `marked`. Its code renderers send ```` ```math ```` fences and code spans of the form `$…$` to KaTeX as well. Step 1 has already run over the raw source, code included, so a backticked `$…$` is usually typeset before `marked` sees it.
3. The HTML is cleaned by a chain of fourteen regular-expression deletion passes.

The window also shows:
- the word count of the source;
- a title made of the file name and a `*` when the document has unsaved changes.

Settings live in a small JSON-backed key/value store.

The project has six modules:

| file | module | what it models |
|---|---|---|
| `text.dfy` | `Text` | The regular-expression building blocks. `\s` is the full JavaScript whitespace set, `\w` is ASCII, and `/i` is ASCII case folding. Also leftmost search, `trim`, and subsequences. |
| `sanitizer.dfy` | `Sanitizer` | `sanitizeHtml`. Each pass is a `Rule`. `MatchLen` gives the exact length of the match that JavaScript's backtracking engine picks at a position. `Scan` has the semantics of `replace(/…/gi, '')`: take the leftmost match, delete it, resume after it, never re-scan. |
| `latex.dfy` | `Latex` | `processLatex`, `renderer.codespan` and `renderer.code`. KaTeX is a parameter that may throw; highlight.js is a parameter too. |
| `words.dfy` | `Words` | The word-count expression, checked against an independent count of maximal non-whitespace runs. |
| `session.dfy` | `Session` | The renderer's document state as the class `DocumentSession`. Each event handler is a method. The outcomes of the dialog and of the write are parameters. |
| `config.dfy` | `Config` | `SimpleStore` as a class. The file contents are a ghost field. Whether a read or write succeeds is a parameter. |

## Model

| member | source | states |
|---|---|---|
| Sanitizer.FirstCloser | src/renderer.js:29 | Finds the nearest closing tag at or after a position. If there is none, no position has a closer. |
| Sanitizer.ElementMatch | src/renderer.js:29-58 | `<script`, `<iframe`, `<object`/`<embed` or `<style` matches only when it is followed by a `\b` boundary and a closing tag exists. The match is longer than the opener. |
| Sanitizer.RunAtIsRun | src/renderer.js:32-33 | The handler patterns' `\s*`, `\w+`, `[^"']*` and `[^>\s]*` runs, counted in place from a position, have the length of the greedy run on the suffix from there. |
| Sanitizer.HandlerValueStart | src/renderer.js:32-33 | When the head `on\w+\s*=\s*` is found at a position, the name is `on` (any case) followed by at least one word character, then whitespace, then `=`. The value starts where the whitespace after `=` ends. |
| Sanitizer.HandlerHeadFound | src/renderer.js:32-33 | Any such head at a position is the one found, with the same value start. So a head is reported exactly when the text holds one. |
| Sanitizer.QuotedValue | src/renderer.js:32 | `["'][^"']*["']` matches exactly when the value opens with a quote and another quote follows. The match ends just after the first such quote, with no quote in between. |
| Sanitizer.HandlerBody | src/renderer.js:32-33 | Quoted form: the value opens with a quote and ends just after the next quote of either kind, with no quote in between. It fails exactly when the value does not open with a quote or no closing quote follows. Unquoted form: the value is the longest run of characters other than `>` and whitespace, so it ends at `>`, at whitespace or at the end of the text. It succeeds whenever a head is found. |
| Sanitizer.HandlerMatch | src/renderer.js:32-33 | A handler match is non-empty and lies within the text. It is a whitespace prefix followed by a handler body, and it ends where that body ends. |
| Sanitizer.AssignMatch | src/renderer.js:52-62 | A `name\s*=\s*["']value` match is longer than the value and ends with it, ignoring ASCII case. |
| Sanitizer.AssignMatchHead | src/renderer.js:52-62 | A match is an assignment head: the name in any case, whitespace, `=`, whitespace, a quote of either kind, then the value in any case. The match ends right after the value. |
| Sanitizer.AssignHeadFound | src/renderer.js:52-62 | Any assignment head at the start of the text is matched and ends right after the value. With AssignMatchHead, a match occurs exactly when the text starts with a head. |
| Sanitizer.UrlAssign | src/renderer.js:61-62 | An `href`/`src` match is longer than the value and ends with it. |
| Sanitizer.UrlAssignHead | src/renderer.js:61-62 | An `href`/`src` match is an `href` head or a `src` head and ends right after the value. |
| Sanitizer.UrlAssignFound | src/renderer.js:61-62 | An `href` head or a `src` head is always matched, so the alternation matches exactly when either head is present. |
| Sanitizer.UrlAlternativesExclusive | src/renderer.js:61-62 | At most one of `href` and `src` matches, so trying `href` first does not change the result. |
| Sanitizer.UrlAttrMatch | src/renderer.js:61-62 | An `href`/`src` match, with the whitespace before it, is non-empty and lies within the text. |
| Sanitizer.UrlAttrHead | src/renderer.js:61-62 | A URL-attribute match is a run of whitespace, then an `href` or `src` head, and ends right after the value. |
| Sanitizer.UrlAttrFound | src/renderer.js:61-62 | Whitespace followed by an `href` or `src` head is always matched, whitespace included. With UrlAttrHead, this makes the pass match exactly on such text. |
| Sanitizer.UrlAttrAfterSpace | src/renderer.js:61-62 | The leading `\s*` takes all the whitespace before an `href`/`src` match, and the match then continues as the alternation does. |
| Sanitizer.UrlAttrEndsWithValue | src/renderer.js:61-62 | A URL-attribute match ends with the scheme it looks for, `javascript:` or `data:text/html`, in any case. |
| Sanitizer.TagWithAttrMatch | src/renderer.js:52-55 | A `<meta` or `<link` match starts with the opener. It ends just past the first `>` after the opener, and the attribute pattern occurs between the opener and that `>`. |
| Sanitizer.TagWithAttrFound | src/renderer.js:52-55 | Given the first `>` after the opener, the rule matches exactly when the attribute occurs before that `>`. |
| Sanitizer.TagWithoutGt | src/renderer.js:52-55 | With no `>` after the opener, there is no match. |
| Sanitizer.MatchLen | src/renderer.js:29-62 | Every pass's match is non-empty and lies within the text. |
| Sanitizer.Pattern | src/renderer.js:29-62 | Every pass consumes at least one character, so the left-to-right scan terminates. |
| Sanitizer.ScanDeletes | src/renderer.js:29 | One `replace(…, '')` pass yields a subsequence of its input. |
| Sanitizer.ApplyAllDeletes | src/renderer.js:27-65 | Any chain of passes yields a subsequence of its input. |
| Sanitizer.SanitizeOnlyDeletes | src/renderer.js:27-65 | `sanitizeHtml` never adds characters. Its output is a subsequence of the input and no longer. |
| Sanitizer.ScanShorter | src/renderer.js:29 | One pass never lengthens the text. |
| Sanitizer.MatchShortens | src/renderer.js:29 | A pass that matches anywhere strictly shortens the text. |
| Sanitizer.NoMatchFixed | src/renderer.js:29 | A pass with no match anywhere returns its input. |
| Sanitizer.ScanUnchangedIff | src/renderer.js:29 | A pass returns its input exactly when it matches at no position. |
| Sanitizer.ScanKeepsPrefix | src/renderer.js:29 | A prefix where no match starts is copied unchanged, and the scan continues on the rest. |
| Sanitizer.ElementNeedsCloser | src/renderer.js:29-58 | An element pass matches only when a closing tag follows. |
| Sanitizer.CloserAfter | src/renderer.js:29-58 | An element match at a position needs a closing tag at or after that position. |
| Sanitizer.UnclosedElementKept | src/renderer.js:29-58 | An element pass leaves the text unchanged when its closing tag occurs nowhere in it, in any case. |
| Sanitizer.ScanKeepsSuffix | src/renderer.js:29-62 | A pass keeps the text from position k on as the end of its output when two things hold: no match starting before k reaches past k, and no match starts at or after k. |
| Sanitizer.MatchStopsBefore | src/renderer.js:29-58 | Take a `<` that no closing tag follows. An element match that starts before it ends at or before it, because only a closer's first character is `<`. |
| Sanitizer.OpenerWithoutCloserKept | src/renderer.js:29-58 | Local rule: an opener (any `<`) with no closing tag at or after it is kept. The text from it to the end is the end of the pass's output. |
| Sanitizer.ObjectClosedByEmbed | src/renderer.js:46 | `<object></embed>` is removed whole: either closer ends either opener. |
| Sanitizer.HandlerTakesLeadingSpace | src/renderer.js:32-33 | Whitespace directly before a handler is deleted with it: when a handler body follows k whitespace characters, the match at the start covers them and ends where the body ends. |
| Sanitizer.UrlAttrNeedsTrigger | src/renderer.js:61-62 | A URL-attribute match contains `javascript:` or `data:`. |
| Sanitizer.MatchNeedsTrigger | src/renderer.js:29-62 | Every match of every pass contains `<`, `on`, `javascript:` or `data:` (any case). |
| Sanitizer.InertHasNoMatch | src/renderer.js:29-62 | In text free of those triggers, no pass matches anywhere. |
| Sanitizer.ApplyAllInert | src/renderer.js:27-65 | Any chain of passes leaves trigger-free text unchanged. |
| Sanitizer.SanitizeInert | src/renderer.js:27-65 | Text with no `<` and no `on`, `javascript:` or `data:` in any case is returned unchanged. |
| Sanitizer.MatchNeedsKey | src/renderer.js:29-62 | Each pass needs a key character to match: `<`, `=`, `j`/`J` or `d`/`D`. |
| Sanitizer.KeyAbsentFixed | src/renderer.js:29-62 | A pass whose key characters are absent from the text leaves it unchanged. |
| Sanitizer.ApplyAllKeyAbsent | src/renderer.js:27-65 | Text lacking every pass's key characters is a fixed point of the chain. |
| Sanitizer.ApplyAllSplit | src/renderer.js:27-65 | The pass chain splits at any point into the first passes, then the rest. |
| Sanitizer.ResidualJavascript | src/renderer.js:36 | `sanitizeHtml("javajavascript:script:")` is `"javascript:"`, and sanitizing that again gives `""`. So neither "no `javascript:` remains" nor idempotence holds. |
| Sanitizer.SanitizeWitness | src/renderer.js:36 | The single-pass deletion re-forms `javascript:` from `java` + `javascript:script:`. |
| Sanitizer.SanitizeOnlyJavascript | src/renderer.js:27-65 | On text without `<`, `=`, `d` and `D`, only the `javascript:` pass acts. |
| Sanitizer.SanitizeJavascript | src/renderer.js:36 | `javascript:` alone is deleted entirely. |
| Sanitizer.JavascriptPassOnWitness | src/renderer.js:36 | The `javascript:` pass on the witness leaves `java` + `script:`. |
| Sanitizer.JavascriptPassOnTail | src/renderer.js:36 | The pass resumes after a match and does not re-scan. |
| Latex.ErrorMarkupDistinct | src/renderer.js:140-155 | The KaTeX error markup is a `div` in display mode and a `span` inline, and it carries the message unchanged. Two error markups are equal exactly when mode and message are. |
| Latex.SpanMatch | src/renderer.js:133-146 | A display match is `$$body$$`, where the body may be empty. It closes at the first `$$` after the opener, as the lazy `*?` requires. An inline match is `$body$` with a non-empty body free of `$` and newlines, so it closes at the next `$`. |
| Latex.DisplaySpanFound | src/renderer.js:133 | A display span is found whenever `$$` opens the text and another `$$` follows. |
| Latex.InlineSpanFound | src/renderer.js:146 | An inline span is found whenever `$` opens the text and a later `$` follows. At least one character must lie between them, with no `$` or newline. The span closes at that `$`. |
| Latex.NoSpanWithoutDollar | src/renderer.js:133-146 | No span starts at a character other than `$`. |
| Latex.ScanKeepsPrefix | src/renderer.js:133-156 | A prefix where no span starts is kept verbatim. |
| Latex.NoSpanFixed | src/renderer.js:133-156 | A text with no span anywhere is unchanged by a pass. |
| Latex.PrefixWithoutDollar | src/renderer.js:133-156 | A `$`-free prefix is kept and does not affect the rest. |
| Latex.SpanNeedsTwoDollars | src/renderer.js:133-146 | A span needs two `$` at distinct positions; a display span needs `$$` at its start. |
| Latex.OneDollarUnchanged | src/renderer.js:133-156 | A text with at most one `$` is unchanged by either pass. |
| Latex.LatexFreeUnchanged | src/renderer.js:131-159 | `processLatex` leaves text with at most one `$` unchanged. |
| Latex.DollarAmountUnchanged | src/renderer.js:131-159 | `processLatex("$100")` is `"$100"`. |
| Latex.DisplaySpanAt | src/renderer.js:133 | `$$b$$` with a `$`-free body matches with exactly body `b`. |
| Latex.DisplaySpanRendered | src/renderer.js:133-143 | The `$$b$$` span after a `$`-free prefix is replaced by the typeset of `trim(b)` in display mode, including the empty `$$$$`. |
| Latex.InlineSpanAt | src/renderer.js:146 | `$b$` with a non-empty, `$`-free, newline-free body matches with body `b`. |
| Latex.InlineSpanRendered | src/renderer.js:146-156 | Such a span is replaced by the inline typeset of `trim(b)`. |
| Latex.InlineNewlineNoSpan | src/renderer.js:146 | No inline span crosses a newline. |
| Latex.InlineStopsAtNewline | src/renderer.js:146-156 | The inline pass keeps a `$…$` whose body holds a newline. |
| Latex.UnclosedDisplayKept | src/renderer.js:133-143 | An unclosed `$$` is kept verbatim. |
| Latex.NoDoubleDollarUnchanged | src/renderer.js:133-143 | Text with no `$$` passes the display pass unchanged. |
| Latex.CodespanAgreesWithInline | src/renderer.js:93-109 | Take a non-empty one-line `b` that holds no `$` and needs no trimming. `renderer.codespan` applied to `$b$` equals `processLatex` applied to the text `$b$`; both are KaTeX's inline output for `b`. In the editor a backticked `$b$` never reaches `codespan` (Latex.BacktickedMathTypesetFirst). |
| Latex.BacktickedMathTypesetFirst | src/renderer.js:131-175 | `processLatex` runs over the raw Markdown before `marked.parse`, inside code spans too. So `` `$b$` `` becomes a backtick, the inline typeset of `trim(b)`, and a backtick. |
| Latex.CodespanPlainInjective | src/renderer.js:93-109 | A code span that is not treated as math becomes `<code>…</code>` whatever KaTeX does. Two such spans give the same markup exactly when their code is equal. |
| Latex.DisplayKeepsSingles | src/renderer.js:133-143 | `$b$` holds no display span. |
| Latex.MathFenceAgreesWithDisplay | src/renderer.js:71-82 | Take a `b` that holds no `$` and needs no trimming, where KaTeX's display output for `b` holds no `$`. Then `renderer.code` applied to a `math` fence holding `b` equals `processLatex` applied to the text `$$b$$`. This compares against the text before Markdown parsing. |
| Latex.PlainCodeIgnoresKatex | src/renderer.js:84-89 | Blocks in other languages never reach KaTeX. They become `<pre><code class="hljs …">…</code></pre>`. |
| Latex.MathCodeIgnoresHighlighter | src/renderer.js:72-82 | `math` and `latex` blocks never reach highlight.js. |
| Text.Trim | src/renderer.js:182 | `trim` removes exactly the leading and trailing whitespace: the result is a slice of the input that neither starts nor ends with whitespace, and everything cut off is whitespace. |
| Words.FirstSpace | src/renderer.js:182 | Finds the first `\s` at or after a position, with nothing but non-whitespace before it. |
| Words.Split | src/renderer.js:182 | `split(/\s+/)` has at least one piece. No piece holds whitespace. On trimmed text no piece is empty. |
| Words.SplitCountsStarts | src/renderer.js:182 | On trimmed text, the number of pieces is the number of word beginnings. |
| Words.WordCountIsRuns | src/renderer.js:182 | The displayed count equals the number of maximal non-whitespace runs. |
| Words.WordCountZeroIff | src/renderer.js:182 | The count is zero exactly when the text is all whitespace. |
| Words.WordCountExample | src/renderer.js:182 | `"a b  c"` counts 3 words. |
| Session.BaseName | src/renderer.js:194 | The base name holds no `/`, is a suffix of the path, and is preceded by `/` when shorter than the path. |
| Session.TitleShowsFlag | src/renderer.js:193-197 | For a given path, two titles are equal exactly when the modified flags are. |
| Session.UntitledTitle | src/renderer.js:193-197 | Without a file the title is `Untitled`, followed by `*` exactly when modified. |
| Session.TitleParts | src/renderer.js:193-197 | The title is the name, then `*` exactly when modified. The name is `Untitled` without a path and `/`-free with one. |
| Session.PreviewOnlyDeletes | src/renderer.js:170-179 | The preview is a subsequence of the Markdown renderer's output. |
| Session.SaveAsTarget | src/renderer.js:252 | Save As adopts only a chosen, non-empty path. |
| Session.SaveTarget | src/renderer.js:220-223 | Save writes to the current path when there is one. |
| Session.DocumentSession.constructor | src/renderer.js:23-24 | The session starts with no path, not modified, and with the initial editor text. |
| Session.DocumentSession.Start | src/renderer.js:772-880 | Start-up previews, loads the welcome text into an empty editor, previews again, and ends modified with a consistent window. |
| Session.DocumentSession.UpdateTitle | src/renderer.js:193-197 | The title becomes `Title(path, modified)`. |
| Session.DocumentSession.RefreshPreview | src/renderer.js:170-183 | Sets the preview to the pipeline on the text, and the word count to `WordCount(text)`. |
| Session.DocumentSession.UpdatePreview | src/renderer.js:170-190 | Sets the preview and the count. Always leaves the flag set, re-titling only when it was clear. Keeps the window consistent. |
| Session.DocumentSession.Input | src/renderer.js:747 | Typing changes the text, marks the document modified and keeps the window consistent. |
| Session.DocumentSession.Replace | src/renderer.js:200-211 | As written: the steps `newDocument` and `file-opened` share. The text and path are replaced, and the document ends modified with a starred title. |
| Session.DocumentSession.NewDocument | src/renderer.js:200-211 | As written: empty text, no path, 0 words, and the document ends modified, titled `Untitled*`. |
| Session.DocumentSession.FileOpened | src/renderer.js:759-765 | As written: the file's path and content, and the document ends modified. |
| Session.DocumentSession.SaveFile | src/renderer.js:220-238 | Without a path it delegates to Save As. Otherwise one write request holds the path and text. Only `success` clears the flag and re-titles. A failure or a throw leaves the flag and the title. |
| Session.DocumentSession.SaveFileAs | src/renderer.js:241-259 | A cancel, an empty path or a throw changes nothing. A chosen path becomes current and is saved as above, even if the write then fails. |
| Session.DocumentSession.ReplaceClean | src/renderer.js:200-211 | Corrected: the text and path are replaced, and the document is unmodified with an unstarred title. |
| Session.DocumentSession.NewDocumentClean | src/renderer.js:200-211 | Corrected: a new document is unmodified, titled `Untitled`. |
| Session.DocumentSession.FileOpenedClean | src/renderer.js:759-765 | Corrected: an opened file is unmodified. |
| Config.LookupDefined | src/config.js:30-32 | `get` never returns `undefined`. For an absent key it returns the default, and a missing default is `null`. This covers every key after `clear`. |
| Config.LookupAfterSet | src/config.js:34-37 | After `set(k, v)`: `get(k)` returns `v` when `v` is defined, and the default when `v` is undefined. Other keys are unchanged. |
| Config.LastSetWins | src/config.js:34-37 | Of two sets of the same key, the last wins. |
| Config.LookupAfterDelete | src/config.js:39-42 | After `delete(k)`, `get(k)` returns the default and other keys are unchanged. |
| Config.DeleteReadsAsUndefined | src/config.js:30-42 | Deleting a key and setting it to `undefined` read the same. |
| Config.ReloadAgrees | src/config.js:11-32 | Loading a successfully saved file answers every `get` as the store did. |
| Config.SaveAfterLoad | src/config.js:11-28 | Saving freshly loaded data writes the same object back. |
| Config.SimpleStore.constructor | src/config.js:6-9 | The data is what `load` gives for the file. |
| Config.SimpleStore.Save | src/config.js:22-28 | A successful write persists the data without its undefined keys. A failed write leaves the file as it was. |
| Config.SimpleStore.Get | src/config.js:30-32 | Returns `Lookup`, which is never `undefined`. |
| Config.SimpleStore.Set | src/config.js:34-37 | The data gains the entry even if the write fails. A successful write persists the new data. |
| Config.SimpleStore.Delete | src/config.js:39-42 | The key leaves the data. A successful write persists the new data. |
| Config.SimpleStore.Clear | src/config.js:44-47 | The data becomes empty. A successful write persists `{}`. |

## Left out

- src/main.js is not part of this model: window and menu construction, native dialogs, and the IPC handlers that only forward to the file system.
- `marked.parse`, KaTeX typesetting and highlight.js are parameters with no specified output. Only how the editor calls them and wraps their results is modelled.
- The `highlight` option passed to `marked.setOptions` (src/renderer.js:112-128) is not modelled: `renderer.code` calls highlight.js itself.
- HTML export and PDF export are not modelled: templates, temporary files, a headless browser, and the file system.
- Split.js layout, DOM lookups and event-listener registration are not modelled. The "N words" label is modelled as the number N.
- Asynchronous interleaving is not modelled. Each handler runs to completion as one step, including the awaits in `saveFile`/`saveFileAs`.
- The dialog's title, filters and default path are not modelled: only the outcome is.
- The renderer's `console.error` logging is not modelled.
- Session.DocumentSession.constructor: the title and preview the page shows before start-up come from static HTML and are not modelled.
- Session.BaseName: only `/` separates path components. Node's platform rules and trailing-slash handling are not modelled.
- Config.Load: a file that parses to a non-object JSON value is not modelled. Settings values are flat (no nested objects, arrays or floating point), and prototype-inherited keys such as `toString` are not modelled.
- Config.SimpleStore.Save: a failed write is modelled as leaving the file unchanged. A partial write is not modelled.
- The configuration file name under the home directory is not modelled.
- How `marked` recognises code spans and fences is not modelled, so the model does not say which text reaches `renderer.codespan` or `renderer.code`. `processLatex` typesets `$…$` inside inline code and inside fences of any language before `marked` runs (Latex.BacktickedMathTypesetFirst).
- AssignMatch: its own ensures states only the bounds and that a match ends with the value. The shape of a match is stated by AssignMatchHead and its converse by AssignHeadFound, because the same shape as an existential in the function's ensures made the solver run out of resource on the passes that use it.
- UrlAssign: its own ensures states only the bounds and the value suffix. The shape and its converse are stated by UrlAssignHead and UrlAssignFound, for the same reason.
- UrlAttrMatch: its own ensures states only the bounds. The shape and its converse are stated by UrlAttrHead and UrlAttrFound, for the same reason.
- Regular expressions use ASCII case folding and a fixed `\s` set, as non-Unicode JavaScript regular expressions do. Unicode-mode semantics are not modelled.

## Findings

| source | as written | input that shows it | evidently intended | confidence | as-written member | corrected member |
|---|---|---|---|---|---|---|
| src/renderer.js:200-211 | `newDocument` clears the modified flag, then calls `updatePreview`, which always sets the flag again. | A new document: the title reads `Untitled*`. | A new, empty document is unmodified, titled `Untitled`. | high (not executed) | Session.DocumentSession.NewDocument | Session.DocumentSession.NewDocumentClean |
| src/renderer.js:759-765 | The `file-opened` handler clears the flag before `updatePreview`, which sets it again. | Opening any file: the title gains a `*`. | A freshly opened file is unmodified. | high (not executed) | Session.DocumentSession.FileOpened | Session.DocumentSession.FileOpenedClean |

The intent is visible in the code itself. Lines 208 and 762 of src/renderer.js assign `isDocumentModified = false` and then call `updatePreview()`. That call sets the flag to `true` again (lines 186-189), so the assignment has no lasting effect. The line 210 and 764 calls to `updateTitle()` then show a `*`. The model follows the code in `NewDocument`/`FileOpened`, which share the steps of `Replace`. It proves the intended behaviour of `NewDocumentClean`/`FileOpenedClean`, which share `ReplaceClean`.

Three other behaviours of the code may surprise a reader. The model follows the code in each:
- an empty display span `$$$$` is typeset (`Latex.DisplaySpanRendered`);
- `$…$` inside inline code is typeset by `processLatex` before the Markdown parser runs, so `renderer.codespan` rarely sees it (`Latex.BacktickedMathTypesetFirst`);
- after a Save As whose write fails, the new path is kept but the title still shows the old name (`Session.DocumentSession.SaveFileAs`).
