# gitbook-to-wiki in Dafny

A model of the converter that turns a GitBook book into a GitHub wiki
(`main.go`). The model covers the document pipeline that rewrites one Markdown
file, line by line:

- **path resolution** (`resolvePath`, `resolveLink`): the output file of a book
  file, and the wiki page token or absolute asset link a Markdown link turns
  into;
- **the line reader** (`parser.readLine`, `parser.skipNextEmptyLine`) over a
  `bufio.Reader` with its 4096-byte buffer, including lines longer than the
  buffer and `"\r\n"` endings;
- **the three stateless replacers** (`unescapeParens` with `wrapRegex` and
  `wrap`, `unescapePageRefs`, `unescapeLinks`). Each has a dedicated matcher for
  its regular expression, with Go's leftmost-first, lazy-group semantics. Each
  match is replaced at the first occurrence of its text in the result built so
  far, as `bytes.Replace(result, old, new, 1)` does;
- **the table-of-contents replacer** `tocEntry`. It reads the line last written
  and, through its deferred `skipNextEmptyLine`, moves the shared reader;
- **`parse`**: the read loop with its fenced-code state. Every other line goes
  through the ordered replacer chain; the loop handles the "not responsible",
  "skip line" and error outcomes, and puts a blank line between consecutive
  `>` lines.

Bytes are Dafny `char`s, one per byte, so a document is a `string`. A document
is the byte string `data` followed by the error `tail` (`EOF` or `Failed`) that
the underlying reader reports once every byte has been delivered.

Modules, in dependency order:

| file | module | contents |
|---|---|---|
| text.dfy | Text | `bytes` helpers: search, first-occurrence replacement, `TrimSpace`, `Title`, carriage-return stripping |
| paths.dfy | Paths | `path.Dir`/`Base`/`Join` for clean relative paths, `ResolvePath`, `ResolveLink` |
| path_examples.dfy | PathExamples | families of paths and the cases of `TestResolvePathLink` |
| patterns.dfy | Patterns | the three matchers, `FindAll` (`FindAllSubmatch(s, -1)`) and its leftmost property |
| layout.dfy | Layout | where a delimited group or a link sits in a text, and how that carries over to a longer text |
| rewriters.dfy | Rewriters | the replacers' outcome type, `WrapRegex`, `UnescapeParens`, `UnescapePageRefs`, `UnescapeLinks` |
| rewriter_props.dfy | RewriterProperties | what the replacers do to lines of given shapes |
| reader.dfy | LineReader | `bufio.Reader.ReadLine` fragments, `NextLine`, the `Parser` class |
| toc.dfy | Toc | `TocRewrite`, `TocPos`, the `TocEntry` method and the sidebar lemmas |
| pipeline.dfy | Pipeline | replacer chain, fence copying, the `Writer` class, `Parse` and its specification `Render` |
| pipeline_props.dfy | PipelineProperties | what `parse` writes for fences, skipped, failing and quoted lines, and whole documents |
| corrections.dfy | Corrections | the intended behaviour, as the code's comments describe it, where the code differs: `readLine` keeping an unterminated last line, `skipNextEmptyLine` reading away only a blank line, `tocEntry` dropping blank lines, `unescapeLinks` rewriting within each link |
| intended.dfy | Intended | `parse` built from those corrections on the same `Render`, and `parse` reporting read errors |
| sidebar.dfy | Sidebar | the sidebar example "## S", a blank line, "* [T](p.md)", rendered whole as written and as intended |

How `parse` is specified. `Pipeline.Render` is a recursive function over the
reader position. It describes the bytes the loop writes and whether the loop
ends without an error. It is parametric in a line reader `read` (what
`readLine` returns at each position) and a replacer step `step` (what the
replacer chain returns for a line). `Pipeline.Document` instantiates it with
`Reads(data, tail)`, which is `NextLine` with the default buffer size, and
`Steps(Replacers(filename, cfg), data, tail)`, which is `Chain`. The method
`Parse` is proved to write exactly `Render(...).out` and to return
`Render(...).ok`. The lemmas of `PipelineProperties` are stated about `Render`
for any reader and step that behave as described, and then about `Document`.

## Model

| member | source | states |
|---|---|---|
| Text.IndexFrom | main.go:412 | the position `bytes.Replace` edits: the first occurrence of the pattern at or after `from`, no occurrence before it, and None only when there is none at all |
| Text.LastIndexOf | main.go:400 | `bytes.LastIndex` of one byte: the byte is there and not after, or absent everywhere |
| Text.ReplaceFirstAfter | main.go:412 | when the text before the pattern lacks its first byte, the first replacement edits exactly that occurrence |
| Text.ReplaceFirstPrefix | main.go:441 | a prefix without the pattern's first byte is kept by a first-occurrence replacement |
| Text.IndexFromPrefix | main.go:412 | the search in `a + t` is the search in `t` shifted by the length of `a` when `a` cannot hold the pattern |
| Text.TrimLeft | main.go:476 | only leading white space is removed, and the result does not start with white space |
| Text.TrimRight | main.go:476 | only trailing white space is removed, and the result does not end with white space |
| Text.TrimSpaceAround | main.go:476 | `bytes.TrimSpace` of white space + a trimmed core + white space is the core |
| Text.TitleAfter | main.go:405 | `bytes.Title` on ASCII: same length, and a byte is upper-cased exactly when a separator precedes it |
| Text.StripCRAppend | main.go:343 | dropping a final '\r' only looks at the last part of a line |
| Paths.Base | main.go:282 | `path.Base` never contains a slash |
| Paths.ResolvePath | main.go:273-278 | with `keepLinks` set the name is returned as it is |
| Paths.ResolveLink | main.go:315-323 | with `keepLinks` set the name is returned; a path resolved into `_assets` becomes `wikiRepo + "/" + path` |
| Paths.SpecialPagesRenamedInPlace | main.go:287-291 | README.md becomes Home.md and SUMMARY.md becomes _Sidebar.md, in the same directory, once "../" is deleted |
| Paths.AssetsRelocated | main.go:293-297 | a name under `.gitbook/assets` has that folder replaced by `_assets` (and every further occurrence too) |
| Paths.FlattenedIntoOwnDirectory | main.go:299-309 | any other page stays in its directory, named by the directory with '/' turned into '-', a '-', and its base; a root page keeps its name |
| Paths.RootPageUnchanged | main.go:279-309 | a root-level page other than README.md and SUMMARY.md resolves to itself |
| Paths.PageLinkNamesOutputFile | main.go:325-326 | the page token plus ".md" is the output file's base, and the token has no slash |
| Paths.HyphenatedHasNoSlash | main.go:308 | the hyphenated directory name has no slash left |
| Paths.ReplaceAllRemoves | main.go:308 | `strings.ReplaceAll(dir, "/", "-")` leaves no '/' |
| Paths.JoinSplits | main.go:281-282 | `path.Dir` and `path.Base` take a join of a directory and a base apart again |
| PathExamples.PageInDirectory | main.go:299-309 | `d/stem.md` becomes `d/d-stem.md` with token `d-stem` |
| PathExamples.PageUnderParent | main.go:279 | a leading "../" is deleted first: `../d/stem.md` resolves as `d/stem.md` |
| PathExamples.NestedPage | main.go:299-309 | `d1/d2/stem.md` becomes `d1/d2/d1-d2-stem.md` with token `d1-d2-stem`, for any dot-free, slash-free names (`d1` not starting with `_`, `stem` not README or SUMMARY) |
| PathExamples.FlatteningCanCollide | main.go:304-309 | `a-b/c.md` and `a/b-c.md` get the same page token |
| PathExamples.AssetUnderParent | main.go:293-297 | `../.gitbook/assets/b` resolves to `_assets/b` for any slash-free file name `b` other than README.md and SUMMARY.md |
| PathExamples.RelativeCase | main_test.go:38 | `relative.md` gives `relative.md` and `relative` |
| PathExamples.ResponsesCase | main_test.go:39 | `responses/json.md` gives `responses/responses-json.md` and `responses-json` |
| PathExamples.NestedCase | main_test.go:40 | `responses/sub/other.md` gives `responses/sub/responses-sub-other.md` and `responses-sub-other` |
| PathExamples.ParentCases | main_test.go:41-42 | `../view/view.md` gives `view/view-view.md` and `view-view`; `../dependency-injection/inputs.md` gives `dependency-injection/dependency-injection-inputs.md` and `dependency-injection-inputs` |
| PathExamples.AssetCase | main_test.go:43 | `../.gitbook/assets/image.png` gives `_assets/image.png` and `/kataras/iris/wiki/_assets/image.png` |
| PathExamples.AssetLinkedAbsolutely | main.go:321-323 | a name resolved into `_assets` links to that path under the wiki repository |
| Patterns.DelimitedAtSpec | main.go:382 | a delimited match at `i` ends at the first closing delimiter after the opening one on the same line, and there is none when no closing delimiter follows on that line |
| Patterns.LinkFromSome | main.go:418 | a link match has the shortest title whose "](" is followed by a run of non-parentheses closed by ')' |
| Patterns.LinkFromFirst | main.go:418 | no shorter title gives a link |
| Patterns.LinkFromNone | main.go:418 | no match means no title end gives a link |
| Patterns.FindAll | main.go:394 | the matches lie in the text, each after `from`, in order and without overlap: each starts no earlier than the one before it ends |
| Patterns.FindAllMatches | main.go:394 | every element of the list is the match of the pattern at its own start |
| Patterns.FindAllLeftmost | main.go:432 | the list is the leftmost-first sequence: no match starts before each element or in a gap, and none after the last |
| Patterns.FindAllEmpty | main.go:535 | no match at all exactly when the list is empty |
| Patterns.FindAllSkip | main.go:535 | stretches without a match do not change the list |
| Patterns.MatchStartsWithLead | main.go:382-418 | every match starts with the pattern's first byte |
| Layout.EnclosedMatch | main.go:382-388 | `open x close` with `x` on one line and free of `close`'s first byte is the delimited match at its position |
| Layout.LinkEnclosedMatch | main.go:418 | `[t](u)` with a plain title and target is the link match at its position |
| Layout.LinkEnclosedTexts | main.go:429-433 | group 0 of that match is the link text, group 1 the title and group 2 the target |
| Rewriters.Wrap | main.go:544-546 | the result starts with `start`, ends with `end`, and holds `src` between them |
| Rewriters.WrapEdits | main.go:535-539 | one edit per match: its text and its first group wrapped |
| Rewriters.WrapRegex | main.go:532-542 | the result is the source with each edit applied in turn to the first occurrence in the result so far |
| Rewriters.UnescapeParens | main.go:384-386 | never fails; returns the wrapped line |
| Rewriters.RefEdits | main.go:394-412 | one edit per page reference: its text and the quoted link |
| Rewriters.UnescapePageRefs | main.go:390-416 | never fails; returns the line with every reference edited |
| Rewriters.ReplaceRefs | main.go:394-413 | the loop applies the edits in order, each at the first occurrence in the result so far |
| Rewriters.UnescapedLinks | main.go:420-468 | only succeeds or fails; with `keepLinks` set the line is returned |
| Rewriters.UnescapeLinks | main.go:420-468 | the loop skips http targets, replaces asset targets and page links, and fails at the first page link without a title |
| RewriterProperties.OnlyMatch | main.go:394 | a single match with no lead byte elsewhere is the whole match list |
| RewriterProperties.TwoMatches | main.go:535 | two matches with no lead byte around them are the whole match list |
| RewriterProperties.NoBackslashUnchanged | main.go:384-386 | a line without '\' is unchanged |
| RewriterProperties.OneEscapedGroup | main.go:382-386 | `a \(x\) b` becomes `a (x) b` |
| RewriterProperties.OneEscapedGroupTwice | main.go:382-386 | a second pass over `a (x) b`, the first pass's output, changes nothing |
| RewriterProperties.NestedEscapesTwoPasses | main.go:382-386 | the lazy group stops at the first `\)`: one pass turns `\(\(x\)\)` into `(\(x)\)`, which still holds an escaped pair, and a second pass turns that into `((x))` |
| RewriterProperties.TwoEscapedGroups | main_test.go:20-30 | `a \(x\) c \(y\) b` becomes `a (x) c (y) b`, the shape of `TestWrapRegex` |
| RewriterProperties.TwoWrapped | main.go:532-542 | two delimited groups are each wrapped in place when nothing around them holds the lead byte |
| RewriterProperties.NoBraceUnchanged | main.go:390-416 | a line without '{' is unchanged |
| RewriterProperties.OnePageRef | main.go:394-412 | `{% page-ref page="p" %}` becomes `> Reference: [T](p)` |
| RewriterProperties.RefTitleBase | main.go:400-405 | the title is the part after the last '/', without ".md", capitalised |
| RewriterProperties.RefTitleNoSlash | main.go:400-405 | a target without '/' is its own title, without ".md", capitalised |
| RewriterProperties.RefTitleTrailingSlash | main.go:400 | a target ending in '/' keeps its whole text for the title |
| RewriterProperties.NoBracketUnchanged | main.go:432 | a line without '[' is returned unchanged |
| RewriterProperties.OneLink | main.go:432 | a single plain link is the whole match list, with its title and target as groups |
| RewriterProperties.HttpLinkKept | main.go:433-436 | a link whose target starts with "http" is left as it is |
| RewriterProperties.AssetLinkResolved | main.go:438-444 | a non-page target is replaced, at its first occurrence in the line, by its resolved link |
| RewriterProperties.AssetLinkInPlace | main.go:438-444 | when the target first occurs inside the link, the link's target is what changes |
| RewriterProperties.AssetTitleReplaced | main.go:441-442 | when the title equals the target, the title is what changes and the target stays |
| RewriterProperties.PageLinkWithoutTitle | main.go:449-453 | a page link with an empty title makes the replacer fail |
| RewriterProperties.PageLinkToWiki | main.go:446-463 | `[t](x.md)` becomes `[[t\|resolveLink(x.md)]]` |
| LineReader.Window | main.go:343 | the buffer is full or reaches the end of the stream |
| LineReader.NextFragment | main.go:343 | `ReadLine` returns no bytes exactly at the end of the stream, and otherwise moves on |
| LineReader.FragmentHasNoNewline | main.go:343 | a fragment never holds '\n' |
| LineReader.PrefixShape | main.go:348-350 | a prefix fragment is the buffer's bytes, one '\r' held back at most |
| LineReader.LineShape | main.go:343 | a final fragment is the bytes up to '\n' without a final '\r', or the unterminated rest of a stream shorter than the buffer |
| LineReader.NextLine | main.go:340-360 | `readLine` moves on after a line, and an error reports `tail` at the end of the stream |
| LineReader.LineUpToNewline | main.go:340-360 | a line ended by '\n' is read whole (without a final '\r'), however many buffers it spans |
| LineReader.LineAcrossBuffers | main.go:348-356 | the prefix fragments of a long line glue to its last fragment |
| LineReader.EndOfStream | main.go:343-346 | at the end of the stream `readLine` returns the error and no line |
| LineReader.UnterminatedLineWholeOrLost | main.go:340-360 | a last line without '\n' is returned whole or lost to the error |
| LineReader.ShortUnterminatedLine | main.go:340-360 | a last line without '\n' shorter than the buffer is returned |
| LineReader.FullBufferLastLineLost | main.go:348-351 | a last line without '\n' that exactly fills the buffer is lost to the error |
| LineReader.SkippedLine | main.go:362-378 | what `skipNextEmptyLine` reads away when the second byte ahead is '\n': an empty line, or a one-byte line |
| LineReader.Parser.constructor | main.go:334-338 | a new parser at the start of the stream with no line written |
| LineReader.Parser.ReadLine | main.go:340-360 | returns what `NextLine` describes and moves the cursor there |
| LineReader.Parser.SkipNextEmptyLine | main.go:362-378 | reads a line away exactly when the second byte ahead is '\n', and reports it |
| Toc.TocRewrite | main.go:470-474 | "not responsible", with the line unchanged, exactly outside SUMMARY.md; never an error |
| Toc.TocPos | main.go:485 | the reader only moves forward within the document |
| Toc.TocEntry | main.go:470-530 | returns `TocRewrite` and leaves the reader where `TocPos` says |
| Toc.ShortLineTrimmed | main.go:476-483 | a line shorter than four bytes once trimmed comes back trimmed and the reader stays |
| Toc.BlankLineEmpty | main.go:477-479 | a blank line becomes the empty line, not a skip |
| Toc.TitleSkipped | main.go:487-492 | a `#` title is skipped, and the next line is still checked for a blank |
| Toc.HeadingBecomesEntry | main.go:494-506 | `## X` and `##X` become `* X` |
| Toc.EntryNesting | main.go:509-525 | a `*` line gets two leading spaces exactly when the line last written starts with "* " or "  * " |
| Toc.OtherLineTrimmed | main.go:528 | any other line comes back trimmed |
| Toc.LineAfterEntryRead | main.go:485 | after a counted line, a line whose second byte is '\n' is read away |
| Toc.LineAfterEntryKept | main.go:362-378 | otherwise the reader does not move |
| Toc.ReaderKept | main.go:481-485 | a line that does not count leaves the reader alone |
| Pipeline.Writer.constructor | main.go:185 | a fresh writer holds nothing |
| Pipeline.Writer.Write | main.go:208-209 | writing appends and changes nothing else |
| Pipeline.Step | main.go:193-198 | only the table-of-contents replacer moves the reader, and only forward |
| Pipeline.Chain | main.go:228-244 | the chain ends with a line, a skip or a failure, never "not responsible" |
| Pipeline.ApplyReplacer | main.go:229 | one replacer call does what `Step` says to the outcome and to the reader |
| Pipeline.RunReplacers | main.go:228-244 | the replacer loop does what `Chain` says |
| Pipeline.Reads | main.go:202 | the reader of a document is `readLine` at every position |
| Pipeline.FenceLines | main.go:210-223 | copying a fence moves forward within the document |
| Pipeline.Steps | main.go:228-244 | the step of a document is the replacer chain at every position |
| Pipeline.NextTurn | main.go:201-266 | a turn of the loop moves the reader forward |
| Pipeline.Parse | main.go:183-270 | writes exactly what `Render` describes for the document and returns whether it ended without a replacer error |
| Pipeline.ParseWith | main.go:201-267 | the read loop, for any reader and step that behave as `readLine` and the chain |
| Pipeline.CopyFence | main.go:207-225 | writes the opening line and the fence lines, and clears the line last written only at a closing fence |
| Pipeline.CopyFenceLine | main.go:211-222 | one fence line: copied and the loop goes on, or the fence closes or the stream ends |
| Pipeline.WriteLine | main.go:251-266 | writes the line and "\n", with a blank line first between two '>' lines, and records the line |
| PipelineProperties.ReadBack | main.go:340-360 | a line with no '\n' and no final '\r', followed by '\n', is read back as it is |
| PipelineProperties.LinesReadBack | main.go:340-360 | lines joined with '\n' are read back one by one |
| PipelineProperties.DocumentEnds | main.go:202-205 | at the end of the document the reader reports an error, which ends the loop |
| PipelineProperties.DocumentOfLines | main.go:201-205 | a document made of such lines is read line by line and then ends |
| PipelineProperties.FenceCloses | main.go:219-222 | a "```" line closes a fence and is written |
| PipelineProperties.FenceContinues | main.go:216-217 | any other line inside a fence is written as it is, with "\n" |
| PipelineProperties.FenceEnds | main.go:211-214 | the end of the stream ends a fence without closing it |
| PipelineProperties.FenceBodyCopied | main.go:210-223 | the body and closing line of a fence are written byte for byte and the fence is closed |
| PipelineProperties.FenceUnclosed | main.go:210-223 | an unclosed fence is written byte for byte to the end of the document |
| PipelineProperties.FenceOpens | main.go:207-225 | a line starting with "```" copies the fence, and the line last written is cleared exactly when it closes |
| PipelineProperties.FenceInDocument | main.go:207-225 | a closed fence is written byte for byte, and the rest of the document is rendered with no line last written |
| PipelineProperties.FenceToEnd | main.go:207-225 | an unclosed fence runs to the end, written byte for byte, and the document ends without error |
| PipelineProperties.ClosedFenceRendered | main.go:219-220 | after a closed fence the loop continues with the line last written cleared |
| PipelineProperties.OpenFenceRendered | main.go:211-214 | after an unclosed fence the document ends without error |
| PipelineProperties.RenderEnd | main.go:202-205 | at the end of the stream nothing more is written and there is no error |
| PipelineProperties.LineSkipped | main.go:238-249 | a skipped line writes nothing and keeps the line last written |
| PipelineProperties.LineFailed | main.go:242 | a failing line ends the document with an error and writes nothing more |
| PipelineProperties.LineWritten | main.go:251-266 | a replaced line is written and becomes the line last written |
| PipelineProperties.TocStepOther | main.go:472-474 | outside SUMMARY.md the table of contents does not act and the reader stays |
| PipelineProperties.ParensStepPlain | main.go:384-386 | a line without '\' passes the parenthesis replacer unchanged |
| PipelineProperties.PageRefStepPlain | main.go:390-416 | a line without '{' passes the page-reference replacer unchanged |
| PipelineProperties.LinkStepPlain | main.go:420-432 | a line without '[' passes the link replacer unchanged |
| PipelineProperties.PlainChain | main.go:228-244 | outside SUMMARY.md, a line without '\', '{' and '[' comes out of the chain unchanged |
| PipelineProperties.PlainLeft | main.go:228-244 | such a line is left alone by the document's step at every position |
| PipelineProperties.PlainLineWritten | main.go:251-266 | such a line is written as it is and becomes the line last written |
| PipelineProperties.QuotesKeptApart | main.go:251-258 | a '>' line after a '>' line is written after a blank line |
| PipelineProperties.SkipChain | main.go:238-240 | a skip from the table of contents ends the chain, with the reader where `tocEntry` left it |
| PipelineProperties.TitleChain | main.go:487-492 | a `#` title in SUMMARY.md is skipped by the chain |
| PipelineProperties.PageLinkChain | main.go:449-453 | a page link without a title makes the chain fail |
| PipelineProperties.FailedDocument | main.go:241-242 | a failing first line ends the document with an error and nothing written |
| PipelineProperties.AbandonedDocument | main.go:242 | a document whose first line is a page link without a title is abandoned with nothing written |
| PipelineProperties.QuotesRendered | main.go:251-261 | two '>' lines, and then the end, are written with a blank line between them |
| PipelineProperties.QuotedDocument | main.go:251-261 | a document of two plain '>' lines comes out with a blank line between them |
| PipelineProperties.FenceRendered | main.go:207-225 | a closed fence, and then the end, is written byte for byte |
| PipelineProperties.FencedDocument | main.go:207-225 | a document that is one closed fence comes out byte for byte, in every file |
| Corrections.NextLineKept | main.go:340-360 | `readLine` as intended: an error exactly at the end of the stream, reporting `tail` and staying there; otherwise a line, and the reader moves forward |
| Corrections.KeptAgrees | main.go:340-360 | wherever the code returns a line, the intended reader returns the same line and stops at the same place |
| Corrections.UnterminatedLineKept | main.go:348-351 | a last line without '\n' is returned whole, whatever its length |
| Corrections.TocPosBlank | main.go:485 | with only a blank line read away, the reader still moves only forward within the document |
| Corrections.BlankLineReadAway | main.go:362-378 | as intended, after a line that counts the reader moves exactly when the next line is blank ("\n" or "\r\n"), past that line and no further |
| Corrections.BlankLineKept | main.go:372-377 | as written, a blank "\n" line after a line that counts is kept when the line after it is not empty |
| Corrections.ShortLineReadAway | main.go:372-377 | as written, a one-byte line after a line that counts is read away although it is not blank |
| Corrections.TocRewriteBlankSkipped | main.go:476-479 | as intended, `tocEntry` never returns the empty line for SUMMARY.md |
| Corrections.ScopedLinks | main.go:420-468 | `unescapeLinks` rewriting each link within its own span: only succeeds or fails, and with `keepLinks` set returns the line |
| Corrections.ScopedCopies | main.go:432 | bytes that start no link are copied as they are |
| Corrections.ScopedNoBracket | main.go:432 | a line without '[' is left as it is |
| Corrections.LinkInLine | main.go:418 | a plain link inside a line is the link match at its position, with its title and target as groups |
| Corrections.ScopedOneLink | main.go:432-466 | in a line with one link the text around the link is copied and the link rewritten by its own edit, or the line fails |
| Corrections.AssetTargetReplaced | main.go:438-444 | an asset link gets its resolved target in place of its own target, whatever its title, and nothing else changes |
| Corrections.ImageTitledByPath | main.go:441-442 | the image link of main_test.go:43 titled with its own path: as written the title becomes the wiki link and the target stays; as intended the target becomes the wiki link and the title stays |
| Corrections.ScopedHttpKept | main.go:433-436 | a link to an http target is kept |
| Corrections.ScopedPageLink | main.go:446-463 | a titled page link becomes `[[title\|page]]` |
| Corrections.ScopedUntitled | main.go:449-453 | a page link without a title fails the line |
| Corrections.ScopedAgrees | main.go:433-463 | for http and page links the rewrite within the link agrees with the code's rewrite |
| Intended.ReadsKept | main.go:202 | the intended reader of a document is the intended `readLine` at every position |
| Intended.LaterReplacers | main.go:195-197 | the replacers after `tocEntry`, links rewritten within their spans, only succeed or fail |
| Intended.IntendedChain | main.go:228-244 | the intended replacer loop ends with a line, a skip or a failure, and moves the reader forward within the document |
| Intended.IntendedSteps | main.go:228-244 | the intended step of a document is the intended replacer loop at every position |
| Intended.IntendedDocument | main.go:201-205 | a document whose stream fails never ends without error |
| Intended.ParseReporting | main.go:201-205 | writes what the code's `parse` writes, and reports success only when no replacer failed and the stream ended at end of file |
| Intended.ReadErrorIgnored | main.go:202-205 | as written, a stream that fails before its first byte is an empty document converted without error |
| Intended.ReadErrorReported | main.go:202-205 | as intended, the same stream is an empty document that reports the error |
| Intended.BlankLineDropped | main.go:476-479 | as intended, a blank line of SUMMARY.md writes nothing: the document goes on after it with the line last written kept, so the entry after it still nests under the entry before it |
| Sidebar.LaterChain | main.go:193-198 | after `tocEntry`, the loop of a document applies the three rewrites in order |
| Sidebar.TocThenLinks | main.go:228-244 | a SUMMARY.md line that `tocEntry` rewrites, free of '\' and '{', comes out with its links rewritten, the reader where `tocEntry` left it |
| Sidebar.TocThenPlain | main.go:228-244 | ... and without '[' as well, it comes out as `tocEntry` left it |
| Sidebar.IntendedThenLinks | main.go:228-244 | the same through the intended loop, links rewritten within their spans |
| Sidebar.IntendedThenPlain | main.go:228-244 | ... and a line without '[' comes out as the intended `tocEntry` left it |
| Sidebar.LineAt | main.go:340-360 | a line ended by '\n' that reads back as it stands is what `readLine` returns at its position |
| Sidebar.KeptReadsLine | main.go:340-360 | the intended reader returns a line wherever the code's reader does |
| Sidebar.KeptReadsEnd | main.go:344-346 | the intended reader ends where the document ends |
| Sidebar.SidebarAsWritten | main.go:470-530 | as written, "## S\n\n* [T](p.md)\n" in SUMMARY.md gives "* S\n\n* [[T\|p]]\n": the blank line stays and the entry is not nested |
| Sidebar.IntendedHeading | main.go:470-530 | as intended, a counted line that `tocEntry` rewrites to a plain `m` comes out as `m`, with the blank line after it read away |
| Sidebar.SidebarIntended | main.go:470-530 | as intended, the same SUMMARY.md gives "* S\n  * [[T\|p]]\n", ending without error exactly when the stream ends at end of file |

## Left out

- The command line, `main`, flags and build variables, `walkFn` (the walk over
  the book, file creation, copying of non-Markdown files, the counters) and
  `logf`: these are I/O around `parse`.
- `bufio.Writer`: `Writer.written` is every byte handed to the writer. Which
  of them reach the destination when `parse` returns an error without
  flushing, and the error of `Flush`, are not modelled.
- Pipeline.Parse: its `ok` is false only for a replacer error. A read error
  other than end of file ends the loop just as end of file does, and `parse`
  then returns the result of `Flush`. This is the code's behaviour, shown by
  `PipelineProperties.DocumentEnds` holding for any `tail`.
- The text of the error that `unescapeLinks` builds for a page link without a
  title: it is the `Fail` outcome.
- Paths.ResolvePath: `path.Dir`, `path.Base` and `path.Join` are modelled for
  clean, slash-separated relative paths (no "./", no doubled or trailing
  slash); `filepath.ToSlash` and other separators are not modelled.
- Text.TrimSpace: only ASCII white space is trimmed; the Unicode spaces
  `bytes.TrimSpace` also removes are not modelled.
- Text.Title: word starts and upper-casing are ASCII only; the Unicode rules of
  `bytes.Title` are not modelled.
- The regular-expression engine in general: there is one matcher per fixed
  pattern, over bytes.
- Go slice aliasing: the effect of `append` on the package-level byte slices
  (`refPrefix`, `asteriskEntry`, `parenStart`) is not modelled; every byte
  string is an immutable sequence.
- RewriterProperties.TwoEscapedGroups: the rewrite of `\(x\)` into `(x)` is
  proved for lines with one or two such groups (with `OneEscapedGroup`), not
  for any number of them.
- RewriterProperties.OnePageRef: the page-reference rewrite is proved for a
  line with one reference, not for several.
- RewriterProperties.OneLink: the link rewrites are proved for a line with one
  link, not for several.
- PipelineProperties.QuotedDocument: the blank line between quotations is
  proved for lines that the replacers leave unchanged, outside SUMMARY.md
  (`QuotesKeptApart` holds for any step that leaves both lines alone).
- PipelineProperties.FencedDocument: the byte-for-byte copy of fences is
  proved for a document that is one fence, and `FenceInDocument` for a fence
  anywhere in the reader's lines.
- Toc.TocEntry: the line it returns for SUMMARY.md (main.go:528) is a slice of
  the `bufio.Reader` buffer. The deferred `skipNextEmptyLine` (main.go:485)
  calls `Peek(2)` (main.go:363). When fewer than two unread bytes are left in
  the buffer, `Peek` slides them to its start and refills it, overwriting the
  returned line before `unescapeParens` copies it. The model treats lines as
  immutable values. So for SUMMARY.md = "* [A](a.md)\n\n", delivered in one
  read, `Document` gives "* [[A|a]]\n\n" where the program writes
  "\n [[A|a]]\n\n".
- Sidebar.SidebarAsWritten, Sidebar.SidebarIntended: the document-level effect
  of the `skipNextEmptyLine` and blank-line cases is proved for the one
  sidebar example; the line-level lemmas of `Corrections` hold for any line.

## Where the code differs from its description

The model follows the code in each of these cases but the last, which it
leaves out.

- `skipNextEmptyLine` peeks two bytes and tests only the second. An empty line
  ("\n") is not read away when the next line is not empty, and a one-byte line
  followed by '\n' is read away (`LineReader.SkippedLine`).
- A blank line in SUMMARY.md is not skipped: `tocEntry` returns an empty line
  and `parse` writes "\n" for it (`Toc.BlankLineEmpty`).
- A read error ends `parse` as end of file does, and is not reported.
- The last line of a document, when it has no '\n' and exactly fills the
  4096-byte buffer, is lost: `bufio.Reader.ReadLine` returns it as a prefix and
  the next read reports end of file (`LineReader.FullBufferLastLineLost`).
- `unescapeLinks` replaces the first occurrence of an asset target in the whole
  line, which need not be the target of the link that matched
  (`RewriterProperties.AssetTitleReplaced`); the comment at main.go:442 accepts
  this.
- One pass of `unescapeParens` can leave an escaped pair behind: the lazy
  group of main.go:382 stops at the first `\)`, so `\(\(x\)\)` becomes
  `(\(x)\)` (`RewriterProperties.NestedEscapesTwoPasses`). A line whose
  groups hold no '\' is unescaped completely in one pass
  (`RewriterProperties.OneEscapedGroupTwice`).
- Buffer reuse: a line returned by `tocEntry` for SUMMARY.md can be overwritten
  when the deferred `Peek(2)` refills the buffer. For "* [A](a.md)\n\n",
  delivered in one read, the program writes "\n [[A|a]]\n\n". The model does
  not capture this (see `Toc.TocEntry` under "Left out").

## Findings

| source | as written | input that shows it | evidently intended | confidence | as-written member | corrected member |
|---|---|---|---|---|---|---|
| main.go:372 | `skipNextEmptyLine` tests only the second byte it peeks | SUMMARY.md "## S\n\n* [T](p.md)\n": the blank line stays; "## S\nx\n* [T](p.md)\n": the line "x" is dropped | read away the next line exactly when it is blank | high, not executed | Corrections.BlankLineKept | Corrections.BlankLineReadAway |
| main.go:477-479 | a blank line of SUMMARY.md comes back as the empty line, and `parse` writes "\n" for it | SUMMARY.md "* S\n\n\n* [T](p.md)\n" | skip the line, since the sidebar is to have no line separators (main.go:485) | high, not executed | Toc.BlankLineEmpty | Intended.BlankLineDropped |
| main.go:203-205 | any read error ends the loop like end of file, and `parse` returns nil | a source whose first read fails | return the read error | medium, not executed | Intended.ReadErrorIgnored | Intended.ReadErrorReported |
| main.go:344-346 | the prefix gathered so far is dropped when `ReadLine` then reports end of file | a document whose last line has no '\n' and exactly 4096 bytes | return the gathered prefix as the last line | medium, not executed | LineReader.FullBufferLastLineLost | Corrections.UnterminatedLineKept |
| main.go:441-442 | the asset target is replaced at its first occurrence in the whole line, which is the title when the title repeats the target | "[../.gitbook/assets/image.png](../.gitbook/assets/image.png)" with the wiki "/kataras/iris/wiki": the title becomes "/kataras/iris/wiki/_assets/image.png" and the target stays as it was | rewrite the link's own target; the comment at main.go:442 accepts a replacement outside the link, so the authors may not count this as a fault | low, not executed | RewriterProperties.AssetTitleReplaced | Corrections.AssetTargetReplaced |
| main.go:485 | the first two rows together, for a section heading followed by a blank line | SUMMARY.md "## S\n\n* [T](p.md)\n" gives "* S\n\n* [[T\|p]]\n" | "* S\n  * [[T\|p]]\n", the entry nested under its section | high, not executed | Sidebar.SidebarAsWritten | Sidebar.SidebarIntended |
