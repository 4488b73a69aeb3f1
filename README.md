# eml-to-pdf in Dafny

A model of the string, sequence and ordering logic of eml-to-pdf, which
turns `.eml` email files into PDF documents. Two pipelines are covered.

- **convert.js** draws the mail with a PDF drawing library.
  - `addHtmlContent` rewrites an HTML body with a chain of regex replacements and splits it into trimmed lines.
  - `addFormattedText` scans a line for `<BOLD>`/`<ITALIC>` markers and cuts it into styled runs.
  - `addPlainTextContent` draws a plain body line by line.
  - The attachments block lists the attachment names under the body.
  - `mergePdfAttachments` appends the pages of PDF attachments.
  - `generateOutputFilename` and `sanitizeFilename` name the output file.
- **src/** parses the mail into a record (`EmlParser`) and renders it as HTML (`PdfGenerator`). `AttachmentProcessor` filters, writes and merges attachments.

Drawing calls are modelled as a returned sequence of abstract operations
(`DocOps.Op`: font size, paragraph, underlined paragraph, styled run,
vertical gap). A PDF is modelled as a sequence of pages of an arbitrary
type `P`.

Everything foreign is a parameter of the operation that uses it:

| parameter | stands for |
|---|---|
| `load` | what the PDF libraries make of a file's bytes (`None` when they throw) |
| `decode` | Node's base64 decoder |
| `join` | `path.join` |
| `write` | whether a file write succeeds |
| `formatSize` | `formatFileSize` |
| `shown` | JavaScript's `String()` of a non-string payload |
| `css` | the document's style sheet |
| date strings and date parts | formatted dates and the local-time getters |

JavaScript semantics the model spells out:
- The `\s` class and `trim()` use the same white-space set (`JsText.IsSpace`).
- A regex with the `i` flag and an ASCII pattern folds ASCII case only.
- `split(/\r?\n/)` and `String.prototype.indexOf` are modelled as written.
- A payload is `Absent`, a `Buffer` (always truthy), a string (truthy when non-empty) or some other value.

Files and modules:

| file | module | models |
|---|---|---|
| wrappers.dfy | `Wrappers` | `Option` and `Result` |
| js_text.dfy | `JsText` | the JavaScript string built-ins and fixed-shape global regex replacement |
| doc_ops.dfy | `DocOps` | the drawing operations |
| formatted_text.dfy | `FormattedText`, `FormattedTextOps` | `addFormattedText` |
| html_to_text.dfy | `HtmlToText` | `addHtmlContent` |
| plain_text.dfy | `PlainText` | `addPlainTextContent` |
| convert_merge.dfy | `ConvertMerge` | the attachments block and `mergePdfAttachments` of convert.js |
| output_filename.dfy | `OutputFilename` | `generateOutputFilename` and `sanitizeFilename` of convert.js |
| name_cleaning.dfy | `NameCleaning` | the underscore collapsing and edge trimming shared by the two file-name cleaners of src/ |
| eml_parser.dfy | `EmlParser` | src/emlParser.js |
| pdf_generator.dfy | `PdfGenerator` | `generateHtmlContent`, `generateFilename`, `cleanEmailForFilename` |
| attachment_processor.dfy | `AttachmentProcessor` | src/attachmentProcessor.js |

## Model

| member | source | states |
|---|---|---|
| JsText.Trim | src/emlParser.js:32 | the result starts and ends with a non-space and is the input with a white-space-only prefix and suffix removed |
| JsText.TrimUnique | src/emlParser.js:32 | the trim is the only slice of the input framed by white space whose ends are not white space |
| JsText.IndexOf | convert.js:200-201 | the result is the first position at or after `from` where the pattern occurs, or -1 exactly when it occurs nowhere there |
| JsText.SplitLines | convert.js:163 | at least one line comes out, and no line holds a line feed |
| JsText.SplitLinesJoin | convert.js:163 | without carriage returns, joining the lines with `\n` gives back the text |
| JsText.SplitLinesJoinCrlf | convert.js:163 | lines without line feeds, none ending in a carriage return, joined with `\r\n` split back into the same lines |
| JsText.ReplaceAll | convert.js:126-160 | a pattern with no match leaves the text unchanged; every character of the result comes from the text or the replacement |
| JsText.ReplaceAllFirstMatch | convert.js:126-160 | a global replacement keeps the text before the leftmost match, replaces that match by `rep`, and goes on after it |
| JsText.ParseNatToString | convert.js:354-358 | `String(n)` reads back as `n` |
| JsText.PadZerosValue | convert.js:354-358 | `padStart(width, '0')` of `String(n)` is all digits, at least `width` long, and reads back as `n` |
| JsText.BeforeFirst | src/pdfGenerator.js:297 | `split(c)[0]`: the longest prefix without `c`, followed in the input by `c` when shorter than it |
| JsText.Utf16Length | src/emlParser.js:109 | a string's length in UTF-16 code units lies between its character count and twice that, and is 0 only for the empty string |
| JsText.Utf16LengthAppend | src/emlParser.js:109 | code-unit lengths add up over concatenation |
| JsText.FitCharsFacts | src/attachmentProcessor.js:162 | the prefix kept fits in `n` code units, one more character would not, and a string that fits is kept whole |
| JsText.RegexUnits | convert.js:404 | the string a non-`u` regex sees has one character per UTF-16 code unit |
| FormattedText.EarliestMarker | convert.js:203-213 | no marker exactly when neither opener occurs; otherwise the chosen one occurs and comes no later than the other |
| FormattedText.BoldCloserAfter | convert.js:230-233 | a `</BOLD>` found from the opener's position lies after the whole opener, so the run text `substring(nextMarker + 6, endMarker)` is well defined |
| FormattedText.ItalicCloserAfter | convert.js:240-243 | the same for `</ITALIC>` and an 8-character opener |
| FormattedText.ScanStep | convert.js:199-249 | every pass of the loop moves `currentIndex` strictly forward and never past the end of the text, so the scan terminates |
| FormattedText.ScanMarkup | convert.js:194-250 | putting every part back between its markers rebuilds the scanned text exactly |
| FormattedText.ScanWellFormed | convert.js:228-249 | no part is both bold and italic; a bold or italic run holds no closer of its kind; a plain part is a lone opener or holds no opener (the styling itself is stated by ScanPair and ScanUnclosed) |
| FormattedText.MarkerStepCases | convert.js:228-249 | at an opener with a closer of its kind after it, the text up to the first such closer is one styled part without either marker and the scan goes on after the closer; with none, the opener alone is a plain part and the scan goes on after it |
| FormattedText.ScanPair | convert.js:199-249 | for the earliest opener of a line and the first closer of its kind after it, the scan is the plain text before the opener, the enclosed text styled bold for `<BOLD>` or italic for `<ITALIC>`, then the scan after the closer |
| FormattedText.ScanUnclosed | convert.js:199-249 | for the earliest opener with no closer of its kind after it, the scan is the text before it, the opener as literal plain text, then the scan after the opener |
| FormattedText.ScanNoOpener | convert.js:215-220 | a rest with no opener is pushed as one plain part |
| FormattedTextOps.SplitMarkers | convert.js:194-250 | the loop pushes exactly the parts of the scan, and these rebuild the text and are well formed |
| FormattedTextOps.ScanPass | convert.js:200-249 | one pass of the loop pushes the parts of one scan step and moves `currentIndex` as that step does; the pass that breaks out leaves it at the end of the text |
| FormattedTextOps.MarkerRun | convert.js:229-248 | with a closer of the marker's kind after it, the one part pushed is the text up to the first such closer, styled by the marker, and the index moves past that closer; with none, the opener is pushed as plain text and the index moves past it |
| FormattedTextOps.RunMarkupParts | convert.js:253-263 | the drawn runs, put back between markers by their font, rebuild the parts' markup |
| FormattedTextOps.FormattedOpsFacts | convert.js:253-265 | no run uses `Helvetica-BoldOblique`, and the runs rebuild the input line |
| FormattedTextOps.PairDrawn | convert.js:199-264 | the first opener of a line with a closer of its kind after it is drawn after the plain text before it as one run of the enclosed text, markers gone, in Helvetica-Bold for `<BOLD>` and Helvetica-Oblique for `<ITALIC>` |
| FormattedTextOps.UnclosedOpenerDrawn | convert.js:229-262 | the first opener of a line with no closer of its kind after it is drawn as its literal text in Helvetica |
| FormattedTextOps.AddFormattedText | convert.js:194-266 | the method draws one run per part of the scan and then ends the line; no run is bold-italic, the runs rebuild the line, and PairDrawn and UnclosedOpenerDrawn say how a matched and an unmatched opener are drawn |
| HtmlToText.StripBlocks | convert.js:126-127 | removing script and style blocks introduces no character |
| HtmlToText.StripBlocksScript | convert.js:126 | a closed `<script>` element whose content has no `<` is removed with its content |
| HtmlToText.BreakLines | convert.js:130-140 | the block-tag rewrites introduce only line feeds and the bullet's characters |
| HtmlToText.BreakLinesBr | convert.js:130 | `<br/>` becomes a line feed |
| HtmlToText.MarkFormatting | convert.js:143-150 | the formatting rewrites introduce only the markers' characters |
| HtmlToText.MarkFormattingBold | convert.js:143 | `<b>` becomes the marker `<BOLD>`, which the later formatting rewrites keep |
| HtmlToText.MarkFormattingBoldClose | convert.js:144 | `</b>` becomes the marker `</BOLD>`, which the later formatting rewrites keep |
| HtmlToText.StripTagsNoTagPair | convert.js:153 | after the generic tag strip, no `<` is followed anywhere later by `>` |
| HtmlToText.StripTags | convert.js:153 | the strip introduces no character and leaves no `<` followed later by `>` |
| HtmlToText.DecodeEntities | convert.js:156-160 | text without `&` is left unchanged by the five entity replacements |
| HtmlToText.DecodeOneEntity | convert.js:156-160 | one `&nbsp;`, `&lt;`, `&gt;` or `&quot;` between texts without `&` becomes its character, the texts around it kept |
| HtmlToText.Tagless | convert.js:126-153 | the text before entity decoding has no `<` followed later by `>` |
| HtmlToText.MarkersStripped | convert.js:143-153 | none of the four markers inserted at lines 143-150 survives the strip at line 153 |
| HtmlToText.TaglessWithoutLt | convert.js:126-153 | text with no `<` passes all the tag rewrites unchanged |
| HtmlToText.SplitLinesNoTagPair | convert.js:153-163 | every line of stripped text still has no `<` followed later by `>` |
| HtmlToText.LineOpsPlain | convert.js:165-185 | such a line is drawn as a gap or as one plain paragraph of its trimmed text, never as styled runs |
| HtmlToText.LinesOpsPlain | convert.js:163-186 | no styled run comes out of lines without a marker pair |
| HtmlToText.NoAmpersandNoRuns | convert.js:153-177 | an HTML body without `&` never reaches the formatted branch: no styled run is drawn |
| HtmlToText.DecodeAmpLt | convert.js:156-158 | `&amp;lt;` decodes to `<` because `&amp;` is decoded before `&lt;` |
| HtmlToText.DecodeAmpNbsp | convert.js:156-157 | `&amp;nbsp;` decodes to `&nbsp;` because `&nbsp;` is decoded first |
| HtmlToText.DecodeEscapedTag | convert.js:158-159 | `&lt;x&gt;` decodes to `<x>` for any `x` without `&` |
| HtmlToText.EscapedOpenerRewrite | convert.js:143-159 | `&lt;BOLD&gt;` in the HTML becomes the marker `<BOLD>` after the whole rewrite chain |
| HtmlToText.EscapedOpenerDrawn | convert.js:165-186 | the body `&lt;BOLD&gt;` reaches the formatted branch and is drawn as the literal run `<BOLD>` |
| HtmlToText.BulletIsMisencoded | convert.js:139 | the list-item text holds the UTF-8 bytes of U+2022 read as Windows-1252 characters, not the bullet itself |
| HtmlToText.AddHtmlContent | convert.js:120-187 | the method makes the calls of the rewrite chain followed by the per-line drawing |
| HtmlToText.DrawLines | convert.js:165-186 | the loop makes, line by line and in order, the calls LinesOps gives; LineOpsPlain and LinesOpsPlain say what those are |
| HtmlToText.AddLine | convert.js:166-185 | a line empty after trimming becomes a gap, one with a marker formatted text, any other one paragraph of its trimmed text |
| PlainText.AddPlainTextContent | convert.js:273-288 | the method makes exactly the calls of the per-line specification |
| PlainText.PlainParagraphs | convert.js:275-282 | the paragraphs drawn are the lines, in order, including empty ones |
| PlainText.PlainGaps | convert.js:276-287 | every gap comes right after an empty paragraph and right before another empty paragraph |
| PlainText.PlainGapCount | convert.js:283-286 | the gaps number exactly the pairs of consecutive empty lines |
| PlainText.PlainOpsFacts | convert.js:273-288 | the three facts above, for the lines of the body |
| ConvertMerge.AttachmentListing | convert.js:77-93 | nothing without attachments; otherwise the header, then per attachment a size change and `<i + 1>. <name>`, with the 1-based fallback name `attachment_<i + 1>` |
| ConvertMerge.ListingParagraphs | convert.js:86-92 | the listing's paragraphs are the numbered lines, in order |
| ConvertMerge.MergePdfAttachments | convert.js:295-335 | when the main file fails to load, nothing changes; otherwise the file is rewritten exactly when some attachment merged, with the main pages followed by the merged pages in attachment order |
| ConvertMerge.MergeAll | convert.js:304-326 | the loop appends, in attachment order, the pages of every attachment merged, and records whether any was |
| ConvertMerge.MergeAttachment | convert.js:305-324 | one attachment: its pages are appended and it counts as merged exactly when it is typed `application/pdf`, has content and loads |
| ConvertMerge.AddPages | convert.js:315-317 | adding the copied pages one by one appends them all, in order |
| ConvertMerge.AttachedPagesAppend | convert.js:304-317 | the merged pages of two lists of attachments are those of the first followed by those of the second |
| ConvertMerge.AnyMergedAppend | convert.js:304-319 | some attachment of two lists merges exactly when one of either list does |
| ConvertMerge.SkippedAttachment | convert.js:308-323 | an attachment that is not a PDF, has no content or fails to load contributes no page and does not stop the others |
| ConvertMerge.AnyMergedWitness | convert.js:319-331 | the file is rewritten exactly when some attachment is eligible and loads |
| ConvertMerge.NothingMergedNoPages | convert.js:328-331 | when no attachment merges, no page would have been added |
| ConvertMerge.EligibleType | convert.js:305-308 | only the exact type `application/pdf` with content qualifies; a missing type never does |
| OutputFilename.UnsafeChars | convert.js:404 | `[^a-z0-9_-]` with the `i` flag matches exactly the characters whose ASCII lower case is not kept |
| OutputFilename.SanitizeFilename | convert.js:403-405 | as long as the input in UTF-16 code units; only `[a-z0-9_-]`; each code unit is lowered when kept and `_` otherwise |
| OutputFilename.SanitizeBmp | convert.js:404 | without characters outside the Basic Multilingual Plane, each character is lowered when kept and `_` otherwise, keeping the length |
| OutputFilename.SanitizeAstral | convert.js:404 | a character outside the Basic Multilingual Plane, such as an emoji, becomes `__` |
| OutputFilename.Pad2Value | convert.js:354-358 | each padded date field is at least two digits with the field's value |
| OutputFilename.ReadStampOutputFilename | convert.js:352-379 | the six date fields read back from the file name give the date, whatever the tokens hold |
| OutputFilename.PortableToken | convert.js:361-376 | given a fallback of `[a-z0-9_-]` characters, a token holds only `[a-z0-9_-]` |
| OutputFilename.OutputFilenameChars | convert.js:352-379 | the name is `[a-z0-9_-]` characters followed by `.pdf` |
| OutputFilename.TokenEmpty | convert.js:364-376 | a token is empty exactly when the first entry has no name and an address starting with `@` |
| NameCleaning.CollapseFacts | src/pdfGenerator.js:299 | replacing each run of two or more `_` by one leaves no `__`, an empty result only for empty text, and a leading `_` exactly when the text had one |
| NameCleaning.CollapseUnderscores | src/pdfGenerator.js:299 | collapsing adds no character but `_`, and leaves text without `__` unchanged |
| NameCleaning.TrimEdgeUnderscores | src/pdfGenerator.js:300 | the result starts after a leading `_` if there is one and keeps the middle as it is; at most one more character is cut, and one is cut exactly when the text left ends in `_` |
| NameCleaning.TrimEdgeFacts | src/pdfGenerator.js:299-300 | trimming a text without `__` leaves neither `__` nor an edge `_` |
| NameCleaning.CleanUnderscores | src/pdfGenerator.js:299-300 | the two steps together leave no `__`, no edge `_`, and add no character but `_` |
| NameCleaning.CleanWithoutUnderscore | src/pdfGenerator.js:299-300 | text without `_` is unchanged |
| NameCleaning.ReservedChars | src/pdfGenerator.js:298 | the reserved class is exactly the nine characters less-than, greater-than, colon, double quote, slash, backslash, vertical bar, question mark and asterisk |
| EmlParser.ExtractEmail | src/emlParser.js:35-49 | a falsy value gives `""`; an object with an address gives that address |
| EmlParser.ExtractNamedAddress | src/emlParser.js:38-41 | `Name <addr>` gives `addr` |
| EmlParser.ExtractPlainAddress | src/emlParser.js:41 | a non-empty string without `<` gives its trimmed text |
| EmlParser.AngleGroup | src/emlParser.js:40 | a match of `<([^>]+)>` captures a non-empty text without `>` |
| EmlParser.AngleGroupMatches | src/emlParser.js:40 | a match is found exactly when some `<` is followed, after at least one character other than `>`, by `>`; the group is the text between the leftmost such `<` and the next `>` |
| EmlParser.ExtractLeftmostGroup | src/emlParser.js:40-41 | a string holding a match gives the group of its leftmost match, skipping a `<>` before it |
| EmlParser.ExtractNoGroup | src/emlParser.js:41 | a non-empty string with no match, even one holding `<`, gives its trimmed text |
| EmlParser.ExtractEmails | src/emlParser.js:51-59 | a falsy value gives `[]`; an array maps element by element, keeping length and order; any other value gives a singleton |
| EmlParser.CleanSubject | src/emlParser.js:30-33 | the result neither starts nor ends with white space |
| EmlParser.CleanSubjectPrefix | src/emlParser.js:32 | a leading `Subject:` in any case and the spaces after it are removed before trimming |
| EmlParser.MissingSubject | src/emlParser.js:12 | a missing subject becomes `No Subject` |
| EmlParser.FirstReadable | src/emlParser.js:78-93 | the first part in order that is HTML or plain text with data, or -1 when there is none |
| EmlParser.ExtractBody | src/emlParser.js:61-76 | a truthy `html` wins, then a truthy `text` |
| EmlParser.ExtractBodyFirstPart | src/emlParser.js:77-92 | otherwise the first readable part wins, HTML or plain, whichever comes first |
| EmlParser.ExtractBodyNothingReadable | src/emlParser.js:95-98 | failing all of these, the body is the text `No readable content found` |
| EmlParser.RawAttachments | src/emlParser.js:104-113 | one record per listed attachment, none when the list is absent |
| EmlParser.PartAttachmentsCount | src/emlParser.js:116-127 | one record per body part that has both a filename and data |
| EmlParser.PartAttachmentsWellFormed | src/emlParser.js:116-127 | every body-part record has a filename, a content type, and a size equal to its data length |
| EmlParser.AttachmentsOfFacts | src/emlParser.js:101-130 | the listed attachments in order, then the body-part records; the count is the sum; defaults `unnamed_attachment` and `application/octet-stream`, size the data length or 0 |
| EmlParser.ExtractAttachments | src/emlParser.js:101-130 | the method's two loops push exactly those records |
| EmlParser.ParseFile | src/emlParser.js:5-28 | a parse failure is rethrown with the `Failed to parse EML file: ` prefix; otherwise the record is assembled field by field |
| PdfGenerator.EscapeEachChar | src/pdfGenerator.js:92-96 | the four replacements in their order escape each character on its own: `&` to `&amp;`, `<` to `&lt;` (never `&amp;lt;`), `>` to `&gt;`, `\n` to `<br>` |
| PdfGenerator.EscapeNoLineFeed | src/pdfGenerator.js:92-96 | the escaped body holds no `\n` |
| PdfGenerator.UnescapeEscape | src/pdfGenerator.js:92-96 | undoing `<br>`, `&lt;`, `&gt;` and `&amp;` in that order recovers the body |
| PdfGenerator.EscapeNoMarkup | src/pdfGenerator.js:93-95 | a body without line feeds escapes to text without `<` or `>` |
| PdfGenerator.BodyContent | src/pdfGenerator.js:86-97 | an HTML string body is used as it is; a plain body is escaped when it is a string, an error otherwise, and unescaping gives it back |
| PdfGenerator.HtmlBodyVerbatim | src/pdfGenerator.js:88-89 | an HTML body appears unchanged in the document, between the head and the tail |
| PdfGenerator.PlainBodyEscaped | src/pdfGenerator.js:90-97 | a plain body appears escaped between head and tail, and the escape can be undone |
| PdfGenerator.PlainBodyNotText | src/pdfGenerator.js:92 | a plain body that is not a string makes `generateHtmlContent` fail |
| PdfGenerator.OptionalRow | src/pdfGenerator.js:255-263 | a CC or BCC row is empty exactly when its list is empty; otherwise the row shows the list joined by `, ` |
| PdfGenerator.MetaBlockWithoutCopies | src/pdfGenerator.js:248-267 | From, To (joined by `, `) and Date are always present; without CC and BCC only the layout white space stays |
| PdfGenerator.AttachmentsList | src/pdfGenerator.js:99-115 | the attachments section is empty exactly when there are no attachments |
| PdfGenerator.ItemsAppend | src/pdfGenerator.js:106-111 | the items of two lists are those of the first followed by those of the second |
| PdfGenerator.AttachmentItemAt | src/pdfGenerator.js:106-111 | item `k` stands between the items before it and those after it, showing filename, type and size |
| PdfGenerator.CleanEmailForFilename | src/pdfGenerator.js:295-301 | no reserved character, no white space, no `@`, no `__`, and no `_` at either end |
| PdfGenerator.CleanEmailLocalPart | src/pdfGenerator.js:297 | only the text before the first `@` counts |
| PdfGenerator.CleanEmailKeeps | src/pdfGenerator.js:295-301 | a clean local part without `_` is kept as it is |
| PdfGenerator.ReadDateGenerateFilename | src/pdfGenerator.js:283-292 | the name is the date fields and then `<from>_to_<to>.pdf`; the three fields read back as the date, and nothing else stands before the addresses |
| PdfGenerator.GenerateFilenameSafe | src/pdfGenerator.js:283-301 | the whole name holds no reserved character and no white space |
| PdfGenerator.GenerateFilenameNoRecipient | src/pdfGenerator.js:290 | with no recipient, or an empty first one, the recipient part is `unknown` |
| AttachmentProcessor.PdfAttachments | src/attachmentProcessor.js:11-14 | an attachment is kept exactly when its type is `application/pdf` or its lowered filename ends in `.pdf` |
| AttachmentProcessor.PdfAttachmentsAppend | src/attachmentProcessor.js:11-14 | the filter keeps the order |
| AttachmentProcessor.UpperCaseExtension | src/attachmentProcessor.js:13 | `.PDF` in any mix of cases qualifies |
| AttachmentProcessor.PayloadBytes | src/attachmentProcessor.js:31-40 | a Buffer is used as it is, a string is base64-decoded, anything else is skipped |
| AttachmentProcessor.MergePdfAttachments | src/attachmentProcessor.js:10-88 | it always returns `mainPdfPath`; it writes one temporary file per usable PDF; it merges nothing when none was written or the main PDF fails; otherwise the result is the main pages, then the pages of each temporary file in order |
| AttachmentProcessor.WriteTempFiles | src/attachmentProcessor.js:24-43 | the loop writes exactly the temporary files that TempFilesCount, TempFileNames and TempFilesOrder describe |
| AttachmentProcessor.AddTempFiles | src/attachmentProcessor.js:52-62 | after the main pages, the pages of each temporary file that loads, in order; one that fails adds nothing and the loop goes on |
| AttachmentProcessor.TempFilesCount | src/attachmentProcessor.js:26-48 | at most one temporary file per PDF, and none exactly when no PDF has a usable payload |
| AttachmentProcessor.TempFileNames | src/attachmentProcessor.js:28 | each temporary file is `attachment_<i>_<filename>` with the bytes of PDF `i`, counting `i` in the filtered list |
| AttachmentProcessor.TempFilesOrder | src/attachmentProcessor.js:26-48 | the temporary files follow the filtered PDFs' order: file `k` comes from PDF `idx[k]` with its payload, the indices strictly increase, and every PDF with a usable payload has one |
| AttachmentProcessor.FailedLoadSkipped | src/attachmentProcessor.js:57-63 | a file that fails to add contributes what it would without it |
| AttachmentProcessor.CleanedNameFacts | src/attachmentProcessor.js:157-161 | the replacements leave no reserved character, no white space, no `__` and no edge `_` |
| AttachmentProcessor.SanitizeFilenameFacts | src/attachmentProcessor.js:155-163 | at most 200 UTF-16 code units, the longest prefix of the cleaned name that fits; no reserved character, white space or `__`; no leading `_`; the whole cleaned name, without a trailing `_`, when it fits |
| AttachmentProcessor.CleanedNameKeeps | src/attachmentProcessor.js:157-161 | a clean name is kept as it is |
| AttachmentProcessor.CutExposesUnderscore | src/attachmentProcessor.js:161-162 | cutting at 200 code units can leave a trailing `_` |
| AttachmentProcessor.ExtractAttachmentsToDisk | src/attachmentProcessor.js:116-153 | the records are those of the attachments whose payload is usable and whose write succeeds, named by the sanitized filename or the fallback |
| AttachmentProcessor.SaveAll | src/attachmentProcessor.js:119-150 | the loop produces those records for any naming rule |
| AttachmentProcessor.SavedSubsequence | src/attachmentProcessor.js:117-152 | the records are a subsequence of the input in input order: record `k` comes from an attachment with a usable payload at a strictly increasing index |
| AttachmentProcessor.SkippedPayload | src/attachmentProcessor.js:133-136 | an attachment with another payload is skipped and the loop goes on |
| AttachmentProcessor.FallbackClean | src/attachmentProcessor.js:124 | the fallback name needs no cleaning |
| AttachmentProcessor.UnnamedFallback | src/attachmentProcessor.js:124 | an unnamed attachment is saved as `attachment_<i>`, counting `i` from zero in the input |

## Left out

- Rendering engines are not modelled: the PDF drawing library's fonts, layout and separator line, and the headless browser that prints the HTML. Only the calls made, or the string produced, are modelled.
- PDF loading, page copying, saving and the merger library are foreign. A PDF is a page sequence and loading is a parameter returning `Option`.
- Base64 decoding is the parameter `decode`: Node's lenient decoder is library behaviour.
- Dates and time zones are inputs. The clock, `new Date()` defaults, the local-time getters and the Australia/Brisbane formatting are environment- and library-dependent. The "Generated on" stamp is a string parameter.
- `formatFileSize` is the parameter `formatSize`, because it relies on floating-point `Math.log`, `toFixed` and `parseFloat`.
- The style sheet of the HTML document is the parameter `css`. The rest of the template, with its white space, is modelled.
- Filesystem work is not modelled: directories, the final rename of the merged PDF, `cleanupTempFiles`, and reading the `.eml` file.
- The catch branch of `generateOutputFilename` (convert.js:386-394), which names the output `basename(emlPath, '.eml') + '.pdf'`, is not modelled: it is reached only when reading or parsing the `.eml` file, or creating the output directory, throws, and the model has none of those steps.
- Error wording that comes from the JavaScript engine is not modelled. The model keeps which case fails, not the engine's message, e.g. for a non-string plain body.
- The Electron application, its IPC and child processes, and the command-line walker index.js are left out. The walker's meta-file name replaces only the first `.eml`, and it merges only when some type is exactly `application/pdf`.
- OLD/convert.js is a superseded draft that declares functions twice and uses undefined names. The debug and test drivers are left out.
- FormattedText.ScanWellFormed: well-formedness alone also holds of a scan that leaves every marker as literal text; which parts are styled is stated by ScanPair, ScanUnclosed and ScanNoOpener instead.
- FormattedTextOps.SplitMarkers: its rebuild and well-formedness facts do not by themselves fix the styling; its `== Scan` clause, with ScanPair and ScanUnclosed, does.
- FormattedTextOps.AddFormattedText: its own ensures fixes the runs through `FormattedOps`, the scan the loop performs; that a matched pair is drawn in the bold or oblique font without its markers, and an unmatched opener as literal text, is stated by PairDrawn and UnclosedOpenerDrawn for the first marker of a line and by ScanPair and ScanUnclosed for every later one.
- JsText.ReplaceAll: its own contract covers only the no-match case and where characters come from; that a match is replaced is ReplaceAllFirstMatch.
- HtmlToText.StripBlocks: its own contract says only that no character is introduced; the removal of a block is stated for a closed `<script>` element with `<`-free content (StripBlocksScript), not for every block the regex matches.
- HtmlToText.BreakLines: its own contract says only which characters can be introduced; the rewrite is stated for `<br/>` (BreakLinesBr), not for each of the eight tag patterns.
- HtmlToText.MarkFormatting: its own contract says only which characters can be introduced; the rewrite is stated for `<b>` and `</b>` (MarkFormattingBold, MarkFormattingBoldClose), not for each of the eight tags.
- HtmlToText.DecodeEntities: its own contract covers text without `&`; decoding is stated for one entity between `&`-free texts (DecodeOneEntity) and for the ordering cases DecodeAmpLt, DecodeAmpNbsp and DecodeEscapedTag, not for arbitrary text.
- Strings are sequences of Unicode scalar values, while JavaScript strings are UTF-16 code units, where a character outside the Basic Multilingual Plane (an emoji, say) is two units. Where the source counts or cuts, the model counts units: `Utf16Length` for the `size` of a string payload, `RegexUnits` for the code-unit regex of the output-file-name sanitizer (so an emoji becomes `__`), `FitChars` for the 200-unit cap of the attachment sanitizer. Elsewhere the cut points are at ASCII markers, so counting characters gives the same parts.
- AttachmentProcessor.SanitizeFilename: when the 200-unit cut falls inside a surrogate pair, `substring(0, 200)` keeps a lone high surrogate, which is not a `char`; the model ends the name before that character, one unit short.
- Treating lower-casing as ASCII-only is exact where it is used. Without the `u` flag, the `i` flag canonicalises through upper case and never maps a non-ASCII character onto an ASCII one. For `toLowerCase().endsWith('.pdf')`, outside ASCII only U+212A lowers to an ASCII letter (`k`) and only U+0130 lowers to two characters (`i` and U+0307); neither gives `.`, `p`, `d` or `f`. In `sanitizeFilename` of convert.js the lowering comes after every non-ASCII unit has become `_`.
- AttachmentProcessor.MergePdfAttachments: a temporary-file write that throws is not modelled; in the source it ends the whole merge in its catch, returning `mainPdfPath`.
- AttachmentProcessor.MergePdfAttachments: the temporary files are returned, not removed: when adding the main PDF throws, the source leaves them behind.
- AttachmentProcessor.UnnamedFallback requires the index to have at most 189 digits, so that the fallback name fits the 200-unit cap.
- ConvertMerge.MergePdfAttachments: a failing read of the main file and a failing load are modelled alike, as `main == None`.
