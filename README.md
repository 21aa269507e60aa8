# office2text in Dafny

A model of `Ottosmops\Office2text\Extract`. The class turns an office document into plain text. The six supported document types are docx, pptx, xlsx, odt, odp and ods, and each is a ZIP archive of XML parts.

- **Facade.** `document()` checks that the path exists and stores it. `text()` runs the extractor chosen by the file's extension. Every failure inside it comes out as `CouldNotExtractText`.
- **Extractors.** Each extractor reads the parts it needs from the archive:
  - pptx and xlsx probe the numbered parts `…1.xml`, `…2.xml`, … until the first one is missing;
  - pptx and odp emit one line per matched text node;
  - xlsx resolves each cell (inline string, then shared string, then raw value) and emits one tab-joined line per row;
  - ods puts every trimmed cell paragraph on one tab-joined line;
  - docx and odt rewrite paragraph tags before stripping the markup.

Layout:

- `wrappers.dfy` (`Wrappers`): `Option` and `Result`.
- `strings.dfy` (`Strings`): the parts of PHP's string runtime the class uses, plus the lemmas about them:
  - `implode`, `trim`, ASCII `strtolower`;
  - `explode`, which the class never calls: it is there only to state that the tab- and newline-joined output can be cut back into its values;
  - `str_replace` with one search string;
  - the `(int)` cast of a decimal string, `sprintf('%d')`;
  - the extension `pathinfo` reports.
- `xml.dfy` (`Xml`): a parsed XML tree.
  - It has element children, attributes and the string value of an element (its direct text).
  - It provides the three query shapes the class uses: `$el->child`, `//a | //b` (document order, root included) and `//outer//inner`.
  - It also lists every element of a tree with the names of its ancestors, in document order (`Occurrences`). The two path queries are proved equal to filters of that list.
- `archive.dfy` (`Archive`): the file system and the opened archive.
  - The file system is a map from path to what `ZipArchive::open` makes of the file. The archive is a map from part name to the part's raw text and its parsed tree (`None` when it is not well-formed).
  - The module also holds the numbered-part probe, `ProbeFrom`.
  - `ProbeFrom` terminates because the set of part names not yet probed shrinks at each step. That needs distinct numbers to give distinct names, which follows from reading back the decimal numeral.
- `formats.dfy` (`Formats`): the error type, the format switch and the `catch` of `text()`. Each extractor's result is a function of the opened archive, with the lemmas stating what the source promises.
- `extract.dfy` (`Office2text`): the `Extract` class.
  - It holds the `source` field, `Document` (which updates it) and `Text`/`ExtractText`.
  - The pptx, xlsx, odp and ods extractors are methods that keep the source's loops: the probe loop with `break`/`continue`, and the nested loops over rows and cells.
  - Each method is proved to compute the matching function of `Formats`.
  - `Text` has no `modifies` clause, so calling it twice on the same file system gives the same result.

Inputs in place of I/O and PHP's libraries:

- **File system and archives.** `file_exists` is membership in the `FileSystem` map. `ZipArchive::open` is `Open`, and `getFromName` is a map lookup.
- **XML parsing.** `simplexml_load_string` is the tree stored with each part.
- **Markup calls.** The docx tab and break regexes, `strip_tags` and `html_entity_decode` are the four functions of a `Markup` value.
- **Literal rewrites.** The odt regexes match literal text, so they are modelled exactly, as `str_replace` is.

## Model

| member | source | states |
|---|---|---|
| Office2text.Extract.constructor | src/Extract.php:14-27 | A new extractor has the empty source path. |
| Office2text.Extract.Document | src/Extract.php:47-54 | A path absent from the file system gives FileNotFound("Could not find document file: " + path) and leaves `source` unchanged. Otherwise `source` becomes the path and the extractor itself is returned. |
| Office2text.Extract.GetText | src/Extract.php:34-39 | A missing path fails with FileNotFound. Otherwise the result is the wrapped extraction of that file. |
| Office2text.Extract.Text | src/Extract.php:61-68 | The result is the extraction with its failure, if any, rethrown as CouldNotExtractText carrying the same message and the original. The wrapped failure is always an ExtractException. |
| Office2text.Extract.ExtractText | src/Extract.php:70-89 | Dispatches on the lower-cased extension. The result equals `Extracted` for the stored source. |
| Office2text.Extract.ExtractPptx | src/Extract.php:107-128 | The probe loop returns the slides' texts in slide order, from slide 1 to the slide before the first missing one. |
| Office2text.Extract.ExtractXlsx | src/Extract.php:130-182 | The probe loop over worksheets returns their row lines in sheet order, resolved against the shared-string table. |
| Office2text.Extract.ExtractOdp | src/Extract.php:202-226 | Missing content part, unparseable content and unopenable archive each fail with their message. Otherwise the result is the run text of the `text:p`/`text:span`/`text:h` nodes. |
| Office2text.Extract.ExtractOds | src/Extract.php:228-262 | Same error paths. Otherwise the result is the flattened line of the trimmed cell paragraphs. |
| Office2text.ReadSharedStrings | src/Extract.php:135-142 | The table holds the text of each `si` entry (its first `t` child, else ""), in order. It is empty when the part is missing or does not parse. |
| Office2text.AppendRuns | src/Extract.php:119-122 | Appending each matched node's text plus "\n" extends the text by exactly `Runs` of the nodes. |
| Office2text.RowText | src/Extract.php:151-172 | The values pushed for a row are the non-empty cell values in cell order, each resolved by the precedence of `CellValue`. |
| Office2text.ResolveCell | src/Extract.php:154-168 | The if/elseif chain gives exactly the value `CellValue` specifies: inline string, else shared string at `(int)v` (or "" out of range), else raw `v`, else "". |
| Office2text.AppendRows | src/Extract.php:151-176 | One worksheet appends exactly the `RowsText` of its rows. |
| Formats.SelectFormat | src/Extract.php:72-88 | A selected format's name is the lower-cased extension. Otherwise no format has that name and the failure is ExtractException("Unsupported file type: " + lower-cased extension). |
| Formats.DocxText | src/Extract.php:91-105 | Fails exactly when the archive does not open ("Could not open file as zip") or has no word/document.xml ("word/document.xml not found"). Otherwise the part goes through the tab and break rewrites, the paragraph step, strip_tags and entity decoding, in that order. |
| Formats.OdtText | src/Extract.php:184-200 | Fails exactly when the archive does not open or has no content.xml ("content.xml not found"). Otherwise the part goes through the literal rewrites, strip_tags and entity decoding, in that order. |
| Formats.CellValue | src/Extract.php:153-168 | A non-empty cell value is the inline string, an entry of the shared-string table, or the text of the `v` child: it comes from nowhere else. |
| Formats.CaughtWrapsEveryFailure | src/Extract.php:61-68 | A success passes through unchanged. Every failure leaves as CouldNotExtractText with the same message, holding the original as its cause. |
| Formats.SelectFormatExact | src/Extract.php:72-85 | Each of the six formats is selected exactly when the lower-cased extension is its name. |
| Formats.SelectFormatRejects | src/Extract.php:86-87 | Any other extension fails with ExtractException("Unsupported file type: " + lower-cased extension). |
| Formats.SelectFormatIgnoresCase | src/Extract.php:72 | Extensions equal up to ASCII letter case select the same thing. |
| Formats.UpperCaseExtensions | src/Extract.php:72-85 | "DOCX" selects docx and "Ods" selects ods. |
| Formats.ExtractionFailures | src/Extract.php:87-261 | Every failure inside the extraction is an ExtractException with one of five messages: unsupported type, zip open, word/document.xml missing, content.xml missing, invalid XML. |
| Formats.UnreadableArchiveFails | src/Extract.php:104 | For every supported extension an archive that does not open fails with "Could not open file as zip". The same holds at lines 127, 181, 199, 225 and 261. |
| Formats.MissingMainPartFails | src/Extract.php:97 | docx without word/document.xml fails with that message. odt, odp and ods without content.xml fail with "content.xml not found" (lines 190, 209, 235). |
| Formats.InvalidContentFails | src/Extract.php:211-212 | odp and ods whose content part does not parse fail with "Invalid XML content" (also line 238). |
| Formats.NumberedFormatsNeverFailOnZip | src/Extract.php:107-182 | pptx and xlsx never fail on an opened archive. Without part 1 they give "". |
| Formats.DocxParagraphsCloseEveryParagraph | src/Extract.php:100 | After the paragraph step no `</w:p>` remains: each became a newline. |
| Formats.DocxOpeningTagCanReappear | src/Extract.php:100 | The single-pass removal of `<w:p>` can create a new `<w:p>`. `<w:<w:p>p>` becomes `<w:p>`. |
| Formats.OdtRewriteParagraphs | src/Extract.php:193-195 | The `<text:p` to `<text:p` replacement is the identity. After the rewrite no `</text:p>` is left. |
| Archive.ProbeFrom | src/Extract.php:113-118 | Visits the parts numbered i, i+1, … in order, each present. It stops at the first absent number. |
| Archive.ProbeStep | src/Extract.php:113-116 | A present part is visited first and probing resumes at the next number. Fewer names remain to be probed. |
| Archive.ProbeCoversRun | src/Extract.php:113-116 | Every part of an unbroken run 1..n is visited, parseable or not. |
| Archive.ProbeUnique | src/Extract.php:113-116 | A run of present parts 1..n with n+1 absent is exactly what the probe visits. |
| Archive.PartNameInjective | src/Extract.php:114 | Distinct part numbers give distinct part names. |
| Formats.SlidesTextAppend | src/Extract.php:113-123 | The slides' text is the concatenation of each slide's text, in slide order. |
| Formats.UnparseableSlideSkipped | src/Extract.php:117-118 | A slide that does not parse contributes nothing, and the slides after it still contribute. |
| Formats.PptxSlideOrder | src/Extract.php:107-125 | For slides 1..n present and n+1 absent, the pptx output is the slides' texts, in order. |
| Formats.SheetsTextAppend | src/Extract.php:144-177 | The worksheets' text is the concatenation of each worksheet's text, in sheet order. |
| Formats.UnparseableSheetSkipped | src/Extract.php:148-149 | A worksheet that does not parse contributes nothing, and the later ones still contribute. |
| Formats.XlsxSheetOrder | src/Extract.php:130-179 | For worksheets 1..n present and n+1 absent, the xlsx output is their texts in order. |
| Formats.RunsPrefix | src/Extract.php:120-122 | Each further matched node appends its text and one newline. |
| Formats.RunsRoundTrip | src/Extract.php:119-122 | When no text holds a newline, cutting the output at newlines gives each node's text in match order plus an empty remainder: one newline per node. |
| Formats.InlineStringFirst | src/Extract.php:156-158 | A cell with an inline `is/t` string takes it, whatever its type attribute says. |
| Formats.SharedStringCell | src/Extract.php:160-163 | A cell typed `s` whose `v` is the numeral k reads shared string k, or "" when k is out of range. |
| Formats.SharedStringLookup | src/Extract.php:160-163 | Without an inline string, a `t="s"` cell reads entry `(int)v` of the table, or "" when that index is outside it. |
| Formats.RawValueCell | src/Extract.php:164-167 | Without an inline string or `t="s"`, the value is the `v` child's text, or "". |
| Formats.RowValuesPrefix | src/Extract.php:169-171 | Each further cell adds its value to the row, unless that value is "". |
| Formats.RowsTextPrefix | src/Extract.php:151-176 | Each further row appends its line. |
| Formats.EmptyCellRowDropped | src/Extract.php:173-175 | A row whose only cell resolves to "" emits nothing. |
| Formats.RowLineShape | src/Extract.php:169-175 | A row emits text exactly when one of its cells has a non-empty value. Its line is then the tab-joined values plus "\n", never just "\n". |
| Formats.RowLineRoundTrip | src/Extract.php:174 | When no value holds a tab, cutting a row's line at tabs gives its non-empty values back in order. |
| Formats.RowsTextIsLines | src/Extract.php:151-176 | A worksheet's text is its non-empty row lines, each followed by a newline. |
| Formats.RowLines | src/Extract.php:173-175 | No row line is empty. |
| Formats.SheetHasNoEmptyLine | src/Extract.php:151-176 | When no cell value holds a newline, cutting a worksheet's text at newlines gives exactly the non-empty row lines plus an empty remainder. |
| Formats.OdsValuesTrimmed | src/Extract.php:248-253 | Every value collected is non-empty and has no leading or trailing whitespace. |
| Formats.OdsValuesPrefix | src/Extract.php:248-253 | Each further cell paragraph adds its trimmed text, unless that is "". |
| Formats.FlattenEmptyIff | src/Extract.php:245-257 | The ods text is "" exactly when every matched cell paragraph trims to "". |
| Formats.FlattenShape | src/Extract.php:255-257 | A non-empty ods text ends in exactly one newline. The characters just before that newline and at the start are not whitespace. |
| Formats.FlattenTrimmed | src/Extract.php:255-257 | For trimmed non-empty values, the flattened line starts and ends (before its newline) with a non-space. |
| Formats.FlattenRoundTrip | src/Extract.php:255-257 | When no value holds a tab, cutting the line without its newline at tabs gives the values back. |
| Xml.FirstChild | src/Extract.php:156-166 | `$el->name` is absent exactly when no child is an element with that name. Otherwise it is such a child, and no earlier child is one. |
| Xml.ChildrenNamedMembers | src/Extract.php:139 | Iterating `$el->name` yields only child elements with that name, and every one of them. |
| Xml.ChildrenNamedIsFilter | src/Extract.php:139 | Iterating `$el->name` is a filter: it distributes over concatenation, and one child passes exactly when it is an element with that name. So the children keep their order and multiplicity, and entry k of the table is the k-th `si`. |
| Xml.DescendantsInDocumentOrder | src/Extract.php:119 | `//a:t`, and the union at line 219, yield every element of the tree with a listed name, the root included, once per occurrence and in document order. |
| Xml.NestedInDocumentOrder | src/Extract.php:245 | `//table:table-cell//text:p` yields every `text:p` element that has a `table:table-cell` ancestor, once per occurrence and in document order. |
| Xml.NestedInsideIsDescendants | src/Extract.php:245 | Once inside an `outer` element, `//outer//inner` is the descendant query for `inner`. |
| Strings.SplitJoin | src/Extract.php:174 | explode undoes implode when no element holds the separator. |
| Strings.LinesRoundTrip | src/Extract.php:121 | Lines without newlines are recovered from their newline-terminated concatenation. |
| Strings.NonEmptyEmptyIff | src/Extract.php:173 | The non-empty values are none exactly when every value is "". |
| Strings.NonEmptyPreserves | src/Extract.php:169-171 | Whatever holds of every non-empty value holds of every value kept. |
| Strings.NonEmptyKeepsAll | src/Extract.php:169-171 | Values that are all non-empty are all kept, in order. |
| Strings.NonEmptySnoc | src/Extract.php:169-171 | One more value is kept exactly when it is non-empty. |
| Strings.Trim | src/Extract.php:249 | trim gives `s` less a whitespace prefix and a whitespace suffix, and nothing else. It is "" exactly when every character is whitespace. Otherwise its ends are not whitespace, so no more could be removed. |
| Strings.NatToStringRoundTrip | src/Extract.php:114 | The decimal numeral of a part number reads back as that number. |
| Strings.IntOfNumeral | src/Extract.php:161 | `(int)` of a decimal numeral is its number. |
| Strings.ReplaceAllClears | src/Extract.php:100 | Replacing a non-empty pattern by non-empty text sharing no character with it leaves no occurrence of the pattern. An empty replacement can leave one (see `DocxOpeningTagCanReappear`). |
| Strings.ReplaceBySelf | src/Extract.php:195 | Replacing a pattern by itself changes nothing. |
| Strings.ExtensionOf | src/Extract.php:72 | A path ending in "." + e, where e has no dot or slash, has extension e. |

## Left out

- **ZIP handling.** Opening the archive, reading by name and closing it are the `Open` map lookup and `Archive` values. Closing has no observable effect.
- **XML parsing and XPath.** `simplexml_load_string` and the XPath engine are the parsed tree stored with each part, and the query functions of `Xml`.
  - Names are matched as written (`prefix:local`).
  - Namespace URIs and `registerXPathNamespace` are not modelled.
- **Markup calls.** The docx tab and break regexes, `strip_tags` and `html_entity_decode` are parameters (`Markup`), not definitions.
  - The docx tab and break patterns need a closing tag, so a lone self-closing `<w:tab/>` or `<w:br/>` is not rewritten. Only the parameter can reflect that.
- Strings.IntOfString does not model PHP's exponent forms of numeric strings ("1e2", "1.5e1", ".5e1"), nor integer overflow. Shared-string indices written that way are not modelled. Plain fractions such as "1.5" are modelled: they read their leading digits, as PHP's `(int)` does.
- **Locale.** `strtolower` is the ASCII mapping. Locale-dependent lowering is left out.
- Strings.Extension follows `pathinfo` for `/` separators only; the Windows `\` separator is not modelled.
- **`$text` field.** The private `$text` field (src/Extract.php:19) is never read or written by the class, so it has no counterpart.
- **Exception details.** The exception classes' codes and stack traces are not modelled. So are the PHP warnings emitted when `xl/sharedStrings.xml` does not parse; in that case the table is simply empty.
- **PHP warnings.** `simplexml_load_string` also emits warnings for every slide, worksheet or content.xml that does not parse (src/Extract.php:117, 148, 211, 237). The model assumes that no error handler turns these warnings into exceptions. With such a handler, `text()` would wrap the warning as CouldNotExtractText. Then an unparseable slide or worksheet would end the extraction instead of being skipped, and `UnparseableSlideSkipped` and `UnparseableSheetSkipped` would not hold.
- **Documented quirks.** These are modelled as the code behaves, not as properties:
  - A `t="s"` cell without a `v` child reads `(int)""`, which is 0, so it takes shared string 0.
  - A rich-text `si` without a direct `t` child reads as "".
  - ods output is a single line for the whole document, not one line per row.
