/**
 * What each of the six extractors of Ottosmops\Office2text\Extract returns,
 * as functions of the opened archive, together with the format switch, the
 * error taxonomy and the catch-all wrapping done by text(). The methods of
 * the Extract class compute these values with the source's own loops.
 */
module Formats {
  import opened Wrappers
  import opened Strings
  import opened Xml
  import opened Archive

  // ---------------------------------------------------------------------
  // Errors
  // ---------------------------------------------------------------------

  /** The package's exceptions; CouldNotExtractText keeps the exception it wraps as its cause. */
  datatype Failure =
    | FileNotFound(message: string)
    | ExtractException(message: string)
    | CouldNotExtractText(message: string, cause: Failure)

  const ZipOpenFailure := ExtractException("Could not open file as zip")
  const InvalidXml := ExtractException("Invalid XML content")

  /** text()'s `catch (\Exception $e)`: any failure becomes CouldNotExtractText with the same message. */
  function Caught(r: Result<string, Failure>): Result<string, Failure>
  {
    match r
    case Ok(s) => Ok(s)
    case Err(e) => Err(CouldNotExtractText(e.message, e))
  }

  /** A result passes through unchanged, and every failure leaves only as CouldNotExtractText carrying it. */
  lemma CaughtWrapsEveryFailure(r: Result<string, Failure>)
    ensures Caught(r).Ok? <==> r.Ok?
    ensures r.Ok? ==> Caught(r).value == r.value
    ensures r.Err? ==> Caught(r).error == CouldNotExtractText(r.error.message, r.error)
  {
  }

  // ---------------------------------------------------------------------
  // The format switch
  // ---------------------------------------------------------------------

  datatype Format = Docx | Pptx | Xlsx | Odt | Odp | Ods

  function FormatName(f: Format): string
  {
    match f
    case Docx => "docx"
    case Pptx => "pptx"
    case Xlsx => "xlsx"
    case Odt => "odt"
    case Odp => "odp"
    case Ods => "ods"
  }

  /**
   * extractText()'s switch on the lower-cased extension: a format whose name
   * is that extension, or, when there is none, the unsupported-type failure.
   */
  function SelectFormat(ext: string): (r: Result<Format, Failure>)
    ensures r.Ok? ==> FormatName(r.value) == Lower(ext)
    ensures r.Err? ==>
      r.error == ExtractException("Unsupported file type: " + Lower(ext)) && forall f: Format :: FormatName(f) != Lower(ext)
  {
    var e := Lower(ext);
    if e == "docx" then Ok(Docx)
    else if e == "pptx" then Ok(Pptx)
    else if e == "xlsx" then Ok(Xlsx)
    else if e == "odt" then Ok(Odt)
    else if e == "odp" then Ok(Odp)
    else if e == "ods" then Ok(Ods)
    else Err(ExtractException("Unsupported file type: " + e))
  }

  /** Each format is chosen by exactly its own name, in any letter case. */
  lemma SelectFormatExact(ext: string, f: Format)
    ensures SelectFormat(ext) == Ok(f) <==> Lower(ext) == FormatName(f)
  {
  }

  /** Every other extension is refused, naming the lower-cased extension. */
  lemma SelectFormatRejects(ext: string)
    requires forall f: Format :: Lower(ext) != FormatName(f)
    ensures SelectFormat(ext) == Err(ExtractException("Unsupported file type: " + Lower(ext)))
  {
    assert Lower(ext) != FormatName(Docx) && Lower(ext) != FormatName(Pptx) && Lower(ext) != FormatName(Xlsx);
    assert Lower(ext) != FormatName(Odt) && Lower(ext) != FormatName(Odp) && Lower(ext) != FormatName(Ods);
  }

  /** Extensions that differ only in the case of ASCII letters are treated alike. */
  lemma SelectFormatIgnoresCase(a: string, b: string)
    requires Lower(a) == Lower(b)
    ensures SelectFormat(a) == SelectFormat(b)
  {
  }

  /** "DOCX" and "Ods" select the same extractors as "docx" and "ods". */
  lemma UpperCaseExtensions()
    ensures SelectFormat("DOCX") == Ok(Docx)
    ensures SelectFormat("Ods") == Ok(Ods)
  {
    assert Lower("DOCX") == "docx";
    assert Lower("Ods") == "ods";
  }

  // ---------------------------------------------------------------------
  // docx and odt: the markup rewriting pipeline
  // ---------------------------------------------------------------------

  /**
   * The library calls of the tag-stripping path: the two non-literal regex
   * rewrites of docx (tab and break elements), strip_tags, and
   * html_entity_decode with ENT_QUOTES | ENT_XML1 and UTF-8.
   */
  datatype Markup = Markup(
    docxTabs: string -> string,
    docxBreaks: string -> string,
    stripTags: string -> string,
    decodeEntities: string -> string)

  const DocumentPart := "word/document.xml"
  const ContentPart := "content.xml"

  /** The paragraph step of docx: `<w:p>` is dropped, then each `</w:p>` becomes a newline. */
  function DocxParagraphs(xml: string): string
  {
    ReplaceAll(ReplaceAll(xml, "<w:p>", ""), "</w:p>", "\n")
  }

  /**
   * extractDocx(): fails only when the archive does not open or has no
   * word/document.xml; otherwise the part goes through the tab and break
   * rewrites, the paragraph step, strip_tags and entity decoding, in that order.
   */
  function DocxText(a: Archive, lib: Markup): (r: Result<string, Failure>)
    ensures r.Err? <==> a.Unreadable? || DocumentPart !in a.entries
    ensures a.Unreadable? ==> r == Err(ZipOpenFailure)
    ensures a.Zip? && DocumentPart !in a.entries ==> r == Err(ExtractException("word/document.xml not found"))
    ensures r.Ok? ==>
      r.value == lib.decodeEntities(lib.stripTags(DocxParagraphs(lib.docxBreaks(lib.docxTabs(a.entries[DocumentPart].raw)))))
  {
    match a
    case Unreadable => Err(ZipOpenFailure)
    case Zip(entries) =>
      if DocumentPart !in entries then Err(ExtractException("word/document.xml not found"))
      else
        var xml := lib.docxBreaks(lib.docxTabs(entries[DocumentPart].raw));
        Ok(lib.decodeEntities(lib.stripTags(DocxParagraphs(xml))))
  }

  /** The literal rewrites of odt: tab and line-break elements, then the paragraph step. */
  function OdtRewrite(xml: string): string
  {
    var tabs := ReplaceAll(xml, "<text:tab/>", "\t");
    var breaks := ReplaceAll(tabs, "<text:line-break/>", "\n");
    ReplaceAll(ReplaceAll(breaks, "<text:p", "<text:p"), "</text:p>", "\n")
  }

  /**
   * extractOdt(): fails only when the archive does not open or has no
   * content.xml; otherwise the literal rewrites, strip_tags and entity
   * decoding, in that order.
   */
  function OdtText(a: Archive, lib: Markup): (r: Result<string, Failure>)
    ensures r.Err? <==> a.Unreadable? || ContentPart !in a.entries
    ensures a.Unreadable? ==> r == Err(ZipOpenFailure)
    ensures a.Zip? && ContentPart !in a.entries ==> r == Err(ExtractException("content.xml not found"))
    ensures r.Ok? ==> r.value == lib.decodeEntities(lib.stripTags(OdtRewrite(a.entries[ContentPart].raw)))
  {
    match a
    case Unreadable => Err(ZipOpenFailure)
    case Zip(entries) =>
      if ContentPart !in entries then Err(ExtractException("content.xml not found"))
      else Ok(lib.decodeEntities(lib.stripTags(OdtRewrite(entries[ContentPart].raw))))
  }

  /** After the docx paragraph step no closing paragraph tag is left for strip_tags to swallow. */
  lemma DocxParagraphsCloseEveryParagraph(xml: string)
    ensures !Contains(DocxParagraphs(xml), "</w:p>")
  {
    ReplaceAllClears(ReplaceAll(xml, "<w:p>", ""), "</w:p>", "\n");
  }

  /**
   * By contrast the opening tag is removed in a single pass, so removing one
   * occurrence can join the text around it into a new one.
   */
  lemma DocxOpeningTagCanReappear()
    ensures Contains(ReplaceAll("<w:<w:p>p>", "<w:p>", ""), "<w:p>")
  {
    var p := "<w:p>";
    assert "p>"[..0] == [];
    assert ReplaceAll("p>", p, "") == "p>";
    assert "<w:p>p>"[..5] == p && "<w:p>p>"[5..] == "p>";
    assert ReplaceAll("<w:p>p>", p, "") == "p>";
    assert ":<w:p>p>"[..5][0] != p[0] && ":<w:p>p>"[1..] == "<w:p>p>";
    assert ReplaceAll(":<w:p>p>", p, "") == ":p>";
    assert "w:<w:p>p>"[..5][0] != p[0] && "w:<w:p>p>"[1..] == ":<w:p>p>";
    assert ReplaceAll("w:<w:p>p>", p, "") == "w:p>";
    assert "<w:<w:p>p>"[..5][3] != p[3] && "<w:<w:p>p>"[1..] == "w:<w:p>p>";
    assert ReplaceAll("<w:<w:p>p>", p, "") == p;
    assert p[..5] == p;
  }

  /** The odt rewrite's `<text:p` replacement is the identity, and no `</text:p>` is left. */
  lemma OdtRewriteParagraphs(xml: string)
    ensures OdtRewrite(xml)
      == ReplaceAll(ReplaceAll(ReplaceAll(xml, "<text:tab/>", "\t"), "<text:line-break/>", "\n"), "</text:p>", "\n")
    ensures !Contains(OdtRewrite(xml), "</text:p>")
  {
    var breaks := ReplaceAll(ReplaceAll(xml, "<text:tab/>", "\t"), "<text:line-break/>", "\n");
    ReplaceBySelf(breaks, "<text:p");
    ReplaceAllClears(breaks, "</text:p>", "\n");
  }

  // ---------------------------------------------------------------------
  // Text runs: pptx slides and odp
  // ---------------------------------------------------------------------

  /** `f` of each node, in order. */
  function MapNodes(ns: seq<Node>, f: Node -> string): (r: seq<string>)
    ensures |r| == |ns| && forall i :: 0 <= i < |ns| ==> r[i] == f(ns[i])
  {
    seq(|ns|, i requires 0 <= i < |ns| => f(ns[i]))
  }

  /** Mapping one node more appends its image. */
  lemma MapNodesPrefix(ns: seq<Node>, f: Node -> string, j: nat)
    requires j < |ns|
    ensures MapNodes(ns[..j + 1], f) == MapNodes(ns[..j], f) + [f(ns[j])]
  {
    var before, after := MapNodes(ns[..j], f), MapNodes(ns[..j + 1], f);
    forall k | 0 <= k < j + 1
      ensures after[k] == (before + [f(ns[j])])[k]
    {
      assert ns[..j + 1][k] == ns[k];
    }
  }

  /** `foreach ($texts as $t) $text .= (string)$t . "\n"`. */
  function Runs(ns: seq<Node>): string
  {
    Lines(MapNodes(ns, StringValue))
  }

  /** Each further matched node appends its text and one newline. */
  lemma RunsPrefix(ns: seq<Node>, j: nat)
    requires j < |ns|
    ensures Runs(ns[..j + 1]) == Runs(ns[..j]) + (StringValue(ns[j]) + "\n")
  {
    MapNodesPrefix(ns, StringValue, j);
    var ts := MapNodes(ns[..j + 1], StringValue);
    assert ts[..|ts| - 1] == MapNodes(ns[..j], StringValue);
  }

  /**
   * Cut at newlines, the runs give back each matched node's text in match
   * order and an empty remainder: one newline per matched node.
   */
  lemma RunsRoundTrip(ns: seq<Node>)
    requires forall i :: 0 <= i < |ns| ==> '\n' !in StringValue(ns[i])
    ensures Split(Runs(ns), '\n') == MapNodes(ns, StringValue) + [""]
  {
    LinesRoundTrip(MapNodes(ns, StringValue));
  }

  const SlidePrefix := "ppt/slides/slide"

  /** What one slide contributes: the runs of its `//a:t` nodes, or nothing when it does not parse. */
  function SlideText(e: Entry): string
  {
    match e.tree
    case None => ""
    case Some(root) => Runs(Descendants(root, {"a:t"}))
  }

  /** The slides' contributions, in slide order. */
  function SlidesText(es: seq<Entry>): string
  {
    if es == [] then "" else SlideText(es[0]) + SlidesText(es[1..])
  }

  /** extractPptx(). */
  function PptxText(a: Archive): Result<string, Failure>
  {
    match a
    case Unreadable => Err(ZipOpenFailure)
    case Zip(entries) => Ok(SlidesText(Probe(entries, SlidePrefix)))
  }

  lemma {:induction false} SlidesTextAppend(a: seq<Entry>, b: seq<Entry>)
    ensures SlidesText(a + b) == SlidesText(a) + SlidesText(b)
  {
    if a != [] {
      assert (a + b)[1..] == a[1..] + b;
      SlidesTextAppend(a[1..], b);
    } else {
      assert a + b == b;
    }
  }

  /** A slide that fails to parse adds nothing, and the slides after it still count. */
  lemma UnparseableSlideSkipped(before: seq<Entry>, raw: string, after: seq<Entry>)
    ensures SlidesText(before + [Entry(raw, None)] + after) == SlidesText(before) + SlidesText(after)
  {
    SlidesTextAppend(before + [Entry(raw, None)], after);
    SlidesTextAppend(before, [Entry(raw, None)]);
  }

  /**
   * The output of a pptx is fixed by any run of slides 1..n that are present,
   * in order, with slide n+1 missing: it is their texts, in slide order.
   */
  lemma PptxSlideOrder(entries: map<string, Entry>, ps: seq<Entry>)
    requires forall k :: 1 <= k <= |ps| ==> PartName(SlidePrefix, k) in entries && ps[k - 1] == entries[PartName(SlidePrefix, k)]
    requires PartName(SlidePrefix, |ps| + 1) !in entries
    ensures PptxText(Zip(entries)) == Ok(SlidesText(ps))
  {
    ProbeUnique(entries, SlidePrefix, ps);
  }

  const OdpNames: set<string> := {"text:p", "text:span", "text:h"}

  /** extractOdp(). */
  function OdpText(a: Archive): Result<string, Failure>
  {
    match a
    case Unreadable => Err(ZipOpenFailure)
    case Zip(entries) =>
      if ContentPart !in entries then Err(ExtractException("content.xml not found"))
      else match entries[ContentPart].tree
        case None => Err(InvalidXml)
        case Some(root) => Ok(Runs(Descendants(root, OdpNames)))
  }

  // ---------------------------------------------------------------------
  // xlsx: shared strings, cells, rows and sheets
  // ---------------------------------------------------------------------

  const SheetPrefix := "xl/worksheets/sheet"
  const SharedStringsPart := "xl/sharedStrings.xml"

  /** `(string)$si->t`: the first `t` child's text; rich-text entries without one read as "". */
  function SharedItemText(si: Node): string
  {
    match FirstChild(si, "t")
    case None => ""
    case Some(t) => StringValue(t)
  }

  /** The `si` children of the shared-string part's root. */
  function SharedItems(entries: map<string, Entry>): seq<Node>
  {
    if SharedStringsPart in entries && entries[SharedStringsPart].tree.Some?
    then ChildrenNamed(Kids(entries[SharedStringsPart].tree.value), "si")
    else []
  }

  /** The shared-string table: one entry per `si`, in order; empty when the part is missing or unparseable. */
  function SharedStrings(entries: map<string, Entry>): (r: seq<string>)
    ensures |r| == |SharedItems(entries)|
    ensures forall k :: 0 <= k < |r| ==> r[k] == SharedItemText(SharedItems(entries)[k])
  {
    MapNodes(SharedItems(entries), SharedItemText)
  }

  /** `$sharedStrings[$index] ?? ''`. */
  function SharedString(table: seq<string>, index: int): (r: string)
    ensures 0 <= index < |table| ==> r == table[index]
    ensures !(0 <= index < |table|) ==> r == ""
  {
    if 0 <= index < |table| then table[index] else ""
  }

  /** `$node['key']`, when the attribute is set. */
  function Attribute(n: Node, key: string): Option<string>
  {
    if n.Element? && key in n.attributes then Some(n.attributes[key]) else None
  }

  /** `$node->child` read as a string: "" when there is no such child. */
  function ChildText(n: Node, name: string): string
  {
    match FirstChild(n, name)
    case None => ""
    case Some(c) => StringValue(c)
  }

  /** The inline string `is/t` of a cell, when the cell has one. */
  function InlineString(c: Node): Option<string>
  {
    match FirstChild(c, "is")
    case None => None
    case Some(inline) =>
      match FirstChild(inline, "t")
      case None => None
      case Some(t) => Some(StringValue(t))
  }

  /**
   * The value of one cell `c`: inline string, else shared string, else raw
   * value, else "". Whatever it is, it comes from one of those three places.
   */
  function CellValue(c: Node, table: seq<string>): (r: string)
    ensures r != "" ==> InlineString(c) == Some(r) || r in table || r == ChildText(c, "v")
  {
    if InlineString(c).Some? then InlineString(c).value
    else if Attribute(c, "t") == Some("s") then SharedString(table, IntOfString(ChildText(c, "v")))
    else if FirstChild(c, "v").Some? then StringValue(FirstChild(c, "v").value)
    else ""
  }

  /** The value of each cell, in cell order. */
  function CellValues(cells: seq<Node>, table: seq<string>): (r: seq<string>)
    ensures |r| == |cells| && forall i :: 0 <= i < |cells| ==> r[i] == CellValue(cells[i], table)
  {
    MapNodes(cells, CellValueIn(table))
  }

  /** CellValue against a fixed shared-string table. */
  function CellValueIn(table: seq<string>): Node -> string
  {
    (c: Node) => CellValue(c, table)
  }

  /** The non-empty cell values of a row, in cell order (`$rowText`). */
  function RowValues(cells: seq<Node>, table: seq<string>): seq<string>
  {
    NonEmpty(CellValues(cells, table))
  }

  /** Each further cell adds its value to the row's values, unless that value is "". */
  lemma RowValuesPrefix(cells: seq<Node>, table: seq<string>, j: nat)
    requires j < |cells|
    ensures var v := CellValue(cells[j], table);
      RowValues(cells[..j + 1], table) == RowValues(cells[..j], table) + (if v != "" then [v] else [])
  {
    MapNodesPrefix(cells, CellValueIn(table), j);
    NonEmptySnoc(CellValues(cells[..j], table), CellValue(cells[j], table));
  }

  function Cells(row: Node): seq<Node>
  {
    ChildrenNamed(Kids(row), "c")
  }

  /** What one row adds: its values joined by tabs and a newline, or nothing when it has none. */
  function RowLine(row: Node, table: seq<string>): string
  {
    var vals := RowValues(Cells(row), table);
    if vals == [] then "" else Join("\t", vals) + "\n"
  }

  /** The rows' lines, in row order. */
  function RowsText(rows: seq<Node>, table: seq<string>): string
  {
    if rows == [] then "" else RowsText(rows[..|rows| - 1], table) + RowLine(rows[|rows| - 1], table)
  }

  /** Each further row appends its line. */
  lemma RowsTextPrefix(rows: seq<Node>, table: seq<string>, j: nat)
    requires j < |rows|
    ensures RowsText(rows[..j + 1], table) == RowsText(rows[..j], table) + RowLine(rows[j], table)
  {
    assert rows[..j + 1][..j] == rows[..j];
  }

  /** The tab-joined lines of the rows that have a value, in row order. */
  function RowLines(rows: seq<Node>, table: seq<string>): (r: seq<string>)
    ensures forall i :: 0 <= i < |r| ==> r[i] != ""
  {
    if rows == [] then []
    else
      var vals := RowValues(Cells(rows[|rows| - 1]), table);
      RowLines(rows[..|rows| - 1], table) + (if vals == [] then [] else [Join("\t", vals)])
  }

  /** `$sxml->sheetData->row`. */
  function SheetRows(root: Node): seq<Node>
  {
    match FirstChild(root, "sheetData")
    case None => []
    case Some(data) => ChildrenNamed(data.children, "row")
  }

  /** What one worksheet contributes; nothing when it does not parse. */
  function SheetText(e: Entry, table: seq<string>): string
  {
    match e.tree
    case None => ""
    case Some(root) => RowsText(SheetRows(root), table)
  }

  function SheetsText(es: seq<Entry>, table: seq<string>): string
  {
    if es == [] then "" else SheetText(es[0], table) + SheetsText(es[1..], table)
  }

  /** extractXlsx(). */
  function XlsxText(a: Archive): Result<string, Failure>
  {
    match a
    case Unreadable => Err(ZipOpenFailure)
    case Zip(entries) => Ok(SheetsText(Probe(entries, SheetPrefix), SharedStrings(entries)))
  }

  /** The sheets' text is the concatenation of each sheet's, in sheet order. */
  lemma {:induction false} SheetsTextAppend(a: seq<Entry>, b: seq<Entry>, table: seq<string>)
    ensures SheetsText(a + b, table) == SheetsText(a, table) + SheetsText(b, table)
  {
    if a != [] {
      assert (a + b)[1..] == a[1..] + b;
      SheetsTextAppend(a[1..], b, table);
      AppendAssoc(SheetText(a[0], table), SheetsText(a[1..], table), SheetsText(b, table));
    } else {
      assert a + b == b;
    }
  }

  /** A worksheet that fails to parse adds nothing, and the worksheets after it still count. */
  lemma UnparseableSheetSkipped(before: seq<Entry>, raw: string, after: seq<Entry>, table: seq<string>)
    ensures SheetsText(before + [Entry(raw, None)] + after, table) == SheetsText(before, table) + SheetsText(after, table)
  {
    SheetsTextAppend(before + [Entry(raw, None)], after, table);
    SheetsTextAppend(before, [Entry(raw, None)], table);
  }

  /**
   * The output of an xlsx is fixed by any run of worksheets 1..n that are
   * present, in order, with worksheet n+1 missing.
   */
  lemma XlsxSheetOrder(entries: map<string, Entry>, ps: seq<Entry>)
    requires forall k :: 1 <= k <= |ps| ==> PartName(SheetPrefix, k) in entries && ps[k - 1] == entries[PartName(SheetPrefix, k)]
    requires PartName(SheetPrefix, |ps| + 1) !in entries
    ensures XlsxText(Zip(entries)) == Ok(SheetsText(ps, SharedStrings(entries)))
  {
    ProbeUnique(entries, SheetPrefix, ps);
  }

  /** An inline string wins, whatever the cell's type attribute says. */
  lemma InlineStringFirst(c: Node, table: seq<string>, s: string)
    requires InlineString(c) == Some(s)
    ensures CellValue(c, table) == s
  {
  }

  /**
   * A shared-string cell whose value is the numeral of k reads table entry k,
   * and "" when k is past the end of the table (never a failure).
   */
  lemma SharedStringCell(c: Node, table: seq<string>, k: nat)
    requires InlineString(c).None? && Attribute(c, "t") == Some("s")
    requires ChildText(c, "v") == NatToString(k)
    ensures k < |table| ==> CellValue(c, table) == table[k]
    ensures k >= |table| ==> CellValue(c, table) == ""
  {
    IntOfNumeral(k);
  }

  /** Without an inline string, a shared-string cell reads `$sharedStrings[(int)$c->v] ?? ''`. */
  lemma SharedStringLookup(c: Node, table: seq<string>)
    requires InlineString(c).None? && Attribute(c, "t") == Some("s")
    ensures var index := IntOfString(ChildText(c, "v"));
      CellValue(c, table) == if 0 <= index < |table| then table[index] else ""
  {
  }

  /** Without an inline string or a shared-string type, the raw value `v` is used, or "". */
  lemma RawValueCell(c: Node, table: seq<string>)
    requires InlineString(c).None? && Attribute(c, "t") != Some("s")
    ensures CellValue(c, table) == ChildText(c, "v")
  {
  }

  /** A row whose only cell resolves to "" (an out-of-range shared string, say) produces no line. */
  lemma EmptyCellRowDropped(row: Node, table: seq<string>)
    requires |Cells(row)| == 1 && CellValue(Cells(row)[0], table) == ""
    ensures RowLine(row, table) == ""
  {
  }

  /** A row yields a line exactly when one of its cells has a value, and the line is never just "\n". */
  lemma RowLineShape(row: Node, table: seq<string>)
    ensures RowLine(row, table) == "" <==> forall i :: 0 <= i < |Cells(row)| ==> CellValue(Cells(row)[i], table) == ""
    ensures RowLine(row, table) != "" ==>
      var vals := RowValues(Cells(row), table);
      Join("\t", vals) != "" && RowLine(row, table) == Join("\t", vals) + "\n"
  {
    NonEmptyEmptyIff(CellValues(Cells(row), table));
    var vals := RowValues(Cells(row), table);
    if vals != [] {
      JoinFirst("\t", vals);
    }
  }

  /** When no value holds a tab, cutting a row's line at tabs gives back its non-empty values in order. */
  lemma RowLineRoundTrip(row: Node, table: seq<string>)
    requires RowValues(Cells(row), table) != []
    requires forall i :: 0 <= i < |RowValues(Cells(row), table)| ==> '\t' !in RowValues(Cells(row), table)[i]
    ensures RowLine(row, table) == Join("\t", RowValues(Cells(row), table)) + "\n"
    ensures Split(Join("\t", RowValues(Cells(row), table)), '\t') == RowValues(Cells(row), table)
  {
    SplitJoin(RowValues(Cells(row), table), '\t');
  }

  /** A sheet's text is its non-empty row lines, each followed by a newline. */
  lemma {:induction false} RowsTextIsLines(rows: seq<Node>, table: seq<string>)
    ensures RowsText(rows, table) == Lines(RowLines(rows, table))
  {
    if rows != [] {
      var init := rows[..|rows| - 1];
      RowsTextIsLines(init, table);
      var vals := RowValues(Cells(rows[|rows| - 1]), table);
      assert RowsText(rows, table) == RowsText(init, table) + RowLine(rows[|rows| - 1], table);
      if vals != [] {
        var ls := RowLines(rows, table);
        assert ls == RowLines(init, table) + [Join("\t", vals)];
        assert ls[..|ls| - 1] == RowLines(init, table);
        assert Lines(ls) == Lines(RowLines(init, table)) + Join("\t", vals) + "\n";
      } else {
        assert RowLines(rows, table) == RowLines(init, table);
      }
    }
  }

  /** A join no element of which contains `c` contains no `c` either, when `c` is not the separator. */
  lemma {:induction false} JoinAvoids(sep: string, xs: seq<string>, c: char)
    requires c !in sep
    requires forall i :: 0 <= i < |xs| ==> c !in xs[i]
    ensures c !in Join(sep, xs)
  {
    if |xs| > 1 {
      JoinAvoids(sep, xs[1..], c);
    }
  }

  predicate HasNoNewline(v: string)
  {
    '\n' !in v
  }

  lemma {:induction false} RowLinesAvoidNewline(rows: seq<Node>, table: seq<string>)
    requires forall r, i :: 0 <= r < |rows| && 0 <= i < |Cells(rows[r])| ==> '\n' !in CellValue(Cells(rows[r])[i], table)
    ensures forall i :: 0 <= i < |RowLines(rows, table)| ==> '\n' !in RowLines(rows, table)[i]
  {
    if rows != [] {
      var init := rows[..|rows| - 1];
      assert forall r :: 0 <= r < |init| ==> init[r] == rows[r];
      RowLinesAvoidNewline(init, table);
      var cells := Cells(rows[|rows| - 1]);
      var vals := RowValues(cells, table);
      NonEmptyPreserves(CellValues(cells, table), HasNoNewline);
      JoinAvoids("\t", vals, '\n');
    }
  }

  /**
   * When no cell value holds a newline, the lines of a sheet are exactly the
   * tab-joined rows that have a value, none of them empty.
   */
  lemma SheetHasNoEmptyLine(rows: seq<Node>, table: seq<string>)
    requires forall r, i :: 0 <= r < |rows| && 0 <= i < |Cells(rows[r])| ==> '\n' !in CellValue(Cells(rows[r])[i], table)
    ensures Split(RowsText(rows, table), '\n') == RowLines(rows, table) + [""]
    ensures forall i :: 0 <= i < |RowLines(rows, table)| ==> RowLines(rows, table)[i] != ""
  {
    RowsTextIsLines(rows, table);
    RowLinesAvoidNewline(rows, table);
    LinesRoundTrip(RowLines(rows, table));
  }

  // ---------------------------------------------------------------------
  // ods: one flattened line
  // ---------------------------------------------------------------------

  const CellElement := "table:table-cell"
  const ParagraphElement := "text:p"

  /** The trimmed text of each matched cell paragraph, in document order. */
  function TrimmedTexts(ns: seq<Node>): (r: seq<string>)
    ensures |r| == |ns| && forall i :: 0 <= i < |ns| ==> r[i] == Trim(StringValue(ns[i]))
  {
    MapNodes(ns, TrimmedText)
  }

  function TrimmedText(n: Node): string
  {
    Trim(StringValue(n))
  }

  /** The trimmed, non-empty texts of the matched cell paragraphs, in document order (`$rowData`). */
  function OdsValues(ns: seq<Node>): seq<string>
  {
    NonEmpty(TrimmedTexts(ns))
  }

  /** A non-empty value with no whitespace at either end. */
  predicate IsTrimmedValue(v: string)
  {
    v != "" && !IsTrimSpace(v[0]) && !IsTrimSpace(v[|v| - 1])
  }

  /** Every value kept is non-empty and starts and ends with a non-space character. */
  lemma OdsValuesTrimmed(ns: seq<Node>)
    ensures forall i :: 0 <= i < |OdsValues(ns)| ==> IsTrimmedValue(OdsValues(ns)[i])
  {
    TrimmedTextsTrimmed(ns);
    NonEmptyPreserves(TrimmedTexts(ns), IsTrimmedValue);
  }

  lemma TrimmedTextsTrimmed(ns: seq<Node>)
    ensures forall i :: 0 <= i < |TrimmedTexts(ns)| && TrimmedTexts(ns)[i] != "" ==> IsTrimmedValue(TrimmedTexts(ns)[i])
  {
    var ts := TrimmedTexts(ns);
    forall i | 0 <= i < |ts| && ts[i] != ""
      ensures IsTrimmedValue(ts[i])
    {
      TrimNonEmptyTrimmed(StringValue(ns[i]), ts[i]);
    }
  }

  lemma TrimNonEmptyTrimmed(s: string, t: string)
    requires t == Trim(s) && t != ""
    ensures IsTrimmedValue(t)
  {
  }

  /** Each further cell paragraph adds its trimmed text, unless that is "". */
  lemma OdsValuesPrefix(ns: seq<Node>, j: nat)
    requires j < |ns|
    ensures var t := Trim(StringValue(ns[j]));
      OdsValues(ns[..j + 1]) == OdsValues(ns[..j]) + (if t != "" then [t] else [])
  {
    MapNodesPrefix(ns, TrimmedText, j);
    NonEmptySnoc(TrimmedTexts(ns[..j]), Trim(StringValue(ns[j])));
  }

  /** `implode("\t", $rowData) . "\n"` when there is a value, else "". */
  function Flatten(vals: seq<string>): string
  {
    if vals == [] then "" else Join("\t", vals) + "\n"
  }

  /** extractOds(). */
  function OdsText(a: Archive): Result<string, Failure>
  {
    match a
    case Unreadable => Err(ZipOpenFailure)
    case Zip(entries) =>
      if ContentPart !in entries then Err(ExtractException("content.xml not found"))
      else match entries[ContentPart].tree
        case None => Err(InvalidXml)
        case Some(root) => Ok(Flatten(OdsValues(Nested(root, CellElement, ParagraphElement, false))))
  }

  /** The flattened text is "" exactly when every cell paragraph trims to nothing. */
  lemma FlattenEmptyIff(ns: seq<Node>)
    ensures Flatten(OdsValues(ns)) == "" <==> forall i :: 0 <= i < |ns| ==> Trim(StringValue(ns[i])) == ""
  {
    var ts := TrimmedTexts(ns);
    NonEmptyEmptyIff(ts);
    assert Flatten(OdsValues(ns)) == "" <==> OdsValues(ns) == [];
    assert (forall i :: 0 <= i < |ts| ==> ts[i] == "") <==> forall i :: 0 <= i < |ns| ==> Trim(StringValue(ns[i])) == "";
  }

  /**
   * A non-empty flattened text starts with a non-space and ends in exactly
   * one newline, preceded by a non-space character.
   */
  lemma FlattenShape(ns: seq<Node>)
    ensures var r := Flatten(OdsValues(ns));
      r != "" ==> |r| >= 2 && r[|r| - 1] == '\n' && !IsTrimSpace(r[|r| - 2]) && !IsTrimSpace(r[0])
  {
    OdsValuesTrimmed(ns);
    FlattenTrimmed(OdsValues(ns));
  }

  lemma FlattenTrimmed(vals: seq<string>)
    requires forall i :: 0 <= i < |vals| ==> vals[i] != "" && !IsTrimSpace(vals[i][0]) && !IsTrimSpace(vals[i][|vals[i]| - 1])
    ensures var r := Flatten(vals);
      r != "" ==> |r| >= 2 && r[|r| - 1] == '\n' && !IsTrimSpace(r[|r| - 2]) && !IsTrimSpace(r[0])
  {
    if vals != [] {
      JoinLast("\t", vals);
      JoinFirst("\t", vals);
      var j := Join("\t", vals);
      assert Flatten(vals) == j + "\n";
    }
  }

  /** When no value holds a tab, cutting the line at tabs (after its newline) gives the values back. */
  lemma FlattenRoundTrip(ns: seq<Node>)
    requires OdsValues(ns) != []
    requires forall i :: 0 <= i < |OdsValues(ns)| ==> '\t' !in OdsValues(ns)[i]
    ensures var r := Flatten(OdsValues(ns));
      r[|r| - 1] == '\n' && Split(r[..|r| - 1], '\t') == OdsValues(ns)
  {
    var vals := OdsValues(ns);
    SplitJoin(vals, '\t');
    var r := Flatten(vals);
    assert r[..|r| - 1] == Join("\t", vals);
  }

  // ---------------------------------------------------------------------
  // The whole extraction
  // ---------------------------------------------------------------------

  /** extractText(): dispatch on the extension, then the chosen extractor. */
  function Extracted(a: Archive, ext: string, lib: Markup): Result<string, Failure>
  {
    match SelectFormat(ext)
    case Err(e) => Err(e)
    case Ok(f) =>
      match f
      case Docx => DocxText(a, lib)
      case Pptx => PptxText(a)
      case Xlsx => XlsxText(a)
      case Odt => OdtText(a, lib)
      case Odp => OdpText(a)
      case Ods => OdsText(a)
  }

  /** Inside the extraction every failure is an ExtractException, with one of five messages. */
  lemma ExtractionFailures(a: Archive, ext: string, lib: Markup)
    ensures var r := Extracted(a, ext, lib);
      r.Err? ==> (r.error.ExtractException? &&
        r.error.message in {"Unsupported file type: " + Lower(ext), "Could not open file as zip",
                            "word/document.xml not found", "content.xml not found", "Invalid XML content"})
  {
  }

  /** A supported file that does not open as a ZIP archive fails the same way for all six formats. */
  lemma UnreadableArchiveFails(ext: string, lib: Markup)
    requires SelectFormat(ext).Ok?
    ensures Extracted(Unreadable, ext, lib) == Err(ZipOpenFailure)
  {
  }

  /** A missing main part fails docx, odt, odp and ods, naming the part. */
  lemma MissingMainPartFails(entries: map<string, Entry>, ext: string, lib: Markup)
    requires SelectFormat(ext).Ok? && SelectFormat(ext).value in {Docx, Odt, Odp, Ods}
    ensures SelectFormat(ext).value == Docx && DocumentPart !in entries ==>
      Extracted(Zip(entries), ext, lib) == Err(ExtractException("word/document.xml not found"))
    ensures SelectFormat(ext).value != Docx && ContentPart !in entries ==>
      Extracted(Zip(entries), ext, lib) == Err(ExtractException("content.xml not found"))
  {
  }

  /** A content part that does not parse fails odp and ods; docx and odt never parse theirs. */
  lemma InvalidContentFails(entries: map<string, Entry>, ext: string, lib: Markup)
    requires SelectFormat(ext).Ok? && SelectFormat(ext).value in {Odp, Ods}
    requires ContentPart in entries && entries[ContentPart].tree.None?
    ensures Extracted(Zip(entries), ext, lib) == Err(InvalidXml)
  {
  }

  /** pptx and xlsx never fail on an opened archive: with no numbered part 1 they give "". */
  lemma NumberedFormatsNeverFailOnZip(entries: map<string, Entry>, ext: string, lib: Markup)
    requires SelectFormat(ext).Ok? && SelectFormat(ext).value in {Pptx, Xlsx}
    ensures Extracted(Zip(entries), ext, lib).Ok?
    ensures SelectFormat(ext).value == Pptx && PartName(SlidePrefix, 1) !in entries ==>
      Extracted(Zip(entries), ext, lib) == Ok("")
    ensures SelectFormat(ext).value == Xlsx && PartName(SheetPrefix, 1) !in entries ==>
      Extracted(Zip(entries), ext, lib) == Ok("")
  {
  }
}
