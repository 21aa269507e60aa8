/**
 * The Extract class: document() remembers a path that exists, text() runs
 * the extractor chosen by the path's extension and wraps every failure into
 * CouldNotExtractText. The extractors that walk parsed XML are methods with
 * the source's loops, each proved to compute the function of Formats that
 * describes its output.
 */
module Office2text {
  import opened Wrappers
  import opened Strings
  import opened Xml
  import opened Archive
  import opened Formats

  class Extract {
    /** Path to the source file. */
    var source: string

    constructor ()
      ensures source == ""
    {
      source := "";
    }

    /** Extract::getText($source): a fresh extractor, document($source), then text(). */
    static method GetText(fs: FileSystem, path: string, lib: Markup) returns (r: Result<string, Failure>)
      ensures path !in fs ==> r == Err(FileNotFound("Could not find document file: " + path))
      ensures path in fs ==> r == Caught(Extracted(fs[path], Extension(path), lib))
    {
      var e := new Extract();
      var d := e.Document(fs, path);
      if d.Err? {
        return Err(d.error);
      }
      r := d.value.Text(fs, lib);
    }

    /** document($source): fails with FileNotFound, leaving the source alone, when the path does not exist. */
    method Document(fs: FileSystem, path: string) returns (r: Result<Extract, Failure>)
      modifies this
      ensures path !in fs ==> r == Err(FileNotFound("Could not find document file: " + path)) && source == old(source)
      ensures path in fs ==> r == Ok(this) && source == path
    {
      if path !in fs {
        return Err(FileNotFound("Could not find document file: " + path));
      }
      source := path;
      return Ok(this);
    }

    /** text(): the extraction, with any failure rethrown as CouldNotExtractText carrying it. */
    method Text(fs: FileSystem, lib: Markup) returns (r: Result<string, Failure>)
      ensures r == Caught(Extracted(Open(fs, source), Extension(source), lib))
      ensures r.Err? ==> r.error.CouldNotExtractText? && r.error.cause.ExtractException?
    {
      ExtractionFailures(Open(fs, source), Extension(source), lib);
      var inner := ExtractText(fs, lib);
      match inner
      case Ok(s) => r := Ok(s);
      case Err(e) => r := Err(CouldNotExtractText(e.message, e));
    }

    /** extractText(): the switch on the lower-cased extension. */
    method ExtractText(fs: FileSystem, lib: Markup) returns (r: Result<string, Failure>)
      ensures r == Extracted(Open(fs, source), Extension(source), lib)
    {
      match SelectFormat(Extension(source))
      case Err(e) => r := Err(e);
      case Ok(Docx) => r := DocxText(Open(fs, source), lib);
      case Ok(Pptx) => r := ExtractPptx(fs);
      case Ok(Xlsx) => r := ExtractXlsx(fs);
      case Ok(Odt) => r := OdtText(Open(fs, source), lib);
      case Ok(Odp) => r := ExtractOdp(fs);
      case Ok(Ods) => r := ExtractOds(fs);
    }

    /** extractPptx(): probe slide1.xml, slide2.xml, ... and append every `a:t` text with a newline. */
    method ExtractPptx(fs: FileSystem) returns (r: Result<string, Failure>)
      ensures r == PptxText(Open(fs, source))
    {
      var archive := Open(fs, source);
      if archive.Unreadable? {
        return Err(ZipOpenFailure);
      }
      var entries := archive.entries;
      var text := "";
      var i: nat := 1;
      while true
        invariant i >= 1
        invariant SlidesText(Probe(entries, SlidePrefix)) == text + SlidesText(ProbeFrom(entries, SlidePrefix, i))
        decreases entries.Keys - Seen(SlidePrefix, i)
      {
        var slideName := PartName(SlidePrefix, i);
        if slideName !in entries {
          assert ProbeFrom(entries, SlidePrefix, i) == [];
          break;
        }
        ProbeStep(entries, SlidePrefix, i);
        var rest := ProbeFrom(entries, SlidePrefix, i + 1);
        assert ([entries[slideName]] + rest)[1..] == rest;
        assert SlidesText(ProbeFrom(entries, SlidePrefix, i)) == SlideText(entries[slideName]) + SlidesText(rest);
        var tree := entries[slideName].tree;
        if tree.None? {
          assert SlidesText(ProbeFrom(entries, SlidePrefix, i)) == SlidesText(rest);
          i := i + 1;
          continue;
        }
        AppendAssoc(text, SlideText(entries[slideName]), SlidesText(rest));
        text := AppendRuns(text, Descendants(tree.value, {"a:t"}));
        i := i + 1;
      }
      assert SlidesText(Probe(entries, SlidePrefix)) == text;
      r := Ok(text);
    }

    /**
     * extractXlsx(): read the shared-string table, then probe sheet1.xml,
     * sheet2.xml, ... and emit one tab-joined line per row that has a value.
     */
    method ExtractXlsx(fs: FileSystem) returns (r: Result<string, Failure>)
      ensures r == XlsxText(Open(fs, source))
    {
      var archive := Open(fs, source);
      if archive.Unreadable? {
        return Err(ZipOpenFailure);
      }
      var entries := archive.entries;
      var text := "";
      var sharedStrings := ReadSharedStrings(entries);
      var i: nat := 1;
      while true
        invariant i >= 1
        invariant SheetsText(Probe(entries, SheetPrefix), sharedStrings)
          == text + SheetsText(ProbeFrom(entries, SheetPrefix, i), sharedStrings)
        decreases entries.Keys - Seen(SheetPrefix, i)
      {
        var sheetName := PartName(SheetPrefix, i);
        if sheetName !in entries {
          assert ProbeFrom(entries, SheetPrefix, i) == [];
          assert SheetsText(Probe(entries, SheetPrefix), sharedStrings) == text;
          break;
        }
        ProbeStep(entries, SheetPrefix, i);
        var rest := ProbeFrom(entries, SheetPrefix, i + 1);
        assert ([entries[sheetName]] + rest)[1..] == rest;
        assert SheetsText(ProbeFrom(entries, SheetPrefix, i), sharedStrings)
          == SheetText(entries[sheetName], sharedStrings) + SheetsText(rest, sharedStrings);
        var tree := entries[sheetName].tree;
        if tree.None? {
          assert SheetsText(ProbeFrom(entries, SheetPrefix, i), sharedStrings) == SheetsText(rest, sharedStrings);
          i := i + 1;
          continue;
        }
        AppendAssoc(text, SheetText(entries[sheetName], sharedStrings), SheetsText(rest, sharedStrings));
        text := AppendRows(text, SheetRows(tree.value), sharedStrings);
        i := i + 1;
      }
      assert XlsxText(Zip(entries)) == Ok(text);
      r := Ok(text);
    }

    /** extractOdp(): every `text:p`, `text:span` and `text:h` text with a newline, in document order. */
    method ExtractOdp(fs: FileSystem) returns (r: Result<string, Failure>)
      ensures r == OdpText(Open(fs, source))
    {
      var archive := Open(fs, source);
      if archive.Unreadable? {
        return Err(ZipOpenFailure);
      }
      if ContentPart !in archive.entries {
        return Err(ExtractException("content.xml not found"));
      }
      var tree := archive.entries[ContentPart].tree;
      if tree.None? {
        return Err(InvalidXml);
      }
      var texts := Descendants(tree.value, OdpNames);
      var text := AppendRuns("", texts);
      assert text == Runs(texts);
      r := Ok(text);
    }

    /** extractOds(): the trimmed, non-empty cell paragraphs on one tab-joined line. */
    method ExtractOds(fs: FileSystem) returns (r: Result<string, Failure>)
      ensures r == OdsText(Open(fs, source))
    {
      var archive := Open(fs, source);
      if archive.Unreadable? {
        return Err(ZipOpenFailure);
      }
      if ContentPart !in archive.entries {
        return Err(ExtractException("content.xml not found"));
      }
      var tree := archive.entries[ContentPart].tree;
      if tree.None? {
        return Err(InvalidXml);
      }
      var cells := Nested(tree.value, CellElement, ParagraphElement, false);
      var rowData: seq<string> := [];
      for j := 0 to |cells|
        invariant rowData == OdsValues(cells[..j])
      {
        var cellText := Trim(StringValue(cells[j]));
        OdsValuesPrefix(cells, j);
        if cellText != "" {
          rowData := rowData + [cellText];
        }
      }
      assert cells[..|cells|] == cells;
      var text := "";
      if rowData != [] {
        text := Join("\t", rowData) + "\n";
      }
      r := Ok(text);
    }
  }

  /** The shared-string table: `(string)$si->t` of every `si`, or none when the part is missing. */
  method ReadSharedStrings(entries: map<string, Entry>) returns (sharedStrings: seq<string>)
    ensures sharedStrings == SharedStrings(entries)
  {
    sharedStrings := [];
    if SharedStringsPart in entries {
      // A part that does not parse yields no `si` children: PHP only warns there.
      var items := SharedItems(entries);
      for k := 0 to |items|
        invariant sharedStrings == MapNodes(items[..k], SharedItemText)
      {
        MapNodesPrefix(items, SharedItemText, k);
        sharedStrings := sharedStrings + [SharedItemText(items[k])];
      }
      assert items[..|items|] == items;
    }
  }

  /** `foreach ($texts as $t) $text .= (string)$t . "\n"`: the runs of the matched nodes, appended. */
  method AppendRuns(text: string, texts: seq<Node>) returns (r: string)
    ensures r == text + Runs(texts)
  {
    r := text;
    for j := 0 to |texts|
      invariant r == text + Runs(texts[..j])
    {
      RunsPrefix(texts, j);
      AppendAssoc(text, Runs(texts[..j]), StringValue(texts[j]) + "\n");
      r := r + (StringValue(texts[j]) + "\n");
    }
    assert texts[..|texts|] == texts;
  }

  /** `$rowText` of one row: inline string, else shared string, else raw value, keeping the non-empty ones. */
  method RowText(cells: seq<Node>, sharedStrings: seq<string>) returns (rowText: seq<string>)
    ensures rowText == RowValues(cells, sharedStrings)
  {
    rowText := [];
    for ci := 0 to |cells|
      invariant rowText == RowValues(cells[..ci], sharedStrings)
    {
      var v := ResolveCell(cells[ci], sharedStrings);
      RowValuesPrefix(cells, sharedStrings, ci);
      if v != "" {
        rowText := rowText + [v];
      }
    }
    assert cells[..|cells|] == cells;
  }

  /** `$v` of one cell: the inline string, else the shared string `(int)$c->v`, else the raw `v`, else "". */
  method ResolveCell(c: Node, sharedStrings: seq<string>) returns (v: string)
    ensures v == CellValue(c, sharedStrings)
  {
    v := "";
    if InlineString(c).Some? {
      v := InlineString(c).value;
      InlineStringFirst(c, sharedStrings, v);
    } else if Attribute(c, "t") == Some("s") {
      var index := IntOfString(ChildText(c, "v"));
      v := if 0 <= index < |sharedStrings| then sharedStrings[index] else "";
      SharedStringLookup(c, sharedStrings);
    } else {
      if FirstChild(c, "v").Some? {
        v := StringValue(FirstChild(c, "v").value);
      }
      RawValueCell(c, sharedStrings);
    }
  }

  /** The rows of one worksheet, each with a value giving one tab-joined line, appended. */
  method AppendRows(text: string, rows: seq<Node>, sharedStrings: seq<string>) returns (r: string)
    ensures r == text + RowsText(rows, sharedStrings)
  {
    r := text;
    for ri := 0 to |rows|
      invariant r == text + RowsText(rows[..ri], sharedStrings)
    {
      var rowText := RowText(Cells(rows[ri]), sharedStrings);
      RowsTextPrefix(rows, sharedStrings, ri);
      AppendAssoc(text, RowsText(rows[..ri], sharedStrings), RowLine(rows[ri], sharedStrings));
      if rowText != [] {
        r := r + (Join("\t", rowText) + "\n");
      }
    }
    assert rows[..|rows|] == rows;
  }
}
