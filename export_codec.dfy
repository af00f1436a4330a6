/**
 * The export codec: for the active module and a requested format, the
 * content, file name and media type offered for download, or the print flow
 * with no download at all.
 */
module ExportCodec {
  import opened Text
  import opened Documents
  import opened ImportCodec

  /** The formats the File menu offers. */
  datatype Format = Html | Pdf | Doc | Txt

  function Extension(f: Format): string {
    match f
    case Html => "html"
    case Pdf => "pdf"
    case Doc => "doc"
    case Txt => "txt"
  }

  /** What an export does: offer a file for download, or start the print flow and offer nothing. */
  datatype Export = Download(content: string, filename: string, mediaType: string) | PrintOnly

  const DoctypeTag: string := "<!DOCTYPE html>"
  const HtmlTag: string := "<html>"
  const HeadTag: string := "<head>"
  const MetaTag: string := "<meta charset=\"UTF-8\">"
  const ShellHead: string := DoctypeTag + HtmlTag + HeadTag + MetaTag

  const HeadEnd: string := "</head><body><h1>"
  const HeadingEnd: string := "</h1>"
  const DocumentEnd: string := "</body></html>"

  /** The minimal document the writer's html and doc exports wrap around the content markup. */
  function WriterShell(title: string, content: string): (html: string)
    ensures StartsWith(html, ShellHead + TitleOpen + title + TitleClose)
    ensures EndsWith(html, HeadingEnd + content + DocumentEnd)
  {
    var opening := ShellHead + TitleOpen + title + TitleClose;
    var middle := HeadEnd + title;
    var closing := HeadingEnd + content + DocumentEnd;
    ConcatEnds(opening, middle, closing);
    assert opening + middle + closing == ShellHead + TitleOpen + title + TitleClose + HeadEnd + title + HeadingEnd + content + DocumentEnd;
    ShellHead + TitleOpen + title + TitleClose + HeadEnd + title + HeadingEnd + content + DocumentEnd
  }

  /** The writer module's export; `textContent` is the browser's markup-to-text reduction. */
  function WriterExport(doc: WriterDoc, format: Format, textContent: string -> string): (e: Export)
    ensures e.PrintOnly? <==> format == Pdf
    ensures e.Download? ==> e.filename == DisplayTitle(doc.title) + "." + Extension(format)
    ensures format == Html ==> e.mediaType == "text/html"
    ensures format == Doc ==> e.mediaType == "application/msword"
    ensures format == Txt ==> e.content == textContent(doc.content) && e.mediaType == "text/plain"
  {
    var title := DisplayTitle(doc.title);
    match format
    case Html => Download(WriterShell(title, doc.content), title + ".html", "text/html")
    case Txt => Download(textContent(doc.content), title + ".txt", "text/plain")
    case Doc => Download(WriterShell(title, doc.content), title + ".doc", "application/msword")
    case Pdf => PrintOnly
  }

  /** The html and doc exports carry the same content; only the extension and the media type differ. */
  lemma HtmlAndDocAgree(doc: WriterDoc, textContent: string -> string)
    ensures WriterExport(doc, Html, textContent).content == WriterExport(doc, Doc, textContent).content
  {
  }

  /**
   * Exporting the writer as html and importing the file gives back the
   * exported title, for a one-line title with no markup in it.
   */
  lemma WriterTitleRoundTrip(doc: WriterDoc, name: string)
    requires SingleLine(doc.title) && '<' !in doc.title
    ensures var title := DisplayTitle(doc.title);
            HtmlTitle(WriterShell(title, doc.content), name) == title
  {
    var title := DisplayTitle(doc.title);
    var rest := HeadEnd + title + HeadingEnd + doc.content + DocumentEnd;
    DisplayTitlePlain(doc.title);
    ShellSplit(title, doc.content);
    HeadOpensNoTitle(TitleOpen + title + TitleClose + rest);
    TitleOfDocument(ShellHead, TitleOpen, title, TitleClose, rest, name);
  }

  /** A one-line title without markup is shown as one; the placeholder is one line without markup too. */
  lemma DisplayTitlePlain(t: string)
    requires SingleLine(t) && '<' !in t
    ensures SingleLine(DisplayTitle(t)) && '<' !in DisplayTitle(t)
  {
    assert UntitledTitle == "未命名文档";
  }

  /** The shell is its head, the title element, and the rest of the document. */
  lemma ShellSplit(title: string, content: string)
    ensures var rest := HeadEnd + title + HeadingEnd + content + DocumentEnd;
            && WriterShell(title, content) == ShellHead + TitleOpen + title + TitleClose + rest
            && ShellHead + (TitleOpen + title + TitleClose + rest) == ShellHead + TitleOpen + title + TitleClose + rest
  {
    ShellParts(ShellHead, TitleOpen, title, TitleClose, HeadEnd, HeadingEnd, content, DocumentEnd);
  }

  /** The shell's nine parts, regrouped as head, title element and rest. */
  lemma ShellParts(head: string, open: string, t: string, close: string, headEnd: string, headingEnd: string, x: string, end: string)
    ensures var rest := headEnd + t + headingEnd + x + end;
            && head + open + t + close + headEnd + t + headingEnd + x + end == head + open + t + close + rest
            && head + (open + t + close + rest) == head + open + t + close + rest
  {
  }

  /** The shell's head holds no `<title>` of its own: each of its four tags opens some other element. */
  lemma HeadOpensNoTitle(body: string)
    ensures NoTitleBefore(ShellHead + body, |ShellHead|)
  {
    assert OtherTag(DoctypeTag) && OtherTag(HtmlTag) && OtherTag(HeadTag);
    MetaTagOther();
    TagsOpenNoTitle(DoctypeTag, HtmlTag, HeadTag, MetaTag, body);
  }

  /** A tag that opens some element other than `<title>` and holds no further `<`. */
  predicate OtherTag(tag: string) {
    |tag| >= 2 && '<' !in tag[1..] && LowerChar(tag[1]) != 't'
  }

  lemma MetaTagOther()
    ensures OtherTag(MetaTag)
  {
    var rest := MetaTag[1..];
    assert forall k :: 0 <= k < |rest| ==> rest[k] == MetaTag[k + 1];
    assert forall k :: 0 <= k < |rest| ==> rest[k] != '<';
  }

  /** Four such tags in a row open no title anywhere among them. */
  lemma TagsOpenNoTitle(d: string, h: string, e: string, m: string, body: string)
    requires OtherTag(d) && OtherTag(h) && OtherTag(e) && OtherTag(m)
    ensures NoTitleBefore(d + h + e + m + body, |d + h + e + m|)
  {
    var s := d + h + e + m + body;
    forall p | 0 <= p < |d + h + e + m| ensures !OpensAt(s, p) {
      if p < |d| {
        assert s == [] + d + (h + e + m + body);
        TagOpensNoTitle(s, [], d, h + e + m + body, p);
      } else if p < |d + h| {
        assert s == d + h + (e + m + body);
        TagOpensNoTitle(s, d, h, e + m + body, p);
      } else if p < |d + h + e| {
        assert s == d + h + e + (m + body);
        TagOpensNoTitle(s, d + h, e, m + body, p);
      } else {
        TagOpensNoTitle(s, d + h + e, m, body, p);
      }
    }
  }

  /** Inside a tag other than `<title>`, with no further `<`, no title opens. */
  lemma TagOpensNoTitle(s: string, pre: string, tag: string, post: string, p: nat)
    requires s == pre + tag + post
    requires |tag| >= 2 && '<' !in tag[1..] && LowerChar(tag[1]) != 't'
    requires |pre| <= p < |pre| + |tag|
    ensures !OpensAt(s, p)
  {
    if p + |TitleOpen| <= |s| {
      var w := s[p..p + |TitleOpen|];
      var off := |pre|;
      if p > off {
        assert w[0] == tag[1..][p - off - 1];
        assert LowerChar(w[0]) != LowerChar(TitleOpen[0]);
      } else {
        assert w[1] == tag[1];
        assert LowerChar(w[1]) != LowerChar(TitleOpen[1]);
      }
    }
  }

  // ---------------------------------------------------------------- spreadsheet

  /** One grid row as the CSV export writes it: the cells joined by commas, then a line break. */
  function CsvLine(row: seq<string>): string {
    Join(row, ",") + "\n"
  }

  /** The CSV text of a grid: every row's line, in order, each ending in a line break. */
  function Csv(data: seq<seq<string>>): (csv: string)
    ensures |csv| >= |data|
    ensures csv == [] <==> data == []
    ensures data != [] ==> csv[|csv| - 1] == '\n'
  {
    if data == [] then [] else CsvLine(data[0]) + Csv(data[1..])
  }

  lemma {:induction false} CsvAppendRow(data: seq<seq<string>>, row: seq<string>)
    ensures Csv(data + [row]) == Csv(data) + CsvLine(row)
  {
    if data == [] {
      assert [] + [row] == [row];
      assert Csv([row]) == CsvLine(row) + Csv([]);
    } else {
      assert (data + [row])[1..] == data[1..] + [row];
      CsvAppendRow(data[1..], row);
    }
  }

  /** One more row adds its line at the end of the text. */
  lemma CsvStep(data: seq<seq<string>>, i: nat)
    requires i < |data|
    ensures Csv(data[..i]) + Join(data[i], ",") + "\n" == Csv(data[..i + 1])
  {
    assert data[..i + 1] == data[..i] + [data[i]];
    CsvAppendRow(data[..i], data[i]);
  }

  /** The spreadsheet export's text, built row by row as the exporter accumulates it. */
  method CsvText(data: seq<seq<string>>) returns (csv: string)
    ensures csv == Csv(data)
  {
    csv := "";
    var i := 0;
    while i < |data|
      invariant 0 <= i <= |data|
      invariant csv == Csv(data[..i])
    {
      CsvStep(data, i);
      csv := csv + Join(data[i], ",") + "\n";
      i := i + 1;
    }
    assert data[..i] == data;
  }

  /** The spreadsheet module's export: always a download, a txt file for txt and a csv file for every other format. */
  function SheetExport(csv: string, format: Format): (e: Export)
    ensures e.Download? && e.content == csv
    ensures e.filename == (if format == Txt then "表格.txt" else "表格.csv")
    ensures e.mediaType == (if format == Txt then "text/plain" else "text/csv")
  {
    var ext := if format == Txt then "txt" else "csv";
    Download(csv, "表格." + ext, if format == Txt then "text/plain" else "text/csv")
  }

  /**
   * The grids a CSV export and re-import preserve: no cell holds a comma or
   * a line break or white space at its ends, and no row writes a blank line.
   */
  predicate CsvSafe(data: seq<seq<string>>) {
    forall k :: 0 <= k < |data| ==> CsvSafeRow(data[k])
  }

  predicate CsvSafeRow(row: seq<string>) {
    && row != [] && row != [""]
    && forall m :: 0 <= m < |row| ==> ',' !in row[m] && '\n' !in row[m] && Trim(row[m]) == row[m]
  }

  /** The lines of a CSV text split at its line breaks: one per row, and the empty piece after the last break. */
  lemma {:induction false} CsvLines(data: seq<seq<string>>)
    requires forall k, m :: 0 <= k < |data| && 0 <= m < |data[k]| ==> '\n' !in data[k][m]
    ensures Split(Csv(data), '\n') == LinesOf(data) + [""]
  {
    if data == [] {
      assert Split([], '\n') == [[]];
    } else {
      var line, tail := Join(data[0], ","), data[1..];
      JoinAvoids(data[0], ",", '\n');
      assert forall k, m :: 0 <= k < |tail| && 0 <= m < |tail[k]| ==> '\n' !in tail[k][m] by {
        forall k, m | 0 <= k < |tail| && 0 <= m < |tail[k]| ensures '\n' !in tail[k][m] {
          assert tail[k] == data[k + 1];
        }
      }
      CsvLines(tail);
      SplitLineBefore(line, Csv(tail), LinesOf(tail));
      assert Csv(data) == line + "\n" + Csv(tail);
      LinesOfCons(data);
    }
  }

  lemma LinesOfCons(data: seq<seq<string>>)
    requires data != []
    ensures LinesOf(data) == [Join(data[0], ",")] + LinesOf(data[1..])
  {
  }

  /** A line and its break put in front of a text put that line in front of the text's lines. */
  lemma SplitLineBefore(line: string, rest: string, lines: seq<string>)
    requires '\n' !in line
    requires Split(rest, '\n') == lines + [""]
    ensures Split(line + "\n" + rest, '\n') == ([line] + lines) + [""]
  {
    SplitAround(line, rest, '\n');
    SplitNone(line, '\n');
    assert [line] + (lines + [""]) == ([line] + lines) + [""];
  }

  function LinesOf(data: seq<seq<string>>): (lines: seq<string>)
    ensures |lines| == |data|
    ensures forall k :: 0 <= k < |data| ==> lines[k] == Join(data[k], ",")
  {
    seq(|data|, k requires 0 <= k < |data| => Join(data[k], ","))
  }

  /** A join of pieces free of a character is free of it, when the separator is too. */
  lemma {:induction false} JoinAvoids(parts: seq<string>, sep: string, c: char)
    requires c !in sep
    requires forall m :: 0 <= m < |parts| ==> c !in parts[m]
    ensures c !in Join(parts, sep)
  {
    if |parts| > 1 {
      JoinAvoids(parts[1..], sep, c);
    }
  }

  /** A safe row's line is not blank, so the importer keeps it. */
  lemma SafeLineNotBlank(row: seq<string>)
    requires CsvSafeRow(row)
    ensures Trim(Join(row, ",")) != []
  {
    var line := Join(row, ",");
    TrimEmptyIff(line);
    if |row| == 1 {
      assert line == row[0];
      assert row[0] != [] && Trim(row[0]) == row[0];
    } else {
      assert line == row[0] + "," + Join(row[1..], ",");
      assert line[|row[0]|] == ',' && !IsSpace(',');
    }
  }

  /** Lines none of which is blank survive the importer's filter; the empty piece after the last break does not. */
  lemma KeepsNonBlank(lines: seq<string>)
    requires forall k :: 0 <= k < |lines| ==> Trim(lines[k]) != []
    ensures NonBlankLines(lines + [""]) == lines
  {
    NonBlankLinesAppend(lines, [""]);
    assert TrimStart("") == "";
    NonBlankLinesOne("");
    KeepsAll(lines);
    assert lines + [] == lines;
  }

  /** Lines none of which is blank all survive the filter. */
  lemma {:induction false} KeepsAll(lines: seq<string>)
    requires forall k :: 0 <= k < |lines| ==> Trim(lines[k]) != []
    ensures NonBlankLines(lines) == lines
  {
    if lines != [] {
      assert Trim(lines[0]) != [];
      KeepsAll(lines[1..]);
      assert lines == [lines[0]] + lines[1..];
    }
  }

  /** A safe row's line splits and trims back into the row. */
  lemma FieldsOfSafeRow(row: seq<string>)
    requires CsvSafeRow(row)
    ensures Fields(Join(row, ",")) == row
  {
    SplitJoin(row, ',');
    assert [','] == ",";
  }

  /** Exporting a safe grid as CSV and importing the file gives back the grid. */
  lemma CsvRoundTrip(data: seq<seq<string>>)
    requires CsvSafe(data)
    ensures CsvRows(Csv(data)) == data
  {
    CsvLines(data);
    var lines := LinesOf(data);
    forall k | 0 <= k < |lines| ensures Trim(lines[k]) != [] {
      SafeLineNotBlank(data[k]);
    }
    KeepsNonBlank(lines);
    var rows := CsvRows(Csv(data));
    forall k | 0 <= k < |data| ensures rows[k] == data[k] {
      FieldsOfSafeRow(data[k]);
    }
  }

  // ---------------------------------------------------------------- presentation

  const DeckHead: string := "<!DOCTYPE html><html><head><meta charset=\"UTF-8\"><title>演示文稿</title><style>body{font-family:Arial,sans-serif;}.slide{page-break-after:always;padding:50px;}h1{font-size:44px;}.content{font-size:24px;}</style></head><body>"
  const DeckTail: string := "</body></html>"

  /** One slide as the presentation export writes it: a page-breaking `.slide` division. */
  function SlideBlock(slide: Slide): string {
    "<div class=\"slide\"><h1>" + slide.title + "</h1><div class=\"content\">" + slide.content + "</div></div>"
  }

  /** The slides' blocks, in deck order. */
  function DeckBody(slides: seq<Slide>): (body: string)
    ensures body == [] <==> slides == []
    ensures |body| >= |slides|
  {
    if slides == [] then [] else SlideBlock(slides[0]) + DeckBody(slides[1..])
  }

  /** The body of a deck is the bodies of its parts, one after the other. */
  lemma {:induction false} DeckBodyAppend(a: seq<Slide>, b: seq<Slide>)
    ensures DeckBody(a + b) == DeckBody(a) + DeckBody(b)
  {
    if a == [] {
      assert a + b == b;
    } else {
      assert (a + b)[1..] == a[1..] + b;
      DeckBodyAppend(a[1..], b);
    }
  }

  /** One more slide adds its block at the end of whatever precedes the body. */
  lemma DeckBodyStep(head: string, slides: seq<Slide>, i: nat)
    requires i < |slides|
    ensures head + DeckBody(slides[..i]) + SlideBlock(slides[i]) == head + DeckBody(slides[..i + 1])
  {
    var done, next := slides[..i], [slides[i]];
    assert slides[..i + 1] == done + next;
    DeckBodyAppend(done, next);
    assert next[1..] == [];
    assert DeckBody(next) == SlideBlock(slides[i]);
    assert head + DeckBody(done) + DeckBody(next) == head + (DeckBody(done) + DeckBody(next));
  }

  /** The presentation export's markup, built slide by slide as the exporter accumulates it. */
  method DeckHtml(slides: seq<Slide>) returns (html: string)
    ensures html == DeckHead + DeckBody(slides) + DeckTail
  {
    html := DeckHead;
    var i := 0;
    while i < |slides|
      invariant 0 <= i <= |slides|
      invariant html == DeckHead + DeckBody(slides[..i])
    {
      DeckBodyStep(DeckHead, slides, i);
      html := html + SlideBlock(slides[i]);
      i := i + 1;
    }
    assert slides[..i] == slides;
    html := html + DeckTail;
  }

  /** The presentation module's export: pdf starts the print flow; any other format downloads the markup as html. */
  function DeckExport(html: string, format: Format): (e: Export)
    ensures e.PrintOnly? <==> format == Pdf
    ensures e.Download? ==> e == Download(html, "演示文稿." + Extension(format), "text/html")
  {
    if format == Pdf then PrintOnly else Download(html, "演示文稿." + Extension(format), "text/html")
  }
}
