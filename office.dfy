/**
 * The office application object: the active module, the three documents,
 * the recent-files ledger, the selected slide, the zoom level, the slide the
 * canvas shows, the storage entry and the live spreadsheet table, with the
 * handlers that change them. Browser facilities the handlers call (markup
 * parsing, text extraction, clocks, dialogs) arrive as parameters.
 */
module Office {
  import opened Wrappers
  import opened Text
  import opened Documents
  import opened ImportCodec
  import opened ExportCodec
  import opened Grid

  // ---------------------------------------------------------------- zoom

  const ZoomStep: int := 10
  const ZoomMin: int := 50
  const ZoomMax: int := 200
  const ZoomDefault: int := 100

  function Max(a: int, b: int): int {
    if a >= b then a else b
  }

  /** A zoom level the application can reach: a multiple of the step within the bounds. */
  predicate ZoomOk(z: int) {
    ZoomMin <= z <= ZoomMax && z % ZoomStep == 0
  }

  /** One step in, capped at the maximum. */
  function ZoomedIn(z: int): (r: int)
    ensures r <= ZoomMax
    ensures z < ZoomMax ==> z < r
    ensures z + ZoomStep <= ZoomMax ==> r == z + ZoomStep
    ensures z + ZoomStep > ZoomMax ==> r == ZoomMax
  {
    Min(z + ZoomStep, ZoomMax)
  }

  /** One step out, floored at the minimum. */
  function ZoomedOut(z: int): (r: int)
    ensures r >= ZoomMin
    ensures z > ZoomMin ==> r < z
    ensures z - ZoomStep >= ZoomMin ==> r == z - ZoomStep
    ensures z - ZoomStep < ZoomMin ==> r == ZoomMin
  {
    Max(z - ZoomStep, ZoomMin)
  }

  /** Zooming in or out keeps a reachable level reachable. */
  lemma ZoomStaysOk(z: int)
    requires ZoomOk(z)
    ensures ZoomOk(ZoomedIn(z)) && ZoomOk(ZoomedOut(z))
    ensures ZoomOk(ZoomDefault)
  {
  }

  /** Below the maximum, a step out undoes a step in; above the minimum, a step in undoes a step out. */
  lemma ZoomStepsUndo(z: int)
    requires ZoomOk(z)
    ensures z < ZoomMax ==> ZoomedOut(ZoomedIn(z)) == z
    ensures z > ZoomMin ==> ZoomedIn(ZoomedOut(z)) == z
  {
  }

  function ZoomedInTimes(z: int, n: nat): int
    decreases n
  {
    if n == 0 then z else ZoomedInTimes(ZoomedIn(z), n - 1)
  }

  /** Repeated steps in add one step each until they reach the maximum, and stay there. */
  lemma {:induction false} ZoomInSaturates(z: int, n: nat)
    requires z <= ZoomMax
    ensures ZoomedInTimes(z, n) == Min(z + ZoomStep * n, ZoomMax)
    decreases n
  {
    if n > 0 {
      ZoomInSaturates(ZoomedIn(z), n - 1);
    }
  }

  // ---------------------------------------------------------------- table markup

  const TableOpen: string := "<table style=\"border-collapse: collapse; width: 100%; margin: 10px 0;\">"
  const TableClose: string := "</table>"
  const TableCell: string := "<td style=\"border: 1px solid #ccc; padding: 8px; min-width: 50px;\">&nbsp;</td>"

  /** `s` repeated `n` times; no times at all when `n` is not positive, as a `for` loop with that bound runs. */
  function Repeat(s: string, n: int): string
    decreases n
  {
    if n <= 0 then [] else s + Repeat(s, n - 1)
  }

  lemma {:induction false} RepeatOneMore(s: string, n: int)
    requires n >= 0
    ensures Repeat(s, n + 1) == Repeat(s, n) + s
    decreases n
  {
    if n > 0 {
      RepeatOneMore(s, n - 1);
    }
  }

  lemma {:induction false} RepeatLength(s: string, n: int)
    ensures |Repeat(s, n)| == |s| * Max(n, 0)
    decreases n
  {
    if n > 0 {
      RepeatLength(s, n - 1);
    }
  }

  /** One table row: `cols` empty cells between `<tr>` and `</tr>`. */
  function TableRow(cols: int): string {
    "<tr>" + Repeat(TableCell, cols) + "</tr>"
  }

  /** The table `insertTable` inserts: `rows` rows of `cols` empty bordered cells. */
  function Table(rows: int, cols: int): (table: string)
    ensures |table| == |TableOpen| + |TableClose| + Max(rows, 0) * (9 + Max(cols, 0) * |TableCell|)
  {
    RepeatLength(TableCell, cols);
    RepeatLength(TableRow(cols), rows);
    TableOpen + Repeat(TableRow(cols), rows) + TableClose
  }

  /** `insertTable`'s markup, built row by row and, within a row, cell by cell. */
  method TableMarkup(rows: int, cols: int) returns (table: string)
    ensures table == Table(rows, cols)
  {
    table := TableOpen;
    var i := 0;
    while i < rows
      invariant 0 <= i <= Max(rows, 0)
      invariant table == TableOpen + Repeat(TableRow(cols), i)
    {
      var row := RowMarkup(cols);
      ghost var done := Repeat(TableRow(cols), i);
      RepeatOneMore(TableRow(cols), i);
      Regroup(TableOpen, done, row);
      table := table + row;
      i := i + 1;
    }
    assert i == Max(rows, 0);
    RepeatAtMost(TableRow(cols), rows);
    table := table + TableClose;
  }

  /** The inner loop of `insertTable`: one row of `cols` cells. */
  method RowMarkup(cols: int) returns (row: string)
    ensures row == TableRow(cols)
  {
    var cells := "";
    var j := 0;
    while j < cols
      invariant 0 <= j <= Max(cols, 0)
      invariant cells == Repeat(TableCell, j)
    {
      RepeatOneMore(TableCell, j);
      cells := cells + TableCell;
      j := j + 1;
    }
    assert j == Max(cols, 0);
    RepeatAtMost(TableCell, cols);
    row := "<tr>" + cells + "</tr>";
  }

  /** Appending to a built-up string regroups around its fixed prefix. */
  lemma Regroup(prefix: string, done: string, next: string)
    ensures (prefix + done) + next == prefix + (done + next)
  {
  }

  /** A non-positive count repeats nothing, like a zero count. */
  lemma RepeatAtMost(s: string, n: int)
    ensures Repeat(s, n) == Repeat(s, Max(n, 0))
  {
  }

  // ---------------------------------------------------------------- the application

  const FirstSlideTitle: string := "点击添加标题"
  const FirstSlideContent: string := "点击添加内容"
  const NewSlideTitle: string := "新幻灯片"
  const NewSlideContent: string := "内容"

  /** Every field of the application object other than the live table. */
  datatype OfficeState = OfficeState(
    currentModule: ModuleKind,
    documents: Docs,
    recentFiles: seq<RecentFile>,
    currentSlideIndex: int,
    zoomLevel: int,
    canvas: Option<nat>,
    storage: Option<StoredData>)

  class WpsOffice {
    var currentModule: ModuleKind
    var documents: Docs
    var recentFiles: seq<RecentFile>
    /** The selected slide; selection does not check it against the deck. */
    var currentSlideIndex: int
    var zoomLevel: int
    /** The slide whose title and content the canvas shows and edits, once one has been rendered. */
    var canvas: Option<nat>
    /** The storage entry, as the last save wrote it. */
    var storage: Option<StoredData>
    /** The live spreadsheet table. */
    const sheet: Sheet

    function State(): OfficeState
      reads this
    {
      OfficeState(currentModule, documents, recentFiles, currentSlideIndex, zoomLevel, canvas, storage)
    }

    function Slides(): seq<Slide>
      reads this
    {
      documents.presentation.slides
    }

    /** The canvas, if it shows a slide, shows one of the deck. */
    predicate CanvasInDeck()
      reads this
    {
      canvas.Some? ==> canvas.value < |Slides()|
    }

    /** The deck is never empty, the canvas shows one of its slides, and the zoom level is reachable. */
    predicate Valid()
      reads this
    {
      |Slides()| >= 1 && CanvasInDeck() && ZoomOk(zoomLevel)
    }

    /** Storage holds the current documents and ledger. */
    predicate Saved()
      reads this
    {
      storage == Some(Snapshot(documents, recentFiles))
    }

    /**
     * Start-up: the defaults, then the stored snapshot merged over them, the
     * table scaffold, and a first slide when the deck is empty (whose
     * addition saves) or else the first slide shown on the canvas.
     */
    constructor(stored: Option<StoredData>)
      ensures Valid() && fresh(sheet)
      ensures var (docs, files) := Merge(DefaultDocs(), [], stored);
              && currentModule == Writer && zoomLevel == ZoomDefault && currentSlideIndex == 0 && canvas == Some(0)
              && recentFiles == files
              && documents.writer == docs.writer && documents.spreadsheet == docs.spreadsheet
              && (if docs.presentation.slides == []
                  then Slides() == [Slide(FirstSlideTitle, FirstSlideContent)] && Saved()
                  else Slides() == docs.presentation.slides && storage == stored)
      ensures sheet.headers == InitialHeaders() && sheet.rows == Scaffold()
    {
      currentModule := Writer;
      documents := DefaultDocs();
      recentFiles := [];
      currentSlideIndex := 0;
      zoomLevel := ZoomDefault;
      canvas := None;
      storage := stored;
      var s := new Sheet();
      sheet := s;
      new;
      var (docs, files) := Merge(documents, recentFiles, storage);
      documents, recentFiles := docs, files;
      sheet.Setup();
      assert [] + Scaffold() == Scaffold();
      if |Slides()| == 0 {
        AddSlide(FirstSlideTitle, FirstSlideContent);
      } else {
        RenderSlide(currentSlideIndex);
      }
    }

    /** Writes the current documents and ledger to storage. */
    method SaveToStorage()
      modifies this
      ensures Saved()
      ensures State() == old(State()).(storage := storage)
    {
      storage := Some(Snapshot(documents, recentFiles));
    }

    /**
     * The save button: a ledger entry stamped `now`, titled with the writer
     * title whichever module is active, enters the ledger; then a save.
     */
    method SaveDocument(now: int, date: string)
      modifies this
      ensures var entry := RecentFile(now, DisplayTitle(old(documents.writer.title)), old(currentModule), date);
              recentFiles == Remember(old(recentFiles), entry)
      ensures Saved()
      ensures State() == old(State()).(recentFiles := recentFiles, storage := storage)
    {
      var entry := RecentFile(now, DisplayTitle(documents.writer.title), currentModule, date);
      recentFiles := [entry] + recentFiles;
      if |recentFiles| > LedgerCap {
        recentFiles := recentFiles[..|recentFiles| - 1];
      }
      SaveToStorage();
    }

    // ------------------------------------------------------------ spreadsheet

    /** Copies the table's input values into the spreadsheet document. */
    method SaveSpreadsheetData()
      modifies this
      ensures documents == old(documents).(spreadsheet := SheetDoc(CellsOf(sheet.rows)))
      ensures State() == old(State()).(documents := documents)
    {
      var data := sheet.Collect();
      documents := documents.(spreadsheet := SheetDoc(data));
    }

    /** The add-row button; the save writes the spreadsheet document as last copied, not the new row. */
    method AddRow()
      modifies this, sheet
      ensures sheet.headers == old(sheet.headers)
      ensures sheet.rows == RowAdded(old(sheet.headers), old(sheet.rows))
      ensures Saved() && State() == old(State()).(storage := storage)
    {
      sheet.AddRow();
      SaveToStorage();
    }

    /** The add-column button; as with a row, the spreadsheet document is not refreshed before the save. */
    method AddCol()
      modifies this, sheet
      ensures (sheet.headers, sheet.rows) == ColAdded(old(sheet.headers), old(sheet.rows))
      ensures Saved() && State() == old(State()).(storage := storage)
    {
      sheet.AddCol();
      SaveToStorage();
    }

    /** The delete-row button: saves only when a row went. */
    method DeleteRow()
      modifies this, sheet
      ensures sheet.headers == old(sheet.headers)
      ensures sheet.rows == RowDeleted(old(sheet.rows))
      ensures |old(sheet.rows)| > 1 ==> Saved() && State() == old(State()).(storage := storage)
      ensures |old(sheet.rows)| <= 1 ==> State() == old(State())
    {
      var deleted := sheet.DeleteRow();
      if deleted {
        SaveToStorage();
      }
    }

    /** The delete-column button: saves only when the pass over the rows completed. */
    method DeleteCol() returns (outcome: ColOutcome)
      modifies this, sheet
      ensures (outcome, sheet.headers, sheet.rows) == ColDeleted(old(sheet.headers), old(sheet.rows))
      ensures outcome == Removed ==> Saved() && State() == old(State()).(storage := storage)
      ensures outcome != Removed ==> State() == old(State())
    {
      outcome := sheet.DeleteCol();
      if outcome == Removed {
        SaveToStorage();
      }
    }

    /** Typing into a cell: the value lands in the table, the table is copied into the document, and the page saves. */
    method EditCell(r: nat, c: nat, value: string)
      requires r < |sheet.rows| && c < |sheet.rows[r].cells|
      modifies this, sheet
      ensures sheet.headers == old(sheet.headers)
      ensures sheet.rows == old(sheet.rows)[r := Row(old(sheet.rows)[r].index, old(sheet.rows)[r].cells[c := value])]
      ensures documents == old(documents).(spreadsheet := SheetDoc(CellsOf(sheet.rows)))
      ensures Saved() && State() == old(State()).(documents := documents, storage := storage)
    {
      sheet.SetCell(r, c, value);
      SaveSpreadsheetData();
      SaveToStorage();
    }

    // ------------------------------------------------------------ presentation

    /** Shows slide `index` on the canvas, if the deck has one there; otherwise nothing happens. */
    method RenderSlide(index: int)
      modifies this
      ensures canvas == if 0 <= index < |Slides()| then Some(index as nat) else old(canvas)
      ensures State() == old(State()).(canvas := canvas)
    {
      if 0 <= index < |Slides()| {
        canvas := Some(index as nat);
      }
    }

    /** Appends a slide; the first slide of an empty deck is shown at once; the selection stays; then a save. */
    method AddSlide(title: string, content: string)
      modifies this
      ensures Slides() == old(Slides()) + [Slide(title, content)]
      ensures canvas == if old(Slides()) == [] then Some(0) else old(canvas)
      ensures old(CanvasInDeck()) || old(Slides()) == [] ==> CanvasInDeck()
      ensures Saved()
      ensures State() == old(State()).(documents := documents, canvas := canvas, storage := storage)
      ensures documents == old(documents).(presentation := Deck(Slides()))
    {
      var slideIndex := |Slides()|;
      documents := documents.(presentation := Deck(Slides() + [Slide(title, content)]));
      if slideIndex == 0 {
        RenderSlide(0);
      }
      SaveToStorage();
    }

    /** The add-slide button. */
    method AddNewSlide()
      requires Valid()
      modifies this
      ensures Valid()
      ensures Slides() == old(Slides()) + [Slide(NewSlideTitle, NewSlideContent)]
      ensures documents == old(documents).(presentation := Deck(Slides()))
      ensures Saved()
      ensures State() == old(State()).(documents := documents, storage := storage)
    {
      AddSlide(NewSlideTitle, NewSlideContent);
    }

    /** Selecting a thumbnail: the index is taken as given; the canvas follows only if the deck has that slide. */
    method SelectSlide(index: int)
      requires Valid()
      modifies this
      ensures Valid()
      ensures currentSlideIndex == index
      ensures canvas == if 0 <= index < |Slides()| then Some(index as nat) else old(canvas)
      ensures State() == old(State()).(currentSlideIndex := index, canvas := canvas)
    {
      currentSlideIndex := index;
      RenderSlide(index);
    }

    /** Editing the title on the canvas: the shown slide takes the text, then a save; with no slide shown there is nothing to edit. */
    method EditSlideTitle(text: string)
      requires Valid()
      modifies this
      ensures Valid()
      ensures old(canvas).None? ==> State() == old(State())
      ensures old(canvas).Some? ==>
                var i := old(canvas).value;
                && Slides() == old(Slides())[i := Slide(text, old(Slides())[i].content)]
                && documents == old(documents).(presentation := Deck(Slides()))
                && Saved() && State() == old(State()).(documents := documents, storage := storage)
    {
      if canvas.Some? {
        var i := canvas.value;
        documents := documents.(presentation := Deck(Slides()[i := Slide(text, Slides()[i].content)]));
        SaveToStorage();
      }
    }

    /** Editing the content on the canvas, as for the title. */
    method EditSlideContent(text: string)
      requires Valid()
      modifies this
      ensures Valid()
      ensures old(canvas).None? ==> State() == old(State())
      ensures old(canvas).Some? ==>
                var i := old(canvas).value;
                && Slides() == old(Slides())[i := Slide(old(Slides())[i].title, text)]
                && documents == old(documents).(presentation := Deck(Slides()))
                && Saved() && State() == old(State()).(documents := documents, storage := storage)
    {
      if canvas.Some? {
        var i := canvas.value;
        documents := documents.(presentation := Deck(Slides()[i := Slide(Slides()[i].title, text)]));
        SaveToStorage();
      }
    }

    // ------------------------------------------------------------ new, import, export

    /**
     * The new-document command, once `confirmed`: the active module's
     * document goes back to its initial form (the table gets a fresh
     * scaffold under the header it has; the deck a single first slide,
     * selected and shown), then a save.
     */
    method NewDocument(confirmed: bool)
      requires Valid()
      modifies this, sheet
      ensures Valid()
      ensures !confirmed ==> State() == old(State()) && sheet.rows == old(sheet.rows)
      ensures sheet.headers == old(sheet.headers)
      ensures confirmed ==> Saved() && currentModule == old(currentModule) && recentFiles == old(recentFiles)
      ensures confirmed && currentModule == Writer ==>
                documents == old(documents).(writer := DefaultWriter()) && sheet.rows == old(sheet.rows)
      ensures confirmed && currentModule == Spreadsheet ==>
                documents == old(documents).(spreadsheet := SheetDoc([])) && sheet.rows == Scaffold()
      ensures confirmed && currentModule == Presentation ==>
                && documents == old(documents).(presentation := Deck([Slide(FirstSlideTitle, FirstSlideContent)]))
                && currentSlideIndex == 0 && canvas == Some(0) && sheet.rows == old(sheet.rows)
      ensures confirmed && currentModule != Presentation ==>
                State() == old(State()).(documents := documents, storage := storage)
      ensures confirmed && currentModule == Presentation ==>
                State() == old(State()).(documents := documents, currentSlideIndex := 0, canvas := Some(0), storage := storage)
    {
      if !confirmed {
        return;
      }
      match currentModule {
        case Writer =>
          documents := documents.(writer := DefaultWriter());
        case Spreadsheet =>
          documents := documents.(spreadsheet := SheetDoc([]));
          sheet.Clear();
          sheet.Setup();
          assert [] + Scaffold() == Scaffold();
        case Presentation =>
          documents := documents.(presentation := Deck([]));
          currentSlideIndex := 0;
          AddSlide(FirstSlideTitle, FirstSlideContent);
          assert [] + [Slide(FirstSlideTitle, FirstSlideContent)] == [Slide(FirstSlideTitle, FirstSlideContent)];
      }
      SaveToStorage();
    }

    /**
     * Importing a chosen file (`None` when the chooser returned none), given
     * its name and text: the lower-cased name selects the importer; an
     * unsupported name changes nothing. `bodyOf` is the browser's HTML body
     * extraction.
     */
    method ImportFile(file: Option<(string, string)>, bodyOf: string -> string)
      requires Valid()
      modifies this, sheet
      ensures Valid()
      ensures sheet.headers == old(sheet.headers)
      ensures file.None? || KindOf(file.value.0) == Unsupported ==> State() == old(State()) && sheet.rows == old(sheet.rows)
      ensures file.Some? && KindOf(file.value.0) == CsvFile ==>
                var rows := CsvRows(file.value.1);
                && currentModule == Spreadsheet && sheet.rows == Numbered(rows)
                && documents == old(documents).(spreadsheet := SheetDoc(rows)) && Saved()
      ensures file.Some? && KindOf(file.value.0) == HtmlFile ==>
                var (name, content) := file.value;
                && currentModule == Writer && sheet.rows == old(sheet.rows)
                && documents == old(documents).(writer := WriterDoc(HtmlTitle(content, Lower(name)), bodyOf(content)))
                && Saved()
      ensures file.Some? && KindOf(file.value.0) == TxtFile ==>
                var (name, content) := file.value;
                && currentModule == Writer && sheet.rows == old(sheet.rows)
                && documents == old(documents).(writer := WriterDoc(TxtTitle(Lower(name)), Paragraphs(content)))
                && Saved()
      ensures file.Some? ==> recentFiles == old(recentFiles) && zoomLevel == old(zoomLevel)
                             && canvas == old(canvas) && currentSlideIndex == old(currentSlideIndex)
    {
      if file.None? {
        return;
      }
      var (name, content) := file.value;
      var filename := Lower(name);
      match KindOf(name) {
        case CsvFile => ImportCsv(content);
        case HtmlFile => ImportHtml(content, filename, bodyOf);
        case TxtFile => ImportTxt(content, filename);
        case Unsupported =>
      }
    }

    /** Activating a module, from its tab or its card on the start page; only the active module changes. */
    method SwitchModule(m: ModuleKind)
      modifies this
      ensures State() == old(State()).(currentModule := m)
    {
      currentModule := m;
    }

    /** The CSV importer: the spreadsheet module becomes active and its table is rebuilt from the file, then copied and saved. */
    method ImportCsv(content: string)
      modifies this, sheet
      ensures sheet.headers == old(sheet.headers)
      ensures var rows := CsvRows(content);
              && sheet.rows == Numbered(rows)
              && documents == old(documents).(spreadsheet := SheetDoc(rows))
      ensures Saved() && State() == old(State()).(currentModule := Spreadsheet, documents := documents, storage := storage)
    {
      SwitchModule(Spreadsheet);
      ghost var switched := State();
      assert switched == old(State()).(currentModule := Spreadsheet);
      ghost var before := documents;
      assert before == old(documents);
      var rows := CsvRows(content);
      LoadRows(rows);
      assert documents == before.(spreadsheet := SheetDoc(rows));
      assert State() == switched.(documents := documents, storage := storage);
    }

    /** The table rebuilt from parsed rows, copied into the spreadsheet document, and saved. */
    method LoadRows(data: seq<seq<string>>)
      modifies this, sheet
      ensures sheet.headers == old(sheet.headers)
      ensures sheet.rows == Numbered(data)
      ensures documents == old(documents).(spreadsheet := SheetDoc(data))
      ensures Saved() && State() == old(State()).(documents := documents, storage := storage)
    {
      sheet.Rebuild(data);
      SaveSpreadsheetData();
      CellsOfNumbered(data);
      SaveToStorage();
    }

    /** The HTML importer: the writer becomes active and takes the file's title and body. */
    method ImportHtml(content: string, filename: string, bodyOf: string -> string)
      modifies this
      ensures documents == old(documents).(writer := WriterDoc(HtmlTitle(content, filename), bodyOf(content)))
      ensures Saved() && State() == old(State()).(currentModule := Writer, documents := documents, storage := storage)
    {
      SwitchModule(Writer);
      documents := documents.(writer := WriterDoc(HtmlTitle(content, filename), bodyOf(content)));
      SaveToStorage();
    }

    /** The text importer: the writer becomes active and takes the name without `.txt` and one paragraph per line. */
    method ImportTxt(content: string, filename: string)
      modifies this
      ensures documents == old(documents).(writer := WriterDoc(TxtTitle(filename), Paragraphs(content)))
      ensures Saved() && State() == old(State()).(currentModule := Writer, documents := documents, storage := storage)
    {
      SwitchModule(Writer);
      documents := documents.(writer := WriterDoc(TxtTitle(filename), Paragraphs(content)));
      SaveToStorage();
    }

    /**
     * The export command for the active module; `textContent` is the
     * browser's markup-to-text reduction. A spreadsheet export first copies
     * the table into its document, without saving.
     */
    method ExportDocument(format: Format, textContent: string -> string) returns (e: Export)
      modifies this
      ensures currentModule == Writer ==> e == WriterExport(documents.writer, format, textContent)
      ensures currentModule == Spreadsheet ==>
                e == SheetExport(Csv(CellsOf(sheet.rows)), format)
                && documents == old(documents).(spreadsheet := SheetDoc(CellsOf(sheet.rows)))
      ensures currentModule == Presentation ==> e == DeckExport(DeckHead + DeckBody(Slides()) + DeckTail, format)
      ensures currentModule != Spreadsheet ==> State() == old(State())
      ensures State() == old(State()).(documents := documents)
    {
      match currentModule
      case Writer =>
        e := WriterExport(documents.writer, format, textContent);
      case Spreadsheet =>
        SaveSpreadsheetData();
        var csv := CsvText(documents.spreadsheet.data);
        e := SheetExport(csv, format);
      case Presentation =>
        var html := DeckHtml(Slides());
        e := DeckExport(html, format);
    }

    // ------------------------------------------------------------ zoom

    method ZoomIn()
      modifies this
      ensures State() == old(State()).(zoomLevel := ZoomedIn(old(zoomLevel)))
    {
      zoomLevel := Min(zoomLevel + ZoomStep, ZoomMax);
    }

    method ZoomOut()
      modifies this
      ensures State() == old(State()).(zoomLevel := ZoomedOut(old(zoomLevel)))
    {
      zoomLevel := Max(zoomLevel - ZoomStep, ZoomMin);
    }

    method ZoomReset()
      modifies this
      ensures State() == old(State()).(zoomLevel := ZoomDefault)
    {
      zoomLevel := ZoomDefault;
    }
  }
}
