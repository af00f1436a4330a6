# A verified model of the WPS-style browser office suite

The application is a single-page office suite in the browser. It has three editing modules:
- a rich-text writer;
- a spreadsheet grid;
- a slide deck.

It also keeps a list of recently saved files and persists everything as one JSON entry in browser storage. All of its logic lives in the `WPSOffice` class of `public/app.js`.

This project models that class in Dafny, module by module:

- `wrappers.dfy`: `Option`.
- `text.dfy` (`Text`): the JavaScript string primitives the program relies on.
  - `split` on one character, `join`, and `trim` over the full JavaScript white-space set.
  - `toLowerCase`, `endsWith`, and `replace` with a string pattern, which replaces the first occurrence only.
  - Each comes with its algebra: split and join are inverse, trim is idempotent, and lower-casing ignores case.
- `documents.dfy` (`Documents`): the documents, the recent-files ledger and the storage snapshot.
  - The ledger rule used by a save: the newest entry goes first and at most ten are kept.
  - The field-by-field merge of a stored snapshot at start-up.
- `import_codec.dfy` (`ImportCodec`): the importers.
  - The file-name dispatch.
  - The CSV line and field splitting.
  - The text-to-paragraphs conversion.
  - The HTML title regular expression `/<title>(.*?)<\/title>/i`: leftmost match, lazy capture, no line terminators inside, case-insensitive.
  - The file-name fallback titles.
- `export_codec.dfy` (`ExportCodec`): the exporters.
  - The writer's html, doc, txt and pdf branches.
  - The spreadsheet CSV text, built in a loop.
  - The presentation markup, built in a loop.
  - The two round trips: a grid exported as CSV and imported again, and a writer title exported as html and imported again.
- `grid.dfy` (`Grid`): the live spreadsheet table as a class `Sheet`.
  - It holds the header letters and the body rows. Each row is an optional index cell followed by its input values.
  - Each button handler is a method proved equal to a pure transition. The lemmas about those transitions cover:
    - which of them keep the table orderly;
    - delete undoing add;
    - the CSV import's effect on the table's shape.
- `office.dfy` (`Office`): the application object as a class `WpsOffice`.
  - Its fields are the active module, the documents, the ledger, the selected slide, the zoom level, the slide shown on the canvas, the storage entry and the table.
  - Its handlers cover start-up, save, the grid buttons and cell edits, the slide operations, new document, import, export and zoom.
  - It also holds the zoom arithmetic and the `insertTable` markup generator.

Browser facilities become parameters:
- the DOM parser's body extraction (`bodyOf`);
- `textContent` (`textContent`);
- `Date.now()` and the locale date string (`now`, `date`);
- the confirmation dialog (`confirmed`);
- the chosen file (`file`, a name and its text).

Where the code and a plain reading of its intent differ, the model follows the code:
- `newDocument` in the spreadsheet module empties the table body and lays out a fresh 20×5 scaffold, but keeps whatever header letters the table has.
- The add-row and add-column buttons save without first copying the table into the spreadsheet document, so storage receives the document as last copied.
- The column delete removes a row's index cell once the row has no inputs left. On a row with no cells at all it stops partway: the header letter is already gone, and nothing is saved.

## Model

| member | source | states |
|---|---|---|
| Text.TrimStart | public/app.js:681 | the result is the longest suffix that does not start with white space; everything cut is white space |
| Text.TrimEnd | public/app.js:681 | the result is the longest prefix that does not end with white space; everything cut is white space |
| Text.Trim | public/app.js:681 | trimming never lengthens, and a non-empty result neither starts nor ends with white space |
| Text.TrimEmptyIff | public/app.js:667 | a line trims to the empty string exactly when it is all white space (the blank-line filter) |
| Text.TrimIdempotent | public/app.js:681 | trimming a trimmed cell changes nothing |
| Text.TrimSubset | public/app.js:681 | trimming only removes characters |
| Text.TrimNoOp | public/app.js:681 | a string with no white space at either end is its own trim |
| Text.Split | public/app.js:667 | `split` gives one piece more than there are separators, no piece contains the separator, and every piece's characters come from the input |
| Text.JoinSplit | public/app.js:667 | joining the pieces of a split with the separator gives back the string |
| Text.SplitJoin | public/app.js:677 | splitting a join of separator-free pieces gives back the pieces |
| Text.SplitAround | public/app.js:667 | a separator splits a string into the pieces of its two sides |
| Text.SplitPrefix | public/app.js:667 | a separator-free prefix extends the first piece only |
| Text.SplitNone | public/app.js:677 | a string without the separator is a single piece |
| Text.ConcatAppend | public/app.js:720 | `join('')` of two lists of pieces is the concatenation of their joins |
| Text.Lower | public/app.js:650 | `toLowerCase` keeps the length and lower-cases each ASCII letter in place |
| Text.LowerIgnoresCase | public/app.js:650 | two names have the same lower-case form exactly when they differ only in letter case |
| Text.LowerIdempotent | public/app.js:650 | lower-casing twice is lower-casing once |
| Text.LowerAppend | public/app.js:650 | lower-casing distributes over concatenation |
| Text.IndexOf | public/app.js:705 | the search finds the leftmost occurrence at or after the start, and `None` only when there is none |
| Text.ReplaceFirst | public/app.js:719 | `replace` with a string pattern leaves a string without the pattern unchanged and otherwise rewrites exactly the first occurrence |
| Documents.DisplayTitle | public/app.js:415 | the title shown is never empty: the writer title, or `未命名文档` when the title is empty |
| Documents.Remember | public/app.js:418-427 | a save puts the new entry at index 0, shifts every earlier entry down one place, and drops the last one only when the list grows past ten |
| Documents.RememberBounded | public/app.js:425-427 | a ledger of at most ten entries stays at most ten after a save |
| Documents.RememberKeepsOrder | public/app.js:418-427 | a save stamped no earlier than the newest entry keeps the ledger ordered newest first |
| Documents.RememberAsPrefix | public/app.js:418-427 | one save on a ledger within the cap is the push truncated to the cap |
| Documents.RememberAllKeepsNewest | public/app.js:418-427 | after any series of saves the ledger is the saves in reverse order followed by the earlier entries, cut to ten |
| Documents.Merge | public/app.js:34-41 | loading replaces the documents and the ledger wholesale when the stored object has them and keeps the defaults otherwise; no entry changes nothing |
| Documents.LoadAfterSave | public/app.js:34-48 | loading what a save wrote gives back exactly the saved documents and ledger |
| ImportCodec.KindOfExtension | public/app.js:650-660 | a name ending in `.csv`, `.html`, `.htm` or `.txt` in any letter case selects that importer |
| ImportCodec.KindIgnoresCase | public/app.js:650 | names equal up to letter case select the same importer |
| ImportCodec.KindOfLowered | public/app.js:652-657 | a name whose lower-case form ends in an extension selects that extension's importer |
| ImportCodec.KindOf | public/app.js:650-660 | the CSV importer is chosen exactly when the lower-cased name ends in `.csv`; the text importer only for `.txt`; the name is unsupported exactly when it ends in none of `.csv`, `.html`, `.htm`, `.txt` |
| ImportCodec.NonBlankLines | public/app.js:667 | the kept lines are not blank after trimming, are lines of the input, and are no more than the input (its exact content: NonBlankLinesAppend, NonBlankLinesOne) |
| ImportCodec.Fields | public/app.js:677-681 | a CSV line has one field more than it has commas; field k is the trim of the k-th comma-separated piece, so every field is trimmed and holds no comma, and no line break if the line has none |
| ImportCodec.CsvRows | public/app.js:667-681 | a CSV text gives at most one row more than it has line breaks |
| ImportCodec.NonBlankLinesAppend | public/app.js:667 | the blank-line filter works line by line: filtering two runs of lines together keeps what filtering each keeps, in order |
| ImportCodec.NonBlankLinesOne | public/app.js:667 | a single line is kept exactly when it is not blank after trimming |
| ImportCodec.CsvRowsAround | public/app.js:667-681 | a line break in the CSV text separates the rows of its two sides |
| ImportCodec.CsvRowsOfLine | public/app.js:667-681 | a single line gives no row when blank and otherwise exactly its trimmed comma-split fields |
| ImportCodec.TrimmedProps | public/app.js:677-681 | trimmed pieces are their own trim and hold only characters of their line |
| ImportCodec.CsvRowsClean | public/app.js:667-681 | every imported row has at least one cell, and no cell has white space at its ends, a comma or a line break |
| ImportCodec.ParagraphsAround | public/app.js:720 | a line break in the text is a paragraph boundary in the markup |
| ImportCodec.Paragraphs | public/app.js:720 | a text without line breaks becomes exactly one paragraph |
| ImportCodec.ParagraphsLength | public/app.js:720 | the markup is the text less its line breaks plus the seven characters of `<p></p>` per line |
| ImportCodec.CloseFrom | public/app.js:704 | the lazy `.*?` stops at the first closing tag before any line terminator, and fails only if none is reachable |
| ImportCodec.FirstMatch | public/app.js:704 | the match found is the leftmost opening tag that has a match, with the nearest closing tag; none is found only when the pattern matches nowhere |
| ImportCodec.TitleCapture | public/app.js:704 | there is no capture exactly when the pattern matches nowhere in the content |
| ImportCodec.SkipToTitle | public/app.js:704 | the search passes over a stretch where no title tag opens |
| ImportCodec.TitleOfDocument | public/app.js:704-705 | a document whose first title tag holds one line of text without markup, tags in any case, is titled by that text |
| ImportCodec.HtmlTitle | public/app.js:704-705 | with no match anywhere the fallback name is the title; a matched title is a single line |
| ImportCodec.FallbackTitle | public/app.js:705 | a name without `.htm` (and so without `.html`) is its own fallback title |
| ImportCodec.FallbackStripsExtension | public/app.js:705 | with no title element, a file `stem.html` or `stem.htm` with a dot-free stem is titled `stem` |
| ImportCodec.FallbackCutsInside | public/app.js:705 | the fallback removes the first `.html` wherever it stands, then the first `.htm`: `a.html.html` is titled `al` |
| ImportCodec.TxtTitleStripsExtension | public/app.js:719 | a text file `stem.txt` with a dot-free stem is titled `stem` |
| ImportCodec.TxtTitle | public/app.js:719 | a name without `.txt` is its own title |
| ExportCodec.WriterExport | public/app.js:733-755 | pdf starts the print flow with no download; html, doc and txt download `title.<ext>` with `text/html`, `application/msword` and `text/plain`; txt carries the content's text |
| ExportCodec.WriterShell | public/app.js:737-751 | the exported document starts with the head and the title element holding the title, and ends with the heading close, the content and the closing tags |
| ExportCodec.HtmlAndDocAgree | public/app.js:736-751 | the html and doc exports carry identical content |
| ExportCodec.WriterTitleRoundTrip | public/app.js:737 | exporting the writer as html and importing the file gives back the exported title, for a one-line title without markup |
| ExportCodec.HeadOpensNoTitle | public/app.js:737 | the export's head, before its title element, contains no other title tag |
| ExportCodec.CsvAppendRow | public/app.js:760-762 | appending a row appends that row's line |
| ExportCodec.Csv | public/app.js:757-763 | the text is empty exactly when the grid has no rows; otherwise it is at least one character per row and ends with a line break |
| ExportCodec.CsvText | public/app.js:757-763 | the loop's text is every row joined by commas and followed by a line break, in order |
| ExportCodec.SheetExport | public/app.js:764-765 | a spreadsheet export never prints: `表格.txt` with `text/plain` for txt and `表格.csv` with `text/csv` for every other format, pdf included |
| ExportCodec.CsvLines | public/app.js:667 | the exported text splits at line breaks into one line per row and a final empty piece |
| ExportCodec.SafeLineNotBlank | public/app.js:667 | a safe row's line is kept by the blank-line filter |
| ExportCodec.KeepsNonBlank | public/app.js:667 | the filter keeps every non-blank line and drops the final empty piece |
| ExportCodec.FieldsOfSafeRow | public/app.js:677-681 | a safe row's line splits and trims back into the row |
| ExportCodec.CsvRoundTrip | public/app.js:667-681 | exporting a grid as CSV and importing the file gives back the grid, when no cell holds a comma, a line break or white space at its ends and no row is empty or a single empty cell |
| ExportCodec.DeckBodyAppend | public/app.js:769-771 | the deck markup of two runs of slides is their markups one after the other: one `.slide` division per slide, in order |
| ExportCodec.DeckBody | public/app.js:769-771 | the deck markup is empty exactly when the deck is, and has at least one character per slide |
| ExportCodec.DeckHtml | public/app.js:767-772 | the loop's markup is the fixed head, each slide's division in deck order, then the closing tags |
| ExportCodec.DeckExport | public/app.js:774-780 | pdf starts the print flow with no download; any other format downloads `演示文稿.<format>` as `text/html` |
| Grid.HeaderFor | public/app.js:266-268 | a new column's letter is the code unit `65 + column count`, reduced modulo 2^16 as `fromCharCode` does |
| Grid.RowAdded | public/app.js:244-263 | adding a row keeps every row and appends one numbered one past the row count, with one empty input per header letter |
| Grid.RowDeleted | public/app.js:286-291 | deleting a row keeps a prefix of the rows: one fewer when there is more than one, all of them otherwise |
| Grid.ColAdded | public/app.js:265-284 | adding a column appends the next letter to the header and an empty input to the end of every row, keeping each row's index |
| Grid.DropLast | public/app.js:297-299 | a row loses exactly one cell, its last input if it has one and else its index cell; only a row with no cells at all cannot |
| Grid.StuckFrom | public/app.js:297-299 | finds the first row with no cell left to remove, or reports that every row has one |
| Grid.ColDeleted | public/app.js:293-302 | a column delete is ignored unless the header has more than one letter; otherwise the last letter goes and each row loses its last cell, stopping at the first row with none |
| Grid.ScaffoldOrderly | public/app.js:224-242 | the page's scaffold is orderly: twenty rows numbered 1 to 20, five inputs each under five letters A to E |
| Grid.RowAddedOrderly | public/app.js:244-263 | adding a row keeps an orderly table orderly |
| Grid.RowDeletedOrderly | public/app.js:286-291 | deleting a row keeps an orderly table orderly |
| Grid.ColAddedOrderly | public/app.js:265-284 | adding a column keeps an orderly table orderly and its header lettered A, B, C, ... |
| Grid.ColDeletedOrderly | public/app.js:293-302 | in an orderly table a column delete completes and leaves the table orderly and lettered |
| Grid.DeleteUndoesAddRow | public/app.js:244-291 | deleting a row right after adding one restores the table |
| Grid.DeleteUndoesAddCol | public/app.js:265-302 | deleting a column right after adding one restores the table, whatever its shape |
| Grid.CellsOfNumbered | public/app.js:670-694 | saving the rows a CSV import built gives back the parsed lines |
| Grid.NumberedOrderlyIff | public/app.js:665-694 | a CSV import leaves the table orderly exactly when every line has as many fields as the header has letters; the header is never adjusted |
| Grid.NarrowRowRunsOut | public/app.js:293-302 | after importing a one-column file, a third column delete stops at the row that has nothing left |
| Grid.Sheet.constructor | public/app.js:224 | the table starts with header A to E and an empty body |
| Grid.Sheet.Setup | public/app.js:224-242 | the scaffold's twenty numbered rows of five empty inputs are appended, header unchanged |
| Grid.Sheet.AddRow | public/app.js:244-263 | one row is appended, numbered one past the row count, with one empty input per header letter; nothing else changes |
| Grid.Sheet.AddCol | public/app.js:265-284 | the next letter is appended to the header and one empty input to every row |
| Grid.Sheet.DeleteRow | public/app.js:286-291 | the last row is removed exactly when there is more than one |
| Grid.Sheet.DeleteCol | public/app.js:293-302 | the table and the outcome are those of the column-delete transition |
| Grid.Sheet.SetCell | public/app.js:234-237 | typing changes exactly the one input's value |
| Grid.Sheet.Clear | public/app.js:621 | emptying the body keeps the header |
| Grid.Sheet.Rebuild | public/app.js:669-692 | the body becomes one numbered row per parsed line, header unchanged |
| Grid.Sheet.Collect | public/app.js:305-316 | the nested loop collects every row's input values, in order |
| Office.ZoomedIn | public/app.js:802-805 | zooming in adds one step of 10 when that stays within 200, and otherwise gives 200 |
| Office.ZoomedOut | public/app.js:807-810 | zooming out removes one step of 10 when that stays at or above 50, and otherwise gives 50 |
| Office.ZoomStaysOk | public/app.js:802-815 | every reachable zoom level is a multiple of 10 between 50 and 200 |
| Office.ZoomStepsUndo | public/app.js:802-810 | away from the bounds, a step out undoes a step in and the other way round |
| Office.ZoomInSaturates | public/app.js:802-805 | n steps in add 10·n, up to 200 |
| Office.RepeatOneMore | public/app.js:862-867 | one more loop iteration appends one more copy |
| Office.RepeatLength | public/app.js:862-867 | n copies are n times as long; a non-positive count gives none |
| Office.RepeatAtMost | public/app.js:862-867 | a loop bound that is not positive runs no iterations |
| Office.Table | public/app.js:857-872 | the table is the frame plus, per row, the row tags and one cell per column |
| Office.TableMarkup | public/app.js:857-872 | the nested loops build `rows` rows of `cols` bordered empty cells inside the table tags |
| Office.RowMarkup | public/app.js:863-867 | the inner loop builds one row of `cols` cells |
| Office.WpsOffice.constructor | public/app.js:3-32 | start-up merges the stored snapshot over the defaults, lays out the table scaffold, adds and saves a first slide when the deck is empty or else shows slide 0; zoom is 100 and the writer active |
| Office.WpsOffice.SaveToStorage | public/app.js:43-48 | storage holds the current documents and ledger; nothing else changes |
| Office.WpsOffice.SwitchModule | public/app.js:61-67 | activating a module from its tab or its start-page card changes the active module and nothing else |
| Office.WpsOffice.SaveDocument | public/app.js:414-432 | the ledger takes an entry with the save time, the writer title (or its placeholder) whichever module is active, and the active module; then a save |
| Office.WpsOffice.SaveSpreadsheetData | public/app.js:305-317 | the spreadsheet document becomes the table's values; nothing else changes |
| Office.WpsOffice.AddRow | public/app.js:244-263 | the table gains a row, then a save of the unrefreshed documents |
| Office.WpsOffice.AddCol | public/app.js:265-284 | the table gains a column, then a save of the unrefreshed documents |
| Office.WpsOffice.DeleteRow | public/app.js:286-291 | the last row goes and the page saves only when more than one row remains |
| Office.WpsOffice.DeleteCol | public/app.js:293-302 | the column-delete transition; the page saves only when it completes |
| Office.WpsOffice.EditCell | public/app.js:234-237 | the input takes the value, the table is copied into the document, and the page saves |
| Office.WpsOffice.RenderSlide | public/app.js:382-386 | the canvas shows the slide at the index if the deck has one there, and otherwise nothing changes |
| Office.WpsOffice.AddSlide | public/app.js:350-372 | the slide is pushed at index old length; the first slide of an empty deck is shown; the selection stays; then a save |
| Office.WpsOffice.AddNewSlide | public/app.js:326-328 | the add-slide button appends `新幻灯片`/`内容` to the deck and saves; the deck stays non-empty and nothing else changes |
| Office.WpsOffice.SelectSlide | public/app.js:374-380 | the selection takes any index unchecked; the canvas follows only to a slide that exists |
| Office.WpsOffice.EditSlideTitle | public/app.js:388-391 | the title of the slide on the canvas takes the text, then a save |
| Office.WpsOffice.EditSlideContent | public/app.js:393-396 | the content of the slide on the canvas takes the text, then a save |
| Office.WpsOffice.NewDocument | public/app.js:612-631 | once confirmed, the active module's document returns to its initial form (the deck to one first slide, selected and shown; the table to a fresh scaffold under its current header), then a save; nothing else changes |
| Office.WpsOffice.ImportFile | public/app.js:644-663 | the lower-cased name picks the CSV, HTML or text importer; no file or any other name changes nothing |
| Office.WpsOffice.ImportCsv | public/app.js:665-695 | the spreadsheet becomes active, the table is one numbered row per non-blank line with trimmed comma-split fields, the document holds the same rows, then a save |
| Office.WpsOffice.LoadRows | public/app.js:669-694 | the rebuild, the copy into the document, and the save |
| Office.WpsOffice.ImportHtml | public/app.js:697-714 | the writer becomes active with the matched or fallback title and the parsed body, then a save |
| Office.WpsOffice.ImportTxt | public/app.js:716-729 | the writer becomes active with the name less its first `.txt` and one paragraph per line, then a save |
| Office.WpsOffice.ExportDocument | public/app.js:731-784 | the active module's export; a spreadsheet export first copies the table into its document without saving; nothing else changes |
| Office.WpsOffice.ZoomIn | public/app.js:802-805 | the zoom level takes one step in; nothing else changes |
| Office.WpsOffice.ZoomOut | public/app.js:807-810 | the zoom level takes one step out; nothing else changes |
| Office.WpsOffice.ZoomReset | public/app.js:812-815 | the zoom level returns to 100; nothing else changes |

## Left out

- `server.js` is not part of this model. It is a static-file host with request logging and no logic.
- DOM construction, event wiring, the tab and module-panel highlighting (the active module itself is modelled by SwitchModule), menus, the modal, `execCommand` formatting, thumbnails and their highlight, fullscreen, and the CSS transform of `applyZoom`. These are presentation only.
- `setupWriter`'s title and body listeners, find-and-replace (`doReplace`, which builds a user regular expression) and the word count. These rely on the browser's editing and text extraction, which are not part of this model.
- `insertHTMLAtCursor`, image and link insertion, and date and time insertion. These depend on selections, ranges, data URLs and the clock. Only the table markup is modelled.
- Office.TableMarkup: takes the row and column counts as integers. It does not model `parseInt` of the prompt answers, or the guard that skips a cancelled or empty prompt. A count that does not parse behaves like 0, which a non-positive integer reproduces.
- `localStorage`, `JSON.stringify` and `JSON.parse` are modelled as an `Option` entry holding the stored record, and the round trip through JSON as the identity. A `JSON.parse` failure, which would abort start-up, is not modelled.
- `FileReader` is asynchronous. An import is modelled as happening at once on the file's name and text.
- `Blob`/`URL` downloads and `window.print` become the `Export` value that the export returns. The alerts are not modelled.
- Text.Lower: models `toLowerCase` on ASCII letters only. Other letters are kept. No non-ASCII letter lower-cases into one of the letters of `csv`, `html`, `htm` or `txt`, so the importer dispatch is unaffected.
- Office.WpsOffice.ImportTxt: the title is the lower-cased name, and the model lower-cases only ASCII letters. A non-ASCII capital keeps its case in the model: `Été.txt` is titled `été` by the program but `Été` by the model. `İ` lower-cases to two code units in JavaScript, so such titles also differ in length.
- Office.WpsOffice.ImportHtml: the same ASCII-only lower-casing applies to the fallback title taken from the file name when the content has no title element.
- The HTML title regular expression is modelled with ASCII-only case folding. Without the `u` flag, `i` still folds non-ASCII letters, but it never maps a non-ASCII character onto an ASCII one. The pattern is all ASCII, so ASCII folding finds the same matches.
- `history` and `historyIndex` are declared and never used, so they are not modelled.
- The duplicated listeners that `newDocument` attaches by running the spreadsheet setup again (one handler call per duplicate) are not modelled. Each button press is modelled as running its handler once.
- `updateRecentFiles`' list markup is not modelled. It is presentation only.
- The recent-file entry's `id` is `Date.now()` and its `date` is a locale string; both are parameters.
- The page's initial header is not part of the script. It is modelled as A to E, to match the five inputs of each scaffold row.
