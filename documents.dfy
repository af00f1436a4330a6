/**
 * The three documents of an office session, the recent-files ledger and the
 * snapshot kept in browser storage, with the two pure rules that govern
 * them: how a save event enters the ledger, and how a stored snapshot is
 * merged over the defaults when the application starts.
 */
module Documents {
  import opened Wrappers

  /** The three editing modules; exactly one is active at a time. */
  datatype ModuleKind = Writer | Spreadsheet | Presentation

  datatype WriterDoc = WriterDoc(title: string, content: string)

  /** The grid as last materialised from the live table: rows of cell strings. */
  datatype SheetDoc = SheetDoc(data: seq<seq<string>>)

  datatype Slide = Slide(title: string, content: string)

  datatype Deck = Deck(slides: seq<Slide>)

  datatype Docs = Docs(writer: WriterDoc, spreadsheet: SheetDoc, presentation: Deck)

  /** One ledger entry: the save time in milliseconds, the writer title, the active module and a display date. */
  datatype RecentFile = RecentFile(id: int, title: string, kind: ModuleKind, date: string)

  /** The parsed storage entry; a key the stored object lacks (or holds a falsy value under) is `None`. */
  datatype StoredData = StoredData(documents: Option<Docs>, recentFiles: Option<seq<RecentFile>>)

  const UntitledTitle: string := "未命名文档"
  const BlankWriterContent: string := "<p>开始输入文字...</p>"

  /** The maximum number of ledger entries a save keeps. */
  const LedgerCap: nat := 10

  /** The writer title wherever the program must show one: the title, or the placeholder when it is empty. */
  function DisplayTitle(title: string): (r: string)
    ensures r != []
    ensures title != [] ==> r == title
    ensures title == [] ==> r == UntitledTitle
  {
    if title == [] then UntitledTitle else title
  }

  function DefaultWriter(): WriterDoc {
    WriterDoc(UntitledTitle, BlankWriterContent)
  }

  /** The documents the application is constructed with. */
  function DefaultDocs(): Docs {
    Docs(DefaultWriter(), SheetDoc([]), Deck([]))
  }

  /** What a save writes to storage: every document and the whole ledger. */
  function Snapshot(docs: Docs, files: seq<RecentFile>): StoredData {
    StoredData(Some(docs), Some(files))
  }

  /**
   * A save event entering the ledger: the entry goes to the front, every
   * earlier entry moves down one place, and the last one is dropped when the
   * list has grown past the cap.
   */
  function Remember(files: seq<RecentFile>, entry: RecentFile): (r: seq<RecentFile>)
    ensures |r| == if |files| + 1 > LedgerCap then |files| else |files| + 1
    ensures |r| >= 1 && r[0] == entry
    ensures forall k :: 1 <= k < |r| ==> r[k] == files[k - 1]
  {
    var pushed := [entry] + files;
    if |pushed| > LedgerCap then pushed[..|pushed| - 1] else pushed
  }

  /** A ledger within the cap stays within it. */
  lemma RememberBounded(files: seq<RecentFile>, entry: RecentFile)
    requires |files| <= LedgerCap
    ensures |Remember(files, entry)| <= LedgerCap
    ensures |Remember(files, entry)| == Min(|files| + 1, LedgerCap)
  {
  }

  /** Entries ordered newest first, by their save time. */
  predicate NewestFirst(files: seq<RecentFile>) {
    forall i, j :: 0 <= i < j < |files| ==> files[i].id >= files[j].id
  }

  /** A save stamped no earlier than the newest entry keeps the ledger ordered newest first. */
  lemma RememberKeepsOrder(files: seq<RecentFile>, entry: RecentFile)
    requires NewestFirst(files)
    requires files != [] ==> entry.id >= files[0].id
    ensures NewestFirst(Remember(files, entry))
  {
    var r := Remember(files, entry);
    forall i, j | 0 <= i < j < |r| ensures r[i].id >= r[j].id {
      if i == 0 {
        assert r[j] == files[j - 1];
        assert files[0].id >= files[j - 1].id || j - 1 == 0;
      }
    }
  }

  function Min(a: int, b: int): int {
    if a <= b then a else b
  }

  function Reversed<T>(s: seq<T>): (r: seq<T>)
    ensures |r| == |s|
    ensures forall k :: 0 <= k < |s| ==> r[k] == s[|s| - 1 - k]
  {
    if s == [] then [] else Reversed(s[1..]) + [s[0]]
  }

  /** The ledger after a series of saves, the first of `entries` saved first. */
  function RememberAll(files: seq<RecentFile>, entries: seq<RecentFile>): seq<RecentFile>
    decreases |entries|
  {
    if entries == [] then files else RememberAll(Remember(files, entries[0]), entries[1..])
  }

  /** Remembering one entry on a ledger within the cap is a truncated push. */
  lemma RememberAsPrefix(files: seq<RecentFile>, entry: RecentFile)
    requires |files| <= LedgerCap
    ensures Remember(files, entry) == ([entry] + files)[..Min(|files| + 1, LedgerCap)]
  {
  }

  /**
   * After any series of saves starting from a ledger within the cap, the
   * ledger holds the newest entries first, as many as the cap allows: the
   * saves in reverse order, then the entries that were there before.
   */
  lemma {:induction false} RememberAllKeepsNewest(files: seq<RecentFile>, entries: seq<RecentFile>)
    requires |files| <= LedgerCap
    ensures RememberAll(files, entries) == (Reversed(entries) + files)[..Min(|entries| + |files|, LedgerCap)]
    decreases |entries|
  {
    if entries != [] {
      var e := entries[0];
      var f1 := Remember(files, e);
      RememberAsPrefix(files, e);
      RememberAllKeepsNewest(f1, entries[1..]);
      PushUnderCap(Reversed(entries[1..]), e, files, f1, |entries|);
    }
  }

  /** The inductive step of the ledger: older entries pushed over a ledger cut to the cap, cut again. */
  lemma PushUnderCap(older: seq<RecentFile>, e: RecentFile, files: seq<RecentFile>, f1: seq<RecentFile>, count: nat)
    requires |files| <= LedgerCap && count == |older| + 1
    requires f1 == ([e] + files)[..Min(|files| + 1, LedgerCap)]
    ensures (older + f1)[..Min(|older| + |f1|, LedgerCap)] == ((older + [e]) + files)[..Min(count + |files|, LedgerCap)]
  {
    var m := Min(|files| + 1, LedgerCap);
    var n := Min(count + |files|, LedgerCap);
    assert Min(|older| + |f1|, LedgerCap) == n;
    TakeOfTake(older, [e] + files, m, n);
    assert older + ([e] + files) == (older + [e]) + files;
  }

  /** Cutting the tail of `b` short does not change a prefix that does not reach the cut. */
  lemma TakeOfTake<T>(a: seq<T>, b: seq<T>, m: nat, n: nat)
    requires m <= |b| && n <= |a| + m
    ensures (a + b[..m])[..n] == (a + b)[..n]
  {
    assert forall k :: 0 <= k < n ==> (a + b[..m])[k] == (a + b)[k];
  }

  /**
   * Loading at start-up: a stored snapshot replaces each of the two fields
   * it holds wholesale, and a field it lacks keeps its default.
   */
  function Merge(docs: Docs, files: seq<RecentFile>, stored: Option<StoredData>): (r: (Docs, seq<RecentFile>))
    ensures stored.None? ==> r == (docs, files)
    ensures r.0 == (if stored.Some? && stored.value.documents.Some? then stored.value.documents.value else docs)
    ensures r.1 == (if stored.Some? && stored.value.recentFiles.Some? then stored.value.recentFiles.value else files)
  {
    match stored
    case None => (docs, files)
    case Some(data) =>
      var d := if data.documents.Some? then data.documents.value else docs;
      var f := if data.recentFiles.Some? then data.recentFiles.value else files;
      (d, f)
  }

  /** Loading what a save wrote gives back the saved documents and ledger, whatever the defaults were. */
  lemma LoadAfterSave(defaults: Docs, defaultFiles: seq<RecentFile>, docs: Docs, files: seq<RecentFile>)
    ensures Merge(defaults, defaultFiles, Some(Snapshot(docs, files))) == (docs, files)
  {
  }
}
