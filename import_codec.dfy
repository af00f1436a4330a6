/**
 * The import codec: which importer a file name selects, how CSV text becomes
 * grid rows, how plain text becomes writer paragraphs, and which title an
 * imported text or HTML file gives the writer document.
 */
module ImportCodec {
  import opened Wrappers
  import opened Text

  datatype FileKind = CsvFile | HtmlFile | TxtFile | Unsupported

  /** The importer a file name selects: the lower-cased name's suffix, tested in the order `.csv`, `.html`/`.htm`, `.txt`. */
  function KindOf(name: string): (kind: FileKind)
    ensures kind == CsvFile <==> EndsWith(Lower(name), ".csv")
    ensures kind == TxtFile ==> EndsWith(Lower(name), ".txt")
    ensures kind == Unsupported <==>
              && !EndsWith(Lower(name), ".csv") && !EndsWith(Lower(name), ".html")
              && !EndsWith(Lower(name), ".htm") && !EndsWith(Lower(name), ".txt")
  {
    var lower := Lower(name);
    if EndsWith(lower, ".csv") then CsvFile
    else if EndsWith(lower, ".html") || EndsWith(lower, ".htm") then HtmlFile
    else if EndsWith(lower, ".txt") then TxtFile
    else Unsupported
  }

  /** The dispatch ignores the case of the name. */
  lemma KindIgnoresCase(a: string, b: string)
    requires EqualIgnoringCase(a, b)
    ensures KindOf(a) == KindOf(b)
  {
    LowerIgnoresCase(a, b);
  }

  /** Lower-casing a name ending in `ext` gives a name ending in the lower-case form of `ext`. */
  lemma LowerSuffix(stem: string, ext: string, lowered: string)
    requires EqualIgnoringCase(ext, lowered) && Lower(lowered) == lowered
    ensures EndsWith(Lower(stem + ext), lowered)
  {
    LowerAppend(stem, ext);
    LowerIgnoresCase(ext, lowered);
    var lower := Lower(stem + ext);
    assert lower[|lower| - |ext|..] == Lower(ext);
  }

  /** The importer selected by a name whose lower-case form ends in the given extension. */
  lemma KindOfLowered(name: string, lowered: string)
    requires EndsWith(Lower(name), lowered)
    ensures lowered == ".csv" ==> KindOf(name) == CsvFile
    ensures lowered == ".html" || lowered == ".htm" ==> KindOf(name) == HtmlFile
    ensures lowered == ".txt" ==> KindOf(name) == TxtFile
  {
    var lower := Lower(name);
    assert lower[|lower| - |lowered|..] == lowered;
    if lowered == ".html" || lowered == ".htm" || lowered == ".txt" {
      assert lower[|lower| - 1] == lowered[|lowered| - 1];
    }
    if lowered == ".txt" {
      assert lower[|lower| - 2] == 'x';
    }
  }

  /** A name ending in an extension, in any mix of cases, selects that extension's importer. */
  lemma KindOfExtension(stem: string, ext: string)
    ensures EqualIgnoringCase(ext, ".csv") ==> KindOf(stem + ext) == CsvFile
    ensures EqualIgnoringCase(ext, ".html") ==> KindOf(stem + ext) == HtmlFile
    ensures EqualIgnoringCase(ext, ".htm") ==> KindOf(stem + ext) == HtmlFile
    ensures EqualIgnoringCase(ext, ".txt") ==> KindOf(stem + ext) == TxtFile
  {
    if EqualIgnoringCase(ext, ".csv") {
      LowerSuffix(stem, ext, ".csv");
      KindOfLowered(stem + ext, ".csv");
    }
    if EqualIgnoringCase(ext, ".html") {
      LowerSuffix(stem, ext, ".html");
      KindOfLowered(stem + ext, ".html");
    }
    if EqualIgnoringCase(ext, ".htm") {
      LowerSuffix(stem, ext, ".htm");
      KindOfLowered(stem + ext, ".htm");
    }
    if EqualIgnoringCase(ext, ".txt") {
      LowerSuffix(stem, ext, ".txt");
      KindOfLowered(stem + ext, ".txt");
    }
  }

  // ---------------------------------------------------------------- CSV

  /** The lines kept by the CSV importer: those that are not blank after trimming, in order. */
  function NonBlankLines(lines: seq<string>): (kept: seq<string>)
    ensures |kept| <= |lines|
    ensures forall k :: 0 <= k < |kept| ==> Trim(kept[k]) != [] && kept[k] in lines
  {
    if lines == [] then []
    else if Trim(lines[0]) == [] then NonBlankLines(lines[1..])
    else [lines[0]] + NonBlankLines(lines[1..])
  }

  /** One CSV line's cells: the line split at every comma, each piece trimmed; there is no quoting. */
  function Fields(line: string): (cells: seq<string>)
    ensures |cells| == Count(line, ',') + 1
    ensures forall k :: 0 <= k < |cells| ==> Trim(cells[k]) == cells[k]
    ensures forall k :: 0 <= k < |cells| ==> ',' !in cells[k]
    ensures '\n' !in line ==> forall k :: 0 <= k < |cells| ==> '\n' !in cells[k]
    ensures forall k :: 0 <= k < |cells| ==> cells[k] == Trim(Split(line, ',')[k])
  {
    var pieces := Split(line, ',');
    var cells := Trimmed(pieces);
    TrimmedProps(pieces, line);
    cells
  }

  function Trimmed(pieces: seq<string>): (cells: seq<string>)
    ensures |cells| == |pieces|
    ensures forall k :: 0 <= k < |pieces| ==> cells[k] == Trim(pieces[k])
  {
    seq(|pieces|, k requires 0 <= k < |pieces| => Trim(pieces[k]))
  }

  lemma TrimmedProps(pieces: seq<string>, line: string)
    requires forall k :: 0 <= k < |pieces| ==> ',' !in pieces[k]
    requires forall k, c :: 0 <= k < |pieces| && c in pieces[k] ==> c in line
    ensures forall k :: 0 <= k < |pieces| ==> Trim(Trimmed(pieces)[k]) == Trimmed(pieces)[k]
    ensures forall k :: 0 <= k < |pieces| ==> ',' !in Trimmed(pieces)[k]
    ensures '\n' !in line ==> forall k :: 0 <= k < |pieces| ==> '\n' !in Trimmed(pieces)[k]
  {
    var cells := Trimmed(pieces);
    forall k | 0 <= k < |pieces|
      ensures Trim(cells[k]) == cells[k]
      ensures forall c :: c in cells[k] ==> c in pieces[k]
    {
      TrimIdempotent(pieces[k]);
      TrimSubset(pieces[k]);
    }
  }

  function RowsOf(lines: seq<string>): (rows: seq<seq<string>>)
    ensures |rows| == |lines|
    ensures forall k :: 0 <= k < |rows| ==> rows[k] == Fields(lines[k])
  {
    seq(|lines|, k requires 0 <= k < |lines| => Fields(lines[k]))
  }

  /** The rows a CSV import builds: one per non-blank line, each that line's trimmed comma-separated fields. */
  function CsvRows(content: string): (rows: seq<seq<string>>)
    ensures |rows| <= Count(content, '\n') + 1
  {
    RowsOf(NonBlankLines(Split(content, '\n')))
  }

  /** The filter works line by line: the lines kept from two runs of lines are those kept from each. */
  lemma {:induction false} NonBlankLinesAppend(a: seq<string>, b: seq<string>)
    ensures NonBlankLines(a + b) == NonBlankLines(a) + NonBlankLines(b)
    decreases |a|
  {
    if a != [] {
      var ab := a + b;
      assert ab[0] == a[0] && ab[1..] == a[1..] + b;
      NonBlankLinesAppend(a[1..], b);
      var rest := NonBlankLines(a[1..]);
      if Trim(a[0]) == [] {
        assert NonBlankLines(ab) == NonBlankLines(a[1..] + b);
        assert NonBlankLines(a) == rest;
      } else {
        assert NonBlankLines(ab) == [a[0]] + NonBlankLines(a[1..] + b);
        assert NonBlankLines(a) == [a[0]] + rest;
        assert [a[0]] + (rest + NonBlankLines(b)) == ([a[0]] + rest) + NonBlankLines(b);
      }
    } else {
      assert a + b == b;
    }
  }

  /** One line is kept exactly when it is not blank after trimming. */
  lemma NonBlankLinesOne(line: string)
    ensures NonBlankLines([line]) == if Trim(line) == [] then [] else [line]
  {
    assert [line][1..] == [];
  }

  /** A line break in CSV text separates the rows of the two sides. */
  lemma CsvRowsAround(a: string, b: string)
    ensures CsvRows(a + "\n" + b) == CsvRows(a) + CsvRows(b)
  {
    SplitAround(a, b, '\n');
    var la, lb := Split(a, '\n'), Split(b, '\n');
    NonBlankLinesAppend(la, lb);
    RowsOfAppend(NonBlankLines(la), NonBlankLines(lb));
  }

  /** The rows of two runs of lines are the rows of each run. */
  lemma RowsOfAppend(x: seq<string>, y: seq<string>)
    ensures RowsOf(x + y) == RowsOf(x) + RowsOf(y)
  {
    var r, rx, ry := RowsOf(x + y), RowsOf(x), RowsOf(y);
    forall k | 0 <= k < |r| ensures r[k] == (rx + ry)[k] {
      if k < |x| {
        assert (x + y)[k] == x[k];
      } else {
        assert (x + y)[k] == y[k - |x|];
      }
    }
  }

  /** A single CSV line gives no row when it is blank and otherwise exactly its fields. */
  lemma CsvRowsOfLine(line: string)
    requires '\n' !in line
    ensures CsvRows(line) == if Trim(line) == [] then [] else [Fields(line)]
  {
    SplitNone(line, '\n');
    NonBlankLinesOne(line);
  }

  /** Every imported row has at least one cell, and no cell has white space at its ends, a comma or a line break. */
  lemma CsvRowsClean(content: string)
    ensures var rows := CsvRows(content);
            && (forall k :: 0 <= k < |rows| ==> |rows[k]| >= 1)
            && forall k, m :: 0 <= k < |rows| && 0 <= m < |rows[k]| ==>
                 Trim(rows[k][m]) == rows[k][m] && ',' !in rows[k][m] && '\n' !in rows[k][m]
  {
    var lines := Split(content, '\n');
    var kept := NonBlankLines(lines);
    var rows := RowsOf(kept);
    forall k | 0 <= k < |rows|
      ensures |rows[k]| >= 1
      ensures forall m :: 0 <= m < |rows[k]| ==>
                Trim(rows[k][m]) == rows[k][m] && ',' !in rows[k][m] && '\n' !in rows[k][m]
    {
      assert kept[k] in lines;
      assert '\n' !in kept[k];
      assert rows[k] == Fields(kept[k]);
    }
  }

  // ---------------------------------------------------------------- TXT

  function Paragraph(line: string): string {
    "<p>" + line + "</p>"
  }

  function Wrapped(lines: seq<string>): (r: seq<string>)
    ensures |r| == |lines|
    ensures forall k :: 0 <= k < |lines| ==> r[k] == Paragraph(lines[k])
  {
    seq(|lines|, k requires 0 <= k < |lines| => Paragraph(lines[k]))
  }

  /** The writer content a text import builds: one paragraph per line, the text inserted unescaped. */
  function Paragraphs(content: string): (html: string)
    ensures '\n' !in content ==> html == "<p>" + content + "</p>"
  {
    var lines := Split(content, '\n');
    assert '\n' !in content ==> Concat(Wrapped(lines)) == Paragraph(content) by {
      if '\n' !in content {
        SplitNone(content, '\n');
        assert Wrapped(lines) == [Paragraph(content)];
        assert [Paragraph(content)][1..] == [];
      }
    }
    Concat(Wrapped(lines))
  }

  /** A line break in the text is a paragraph boundary in the markup. */
  lemma ParagraphsAround(a: string, b: string)
    ensures Paragraphs(a + "\n" + b) == Paragraphs(a) + Paragraphs(b)
  {
    SplitAround(a, b, '\n');
    var la, lb := Split(a, '\n'), Split(b, '\n');
    assert Wrapped(la + lb) == Wrapped(la) + Wrapped(lb);
    ConcatAppend(Wrapped(la), Wrapped(lb));
  }

  /** Each of the text's characters survives and each of its lines adds seven markup characters. */
  lemma {:induction false} ParagraphsLength(content: string)
    ensures |Paragraphs(content)| == |content| + 6 * Count(content, '\n') + 7
    decreases |content|
  {
    if '\n' !in content {
      CountAbsent(content, '\n');
    } else {
      var i :| 0 <= i < |content| && content[i] == '\n';
      var a, b := content[..i], content[i + 1..];
      assert content == a + "\n" + b;
      ParagraphsAround(a, b);
      ParagraphsLength(a);
      ParagraphsLength(b);
      assert content == a + ("\n" + b);
      CountAppend(a, "\n" + b, '\n');
      CountAppend("\n", b, '\n');
      assert Count("\n", '\n') == 1 by {
        assert "\n"[1..] == [];
      }
      assert |content| == |a| + |b| + 1;
      assert |Paragraphs(content)| == |Paragraphs(a)| + |Paragraphs(b)|;
      assert Count(content, '\n') == Count(a, '\n') + 1 + Count(b, '\n');
    }
  }

  lemma CountAbsent(s: string, c: char)
    requires c !in s
    ensures Count(s, c) == 0
  {
    if s != [] {
      CountAbsent(s[1..], c);
    }
  }

  lemma {:induction false} CountAppend(a: string, b: string, c: char)
    ensures Count(a + b, c) == Count(a, c) + Count(b, c)
  {
    if a == [] {
      assert a + b == b;
    } else {
      assert (a + b)[1..] == a[1..] + b;
      CountAppend(a[1..], b, c);
    }
  }

  // ---------------------------------------------------------------- titles

  /** The title a text import gives the writer: the (lower-cased) file name with its first `.txt` removed. */
  function TxtTitle(name: string): (title: string)
    ensures (forall i: nat :: !OccursAt(name, ".txt", i)) ==> title == name
  {
    ReplaceFirst(name, ".txt", "")
  }

  const TitleOpen: string := "<title>"
  const TitleClose: string := "</title>"

  /** `<title>`, in any case, starts at `i`. */
  predicate OpensAt(s: string, i: nat) {
    i + |TitleOpen| <= |s| && EqualIgnoringCase(s[i..i + |TitleOpen|], TitleOpen)
  }

  /** `</title>`, in any case, starts at `j`. */
  predicate ClosesAt(s: string, j: nat) {
    j + |TitleClose| <= |s| && EqualIgnoringCase(s[j..j + |TitleClose|], TitleClose)
  }

  predicate SingleLine(t: string) {
    forall k :: 0 <= k < |t| ==> !IsLineTerminator(t[k])
  }

  /** The pattern `<title>(.*?)</title>` with flag `i` matches with its opening tag at `i` and its closing tag at `j`. */
  predicate MatchAt(s: string, i: nat, j: nat) {
    OpensAt(s, i) && i + |TitleOpen| <= j && ClosesAt(s, j) && SingleLine(s[i + |TitleOpen|..j])
  }

  /** The lazy `.*?` from `j`: the first closing tag reached before a line terminator. */
  function CloseFrom(s: string, j: nat): (r: Option<nat>)
    requires j <= |s|
    ensures r.Some? ==> j <= r.value && ClosesAt(s, r.value) && SingleLine(s[j..r.value])
    ensures r.Some? ==> forall k :: j <= k < r.value ==> !ClosesAt(s, k)
    ensures r.None? ==> forall k :: j <= k && ClosesAt(s, k) ==> !SingleLine(s[j..k])
    decreases |s| - j
  {
    if ClosesAt(s, j) then Some(j)
    else if j < |s| && !IsLineTerminator(s[j]) then
      SingleLineFrom(s, j);
      CloseFrom(s, j + 1)
    else if j < |s| then
      SingleLineFrom(s, j);
      None
    else
      None
  }

  /** A stretch starting at `j` is one line exactly when `s[j]` ends no line and the rest of the stretch is one line. */
  lemma SingleLineFrom(s: string, j: nat)
    requires j < |s|
    ensures forall k :: j < k <= |s| ==> (SingleLine(s[j..k]) <==> !IsLineTerminator(s[j]) && SingleLine(s[j + 1..k]))
  {
    forall k | j < k <= |s|
      ensures SingleLine(s[j..k]) <==> !IsLineTerminator(s[j]) && SingleLine(s[j + 1..k])
    {
      assert s[j..k] == [s[j]] + s[j + 1..k];
    }
  }

  /** The regular expression's search from `i`: the leftmost opening tag that has a match, with its lazy closing tag. */
  function FirstMatch(s: string, i: nat): (r: Option<(nat, nat)>)
    requires i <= |s|
    ensures r.Some? ==> i <= r.value.0 && MatchAt(s, r.value.0, r.value.1)
    ensures r.Some? ==> forall k :: r.value.0 + |TitleOpen| <= k < r.value.1 ==> !ClosesAt(s, k)
    ensures r.Some? ==> forall p, q :: i <= p < r.value.0 ==> !MatchAt(s, p, q)
    ensures r.None? ==> forall p, q :: i <= p ==> !MatchAt(s, p, q)
    decreases |s| - i
  {
    var close := if OpensAt(s, i) then CloseFrom(s, i + |TitleOpen|) else None;
    if close.Some? then Some((i, close.value))
    else if i < |s| then FirstMatch(s, i + 1)
    else None
  }

  /** The first capture of `/<title>(.*?)<\/title>/i` in the content, if the pattern matches at all. */
  function TitleCapture(content: string): (r: Option<string>)
    ensures r.None? <==> forall p, q :: !MatchAt(content, p, q)
  {
    match FirstMatch(content, 0)
    case None => None
    case Some((p, q)) => Some(content[p + |TitleOpen|..q])
  }

  /** The title an HTML import falls back on: the (lower-cased) file name with its first `.html`, then its first `.htm`, removed. */
  function FallbackTitle(name: string): (title: string)
    ensures (forall i: nat :: !OccursAt(name, ".htm", i)) ==> title == name
  {
    assert forall i: nat :: OccursAt(name, ".html", i) ==> OccursAt(name, ".htm", i) by {
      forall i: nat | OccursAt(name, ".html", i) ensures OccursAt(name, ".htm", i) {
        assert name[i..i + 4] == name[i..i + 5][..4];
      }
    }
    ReplaceFirst(ReplaceFirst(name, ".html", ""), ".htm", "")
  }

  /** The title an HTML import gives the writer. */
  function HtmlTitle(content: string, name: string): (title: string)
    ensures (forall p, q :: !MatchAt(content, p, q)) ==> title == FallbackTitle(name)
    ensures TitleCapture(content).Some? ==> SingleLine(title)
  {
    match TitleCapture(content)
    case Some(t) => t
    case None => FallbackTitle(name)
  }

  /** No `<title>` opens anywhere before position `n`. */
  predicate NoTitleBefore(s: string, n: nat) {
    forall p :: 0 <= p < n ==> !OpensAt(s, p)
  }

  /** Where no opening tag precedes it, the search from the start finds what the search from `n` finds. */
  lemma {:induction false} SkipToTitle(s: string, i: nat, n: nat)
    requires i <= n <= |s| && NoTitleBefore(s, n)
    ensures FirstMatch(s, i) == FirstMatch(s, n)
    decreases n - i
  {
    if i < n {
      SkipToTitle(s, i + 1, n);
    }
  }

  /**
   * A document whose first opening title tag is followed by a one-line title
   * text and a closing tag, tags in any case, is titled by that text.
   */
  lemma {:induction false} TitleOfDocument(head: string, open: string, t: string, close: string, rest: string, name: string)
    requires NoTitleBefore(head + open + t + close + rest, |head|)
    requires EqualIgnoringCase(open, TitleOpen) && EqualIgnoringCase(close, TitleClose)
    requires SingleLine(t) && '<' !in t
    ensures HtmlTitle(head + open + t + close + rest, name) == t
  {
    var s := head + open + t + close + rest;
    var h := |head|;
    var i := h + |TitleOpen|;
    var j := i + |t|;
    assert s[h..i] == open;
    assert s[i..j] == t;
    assert s[j..j + |TitleClose|] == close;
    assert OpensAt(s, h);
    assert ClosesAt(s, j);
    forall k | i <= k < j ensures !ClosesAt(s, k) {
      assert s[k] == t[k - i];
      assert k + |TitleClose| <= |s| ==> s[k..k + |TitleClose|][0] == s[k];
    }
    var c := CloseFrom(s, i);
    assert c.Some? && c.value == j;
    assert FirstMatch(s, h) == Some((h, j));
    SkipToTitle(s, 0, h);
  }

  /** A file name whose stem has no dot falls back to that stem, for either HTML extension. */
  lemma FallbackStripsExtension(stem: string)
    requires '.' !in stem
    ensures FallbackTitle(stem + ".html") == stem
    ensures FallbackTitle(stem + ".htm") == stem
  {
    StripSuffix(stem, ".html");
    NoDotNoMatch(stem, "", ".htm");
    assert stem + "" == stem;
    assert forall i: nat :: !OccursAt(stem, ".htm", i);
    NoDotNoMatch(stem, ".htm", ".html");
    assert forall i: nat :: !OccursAt(stem + ".htm", ".html", i);
    StripSuffix(stem, ".htm");
  }

  /** A text file whose stem has no dot is titled by that stem. */
  lemma TxtTitleStripsExtension(stem: string)
    requires '.' !in stem
    ensures TxtTitle(stem + ".txt") == stem
  {
    StripSuffix(stem, ".txt");
  }

  /** Replacing an extension that starts with a dot removes it from the end of a dot-free stem. */
  lemma StripSuffix(stem: string, ext: string)
    requires '.' !in stem && |ext| >= 1 && ext[0] == '.'
    ensures ReplaceFirst(stem + ext, ext, "") == stem
  {
    var s := stem + ext;
    NoDotNoMatch(stem, ext, ext);
    assert s[|stem|..|stem| + |ext|] == ext;
    assert OccursAt(s, ext, |stem|);
    assert s[..|stem|] + "" + s[|stem| + |ext|..] == stem;
  }

  /** A pattern starting with a dot cannot occur inside a dot-free stem. */
  lemma NoDotNoMatch(stem: string, tail: string, pat: string)
    requires '.' !in stem && |pat| >= 1 && pat[0] == '.'
    ensures forall i: nat :: i < |stem| ==> !OccursAt(stem + tail, pat, i)
  {
  }

  /** The fallback removes the first `.html` wherever it stands and then the first `.htm`: `a.html.html` is titled `al`. */
  lemma FallbackCutsInside()
    ensures FallbackTitle("a.html.html") == "al"
  {
    var s := "a.html.html";
    assert s[0..5][0] == 'a';
    assert OccursAt(s, ".html", 1);
    assert s[..1] + "" + s[6..] == "a.html";
    assert !OccursAt("a.html", ".htm", 0);
    assert OccursAt("a.html", ".htm", 1);
    assert "a.html"[..1] + "" + "a.html"[5..] == "al";
  }
}
