/** backend/model.py: `extract_text` reads one stored resume, and `rank_resumes` scores every resume
    in the upload folder against the job description and orders the records by score. */
module TfidfRanking {
  import opened Wrappers
  import opened Text
  import opened Pages
  import Seqs
  import opened StableSort

  /** One page as the PDF reader sees it: its text (`None` and `""` alike, since both are falsy), or
      an exception while extracting it. */
  datatype PdfPage = PageText(text: string) | PageRaises

  /** The file read as a PDF: opening or parsing it raises, or it yields its pages. */
  datatype PdfReading = Unreadable | Parsed(pages: seq<PdfPage>)

  /** A stored file, seen through both readers: its contents decoded as UTF-8 text with undecodable
      bytes dropped, and its contents read as a PDF. */
  datatype StoredFile = StoredFile(asText: string, asPdf: PdfReading)

  /** An entry of the upload folder: the name `os.listdir` reports and the file behind it. */
  datatype DirEntry = DirEntry(name: string, file: StoredFile)

  /** The outcome of transforming a text with the vectorizer fitted on the job description: the
      cosine similarity of the two vectors, or the `ValueError` the library raises. */
  datatype Transform = Similarity(value: real) | ValueError

  /** One result record: the file name, its score and, for the two fallbacks, a note. */
  datatype Record = Record(name: string, score: real, note: Option<string>)

  const NO_TEXT: string := "no text"
  const TRANSFORM_FAILED: string := "transform failed"

  /** The sort key: every record has a score. */
  function Score(r: Record): real
  {
    r.score
  }

  predicate AllPagesRead(pages: seq<PdfPage>)
  {
    forall i :: 0 <= i < |pages| ==> pages[i].PageText?
  }

  /** The page texts, with an empty text standing in for a page that raised. */
  function PageTexts(pages: seq<PdfPage>): (ts: seq<string>)
    ensures |ts| == |pages|
    ensures forall i :: 0 <= i < |pages| && pages[i].PageText? ==> ts[i] == pages[i].text
  {
    seq(|pages|, i requires 0 <= i < |pages| => if pages[i].PageText? then pages[i].text else "")
  }

  /** The PDF branch page by page: `None` once a page has raised, otherwise the text so far. */
  function PagesText(pages: seq<PdfPage>): Option<string>
  {
    if pages == [] then Some("")
    else
      var last := pages[|pages| - 1];
      match PagesText(pages[..|pages| - 1])
      case None => None
      case Some(t) => if last.PageRaises? then None else Some(t + Piece(last.text))
  }

  /** The text of the PDF branch: empty when opening the file or reading any page fails. */
  function PdfText(reading: PdfReading): string
  {
    if reading.Unreadable? then ""
    else match PagesText(reading.pages)
      case None => ""
      case Some(t) => t
  }

  lemma AllReadSnoc(init: seq<PdfPage>, last: PdfPage)
    ensures AllPagesRead(init + [last]) <==> AllPagesRead(init) && last.PageText?
  {
    assert forall j :: 0 <= j < |init| ==> (init + [last])[j] == init[j];
    assert (init + [last])[|init|] == last;
  }

  /** Reading the pages fails exactly when some page raises, and otherwise yields the page texts
      joined by the page-concatenation rule. */
  lemma {:induction false} PagesTextCases(pages: seq<PdfPage>)
    ensures PagesText(pages).None? <==> !AllPagesRead(pages)
    ensures AllPagesRead(pages) ==> PagesText(pages) == Some(JoinPages(PageTexts(pages)))
  {
    if pages != [] {
      var init, last := pages[..|pages| - 1], pages[|pages| - 1];
      PagesTextCases(init);
      assert pages == init + [last];
      AllReadSnoc(init, last);
      if AllPagesRead(pages) {
        assert PageTexts(pages) == PageTexts(init) + [last.text];
        JoinSnoc(PageTexts(init), last.text);
      }
    }
  }

  /** What `extract_text(path)` returns. */
  function ExtractedText(path: string, file: StoredFile): string
  {
    if Lower(Extension(path)) == ".txt" then file.asText else PdfText(file.asPdf)
  }

  /** A path whose lower-cased extension is ".txt" is read as text; anything else is read as a
      PDF, and any failure while doing so yields the empty string rather than an error; a PDF read
      to the end yields its non-empty page texts in page order, each followed by a newline. */
  lemma ExtractedTextCases(path: string, file: StoredFile)
    ensures var r := ExtractedText(path, file);
      && (Lower(Extension(path)) == ".txt" ==> r == file.asText)
      && (Lower(Extension(path)) != ".txt" && file.asPdf.Unreadable? ==> r == "")
      && ((Lower(Extension(path)) != ".txt" && file.asPdf.Parsed?
           && exists i :: 0 <= i < |file.asPdf.pages| && file.asPdf.pages[i].PageRaises?) ==> r == "")
      && (Lower(Extension(path)) != ".txt" && file.asPdf.Parsed? && AllPagesRead(file.asPdf.pages)
          ==> r == JoinPages(Seqs.Filter(PageTexts(file.asPdf.pages), NonEmpty)))
  {
    if file.asPdf.Parsed? {
      PagesTextCases(file.asPdf.pages);
      JoinSkipsEmptyPages(PageTexts(file.asPdf.pages));
    }
  }

  /** Lines 14-30: dispatch on the extension; a PDF is read by `ReadPdf`. */
  method ExtractText(path: string, file: StoredFile) returns (text: string)
    ensures text == ExtractedText(path, file)
  {
    var ext := Lower(Extension(path));
    if ext == ".txt" {
      return file.asText;
    }
    text := ReadPdf(file.asPdf);
  }

  /** Lines 19-30: accumulate the page texts, giving up with the empty string at the first failure. */
  method ReadPdf(reading: PdfReading) returns (text: string)
    ensures text == PdfText(reading)
  {
    text := "";
    if reading.Unreadable? {
      return "";
    }
    var pages := reading.pages;
    for i := 0 to |pages|
      invariant PagesText(pages[..i]) == Some(text)
    {
      assert pages[..i + 1][..i] == pages[..i];
      if pages[i].PageRaises? {
        PagesTextCases(pages);
        return "";
      }
      var pageText := pages[i].text;
      assert text + "" == text;
      if pageText != "" {
        text := text + (pageText + "\n");
      }
    }
    assert pages[..|pages|] == pages;
  }

  /** `fname.lower().endswith((".pdf", ".txt"))`. */
  predicate Qualifies(name: string)
  {
    EndsWith(Lower(name), ".pdf") || EndsWith(Lower(name), ".txt")
  }

  predicate Qualifying(e: DirEntry)
  {
    Qualifies(e.name)
  }

  /** The record for a file named `name` whose extracted text is `text`. Only the exactly empty
      text counts as "no text" (a whitespace-only text goes to the vectorizer); a text the
      vectorizer rejects is recorded with score 0 and "transform failed"; otherwise the score is
      the similarity as a percentage. */
  function Classify(name: string, text: string, transform: string -> Transform): (r: Record)
    ensures r.name == name
    ensures r.note == Some(NO_TEXT) <==> text == ""
    ensures r.note == Some(TRANSFORM_FAILED) <==> text != "" && transform(text).ValueError?
    ensures r.note.None? <==> text != "" && transform(text).Similarity?
    ensures r.note.Some? ==> r.score == 0.0
    ensures r.note.None? ==> r.score == 100.0 * transform(text).value
  {
    if text == "" then Record(name, 0.0, Some(NO_TEXT))
    else match transform(text)
      case Similarity(score) => Record(name, 100.0 * score, None)
      case ValueError => Record(name, 0.0, Some(TRANSFORM_FAILED))
  }

  /** The record of one qualifying folder entry. */
  function Outcome(folder: string, e: DirEntry, transform: string -> Transform): Record
  {
    Classify(e.name, ExtractedText(JoinPath(folder, e.name), e.file), transform)
  }

  /** The records appended by the loop, in folder order, before sorting. */
  function Records(folder: string, entries: seq<DirEntry>, transform: string -> Transform): seq<Record>
  {
    if entries == [] then []
    else
      var e := entries[|entries| - 1];
      Records(folder, entries[..|entries| - 1], transform)
        + (if Qualifying(e) then [Outcome(folder, e, transform)] else [])
  }

  /** Lines 32-53: one record per qualifying entry, then the stable sort by score, highest first. */
  method RankResumes(folder: string, entries: seq<DirEntry>, transform: string -> Transform)
    returns (results: seq<Record>)
    ensures results == SortByKeyDesc(Records(folder, entries, transform), Score)
  {
    results := [];
    for i := 0 to |entries|
      invariant results == Records(folder, entries[..i], transform)
    {
      assert entries[..i + 1][..i] == entries[..i];
      var fname := entries[i].name;
      if !Qualifies(fname) {
        continue;
      }
      var path := JoinPath(folder, fname);
      var text := ExtractText(path, entries[i].file);
      ghost var record := Outcome(folder, entries[i], transform);
      assert Records(folder, entries[..i + 1], transform) == results + [record];
      if text == "" {
        results := results + [Record(fname, 0.0, Some(NO_TEXT))];
        continue;
      }
      match transform(text)
      case Similarity(score) =>
        results := results + [Record(fname, 100.0 * score, None)];
      case ValueError =>
        results := results + [Record(fname, 0.0, Some(TRANSFORM_FAILED))];
    }
    assert entries[..|entries|] == entries;
    results := SortByKeyDesc(results, Score);
  }

  /** Exactly one record per qualifying entry, in folder order: the unsorted records are the
      outcomes of the qualifying entries, one for one. */
  lemma {:induction false} RecordsAccounting(folder: string, entries: seq<DirEntry>, transform: string -> Transform)
    ensures var q := Seqs.Filter(entries, Qualifying);
      var rs := Records(folder, entries, transform);
      |rs| == |q| && forall i :: 0 <= i < |q| ==> rs[i] == Outcome(folder, q[i], transform)
  {
    if entries != [] {
      var init, e := entries[..|entries| - 1], entries[|entries| - 1];
      RecordsAccounting(folder, init, transform);
      var q0, rs0 := Seqs.Filter(init, Qualifying), Records(folder, init, transform);
      if Qualifying(e) {
        assert Seqs.Filter(entries, Qualifying) == q0 + [e];
        assert Records(folder, entries, transform) == rs0 + [Outcome(folder, e, transform)];
      } else {
        assert Seqs.Filter(entries, Qualifying) == q0 + [];
        assert Records(folder, entries, transform) == rs0 + [];
      }
    }
  }

  /** What `rank_resumes` returns: one record per qualifying entry, a permutation of the records
      built, scores never increasing, records with equal scores in folder order, and no record
      for a file whose name does not qualify. */
  lemma RankedRecords(folder: string, entries: seq<DirEntry>, transform: string -> Transform)
    ensures var rs := Records(folder, entries, transform);
      var out := SortByKeyDesc(rs, Score);
      && |out| == |Seqs.Filter(entries, Qualifying)|
      && multiset(out) == multiset(rs)
      && SortedDesc(out, Score)
      && (forall k :: WithKey(out, Score, k) == WithKey(rs, Score, k))
      && (forall r :: r in out ==> Qualifies(r.name))
  {
    var out := SortByKeyDesc(Records(folder, entries, transform), Score);
    RecordsAccounting(folder, entries, transform);
    RecordNamesQualify(folder, entries, transform);
    forall r: Record | r in out ensures Qualifies(r.name) {
      assert r in multiset(out);
    }
  }

  lemma RecordNamesQualify(folder: string, entries: seq<DirEntry>, transform: string -> Transform)
    requires var q := Seqs.Filter(entries, Qualifying);
      var rs := Records(folder, entries, transform);
      |rs| == |q| && forall i :: 0 <= i < |q| ==> rs[i] == Outcome(folder, q[i], transform)
    ensures forall r: Record :: r in multiset(Records(folder, entries, transform)) ==> Qualifies(r.name)
  {
    var rs := Records(folder, entries, transform);
    var q := Seqs.Filter(entries, Qualifying);
    forall r: Record | r in multiset(rs) ensures Qualifies(r.name) {
      var i :| 0 <= i < |rs| && rs[i] == r;
      assert q[i] in q;
    }
  }

  /** A qualifying entry is never dropped: its outcome is among the ranked records. */
  lemma QualifyingEntryRanked(folder: string, entries: seq<DirEntry>, transform: string -> Transform, j: int)
    requires 0 <= j < |entries| && Qualifies(entries[j].name)
    ensures Outcome(folder, entries[j], transform) in SortByKeyDesc(Records(folder, entries, transform), Score)
  {
    var rs := Records(folder, entries, transform);
    var q := Seqs.Filter(entries, Qualifying);
    Seqs.FilterKeepsQualifying(entries, Qualifying, j);
    var i :| 0 <= i < |q| && q[i] == entries[j];
    RecordsAccounting(folder, entries, transform);
    assert rs[i] in multiset(rs);
  }

  /** `os.path.splitext("resumes/.txt")` has an empty extension: the dot starts the last component. */
  lemma BareTxtPathHasNoExtension()
    ensures Extension(JoinPath("resumes", ".txt")) == ""
  {
    var path := JoinPath("resumes", ".txt");
    assert path == "resumes/.txt";
    assert path[7] == '/' && path[8] == '.';
    assert forall j :: 0 <= j < |path| && j != 7 ==> path[j] != '/';
    assert forall j :: 0 <= j < |path| && j != 8 ==> path[j] != '.';
    assert LastIndexOf(path, '/') == 7;
    assert LastIndexOf(path, '.') == 8;
  }

  /** A file called ".txt" in the default "resumes" folder passes the name filter, but its
      extension is empty, so it is read as a PDF: its text contents play no part. */
  lemma BareTxtReadAsPdf(file: StoredFile)
    ensures Qualifies(".txt")
    ensures ExtractedText(JoinPath("resumes", ".txt"), file)
      == ExtractedText(JoinPath("resumes", ".txt"), StoredFile("", file.asPdf))
  {
    BareTxtPathHasNoExtension();
    assert Lower("") == "";
    assert EndsWith(Lower(".txt"), ".txt");
  }

  /** Ties keep their folder order: records C (50), A (80) and B (80), built in that order, come out
      as A, B, C. */
  lemma TieOrderExample()
    ensures var c, a, b := Record("C", 50.0, None), Record("A", 80.0, None), Record("B", 80.0, None);
      SortByKeyDesc([c, a, b], Score) == [a, b, c]
  {
    var c, a, b := Record("C", 50.0, None), Record("A", 80.0, None), Record("B", 80.0, None);
    SortTwo(c, a);
    SortSnoc([c, a], b, Score);
    assert [c, a] + [b] == [c, a, b];
    InsertAfterEqual(a, c, b);
  }

  lemma SortTwo(c: Record, a: Record)
    requires c.score < a.score
    ensures SortByKeyDesc([c, a], Score) == [a, c]
  {
    assert [c, a][..1] == [c];
    assert SortByKeyDesc([c], Score) == [c];
    assert Insert([c], a, Score) == Insert([], a, Score) + [c];
  }

  lemma InsertAfterEqual(a: Record, c: Record, b: Record)
    requires c.score < b.score == a.score
    ensures Insert([a, c], b, Score) == [a, b, c]
  {
    assert [a, c][..1] == [a];
    assert Insert([a], b, Score) == [a, b];
  }
}
