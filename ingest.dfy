/**
 * Document ingestion (rag/ingest.py): finding the supported files, reading them
 * through the reader their suffix selects, cutting the text into overlapping
 * character windows, tagging the pieces with their file name, embedding the
 * texts in batches of 32 and writing the vector index and the metadata.
 */
module Ingest {
  import opened Wrappers
  import opened Strings
  import opened Store

  /** A chunk of a document and the name of the file it came from. */
  datatype Chunk = Chunk(text: string, source: string)

  // ---------------------------------------------------------------------------
  // Finding and reading documents
  // ---------------------------------------------------------------------------

  /** The readers `read_document` dispatches to. */
  datatype Reader = TextFileReader | PdfReader | DocxReader

  /**
   * What the decoding libraries make of one file: the text the UTF-8/cp1252
   * read gives, the pages pypdf extracts, the paragraphs python-docx finds.
   * `None` stands for the library raising.
   */
  datatype FileBody = FileBody(decoded: Option<string>, pdfPages: Option<seq<string>>, docxParagraphs: Option<seq<string>>)

  /** One path the recursive directory walk yields: its final component, whether it is a regular file, its body. */
  datatype DirEntry = DirEntry(name: string, isFile: bool, body: FileBody)

  /** The result of `read_document`: its text, or an exception escaping it. */
  datatype ReadOutcome = Content(text: string) | Raised

  const SupportedSuffixes: set<string> := {".txt", ".md", ".pdf", ".docx"}

  /** The last position before `n` where `c` occurs, or -1. */
  function LastIndexOf(s: string, c: char, n: nat): (i: int)
    requires n <= |s|
    ensures -1 <= i < n
    ensures i >= 0 ==> s[i] == c
    ensures forall j :: i < j < n ==> s[j] != c
    decreases n
  {
    if n == 0 then -1
    else if s[n - 1] == c then n - 1
    else LastIndexOf(s, c, n - 1)
  }

  /** `PurePath.suffix`: from the last dot of the name, unless that dot is its first or last character. */
  function Suffix(name: string): string {
    var i := LastIndexOf(name, '.', |name|);
    if 0 < i < |name| - 1 then name[i..] else []
  }

  /**
   * A suffix exists exactly when the name has a last dot that is neither its
   * first nor its last character; it is then the name's tail from that dot.
   */
  lemma SuffixSpec(name: string)
    ensures var r := Suffix(name);
      && (r != [] <==> exists j :: 0 < j < |name| - 1 && name[j] == '.' && forall k :: j < k < |name| ==> name[k] != '.')
      && (r != [] ==>
          && 2 <= |r| < |name| && r == name[|name| - |r|..]
          && r[0] == '.' && forall k :: 1 <= k < |r| ==> r[k] != '.')
  {
  }

  /** The `readers` table of `read_document`; it knows exactly the suffixes `_find_documents` accepts. */
  function ReaderFor(suffix: string): (r: Option<Reader>)
    ensures r.Some? <==> suffix in SupportedSuffixes
    ensures r == Some(TextFileReader) <==> suffix == ".txt" || suffix == ".md"
    ensures r == Some(PdfReader) <==> suffix == ".pdf"
    ensures r == Some(DocxReader) <==> suffix == ".docx"
  {
    if suffix == ".txt" || suffix == ".md" then Some(TextFileReader)
    else if suffix == ".pdf" then Some(PdfReader)
    else if suffix == ".docx" then Some(DocxReader)
    else None
  }

  /** The test `_find_documents` applies to each walked path. */
  predicate IsDocument(e: DirEntry) {
    e.isFile && AsciiLower(Suffix(e.name)) in SupportedSuffixes
  }

  /** `_find_documents`: the regular files with a supported suffix, in walk order. */
  function FindDocuments(entries: seq<DirEntry>): (docs: seq<DirEntry>)
    ensures forall e :: e in docs <==> e in entries && IsDocument(e)
    ensures |docs| <= |entries|
    decreases |entries|
  {
    if entries == [] then []
    else (if IsDocument(entries[0]) then [entries[0]] else []) + FindDocuments(entries[1..])
  }

  /** `_read_text_file`: the decoded text; a failing read raises out of `read_document`. */
  function ReadTextFile(body: FileBody): ReadOutcome {
    match body.decoded
    case None => Raised
    case Some(t) => Content(t)
  }

  /** The `[Page i]`-tagged texts of the pages that are not blank, numbered from `number`. */
  function PageParts(pages: seq<string>, number: nat): seq<string>
    decreases |pages|
  {
    if pages == [] then []
    else
      var t := PyStrip(pages[0]);
      (if t != [] then [PageLabel(number, t)] else []) + PageParts(pages[1..], number + 1)
  }

  /** `f"[Page {i}] {text}"`. */
  function PageLabel(number: nat, text: string): string {
    "[Page " + NatToString(number) + "] " + text
  }

  /** `p` is the label of some page of `pages` that is not blank, pages numbered from `number`. */
  predicate LabelsPage(pages: seq<string>, number: nat, p: string) {
    exists k :: 0 <= k < |pages| && PyStrip(pages[k]) != [] && p == PageLabel(number + k, PyStrip(pages[k]))
  }

  /** A label of `pages` is the label of its first page or a label of the pages after it. */
  lemma LabelsPageCons(pages: seq<string>, number: nat, p: string)
    requires pages != []
    ensures LabelsPage(pages, number, p) <==>
      (PyStrip(pages[0]) != [] && p == PageLabel(number, PyStrip(pages[0]))) || LabelsPage(pages[1..], number + 1, p)
  {
    var rest := pages[1..];
    if LabelsPage(rest, number + 1, p) {
      var k :| 0 <= k < |rest| && PyStrip(rest[k]) != [] && p == PageLabel(number + 1 + k, PyStrip(rest[k]));
      assert rest[k] == pages[k + 1];
      assert number + (k + 1) == number + 1 + k;
    }
    if LabelsPage(pages, number, p) {
      var k :| 0 <= k < |pages| && PyStrip(pages[k]) != [] && p == PageLabel(number + k, PyStrip(pages[k]));
      if k > 0 {
        assert rest[k - 1] == pages[k];
        assert number + 1 + (k - 1) == number + k;
      }
    }
  }

  /** The parts are the stripped pages that are not blank, each labelled with its page number counted from `number`. */
  lemma {:induction false} PagePartsSpec(pages: seq<string>, number: nat)
    ensures |PageParts(pages, number)| <= |pages|
    ensures forall p :: p in PageParts(pages, number) <==> LabelsPage(pages, number, p)
    decreases |pages|
  {
    if pages != [] {
      var rest := pages[1..];
      var t := PyStrip(pages[0]);
      var head := if t != [] then [PageLabel(number, t)] else [];
      assert PageParts(pages, number) == head + PageParts(rest, number + 1);
      PagePartsSpec(rest, number + 1);
      forall p ensures p in PageParts(pages, number) <==> LabelsPage(pages, number, p) {
        LabelsPageCons(pages, number, p);
      }
    }
  }

  /** `_read_pdf`: the tagged pages joined by blank lines; any failure gives "". */
  function ReadPdf(body: FileBody): string {
    match body.pdfPages
    case None => []
    case Some(pages) => Join(PageParts(pages, 1), "\n\n")
  }

  /** The stripped paragraphs that are not blank. */
  function ParagraphParts(paragraphs: seq<string>): seq<string>
    decreases |paragraphs|
  {
    if paragraphs == [] then []
    else
      var t := PyStrip(paragraphs[0]);
      (if t != [] then [t] else []) + ParagraphParts(paragraphs[1..])
  }

  /** `_read_pdf` gives "" exactly when the library fails or every page is blank. */
  lemma ReadPdfEmpty(body: FileBody)
    ensures ReadPdf(body) == [] <==>
      body.pdfPages.None? || forall k :: 0 <= k < |body.pdfPages.value| ==> PyStrip(body.pdfPages.value[k]) == []
  {
    if body.pdfPages.Some? {
      var pages := body.pdfPages.value;
      var parts := PageParts(pages, 1);
      PagePartsSpec(pages, 1);
      forall i | 0 <= i < |parts| ensures parts[i] != [] {
        assert parts[i] in parts;
      }
      JoinEmpty(parts, "\n\n");
      if exists k :: 0 <= k < |pages| && PyStrip(pages[k]) != [] {
        var k :| 0 <= k < |pages| && PyStrip(pages[k]) != [];
        assert PageLabel(1 + k, PyStrip(pages[k])) in parts;
      }
      if parts != [] {
        assert parts[0] in parts;
      }
    }
  }

  /** `_read_docx`: the paragraphs joined by newlines; any failure gives "". */
  function ReadDocx(body: FileBody): string {
    match body.docxParagraphs
    case None => []
    case Some(ps) => Join(ParagraphParts(ps), "\n")
  }

  /** The parts are the stripped paragraphs that are not blank. */
  lemma {:induction false} ParagraphPartsSpec(paragraphs: seq<string>)
    ensures |ParagraphParts(paragraphs)| <= |paragraphs|
    ensures forall p :: p in ParagraphParts(paragraphs) <==>
      p != [] && exists k :: 0 <= k < |paragraphs| && p == PyStrip(paragraphs[k])
    decreases |paragraphs|
  {
    if paragraphs != [] {
      var rest := paragraphs[1..];
      ParagraphPartsSpec(rest);
      forall p ensures p in ParagraphParts(paragraphs) <==>
        p != [] && exists k :: 0 <= k < |paragraphs| && p == PyStrip(paragraphs[k])
      {
        if p in ParagraphParts(rest) {
          var k :| 0 <= k < |rest| && p == PyStrip(rest[k]);
          assert rest[k] == paragraphs[k + 1];
        }
        if p != [] && exists k :: 0 <= k < |paragraphs| && p == PyStrip(paragraphs[k]) {
          var k :| 0 <= k < |paragraphs| && p == PyStrip(paragraphs[k]);
          if k > 0 {
            assert rest[k - 1] == paragraphs[k];
          }
        }
      }
    }
  }

  /** `_read_docx` gives "" exactly when the library fails or every paragraph is blank. */
  lemma ReadDocxEmpty(body: FileBody)
    ensures ReadDocx(body) == [] <==>
      body.docxParagraphs.None? || forall k :: 0 <= k < |body.docxParagraphs.value| ==> PyStrip(body.docxParagraphs.value[k]) == []
  {
    if body.docxParagraphs.Some? {
      var ps := body.docxParagraphs.value;
      var parts := ParagraphParts(ps);
      ParagraphPartsSpec(ps);
      forall i | 0 <= i < |parts| ensures parts[i] != [] {
        assert parts[i] in parts;
      }
      JoinEmpty(parts, "\n");
      if exists k :: 0 <= k < |ps| && PyStrip(ps[k]) != [] {
        var k :| 0 <= k < |ps| && PyStrip(ps[k]) != [];
        assert PyStrip(ps[k]) in parts;
      }
      if parts != [] {
        assert parts[0] in parts;
      }
    }
  }

  /** `read_document`: the reader chosen by the lower-cased suffix, or "" for an unknown suffix. */
  function ReadDocument(e: DirEntry): (r: ReadOutcome)
    ensures ReaderFor(AsciiLower(Suffix(e.name))).None? ==> r == Content([])
    ensures r.Raised? <==> ReaderFor(AsciiLower(Suffix(e.name))) == Some(TextFileReader) && e.body.decoded.None?
  {
    match ReaderFor(AsciiLower(Suffix(e.name)))
    case None => Content([])
    case Some(TextFileReader) => ReadTextFile(e.body)
    case Some(PdfReader) => Content(ReadPdf(e.body))
    case Some(DocxReader) => Content(ReadDocx(e.body))
  }

  /** Each supported suffix reads through its own reader: the decoded text, the PDF pages, the DOCX paragraphs. */
  lemma ReadDocumentReaders(e: DirEntry)
    ensures var suffix := AsciiLower(Suffix(e.name));
      && ((suffix == ".txt" || suffix == ".md") && e.body.decoded.Some? ==> ReadDocument(e) == Content(e.body.decoded.value))
      && (suffix == ".pdf" ==> ReadDocument(e) == Content(ReadPdf(e.body)))
      && (suffix == ".docx" ==> ReadDocument(e) == Content(ReadDocx(e.body)))
  {
  }

  // ---------------------------------------------------------------------------
  // Character-window chunking
  // ---------------------------------------------------------------------------

  /** The line boundaries of Python's `str.splitlines`. */
  predicate IsLineBoundary(c: char) {
    || c == '\n' || c == '\r' || c == '\U{0B}' || c == '\U{0C}'
    || ('\U{1C}' <= c <= '\U{1E}')
    || c == '\U{85}' || c == '\U{2028}' || c == '\U{2029}'
  }

  predicate NotLineBoundary(c: char) { !IsLineBoundary(c) }

  /** `str.splitlines()` of `s[i..]`: "\r\n" is one boundary, and no empty line follows a final boundary. */
  function SplitLinesFrom(s: string, i: nat): seq<string>
    requires i <= |s|
    decreases |s| - i
  {
    if i == |s| then []
    else
      var e := SkipForward(s, NotLineBoundary, i);
      if e == |s| then [s[i..]]
      else
        var next := if s[e] == '\r' && e + 1 < |s| && s[e + 1] == '\n' then e + 2 else e + 1;
        [s[i..e]] + SplitLinesFrom(s, next)
  }

  function SplitLines(s: string): seq<string> {
    SplitLinesFrom(s, 0)
  }

  function RStripAll(lines: seq<string>): seq<string> {
    seq(|lines|, k requires 0 <= k < |lines| => PyRStrip(lines[k]))
  }

  /** The normalisation of `chunk_text`: right-strip every line, rejoin with "\n", strip the whole. */
  function CleanText(text: string): string {
    PyStrip(Join(RStripAll(SplitLines(text)), "\n"))
  }

  /** One window `[start, end)` of the chunking loop. */
  datatype Span = Span(start: nat, end: int)

  /** The windows the loop of `chunk_text` visits from `start` over a text of length `n`. */
  function Spans(n: nat, size: int, overlap: int, start: nat): seq<Span>
    requires overlap < size
    decreases n - start
  {
    if start >= n then []
    else
      var end := Min(start + size, n);
      [Span(start, end)] + (if end >= n then [] else Spans(n, size, overlap, end - overlap))
  }

  /** The text of one window, stripped. */
  function WindowText(clean: string, w: Span): string {
    PyStrip(Slice(clean, w.start, w.end))
  }

  /** The stripped window texts of `clean`, as a function of the window. */
  function Cut(clean: string): Span -> string {
    w => WindowText(clean, w)
  }

  /**
   * The texts `cut` gives the windows, in window order. The loop lemmas below
   * hold for any `cut`; `chunk_text` uses `Cut(clean)`.
   */
  function WindowTexts(cut: Span -> string, spans: seq<Span>): seq<string>
    decreases |spans|
  {
    if spans == [] then [] else [cut(spans[0])] + WindowTexts(cut, spans[1..])
  }

  /** The texts that are not empty, in order. */
  function NonEmpty(texts: seq<string>): seq<string>
    decreases |texts|
  {
    if texts == [] then []
    else (if texts[0] != [] then [texts[0]] else []) + NonEmpty(texts[1..])
  }

  /** The chunks the loop appends: the non-empty stripped window texts. */
  function Pieces(cut: Span -> string, spans: seq<Span>): seq<string> {
    NonEmpty(WindowTexts(cut, spans))
  }

  /** What `chunk_text(text, chunk_size=size, chunk_overlap=overlap)` returns. */
  function ChunkPieces(text: string, size: int, overlap: int): seq<string> {
    if text == [] || overlap >= size then []
    else
      var clean := CleanText(text);
      if |clean| <= size then [clean] else Pieces(Cut(clean), Spans(|clean|, size, overlap, 0))
  }

  /** `chunk_text`: the guards, then the sliding-window loop. */
  method ChunkText(text: string, chunkSize: int, chunkOverlap: int) returns (chunks: seq<string>)
    ensures chunks == ChunkPieces(text, chunkSize, chunkOverlap)
  {
    if text == [] || chunkOverlap >= chunkSize {
      return [];
    }
    var clean := CleanText(text);
    if |clean| <= chunkSize {
      return [clean];
    }
    chunks := SlideWindows(clean, chunkSize, chunkOverlap);
  }

  /** The loop of `chunk_text` over the cleaned text. */
  method SlideWindows(clean: string, chunkSize: int, chunkOverlap: int) returns (chunks: seq<string>)
    requires chunkOverlap < chunkSize
    ensures chunks == Pieces(Cut(clean), Spans(|clean|, chunkSize, chunkOverlap, 0))
  {
    chunks := [];
    var start: nat := 0;
    ghost var total := SlideFrom(|clean|, chunkSize, chunkOverlap, Cut(clean), 0, []);
    while start < |clean|
      invariant SlideFrom(|clean|, chunkSize, chunkOverlap, Cut(clean), start, chunks) == total
      decreases |clean| - start
    {
      var done;
      chunks, done, start := SlideRound(clean, chunkSize, chunkOverlap, start, chunks);
      if done {
        break;
      }
    }
    ghost var cut := Cut(clean);
    SlideFromPieces(|clean|, chunkSize, chunkOverlap, cut, 0, []);
    assert [] + Pieces(cut, Spans(|clean|, chunkSize, chunkOverlap, 0)) == Pieces(cut, Spans(|clean|, chunkSize, chunkOverlap, 0));
  }

  /**
   * One round of the loop of `chunk_text`: strip the window at `start`, keep it
   * unless empty, and either stop (the window reached the end) or go on at `next`.
   */
  method SlideRound(clean: string, chunkSize: int, chunkOverlap: int, start: nat, chunks: seq<string>)
    returns (chunks': seq<string>, done: bool, next: nat)
    requires chunkOverlap < chunkSize && start < |clean|
    ensures done <==> start + chunkSize >= |clean|
    ensures !done ==> next == start + chunkSize - chunkOverlap
    ensures done ==> SlideFrom(|clean|, chunkSize, chunkOverlap, Cut(clean), start, chunks) == chunks'
    ensures !done ==>
      SlideFrom(|clean|, chunkSize, chunkOverlap, Cut(clean), start, chunks)
        == SlideFrom(|clean|, chunkSize, chunkOverlap, Cut(clean), next, chunks')
  {
    var end := Min(start + chunkSize, |clean|);
    var chunk := PyStrip(Slice(clean, start, end));
    SlideFromStep(|clean|, chunkSize, chunkOverlap, Cut(clean), start, chunks, end, chunk);
    chunks' := if chunk != [] then chunks + [chunk] else chunks;
    done := end >= |clean|;
    next := if done then start else end - chunkOverlap;
  }

  /** The chunk list the loop of `chunk_text` ends with, entered at `start` holding `acc`. */
  function SlideFrom(n: nat, size: int, overlap: int, cut: Span -> string, start: nat, acc: seq<string>): seq<string>
    requires overlap < size
    decreases n - start
  {
    if start >= n then acc
    else
      var end := Min(start + size, n);
      var chunk := cut(Span(start, end));
      var acc' := acc + (if chunk != [] then [chunk] else []);
      if end >= n then acc' else SlideFrom(n, size, overlap, cut, end - overlap, acc')
  }

  /** One round of the loop: the window at `start` is kept when it strips to something. */
  lemma SlideFromStep(n: nat, size: int, overlap: int, cut: Span -> string, start: nat, acc: seq<string>, end: int, chunk: string)
    requires overlap < size && start < n
    requires end == Min(start + size, n) && chunk == cut(Span(start, end))
    ensures var acc' := if chunk != [] then acc + [chunk] else acc;
      if end >= n then SlideFrom(n, size, overlap, cut, start, acc) == acc'
      else 0 <= end - overlap && SlideFrom(n, size, overlap, cut, start, acc) == SlideFrom(n, size, overlap, cut, end - overlap, acc')
  {
    assert acc + [] == acc;
  }

  /** The loop appends to what it holds the pieces of the windows from `start` on. */
  lemma {:induction false} SlideFromPieces(n: nat, size: int, overlap: int, cut: Span -> string, start: nat, acc: seq<string>)
    requires overlap < size
    ensures SlideFrom(n, size, overlap, cut, start, acc) == acc + Pieces(cut, Spans(n, size, overlap, start))
    decreases n - start
  {
    if start >= n {
      assert acc + [] == acc;
    } else {
      var end := Min(start + size, n);
      var w := Span(start, end);
      var t := cut(w);
      var kept := if t != [] then [t] else [];
      SpansUnfold(n, size, overlap, start);
      if end >= n {
        assert SlideFrom(n, size, overlap, cut, start, acc) == acc + kept;
        PiecesCons(cut, Spans(n, size, overlap, start), w, []);
        assert Pieces(cut, []) == [] && kept + [] == kept;
      } else {
        var next: nat := end - overlap;
        assert SlideFrom(n, size, overlap, cut, start, acc) == SlideFrom(n, size, overlap, cut, next, acc + kept);
        var rest := Spans(n, size, overlap, next);
        PiecesCons(cut, Spans(n, size, overlap, start), w, rest);
        SlideFromPieces(n, size, overlap, cut, next, acc + kept);
        AppendAssoc(acc, kept, Pieces(cut, rest));
      }
    }
  }

  /** The pieces of a window list: the first window's text when not empty, then the pieces of the rest. */
  lemma PiecesCons(cut: Span -> string, spans: seq<Span>, w: Span, rest: seq<Span>)
    requires spans == [w] + rest
    ensures var t := cut(w);
      Pieces(cut, spans) == (if t != [] then [t] else []) + Pieces(cut, rest)
  {
    assert spans[0] == w && spans[1..] == rest;
    var texts := WindowTexts(cut, spans);
    assert texts[0] == cut(w) && texts[1..] == WindowTexts(cut, rest);
  }

  /** The first window and the windows after it. */
  lemma SpansUnfold(n: nat, size: int, overlap: int, start: nat)
    requires overlap < size && start < n
    ensures var end := Min(start + size, n);
      Spans(n, size, overlap, start)
        == [Span(start, end)] + (if end >= n then [] else Spans(n, size, overlap, end - overlap))
  {
  }

  /** Every window lies inside the text, is non-empty and is at most `size` wide. */
  lemma {:induction false} SpansWithin(n: nat, size: int, overlap: int, start: nat)
    requires 0 < size && overlap < size
    ensures var sp := Spans(n, size, overlap, start);
      forall i :: 0 <= i < |sp| ==> start <= sp[i].start < sp[i].end <= n && sp[i].end - sp[i].start <= size
    decreases n - start
  {
    if start < n {
      var end := Min(start + size, n);
      var sp := Spans(n, size, overlap, start);
      SpansUnfold(n, size, overlap, start);
      if end < n {
        var next: nat := end - overlap;
        assert start < next;
        SpansWithin(n, size, overlap, next);
        var rest := Spans(n, size, overlap, next);
        assert sp == [Span(start, end)] + rest;
        forall i | 0 <= i < |sp|
          ensures start <= sp[i].start < sp[i].end <= n && sp[i].end - sp[i].start <= size
        {
          if i > 0 {
            assert sp[i] == rest[i - 1];
          }
        }
      } else {
        assert sp == [Span(start, end)];
      }
    }
  }

  /**
   * With a non-negative overlap the `i`-th window starts `i * (size - overlap)`
   * after `start`, every window but the last is `size` wide, and the last ends
   * at the end of the text.
   */
  lemma SpansShape(n: nat, size: int, overlap: int, start: nat)
    requires 0 <= overlap < size && start < n
    ensures var sp := Spans(n, size, overlap, start);
      && |sp| > 0 && sp[|sp| - 1].end == n
      && (forall i :: 0 <= i < |sp| ==> sp[i].start == start + i * (size - overlap))
      && (forall i :: 0 <= i < |sp| - 1 ==> sp[i].end == sp[i].start + size)
  {
    SpansStarts(n, size, overlap, start);
    SpansLast(n, size, overlap, start);
    SpansWidths(n, size, overlap, start);
  }

  /** The `i`-th window starts `i * (size - overlap)` after `start`. */
  lemma {:induction false} SpansStarts(n: nat, size: int, overlap: int, start: nat)
    requires 0 <= overlap < size
    ensures var sp := Spans(n, size, overlap, start);
      forall i :: 0 <= i < |sp| ==> sp[i].start == start + i * (size - overlap)
    decreases n - start
  {
    if start < n {
      var end := Min(start + size, n);
      SpansUnfold(n, size, overlap, start);
      if end < n {
        var next: nat := end - overlap;
        SpansStarts(n, size, overlap, next);
        var rest := Spans(n, size, overlap, next);
        var sp := Spans(n, size, overlap, start);
        forall i | 1 <= i < |sp| ensures sp[i].start == start + i * (size - overlap) {
          assert sp[i] == rest[i - 1];
          assert (i - 1) * (size - overlap) + (size - overlap) == i * (size - overlap);
        }
      }
    }
  }

  /** The last window ends at the end of the text. */
  lemma {:induction false} SpansLast(n: nat, size: int, overlap: int, start: nat)
    requires 0 <= overlap < size && start < n
    ensures var sp := Spans(n, size, overlap, start);
      |sp| > 0 && sp[|sp| - 1].end == n
    decreases n - start
  {
    var end := Min(start + size, n);
    SpansUnfold(n, size, overlap, start);
    if end < n {
      var next: nat := end - overlap;
      SpansLast(n, size, overlap, next);
      var rest := Spans(n, size, overlap, next);
      var sp := [Span(start, end)] + rest;
      assert sp[|sp| - 1] == rest[|rest| - 1];
    }
  }

  /** Every window but the last is `size` wide. */
  lemma {:induction false} SpansWidths(n: nat, size: int, overlap: int, start: nat)
    requires 0 <= overlap < size
    ensures var sp := Spans(n, size, overlap, start);
      forall i :: 0 <= i < |sp| - 1 ==> sp[i].end == sp[i].start + size
    decreases n - start
  {
    if start < n {
      var end := Min(start + size, n);
      SpansUnfold(n, size, overlap, start);
      var sp := Spans(n, size, overlap, start);
      if end < n {
        var next: nat := end - overlap;
        SpansWidths(n, size, overlap, next);
        var rest := Spans(n, size, overlap, next);
        assert sp == [Span(start, end)] + rest && end == start + size;
        forall i | 0 <= i < |sp| - 1 ensures sp[i].end == sp[i].start + size {
          if i > 0 {
            assert sp[i] == rest[i - 1];
          }
        }
      } else {
        assert |sp| == 1;
      }
    }
  }

  /** With a non-negative overlap the windows leave no character out: index `k` lies in window `i`. */
  lemma {:induction false} SpansCover(n: nat, size: int, overlap: int, start: nat, k: int) returns (i: nat)
    requires 0 < size && 0 <= overlap < size && start <= k < n
    ensures var sp := Spans(n, size, overlap, start);
      i < |sp| && sp[i].start <= k < sp[i].end
    decreases n - start
  {
    var end := Min(start + size, n);
    SpansUnfold(n, size, overlap, start);
    if k < end {
      i := 0;
    } else {
      var next: nat := end - overlap;
      var j := SpansCover(n, size, overlap, next, k);
      var rest := Spans(n, size, overlap, next);
      assert Spans(n, size, overlap, start) == [Span(start, end)] + rest;
      i := j + 1;
    }
  }

  /** Filtering keeps exactly the non-empty texts. */
  lemma {:induction false} NonEmptyMembers(texts: seq<string>)
    ensures forall p :: p in NonEmpty(texts) <==> p in texts && p != []
    decreases |texts|
  {
    if texts != [] {
      NonEmptyMembers(texts[1..]);
      assert texts == [texts[0]] + texts[1..];
    }
  }

  /** Each window text is the text of some window, window `i`. */
  lemma {:induction false} WindowTextsMembers(cut: Span -> string, spans: seq<Span>, p: string) returns (i: nat)
    requires p in WindowTexts(cut, spans)
    ensures i < |spans| && p == cut(spans[i])
    decreases |spans|
  {
    if p == cut(spans[0]) {
      i := 0;
    } else {
      var j := WindowTextsMembers(cut, spans[1..], p);
      i := j + 1;
    }
  }

  /** Blank windows are dropped. */
  lemma PiecesNonEmpty(cut: Span -> string, spans: seq<Span>)
    ensures forall p :: p in Pieces(cut, spans) ==> p != []
  {
    NonEmptyMembers(WindowTexts(cut, spans));
  }

  /** A piece of a window no wider than `size` is a non-empty stripped slice no longer than `size`. */
  lemma PiecesWithin(clean: string, spans: seq<Span>, size: int)
    requires forall i :: 0 <= i < |spans| ==> spans[i].start <= spans[i].end <= |clean| && spans[i].end - spans[i].start <= size
    ensures forall p :: p in Pieces(Cut(clean), spans) ==>
      && p != [] && |p| <= size
      && exists a, b :: 0 <= a <= b <= |clean| && b - a <= size && p == PyStrip(clean[a..b])
  {
    var texts := WindowTexts(Cut(clean), spans);
    NonEmptyMembers(texts);
    forall p | p in Pieces(Cut(clean), spans)
      ensures p != [] && |p| <= size
      ensures exists a, b :: 0 <= a <= b <= |clean| && b - a <= size && p == PyStrip(clean[a..b])
    {
      var i := WindowTextsMembers(Cut(clean), spans, p);
      var w := spans[i];
      assert Slice(clean, w.start, w.end) == clean[w.start..w.end];
      TrimSpec(clean[w.start..w.end], IsPySpace);
      assert p == PyStrip(clean[w.start..w.end]);
    }
  }

  /** In the windowed branch every chunk is a non-empty stripped substring of the cleaned text, at most `size` long. */
  lemma WindowedChunks(text: string, size: int, overlap: int)
    requires 0 < size && overlap < size && text != [] && |CleanText(text)| > size
    ensures var clean := CleanText(text);
      forall p :: p in ChunkPieces(text, size, overlap) ==>
        && p != [] && |p| <= size
        && exists a, b :: 0 <= a <= b <= |clean| && b - a <= size && p == PyStrip(clean[a..b])
  {
    WindowedPieces(CleanText(text), size, overlap);
  }

  lemma WindowedPieces(clean: string, size: int, overlap: int)
    requires 0 < size && overlap < size
    ensures forall p :: p in Pieces(Cut(clean), Spans(|clean|, size, overlap, 0)) ==>
      && p != [] && |p| <= size
      && exists a, b :: 0 <= a <= b <= |clean| && b - a <= size && p == PyStrip(clean[a..b])
  {
    var n := |clean|;
    SpansWithin(n, size, overlap, 0);
    assert forall i :: 0 <= i < |Spans(n, size, overlap, 0)| ==>
      Spans(n, size, overlap, 0)[i].start <= Spans(n, size, overlap, 0)[i].end <= n
      && Spans(n, size, overlap, 0)[i].end - Spans(n, size, overlap, 0)[i].start <= size;
    PiecesWithin(clean, Spans(n, size, overlap, 0), size);
  }

  /** No chunk is longer than `size`. */
  lemma ChunksBounded(text: string, size: int, overlap: int)
    requires 0 < size
    ensures forall p :: p in ChunkPieces(text, size, overlap) ==> |p| <= size
  {
    if text != [] && overlap < size && |CleanText(text)| > size {
      WindowedChunks(text, size, overlap);
    }
  }

  /** The guards before the loop: nothing for empty text or overlap >= size, the cleaned text when it is short. */
  lemma ShortCases(text: string, size: int, overlap: int)
    ensures text == [] || overlap >= size ==> ChunkPieces(text, size, overlap) == []
    ensures text != [] && overlap < size && |CleanText(text)| <= size ==> ChunkPieces(text, size, overlap) == [CleanText(text)]
  {
  }

  /**
   * The first line of `s[i..]` runs to `e`, the first line boundary (or the
   * end); the next line starts at `next`, past a "\r\n" pair or one boundary.
   */
  lemma SplitLinesStep(s: string, i: nat) returns (e: nat, next: nat)
    requires i < |s|
    ensures i <= e <= |s| && forall t :: i <= t < e ==> !IsLineBoundary(s[t])
    ensures e == |s| ==> SplitLinesFrom(s, i) == [s[i..]]
    ensures e < |s| ==>
      && IsLineBoundary(s[e])
      && next == (if s[e] == '\r' && e + 1 < |s| && s[e + 1] == '\n' then e + 2 else e + 1)
      && next <= |s|
      && SplitLinesFrom(s, i) == [s[i..e]] + SplitLinesFrom(s, next)
  {
    e := SkipForward(s, NotLineBoundary, i);
    next := if e < |s| && s[e] == '\r' && e + 1 < |s| && s[e + 1] == '\n' then e + 2 else e + 1;
    if e < |s| {
      assert SplitLinesFrom(s, i) == [s[i..e]] + SplitLinesFrom(s, next);
    } else {
      assert SplitLinesFrom(s, i) == [s[i..]];
    }
    SkipForwardSpec(s, NotLineBoundary, i);
  }

  lemma {:induction false} SplitLinesChars(s: string, i: nat, k: nat, c: char)
    requires i <= |s|
    requires var lines := SplitLinesFrom(s, i); k < |lines| && c in lines[k]
    ensures c in s
    decreases |s| - i
  {
    var e, next := SplitLinesStep(s, i);
    if e < |s| && k > 0 {
      var rest := SplitLinesFrom(s, next);
      assert SplitLinesFrom(s, i)[k] == rest[k - 1];
      SplitLinesChars(s, next, k - 1, c);
    }
  }

  lemma {:induction false} SplitLinesKeeps(s: string, i: nat, j: nat) returns (k: nat)
    requires i <= j < |s| && !IsLineBoundary(s[j])
    ensures var lines := SplitLinesFrom(s, i); k < |lines| && s[j] in lines[k]
    decreases |s| - i
  {
    var e, next := SplitLinesStep(s, i);
    if e == |s| {
      assert s[i..][j - i] == s[j];
      k := 0;
    } else if j < e {
      assert s[i..e][j - i] == s[j];
      k := 0;
    } else {
      var rest := SplitLinesFrom(s, next);
      var k' := SplitLinesKeeps(s, next, j);
      assert SplitLinesFrom(s, i)[k' + 1] == rest[k'];
      k := k' + 1;
    }
  }

  /** Whitespace-only text cleans to "". */
  lemma CleanOfBlank(text: string)
    requires AllSpace(text, IsPySpace)
    ensures CleanText(text) == []
  {
    var lines := RStripAll(SplitLines(text));
    var joined := Join(lines, "\n");
    forall i | 0 <= i < |joined| ensures IsPySpace(joined[i]) {
      var c := joined[i];
      JoinChars(lines, "\n", c);
      if c !in "\n" {
        var k :| 0 <= k < |lines| && c in lines[k];
        var line := SplitLines(text)[k];
        assert lines[k] == line[..SkipBackward(line, IsPySpace, |line|)];
        assert c in line;
        SplitLinesChars(text, 0, k, c);
        var t :| 0 <= t < |text| && text[t] == c;
      }
    }
    TrimSpec(joined, IsPySpace);
  }

  /** Text with a character that is not whitespace does not clean to "". */
  lemma CleanOfNonBlank(text: string)
    requires !AllSpace(text, IsPySpace)
    ensures CleanText(text) != []
  {
    var j :| 0 <= j < |text| && !IsPySpace(text[j]);
    var c := text[j];
    var k := SplitLinesKeeps(text, 0, j);
    var raw := SplitLines(text);
    var line := raw[k];
    var p :| 0 <= p < |line| && line[p] == c;
    var kept := line[..SkipBackward(line, IsPySpace, |line|)];
    TrimEndSpec(line, IsPySpace);
    assert p < SkipBackward(line, IsPySpace, |line|);
    assert kept[p] == c;
    var lines := RStripAll(raw);
    assert lines[k] == kept;
    JoinKeeps(lines, "\n", k, c);
    var joined := Join(lines, "\n");
    var q :| 0 <= q < |joined| && joined[q] == c;
    assert !AllSpace(joined, IsPySpace);
    TrimSpec(joined, IsPySpace);
  }

  /** Whitespace-only text gives the single empty chunk `[""]`. */
  lemma WhitespaceGivesEmptyPiece(text: string, size: int, overlap: int)
    requires text != [] && AllSpace(text, IsPySpace) && 0 <= size && overlap < size
    ensures ChunkPieces(text, size, overlap) == [[]]
  {
    CleanOfBlank(text);
  }

  /** Text that is not blank gives no empty chunk. */
  lemma NonBlankGivesNoEmptyPiece(text: string, size: int, overlap: int)
    requires !AllSpace(text, IsPySpace)
    ensures forall p :: p in ChunkPieces(text, size, overlap) ==> p != []
  {
    if overlap < size {
      CleanOfNonBlank(text);
      var clean := CleanText(text);
      if |clean| > size {
        PiecesNonEmpty(Cut(clean), Spans(|clean|, size, overlap, 0));
      }
    }
  }

  // ---------------------------------------------------------------------------
  // Building the chunk list
  // ---------------------------------------------------------------------------

  /** A file counts and is chunked when reading it succeeds and gives non-blank text. */
  predicate Contributes(e: DirEntry) {
    ReadDocument(e).Content? && PyStrip(ReadDocument(e).text) != []
  }

  function Tagged(pieces: seq<string>, source: string): seq<Chunk> {
    seq(|pieces|, j requires 0 <= j < |pieces| => Chunk(pieces[j], source))
  }

  /** The chunks one file adds in `build_chunks`. */
  function FileChunks(e: DirEntry, size: int, overlap: int): seq<Chunk> {
    if Contributes(e) then Tagged(ChunkPieces(ReadDocument(e).text, size, overlap), e.name) else []
  }

  /** The chunk list `build_chunks` returns for the documents `docs`, in order. */
  function ChunksOf(docs: seq<DirEntry>, size: int, overlap: int): seq<Chunk>
    decreases |docs|
  {
    if docs == [] then [] else ChunksOf(docs[..|docs| - 1], size, overlap) + FileChunks(docs[|docs| - 1], size, overlap)
  }

  /** The `file_count` `build_chunks` returns for the documents `docs`. */
  function FileCount(docs: seq<DirEntry>): nat
    decreases |docs|
  {
    if docs == [] then 0 else FileCount(docs[..|docs| - 1]) + (if Contributes(docs[|docs| - 1]) then 1 else 0)
  }

  /** `build_chunks`: every found document, read, checked for content and chunked. */
  method BuildChunks(entries: seq<DirEntry>, chunkSize: int, chunkOverlap: int) returns (chunks: seq<Chunk>, fileCount: nat)
    ensures chunks == ChunksOf(FindDocuments(entries), chunkSize, chunkOverlap)
    ensures fileCount == FileCount(FindDocuments(entries))
  {
    var docs := FindDocuments(entries);
    chunks, fileCount := [], 0;
    var i := 0;
    while i < |docs|
      invariant 0 <= i <= |docs|
      invariant chunks == ChunksOf(docs[..i], chunkSize, chunkOverlap)
      invariant fileCount == FileCount(docs[..i])
    {
      var doc := docs[i];
      ChunksOfSnoc(docs, i, chunkSize, chunkOverlap);
      var outcome := ReadDocument(doc);
      if outcome.Content? && PyStrip(outcome.text) != [] {
        assert Contributes(doc);
        fileCount := fileCount + 1;
        assert fileCount == FileCount(docs[..i + 1]);
        var pieces := ChunkText(outcome.text, chunkSize, chunkOverlap);
        assert Tagged(pieces, doc.name) == FileChunks(doc, chunkSize, chunkOverlap);
        chunks := AppendTagged(chunks, pieces, doc.name);
      } else {
        assert !Contributes(doc);
        assert fileCount == FileCount(docs[..i + 1]);
        assert FileChunks(doc, chunkSize, chunkOverlap) == [];
        assert chunks + [] == chunks;
      }
      i := i + 1;
    }
    assert docs[..i] == docs;
  }

  /** The inner loop of `build_chunks`: one chunk per piece, tagged with the file name. */
  method AppendTagged(chunks: seq<Chunk>, pieces: seq<string>, source: string) returns (out: seq<Chunk>)
    ensures out == chunks + Tagged(pieces, source)
  {
    out := chunks;
    var j := 0;
    while j < |pieces|
      invariant 0 <= j <= |pieces|
      invariant out == chunks + Tagged(pieces[..j], source)
    {
      assert Tagged(pieces[..j + 1], source) == Tagged(pieces[..j], source) + [Chunk(pieces[j], source)];
      out := out + [Chunk(pieces[j], source)];
      j := j + 1;
    }
    assert pieces[..j] == pieces;
  }

  /** One more document: its chunks follow, and it is counted when it contributes. */
  lemma ChunksOfSnoc(docs: seq<DirEntry>, i: nat, size: int, overlap: int)
    requires i < |docs|
    ensures ChunksOf(docs[..i + 1], size, overlap) == ChunksOf(docs[..i], size, overlap) + FileChunks(docs[i], size, overlap)
    ensures FileCount(docs[..i + 1]) == FileCount(docs[..i]) + (if Contributes(docs[i]) then 1 else 0)
  {
    assert docs[..i + 1][..i] == docs[..i];
  }

  /** Chunks are grouped by file in file order: the chunk list of a concatenation is the concatenation. */
  lemma {:induction false} ChunksOfAppend(a: seq<DirEntry>, b: seq<DirEntry>, size: int, overlap: int)
    ensures ChunksOf(a + b, size, overlap) == ChunksOf(a, size, overlap) + ChunksOf(b, size, overlap)
    ensures FileCount(a + b) == FileCount(a) + FileCount(b)
    decreases |b|
  {
    if b != [] {
      var b' := b[..|b| - 1];
      assert (a + b)[..|a + b| - 1] == a + b';
      ChunksOfAppend(a, b', size, overlap);
    } else {
      assert a + b == a;
    }
  }

  /** A file whose read raises, or whose text is blank, adds no chunk and is not counted. */
  lemma SkippedFile(a: seq<DirEntry>, e: DirEntry, b: seq<DirEntry>, size: int, overlap: int)
    requires !Contributes(e)
    ensures ChunksOf(a + [e] + b, size, overlap) == ChunksOf(a + b, size, overlap)
    ensures FileCount(a + [e] + b) == FileCount(a + b)
  {
    ChunksOfAppend(a + [e], b, size, overlap);
    ChunksOfAppend(a, b, size, overlap);
    assert (a + [e])[..|a + [e]| - 1] == a;
    assert FileChunks(e, size, overlap) == [];
    assert ChunksOf(a + [e], size, overlap) == ChunksOf(a, size, overlap) + FileChunks(e, size, overlap);
    assert ChunksOf(a + [e], size, overlap) == ChunksOf(a, size, overlap);
    assert FileCount(a + [e]) == FileCount(a);
  }

  /** The chunks of one file carry its name and non-empty text, and exist only when it contributes. */
  lemma FileChunksProvenance(e: DirEntry, size: int, overlap: int)
    ensures forall c :: c in FileChunks(e, size, overlap) ==> c.text != [] && c.source == e.name && Contributes(e)
  {
    if Contributes(e) {
      var text := ReadDocument(e).text;
      TrimSpec(text, IsPySpace);
      NonBlankGivesNoEmptyPiece(text, size, overlap);
      var pieces := ChunkPieces(text, size, overlap);
      var tagged := Tagged(pieces, e.name);
      forall c | c in tagged
        ensures c.text != [] && c.source == e.name
      {
        var j :| 0 <= j < |tagged| && tagged[j] == c;
        assert pieces[j] in pieces;
      }
    }
  }

  /** Every chunk carries the name of a counted file, and its text is never empty. */
  lemma {:induction false} ChunkProvenance(docs: seq<DirEntry>, size: int, overlap: int)
    ensures forall c :: c in ChunksOf(docs, size, overlap) ==>
      c.text != [] && exists i :: 0 <= i < |docs| && Contributes(docs[i]) && c.source == docs[i].name
    ensures FileCount(docs) <= |docs|
    decreases |docs|
  {
    if docs != [] {
      var n := |docs| - 1;
      var init := docs[..n];
      ChunkProvenance(init, size, overlap);
      var e := docs[n];
      FileChunksProvenance(e, size, overlap);
      assert ChunksOf(docs, size, overlap) == ChunksOf(init, size, overlap) + FileChunks(e, size, overlap);
      forall c | c in ChunksOf(docs, size, overlap)
        ensures c.text != [] && exists i :: 0 <= i < |docs| && Contributes(docs[i]) && c.source == docs[i].name
      {
        if c in ChunksOf(init, size, overlap) {
          var i :| 0 <= i < |init| && Contributes(init[i]) && c.source == init[i].name;
          assert docs[i] == init[i];
        } else {
          assert c in FileChunks(e, size, overlap);
          assert Contributes(docs[n]) && c.source == docs[n].name;
        }
      }
    }
  }

  // ---------------------------------------------------------------------------
  // Embedding in batches and writing the index
  // ---------------------------------------------------------------------------

  const BatchSize: nat := 32

  /** The batches `texts[i:i + 32]` for `i` in `range(0, len(texts), 32)`. */
  function Batches(texts: seq<string>): seq<seq<string>>
    decreases |texts|
  {
    if texts == [] then [] else var n := Min(BatchSize, |texts|); [texts[..n]] + Batches(texts[n..])
  }

  function Flatten<T>(xss: seq<seq<T>>): seq<T>
    decreases |xss|
  {
    if xss == [] then [] else xss[0] + Flatten(xss[1..])
  }

  /** The batches are non-empty, hold 32 texts each except possibly the last, and concatenate back to the texts. */
  lemma {:induction false} BatchesPartition(texts: seq<string>)
    ensures Flatten(Batches(texts)) == texts
    ensures var bs := Batches(texts);
      && (forall k :: 0 <= k < |bs| ==> 0 < |bs[k]| <= BatchSize)
      && (forall k :: 0 <= k < |bs| - 1 ==> |bs[k]| == BatchSize)
    decreases |texts|
  {
    if texts != [] {
      var n := Min(BatchSize, |texts|);
      BatchesPartition(texts[n..]);
      var bs := Batches(texts);
      assert bs == [texts[..n]] + Batches(texts[n..]);
      assert bs[1..] == Batches(texts[n..]);
      assert texts == texts[..n] + texts[n..];
    }
  }

  /** The embedding provider's contract: one vector per input text. */
  ghost predicate OnePerInput(embed: seq<string> -> seq<Vector>) {
    forall b :: |embed(b)| == |b|
  }

  /** A provider that embeds each text on its own, by `one`. */
  ghost predicate Pointwise(embed: seq<string> -> seq<Vector>, one: string -> Vector) {
    forall b, j :: 0 <= j < |b| && j < |embed(b)| ==> embed(b)[j] == one(b[j])
  }

  /** `all_vectors` after the batch loop: the provider's answers for the batches, concatenated. */
  function EmbedAll(embed: seq<string> -> seq<Vector>, texts: seq<string>): seq<Vector>
    decreases |texts|
  {
    if texts == [] then [] else var n := Min(BatchSize, |texts|); embed(texts[..n]) + EmbedAll(embed, texts[n..])
  }

  /** The provider's answer for each batch, in batch order. */
  function EmbedEach(embed: seq<string> -> seq<Vector>, bs: seq<seq<string>>): seq<seq<Vector>> {
    seq(|bs|, k requires 0 <= k < |bs| => embed(bs[k]))
  }

  /** The batch loop makes one provider call per batch of `Batches`, in order, and concatenates the answers. */
  lemma {:induction false} EmbedAllBatches(embed: seq<string> -> seq<Vector>, texts: seq<string>)
    ensures EmbedAll(embed, texts) == Flatten(EmbedEach(embed, Batches(texts)))
    decreases |texts|
  {
    if texts != [] {
      var n := Min(BatchSize, |texts|);
      EmbedAllBatches(embed, texts[n..]);
      var bs := Batches(texts);
      var rest := Batches(texts[n..]);
      assert bs == [texts[..n]] + rest;
      var each := EmbedEach(embed, bs);
      assert each[0] == embed(texts[..n]);
      assert each[1..] == EmbedEach(embed, rest);
    }
  }

  /** With a provider that keeps its contract there is one vector per text; with a pointwise one, vector `i` embeds text `i`. */
  lemma {:induction false} EmbedAllParallel(embed: seq<string> -> seq<Vector>, texts: seq<string>, one: string -> Vector)
    requires OnePerInput(embed)
    ensures |EmbedAll(embed, texts)| == |texts|
    ensures Pointwise(embed, one) ==> forall i :: 0 <= i < |texts| ==> EmbedAll(embed, texts)[i] == one(texts[i])
    decreases |texts|
  {
    if texts != [] {
      var n := Min(BatchSize, |texts|);
      var head, tail := texts[..n], texts[n..];
      EmbedAllParallel(embed, tail, one);
      var batch := embed(head);
      assert |batch| == n;
      var all := EmbedAll(embed, texts);
      assert all == batch + EmbedAll(embed, tail);
      if Pointwise(embed, one) {
        forall i | 0 <= i < |texts| ensures all[i] == one(texts[i]) {
          if i < n {
            assert head[i] == texts[i] && all[i] == batch[i];
          } else {
            assert tail[i - n] == texts[i] && all[i] == EmbedAll(embed, tail)[i - n];
          }
        }
      }
    }
  }

  function Texts(chunks: seq<Chunk>): seq<string> {
    seq(|chunks|, i requires 0 <= i < |chunks| => chunks[i].text)
  }

  /** The `chunks.json` records written for the chunks. */
  function Records(chunks: seq<Chunk>): seq<ChunkRecord> {
    seq(|chunks|, i requires 0 <= i < |chunks| => ChunkRecord(chunks[i].text, Some(chunks[i].source)))
  }

  /** `np.array` of the vectors has a second dimension only when all rows are equally long. */
  predicate Uniform(vectors: seq<Vector>) {
    forall i :: 0 <= i < |vectors| ==> |vectors[i]| == |vectors[0]|
  }

  datatype IngestError =
    | NoDocuments(dataDir: string)   // "No documents found in ..."
    | InhomogeneousVectors           // numpy refusing rows of different lengths

  datatype Stats = Stats(chunks: nat, files: nat, dim: nat, embeddingModel: string, indexPath: string, metaPath: string)

  /** The batch loop of `ingest`: `texts` embedded 32 at a time, in order. */
  method EmbedBatches(embed: seq<string> -> seq<Vector>, texts: seq<string>) returns (allVectors: seq<Vector>)
    ensures allVectors == EmbedAll(embed, texts)
    ensures allVectors == Flatten(EmbedEach(embed, Batches(texts)))
  {
    allVectors := [];
    var i := 0;
    while i < |texts|
      invariant 0 <= i <= |texts|
      invariant allVectors + EmbedAll(embed, texts[i..]) == EmbedAll(embed, texts)
    {
      var next := Min(i + BatchSize, |texts|);
      var batch := texts[i..next];
      EmbedAllStep(embed, texts, i);
      var vectors := embed(batch);
      allVectors := allVectors + vectors;
      i := next;
    }
    assert texts[i..] == [];
    EmbedAllBatches(embed, texts);
  }

  /** The embeddings from position `i` on: the batch at `i`, then the rest. */
  lemma EmbedAllStep(embed: seq<string> -> seq<Vector>, texts: seq<string>, i: nat)
    requires i < |texts|
    ensures var next := Min(i + BatchSize, |texts|);
      EmbedAll(embed, texts[i..]) == embed(texts[i..next]) + EmbedAll(embed, texts[next..])
  {
    var next := Min(i + BatchSize, |texts|);
    var t := texts[i..];
    assert t[..Min(BatchSize, |t|)] == texts[i..next];
    assert t[Min(BatchSize, |t|)..] == texts[next..];
  }

  /**
   * `ingest`. The file system enters as the walked `entries` and the storage
   * directory's contents before and after; `embed` is the embedding provider
   * for `embeddingModel`; the two write times are the clock's.
   */
  method Ingest(dataDir: string, entries: seq<DirEntry>, storageDir: string, before: Storage,
                chunkSize: int, chunkOverlap: int, embeddingModel: string,
                embed: seq<string> -> seq<Vector>, indexWrittenAt: int, metaWrittenAt: int)
    returns (r: Result<Stats, IngestError>, after: Storage)
    requires OnePerInput(embed)
    ensures var chunks := ChunksOf(FindDocuments(entries), chunkSize, chunkOverlap);
            var vectors := EmbedAll(embed, Texts(chunks));
      && (r == Err(NoDocuments(dataDir)) <==> chunks == [])
      && (r == Err(InhomogeneousVectors) <==> chunks != [] && !Uniform(vectors))
      && (r.Err? ==> r == Err(NoDocuments(dataDir)) || r == Err(InhomogeneousVectors))
      && (chunks != [] && Uniform(vectors) ==> r.Ok?)
      && (r.Err? ==> after == before)
      && (r.Ok? ==>
          && |vectors| == |chunks|
          && after == WriteMeta(WriteIndex(before, vectors, indexWrittenAt), Records(chunks), metaWrittenAt)
          && r.value == Stats(|chunks|, FileCount(FindDocuments(entries)), |vectors[0]|, embeddingModel,
                              PathJoin(storageDir, IndexFileName), PathJoin(storageDir, MetaFileName)))
  {
    var chunks, fileCount := BuildChunks(entries, chunkSize, chunkOverlap);
    if chunks == [] {
      return Err(NoDocuments(dataDir)), before;
    }

    var texts := Texts(chunks);
    var allVectors := EmbedBatches(embed, texts);
    EmbedAllParallel(embed, texts, _ => []);

    if !Uniform(allVectors) {
      return Err(InhomogeneousVectors), before;
    }
    var dim := |allVectors[0]|;
    var indexPath := PathJoin(storageDir, IndexFileName);
    var metaPath := PathJoin(storageDir, MetaFileName);
    after := WriteIndex(before, allVectors, indexWrittenAt);
    after := WriteMeta(after, Records(chunks), metaWrittenAt);
    r := Ok(Stats(|chunks|, fileCount, dim, embeddingModel, indexPath, metaPath));
  }
}
