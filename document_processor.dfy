/** The document processor: it picks a reader by file extension and joins the
    text the readers find. The Word, PowerPoint, PDF and Markdown libraries are
    not modelled: their paragraphs, table cells, shapes and pages are inputs. */
module DocumentProcessor {
  import opened Wrappers
  import opened Text

  // ---------------------------------------------------------------------
  // Extensions

  /** The last position of c in s, or -1. */
  function LastIndexOf(s: string, c: char): (i: int)
    ensures -1 <= i < |s|
    ensures i >= 0 ==> s[i] == c
    ensures forall k :: i < k < |s| ==> s[k] != c
    decreases |s|
  {
    if s == [] then -1 else if s[|s| - 1] == c then |s| - 1 else LastIndexOf(s[..|s| - 1], c)
  }

  /** `os.path.splitext(p)[1]`: from the last dot of the last path component,
      unless everything before that dot in the component is dots. */
  function SplitExt(p: string): string {
    var sep := LastIndexOf(p, '/');
    var dot := LastIndexOf(p, '.');
    if dot > sep && exists k :: sep < k < dot && p[k] != '.' then p[dot..] else []
  }

  /** An extension is empty or a dot followed by neither dot nor slash, and it
      ends the path. */
  lemma SplitExtShape(p: string)
    ensures var e := SplitExt(p);
      |e| <= |p| && e == p[|p| - |e|..]
      && (e == [] || (e[0] == '.' && forall k :: 1 <= k < |e| ==> e[k] != '.' && e[k] != '/'))
  {
  }

  /** A name, not ending in a dot or a slash, followed by a dot and a word
      without dots or slashes has that dot and word as its extension. */
  lemma SplitExtOf(stem: string, word: string)
    requires stem != [] && stem[|stem| - 1] != '.' && stem[|stem| - 1] != '/'
    requires forall k :: 0 <= k < |word| ==> word[k] != '.' && word[k] != '/'
    ensures SplitExt(stem + "." + word) == "." + word
  {
    var p := stem + "." + word;
    var dot := LastIndexOf(p, '.');
    var sep := LastIndexOf(p, '/');
    assert p[|stem|] == '.';
    assert forall k :: |stem| < k < |p| ==> p[k] == word[k - |stem| - 1];
    assert dot == |stem|;
    assert p[|stem| - 1] == stem[|stem| - 1];
    assert sep < |stem| - 1;
    assert p[dot..] == "." + word;
  }

  /** A name that is one dot and a word, like `.pdf`, has no extension. */
  lemma LeadingDotIsNoExtension(word: string)
    requires forall k :: 0 <= k < |word| ==> word[k] != '.' && word[k] != '/'
    ensures SplitExt("." + word) == []
  {
    var p := "." + word;
    assert p[0] == '.';
    assert forall k :: 0 < k < |p| ==> p[k] == word[k - 1];
  }

  const SupportedExtensions: set<string> := {".txt", ".md", ".docx", ".pptx", ".pdf"}

  /** `can_process`: the lower-cased extension is one of the five. */
  predicate CanProcess(filename: string) {
    SplitExt(Lower(filename)) in SupportedExtensions
  }

  lemma LowerKeepsDotsAndSlashes(s: string)
    ensures forall k :: 0 <= k < |s| ==> (Lower(s)[k] == '.' <==> s[k] == '.') && (Lower(s)[k] == '/' <==> s[k] == '/')
  {
  }

  /** Whether a name with an extension can be processed depends only on that
      extension, in any case. */
  lemma CanProcessByExtension(stem: string, word: string)
    requires stem != [] && stem[|stem| - 1] != '.' && stem[|stem| - 1] != '/'
    requires forall k :: 0 <= k < |word| ==> word[k] != '.' && word[k] != '/'
    ensures CanProcess(stem + "." + word) <==> "." + Lower(word) in SupportedExtensions
  {
    LowerKeepsDotsAndSlashes(stem);
    LowerKeepsDotsAndSlashes(word);
    assert Lower(stem + "." + word) == Lower(stem) + "." + Lower(word);
    SplitExtOf(Lower(stem), Lower(word));
  }

  /** The readers `process_file` dispatches to. */
  datatype Reader = PlainText | Markdown | Word | PowerPoint | Pdf

  function ReaderFor(ext: string): (r: Option<Reader>)
    ensures r.Some? <==> ext in SupportedExtensions
  {
    if ext == ".txt" then Some(PlainText)
    else if ext == ".md" then Some(Markdown)
    else if ext == ".docx" then Some(Word)
    else if ext == ".pptx" then Some(PowerPoint)
    else if ext == ".pdf" then Some(Pdf)
    else None
  }

  /** `process_file`: an unsupported extension raises `ValueError`; any other
      selects its reader. */
  function ProcessFile(path: string): (r: Result<Reader, string>)
    ensures r.Ok? <==> CanProcess(path)
    ensures r.Err? ==> r.error == "Unsupported file type: " + SplitExt(Lower(path))
  {
    var ext := SplitExt(Lower(path));
    match ReaderFor(ext)
    case Some(reader) => Ok(reader)
    case None => Err("Unsupported file type: " + ext)
  }

  /** `get_document_metadata`'s file_type: the extension without its dot. */
  function FileType(path: string): (t: string)
    ensures forall k :: 0 <= k < |t| ==> t[k] != '.' && t[k] != '/'
    ensures SplitExt(Lower(path)) == [] ==> t == []
    ensures SplitExt(Lower(path)) != [] ==> SplitExt(Lower(path)) == "." + t
  {
    SplitExtShape(Lower(path));
    var ext := SplitExt(Lower(path));
    if ext == [] then [] else ext[1..]
  }

  // ---------------------------------------------------------------------
  // Joining the text of the readers

  /** The strings that are not whitespace only, in order. */
  function NonBlank(xs: seq<string>): (r: seq<string>)
    ensures forall x :: x in r <==> x in xs && !Blank(x)
    ensures |r| <= |xs|
    decreases |xs|
  {
    if xs == [] then []
    else
      var rest := NonBlank(xs[..|xs| - 1]);
      var x := xs[|xs| - 1];
      assert xs == xs[..|xs| - 1] + [x];
      if Blank(x) then rest else rest + [x]
  }

  lemma {:induction false} NonBlankAppend(a: seq<string>, b: seq<string>)
    ensures NonBlank(a + b) == NonBlank(a) + NonBlank(b)
    decreases |b|
  {
    if b != [] {
      var b' := b[..|b| - 1];
      assert (a + b)[..|a + b| - 1] == a + b';
      NonBlankAppend(a, b');
    } else {
      assert a + b == a;
    }
  }

  /** A Word table row: its cells stripped and joined by " | ". */
  function RowText(cells: seq<string>): string {
    Join(seq(|cells|, i requires 0 <= i < |cells| => Strip(cells[i])), " | ")
  }

  /** A row of two or more cells is never blank, even when every cell is empty. */
  lemma WideRowKept(cells: seq<string>)
    requires |cells| >= 2
    ensures !Blank(RowText(cells))
  {
    var parts := seq(|cells|, i requires 0 <= i < |cells| => Strip(cells[i]));
    var t := RowText(cells);
    assert t == parts[0] + " | " + Join(parts[1..], " | ");
    assert t[|parts[0]| + 1] == '|';
  }

  /** The texts of the rows of one table. */
  function RowLines(rows: seq<seq<string>>): (r: seq<string>)
    ensures |r| == |rows| && forall i :: 0 <= i < |rows| ==> r[i] == RowText(rows[i])
  {
    seq(|rows|, i requires 0 <= i < |rows| => RowText(rows[i]))
  }

  /** The row texts of the tables, table by table and row by row. */
  function RowTexts(tables: seq<seq<seq<string>>>): seq<string>
    decreases |tables|
  {
    if tables == [] then []
    else
      RowTexts(tables[..|tables| - 1]) + RowLines(tables[|tables| - 1])
  }

  /** The text of a Word document: its non-blank paragraphs, then its
      non-blank table rows. */
  function DocxText(paragraphs: seq<string>, tables: seq<seq<seq<string>>>): string {
    Join(NonBlank(paragraphs) + NonBlank(RowTexts(tables)), "\n\n")
  }

  lemma RowLinesSnoc(rows: seq<seq<string>>, r: nat)
    requires r < |rows|
    ensures RowLines(rows[..r + 1]) == RowLines(rows[..r]) + [RowText(rows[r])]
  {
  }

  /** The rows of one table appended to the parts. */
  method AddRows(ghost before: seq<string>, parts: seq<string>, rows: seq<seq<string>>) returns (parts': seq<string>)
    requires parts == NonBlank(before)
    ensures parts' == NonBlank(before + RowLines(rows))
  {
    parts' := parts;
    var r := 0;
    assert before + RowLines(rows[..0]) == before;
    while r < |rows|
      invariant 0 <= r <= |rows|
      invariant parts' == NonBlank(before + RowLines(rows[..r]))
    {
      var rowText := RowText(rows[r]);
      ghost var done := before + RowLines(rows[..r]);
      RowLinesSnoc(rows, r);
      assert before + RowLines(rows[..r + 1]) == done + [rowText];
      NonBlankAppend(done, [rowText]);
      if !Blank(rowText) {
        parts' := parts' + [rowText];
      }
      r := r + 1;
    }
    assert rows[..r] == rows;
  }

  /** `process_docx`. */
  method ProcessDocx(paragraphs: seq<string>, tables: seq<seq<seq<string>>>) returns (text: string)
    ensures text == DocxText(paragraphs, tables)
  {
    var parts: seq<string> := [];
    var p := 0;
    while p < |paragraphs|
      invariant 0 <= p <= |paragraphs|
      invariant parts == NonBlank(paragraphs[..p])
    {
      assert paragraphs[..p + 1] == paragraphs[..p] + [paragraphs[p]];
      if !Blank(paragraphs[p]) {
        parts := parts + [paragraphs[p]];
      }
      p := p + 1;
    }
    assert paragraphs[..p] == paragraphs;
    var head := parts;
    parts := [];
    var t := 0;
    while t < |tables|
      invariant 0 <= t <= |tables|
      invariant parts == NonBlank(RowTexts(tables[..t]))
    {
      assert tables[..t + 1][..t] == tables[..t];
      parts := AddRows(RowTexts(tables[..t]), parts, tables[t]);
      t := t + 1;
    }
    assert tables[..t] == tables;
    text := Join(head + parts, "\n\n");
  }

  /** A PowerPoint table row: its non-empty cells, stripped. */
  function FilledCells(cells: seq<string>): (r: seq<string>)
    ensures forall x :: x in r ==> x != [] && x == Strip(x)
    decreases |cells|
  {
    if cells == [] then []
    else
      var rest := FilledCells(cells[..|cells| - 1]);
      var c := Strip(cells[|cells| - 1]);
      StripIdempotent(cells[|cells| - 1]);
      if c == [] then rest else rest + [c]
  }

  /** A slide shape: its text, when it has a text frame, and its table, when
      it is one. */
  datatype Shape = Shape(text: Option<string>, table: Option<seq<seq<string>>>)

  /** The non-empty row texts of a PowerPoint table. */
  function TableLines(rows: seq<seq<string>>): (r: seq<string>)
    ensures forall x :: x in r ==> x != []
    decreases |rows|
  {
    if rows == [] then []
    else
      var rest := TableLines(rows[..|rows| - 1]);
      var line := Join(FilledCells(rows[|rows| - 1]), " | ");
      if line == [] then rest else rest + [line]
  }

  /** What one shape adds to its slide: its non-blank text, then its table's
      lines joined by line breaks when there are any. */
  function ShapeTexts(s: Shape): seq<string> {
    (if s.text.Some? && !Blank(s.text.value) then [s.text.value] else [])
    + (if s.table.Some? && TableLines(s.table.value) != [] then [Join(TableLines(s.table.value), "\n")] else [])
  }

  function SlideTexts(shapes: seq<Shape>): seq<string>
    decreases |shapes|
  {
    if shapes == [] then [] else SlideTexts(shapes[..|shapes| - 1]) + ShapeTexts(shapes[|shapes| - 1])
  }

  /** The slide parts: one per slide that contributes some text. */
  function SlideParts(slides: seq<seq<Shape>>): seq<string>
    decreases |slides|
  {
    if slides == [] then []
    else
      var rest := SlideParts(slides[..|slides| - 1]);
      var texts := SlideTexts(slides[|slides| - 1]);
      if texts == [] then rest else rest + [Join(texts, "\n")]
  }

  /** The text of a presentation. */
  function PptxText(slides: seq<seq<Shape>>): string {
    Join(SlideParts(slides), "\n\n")
  }

  /** A non-empty join of non-empty strings is not empty. */
  lemma JoinNonEmpty(xs: seq<string>, sep: string)
    requires xs != [] && xs[0] != []
    ensures Join(xs, sep) != []
  {
  }

  /** Every text a shape or a table contributes is non-empty. */
  lemma {:induction false} SlideTextsNonEmpty(shapes: seq<Shape>)
    ensures forall x :: x in SlideTexts(shapes) ==> x != []
    decreases |shapes|
  {
    if shapes != [] {
      SlideTextsNonEmpty(shapes[..|shapes| - 1]);
      var s := shapes[|shapes| - 1];
      if s.text.Some? && !Blank(s.text.value) {
        assert s.text.value != [];
      }
      if s.table.Some? && TableLines(s.table.value) != [] {
        var lines := TableLines(s.table.value);
        assert lines[0] in lines;
        JoinNonEmpty(lines, "\n");
      }
    }
  }

  /** A slide that contributes no text adds no part, and every part holds
      some text. */
  lemma {:induction false} SlidePartsNonEmpty(slides: seq<seq<Shape>>)
    ensures forall x :: x in SlideParts(slides) ==> x != []
    ensures |SlideParts(slides)| <= |slides|
    decreases |slides|
  {
    if slides != [] {
      SlidePartsNonEmpty(slides[..|slides| - 1]);
      var texts := SlideTexts(slides[|slides| - 1]);
      if texts != [] {
        SlideTextsNonEmpty(slides[|slides| - 1]);
        assert texts[0] in texts;
        JoinNonEmpty(texts, "\n");
      }
    }
  }

  /** The lines of one PowerPoint table. */
  method TableText(rows: seq<seq<string>>) returns (lines: seq<string>)
    ensures lines == TableLines(rows)
  {
    lines := [];
    var r := 0;
    while r < |rows|
      invariant 0 <= r <= |rows|
      invariant lines == TableLines(rows[..r])
    {
      assert rows[..r + 1][..r] == rows[..r];
      var line := Join(FilledCells(rows[r]), " | ");
      if line != [] {
        lines := lines + [line];
      }
      r := r + 1;
    }
    assert rows[..r] == rows;
  }

  /** The texts of one slide. */
  method ShapesText(shapes: seq<Shape>) returns (texts: seq<string>)
    ensures texts == SlideTexts(shapes)
  {
    texts := [];
    var i := 0;
    while i < |shapes|
      invariant 0 <= i <= |shapes|
      invariant texts == SlideTexts(shapes[..i])
    {
      assert shapes[..i + 1][..i] == shapes[..i];
      var shape := shapes[i];
      ghost var start := texts;
      if shape.text.Some? && !Blank(shape.text.value) {
        texts := texts + [shape.text.value];
      }
      if shape.table.Some? {
        var lines := TableText(shape.table.value);
        if lines != [] {
          texts := texts + [Join(lines, "\n")];
        }
      }
      assert texts == start + ShapeTexts(shape);
      i := i + 1;
    }
    assert shapes[..i] == shapes;
  }

  /** `process_pptx`. */
  method ProcessPptx(slides: seq<seq<Shape>>) returns (text: string)
    ensures text == PptxText(slides)
  {
    var parts: seq<string> := [];
    var i := 0;
    while i < |slides|
      invariant 0 <= i <= |slides|
      invariant parts == SlideParts(slides[..i])
    {
      assert slides[..i + 1][..i] == slides[..i];
      var texts := ShapesText(slides[i]);
      if texts != [] {
        parts := parts + [Join(texts, "\n")];
      }
      i := i + 1;
    }
    assert slides[..i] == slides;
    text := Join(parts, "\n\n");
  }

  /** `process_pdf`: the non-blank pages joined by blank lines. */
  method ProcessPdf(pages: seq<string>) returns (text: string)
    ensures text == Join(NonBlank(pages), "\n\n")
  {
    var parts: seq<string> := [];
    var i := 0;
    while i < |pages|
      invariant 0 <= i <= |pages|
      invariant parts == NonBlank(pages[..i])
    {
      assert pages[..i + 1] == pages[..i] + [pages[i]];
      if !Blank(pages[i]) {
        parts := parts + [pages[i]];
      }
      i := i + 1;
    }
    assert pages[..i] == pages;
    text := Join(parts, "\n\n");
  }

  /** Blank pages leave no trace: a document of only blank pages has no text,
      and adding a blank page changes nothing. */
  lemma BlankPagesSkipped(pages: seq<string>, blank: string)
    requires Blank(blank)
    ensures Join(NonBlank(pages + [blank]), "\n\n") == Join(NonBlank(pages), "\n\n")
    ensures (forall k :: 0 <= k < |pages| ==> Blank(pages[k])) ==> Join(NonBlank(pages), "\n\n") == []
  {
    assert (pages + [blank])[..|pages|] == pages;
    if forall k :: 0 <= k < |pages| ==> Blank(pages[k]) {
      if NonBlank(pages) != [] {
        var x := NonBlank(pages)[0];
        assert x in NonBlank(pages);
      }
    }
  }

  // ---------------------------------------------------------------------
  // process_file_async

  /** The temporary files of the process. */
  class TempFiles {
    var files: map<string, seq<bv8>>
    /** The names written, in order. */
    var written: seq<string>

    constructor ()
      ensures files == map[] && written == []
    {
      files := map[];
      written := [];
    }

    /** `process_file_async`: an unsupported extension raises before any file
        is written; otherwise the content goes to a fresh temporary file, the
        reader of the extension runs on what that file holds, and the file is
        removed whether or not the reader raised. `extract` is what a reader
        finds in the bytes of a file. */
    method ProcessFileAsync(content: seq<bv8>, filename: string, tempName: string,
                            extract: (Reader, seq<bv8>) -> Result<string, string>)
      returns (r: Result<string, string>)
      requires tempName !in files
      modifies this
      ensures files == old(files)
      ensures !CanProcess(filename) ==>
        r == Err("Unsupported file type: " + SplitExt(Lower(filename))) && written == old(written)
      ensures CanProcess(filename) ==>
        r == extract(ReaderFor(SplitExt(Lower(filename))).value, content) && written == old(written) + [tempName]
    {
      var ext := SplitExt(Lower(filename));
      var reader := ReaderFor(ext);
      if reader.None? {
        return Err("Unsupported file type: " + ext);
      }
      files := files[tempName := content];
      written := written + [tempName];
      r := extract(reader.value, files[tempName]);
      files := files - {tempName};
    }
  }
}
