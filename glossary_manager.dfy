/** The DeepL glossary manager of the backend: the strict payload validator applied
    before every create or update call, the merging of TSV entry texts, the
    pagination of glossary details, language-code normalisation and the main
    glossary's name, the two TSV entry-line parsers, the placeholder payload of a
    new main glossary and the cached-dictionary filter of dictionary deletion.
    The HTTP calls themselves are not modelled: their replies are inputs. */
module GlossaryManager {
  import opened Wrappers
  import opened Text
  import opened Ordering
  import opened Paging

  /** A JSON field as the validator sees it: absent, a value of the expected type,
      or a value of another type on which the validator's operations raise, which
      it turns into a rejection. (An empty `{}` or `""` given as `dictionaries`
      would iterate without raising; no caller builds one, and it is not a
      value here.) */
  datatype Field<T> = Missing | Value(v: T) | WrongType

  /** One dictionary of a glossary payload. */
  datatype Dictionary = Dictionary(
    sourceLang: Field<string>,
    targetLang: Field<string>,
    entries: Field<string>,
    entriesFormat: Field<string>)

  datatype Payload = Payload(name: Field<string>, dictionaries: Field<seq<Dictionary>>)

  /** Largest name and largest term DeepL accepts, in UTF-8 bytes. */
  const MaxTermBytes: nat := 1024

  /** Largest entries text of one dictionary, in UTF-8 bytes (10 MiB). */
  const MaxDictionaryBytes: nat := 10 * 1024 * 1024

  predicate IsEntriesFormat(f: Field<string>) {
    f == Value("tsv") || f == Value("csv")
  }

  /** The field separator of an entries format: a tab for tsv, a comma otherwise. */
  function Separator(format: string): char {
    if format == "tsv" then '\t' else ','
  }

  /** The source term of an entry line: the text before its first separator. */
  function Source(line: string, sep: char): string {
    Split(line, sep)[0]
  }

  /** A term the strict validator accepts: not blank, at most 1024 bytes, free of
      characters below U+0020 and of leading or trailing whitespace. */
  predicate StrictTermOk(t: string) {
    Strip(t) != [] && Utf8Len(t) <= MaxTermBytes
    && !HasControl(t) && Strip(t) == t
  }

  /** A line made of exactly two acceptable terms around one separator. */
  predicate StrictLineOk(line: string, sep: char) {
    var parts := Split(line, sep);
    |parts| == 2 && StrictTermOk(parts[0]) && StrictTermOk(parts[1])
  }

  /** The source terms of a list of lines. */
  function SourceSet(lines: seq<string>, sep: char): set<string> {
    set k | 0 <= k < |lines| :: Source(lines[k], sep)
  }

  /** The lines pass the validator's line loop: each line, taken in order, is a
      well-formed entry whose source term no earlier line had. */
  predicate StrictLinesOk(lines: seq<string>, sep: char)
    decreases |lines|
  {
    if lines == [] then true
    else
      var init, last := lines[..|lines| - 1], lines[|lines| - 1];
      StrictLinesOk(init, sep) && Source(last, sep) !in SourceSet(init, sep) && StrictLineOk(last, sep)
  }

  lemma {:induction false} StrictLinesOkPrefix(lines: seq<string>, j: int, sep: char)
    requires 0 <= j <= |lines| && StrictLinesOk(lines, sep)
    ensures StrictLinesOk(lines[..j], sep)
    decreases |lines|
  {
    if j < |lines| {
      var init := lines[..|lines| - 1];
      StrictLinesOkPrefix(init, j, sep);
      assert init[..j] == lines[..j];
    } else {
      assert lines[..j] == lines;
    }
  }

  /** The line loop accepts exactly the lists in which every line is a well-formed
      entry and no two lines share a source term. */
  lemma {:induction false} StrictLinesOkIff(lines: seq<string>, sep: char)
    ensures StrictLinesOk(lines, sep) <==>
      (forall k :: 0 <= k < |lines| ==> StrictLineOk(lines[k], sep))
      && (forall k, m :: 0 <= k < m < |lines| ==> Source(lines[k], sep) != Source(lines[m], sep))
    decreases |lines|
  {
    if lines != [] {
      var init, last := lines[..|lines| - 1], lines[|lines| - 1];
      StrictLinesOkIff(init, sep);
      assert forall k :: 0 <= k < |init| ==> init[k] == lines[k];
      if StrictLinesOk(lines, sep) {
        forall k, m | 0 <= k < m < |lines| ensures Source(lines[k], sep) != Source(lines[m], sep) {
          if m == |lines| - 1 {
            assert Source(init[k], sep) in SourceSet(init, sep);
          } else {
            assert Source(init[k], sep) != Source(init[m], sep);
          }
        }
      }
    }
  }

  /** A line that is malformed or repeats an earlier source term makes the whole
      list fail. */
  lemma LineRejected(lines: seq<string>, i: int, sep: char)
    requires 0 <= i < |lines|
    requires Source(lines[i], sep) in SourceSet(lines[..i], sep) || !StrictLineOk(lines[i], sep)
    ensures !StrictLinesOk(lines, sep)
  {
    if StrictLinesOk(lines, sep) {
      StrictLinesOkPrefix(lines, i + 1, sep);
    }
  }

  lemma SourceSetStep(lines: seq<string>, i: int, sep: char)
    requires 0 <= i < |lines|
    ensures SourceSet(lines[..i + 1], sep) == SourceSet(lines[..i], sep) + {Source(lines[i], sep)}
  {
    var a, b := lines[..i + 1], lines[..i];
    assert forall k :: 0 <= k < i ==> a[k] == b[k];
    forall x | x in SourceSet(a, sep) ensures x in SourceSet(b, sep) + {Source(lines[i], sep)} {
      var k :| 0 <= k < |a| && Source(a[k], sep) == x;
      if k < i {
        assert Source(b[k], sep) == x;
      }
    }
    forall x | x in SourceSet(b, sep) ensures x in SourceSet(a, sep) {
      var k :| 0 <= k < |b| && Source(b[k], sep) == x;
      assert Source(a[k], sep) == x;
    }
    assert Source(a[i], sep) in SourceSet(a, sep);
  }

  predicate StrictDictionaryOk(d: Dictionary) {
    !d.sourceLang.Missing? && !d.targetLang.Missing? && !d.entries.Missing? && !d.entriesFormat.Missing?
    && IsEntriesFormat(d.entriesFormat)
    && d.entries.Value?
    && StrictLinesOk(Split(d.entries.v, '\n'), Separator(d.entriesFormat.v))
    && Utf8Len(d.entries.v) <= MaxDictionaryBytes
  }

  /** What GlossaryManager.validate_glossary_payload accepts. */
  predicate StrictPayloadOk(p: Payload) {
    p.name.Value? && p.dictionaries.Value?
    && Utf8Len(p.name.v) <= MaxTermBytes
    && forall k :: 0 <= k < |p.dictionaries.v| ==> StrictDictionaryOk(p.dictionaries.v[k])
  }

  /** The line loop of the validator, with its set of source terms seen so far. */
  method CheckEntryLines(lines: seq<string>, sep: char) returns (ok: bool)
    ensures ok == StrictLinesOk(lines, sep)
  {
    var seen: set<string> := {};
    var i := 0;
    while i < |lines|
      invariant 0 <= i <= |lines|
      invariant StrictLinesOk(lines[..i], sep)
      invariant seen == SourceSet(lines[..i], sep)
    {
      var parts := Split(lines[i], sep);
      if |parts| != 2 {
        LineRejected(lines, i, sep);
        return false;
      }
      var source, target := parts[0], parts[1];
      if source in seen {
        LineRejected(lines, i, sep);
        return false;
      }
      SourceSetStep(lines, i, sep);
      seen := seen + {source};
      if Strip(source) == [] || Strip(target) == [] {
        LineRejected(lines, i, sep);
        return false;
      }
      if Utf8Len(source) > MaxTermBytes || Utf8Len(target) > MaxTermBytes {
        LineRejected(lines, i, sep);
        return false;
      }
      HasControlAppend(source, target);
      if HasControl(source + target) {
        LineRejected(lines, i, sep);
        return false;
      }
      if source != Strip(source) || target != Strip(target) {
        LineRejected(lines, i, sep);
        return false;
      }
      assert lines[..i + 1][..i] == lines[..i];
      i := i + 1;
    }
    assert lines[..i] == lines;
    return true;
  }

  /** GlossaryManager.validate_glossary_payload: true exactly for the payloads
      the strict rules accept; every failure, raised or not, yields false. */
  method ValidateGlossaryPayload(p: Payload) returns (ok: bool)
    ensures ok == StrictPayloadOk(p)
  {
    if p.name.Missing? || p.dictionaries.Missing? {
      return false;
    }
    if !p.name.Value? || Utf8Len(p.name.v) > MaxTermBytes {
      return false;
    }
    if !p.dictionaries.Value? {
      return false;
    }
    var dictionaries := p.dictionaries.v;
    var i := 0;
    while i < |dictionaries|
      invariant 0 <= i <= |dictionaries|
      invariant forall k :: 0 <= k < i ==> StrictDictionaryOk(dictionaries[k])
    {
      var d := dictionaries[i];
      if d.sourceLang.Missing? || d.targetLang.Missing? || d.entries.Missing? || d.entriesFormat.Missing? {
        return false;
      }
      if !IsEntriesFormat(d.entriesFormat) || !d.entries.Value? {
        return false;
      }
      var linesOk := CheckEntryLines(Split(d.entries.v, '\n'), Separator(d.entriesFormat.v));
      if !linesOk {
        return false;
      }
      if Utf8Len(d.entries.v) > MaxDictionaryBytes {
        return false;
      }
      i := i + 1;
    }
    return true;
  }

  /** An entries text ending in a newline has an empty last line, which does not
      split into two fields, so the dictionary is rejected. */
  lemma TrailingNewlineRejected(d: Dictionary, text: string)
    requires d.entries == Value(text + "\n")
    ensures !StrictDictionaryOk(d)
  {
    SplitAppendSeparator(text, '\n');
    var lines := Split(text + "\n", '\n');
    assert lines[|lines| - 1] == [];
    var sep := if d.entriesFormat.Value? then Separator(d.entriesFormat.v) else ',';
    SplitNoSeparator([], sep);
    assert !StrictLineOk(lines[|lines| - 1], sep);
  }

  /** The language codes DeepL glossaries support. */
  const SupportedCodes: set<string> := {"ZH", "EN", "DE", "FR", "ES", "PT", "IT", "NL", "PL", "RU", "JA", "ID"}

  /** GlossaryManager._normalize_lang_code: the upper-cased code, or the ValueError
      message for a code outside the supported set. */
  function NormalizeLangCode(code: string): (r: Result<string, string>)
    ensures r.Ok? ==> r.value in SupportedCodes && |r.value| == 2 && r.value == Upper(code)
    ensures r.Err? ==> r.error == "Unsupported language code: " + Upper(code)
  {
    var upper := Upper(code);
    if upper in SupportedCodes then Ok(upper) else Err("Unsupported language code: " + upper)
  }

  /** Normalisation accepts a code exactly when its upper-case form is supported,
      and normalising a normalised code gives it back. */
  lemma NormalizeLangCodeIdempotent(code: string)
    ensures NormalizeLangCode(code).Ok? <==> Upper(code) in SupportedCodes
    ensures NormalizeLangCode(code).Ok? ==> NormalizeLangCode(NormalizeLangCode(code).value) == NormalizeLangCode(code)
  {
    UpperIdempotent(code);
  }

  /** GlossaryManager._get_main_glossary_name. */
  function MainGlossaryName(sourceLang: string, targetLang: string): string {
    "Main_Glossary_" + Upper(sourceLang) + "-" + Upper(targetLang)
  }

  /** For two-letter codes, two language pairs share a main glossary name exactly
      when they agree after upper-casing, so the name identifies the pair. */
  lemma MainGlossaryNameInjective(s1: string, t1: string, s2: string, t2: string)
    requires |s1| == 2 && |s2| == 2
    ensures MainGlossaryName(s1, t1) == MainGlossaryName(s2, t2) <==> Upper(s1) == Upper(s2) && Upper(t1) == Upper(t2)
  {
    var n1, n2 := MainGlossaryName(s1, t1), MainGlossaryName(s2, t2);
    if n1 == n2 {
      assert Upper(s1) == n1[14..16] && Upper(s2) == n2[14..16];
      assert Upper(t1) == n1[17..] && Upper(t2) == n2[17..];
    }
  }

  /** The term the placeholder entry is made of. */
  const PlaceholderTerm: string := "placeholder"

  /** The single-line entries text a new main glossary is created with. */
  const PlaceholderEntries: string := PlaceholderTerm + "\t" + PlaceholderTerm

  /** The payload get_or_create_main_glossary sends for a new main glossary. */
  function PlaceholderPayload(sourceLang: string, targetLang: string): Payload {
    Payload(
      Value(MainGlossaryName(sourceLang, targetLang)),
      Value([Dictionary(Value(sourceLang), Value(targetLang), Value(PlaceholderEntries), Value("tsv"))]))
  }

  /** A short run of lower-case ASCII letters. */
  predicate IsLowerWord(w: string) {
    0 < |w| <= 256 && forall k :: 0 <= k < |w| ==> 'a' <= w[k] <= 'z'
  }

  /** A lower-case word is an acceptable term. */
  lemma LowerWordTermOk(w: string)
    requires IsLowerWord(w)
    ensures StrictTermOk(w)
  {
    Utf8LenBounds(w);
    StripUnpadded(w);
    assert !HasControl(w);
  }

  /** Two lower-case words around a tab form one line of two tab-separated parts. */
  lemma LowerWordPairSplits(w: string)
    requires IsLowerWord(w)
    ensures Split(w + "\t" + w, '\n') == [w + "\t" + w]
    ensures Split(w + "\t" + w, '\t') == [w, w]
  {
    var line := w + "\t" + w;
    assert line == Join([w, w], "\t");
    JoinSplit([w, w], '\t');
    assert forall k :: 0 <= k < |line| ==> line[k] == '\t' || 'a' <= line[k] <= 'z';
    SplitNoSeparator(line, '\n');
  }

  /** Two lower-case words around a tab form a line that is its own strip and is
      far below the dictionary size limit. */
  lemma LowerWordPairStripped(w: string)
    requires IsLowerWord(w)
    ensures Strip(w + "\t" + w) == w + "\t" + w
    ensures Utf8Len(w + "\t" + w) <= MaxDictionaryBytes
  {
    var line := w + "\t" + w;
    Utf8LenBounds(line);
    assert line[0] == w[0] && line[|line| - 1] == w[|w| - 1];
    StripUnpadded(line);
  }

  lemma PlaceholderTermIsLowerWord()
    ensures IsLowerWord(PlaceholderTerm)
  {
  }

  /** The placeholder entries text is one line of two acceptable terms. */
  lemma PlaceholderEntriesOk()
    ensures StrictLinesOk(Split(PlaceholderEntries, '\n'), '\t')
    ensures Utf8Len(PlaceholderEntries) <= MaxDictionaryBytes
  {
    PlaceholderTermIsLowerWord();
    LowerWordTermOk(PlaceholderTerm);
    LowerWordPairSplits(PlaceholderTerm);
    LowerWordPairStripped(PlaceholderTerm);
    assert StrictLineOk(PlaceholderEntries, '\t');
  }

  /** The placeholder payload built from two normalised codes passes the strict
      validator, so creating a main glossary is never refused locally. */
  lemma PlaceholderPayloadValid(sourceLang: string, targetLang: string)
    requires NormalizeLangCode(sourceLang).Ok? && NormalizeLangCode(targetLang).Ok?
    ensures StrictPayloadOk(PlaceholderPayload(NormalizeLangCode(sourceLang).value, NormalizeLangCode(targetLang).value))
  {
    var s, t := NormalizeLangCode(sourceLang).value, NormalizeLangCode(targetLang).value;
    PlaceholderEntriesOk();
    Utf8LenBounds(MainGlossaryName(s, t));
    var d := PlaceholderPayload(s, t).dictionaries.v[0];
    assert IsEntriesFormat(d.entriesFormat);
    assert Separator(d.entriesFormat.v) == '\t';
    assert d.entries.v == PlaceholderEntries;
    assert StrictLinesOk(Split(d.entries.v, '\n'), Separator(d.entriesFormat.v));
    assert Utf8Len(d.entries.v) <= MaxDictionaryBytes;
    assert StrictDictionaryOk(d);
  }

  /** The stripped non-blank lines of a text, as merge_entries collects them. */
  function StrippedLines(lines: seq<string>): (r: seq<string>)
    ensures |r| <= |lines|
    decreases |lines|
  {
    if lines == [] then []
    else
      var rest := StrippedLines(lines[1..]);
      if Strip(lines[0]) != [] then [Strip(lines[0])] + rest else rest
  }

  /** The terms of an entries text: its stripped non-blank lines. */
  function Terms(text: string): seq<string> {
    StrippedLines(Split(text, '\n'))
  }

  /** GlossaryManager.merge_entries. */
  function MergeEntries(existing: string, added: string): string {
    Join(SortedSet(Terms(existing) + Terms(added)), "\n")
  }

  /** The lines of a text hold no newline, so neither do its terms, and every term
      is non-empty and already stripped. */
  lemma {:induction false} StrippedLinesShape(lines: seq<string>, c: char)
    requires forall k :: 0 <= k < |lines| ==> c !in lines[k]
    ensures forall k :: 0 <= k < |StrippedLines(lines)| ==>
      var t := StrippedLines(lines)[k]; t != [] && Strip(t) == t && c !in t
    decreases |lines|
  {
    if lines != [] {
      StrippedLinesShape(lines[1..], c);
      StripIdempotent(lines[0]);
      StripNoNewChars(lines[0], c);
    }
  }

  /** Lines that are already stripped and non-blank are kept as they are. */
  lemma {:induction false} StrippedLinesOfStripped(lines: seq<string>)
    requires forall k :: 0 <= k < |lines| ==> lines[k] != [] && Strip(lines[k]) == lines[k]
    ensures StrippedLines(lines) == lines
    decreases |lines|
  {
    if lines != [] {
      StrippedLinesOfStripped(lines[1..]);
    }
  }

  /** Terms as merge_entries produces them: non-empty, stripped, newline-free. */
  predicate IsTermList(terms: seq<string>) {
    forall k :: 0 <= k < |terms| ==> terms[k] != [] && Strip(terms[k]) == terms[k] && '\n' !in terms[k]
  }

  lemma IsTermListAppend(a: seq<string>, b: seq<string>)
    requires IsTermList(a) && IsTermList(b)
    ensures IsTermList(a + b)
  {
    forall k | 0 <= k < |a + b| ensures (a + b)[k] != [] && Strip((a + b)[k]) == (a + b)[k] && '\n' !in (a + b)[k] {
      if k >= |a| {
        assert (a + b)[k] == b[k - |a|];
      }
    }
  }

  /** A list holding only members of a term list is a term list. */
  lemma IsTermListElems(a: seq<string>, b: seq<string>)
    requires IsTermList(a) && Elems(b) <= Elems(a)
    ensures IsTermList(b)
  {
    forall k | 0 <= k < |b| ensures b[k] != [] && Strip(b[k]) == b[k] && '\n' !in b[k] {
      assert b[k] in Elems(b);
      var m :| 0 <= m < |a| && a[m] == b[k];
    }
  }

  lemma TermsShape(text: string)
    ensures IsTermList(Terms(text))
  {
    SplitJoin(text, '\n');
    StrippedLinesShape(Split(text, '\n'), '\n');
  }

  /** Joining stripped, non-empty, newline-free terms with newlines and reading the
      terms back gives them again. */
  lemma TermsOfJoin(terms: seq<string>)
    requires IsTermList(terms)
    ensures Terms(Join(terms, "\n")) == terms
  {
    if terms == [] {
      SplitNoSeparator([], '\n');
    } else {
      JoinSplit(terms, '\n');
      StrippedLinesOfStripped(terms);
    }
  }

  /** The sorted, duplicate-free list of the terms of both inputs. */
  lemma MergedTermsShape(existing: string, added: string)
    ensures IsTermList(SortedSet(Terms(existing) + Terms(added)))
  {
    var both := Terms(existing) + Terms(added);
    var all := SortedSet(both);
    TermsShape(existing);
    TermsShape(added);
    IsTermListAppend(Terms(existing), Terms(added));
    IsTermListElems(both, all);
  }

  /** merge_entries returns exactly the terms of both inputs, sorted and each once. */
  lemma MergeEntriesTerms(existing: string, added: string)
    ensures StrictlySorted(Terms(MergeEntries(existing, added)))
    ensures Elems(Terms(MergeEntries(existing, added))) == Elems(Terms(existing)) + Elems(Terms(added))
  {
    MergedTermsShape(existing, added);
    TermsOfJoin(SortedSet(Terms(existing) + Terms(added)));
    ElemsAppend(Terms(existing), Terms(added));
  }

  lemma MergeEntriesCommutative(a: string, b: string)
    ensures MergeEntries(a, b) == MergeEntries(b, a)
  {
    ElemsAppend(Terms(a), Terms(b));
    ElemsAppend(Terms(b), Terms(a));
    SortedSetBySet(Terms(a) + Terms(b), Terms(b) + Terms(a));
  }

  /** Merging a merge result with itself, or with either of its inputs again,
      changes nothing. */
  lemma MergeEntriesIdempotent(a: string, b: string)
    ensures MergeEntries(MergeEntries(a, b), MergeEntries(a, b)) == MergeEntries(a, b)
    ensures MergeEntries(MergeEntries(a, b), b) == MergeEntries(a, b)
  {
    var all := SortedSet(Terms(a) + Terms(b));
    var m := MergeEntries(a, b);
    MergedTermsShape(a, b);
    TermsOfJoin(all);
    assert Terms(m) == all;
    ElemsAppend(all, all);
    StrictlySortedUnique(SortedSet(all + all), all);
    ElemsAppend(all, Terms(b));
    ElemsAppend(Terms(a), Terms(b));
    StrictlySortedUnique(SortedSet(all + Terms(b)), all);
  }

  /** The result of get_glossary_details apart from the glossary information. */
  datatype Details<T> = Details(
    entries: seq<T>,
    totalEntries: nat,
    entriesAvailable: bool,
    currentPage: int,
    pageSize: int,
    totalPages: int)

  /** The pagination block of get_glossary_details; a page size of zero makes the
      page count divide by zero, which the function re-raises. */
  function PaginateDetails<T>(all: seq<T>, page: int, pageSize: int): Result<Details<T>, string> {
    if pageSize == 0 then Err("integer division or modulo by zero")
    else
      var current := if page < 1 then 1 else page;
      var start := PageStart(current, pageSize);
      var end := if start + pageSize < |all| then start + pageSize else |all|;
      Ok(Details(PySlice(all, start, end), |all|, |all| > 0, current, pageSize,
                 FloorDiv(|all| + pageSize - 1, pageSize)))
  }

  /** For a positive page size the page is max(1, page) and its entries are the
      run of at most pageSize entries starting at (page - 1) * pageSize, empty when
      that start lies past the end. */
  lemma PaginateDetailsWindow<T>(all: seq<T>, page: int, pageSize: int)
    requires pageSize > 0
    ensures PaginateDetails(all, page, pageSize).Ok?
    ensures var d := PaginateDetails(all, page, pageSize).value;
      var start := PageStart(d.currentPage, pageSize);
      && d.currentPage == (if page < 1 then 1 else page)
      && d.totalEntries == |all| && (d.entriesAvailable <==> all != [])
      && |d.entries| <= pageSize
      && (start < |all| ==> d.entries == all[start..if start + pageSize < |all| then start + pageSize else |all|])
      && (start >= |all| ==> d.entries == [])
  {
    var current := if page < 1 then 1 else page;
    var start := PageStart(current, pageSize);
    var end := if start + pageSize < |all| then start + pageSize else |all|;
    PySliceNonNegative(all, start, end);
  }

  /** For a positive page size the page count is the ceiling of total / pageSize,
      and a page number past it is not clamped: its page has no entries. */
  lemma PaginateDetailsPageCount<T>(all: seq<T>, page: int, pageSize: int)
    requires pageSize > 0
    ensures PaginateDetails(all, page, pageSize).Ok?
    ensures var d := PaginateDetails(all, page, pageSize).value;
      && d.totalPages * pageSize >= |all| && (d.totalPages == 0 || (d.totalPages - 1) * pageSize < |all|)
      && (d.currentPage > d.totalPages ==> d.entries == [])
  {
    var current := if page < 1 then 1 else page;
    CeilPages(|all|, pageSize);
    var pages := FloorDiv(|all| + pageSize - 1, pageSize);
    if current > pages {
      PageStartPast(current, pages, pageSize);
      PaginateDetailsWindow(all, page, pageSize);
    }
  }

  /** One parsed glossary entry. */
  datatype Entry = Entry(source: string, target: string)

  /** A non-blank line with exactly one tab, as a pair of stripped halves. */
  function ParseTsvLine(line: string): Option<Entry> {
    var parts := Split(line, '\t');
    if Strip(line) != [] && |parts| == 2 then Some(Entry(Strip(parts[0]), Strip(parts[1]))) else None
  }

  /** The entries of a list of TSV lines, in order; with dropPlaceholder the
      unstripped line "placeholder\tplaceholder" is skipped too. */
  function TsvEntries(lines: seq<string>, dropPlaceholder: bool): (r: seq<Entry>)
    ensures |r| <= |lines|
    decreases |lines|
  {
    if lines == [] then []
    else
      var rest := TsvEntries(lines[1..], dropPlaceholder);
      if dropPlaceholder && lines[0] == PlaceholderEntries then rest
      else match ParseTsvLine(lines[0])
        case Some(e) => [e] + rest
        case None => rest
  }

  /** The details parser reads the first line, then the rest. */
  lemma TsvEntriesCons(line: string, rest: seq<string>)
    ensures TsvEntries([line] + rest, false) ==
      (match ParseTsvLine(line) case Some(e) => [e] case None => []) + TsvEntries(rest, false)
  {
    assert ([line] + rest)[1..] == rest;
  }

  /** When every line parses, the details parser yields exactly those entries. */
  lemma {:induction false} TsvEntriesAllParse(lines: seq<string>, es: seq<Entry>)
    requires |lines| == |es|
    requires forall k :: 0 <= k < |lines| ==> ParseTsvLine(lines[k]) == Some(es[k])
    ensures TsvEntries(lines, false) == es
    decreases |lines|
  {
    if lines != [] {
      var tl, te := lines[1..], es[1..];
      assert forall k :: 0 <= k < |tl| ==> tl[k] == lines[k + 1] && te[k] == es[k + 1];
      TsvEntriesAllParse(tl, te);
      TsvEntriesCons(lines[0], tl);
      assert ParseTsvLine(lines[0]) == Some(es[0]);
      assert [lines[0]] + tl == lines;
      assert [es[0]] + te == es;
    }
  }

  /** The entry-line parser of get_glossary_details. */
  function DetailsEntries(text: string): seq<Entry> {
    TsvEntries(Split(text, '\n'), false)
  }

  /** GlossaryManager._get_entries_from_api, given the entries text the API returned. */
  method EntriesFromApi(text: string) returns (entries: seq<Entry>)
    ensures entries == TsvEntries(Split(text, '\n'), true)
  {
    var lines := Split(text, '\n');
    entries := [];
    var i := 0;
    while i < |lines|
      invariant 0 <= i <= |lines|
      invariant entries + TsvEntries(lines[i..], true) == TsvEntries(lines, true)
    {
      var line := lines[i];
      assert lines[i..][1..] == lines[i + 1..];
      if Strip(line) != [] && line != PlaceholderEntries {
        var parts := Split(line, '\t');
        if |parts| == 2 {
          entries := entries + [Entry(Strip(parts[0]), Strip(parts[1]))];
        }
      }
      i := i + 1;
    }
    assert lines[|lines|..] == [];
  }

  /** An entry parsed from a line has stripped, tab-free halves. */
  predicate CleanEntry(e: Entry) {
    Strip(e.source) == e.source && Strip(e.target) == e.target && '\t' !in e.source && '\t' !in e.target
  }

  lemma ParseTsvLineShape(line: string)
    ensures ParseTsvLine(line).Some? ==> CleanEntry(ParseTsvLine(line).value)
  {
    var parts := Split(line, '\t');
    if |parts| == 2 {
      SplitJoin(line, '\t');
      StripIdempotent(parts[0]);
      StripIdempotent(parts[1]);
      StripNoNewChars(parts[0], '\t');
      StripNoNewChars(parts[1], '\t');
    }
  }

  /** Every parsed entry has stripped halves and holds no tab. */
  lemma {:induction false} TsvEntriesShape(lines: seq<string>, dropPlaceholder: bool)
    ensures forall k :: 0 <= k < |TsvEntries(lines, dropPlaceholder)| ==> CleanEntry(TsvEntries(lines, dropPlaceholder)[k])
    decreases |lines|
  {
    if lines != [] {
      TsvEntriesShape(lines[1..], dropPlaceholder);
      ParseTsvLineShape(lines[0]);
    }
  }

  /** Two stripped, non-blank, tab-free halves around one tab parse back as the
      entry of those halves. */
  lemma CleanPairParses(s: string, t: string)
    requires s != [] && Strip(s) == s && t != [] && Strip(t) == t
    requires '\t' !in s && '\t' !in t
    ensures ParseTsvLine(s + "\t" + t) == Some(Entry(s, t))
  {
    var line := s + "\t" + t;
    assert line == Join([s, t], "\t");
    JoinSplit([s, t], '\t');
    StripEmptyIffBlank(s);
    StripEmptyIffBlank(line);
    var k :| 0 <= k < |s| && !IsSpace(s[k]);
    assert line[k] == s[k];
  }

  /** Two lower-case words around a tab parse as the entry of those two words. */
  lemma LowerWordPairParses(w: string)
    requires IsLowerWord(w)
    ensures ParseTsvLine(w + "\t" + w) == Some(Entry(w, w))
  {
    LowerWordTermOk(w);
    assert '\t' !in w;
    CleanPairParses(w, w);
  }

  /** The two parsers differ only on the placeholder line: the API reader drops it
      where the details reader keeps it as an entry. */
  lemma PlaceholderLineParsers()
    ensures TsvEntries([PlaceholderEntries], true) == []
    ensures TsvEntries([PlaceholderEntries], false) == [Entry(PlaceholderTerm, PlaceholderTerm)]
  {
    PlaceholderTermIsLowerWord();
    LowerWordPairParses(PlaceholderTerm);
    var line := PlaceholderEntries;
    assert TsvEntries([line], true) == TsvEntries([line][1..], true);
    assert TsvEntries([line], false) == [Entry(PlaceholderTerm, PlaceholderTerm)] + TsvEntries([line][1..], false);
  }

  /** Without a placeholder line both parsers give the same entries. */
  lemma {:induction false} TsvEntriesWithoutPlaceholder(lines: seq<string>)
    requires PlaceholderEntries !in lines
    ensures TsvEntries(lines, true) == TsvEntries(lines, false)
    decreases |lines|
  {
    if lines != [] {
      assert lines[0] in lines;
      assert forall l :: l in lines[1..] ==> l in lines;
      TsvEntriesWithoutPlaceholder(lines[1..]);
    }
  }

  /** A dictionary as cached locally: its language pair and its entries text. */
  datatype CachedDictionary = CachedDictionary(sourceLang: string, targetLang: string, entries: string)

  /** Whether a cached dictionary is of the deleted language pair. */
  predicate OfPair(d: CachedDictionary, sourceLang: string, targetLang: string) {
    d.sourceLang == sourceLang && d.targetLang == targetLang
  }

  /** The cache update of delete_dictionary: every dictionary except those of the
      deleted language pair, in their order. */
  function WithoutDictionary(dictionaries: seq<CachedDictionary>, sourceLang: string, targetLang: string): (r: seq<CachedDictionary>)
    ensures forall d :: d in r <==> d in dictionaries && !(d.sourceLang == sourceLang && d.targetLang == targetLang)
    ensures |r| <= |dictionaries|
    decreases |dictionaries|
  {
    if dictionaries == [] then []
    else
      var rest := WithoutDictionary(dictionaries[1..], sourceLang, targetLang);
      var d := dictionaries[0];
      assert forall x :: x in dictionaries <==> x == d || x in dictionaries[1..];
      if d.sourceLang == sourceLang && d.targetLang == targetLang then rest else [d] + rest
  }

  lemma WithoutOne(d: CachedDictionary, sourceLang: string, targetLang: string)
    ensures WithoutDictionary([d], sourceLang, targetLang) == if OfPair(d, sourceLang, targetLang) then [] else [d]
  {
    assert [d][1..] == [];
  }

  /** The filter works dictionary by dictionary: it drops one of the pair and
      keeps any other, and it distributes over concatenation, so the kept
      dictionaries stay in their order and keep their number of copies. */
  lemma {:induction false} WithoutDictionaryAppend(a: seq<CachedDictionary>, b: seq<CachedDictionary>, sourceLang: string, targetLang: string)
    ensures WithoutDictionary([], sourceLang, targetLang) == []
    ensures forall d :: WithoutDictionary([d], sourceLang, targetLang) == if OfPair(d, sourceLang, targetLang) then [] else [d]
    ensures WithoutDictionary(a + b, sourceLang, targetLang)
      == WithoutDictionary(a, sourceLang, targetLang) + WithoutDictionary(b, sourceLang, targetLang)
    decreases |a|
  {
    forall d ensures WithoutDictionary([d], sourceLang, targetLang) == if OfPair(d, sourceLang, targetLang) then [] else [d] {
      WithoutOne(d, sourceLang, targetLang);
    }
    if a != [] {
      assert (a + b)[1..] == a[1..] + b;
      assert (a + b)[0] == a[0];
      WithoutDictionaryAppend(a[1..], b, sourceLang, targetLang);
    } else {
      assert a + b == b;
    }
  }

  /** The number of copies of each dictionary in the result is its number in
      the input, or none for one of the deleted pair. */
  lemma {:induction false} WithoutDictionaryCounts(dictionaries: seq<CachedDictionary>, sourceLang: string, targetLang: string)
    ensures forall d ::
      multiset(WithoutDictionary(dictionaries, sourceLang, targetLang))[d] ==
      (if OfPair(d, sourceLang, targetLang) then 0 else multiset(dictionaries)[d])
    decreases |dictionaries|
  {
    if dictionaries != [] {
      WithoutDictionaryCounts(dictionaries[1..], sourceLang, targetLang);
      assert dictionaries == [dictionaries[0]] + dictionaries[1..];
    }
  }
}
