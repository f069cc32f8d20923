/** The term extractor of the backend: its lenient glossary payload validator,
    the two term formatters, the bidirectional term map, the term-pair sanitiser,
    the input guard of the multilingual translator and the parsers of the language
    model's replies. The calls to the model are not modelled: a reply is an input. */
module TermExtractor {
  import opened Wrappers
  import opened Text
  import GM = GlossaryManager

  // ---------------------------------------------------------------------------
  // The module-level validate_glossary_payload

  /** A non-blank line the lenient validator accepts: exactly two fields, neither
      blank, each at most 1024 bytes. */
  predicate LineOk(line: string, sep: char) {
    var parts := Split(line, sep);
    |parts| == 2 && Strip(parts[0]) != [] && Strip(parts[1]) != []
    && Utf8Len(parts[0]) <= GM.MaxTermBytes && Utf8Len(parts[1]) <= GM.MaxTermBytes
  }

  /** The source terms of the non-blank lines of a list. */
  function SourceSet(lines: seq<string>, sep: char): set<string> {
    set k | 0 <= k < |lines| && Strip(lines[k]) != [] :: GM.Source(lines[k], sep)
  }

  /** The lines pass the lenient line loop: blank lines are skipped, and every
      other line, taken in order, is a well-formed entry whose source term no
      earlier non-blank line had. */
  predicate LinesOk(lines: seq<string>, sep: char)
    decreases |lines|
  {
    if lines == [] then true
    else
      var init, last := lines[..|lines| - 1], lines[|lines| - 1];
      LinesOk(init, sep)
      && (Strip(last) == [] || (GM.Source(last, sep) !in SourceSet(init, sep) && LineOk(last, sep)))
  }

  lemma {:induction false} LinesOkPrefix(lines: seq<string>, j: int, sep: char)
    requires 0 <= j <= |lines| && LinesOk(lines, sep)
    ensures LinesOk(lines[..j], sep)
    decreases |lines|
  {
    if j < |lines| {
      var init := lines[..|lines| - 1];
      LinesOkPrefix(init, j, sep);
      assert init[..j] == lines[..j];
    } else {
      assert lines[..j] == lines;
    }
  }

  /** The lenient loop accepts exactly the lists in which every non-blank line is a
      well-formed entry and no two non-blank lines share a source term. */
  lemma {:induction false} LinesOkIff(lines: seq<string>, sep: char)
    ensures LinesOk(lines, sep) <==>
      (forall k :: 0 <= k < |lines| && Strip(lines[k]) != [] ==> LineOk(lines[k], sep))
      && (forall k, m :: 0 <= k < m < |lines| && Strip(lines[k]) != [] && Strip(lines[m]) != [] ==>
            GM.Source(lines[k], sep) != GM.Source(lines[m], sep))
    decreases |lines|
  {
    if lines != [] {
      var init, last := lines[..|lines| - 1], lines[|lines| - 1];
      LinesOkIff(init, sep);
      assert forall k :: 0 <= k < |init| ==> init[k] == lines[k];
      if LinesOk(lines, sep) {
        forall k, m | 0 <= k < m < |lines| && Strip(lines[k]) != [] && Strip(lines[m]) != []
          ensures GM.Source(lines[k], sep) != GM.Source(lines[m], sep)
        {
          if m == |lines| - 1 {
            assert GM.Source(init[k], sep) in SourceSet(init, sep);
          } else {
            assert GM.Source(init[k], sep) != GM.Source(init[m], sep);
          }
        }
      }
    }
  }

  /** A non-blank line that is malformed or repeats an earlier source term makes
      the whole list fail. */
  lemma LineRejected(lines: seq<string>, i: int, sep: char)
    requires 0 <= i < |lines| && Strip(lines[i]) != []
    requires GM.Source(lines[i], sep) in SourceSet(lines[..i], sep) || !LineOk(lines[i], sep)
    ensures !LinesOk(lines, sep)
  {
    if LinesOk(lines, sep) {
      LinesOkLine(lines, i, sep);
    }
  }

  /** In an accepted list every non-blank line is well formed and new. */
  lemma LinesOkLine(lines: seq<string>, i: int, sep: char)
    requires 0 <= i < |lines| && Strip(lines[i]) != [] && LinesOk(lines, sep)
    ensures GM.Source(lines[i], sep) !in SourceSet(lines[..i], sep) && LineOk(lines[i], sep)
  {
    LinesOkPrefix(lines, i + 1, sep);
    var pre := lines[..i + 1];
    assert pre[..i] == lines[..i] && pre[i] == lines[i];
  }

  lemma SourceSetStep(lines: seq<string>, i: int, sep: char)
    requires 0 <= i < |lines|
    ensures SourceSet(lines[..i + 1], sep) ==
      SourceSet(lines[..i], sep) + (if Strip(lines[i]) != [] then {GM.Source(lines[i], sep)} else {})
  {
    var a, b := lines[..i + 1], lines[..i];
    SourceSetGrows(a, b, sep);
    forall x | x in SourceSet(a, sep)
      ensures x in SourceSet(b, sep) + (if Strip(lines[i]) != [] then {GM.Source(lines[i], sep)} else {})
    {
      var k :| 0 <= k < |a| && Strip(a[k]) != [] && GM.Source(a[k], sep) == x;
      if k < i {
        assert a[k] == b[k];
      }
    }
    if Strip(lines[i]) != [] {
      assert GM.Source(a[i], sep) in SourceSet(a, sep);
    }
  }

  lemma SourceSetGrows(a: seq<string>, b: seq<string>, sep: char)
    requires |b| <= |a| && b == a[..|b|]
    ensures SourceSet(b, sep) <= SourceSet(a, sep)
  {
    forall x | x in SourceSet(b, sep) ensures x in SourceSet(a, sep) {
      var k :| 0 <= k < |b| && Strip(b[k]) != [] && GM.Source(b[k], sep) == x;
      assert a[k] == b[k];
    }
  }

  /** The lenient line loop, with its set of source terms seen so far. */
  method CheckEntryLines(lines: seq<string>, sep: char) returns (ok: bool)
    ensures ok == LinesOk(lines, sep)
  {
    var seen: set<string> := {};
    var i := 0;
    while i < |lines|
      invariant 0 <= i <= |lines|
      invariant LinesOk(lines[..i], sep)
      invariant seen == SourceSet(lines[..i], sep)
    {
      if Strip(lines[i]) != [] {
        var parts := Split(lines[i], sep);
        if |parts| != 2 {
          LineRejected(lines, i, sep);
          return false;
        }
        var source, target := parts[0], parts[1];
        if source in seen {
          LineRejected(lines, i, sep);
          return false;
        }
        seen := seen + {source};
        if Strip(source) == [] || Strip(target) == [] {
          LineRejected(lines, i, sep);
          return false;
        }
        if Utf8Len(source) > GM.MaxTermBytes || Utf8Len(target) > GM.MaxTermBytes {
          LineRejected(lines, i, sep);
          return false;
        }
      }
      SourceSetStep(lines, i, sep);
      assert lines[..i + 1][..i] == lines[..i];
      i := i + 1;
    }
    assert lines[..i] == lines;
    return true;
  }

  predicate DictionaryOk(d: GM.Dictionary) {
    !d.sourceLang.Missing? && !d.targetLang.Missing? && !d.entries.Missing? && !d.entriesFormat.Missing?
    && GM.IsEntriesFormat(d.entriesFormat)
    && d.entries.Value?
    && LinesOk(Split(d.entries.v, '\n'), GM.Separator(d.entriesFormat.v))
  }

  /** What the module-level validate_glossary_payload accepts. */
  predicate PayloadOk(p: GM.Payload) {
    p.name.Value? && p.dictionaries.Value?
    && Utf8Len(p.name.v) <= GM.MaxTermBytes
    && forall k :: 0 <= k < |p.dictionaries.v| ==> DictionaryOk(p.dictionaries.v[k])
  }

  /** The module-level validate_glossary_payload: true exactly for the payloads the
      lenient rules accept; every failure, raised or not, yields false. */
  method ValidateGlossaryPayload(p: GM.Payload) returns (ok: bool)
    ensures ok == PayloadOk(p)
  {
    if p.name.Missing? || p.dictionaries.Missing? {
      return false;
    }
    if !p.name.Value? || Utf8Len(p.name.v) > GM.MaxTermBytes {
      return false;
    }
    if !p.dictionaries.Value? {
      return false;
    }
    var dictionaries := p.dictionaries.v;
    var i := 0;
    while i < |dictionaries|
      invariant 0 <= i <= |dictionaries|
      invariant forall k :: 0 <= k < i ==> DictionaryOk(dictionaries[k])
    {
      var d := dictionaries[i];
      if d.sourceLang.Missing? || d.targetLang.Missing? || d.entries.Missing? || d.entriesFormat.Missing? {
        return false;
      }
      if !GM.IsEntriesFormat(d.entriesFormat) || !d.entries.Value? {
        return false;
      }
      var linesOk := CheckEntryLines(Split(d.entries.v, '\n'), GM.Separator(d.entriesFormat.v));
      if !linesOk {
        return false;
      }
      i := i + 1;
    }
    return true;
  }

  /** Lines the strict line loop accepts pass the lenient one. */
  lemma {:induction false} StrictLinesOkImpliesLinesOk(lines: seq<string>, sep: char)
    requires GM.StrictLinesOk(lines, sep)
    ensures LinesOk(lines, sep)
    decreases |lines|
  {
    if lines != [] {
      var init := lines[..|lines| - 1];
      StrictLinesOkImpliesLinesOk(init, sep);
      assert SourceSet(init, sep) <= GM.SourceSet(init, sep);
    }
  }

  /** Every payload the glossary manager's strict validator accepts is accepted by
      the lenient one. */
  lemma StrictImpliesLenient(p: GM.Payload)
    requires GM.StrictPayloadOk(p)
    ensures PayloadOk(p)
  {
    var ds := p.dictionaries.v;
    forall k | 0 <= k < |ds| ensures DictionaryOk(ds[k]) {
      assert GM.StrictDictionaryOk(ds[k]);
      StrictLinesOkImpliesLinesOk(Split(ds[k].entries.v, '\n'), GM.Separator(ds[k].entriesFormat.v));
    }
  }

  /** A blank line changes nothing in the lenient verdict. */
  lemma BlankLineSkipped(lines: seq<string>, line: string, sep: char)
    requires Strip(line) == []
    ensures LinesOk(lines + [line], sep) == LinesOk(lines, sep)
  {
    assert (lines + [line])[..|lines|] == lines;
  }

  /** The implication is strict: adding a trailing newline to the entries of a
      dictionary the strict validator accepts gives one that only the lenient
      validator accepts. */
  lemma TrailingNewlineSeparates(d: GM.Dictionary)
    requires GM.StrictDictionaryOk(d)
    ensures var d' := d.(entries := GM.Field.Value(d.entries.v + "\n"));
      DictionaryOk(d') && !GM.StrictDictionaryOk(d')
  {
    var text := d.entries.v;
    var d' := d.(entries := GM.Field.Value(text + "\n"));
    var sep := GM.Separator(d.entriesFormat.v);
    SplitAppendSeparator(text, '\n');
    StrictLinesOkImpliesLinesOk(Split(text, '\n'), sep);
    assert Strip([]) == [];
    BlankLineSkipped(Split(text, '\n'), [], sep);
    GM.TrailingNewlineRejected(d', text);
  }

  // ---------------------------------------------------------------------------
  // Term pairs: the two formatters, the bidirectional map, the sanitiser

  /** A (source, target) term pair. */
  type Pair = (string, string)

  function StripPair(p: Pair): Pair {
    (Strip(p.0), Strip(p.1))
  }

  /** The formatters keep a pair when its stripped halves are non-blank and at most
      1024 bytes each. */
  predicate Keepable(p: Pair) {
    var q := StripPair(p);
    q.0 != [] && q.1 != [] && Utf8Len(q.0) <= GM.MaxTermBytes && Utf8Len(q.1) <= GM.MaxTermBytes
  }

  /** A pair as the formatters emit it: both halves stripped, non-empty and at most
      1024 bytes. */
  predicate CleanPair(p: Pair) {
    p.0 != [] && p.1 != [] && Strip(p.0) == p.0 && Strip(p.1) == p.1
    && Utf8Len(p.0) <= GM.MaxTermBytes && Utf8Len(p.1) <= GM.MaxTermBytes
  }

  /** Neither half of the pair holds c. */
  predicate FreeOf(p: Pair, c: char) {
    c !in p.0 && c !in p.1
  }

  /** The stripped pairs both formatters keep, in input order. */
  function KeptPairs(terms: seq<Pair>): (r: seq<Pair>)
    ensures |r| <= |terms|
    decreases |terms|
  {
    if terms == [] then []
    else
      var init, last := terms[..|terms| - 1], terms[|terms| - 1];
      KeptPairs(init) + (if Keepable(last) then [StripPair(last)] else [])
  }

  /** Every kept pair is clean. */
  lemma {:induction false} KeptPairsClean(terms: seq<Pair>)
    ensures forall k :: 0 <= k < |KeptPairs(terms)| ==> CleanPair(KeptPairs(terms)[k])
    decreases |terms|
  {
    if terms != [] {
      var init, last := terms[..|terms| - 1], terms[|terms| - 1];
      KeptPairsClean(init);
      StripIdempotent(last.0);
      StripIdempotent(last.1);
    }
  }

  /** Input pair m is keepable and strips to p. */
  predicate KeptFrom(terms: seq<Pair>, m: int, p: Pair) {
    0 <= m < |terms| && Keepable(terms[m]) && StripPair(terms[m]) == p
  }

  /** Every keepable input pair is kept, stripped. */
  lemma {:induction false} KeptPairsComplete(terms: seq<Pair>, m: int)
    requires 0 <= m < |terms| && Keepable(terms[m])
    ensures StripPair(terms[m]) in KeptPairs(terms)
    decreases |terms|
  {
    var init := terms[..|terms| - 1];
    if m < |init| {
      KeptPairsComplete(init, m);
      assert init[m] == terms[m];
    }
  }

  /** Every kept pair comes from a keepable input pair. */
  lemma {:induction false} KeptPairsSound(terms: seq<Pair>, p: Pair)
    requires p in KeptPairs(terms)
    ensures exists m :: KeptFrom(terms, m, p)
    decreases |terms|
  {
    var init := terms[..|terms| - 1];
    if p in KeptPairs(init) {
      KeptPairsSound(init, p);
      var m :| KeptFrom(init, m, p);
      assert init[m] == terms[m];
      assert KeptFrom(terms, m, p);
    } else {
      assert KeptFrom(terms, |terms| - 1, p);
    }
  }

  /** A pair is kept exactly when it is the stripped form of a keepable input pair. */
  lemma KeptPairsMembers(terms: seq<Pair>, p: Pair)
    ensures p in KeptPairs(terms) <==> exists m :: KeptFrom(terms, m, p)
  {
    if p in KeptPairs(terms) {
      KeptPairsSound(terms, p);
    }
    if exists m :: KeptFrom(terms, m, p) {
      var m :| KeptFrom(terms, m, p);
      KeptPairsComplete(terms, m);
    }
  }

  /** The kept pairs of one more input pair. */
  lemma KeptPairsSnoc(terms: seq<Pair>, i: int)
    requires 0 <= i < |terms|
    ensures KeptPairs(terms[..i + 1]) ==
      KeptPairs(terms[..i]) + (if Keepable(terms[i]) then [StripPair(terms[i])] else [])
  {
    assert terms[..i + 1][..i] == terms[..i];
  }

  /** Keeping commutes with concatenation: the kept pairs come out in input order. */
  lemma {:induction false} KeptPairsAppend(a: seq<Pair>, b: seq<Pair>)
    ensures KeptPairs(a + b) == KeptPairs(a) + KeptPairs(b)
    decreases |b|
  {
    if b != [] {
      var b' := b[..|b| - 1];
      KeptPairsAppend(a, b');
      assert (a + b)[..|a + b| - 1] == a + b';
      assert (a + b)[|a + b| - 1] == b[|b| - 1];
    } else {
      assert a + b == a;
    }
  }

  /** Pairs that are already clean are all kept, unchanged. */
  lemma {:induction false} KeptPairsOfClean(terms: seq<Pair>)
    requires forall k :: 0 <= k < |terms| ==> CleanPair(terms[k])
    ensures KeptPairs(terms) == terms
    decreases |terms|
  {
    if terms != [] {
      var init, last := terms[..|terms| - 1], terms[|terms| - 1];
      assert forall k :: 0 <= k < |init| ==> init[k] == terms[k];
      KeptPairsOfClean(init);
      CleanPairKept(last);
      assert terms == init + [last];
    }
  }

  lemma CleanPairKept(p: Pair)
    requires CleanPair(p)
    ensures Keepable(p) && StripPair(p) == p
  {
  }

  /** Formatting twice keeps the same pairs as formatting once. */
  lemma {:induction false} KeptPairsIdempotent(terms: seq<Pair>)
    ensures KeptPairs(KeptPairs(terms)) == KeptPairs(terms)
  {
    KeptPairsClean(terms);
    KeptPairsOfClean(KeptPairs(terms));
  }

  /** Stripping adds no character, so pairs free of c stay free of it. */
  lemma {:induction false} KeptPairsFreeOf(terms: seq<Pair>, c: char)
    requires forall m :: 0 <= m < |terms| ==> FreeOf(terms[m], c)
    ensures forall k :: 0 <= k < |KeptPairs(terms)| ==> FreeOf(KeptPairs(terms)[k], c)
  {
    var kept := KeptPairs(terms);
    forall k | 0 <= k < |kept| ensures FreeOf(kept[k], c) {
      KeptPairsSound(terms, kept[k]);
      var m :| KeptFrom(terms, m, kept[k]);
      StripNoNewChars(terms[m].0, c);
      StripNoNewChars(terms[m].1, c);
    }
  }

  /** One row of the database format. */
  datatype DbTerm = DbTerm(sourceTerm: string, targetTerm: string)

  function AsDbTerms(ps: seq<Pair>): (r: seq<DbTerm>)
    ensures |r| == |ps| && forall k :: 0 <= k < |ps| ==> r[k] == DbTerm(ps[k].0, ps[k].1)
  {
    seq(|ps|, k requires 0 <= k < |ps| => DbTerm(ps[k].0, ps[k].1))
  }

  lemma AsDbTermsSnoc(ps: seq<Pair>, p: Pair)
    ensures AsDbTerms(ps + [p]) == AsDbTerms(ps) + [DbTerm(p.0, p.1)]
  {
  }

  /** format_terms_for_db: one row per kept pair, in input order. */
  method FormatTermsForDb(terms: seq<Pair>) returns (formatted: seq<DbTerm>)
    ensures formatted == AsDbTerms(KeptPairs(terms))
  {
    formatted := [];
    var i := 0;
    while i < |terms|
      invariant 0 <= i <= |terms|
      invariant formatted == AsDbTerms(KeptPairs(terms[..i]))
    {
      var source, target := Strip(terms[i].0), Strip(terms[i].1);
      KeptPairsSnoc(terms, i);
      if source != [] && target != [] && Utf8Len(source) <= GM.MaxTermBytes && Utf8Len(target) <= GM.MaxTermBytes {
        AsDbTermsSnoc(KeptPairs(terms[..i]), (source, target));
        formatted := formatted + [DbTerm(source, target)];
      }
      i := i + 1;
    }
    assert terms[..i] == terms;
  }

  /** The TSV line of a pair. */
  function TsvLine(p: Pair): string {
    p.0 + "\t" + p.1
  }

  function TsvLines(ps: seq<Pair>): (r: seq<string>)
    ensures |r| == |ps| && forall k :: 0 <= k < |ps| ==> r[k] == TsvLine(ps[k])
  {
    seq(|ps|, k requires 0 <= k < |ps| => TsvLine(ps[k]))
  }

  /** What format_terms_for_deepl returns: the TSV lines of the kept pairs joined
      by newlines for the tsv format, and the empty text for any other. */
  function DeeplText(terms: seq<Pair>, format: string): string {
    if format == "tsv" then Join(TsvLines(KeptPairs(terms)), "\n") else ""
  }

  /** format_terms_for_deepl. */
  method FormatTermsForDeepl(terms: seq<Pair>, format: string) returns (result: string)
    ensures result == DeeplText(terms, format)
    ensures format != "tsv" ==> result == ""
  {
    if format != "tsv" {
      return "";
    }
    var formatted: seq<string> := [];
    var i := 0;
    while i < |terms|
      invariant 0 <= i <= |terms|
      invariant formatted == TsvLines(KeptPairs(terms[..i]))
    {
      var source, target := Strip(terms[i].0), Strip(terms[i].1);
      KeptPairsSnoc(terms, i);
      if source != [] && target != [] && Utf8Len(source) <= GM.MaxTermBytes && Utf8Len(target) <= GM.MaxTermBytes {
        formatted := formatted + [source + "\t" + target];
        assert formatted == TsvLines(KeptPairs(terms[..i + 1]));
      }
      i := i + 1;
    }
    assert terms[..i] == terms;
    result := Join(formatted, "\n");
  }

  /** The entries a list of pairs reads back as. */
  function AsEntries(ps: seq<Pair>): (r: seq<GM.Entry>)
    ensures |r| == |ps| && forall k :: 0 <= k < |ps| ==> r[k] == GM.Entry(ps[k].0, ps[k].1)
  {
    seq(|ps|, k requires 0 <= k < |ps| => GM.Entry(ps[k].0, ps[k].1))
  }

  /** A clean, tab-free pair's TSV line parses back to that pair. */
  lemma TsvLineParses(p: Pair)
    requires CleanPair(p) && FreeOf(p, '\t')
    ensures GM.ParseTsvLine(TsvLine(p)) == Some(GM.Entry(p.0, p.1))
  {
    GM.CleanPairParses(p.0, p.1);
  }

  lemma TsvLinesParse(ps: seq<Pair>)
    requires forall k :: 0 <= k < |ps| ==> CleanPair(ps[k]) && FreeOf(ps[k], '\t')
    ensures GM.TsvEntries(TsvLines(ps), false) == AsEntries(ps)
  {
    var lines, es := TsvLines(ps), AsEntries(ps);
    forall k | 0 <= k < |lines|
      ensures GM.ParseTsvLine(lines[k]) == Some(es[k])
    {
      TsvLineParses(ps[k]);
    }
    GM.TsvEntriesAllParse(lines, es);
  }

  /** For pairs without tabs or newlines, the DeepL text read back by the glossary
      details parser gives exactly the pairs the database formatter keeps, in the
      same order. */
  lemma {:induction false} FormattersAgree(terms: seq<Pair>)
    requires forall m :: 0 <= m < |terms| ==> FreeOf(terms[m], '\t') && FreeOf(terms[m], '\n')
    ensures GM.TsvEntries(Split(DeeplText(terms, "tsv"), '\n'), false) == AsEntries(KeptPairs(terms))
  {
    var kept := KeptPairs(terms);
    KeptPairsClean(terms);
    KeptPairsFreeOf(terms, '\t');
    KeptPairsFreeOf(terms, '\n');
    TsvLinesParse(kept);
    var lines := TsvLines(kept);
    if kept == [] {
      assert Strip([]) == [];
      assert GM.ParseTsvLine([]) == None;
    } else {
      assert forall k :: 0 <= k < |lines| ==> '\n' !in lines[k];
      JoinSplit(lines, '\n');
    }
  }

  /** The pairs with their halves exchanged, in the same order. */
  function Swapped(terms: seq<Pair>): (r: seq<Pair>)
    ensures |r| == |terms| && forall k :: 0 <= k < |terms| ==> r[k] == (terms[k].1, terms[k].0)
  {
    seq(|terms|, k requires 0 <= k < |terms| => (terms[k].1, terms[k].0))
  }

  /** The key of a language direction, "s-t". */
  function PairKey(s: string, t: string): string {
    s + "-" + t
  }

  /** create_bidirectional_terms: the pairs under "s-t" and their swapped copy under
      "t-s"; when the two keys coincide, the swapped copy, written second, wins. */
  function BidirectionalTerms(terms: seq<Pair>, s: string, t: string): (r: map<string, seq<Pair>>)
    ensures r.Keys == {PairKey(s, t), PairKey(t, s)}
    ensures r[PairKey(t, s)] == Swapped(terms)
    ensures PairKey(s, t) != PairKey(t, s) ==> r[PairKey(s, t)] == terms
  {
    map[PairKey(s, t) := terms, PairKey(t, s) := Swapped(terms)]
  }

  /** The map is symmetric: built from the swapped pairs in the other direction, it
      is the same map. */
  lemma BidirectionalOfReverse(terms: seq<Pair>, s: string, t: string)
    requires PairKey(s, t) != PairKey(t, s)
    ensures BidirectionalTerms(Swapped(terms), t, s) == BidirectionalTerms(terms, s, t)
  {
    assert Swapped(Swapped(terms)) == terms;
  }

  /** For codes without a hyphen the two keys coincide exactly when the two
      languages are the same. */
  lemma PairKeysCollide(s: string, t: string)
    requires '-' !in s && '-' !in t
    ensures PairKey(s, t) == PairKey(t, s) <==> s == t
  {
    var a, b := PairKey(s, t), PairKey(t, s);
    if a == b {
      assert a[|s|] == '-' && b[|t|] == '-';
      assert forall k :: 0 <= k < |s| ==> a[k] == s[k];
      assert forall k :: 0 <= k < |t| ==> b[k] == t[k];
      assert |s| == |t|;
      assert s == a[..|s|] && t == b[..|t|];
    }
  }

  /** For the same language on both sides only the swapped list survives. */
  lemma BidirectionalSameLanguage(terms: seq<Pair>, s: string)
    ensures BidirectionalTerms(terms, s, s) == map[PairKey(s, s) := Swapped(terms)]
  {
  }

  /** _sanitize_term_pair: tabs become spaces and both halves are stripped. (The
      punctuation clean-up that follows rebinds a loop variable only and changes
      nothing.) */
  function SanitizeTermPair(source: string, target: string): (r: Pair)
    ensures '\t' !in r.0 && '\t' !in r.1
    ensures Strip(r.0) == r.0 && Strip(r.1) == r.1
  {
    var s, t := ReplaceChar(source, '\t', ' '), ReplaceChar(target, '\t', ' ');
    StripNoNewChars(s, '\t');
    StripNoNewChars(t, '\t');
    StripIdempotent(s);
    StripIdempotent(t);
    (Strip(s), Strip(t))
  }

  /** Sanitising is idempotent. */
  lemma SanitizeIdempotent(source: string, target: string)
    ensures var r := SanitizeTermPair(source, target); SanitizeTermPair(r.0, r.1) == r
  {
    var r := SanitizeTermPair(source, target);
    assert ReplaceChar(r.0, '\t', ' ') == r.0;
    assert ReplaceChar(r.1, '\t', ' ') == r.1;
  }

  /** A half becomes empty exactly when it was blank: a tab turned into a space is
      still white space. */
  lemma SanitizeEmptyIffBlank(source: string, target: string)
    ensures SanitizeTermPair(source, target).0 == [] <==> Blank(source)
    ensures SanitizeTermPair(source, target).1 == [] <==> Blank(target)
  {
    var s, t := ReplaceChar(source, '\t', ' '), ReplaceChar(target, '\t', ' ');
    StripEmptyIffBlank(s);
    StripEmptyIffBlank(t);
    assert Blank(s) <==> Blank(source);
    assert Blank(t) <==> Blank(target);
  }

  // ---------------------------------------------------------------------------
  // The input guard of the multilingual translator

  /** A character of the "symbols only" class: white space, ASCII punctuation and
      the CJK punctuation marks the guard lists. */
  predicate IsSymbolChar(c: char) {
    IsSpace(c) || IsAsciiPunctuation(c) || c in CjkPunctuation
  }

  /** The guard's ASCII list names all 32 ASCII punctuation marks, the four runs
      between the space, the digits, the capitals, the small letters and DEL. */
  predicate IsAsciiPunctuation(c: char) {
    ('!' <= c <= '/') || (':' <= c <= '@') || ('[' <= c <= '`') || ('{' <= c <= '~')
  }

  /** The full-width and CJK punctuation marks of the guard. */
  const CjkPunctuation: set<char> :=
    {'，', '。', '！', '？', '、', '；', '：', '《', '》', '【', '】', '（', '）', '…', '—'}

  /** A character of the emoji block U+1F300 to U+1F9FF. */
  predicate IsEmojiChar(c: char) {
    '\U{1F300}' <= c <= '\U{1F9FF}'
  }

  /** A character the guard counts as text: ASCII letters and digits, CJK
      ideographs, Latin-1 and Latin Extended, Arabic and Devanagari. */
  predicate IsValidChar(c: char) {
    ('a' <= c <= 'z') || ('A' <= c <= 'Z') || ('0' <= c <= '9') || ('\U{4E00}' <= c <= '\U{9FFF}')
    || ('\U{80}' <= c <= '\U{24F}') || ('\U{600}' <= c <= '\U{6FF}') || ('\U{900}' <= c <= '\U{97F}')
  }

  /** _is_valid_input: after stripping, the text is non-empty, is not made of
      symbols only, does not begin with an emoji and holds a text character
      somewhere. */
  predicate IsValidInput(text: string) {
    var t := Strip(text);
    t != []
    && !(forall k :: 0 <= k < |t| ==> IsSymbolChar(t[k]))
    && !IsEmojiChar(t[0])
    && exists k :: 0 <= k < |t| && IsValidChar(t[k])
  }

  /** The guard looks only at the stripped text. */
  lemma ValidInputStripInvariant(text: string)
    ensures IsValidInput(Strip(text)) == IsValidInput(text)
  {
    StripIdempotent(text);
  }

  /** Blank text is refused. */
  lemma BlankInputRejected(text: string)
    requires Blank(text)
    ensures !IsValidInput(text)
  {
    StripEmptyIffBlank(text);
  }

  /** Accepted text holds a text character and a character outside the symbol
      class, both taken from the text itself. */
  lemma ValidInputNeeds(text: string)
    requires IsValidInput(text)
    ensures exists c :: c in text && IsValidChar(c)
    ensures exists c :: c in text && !IsSymbolChar(c)
  {
    var t := Strip(text);
    var i :| 0 <= i < |t| && IsValidChar(t[i]);
    var j :| 0 <= j < |t| && !IsSymbolChar(t[j]);
    StripChars(text, i);
    StripChars(text, j);
  }

  /** A letter, digit or ideograph that is not white space lets the text through,
      unless the text begins with an emoji. */
  lemma ValidCharAccepted(text: string, k: int)
    requires 0 <= k < |Strip(text)| && IsValidChar(Strip(text)[k]) && !IsSpace(Strip(text)[k])
    requires !IsEmojiChar(Strip(text)[0])
    ensures IsValidInput(text)
  {
    var c := Strip(text)[k];
    assert !IsSymbolChar(c);
  }

  // ---------------------------------------------------------------------------
  // The reply parser of the multilingual translator

  /** The parsed translations; detected_language is always "auto". */
  datatype Translations = Translations(english: string, chinese: string, indonesian: string, detectedLanguage: string)

  const EnglishTag: string := "- English translation:"
  const ChineseTag: string := "- Chinese translation:"
  const IndonesianTag: string := "- Indonesian translation:"

  /** The value the last stripped line starting with tag carries: that line with
      every occurrence of tag removed, stripped; empty when no line has the tag. */
  function LastTagged(lines: seq<string>, tag: string): string
    requires tag != []
    decreases |lines|
  {
    if lines == [] then []
    else
      var line := Strip(lines[|lines| - 1]);
      if line != [] && StartsWith(line, tag) then Strip(ReplaceAll(line, tag, []))
      else LastTagged(lines[..|lines| - 1], tag)
  }

  /** What _parse_translations_only returns for a reply. */
  function TranslationsOf(response: string): Translations {
    var lines := Split(Strip(response), '\n');
    Translations(LastTagged(lines, EnglishTag), LastTagged(lines, ChineseTag),
                 LastTagged(lines, IndonesianTag), "auto")
  }

  /** No line starts with two of the tags, so the order of the tests does not
      matter. */
  lemma TagsExclusive(line: string)
    ensures !(StartsWith(line, EnglishTag) && StartsWith(line, ChineseTag))
    ensures !(StartsWith(line, EnglishTag) && StartsWith(line, IndonesianTag))
    ensures !(StartsWith(line, ChineseTag) && StartsWith(line, IndonesianTag))
  {
    assert EnglishTag[2] == 'E' && ChineseTag[2] == 'C' && IndonesianTag[2] == 'I';
    assert StartsWith(line, EnglishTag) ==> line[2] == EnglishTag[2];
    assert StartsWith(line, ChineseTag) ==> line[2] == ChineseTag[2];
    assert StartsWith(line, IndonesianTag) ==> line[2] == IndonesianTag[2];
  }

  /** _parse_translations_only: one pass over the stripped lines, each tagged line
      overwriting the value for its tag. */
  method ParseTranslationsOnly(response: string) returns (r: Translations)
    ensures r == TranslationsOf(response)
  {
    var lines := Split(Strip(response), '\n');
    r := Translations([], [], [], "auto");
    var i := 0;
    while i < |lines|
      invariant 0 <= i <= |lines|
      invariant r == Translations(LastTagged(lines[..i], EnglishTag), LastTagged(lines[..i], ChineseTag),
                                  LastTagged(lines[..i], IndonesianTag), "auto")
    {
      var line := Strip(lines[i]);
      var pre := lines[..i + 1];
      assert pre[..i] == lines[..i] && pre[i] == lines[i];
      TagsExclusive(line);
      if line != [] {
        if StartsWith(line, EnglishTag) {
          r := r.(english := Strip(ReplaceAll(line, EnglishTag, [])));
        } else if StartsWith(line, ChineseTag) {
          r := r.(chinese := Strip(ReplaceAll(line, ChineseTag, [])));
        } else if StartsWith(line, IndonesianTag) {
          r := r.(indonesian := Strip(ReplaceAll(line, IndonesianTag, [])));
        }
      }
      i := i + 1;
    }
    assert lines[..i] == lines;
  }

  /** The value for a tag comes from the last line carrying it: later lines
      without the tag leave it alone. */
  lemma {:induction false} LastTaggedFrom(lines: seq<string>, tag: string, k: int)
    requires tag != [] && 0 <= k < |lines|
    requires StartsWith(Strip(lines[k]), tag)
    requires forall m :: k < m < |lines| ==> !StartsWith(Strip(lines[m]), tag)
    ensures LastTagged(lines, tag) == Strip(ReplaceAll(Strip(lines[k]), tag, []))
    decreases |lines|
  {
    var init := lines[..|lines| - 1];
    if k < |lines| - 1 {
      assert forall m :: k < m < |init| ==> init[m] == lines[m];
      LastTaggedFrom(init, tag, k);
    }
  }

  /** With no line carrying the tag its value stays empty, which the parser only
      logs as a missing translation. */
  lemma {:induction false} LastTaggedNone(lines: seq<string>, tag: string)
    requires tag != []
    requires forall m :: 0 <= m < |lines| ==> !StartsWith(Strip(lines[m]), tag)
    ensures LastTagged(lines, tag) == []
    decreases |lines|
  {
    if lines != [] {
      var init := lines[..|lines| - 1];
      assert forall m :: 0 <= m < |init| ==> init[m] == lines[m];
      LastTaggedNone(init, tag);
    }
  }

  // ---------------------------------------------------------------------------
  // get_language_name

  /** The display name of a supported code, matched without regard to ASCII case;
      any other code is returned unchanged. */
  function LanguageName(code: string): (name: string)
    ensures Lower(code) !in {"zh", "en", "id", "ja"} ==> name == code
  {
    var c := Lower(code);
    if c == "zh" then "Chinese" else if c == "en" then "English"
    else if c == "id" then "Indonesian" else if c == "ja" then "Japanese" else code
  }

  /** Codes differing only in ASCII case have the same supported name. */
  lemma LanguageNameCaseInsensitive(a: string, b: string)
    requires Lower(a) == Lower(b) && Lower(a) in {"zh", "en", "id", "ja"}
    ensures LanguageName(a) == LanguageName(b)
  {
  }

  // ---------------------------------------------------------------------------
  // _extract_ai_terms: reading term pairs out of the model's reply

  /** Lines the cleaner drops outright: format notes, remarks, headers and
      bullets. */
  predicate SkippedLine(line: string) {
    StartsWith(line, "FORMAT:") || StartsWith(line, "Note:") || StartsWith(line, "RESPONSE")
    || StartsWith(line, "-")
  }

  /** Lines the cleaner keeps: not skipped, and holding a tab or longer than one
      character and not a heading. */
  predicate KeptLine(line: string) {
    !SkippedLine(line) && ('\t' in line || (|line| > 1 && !StartsWith(line, "#")))
  }

  /** The kept lines, in order. */
  function CleanedLines(lines: seq<string>): seq<string>
    decreases |lines|
  {
    if lines == [] then []
    else
      var init, last := lines[..|lines| - 1], lines[|lines| - 1];
      CleanedLines(init) + (if KeptLine(last) then [last] else [])
  }

  /** The cleaner keeps exactly the lines that pass its test. */
  lemma {:induction false} CleanedLinesMembers(lines: seq<string>, x: string)
    ensures x in CleanedLines(lines) <==> x in lines && KeptLine(x)
    decreases |lines|
  {
    if lines != [] {
      var init := lines[..|lines| - 1];
      CleanedLinesMembers(init, x);
      assert lines == init + [lines[|lines| - 1]];
    }
  }

  /** The cleaning loop of _extract_ai_terms. */
  method CleanLines(lines: seq<string>) returns (cleaned: seq<string>)
    ensures cleaned == CleanedLines(lines)
  {
    cleaned := [];
    var i := 0;
    while i < |lines|
      invariant 0 <= i <= |lines|
      invariant cleaned == CleanedLines(lines[..i])
    {
      var pre := lines[..i + 1];
      assert pre[..i] == lines[..i] && pre[i] == lines[i];
      var line := lines[i];
      if !(StartsWith(line, "FORMAT:") || StartsWith(line, "Note:") || StartsWith(line, "RESPONSE")
           || StartsWith(line, "-")) {
        if '\t' in line || (|line| > 1 && !StartsWith(line, "#")) {
          cleaned := cleaned + [line];
        }
      }
      i := i + 1;
    }
    assert lines[..i] == lines;
  }

  /** The three reply formats, tried in this order. */
  datatype TermFormat = TabSeparated | TabMarker | ColonSeparated

  /** `^([^\t]+)\t+([^\t]+)$` on a line: a tab-free head, one or more tabs, a
      tab-free tail; both halves stripped and non-empty. */
  function TabMatch(line: string): Option<Pair> {
    var parts := Split(line, '\t');
    if |parts| >= 2 && parts[0] != [] && parts[|parts| - 1] != []
       && (forall k :: 0 < k < |parts| - 1 ==> parts[k] == []) then
      var s, t := Strip(parts[0]), Strip(parts[|parts| - 1]);
      if '\t' !in s && '\t' !in t && s != [] && t != [] then Some((s, t)) else None
    else None
  }

  /** `^([^<]+)<TAB>(.+)$` on a line: a non-empty head up to the first `<`, the
      literal `<TAB>` there and a non-empty tail; both halves stripped and
      non-empty. */
  function MarkerMatch(line: string): Option<Pair> {
    var n := |TakeUntil(line, {'<'})|;
    if n > 0 && OccursAt(line, "<TAB>", n) && n + 5 < |line| then
      var s, t := Strip(line[..n]), Strip(line[n + 5..]);
      if s != [] && t != [] then Some((s, t)) else None
    else None
  }

  /** `^([^:：]+)[：:]\s*(.+)$` on a line: a non-empty head up to the first ASCII
      or full-width colon and a non-empty tail after it. The white space the
      pattern lets the tail skip is removed by the stripping anyway, so the
      target is the stripped tail; both halves must be non-empty and tab-free. */
  function ColonMatch(line: string): Option<Pair> {
    var n := |TakeUntil(line, {':', '：'})|;
    if 0 < n < |line| - 1 then
      var s, t := Strip(line[..n]), Strip(line[n + 1..]);
      if '\t' !in s && '\t' !in t && s != [] && t != [] then Some((s, t)) else None
    else None
  }

  /** The pair one reply line yields in a format: each pattern is matched against
      the stripped line, and the two fallback formats only look at lines holding
      their marker. */
  function LineTerm(line: string, f: TermFormat): Option<Pair> {
    match f
    case TabSeparated => TabMatch(Strip(line))
    case TabMarker => if Contains(line, "<TAB>") then MarkerMatch(Strip(line)) else None
    case ColonSeparated => if ':' in line || '：' in line then ColonMatch(Strip(line)) else None
  }

  /** A pair with two non-empty, stripped halves. */
  predicate StrippedPair(p: Pair) {
    p.0 != [] && p.1 != [] && Strip(p.0) == p.0 && Strip(p.1) == p.1
  }

  lemma TabMatchClean(l: string)
    requires TabMatch(l).Some?
    ensures StrippedPair(TabMatch(l).value)
  {
    var parts := Split(l, '\t');
    StripIdempotent(parts[0]);
    StripIdempotent(parts[|parts| - 1]);
  }

  lemma MarkerMatchClean(l: string)
    requires MarkerMatch(l).Some?
    ensures StrippedPair(MarkerMatch(l).value)
  {
    var n := |TakeUntil(l, {'<'})|;
    StripIdempotent(l[..n]);
    StripIdempotent(l[n + 5..]);
  }

  lemma ColonMatchClean(l: string)
    requires ColonMatch(l).Some?
    ensures StrippedPair(ColonMatch(l).value)
  {
    var n := |TakeUntil(l, {':', '：'})|;
    StripIdempotent(l[..n]);
    StripIdempotent(l[n + 1..]);
  }

  /** Every pair a line yields is stripped and has two non-empty halves. */
  lemma LineTermClean(line: string, f: TermFormat)
    requires LineTerm(line, f).Some?
    ensures StrippedPair(LineTerm(line, f).value)
  {
    match f
    case TabSeparated => TabMatchClean(Strip(line));
    case TabMarker => MarkerMatchClean(Strip(line));
    case ColonSeparated => ColonMatchClean(Strip(line));
  }

  /** What each line yields in a format. */
  function LineTerms(lines: seq<string>, f: TermFormat): (r: seq<Option<Pair>>)
    ensures |r| == |lines| && forall k :: 0 <= k < |lines| ==> r[k] == LineTerm(lines[k], f)
  {
    seq(|lines|, k requires 0 <= k < |lines| => LineTerm(lines[k], f))
  }

  /** The set of the pairs found, in the order a loop meets them. */
  function Gather(ms: seq<Option<Pair>>): set<Pair>
    decreases |ms|
  {
    if ms == [] then {}
    else
      var init, last := ms[..|ms| - 1], ms[|ms| - 1];
      Gather(init) + (match last case Some(p) => {p} case None => {})
  }

  /** The set of pairs the lines yield in a format. */
  function Collect(lines: seq<string>, f: TermFormat): set<Pair> {
    Gather(LineTerms(lines, f))
  }

  lemma {:induction false} GatherComplete(ms: seq<Option<Pair>>, k: int)
    requires 0 <= k < |ms| && ms[k].Some?
    ensures ms[k].value in Gather(ms)
    decreases |ms|
  {
    var init := ms[..|ms| - 1];
    if k < |init| {
      assert init[k] == ms[k];
      GatherComplete(init, k);
    }
  }

  lemma {:induction false} GatherSound(ms: seq<Option<Pair>>, p: Pair)
    requires p in Gather(ms)
    ensures exists k :: 0 <= k < |ms| && ms[k] == Some(p)
    decreases |ms|
  {
    var init := ms[..|ms| - 1];
    if p in Gather(init) {
      GatherSound(init, p);
      var k :| 0 <= k < |init| && init[k] == Some(p);
      assert ms[k] == init[k];
    } else {
      assert ms[|ms| - 1] == Some(p);
    }
  }

  lemma GatherSnoc(ms: seq<Option<Pair>>, i: int)
    requires 0 <= i < |ms|
    ensures Gather(ms[..i + 1]) == Gather(ms[..i]) + (if ms[i].Some? then {ms[i].value} else {})
  {
    var pre := ms[..i + 1];
    assert pre[..i] == ms[..i] && pre[i] == ms[i];
  }

  /** A pair is collected exactly when some line yields it. */
  lemma CollectMembers(lines: seq<string>, f: TermFormat, p: Pair)
    ensures p in Collect(lines, f) <==> exists k :: 0 <= k < |lines| && LineTerm(lines[k], f) == Some(p)
  {
    var ms := LineTerms(lines, f);
    if p in Collect(lines, f) {
      GatherSound(ms, p);
    }
    if exists k :: 0 <= k < |lines| && LineTerm(lines[k], f) == Some(p) {
      var k :| 0 <= k < |lines| && LineTerm(lines[k], f) == Some(p);
      GatherComplete(ms, k);
    }
  }

  /** One parsing loop: the pairs the lines matched, added to a set. */
  method CollectTerms(ms: seq<Option<Pair>>, terms: set<Pair>) returns (r: set<Pair>)
    ensures r == terms + Gather(ms)
  {
    r := terms;
    var i := 0;
    while i < |ms|
      invariant 0 <= i <= |ms|
      invariant r == terms + Gather(ms[..i])
    {
      GatherSnoc(ms, i);
      if ms[i].Some? {
        r := r + {ms[i].value};
      }
      i := i + 1;
    }
    assert ms[..i] == ms;
  }

  /** The pairs whose halves fit the database columns of 1024 UTF-8 bytes. */
  function FitTerms(terms: set<Pair>): set<Pair> {
    set p | p in terms && Utf8Len(p.0) <= GM.MaxTermBytes && Utf8Len(p.1) <= GM.MaxTermBytes
  }

  /** The final length filter, one pair at a time. */
  method FilterFit(terms: set<Pair>) returns (r: set<Pair>)
    ensures r == FitTerms(terms)
  {
    r := {};
    var rest := terms;
    while rest != {}
      invariant rest <= terms
      invariant r == FitTerms(terms - rest)
      decreases |rest|
    {
      var p :| p in rest;
      if Utf8Len(p.0) <= GM.MaxTermBytes && Utf8Len(p.1) <= GM.MaxTermBytes {
        r := r + {p};
      }
      rest := rest - {p};
    }
    assert terms - rest == terms;
  }

  /** The lines the parsing loops read: the kept lines joined by newlines,
      stripped and split again. */
  function ReplyLines(response: string): seq<string> {
    Split(Strip(Join(CleanedLines(Split(Strip(response), '\n')), "\n")), '\n')
  }

  /** What _extract_ai_terms returns for a reply: the tab-separated pairs, then the
      `<TAB>` pairs while fewer than five were found, then the colon pairs while
      still fewer than five, keeping those that fit the columns. */
  function AiTerms(response: string): set<Pair> {
    var lines := ReplyLines(response);
    var t1 := Collect(lines, TabSeparated);
    var t2 := if |t1| < 5 then t1 + Collect(lines, TabMarker) else t1;
    var t3 := if |t2| < 5 then t2 + Collect(lines, ColonSeparated) else t2;
    FitTerms(t3)
  }

  /** _extract_ai_terms once the reply has arrived. */
  method ExtractAiTerms(response: string) returns (terms: set<Pair>)
    ensures terms == AiTerms(response)
  {
    var cleaned := CleanLines(Split(Strip(response), '\n'));
    var lines := Split(Strip(Join(cleaned, "\n")), '\n');
    var found := CollectTerms(LineTerms(lines, TabSeparated), {});
    if |found| < 5 {
      found := CollectTerms(LineTerms(lines, TabMarker), found);
    }
    if |found| < 5 {
      found := CollectTerms(LineTerms(lines, ColonSeparated), found);
    }
    terms := FilterFit(found);
  }

  /** Every extracted pair is clean: stripped, non-empty and at most 1024 bytes on
      each side. */
  lemma AiTermsClean(response: string, p: Pair)
    requires p in AiTerms(response)
    ensures CleanPair(p)
  {
    var lines := ReplyLines(response);
    var f :| f in {TabSeparated, TabMarker, ColonSeparated} && p in Collect(lines, f);
    CollectMembers(lines, f, p);
    var k :| 0 <= k < |lines| && LineTerm(lines[k], f) == Some(p);
    LineTermClean(lines[k], f);
  }

  /** The database formatter keeps every extracted pair as it is, whatever order
      the set is listed in. */
  lemma ExtractedTermsKept(response: string, ps: seq<Pair>)
    requires forall k :: 0 <= k < |ps| ==> ps[k] in AiTerms(response)
    ensures KeptPairs(ps) == ps
  {
    forall k | 0 <= k < |ps| ensures CleanPair(ps[k]) {
      AiTermsClean(response, ps[k]);
    }
    KeptPairsOfClean(ps);
  }

  /** Once the tab-separated lines give five pairs, the fallback formats are not
      consulted. */
  lemma TabTermsSuffice(response: string)
    requires |Collect(ReplyLines(response), TabSeparated)| >= 5
    ensures AiTerms(response) == FitTerms(Collect(ReplyLines(response), TabSeparated))
  {
  }

  /** A clean pair written as a TSV line is read back by the tab format. */
  lemma TabLineRead(p: Pair)
    requires CleanPair(p) && FreeOf(p, '\t')
    ensures LineTerm(TsvLine(p), TabSeparated) == Some(p)
  {
    UnpaddedJoin(p.0, "\t", p.1);
    TabMatchOf(p.0, p.1);
  }

  lemma TabMatchOf(s: string, t: string)
    requires s != [] && t != [] && Strip(s) == s && Strip(t) == t && '\t' !in s && '\t' !in t
    ensures TabMatch(s + "\t" + t) == Some((s, t))
  {
    assert s + "\t" + t == Join([s, t], "\t");
    JoinSplit([s, t], '\t');
  }

  /** A clean pair written as `source<TAB>target` is read back by the marker
      format when the source holds no `<`. */
  lemma MarkerLineRead(p: Pair)
    requires CleanPair(p) && '<' !in p.0
    ensures LineTerm(p.0 + "<TAB>" + p.1, TabMarker) == Some(p)
  {
    var line := p.0 + "<TAB>" + p.1;
    UnpaddedJoin(p.0, "<TAB>", p.1);
    assert OccursAt(line, "<TAB>", |p.0|);
    MarkerMatchOf(p.0, p.1);
  }

  lemma MarkerMatchOf(s: string, t: string)
    requires s != [] && t != [] && Strip(s) == s && Strip(t) == t && '<' !in s
    ensures MarkerMatch(s + "<TAB>" + t) == Some((s, t))
  {
    var line := s + "<TAB>" + t;
    assert line == s + ("<TAB>" + t);
    TakeUntilOf(s, "<TAB>" + t, {'<'});
    assert line[..|s|] == s && line[|s| + 5..] == t;
    assert OccursAt(line, "<TAB>", |s|);
  }

  /** A line made of a stripped head and tail around a middle is already
      stripped. */
  lemma UnpaddedJoin(s: string, mid: string, t: string)
    requires s != [] && t != [] && Strip(s) == s && Strip(t) == t
    ensures Strip(s + mid + t) == s + mid + t
  {
    StrippedEnds(s);
    StrippedEnds(t);
    var line := s + mid + t;
    assert line[0] == s[0] && line[|line| - 1] == t[|t| - 1];
    StripUnpadded(line);
  }

  /** A clean, tab-free pair written as `source: target` is read back by the colon
      format when the source holds no colon. */
  lemma ColonLineRead(p: Pair)
    requires CleanPair(p) && FreeOf(p, '\t') && ':' !in p.0 && '：' !in p.0
    ensures LineTerm(p.0 + ": " + p.1, ColonSeparated) == Some(p)
  {
    var line := p.0 + ": " + p.1;
    UnpaddedJoin(p.0, ": ", p.1);
    assert line[|p.0|] == ':';
    ColonMatchOf(p.0, p.1);
  }

  lemma ColonMatchOf(s: string, t: string)
    requires s != [] && t != [] && Strip(s) == s && Strip(t) == t
    requires ':' !in s && '：' !in s && '\t' !in s && '\t' !in t
    ensures ColonMatch(s + ": " + t) == Some((s, t))
  {
    var line := s + ": " + t;
    assert line == s + (": " + t);
    TakeUntilOf(s, ": " + t, {':', '：'});
    assert line[..|s|] == s && line[|s| + 1..] == [' '] + t;
    StripSpaceBefore(' ', t);
  }
}
