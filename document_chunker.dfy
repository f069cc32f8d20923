/** The document chunker: it cuts a text into sentences, packs the sentences
    into chunks of bounded size that overlap by a few sentences, and merges the
    term lists found in the chunks. */
module DocumentChunker {
  import opened Text

  // ---------------------------------------------------------------------------
  // split_by_sentences

  /** The sentence marks the splitter cuts after. */
  const SentenceMarks: set<char> := {'.', '。', '!', '！', '?', '？'}

  /** `^\s*[-*•]\s` on a paragraph: after the leading white space comes a bullet
      and then a white-space character. */
  predicate IsListParagraph(p: string) {
    var n := LeadingSpaces(p);
    n + 1 < |p| && p[n] in {'-', '*', '•'} && IsSpace(p[n + 1])
  }

  /** `re.split(r'([.。!！?？])\s*', p)`: the text before the first mark, the mark
      itself as an element of its own, and the split of what follows once the
      white space after the mark is dropped. */
  function SentencePieces(p: string): (r: seq<string>)
    ensures |r| >= 1
    decreases |p|
  {
    var head := TakeUntil(p, SentenceMarks);
    if |head| == |p| then [p]
    else [head, [p[|head|]]] + SentencePieces(TrimStart(p[|head| + 1..]))
  }

  /** The stripped, non-blank pieces, in order. */
  function KeptPieces(pieces: seq<string>): seq<string>
    decreases |pieces|
  {
    if pieces == [] then []
    else
      var init, last := pieces[..|pieces| - 1], pieces[|pieces| - 1];
      KeptPieces(init) + (if Strip(last) != [] then [Strip(last)] else [])
  }

  /** The sentences one paragraph contributes: nothing for a blank paragraph, its
      raw lines for a list, its stripped non-blank pieces otherwise. */
  function ParagraphSentences(p: string): seq<string> {
    if Strip(p) == [] then []
    else if IsListParagraph(p) then Split(p, '\n')
    else KeptPieces(SentencePieces(p))
  }

  /** The sentences of a list of paragraphs, in order. */
  function SentencesOfParagraphs(ps: seq<string>): seq<string>
    decreases |ps|
  {
    if ps == [] then []
    else
      var init, last := ps[..|ps| - 1], ps[|ps| - 1];
      SentencesOfParagraphs(init) + ParagraphSentences(last)
  }

  /** What split_by_sentences returns: the sentences of the paragraphs between
      blank lines. */
  function Sentences(text: string): seq<string> {
    SentencesOfParagraphs(SplitOn(text, "\n\n"))
  }

  /** split_by_sentences, a loop over the paragraphs and one over the pieces of
      each prose paragraph. */
  method SplitBySentences(text: string) returns (sentences: seq<string>)
    ensures sentences == Sentences(text)
  {
    var paragraphs := SplitOn(text, "\n\n");
    sentences := [];
    var i := 0;
    while i < |paragraphs|
      invariant 0 <= i <= |paragraphs|
      invariant sentences == SentencesOfParagraphs(paragraphs[..i])
    {
      var p := paragraphs[i];
      SentencesOfPrefix(paragraphs, i);
      if Strip(p) == [] {
      } else if IsListParagraph(p) {
        sentences := sentences + Split(p, '\n');
      } else {
        var kept := KeepPieces(SentencePieces(p));
        sentences := sentences + kept;
      }
      i := i + 1;
    }
    assert paragraphs[..i] == paragraphs;
  }

  /** The loop over the pieces of one prose paragraph. */
  method KeepPieces(pieces: seq<string>) returns (kept: seq<string>)
    ensures kept == KeptPieces(pieces)
  {
    kept := [];
    var j := 0;
    while j < |pieces|
      invariant 0 <= j <= |pieces|
      invariant kept == KeptPieces(pieces[..j])
    {
      var piece := pieces[j];
      KeptOfPrefix(pieces, j);
      if Strip(piece) != [] {
        kept := kept + [Strip(piece)];
      }
      j := j + 1;
    }
    assert pieces[..j] == pieces;
  }

  /** One more paragraph adds its own sentences. */
  lemma SentencesOfPrefix(ps: seq<string>, i: nat)
    requires i < |ps|
    ensures SentencesOfParagraphs(ps[..i + 1]) == SentencesOfParagraphs(ps[..i]) + ParagraphSentences(ps[i])
  {
    var pre := ps[..i + 1];
    assert pre[..i] == ps[..i] && pre[i] == ps[i];
  }

  /** One more piece adds itself, stripped, unless it is blank. */
  lemma KeptOfPrefix(pieces: seq<string>, j: nat)
    requires j < |pieces|
    ensures KeptPieces(pieces[..j + 1])
      == KeptPieces(pieces[..j]) + (if Strip(pieces[j]) != [] then [Strip(pieces[j])] else [])
  {
    var upto := pieces[..j + 1];
    assert upto[..j] == pieces[..j] && upto[j] == pieces[j];
  }

  /** A piece holds no sentence mark, unless it is a single mark. */
  predicate MarkFree(s: string) {
    forall k :: 0 <= k < |s| ==> s[k] !in SentenceMarks
  }

  predicate SingleMark(s: string) {
    |s| == 1 && s[0] in SentenceMarks
  }

  lemma {:induction false} PiecesShape(p: string)
    ensures forall k :: 0 <= k < |SentencePieces(p)| ==>
      MarkFree(SentencePieces(p)[k]) || SingleMark(SentencePieces(p)[k])
    decreases |p|
  {
    var head := TakeUntil(p, SentenceMarks);
    if |head| < |p| {
      PiecesShape(TrimStart(p[|head| + 1..]));
    }
  }

  lemma {:induction false} KeptPiecesShape(pieces: seq<string>)
    requires forall k :: 0 <= k < |pieces| ==> MarkFree(pieces[k]) || SingleMark(pieces[k])
    ensures forall k :: 0 <= k < |KeptPieces(pieces)| ==>
      var s := KeptPieces(pieces)[k];
      s != [] && Strip(s) == s && (MarkFree(s) || SingleMark(s))
    decreases |pieces|
  {
    if pieces != [] {
      var init, last := pieces[..|pieces| - 1], pieces[|pieces| - 1];
      assert forall k :: 0 <= k < |init| ==> init[k] == pieces[k];
      KeptPiecesShape(init);
      if Strip(last) != [] {
        StripIdempotent(last);
        forall c | c in SentenceMarks && c !in last ensures c !in Strip(last) {
          StripNoNewChars(last, c);
        }
        if SingleMark(last) {
          StripUnpadded(last);
        }
      }
    }
  }

  /** A prose paragraph yields stripped, non-empty sentences, and every sentence
      mark is a sentence of its own: no other sentence holds one. */
  lemma ProseSentencesShape(p: string)
    requires Strip(p) != [] && !IsListParagraph(p)
    ensures forall k :: 0 <= k < |ParagraphSentences(p)| ==>
      var s := ParagraphSentences(p)[k];
      s != [] && Strip(s) == s && (MarkFree(s) || SingleMark(s))
  {
    PiecesShape(p);
    KeptPiecesShape(SentencePieces(p));
  }

  /** A prose paragraph without marks is one sentence, stripped. */
  lemma NoMarkParagraph(p: string)
    requires Strip(p) != [] && !IsListParagraph(p) && MarkFree(p)
    ensures ParagraphSentences(p) == [Strip(p)]
  {
    TakeUntilAll(p, SentenceMarks);
    assert SentencePieces(p) == [p];
    assert [p][..0] == [];
    assert KeptPieces([p]) == KeptPieces([]) + [Strip(p)];
  }

  /** A list paragraph is kept line by line, unstripped: joining the lines gives
      the paragraph back. */
  lemma ListParagraphLines(p: string)
    requires IsListParagraph(p)
    ensures Join(ParagraphSentences(p), "\n") == p
  {
    StripEmptyIffBlank(p);
    var n := LeadingSpaces(p);
    assert !IsSpace(p[n]);
    SplitJoin(p, '\n');
  }

  /** Blank paragraphs contribute nothing. */
  lemma BlankParagraphSkipped(ps: seq<string>, p: string)
    requires Blank(p)
    ensures SentencesOfParagraphs(ps + [p]) == SentencesOfParagraphs(ps)
  {
    StripEmptyIffBlank(p);
    assert (ps + [p])[..|ps|] == ps;
  }

  // ---------------------------------------------------------------------------
  // create_chunks

  /** The chunker's default size limit, in characters. */
  const DefaultMaxChunkSize: nat := 30000

  /** The default number of sentences carried over from one chunk to the next. */
  const DefaultOverlap: int := 2

  /** A chunk before it is rendered: a run of sentences, flagged when it was cut
      off because the next sentence did not fit, or one slice of a sentence too
      long for any chunk. */
  datatype Chunk = Joined(sentences: seq<string>, overflow: bool) | Cut(text: string)

  /** The text of a chunk: its sentences joined by single spaces. */
  function ChunkText(c: Chunk): string {
    match c
    case Joined(ss, _) => Join(ss, " ")
    case Cut(s) => s
  }

  function Texts(cs: seq<Chunk>): (r: seq<string>)
    ensures |r| == |cs| && forall k :: 0 <= k < |cs| ==> r[k] == ChunkText(cs[k])
  {
    seq(|cs|, k requires 0 <= k < |cs| => ChunkText(cs[k]))
  }

  /** The total length of some sentences, separators not counted. */
  function SumLen(ss: seq<string>): nat
    decreases |ss|
  {
    if ss == [] then 0 else SumLen(ss[..|ss| - 1]) + |ss[|ss| - 1]|
  }

  /** `[s[j:j + size] for j in range(0, len(s), size)]`. */
  function Slices(s: string, size: nat): seq<string>
    requires size > 0
    decreases |s|
  {
    if s == [] then [] else if |s| <= size then [s] else [s[..size]] + Slices(s[size..], size)
  }

  /** `current[-overlap:] if overlap > 0 else []`: the last overlap sentences,
      or all of them when there are fewer. */
  function Retained(current: seq<string>, overlap: int): (r: seq<string>)
    ensures |r| <= |current| && r == current[|current| - |r|..]
    ensures overlap > 0 ==> |r| == if overlap < |current| then overlap else |current|
    ensures overlap <= 0 ==> r == []
  {
    if overlap <= 0 then [] else if overlap < |current| then current[|current| - overlap..] else current
  }

  /** The loop state of create_chunks: the chunks emitted, the sentences of the
      chunk being filled and its size. */
  datatype ChunkState = ChunkState(done: seq<Chunk>, current: seq<string>, size: int)

  function Cuts(slices: seq<string>): (r: seq<Chunk>)
    ensures |r| == |slices| && forall k :: 0 <= k < |slices| ==> r[k] == Cut(slices[k])
  {
    seq(|slices|, k requires 0 <= k < |slices| => Cut(slices[k]))
  }

  /** One iteration of the loop of create_chunks. A sentence longer than the
      limit flushes the chunk being filled and is emitted in slices; a sentence
      that would overflow the chunk flushes it and starts the next one with the
      retained sentences; then the sentence is added. */
  function Step(st: ChunkState, s: string, maxSize: nat, overlap: int): ChunkState
    requires maxSize > 0
  {
    if |s| > maxSize then
      var flushed := if st.current != [] then ChunkState(st.done + [Joined(st.current, false)], [], 0) else st;
      flushed.(done := flushed.done + Cuts(Slices(s, maxSize)))
    else
      var st1 :=
        if st.size + |s| > maxSize then
          var keep := Retained(st.current, overlap);
          ChunkState(st.done + [Joined(st.current, true)], keep, SumLen(keep))
        else st;
      ChunkState(st1.done, st1.current + [s], st1.size + |s|)
  }

  /** The loop state after the given sentences. */
  function Run(ss: seq<string>, maxSize: nat, overlap: int): ChunkState
    requires maxSize > 0
    decreases |ss|
  {
    if ss == [] then ChunkState([], [], 0)
    else Step(Run(ss[..|ss| - 1], maxSize, overlap), ss[|ss| - 1], maxSize, overlap)
  }

  /** The chunks of some sentences: what the loop emitted, then the last chunk
      when it holds anything. */
  function ChunksOf(ss: seq<string>, maxSize: nat, overlap: int): seq<Chunk>
    requires maxSize > 0
  {
    var st := Run(ss, maxSize, overlap);
    st.done + (if st.current != [] then [Joined(st.current, false)] else [])
  }

  /** create_chunks with the sentences already split: the loop over them. */
  method ChunkSentences(ss: seq<string>, maxSize: nat, overlap: int) returns (chunks: seq<string>)
    requires maxSize > 0
    ensures chunks == Texts(ChunksOf(ss, maxSize, overlap))
  {
    if ss == [] {
      return [];
    }
    chunks := [];
    var current: seq<string> := [];
    var size := 0;
    var i := 0;
    while i < |ss|
      invariant 0 <= i <= |ss|
      invariant Run(ss[..i], maxSize, overlap) == ChunkState(Run(ss[..i], maxSize, overlap).done, current, size)
      invariant chunks == Texts(Run(ss[..i], maxSize, overlap).done)
    {
      RunSnoc(ss, i, maxSize, overlap);
      chunks, current, size := AddSentence(Run(ss[..i], maxSize, overlap), chunks, current, size, ss[i], maxSize, overlap);
      i := i + 1;
    }
    assert ss[..i] == ss;
    if current != [] {
      TextsAppend(Run(ss, maxSize, overlap).done, [Joined(current, false)]);
      chunks := chunks + [Join(current, " ")];
    }
  }

  /** The body of the loop of create_chunks, on the rendered chunks. */
  method AddSentence(ghost st: ChunkState, chunks: seq<string>, current: seq<string>, size: int,
                     s: string, maxSize: nat, overlap: int)
    returns (chunks': seq<string>, current': seq<string>, size': int)
    requires maxSize > 0
    requires chunks == Texts(st.done) && current == st.current && size == st.size
    ensures var st' := Step(st, s, maxSize, overlap);
      chunks' == Texts(st'.done) && current' == st'.current && size' == st'.size
  {
    chunks', current', size' := chunks, current, size;
    if |s| > maxSize {
      ghost var flushed := st;
      if current' != [] {
        TextsAppend(st.done, [Joined(st.current, false)]);
        flushed := ChunkState(st.done + [Joined(st.current, false)], [], 0);
        chunks' := chunks' + [Join(current', " ")];
        current' := [];
        size' := 0;
      }
      TextsAppend(flushed.done, Cuts(Slices(s, maxSize)));
      chunks' := chunks' + Slices(s, maxSize);
    } else {
      if size' + |s| > maxSize {
        TextsAppend(st.done, [Joined(st.current, true)]);
        chunks' := chunks' + [Join(current', " ")];
        current' := Retained(current', overlap);
        size' := SumLen(current');
      }
      current' := current' + [s];
      size' := size' + |s|;
    }
  }

  lemma RunSnoc(ss: seq<string>, i: int, maxSize: nat, overlap: int)
    requires maxSize > 0 && 0 <= i < |ss|
    ensures Run(ss[..i + 1], maxSize, overlap) == Step(Run(ss[..i], maxSize, overlap), ss[i], maxSize, overlap)
  {
    var pre := ss[..i + 1];
    assert pre[..i] == ss[..i] && pre[i] == ss[i];
  }

  lemma TextsAppend(a: seq<Chunk>, b: seq<Chunk>)
    ensures Texts(a + b) == Texts(a) + Texts(b)
  {
  }

  /** create_chunks: the chunks of the sentences of the text; none for a text
      without sentences. */
  method CreateChunks(text: string, maxSize: nat, overlap: int) returns (chunks: seq<string>)
    requires maxSize > 0
    ensures chunks == Texts(ChunksOf(Sentences(text), maxSize, overlap))
    ensures Sentences(text) == [] ==> chunks == []
  {
    var ss := SplitBySentences(text);
    chunks := ChunkSentences(ss, maxSize, overlap);
  }

  // ---------------------------------------------------------------------------
  // What create_chunks promises

  /** The slices of a long sentence are non-empty, at most the limit long, and
      put together give the sentence back. */
  lemma {:induction false} SlicesShape(s: string, size: nat)
    requires size > 0
    ensures Join(Slices(s, size), []) == s
    ensures forall k :: 0 <= k < |Slices(s, size)| ==> 0 < |Slices(s, size)[k]| <= size
    decreases |s|
  {
    if |s| > size {
      var rest := s[size..];
      SlicesShape(rest, size);
      var sl := Slices(s, size);
      assert sl == [s[..size]] + Slices(rest, size);
      assert sl[1..] == Slices(rest, size);
      assert s == s[..size] + rest;
    }
  }

  /** The size the loop keeps is the total length of the current sentences. */
  lemma {:induction false} RunSize(ss: seq<string>, maxSize: nat, overlap: int)
    requires maxSize > 0
    ensures Run(ss, maxSize, overlap).size == SumLen(Run(ss, maxSize, overlap).current)
    decreases |ss|
  {
    if ss != [] {
      var st := Run(ss[..|ss| - 1], maxSize, overlap);
      RunSize(ss[..|ss| - 1], maxSize, overlap);
      var s := ss[|ss| - 1];
      StepSize(st, s, maxSize, overlap);
    }
  }

  lemma StepSize(st: ChunkState, s: string, maxSize: nat, overlap: int)
    requires maxSize > 0 && st.size == SumLen(st.current)
    ensures Step(st, s, maxSize, overlap).size == SumLen(Step(st, s, maxSize, overlap).current)
  {
    if |s| <= maxSize {
      SumLenSnoc(st.current, s);
      SumLenSnoc(Retained(st.current, overlap), s);
    }
  }

  lemma SumLenSnoc(ss: seq<string>, s: string)
    ensures SumLen(ss + [s]) == SumLen(ss) + |s|
  {
    assert (ss + [s])[..|ss|] == ss;
  }

  /** A sentence is in the chunk being filled or in an emitted run of sentences. */
  predicate Covered(st: ChunkState, x: string) {
    x in st.current || exists c :: c in st.done && c.Joined? && x in c.sentences
  }

  lemma StepKeepsCovered(st: ChunkState, s: string, maxSize: nat, overlap: int, x: string)
    requires maxSize > 0 && Covered(st, x)
    ensures Covered(Step(st, s, maxSize, overlap), x)
  {
    var st' := Step(st, s, maxSize, overlap);
    assert st.done <= st'.done;
    if x in st.current {
      if |s| > maxSize || st.size + |s| > maxSize {
        assert Joined(st.current, |s| <= maxSize) in st'.done;
      }
    } else {
      var c :| c in st.done && c.Joined? && x in c.sentences;
      assert c in st'.done;
    }
  }

  /** Every sentence within the limit that the loop has seen is covered. */
  lemma {:induction false} RunCovers(ss: seq<string>, k: int, maxSize: nat, overlap: int)
    requires maxSize > 0 && 0 <= k < |ss| && |ss[k]| <= maxSize
    ensures Covered(Run(ss, maxSize, overlap), ss[k])
    decreases |ss|
  {
    var init := ss[..|ss| - 1];
    if k < |init| {
      assert init[k] == ss[k];
      RunCovers(init, k, maxSize, overlap);
      StepKeepsCovered(Run(init, maxSize, overlap), ss[|ss| - 1], maxSize, overlap, ss[k]);
    }
  }

  /** Every sentence no longer than the limit lands, whole, in some chunk. */
  lemma ShortSentenceChunked(ss: seq<string>, k: int, maxSize: nat, overlap: int)
    requires maxSize > 0 && 0 <= k < |ss| && |ss[k]| <= maxSize
    ensures exists c :: c in ChunksOf(ss, maxSize, overlap) && c.Joined? && ss[k] in c.sentences
  {
    RunCovers(ss, k, maxSize, overlap);
    var st := Run(ss, maxSize, overlap);
    if ss[k] in st.current {
      assert Joined(st.current, false) in ChunksOf(ss, maxSize, overlap);
    } else {
      var c :| c in st.done && c.Joined? && ss[k] in c.sentences;
      assert c in ChunksOf(ss, maxSize, overlap);
    }
  }

  predicate IsPrefix(a: seq<string>, b: seq<string>) {
    |a| <= |b| && b[..|a|] == a
  }

  /** A chunk cut off by an overflowing sentence is followed by a run of
      sentences that begins with its last overlap sentences. */
  predicate OverlapKept(cs: seq<Chunk>, overlap: int) {
    forall j :: 0 <= j < |cs| - 1 && cs[j].Joined? && cs[j].overflow ==>
      cs[j + 1].Joined? && IsPrefix(Retained(cs[j].sentences, overlap), cs[j + 1].sentences)
  }

  /** The loop state keeps the overlap promise, and after an overflow the chunk
      being filled already begins with the retained sentences. */
  predicate OverlapInv(st: ChunkState, overlap: int) {
    OverlapKept(st.done, overlap)
    && (st.done != [] && st.done[|st.done| - 1].Joined? && st.done[|st.done| - 1].overflow ==>
          st.current != [] && IsPrefix(Retained(st.done[|st.done| - 1].sentences, overlap), st.current))
  }

  lemma OverlapKeptSnoc(cs: seq<Chunk>, c: Chunk, overlap: int)
    requires OverlapKept(cs, overlap)
    requires cs != [] && cs[|cs| - 1].Joined? && cs[|cs| - 1].overflow ==>
      c.Joined? && IsPrefix(Retained(cs[|cs| - 1].sentences, overlap), c.sentences)
    ensures OverlapKept(cs + [c], overlap)
  {
    var d := cs + [c];
    forall j | 0 <= j < |d| - 1 && d[j].Joined? && d[j].overflow
      ensures d[j + 1].Joined? && IsPrefix(Retained(d[j].sentences, overlap), d[j + 1].sentences)
    {
      assert d[j] == cs[j];
      if j + 1 < |cs| {
        assert d[j + 1] == cs[j + 1];
      }
    }
  }

  lemma OverlapKeptCuts(cs: seq<Chunk>, slices: seq<string>, overlap: int)
    requires OverlapKept(cs, overlap)
    requires cs != [] ==> !(cs[|cs| - 1].Joined? && cs[|cs| - 1].overflow)
    ensures OverlapKept(cs + Cuts(slices), overlap)
  {
    var d := cs + Cuts(slices);
    forall j | 0 <= j < |d| - 1 && d[j].Joined? && d[j].overflow
      ensures d[j + 1].Joined? && IsPrefix(Retained(d[j].sentences, overlap), d[j + 1].sentences)
    {
      assert j < |cs| && d[j] == cs[j];
      assert j + 1 < |cs|;
      assert d[j + 1] == cs[j + 1];
    }
  }

  lemma PrefixAppend(a: seq<string>, b: seq<string>, s: string)
    requires IsPrefix(a, b)
    ensures IsPrefix(a, b + [s])
  {
    assert (b + [s])[..|a|] == b[..|a|];
  }

  lemma StepOverlap(st: ChunkState, s: string, maxSize: nat, overlap: int)
    requires maxSize > 0 && OverlapInv(st, overlap)
    ensures OverlapInv(Step(st, s, maxSize, overlap), overlap)
  {
    if |s| > maxSize {
      StepOverlapLong(st, s, maxSize, overlap);
    } else if st.size + |s| > maxSize {
      StepOverlapFlush(st, s, maxSize, overlap);
    } else {
      StepOverlapFits(st, s, maxSize, overlap);
    }
  }

  lemma StepOverlapLong(st: ChunkState, s: string, maxSize: nat, overlap: int)
    requires maxSize > 0 && OverlapInv(st, overlap) && |s| > maxSize
    ensures OverlapInv(Step(st, s, maxSize, overlap), overlap)
  {
    var flushed := if st.current != [] then ChunkState(st.done + [Joined(st.current, false)], [], 0) else st;
    if st.current != [] {
      OverlapKeptSnoc(st.done, Joined(st.current, false), overlap);
    }
    var cuts := Cuts(Slices(s, maxSize));
    OverlapKeptCuts(flushed.done, Slices(s, maxSize), overlap);
    var d := flushed.done + cuts;
    assert cuts != [] && d[|d| - 1] == cuts[|cuts| - 1];
  }

  lemma StepOverlapFlush(st: ChunkState, s: string, maxSize: nat, overlap: int)
    requires maxSize > 0 && OverlapInv(st, overlap) && |s| <= maxSize && st.size + |s| > maxSize
    ensures OverlapInv(Step(st, s, maxSize, overlap), overlap)
  {
    OverlapKeptSnoc(st.done, Joined(st.current, true), overlap);
    var keep := Retained(st.current, overlap);
    assert (keep + [s])[..|keep|] == keep;
  }

  lemma StepOverlapFits(st: ChunkState, s: string, maxSize: nat, overlap: int)
    requires maxSize > 0 && OverlapInv(st, overlap) && |s| <= maxSize && st.size + |s| <= maxSize
    ensures OverlapInv(Step(st, s, maxSize, overlap), overlap)
  {
    if st.done != [] && st.done[|st.done| - 1].Joined? && st.done[|st.done| - 1].overflow {
      PrefixAppend(Retained(st.done[|st.done| - 1].sentences, overlap), st.current, s);
    }
  }

  lemma {:induction false} RunOverlap(ss: seq<string>, maxSize: nat, overlap: int)
    requires maxSize > 0
    ensures OverlapInv(Run(ss, maxSize, overlap), overlap)
    decreases |ss|
  {
    if ss != [] {
      RunOverlap(ss[..|ss| - 1], maxSize, overlap);
      StepOverlap(Run(ss[..|ss| - 1], maxSize, overlap), ss[|ss| - 1], maxSize, overlap);
    }
  }

  /** When a sentence does not fit, the chunk it would have overflowed is
      emitted and the next chunk starts with that chunk's last overlap
      sentences. */
  lemma ChunksOverlap(ss: seq<string>, maxSize: nat, overlap: int)
    requires maxSize > 0
    ensures OverlapKept(ChunksOf(ss, maxSize, overlap), overlap)
  {
    RunOverlap(ss, maxSize, overlap);
    var st := Run(ss, maxSize, overlap);
    if st.current != [] {
      OverlapKeptSnoc(st.done, Joined(st.current, false), overlap);
      assert ChunksOf(ss, maxSize, overlap) == st.done + [Joined(st.current, false)];
    } else {
      assert ChunksOf(ss, maxSize, overlap) == st.done;
    }
  }

  /** A chunk within the limit: a run of sentences whose lengths add up to at
      most the limit, or a slice at most the limit long. */
  predicate WithinLimit(c: Chunk, maxSize: nat) {
    match c
    case Joined(ss, _) => SumLen(ss) <= maxSize
    case Cut(s) => |s| <= maxSize
  }

  predicate BoundInv(st: ChunkState, maxSize: nat) {
    st.size == SumLen(st.current) && st.size <= maxSize
    && forall k :: 0 <= k < |st.done| ==> WithinLimit(st.done[k], maxSize)
  }

  lemma AllWithinAppend(a: seq<Chunk>, b: seq<Chunk>, maxSize: nat)
    requires forall k :: 0 <= k < |a| ==> WithinLimit(a[k], maxSize)
    requires forall k :: 0 <= k < |b| ==> WithinLimit(b[k], maxSize)
    ensures forall k :: 0 <= k < |a + b| ==> WithinLimit((a + b)[k], maxSize)
  {
    forall k | 0 <= k < |a + b| ensures WithinLimit((a + b)[k], maxSize) {
      if k < |a| {
        assert (a + b)[k] == a[k];
      } else {
        assert (a + b)[k] == b[k - |a|];
      }
    }
  }

  lemma StepBound(st: ChunkState, s: string, maxSize: nat, overlap: int)
    requires maxSize > 0 && overlap <= 0 && BoundInv(st, maxSize)
    ensures BoundInv(Step(st, s, maxSize, overlap), maxSize)
  {
    if |s| > maxSize {
      var flushed := if st.current != [] then ChunkState(st.done + [Joined(st.current, false)], [], 0) else st;
      if st.current != [] {
        AllWithinAppend(st.done, [Joined(st.current, false)], maxSize);
      }
      SlicesShape(s, maxSize);
      var cuts := Cuts(Slices(s, maxSize));
      assert forall k :: 0 <= k < |cuts| ==> WithinLimit(cuts[k], maxSize);
      AllWithinAppend(flushed.done, cuts, maxSize);
    } else {
      StepSize(st, s, maxSize, overlap);
      if st.size + |s| > maxSize {
        AllWithinAppend(st.done, [Joined(st.current, true)], maxSize);
        assert SumLen([s]) == |s| by { SumLenSnoc([], s); }
      }
    }
  }

  lemma {:induction false} RunBound(ss: seq<string>, maxSize: nat, overlap: int)
    requires maxSize > 0 && overlap <= 0
    ensures BoundInv(Run(ss, maxSize, overlap), maxSize)
    decreases |ss|
  {
    if ss != [] {
      RunBound(ss[..|ss| - 1], maxSize, overlap);
      StepBound(Run(ss[..|ss| - 1], maxSize, overlap), ss[|ss| - 1], maxSize, overlap);
    }
  }

  /** Without overlap every chunk stays within the limit: a run of sentences
      adds up to at most max_chunk_size characters (the joining spaces are not
      counted), and a slice is at most that long. */
  lemma NoOverlapWithinLimit(ss: seq<string>, maxSize: nat, overlap: int)
    requires maxSize > 0 && overlap <= 0
    ensures forall k :: 0 <= k < |ChunksOf(ss, maxSize, overlap)| ==> WithinLimit(ChunksOf(ss, maxSize, overlap)[k], maxSize)
  {
    RunBound(ss, maxSize, overlap);
    var st := Run(ss, maxSize, overlap);
    if st.current != [] {
      AllWithinAppend(st.done, [Joined(st.current, false)], maxSize);
    }
  }

  /** With overlap the retained sentences are not checked again: with a limit of
      2 and an overlap of 2, the sentences "a", "b", "cc" give a second chunk
      of total length 4. */
  lemma OverlapMayExceedLimit()
    ensures var cs := ChunksOf(["a", "b", "cc"], 2, 2);
      |cs| == 2 && cs[1] == Joined(["a", "b", "cc"], false) && !WithinLimit(cs[1], 2)
  {
    ExampleRun();
    ExampleLengths();
  }

  lemma ExampleLengths()
    ensures SumLen(["a", "b"]) == 2 && SumLen(["a", "b", "cc"]) == 4
  {
    var ab: seq<string> := ["a", "b"];
    assert [] + ["a"] == ["a"] && ["a"] + ["b"] == ab && ab + ["cc"] == ["a", "b", "cc"];
    SumLenSnoc([], "a");
    SumLenSnoc(["a"], "b");
    SumLenSnoc(ab, "cc");
  }

  /** The loop over "a", "b", "cc" with a limit and an overlap of 2: the third
      sentence does not fit, the chunk of the first two is emitted, and both
      are kept for the next chunk. */
  lemma ExampleRun()
    ensures Run(["a", "b", "cc"], 2, 2) == ChunkState([Joined(["a", "b"], true)], ["a", "b", "cc"], 4)
  {
    var ab: seq<string> := ["a", "b"];
    ExampleRunPrefix();
    ExampleLengths();
    assert ["a", "b", "cc"][..2] == ab;
    assert Retained(ab, 2) == ab;
    assert ab + ["cc"] == ["a", "b", "cc"];
  }

  lemma ExampleRunPrefix()
    ensures Run(["a", "b"], 2, 2) == ChunkState([], ["a", "b"], 2)
  {
    var s0, s1 := ChunkState([], [], 0), ChunkState([], ["a"], 1);
    assert ["a"][..0] == [];
    assert Run([], 2, 2) == s0;
    assert Step(s0, "a", 2, 2) == s1 by {
      assert [] + ["a"] == ["a"];
    }
    assert Run(["a"], 2, 2) == s1;
    assert ["a", "b"][..1] == ["a"];
    assert Step(s1, "b", 2, 2) == ChunkState([], ["a", "b"], 2) by {
      assert ["a"] + ["b"] == ["a", "b"];
    }
  }

  /** The pieces of text the chunks carry, in order: the sentences of each run
      and each slice. */
  function Pieces(cs: seq<Chunk>): seq<string>
    decreases |cs|
  {
    if cs == [] then []
    else
      var init, last := cs[..|cs| - 1], cs[|cs| - 1];
      Pieces(init) + (match last case Joined(ss, _) => ss case Cut(s) => [s])
  }

  /** The sentences with each long one replaced by its slices. */
  function Expand(ss: seq<string>, maxSize: nat): seq<string>
    requires maxSize > 0
    decreases |ss|
  {
    if ss == [] then []
    else
      var init, last := ss[..|ss| - 1], ss[|ss| - 1];
      Expand(init, maxSize) + (if |last| > maxSize then Slices(last, maxSize) else [last])
  }

  lemma {:induction false} PiecesAppend(a: seq<Chunk>, b: seq<Chunk>)
    ensures Pieces(a + b) == Pieces(a) + Pieces(b)
    decreases |b|
  {
    if b != [] {
      var b' := b[..|b| - 1];
      PiecesAppend(a, b');
      assert (a + b)[..|a + b| - 1] == a + b';
      assert (a + b)[|a + b| - 1] == b[|b| - 1];
    } else {
      assert a + b == a;
    }
  }

  lemma {:induction false} PiecesCuts(slices: seq<string>)
    ensures Pieces(Cuts(slices)) == slices
    decreases |slices|
  {
    if slices != [] {
      var init := slices[..|slices| - 1];
      PiecesCuts(init);
      assert Cuts(slices)[..|slices| - 1] == Cuts(init);
    }
  }

  lemma StepOrder(st: ChunkState, s: string, maxSize: nat, overlap: int)
    requires maxSize > 0 && overlap <= 0
    ensures var st' := Step(st, s, maxSize, overlap);
      Pieces(st'.done) + st'.current ==
        Pieces(st.done) + st.current + (if |s| > maxSize then Slices(s, maxSize) else [s])
  {
    if |s| > maxSize {
      var flushed := if st.current != [] then ChunkState(st.done + [Joined(st.current, false)], [], 0) else st;
      assert Pieces(flushed.done) + flushed.current == Pieces(st.done) + st.current by {
        if st.current != [] {
          assert (st.done + [Joined(st.current, false)])[..|st.done|] == st.done;
        }
      }
      PiecesAppend(flushed.done, Cuts(Slices(s, maxSize)));
      PiecesCuts(Slices(s, maxSize));
    } else if st.size + |s| > maxSize {
      assert (st.done + [Joined(st.current, true)])[..|st.done|] == st.done;
    }
  }

  lemma {:induction false} RunOrder(ss: seq<string>, maxSize: nat, overlap: int)
    requires maxSize > 0 && overlap <= 0
    ensures Pieces(Run(ss, maxSize, overlap).done) + Run(ss, maxSize, overlap).current == Expand(ss, maxSize)
    decreases |ss|
  {
    if ss != [] {
      RunOrder(ss[..|ss| - 1], maxSize, overlap);
      StepOrder(Run(ss[..|ss| - 1], maxSize, overlap), ss[|ss| - 1], maxSize, overlap);
    }
  }

  /** Without overlap the chunks carry every sentence exactly once and in input
      order, each long sentence as its consecutive slices. */
  lemma NoOverlapInOrder(ss: seq<string>, maxSize: nat, overlap: int)
    requires maxSize > 0 && overlap <= 0
    ensures Pieces(ChunksOf(ss, maxSize, overlap)) == Expand(ss, maxSize)
  {
    RunOrder(ss, maxSize, overlap);
    var st := Run(ss, maxSize, overlap);
    if st.current != [] {
      var cs := st.done + [Joined(st.current, false)];
      assert cs[..|st.done|] == st.done;
    } else {
      assert st.done + [] == st.done && Pieces(st.done) + [] == Pieces(st.done);
    }
  }

  /** How many sentences a chunk that follows `prev` carries over from the
      chunk before it: the retained sentences after an overflow, else none. */
  function Carried(prev: seq<Chunk>, overlap: int): nat {
    if prev != [] && prev[|prev| - 1].Joined? && prev[|prev| - 1].overflow
    then |Retained(prev[|prev| - 1].sentences, overlap)|
    else 0
  }

  /** The pieces a chunk adds after `prev`: a run of sentences without the
      sentences it carries over, or a slice. */
  function FreshOf(prev: seq<Chunk>, c: Chunk, overlap: int): seq<string> {
    match c
    case Joined(ss, _) => var k := Carried(prev, overlap); if k <= |ss| then ss[k..] else []
    case Cut(s) => [s]
  }

  /** The pieces the chunks add, in order, carried-over sentences not repeated. */
  function FreshPieces(cs: seq<Chunk>, overlap: int): seq<string>
    decreases |cs|
  {
    if cs == [] then []
    else FreshPieces(cs[..|cs| - 1], overlap) + FreshOf(cs[..|cs| - 1], cs[|cs| - 1], overlap)
  }

  lemma FreshPiecesSnoc(cs: seq<Chunk>, c: Chunk, overlap: int)
    ensures FreshPieces(cs + [c], overlap) == FreshPieces(cs, overlap) + FreshOf(cs, c, overlap)
  {
    assert (cs + [c])[..|cs|] == cs;
  }

  lemma CutsSnoc(cs: seq<Chunk>, init: seq<string>, last: string)
    ensures cs + Cuts(init + [last]) == (cs + Cuts(init)) + [Cut(last)]
  {
    assert Cuts(init + [last]) == Cuts(init) + [Cut(last)];
  }

  lemma FreshAfterCut(pre: seq<Chunk>, s: string, overlap: int)
    ensures FreshPieces(pre + [Cut(s)], overlap) == FreshPieces(pre, overlap) + [s]
  {
    FreshPiecesSnoc(pre, Cut(s), overlap);
  }

  lemma FreshCutsStep(cs: seq<Chunk>, init: seq<string>, last: string, overlap: int)
    requires FreshPieces(cs + Cuts(init), overlap) == FreshPieces(cs, overlap) + init
    ensures FreshPieces(cs + Cuts(init + [last]), overlap) == FreshPieces(cs, overlap) + (init + [last])
  {
    CutsSnoc(cs, init, last);
    FreshAfterCut(cs + Cuts(init), last, overlap);
  }

  lemma {:induction false} FreshPiecesCuts(cs: seq<Chunk>, slices: seq<string>, overlap: int)
    ensures FreshPieces(cs + Cuts(slices), overlap) == FreshPieces(cs, overlap) + slices
    decreases |slices|
  {
    if slices == [] {
      assert cs + Cuts(slices) == cs;
    } else {
      var init, last := slices[..|slices| - 1], slices[|slices| - 1];
      FreshPiecesCuts(cs, init, overlap);
      FreshCutsStep(cs, init, last, overlap);
      assert slices == init + [last];
    }
  }

  /** The loop state has added the given pieces: the fresh pieces of the
      emitted chunks, then the fresh part of the chunk being filled. */
  predicate OrderInv(st: ChunkState, overlap: int, pieces: seq<string>) {
    Carried(st.done, overlap) <= |st.current|
    && FreshPieces(st.done, overlap) + st.current[Carried(st.done, overlap)..] == pieces
  }

  lemma StepFreshLong(st: ChunkState, s: string, maxSize: nat, overlap: int, pieces: seq<string>)
    requires maxSize > 0 && |s| > maxSize && OrderInv(st, overlap, pieces)
    ensures OrderInv(Step(st, s, maxSize, overlap), overlap, pieces + Slices(s, maxSize))
  {
    var flushed := if st.current != [] then ChunkState(st.done + [Joined(st.current, false)], [], 0) else st;
    assert FreshPieces(flushed.done, overlap) == pieces by {
      if st.current != [] {
        FreshPiecesSnoc(st.done, Joined(st.current, false), overlap);
      } else {
        assert st.current[Carried(st.done, overlap)..] == [];
      }
    }
    var slices := Slices(s, maxSize);
    FreshPiecesCuts(flushed.done, slices, overlap);
    var d := flushed.done + Cuts(slices);
    assert slices != [] && d[|d| - 1] == Cut(slices[|slices| - 1]);
    assert Carried(d, overlap) == 0;
  }

  lemma StepFreshFlush(st: ChunkState, s: string, maxSize: nat, overlap: int, pieces: seq<string>)
    requires maxSize > 0 && |s| <= maxSize && st.size + |s| > maxSize && OrderInv(st, overlap, pieces)
    ensures OrderInv(Step(st, s, maxSize, overlap), overlap, pieces + [s])
  {
    var c := Joined(st.current, true);
    FreshPiecesSnoc(st.done, c, overlap);
    var d := st.done + [c];
    var keep := Retained(st.current, overlap);
    assert Carried(d, overlap) == |keep|;
    assert (keep + [s])[|keep|..] == [s];
  }

  lemma StepFreshFits(st: ChunkState, s: string, maxSize: nat, overlap: int, pieces: seq<string>)
    requires maxSize > 0 && |s| <= maxSize && st.size + |s| <= maxSize && OrderInv(st, overlap, pieces)
    ensures OrderInv(Step(st, s, maxSize, overlap), overlap, pieces + [s])
  {
    var k := Carried(st.done, overlap);
    assert (st.current + [s])[k..] == st.current[k..] + [s];
  }

  lemma {:induction false} RunFresh(ss: seq<string>, maxSize: nat, overlap: int)
    requires maxSize > 0
    ensures OrderInv(Run(ss, maxSize, overlap), overlap, Expand(ss, maxSize))
    decreases |ss|
  {
    if ss == [] {
      assert Run(ss, maxSize, overlap) == ChunkState([], [], 0);
    } else {
      var init, s := ss[..|ss| - 1], ss[|ss| - 1];
      RunFresh(init, maxSize, overlap);
      RunOverlap(init, maxSize, overlap);
      var st := Run(init, maxSize, overlap);
      if |s| > maxSize {
        StepFreshLong(st, s, maxSize, overlap, Expand(init, maxSize));
      } else if st.size + |s| > maxSize {
        StepFreshFlush(st, s, maxSize, overlap, Expand(init, maxSize));
      } else {
        StepFreshFits(st, s, maxSize, overlap, Expand(init, maxSize));
      }
    }
  }

  /** For every overlap the chunks keep the input order: leaving out of each
      run of sentences the sentences it carries over from an overflowing
      predecessor, the chunks carry every sentence exactly once and in input
      order, each long sentence as its consecutive slices. The carried
      sentences are the last ones of the chunk before (`ChunksOverlap`). */
  lemma ChunksInOrder(ss: seq<string>, maxSize: nat, overlap: int)
    requires maxSize > 0
    ensures FreshPieces(ChunksOf(ss, maxSize, overlap), overlap) == Expand(ss, maxSize)
    ensures OverlapKept(ChunksOf(ss, maxSize, overlap), overlap)
  {
    RunFresh(ss, maxSize, overlap);
    RunOverlap(ss, maxSize, overlap);
    ChunksOverlap(ss, maxSize, overlap);
    var st := Run(ss, maxSize, overlap);
    if st.current != [] {
      FreshPiecesSnoc(st.done, Joined(st.current, false), overlap);
    } else {
      assert st.done + [] == st.done;
    }
  }

  // ---------------------------------------------------------------------------
  // merge_results

  /** A (source, target) term pair. */
  type Pair = (string, string)

  /** The case-insensitive identity of a pair. */
  function MergeKey(p: Pair): (string, string) {
    (Lower(p.0), Lower(p.1))
  }

  /** The keys of some pairs. */
  function KeySet(ps: seq<Pair>): set<(string, string)> {
    set k | 0 <= k < |ps| :: MergeKey(ps[k])
  }

  /** All pairs of all lists, list by list. */
  function Flatten(lists: seq<seq<Pair>>): seq<Pair>
    decreases |lists|
  {
    if lists == [] then [] else Flatten(lists[..|lists| - 1]) + lists[|lists| - 1]
  }

  /** The merge: each pair is kept unless an earlier kept pair has its key. */
  function Merged(ps: seq<Pair>): seq<Pair>
    decreases |ps|
  {
    if ps == [] then []
    else
      var m, last := Merged(ps[..|ps| - 1]), ps[|ps| - 1];
      if MergeKey(last) in KeySet(m) then m else m + [last]
  }

  lemma MergedSnoc(ps: seq<Pair>, x: Pair)
    ensures Merged(ps + [x]) == if MergeKey(x) in KeySet(Merged(ps)) then Merged(ps) else Merged(ps) + [x]
  {
    assert (ps + [x])[..|ps|] == ps;
  }

  lemma KeySetSnoc(ps: seq<Pair>, x: Pair)
    ensures KeySet(ps + [x]) == KeySet(ps) + {MergeKey(x)}
  {
    var q := ps + [x];
    assert forall k :: 0 <= k < |ps| ==> q[k] == ps[k];
    assert q[|ps|] == x;
    forall y | y in KeySet(q) ensures y in KeySet(ps) + {MergeKey(x)} {
      var k :| 0 <= k < |q| && MergeKey(q[k]) == y;
      if k < |ps| {
        assert MergeKey(ps[k]) == y;
      }
    }
  }

  /** merge_results: a loop over the lists, keeping the keys seen so far in a
      set. */
  method MergeResults(lists: seq<seq<Pair>>) returns (merged: seq<Pair>)
    ensures merged == Merged(Flatten(lists))
  {
    var seen: set<(string, string)> := {};
    merged := [];
    var i := 0;
    while i < |lists|
      invariant 0 <= i <= |lists|
      invariant merged == Merged(Flatten(lists[..i])) && seen == KeySet(merged)
    {
      var pre := lists[..i + 1];
      assert pre[..i] == lists[..i] && pre[i] == lists[i];
      merged, seen := MergeList(Flatten(lists[..i]), merged, seen, lists[i]);
      i := i + 1;
    }
    assert lists[..i] == lists;
  }

  /** The inner loop of merge_results, over the pairs of one list. */
  method MergeList(ghost base: seq<Pair>, merged: seq<Pair>, seen: set<(string, string)>, terms: seq<Pair>)
    returns (merged': seq<Pair>, seen': set<(string, string)>)
    requires merged == Merged(base) && seen == KeySet(merged)
    ensures merged' == Merged(base + terms) && seen' == KeySet(merged')
  {
    merged', seen' := merged, seen;
    var j := 0;
    assert base + terms[..0] == base;
    while j < |terms|
      invariant 0 <= j <= |terms|
      invariant merged' == Merged(base + terms[..j]) && seen' == KeySet(merged')
    {
      var key := (Lower(terms[j].0), Lower(terms[j].1));
      MergeStep(base, terms, j, merged', seen');
      if key !in seen' {
        seen' := seen' + {key};
        merged' := merged' + [terms[j]];
      }
      j := j + 1;
    }
    assert terms[..j] == terms;
  }

  /** One more pair of the input: it is kept exactly when its key is new. */
  lemma MergeStep(base: seq<Pair>, terms: seq<Pair>, j: nat, merged: seq<Pair>, seen: set<(string, string)>)
    requires j < |terms| && merged == Merged(base + terms[..j]) && seen == KeySet(merged)
    ensures MergeKey(terms[j]) in seen ==> Merged(base + terms[..j + 1]) == merged
    ensures MergeKey(terms[j]) !in seen ==>
      Merged(base + terms[..j + 1]) == merged + [terms[j]] && KeySet(merged + [terms[j]]) == seen + {MergeKey(terms[j])}
  {
    var done := base + terms[..j];
    MergedSnoc(done, terms[j]);
    KeySetSnoc(merged, terms[j]);
    assert terms[..j + 1] == terms[..j] + [terms[j]];
    assert base + terms[..j + 1] == done + [terms[j]];
  }

  /** The merge keeps one pair for every key of the input, and no other key. */
  lemma {:induction false} MergedKeys(ps: seq<Pair>)
    ensures KeySet(Merged(ps)) == KeySet(ps)
    decreases |ps|
  {
    if ps != [] {
      var init, x := ps[..|ps| - 1], ps[|ps| - 1];
      MergedKeys(init);
      assert ps == init + [x];
      MergedSnoc(init, x);
      KeySetSnoc(init, x);
      KeySetSnoc(Merged(init), x);
    }
  }

  /** Position i holds the first pair of its key. */
  predicate IsFirst(ps: seq<Pair>, i: int)
    requires 0 <= i < |ps|
  {
    forall j :: 0 <= j < i ==> MergeKey(ps[j]) != MergeKey(ps[i])
  }

  /** The first pair of every key, in input order. */
  function FirstOccurrences(ps: seq<Pair>): seq<Pair>
    decreases |ps|
  {
    if ps == [] then []
    else FirstOccurrences(ps[..|ps| - 1]) + (if IsFirst(ps, |ps| - 1) then [ps[|ps| - 1]] else [])
  }

  /** The merge keeps exactly the first pair of each case-insensitive key, in
      the order the pairs come. */
  lemma {:induction false} MergedIsFirstOccurrences(ps: seq<Pair>)
    ensures Merged(ps) == FirstOccurrences(ps)
    decreases |ps|
  {
    if ps != [] {
      var init, x := ps[..|ps| - 1], ps[|ps| - 1];
      MergedIsFirstOccurrences(init);
      MergedKeys(init);
      assert ps == init + [x];
      MergedSnoc(init, x);
      assert forall j :: 0 <= j < |init| ==> init[j] == ps[j];
      assert MergeKey(x) in KeySet(init) <==> !IsFirst(ps, |ps| - 1);
    }
  }

  /** No two merged pairs share a key. */
  lemma {:induction false} MergedDistinct(ps: seq<Pair>)
    ensures forall a, b :: 0 <= a < b < |Merged(ps)| ==> MergeKey(Merged(ps)[a]) != MergeKey(Merged(ps)[b])
    decreases |ps|
  {
    if ps != [] {
      var init, x := ps[..|ps| - 1], ps[|ps| - 1];
      MergedDistinct(init);
      assert ps == init + [x];
      MergedSnoc(init, x);
      var m := Merged(init);
      if MergeKey(x) !in KeySet(m) {
        var m' := m + [x];
        forall a, b | 0 <= a < b < |m'| ensures MergeKey(m'[a]) != MergeKey(m'[b]) {
          if b == |m| {
            assert MergeKey(m[a]) in KeySet(m);
          } else {
            assert m'[a] == m[a] && m'[b] == m[b];
          }
        }
      }
    }
  }
}
