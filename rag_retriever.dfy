/** The retriever of the paper analyser: it cuts a paper into overlapping word
    windows, keeps them per paper, and assembles the passages a similarity
    search picks into one context text. The sentence embeddings and the vector
    index are not modelled: the search result is an input. */
module RagRetriever {
  import opened Wrappers
  import opened Text
  import opened Paging

  /** Words per window. */
  const ChunkSize: nat := 512

  /** Words shared by neighbouring windows. */
  const Overlap: nat := 50

  /** Words between the starts of neighbouring windows. */
  const Stride: nat := ChunkSize - Overlap

  /** Passages a context holds at most. */
  const MaxPassages: nat := 5

  /** `len(range(0, n, 462))`: the number of window starts. */
  function NumWindows(n: nat): nat {
    if n == 0 then 0 else FloorDiv(n + Stride - 1, Stride)
  }

  /** `words[462 * k : 462 * k + 512]`. */
  function Window(words: seq<string>, k: nat): (w: seq<string>)
    ensures |w| <= ChunkSize
  {
    var lo := Stride * k;
    if lo >= |words| then [] else words[lo..if lo + ChunkSize < |words| then lo + ChunkSize else |words|]
  }

  /** The windows of a word list, each joined by single spaces. */
  function WindowTexts(words: seq<string>): (r: seq<string>)
    ensures |r| == NumWindows(|words|)
  {
    seq(NumWindows(|words|), k requires 0 <= k < NumWindows(|words|) => Join(Window(words, k), " "))
  }

  /** There are ceil(n / 462) windows, none for no words, and the start of each
      lies inside the word list. */
  lemma NumWindowsShape(n: nat)
    ensures NumWindows(n) == 0 <==> n == 0
    ensures NumWindows(n) * Stride >= n
    ensures n > 0 ==> (NumWindows(n) - 1) * Stride < n
  {
    if n > 0 {
      CeilPages(n, Stride);
    }
  }

  /** _split_text: a loop over the window starts 0, 462, 924, … below the number
      of words. */
  method SplitText(text: string) returns (chunks: seq<string>)
    ensures chunks == WindowTexts(Words(text))
  {
    var words := Words(text);
    var n := |words|;
    NumWindowsShape(n);
    chunks := [];
    var i := 0;
    while i < n
      invariant i == Stride * |chunks| && |chunks| <= NumWindows(n)
      invariant i < n <==> |chunks| < NumWindows(n)
      invariant chunks == WindowTexts(words)[..|chunks|]
      decreases n - i
    {
      var hi := if i + ChunkSize < n then i + ChunkSize else n;
      ghost var k := |chunks|;
      assert Window(words, k) == words[i..hi];
      chunks := chunks + [Join(words[i..hi], " ")];
      assert chunks == WindowTexts(words)[..k + 1];
      i := i + Stride;
      assert (|chunks| - 1) * Stride < n;
      assert i < n <==> |chunks| < NumWindows(n) by {
        assert i == |chunks| * Stride;
      }
    }
    assert chunks == WindowTexts(words);
  }

  /** Whitespace-only text gives no windows, and any other text at least one. */
  lemma NoWindowsIffBlank(text: string)
    ensures WindowTexts(Words(text)) == [] <==> Blank(text)
  {
    WordsEmptyIffBlank(text);
    NumWindowsShape(|Words(text)|);
  }

  /** Every window is non-empty and holds at most 512 words. */
  lemma WindowsNonEmpty(words: seq<string>, k: nat)
    requires k < NumWindows(|words|)
    ensures 0 < |Window(words, k)| <= ChunkSize
  {
    NumWindowsShape(|words|);
    MulMonotone(k, NumWindows(|words|) - 1, Stride);
  }

  /** Every word lies in window j / 462, at its own position. */
  lemma WordCovered(words: seq<string>, j: nat)
    requires j < |words|
    ensures var k := j / Stride;
      k < NumWindows(|words|) && Stride * k <= j < Stride * k + |Window(words, k)|
      && Window(words, k)[j - Stride * k] == words[j]
  {
    var k := j / Stride;
    NumWindowsShape(|words|);
    assert k * Stride <= j;
    WindowsBefore(k, NumWindows(|words|), j);
  }

  lemma WindowsBefore(k: nat, m: nat, j: nat)
    requires k * Stride <= j < m * Stride
    ensures k < m
  {
    if m <= k {
      MulMonotone(m, k, Stride);
    }
  }

  /** Neighbouring windows share the words from the start of the second to the
      end of the first: at most 50 of them, and exactly 50 when the second is a
      full window. */
  lemma NeighboursOverlap(words: seq<string>, k: nat)
    requires k + 1 < NumWindows(|words|)
    ensures var a, b := Window(words, k), Window(words, k + 1);
      Stride <= |a| && |a| - Stride <= Overlap && a[Stride..] == b[..|a| - Stride]
      && (|b| == ChunkSize ==> |a| - Stride == Overlap)
  {
    WindowsNonEmpty(words, k + 1);
    assert Stride * (k + 1) == Stride * k + Stride;
  }

  /** When the last window starts at most 50 words before the end, it is the
      tail of the window before it. */
  lemma LastWindowInsidePrevious(words: seq<string>)
    requires NumWindows(|words|) >= 2
    requires |words| - Stride * (NumWindows(|words|) - 1) <= Overlap
    ensures var k := NumWindows(|words|) - 1;
      Window(words, k) == Window(words, k - 1)[Stride..]
  {
    var k := NumWindows(|words|) - 1;
    WindowsNonEmpty(words, k);
    NeighboursOverlap(words, k - 1);
    assert Stride * k == Stride * (k - 1) + Stride;
  }

  /** One passage of the context: its number from one, a colon, a line break
      and the window text. */
  function Passage(i: nat, doc: string): string {
    "段落 " + NatToString(i + 1) + ":\n" + doc
  }

  /** How many passages a search asks for: five, or fewer when the paper has
      fewer windows. */
  function PassageCount(docs: seq<string>): (k: nat)
    ensures k <= MaxPassages && k <= |docs|
    ensures k == MaxPassages || k == |docs|
  {
    if MaxPassages < |docs| then MaxPassages else |docs|
  }

  /** The passages of the search hits, in the order of the hits. */
  function Passages(docs: seq<string>, hits: seq<nat>): (r: seq<string>)
    requires forall i :: 0 <= i < |hits| ==> hits[i] < |docs|
    ensures |r| == |hits| && forall i :: 0 <= i < |hits| ==> r[i] == Passage(i, docs[hits[i]])
  {
    seq(|hits|, i requires 0 <= i < |hits| => Passage(i, docs[hits[i]]))
  }

  /** The papers whose windows the retriever holds. */
  class Retriever {
    var paperIndices: map<string, seq<string>>

    constructor ()
      ensures paperIndices == map[]
    {
      paperIndices := map[];
    }

    /** build_index: the windows of the content replace whatever the paper
        had; the other papers are untouched. */
    method BuildIndex(content: string, paperId: string)
      modifies this
      ensures paperIndices == old(paperIndices)[paperId := WindowTexts(Words(content))]
    {
      var chunks := SplitText(content);
      paperIndices := paperIndices[paperId := chunks];
    }

    /** get_relevant_context: an unknown paper is an error; otherwise the search
        result, the indices of the nearest windows, becomes numbered passages
        separated by blank lines. */
    method GetRelevantContext(question: string, paperId: string, hits: seq<nat>) returns (r: Result<string, string>)
      requires paperId in paperIndices ==>
        |hits| == PassageCount(paperIndices[paperId]) && forall i :: 0 <= i < |hits| ==> hits[i] < |paperIndices[paperId]|
      ensures r.Err? <==> paperId !in paperIndices
      ensures r.Err? ==> r.error == "Context retrieval error: Paper ID " + paperId + " not found"
      ensures r.Ok? ==> r.value == Join(Passages(paperIndices[paperId], hits), "\n\n")
    {
      if paperId !in paperIndices {
        return Err("Context retrieval error: Paper ID " + paperId + " not found");
      }
      var documents := paperIndices[paperId];
      var k := PassageCount(documents);
      var parts: seq<string> := [];
      var i := 0;
      while i < k
        invariant 0 <= i <= k
        invariant parts == Passages(documents, hits[..i])
      {
        parts := parts + [Passage(i, documents[hits[i]])];
        i := i + 1;
      }
      assert hits[..k] == hits;
      r := Ok(Join(parts, "\n\n"));
    }
  }
}
