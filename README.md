# Translator core in Dafny

A model of the self-contained logic of a document and text translation
service. The service has a Python backend, which talks to DeepL, Gemini and
Feishu, and a React frontend. The model covers:

- **Glossaries**: the two glossary payload validators, the TSV entry parsers
  and formatters, merging of entry texts, language-code normalisation, the
  parser of the language model's term list, and the schema constraints of the
  glossary tables.
- **Text segmentation**: sentence splitting, size-bounded chunking with
  sentence overlap, case-insensitive merging of extracted terms, the
  fixed-stride word windows of the paper retriever, and the joining of
  document parts by the document processor.
- **Pagination and search**: the local glossary search, the glossary details
  page, and the user list and user search.
- **State machines**:
  - the distance-task queue;
  - the document job of the frontend (upload, a status poll of at most 30
    attempts, download);
  - the undo/redo history and language swap of the text translator;
  - the Feishu sign-in callback and its token checks;
  - the login update of a user;
  - the error mapping of the translation endpoints;
  - the translator-instance cache.
- **UI decisions**: which status line the status component renders, and
  which languages a language selector offers.

Every network, database and language-model call is an input of the model. A
reply is a datatype of the outcomes the code distinguishes. Clocks are
integer parameters, in seconds unless a name says otherwise. Strings are
sequences of code points.

Modules follow the source files:

| module | source |
|---|---|
| `GlossaryManager` | `backend/services/glossary_manager.py` |
| `TermExtractor` | `backend/services/term_extractor.py` |
| `DocumentChunker` | `backend/services/document_chunker.py` |
| `RagRetriever` | `backend/services/paper_analyzer/rag_retriever.py` |
| `LocalGlossaryManager` | `backend/services/local_glossary_manager.py` |
| `TaskManager` | `backend/services/task_manager.py` |
| `TranslationApi` | `backend/main.py` |
| `DocumentProcessor` | `backend/services/document_processor.py` |
| `Oauth` | `backend/auth/oauth.py` |
| `UserRouter` | `backend/auth/user_router.py` |
| `AuthModels` | `backend/auth/models.py` |
| `GlossaryStore` | `backend/models/glossary.py` |
| `App` | `frontend/src/App.tsx` |
| `TextTranslate` | `frontend/src/components/TextTranslate.tsx` |
| `TranslationStatus` | `frontend/src/components/TranslationStatus.tsx` |
| `LanguageSelect` | `frontend/src/components/LanguageSelect.tsx` |

Four helper modules are shared by the others:

- `Wrappers`: `Option` and `Result`.
- `Text`: Python's string primitives, i.e. `strip`, `split`, `join`, `lower`
  and `upper` on ASCII, whitespace-run splitting, the UTF-8 byte length of a
  code point, and slicing with Python's index clamping.
- `Ordering`: code-point order on strings, and stable sorts by key.
- `Paging`: the offset of a page, and floor and ceiling division.

## Model

| member | source | states |
|---|---|---|
| GlossaryManager.StrictLinesOkIff | backend/services/glossary_manager.py:200-233 | The line loop accepts a list of entry lines exactly when every line splits into two acceptable terms on the separator and no two lines share a source term. |
| GlossaryManager.LineRejected | backend/services/glossary_manager.py:209-233 | A line that does not split into two acceptable terms, or that repeats an earlier source term, makes the whole list fail. |
| GlossaryManager.CheckEntryLines | backend/services/glossary_manager.py:200-233 | The loop with its `seen_sources` set returns true exactly when the lines meet the rule of `StrictLinesOk`. |
| GlossaryManager.ValidateGlossaryPayload | backend/services/glossary_manager.py:177-242 | The result is true exactly when all of these hold: name and dictionaries are present, the name is at most 1024 UTF-8 bytes, and each dictionary has its four keys, format tsv or csv, lines that pass the line rule, and at most 10 MiB of entries. Every failure, raised or not, gives false. |
| GlossaryManager.TrailingNewlineRejected | backend/services/glossary_manager.py:200-210 | An entries text that ends in a newline is rejected, because its empty last line does not split into two fields. |
| GlossaryManager.NormalizeLangCode | backend/services/glossary_manager.py:258-265 | A successful result is the upper-cased code, and it is a supported two-letter code. A failure carries "Unsupported language code: " and the upper-cased code. |
| GlossaryManager.NormalizeLangCodeIdempotent | backend/services/glossary_manager.py:258-265 | A code is accepted exactly when its upper-case form is in the supported set. Normalising a normalised code gives it back. |
| GlossaryManager.MainGlossaryNameInjective | backend/services/glossary_manager.py:396-398 | For two-letter source codes, `Main_Glossary_SRC-TGT` names agree exactly when the pairs agree after upper-casing. |
| GlossaryManager.PlaceholderEntriesOk | backend/services/glossary_manager.py:431 | The placeholder entries text is one well-formed TSV line far below the size limit. |
| GlossaryManager.PlaceholderPayloadValid | backend/services/glossary_manager.py:424-434 | The payload a new main glossary is created with passes the strict validator whenever both codes normalise. |
| GlossaryManager.StrippedLines | backend/services/glossary_manager.py:388-389 | The stripped non-blank lines are at most as many as the lines. |
| GlossaryManager.StrippedLinesShape | backend/services/glossary_manager.py:388-389 | Every term collected from the lines is non-empty, already stripped and free of the line separator. |
| GlossaryManager.StrippedLinesOfStripped | backend/services/glossary_manager.py:388-389 | Lines that are already stripped and non-blank are all kept, unchanged. |
| GlossaryManager.TermsOfJoin | backend/services/glossary_manager.py:388-393 | Joining terms with newlines and reading the terms back gives the same terms. |
| GlossaryManager.MergedTermsShape | backend/services/glossary_manager.py:392-393 | The sorted union of both inputs' terms is a list of clean terms. |
| GlossaryManager.MergeEntriesTerms | backend/services/glossary_manager.py:386-393 | The result's terms are strictly sorted, and as a set they are the union of the stripped non-blank lines of both inputs. |
| GlossaryManager.MergeEntriesCommutative | backend/services/glossary_manager.py:386-393 | Merging a with b gives the same text as merging b with a. |
| GlossaryManager.MergeEntriesIdempotent | backend/services/glossary_manager.py:386-393 | Merging a result with itself, or with one of its inputs again, gives the result back. |
| GlossaryManager.PaginateDetailsWindow | backend/services/glossary_manager.py:307-318 | For a positive page size: the page is max(1, page); the entries are the run of at most page_size entries from (page - 1) * page_size, cut at the end; the run is empty past the end; `entries_available` is true iff there are entries. |
| GlossaryManager.PaginateDetailsPageCount | backend/services/glossary_manager.py:311-321 | total_pages is the ceiling of total / page_size. A page past the last one is not clamped and has no entries. |
| GlossaryManager.TsvEntries | backend/services/glossary_manager.py:290-300 | A parser yields at most one entry per line. |
| GlossaryManager.TsvEntriesAllParse | backend/services/glossary_manager.py:290-300 | When every line parses, the details parser yields exactly the entries of those lines, in order. |
| GlossaryManager.EntriesFromApi | backend/services/glossary_manager.py:573-583 | The loop drops blank lines and the unstripped placeholder line, keeps only lines with exactly two tab-separated parts, and strips both halves; the result equals `TsvEntries` on the split text. |
| GlossaryManager.TsvEntriesShape | backend/services/glossary_manager.py:292-299 | Every parsed entry has stripped halves that hold no tab. |
| GlossaryManager.CleanPairParses | backend/services/glossary_manager.py:292-299 | Two stripped, non-blank, tab-free halves around one tab parse back as that entry. |
| GlossaryManager.PlaceholderLineParsers | backend/services/glossary_manager.py:579-582 | The API reader drops the placeholder line, and the details reader keeps it as an entry. |
| GlossaryManager.TsvEntriesWithoutPlaceholder | backend/services/glossary_manager.py:579-582 | Without a placeholder line, both parsers give the same entries. |
| GlossaryManager.WithoutDictionary | backend/services/glossary_manager.py:172-174 | The filter keeps exactly the dictionaries whose language pair differs from the deleted one, and never lengthens the list. The update itself is not reachable in the source (see "## Left out"). |
| GlossaryManager.WithoutDictionaryAppend | backend/services/glossary_manager.py:172-174 | The filter drops a dictionary of the pair and keeps any other, and distributes over concatenation, so the kept dictionaries stay in their order. |
| GlossaryManager.WithoutDictionaryCounts | backend/services/glossary_manager.py:172-174 | Each kept dictionary appears as many times as in the input, and those of the pair not at all. |
| TermExtractor.LinesOkIff | backend/services/term_extractor.py:569-598 | The lenient loop accepts a list exactly when every non-blank line is a well-formed entry and no two non-blank lines share a source term. |
| TermExtractor.LineRejected | backend/services/term_extractor.py:576-598 | A non-blank line that is malformed or repeats an earlier source term makes the whole list fail. |
| TermExtractor.LinesOkLine | backend/services/term_extractor.py:576-598 | In an accepted list every non-blank line is well formed, and its source term is new. |
| TermExtractor.CheckEntryLines | backend/services/term_extractor.py:569-598 | The loop with its `seen_sources` set returns true exactly when the lines meet the lenient line rule. |
| TermExtractor.ValidateGlossaryPayload | backend/services/term_extractor.py:549-603 | The result is true exactly when name and dictionaries are present, the name is at most 1024 bytes, and each dictionary has its four keys, format tsv or csv, and lines that pass the lenient rule. Every failure, raised or not, gives false. |
| TermExtractor.StrictImpliesLenient | backend/services/term_extractor.py:549-603 | Every payload the glossary manager's validator accepts is accepted by this one. |
| TermExtractor.StrictLinesOkImpliesLinesOk | backend/services/term_extractor.py:569-598 | Lines the strict line loop accepts pass the lenient one. |
| TermExtractor.BlankLineSkipped | backend/services/term_extractor.py:573-574 | A blank line does not change the lenient verdict. |
| TermExtractor.TrailingNewlineSeparates | backend/services/term_extractor.py:569-574 | The implication is strict: a trailing newline added to a strictly valid dictionary gives one that only the lenient validator accepts. |
| TermExtractor.KeptPairs | backend/services/term_extractor.py:316-325 | The formatters keep at most as many pairs as they are given. |
| TermExtractor.KeptPairsClean | backend/services/term_extractor.py:317-321 | Every kept pair is stripped, non-empty and at most 1024 bytes on each side. |
| TermExtractor.KeptPairsComplete | backend/services/term_extractor.py:316-325 | Every input pair whose stripped halves are acceptable is kept, stripped. |
| TermExtractor.KeptPairsSound | backend/services/term_extractor.py:316-325 | Every kept pair is the stripped form of an acceptable input pair. |
| TermExtractor.KeptPairsMembers | backend/services/term_extractor.py:316-325 | A pair is kept exactly when it is the stripped form of an acceptable input pair. |
| TermExtractor.KeptPairsAppend | backend/services/term_extractor.py:316-325 | Keeping commutes with concatenation, so kept pairs come out in input order. |
| TermExtractor.KeptPairsOfClean | backend/services/term_extractor.py:316-325 | Pairs that are already clean are all kept, unchanged. |
| TermExtractor.KeptPairsIdempotent | backend/services/term_extractor.py:316-325 | Formatting the kept pairs again keeps the same pairs. |
| TermExtractor.KeptPairsFreeOf | backend/services/term_extractor.py:317-318 | Stripping adds no character, so pairs free of a character stay free of it. |
| TermExtractor.FormatTermsForDb | backend/services/term_extractor.py:313-327 | The loop returns one source/target row per kept pair, in input order. |
| TermExtractor.FormatTermsForDeepl | backend/services/term_extractor.py:329-345 | The loop returns the kept pairs as tab-separated lines joined by newlines. Any format other than tsv gives "". |
| TermExtractor.TsvLineParses | backend/services/term_extractor.py:339 | The TSV line of a clean, tab-free pair parses back to that pair. |
| TermExtractor.TsvLinesParse | backend/services/term_extractor.py:339-341 | TSV lines of clean, tab-free pairs parse back to exactly those pairs. |
| TermExtractor.FormattersAgree | backend/services/term_extractor.py:313-345 | For pairs without tabs or newlines, the DeepL text read back gives exactly the pairs the database formatter keeps, in the same order. |
| TermExtractor.Swapped | backend/services/term_extractor.py:296 | The reversed list has each pair's halves exchanged, in the same order. |
| TermExtractor.BidirectionalTerms | backend/services/term_extractor.py:292-297 | The map has the keys "s-t" and "t-s". The second maps to the swapped pairs; the first maps to the pairs when the keys differ. When the keys coincide, the swapped copy wins. |
| TermExtractor.BidirectionalOfReverse | backend/services/term_extractor.py:292-297 | With distinct keys, the map built from the swapped pairs in the other direction is the same map. |
| TermExtractor.PairKeysCollide | backend/services/term_extractor.py:295-296 | For codes without a hyphen, the two keys coincide exactly when the two languages are the same. |
| TermExtractor.BidirectionalSameLanguage | backend/services/term_extractor.py:292-297 | For the same language on both sides, only the swapped list survives. |
| TermExtractor.SanitizeTermPair | backend/services/term_extractor.py:392-405 | Both halves come back without tabs and stripped. The clean-up loop only rebinds its loop variable and changes nothing. |
| TermExtractor.SanitizeIdempotent | backend/services/term_extractor.py:392-405 | Sanitising a sanitised pair gives it back. |
| TermExtractor.SanitizeEmptyIffBlank | backend/services/term_extractor.py:395-396 | A half becomes empty exactly when it was blank, since a tab turned into a space is still white space. |
| TermExtractor.ValidInputStripInvariant | backend/services/term_extractor.py:519-534 | The guard looks only at the stripped text. |
| TermExtractor.BlankInputRejected | backend/services/term_extractor.py:519-520 | Empty or white-space text is refused. |
| TermExtractor.ValidInputNeeds | backend/services/term_extractor.py:526-534 | Accepted text holds a character of the listed letter and digit ranges, and a character outside the symbol class. |
| TermExtractor.ValidCharAccepted | backend/services/term_extractor.py:526-534 | A non-space character of the listed ranges lets the text through, unless the text begins with a character in U+1F300 to U+1F9FF. |
| TermExtractor.TagsExclusive | backend/services/term_extractor.py:491-496 | No line starts with two of the three translation tags, so the order of the tests does not matter. |
| TermExtractor.ParseTranslationsOnly | backend/services/term_extractor.py:472-504 | The loop returns the four keys, with detected_language "auto", and each language value taken from the reply's tagged lines as `TranslationsOf` defines. |
| TermExtractor.LastTaggedFrom | backend/services/term_extractor.py:485-496 | A language's value comes from the last line carrying its tag, with the tag removed and the rest stripped. |
| TermExtractor.LastTaggedNone | backend/services/term_extractor.py:478-504 | With no line carrying the tag, the value stays "". |
| TermExtractor.LanguageName | backend/services/term_extractor.py:85-87 | An unsupported code is returned unchanged. |
| TermExtractor.LanguageNameCaseInsensitive | backend/services/term_extractor.py:85-87 | Codes that differ only in ASCII case have the same supported name. |
| TermExtractor.CleanedLinesMembers | backend/services/term_extractor.py:204-211 | The cleaner keeps exactly the lines that do not start with FORMAT:, Note:, RESPONSE or -, and that hold a tab or are longer than one character and do not start with #. |
| TermExtractor.CleanLines | backend/services/term_extractor.py:204-211 | The cleaning loop keeps the kept lines in order. |
| TermExtractor.LineTermClean | backend/services/term_extractor.py:222-260 | Every pair a line yields, in any of the three formats, is stripped and has two non-empty halves. |
| TermExtractor.CollectMembers | backend/services/term_extractor.py:223-231 | A pair is collected exactly when some line yields it in the format. |
| TermExtractor.CollectTerms | backend/services/term_extractor.py:223-260 | One parsing loop adds the pairs its lines matched to the set. |
| TermExtractor.FilterFit | backend/services/term_extractor.py:267-270 | The final loop keeps exactly the pairs with both sides at most 1024 bytes. |
| TermExtractor.ExtractAiTerms | backend/services/term_extractor.py:204-273 | The result is the length-filtered union of the tab format's pairs, then the marker format if fewer than 5 pairs were found, then the colon format if still fewer than 5. |
| TermExtractor.AiTermsClean | backend/services/term_extractor.py:204-273 | Every extracted pair is stripped, non-empty and at most 1024 bytes on each side. |
| TermExtractor.ExtractedTermsKept | backend/services/term_extractor.py:313-327 | The database formatter keeps every extracted pair unchanged, whatever order the set is listed in. |
| TermExtractor.TabTermsSuffice | backend/services/term_extractor.py:235-249 | Once the tab-separated lines give five pairs, the fallback formats are not consulted. |
| TermExtractor.TabLineRead | backend/services/term_extractor.py:222-231 | A clean pair written as a TSV line is read back by the tab format. |
| TermExtractor.MarkerLineRead | backend/services/term_extractor.py:236-245 | A clean pair written as `source<TAB>target` is read back by the marker format, when the source holds no `<`. |
| TermExtractor.ColonLineRead | backend/services/term_extractor.py:250-259 | A clean, tab-free pair written as `source: target` is read back by the colon format, when the source holds no colon. |
| DocumentChunker.SentencePieces | backend/services/document_chunker.py:48 | `re.split` with a capture group yields at least one piece. |
| DocumentChunker.SplitBySentences | backend/services/document_chunker.py:31-52 | The two nested loops return `Sentences(text)`: the sentences of the non-blank "\n\n" paragraphs, in order. |
| DocumentChunker.KeepPieces | backend/services/document_chunker.py:48-50 | The loop over the pieces of one prose paragraph keeps each non-blank piece, stripped, in order. |
| DocumentChunker.ProseSentencesShape | backend/services/document_chunker.py:46-50 | A prose paragraph yields stripped, non-empty sentences. Every sentence mark is a sentence of its own, and no other sentence holds one. |
| DocumentChunker.NoMarkParagraph | backend/services/document_chunker.py:46-50 | A prose paragraph without sentence marks is one sentence, stripped. |
| DocumentChunker.ListParagraphLines | backend/services/document_chunker.py:42-45 | A list paragraph is kept line by line, unstripped and unfiltered, so joining its lines gives the paragraph back. |
| DocumentChunker.BlankParagraphSkipped | backend/services/document_chunker.py:38-39 | A blank paragraph contributes no sentence. |
| DocumentChunker.Retained | backend/services/document_chunker.py:87 | The retained sentences are a suffix of the current chunk: the last `overlap` of them, or all of them when there are fewer. With `overlap <= 0` nothing is retained. |
| DocumentChunker.ChunkSentences | backend/services/document_chunker.py:63-97 | The loop over the sentences returns the rendered chunks of the chunking function `ChunksOf`. |
| DocumentChunker.AddSentence | backend/services/document_chunker.py:67-91 | One pass of the loop body: flush and slice a long sentence, or flush and retain the overlap when the sentence does not fit, then append it. It agrees with one `Step` of the chunking function. |
| DocumentChunker.CreateChunks | backend/services/document_chunker.py:54-97 | The result is the chunks of the text's sentences, and none when the text has no sentences. |
| DocumentChunker.SlicesShape | backend/services/document_chunker.py:78-80 | The slices of a long sentence are non-empty and at most the limit long, and together they give the sentence back. |
| DocumentChunker.RunSize | backend/services/document_chunker.py:88-91 | The size the loop keeps is always the total length of the current sentences. |
| DocumentChunker.RunCovers | backend/services/document_chunker.py:67-95 | Every sentence within the limit that the loop has seen is in an emitted chunk or in the current one. |
| DocumentChunker.ShortSentenceChunked | backend/services/document_chunker.py:67-95 | Every sentence no longer than the limit lands, whole, in some joined chunk. |
| DocumentChunker.ChunksOverlap | backend/services/document_chunker.py:84-90 | When a sentence does not fit, the chunk it would overflow is emitted, and the next chunk starts with that chunk's last `overlap` sentences. |
| DocumentChunker.NoOverlapWithinLimit | backend/services/document_chunker.py:84-91 | Without overlap, every chunk's sentences add up to at most max_chunk_size characters (the joining spaces are not counted), and every slice is at most that long. |
| DocumentChunker.OverlapMayExceedLimit | backend/services/document_chunker.py:84-91 | With overlap, the retained sentences are not checked again: limit 2 and overlap 2 over "a", "b", "cc" give a second chunk of total length 4. |
| DocumentChunker.ExampleRun | backend/services/document_chunker.py:67-91 | The loop over "a", "b", "cc" with limit and overlap 2 emits the chunk of the first two sentences and keeps both for the next chunk. |
| DocumentChunker.NoOverlapInOrder | backend/services/document_chunker.py:67-95 | Without overlap, the chunks carry every sentence exactly once and in input order, each long sentence as its consecutive slices. |
| DocumentChunker.ChunksInOrder | backend/services/document_chunker.py:67-95 | For every overlap, once each chunk's carried prefix (the sentences repeated from the chunk before) is removed, the chunks carry every sentence exactly once and in input order, each long sentence as its consecutive slices; and each carried prefix is the overlap kept from the chunk before. |
| DocumentChunker.MergeResults | backend/services/document_chunker.py:99-112 | The nested loops return `Merged` of the concatenated lists. |
| DocumentChunker.MergeList | backend/services/document_chunker.py:105-110 | The inner loop extends the merge by one list and keeps `seen_terms` equal to the keys of the merged pairs. |
| DocumentChunker.MergeStep | backend/services/document_chunker.py:107-110 | A pair is appended exactly when its lower-cased key is new, and its key then joins the seen set. |
| DocumentChunker.MergedKeys | backend/services/document_chunker.py:99-112 | The merge keeps one pair for every key of the input, and no other key. |
| DocumentChunker.MergedIsFirstOccurrences | backend/services/document_chunker.py:99-112 | The merge is exactly the first pair of each case-insensitive (source, target) key, in input order. |
| DocumentChunker.MergedDistinct | backend/services/document_chunker.py:99-112 | No two merged pairs share a key. |
| RagRetriever.Window | backend/services/paper_analyzer/rag_retriever.py:57 | A window holds at most 512 words. |
| RagRetriever.WindowTexts | backend/services/paper_analyzer/rag_retriever.py:56-58 | There is one window per start 0, 462, 924, ... below the number of words. |
| RagRetriever.NumWindowsShape | backend/services/paper_analyzer/rag_retriever.py:56 | There are ceil(n / 462) windows, none exactly when there are no words, and the start of each lies inside the word list. |
| RagRetriever.SplitText | backend/services/paper_analyzer/rag_retriever.py:52-59 | The loop returns the windows of the whitespace-split words, each joined by single spaces: window k is words[462k .. min(462k + 512, n)). |
| RagRetriever.NoWindowsIffBlank | backend/services/paper_analyzer/rag_retriever.py:54-59 | Empty or whitespace-only text gives no windows, and any other text gives at least one. |
| RagRetriever.WindowsNonEmpty | backend/services/paper_analyzer/rag_retriever.py:56-57 | Every window is non-empty and holds at most 512 words. |
| RagRetriever.WordCovered | backend/services/paper_analyzer/rag_retriever.py:56-57 | Word j lies in window j / 462, at its own position. |
| RagRetriever.NeighboursOverlap | backend/services/paper_analyzer/rag_retriever.py:56-57 | Neighbouring windows share the words from the start of the second to the end of the first: at most 50 words, and exactly 50 when the second window is full. |
| RagRetriever.LastWindowInsidePrevious | backend/services/paper_analyzer/rag_retriever.py:56-57 | When the last window starts at most 50 words before the end, it is the tail of the window before it. |
| RagRetriever.PassageCount | backend/services/paper_analyzer/rag_retriever.py:110 | k = min(5, number of windows). |
| RagRetriever.Passages | backend/services/paper_analyzer/rag_retriever.py:114-118 | Each hit becomes the passage "段落 i+1:" followed by its window, in the order of the hits. |
| RagRetriever.Retriever.constructor | backend/services/paper_analyzer/rag_retriever.py:34 | A new retriever has no paper indices. |
| RagRetriever.Retriever.BuildIndex | backend/services/paper_analyzer/rag_retriever.py:61-86 | The windows of the content replace whatever the paper had, and other papers are untouched. |
| RagRetriever.Retriever.GetRelevantContext | backend/services/paper_analyzer/rag_retriever.py:94-124 | An unknown paper id is the error "Context retrieval error: Paper ID ... not found". Otherwise the result is the passages of the nearest windows joined by blank lines. |
| LocalGlossaryManager.NormalizeLangCode | backend/services/local_glossary_manager.py:15-17 | An absent or empty code becomes none. Any other code becomes its upper-case form, which upper-casing leaves alone. |
| LocalGlossaryManager.FilterMeaning | backend/services/local_glossary_manager.py:42-51 | Without filters every row matches. A matching row lies inside a given date range, both ends included. Given languages equal the glossary's after upper-casing. |
| LocalGlossaryManager.MatchingRows | backend/services/local_glossary_manager.py:32-51 | A row is selected exactly when its entry is stored, belongs to a stored glossary, is joined with that glossary, and matches the filters. |
| LocalGlossaryManager.ValidPage | backend/services/local_glossary_manager.py:60 | With pages, the page is clamped into 1..total_pages, and a page already in range is kept. Without pages it is 1. |
| LocalGlossaryManager.Search | backend/services/local_glossary_manager.py:19-94 | The search fails exactly when the page size is not positive: zero divides by zero, and a negative LIMIT is refused. |
| LocalGlossaryManager.PagesAndOffset | backend/services/local_glossary_manager.py:57-63 | The page count covers the rows with no page to spare, and the clamped page starts inside the rows whenever there are any. |
| LocalGlossaryManager.SearchPaging | backend/services/local_glossary_manager.py:54-89 | total is the number of matching rows and total_pages its ceiling over the page size. The page is clamped. At most page_size rows come back, and they are the matching rows from offset (page - 1) * page_size. The page is non-empty exactly when something matches. |
| LocalGlossaryManager.SearchMatches | backend/services/local_glossary_manager.py:42-64 | A search returns only rows that match its filters. |
| LocalGlossaryManager.FindEntry | backend/services/local_glossary_manager.py:159 | `.first()` finds the first entry with the id, or nothing exactly when no entry has it. |
| LocalGlossaryManager.Touch | backend/services/local_glossary_manager.py:168-170 | Only the parent glossary's update time changes, and only when that glossary exists. |
| LocalGlossaryManager.TouchKeepsSchema | backend/services/local_glossary_manager.py:168-172 | Setting a glossary's update time keeps every table constraint. |
| LocalGlossaryManager.RemoveKeepsSchema | backend/services/local_glossary_manager.py:202-203 | Removing one entry keeps every table constraint. |
| LocalGlossaryManager.RetargetSchema | backend/services/local_glossary_manager.py:164-172 | A new target term keeps every constraint exactly when it fits its column. |
| LocalGlossaryManager.LocalGlossaryManager.constructor | backend/services/local_glossary_manager.py:12-13 | The manager works on the given session. |
| LocalGlossaryManager.LocalGlossaryManager.SearchGlossariesAndEntries | backend/services/local_glossary_manager.py:19-94 | The search on the current session returns at most a page of rows, all matching the filters. |
| LocalGlossaryManager.LocalGlossaryManager.UpdateGlossaryEntry | backend/services/local_glossary_manager.py:152-185 | A missing id is `ValueError` and changes nothing. A term too long for its column fails the commit, and the rollback restores the session. Otherwise only the entry's target term and its parent's update time change, and the reply echoes the entry. |
| LocalGlossaryManager.LocalGlossaryManager.DeleteGlossaryEntry | backend/services/local_glossary_manager.py:187-209 | A missing id is `ValueError` and changes nothing. Otherwise exactly that entry leaves the table, its parent's update time is set, and the answer is true. |
| LocalGlossaryManager.DeleteRemovesExactly | backend/services/local_glossary_manager.py:193-204 | With unique entry ids, a delete removes just the entry with that id: every other entry is still there, none with that id is, and the table shrinks by one. |
| TaskManager.Finished | backend/services/task_manager.py:56-74 | A computed task keeps its id, file name and creation time and gets its completion time. Success makes it completed with the result data and file name; an exception makes it failed with the error text. |
| TaskManager.FinishedAllowed | backend/services/task_manager.py:42-76 | Every way a computation ends moves a queued task into a terminal status along an allowed change. |
| TaskManager.TaskManager.constructor | backend/services/task_manager.py:25-32 | The manager starts over the stored rows with no active ids and an empty queue. |
| TaskManager.TaskManager.AddTask | backend/services/task_manager.py:80-93 | A new queued row is stored under a fresh id, the id becomes active and joins the end of the queue, and the id is returned. |
| TaskManager.TaskManager.ProcessNext | backend/services/task_manager.py:31-78 | One turn of the worker takes the first id from the queue. An id no longer active is ignored, so a task cancelled before it is dequeued is never processed. An active task ends completed with its result or failed with the error, and leaves the active set. Every status change is allowed. |
| TaskManager.TaskManager.RunWorker | backend/services/task_manager.py:31-78 | Over several turns, every id the worker has taken has left the active set, so none of them is worked on again, and the active set only shrinks. |
| TaskManager.TaskManager.GetTask | backend/services/task_manager.py:100-116 | The row with the id, or nothing exactly when there is none. |
| TaskManager.TaskManager.GetAllTasks | backend/services/task_manager.py:122-134 | Every stored row exactly once (the same length and the same members), newest first by creation time. |
| TaskManager.TaskManager.CancelTask | backend/services/task_manager.py:140-166 | An unknown id answers false. A task neither queued nor processing raises `ValueError` and changes nothing. Otherwise the task is cancelled with its completion time and "Task cancelled by user", and it leaves the active set. |
| TaskManager.TaskManager.DeleteTask | backend/services/task_manager.py:168-185 | An unknown id answers false. Only a completed, failed or cancelled task is removed; any other raises `ValueError` and changes nothing. |
| TranslationApi.LastDotPartOf | backend/main.py:205 | The text after the last dot, lower-cased, is the extension, whatever the name before it. |
| TranslationApi.DotlessLookedUpWhole | backend/main.py:205 | A name without a dot is looked up whole, lower-cased. |
| TranslationApi.MimeTypes | backend/main.py:204-212 | A known extension in any case gives its type, and any other extension gives application/octet-stream. |
| TranslationApi.Create | backend/main.py:47-174 | The DeepL constructor always succeeds, and its instance is available exactly when its key is set. The Google constructor raises exactly when the library loaded, key and project are set, and the client set-up raises; otherwise its instance is available exactly when the library loaded and both key and project are set. |
| TranslationApi.TranslatorFactory.constructor | backend/main.py:216 | The cache starts empty. |
| TranslationApi.TranslatorFactory.GetTranslator | backend/main.py:219-230 | An instance is created only when none is cached for its type; afterwards the cached one is returned. A constructor that raises stores nothing and the error leaves the call. An unavailable instance raises `ValueError` and stays cached. Every cached instance is of the type it is stored under. |
| TranslationApi.TooLargeBeforeUpload | backend/main.py:269-300 | A file over 30 MiB is refused with 413 FILE_TOO_LARGE whatever the service would answer, so no upload is made. A missing key likewise gives API_KEY_MISSING before any call. |
| TranslationApi.TranslateDocumentShapes | backend/main.py:302-349 | An upstream refusal keeps its status code under DEEPL_API_ERROR. A success returns exactly the document_id and document_key of the upstream answer. |
| TranslationApi.CheckStatusFailures | backend/main.py:384-414 | Every failure of the status endpoint, an upstream refusal included, is a 500. It succeeds exactly on a 200 answer with a body. |
| TranslationApi.LimitOr500 | backend/main.py:422-528 | The download and text endpoints answer 429 exactly when the service refused with the character-limit message, and otherwise fail only with 500. The text endpoint fails on a refusal just as the download does. |
| TranslationApi.Poll | backend/main.py:102-147 | The status loop polls until an answer is "done" or "error", or until reading an answer raises (a body that is not JSON or has no "status", or a failed request), as `PollOutcome` describes. |
| TranslationApi.PollMeaning | backend/main.py:102-147 | The poll ends only at the first decisive answer. On "done" it downloads. On "error" it raises "Translation error: Translation failed: " with the message, "Unknown error" when there is none and "None" when it is JSON null. On an unreadable answer it raises "Translation error: " with the exception text, and on a failed request "HTTP error during translation: " with it. With no decisive answer it is still waiting, however many answers came: there is no attempt bound. |
| DocumentProcessor.LastIndexOf | backend/services/document_processor.py:28 | The last position of the character, or -1 when it does not occur. |
| DocumentProcessor.SplitExtShape | backend/services/document_processor.py:28 | `os.path.splitext`'s extension is empty, or a dot followed by neither dot nor slash, and it ends the path. |
| DocumentProcessor.SplitExtOf | backend/services/document_processor.py:28 | A name that does not end in a dot or slash, followed by a dot and a word without dots or slashes, has that dot and word as its extension. |
| DocumentProcessor.LeadingDotIsNoExtension | backend/services/document_processor.py:28 | A name that is one dot and a word, like `.pdf`, has no extension. |
| DocumentProcessor.CanProcessByExtension | backend/services/document_processor.py:18-29 | A name with an extension can be processed exactly when that extension, in any case, is one of .txt, .md, .docx, .pptx and .pdf. |
| DocumentProcessor.ReaderFor | backend/services/document_processor.py:18-24 | There is a reader exactly for the five supported extensions. |
| DocumentProcessor.ProcessFile | backend/services/document_processor.py:31-37 | An unsupported extension raises `ValueError` "Unsupported file type: ext". Any other extension selects its reader. |
| DocumentProcessor.FileType | backend/services/document_processor.py:119-122 | file_type is the lower-cased extension without its dot, and "" when there is no extension. |
| DocumentProcessor.NonBlank | backend/services/document_processor.py:60-62 | The parts kept are exactly the strings that are not whitespace-only. |
| DocumentProcessor.WideRowKept | backend/services/document_processor.py:67-69 | A Word table row of two or more cells is never blank, because " \| " is not, even when every cell is empty. |
| DocumentProcessor.RowLines | backend/services/document_processor.py:66-67 | Each Word table row becomes its stripped cells joined by " \| ". |
| DocumentProcessor.AddRows | backend/services/document_processor.py:66-69 | The row loop of one table appends the non-blank row texts to the parts. |
| DocumentProcessor.ProcessDocx | backend/services/document_processor.py:54-71 | The result is the non-blank paragraphs in order, then the non-blank table rows, joined by "\n\n". |
| DocumentProcessor.FilledCells | backend/services/document_processor.py:90-94 | A PowerPoint table row keeps only its non-empty cells, stripped. |
| DocumentProcessor.TableLines | backend/services/document_processor.py:89-96 | Only non-empty row texts are kept. |
| DocumentProcessor.SlideTextsNonEmpty | backend/services/document_processor.py:82-98 | Every text a shape or a table contributes is non-empty. |
| DocumentProcessor.SlidePartsNonEmpty | backend/services/document_processor.py:78-101 | A slide that contributes no text adds no part, and every part holds some text. |
| DocumentProcessor.TableText | backend/services/document_processor.py:88-96 | The row loop of a PowerPoint table returns its non-empty row texts. |
| DocumentProcessor.ShapesText | backend/services/document_processor.py:82-98 | The shape loop of one slide returns the shape texts and table texts in order. |
| DocumentProcessor.ProcessPptx | backend/services/document_processor.py:73-103 | The slide loop returns `PptxText`: each slide's texts joined by "\n", the non-empty slides joined by "\n\n". |
| DocumentProcessor.ProcessPdf | backend/services/document_processor.py:105-115 | The result is the non-blank pages joined by "\n\n". |
| DocumentProcessor.BlankPagesSkipped | backend/services/document_processor.py:110-115 | A blank page changes nothing, and a document of only blank pages has no text. |
| DocumentProcessor.TempFiles.constructor | backend/services/document_processor.py:148-167 | The temporary directory starts empty, with nothing written. |
| DocumentProcessor.TempFiles.ProcessFileAsync | backend/services/document_processor.py:148-167 | An unsupported extension raises before any file is written. Otherwise the content goes to a fresh temporary file, the reader of the extension runs on those bytes and its result is returned, and the file is removed whether or not the reader raised. |
| Oauth.AsWrittenLifetimeFollowsTimeZone | backend/auth/oauth.py:129 | With the expiry taken from the local clock and checked against the UTC clock, a server eight hours ahead of UTC still accepts a token 175 hours after issue, and one five hours behind refuses it after 164. |
| Oauth.TokenLifetimeExact | backend/auth/oauth.py:129 | With the UTC clock on both sides, a token is accepted exactly until 168 hours after issue. |
| Oauth.ErrorRedirect | backend/auth/oauth.py:70-72 | A failed sign-in redirects to the front end's `/login?error=` followed by the error code. |
| Oauth.Verify | backend/auth/oauth.py:65-126 | Each failing check gives its own code. A token reply that is not JSON gives auth_failed, a non-200 one token_failed, and one without an access token auth_failed. A user reply that is not JSON gives auth_failed, a non-200 one user_info_failed, and one without `data` or `data.name` auth_failed. A missing or falsy name, email or tenant_key gives missing_user_data. Another tenant gives unauthorized_org, and a user_id that is not a string gives auth_failed. invalid_user_data and no_tenant_key never occur. The checks pass exactly when none of these fails; the login then carries the token and the provider's profile. |
| Oauth.SignInExisting | backend/auth/oauth.py:151-156 | A stored user gets the provider's fields and token copied on, then `update_login`: signed in, one more login, the same id and active flag, and the table stays valid with the user still found under its id. |
| Oauth.NewUser | backend/auth/oauth.py:157-161 | A new user has the provider's fields, is active, is signed in now and has login_count 1. |
| Oauth.SignInNew | backend/auth/oauth.py:157-163 | A user not yet stored is appended as a new row, which the table then finds under its provider id. |
| Oauth.FeishuCallback | backend/auth/oauth.py:52-201 | A failed check answers its error and leaves the table alone, and so does a record the commit refuses (auth_failed after the rollback). Otherwise the user under the provider id is signed in again or added. The table then finds that user signed in, and the answer carries its fields, the token and the expiry on the UTC clock. |
| Oauth.CurrentUser | backend/auth/oauth.py:241-268 | No token gives NO_TOKEN, and a token no row holds gives INVALID_TOKEN. Otherwise the first row holding the token decides. Past its expiry it gives TOKEN_EXPIRED "Token has expired". Before it, that row is the user. With no expiry the comparison raises. |
| Oauth.AcceptedEarlier | backend/auth/oauth.py:262-268 | A token accepted at some instant is accepted, as the same user, at every earlier one. |
| Oauth.RefreshToken | backend/auth/oauth.py:204-238 | A token no row holds gives 401 "Invalid token" and an expired one 401 "Token expired"; a row without an expiry raises, answered 500. Otherwise only that row's expiry moves to the new expiry, which is returned, and the token is then accepted up to that instant. |
| UserRouter.StatusOf | backend/auth/user_router.py:56 | status is "active" exactly when the user is active, and "inactive" otherwise. |
| UserRouter.ItemOf | backend/auth/user_router.py:49-60 | The entry of a row carries its id, names, email, login data and creation time, with the status of its active flag. |
| UserRouter.ItemsOf | backend/auth/user_router.py:49-60 | One entry per row, in table order. |
| UserRouter.PageContents | backend/auth/user_router.py:36-46 | A page holds at most page_size entries, the run of the list from offset (page - 1) * page_size, and it is empty exactly when the offset lies past the end. |
| UserRouter.EveryEntryOnOnePage | backend/auth/user_router.py:36-46 | Entry k of the list is entry k mod size of page k / size + 1, and no other page shows it. |
| UserRouter.GetUsers | backend/auth/user_router.py:26-67 | A refused token is answered with its error. Otherwise the list succeeds exactly when page >= 1 and 1 <= page_size <= 100. It then echoes page and page_size, counts all users, and gives the run of the newest-first list of all users that starts at offset (page - 1) * page_size: at most page_size users, newest first, all from the table. The page is empty exactly when it starts past the last user. |
| UserRouter.ListedPage | backend/auth/user_router.py:42-46 | A page of the entries sorted newest first is itself newest first, holds only entries of the list, and is empty exactly from the page past the last entry on. |
| UserRouter.Filter | backend/auth/user_router.py:85-90 | The search keeps exactly the entries whose name, email or English name contains the query, ignoring ASCII case, and no entry more often than it occurs. |
| UserRouter.EmptyQueryKeepsAll | backend/auth/user_router.py:85-90 | Every name contains the empty query, so the filter would drop nobody. |
| UserRouter.SearchUsers | backend/auth/user_router.py:75-112 | A refused token is answered with its error. Otherwise the result holds the selected users, newest first, each as often as the filter keeps it, and every user for an empty query; total is the number of items returned. |
| UserRouter.SearchMeaning | backend/auth/user_router.py:84-93 | An entry is returned exactly when it belongs to a user and matches the query. |
| AuthModels.User.constructor | backend/auth/models.py:10-31 | A new row has the given profile, token and expiry, is active, and has login_count 0, no login yet and no refresh token. |
| AuthModels.User.SetProfile | backend/auth/oauth.py:153-154 | The `setattr` loop copies the provider's fields, the token and the expiry onto the row, and leaves id, refresh token, active flag, login data and creation time as they were. |
| AuthModels.User.UpdateLogin | backend/auth/models.py:33-38 | The token and expiry become the arguments, the last login becomes now on the UTC clock, and login_count grows by exactly one. No profile field, id, refresh token, active flag or creation time changes. |
| AuthModels.First | backend/auth/oauth.py:136 | `.first()` finds the first row the key selects, or nothing exactly when no row does. |
| AuthModels.RowsValidAppend | backend/auth/models.py:11 | A row with a new provider id, and with an expiry beside any token, keeps the table valid. |
| AuthModels.UserTable.constructor | backend/auth/models.py:7-8 | A new table is empty and valid. |
| GlossaryStore.LangCodeIsUpper | backend/models/glossary.py:20-21 | A code the check constraint admits is already upper case, so upper-casing it before a comparison changes nothing. |
| GlossaryStore.LangCodeShape | backend/models/glossary.py:20-21 | `^[A-Z]{2}(-[A-Z]{2})?$` admits only two- and five-character codes. A two-character code is admitted exactly when both characters are upper-case letters, and the empty code is not. |
| GlossaryStore.OneGlossaryPerPair | backend/models/glossary.py:19 | Two glossaries with the same language pair are the same glossary. |
| GlossaryStore.OneEntryPerSourceTerm | backend/models/glossary.py:35 | Within one glossary, a source term names at most one entry. |
| GlossaryStore.EntriesOutside | backend/models/glossary.py:16 | The entries kept are exactly those of other glossaries. |
| GlossaryStore.EntriesOutsideUnique | backend/models/glossary.py:27-35 | Keeping a subsequence of the entries keeps both unique keys unique. |
| GlossaryStore.CascadeDelete | backend/models/glossary.py:16-28 | Deleting a glossary leaves no entry that refers to it, keeps every other entry, and keeps every constraint. |
| App.ValidateFile | frontend/src/App.tsx:24-41 | A file over 30 MiB gets the too-large message, checked before the type. A file within the limit whose type is not PDF, DOCX or PPTX gets the unsupported message. The result is null exactly when both checks pass. |
| App.ControlsWhileRunning | frontend/src/App.tsx:197-213 | The inputs are disabled exactly while uploading, translating or downloading. The translate button is enabled exactly when a file is picked and the status is idle, completed or error. |
| App.Thrown | frontend/src/App.tsx:161-176 | The catch block gives the upload-timeout message exactly for an `AbortError`, and the error's own message for any other error. |
| App.DetailMessage | frontend/src/App.tsx:73 | `detail?.message || detail` is nothing exactly when `detail` is missing or the empty string. A non-empty string is its own message. An object gives its `message`, or "[object Object]" when that is empty. |
| App.FailedReply | frontend/src/App.tsx:101-104 | A refused reply whose body is not JSON fails with the parser's error. A JSON body fails with its detail message, or with the fallback text when there is none. |
| App.UploadStep | frontend/src/App.tsx:61-83 | A rejected fetch ends the job with its thrown message. A refused upload whose body is not JSON gives the too-large message for 413 and "Upload failed (code)" otherwise. A refused upload with a JSON body gives its detail message, or "Upload failed". An ok reply that is not JSON fails with the parser's error. The job goes on exactly when the reply is ok and JSON. |
| App.StatusStep | frontend/src/App.tsx:101-116 | An answer finishes the poll exactly when it is ok, JSON and "done". It lets the poll go on exactly when it is ok JSON with any other status than "done" or "error". An ok "error" answer fails the job with the server's message, or "Translation failed" when there is none. A rejected fetch fails with its thrown message. A refused answer fails with its detail message, or "Status check failed". An ok answer that is not JSON fails with the parser's error. |
| App.PollBounds | frontend/src/App.tsx:88-125 | The polling stops at the first answer that finishes or fails, after that many requests and at most thirty. It times out only when all thirty answers continue. |
| App.DownloadStep | frontend/src/App.tsx:136-144 | A rejected download fails with its thrown message. A refused reply fails with its detail message, or "Download failed". An ok download of an empty file fails with the empty-file message. The file is saved exactly when the download is ok and non-empty. |
| App.PollsOfLog | frontend/src/App.tsx:61-134 | The log of one upload, n status requests and the download holds n status requests. |
| App.AfterUpload | frontend/src/App.tsx:87-159 | After the upload the status is translating first. A failed poll ends in error at once with the poll's message, and a timed-out one with the timeout message. A finished poll goes on to downloading, then ends in error with the download's message or completes and saves. The requests are the status requests of the poll, then the download when the poll finished. |
| App.AfterUploadShape | frontend/src/App.tsx:87-159 | After the upload at most thirty status requests are sent. The file is saved exactly when the job completes, after downloading; every other run ends in error without passing through completed. A failed poll leaves its message and never downloads. A finished poll downloads, after the downloading status. An empty download gives the empty-file message, and thirty unfinished answers give the timeout message. |
| App.JobShape | frontend/src/App.tsx:43-177 | A file over 30 MiB goes straight to error with no request. At most thirty status requests are sent. The file is saved exactly when the job ends completed, after uploading, translating and downloading; every other run ends in error without passing through completed. |
| App.UploadedShape | frontend/src/App.tsx:51-159 | The same properties hold for the run of an accepted upload, with the upload status and request put in front. |
| App.JobFailures | frontend/src/App.tsx:58-176 | An aborted upload gives the upload-timeout message after the upload alone. Thirty unfinished answers time the job out after thirty requests. An empty download gives the empty-file message and saves nothing. |
| App.PollFromSkips | frontend/src/App.tsx:87-124 | Answers that let the poll go on, from one attempt up to a later one, leave the polling where the later attempt does. |
| App.ServerFailureShown | frontend/src/App.tsx:87-176 | When the first status answer that does not let the poll go on is an "error" from the server, the job sends the upload and that many status requests and no download. It goes uploading, translating, error, and shows the server's message, or "Translation failed" when there is none. |
| App.Page.constructor | frontend/src/App.tsx:19-22 | The page starts idle, with no message, no file, target language EN and nothing sent or saved. |
| App.Page.Fail | frontend/src/App.tsx:161-176 | The catch block sets the status to error and the message, and changes nothing else. |
| App.Page.HandleTranslate | frontend/src/App.tsx:43-178 | Without a picked file nothing happens. Otherwise the page goes through the run `Job` describes and ends in its last status and message, having sent its requests. A completed run saves `translated_<name>` and clears the picked file; any other run keeps both. |
| App.Page.RunJob | frontend/src/App.tsx:46-177 | On the picked file and the chosen language, the page ends in the last status and the message of `Job`, with its requests sent and the save and file effects of its outcome. |
| App.Page.Translate | frontend/src/App.tsx:86-159 | After an accepted upload, the page polls and then finishes as `AfterUpload` describes. |
| App.Page.Upload | frontend/src/App.tsx:51-83 | The upload sets the status to uploading, clears the message and sends the request. A failed upload ends the job in error with its message. |
| App.Page.Finish | frontend/src/App.tsx:123-159 | After the polling ends, the page times out, fails, or downloads. An ok, non-empty download saves the file, completes and clears the picked file. |
| App.Page.PollStatus | frontend/src/App.tsx:88-121 | The loop sends one status request per attempt, at most thirty, stops at the first answer that finishes or fails, and changes nothing else. |
| App.Page.ResetToIdle | frontend/src/App.tsx:157-159 | The timer after a completed job sets the status back to idle and changes nothing else. |
| TextTranslate.FindFixed | frontend/src/components/TextTranslate.tsx:88 | The position found holds the first entry that is not detection: every entry before it is detection. Nothing is found exactly when every entry is detection. |
| TextTranslate.SwapTarget | frontend/src/components/TextTranslate.tsx:86-89 | After a swap the target is the old source language, or Indonesian, the first fixed language of the list, when the source was detection. |
| TextTranslate.Raised | frontend/src/components/TextTranslate.tsx:118-125 | A reply raises an error exactly when it is not a translation. A refused reply raises its body as the message, and a thrown exception raises its own message. |
| TextTranslate.Edit | frontend/src/components/TextTranslate.tsx:35-39 | An edit keeps the history up to the current entry, appends the new text as the current entry and drops any later entries. Nothing else changes. |
| TextTranslate.Clear | frontend/src/components/TextTranslate.tsx:41-45 | Clearing empties the text and the history and sets the position to -1. The translation and the rest stay. |
| TextTranslate.Undo | frontend/src/components/TextTranslate.tsx:47-52 | Undo moves back one entry exactly when there is an earlier one, which is exactly when the undo button is enabled. The history itself never changes. |
| TextTranslate.Redo | frontend/src/components/TextTranslate.tsx:54-59 | Redo moves forward one entry exactly when there is a later one, which is exactly when the redo button is enabled. The history itself never changes. |
| TextTranslate.Translate | frontend/src/components/TextTranslate.tsx:61-79 | A text that is empty after trimming sends nothing and changes nothing. Otherwise the error is cleared and one request with the text and the target language is sent. A translation becomes the result; any failure shows the generic failure message and keeps the old result. |
| TextTranslate.Swap | frontend/src/components/TextTranslate.tsx:82-132 | Without a translation nothing happens. Otherwise the languages change places, detection becoming Indonesian. The translation becomes the source text and is entered in the history as an edit, and one request for it is sent. A failure shows the error's message and puts the old source text back as the translation. |
| TextTranslate.UndoThenRedo | frontend/src/components/TextTranslate.tsx:47-59 | An undo followed by a redo comes back to the same state. |
| TextTranslate.RedoThenUndo | frontend/src/components/TextTranslate.tsx:47-59 | A redo followed by an undo comes back to the same state. |
| TextTranslate.EditAfterUndo | frontend/src/components/TextTranslate.tsx:35-52 | An edit after an undo replaces the undone entry and every entry after it, so nothing is left to redo. |
| TextTranslate.InitialValid | frontend/src/components/TextTranslate.tsx:26-33 | The panel starts with a valid empty history, detecting the source language and translating to Chinese. |
| TextTranslate.SwapTwice | frontend/src/components/TextTranslate.tsx:82-132 | When neither language is detection, two answered swaps bring both languages back. The first answer becomes the source text, and the history holds both swapped texts. |
| TextTranslate.TextTranslator.constructor | frontend/src/components/TextTranslate.tsx:26-33 | The component's state starts as the initial panel. |
| TextTranslate.TextTranslator.HandleTextChange | frontend/src/components/TextTranslate.tsx:35-39 | The new state is `Edit` of the old state, and the history stays valid. |
| TextTranslate.TextTranslator.HandleClear | frontend/src/components/TextTranslate.tsx:41-45 | The new state is `Clear` of the old state. |
| TextTranslate.TextTranslator.HandleUndo | frontend/src/components/TextTranslate.tsx:47-52 | The new state is `Undo` of the old state. |
| TextTranslate.TextTranslator.HandleRedo | frontend/src/components/TextTranslate.tsx:54-59 | The new state is `Redo` of the old state. |
| TextTranslate.TextTranslator.HandleTranslate | frontend/src/components/TextTranslate.tsx:61-79 | The new state is `Translate` of the old state and the reply. |
| TextTranslate.TextTranslator.HandleSwapLanguages | frontend/src/components/TextTranslate.tsx:82-132 | The new state is `Swap` of the old state and the reply, the delayed request included. |
| TranslationStatus.StatusName | frontend/src/App.tsx:13 | Each status has a non-empty name. |
| TranslationStatus.StatusNamesDistinct | frontend/src/App.tsx:13 | Different statuses have different names, so they get different labels. |
| TranslationStatus.Render | frontend/src/components/TranslationStatus.tsx:13-29 | An error with a message shows the message. Idle and completed show nothing, and only they do. Every other status, an error without a message included, shows the label `status.<name>`. |
| TranslationStatus.RenderMeaning | frontend/src/components/TranslationStatus.tsx:13-29 | The message is shown exactly for an error that carries one. A running job, whose inputs are disabled, always shows its phase. |
| LanguageSelect.WithoutAuto | frontend/src/components/LanguageSelect.tsx:29-31 | The filter keeps exactly the entries whose code is not `AUTO`. |
| LanguageSelect.WithoutAutoAppend | frontend/src/components/LanguageSelect.tsx:29-31 | The filter works entry by entry, so it keeps the order of what it keeps. |
| LanguageSelect.WithoutAutoKeeps | frontend/src/components/LanguageSelect.tsx:29-31 | A list without detection passes the filter unchanged. |
| LanguageSelect.FixedLanguages | frontend/src/components/LanguageSelect.tsx:19-31 | Filtering the four-entry list drops detection and leaves Indonesian, Chinese and English, in that order. |
| LanguageSelect.Offered | frontend/src/components/LanguageSelect.tsx:27-32 | A source selector offers detection unless told not to; a target selector never does. |
| LanguageSelect.OfferedMeaning | frontend/src/components/LanguageSelect.tsx:19-32 | Detection is offered exactly by a source selector that allows it. The fixed languages are always offered, in order, after detection when it is offered. |

## Left out

- Network, database and language-model calls (DeepL, Gemini, Feishu, Google Maps, SQLAlchemy sessions): each is an input that holds the reply the code inspects, or the way the request failed.
- Text of caught exceptions: an error the generic handlers turn into 500 keeps its status, and its `detail` text (the exception's string) is not modelled.
- Timers and concurrency: the 180 s upload abort is an `AbortError` reply, the swap's zero-delay timer runs inside the swap, and the 2 s reset after a job is the separate step `App.Page.ResetToIdle`. The waits between polls (1 s in the backend, 2 s in the page) are not modelled, only the number of polls.
- React state batching: each handler is one sequential step whose reads see the state before it.
- `isTranslating` of the text panel and the selectors' `onChange` plumbing: they only enable buttons and forward values.
- Locale lookups `t(...)`: messages are kept as their keys and are not translated.
- A non-`Error` value thrown in the frontend: the job model knows no such throw, so the `error.unexpected` message is not reached.
- `translateText`: the text panel imports it from `../services/api`, but that module exports only `TranslationResponse` and `translateDocument`, so the function is defined nowhere in the source. The model assumes a function that returns a fetch `Response`, and that reply is an input to `TextTranslate.Translate`.
- Case folding: `lower` and `upper` map ASCII letters only, where Python and the database also fold other scripts.
- UserRouter.SearchUsers: `%` and `_` inside the query are matched literally, where the database's `ILIKE` reads them as wildcards.
- LocalGlossaryManager.MatchingRows: the name filter matches `%`, `_` and `\` in the filter text literally, where `ILIKE` reads them as pattern characters.
- LocalGlossaryManager.Matches: the same literal matching of the name filter, which the row selection uses.
- LocalGlossaryManager.Search: the same literal matching of the name filter, so `LocalGlossaryManager.SearchMatches` and `LocalGlossaryManager.SearchPaging` speak of literal substring matches.
- Oauth.FeishuCallback: stores the single-clock expiry `ExpiresAt` (UTC time plus 168 hours), where the code stores local time plus 168 hours; the as-written expiry and the lifetime it gives are stated by `ExpiresAtAsWritten` and `Oauth.AsWrittenLifetimeFollowsTimeZone` (see Findings).
- Oauth.RefreshToken: the expiry it sets and returns is the single-clock `ExpiresAt`, where the code sets local time plus 168 hours, so on a server east of UTC the source accepts the token for longer than the 168 hours this contract promises (see Findings).
- The Feishu login URL (`feishu_login`), and the HTTP bearer scheme's own refusal of a request without an `Authorization` header, which happens in the framework before the token check.
- `updated_at` of a glossary entry: the table has no such column, so the model does not persist the assignment in `update_glossary_entry`; database failures other than a value too long for its column are not modelled.
- `distance_calculator.py`: float parsing and spreadsheet and Maps calls.
- `GlossarySyncManager`'s endless sync loop, the glossary file cache (`_cache_glossary`, `get_cached_glossary`), `stream_chunks`, `create_chunks_with_stats` (wall-clock floats), `process_large_file` and `check_glossary_size` (a float ratio).
- `get_glossary_details` as a whole: it calls `get_entries` with the wrong number of arguments and swallows the error, so its pagination and its TSV parsing are modelled as standalone functions.
- Sentence embeddings and the FAISS index of the retriever: the indices the search returns are an input.
- The python-docx, python-pptx, pypdf and markdown readers and plain-file reading: their paragraphs, table cells, shapes and pages are inputs, and only the joining of their text is modelled.
- TaskManager.TaskManager.ProcessNext: a cancel that arrives while a task is being computed is not modelled; the computation is one indivisible step.
- GlossaryManager.WithoutDictionary: the cache update of `delete_dictionary` is never reached in the source. After the DELETE succeeds, `get_cached_glossary` calls `_get_cache_path`, which is defined nowhere, so the call raises `AttributeError` before the filter runs. The function models the filter the code evidently means.
- GlossaryManager.ValidateGlossaryPayload: a `dictionaries` value of another type is a rejection. An empty `{}` or `""` would iterate without raising and be accepted; no caller builds one.
- Order of rows: the local glossary search has no `ORDER BY`, so its order is the database's choice, and the model lists matches in storage order (`LocalGlossaryManager.MatchingRows`). `UserRouter.GetUsers` leaves the order of users with the same `created_at` to the database, and the model keeps table order for them. `TaskManager.TaskManager.GetAllTasks` promises no order among tasks created at the same time, where Python's stable `sorted` keeps the order of the query.
- RagRetriever.Retriever.BuildIndex: content with no window makes reading the embedding width raise, which is rewrapped as "Index building error: ..."; this failure is not modelled, and the paper's windows become the empty list.
- TaskManager.TaskManager.AddTask: a failed commit (for example a file name longer than the 255 characters of its column) raises and adds no task; the model's commit always succeeds.
- GlossaryStore.Schema: `glossary_id` of an entry may be `NULL` in the table; the model has no entry without a glossary.
- TranslationApi.Poll: the loop is given the answers it receives, so a service that never answers "done" or "error" is a run that does not end, which the model does not represent; the poll is modelled over each finite prefix of answers.
- The thin paper-analyser, AI-manager and paper-processor wrappers, the UI tables and editors, the other service wrappers, the sign-in callback page, the locale tables and the build configuration.

## Findings

| source | as written | input that shows it | evidently intended | confidence | as-written member | corrected member |
|---|---|---|---|---|---|---|
| backend/auth/oauth.py:129 | The expiry of a new token is the server's local time plus 168 hours, and the token checks compare it with UTC. | A server at UTC+8 issues a token; a check 175 hours later still accepts it. | Expiry and check on one clock, so a token lives exactly 168 hours. | not executed | Oauth.AsWrittenLifetimeFollowsTimeZone | Oauth.TokenLifetimeExact |

The same local-time expiry is set again on refresh, at backend/auth/oauth.py:223. The model's `FeishuCallback` and `RefreshToken` use the corrected,
single-clock expiry.

## Code over documentation

Where the repository's own description and its code differ, the model follows the code:

- The text panel has no debounce, generation counter or translation cache; it translates on a button press only.
- The sign-in callback indexes `data['name']` before it checks that `data` is present, so a reply without data ends in `auth_failed` rather than `invalid_user_data`, and `no_tenant_key` cannot be reached behind the earlier missing-data check.
- The status and download endpoints raise `HTTPException` inside a `try` whose `except Exception` catches it, so an upstream refusal becomes a 500, the character limit on download excepted.
