# PDF Assistant core, modelled in Dafny

PDF Assistant answers questions about an uploaded PDF by retrieval-augmented
chat. This project models, and proves properties of, the text-processing and
decision logic around that chat:

- **Chunking** (`chunk_text`, pdf_processing.py). The text of each page is
  split into sentences at whitespace that follows `.`, `!` or `?` and precedes
  an ASCII capital letter (A-Z) or a digit. Blank sentences are dropped. The
  remaining sentences are packed in order. A sentence that would take a
  non-empty chunk past `chunk_size` words first flushes that chunk. When a
  chunk is flushed, its last `overlap` sentences seed the next one. So a chunk
  exceeds `chunk_size` words only when it holds a single sentence beyond the
  carried ones. A
  placeholder chunk is returned when no page has text. The defaults are the
  CHUNK_SIZE 900 and OVERLAP 40 of config.py. The packing decisions depend
  only on the word counts of the sentences, so the packing is specified over
  those counts.
- **Section labels** (`extract_section_info`, pdf_processing.py). Four heading
  patterns are tried in order on the first 200 characters of a page:
  `Chapter N`, `Section N.N`, a leading dotted number, and a leading number.
  Each is searched leftmost-first. The label is "g1: g2", or just g1.
- **Query rewriting** (`rewrite_query`, chat_utils.py). The scan looks for
  the first user turn directly followed by an assistant turn among the last
  five turns. It builds a prompt from that exchange and the query, and takes
  the language model's reply when it passes the length guards.
- **Retrieval results** (`query_index` after the search, and
  `format_context_from_results`, retrieval.py). Valid hits become results,
  which are sorted stably by distance. The results are then rendered as
  numbered excerpts between a header and a footer.
- **File names** (`safe_filename`, utils.py). Every character that is not
  alphanumeric or one of `-`, `_` and `.` becomes `_`.

Files: `wrappers.dfy` holds `Option`. `text.dfy` holds the Python string
primitives the core uses: `str.isspace`, `str.strip`, `str.split`,
`' '.join`, `str.lower`, `str.isalnum` and integer rendering. The other
files follow the source modules: `pdf_processing.dfy`, `section_info.dfy`
(the section-label part of pdf_processing.py), `chat_utils.dfy`,
`retrieval.dfy` and `utils.dfy`.

Each imperative routine of the source is a `method` with the same loops. It
is proved equal to a specification function, and the properties are lemmas
about that function. These methods are `ChunkText`/`ChunkPage`/`ScanSentence`/`AddSentence`/`FlushBuffer`,
`RewriteQuery`, `QueryIndex`/`SortResults` and `FormatContext`/`AddExcerpt`.

Where the code behaves differently from what its comments or the obvious
reading suggest, the model follows the code:

- The title of a heading (`(.+)`) runs to the end of the line. So
  "Chapter 1: A. B" is labelled "1: A. B", not "1: A" (`ChapterExample`).
- With a positive overlap, a chunk can exceed `chunk_size` by more than its
  last sentence. The carried sentences are not counted against the sentence
  that triggered the flush (`OverlapCanExceedBudget`).
- `rewrite_query` takes the first user→assistant pair of the window, although
  the comment at chat_utils.py:18 speaks of the most recent one.
- The relevance `1 - min(1, d/100)` is never negative. It exceeds 1 exactly
  when the distance is negative (`Relevance`).

## Model

| member | source | states |
|---|---|---|
| Text.Strip | pdf_processing.py:73 | `str.strip()`: the result is empty exactly when the input is blank, and otherwise starts and ends with a non-whitespace character |
| Text.StripSlice | pdf_processing.py:73 | what `strip` keeps is a slice of the input with only whitespace before it and after it |
| Text.StripIdempotent | chat_utils.py:58 | stripping a stripped string changes nothing |
| Text.WordCount | pdf_processing.py:88 | `len(s.split())`: at most one word per character |
| Text.WordCountZeroIffBlank | pdf_processing.py:84-88 | a sentence has no word exactly when it is blank |
| Text.JoinSpaceHasPart | pdf_processing.py:92 | every sentence joined into a chunk occurs whole in the chunk's content |
| Text.NatToStringRoundTrip | retrieval.py:49 | rendering a number in decimal and reading it back gives the number |
| Text.NatToStringInjective | retrieval.py:49 | distinct page or excerpt numbers render differently |
| PdfProcessing.SplitFrom | pdf_processing.py:77 | `re.split(r'(?<=[.!?])\s+(?=[A-Z0-9])', text)` always gives at least one piece |
| PdfProcessing.SplitRejoin | pdf_processing.py:77 | putting the removed separators back between the pieces gives the text, so the pieces are the slices between the matches |
| PdfProcessing.SplitSeparators | pdf_processing.py:77 | each removed separator is a non-empty whitespace run after a piece that ends with '.', '!' or '?' and before a piece that starts with a capital or a digit |
| PdfProcessing.SplitUnbroken | pdf_processing.py:77 | no piece holds a place where the separator pattern matches |
| PdfProcessing.SplitKeepsText | pdf_processing.py:77 | a text with a non-whitespace character splits into at least one piece that has one |
| PdfProcessing.SplitFromBlank | pdf_processing.py:77 | every piece of a blank text is blank |
| PdfProcessing.NonBlankKeeps | pdf_processing.py:84-85 | skipping blank sentences keeps every sentence with text |
| PdfProcessing.NonBlankHasText | pdf_processing.py:84-85 | every sentence that is not skipped has text |
| PdfProcessing.SentencesEmptyIffBlank | pdf_processing.py:73-85 | a page has a sentence left to chunk exactly when its text is not blank |
| PdfProcessing.Kept | pdf_processing.py:100-101 | the kept sentences are never more than the buffer; none exactly when the overlap is not positive or the buffer is empty; `overlap` of them when it fits, the whole buffer when it does not |
| PdfProcessing.KeptIsMin | pdf_processing.py:100-101 | for a positive overlap the kept count is `min(overlap, len(current_chunk))`: at most both, and equal to one of them; 0 otherwise |
| PdfProcessing.PackFrom | pdf_processing.py:82-115 | the spans emitted from a buffer state: none exactly when the buffer is empty and no sentence is left; the first starts at the buffer, the last ends at the last sentence |
| PdfProcessing.PackBounds | pdf_processing.py:82-115 | every chunk of a page is a non-empty run of consecutive sentences |
| PdfProcessing.PackFromLinks | pdf_processing.py:91-102 | each chunk after the first starts with the kept tail of the previous one, and the previous one was flushed because the next sentence did not fit |
| PdfProcessing.PackFromCovers | pdf_processing.py:82-115 | every sentence lies in some chunk |
| PdfProcessing.PackFromBudget | pdf_processing.py:91 | every chunk, carried sentences included, fits the word budget unless it adds exactly one sentence past the end of the previous chunk |
| PdfProcessing.PageSpans | pdf_processing.py:68-115 | the spans of a page are runs of its sentences, none for a blank page |
| PdfProcessing.PageChunksEmptyIffBlank | pdf_processing.py:73-74 | a page yields chunks exactly when it has text |
| PdfProcessing.PageChunkShape | pdf_processing.py:93-97 | each chunk carries its page's number and section, and its content has text |
| PdfProcessing.PageChunksCover | pdf_processing.py:82-115 | no text is lost: every kept sentence of a page occurs whole in some chunk of that page |
| PdfProcessing.PackOverlap | pdf_processing.py:99-102 | consecutive chunks overlap: the next starts with the last `Kept` sentences of the previous, then the sentence that overflowed it |
| PdfProcessing.NoOverlapWithinBudget | pdf_processing.py:91 | with no overlap, every chunk fits `chunk_size` words or is a single sentence |
| PdfProcessing.ExampleCounts | pdf_processing.py:88 | "a b c." and "D e f." have three words each |
| PdfProcessing.TwoSentencePack | pdf_processing.py:88-115 | two 3-word sentences under budget 5 and overlap 1 give a chunk of sentence 0, then one of sentences 0 and 1 |
| PdfProcessing.OverlapCanExceedBudget | pdf_processing.py:99-106 | with overlap 1 and budget 5, two 3-word sentences make a 6-word second chunk |
| PdfProcessing.ChunkPagesEmptyIffAllBlank | pdf_processing.py:68-115 | no chunk is produced exactly when every page is blank |
| PdfProcessing.ChunksOfPlaceholder | pdf_processing.py:117-123 | the placeholder is returned exactly when every page is blank; otherwise the page chunks, non-empty |
| PdfProcessing.ChunkProvenance | pdf_processing.py:93-97 | every chunk has text and comes from a page with text whose number and section it carries |
| PdfProcessing.KeptTail | pdf_processing.py:100-102 | the carried sentences are the last `Kept` sentences of the buffer |
| PdfProcessing.FlushBuffer | pdf_processing.py:91-102 | a flush appends the buffer, joined, as a chunk; the new buffer is its `KeptTail` and the new length that tail's word count; the loop state stays in step with the spans |
| PdfProcessing.AddSentence | pdf_processing.py:88-106 | when the sentence's words would take a non-empty buffer past the budget, the buffer is emitted as a chunk and the sentence follows its `KeptTail`; otherwise it is appended and the chunks stay; the length grows by its word count; the buffer invariant is kept |
| PdfProcessing.ScanSentence | pdf_processing.py:82-106 | a blank sentence leaves the buffer, its length and the chunks unchanged; any other is added as `AddSentence` states |
| PdfProcessing.FinalFlush | pdf_processing.py:108-115 | flushing the last buffer completes the chunks of the page |
| PdfProcessing.ChunkPage | pdf_processing.py:69-115 | the loop over a page's sentences produces exactly that page's chunks |
| PdfProcessing.ChunkText | pdf_processing.py:64-125 | `chunk_text` returns the chunks of all pages in order, or the placeholder; never an empty list |
| SectionInfo.DigitRunEnd | pdf_processing.py:10-13 | the greedy `\d+` run: all digits, and no digit right after it |
| SectionInfo.RomanRunEnd | pdf_processing.py:10 | the greedy `[IVX]+` run |
| SectionInfo.LineEnd | pdf_processing.py:10-13 | the greedy `.+`: no newline inside, and a newline or the end right after |
| SectionInfo.DottedEndSound | pdf_processing.py:11-12 | the number matched by `\d+\.\d+(?:\.\d+)*` is a dotted number and cannot be extended |
| SectionInfo.DottedEndComplete | pdf_processing.py:11-12 | whenever a dotted number starts at a position, the pattern matches there |
| SectionInfo.LastOffNewline | pdf_processing.py:10-13 | the backtracking point of `\s*(.+)`: the last non-newline whitespace before the end |
| SectionInfo.TitleStart | pdf_processing.py:10-13 | group `(.+)` starts after at least the required whitespace, at a non-newline character |
| SectionInfo.Title | pdf_processing.py:10-13 | the title group is never empty and never spans lines |
| SectionInfo.OptionalTitle | pdf_processing.py:10-11 | the optional `\s*[:\.]\s*(.+)` tail gives a non-empty single-line title when it matches |
| SectionInfo.ChapterAt | pdf_processing.py:10 | a chapter match starts with "Chapter" or "CHAPTER" followed by whitespace, and its first group is not empty |
| SectionInfo.SectionAt | pdf_processing.py:11 | a section match starts with "Section" or "SECTION" followed by whitespace, and its first group is not empty |
| SectionInfo.DottedAt | pdf_processing.py:12 | the anchored dotted pattern matches only at the start, with a non-empty number and a title |
| SectionInfo.NumberedAt | pdf_processing.py:13 | the anchored numbered pattern matches only at the start, with a non-empty number and a title |
| SectionInfo.MatchAtShape | pdf_processing.py:10-13 | group 1 is a number, a Roman numeral or a dotted number as the pattern says; the anchored patterns match only at the start and always have a title |
| SectionInfo.Attempts | pdf_processing.py:16 | one match attempt per position, end of text included |
| SectionInfo.Leftmost | pdf_processing.py:16 | the first successful attempt: every earlier one failed |
| SectionInfo.SearchLeftmost | pdf_processing.py:16 | `re.search` finds a match exactly when the pattern matches somewhere, and returns the leftmost one |
| SectionInfo.FirstMatch | pdf_processing.py:15-17 | the first pattern in list order that matches; all earlier ones fail |
| SectionInfo.Prefix | pdf_processing.py:16 | `text[:200]`: at most 200 characters, a prefix, the whole text when shorter |
| SectionInfo.ExtractSectionInfo | pdf_processing.py:7-22 | the label is "" exactly when no pattern matches the first 200 characters |
| SectionInfo.ExtractSectionInfoSpec | pdf_processing.py:7-22 | the label is "" exactly when no pattern matches; otherwise "g1: g2" or g1 from the first matching pattern |
| SectionInfo.WindowOnly | pdf_processing.py:16 | pages that agree on their first 200 characters get the same label |
| SectionInfo.ChapterExample | pdf_processing.py:10-19 | "Chapter 1: A. B" is labelled "1: A. B" |
| SectionInfo.ChapterMatchExample | pdf_processing.py:10 | the chapter pattern on "Chapter 1: A. B" gives groups "1" and "A. B" |
| SectionInfo.RomanMatchExample | pdf_processing.py:10 | on "CHAPTER IV\nA" the title group does not take part |
| SectionInfo.RomanExample | pdf_processing.py:20-21 | "CHAPTER IV\nA" is labelled "IV" |
| SectionInfo.NumberedMatchExample | pdf_processing.py:12-13 | "12 Aim" fails the dotted pattern and matches the numbered one |
| SectionInfo.NoKeywordExample | pdf_processing.py:10-11 | the keyword patterns find nothing in "12 Aim" |
| SectionInfo.NumberedExample | pdf_processing.py:15-19 | "12 Aim" is labelled "12: Aim" by the fourth pattern |
| ChatUtils.Window | chat_utils.py:12 | the window holds five turns, or all of them when there are fewer |
| ChatUtils.WindowIsLastTurns | chat_utils.py:12 | the window is the last turns of the history, in their order |
| ChatUtils.FirstExchangeLeast | chat_utils.py:19-24 | the exchange found is a user turn followed by an assistant turn, and no earlier position holds one; none is found only when there is none |
| ChatUtils.RoleIsLower | chat_utils.py:20-21 | the role test is `role.lower() == name` |
| ChatUtils.Truncate | chat_utils.py:32-35 | a text longer than `n` becomes its first `n` characters followed by exactly "..."; a shorter one is unchanged |
| ChatUtils.Take | chat_utils.py:41 | `s[:n]`: a prefix of at most `n` characters, all of `s` when shorter |
| ChatUtils.Accepted | chat_utils.py:58-62 | the reply is taken exactly when its stripped form has 5 to 3·len(query) characters, and then it is the stripped reply |
| ChatUtils.RewriteQuery | chat_utils.py:1-69 | the method returns `rewrite_query`'s result and sends the client exactly the prompt of the specification |
| ChatUtils.RewriteFromExchange | chat_utils.py:27-64 | from the exchange on: no call when a text is empty; otherwise the truncated prompt, and the reply when it passes the guards |
| ChatUtils.ShortHistoryUnchanged | chat_utils.py:7-8 | with fewer than two turns the query is returned and the client is not called |
| ChatUtils.RewriteBounds | chat_utils.py:58-64 | the result is the query, or the stripped reply of the client, 5 to 3·len(query) characters long |
| ChatUtils.RewriteNeverEmpty | chat_utils.py:61-64 | the result is empty only when the query is |
| ChatUtils.FailureFallsBack | chat_utils.py:66-69 | a client that always fails leaves the query unchanged |
| ChatUtils.PromptSentIff | chat_utils.py:7-28 | the client is called exactly when there are two turns or more and the first exchange of the window has a non-empty question and answer |
| ChatUtils.PromptContents | chat_utils.py:32-42 | the prompt carries the question truncated to 500 characters plus "...", the first 300 characters of the answer, and the query; the 1000-character truncation never shows |
| Retrieval.SectionLabel | retrieval.py:23 | `section or "N/A"`: never empty, the chunk's section when it has one |
| Retrieval.SourceLabel | retrieval.py:30 | the label starts with "PDF Page p", ends with the section when it is not "N/A", and is just the page part exactly when it is |
| Retrieval.Assemble | retrieval.py:20-31 | at most one result per hit |
| Retrieval.ValidHits | retrieval.py:20-21 | the positions of the hits with a valid index: all of them, each once, in search order |
| Retrieval.SortByScore | retrieval.py:34 | the sort keeps the number of results |
| Retrieval.SortResults | retrieval.py:34 | the sort produces the stable sort by score |
| Retrieval.QueryIndex | retrieval.py:16-39 | the loop and sort produce `query_index`'s result for the hits |
| Retrieval.AssembleFailureStays | retrieval.py:29-39 | once reading a distance fails, the whole assembly fails |
| Retrieval.AssembleFails | retrieval.py:20-29 | assembly fails exactly when a valid hit has no distance |
| Retrieval.AssembleSound | retrieval.py:20-31 | a successful assembly has no missing distance and is exactly the results of the valid hits, each once, in search order |
| Retrieval.AssembleExact | retrieval.py:20-31 | when every valid hit has a distance, the assembly succeeds with the valid hits' results in search order |
| Retrieval.AssembleComplete | retrieval.py:20-31 | every hit with a valid index gives a result |
| Retrieval.InsertAt | retrieval.py:34 | inserting by a forward scan puts the result before the first one with a greater score |
| Retrieval.SortByScoreSpec | retrieval.py:34 | the sort orders by score, is a permutation, and keeps results of equal score in search order |
| Retrieval.SearchFailureEmpty | retrieval.py:37-39 | a failing search gives no results |
| Retrieval.QueryIndexSpec | retrieval.py:16-36 | at most one result per hit; results come only from valid hits; none when a distance is missing; otherwise a permutation of the valid hits' results, ascending by score |
| Retrieval.QueryIndexStable | retrieval.py:20-34 | results with the same score come out in the order the search returned their hits |
| Retrieval.ResultOfSpec | retrieval.py:22-31 | content, page and score are copied; the section is the chunk's or "N/A"; the source is "PDF Page p, Section: s", or "PDF Page p" when the section is "N/A" |
| Retrieval.Fixed2 | retrieval.py:55 | `:.2f` rendering: at least four characters |
| Retrieval.Fixed2Spec | retrieval.py:55 | the rendering is digits, a point and two digits, which read back as the hundredths nearest the value |
| Retrieval.Relevance | retrieval.py:54 | relevance is never negative, is at most 1 exactly for non-negative distances, and is 0 from distance 100 on |
| Retrieval.RelevanceMonotone | retrieval.py:54 | a larger distance never gives a larger relevance |
| Retrieval.RelevanceDescending | retrieval.py:34-55 | in `query_index`'s output relevance never increases from one result to the next |
| Retrieval.FormatContext | retrieval.py:41-61 | the accumulating loop produces the specified context |
| Retrieval.AddExcerpt | retrieval.py:49-58 | one iteration appends exactly the excerpt of its result to the context |
| Retrieval.FormatEmptyIff | retrieval.py:43-44 | the context is the "No relevant information" sentence exactly when there are no results |
| Retrieval.FormatFrame | retrieval.py:46-61 | a non-empty context starts with the header and ends with the footer |
| Retrieval.ExcerptsPrefix | retrieval.py:48-58 | the excerpts of a prefix of the results are a prefix of all the excerpts |
| Retrieval.ExcerptAt | retrieval.py:48-58 | result k appears as excerpt number k+1, right after the excerpts of the results before it |
| Retrieval.Excerpt | retrieval.py:49-58 | an excerpt opens with "[EXCERPT n - Page p" and ends with ", Relevance: x.xx]", a line break, the content and a blank line; between them stands ", Section: s" when the section is non-empty and not "N/A", and nothing otherwise |
| Retrieval.ExcerptShape | retrieval.py:49-58 | an excerpt is "[EXCERPT n - Page p, Section: s, Relevance: x.xx]\n" followed by the content and "\n\n" when the section is non-empty and not "N/A", and the same without the section part otherwise |
| Utils.SafeChar | utils.py:63 | the replacement is a safe character; a safe character is kept, any other becomes '_' |
| Utils.SafeFilename | utils.py:61-63 | the result has the input's length, and each position holds the replaced character |
| Utils.SafeFilenameSafe | utils.py:63 | every output character is alphanumeric or one of '-', '_', '.' |
| Utils.SafeFilenameFixed | utils.py:63 | a name is unchanged exactly when all its characters are safe |
| Utils.SafeFilenameIdempotent | utils.py:63 | sanitising twice is the same as sanitising once |

## Left out

- `parse_pdf` (pdf_processing.py:24-62) reads the PDF through pymupdf. Its
  output is an input here: a sequence of pages in the order the dictionary
  stores them, each with a number, a text and a section.
- The embedding of the query and the FAISS search (retrieval.py:9-17) are
  foreign. Their answer is an input: the distances and indices of the hits,
  or a failure. `top_k` only reaches that search. Loading the model and
  encoding the query (retrieval.py:9-13) happen before the `try`, so their
  exceptions leave `query_index`; they are not modelled. Only a failing
  search, or a failure while the results are assembled, gives `[]`.
- The LLM client of `rewrite_query` is a total function from the prompt to a
  reply, `None` standing for any exception. The prompt is modelled by the
  three texts it is built from. Its fixed wording, the system message, the
  model name, the temperature and the token limit (chat_utils.py:38-56) are
  not modelled.
- Logging (`print`) on the error paths is not modelled.
- Unicode: whitespace, `isalnum` and `lower` are exact on Latin-1 only.
  Other alphanumeric characters (Greek or CJK letters, say) count as unsafe
  in `SafeFilename`.
- In Python's `re`, `\d` matches any Unicode decimal digit and `\s` any
  Unicode whitespace. The section patterns and the sentence split here match
  ASCII digits and Latin-1 whitespace only.
- Text.Strip, Text.WordCount: whitespace beyond Latin-1 is not treated as
  whitespace.
- Retrieval.Fixed2: rounds half up on exact reals. Python rounds the binary
  value of a float half to even, so values exactly half-way between two
  hundredths may render differently.
- Distances are reals, not float32.
- Messages and chunks are typed records. A missing `role`, `content` or
  `section` key reads as "", as the code's defaults say. A non-string value
  (which would raise and be caught in `rewrite_query`) is not modelled.
- app.py, embedding.py and the rest of utils.py (cache handling, session
  ids, directory creation) are file system, UI and foreign-library glue. They
  are not part of this model.
